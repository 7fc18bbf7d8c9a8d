/**
 * String primitives used by the four scripts: prefix and substring tests,
 * PHP's trim family, str_replace, splitting and joining on one character,
 * ASCII lower-casing and the byte-wise ordering Ruby uses to sort paths.
 * Strings are `seq<char>`; nothing here decodes or normalises text.
 */
module Strings {
  import opened Wrappers

  /** The characters PHP's trim() removes when no character list is given. */
  const PhpWhitespace: set<char> := {' ', '\t', '\n', '\r', '\0', '\U{000B}'}

  predicate StartsWith(s: string, prefix: string) {
    |prefix| <= |s| && s[..|prefix|] == prefix
  }

  predicate EndsWith(s: string, suffix: string) {
    |suffix| <= |s| && s[|s| - |suffix|..] == suffix
  }

  /** `p` occurs in `s` at index `i`. */
  predicate Occurs(s: string, p: string, i: int) {
    0 <= i && i + |p| <= |s| && s[i..i + |p|] == p
  }

  /** Occurrences in `s` at index `j + 1` are occurrences in `s[1..]` at `j`. */
  lemma OccursTail(s: string, p: string)
    requires |s| > 0
    ensures forall j :: 1 <= j ==> (Occurs(s, p, j) <==> Occurs(s[1..], p, j - 1))
  {
    forall j | 1 <= j
      ensures Occurs(s, p, j) <==> Occurs(s[1..], p, j - 1)
    {
      if j + |p| <= |s| {
        assert s[1..][j - 1..j - 1 + |p|] == s[j..j + |p|];
      }
    }
  }

  /** The index of the leftmost occurrence of `p` in `s` (strpos, String.includes). */
  function Find(s: string, p: string): (r: Option<nat>)
    ensures r.Some? ==> Occurs(s, p, r.value)
    ensures r.Some? ==> forall j :: 0 <= j < r.value ==> !Occurs(s, p, j)
    ensures r.None? ==> forall j :: !Occurs(s, p, j)
    decreases |s|
  {
    if StartsWith(s, p) then Some(0)
    else if |s| == 0 then None
    else
      OccursTail(s, p);
      match Find(s[1..], p)
      case Some(i) => Some(i + 1)
      case None => None
  }

  /** A later first occurrence, seen from the second character on. */
  lemma FindTail(s: string, p: string, i: nat)
    requires Find(s, p) == Some(i) && i > 0
    ensures !StartsWith(s, p)
    ensures Find(s[1..], p) == Some(i - 1)
  {
    assert !Occurs(s, p, 0);
  }

  predicate Contains(s: string, p: string) {
    Find(s, p).Some?
  }

  /** Any occurrence makes `Contains` hold. */
  lemma OccursContains(s: string, p: string, i: int)
    requires Occurs(s, p, i)
    ensures Contains(s, p)
  {
  }

  /** An occurrence inside the middle part is an occurrence in the whole. */
  lemma ContainsInMiddle(a: string, m: string, b: string, p: string)
    requires Contains(m, p)
    ensures Contains(a + m + b, p)
  {
    var i := Find(m, p).value;
    var t := a + m + b;
    assert t[|a| + i..|a| + i + |p|] == m[i..i + |p|];
    OccursContains(t, p, |a| + i);
  }

  /** Joined parts contain whatever one part contains. */
  lemma {:induction false} ContainsInJoin(parts: seq<string>, c: char, k: nat, p: string)
    requires k < |parts| && Contains(parts[k], p)
    ensures Contains(Join(parts, c), p)
    decreases |parts|
  {
    if |parts| == 1 {
    } else if k == 0 {
      ContainsInMiddle("", parts[0], [c] + Join(parts[1..], c), p);
      assert "" + parts[0] + ([c] + Join(parts[1..], c)) == Join(parts, c);
    } else {
      ContainsInJoin(parts[1..], c, k - 1, p);
      ContainsInMiddle(parts[0] + [c], Join(parts[1..], c), "", p);
      assert parts[0] + [c] + Join(parts[1..], c) + "" == Join(parts, c);
    }
  }

  /** A prefix of a prefix is a prefix. */
  lemma StartsWithPrefix(s: string, p: string, q: string)
    requires StartsWith(s, p + q)
    ensures StartsWith(s, p)
  {
    assert s[..|p|] == (p + q)[..|p|];
  }

  /** A suffix of a suffix is a suffix. */
  lemma EndsWithSuffix(s: string, p: string, q: string)
    requires EndsWith(s, p + q)
    ensures EndsWith(s, q)
  {
    assert s[|s| - |q|..] == (p + q)[|p|..];
  }

  /** Concatenation regrouped to the left. */
  lemma Regroup<T>(a: seq<T>, b: seq<T>, c: seq<T>, d: seq<T>)
    ensures a + (b + (c + d)) == a + b + c + d
  {
  }

  /** Concatenation regrouped to the left. */
  lemma Regroup3<T>(a: seq<T>, b: seq<T>, c: seq<T>)
    ensures a + (b + c) == a + b + c
  {
  }

  /** The index of the first character of `s` that is in `cs`, or `|s|` if there is none. */
  function IndexOfAny(s: string, cs: set<char>): (k: nat)
    ensures k <= |s|
    ensures k < |s| ==> s[k] in cs
    ensures forall i :: 0 <= i < k ==> s[i] !in cs
  {
    if |s| == 0 then 0
    else if s[0] in cs then 0
    else
      var k' := IndexOfAny(s[1..], cs);
      assert forall i :: 1 <= i < 1 + k' ==> s[i] == s[1..][i - 1];
      1 + k'
  }

  /** The contract of IndexOfAny pins its result down. */
  lemma IndexOfAnyAt(s: string, cs: set<char>, n: nat)
    requires n <= |s|
    requires forall i :: 0 <= i < n ==> s[i] !in cs
    requires n < |s| ==> s[n] in cs
    ensures IndexOfAny(s, cs) == n
  {
  }

  /** PHP ltrim($s, $cs): the longest suffix of `s` not starting with a character of `cs`. */
  function TrimLeft(s: string, cs: set<char>): (r: string)
    ensures EndsWith(s, r)
    ensures |r| > 0 ==> r[0] !in cs
    ensures forall i :: 0 <= i < |s| - |r| ==> s[i] in cs
  {
    if |s| > 0 && s[0] in cs then
      var r := TrimLeft(s[1..], cs);
      assert forall i :: 1 <= i < |s| - |r| ==> s[i] == s[1..][i - 1];
      r
    else s
  }

  /** PHP rtrim($s, $cs): the longest prefix of `s` not ending with a character of `cs`. */
  function TrimRight(s: string, cs: set<char>): (r: string)
    ensures StartsWith(s, r)
    ensures |r| > 0 ==> r[|r| - 1] !in cs
    ensures forall i :: |r| <= i < |s| ==> s[i] in cs
  {
    if |s| > 0 && s[|s| - 1] in cs then
      var r := TrimRight(s[..|s| - 1], cs);
      assert forall i :: |r| <= i < |s| - 1 ==> s[i] == s[..|s| - 1][i];
      r
    else s
  }

  /** PHP trim($s, $cs). */
  function Trim(s: string, cs: set<char>): (r: string)
    ensures |r| > 0 ==> r[0] !in cs && r[|r| - 1] !in cs
  {
    TrimRight(TrimLeft(s, cs), cs)
  }

  /** trim removes only characters of `cs`: everything around the result is in `cs`. */
  lemma TrimRemovesOnly(s: string, cs: set<char>)
    ensures var r := Trim(s, cs);
            exists i :: Occurs(s, r, i) && (forall j :: 0 <= j < i ==> s[j] in cs)
                        && (forall j :: i + |r| <= j < |s| ==> s[j] in cs)
  {
    var l := TrimLeft(s, cs);
    var r := TrimRight(l, cs);
    assert Trim(s, cs) == r;
    PrefixOfSuffix(s, l, r);
  }

  /** A prefix `r` of a suffix `l` of `s` sits in `s` where `l` starts. */
  lemma PrefixOfSuffix(s: string, l: string, r: string)
    requires EndsWith(s, l) && StartsWith(l, r)
    ensures Occurs(s, r, |s| - |l|)
    ensures forall j :: |s| - |l| + |r| <= j < |s| ==> s[j] == l[j - (|s| - |l|)]
  {
    var i := |s| - |l|;
    assert l == s[i..];
    assert s[i..i + |r|] == s[i..][..|r|];
  }

  /** Trimming the left twice is trimming it once. */
  lemma TrimLeftTwice(s: string, cs: set<char>)
    ensures TrimLeft(TrimLeft(s, cs), cs) == TrimLeft(s, cs)
    ensures Trim(TrimLeft(s, cs), cs) == Trim(s, cs)
  {
  }

  /** A string whose first and last characters are outside `cs` is its own trim. */
  lemma TrimKeeps(s: string, cs: set<char>)
    requires |s| > 0 ==> s[0] !in cs && s[|s| - 1] !in cs
    ensures Trim(s, cs) == s
  {
  }

  /**
   * PHP str_replace($needle, $rep, $s): scans left to right and replaces every
   * non-overlapping occurrence; an empty needle leaves the subject alone.
   */
  function ReplaceAll(s: string, needle: string, rep: string): string
    decreases |s|
  {
    if |needle| == 0 then s
    else if StartsWith(s, needle) then rep + ReplaceAll(s[|needle|..], needle, rep)
    else if |s| == 0 then s
    else [s[0]] + ReplaceAll(s[1..], needle, rep)
  }

  /** Replacing a needle that does not occur changes nothing. */
  lemma {:induction false} ReplaceAllAbsent(s: string, needle: string, rep: string)
    requires !Contains(s, needle)
    ensures ReplaceAll(s, needle, rep) == s
    decreases |s|
  {
    if |needle| > 0 {
      assert !Occurs(s, needle, 0);
      if |s| > 0 {
        OccursTail(s, needle);
        ReplaceAllAbsent(s[1..], needle, rep);
        assert s == [s[0]] + s[1..];
      }
    }
  }

  /** Replacing a needle by itself changes nothing. */
  lemma {:induction false} ReplaceAllSelf(s: string, needle: string)
    ensures ReplaceAll(s, needle, needle) == s
    decreases |s|
  {
    if |needle| > 0 {
      if StartsWith(s, needle) {
        ReplaceAllSelf(s[|needle|..], needle);
        assert s == needle + s[|needle|..];
      } else if |s| > 0 {
        ReplaceAllSelf(s[1..], needle);
        assert s == [s[0]] + s[1..];
      }
    }
  }

  /**
   * The first occurrence is replaced wherever it sits, the text before it is
   * kept, and the scan goes on right after it.
   */
  lemma ReplaceAllAtFirst(x: string, needle: string, y: string, rep: string)
    requires |needle| > 0 && Find(x + needle + y, needle) == Some(|x|)
    ensures ReplaceAll(x + needle + y, needle, rep) == x + rep + ReplaceAll(y, needle, rep)
  {
    ReplacesFirstAt(x, needle, y, rep);
  }

  /** Replacing in x + needle + y keeps x, replaces the needle and goes on in y. */
  ghost predicate ReplacedAfter(x: string, needle: string, y: string, rep: string) {
    ReplaceAll(x + needle + y, needle, rep) == x + rep + ReplaceAll(y, needle, rep)
  }

  lemma {:induction false} ReplacesFirstAt(x: string, needle: string, y: string, rep: string)
    requires |needle| > 0 && Find(x + needle + y, needle) == Some(|x|)
    ensures ReplacedAfter(x, needle, y, rep)
    decreases |x|
  {
    if |x| == 0 {
      ReplaceAllLeading(needle, y, rep);
      assert x + needle + y == needle + y;
      assert x + rep + ReplaceAll(y, needle, rep) == rep + ReplaceAll(y, needle, rep);
    } else {
      FindShift(x, needle, y);
      ReplacesFirstAt(x[1..], needle, y, rep);
      ReplaceStep(x, needle, y, rep);
    }
  }

  /** The first occurrence at |x| > 0 is the first occurrence at |x| - 1 of the tail. */
  lemma FindShift(x: string, needle: string, y: string)
    requires |x| > 0 && Find(x + needle + y, needle) == Some(|x|)
    ensures !StartsWith(x + needle + y, needle)
    ensures Find(x[1..] + needle + y, needle) == Some(|x[1..]|)
  {
    var s := x + needle + y;
    FindTail(s, needle, |x|);
    assert s[1..] == x[1..] + needle + y;
  }

  /** Putting back a first character where no needle starts. */
  lemma ReplaceStep(x: string, needle: string, y: string, rep: string)
    requires |x| > 0 && |needle| > 0 && !StartsWith(x + needle + y, needle)
    requires ReplacedAfter(x[1..], needle, y, rep)
    ensures ReplacedAfter(x, needle, y, rep)
  {
    var s := x + needle + y;
    assert s[1..] == x[1..] + needle + y;
    ReplaceAllKeepsFirst(s, needle, rep);
    var r := ReplaceAll(y, needle, rep);
    assert [x[0]] + (x[1..] + rep + r) == x + rep + r by {
      assert x == [x[0]] + x[1..];
    }
    assert s[0] == x[0];
  }

  /** Where the needle does not start, the first character is kept. */
  lemma ReplaceAllKeepsFirst(s: string, needle: string, rep: string)
    requires |needle| > 0 && |s| > 0 && !StartsWith(s, needle)
    ensures ReplaceAll(s, needle, rep) == [s[0]] + ReplaceAll(s[1..], needle, rep)
  {
  }

  /** A subject that starts with the needle has that occurrence replaced first. */
  lemma ReplaceAllLeading(needle: string, s: string, rep: string)
    requires |needle| > 0
    ensures ReplaceAll(needle + s, needle, rep) == rep + ReplaceAll(s, needle, rep)
  {
    var a := needle + s;
    assert a[..|needle|] == needle;
    assert a[|needle|..] == s;
  }

  /** A subject that is exactly the needle becomes exactly the replacement. */
  lemma ReplaceAllWhole(needle: string, rep: string)
    requires |needle| > 0
    ensures ReplaceAll(needle, needle, rep) == rep
  {
    assert needle[|needle|..] == "";
  }

  /** The parts of `parts` separated by `c` (Array.join, implode). */
  function Join(parts: seq<string>, c: char): string {
    if |parts| == 0 then ""
    else if |parts| == 1 then parts[0]
    else parts[0] + [c] + Join(parts[1..], c)
  }

  /**
   * JavaScript's String.split / PHP's explode on one character: always at
   * least one part, no part holds the separator, and joining gives `s` back.
   */
  function Split(s: string, c: char): (r: seq<string>)
    ensures |r| >= 1
    ensures forall i :: 0 <= i < |r| ==> c !in r[i]
    ensures Join(r, c) == s
    decreases |s|
  {
    var k := IndexOfAny(s, {c});
    if k == |s| then
      assert c !in s;
      [s]
    else
      var rest := Split(s[k + 1..], c);
      var r := [s[..k]] + rest;
      assert r[1..] == rest;
      assert s == s[..k] + [c] + s[k + 1..];
      r
  }

  /** Splitting text that starts with a separator-free line peels that line off. */
  lemma SplitCons(a: string, c: char, b: string)
    requires c !in a
    ensures Split(a + [c] + b, c) == [a] + Split(b, c)
  {
    var s := a + [c] + b;
    var k := IndexOfAny(s, {c});
    assert s[|a|] == c;
    assert k == |a|;
    assert s[..k] == a;
    assert s[k + 1..] == b;
  }

  /** Text without the separator splits into itself. */
  lemma SplitNone(a: string, c: char)
    requires c !in a
    ensures Split(a, c) == [a]
  {
  }

  /** The first part runs up to the first separator, or to the end. */
  lemma SplitFirst(s: string, c: char)
    ensures Split(s, c)[0] == s[..IndexOfAny(s, {c})]
  {
  }

  /** Join and Split are inverse on separator-free parts. */
  lemma {:induction false} SplitJoin(parts: seq<string>, c: char)
    requires |parts| >= 1
    requires forall i :: 0 <= i < |parts| ==> c !in parts[i]
    ensures Split(Join(parts, c), c) == parts
    decreases |parts|
  {
    if |parts| == 1 {
      SplitNone(parts[0], c);
    } else {
      SplitCons(parts[0], c, Join(parts[1..], c));
      SplitJoin(parts[1..], c);
      assert parts == [parts[0]] + parts[1..];
    }
  }

  /** Joining a concatenation puts one separator between the two joins. */
  lemma {:induction false} JoinAppend(a: seq<string>, b: seq<string>, c: char)
    requires |a| >= 1 && |b| >= 1
    ensures Join(a + b, c) == Join(a, c) + [c] + Join(b, c)
    decreases |a|
  {
    if |a| == 1 {
      assert (a + b)[1..] == b;
    } else {
      assert (a + b)[1..] == a[1..] + b;
      JoinAppend(a[1..], b, c);
    }
  }

  /** Concatenating separator-free parts keeps every part separator-free. */
  lemma PartsAppend(a: seq<string>, b: seq<string>, c: char)
    requires forall i :: 0 <= i < |a| ==> c !in a[i]
    requires forall i :: 0 <= i < |b| ==> c !in b[i]
    ensures forall i :: 0 <= i < |a + b| ==> c !in (a + b)[i]
  {
    forall i | 0 <= i < |a + b| ensures c !in (a + b)[i] {
      if i < |a| { assert (a + b)[i] == a[i]; } else { assert (a + b)[i] == b[i - |a|]; }
    }
  }

  /** Splitting two texts joined by the separator splits each of them. */
  lemma SplitAppend(a: string, c: char, b: string)
    ensures Split(a + [c] + b, c) == Split(a, c) + Split(b, c)
  {
    var pa := Split(a, c);
    var pb := Split(b, c);
    JoinAppend(pa, pb, c);
    PartsAppend(pa, pb, c);
    SplitJoin(pa + pb, c);
  }

  function LowerChar(ch: char): char {
    if 'A' <= ch <= 'Z' then (ch as int - 'A' as int + 'a' as int) as char else ch
  }

  /** PHP strtolower: ASCII letters only, every other character unchanged. */
  function ToLower(s: string): (r: string)
    ensures |r| == |s|
    ensures forall i :: 0 <= i < |s| ==> r[i] == LowerChar(s[i])
  {
    seq(|s|, i requires 0 <= i < |s| => LowerChar(s[i]))
  }

  /** The part of `s` after its last `c`, or all of `s` when it has no `c`. */
  function AfterLast(s: string, c: char): (r: string)
    ensures EndsWith(s, r)
    ensures c !in r
    ensures |r| < |s| ==> s[|s| - |r| - 1] == c
  {
    if |s| == 0 then ""
    else if s[|s| - 1] == c then ""
    else
      var r := AfterLast(s[..|s| - 1], c);
      assert s[..|s| - 1][|s| - 1 - |r|..] == r;
      r + [s[|s| - 1]]
  }

  /** Appending separator-free text extends the part after the last separator. */
  lemma {:induction false} AfterLastAppend(a: string, b: string, c: char)
    requires c !in b
    ensures AfterLast(a + b, c) == AfterLast(a, c) + b
    decreases |b|
  {
    if |b| > 0 {
      var b' := b[..|b| - 1];
      assert (a + b)[..|a + b| - 1] == a + b';
      AfterLastAppend(a, b', c);
      assert b == b' + [b[|b| - 1]];
    } else {
      assert a + b == a;
    }
  }

  /** What follows a separator that the rest does not contain. */
  lemma AfterSeparator(a: string, b: string, c: char)
    requires c !in b
    ensures AfterLast(a + ([c] + b), c) == b
  {
    AfterLastAppend(a + [c], b, c);
    assert a + ([c] + b) == (a + [c]) + b;
    assert AfterLast(a + [c], c) == "";
  }

  /**
   * Byte-wise string order, as Ruby's String#<=> sorts paths. Comparing code
   * points agrees with comparing their UTF-8 bytes.
   */
  predicate LexLe(a: string, b: string) {
    |a| == 0 || (|b| > 0 && (a[0] < b[0] || (a[0] == b[0] && LexLe(a[1..], b[1..]))))
  }

  lemma {:induction false} LexLeTotal(a: string, b: string)
    ensures LexLe(a, b) || LexLe(b, a)
    decreases |a|
  {
    if |a| > 0 && |b| > 0 && a[0] == b[0] {
      LexLeTotal(a[1..], b[1..]);
    }
  }

  lemma {:induction false} LexLeTrans(a: string, b: string, c: string)
    requires LexLe(a, b) && LexLe(b, c)
    ensures LexLe(a, c)
    decreases |a|
  {
    if |a| > 0 && a[0] == b[0] && b[0] == c[0] {
      LexLeTrans(a[1..], b[1..], c[1..]);
    }
  }

  lemma {:induction false} LexLeAntisymmetric(a: string, b: string)
    requires LexLe(a, b) && LexLe(b, a)
    ensures a == b
    decreases |a|
  {
    if |a| > 0 {
      LexLeAntisymmetric(a[1..], b[1..]);
      assert a == [a[0]] + a[1..] && b == [b[0]] + b[1..];
    }
  }

  /** A common prefix does not change how two strings compare. */
  lemma {:induction false} LexLeCommonPrefix(p: string, a: string, b: string)
    ensures LexLe(p + a, p + b) <==> LexLe(a, b)
    decreases |p|
  {
    if |p| > 0 {
      assert (p + a)[1..] == p[1..] + a;
      assert (p + b)[1..] == p[1..] + b;
      LexLeCommonPrefix(p[1..], a, b);
    } else {
      assert p + a == a && p + b == b;
    }
  }
}
