/**
 * The one-page manual generator of bin/merge_md_files.rb
 * (generate_combined_file): a fixed frontmatter header, an introduction,
 * then every top-level Markdown file of the language folder in sorted path
 * order, each with every `---...---` span removed and followed by a newline.
 *
 * The folder is given as its listing; reading and writing files is not
 * modelled.
 */
module ManualMerger {
  import opened Wrappers
  import opened Strings
  import FrontmatterValidator

  /** One top-level entry of the language folder: its name and its text. */
  datatype DirEntry = DirEntry(name: string, content: string)

  /** A Markdown file as Dir.glob reports it: its full path and its text. */
  datatype MdFile = MdFile(path: string, content: string)

  datatype MergeError = SourceFolderMissing

  const Dashes := "---"

  /** The four lines between the delimiters of the generated page's frontmatter. */
  function HeaderLines(language: string): seq<string> {
    ["layout: docs-" + language, "title: 1 Page Manual", "category: Manual",
     "permalink: /manuals/1.0/" + language + "/1page.html"]
  }

  /** The fixed frontmatter of the generated page, parametrised by the language only. */
  function Header(language: string): string {
    "---\n" + Join(HeaderLines(language), '\n') + "\n---\n"
  }

  // ---------------------------------------------------------------------------
  // content.gsub!(/---.*?---/m, '')
  // ---------------------------------------------------------------------------

  /**
   * Ruby's gsub with the non-greedy multi-line pattern ---.*?---: at each
   * position, a "---" followed later by another "---" is removed up to and
   * including the nearest such closer, and the scan resumes after it;
   * otherwise one character is kept and the scan moves on.
   */
  function StripSpans(s: string): (r: string)
    ensures |r| <= |s|
    decreases |s|
  {
    if |s| == 0 then ""
    else
      match SpanEnd(s)
      case Some(n) => StripSpans(s[n..])
      case None => [s[0]] + StripSpans(s[1..])
  }

  /** `s` begins with "---", compared character by character. */
  predicate DashesFirst(s: string) {
    |s| >= 3 && s[0] == '-' && s[1] == '-' && s[2] == '-'
  }

  /** The character-wise test is the prefix test for "---". */
  lemma DashesFirstIsPrefix(s: string)
    ensures DashesFirst(s) <==> StartsWith(s, Dashes)
  {
    if |s| >= 3 {
      assert s[..3] == [s[0], s[1], s[2]];
    }
  }

  /** Where a match that starts at the front of `s` ends: just after the nearest closing "---". */
  function SpanEnd(s: string): (r: Option<nat>)
    ensures r.Some? ==> 6 <= r.value <= |s|
  {
    if !DashesFirst(s) then None
    else
      var closer := FirstDashes(s[3..]);
      if closer.None? then None else Some(3 + closer.value + 3)
  }

  /** The index of the first "---" in `t`: the search the lazy `.*?` performs. */
  function FirstDashes(t: string): (r: Option<nat>)
    ensures r.Some? ==> r.value + 3 <= |t|
    ensures r == Some(0) <==> DashesFirst(t)
    decreases |t|
  {
    if DashesFirst(t) then Some(0)
    else if |t| == 0 then None
    else
      match FirstDashes(t[1..])
      case Some(j) => Some(j + 1)
      case None => None
  }

  /** The lazy search finds the leftmost "---". */
  lemma {:induction false} FirstDashesIsFind(t: string)
    ensures FirstDashes(t) == Find(t, Dashes)
    decreases |t|
  {
    DashesFirstIsPrefix(t);
    if !StartsWith(t, Dashes) && |t| > 0 {
      FirstDashesIsFind(t[1..]);
    }
  }

  /** `t` holds a "---" with a second, non-overlapping "---" after it: the pattern matches. */
  ghost predicate HasSpan(t: string) {
    exists i, j :: Occurs(t, Dashes, i) && Occurs(t, Dashes, j) && i + 3 <= j
  }

  /** Occurrences in a suffix are occurrences in the whole string. */
  lemma OccursInSuffix(t: string, p: string, m: nat, j: int)
    requires m <= |t|
    ensures Occurs(t[m..], p, j) <==> (j >= 0 && Occurs(t, p, j + m))
  {
    if 0 <= j && j + |p| <= |t| - m {
      assert t[m..][j..j + |p|] == t[j + m..j + m + |p|];
    }
  }

  /** Without a match, the string passes through unchanged. */
  lemma {:induction false} StripWithoutSpan(s: string)
    requires !HasSpan(s)
    ensures StripSpans(s) == s
    decreases |s|
  {
    if |s| > 0 {
      assert SpanEnd(s).None? by {
        if StartsWith(s, Dashes) {
          assert Occurs(s, Dashes, 0);
          FirstDashesIsFind(s[3..]);
          match Find(s[3..], Dashes)
          case Some(k) => OccursInSuffix(s, Dashes, 3, k);
          case None =>
        }
      }
      assert !HasSpan(s[1..]) by {
        if HasSpan(s[1..]) {
          var i, j :| Occurs(s[1..], Dashes, i) && Occurs(s[1..], Dashes, j) && i + 3 <= j;
          OccursInSuffix(s, Dashes, 1, i);
          OccursInSuffix(s, Dashes, 1, j);
        }
      }
      StripWithoutSpan(s[1..]);
      assert s == [s[0]] + s[1..];
    }
  }

  /** A file whose text contains no "---" passes through unchanged. */
  lemma StripWithoutDashes(s: string)
    requires !Contains(s, Dashes)
    ensures StripSpans(s) == s
  {
    StripWithoutSpan(s);
  }

  /** Dropping the first character, then n - 1 more, drops n. */
  lemma DropDrop(s: string, n: nat)
    requires 1 <= n <= |s|
    ensures s[1..][n - 1..] == s[n..]
  {
  }

  /** Putting back the first character of a kept prefix. */
  lemma ConsSlice(c: char, t: string, n: nat, x: string)
    requires n <= |t|
    ensures [c] + (t[..n] + x) == ([c] + t)[..n + 1] + x
  {
  }

  /**
   * The leftmost match: when the first "---" is at i and the nearest closer
   * after it at i + 3 + k, everything before i is kept, the span is removed
   * and the scan resumes after the closer.
   */
  lemma StripFirstSpan(s: string, i: nat, k: nat)
    requires Find(s, Dashes) == Some(i)
    requires i + 3 <= |s| && Find(s[i + 3..], Dashes) == Some(k)
    ensures i + 3 + k + 3 <= |s|
    ensures StripSpans(s) == s[..i] + StripSpans(s[i + 3 + k + 3..])
  {
    FirstDashesIsFind(s);
    FirstDashesIsFind(s[i + 3..]);
    StripFirstSpanAt(s, i, k);
  }

  /** Stripping `s` keeps its first i characters and removes the span of length 3 + k + 3 after them. */
  ghost predicate StripsSpanAt(s: string, i: nat, k: nat) {
    i + 3 + k + 3 <= |s| && StripSpans(s) == s[..i] + StripSpans(s[i + 3 + k + 3..])
  }

  /** The leftmost match, stated with the scanner the merger uses. */
  lemma {:induction false} StripFirstSpanAt(s: string, i: nat, k: nat)
    requires FirstDashes(s) == Some(i)
    requires i + 3 <= |s| && FirstDashes(s[i + 3..]) == Some(k)
    ensures StripsSpanAt(s, i, k)
    decreases i
  {
    if i == 0 {
      StripAtFront(s, k);
    } else {
      DashesStep(s, i);
      ShiftOne(s, i, k);
      StripFirstSpanAt(s[1..], i - 1, k);
      StripStep(s, i, k);
    }
  }

  /** A "---" at the front whose nearest closer is k characters later is removed. */
  lemma StripAtFront(s: string, k: nat)
    requires FirstDashes(s) == Some(0)
    requires 3 <= |s| && FirstDashes(s[3..]) == Some(k)
    ensures StripsSpanAt(s, 0, k)
  {
    SpanAtFront(s, k);
    assert StripSpans(s) == StripSpans(s[3 + k + 3..]);
    assert s[..0] + StripSpans(s[3 + k + 3..]) == StripSpans(s[3 + k + 3..]);
  }

  /** The match that starts at the front ends after the nearest closer. */
  lemma SpanAtFront(s: string, k: nat)
    requires DashesFirst(s) && FirstDashes(s[3..]) == Some(k)
    ensures SpanEnd(s) == Some(3 + k + 3)
  {
  }

  /** The first "---" at i > 0 is the first "---" at i - 1 of the rest. */
  lemma DashesStep(s: string, i: nat)
    requires FirstDashes(s) == Some(i) && i > 0
    ensures |s| > 0 && !DashesFirst(s)
    ensures FirstDashes(s[1..]) == Some(i - 1)
  {
  }

  /** Positions in the rest of `s` are one less than in `s`. */
  lemma ShiftOne(s: string, i: nat, k: nat)
    requires 1 <= i && i + 3 <= |s| && FirstDashes(s[i + 3..]) == Some(k)
    ensures s[1..][i - 1 + 3..] == s[i + 3..]
    ensures s[1..][i - 1 + 3 + k + 3..] == s[i + 3 + k + 3..]
  {
  }

  /** Putting back a kept first character in front of the rest's leftmost match. */
  lemma StripStep(s: string, i: nat, k: nat)
    requires 0 < i && |s| > 0 && !DashesFirst(s)
    requires StripsSpanAt(s[1..], i - 1, k)
    ensures StripsSpanAt(s, i, k)
  {
    var t := s[1..];
    var x := StripSpans(s[i + 3 + k + 3..]);
    assert t[i - 1 + 3 + k + 3..] == s[i + 3 + k + 3..] by {
      DropDrop(s, i + 3 + k + 3);
    }
    assert StripSpans(s) == [s[0]] + StripSpans(t) by {
      StripKeepsFirstPlain(s);
    }
    ConsSlice(s[0], t, i - 1, x);
    assert [s[0]] + t == s;
  }

  /** Without "---" at the front the first character is kept. */
  lemma StripKeepsFirstPlain(s: string)
    requires |s| > 0 && !DashesFirst(s)
    ensures StripSpans(s) == [s[0]] + StripSpans(s[1..])
  {
    assert SpanEnd(s).None?;
  }

  /** No closer after the first "---" means no match anywhere. */
  lemma NoCloserNoSpan(s: string, i: nat, tail: string)
    requires i + 3 <= |s| && tail == s[i + 3..]
    requires forall j :: 0 <= j < i ==> !Occurs(s, Dashes, j)
    requires forall j :: !Occurs(tail, Dashes, j)
    ensures !HasSpan(s)
  {
    forall a, b | Occurs(s, Dashes, a) && Occurs(s, Dashes, b) && a + 3 <= b
      ensures false
    {
      OccursInSuffix(s, Dashes, i + 3, b - (i + 3));
    }
  }

  /** An opening "---" without any closer: nothing is removed at all. */
  lemma StripUnclosed(s: string, i: nat)
    requires Find(s, Dashes) == Some(i)
    requires i + 3 <= |s| && Find(s[i + 3..], Dashes).None?
    ensures StripSpans(s) == s
  {
    NoCloserNoSpan(s, i, s[i + 3..]);
    StripWithoutSpan(s);
  }

  /**
   * Text before the first "---" never ends in '-', so it cannot form a new
   * "---" with what follows; a match-free tail keeps the whole match-free.
   */
  /** A "---" straddling the end of `left` makes `left` end in '-'. */
  lemma DashesStraddle(left: string, rest: string, m: int)
    requires Occurs(left + rest, Dashes, m)
    requires m < |left| < m + 3
    ensures left[|left| - 1] == '-'
  {
    var t := left + rest;
    assert t[|left| - 1] == left[|left| - 1];
    assert t[m..m + 3][|left| - 1 - m] == t[|left| - 1];
  }

  /** Where `left` has no "---" and does not end in '-', every "---" of `left + rest` lies in `rest`. */
  lemma NoDashesAcross(left: string, rest: string, m: int)
    requires !Contains(left, Dashes)
    requires |left| > 0 ==> left[|left| - 1] != '-'
    requires Occurs(left + rest, Dashes, m)
    ensures m >= |left| && Occurs(rest, Dashes, m - |left|)
  {
    var t := left + rest;
    if m + 3 <= |left| {
      assert left[m..m + 3] == t[m..m + 3];
      assert Occurs(left, Dashes, m);
    } else if m < |left| {
      DashesStraddle(left, rest, m);
    } else {
      assert rest[m - |left|..m - |left| + 3] == t[m..m + 3];
    }
  }

  /**
   * Text before the first "---" never ends in '-', so it cannot form a new
   * "---" with what follows; a match-free tail keeps the whole match-free.
   */
  lemma PrefixKeepsNoSpan(left: string, rest: string)
    requires !Contains(left, Dashes)
    requires |left| > 0 ==> left[|left| - 1] != '-'
    requires !HasSpan(rest)
    ensures !HasSpan(left + rest)
  {
    forall a, b | Occurs(left + rest, Dashes, a) && Occurs(left + rest, Dashes, b) && a + 3 <= b
      ensures false
    {
      NoDashesAcross(left, rest, a);
      NoDashesAcross(left, rest, b);
    }
  }

  /** The first "---" of a string is not preceded by '-'. */
  lemma BeforeFirstDashes(s: string, i: nat)
    requires Find(s, Dashes) == Some(i)
    ensures !Contains(s[..i], Dashes)
    ensures i > 0 ==> s[i - 1] != '-'
  {
    forall m | Occurs(s[..i], Dashes, m) ensures Occurs(s, Dashes, m) && m < i {
      assert s[..i][m..m + 3] == s[m..m + 3];
    }
    if i > 0 {
      DashesNotExtended(s, i);
    }
  }

  /** An occurrence of "---" at i with none at i - 1 is not preceded by '-'. */
  lemma DashesNotExtended(s: string, i: nat)
    requires 0 < i && Occurs(s, Dashes, i) && !Occurs(s, Dashes, i - 1)
    ensures s[i - 1] != '-'
  {
    assert s[i] == '-' && s[i + 1] == '-' by {
      assert s[i..i + 3] == Dashes;
    }
    assert s[i - 1..i + 2] == [s[i - 1], s[i], s[i + 1]];
  }

  /** A match has a first opening "---" with a closer after it. */
  lemma SpanOpensAtFirst(s: string) returns (i: nat, k: nat)
    requires HasSpan(s)
    ensures Find(s, Dashes) == Some(i)
    ensures i + 3 <= |s| && Find(s[i + 3..], Dashes) == Some(k)
  {
    var a, b :| Occurs(s, Dashes, a) && Occurs(s, Dashes, b) && a + 3 <= b;
    i := Find(s, Dashes).value;
    OccursInSuffix(s, Dashes, i + 3, b - i - 3);
    k := Find(s[i + 3..], Dashes).value;
  }

  /** The output of the substitution contains no further match. */
  lemma {:induction false} StripLeavesNoSpan(s: string)
    ensures !HasSpan(StripSpans(s))
    decreases |s|
  {
    if !HasSpan(s) {
      StripWithoutSpan(s);
    } else {
      var i, k := SpanOpensAtFirst(s);
      StripFirstSpan(s, i, k);
      var rest := s[i + 3 + k + 3..];
      StripLeavesNoSpan(rest);
      BeforeFirstDashes(s, i);
      PrefixKeepsNoSpan(s[..i], StripSpans(rest));
    }
  }

  /** Stripping is idempotent: a stripped file strips to itself. */
  lemma StripIdempotent(s: string)
    ensures StripSpans(StripSpans(s)) == StripSpans(s)
  {
    StripLeavesNoSpan(s);
    StripWithoutSpan(StripSpans(s));
  }

  // ---------------------------------------------------------------------------
  // Dir.glob(File.join(source_folder, "*.md")).sort
  // ---------------------------------------------------------------------------

  /** The pattern "*.md": a name ending in ".md" whose first character is not '.'. */
  predicate IsMarkdownName(name: string) {
    EndsWith(name, ".md") && name[0] != '.'
  }

  /** The folder's Markdown files with their full paths, in listing order. */
  function Glob(folder: string, entries: seq<DirEntry>): (r: seq<MdFile>)
    ensures |r| <= |entries|
    ensures forall d :: d in entries && IsMarkdownName(d.name) ==> MdFile(folder + "/" + d.name, d.content) in r
    ensures forall f :: f in r ==> exists d :: d in entries && IsMarkdownName(d.name)
                                               && f == MdFile(folder + "/" + d.name, d.content)
  {
    if |entries| == 0 then []
    else
      var d := entries[0];
      var rest := Glob(folder, entries[1..]);
      assert forall x :: x in entries[1..] ==> x in entries;
      assert forall x :: x in entries ==> x == d || x in entries[1..];
      if IsMarkdownName(d.name) then [MdFile(folder + "/" + d.name, d.content)] + rest else rest
  }

  predicate SortedByPath(fs: seq<MdFile>) {
    forall i, j :: 0 <= i < j < |fs| ==> LexLe(fs[i].path, fs[j].path)
  }

  /** Insert one file into a path-sorted list, before the first file it does not follow. */
  function Insert(f: MdFile, fs: seq<MdFile>): (r: seq<MdFile>)
    ensures multiset(r) == multiset(fs) + multiset{f}
    ensures |r| == |fs| + 1
  {
    if |fs| == 0 then [f]
    else if LexLe(f.path, fs[0].path) then [f] + fs
    else
      assert fs == [fs[0]] + fs[1..];
      [fs[0]] + Insert(f, fs[1..])
  }

  /** The files of an insertion are the inserted one and the old ones. */
  lemma InsertMembers(f: MdFile, fs: seq<MdFile>, x: MdFile)
    requires x in Insert(f, fs)
    ensures x == f || x in fs
  {
    assert x in multiset(Insert(f, fs));
  }

  /** A file not before the head goes after it, so the head stays below every file. */
  lemma InsertAfterHead(f: MdFile, fs: seq<MdFile>)
    requires |fs| > 0 && SortedByPath(fs) && !LexLe(f.path, fs[0].path)
    ensures forall x :: x in Insert(f, fs[1..]) ==> LexLe(fs[0].path, x.path)
  {
    LexLeTotal(f.path, fs[0].path);
    forall x | x in Insert(f, fs[1..]) ensures LexLe(fs[0].path, x.path) {
      InsertMembers(f, fs[1..], x);
      if x != f {
        var m :| 0 <= m < |fs[1..]| && fs[1..][m] == x;
        assert fs[m + 1] == x;
      }
    }
  }

  /** Insertion into a sorted list keeps it sorted. */
  lemma {:induction false} InsertSorted(f: MdFile, fs: seq<MdFile>)
    requires SortedByPath(fs)
    ensures SortedByPath(Insert(f, fs))
  {
    if |fs| == 0 {
    } else if LexLe(f.path, fs[0].path) {
      BelowHead(f, fs);
      ConsSorted(f, fs);
    } else {
      InsertSorted(f, fs[1..]);
      InsertAfterHead(f, fs);
      ConsSorted(fs[0], Insert(f, fs[1..]));
    }
  }

  /** A file not after the head of a sorted list is not after any of its files. */
  lemma BelowHead(f: MdFile, fs: seq<MdFile>)
    requires |fs| > 0 && SortedByPath(fs) && LexLe(f.path, fs[0].path)
    ensures forall x :: x in fs ==> LexLe(f.path, x.path)
  {
    forall x | x in fs ensures LexLe(f.path, x.path) {
      var m :| 0 <= m < |fs| && fs[m] == x;
      if m > 0 {
        LexLeTrans(f.path, fs[0].path, x.path);
      }
    }
  }

  /** Putting a file below every file of a sorted list in front keeps it sorted. */
  lemma ConsSorted(f: MdFile, fs: seq<MdFile>)
    requires SortedByPath(fs)
    requires forall x :: x in fs ==> LexLe(f.path, x.path)
    ensures SortedByPath([f] + fs)
  {
    var r := [f] + fs;
    forall i, j | 0 <= i < j < |r| ensures LexLe(r[i].path, r[j].path) {
      assert r[j] == fs[j - 1];
      if i > 0 {
        assert r[i] == fs[i - 1];
      } else {
        assert r[j] in fs;
      }
    }
  }

  /** Ruby's Array#sort on the full paths: a sorted permutation. */
  function SortByPath(fs: seq<MdFile>): (r: seq<MdFile>)
    ensures SortedByPath(r)
    ensures multiset(r) == multiset(fs)
  {
    if |fs| == 0 then []
    else
      assert fs == [fs[0]] + fs[1..];
      var rest := SortByPath(fs[1..]);
      InsertSorted(fs[0], rest);
      Insert(fs[0], rest)
  }

  /** Within one folder, path order is file-name order. */
  lemma PathOrderIsNameOrder(folder: string, a: string, b: string)
    ensures LexLe(folder + "/" + a, folder + "/" + b) <==> LexLe(a, b)
  {
    LexLeCommonPrefix(folder + "/", a, b);
  }

  // ---------------------------------------------------------------------------
  // Why the paths are sorted: the listing order of the folder does not matter
  // ---------------------------------------------------------------------------

  /** A folder holds at most one entry per name. */
  predicate UniqueNames(entries: seq<DirEntry>) {
    forall d1, d2 :: d1 in entries && d2 in entries && d1.name == d2.name ==> d1 == d2
  }

  /** At most one file per path. */
  predicate UniquePaths(fs: seq<MdFile>) {
    forall x, y :: x in fs && y in fs && x.path == y.path ==> x == y
  }

  lemma GlobUniquePaths(folder: string, entries: seq<DirEntry>)
    requires UniqueNames(entries)
    ensures UniquePaths(Glob(folder, entries))
  {
    var g := Glob(folder, entries);
    forall x, y | x in g && y in g && x.path == y.path ensures x == y {
      var dx :| dx in entries && IsMarkdownName(dx.name) && x == MdFile(folder + "/" + dx.name, dx.content);
      var dy :| dy in entries && IsMarkdownName(dy.name) && y == MdFile(folder + "/" + dy.name, dy.content);
      SamePathSameName(folder, dx.name, dy.name);
    }
  }

  /** Two files of one folder with the same path have the same name. */
  lemma SamePathSameName(folder: string, a: string, b: string)
    requires folder + "/" + a == folder + "/" + b
    ensures a == b
  {
    assert a == (folder + "/" + a)[|folder| + 1..];
    assert b == (folder + "/" + b)[|folder| + 1..];
  }

  /** Globbing a split listing globs each part. */
  lemma {:induction false} GlobAppend(folder: string, a: seq<DirEntry>, b: seq<DirEntry>)
    ensures Glob(folder, a + b) == Glob(folder, a) + Glob(folder, b)
    decreases |a|
  {
    if |a| > 0 {
      assert (a + b)[1..] == a[1..] + b;
      GlobAppend(folder, a[1..], b);
    } else {
      assert a + b == b;
    }
  }

  /** A reordered listing globs to a reordering of the same files. */
  lemma {:induction false} GlobPermutation(folder: string, e1: seq<DirEntry>, e2: seq<DirEntry>)
    requires multiset(e1) == multiset(e2)
    ensures multiset(Glob(folder, e1)) == multiset(Glob(folder, e2))
    decreases |e1|
  {
    if |e1| > 0 {
      var d := e1[0];
      assert e1 == [d] + e1[1..];
      assert d in multiset(e2);
      var p :| 0 <= p < |e2| && e2[p] == d;
      var rest2 := e2[..p] + e2[p + 1..];
      assert e2 == e2[..p] + [d] + e2[p + 1..];
      assert multiset(e2) == multiset(e2[..p]) + multiset{d} + multiset(e2[p + 1..]);
      assert multiset(rest2) == multiset(e2[..p]) + multiset(e2[p + 1..]);
      DropHeadMultiset(e1, multiset(rest2));
      GlobPermutation(folder, e1[1..], rest2);
      GlobAppend(folder, e2[..p] + [d], e2[p + 1..]);
      GlobAppend(folder, e2[..p], [d]);
      GlobAppend(folder, e2[..p], e2[p + 1..]);
      GlobAppend(folder, [d], e1[1..]);
    } else {
      assert e2 == [];
    }
  }

  /** Removing the same first element from two equal multisets. */
  lemma DropHeadMultiset<T>(xs: seq<T>, rest: multiset<T>)
    requires |xs| > 0 && multiset(xs) == multiset{xs[0]} + rest
    ensures multiset(xs[1..]) == rest
  {
    assert xs == [xs[0]] + xs[1..];
    assert multiset(xs) == multiset{xs[0]} + multiset(xs[1..]);
    forall y ensures multiset(xs[1..])[y] == rest[y] {
      assert (multiset{xs[0]} + multiset(xs[1..]))[y] == (multiset{xs[0]} + rest)[y];
    }
    assert multiset(xs[1..]) == rest;
  }

  /** The first file of a sorted list has the least path. */
  lemma SortedHeadLeast(fs: seq<MdFile>, x: MdFile)
    requires SortedByPath(fs) && |fs| > 0 && x in fs
    ensures LexLe(fs[0].path, x.path)
  {
    var k :| 0 <= k < |fs| && fs[k] == x;
    if k == 0 { LexLeTotal(x.path, x.path); }
  }

  /** Sorted arrangements of the same files with distinct paths start alike. */
  lemma SortedHeads(a: seq<MdFile>, b: seq<MdFile>)
    requires SortedByPath(a) && SortedByPath(b) && |a| > 0
    requires multiset(a) == multiset(b)
    requires UniquePaths(a)
    ensures |b| > 0 && a[0] == b[0]
  {
    assert |multiset(b)| == |a|;
    assert a[0] in multiset(b) && b[0] in multiset(a);
    SortedHeadLeast(a, b[0]);
    SortedHeadLeast(b, a[0]);
    LexLeAntisymmetric(a[0].path, b[0].path);
    assert b[0] in a;
  }

  /** Two sorted arrangements of the same files with distinct paths are identical. */
  lemma {:induction false} SortedUnique(a: seq<MdFile>, b: seq<MdFile>)
    requires SortedByPath(a) && SortedByPath(b)
    requires multiset(a) == multiset(b)
    requires UniquePaths(a)
    ensures a == b
    decreases |a|
  {
    if |a| == 0 {
      assert |multiset(b)| == 0;
    } else {
      SortedHeads(a, b);
      assert b == [b[0]] + b[1..];
      assert multiset(b) == multiset{a[0]} + multiset(b[1..]);
      DropHeadMultiset(a, multiset(b[1..]));
      SortedUnique(a[1..], b[1..]);
    }
  }

  /**
   * The written files depend only on which entries the folder holds, not on
   * the order the file system lists them in.
   */
  lemma ManualFilesIgnoreListingOrder(folder: string, e1: seq<DirEntry>, e2: seq<DirEntry>)
    requires multiset(e1) == multiset(e2) && UniqueNames(e1)
    ensures ManualFiles(folder, e1) == ManualFiles(folder, e2)
  {
    GlobPermutation(folder, e1, e2);
    GlobUniquePaths(folder, e1);
    var s1 := ManualFiles(folder, e1);
    forall x, y | x in s1 && y in s1 && x.path == y.path ensures x == y {
      assert x in multiset(s1) && y in multiset(s1);
    }
    SortedUnique(s1, ManualFiles(folder, e2));
  }

  // ---------------------------------------------------------------------------
  // generate_combined_file
  // ---------------------------------------------------------------------------

  /** What one file contributes: its stripped text and one newline. */
  function Section(f: MdFile): string {
    StripSpans(f.content) + "\n"
  }

  function Sections(fs: seq<MdFile>): string
    decreases |fs|
  {
    if |fs| == 0 then "" else Section(fs[0]) + Sections(fs[1..])
  }

  /** The total length the files contribute, counted file by file. */
  function SectionsLength(fs: seq<MdFile>): nat
    decreases |fs|
  {
    if |fs| == 0 then 0 else |StripSpans(fs[0].content)| + 1 + SectionsLength(fs[1..])
  }

  /** No separator other than each file's newline is written. */
  lemma {:induction false} SectionsLengthIsSum(fs: seq<MdFile>)
    ensures |Sections(fs)| == SectionsLength(fs)
    decreases |fs|
  {
    if |fs| > 0 {
      SectionsLengthIsSum(fs[1..]);
    }
  }

  /** The files of the folder, in the order they are written. */
  function ManualFiles(folder: string, entries: seq<DirEntry>): (r: seq<MdFile>)
    ensures SortedByPath(r)
    ensures multiset(r) == multiset(Glob(folder, entries))
  {
    SortByPath(Glob(folder, entries))
  }

  /**
   * generate_combined_file: fails before writing anything when the folder is
   * missing; otherwise the header, the introduction and a blank line, then
   * every Markdown file in path order.
   */
  function GenerateCombined(language: string, intro: string, folder: string,
                            listing: Option<seq<DirEntry>>): (r: Result<string, MergeError>)
    ensures r.Err? <==> listing.None?
    ensures r.Ok? ==> StartsWith(r.value, Header(language) + intro + "\n\n")
  {
    match listing
    case None => Err(SourceFolderMissing)
    case Some(entries) =>
      var head := Header(language) + intro + "\n\n";
      var out := head + Sections(ManualFiles(folder, entries));
      assert out[..|head|] == head;
      Ok(out)
  }

  /** The generated manual is the same whatever order the folder is listed in. */
  lemma CombinedIgnoresListingOrder(language: string, intro: string, folder: string,
                                    e1: seq<DirEntry>, e2: seq<DirEntry>)
    requires multiset(e1) == multiset(e2) && UniqueNames(e1)
    ensures GenerateCombined(language, intro, folder, Some(e1)) == GenerateCombined(language, intro, folder, Some(e2))
  {
    ManualFilesIgnoreListingOrder(folder, e1, e2);
  }

  /** The output length is the header, the introduction, two newlines and every section. */
  lemma CombinedLength(language: string, intro: string, folder: string, entries: seq<DirEntry>)
    ensures GenerateCombined(language, intro, folder, Some(entries)).Ok?
    ensures |GenerateCombined(language, intro, folder, Some(entries)).value|
            == |Header(language)| + |intro| + 2 + SectionsLength(ManualFiles(folder, entries))
  {
    SectionsLengthIsSum(ManualFiles(folder, entries));
  }

  // ---------------------------------------------------------------------------
  // The generated header is itself valid frontmatter
  // ---------------------------------------------------------------------------

  /** The header lines hold no newline, so splitting their join gives them back; none is a "---" line. */
  lemma HeaderLinesSplit(language: string)
    requires '\n' !in language
    ensures Split(Join(HeaderLines(language), '\n'), '\n') == HeaderLines(language)
    ensures FrontmatterValidator.NoDelimiterLine(Join(HeaderLines(language), '\n'))
  {
    var ls := HeaderLines(language);
    HeaderLinesSingle(language);
    SplitJoin(ls, '\n');
    HeaderLinesNotDelimiter(language);
  }

  /** No header line contains a newline. */
  lemma HeaderLinesSingle(language: string)
    requires '\n' !in language
    ensures forall i :: 0 <= i < |HeaderLines(language)| ==> '\n' !in HeaderLines(language)[i]
  {
    var ls := HeaderLines(language);
    forall i | 0 <= i < |ls| ensures '\n' !in ls[i] {
      if i == 0 {
        SingleLine("layout: docs-", language);
      } else if i == 3 {
        SingleLine("permalink: /manuals/1.0/" + language, "/1page.html");
      }
    }
  }

  /** Two newline-free strings join into a newline-free string. */
  lemma SingleLine(a: string, b: string)
    requires '\n' !in a && '\n' !in b
    ensures '\n' !in a + b
  {
  }

  /** No header line is "---": each starts with a letter. */
  lemma HeaderLinesNotDelimiter(language: string)
    ensures forall l :: l in HeaderLines(language) ==> l != FrontmatterValidator.Delimiter
  {
    forall l | l in HeaderLines(language) ensures l != FrontmatterValidator.Delimiter {
      assert l[0] != '-';
    }
  }

  lemma HeaderMentionsKey(language: string, j: nat)
    requires j < |FrontmatterValidator.RequiredFields|
    ensures Contains(Join(HeaderLines(language), '\n'), FrontmatterValidator.RequiredFields[j] + ":")
  {
    var ls := HeaderLines(language);
    var key := FrontmatterValidator.RequiredFields[j] + ":";
    assert StartsWith(ls[j], key);
    assert Occurs(ls[j], key, 0);
    OccursContains(ls[j], key, 0);
    ContainsInJoin(ls, '\n', j, key);
  }

  /**
   * Whatever follows it, the generated page passes the frontmatter check
   * (which skips 1page.md files anyway).
   */
  lemma HeaderPassesValidation(language: string, rest: string)
    requires '\n' !in language
    ensures FrontmatterValidator.Validate(Header(language) + rest).None?
  {
    var fm := Join(HeaderLines(language), '\n');
    HeaderLinesSplit(language);
    forall j | 0 <= j < |FrontmatterValidator.RequiredFields|
      ensures Contains(fm, FrontmatterValidator.RequiredFields[j] + ":")
    {
      HeaderMentionsKey(language, j);
    }
    FrontmatterValidator.ValidateComposed(fm, rest);
    assert Header(language) + rest == "---\n" + fm + "\n---\n" + rest;
  }
}
