/**
 * Version detection of the dashboard in public/index.php: ask the service's
 * command line tool for its version, tidy the first output line, and fall
 * back to the version pinned in the project's dependency list.
 *
 * Running commands is not modelled: the host says whether exec may be
 * called and what each command prints.
 */
module ServiceVersions {
  import opened Wrappers
  import opened Strings

  const Unknown := "Unknown"

  // ---------------------------------------------------------------------------
  // getVersionFromDependencies
  // ---------------------------------------------------------------------------

  /** The index of the first dependency written `name@...`. */
  function FirstDependency(deps: seq<string>, name: string): (r: Option<nat>)
    ensures r.Some? ==> r.value < |deps| && StartsWith(deps[r.value], name + "@")
    ensures r.Some? ==> forall j :: 0 <= j < r.value ==> !StartsWith(deps[j], name + "@")
    ensures r.None? <==> forall j :: 0 <= j < |deps| ==> !StartsWith(deps[j], name + "@")
  {
    if |deps| == 0 then None
    else if StartsWith(deps[0], name + "@") then Some(0)
    else
      match FirstDependency(deps[1..], name)
      case Some(i) => Some(i + 1)
      case None => None
  }

  /**
   * The text between the first and second '@' of the first dependency that
   * starts with `name@`; "Unknown" when there is none.
   */
  function VersionFromDependencies(deps: seq<string>, name: string): (r: string)
    ensures FirstDependency(deps, name).None? ==> r == Unknown
    ensures FirstDependency(deps, name).Some? ==> '@' !in r
    ensures FirstDependency(deps, name).Some? && '@' !in name ==>
              var d := deps[FirstDependency(deps, name).value];
              StartsWith(d, name + "@" + r) && (|d| == |name| + 1 + |r| || d[|name| + 1 + |r|] == '@')
  {
    match FirstDependency(deps, name)
    case None => Unknown
    case Some(i) =>
      var parts := Split(deps[i], '@');
      SecondSegment(deps[i], name);
      if |parts| > 1 then parts[1] else Unknown
  }

  /** For "name@..." with an '@'-free name, explode's second part runs up to the next '@' or the end. */
  lemma SecondSegment(d: string, name: string)
    requires StartsWith(d, name + "@")
    ensures '@' !in name ==> |Split(d, '@')| > 1
    ensures '@' !in name ==>
              var r := Split(d, '@')[1];
              StartsWith(d, name + "@" + r) && (|d| == |name| + 1 + |r| || d[|name| + 1 + |r|] == '@')
  {
    if '@' !in name {
      SecondSegmentPlain(d, name);
    }
  }

  lemma SecondSegmentPlain(d: string, name: string)
    requires StartsWith(d, name + "@") && '@' !in name
    ensures |Split(d, '@')| > 1
    ensures var r := Split(d, '@')[1];
            StartsWith(d, name + "@" + r) && (|d| == |name| + 1 + |r| || d[|name| + 1 + |r|] == '@')
  {
    var tail := d[|name| + 1..];
    AfterNamePrefix(d, name);
    SplitCons(name, '@', tail);
    SplitFirst(tail, '@');
    SegmentInPlace(d, name, IndexOfAny(tail, {'@'}));
  }

  /** A text that starts with name + "@" is name, '@' and the rest. */
  lemma AfterNamePrefix(d: string, name: string)
    requires StartsWith(d, name + "@")
    ensures d == name + ['@'] + d[|name| + 1..]
  {
    assert d[..|name| + 1] == name + "@";
  }

  /** The part of the rest up to its first '@' sits right after name + "@", and an '@' or the end follows it. */
  lemma SegmentInPlace(d: string, name: string, k: nat)
    requires StartsWith(d, name + "@")
    requires k == IndexOfAny(d[|name| + 1..], {'@'})
    ensures var r := d[|name| + 1..][..k];
            StartsWith(d, name + "@" + r) && (|d| == |name| + 1 + |r| || d[|name| + 1 + |r|] == '@')
  {
    var tail := d[|name| + 1..];
    assert d[..|name| + 1 + k] == d[..|name| + 1] + tail[..k];
  }

  /** A dependency `name@version` pins that version, unless an earlier one names the service. */
  lemma PinnedVersion(deps: seq<string>, name: string, i: nat, version: string)
    requires i < |deps| && deps[i] == name + "@" + version
    requires '@' !in name && '@' !in version
    requires forall j :: 0 <= j < i ==> !StartsWith(deps[j], name + "@")
    ensures VersionFromDependencies(deps, name) == version
  {
    assert StartsWith(deps[i], name + "@");
    assert FirstDependency(deps, name) == Some(i);
    SplitCons(name, '@', version);
    SplitNone(version, '@');
  }

  /** A service the list does not name gets "Unknown". */
  lemma UnpinnedVersion(deps: seq<string>, name: string)
    requires forall j :: 0 <= j < |deps| ==> !StartsWith(deps[j], name + "@")
    ensures VersionFromDependencies(deps, name) == Unknown
  {
  }

  // ---------------------------------------------------------------------------
  // The version patterns: Ver\s+(\d+\.\d+\.\d+), PHP\s+(...), nginx\/(...)
  // ---------------------------------------------------------------------------

  const Digits: set<char> := {'0', '1', '2', '3', '4', '5', '6', '7', '8', '9'}

  /** PCRE's \s: space, tab, newline, vertical tab, form feed, carriage return. */
  const RegexSpace: set<char> := {' ', '\t', '\n', '\U{000B}', '\U{000C}', '\r'}

  predicate AllIn(s: string, cs: set<char>) {
    forall i :: 0 <= i < |s| ==> s[i] in cs
  }

  /** The length of the longest prefix of `s` made of characters of `cs` (a greedy run). */
  function Run(s: string, cs: set<char>): (k: nat)
    ensures k <= |s| && AllIn(s[..k], cs)
    ensures k < |s| ==> s[k] !in cs
    decreases |s|
  {
    if |s| == 0 || s[0] !in cs then 0
    else
      var k := Run(s[1..], cs);
      assert s[..k + 1] == [s[0]] + s[1..][..k];
      k + 1
  }

  /** A run followed by a character outside the set is exactly that run. */
  lemma {:induction false} RunExact(x: string, y: string, cs: set<char>)
    requires AllIn(x, cs)
    requires |y| > 0 ==> y[0] !in cs
    ensures Run(x + y, cs) == |x|
    decreases |x|
  {
    if |x| > 0 {
      assert (x + y)[1..] == x[1..] + y;
      RunExact(x[1..], y, cs);
    } else {
      assert x + y == y;
    }
  }

  /** Three non-empty digit runs separated by dots: what \d+\.\d+\.\d+ matches. */
  predicate IsTriple(v: string) {
    var p := Split(v, '.');
    |p| == 3 && forall i :: 0 <= i < 3 ==> |p[i]| > 0 && AllIn(p[i], Digits)
  }

  lemma TripleOfParts(a: string, b: string, c: string)
    requires |a| > 0 && AllIn(a, Digits)
    requires |b| > 0 && AllIn(b, Digits)
    requires |c| > 0 && AllIn(c, Digits)
    ensures IsTriple(a + "." + b + "." + c)
    ensures Split(a + "." + b + "." + c, '.') == [a, b, c]
  {
    assert '.' !in a;
    assert '.' !in b;
    assert '.' !in c;
    assert a + "." + b + "." + c == a + ['.'] + (b + ['.'] + c);
    SplitCons(a, '.', b + ['.'] + c);
    SplitCons(b, '.', c);
    SplitNone(c, '.');
  }

  /**
   * The greedy match of \d+\.\d+\.\d+ at the start of `t`. The digit runs
   * are maximal; backtracking cannot find another match, since a shorter run
   * leaves a digit where '.' is needed.
   */
  function Triple(t: string): (r: Option<string>)
    ensures r.Some? ==> StartsWith(t, r.value) && IsTriple(r.value)
    ensures r.Some? ==> |r.value| == |t| || t[|r.value|] !in Digits
  {
    var a := Run(t, Digits);
    if a == 0 || a == |t| || t[a] != '.' then None
    else
      var t1 := t[a + 1..];
      var b := Run(t1, Digits);
      if b == 0 || b == |t1| || t1[b] != '.' then None
      else
        var t2 := t1[b + 1..];
        var c := Run(t2, Digits);
        if c == 0 then None
        else
          TripleFound(t, a, b, c);
          Some(t[..a + 1 + b + 1 + c])
  }

  /** Three digit runs separated by the two dots form a version triple. */
  lemma TripleFound(t: string, a: nat, b: nat, c: nat)
    requires 0 < a && 0 < b && 0 < c && a + 1 + b + 1 + c <= |t|
    requires AllIn(t[..a], Digits) && t[a] == '.'
    requires AllIn(t[a + 1..][..b], Digits) && t[a + 1..][b] == '.'
    requires AllIn(t[a + 1..][b + 1..][..c], Digits)
    ensures IsTriple(t[..a + 1 + b + 1 + c])
  {
    var t1 := t[a + 1..];
    var t2 := t1[b + 1..];
    assert t[..a + 1 + b + 1 + c] == t[..a] + "." + t1[..b] + "." + t2[..c];
    TripleOfParts(t[..a], t1[..b], t2[..c]);
  }

  /** A version written at the start, not followed by a digit, is what the pattern captures. */
  lemma TripleComplete(v: string, rest: string)
    requires IsTriple(v)
    requires |rest| > 0 ==> rest[0] !in Digits
    ensures Triple(v + rest) == Some(v)
  {
    var a, b, c := TripleSplit(v, rest);
    var t := v + rest;
    var t1 := b + (['.'] + (c + rest));
    RunThenDot(a, t1);
    RunThenDot(b, c + rest);
    RunExact(c, rest, Digits);
    TripleAt(t, |a|, |b|, |c|);
    PrefixOfLength(v, rest, Triple(t).value);
  }

  /** The three digit runs of a version, laid out in front of whatever follows it. */
  lemma TripleSplit(v: string, rest: string) returns (a: string, b: string, c: string)
    requires IsTriple(v)
    ensures |a| > 0 && AllIn(a, Digits) && |b| > 0 && AllIn(b, Digits) && |c| > 0 && AllIn(c, Digits)
    ensures |v| == |a| + 1 + |b| + 1 + |c|
    ensures v + rest == a + (['.'] + (b + (['.'] + (c + rest))))
  {
    var p := Split(v, '.');
    a, b, c := p[0], p[1], p[2];
    JoinThree(p, '.');
    assert v == a + (['.'] + (b + (['.'] + c)));
    assert (b + (['.'] + c)) + rest == b + (['.'] + (c + rest));
    assert (a + (['.'] + (b + (['.'] + c)))) + rest == a + (['.'] + ((b + (['.'] + c)) + rest));
  }

  lemma JoinThree(p: seq<string>, c: char)
    requires |p| == 3
    ensures Join(p, c) == p[0] + ([c] + (p[1] + ([c] + p[2])))
  {
    assert p[1..][1..] == [p[2]];
    assert Join(p[1..], c) == p[1] + [c] + p[2];
  }

  /** A digit run followed by a dot: the run is maximal and the dot comes next. */
  lemma RunThenDot(x: string, y: string)
    requires |x| > 0 && AllIn(x, Digits)
    ensures Run(x + (['.'] + y), Digits) == |x|
    ensures (x + (['.'] + y))[|x|] == '.' && (x + (['.'] + y))[|x| + 1..] == y
  {
    RunExact(x, ['.'] + y, Digits);
    assert (x + (['.'] + y))[|x| + 1..] == y;
  }

  /** Three maximal digit runs with dots between them: the pattern matches all three. */
  lemma TripleAt(t: string, a: nat, b: nat, c: nat)
    requires 0 < a < |t| && Run(t, Digits) == a && t[a] == '.'
    requires 0 < b < |t[a + 1..]| && Run(t[a + 1..], Digits) == b && t[a + 1..][b] == '.'
    requires 0 < c && Run(t[a + 1..][b + 1..], Digits) == c
    ensures Triple(t).Some? && |Triple(t).value| == a + 1 + b + 1 + c
  {
  }

  /** A prefix of `v + rest` as long as `v` is `v`. */
  lemma PrefixOfLength(v: string, rest: string, r: string)
    requires StartsWith(v + rest, r) && |r| == |v|
    ensures r == v
  {
    assert (v + rest)[..|v|] == v;
  }

  /**
   * The pattern `prefix` [\s+] \d+\.\d+\.\d+ tried at position i of `s`;
   * `spaced` says whether at least one \s must follow the prefix.
   */
  function MatchAt(s: string, i: nat, prefix: string, spaced: bool): (r: Option<string>)
    requires i <= |s|
    ensures r.Some? ==> IsTriple(r.value) && StartsWith(s[i..], prefix)
  {
    if !StartsWith(s[i..], prefix) then None
    else
      var u := s[i + |prefix|..];
      var w := if spaced then Run(u, RegexSpace) else 0;
      if spaced && w == 0 then None else Triple(u[w..])
  }

  /** The leftmost position, from `i` on, where the pattern matches (preg_match). */
  function FirstMatch(s: string, i: nat, prefix: string, spaced: bool): (r: Option<nat>)
    requires i <= |s|
    ensures r.Some? ==> i <= r.value <= |s| && MatchAt(s, r.value, prefix, spaced).Some?
    ensures r.Some? ==> forall j :: i <= j < r.value ==> MatchAt(s, j, prefix, spaced).None?
    ensures r.None? ==> forall j :: i <= j <= |s| ==> MatchAt(s, j, prefix, spaced).None?
    decreases |s| - i
  {
    var here := MatchAt(s, i, prefix, spaced);
    if here.Some? then Some(i)
    else if i == |s| then None
    else
      var r := FirstMatch(s, i + 1, prefix, spaced);
      assert forall j :: i <= j <= i ==> MatchAt(s, j, prefix, spaced) == here;
      r
  }

  /** The captured version of the leftmost match, if any. */
  function Capture(s: string, prefix: string, spaced: bool): (r: Option<string>)
    ensures r.Some? ==> IsTriple(r.value)
    ensures r.None? <==> forall j :: 0 <= j <= |s| ==> MatchAt(s, j, prefix, spaced).None?
    ensures forall i :: 0 <= i <= |s| && MatchAt(s, i, prefix, spaced).Some?
                        && (forall j :: 0 <= j < i ==> MatchAt(s, j, prefix, spaced).None?)
                        ==> r == MatchAt(s, i, prefix, spaced)
  {
    FirstMatchLeftmost(s, prefix, spaced);
    match FirstMatch(s, 0, prefix, spaced)
    case Some(j) => MatchAt(s, j, prefix, spaced)
    case None => None
  }

  /** Every match with no match before it is the one FirstMatch finds. */
  lemma FirstMatchLeftmost(s: string, prefix: string, spaced: bool)
    ensures forall i :: 0 <= i <= |s| && MatchAt(s, i, prefix, spaced).Some?
                        && (forall j :: 0 <= j < i ==> MatchAt(s, j, prefix, spaced).None?)
                        ==> FirstMatch(s, 0, prefix, spaced) == Some(i)
  {
    forall i | 0 <= i <= |s| && MatchAt(s, i, prefix, spaced).Some?
               && (forall j :: 0 <= j < i ==> MatchAt(s, j, prefix, spaced).None?)
      ensures FirstMatch(s, 0, prefix, spaced) == Some(i)
    {
      FirstMatchIs(s, prefix, spaced, i);
    }
  }

  /** The leftmost match is the match with no match before it. */
  lemma FirstMatchIs(s: string, prefix: string, spaced: bool, i: nat)
    requires i <= |s| && MatchAt(s, i, prefix, spaced).Some?
    requires forall j :: 0 <= j < i ==> MatchAt(s, j, prefix, spaced).None?
    ensures FirstMatch(s, 0, prefix, spaced) == Some(i)
  {
  }

  /** No match starts where the prefix does not. */
  lemma NoMatchBeforePrefix(s: string, prefix: string, spaced: bool, i: nat)
    requires Find(s, prefix) == Some(i)
    ensures forall j :: 0 <= j < i ==> MatchAt(s, j, prefix, spaced).None?
  {
    forall j | 0 <= j < i ensures MatchAt(s, j, prefix, spaced).None? {
      NoMatchWithoutPrefix(s, prefix, spaced, j);
    }
  }

  /** Where the prefix does not occur, the pattern does not match. */
  lemma NoMatchWithoutPrefix(s: string, prefix: string, spaced: bool, j: nat)
    requires j <= |s| && !Occurs(s, prefix, j)
    ensures MatchAt(s, j, prefix, spaced).None?
  {
    if j + |prefix| <= |s| {
      assert s[j..][..|prefix|] == s[j..j + |prefix|];
    }
  }

  /** At the first prefix, followed by the separator and a version, the version is captured. */
  lemma MatchAtPrefix(s: string, prefix: string, spaced: bool, i: nat, spaces: string, v: string, rest: string)
    requires i + |prefix| <= |s| && Occurs(s, prefix, i)
    requires s[i + |prefix|..] == spaces + (v + rest)
    requires AllIn(spaces, RegexSpace) && (spaced ==> |spaces| > 0) && (!spaced ==> spaces == "")
    requires IsTriple(v) && (|rest| > 0 ==> rest[0] !in Digits)
    ensures MatchAt(s, i, prefix, spaced) == Some(v)
  {
    assert s[i..][..|prefix|] == s[i..i + |prefix|];
    var u := s[i + |prefix|..];
    assert s[i..][|prefix|..] == u;
    if spaced {
      var p := Split(v, '.');
      assert v == p[0] + (['.'] + Join(p[1..], '.'));
      assert v[0] == p[0][0] && v[0] in Digits;
      RunExact(spaces, v + rest, RegexSpace);
      assert u[|spaces|..] == v + rest;
    } else {
      assert u == v + rest;
    }
    TripleComplete(v, rest);
  }

  /**
   * The version after the first occurrence of the prefix is the one the
   * pattern captures: "mysql  Ver 8.0.32 for ..." gives 8.0.32.
   */
  lemma CaptureAfterPrefix(s: string, prefix: string, spaced: bool, i: nat, spaces: string, v: string, rest: string)
    requires Find(s, prefix) == Some(i)
    requires s[i + |prefix|..] == spaces + (v + rest)
    requires AllIn(spaces, RegexSpace) && (spaced ==> |spaces| > 0) && (!spaced ==> spaces == "")
    requires IsTriple(v) && (|rest| > 0 ==> rest[0] !in Digits)
    ensures Capture(s, prefix, spaced) == Some(v)
  {
    NoMatchBeforePrefix(s, prefix, spaced, i);
    CaptureAt(s, prefix, spaced, i, spaces, v, rest);
  }

  /**
   * The version after an occurrence of the prefix is captured when the
   * pattern matches nowhere before it, even if earlier occurrences of the
   * prefix exist: "PHP Warning: PHP 8.3.1 (cli)" gives 8.3.1.
   */
  lemma CaptureAt(s: string, prefix: string, spaced: bool, i: nat, spaces: string, v: string, rest: string)
    requires i + |prefix| <= |s| && Occurs(s, prefix, i)
    requires forall j :: 0 <= j < i ==> MatchAt(s, j, prefix, spaced).None?
    requires s[i + |prefix|..] == spaces + (v + rest)
    requires AllIn(spaces, RegexSpace) && (spaced ==> |spaces| > 0) && (!spaced ==> spaces == "")
    requires IsTriple(v) && (|rest| > 0 ==> rest[0] !in Digits)
    ensures Capture(s, prefix, spaced) == Some(v)
  {
    MatchAtPrefix(s, prefix, spaced, i, spaces, v, rest);
    FirstMatchIs(s, prefix, spaced, i);
  }

  /**
   * An occurrence of the prefix followed by whitespace and then a character
   * that is not a digit is no match: in "PHP Warning: PHP 8.3.1" the first
   * "PHP" is passed over, and by CaptureAt the capture is 8.3.1.
   */
  lemma NoVersionAt(s: string, prefix: string, spaced: bool, j: nat, spaces: string, rest: string)
    requires j + |prefix| <= |s| && s[j + |prefix|..] == spaces + rest
    requires AllIn(spaces, RegexSpace)
    requires |rest| > 0 ==> rest[0] !in RegexSpace && rest[0] !in Digits
    ensures MatchAt(s, j, prefix, spaced).None?
  {
    var u := s[j + |prefix|..];
    assert s[j..][|prefix|..] == u;
    if spaced {
      RunExact(spaces, rest, RegexSpace);
      assert u[|spaces|..] == rest;
      NoTripleAt(rest);
    } else {
      NoTripleAt(u);
    }
  }

  /** Text that does not start with a digit holds no version at its start. */
  lemma NoTripleAt(t: string)
    requires |t| > 0 ==> t[0] !in Digits
    ensures Triple(t).None?
  {
  }

  // ---------------------------------------------------------------------------
  // getServiceVersionCommand
  // ---------------------------------------------------------------------------

  /** The command whose output names each service's version. */
  const VersionCommands: map<string, string> := map[
    "php" := "php -v | head -n 1",
    "mysql" := "mysql --version",
    "redis" := "redis-cli --version",
    "nginx" := "nginx -v 2>&1",
    "httpd" := "apachectl -v | head -n 1",
    "memcached" := "memcached -h | head -n 1"
  ]

  /**
   * What the dashboard's PHP process can do: whether exec is defined, the
   * disable_functions setting, and the lines each command would print.
   */
  datatype Host = Host(execDefined: bool, disabledFunctions: string, outputs: map<string, seq<string>>)

  /** exec is defined and not named, exactly, in the comma-separated disable list. */
  predicate ExecAvailable(h: Host) {
    h.execDefined && "exec" !in Split(h.disabledFunctions, ',')
  }

  /** The lines a command prints; none when the host has no answer for it. */
  function Output(h: Host, command: string): seq<string> {
    if command in h.outputs then h.outputs[command] else []
  }

  /** PHP's truth value of a string: only "" and "0" are false. */
  predicate Truthy(s: string) {
    s != "" && s != "0"
  }

  /** The capture when the pattern matches, the line unchanged otherwise. */
  function CaptureOr(line: string, prefix: string, spaced: bool): (r: string)
    ensures r == line || IsTriple(r)
    ensures Capture(line, prefix, spaced).None? ==> r == line
    ensures Capture(line, prefix, spaced).Some? ==> r == Capture(line, prefix, spaced).value
  {
    match Capture(line, prefix, spaced)
    case Some(v) => v
    case None => line
  }

  /** A version pattern: its literal prefix, and whether \s+ must follow it. */
  datatype Pattern = Pattern(prefix: string, spaced: bool)

  /** The pattern each service's line is cleaned with: Ver\s+, PHP\s+ and nginx/. */
  function VersionPattern(service: string): (r: Option<Pattern>)
    ensures r.Some? <==> service == "mysql" || service == "php" || service == "nginx"
    ensures r.Some? ==> |r.value.prefix| >= 3
  {
    if service == "mysql" then Some(Pattern("Ver", true))
    else if service == "php" then Some(Pattern("PHP", true))
    else if service == "nginx" then Some(Pattern("nginx/", false))
    else None
  }

  /** `v` is what the service's pattern captures from `line`. */
  predicate CapturedFrom(service: string, line: string, v: string) {
    VersionPattern(service).Some?
    && Capture(line, VersionPattern(service).value.prefix, VersionPattern(service).value.spaced) == Some(v)
  }

  /**
   * The clean-up of a first output line: a truthy mysql, php or nginx line
   * on which the service's pattern matches becomes the leftmost capture;
   * every other line is returned unchanged.
   */
  function CleanVersion(service: string, line: string): (r: string)
    ensures r == line || (CapturedFrom(service, line, r) && IsTriple(r))
    ensures !Truthy(line) ==> r == line
    ensures service != "mysql" && service != "php" && service != "nginx" ==> r == line
    ensures Truthy(line) && VersionPattern(service).Some? ==>
              var p := VersionPattern(service).value;
              match Capture(line, p.prefix, p.spaced)
              case Some(v) => r == v
              case None => r == line
  {
    if !Truthy(line) then line
    else
      match VersionPattern(service)
      case Some(p) => CaptureOr(line, p.prefix, p.spaced)
      case None => line
  }

  /** A truthy line on which the service's pattern captures v is cleaned to v. */
  lemma CleanToCapture(service: string, line: string, p: Pattern, v: string)
    requires Truthy(line) && VersionPattern(service) == Some(p)
    requires Capture(line, p.prefix, p.spaced) == Some(v)
    ensures CleanVersion(service, line) == v
  {
  }

  /** The version after the first occurrence of the service's prefix is what the clean-up keeps. */
  lemma CleanAfterPrefix(service: string, line: string, p: Pattern, i: nat, spaces: string, v: string, rest: string)
    requires VersionPattern(service) == Some(p)
    requires Find(line, p.prefix) == Some(i)
    requires line[i + |p.prefix|..] == spaces + (v + rest)
    requires AllIn(spaces, RegexSpace) && (p.spaced ==> |spaces| > 0) && (!p.spaced ==> spaces == "")
    requires IsTriple(v) && (|rest| > 0 ==> rest[0] !in Digits)
    ensures CleanVersion(service, line) == v
  {
    CaptureAfterPrefix(line, p.prefix, p.spaced, i, spaces, v, rest);
    assert |line| >= 3;
    CleanToCapture(service, line, p, v);
  }

  /**
   * getServiceVersionCommand: None (PHP null) for a service without a
   * command, when exec cannot be called, or when the command prints nothing;
   * otherwise the cleaned first line.
   */
  function ServiceVersionCommand(service: string, h: Host): (r: Option<string>)
    ensures r.Some? <==> service in VersionCommands && ExecAvailable(h)
                         && |Output(h, VersionCommands[service])| > 0
    ensures r.Some? ==> var line := Output(h, VersionCommands[service])[0];
                        r.value == line || (CapturedFrom(service, line, r.value) && IsTriple(r.value))
  {
    if service !in VersionCommands || !ExecAvailable(h) then None
    else
      var lines := Output(h, VersionCommands[service]);
      if |lines| == 0 then None else Some(CleanVersion(service, lines[0]))
  }

  // ---------------------------------------------------------------------------
  // getServiceVersion
  // ---------------------------------------------------------------------------

  /**
   * The command's answer when there is one, the pinned dependency version
   * otherwise. The source's final null check never fires: the dependency
   * lookup always returns a string.
   */
  function ServiceVersion(service: string, deps: seq<string>, h: Host): (r: string)
    ensures ServiceVersionCommand(service, h).None? ==> r == VersionFromDependencies(deps, service)
    ensures ServiceVersionCommand(service, h).Some? ==> r == ServiceVersionCommand(service, h).value
  {
    match ServiceVersionCommand(service, h)
    case Some(v) => v
    case None => VersionFromDependencies(deps, service)
  }

  /** Services outside the command table, and hosts without exec, use the dependency list. */
  lemma FallsBackToDependencies(service: string, deps: seq<string>, h: Host)
    requires service !in VersionCommands || !ExecAvailable(h)
    ensures ServiceVersion(service, deps, h) == VersionFromDependencies(deps, service)
  {
  }

  /** A command that answers wins over the dependency list, whatever the list says. */
  lemma CommandWins(service: string, deps1: seq<string>, deps2: seq<string>, h: Host)
    requires service in VersionCommands && ExecAvailable(h)
    requires |Output(h, VersionCommands[service])| > 0
    ensures ServiceVersion(service, deps1, h) == ServiceVersion(service, deps2, h)
  {
  }

  /**
   * An empty or "0" first line is false to PHP but is not null: it is
   * returned as it is and the dependency list is not consulted.
   */
  lemma FalsyLineReturned(service: string, deps: seq<string>, h: Host)
    requires service in VersionCommands && ExecAvailable(h)
    requires |Output(h, VersionCommands[service])| > 0
    requires !Truthy(Output(h, VersionCommands[service])[0])
    ensures ServiceVersion(service, deps, h) == Output(h, VersionCommands[service])[0]
  {
  }

  /** With exec and some output, the version is the cleaned first line. */
  lemma CommandVersion(service: string, deps: seq<string>, h: Host)
    requires service in VersionCommands && ExecAvailable(h)
    requires |Output(h, VersionCommands[service])| > 0
    ensures ServiceVersion(service, deps, h) == CleanVersion(service, Output(h, VersionCommands[service])[0])
  {
  }

  lemma MysqlCommand()
    ensures "mysql" in VersionCommands && VersionCommands["mysql"] == "mysql --version"
  {
  }

  lemma PhpCommand()
    ensures "php" in VersionCommands && VersionCommands["php"] == "php -v | head -n 1"
  {
  }

  lemma NginxCommand()
    ensures "nginx" in VersionCommands && VersionCommands["nginx"] == "nginx -v 2>&1"
  {
  }

  /** The mysql client's banner reduces to the number after "Ver" and its spaces. */
  lemma MysqlBannerVersion(deps: seq<string>, h: Host, i: nat, spaces: string, v: string, rest: string)
    requires ExecAvailable(h) && |Output(h, "mysql --version")| > 0
    requires Find(Output(h, "mysql --version")[0], "Ver") == Some(i)
    requires Output(h, "mysql --version")[0][i + 3..] == spaces + (v + rest)
    requires AllIn(spaces, RegexSpace) && |spaces| > 0
    requires IsTriple(v) && (|rest| > 0 ==> rest[0] !in Digits)
    ensures ServiceVersion("mysql", deps, h) == v
  {
    var line := Output(h, "mysql --version")[0];
    MysqlCommand();
    CommandVersion("mysql", deps, h);
    CleanAfterPrefix("mysql", line, Pattern("Ver", true), i, spaces, v, rest);
  }

  /** "PHP 8.4.0 (cli) (built: ...)" reduces to the number after "PHP" and its spaces. */
  lemma PhpBannerVersion(deps: seq<string>, h: Host, i: nat, spaces: string, v: string, rest: string)
    requires ExecAvailable(h) && |Output(h, "php -v | head -n 1")| > 0
    requires Find(Output(h, "php -v | head -n 1")[0], "PHP") == Some(i)
    requires Output(h, "php -v | head -n 1")[0][i + 3..] == spaces + (v + rest)
    requires AllIn(spaces, RegexSpace) && |spaces| > 0
    requires IsTriple(v) && (|rest| > 0 ==> rest[0] !in Digits)
    ensures ServiceVersion("php", deps, h) == v
  {
    var line := Output(h, "php -v | head -n 1")[0];
    PhpCommand();
    CommandVersion("php", deps, h);
    CleanAfterPrefix("php", line, Pattern("PHP", true), i, spaces, v, rest);
  }

  /** nginx's "nginx version: nginx/1.25.1" reduces to the number right after "nginx/". */
  lemma NginxBannerVersion(deps: seq<string>, h: Host, i: nat, v: string, rest: string)
    requires ExecAvailable(h) && |Output(h, "nginx -v 2>&1")| > 0
    requires Find(Output(h, "nginx -v 2>&1")[0], "nginx/") == Some(i)
    requires Output(h, "nginx -v 2>&1")[0][i + 6..] == v + rest
    requires IsTriple(v) && (|rest| > 0 ==> rest[0] !in Digits)
    ensures ServiceVersion("nginx", deps, h) == v
  {
    var line := Output(h, "nginx -v 2>&1")[0];
    NginxCommand();
    CommandVersion("nginx", deps, h);
    assert "" + (v + rest) == v + rest;
    CleanAfterPrefix("nginx", line, Pattern("nginx/", false), i, "", v, rest);
  }
}
