/**
 * The link expander of bin/gen_llms.php (class MdLinkExpander): it reads an
 * index of Markdown links, resolves each link to a local Markdown file and
 * writes that file, with its own internal links replaced by the linked
 * files' text, under a "# Source:" heading.
 *
 * The file system is a map from path to content; the console messages are
 * not modelled.
 */
module LinkExpander {
  import opened Wrappers
  import opened Strings

  /**
   * Every path file_exists accepts, mapped to what file_get_contents returns
   * for it: a regular file maps to its content and a directory to "".
   */
  type FileSystem = map<string, string>

  /** The two settings of an MdLinkExpander that the transforms use. */
  datatype Expander = Expander(baseUrl: string, baseDir: string)

  datatype ExpandError =
    | NotInternal(url: string)
    | FileNotFound(path: string)
    | SourceNotFound(path: string)

  /** The constructor: the base directory loses every trailing '/'. */
  function NewExpander(baseUrl: string, baseDir: string): (e: Expander)
    ensures e.baseUrl == baseUrl
    ensures StartsWith(baseDir, e.baseDir)
    ensures forall i :: |e.baseDir| <= i < |baseDir| ==> baseDir[i] == '/'
    ensures |e.baseDir| > 0 ==> e.baseDir[|e.baseDir| - 1] != '/'
  {
    Expander(baseUrl, TrimRight(baseDir, {'/'}))
  }

  // ---------------------------------------------------------------------------
  // The link pattern \[([^\]]+)\]\(([^)]+)\)
  // ---------------------------------------------------------------------------

  /** One match of the link pattern: the text group and the URL group. */
  datatype Link = Link(text: string, url: string)

  /** The whole matched markup. */
  function Raw(l: Link): string {
    "[" + l.text + "](" + l.url + ")"
  }

  /** What the two negated character classes allow in each group. */
  predicate WellFormed(l: Link) {
    |l.text| > 0 && ']' !in l.text && |l.url| > 0 && ')' !in l.url
  }

  /**
   * The match of the link pattern that starts at the first character of `s`.
   * Neither group can contain its closing bracket, so the greedy groups end at
   * the first ']' and the first ')' and no backtracking can find another match.
   */
  function LinkAt(s: string): (r: Option<Link>)
    ensures r.Some? ==> WellFormed(r.value) && StartsWith(s, Raw(r.value))
  {
    if |s| == 0 || s[0] != '[' then None
    else
      var j := 1 + IndexOfAny(s[1..], {']'});
      if j == 1 || j + 1 >= |s| || s[j + 1] != '(' then None
      else
        var k := j + 2 + IndexOfAny(s[j + 2..], {')'});
        if k == j + 2 || k >= |s| then None
        else
          LinkMarkup(s, j, k);
          Some(Link(s[1..j], s[j + 2..k]))
  }

  /** The groups between the located brackets form a well-formed link whose markup starts `s`. */
  lemma LinkMarkup(s: string, j: nat, k: nat)
    requires 1 < j && j + 2 < k < |s| && s[0] == '[' && s[j + 1] == '('
    requires j == 1 + IndexOfAny(s[1..], {']'})
    requires k == j + 2 + IndexOfAny(s[j + 2..], {')'})
    ensures WellFormed(Link(s[1..j], s[j + 2..k]))
    ensures StartsWith(s, Raw(Link(s[1..j], s[j + 2..k])))
  {
    assert s[j] == s[1..][j - 1];
    assert s[k] == s[j + 2..][k - j - 2];
    GroupFree(s, 1, j, ']');
    GroupFree(s, j + 2, k, ')');
    MarkupPrefix(s, j, k);
  }

  /** A group that ends at the first occurrence of its closing character does not contain it. */
  lemma GroupFree(s: string, i: nat, j: nat, c: char)
    requires i <= j <= |s| && j == i + IndexOfAny(s[i..], {c})
    ensures c !in s[i..j]
  {
    assert forall n :: 0 <= n < j - i ==> s[i..j][n] == s[i..][n];
  }

  /** The first k + 1 characters are the markup of the link between the brackets. */
  lemma MarkupPrefix(s: string, j: nat, k: nat)
    requires 1 <= j && j + 2 <= k < |s|
    requires s[0] == '[' && s[j] == ']' && s[j + 1] == '(' && s[k] == ')'
    ensures s[..k + 1] == "[" + s[1..j] + "](" + s[j + 2..k] + ")"
  {
    assert s[..j] == "[" + s[1..j];
    assert s[..j + 2] == s[..j] + "](";
    assert s[..k] == s[..j + 2] + s[j + 2..k];
    assert s[..k + 1] == s[..k] + ")";
  }

  /** Every well-formed link is found where its markup starts. */
  lemma LinkAtComplete(l: Link, rest: string)
    requires WellFormed(l)
    ensures LinkAt(Raw(l) + rest) == Some(l)
  {
    var s := Raw(l) + rest;
    var n, m := |l.text|, |l.url|;
    RawLayout(l, rest);
    TextEnds(s, l.text);
    UrlEnds(s, n, l.url);
    LinkAtBounds(s, l);
  }

  /** The match LinkAt reports once both closing brackets are located. */
  lemma LinkAtBounds(s: string, l: Link)
    requires var n, m := |l.text|, |l.url|;
             0 < n && 0 < m && n + m + 4 <= |s|
             && s[0] == '[' && IndexOfAny(s[1..], {']'}) == n && s[n + 2] == '('
             && IndexOfAny(s[n + 3..], {')'}) == m
             && s[1..n + 1] == l.text && s[n + 3..n + m + 3] == l.url
    ensures LinkAt(s) == Some(l)
  {
  }

  /** Where the brackets and both groups sit in the markup of a link. */
  lemma RawLayout(l: Link, rest: string)
    requires WellFormed(l)
    ensures var s, n, m := Raw(l) + rest, |l.text|, |l.url|;
            n + m + 4 <= |s| && s[0] == '[' && s[n + 1] == ']' && s[n + 2] == '('
            && s[n + m + 3] == ')' && s[1..n + 1] == l.text && s[n + 3..n + m + 3] == l.url
  {
    var s, n, m := Raw(l) + rest, |l.text|, |l.url|;
    var a := "[" + l.text;
    var b := a + "](" + l.url;
    assert s == b + ")" + rest;
    assert s[..n + 1] == a && a[1..] == l.text;
    assert s[..n + m + 3] == b && b[n + 3..] == l.url;
  }

  /** The text group ends at the first ']' after the opening '['. */
  lemma TextEnds(s: string, text: string)
    requires |text| > 0 && ']' !in text && |text| + 2 <= |s|
    requires s[1..|text| + 1] == text && s[|text| + 1] == ']'
    ensures IndexOfAny(s[1..], {']'}) == |text|
  {
    var n := |text|;
    assert forall i :: 0 <= i < n ==> s[1..][i] == text[i];
    assert s[1..][n] == ']';
    IndexOfAnyAt(s[1..], {']'}, n);
  }

  /** The URL group ends at the first ')' after the '('. */
  lemma UrlEnds(s: string, n: nat, url: string)
    requires |url| > 0 && ')' !in url && n + |url| + 4 <= |s|
    requires s[n + 3..n + |url| + 3] == url && s[n + |url| + 3] == ')'
    ensures IndexOfAny(s[n + 3..], {')'}) == |url|
  {
    var m := |url|;
    assert forall i :: 0 <= i < m ==> s[n + 3..][i] == url[i];
    assert s[n + 3..][m] == ')';
    IndexOfAnyAt(s[n + 3..], {')'}, m);
  }

  /** preg_match_all: every leftmost, non-overlapping match, in order. */
  function Links(s: string): (r: seq<Link>)
    ensures forall i :: 0 <= i < |r| ==> WellFormed(r[i])
    decreases |s|
  {
    if |s| == 0 then []
    else
      match LinkAt(s)
      case Some(l) => [l] + Links(s[|Raw(l)|..])
      case None => Links(s[1..])
  }

  /** preg_match: the first match, if any. */
  function FirstLink(s: string): Option<Link> {
    var ls := Links(s);
    if |ls| == 0 then None else Some(ls[0])
  }

  /** A text that starts with a link yields that link, then the links of the rest. */
  lemma LinksOfRaw(l: Link, rest: string)
    requires WellFormed(l)
    ensures Links(Raw(l) + rest) == [l] + Links(rest)
  {
    LinkAtComplete(l, rest);
    assert (Raw(l) + rest)[|Raw(l)|..] == rest;
  }

  /** Text without a '[' holds no link. */
  lemma {:induction false} LinksWithoutBracket(s: string)
    requires '[' !in s
    ensures Links(s) == []
    decreases |s|
  {
    if |s| > 0 {
      assert s[0] != '[';
      assert forall i :: 0 <= i < |s| - 1 ==> s[1..][i] == s[i + 1];
      LinksWithoutBracket(s[1..]);
    }
  }

  // ---------------------------------------------------------------------------
  // urlToLocalPath
  // ---------------------------------------------------------------------------

  /** ASCII control characters: 0x00-0x1F and DEL. */
  predicate IsControl(c: char) {
    c < ' ' || c == '\U{007F}'
  }

  predicate NoControl(s: string) {
    forall i :: 0 <= i < |s| ==> !IsControl(s[i])
  }

  /** parse_url() writes '_' in place of every control character of the parts it reports. */
  function Visible(c: char): (r: char)
    ensures !IsControl(r)
    ensures !IsControl(c) ==> r == c
  {
    if IsControl(c) then '_' else c
  }

  function ReplaceControlChars(s: string): (r: string)
    ensures |r| == |s| && NoControl(r)
    ensures forall i :: 0 <= i < |s| ==> r[i] == Visible(s[i])
  {
    seq(|s|, i requires 0 <= i < |s| => Visible(s[i]))
  }

  /** Text without control characters is reported as it is. */
  lemma ReplaceControlCharsKeeps(s: string)
    requires NoControl(s)
    ensures ReplaceControlChars(s) == s
  {
  }

  /**
   * The path component parse_url() gives a relative path: everything before
   * the first '?' or '#', with control characters turned into '_'. When that
   * part is empty parse_url() reports no path at all and the caller keeps its
   * input unchanged.
   */
  function UrlPath(rel: string): (r: string)
    ensures |r| <= |rel|
    ensures |rel| > 0 && rel[0] in {'#', '?'} ==> r == rel
    ensures !(|rel| > 0 && rel[0] in {'#', '?'}) ==>
              (|r| == |rel| || rel[|r|] in {'#', '?'})
              && forall i :: 0 <= i < |r| ==> rel[i] !in {'#', '?'} && r[i] == Visible(rel[i])
  {
    var k := IndexOfAny(rel, {'#', '?'});
    if k == 0 then rel else ReplaceControlChars(rel[..k])
  }

  /** PHP basename(): the last '/'-separated component, trailing '/' ignored. */
  function Basename(p: string): (r: string)
    ensures '/' !in r
    ensures |r| <= |p|
  {
    AfterLast(TrimRight(p, {'/'}), '/')
  }

  /** pathinfo($p, PATHINFO_EXTENSION): what follows the basename's last '.', or "". */
  function Extension(p: string): (r: string)
    ensures '.' !in r && '/' !in r
    ensures |r| > 0 ==> |r| < |p|
  {
    var b := Basename(p);
    if '.' in b then AfterLast(b, '.') else ""
  }

  /** PHP's empty() holds of "" and also of the string "0". */
  predicate IsEmptyExtension(x: string) {
    x == "" || x == "0"
  }

  /** Step 1: drop the leading '/'s or every occurrence of the base URL, then trim '/'. */
  function RelativePath(e: Expander, u: string): string {
    var rel := if StartsWith(u, "/") then TrimLeft(u, {'/'}) else ReplaceAll(u, e.baseUrl, "");
    Trim(rel, {'/'})
  }

  /** Step 2: a path without an extension names a directory's index.md. */
  function WithIndex(rel: string): string {
    if IsEmptyExtension(Extension(rel)) then rel + "/index.md" else rel
  }

  /** Step 3: an extension equal to "html" in any case loses its last five characters to ".md". */
  function HtmlToMd(rel: string): string {
    if ToLower(Extension(rel)) == "html" then rel[..|rel| - 5] + ".md" else rel
  }

  /** An internal URL starts with the base URL or with '/'. */
  predicate IsInternal(e: Expander, u: string) {
    StartsWith(u, e.baseUrl) || StartsWith(u, "/")
  }

  /** urlToLocalPath: the local Markdown file an internal URL names. */
  function UrlToLocalPath(e: Expander, url: string): (r: Result<string, ExpandError>)
    ensures r.Err? <==> !IsInternal(e, Trim(url, PhpWhitespace))
    ensures r.Ok? ==> StartsWith(r.value, e.baseDir + "/")
  {
    var u := Trim(url, PhpWhitespace);
    if !IsInternal(e, u) then Err(NotInternal(u))
    else Ok(e.baseDir + "/" + HtmlToMd(WithIndex(UrlPath(RelativePath(e, u)))))
  }

  /** readLocalFile: the content at the trimmed path, or an error when there is no file. */
  function ReadLocalFile(fs: FileSystem, path: string): (r: Result<string, ExpandError>)
    ensures r.Ok? <==> Trim(path, PhpWhitespace) in fs
    ensures r.Ok? ==> r.value == fs[Trim(path, PhpWhitespace)]
  {
    var p := Trim(path, PhpWhitespace);
    if p in fs then Ok(fs[p]) else Err(FileNotFound(p))
  }

  /** Resolve a URL and read the file it names. */
  function Load(e: Expander, fs: FileSystem, url: string): Result<string, ExpandError> {
    match UrlToLocalPath(e, url)
    case Err(err) => Err(err)
    case Ok(path) => ReadLocalFile(fs, path)
  }

  /** The stages of urlToLocalPath once a URL has passed the internal check. */
  lemma InternalUrlPath(e: Expander, u: string, rel: string, path: string)
    requires Trim(u, PhpWhitespace) == u && IsInternal(e, u)
    requires RelativePath(e, u) == rel
    requires HtmlToMd(WithIndex(UrlPath(rel))) == path
    ensures UrlToLocalPath(e, u) == Ok(e.baseDir + "/" + path)
  {
  }

  /** A path without '.' has no extension. */
  lemma ExtensionWithoutDot(p: string)
    requires '.' !in p
    ensures Extension(p) == ""
  {
    var t := TrimRight(p, {'/'});
    var b := AfterLast(t, '/');
    assert forall i :: 0 <= i < |b| ==> b[i] == t[|t| - |b| + i] == p[|t| - |b| + i];
  }

  /** The basename of a path that ends in "/b" is b. */
  lemma BasenameAfterSlash(p: string, b: string)
    requires '/' !in b && |b| > 0
    ensures Basename(p + (['/'] + b)) == b
  {
    var q := p + (['/'] + b);
    assert q[|q| - 1] == b[|b| - 1];
    assert TrimRight(q, {'/'}) == q;
    AfterSeparator(p, b, '/');
  }

  /** The extension of a directory's index file is "md". */
  lemma IndexExtension(p: string)
    ensures Extension(p + "/index.md") == "md"
  {
    assert "/index.md" == ['/'] + "index.md";
    BasenameAfterSlash(p, "index.md");
    IndexFileName();
  }

  /** "index.md" has a '.' and, after the last one, "md". */
  lemma IndexFileName()
    ensures '.' in "index.md" && AfterLast("index.md", '.') == "md"
  {
    assert "index.md" == "index" + (['.'] + "md");
    AfterSeparator("index", "md", '.');
    assert "index.md"[5] == '.';
  }

  /** A root-relative URL loses its one leading '/' and nothing else. */
  lemma RootRelativeRel(e: Expander, s: string)
    requires |s| > 0 && s[0] != '/' && s[|s| - 1] != '/' && s[|s| - 1] !in PhpWhitespace
    ensures Trim("/" + s, PhpWhitespace) == "/" + s
    ensures IsInternal(e, "/" + s)
    ensures RelativePath(e, "/" + s) == s
  {
    var u := "/" + s;
    TrimKeeps(u, PhpWhitespace);
    assert u[1..] == s;
    assert TrimLeft(u, {'/'}) == s;
    TrimKeeps(s, {'/'});
  }

  /** A path without '?' or '#' is its own path component. */
  lemma PlainUrlPath(s: string)
    requires forall i :: 0 <= i < |s| ==> s[i] !in {'#', '?'}
    requires NoControl(s)
    ensures UrlPath(s) == s
  {
    IndexOfAnyAt(s, {'#', '?'}, |s|);
    assert s[..|s|] == s;
    ReplaceControlCharsKeeps(s);
  }

  /** parse_url() keeps the part before a fragment when that part is not empty. */
  lemma FragmentUrlPath(s: string, f: string)
    requires |s| > 0
    requires forall i :: 0 <= i < |s| ==> s[i] !in {'#', '?'}
    requires NoControl(s)
    ensures UrlPath(s + "#" + f) == s
  {
    var a := s + "#" + f;
    assert forall i :: 0 <= i < |s| ==> a[i] == s[i];
    assert a[|s|] == '#';
    IndexOfAnyAt(a, {'#', '?'}, |s|);
    assert a[..|s|] == s;
    ReplaceControlCharsKeeps(s);
  }

  /** A path without '.' gets "/index.md" appended and no further change. */
  lemma DirectoryIndex(s: string)
    requires '.' !in s
    ensures HtmlToMd(WithIndex(s)) == s + "/index.md"
  {
    ExtensionWithoutDot(s);
    IndexExtension(s);
    assert ToLower("md") != "html";
  }

  /** An extensionless root-relative path names the index.md of that directory. */
  lemma RootRelativeDirectory(e: Expander, s: string)
    requires |s| > 0 && s[0] != '/' && s[|s| - 1] != '/' && s[|s| - 1] !in PhpWhitespace
    requires forall i :: 0 <= i < |s| ==> s[i] !in {'.', '#', '?'}
    requires NoControl(s)
    ensures UrlToLocalPath(e, "/" + s) == Ok(e.baseDir + "/" + (s + "/index.md"))
  {
    RootRelativeRel(e, s);
    PlainUrlPath(s);
    DirectoryIndex(s);
    InternalUrlPath(e, "/" + s, s, s + "/index.md");
  }

  /** An extension that lower-cases to "html" is four ASCII letters. */
  lemma HtmlLetters(x: string)
    requires ToLower(x) == "html"
    ensures |x| == 4
    ensures forall i :: 0 <= i < |x| ==> x[i] !in {'#', '?', '/', '.'} && x[i] !in PhpWhitespace
    ensures NoControl(x)
  {
    assert forall i :: 0 <= i < 4 ==> LowerChar(x[i]) == "html"[i];
  }

  /** The basename of "stem.x" ends in ".x", so its extension is x. */
  lemma ExtensionAfterDot(stem: string, x: string)
    requires '.' !in x && '/' !in x && |x| > 0
    ensures Extension(stem + "." + x) == x
  {
    BasenameOfDotted(stem, x);
    DotExtension(AfterLast(stem, '/'), x);
  }

  /** The basename of "stem.x" is the stem's last component followed by ".x". */
  lemma BasenameOfDotted(stem: string, x: string)
    requires '/' !in x && |x| > 0
    ensures Basename(stem + "." + x) == AfterLast(stem, '/') + (['.'] + x)
  {
    var rel := stem + "." + x;
    assert rel[|rel| - 1] == x[|x| - 1];
    assert TrimRight(rel, {'/'}) == rel;
    assert rel == stem + (['.'] + x);
    AfterLastAppend(stem, ['.'] + x, '/');
  }

  /** After the last '.' of "pre.x" comes x. */
  lemma DotExtension(pre: string, x: string)
    requires '.' !in x
    ensures '.' in pre + (['.'] + x) && AfterLast(pre + (['.'] + x), '.') == x
  {
    AfterSeparator(pre, x, '.');
    assert (pre + (['.'] + x))[|pre|] == '.';
  }

  /** No '?' or '#' can appear in "stem.x" when x is an html extension. */
  lemma HtmlUrlPath(stem: string, x: string)
    requires forall i :: 0 <= i < |stem| ==> stem[i] !in {'#', '?'}
    requires NoControl(stem)
    requires ToLower(x) == "html"
    ensures UrlPath(stem + "." + x) == stem + "." + x
  {
    HtmlLetters(x);
    var rel := stem + "." + x;
    assert forall i :: 0 <= i < |rel| ==> rel[i] !in {'#', '?'} && !IsControl(rel[i]) by {
      forall i | 0 <= i < |rel|
        ensures rel[i] !in {'#', '?'} && !IsControl(rel[i])
      {
        if i < |stem| {
          assert rel[i] == stem[i];
        } else if i > |stem| {
          assert rel[i] == x[i - |stem| - 1];
        }
      }
    }
    PlainUrlPath(rel);
  }

  /** "stem.x" with x lower-casing to "html" becomes "stem.md". */
  lemma HtmlRewrite(stem: string, x: string)
    requires ToLower(x) == "html"
    ensures HtmlToMd(WithIndex(stem + "." + x)) == stem + ".md"
  {
    HtmlLetters(x);
    var rel := stem + "." + x;
    ExtensionAfterDot(stem, x);
    KeptWithExtension(rel);
    HtmlStem(stem, x);
  }

  /** A path with a real extension gets no "/index.md". */
  lemma KeptWithExtension(rel: string)
    requires |Extension(rel)| > 1
    ensures WithIndex(rel) == rel
  {
  }

  /** Dropping the last five characters of "stem.x", x of length 4, leaves the stem. */
  lemma HtmlStem(stem: string, x: string)
    requires |x| == 4 && ToLower(x) == "html" && Extension(stem + "." + x) == x
    ensures HtmlToMd(stem + "." + x) == stem + ".md"
  {
    DropExtension(stem, x);
  }

  /** Dropping ".x" for x of length 4 leaves the stem. */
  lemma DropExtension(stem: string, x: string)
    requires |x| == 4
    ensures |stem + "." + x| == |stem| + 5 && (stem + "." + x)[..|stem + "." + x| - 5] == stem
  {
  }

  /** A root-relative ".html" path, in any case, names the ".md" file with the same stem. */
  lemma RootRelativeHtml(e: Expander, stem: string, x: string)
    requires |stem| > 0 && stem[0] != '/'
    requires forall i :: 0 <= i < |stem| ==> stem[i] !in {'#', '?'}
    requires NoControl(stem)
    requires ToLower(x) == "html"
    ensures UrlToLocalPath(e, "/" + (stem + "." + x)) == Ok(e.baseDir + "/" + (stem + ".md"))
  {
    HtmlLetters(x);
    var rel := stem + "." + x;
    assert rel[0] == stem[0] && rel[|rel| - 1] == x[3];
    RootRelativeRel(e, rel);
    HtmlUrlPath(stem, x);
    HtmlRewrite(stem, x);
    InternalUrlPath(e, "/" + rel, rel, stem + ".md");
  }

  /** A plain root-relative path resolves through its own path component. */
  lemma PlainRootRelative(e: Expander, s: string)
    requires |s| > 0 && s[0] != '/' && s[|s| - 1] != '/' && s[|s| - 1] !in PhpWhitespace
    requires forall i :: 0 <= i < |s| ==> s[i] !in {'#', '?'}
    requires NoControl(s)
    ensures UrlToLocalPath(e, "/" + s) == Ok(e.baseDir + "/" + HtmlToMd(WithIndex(s)))
  {
    PlainUrlPath(s);
    RootRelativeResolves(e, s, s);
  }

  /** A root-relative URL whose rest needs no trimming resolves through the rest's path component. */
  lemma RootRelativeResolves(e: Expander, a: string, p: string)
    requires |a| > 0 && a[0] != '/' && a[|a| - 1] != '/' && a[|a| - 1] !in PhpWhitespace
    requires UrlPath(a) == p
    ensures UrlToLocalPath(e, "/" + a) == Ok(e.baseDir + "/" + HtmlToMd(WithIndex(p)))
  {
    RootRelativeRel(e, a);
    InternalUrlPath(e, "/" + a, a, HtmlToMd(WithIndex(p)));
  }

  /** A root-relative path with a fragment resolves through the part before '#'. */
  lemma FragmentRootRelative(e: Expander, s: string, f: string)
    requires |s| > 0 && s[0] != '/'
    requires forall i :: 0 <= i < |s| ==> s[i] !in {'#', '?'}
    requires NoControl(s)
    requires forall i :: 0 <= i < |f| ==> f[i] != '/' && f[i] !in PhpWhitespace
    ensures UrlToLocalPath(e, "/" + (s + "#" + f)) == Ok(e.baseDir + "/" + HtmlToMd(WithIndex(s)))
  {
    var a := s + "#" + f;
    assert a[0] == s[0];
    assert a[|a| - 1] != '/' && a[|a| - 1] !in PhpWhitespace;
    FragmentUrlPath(s, f);
    RootRelativeResolves(e, a, s);
  }

  /** Everything from the fragment on is ignored: "/s#f" names the same file as "/s". */
  lemma FragmentIgnored(e: Expander, s: string, f: string)
    requires |s| > 0 && s[0] != '/' && s[|s| - 1] != '/' && s[|s| - 1] !in PhpWhitespace
    requires forall i :: 0 <= i < |s| ==> s[i] !in {'#', '?'}
    requires NoControl(s)
    requires forall i :: 0 <= i < |f| ==> f[i] != '/' && f[i] !in PhpWhitespace
    ensures UrlToLocalPath(e, "/" + (s + "#" + f)) == UrlToLocalPath(e, "/" + s)
  {
    FragmentRootRelative(e, s, f);
    PlainRootRelative(e, s);
  }

  /** parse_url() reports no path for a string that starts with '#'. */
  lemma FragmentOnlyRel(e: Expander, f: string)
    requires forall i :: 0 <= i < |f| ==> f[i] !in {'.', '/'} && f[i] !in PhpWhitespace
    ensures IsInternal(e, "/" + ("#" + f)) && Trim("/" + ("#" + f), PhpWhitespace) == "/" + ("#" + f)
    ensures RelativePath(e, "/" + ("#" + f)) == "#" + f
    ensures UrlPath("#" + f) == "#" + f
    ensures '.' !in "#" + f
  {
    var a := "#" + f;
    assert a[|a| - 1] != '/' && a[|a| - 1] !in PhpWhitespace;
    RootRelativeRel(e, a);
  }

  /**
   * A URL that is only a fragment keeps it: parse_url() finds no path in
   * "#f", so the fragment is not dropped and becomes a directory name.
   */
  lemma FragmentOnlyUrl(e: Expander, f: string)
    requires forall i :: 0 <= i < |f| ==> f[i] !in {'.', '/'} && f[i] !in PhpWhitespace
    ensures UrlToLocalPath(e, "/" + ("#" + f)) == Ok(e.baseDir + "/" + (("#" + f) + "/index.md"))
  {
    FragmentOnlyRel(e, f);
    DirectoryIndex("#" + f);
    InternalUrlPath(e, "/" + ("#" + f), "#" + f, ("#" + f) + "/index.md");
  }

  /**
   * An absolute URL loses every occurrence of the base URL, not only the
   * leading one, before the '/' trimming.
   */
  lemma BaseUrlRemovedEverywhere(e: Expander, s: string)
    requires |e.baseUrl| > 0 && e.baseUrl[0] != '/'
    ensures RelativePath(e, e.baseUrl + s) == Trim(ReplaceAll(s, e.baseUrl, ""), {'/'})
  {
    var a := e.baseUrl + s;
    assert !StartsWith(a, "/") by { assert a[0] != '/'; }
    ReplaceAllLeading(e.baseUrl, s, "");
    assert "" + ReplaceAll(s, e.baseUrl, "") == ReplaceAll(s, e.baseUrl, "");
  }

  /**
   * The rewrite processLinks applies to a root-relative link, "/s" to
   * baseUrl + "s", names the same file as "/s" itself, provided the base URL
   * does not start with '/' and does not occur again inside "s".
   */
  lemma BaseUrlMatchesRootRelative(e: Expander, s: string)
    requires |e.baseUrl| > 0 && e.baseUrl[0] != '/' && e.baseUrl[0] !in PhpWhitespace
    requires |s| > 0 && s[|s| - 1] !in PhpWhitespace
    requires !Contains(s, e.baseUrl)
    ensures UrlToLocalPath(e, e.baseUrl + s) == UrlToLocalPath(e, "/" + s)
  {
    var a, v := e.baseUrl + s, "/" + s;
    assert a[0] == e.baseUrl[0] && a[|a| - 1] == s[|s| - 1];
    TrimKeeps(a, PhpWhitespace);
    assert v[|v| - 1] == s[|s| - 1];
    TrimKeeps(v, PhpWhitespace);
    assert StartsWith(a, e.baseUrl) by {
      assert a[..|e.baseUrl|] == e.baseUrl;
    }
    assert StartsWith(v, "/");
    var rel := Trim(s, {'/'});
    AbsoluteRelativePath(e, s);
    RootRelativePath(e, s);
    var path := HtmlToMd(WithIndex(UrlPath(rel)));
    InternalUrlPath(e, a, rel, path);
    InternalUrlPath(e, v, rel, path);
  }

  /** Without a second copy of the base URL, an absolute URL's relative path is the rest, trimmed. */
  lemma AbsoluteRelativePath(e: Expander, s: string)
    requires |e.baseUrl| > 0 && e.baseUrl[0] != '/'
    requires !Contains(s, e.baseUrl)
    ensures RelativePath(e, e.baseUrl + s) == Trim(s, {'/'})
  {
    BaseUrlRemovedEverywhere(e, s);
    ReplaceAllAbsent(s, e.baseUrl, "");
  }

  /** A root-relative URL's relative path is the rest, trimmed of '/'. */
  lemma RootRelativePath(e: Expander, s: string)
    ensures RelativePath(e, "/" + s) == Trim(s, {'/'})
  {
    var v := "/" + s;
    assert StartsWith(v, "/");
    assert v[1..] == s;
    assert TrimLeft(v, {'/'}) == TrimLeft(s, {'/'});
    TrimLeftTwice(s, {'/'});
  }

  // ---------------------------------------------------------------------------
  // processLinks
  // ---------------------------------------------------------------------------

  /** The URL processLinks resolves for a link, when the link is internal. */
  function LinkTarget(e: Expander, l: Link): Option<string> {
    var u := Trim(l.url, PhpWhitespace);
    if !IsInternal(e, u) then None
    else if StartsWith(u, "/") then Some(e.baseUrl + TrimLeft(u, {'/'}))
    else Some(u)
  }

  /** The linked file's content when the link is internal and its file exists. */
  function LinkedContent(e: Expander, fs: FileSystem, l: Link): Option<string> {
    match LinkTarget(e, l)
    case None => None
    case Some(u) =>
      match Load(e, fs, u)
      case Ok(content) => Some(content)
      case Err(_) => None
  }

  /** One iteration of processLinks: replace every copy of the link's markup. */
  function Substitute(e: Expander, fs: FileSystem, content: string, l: Link): (r: string)
    ensures LinkedContent(e, fs, l).None? ==> r == content
  {
    match LinkedContent(e, fs, l)
    case None => content
    case Some(linked) => ReplaceAll(content, Raw(l), l.text + "\n\n" + linked)
  }

  /** The loop of processLinks over a fixed list of matches. */
  function SubstituteAll(e: Expander, fs: FileSystem, content: string, ls: seq<Link>): string
    decreases |ls|
  {
    if |ls| == 0 then content
    else SubstituteAll(e, fs, Substitute(e, fs, content, ls[0]), ls[1..])
  }

  /**
   * processLinks: the matches are collected once, from the original text.
   * Text inserted for one match yields no new matches, but a later match's
   * replacement also rewrites copies of its markup inside that text.
   */
  function ProcessLinks(e: Expander, fs: FileSystem, content: string): string {
    SubstituteAll(e, fs, content, Links(content))
  }

  /** Links that are external or point at missing files leave the text alone. */
  lemma {:induction false} SubstituteAllInert(e: Expander, fs: FileSystem, content: string, ls: seq<Link>)
    requires forall i :: 0 <= i < |ls| ==> LinkedContent(e, fs, ls[i]).None?
    ensures SubstituteAll(e, fs, content, ls) == content
    decreases |ls|
  {
    if |ls| > 0 {
      SubstituteAllInert(e, fs, content, ls[1..]);
    }
  }

  /** A page whose links all fail to resolve passes through processLinks unchanged. */
  lemma ProcessLinksInert(e: Expander, fs: FileSystem, content: string)
    requires forall l :: l in Links(content) ==> LinkedContent(e, fs, l).None?
    ensures ProcessLinks(e, fs, content) == content
  {
    SubstituteAllInert(e, fs, content, Links(content));
  }

  /** A page without link markup passes through processLinks unchanged. */
  lemma ProcessLinksWithoutLinks(e: Expander, fs: FileSystem, content: string)
    requires '[' !in content
    ensures ProcessLinks(e, fs, content) == content
  {
    LinksWithoutBracket(content);
  }

  /**
   * A page that is one resolvable link becomes the link text, a blank line
   * and the linked file verbatim: links inside the linked file stay as they are.
   */
  lemma ProcessLinksNotRecursive(e: Expander, fs: FileSystem, l: Link)
    requires WellFormed(l)
    requires LinkedContent(e, fs, l).Some?
    ensures ProcessLinks(e, fs, Raw(l)) == l.text + "\n\n" + LinkedContent(e, fs, l).value
  {
    var rep := l.text + "\n\n" + LinkedContent(e, fs, l).value;
    LinksOfRaw(l, "");
    assert Raw(l) + "" == Raw(l);
    assert Links(Raw(l)) == [l];
    ReplaceAllWhole(Raw(l), rep);
    assert Substitute(e, fs, Raw(l), l) == rep;
    assert SubstituteAll(e, fs, rep, []) == rep;
  }

  /**
   * Each replacement runs over the whole current text. When the file linked
   * by the first link is itself the markup of the page's second link, the
   * second replacement expands that copy too, next to the original.
   */
  lemma ProcessLinksRewritesInserted(e: Expander, fs: FileSystem, l1: Link, l2: Link)
    requires WellFormed(l1) && WellFormed(l2)
    requires LinkedContent(e, fs, l1) == Some(Raw(l2))
    requires LinkedContent(e, fs, l2).Some?
    requires !Contains(Raw(l2), Raw(l1))
    requires Find(l1.text + "\n\n" + Raw(l2) + Raw(l2), Raw(l2)) == Some(|l1.text| + 2)
    ensures var rep2 := l2.text + "\n\n" + LinkedContent(e, fs, l2).value;
            ProcessLinks(e, fs, Raw(l1) + Raw(l2)) == l1.text + "\n\n" + rep2 + rep2
  {
    TwoLinks(l1, l2);
    SubstituteAllTwo(e, fs, Raw(l1) + Raw(l2), l1, l2);
    FirstLinkInserted(e, fs, l1, l2);
    InsertedCopyRewritten(e, fs, l1, l2);
  }

  /** The loop over two matches replaces the first, then the second in the result. */
  lemma SubstituteAllTwo(e: Expander, fs: FileSystem, content: string, l1: Link, l2: Link)
    ensures SubstituteAll(e, fs, content, [l1, l2]) == Substitute(e, fs, Substitute(e, fs, content, l1), l2)
  {
    var c1 := Substitute(e, fs, content, l1);
    assert [l1, l2][1..] == [l2];
    assert SubstituteAll(e, fs, content, [l1, l2]) == SubstituteAll(e, fs, c1, [l2]);
    assert [l2][1..] == [];
    assert SubstituteAll(e, fs, c1, [l2]) == SubstituteAll(e, fs, Substitute(e, fs, c1, l2), []);
  }

  /** The page of two links matches exactly those two links. */
  lemma TwoLinks(l1: Link, l2: Link)
    requires WellFormed(l1) && WellFormed(l2)
    ensures Links(Raw(l1) + Raw(l2)) == [l1, l2]
  {
    LinksOfRaw(l1, Raw(l2));
    LinksOfRaw(l2, "");
    assert Raw(l2) + "" == Raw(l2);
  }

  /** Replacing the first link inserts its file, here the second link's markup. */
  lemma FirstLinkInserted(e: Expander, fs: FileSystem, l1: Link, l2: Link)
    requires WellFormed(l1)
    requires LinkedContent(e, fs, l1) == Some(Raw(l2))
    requires !Contains(Raw(l2), Raw(l1))
    ensures Substitute(e, fs, Raw(l1) + Raw(l2), l1) == l1.text + "\n\n" + Raw(l2) + Raw(l2)
  {
    var rep1 := l1.text + "\n\n" + Raw(l2);
    ReplaceAllLeading(Raw(l1), Raw(l2), rep1);
    ReplaceAllAbsent(Raw(l2), Raw(l1), rep1);
  }

  /** Replacing the second link rewrites the inserted copy and the original alike. */
  lemma InsertedCopyRewritten(e: Expander, fs: FileSystem, l1: Link, l2: Link)
    requires WellFormed(l2)
    requires LinkedContent(e, fs, l2).Some?
    requires Find(l1.text + "\n\n" + Raw(l2) + Raw(l2), Raw(l2)) == Some(|l1.text| + 2)
    ensures var rep2 := l2.text + "\n\n" + LinkedContent(e, fs, l2).value;
            Substitute(e, fs, l1.text + "\n\n" + Raw(l2) + Raw(l2), l2) == l1.text + "\n\n" + rep2 + rep2
  {
    var rep2 := l2.text + "\n\n" + LinkedContent(e, fs, l2).value;
    var x := l1.text + "\n\n";
    assert |x| == |l1.text| + 2;
    ReplaceAllAtFirst(x, Raw(l2), Raw(l2), rep2);
    ReplaceAllWhole(Raw(l2), rep2);
  }


  // ---------------------------------------------------------------------------
  // processUrl and expand
  // ---------------------------------------------------------------------------

  /** The characters processUrl strips from the front of an extracted URL. */
  const LinkPunctuation: set<char> := {'>', '[', ']', '(', ')', '{', '}', '`', '*', '+', '-', ' '}

  const Delimiter := "--------------------\n\n"

  /** The block processUrl writes for one successfully read entry. */
  function SourceBlock(url: string, body: string): (r: string)
    ensures StartsWith(r, "# Source: " + url + "\n\n")
    ensures EndsWith(r, body + "\n\n" + Delimiter)
    ensures StartsWith(r, "# Source: ") && EndsWith(r, Delimiter)
  {
    var head := "# Source: " + url + "\n\n";
    var tail := body + "\n\n" + Delimiter;
    var r := head + tail;
    assert r[..|head|] == head;
    assert r[|r| - |tail|..] == tail;
    StartsWithPrefix(r, "# Source: ", url + "\n\n");
    EndsWithSuffix(r, body + "\n\n", Delimiter);
    r
  }

  /** The URL processUrl takes from a link: group 2, trimmed, then cleared of leading punctuation. */
  function EntryUrl(l: Link): string {
    TrimLeft(Trim(l.url, PhpWhitespace), LinkPunctuation)
  }

  /**
   * processUrl: an index line with a link yields one block; a line without a
   * link, or whose file cannot be resolved or read, yields nothing.
   */
  function ProcessEntry(e: Expander, fs: FileSystem, line: string): (r: string)
    ensures r == "" <==> FirstLink(Trim(line, PhpWhitespace)).None?
                         || Load(e, fs, EntryUrl(FirstLink(Trim(line, PhpWhitespace)).value)).Err?
    ensures r != "" ==> StartsWith(r, "# Source: ") && EndsWith(r, Delimiter)
  {
    match FirstLink(Trim(line, PhpWhitespace))
    case None => ""
    case Some(l) =>
      var url := EntryUrl(l);
      match Load(e, fs, url)
      case Err(_) => ""
      case Ok(content) =>
        SourceBlock(url, ProcessLinks(e, fs, content))
  }

  /** The index lines expand() keeps: non-empty, trimmed, not starting with '#'. */
  function Entries(lines: seq<string>): (r: seq<string>)
    ensures |r| <= |lines|
    ensures forall i :: 0 <= i < |r| ==> !StartsWith(r[i], "#")
    ensures forall i :: 0 <= i < |r| ==> r[i] == Trim(r[i], PhpWhitespace)
    ensures |lines| == 1 ==>
              r == (if lines[0] == "" || StartsWith(Trim(lines[0], PhpWhitespace), "#") then []
                    else [Trim(lines[0], PhpWhitespace)])
  {
    if |lines| == 0 then []
    else
      var rest := Entries(lines[1..]);
      if lines[0] == "" then rest
      else
        var t := Trim(lines[0], PhpWhitespace);
        TrimKeeps(t, PhpWhitespace);
        if StartsWith(t, "#") then rest else [t] + rest
  }

  /** The loop of expand(): every entry's block, in index order. */
  function ExpandEntries(e: Expander, fs: FileSystem, entries: seq<string>): string
    decreases |entries|
  {
    if |entries| == 0 then ""
    else ProcessEntry(e, fs, entries[0]) + ExpandEntries(e, fs, entries[1..])
  }

  /** expand(): fails only when the index file itself is missing. */
  function Expand(e: Expander, fs: FileSystem, indexPath: string): (r: Result<string, ExpandError>)
    ensures r.Err? <==> indexPath !in fs
  {
    if indexPath !in fs then Err(SourceNotFound(indexPath))
    else Ok(ExpandEntries(e, fs, Entries(Split(fs[indexPath], '\n'))))
  }

  /** Filtering the index distributes over concatenation of its lines. */
  lemma {:induction false} EntriesAppend(a: seq<string>, b: seq<string>)
    ensures Entries(a + b) == Entries(a) + Entries(b)
    decreases |a|
  {
    if |a| == 0 {
      assert a + b == b;
    } else {
      assert (a + b)[1..] == a[1..] + b;
      EntriesAppend(a[1..], b);
    }
  }

  /**
   * A failing entry never aborts the run: the output for a concatenation of
   * entries is the concatenation of the outputs, in order.
   */
  lemma {:induction false} ExpandEntriesAppend(e: Expander, fs: FileSystem, a: seq<string>, b: seq<string>)
    ensures ExpandEntries(e, fs, a + b) == ExpandEntries(e, fs, a) + ExpandEntries(e, fs, b)
    decreases |a|
  {
    if |a| == 0 {
      assert a + b == b;
    } else {
      assert (a + b)[1..] == a[1..] + b;
      ExpandEntriesAppend(e, fs, a[1..], b);
      ExpandEntriesStep(e, fs, a + b);
      ExpandEntriesStep(e, fs, a);
      Regroup3(ProcessEntry(e, fs, a[0]), ExpandEntries(e, fs, a[1..]), ExpandEntries(e, fs, b));
    }
  }

  lemma ExpandEntriesStep(e: Expander, fs: FileSystem, x: seq<string>)
    requires |x| > 0
    ensures ExpandEntries(e, fs, x) == ProcessEntry(e, fs, x[0]) + ExpandEntries(e, fs, x[1..])
  {
  }

  /**
   * An index whose text is its lines joined by '\n' is expanded entry by
   * entry: the kept lines, in order, each give their block.
   */
  lemma ExpandIndex(e: Expander, fs: FileSystem, indexPath: string, ls: seq<string>)
    requires indexPath in fs
    requires |ls| >= 1 && forall i :: 0 <= i < |ls| ==> '\n' !in ls[i]
    requires fs[indexPath] == Join(ls, '\n')
    ensures Expand(e, fs, indexPath) == Ok(ExpandEntries(e, fs, Entries(ls)))
  {
    SplitJoin(ls, '\n');
  }

  /** An index of one link line writes exactly that line's block. */
  lemma ExpandSingleEntry(e: Expander, fs: FileSystem, indexPath: string, line: string)
    requires indexPath in fs && fs[indexPath] == line
    requires '\n' !in line && |line| > 0 && line[0] != '#'
    requires Trim(line, PhpWhitespace) == line
    ensures Expand(e, fs, indexPath) == Ok(ProcessEntry(e, fs, line))
  {
    ExpandIndex(e, fs, indexPath, [line]);
    JoinOne(line, '\n');
    EntriesOfEntryLine(line);
    ExpandEntriesOne(e, fs, line);
  }

  lemma JoinOne(x: string, c: char)
    ensures Join([x], c) == x
  {
  }

  /** A trimmed, non-empty line that does not start with '#' is kept. */
  lemma EntriesOfEntryLine(line: string)
    requires |line| > 0 && line[0] != '#' && Trim(line, PhpWhitespace) == line
    ensures Entries([line]) == [line]
  {
    assert [line][0] == line;
    assert !StartsWith(line, "#");
  }

  lemma ExpandEntriesOne(e: Expander, fs: FileSystem, x: string)
    ensures ExpandEntries(e, fs, [x]) == ProcessEntry(e, fs, x)
  {
    ExpandEntriesStep(e, fs, [x]);
    assert [x][1..] == [];
    assert ProcessEntry(e, fs, x) + "" == ProcessEntry(e, fs, x);
  }

  /** The URL of an index line "[t](u)" is u itself when u needs no cleaning. */
  lemma EntryOfRawLink(l: Link)
    requires WellFormed(l)
    requires l.url[0] !in PhpWhitespace && l.url[0] !in LinkPunctuation
    requires l.url[|l.url| - 1] !in PhpWhitespace
    ensures FirstLink(Trim(Raw(l), PhpWhitespace)) == Some(l)
    ensures EntryUrl(l) == l.url
  {
    TrimKeeps(Raw(l), PhpWhitespace);
    LinksOfRaw(l, "");
    assert Raw(l) + "" == Raw(l);
    TrimKeeps(l.url, PhpWhitespace);
  }

  /** Reading a file whose path has no surrounding whitespace. */
  lemma ReadExact(fs: FileSystem, path: string)
    requires path in fs && |path| > 0
    requires path[0] !in PhpWhitespace && path[|path| - 1] !in PhpWhitespace
    ensures ReadLocalFile(fs, path) == Ok(fs[path])
  {
    TrimKeeps(path, PhpWhitespace);
  }

  /** The URL baseUrl + s of a directory page names that page's index.md. */
  lemma DirectoryPageResolves(e: Expander, s: string)
    requires |e.baseUrl| > 0 && e.baseUrl[0] != '/' && e.baseUrl[0] !in PhpWhitespace
    requires !Contains(s, e.baseUrl)
    requires |s| > 0 && s[0] != '/' && s[|s| - 1] != '/' && s[|s| - 1] !in PhpWhitespace
    requires forall i :: 0 <= i < |s| ==> s[i] !in {'.', '#', '?'}
    requires NoControl(s)
    ensures UrlToLocalPath(e, e.baseUrl + s) == Ok(e.baseDir + "/" + (s + "/index.md"))
  {
    BaseUrlMatchesRootRelative(e, s);
    RootRelativeDirectory(e, s);
  }

  /** An index.md path has no surrounding whitespace when its directory has none in front. */
  lemma IndexPathEnds(d: string, s: string)
    requires |d| > 0 ==> d[0] !in PhpWhitespace
    ensures var p := d + "/" + (s + "/index.md"); |p| > 0 && p[0] !in PhpWhitespace && p[|p| - 1] !in PhpWhitespace
  {
    var tail := s + "/index.md";
    assert tail[|tail| - 1] == 'd';
  }

  /** The URL baseUrl + s of a directory page loads that page's index.md. */
  lemma DirectoryPageLoads(e: Expander, fs: FileSystem, s: string)
    requires |e.baseUrl| > 0 && e.baseUrl[0] != '/' && e.baseUrl[0] !in PhpWhitespace
    requires !Contains(s, e.baseUrl)
    requires |s| > 0 && s[0] != '/' && s[|s| - 1] != '/' && s[|s| - 1] !in PhpWhitespace
    requires forall i :: 0 <= i < |s| ==> s[i] !in {'.', '#', '?'}
    requires NoControl(s)
    requires |e.baseDir| > 0 ==> e.baseDir[0] !in PhpWhitespace
    requires e.baseDir + "/" + (s + "/index.md") in fs
    ensures Load(e, fs, e.baseUrl + s) == Ok(fs[e.baseDir + "/" + (s + "/index.md")])
  {
    var path := e.baseDir + "/" + (s + "/index.md");
    DirectoryPageResolves(e, s);
    IndexPathEnds(e.baseDir, s);
    ReadExact(fs, path);
  }

  /**
   * An index line "[t](baseUrl + s)" for a directory page s yields one block
   * holding that page's index.md under the URL as written.
   */
  lemma SeedToDirectoryPage(e: Expander, fs: FileSystem, t: string, s: string)
    requires |e.baseUrl| > 0 && e.baseUrl[0] != '/'
    requires e.baseUrl[0] !in PhpWhitespace && e.baseUrl[0] !in LinkPunctuation
    requires ')' !in e.baseUrl && !Contains(s, e.baseUrl)
    requires |t| > 0 && ']' !in t
    requires |s| > 0 && s[0] != '/' && s[|s| - 1] != '/' && s[|s| - 1] !in PhpWhitespace
    requires forall i :: 0 <= i < |s| ==> s[i] !in {'.', '#', '?', ')'}
    requires NoControl(s)
    requires |e.baseDir| > 0 ==> e.baseDir[0] !in PhpWhitespace
    requires e.baseDir + "/" + (s + "/index.md") in fs
    requires '[' !in fs[e.baseDir + "/" + (s + "/index.md")]
    ensures ProcessEntry(e, fs, Raw(Link(t, e.baseUrl + s)))
            == SourceBlock(e.baseUrl + s, fs[e.baseDir + "/" + (s + "/index.md")])
  {
    var url := e.baseUrl + s;
    var l := Link(t, url);
    var page := fs[e.baseDir + "/" + (s + "/index.md")];
    assert ')' !in url;
    assert url[0] == e.baseUrl[0] && url[|url| - 1] == s[|s| - 1];
    EntryOfRawLink(l);
    DirectoryPageLoads(e, fs, s);
    ProcessLinksWithoutLinks(e, fs, page);
  }
}
