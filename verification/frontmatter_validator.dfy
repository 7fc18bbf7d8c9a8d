/**
 * The documentation check of scripts/validate-frontmatter.js: every manual
 * page must open with a "---" frontmatter block that mentions the four
 * required keys, and the run fails when any checked page does not.
 *
 * Reading the directory tree and printing messages are not modelled; the
 * pages are given as (path, content) pairs.
 */
module FrontmatterValidator {
  import opened Wrappers
  import opened Strings

  /** Why a page was rejected; each corresponds to one thrown error. */
  datatype ValidationError = MissingOpening | MissingClosing | MissingField(field: string)

  datatype Page = Page(path: string, content: string)

  const Delimiter := "---"
  const RequiredFields: seq<string> := ["layout", "title", "category", "permalink"]

  /** The first line at index `from` or later that is exactly "---". */
  function ClosingFrom(lines: seq<string>, from: nat): (r: Option<nat>)
    requires from <= |lines|
    ensures r.Some? ==> from <= r.value < |lines| && lines[r.value] == Delimiter
    ensures r.Some? ==> forall i :: from <= i < r.value ==> lines[i] != Delimiter
    ensures r.None? ==> forall i :: from <= i < |lines| ==> lines[i] != Delimiter
    decreases |lines| - from
  {
    if from == |lines| then None
    else if lines[from] == Delimiter then Some(from)
    else ClosingFrom(lines, from + 1)
  }

  /** The closing delimiter: the first line after the opening one that is exactly "---". */
  function ClosingIndex(lines: seq<string>): (r: Option<nat>)
    requires |lines| >= 1
    ensures r.Some? ==> 1 <= r.value < |lines| && lines[r.value] == Delimiter
    ensures r.Some? ==> forall i :: 1 <= i < r.value ==> lines[i] != Delimiter
    ensures r.None? ==> forall i :: 1 <= i < |lines| ==> lines[i] != Delimiter
  {
    ClosingFrom(lines, 1)
  }

  /**
   * The frontmatter text: the lines strictly between the opening line and the
   * closing delimiter, joined by newlines.
   */
  function ExtractFrontmatter(content: string): (r: Result<string, ValidationError>)
    ensures r == Err(MissingOpening) <==> !StartsWith(content, "---\n")
    ensures r == Err(MissingClosing) <==>
              (StartsWith(content, "---\n") && ClosingIndex(Split(content, '\n')).None?)
    ensures r.Err? ==> r.error == MissingOpening || r.error == MissingClosing
  {
    if !StartsWith(content, "---\n") then Err(MissingOpening)
    else
      var lines := Split(content, '\n');
      match ClosingIndex(lines)
      case None => Err(MissingClosing)
      case Some(k) => Ok(Join(lines[1..k], '\n'))
  }

  /** The first required key whose "key:" does not occur in the frontmatter, by position. */
  function FirstMissing(fm: string, fields: seq<string>): (r: Option<nat>)
    ensures r.Some? ==> r.value < |fields| && !Contains(fm, fields[r.value] + ":")
    ensures r.Some? ==> forall j :: 0 <= j < r.value ==> Contains(fm, fields[j] + ":")
    ensures r.None? <==> forall j :: 0 <= j < |fields| ==> Contains(fm, fields[j] + ":")
  {
    if |fields| == 0 then None
    else if !Contains(fm, fields[0] + ":") then Some(0)
    else
      match FirstMissing(fm, fields[1..])
      case Some(i) => Some(i + 1)
      case None => None
  }

  /** validateFrontmatter: None when the page passes, otherwise the error it throws. */
  function Validate(content: string): (r: Option<ValidationError>)
    ensures r.None? <==>
              (ExtractFrontmatter(content).Ok?
               && forall j :: 0 <= j < |RequiredFields| ==> Contains(ExtractFrontmatter(content).value, RequiredFields[j] + ":"))
    ensures r.Some? && r.value.MissingField? ==>
              ExtractFrontmatter(content).Ok?
              && exists i :: 0 <= i < |RequiredFields| && r.value.field == RequiredFields[i]
                             && !Contains(ExtractFrontmatter(content).value, RequiredFields[i] + ":")
                             && forall j :: 0 <= j < i ==> Contains(ExtractFrontmatter(content).value, RequiredFields[j] + ":")
  {
    match ExtractFrontmatter(content)
    case Err(e) => Some(e)
    case Ok(fm) =>
      match FirstMissing(fm, RequiredFields)
      case Some(i) => Some(MissingField(RequiredFields[i]))
      case None => None
  }

  // ---------------------------------------------------------------------------
  // The frontmatter in terms of the page text
  // ---------------------------------------------------------------------------

  /** No line of `fm` is exactly "---". */
  predicate NoDelimiterLine(fm: string) {
    forall l :: l in Split(fm, '\n') ==> l != Delimiter
  }

  /** The page text regrouped around its two delimiter lines. */
  lemma ComposedShape(fm: string, rest: string)
    ensures "---\n" + fm + "\n---\n" + rest == Delimiter + ['\n'] + (fm + ['\n'] + (Delimiter + ['\n'] + rest))
  {
  }

  /** The lines of a page written as an opening line, frontmatter, a closing line and the rest. */
  lemma ComposedLines(fm: string, rest: string)
    ensures Split("---\n" + fm + "\n---\n" + rest, '\n')
            == [Delimiter] + Split(fm, '\n') + [Delimiter] + Split(rest, '\n')
  {
    var tail := Delimiter + ['\n'] + rest;
    var mid := fm + ['\n'] + tail;
    var content := "---\n" + fm + "\n---\n" + rest;
    var ls := Split(rest, '\n');
    var fls := Split(fm, '\n');
    assert Split(tail, '\n') == [Delimiter] + ls by {
      SplitCons(Delimiter, '\n', rest);
    }
    assert Split(mid, '\n') == fls + ([Delimiter] + ls) by {
      SplitAppend(fm, '\n', tail);
    }
    assert Split(content, '\n') == [Delimiter] + Split(mid, '\n') by {
      ComposedShape(fm, rest);
      SplitCons(Delimiter, '\n', mid);
    }
    Regroup([Delimiter], fls, [Delimiter], ls);
  }

  /**
   * A page that opens with "---", a frontmatter block with no "---" line and
   * a closing "---" line yields exactly that block.
   */
  lemma ExtractComposed(fm: string, rest: string)
    requires NoDelimiterLine(fm)
    ensures ExtractFrontmatter("---\n" + fm + "\n---\n" + rest) == Ok(fm)
  {
    var content := "---\n" + fm + "\n---\n" + rest;
    var fl := Split(fm, '\n');
    var lines := [Delimiter] + fl + [Delimiter] + Split(rest, '\n');
    assert StartsWith(content, "---\n") by {
      assert content[..4] == "---\n";
    }
    assert Split(content, '\n') == lines by {
      ComposedLines(fm, rest);
    }
    ClosingAfterBlock(fl, Split(rest, '\n'));
  }

  /** A closing "---" may end the file without a newline: the block is still all of `fm`. */
  lemma ExtractClosedAtEnd(fm: string)
    requires NoDelimiterLine(fm)
    ensures ExtractFrontmatter("---\n" + fm + "\n---") == Ok(fm)
  {
    var content := "---\n" + fm + "\n---";
    var fl := Split(fm, '\n');
    assert StartsWith(content, "---\n") by {
      assert content[..4] == "---\n";
    }
    ClosedLines(fm);
    ClosingAtEnd(fl);
  }

  /** The lines of a page that ends with its closing line. */
  lemma ClosedLines(fm: string)
    ensures Split("---\n" + fm + "\n---", '\n') == [Delimiter] + Split(fm, '\n') + [Delimiter]
  {
    var mid := fm + ['\n'] + Delimiter;
    var fl := Split(fm, '\n');
    ClosingLineLast(fm);
    ClosedShape(fm);
    SplitCons(Delimiter, '\n', mid);
    Regroup3([Delimiter], fl, [Delimiter]);
  }

  /** A block followed by a last "---" line splits into the block's lines and "---". */
  lemma ClosingLineLast(fm: string)
    ensures Split(fm + ['\n'] + Delimiter, '\n') == Split(fm, '\n') + [Delimiter]
  {
    SplitAppend(fm, '\n', Delimiter);
    SplitNone(Delimiter, '\n');
  }

  /** Lines made of "---", a block without "---" and a last "---": the block is what lies between. */
  lemma ClosingAtEnd(fl: seq<string>)
    requires forall l :: l in fl ==> l != Delimiter
    ensures ClosingIndex([Delimiter] + fl + [Delimiter]) == Some(|fl| + 1)
    ensures ([Delimiter] + fl + [Delimiter])[1..|fl| + 1] == fl
  {
    ClosingAfterBlock(fl, []);
    assert [Delimiter] + fl + [Delimiter] + [] == [Delimiter] + fl + [Delimiter];
  }

  /** The page text regrouped around its opening line. */
  lemma ClosedShape(fm: string)
    ensures "---\n" + fm + "\n---" == Delimiter + ['\n'] + (fm + ['\n'] + Delimiter)
  {
    var a := "---\n" + fm + "\n---";
    var b := Delimiter + ['\n'] + (fm + ['\n'] + Delimiter);
    assert |a| == |b|;
    forall i | 0 <= i < |a| ensures a[i] == b[i] {
      if i < 4 {
      } else if i < 4 + |fm| {
        assert a[i] == fm[i - 4] == b[i];
      }
    }
  }

  /** An opening line followed at once by the closing one gives the empty frontmatter. */
  lemma ExtractEmptyBlock(rest: string)
    ensures ExtractFrontmatter("---\n---\n" + rest) == Ok("")
  {
    var content := "---\n---\n" + rest;
    var tail := Delimiter + ['\n'] + rest;
    assert StartsWith(content, "---\n") by {
      assert content[..4] == "---\n";
    }
    assert Split(content, '\n') == [Delimiter] + ([Delimiter] + Split(rest, '\n')) by {
      assert content == Delimiter + ['\n'] + tail;
      SplitCons(Delimiter, '\n', tail);
      SplitCons(Delimiter, '\n', rest);
    }
    ClosingAfterBlock([], Split(rest, '\n'));
  }

  /** Lines made of "---", a block without "---", "---" and more: the block is what lies between. */
  lemma ClosingAfterBlock(fl: seq<string>, tl: seq<string>)
    requires forall l :: l in fl ==> l != Delimiter
    ensures ClosingIndex([Delimiter] + fl + [Delimiter] + tl) == Some(|fl| + 1)
    ensures ([Delimiter] + fl + [Delimiter] + tl)[1..|fl| + 1] == fl
  {
    var lines := [Delimiter] + fl + [Delimiter] + tl;
    assert lines[|fl| + 1] == Delimiter;
    forall i | 1 <= i < |fl| + 1 ensures lines[i] != Delimiter {
      assert lines[i] == fl[i - 1] && fl[i - 1] in fl;
    }
    assert lines[1..|fl| + 1] == fl;
  }

  /** Such a page passes exactly when its block mentions every required key. */
  lemma ValidateComposed(fm: string, rest: string)
    requires NoDelimiterLine(fm)
    ensures Validate("---\n" + fm + "\n---\n" + rest).None?
            <==> forall j :: 0 <= j < |RequiredFields| ==> Contains(fm, RequiredFields[j] + ":")
  {
    ExtractComposed(fm, rest);
  }

  // ---------------------------------------------------------------------------
  // main
  // ---------------------------------------------------------------------------

  /** Generated one-page manuals are not checked. */
  predicate Skipped(path: string) {
    Contains(path, "1page.md") || Contains(path, "onepage.md")
  }

  /** The page is checked and fails. */
  predicate Fails(p: Page) {
    !Skipped(p.path) && Validate(p.content).Some?
  }

  /** errorCount after the loop: one per checked page that fails. */
  function ErrorCount(pages: seq<Page>): (r: nat)
    ensures r <= |pages|
    decreases |pages|
  {
    if |pages| == 0 then 0
    else (if Fails(pages[0]) then 1 else 0) + ErrorCount(pages[1..])
  }

  /** Errors are counted page by page, whatever way the list is cut. */
  lemma {:induction false} ErrorCountAppend(a: seq<Page>, b: seq<Page>)
    ensures ErrorCount(a + b) == ErrorCount(a) + ErrorCount(b)
    decreases |a|
  {
    if |a| == 0 {
      assert a + b == b;
    } else {
      assert (a + b)[1..] == a[1..] + b;
      ErrorCountAppend(a[1..], b);
    }
  }

  /** The count is positive exactly when some checked page fails. */
  lemma {:induction false} ErrorCountPositive(pages: seq<Page>)
    ensures ErrorCount(pages) > 0 <==> exists i :: 0 <= i < |pages| && Fails(pages[i])
    decreases |pages|
  {
    if |pages| > 0 {
      ErrorCountPositive(pages[1..]);
      if exists i :: 0 <= i < |pages[1..]| && Fails(pages[1..][i]) {
        var i :| 0 <= i < |pages[1..]| && Fails(pages[1..][i]);
        assert Fails(pages[i + 1]);
      }
      if exists i :: 0 <= i < |pages| && Fails(pages[i]) {
        var i :| 0 <= i < |pages| && Fails(pages[i]);
        if i > 0 { assert Fails(pages[1..][i - 1]); }
      }
    }
  }

  /** A skipped page never counts, whatever its content. */
  lemma SkippedNeverFails(p: Page)
    requires Skipped(p.path)
    ensures ErrorCount([p]) == 0
  {
  }

  /** The process exit status: 1 when any checked page failed, 0 otherwise. */
  function ExitCode(pages: seq<Page>): (r: nat)
    ensures r == 0 || r == 1
    ensures r == 1 <==> exists i :: 0 <= i < |pages| && Fails(pages[i])
  {
    ErrorCountPositive(pages);
    if ErrorCount(pages) > 0 then 1 else 0
  }
}
