/** `extract_title_date` (backend/build.rs:221-243): the title and the date of
    an article, read from its markdown one line at a time.

    The title is taken from the first line starting with `#` whose text,
    once the leading `#`s and surrounding whitespace are removed, is not
    empty.  The date is the trimmed text after the first `:` of the first
    line that starts with `date:` in any ASCII case.  When no line gives a
    date, the date of the file's last modification is used; it is read
    from the filesystem and the clock, so here it is a parameter. */
module FrontMatter {
  import opened Wrappers
  import opened Strings

  /** A line without its `\r` when it ended in `\r\n`. */
  function StripCr(line: string): (r: string)
    ensures r == line || (line == r + "\r")
    ensures |line| > 0 && line[|line| - 1] == '\r' ==> line == r + "\r"
  {
    if |line| > 0 && line[|line| - 1] == '\r' then line[..|line| - 1] else line
  }

  /** Rust's `str::lines`: the text split at each `\n`, a `\r` just before
      a `\n` dropped, and no empty line after a final `\n`. */
  function Lines(s: string): seq<string>
    decreases |s|
  {
    if s == [] then []
    else
      match FindChar(s, 0, '\n')
      case None => [s]
      case Some(k) => [StripCr(s[..k])] + Lines(s[k + 1..])
  }

  /** No line holds a `\n`. */
  lemma {:induction false} LinesHaveNoNewline(s: string)
    ensures forall i :: 0 <= i < |Lines(s)| ==> '\n' !in Lines(s)[i]
    decreases |s|
  {
    if s != [] {
      FindCharFirst(s, 0, '\n');
      match FindChar(s, 0, '\n')
      case None =>
        assert Lines(s) == [s];
      case Some(k) =>
        var head := s[..k];
        assert '\n' !in head by {
          assert forall j :: 0 <= j < |head| ==> head[j] == s[j];
        }
        assert '\n' !in StripCr(head);
        LinesHaveNoNewline(s[k + 1..]);
        assert Lines(s) == [StripCr(head)] + Lines(s[k + 1..]);
    }
  }

  /** The lines written back, each followed by `\n`. */
  function Unlines(ls: seq<string>): string {
    if ls == [] then [] else ls[0] + "\n" + Unlines(ls[1..])
  }

  /** A line that `Lines` can return as it is: no `\n`, and no `\r` at its
      end that would be taken for part of a `\r\n`. */
  predicate PlainLine(l: string) {
    '\n' !in l && (l == [] || l[|l| - 1] != '\r')
  }

  /** A line ended by the first `\n` of the text, then the rest. */
  lemma LinesCons(head: string, tail: string)
    requires '\n' !in head
    ensures Lines(head + "\n" + tail) == [StripCr(head)] + Lines(tail)
  {
    var s := head + "\n" + tail;
    assert forall k :: 0 <= k < |head| ==> s[k] == head[k];
    FindCharIs(s, 0, '\n', |head|);
    assert s[..|head|] == head;
    assert s[|head| + 1..] == tail;
  }

  /** A text without `\n` is a single line. */
  lemma LinesSingle(s: string)
    requires s != [] && '\n' !in s
    ensures Lines(s) == [s]
  {
    FindCharNone(s, 0, '\n');
  }

  lemma UnlinesCons(l: string, ls: seq<string>)
    ensures Unlines([l] + ls) == l + "\n" + Unlines(ls)
  {
    assert ([l] + ls)[1..] == ls;
  }

  /** Splitting lines written back with `\n` gives the lines again. */
  lemma {:induction false} LinesUnlines(ls: seq<string>)
    requires forall i :: 0 <= i < |ls| ==> PlainLine(ls[i])
    ensures Lines(Unlines(ls)) == ls
  {
    if ls != [] {
      var l := ls[0];
      assert PlainLine(l);
      assert StripCr(l) == l;
      LinesCons(l, Unlines(ls[1..]));
      LinesUnlines(ls[1..]);
      assert [l] + ls[1..] == ls;
    }
  }

  /** The parts of a text around index `k` lack what the text lacks. */
  lemma NotInParts(s: string, k: nat, c: char)
    requires k < |s| && c !in s
    ensures c !in s[..k] && c !in s[k + 1..]
  {
    assert forall j :: 0 <= j < k ==> s[..k][j] == s[j];
    assert forall j :: k + 1 <= j < |s| ==> s[k + 1..][j - k - 1] == s[j];
  }

  /** Writing back the lines of a text without `\r` gives the text, with a
      `\n` added when its last line had none. */
  lemma {:induction false} UnlinesLines(s: string)
    requires '\r' !in s
    ensures Unlines(Lines(s)) == if s == [] || s[|s| - 1] == '\n' then s else s + "\n"
    decreases |s|
  {
    if s != [] {
      var f := FindChar(s, 0, '\n');
      if f.None? {
        FindCharAbsent(s, '\n');
        LinesSingle(s);
        UnlinesCons(s, []);
      } else {
        var k := f.value;
        var head, tail := s[..k], s[k + 1..];
        FindCharSplit(s, '\n');
        NotInParts(s, k, '\r');
        LinesCons(head, tail);
        assert StripCr(head) == head;
        UnlinesCons(head, Lines(tail));
        UnlinesLines(tail);
        if tail != [] {
          assert tail[|tail| - 1] == s[|s| - 1];
        }
      }
    }
  }

  /** A line that starts a heading (backend/build.rs:225). */
  predicate IsHeading(line: string) {
    StartsWith(line, "#")
  }

  /** The title a heading line gives: leading `#`s removed, then
      whitespace trimmed on both sides (backend/build.rs:226). */
  function HeadingTitle(line: string): string {
    Trim(TrimStartMatches(line, '#'))
  }

  /** A line that sets the title: a heading whose title is not empty. */
  predicate IsTitleLine(line: string) {
    IsHeading(line) && HeadingTitle(line) != []
  }

  /** The title of a sequence of lines: that of the first title line, or
      the empty string when there is none. */
  function FirstTitle(ls: seq<string>): string {
    if ls == [] then []
    else if IsTitleLine(ls[0]) then HeadingTitle(ls[0])
    else FirstTitle(ls[1..])
  }

  /** There is a title exactly when some line is a title line. */
  lemma {:induction false} FirstTitleEmpty(ls: seq<string>)
    ensures FirstTitle(ls) == [] <==> forall i :: 0 <= i < |ls| ==> !IsTitleLine(ls[i])
  {
    if ls != [] && !IsTitleLine(ls[0]) {
      FirstTitleEmpty(ls[1..]);
      assert forall i :: 1 <= i < |ls| ==> ls[i] == ls[1..][i - 1];
    }
  }

  /** The title is that of the first title line. */
  lemma {:induction false} FirstTitleAt(ls: seq<string>, i: nat)
    requires i < |ls| && IsTitleLine(ls[i]) && forall j :: 0 <= j < i ==> !IsTitleLine(ls[j])
    ensures FirstTitle(ls) == HeadingTitle(ls[i])
  {
    if i > 0 {
      assert !IsTitleLine(ls[0]);
      FirstTitleAt(ls[1..], i - 1);
    }
  }

  /** A line that sets the date: in ASCII lower case it starts with
      `date:` (backend/build.rs:228). */
  predicate IsDateLine(line: string) {
    StartsWith(AsciiLower(line), "date:")
  }

  /** The date a date line gives: the trimmed text after its first `:`
      (backend/build.rs:229), which is the `:` of `date:`, so the `unwrap`
      there cannot fail. */
  function DateValue(line: string): (r: string)
    requires IsDateLine(line)
    ensures r == Trim(line[5..])
  {
    DateLineColon(line);
    Trim(line[FindChar(line, 0, ':').value + 1..])
  }

  /** The first `:` of a date line is the one of `date:`. */
  lemma DateLineColon(line: string)
    requires IsDateLine(line)
    ensures FindChar(line, 0, ':') == Some(4)
  {
    var low := AsciiLower(line);
    AsciiLowerAt(line);
    assert low[..5] == "date:";
    forall k | 0 <= k < 4 ensures line[k] != ':' {
      assert low[k] == AsciiLowerChar(line[k]);
      assert low[k] != ':';
    }
    assert low[4] == ':';
    FindCharIs(line, 0, ':', 4);
  }

  /** The date test ignores ASCII case: it holds exactly when the first
      four characters spell `date` in any case and the fifth is `:`. */
  lemma DateLineCase(line: string)
    ensures IsDateLine(line) <==> (|line| >= 5
      && AsciiLowerChar(line[0]) == 'd' && AsciiLowerChar(line[1]) == 'a'
      && AsciiLowerChar(line[2]) == 't' && AsciiLowerChar(line[3]) == 'e' && line[4] == ':')
  {
    var low := AsciiLower(line);
    AsciiLowerAt(line);
    if |line| >= 5 {
      assert low[..5] == [low[0], low[1], low[2], low[3], low[4]];
      assert AsciiLowerChar(line[4]) == ':' <==> line[4] == ':';
    }
  }

  /** The date of a sequence of lines: that of its first date line. */
  function FirstDate(ls: seq<string>): Option<string> {
    if ls == [] then None
    else if IsDateLine(ls[0]) then Some(DateValue(ls[0]))
    else FirstDate(ls[1..])
  }

  /** There is a date exactly when some line is a date line. */
  lemma {:induction false} FirstDateNone(ls: seq<string>)
    ensures FirstDate(ls).None? <==> forall i :: 0 <= i < |ls| ==> !IsDateLine(ls[i])
  {
    if ls != [] && !IsDateLine(ls[0]) {
      FirstDateNone(ls[1..]);
      assert forall i :: 1 <= i < |ls| ==> ls[i] == ls[1..][i - 1];
    }
  }

  /** The date is that of the first date line. */
  lemma {:induction false} FirstDateAt(ls: seq<string>, i: nat)
    requires i < |ls| && IsDateLine(ls[i]) && forall j :: 0 <= j < i ==> !IsDateLine(ls[j])
    ensures FirstDate(ls) == Some(Trim(ls[i][5..]))
  {
    if i > 0 {
      assert !IsDateLine(ls[0]);
      FirstDateAt(ls[1..], i - 1);
    }
  }

  /** The title of a longer sequence is that of its first part, unless the
      first part has none. */
  lemma {:induction false} FirstTitleAppend(xs: seq<string>, ys: seq<string>)
    ensures FirstTitle(xs + ys) == if FirstTitle(xs) != [] then FirstTitle(xs) else FirstTitle(ys)
  {
    if xs != [] {
      assert (xs + ys)[0] == xs[0];
      assert (xs + ys)[1..] == xs[1..] + ys;
      FirstTitleAppend(xs[1..], ys);
    } else {
      assert xs + ys == ys;
    }
  }

  /** The same for the date. */
  lemma {:induction false} FirstDateAppend(xs: seq<string>, ys: seq<string>)
    ensures FirstDate(xs + ys) == if FirstDate(xs).Some? then FirstDate(xs) else FirstDate(ys)
  {
    if xs != [] {
      assert (xs + ys)[0] == xs[0];
      assert (xs + ys)[1..] == xs[1..] + ys;
      FirstDateAppend(xs[1..], ys);
    } else {
      assert xs + ys == ys;
    }
  }

  /** The title after one more line. */
  lemma TitleStep(xs: seq<string>, line: string)
    ensures FirstTitle(xs + [line]) == if FirstTitle(xs) != [] then FirstTitle(xs)
      else if IsTitleLine(line) then HeadingTitle(line) else []
  {
    FirstTitleAppend(xs, [line]);
    assert [line][1..] == [];
  }

  /** The date after one more line. */
  lemma DateStep(xs: seq<string>, line: string)
    ensures FirstDate(xs + [line]) == if FirstDate(xs).Some? then FirstDate(xs)
      else if IsDateLine(line) then Some(DateValue(line)) else None
  {
    FirstDateAppend(xs, [line]);
    assert [line][1..] == [];
  }

  /** The title and the date of an article, the date falling back to
      `fallbackDate` when no line gives one. */
  function TitleDate(markdown: string, fallbackDate: string): (string, string) {
    var ls := Lines(markdown);
    var d := FirstDate(ls);
    (FirstTitle(ls), if d.Some? then d.value else fallbackDate)
  }

  /** One pass of the loop body keeps the title and the date those of the
      lines read so far. */
  lemma ExtractStep(ls: seq<string>, i: nat, title: string, found: Option<string>)
    requires i < |ls| && title == FirstTitle(ls[..i]) && found == FirstDate(ls[..i])
    ensures (if title == [] && IsHeading(ls[i]) then HeadingTitle(ls[i]) else title) == FirstTitle(ls[..i + 1])
    ensures (if found.None? && IsDateLine(ls[i]) then Some(DateValue(ls[i])) else found) == FirstDate(ls[..i + 1])
  {
    assert ls[..i + 1] == ls[..i] + [ls[i]];
    TitleStep(ls[..i], ls[i]);
    DateStep(ls[..i], ls[i]);
  }

  /** Once both are known, or all lines are read, the lines left cannot
      change them. */
  lemma ExtractDone(ls: seq<string>, i: nat, title: string, found: Option<string>)
    requires i <= |ls| && title == FirstTitle(ls[..i]) && found == FirstDate(ls[..i])
    requires i == |ls| || (title != [] && found.Some?)
    ensures title == FirstTitle(ls) && found == FirstDate(ls)
  {
    FirstTitleAppend(ls[..i], ls[i..]);
    FirstDateAppend(ls[..i], ls[i..]);
    assert ls[..i] + ls[i..] == ls;
  }

  /** The loop of backend/build.rs:224-235, with its early exit once both
      the title and the date are known. */
  method ExtractTitleDate(markdown: string, fallbackDate: string) returns (title: string, date: string)
    ensures (title, date) == TitleDate(markdown, fallbackDate)
  {
    var ls := Lines(markdown);
    title := [];
    var found: Option<string> := None;
    var i := 0;
    while i < |ls|
      invariant 0 <= i <= |ls|
      invariant title == FirstTitle(ls[..i])
      invariant found == FirstDate(ls[..i])
    {
      var line := ls[i];
      ExtractStep(ls, i, title, found);
      title := if title == [] && IsHeading(line) then HeadingTitle(line) else title;
      found := if found.None? && IsDateLine(line) then Some(DateValue(line)) else found;
      i := i + 1;
      assert title == FirstTitle(ls[..i]) && found == FirstDate(ls[..i]);
      if title != [] && found.Some? {
        break;
      }
    }
    ExtractDone(ls, i, title, found);
    date := if found.Some? then found.value else fallbackDate;
  }

  /** Without a date line the fallback date is used. */
  lemma FallbackWithoutDateLine(markdown: string, fallbackDate: string)
    requires forall i :: 0 <= i < |Lines(markdown)| ==> !IsDateLine(Lines(markdown)[i])
    ensures TitleDate(markdown, fallbackDate).1 == fallbackDate
  {
    var ls := Lines(markdown);
    FirstDateNone(ls);
    assert TitleDate(markdown, fallbackDate) == (FirstTitle(ls), fallbackDate);
  }

  /** With a date line, the date is that of the first one. */
  lemma DateOfFirstDateLine(markdown: string, fallbackDate: string, i: nat)
    requires i < |Lines(markdown)| && IsDateLine(Lines(markdown)[i])
    requires forall j :: 0 <= j < i ==> !IsDateLine(Lines(markdown)[j])
    ensures TitleDate(markdown, fallbackDate).1 == Trim(Lines(markdown)[i][5..])
  {
    var ls := Lines(markdown);
    FirstDateAt(ls, i);
    assert TitleDate(markdown, fallbackDate) == (FirstTitle(ls), Trim(ls[i][5..]));
  }

  /** Without a title line the title is empty. */
  lemma EmptyTitleWithoutTitleLine(markdown: string, fallbackDate: string)
    requires forall i :: 0 <= i < |Lines(markdown)| ==> !IsTitleLine(Lines(markdown)[i])
    ensures TitleDate(markdown, fallbackDate).0 == []
  {
    FirstTitleEmpty(Lines(markdown));
  }

  /** With a title line, the title is that of the first one. */
  lemma TitleOfFirstTitleLine(markdown: string, fallbackDate: string, i: nat)
    requires i < |Lines(markdown)| && IsTitleLine(Lines(markdown)[i])
    requires forall j :: 0 <= j < i ==> !IsTitleLine(Lines(markdown)[j])
    ensures TitleDate(markdown, fallbackDate).0 == HeadingTitle(Lines(markdown)[i])
  {
    FirstTitleAt(Lines(markdown), i);
  }
}
