/** Reading the text of a diff: its hunks can be read back from it, and applied they turn one file into the other. */
module DiffText {
  import opened Text
  import opened Lcs
  import opened EditScript
  import opened Hunks
  import opened Diff

  // ---- A reader of hunks ----

  /** A sign, and two decimal numbers with a comma between them. */
  function ReadPair(s: string, sign: char): Option<(nat, nat)> {
    if s == "" || s[0] != sign then None
    else
      var parts := Split(s[1..], ',');
      if |parts| == 2 && AllDigits(parts[0]) && AllDigits(parts[1]) then Some((Number(parts[0]), Number(parts[1]))) else None
  }

  /** Old start and count after a minus, new start and count after a plus. */
  function ReadHeader(line: string): Option<Hunk> {
    var parts := Split(line, ' ');
    if |parts| != 4 || parts[0] != "@@" || parts[3] != "@@" then None
    else
      var (before, after) := (ReadPair(parts[1], '-'), ReadPair(parts[2], '+'));
      if before.None? || after.None? then None
      else Some(Hunk([], before.value.0, before.value.1, after.value.0, after.value.1))
  }

  function WithLine(hs: seq<Hunk>, line: HunkLine): seq<Hunk>
    requires hs != []
  {
    var last := hs[|hs| - 1];
    hs[..|hs| - 1] + [last.(lines := last.lines + [line])]
  }

  /** A header starts a hunk; in a hunk a space keeps a line, a minus drops one and a plus inserts one. */
  function ReadLine(hs: seq<Hunk>, line: string): Option<seq<Hunk>> {
    if line == "" then None
    else if line[0] == '@' then
      var h := ReadHeader(line);
      if h.None? then None else Some(hs + [h.value])
    else if hs == [] then None
    else if line[0] == ' ' then Some(WithLine(hs, ContextLine(line[1..])))
    else if line[0] == '-' then Some(WithLine(hs, RemovedLine(line[1..])))
    else if line[0] == '+' then Some(WithLine(hs, AddedLine(line[1..])))
    else None
  }

  function ReadLines(hs: seq<Hunk>, lines: seq<string>): Option<seq<Hunk>>
    decreases |lines|
  {
    if lines == [] then Some(hs)
    else
      var next := ReadLine(hs, lines[0]);
      if next.None? then None else ReadLines(next.value, lines[1..])
  }

  /** The hunks in a text of whole lines. */
  function ReadHunks(text: string): Option<seq<Hunk>> {
    if Unended(text) != "" then None else ReadLines([], Ended(text))
  }

  // ---- Texts of whole lines ----

  ghost predicate IsWhole(text: string, lines: seq<string>) { Ended(text) == lines && Unended(text) == "" }

  lemma WholeJoin(x: string, xs: seq<string>, y: string, ys: seq<string>)
    requires IsWhole(x, xs) && IsWhole(y, ys)
    ensures IsWhole(x + y, xs + ys)
  {
    EndedConcat(x, y);
    assert "" + y == y;
  }

  lemma OneWhole(line: string)
    requires '\n' !in line
    ensures IsWhole(line + "\n", [line])
  {
    SplitAppend(line, '\n', "");
    assert line + ['\n'] + "" == line + "\n";
    PartsAre(line + "\n", [line], "");
  }

  lemma NothingWhole()
    ensures IsWhole("", [])
  {
  }

  lemma {:induction false} ReadLinesJoin(hs: seq<Hunk>, x: seq<string>, y: seq<string>)
    ensures ReadLines(hs, x + y) == if ReadLines(hs, x).None? then None else ReadLines(ReadLines(hs, x).value, y)
    decreases |x|
  {
    hide ReadLine;
    if x == [] {
      assert x + y == y;
    } else {
      assert (x + y)[1..] == x[1..] + y;
      if ReadLine(hs, x[0]).Some? {
        ReadLinesJoin(ReadLine(hs, x[0]).value, x[1..], y);
      }
    }
  }

  lemma OneLineRead(hs: seq<Hunk>, line: string)
    ensures ReadLines(hs, [line]) == ReadLine(hs, line)
  {
    hide ReadLine;
    assert [line][1..] == [];
  }

  // ---- Formatted hunks are read back ----

  lemma LineIsRead(hs: seq<Hunk>, h: Hunk, lines: seq<HunkLine>, line: HunkLine) returns (text: string)
    requires '\n' !in line.text
    ensures IsWhole(FormatLine(line), [text])
    ensures ReadLine(hs + [h.(lines := lines)], text) == Some(hs + [h.(lines := lines + [line])])
  {
    text := FormatLine(line)[..|FormatLine(line)| - 1];
    assert FormatLine(line) == text + "\n";
    OneWhole(text);
    assert text[1..] == line.text;
    assert (hs + [h.(lines := lines)])[..|hs|] == hs;
  }

  ghost predicate AreFree(lines: seq<HunkLine>) { forall k :: 0 <= k < |lines| ==> '\n' !in lines[k].text }

  lemma {:induction false} BodyIsRead(hs: seq<Hunk>, h: Hunk, lines: seq<HunkLine>) returns (texts: seq<string>)
    requires AreFree(lines)
    ensures IsWhole(FormatLines(lines), texts)
    ensures ReadLines(hs + [h.(lines := [])], texts) == Some(hs + [h.(lines := lines)])
  {
    hide ReadLine, FormatLine, IsWhole;
    if lines == [] {
      texts := [];
      NothingWhole();
    } else {
      var front, last := lines[..|lines| - 1], lines[|lines| - 1];
      var before := BodyIsRead(hs, h, front);
      var text := LineIsRead(hs, h, front, last);
      texts := before + [text];
      WholeJoin(FormatLines(front), before, FormatLine(last), [text]);
      ReadLinesJoin(hs + [h.(lines := [])], before, [text]);
      OneLineRead(hs + [h.(lines := front)], text);
      assert front + [last] == lines;
    }
  }

  lemma OnlyDigits(n: nat, c: char)
    requires !IsDigit(c)
    ensures AllDigits(Decimal(n)) && c !in Decimal(n)
  {
  }

  lemma TwoParts(x: string, y: string)
    requires ',' !in x && ',' !in y
    ensures Split(x + [','] + y, ',') == [x, y]
  {
    SplitAppend(x, ',', y);
    SplitOfFree(y, ',');
  }

  lemma SignedText(sign: char, x: string, y: string)
    ensures ([sign] + x + "," + y)[1..] == x + [','] + y && ([sign] + x + "," + y)[0] == sign
  {
  }

  lemma PairIsRead(sign: char, x: nat, y: nat)
    ensures ReadPair([sign] + Decimal(x) + "," + Decimal(y), sign) == Some((x, y))
  {
    OnlyDigits(x, ',');
    OnlyDigits(y, ',');
    NumberOfDecimal(x);
    NumberOfDecimal(y);
    hide Decimal, Number, AllDigits, Split;
    SignedText(sign, Decimal(x), Decimal(y));
    TwoParts(Decimal(x), Decimal(y));
  }

  lemma PairIsPlain(sign: char, x: nat, y: nat)
    requires sign == '-' || sign == '+'
    ensures var s := [sign] + Decimal(x) + "," + Decimal(y); ' ' !in s && '\n' !in s
  {
    OnlyDigits(x, ' ');
    OnlyDigits(y, ' ');
    OnlyDigits(x, '\n');
    OnlyDigits(y, '\n');
    hide Decimal;
  }

  lemma FourParts(a: string, b: string, c: string, d: string)
    requires ' ' !in a && ' ' !in b && ' ' !in c && ' ' !in d
    ensures Split(a + " " + b + " " + c + " " + d, ' ') == [a, b, c, d]
  {
    var cd := c + [' '] + d;
    var bcd := b + [' '] + cd;
    assert a + " " + b + " " + c + " " + d == a + [' '] + bcd;
    SplitAppend(a, ' ', bcd);
    SplitAppend(b, ' ', cd);
    SplitAppend(c, ' ', d);
    SplitOfFree(d, ' ');
  }

  function HeaderText(h: Hunk): string {
    "@@ -" + Decimal(h.beforeStart) + "," + Decimal(h.beforeCount) + " +" + Decimal(h.afterStart) + "," + Decimal(h.afterCount) + " @@"
  }

  lemma HeaderIsRead(hs: seq<Hunk>, h: Hunk)
    ensures '\n' !in HeaderText(h) && ReadLine(hs, HeaderText(h)) == Some(hs + [h.(lines := [])])
  {
    var x := "-" + Decimal(h.beforeStart) + "," + Decimal(h.beforeCount);
    var y := "+" + Decimal(h.afterStart) + "," + Decimal(h.afterCount);
    PairIsRead('-', h.beforeStart, h.beforeCount);
    PairIsRead('+', h.afterStart, h.afterCount);
    PairIsPlain('-', h.beforeStart, h.beforeCount);
    PairIsPlain('+', h.afterStart, h.afterCount);
    HeaderOf(h, x, y);
    hide Decimal, ReadPair, Split;
    FourParts("@@", x, y, "@@");
  }

  lemma HeaderOf(h: Hunk, x: string, y: string)
    requires x == "-" + Decimal(h.beforeStart) + "," + Decimal(h.beforeCount)
    requires y == "+" + Decimal(h.afterStart) + "," + Decimal(h.afterCount)
    ensures HeaderText(h) == "@@" + " " + x + " " + y + " " + "@@"
  {
    hide Decimal;
  }

  lemma FormatIs(h: Hunk)
    ensures FormatHunk(h) == HeaderText(h) + "\n" + FormatLines(h.lines)
  {
    hide Decimal, FormatLines;
    assert HeaderText(h) + "\n" == "@@ -" + Decimal(h.beforeStart) + "," + Decimal(h.beforeCount)
        + " +" + Decimal(h.afterStart) + "," + Decimal(h.afterCount) + " @@\n";
  }

  lemma HunkIsRead(hs: seq<Hunk>, h: Hunk) returns (texts: seq<string>)
    requires AreFree(h.lines)
    ensures IsWhole(FormatHunk(h), texts) && ReadLines(hs, texts) == Some(hs + [h])
  {
    hide ReadLine, IsWhole, HeaderText, FormatHunk, FormatLines, AreFree;
    HeaderIsRead(hs, h);
    OneWhole(HeaderText(h));
    var body := BodyIsRead(hs, h, h.lines);
    texts := [HeaderText(h)] + body;
    FormatIs(h);
    WholeJoin(HeaderText(h) + "\n", [HeaderText(h)], FormatLines(h.lines), body);
    ReadLinesJoin(hs, [HeaderText(h)], body);
    OneLineRead(hs, HeaderText(h));
    assert h.(lines := h.lines) == h;
  }

  ghost predicate AllFree(hs: seq<Hunk>) { forall k :: 0 <= k < |hs| ==> AreFree(hs[k].lines) }

  lemma {:induction false} AllAreRead(hs: seq<Hunk>) returns (texts: seq<string>)
    requires AllFree(hs)
    ensures IsWhole(FormatHunks(hs), texts) && ReadLines([], texts) == Some(hs)
  {
    hide IsWhole, FormatHunk, AreFree;
    if hs == [] {
      texts := [];
      NothingWhole();
    } else {
      var front, last := hs[..|hs| - 1], hs[|hs| - 1];
      var before := AllAreRead(front);
      var text := HunkIsRead(front, last);
      texts := before + text;
      WholeJoin(FormatHunks(front), before, FormatHunk(last), text);
      ReadLinesJoin([], before, text);
      assert front + [last] == hs;
    }
  }

  /** Formatting loses nothing: hunks of lines without newlines are read back from their text. */
  lemma FormatIsRead(hs: seq<Hunk>)
    requires AllFree(hs)
    ensures ReadHunks(FormatHunks(hs)) == Some(hs)
  {
    var texts := AllAreRead(hs);
  }

  // ---- The text of a diff ----

  lemma HunkIsFree(before: seq<Line>, after: seq<Line>, ops: seq<Op>, r: Region)
    requires FreeOf(before, '\n') && FreeOf(after, '\n')
    ensures AreFree(HunkAt(before, after, ops, r).lines)
  {
    var h := HunkAt(before, after, ops, r);
    var stretch := if Start(r) <= End(ops, r) then ops[Start(r)..End(ops, r)] else [];
    assert h.lines == LinesOf(before, after, stretch);
    hide HunkAt;
    forall k | 0 <= k < |h.lines| ensures '\n' !in h.lines[k].text {
      assert h.lines[k] == LineOf(before, after, stretch[k]);
    }
  }

  lemma {:induction false} HunksAreFree(before: seq<Line>, after: seq<Line>, ops: seq<Op>, rs: seq<Region>)
    requires FreeOf(before, '\n') && FreeOf(after, '\n')
    ensures AllFree(HunksOf(before, after, ops, rs))
  {
    hide AreFree, HunkAt, FreeOf;
    if rs != [] {
      HunkIsFree(before, after, ops, rs[0]);
      HunksAreFree(before, after, ops, rs[1..]);
    }
  }

  lemma LinesAreFree(file: string)
    ensures FreeOf(LinesIn(file), '\n')
  {
    PartsAreFree(file, '\n');
  }

  /** What a diff shows: its text is the two file names and hunks, and the hunks read from it, applied strictly, turn `before`
      into `after`. Up to 3000 characters this is the whole result. */
  lemma TextTurnsBeforeIntoAfter(before: string, after: string, filePath: string) returns (hunkText: string)
    requires before != after
    ensures Uncut(filePath, DiffHunks(LinesIn(before), LinesIn(after))) == "--- a/" + filePath + "\n+++ b/" + filePath + "\n" + hunkText
    ensures ReadHunks(hunkText).Some? && Patch(LinesIn(before), ReadHunks(hunkText).value, 0, 0) == Some(LinesIn(after))
    ensures |"--- a/" + filePath + "\n+++ b/" + filePath + "\n" + hunkText| <= 3000 ==>
              Render(filePath, DiffHunks(LinesIn(before), LinesIn(after))) == "--- a/" + filePath + "\n+++ b/" + filePath + "\n" + hunkText
  {
    hide DiffHunks, Patch, ReadHunks, FormatHunks, LinesIn, FreeOf, AllFree;
    var b, a := LinesIn(before), LinesIn(after);
    LinesAreFree(before);
    LinesAreFree(after);
    DiffHunksAreFree(b, a);
    hunkText := FormatHunks(DiffHunks(b, a));
    FormatIsRead(DiffHunks(b, a));
    PatchTurnsBeforeIntoAfter(b, a);
  }

  lemma DiffHunksAreFree(before: seq<Line>, after: seq<Line>)
    requires FreeOf(before, '\n') && FreeOf(after, '\n')
    ensures AllFree(DiffHunks(before, after))
  {
    HunksAreFree(before, after, DiffOps(before, after), Regions(DiffOps(before, after), 0));
  }
}
