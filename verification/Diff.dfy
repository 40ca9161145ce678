/** generateDiff of core/src/utils/diff.ts on whole strings. */
module Diff {
  import opened Text
  import opened Lcs
  import opened EditScript
  import opened Hunks

  const MAX_LENGTH := 3000

  /** An empty file has no lines; any other is split at its newlines. */
  function LinesIn(file: string): seq<Line> {
    if file == "" then [] else Split(file, '\n')
  }

  lemma LinesInInjective(s: string, t: string)
    ensures LinesIn(s) == LinesIn(t) <==> s == t
  {
    if LinesIn(s) == LinesIn(t) && s != "" && t != "" {
      SplitInjective(s, t, '\n');
    }
  }

  function FormatLine(line: HunkLine): string {
    (match line case ContextLine(_) => " " case RemovedLine(_) => "-" case AddedLine(_) => "+") + line.text + "\n"
  }

  function FormatLines(lines: seq<HunkLine>): string {
    if lines == [] then "" else FormatLines(lines[..|lines| - 1]) + FormatLine(lines[|lines| - 1])
  }

  function FormatHunk(h: Hunk): string {
    "@@ -" + Decimal(h.beforeStart) + "," + Decimal(h.beforeCount)
    + " +" + Decimal(h.afterStart) + "," + Decimal(h.afterCount) + " @@\n"
    + FormatLines(h.lines)
  }

  function FormatHunks(hs: seq<Hunk>): string {
    if hs == [] then "" else FormatHunks(hs[..|hs| - 1]) + FormatHunk(hs[|hs| - 1])
  }

  /** `s.lastIndexOf('\n')`, with -1 for absent. */
  function LastNewline(s: string): (k: int)
    ensures -1 <= k < |s|
    ensures k >= 0 ==> s[k] == '\n'
    ensures forall j :: k < j < |s| ==> s[j] != '\n'
  {
    if s == "" then -1
    else if s[|s| - 1] == '\n' then |s| - 1
    else LastNewline(s[..|s| - 1])
  }

  /** Long output is cut at a line end within the first 3000 characters. */
  function Truncate(output: string): (r: string)
    ensures |output| <= MAX_LENGTH ==> r == output
    ensures output != "" ==> r != ""
  {
    if |output| <= MAX_LENGTH then output
    else
      var cut := output[..MAX_LENGTH];
      var lastNewline := LastNewline(cut);
      (if lastNewline > 0 then cut[..lastNewline] else cut) + NOTICE
  }

  const NOTICE := "\n... (diff truncated)\n"

  /** The whole diff, before it is cut. */
  function Uncut(filePath: string, hunks: seq<Hunk>): string { Header(filePath) + FormatHunks(hunks) }

  /** Short output is left alone; of long output the first n characters are kept, where n is the last line end after the
      first character within 3000, or 3000 when there is none. */
  lemma WhereItIsCut(output: string) returns (n: nat)
    ensures |output| <= 3000 ==> Truncate(output) == output
    ensures |output| > 3000 ==> n <= 3000 && Truncate(output) == output[..n] + "\n... (diff truncated)\n"
    ensures |output| > 3000 && n < 3000 ==> n > 0 && output[n] == '\n'
    ensures |output| > 3000 ==> forall j :: 0 < j < 3000 && output[j] == '\n' ==> j <= n < 3000
  {
    n := 0;
    if |output| > MAX_LENGTH {
      var cut := output[..MAX_LENGTH];
      n := if LastNewline(cut) > 0 then LastNewline(cut) else MAX_LENGTH;
      forall j | 0 < j < 3000 && output[j] == '\n' ensures j <= n < 3000 {
        assert cut[j] == '\n';
      }
      assert n < 3000 ==> output[n] == cut[n];
      assert cut[..n] == output[..n];
    }
  }

  /** With a path of a usual length a diff that is cut keeps whole lines only: it is cut before a newline, its header is
      whole, and with the notice it has at most 3022 characters. */
  lemma CutDiffKeepsWholeLines(filePath: string, hunks: seq<Hunk>) returns (n: nat)
    requires |filePath| < 1490 && |Uncut(filePath, hunks)| > 3000
    ensures |Header(filePath)| - 1 <= n < 3000 && Uncut(filePath, hunks)[n] == '\n'
    ensures Render(filePath, hunks) == Uncut(filePath, hunks)[..n] + "\n... (diff truncated)\n" && |Render(filePath, hunks)| <= 3022
  {
    n := WhereItIsCut(Uncut(filePath, hunks));
    var last := |Header(filePath)| - 1;
    assert Header(filePath)[last] == '\n';
    assert Uncut(filePath, hunks)[last] == '\n';
  }

  function Header(filePath: string): string {
    "--- a/" + filePath + "\n+++ b/" + filePath + "\n"
  }

  /** A diff without hunks can only be the diff of a file with itself. */
  lemma NoHunksMeansEqual(before: seq<Line>, after: seq<Line>)
    ensures DiffHunks(before, after) == [] <==> before == after
  {
    PatchTurnsBeforeIntoAfter(before, after);
    assert before[0..] == before;
    if before == after {
      FullLengthIsIdentity(before, after);
      BacktrackIsBest(before, after, |before|, |after|);
      DiffOpsLead(before, after);
      NoCostNoRegions(DiffOps(before, after), 0);
    }
  }

  lemma {:induction false} NoCostNoRegions(ops: seq<Op>, i: nat)
    requires i <= |ops| && Cost(ops[i..]) == 0
    ensures Regions(ops, i) == []
    decreases |ops| - i
  {
    if i < |ops| {
      assert ops[i..][1..] == ops[i + 1..];
      NoCostNoRegions(ops, i + 1);
    }
  }

  function Render(filePath: string, hunks: seq<Hunk>): (r: string)
    ensures r != ""
  {
    Truncate(Header(filePath) + FormatHunks(hunks))
  }

  /** Lines 35-54: header, hunks, truncation. */
  method RenderDiff(filePath: string, hunks: seq<Hunk>) returns (r: string)
    ensures r == Render(filePath, hunks)
  {
    hide FormatHunk, Truncate;
    var output := Header(filePath);
    for k := 0 to |hunks|
      invariant output == Header(filePath) + FormatHunks(hunks[..k])
    {
      assert hunks[..k + 1][..k] == hunks[..k];
      output := output + FormatHunk(hunks[k]);
    }
    assert hunks[..|hunks|] == hunks;
    r := Truncate(output);
  }

  /** Lines 20-33: match the lines, group the changes; the two early exits are for equal files only. */
  method DiffLines(beforeLines: seq<Line>, afterLines: seq<Line>, filePath: string) returns (r: string)
    ensures r == if beforeLines == afterLines then "" else Render(filePath, DiffHunks(beforeLines, afterLines))
  {
    NoHunksMeansEqual(beforeLines, afterLines);
    var lcs := ComputeLcs(beforeLines, afterLines);
    BacktrackIsBest(beforeLines, afterLines, |beforeLines|, |afterLines|);
    r := "";
    if |beforeLines| == |afterLines| && |lcs| == |beforeLines| {
      FullLengthIsIdentity(beforeLines, afterLines);
    } else {
      var hunks := BuildHunks(beforeLines, afterLines, lcs);
      if |hunks| != 0 {
        r := RenderDiff(filePath, hunks);
      }
    }
  }

  /** generateDiff: empty exactly on equal inputs, otherwise the header and every hunk, truncated. */
  method GenerateDiff(before: string, after: string, filePath: string) returns (r: string)
    ensures r == "" <==> before == after
    ensures before != after ==> r == Render(filePath, DiffHunks(LinesIn(before), LinesIn(after)))
  {
    LinesInInjective(before, after);
    r := "";
    if before != after {
      r := DiffLines(LinesIn(before), LinesIn(after), filePath);
    }
  }
}
