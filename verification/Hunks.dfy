/** Hunk grouping of buildHunks in core/src/utils/diff.ts, and applying the hunks as a patch. */
module Hunks {
  import opened Text
  import opened Lcs
  import opened EditScript

  // ---- Regions: where a hunk starts and ends in the operation list ----

  /** One hunk's place: its first change, and the end of its last change (exclusive). */
  datatype Region = Region(first: nat, changeEnd: nat)

  /** Index after at most `budget` context operations from `at`. */
  function Peek(ops: seq<Op>, at: nat, budget: nat): (peek: nat)
    requires at <= |ops|
    ensures at <= peek <= |ops| && peek <= at + budget
    ensures forall k :: at <= k < peek ==> ops[k].Context?
    ensures peek == |ops| || peek == at + budget || !ops[peek].Context?
    decreases budget
  {
    if budget == 0 || at == |ops| || !ops[at].Context? then at else Peek(ops, at + 1, budget - 1)
  }

  /** End of the change region that reaches `changeEnd`: gaps of at most four context operations merge. */
  function ExtendChange(ops: seq<Op>, changeEnd: nat): (r: nat)
    requires changeEnd <= |ops|
    ensures changeEnd <= r <= |ops|
    decreases |ops| - changeEnd
  {
    if changeEnd == |ops| then changeEnd
    else if !ops[changeEnd].Context? then ExtendChange(ops, changeEnd + 1)
    else
      var peek := Peek(ops, changeEnd, 4);
      if peek < |ops| && !ops[peek].Context? then ExtendChange(ops, peek) else changeEnd
  }

  /** `contextBefore`: up to two operations before the first change. */
  function Start(r: Region): nat { if r.first < 2 then 0 else r.first - 2 }

  /** One past `contextAfter`: up to three operations after the last change. */
  function End(ops: seq<Op>, r: Region): nat { if r.changeEnd + 3 <= |ops| then r.changeEnd + 3 else |ops| }

  /** The regions found from operation i on. */
  function Regions(ops: seq<Op>, i: nat): (rs: seq<Region>)
    decreases |ops| - i
  {
    if i >= |ops| then []
    else if ops[i].Context? then Regions(ops, i + 1)
    else
      var r := Region(i, ExtendChange(ops, i + 1));
      [r] + Regions(ops, End(ops, r))
  }

  // ---- Geometry ----

  ghost predicate AllContext(ops: seq<Op>, from: nat, upto: nat) {
    forall k :: from <= k < upto && k < |ops| ==> ops[k].Context?
  }

  ghost predicate LongGapAt(ops: seq<Op>, k: nat) { k + 5 <= |ops| && AllContext(ops, k, k + 5) }

  /** No run of five context operations lies inside the region. */
  ghost predicate NoLongGap(ops: seq<Op>, r: Region) {
    forall k: nat :: r.first <= k && k + 5 <= r.changeEnd ==> !LongGapAt(ops, k)
  }

  /** A region starts and ends with a change, has no long gap, and is followed by a long gap or the end of the file. */
  ghost predicate IsRegion(ops: seq<Op>, r: Region) {
    && r.first < r.changeEnd <= |ops|
    && !ops[r.first].Context? && !ops[r.changeEnd - 1].Context?
    && NoLongGap(ops, r)
    && (AllContext(ops, r.changeEnd, |ops|) || LongGapAt(ops, r.changeEnd))
  }

  /** The regions are ordered, their hunks do not overlap, and outside the regions everything from `floor` on is context. */
  ghost predicate Partition(ops: seq<Op>, rs: seq<Region>, floor: nat)
    decreases |rs|
  {
    if rs == [] then AllContext(ops, floor, |ops|)
    else
      && IsRegion(ops, rs[0])
      && floor <= Start(rs[0])
      && AllContext(ops, floor, rs[0].first)
      && AllContext(ops, rs[0].changeEnd, End(ops, rs[0]))
      && Partition(ops, rs[1..], End(ops, rs[0]))
  }

  lemma NoLongGapWidens(ops: seq<Op>, first: nat, changeEnd: nat, peek: nat)
    requires first < changeEnd <= peek < |ops| && peek <= changeEnd + 4
    requires !ops[changeEnd - 1].Context? && !ops[peek].Context?
    requires NoLongGap(ops, Region(first, changeEnd))
    ensures NoLongGap(ops, Region(first, peek + 1))
  {
    forall k: nat | first <= k && k + 5 <= peek + 1
      ensures !LongGapAt(ops, k)
    {
      if k + 5 > changeEnd {
        assert k <= changeEnd - 1 < k + 5 || k <= peek < k + 5;
      }
    }
  }

  lemma {:induction false} ExtendIsRegion(ops: seq<Op>, first: nat, changeEnd: nat)
    requires first < changeEnd <= |ops| && !ops[first].Context? && !ops[changeEnd - 1].Context?
    requires NoLongGap(ops, Region(first, changeEnd))
    ensures IsRegion(ops, Region(first, ExtendChange(ops, changeEnd)))
    decreases |ops| - changeEnd
  {
    if changeEnd < |ops| {
      var peek := if ops[changeEnd].Context? then Peek(ops, changeEnd, 4) else changeEnd;
      if peek < |ops| && !ops[peek].Context? {
        NoLongGapWidens(ops, first, changeEnd, peek);
        ExtendIsRegion(ops, first, peek + 1);
      }
    }
  }

  /** The loop of buildHunks cuts the operation list into separate regions that hold every change. */
  lemma {:induction false} RegionsPartition(ops: seq<Op>, i: nat, floor: nat)
    requires floor <= i && AllContext(ops, floor, i)
    requires floor == 0 || AllContext(ops, floor, floor + 2)
    ensures Partition(ops, Regions(ops, i), floor)
    decreases |ops| - i
  {
    if i >= |ops| {
    } else if ops[i].Context? {
      RegionsPartition(ops, i + 1, floor);
    } else {
      ExtendIsRegion(ops, i, i + 1);
      var r := Region(i, ExtendChange(ops, i + 1));
      RegionsPartition(ops, End(ops, r), End(ops, r));
    }
  }

  // ---- Hunks ----

  datatype HunkLine = ContextLine(text: Line) | RemovedLine(text: Line) | AddedLine(text: Line)

  datatype Hunk = Hunk(lines: seq<HunkLine>, beforeStart: nat, beforeCount: nat, afterStart: nat, afterCount: nat)

  /** Smallest and largest line number met so far; Nothing stands for the two infinities. */
  datatype Span = Nothing | Span(low: nat, high: nat) {
    function Include(k: nat): Span {
      if Nothing? then Span(k, k) else Span(if k < low then k else low, if k > high then k else high)
    }

    function HeaderStart(): nat { if Nothing? then 0 else low + 1 }

    function HeaderCount(): nat { if Nothing? || high < low then 0 else high - low + 1 }
  }

  function BeforeSpan(ops: seq<Op>): Span {
    if ops == [] then Nothing
    else
      var rest, last := BeforeSpan(ops[..|ops| - 1]), ops[|ops| - 1];
      if last.Add? then rest else rest.Include(last.beforeIdx)
  }

  function AfterSpan(ops: seq<Op>): Span {
    if ops == [] then Nothing
    else
      var rest, last := AfterSpan(ops[..|ops| - 1]), ops[|ops| - 1];
      if last.Remove? then rest else rest.Include(last.afterIdx)
  }

  function LineAt(file: seq<Line>, k: nat): Line { if k < |file| then file[k] else "" }

  function LineOf(before: seq<Line>, after: seq<Line>, op: Op): HunkLine {
    match op
    case Remove(i) => RemovedLine(LineAt(before, i))
    case Add(j) => AddedLine(LineAt(after, j))
    case Context(i, _) => ContextLine(LineAt(before, i))
  }

  function LinesOf(before: seq<Line>, after: seq<Line>, ops: seq<Op>): (lines: seq<HunkLine>) {
    seq(|ops|, k requires 0 <= k < |ops| => LineOf(before, after, ops[k]))
  }

  function MakeHunk(before: seq<Line>, after: seq<Line>, ops: seq<Op>): Hunk {
    Hunk(LinesOf(before, after, ops),
         BeforeSpan(ops).HeaderStart(), BeforeSpan(ops).HeaderCount(),
         AfterSpan(ops).HeaderStart(), AfterSpan(ops).HeaderCount())
  }

  function HunkAt(before: seq<Line>, after: seq<Line>, ops: seq<Op>, r: Region): Hunk {
    if Start(r) <= End(ops, r) then MakeHunk(before, after, ops[Start(r)..End(ops, r)])
    else MakeHunk(before, after, [])
  }

  function HunksOf(before: seq<Line>, after: seq<Line>, ops: seq<Op>, rs: seq<Region>): (hs: seq<Hunk>) {
    if rs == [] then [] else [HunkAt(before, after, ops, rs[0])] + HunksOf(before, after, ops, rs[1..])
  }

  /** The hunks of the diff of two files. */
  function DiffHunks(before: seq<Line>, after: seq<Line>): seq<Hunk> {
    var ops := DiffOps(before, after);
    HunksOf(before, after, ops, Regions(ops, 0))
  }

  // ---- Applying hunks ----

  /** The lines a hunk expects to find. */
  function OldLines(lines: seq<HunkLine>): seq<Line> {
    if lines == [] then []
    else (if lines[0].AddedLine? then [] else [lines[0].text]) + OldLines(lines[1..])
  }

  /** The lines a hunk leaves behind. */
  function NewLines(lines: seq<HunkLine>): seq<Line> {
    if lines == [] then []
    else (if lines[0].RemovedLine? then [] else [lines[0].text]) + NewLines(lines[1..])
  }

  /** The line offset a header names; an empty side is named by the line before it. */
  function Offset(start: nat, count: nat): int { if count == 0 then start else start - 1 }

  /** A strict patch tool: every header must name the place reached in both files, and every context and
      remove line must match. `cursor` lines of `file` are consumed and `emitted` lines written so far. */
  function Patch(file: seq<Line>, hunks: seq<Hunk>, cursor: nat, emitted: nat): Option<seq<Line>>
    requires cursor <= |file|
    decreases |hunks|
  {
    if hunks == [] then Some(file[cursor..])
    else
      var h := hunks[0];
      var pos := Offset(h.beforeStart, h.beforeCount);
      if !(cursor <= pos && pos + h.beforeCount <= |file|) then None
      else if Offset(h.afterStart, h.afterCount) != emitted + pos - cursor then None
      else if OldLines(h.lines) != file[pos..pos + h.beforeCount] || |NewLines(h.lines)| != h.afterCount then None
      else
        var rest := Patch(file, hunks[1..], pos + h.beforeCount, emitted + pos - cursor + h.afterCount);
        if rest.None? then None else Some(file[cursor..pos] + NewLines(h.lines) + rest.value)
  }

  // ---- Headers and texts of a stretch of the operation list ----

  lemma {:induction false} SpansAreUsed(before: seq<Line>, after: seq<Line>, ops: seq<Op>, b: nat, a: nat)
    requires Walks(before, after, ops, b, a)
    ensures BeforeSpan(ops) == if BeforeUsed(ops) == 0 then Nothing else Span(b, b + BeforeUsed(ops) - 1)
    ensures AfterSpan(ops) == if AfterUsed(ops) == 0 then Nothing else Span(a, a + AfterUsed(ops) - 1)
    decreases |ops|
  {
    if ops != [] {
      var front, last := ops[..|ops| - 1], [ops[|ops| - 1]];
      assert front + last == ops;
      WalksSplits(before, after, front, last, b, a);
      UsedSplits(front, last);
      SpansAreUsed(before, after, front, b, a);
    }
  }

  lemma {:induction false} TextsAreSlices(before: seq<Line>, after: seq<Line>, ops: seq<Op>, b: nat, a: nat)
    requires Walks(before, after, ops, b, a) && b <= |before| && a <= |after|
    ensures b + BeforeUsed(ops) <= |before| && a + AfterUsed(ops) <= |after|
    ensures OldLines(LinesOf(before, after, ops)) == before[b..b + BeforeUsed(ops)]
    ensures NewLines(LinesOf(before, after, ops)) == after[a..a + AfterUsed(ops)]
    decreases |ops|
  {
    if ops == [] {
      assert LinesOf(before, after, ops) == [];
    } else {
      var b', a' := if ops[0].Add? then b else b + 1, if ops[0].Remove? then a else a + 1;
      FirstTexts(before, after, ops, b, a);
      TextsAreSlices(before, after, ops[1..], b', a');
      hide LinesOf, OldLines, NewLines, LineOf, Walks;
      OldTextsStep(before, after, ops, b);
      NewTextsStep(before, after, ops, a);
    }
  }

  lemma UsedFront(ops: seq<Op>)
    requires ops != []
    ensures BeforeUsed(ops) == (if ops[0].Add? then 0 else 1) + BeforeUsed(ops[1..])
    ensures AfterUsed(ops) == (if ops[0].Remove? then 0 else 1) + AfterUsed(ops[1..])
  {
  }

  lemma OldTextsStep(before: seq<Line>, after: seq<Line>, ops: seq<Op>, b: nat)
    requires ops != [] && b + BeforeUsed(ops) <= |before|
    requires !ops[0].Add? ==> LineOf(before, after, ops[0]).text == before[b]
    requires var b' := if ops[0].Add? then b else b + 1;
             OldLines(LinesOf(before, after, ops[1..])) == before[b'..b' + BeforeUsed(ops[1..])]
    ensures OldLines(LinesOf(before, after, ops)) == before[b..b + BeforeUsed(ops)]
  {
    UsedFront(ops);
    TextsFront(before, after, ops);
    hide *;
    SliceFront(before, b, if ops[0].Add? then b else b + 1, b + BeforeUsed(ops));
  }

  lemma NewTextsStep(before: seq<Line>, after: seq<Line>, ops: seq<Op>, a: nat)
    requires ops != [] && a + AfterUsed(ops) <= |after|
    requires !ops[0].Remove? ==> LineOf(before, after, ops[0]).text == after[a]
    requires var a' := if ops[0].Remove? then a else a + 1;
             NewLines(LinesOf(before, after, ops[1..])) == after[a'..a' + AfterUsed(ops[1..])]
    ensures NewLines(LinesOf(before, after, ops)) == after[a..a + AfterUsed(ops)]
  {
    UsedFront(ops);
    TextsFront(before, after, ops);
    hide *;
    SliceFront(after, a, if ops[0].Remove? then a else a + 1, a + AfterUsed(ops));
  }

  lemma FirstTexts(before: seq<Line>, after: seq<Line>, ops: seq<Op>, b: nat, a: nat)
    requires ops != [] && Walks(before, after, ops, b, a)
    ensures !ops[0].Add? ==> b < |before| && LineOf(before, after, ops[0]).text == before[b]
    ensures !ops[0].Remove? ==> a < |after| && LineOf(before, after, ops[0]).text == after[a]
  {
  }

  lemma SliceFront<T>(s: seq<T>, from: nat, mid: nat, end: nat)
    requires from <= mid <= from + 1 && mid <= end <= |s|
    ensures s[from..end] == (if mid == from then [] else [s[from]]) + s[mid..end]
  {
  }

  lemma TextsFront(before: seq<Line>, after: seq<Line>, ops: seq<Op>)
    requires ops != []
    ensures OldLines(LinesOf(before, after, ops))
         == (if ops[0].Add? then [] else [LineOf(before, after, ops[0]).text]) + OldLines(LinesOf(before, after, ops[1..]))
    ensures NewLines(LinesOf(before, after, ops))
         == (if ops[0].Remove? then [] else [LineOf(before, after, ops[0]).text]) + NewLines(LinesOf(before, after, ops[1..]))
  {
    LinesSplit(before, after, ops);
  }

  lemma LinesSplit(before: seq<Line>, after: seq<Line>, ops: seq<Op>)
    requires ops != []
    ensures LinesOf(before, after, ops)[0] == LineOf(before, after, ops[0])
    ensures LinesOf(before, after, ops)[1..] == LinesOf(before, after, ops[1..])
  {
  }

  /** Context operations pair equal lines of the two files. */
  lemma {:induction false} ContextIsShared(before: seq<Line>, after: seq<Line>, ops: seq<Op>, b: nat, a: nat)
    requires Walks(before, after, ops, b, a) && b <= |before| && a <= |after|
    requires AllContext(ops, 0, |ops|)
    ensures BeforeUsed(ops) == AfterUsed(ops) == |ops|
    ensures b + |ops| <= |before| && a + |ops| <= |after|
    ensures before[b..b + |ops|] == after[a..a + |ops|]
    decreases |ops|
  {
    if ops != [] {
      assert ops[0].Context?;
      assert AllContext(ops[1..], 0, |ops[1..]|);
      ContextIsShared(before, after, ops[1..], b + 1, a + 1);
      hide AllContext;
      SliceFront(before, b, b + 1, b + |ops|);
      SliceFront(after, a, a + 1, a + |ops|);
    }
  }

  // ---- The patch theorem ----

  /** An empty side of a hunk means that the whole file is empty on that side. */
  lemma EmptySideIsEmptyFile(before: seq<Line>, after: seq<Line>, ops: seq<Op>, r: Region, floor: nat)
    requires IsRegion(ops, r) && floor <= Start(r) && AllContext(ops, floor, r.first)
    requires AllContext(ops, r.changeEnd, End(ops, r))
    ensures BeforeUsed(ops[Start(r)..End(ops, r)]) == 0 ==> BeforeUsed(ops) == 0
    ensures AfterUsed(ops[Start(r)..End(ops, r)]) == 0 ==> AfterUsed(ops) == 0
  {
    var slice := ops[Start(r)..End(ops, r)];
    if Start(r) < r.first {
      ContextIsUsed(slice, 0);
    } else if r.changeEnd < End(ops, r) {
      ContextIsUsed(slice, r.changeEnd - Start(r));
    } else {
      assert slice == ops;
    }
  }

  lemma {:induction false} ContextIsUsed(ops: seq<Op>, k: nat)
    requires k < |ops| && ops[k].Context?
    ensures BeforeUsed(ops) > 0 && AfterUsed(ops) > 0
  {
    if k > 0 {
      ContextIsUsed(ops[1..], k - 1);
    }
  }

  lemma PrefixWalks(before: seq<Line>, after: seq<Line>, ops: seq<Op>, end: nat)
    requires Walks(before, after, ops, 0, 0) && end <= |ops|
    ensures Walks(before, after, ops[..end], 0, 0)
    ensures BeforeUsed(ops[..end]) <= |before| && AfterUsed(ops[..end]) <= |after|
  {
    assert ops == ops[..end] + ops[end..];
    WalksSplits(before, after, ops[..end], ops[end..], 0, 0);
    TextsAreSlices(before, after, ops[..end], 0, 0);
  }

  /** A stretch of the script, placed in both files. */
  lemma StretchWalks(before: seq<Line>, after: seq<Line>, ops: seq<Op>, from: nat, end: nat)
    requires Walks(before, after, ops, 0, 0) && from <= end <= |ops|
    ensures Walks(before, after, ops[from..end], BeforeUsed(ops[..from]), AfterUsed(ops[..from]))
    ensures BeforeUsed(ops[..end]) == BeforeUsed(ops[..from]) + BeforeUsed(ops[from..end]) <= |before|
    ensures AfterUsed(ops[..end]) == AfterUsed(ops[..from]) + AfterUsed(ops[from..end]) <= |after|
  {
    hide Walks, BeforeUsed, AfterUsed;
    PrefixWalks(before, after, ops, end);
    assert ops[..end] == ops[..from] + ops[from..end];
    WalksSplits(before, after, ops[..from], ops[from..end], 0, 0);
    UsedSplits(ops[..from], ops[from..end]);
  }

  /** The script visits all of both files. */
  ghost predicate IsScript(before: seq<Line>, after: seq<Line>, ops: seq<Op>) {
    Walks(before, after, ops, 0, 0) && BeforeUsed(ops) == |before| && AfterUsed(ops) == |after|
  }

  /** A hunk's header and lines describe exactly the lines its operations stand for. */
  ghost predicate Describes(before: seq<Line>, after: seq<Line>, h: Hunk, b: nat, b': nat, a: nat, a': nat) {
    && b <= b' <= |before| && a <= a' <= |after|
    && OldLines(h.lines) == before[b..b'] && NewLines(h.lines) == after[a..a']
    && h.beforeCount == b' - b && h.afterCount == a' - a
    && Offset(h.beforeStart, h.beforeCount) == b && Offset(h.afterStart, h.afterCount) == a
  }

  /** Made from a stretch that walks on from lines b and a, where a side that is empty has to be at its start. */
  lemma StretchDescribes(before: seq<Line>, after: seq<Line>, stretch: seq<Op>, b: nat, a: nat)
    requires Walks(before, after, stretch, b, a) && b <= |before| && a <= |after|
    requires (BeforeUsed(stretch) == 0 ==> b == 0) && (AfterUsed(stretch) == 0 ==> a == 0)
    ensures Describes(before, after, MakeHunk(before, after, stretch), b, b + BeforeUsed(stretch), a, a + AfterUsed(stretch))
  {
    hide Walks, LinesOf, BeforeUsed, AfterUsed, BeforeSpan, AfterSpan, OldLines, NewLines;
    SpansAreUsed(before, after, stretch, b, a);
    TextsAreSlices(before, after, stretch, b, a);
  }

  lemma HunkDescribes(before: seq<Line>, after: seq<Line>, ops: seq<Op>, r: Region, floor: nat)
    requires IsScript(before, after, ops) && IsRegion(ops, r) && floor <= Start(r)
    requires AllContext(ops, floor, r.first) && AllContext(ops, r.changeEnd, End(ops, r))
    ensures var from, end := Start(r), End(ops, r);
            from <= end <= |ops|
            && Describes(before, after, HunkAt(before, after, ops, r),
                         BeforeUsed(ops[..from]), BeforeUsed(ops[..end]), AfterUsed(ops[..from]), AfterUsed(ops[..end]))
  {
    hide Walks, LinesOf, BeforeUsed, AfterUsed, AllContext, NoLongGap, LongGapAt, Describes, MakeHunk;
    var from, end := Start(r), End(ops, r);
    assert from <= end <= |ops|;
    EmptySideIsEmptyFile(before, after, ops, r, floor);
    hide IsRegion;
    StretchWalks(before, after, ops, from, end);
    StretchDescribes(before, after, ops[from..end], BeforeUsed(ops[..from]), AfterUsed(ops[..from]));
  }

  lemma StretchContext(ops: seq<Op>, from: nat, end: nat)
    requires from <= end <= |ops| && AllContext(ops, from, end)
    ensures AllContext(ops[from..end], 0, |ops[from..end]|)
  {
  }

  /** These stretches of the two files are equally long and hold the same lines. */
  ghost predicate AreShared(before: seq<Line>, after: seq<Line>, b: nat, b': nat, a: nat, a': nat) {
    b <= b' <= |before| && a <= a' <= |after| && b' - b == a' - a && before[b..b'] == after[a..a']
  }

  lemma ContextStretchIsShared(before: seq<Line>, after: seq<Line>, stretch: seq<Op>, b: nat, a: nat)
    requires Walks(before, after, stretch, b, a) && b <= |before| && a <= |after| && AllContext(stretch, 0, |stretch|)
    ensures AreShared(before, after, b, b + BeforeUsed(stretch), a, a + AfterUsed(stretch))
  {
    hide Walks, BeforeUsed, AfterUsed, AllContext;
    ContextIsShared(before, after, stretch, b, a);
  }

  /** Between two hunks the files agree line for line. */
  lemma GapIsShared(before: seq<Line>, after: seq<Line>, ops: seq<Op>, from: nat, end: nat)
    requires Walks(before, after, ops, 0, 0) && from <= end <= |ops| && AllContext(ops, from, end)
    ensures AreShared(before, after, BeforeUsed(ops[..from]), BeforeUsed(ops[..end]), AfterUsed(ops[..from]), AfterUsed(ops[..end]))
  {
    StretchContext(ops, from, end);
    hide *;
    StretchWalks(before, after, ops, from, end);
    ContextStretchIsShared(before, after, ops[from..end], BeforeUsed(ops[..from]), AfterUsed(ops[..from]));
  }

  lemma {:induction false} PatchFromFloor(before: seq<Line>, after: seq<Line>, ops: seq<Op>, rs: seq<Region>, floor: nat)
    requires IsScript(before, after, ops) && floor <= |ops| && Partition(ops, rs, floor)
    ensures BeforeUsed(ops[..floor]) <= |before| && AfterUsed(ops[..floor]) <= |after|
    ensures Patch(before, HunksOf(before, after, ops, rs), BeforeUsed(ops[..floor]), AfterUsed(ops[..floor]))
         == Some(after[AfterUsed(ops[..floor])..])
    decreases |rs|
  {
    if rs == [] {
      assert ops[..|ops|] == ops;
      GapIsShared(before, after, ops, floor, |ops|);
      var b, a := BeforeUsed(ops[..floor]), AfterUsed(ops[..floor]);
      assert before[b..] == before[b..|before|] && after[a..] == after[a..|after|];
    } else {
      var from, end := Start(rs[0]), End(ops, rs[0]);
      GapIsShared(before, after, ops, floor, from);
      HunkDescribes(before, after, ops, rs[0], floor);
      PatchFromFloor(before, after, ops, rs[1..], end);
      PatchStep(before, after, HunkAt(before, after, ops, rs[0]), HunksOf(before, after, ops, rs[1..]),
                BeforeUsed(ops[..floor]), AfterUsed(ops[..floor]),
                BeforeUsed(ops[..from]), BeforeUsed(ops[..end]), AfterUsed(ops[..from]), AfterUsed(ops[..end]));
    }
  }

  lemma PatchStep(before: seq<Line>, after: seq<Line>, h: Hunk, rest: seq<Hunk>,
                  cursor: nat, emitted: nat, b: nat, b': nat, a: nat, a': nat)
    requires Describes(before, after, h, b, b', a, a') && cursor <= b && emitted <= a && b - cursor == a - emitted
    requires before[cursor..b] == after[emitted..a]
    requires Patch(before, rest, b', a') == Some(after[a'..])
    ensures Patch(before, [h] + rest, cursor, emitted) == Some(after[emitted..])
  {
    assert ([h] + rest)[1..] == rest;
    ThreeSlices(after, emitted, a, a');
  }

  lemma ThreeSlices<T>(s: seq<T>, i: nat, j: nat, k: nat)
    requires i <= j <= k <= |s|
    ensures s[i..] == s[i..j] + s[j..k] + s[k..]
  {
  }

  lemma DiffIsPartitioned(before: seq<Line>, after: seq<Line>)
    ensures IsScript(before, after, DiffOps(before, after))
    ensures Partition(DiffOps(before, after), Regions(DiffOps(before, after), 0), 0)
  {
    DiffOpsLead(before, after);
    RegionsPartition(DiffOps(before, after), 0, 0);
  }

  /** Patch correctness: the hunks turn `before` into `after`, each at the place its header names. */
  lemma PatchTurnsBeforeIntoAfter(before: seq<Line>, after: seq<Line>)
    ensures Patch(before, DiffHunks(before, after), 0, 0) == Some(after)
  {
    DiffIsPartitioned(before, after);
    var ops := DiffOps(before, after);
    assert ops[..0] == [] && after[0..] == after;
    PatchFromFloor(before, after, ops, Regions(ops, 0), 0);
  }

  // ---- The reverse patch ----

  function Flip(op: Op): Op {
    match op
    case Context(i, j) => Context(j, i)
    case Remove(i) => Add(i)
    case Add(j) => Remove(j)
  }

  function FlipAll(ops: seq<Op>): (r: seq<Op>)
    ensures |r| == |ops| && forall k :: 0 <= k < |ops| ==> r[k] == Flip(ops[k])
  {
    seq(|ops|, k requires 0 <= k < |ops| => Flip(ops[k]))
  }

  function ReverseLine(line: HunkLine): HunkLine {
    match line
    case ContextLine(t) => ContextLine(t)
    case RemovedLine(t) => AddedLine(t)
    case AddedLine(t) => RemovedLine(t)
  }

  /** A hunk read backwards: removes become adds, and the header's sides change places. */
  function ReverseHunk(h: Hunk): Hunk {
    Hunk(seq(|h.lines|, k requires 0 <= k < |h.lines| => ReverseLine(h.lines[k])),
         h.afterStart, h.afterCount, h.beforeStart, h.beforeCount)
  }

  function ReverseAll(hs: seq<Hunk>): seq<Hunk> {
    seq(|hs|, k requires 0 <= k < |hs| => ReverseHunk(hs[k]))
  }

  lemma {:induction false} FlipWalks(before: seq<Line>, after: seq<Line>, ops: seq<Op>, b: nat, a: nat)
    requires Walks(before, after, ops, b, a)
    ensures Walks(after, before, FlipAll(ops), a, b)
    ensures BeforeUsed(FlipAll(ops)) == AfterUsed(ops) && AfterUsed(FlipAll(ops)) == BeforeUsed(ops)
    decreases |ops|
  {
    if ops != [] {
      assert FlipAll(ops)[1..] == FlipAll(ops[1..]);
      FlipWalks(before, after, ops[1..], if ops[0].Add? then b else b + 1, if ops[0].Remove? then a else a + 1);
    }
  }

  lemma {:induction false} FlipSpans(ops: seq<Op>)
    ensures BeforeSpan(FlipAll(ops)) == AfterSpan(ops) && AfterSpan(FlipAll(ops)) == BeforeSpan(ops)
  {
    if ops != [] {
      assert FlipAll(ops)[..|ops| - 1] == FlipAll(ops[..|ops| - 1]);
      FlipSpans(ops[..|ops| - 1]);
    }
  }

  lemma {:induction false} WalksAt(before: seq<Line>, after: seq<Line>, ops: seq<Op>, b: nat, a: nat, k: nat)
    requires Walks(before, after, ops, b, a) && k < |ops| && ops[k].Context?
    ensures LineAt(before, ops[k].beforeIdx) == LineAt(after, ops[k].afterIdx)
    decreases |ops|
  {
    if k > 0 {
      WalksAt(before, after, ops[1..], if ops[0].Add? then b else b + 1, if ops[0].Remove? then a else a + 1, k - 1);
    }
  }

  lemma FlipHunk(before: seq<Line>, after: seq<Line>, ops: seq<Op>, r: Region)
    requires Walks(before, after, ops, 0, 0) && Start(r) <= End(ops, r)
    ensures HunkAt(after, before, FlipAll(ops), r) == ReverseHunk(HunkAt(before, after, ops, r))
  {
    var from, end := Start(r), End(ops, r);
    var slice, flipped := ops[from..end], FlipAll(ops)[from..end];
    assert flipped == FlipAll(slice);
    FlipSpans(slice);
    var h := HunkAt(before, after, ops, r);
    forall k | 0 <= k < |slice|
      ensures LineOf(after, before, flipped[k]) == ReverseLine(LineOf(before, after, slice[k]))
    {
      if slice[k].Context? {
        WalksAt(before, after, ops, 0, 0, from + k);
      }
    }
    assert LinesOf(after, before, flipped) == ReverseHunk(h).lines;
  }

  lemma {:induction false} FlipRegions(before: seq<Line>, after: seq<Line>, ops: seq<Op>, rs: seq<Region>, floor: nat)
    requires Walks(before, after, ops, 0, 0) && Partition(ops, rs, floor)
    ensures Partition(FlipAll(ops), rs, floor)
    ensures HunksOf(after, before, FlipAll(ops), rs) == ReverseAll(HunksOf(before, after, ops, rs))
    decreases |rs|
  {
    if rs != [] {
      FlipHunk(before, after, ops, rs[0]);
      FlipRegion(ops, rs[0]);
      FlipRegions(before, after, ops, rs[1..], End(ops, rs[0]));
      ReverseSplits(HunkAt(before, after, ops, rs[0]), HunksOf(before, after, ops, rs[1..]));
    }
  }

  lemma ReverseSplits(h: Hunk, hs: seq<Hunk>)
    ensures ReverseAll([h] + hs) == [ReverseHunk(h)] + ReverseAll(hs)
  {
  }

  lemma FlipRegion(ops: seq<Op>, r: Region)
    requires IsRegion(ops, r)
    ensures IsRegion(FlipAll(ops), r)
  {
    forall k: nat | r.first <= k && k + 5 <= r.changeEnd
      ensures !LongGapAt(FlipAll(ops), k)
    {
      assert !LongGapAt(ops, k);
    }
  }

  /** The diff loses nothing: read backwards, its hunks turn `after` into `before`. */
  lemma ReversePatchRestoresBefore(before: seq<Line>, after: seq<Line>)
    ensures Patch(after, ReverseAll(DiffHunks(before, after)), 0, 0) == Some(before)
  {
    DiffIsPartitioned(before, after);
    var ops := DiffOps(before, after);
    FlipWalks(before, after, ops, 0, 0);
    FlipRegions(before, after, ops, Regions(ops, 0), 0);
    assert FlipAll(ops)[..0] == [] && before[0..] == before;
    PatchFromFloor(after, before, FlipAll(ops), Regions(ops, 0), 0);
  }

  // ---- Geometry of the whole diff ----

  /** Change c lies in the k-th region. */
  ghost predicate Inside(rs: seq<Region>, k: nat, c: nat) { k < |rs| && rs[k].first <= c < rs[k].changeEnd }

  lemma {:induction false} PartitionSeparates(ops: seq<Op>, rs: seq<Region>, floor: nat)
    requires Partition(ops, rs, floor)
    ensures forall k :: 0 <= k < |rs| ==> IsRegion(ops, rs[k]) && floor <= Start(rs[k]) && floor <= rs[k].first
    ensures forall k, l :: 0 <= k < l < |rs| ==> End(ops, rs[k]) <= Start(rs[l]) && rs[k].changeEnd + 5 <= rs[l].first
    decreases |rs|
  {
    if rs != [] {
      PartitionSeparates(ops, rs[1..], End(ops, rs[0]));
      forall k, l | 0 <= k < l < |rs|
        ensures End(ops, rs[k]) <= Start(rs[l]) && rs[k].changeEnd + 5 <= rs[l].first
      {
        assert rs[l] == rs[1..][l - 1];
        if k > 0 {
          assert rs[k] == rs[1..][k - 1];
        }
      }
    }
  }

  lemma {:induction false} EveryChangeIsInside(ops: seq<Op>, rs: seq<Region>, floor: nat, c: nat) returns (k: nat)
    requires Partition(ops, rs, floor) && floor <= c < |ops| && !ops[c].Context?
    ensures Inside(rs, k, c)
    decreases |rs|
  {
    if c < rs[0].changeEnd {
      k := 0;
    } else {
      k := EveryChangeIsInside(ops, rs[1..], End(ops, rs[0]), c);
      k := k + 1;
    }
  }

  lemma {:induction false} HunksByRegion(before: seq<Line>, after: seq<Line>, ops: seq<Op>, rs: seq<Region>)
    ensures |HunksOf(before, after, ops, rs)| == |rs|
    ensures forall k :: 0 <= k < |rs| ==> HunksOf(before, after, ops, rs)[k] == HunkAt(before, after, ops, rs[k])
  {
    if rs != [] {
      HunksByRegion(before, after, ops, rs[1..]);
    }
  }

  /** The header of a hunk counts its lines, and a side is empty exactly when that whole file is. */
  ghost predicate HeaderCounts(before: seq<Line>, after: seq<Line>, h: Hunk) {
    && h.beforeCount == |OldLines(h.lines)| && h.afterCount == |NewLines(h.lines)|
    && (h.beforeCount == 0 <==> h.beforeStart == 0) && (h.afterCount == 0 <==> h.afterStart == 0)
    && (h.beforeCount == 0 <==> before == []) && (h.afterCount == 0 <==> after == [])
  }

  lemma StretchCounts(before: seq<Line>, after: seq<Line>, stretch: seq<Op>, b: nat, a: nat)
    requires Walks(before, after, stretch, b, a) && b <= |before| && a <= |after|
    requires (BeforeUsed(stretch) == 0 ==> before == []) && (AfterUsed(stretch) == 0 ==> after == [])
    ensures HeaderCounts(before, after, MakeHunk(before, after, stretch))
  {
    hide Walks, LinesOf, BeforeUsed, AfterUsed, BeforeSpan, AfterSpan, OldLines, NewLines;
    SpansAreUsed(before, after, stretch, b, a);
    TextsAreSlices(before, after, stretch, b, a);
  }

  lemma {:induction false} PartitionDescribes(before: seq<Line>, after: seq<Line>, ops: seq<Op>, rs: seq<Region>, floor: nat, k: nat)
    requires IsScript(before, after, ops) && Partition(ops, rs, floor) && k < |rs|
    ensures HeaderCounts(before, after, HunkAt(before, after, ops, rs[k]))
    decreases |rs|
  {
    hide Walks, BeforeUsed, AfterUsed, AllContext, NoLongGap, LongGapAt, HeaderCounts, MakeHunk;
    if k > 0 {
      PartitionDescribes(before, after, ops, rs[1..], End(ops, rs[0]), k - 1);
    } else {
      EmptySideIsEmptyFile(before, after, ops, rs[0], floor);
      var from, end := Start(rs[0]), End(ops, rs[0]);
      StretchWalks(before, after, ops, from, end);
      StretchCounts(before, after, ops[from..end], BeforeUsed(ops[..from]), AfterUsed(ops[..from]));
    }
  }

  /** Hunk geometry: the regions, and so the hunks cut around them, are ordered, disjoint and five or more context
      operations apart; every removed or added line is in exactly one. */
  lemma ChangesAreInOneHunk(before: seq<Line>, after: seq<Line>)
    ensures var ops := DiffOps(before, after);
            var rs := Regions(ops, 0);
            && (forall k :: 0 <= k < |rs| ==> IsRegion(ops, rs[k]))
            && (forall k, l :: 0 <= k < l < |rs| ==> End(ops, rs[k]) <= Start(rs[l]) && rs[k].changeEnd + 5 <= rs[l].first)
            && (forall c :: 0 <= c < |ops| && !ops[c].Context? ==> exists k :: Inside(rs, k, c))
            && (forall c, k, l :: Inside(rs, k, c) && Inside(rs, l, c) ==> k == l)
  {
    DiffIsPartitioned(before, after);
    var ops := DiffOps(before, after);
    var rs := Regions(ops, 0);
    PartitionSeparates(ops, rs, 0);
    forall c | 0 <= c < |ops| && !ops[c].Context?
      ensures exists k :: Inside(rs, k, c)
    {
      var k := EveryChangeIsInside(ops, rs, 0, c);
    }
  }

  /** Hunk geometry: every header counts the lines below it, and a zero count means that the whole file is empty. */
  lemma HeadersCountLines(before: seq<Line>, after: seq<Line>, k: nat)
    requires k < |DiffHunks(before, after)|
    ensures var h := DiffHunks(before, after)[k];
            && h.beforeCount == |OldLines(h.lines)| && h.afterCount == |NewLines(h.lines)|
            && (h.beforeCount == 0 <==> h.beforeStart == 0) && (h.beforeCount == 0 <==> before == [])
            && (h.afterCount == 0 <==> h.afterStart == 0) && (h.afterCount == 0 <==> after == [])
  {
    DiffIsPartitioned(before, after);
    var ops := DiffOps(before, after);
    HunksByRegion(before, after, ops, Regions(ops, 0));
    PartitionDescribes(before, after, ops, Regions(ops, 0), 0, k);
  }

  // ---- The loops of buildHunks ----

  /** Lines 161-182: consume changes, merging regions at most four context operations apart. */
  method FindChangeEnd(ops: seq<Op>, i: nat) returns (changeEnd: nat)
    requires i < |ops|
    ensures changeEnd == ExtendChange(ops, i + 1)
  {
    changeEnd := i + 1;
    while changeEnd < |ops|
      invariant changeEnd <= |ops|
      invariant ExtendChange(ops, i + 1) == ExtendChange(ops, changeEnd)
    {
      if !ops[changeEnd].Context? {
        changeEnd := changeEnd + 1;
      } else {
        var peek, contextCount := changeEnd, 0;
        while peek < |ops| && ops[peek].Context? && contextCount < 4
          invariant changeEnd <= peek <= |ops| && contextCount <= 4
          invariant Peek(ops, changeEnd, 4) == Peek(ops, peek, 4 - contextCount)
        {
          peek, contextCount := peek + 1, contextCount + 1;
        }
        if peek < |ops| && !ops[peek].Context? {
          changeEnd := peek;
        } else {
          break;
        }
      }
    }
  }

  /** Lines 191-222: measure the hunk and render its lines. */
  method MeasureHunk(before: seq<Line>, after: seq<Line>, hunkOps: seq<Op>) returns (h: Hunk)
    ensures h == MakeHunk(before, after, hunkOps)
  {
    var beforeSpan, afterSpan := Nothing, Nothing;
    for k := 0 to |hunkOps|
      invariant beforeSpan == BeforeSpan(hunkOps[..k]) && afterSpan == AfterSpan(hunkOps[..k])
    {
      assert hunkOps[..k + 1][..k] == hunkOps[..k];
      var op := hunkOps[k];
      if !op.Add? {
        beforeSpan := beforeSpan.Include(op.beforeIdx);
      }
      if !op.Remove? {
        afterSpan := afterSpan.Include(op.afterIdx);
      }
    }
    assert hunkOps[..|hunkOps|] == hunkOps;
    h := Hunk(LinesOf(before, after, hunkOps), beforeSpan.HeaderStart(), beforeSpan.HeaderCount(),
              afterSpan.HeaderStart(), afterSpan.HeaderCount());
  }

  lemma NextHunk(before: seq<Line>, after: seq<Line>, ops: seq<Op>, i: nat)
    requires i <= |ops|
    ensures i == |ops| ==> HunksOf(before, after, ops, Regions(ops, i)) == []
    ensures i < |ops| && ops[i].Context? ==> Regions(ops, i) == Regions(ops, i + 1)
    ensures i < |ops| && !ops[i].Context? ==>
              var r := Region(i, ExtendChange(ops, i + 1));
              (HunksOf(before, after, ops, Regions(ops, i))
               == [HunkAt(before, after, ops, r)] + HunksOf(before, after, ops, Regions(ops, End(ops, r))))
  {
    if i < |ops| && !ops[i].Context? {
      var r := Region(i, ExtendChange(ops, i + 1));
      assert Regions(ops, i)[1..] == Regions(ops, End(ops, r));
    }
  }

  /** buildHunks: the operation list, then one hunk per region. */
  method BuildHunks(before: seq<Line>, after: seq<Line>, matches: seq<Pair>) returns (hunks: seq<Hunk>)
    requires IsCommon(before, after, matches)
    ensures var ops := Script(|before|, |after|, matches, 0, 0);
            hunks == HunksOf(before, after, ops, Regions(ops, 0))
  {
    var ops := BuildOps(before, after, matches);
    hunks := GroupHunks(before, after, ops);
  }

  /** Lines 150-227: the grouping loop. */
  method GroupHunks(before: seq<Line>, after: seq<Line>, ops: seq<Op>) returns (hunks: seq<Hunk>)
    ensures hunks == HunksOf(before, after, ops, Regions(ops, 0))
  {
    hide Regions, HunksOf, ExtendChange, MakeHunk;
    hunks := [];
    var i := 0;
    while i < |ops|
      invariant i <= |ops|
      invariant HunksOf(before, after, ops, Regions(ops, 0)) == hunks + HunksOf(before, after, ops, Regions(ops, i))
      decreases |ops| - i
    {
      NextHunk(before, after, ops, i);
      if ops[i].Context? {
        i := i + 1;
      } else {
        var changeEnd := FindChangeEnd(ops, i);
        var contextBefore := if i < 2 then 0 else i - 2;
        var contextAfter := if |ops| - 1 < changeEnd + 2 then |ops| - 1 else changeEnd + 2;
        var hunk := MeasureHunk(before, after, ops[contextBefore..contextAfter + 1]);
        assert hunk == HunkAt(before, after, ops, Region(i, changeEnd));
        hunks := hunks + [hunk];
        i := contextAfter + 1;
      }
    }
    NextHunk(before, after, ops, i);
  }
}
