/** What the hunks of a diff look like: how much context they show, and in which order they list changed lines. */
module HunkShape {
  import opened Lcs
  import opened EditScript
  import opened Hunks

  // ---- Removed lines before added lines ----

  ghost predicate RemovesFirst(ops: seq<Op>) {
    forall k :: 0 <= k < |ops| - 1 && ops[k].Add? ==> !ops[k + 1].Remove?
  }

  lemma {:induction false} RemovesOnly(from: nat, end: nat)
    ensures forall k :: 0 <= k < |Removes(from, end)| ==> Removes(from, end)[k].Remove?
    decreases end - from
  {
    if from < end {
      RemovesOnly(from + 1, end);
    }
  }

  lemma {:induction false} AddsOnly(from: nat, end: nat)
    ensures forall k :: 0 <= k < |Adds(from, end)| ==> Adds(from, end)[k].Add?
    decreases end - from
  {
    if from < end {
      AddsOnly(from + 1, end);
    }
  }

  lemma GapRemovesFirst(b: nat, b': nat, a: nat, a': nat)
    ensures RemovesFirst(Removes(b, b') + Adds(a, a'))
  {
    RemovesOnly(b, b');
    AddsOnly(a, a');
  }

  lemma ContextBetween(x: seq<Op>, context: Op, y: seq<Op>)
    requires RemovesFirst(x) && context.Context? && RemovesFirst(y)
    ensures RemovesFirst(x + [context] + y)
  {
    var ops := x + [context] + y;
    forall k | 0 <= k < |ops| - 1 && ops[k].Add? ensures !ops[k + 1].Remove? {
      if k > |x| {
        assert ops[k] == y[k - |x| - 1] && ops[k + 1] == y[k - |x|];
      } else {
        assert ops[k] == (x + [context])[k] && ops[k + 1] == (x + [context])[k + 1];
      }
    }
  }

  lemma {:induction false} ScriptRemovesFirst(m: nat, n: nat, matches: seq<Pair>, b: nat, a: nat)
    ensures RemovesFirst(Script(m, n, matches, b, a))
    decreases |matches|
  {
    hide RemovesFirst, Removes, Adds;
    if matches == [] {
      GapRemovesFirst(b, m, a, n);
    } else {
      var (mb, ma) := matches[0];
      GapRemovesFirst(b, mb, a, ma);
      ScriptRemovesFirst(m, n, matches[1..], mb + 1, ma + 1);
      ContextBetween(Removes(b, mb) + Adds(a, ma), Context(mb, ma), Script(m, n, matches[1..], mb + 1, ma + 1));
    }
  }

  // ---- Context ----

  /** The hunk starts with `lead` context lines and a change, and ends with a change and `trail` context lines. */
  ghost predicate IsFramed(lines: seq<HunkLine>, lead: nat, trail: nat) {
    && lead + trail < |lines|
    && (forall k :: 0 <= k < lead ==> lines[k].ContextLine?) && !lines[lead].ContextLine?
    && (forall k :: |lines| - trail <= k < |lines| ==> lines[k].ContextLine?) && !lines[|lines| - trail - 1].ContextLine?
  }

  /** Two lines of context before the first change, or all there are; three after the last, or all there are. */
  ghost predicate HasContext(before: seq<Line>, after: seq<Line>, h: Hunk, lead: nat, trail: nat) {
    && IsFramed(h.lines, lead, trail)
    && (lead == 2 || (lead < 2 && Offset(h.beforeStart, h.beforeCount) == 0 && Offset(h.afterStart, h.afterCount) == 0))
    && (trail == 3 || (trail < 3 && Offset(h.beforeStart, h.beforeCount) + h.beforeCount == |before|
                       && Offset(h.afterStart, h.afterCount) + h.afterCount == |after|))
  }

  lemma StretchIsFramed(before: seq<Line>, after: seq<Line>, ops: seq<Op>, r: Region)
    requires IsRegion(ops, r) && Start(r) < End(ops, r)
    requires AllContext(ops, Start(r), r.first) && AllContext(ops, r.changeEnd, End(ops, r))
    ensures IsFramed(HunkAt(before, after, ops, r).lines, r.first - Start(r), End(ops, r) - r.changeEnd)
  {
    var stretch := ops[Start(r)..End(ops, r)];
    var lines := HunkAt(before, after, ops, r).lines;
    assert lines == LinesOf(before, after, stretch);
    forall k | 0 <= k < |lines| ensures lines[k].ContextLine? <==> ops[Start(r) + k].Context? {
      assert lines[k] == LineOf(before, after, stretch[k]);
    }
  }

  lemma RegionHasContext(before: seq<Line>, after: seq<Line>, ops: seq<Op>, r: Region, floor: nat)
    requires IsScript(before, after, ops) && IsRegion(ops, r) && floor <= Start(r)
    requires AllContext(ops, floor, r.first) && AllContext(ops, r.changeEnd, End(ops, r))
    ensures HasContext(before, after, HunkAt(before, after, ops, r), r.first - Start(r), End(ops, r) - r.changeEnd)
  {
    var from, end := Start(r), End(ops, r);
    HunkDescribes(before, after, ops, r, floor);
    StretchIsFramed(before, after, ops, r);
    hide IsFramed, Walks, BeforeUsed, AfterUsed, AllContext, NoLongGap, LongGapAt, HunkAt, IsScript, OldLines, NewLines;
    AtBothEnds(before, after, ops, from, end);
  }

  lemma AtBothEnds(before: seq<Line>, after: seq<Line>, ops: seq<Op>, from: nat, end: nat)
    requires IsScript(before, after, ops) && from <= end <= |ops|
    ensures from == 0 ==> BeforeUsed(ops[..from]) == 0 && AfterUsed(ops[..from]) == 0
    ensures end == |ops| ==> BeforeUsed(ops[..end]) == |before| && AfterUsed(ops[..end]) == |after|
  {
    assert ops[..|ops|] == ops && ops[..0] == [];
  }

  /** The shape of every hunk: its context, and removed lines before added ones in each group of changes. */
  lemma HunksHaveContext(before: seq<Line>, after: seq<Line>, k: nat) returns (lead: nat, trail: nat)
    requires k < |DiffHunks(before, after)|
    ensures HasContext(before, after, DiffHunks(before, after)[k], lead, trail)
    ensures var lines := DiffHunks(before, after)[k].lines;
            forall i :: 0 <= i < |lines| - 1 && lines[i].AddedLine? ==> !lines[i + 1].RemovedLine?
  {
    var ops := DiffOps(before, after);
    var rs := Regions(ops, 0);
    DiffIsPartitioned(before, after);
    HunksByRegion(before, after, ops, rs);
    lead, trail := FramesIn(before, after, ops, rs, 0, k);
    ScriptRemovesFirst(|before|, |after|, Backtrack(before, after, |before|, |after|), 0, 0);
    StretchRemovesFirst(before, after, ops, rs[k]);
  }

  lemma StretchRemovesFirst(before: seq<Line>, after: seq<Line>, ops: seq<Op>, r: Region)
    requires RemovesFirst(ops)
    ensures var lines := HunkAt(before, after, ops, r).lines;
            forall i :: 0 <= i < |lines| - 1 && lines[i].AddedLine? ==> !lines[i + 1].RemovedLine?
  {
    var lines := HunkAt(before, after, ops, r).lines;
    var stretch := if Start(r) <= End(ops, r) then ops[Start(r)..End(ops, r)] else [];
    assert lines == LinesOf(before, after, stretch);
    forall i | 0 <= i < |lines| - 1 && lines[i].AddedLine? ensures !lines[i + 1].RemovedLine? {
      assert lines[i] == LineOf(before, after, stretch[i]) && lines[i + 1] == LineOf(before, after, stretch[i + 1]);
      assert stretch[i] == ops[Start(r) + i] && stretch[i + 1] == ops[Start(r) + i + 1];
    }
  }

  lemma {:induction false} FramesIn(before: seq<Line>, after: seq<Line>, ops: seq<Op>, rs: seq<Region>, floor: nat, k: nat)
    returns (lead: nat, trail: nat)
    requires IsScript(before, after, ops) && Partition(ops, rs, floor) && k < |rs|
    ensures HasContext(before, after, HunkAt(before, after, ops, rs[k]), lead, trail)
    decreases |rs|
  {
    hide HasContext, IsScript, HunkAt, AllContext;
    if k > 0 {
      lead, trail := FramesIn(before, after, ops, rs[1..], End(ops, rs[0]), k - 1);
    } else {
      lead, trail := rs[0].first - Start(rs[0]), End(ops, rs[0]) - rs[0].changeEnd;
      RegionHasContext(before, after, ops, rs[0], floor);
    }
  }
}
