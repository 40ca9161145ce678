/** The operation list of buildHunks in core/src/utils/diff.ts, and why no script is shorter. */
module EditScript {
  import opened Text
  import opened Lcs

  /** An operation names the line it stands for: in `before`, in `after`, or in both. */
  datatype Op = Context(beforeIdx: nat, afterIdx: nat) | Remove(beforeIdx: nat) | Add(afterIdx: nat)

  /** How many lines of `before` the operations take. */
  function BeforeUsed(ops: seq<Op>): nat {
    if ops == [] then 0 else (if ops[0].Add? then 0 else 1) + BeforeUsed(ops[1..])
  }

  /** How many lines of `after` the operations take. */
  function AfterUsed(ops: seq<Op>): nat {
    if ops == [] then 0 else (if ops[0].Remove? then 0 else 1) + AfterUsed(ops[1..])
  }

  /** From line b of `before` and line a of `after`, the operations visit both files line by line,
      and a context operation pairs equal lines. */
  ghost predicate Walks(before: seq<Line>, after: seq<Line>, ops: seq<Op>, b: nat, a: nat) {
    ops == [] ||
    match ops[0]
    case Context(i, j) =>
      i == b < |before| && j == a < |after| && before[b] == after[a] && Walks(before, after, ops[1..], b + 1, a + 1)
    case Remove(i) => i == b < |before| && Walks(before, after, ops[1..], b + 1, a)
    case Add(j) => j == a < |after| && Walks(before, after, ops[1..], b, a + 1)
  }

  lemma {:induction false} UsedSplits(x: seq<Op>, y: seq<Op>)
    ensures BeforeUsed(x + y) == BeforeUsed(x) + BeforeUsed(y)
    ensures AfterUsed(x + y) == AfterUsed(x) + AfterUsed(y)
  {
    if x == [] {
      assert x + y == y;
    } else {
      UsedSplits(x[1..], y);
      assert (x + y)[1..] == x[1..] + y;
    }
  }

  lemma {:induction false} WalksSplits(before: seq<Line>, after: seq<Line>, x: seq<Op>, y: seq<Op>, b: nat, a: nat)
    ensures Walks(before, after, x + y, b, a)
       <==> Walks(before, after, x, b, a) && Walks(before, after, y, b + BeforeUsed(x), a + AfterUsed(x))
  {
    if x == [] {
      assert x + y == y;
    } else {
      assert (x + y)[1..] == x[1..] + y;
      WalksSplits(before, after, x[1..], y,
                  if x[0].Add? then b else b + 1, if x[0].Remove? then a else a + 1);
    }
  }

  function Removes(from: nat, end: nat): (ops: seq<Op>)
    decreases end - from
  {
    if from >= end then [] else [Remove(from)] + Removes(from + 1, end)
  }

  function Adds(from: nat, end: nat): (ops: seq<Op>)
    decreases end - from
  {
    if from >= end then [] else [Add(from)] + Adds(from + 1, end)
  }

  /** The operations still to come once line b of `before` and line a of `after` are reached. */
  function Script(m: nat, n: nat, matches: seq<Pair>, b: nat, a: nat): (ops: seq<Op>)
    decreases |matches|
  {
    if matches == [] then Removes(b, m) + Adds(a, n)
    else
      var (mb, ma) := matches[0];
      Removes(b, mb) + Adds(a, ma) + [Context(mb, ma)] + Script(m, n, matches[1..], mb + 1, ma + 1)
  }

  /** Removes plus adds. */
  function Cost(ops: seq<Op>): nat {
    if ops == [] then 0 else (if ops[0].Context? then 0 else 1) + Cost(ops[1..])
  }

  lemma {:induction false} CostSplits(x: seq<Op>, y: seq<Op>)
    ensures Cost(x + y) == Cost(x) + Cost(y)
  {
    if x == [] {
      assert x + y == y;
    } else {
      CostSplits(x[1..], y);
      assert (x + y)[1..] == x[1..] + y;
    }
  }

  /** The operations lead from line b of `before` and a of `after` to lines b' and a', at this cost. */
  ghost predicate Leads(before: seq<Line>, after: seq<Line>, ops: seq<Op>, b: nat, a: nat, b': nat, a': nat, cost: nat) {
    Walks(before, after, ops, b, a) && BeforeUsed(ops) == b' - b && AfterUsed(ops) == a' - a && Cost(ops) == cost
  }

  lemma LeadsOn(before: seq<Line>, after: seq<Line>, x: seq<Op>, y: seq<Op>,
                b: nat, a: nat, b': nat, a': nat, b'': nat, a'': nat, cx: nat, cy: nat)
    requires Leads(before, after, x, b, a, b', a', cx) && Leads(before, after, y, b', a', b'', a'', cy)
    ensures Leads(before, after, x + y, b, a, b'', a'', cx + cy)
  {
    WalksSplits(before, after, x, y, b, a);
    UsedSplits(x, y);
    CostSplits(x, y);
  }

  lemma {:induction false} RemovesLead(before: seq<Line>, after: seq<Line>, from: nat, end: nat, a: nat)
    requires from <= end <= |before|
    ensures Leads(before, after, Removes(from, end), from, a, end, a, end - from)
    decreases end - from
  {
    if from < end {
      RemovesLead(before, after, from + 1, end, a);
    }
  }

  lemma {:induction false} AddsLead(before: seq<Line>, after: seq<Line>, from: nat, end: nat, b: nat)
    requires from <= end <= |after|
    ensures Leads(before, after, Adds(from, end), b, from, b, end, end - from)
    decreases end - from
  {
    if from < end {
      AddsLead(before, after, from + 1, end, b);
    }
  }

  lemma GapLeads(before: seq<Line>, after: seq<Line>, b: nat, a: nat, b': nat, a': nat)
    requires b <= b' <= |before| && a <= a' <= |after|
    ensures Leads(before, after, Removes(b, b') + Adds(a, a'), b, a, b', a', b' - b + a' - a)
  {
    RemovesLead(before, after, b, b', a);
    AddsLead(before, after, a, a', b');
    LeadsOn(before, after, Removes(b, b'), Adds(a, a'), b, a, b', a, b', a', b' - b, a' - a);
  }

  ghost predicate From(ms: seq<Pair>, b: nat, a: nat) {
    forall k :: 0 <= k < |ms| ==> b <= ms[k].0 && a <= ms[k].1
  }

  /** The script visits every line of both files once, and costs what the matches leave unmatched. */
  lemma {:induction false} ScriptLeads(before: seq<Line>, after: seq<Line>, ms: seq<Pair>, b: nat, a: nat)
    requires IsCommon(before, after, ms) && From(ms, b, a) && b <= |before| && a <= |after|
    ensures |before| - b + |after| - a - 2 * |ms| >= 0
    ensures Leads(before, after, Script(|before|, |after|, ms, b, a), b, a, |before|, |after|,
                  |before| - b + |after| - a - 2 * |ms|)
    decreases |ms|
  {
    hide Leads, Removes, Adds;
    if ms == [] {
      GapLeads(before, after, b, a, |before|, |after|);
    } else {
      var (mb, ma) := ms[0];
      var gap, rest := Removes(b, mb) + Adds(a, ma), Script(|before|, |after|, ms[1..], mb + 1, ma + 1);
      GapLeads(before, after, b, a, mb, ma);
      ScriptLeads(before, after, ms[1..], mb + 1, ma + 1);
      ContextLeads(before, after, mb, ma);
      LeadsOn(before, after, gap, [Context(mb, ma)], b, a, mb, ma, mb + 1, ma + 1, mb - b + ma - a, 0);
      LeadsOn(before, after, gap + [Context(mb, ma)], rest, b, a, mb + 1, ma + 1, |before|, |after|,
              mb - b + ma - a, |before| - mb - 1 + |after| - ma - 1 - 2 * |ms[1..]|);
    }
  }

  lemma ContextLeads(before: seq<Line>, after: seq<Line>, b: nat, a: nat)
    requires b < |before| && a < |after| && before[b] == after[a]
    ensures Leads(before, after, [Context(b, a)], b, a, b + 1, a + 1, 0)
  {
    assert [Context(b, a)][1..] == [];
  }

  /** A script written without line numbers, as any tool could write one. */
  datatype Edit = Keep | Delete | Insert(line: Line)

  /** What a script makes of a file; None when it does not fit the file. */
  function Edited(edits: seq<Edit>, file: seq<Line>): Option<seq<Line>> {
    if edits == [] then if file == [] then Some([]) else None
    else match edits[0]
      case Keep =>
        if file == [] then None else
          var rest := Edited(edits[1..], file[1..]);
          if rest.None? then None else Some([file[0]] + rest.value)
      case Delete => if file == [] then None else Edited(edits[1..], file[1..])
      case Insert(line) =>
        var rest := Edited(edits[1..], file);
        if rest.None? then None else Some([line] + rest.value)
  }

  function EditCost(edits: seq<Edit>): nat {
    if edits == [] then 0 else (if edits[0].Keep? then 0 else 1) + EditCost(edits[1..])
  }

  /** The pairs of lines that a script keeps. */
  ghost function Kept(edits: seq<Edit>, b: nat, a: nat): seq<Pair> {
    if edits == [] then []
    else match edits[0]
      case Keep => [(b, a)] + Kept(edits[1..], b + 1, a + 1)
      case Delete => Kept(edits[1..], b + 1, a)
      case Insert(_) => Kept(edits[1..], b, a + 1)
  }

  lemma CommonPrepends(before: seq<Line>, after: seq<Line>, ms: seq<Pair>, b: nat, a: nat)
    requires b < |before| && a < |after| && before[b] == after[a]
    requires IsCommon(before, after, ms) && From(ms, b + 1, a + 1)
    ensures IsCommon(before, after, [(b, a)] + ms) && From([(b, a)] + ms, b, a)
  {
  }

  lemma {:induction false} KeptIsCommon(before: seq<Line>, after: seq<Line>, edits: seq<Edit>, b: nat, a: nat)
    requires b <= |before| && a <= |after|
    requires Edited(edits, before[b..]) == Some(after[a..])
    ensures var ms := Kept(edits, b, a);
            && IsCommon(before, after, ms) && From(ms, b, a)
            && EditCost(edits) == |before| - b + |after| - a - 2 * |ms|
    decreases |edits|
  {
    if edits != [] {
      assert !edits[0].Delete? ==> |after[a..]| > 0;
      match edits[0]
      case Keep =>
        assert before[b..][1..] == before[b + 1..] && after[a..][1..] == after[a + 1..];
        KeptIsCommon(before, after, edits[1..], b + 1, a + 1);
        CommonPrepends(before, after, Kept(edits[1..], b + 1, a + 1), b, a);
      case Delete =>
        assert before[b..][1..] == before[b + 1..];
        KeptIsCommon(before, after, edits[1..], b + 1, a);
      case Insert(_) =>
        assert after[a..][1..] == after[a + 1..];
        KeptIsCommon(before, after, edits[1..], b, a + 1);
    }
  }

  /** The operation list buildHunks computes for the matches of computeLCS. */
  function DiffOps(before: seq<Line>, after: seq<Line>): seq<Op> {
    Script(|before|, |after|, Backtrack(before, after, |before|, |after|), 0, 0)
  }

  lemma DiffOpsLead(before: seq<Line>, after: seq<Line>)
    ensures var ops := DiffOps(before, after);
            && Walks(before, after, ops, 0, 0)
            && BeforeUsed(ops) == |before| && AfterUsed(ops) == |after|
            && Cost(ops) == |before| + |after| - 2 * Len(before, after, |before|, |after|)
  {
    BacktrackIsBest(before, after, |before|, |after|);
    ScriptLeads(before, after, Backtrack(before, after, |before|, |after|), 0, 0);
  }

  /** Minimality: no script that turns `before` into `after` removes and adds fewer lines. */
  lemma ScriptIsMinimal(before: seq<Line>, after: seq<Line>, edits: seq<Edit>)
    requires Edited(edits, before) == Some(after)
    ensures Cost(DiffOps(before, after)) <= EditCost(edits)
  {
    DiffOpsLead(before, after);
    assert before[0..] == before && after[0..] == after;
    KeptIsCommon(before, after, edits, 0, 0);
    LenIsUpperBound(before, after, |before|, |after|, Kept(edits, 0, 0));
  }

  method PushRemoves(ops: seq<Op>, from: nat, end: nat) returns (r: seq<Op>)
    requires from <= end
    ensures r == ops + Removes(from, end)
  {
    r := ops;
    var bIdx := from;
    while bIdx < end
      invariant from <= bIdx <= end
      invariant r + Removes(bIdx, end) == ops + Removes(from, end)
    {
      r := r + [Remove(bIdx)];
      bIdx := bIdx + 1;
    }
  }

  method PushAdds(ops: seq<Op>, from: nat, end: nat) returns (r: seq<Op>)
    requires from <= end
    ensures r == ops + Adds(from, end)
  {
    r := ops;
    var aIdx := from;
    while aIdx < end
      invariant from <= aIdx <= end
      invariant r + Adds(aIdx, end) == ops + Adds(from, end)
    {
      r := r + [Add(aIdx)];
      aIdx := aIdx + 1;
    }
  }

  lemma NextMatch(before: seq<Line>, after: seq<Line>, ms: seq<Pair>, k: nat, b: nat, a: nat)
    requires IsCommon(before, after, ms) && k < |ms| && From(ms[k..], b, a)
    ensures b <= ms[k].0 < |before| && a <= ms[k].1 < |after| && From(ms[k + 1..], ms[k].0 + 1, ms[k].1 + 1)
  {
    assert ms[k..][0] == ms[k];
    var rest := ms[k + 1..];
    forall j | 0 <= j < |rest|
      ensures ms[k].0 + 1 <= rest[j].0 && ms[k].1 + 1 <= rest[j].1
    {
      assert rest[j] == ms[k + 1 + j];
    }
  }

  /** Unfolds the script by one match. */
  lemma ScriptStep(m: nat, n: nat, ms: seq<Pair>, k: nat, b: nat, a: nat)
    requires k < |ms|
    ensures Script(m, n, ms[k..], b, a)
         == Removes(b, ms[k].0) + Adds(a, ms[k].1) + [Context(ms[k].0, ms[k].1)]
            + Script(m, n, ms[k + 1..], ms[k].0 + 1, ms[k].1 + 1)
  {
    var rest := ms[k..];
    assert rest[0] == ms[k] && rest[1..] == ms[k + 1..];
  }

  lemma ScriptEnds(m: nat, n: nat, b: nat, a: nat)
    ensures Script(m, n, [], b, a) == Removes(b, m) + Adds(a, n)
  {
  }

  lemma FromStart(ms: seq<Pair>)
    ensures From(ms, 0, 0)
  {
  }

  lemma Regroup(start: seq<Op>, x: seq<Op>, y: seq<Op>, z: seq<Op>, rest: seq<Op>)
    ensures start + (x + y + z + rest) == start + x + y + z + rest
  {
  }

  /** The first half of buildHunks: one operation per line, matches as context. */
  method BuildOps(before: seq<Line>, after: seq<Line>, matches: seq<Pair>) returns (ops: seq<Op>)
    requires IsCommon(before, after, matches)
    ensures ops == Script(|before|, |after|, matches, 0, 0)
  {
    hide Script, Removes, Adds, From, IsCommon;
    ops := [];
    var bIdx: nat, aIdx: nat := 0, 0;
    FromStart(matches);
    ghost var all := Script(|before|, |after|, matches, 0, 0);
    assert matches[0..] == matches;
    for k := 0 to |matches|
      invariant bIdx <= |before| && aIdx <= |after|
      invariant From(matches[k..], bIdx, aIdx)
      invariant all == ops + Script(|before|, |after|, matches[k..], bIdx, aIdx)
    {
      NextMatch(before, after, matches, k, bIdx, aIdx);
      ScriptStep(|before|, |after|, matches, k, bIdx, aIdx);
      var (mb, ma) := matches[k];
      Regroup(ops, Removes(bIdx, mb), Adds(aIdx, ma), [Context(mb, ma)],
              Script(|before|, |after|, matches[k + 1..], mb + 1, ma + 1));
      ops := PushRemoves(ops, bIdx, mb);
      ops := PushAdds(ops, aIdx, ma);
      ops := ops + [Context(mb, ma)];
      bIdx, aIdx := mb + 1, ma + 1;
    }
    assert matches[|matches|..] == [];
    ScriptEnds(|before|, |after|, bIdx, aIdx);
    assert ops + (Removes(bIdx, |before|) + Adds(aIdx, |after|)) == ops + Removes(bIdx, |before|) + Adds(aIdx, |after|);
    ops := PushRemoves(ops, bIdx, |before|);
    ops := PushAdds(ops, aIdx, |after|);
  }
}
