/** core/src/utils/async-lock.ts: every interleaving of the sections run under one keyed promise-chain lock. */
module AsyncLock {
  import opened Text

  /** The tail promise of each key. Promises are numbered in the order in which `run` creates them. */
  type Chains = map<string, nat>

  /** The lock object. Each method is the code between two awaits of `run`, so no other task runs in the middle of it. */
  class Lock {
    var chains: Chains

    constructor ()
      ensures chains == map[]
    {
      chains := map[];
    }

    /** Lines 21-25: everything before the first await. `next` is the promise just created. */
    method RunUntilAwait(key: string, next: nat) returns (prev: Option<nat>)
      modifies this
      ensures prev == Tail(old(chains), key)
      ensures chains == old(chains)[key := next]
    {
      prev := if key in chains then Some(chains[key]) else None;
      chains := chains[key := next];
    }

    /** Lines 28-34: the finally block, after `next` has settled either way. */
    method Finally(key: string, next: nat)
      modifies this
      ensures chains == WithoutTail(old(chains), key, next)
    {
      if key in chains && chains[key] == next {
        chains := chains - {key};
      }
    }
  }

  function Tail(chains: Chains, key: string): Option<nat> {
    if key in chains then Some(chains[key]) else None
  }

  function WithoutTail(chains: Chains, key: string, next: nat): Chains {
    if Tail(chains, key) == Some(next) then chains - {key} else chains
  }

  // ---- The transition system ----

  /** A section waits for its predecessor, runs, settles either way, and then has its finally block run. */
  datatype Status = Queued | Running | Settled(ok: bool) | Done(ok: bool)

  /** One call of `run`, named by its promise; `prev` is the promise it chained onto. */
  datatype Section = Section(key: string, prev: Option<nat>, status: Status)

  datatype State = State(sections: seq<Section>, chains: Chains)

  const INIT := State([], map[])

  datatype Action = Enter(key: string) | Start(e: nat) | Settle(e: nat, ok: bool) | Clean(e: nat)

  predicate HasStarted(s: State, e: nat)
    requires e < |s.sections|
  {
    !s.sections[e].status.Queued?
  }

  predicate HasSettled(s: State, e: nat)
    requires e < |s.sections|
  {
    s.sections[e].status.Settled? || s.sections[e].status.Done?
  }

  /** A queued section starts once its predecessor has settled, successfully or not. */
  predicate CanStart(s: State, e: nat)
    requires e < |s.sections|
  {
    && s.sections[e].status.Queued?
    && (s.sections[e].prev.Some? ==> s.sections[e].prev.value < |s.sections| && HasSettled(s, s.sections[e].prev.value))
  }

  predicate Enabled(s: State, a: Action) {
    match a
    case Enter(_) => true
    case Start(e) => e < |s.sections| && CanStart(s, e)
    case Settle(e, _) => e < |s.sections| && s.sections[e].status.Running?
    case Clean(e) => e < |s.sections| && s.sections[e].status.Settled?
  }

  function SetStatus(s: State, e: nat, status: Status): State
    requires e < |s.sections|
  {
    s.(sections := s.sections[e := s.sections[e].(status := status)])
  }

  function Step(s: State, a: Action): State
    requires Enabled(s, a)
  {
    match a
    case Enter(key) =>
      State(s.sections + [Section(key, Tail(s.chains, key), Queued)], s.chains[key := |s.sections|])
    case Start(e) => SetStatus(s, e, Running)
    case Settle(e, ok) => SetStatus(s, e, Settled(ok))
    case Clean(e) =>
      SetStatus(s, e, Done(s.sections[e].status.ok)).(chains := WithoutTail(s.chains, s.sections[e].key, e))
  }

  // ---- The invariant ----

  predicate SameKey(s: State, e: nat, f: nat)
    requires e < |s.sections| && f < |s.sections|
  {
    s.sections[e].key == s.sections[f].key
  }

  /** Links reach back past nothing unsettled: an earlier section of the key is the predecessor, is before it, or has settled. */
  ghost predicate LinkOk(s: State, e: nat, f: nat)
    requires e < f < |s.sections|
  {
    SameKey(s, e, f) ==>
      match s.sections[f].prev
      case None => HasSettled(s, e)
      case Some(p) => e <= p < f && SameKey(s, p, f)
  }

  /** A section starts only after every earlier section of its key has settled. */
  ghost predicate OrderOk(s: State, e: nat, f: nat)
    requires e < f < |s.sections|
  {
    SameKey(s, e, f) && HasStarted(s, f) ==> HasSettled(s, e)
  }

  ghost predicate PrevOk(s: State, f: nat)
    requires f < |s.sections|
  {
    s.sections[f].prev.Some? ==> s.sections[f].prev.value < f && SameKey(s, s.sections[f].prev.value, f)
  }

  /** The tail of a key is its latest section and still has its finally block to run; without a tail, all have settled. */
  ghost predicate TailOk(s: State, key: string) {
    match Tail(s.chains, key)
    case Some(c) =>
      c < |s.sections| && s.sections[c].key == key && !s.sections[c].status.Done?
      && forall e :: c < e < |s.sections| ==> s.sections[e].key != key
    case None => forall e :: 0 <= e < |s.sections| && s.sections[e].key == key ==> HasSettled(s, e)
  }

  ghost predicate Inv(s: State) {
    && (forall f :: 0 <= f < |s.sections| ==> PrevOk(s, f))
    && (forall e, f :: 0 <= e < f < |s.sections| ==> LinkOk(s, e, f))
    && (forall e, f :: 0 <= e < f < |s.sections| ==> OrderOk(s, e, f))
    && (forall key :: TailOk(s, key))
  }

  lemma EnterKeepsInv(s: State, key: string)
    requires Inv(s)
    ensures Inv(Step(s, Enter(key)))
  {
    var s' := Step(s, Enter(key));
    var n := |s.sections|;
    assert TailOk(s, key);
    forall f | 0 <= f < |s'.sections| ensures PrevOk(s', f) {
      if f < n {
        assert PrevOk(s, f);
      }
    }
    forall e, f | 0 <= e < f < |s'.sections| ensures LinkOk(s', e, f) && OrderOk(s', e, f) {
      if f < n {
        assert LinkOk(s, e, f) && OrderOk(s, e, f);
      }
    }
    forall k ensures TailOk(s', k) {
      assert TailOk(s, k);
    }
  }

  /** A change of status that settles nothing back and starts nothing out of turn keeps the order. */
  lemma StatusKeepsOrder(s: State, e: nat, status: Status)
    requires Inv(s) && e < |s.sections|
    requires HasSettled(s, e) ==> status.Done?
    requires !status.Queued? && (!HasStarted(s, e) ==> CanStart(s, e))
    ensures var s' := SetStatus(s, e, status);
            && (forall f :: 0 <= f < |s'.sections| ==> PrevOk(s', f))
            && (forall d, f :: 0 <= d < f < |s'.sections| ==> LinkOk(s', d, f))
            && (forall d, f :: 0 <= d < f < |s'.sections| ==> OrderOk(s', d, f))
  {
    var s' := SetStatus(s, e, status);
    forall f | 0 <= f < |s'.sections| ensures PrevOk(s', f) {
      assert PrevOk(s, f);
    }
    forall d, f | 0 <= d < f < |s'.sections| ensures LinkOk(s', d, f) && OrderOk(s', d, f) {
      assert LinkOk(s, d, f) && OrderOk(s, d, f);
      if f == e && !HasStarted(s, e) && SameKey(s, d, e) {
        StartIsInTurn(s, d, e);
      }
    }
  }

  lemma StartIsInTurn(s: State, d: nat, e: nat)
    requires Inv(s) && d < e < |s.sections| && SameKey(s, d, e) && CanStart(s, e)
    ensures HasSettled(s, d)
  {
    assert LinkOk(s, d, e);
    if s.sections[e].prev.Some? && d < s.sections[e].prev.value {
      assert OrderOk(s, d, s.sections[e].prev.value);
    }
  }

  lemma StatusKeepsTails(s: State, e: nat, status: Status)
    requires Inv(s) && e < |s.sections|
    requires HasSettled(s, e) ==> status.Done?
    requires !status.Done?
    ensures forall key :: TailOk(SetStatus(s, e, status), key)
  {
    forall key ensures TailOk(SetStatus(s, e, status), key) {
      assert TailOk(s, key);
    }
  }

  lemma CleanKeepsTails(s: State, e: nat)
    requires Inv(s) && Enabled(s, Clean(e))
    ensures forall key :: TailOk(Step(s, Clean(e)), key)
  {
    var s' := Step(s, Clean(e));
    forall key ensures TailOk(s', key) {
      assert TailOk(s, key);
      if Tail(s.chains, key) == Some(e) {
        forall d | 0 <= d < |s'.sections| && s'.sections[d].key == key
          ensures HasSettled(s', d)
        {
          if d < e {
            assert OrderOk(s, d, e);
          }
        }
      }
    }
  }

  lemma StepKeepsInv(s: State, a: Action)
    requires Inv(s) && Enabled(s, a)
    ensures Inv(Step(s, a))
  {
    match a
    case Enter(key) => EnterKeepsInv(s, key);
    case Start(e) =>
      StatusKeepsOrder(s, e, Running);
      StatusKeepsTails(s, e, Running);
    case Settle(e, ok) =>
      StatusKeepsOrder(s, e, Settled(ok));
      StatusKeepsTails(s, e, Settled(ok));
    case Clean(e) => CleanInv(s, e);
  }

  lemma CleanInv(s: State, e: nat)
    requires Enabled(s, Clean(e)) && Inv(s)
    ensures Inv(Step(s, Clean(e)))
  {
    StatusKeepsOrder(s, e, Done(s.sections[e].status.ok));
    CleanKeepsTails(s, e);
    var t, s' := SetStatus(s, e, Done(s.sections[e].status.ok)), Step(s, Clean(e));
    forall f | 0 <= f < |s'.sections| ensures PrevOk(s', f) {
      assert PrevOk(t, f);
    }
    forall d, f | 0 <= d < f < |s'.sections| ensures LinkOk(s', d, f) && OrderOk(s', d, f) {
      assert LinkOk(t, d, f) && OrderOk(t, d, f);
    }
  }

  // ---- Every interleaving ----

  /** The state after a sequence of actions; None when one of them was not enabled in its turn. */
  function After(acts: seq<Action>): Option<State> {
    if acts == [] then Some(INIT)
    else
      var before, last := After(acts[..|acts| - 1]), acts[|acts| - 1];
      if before.Some? && Enabled(before.value, last) then Some(Step(before.value, last)) else None
  }

  lemma {:induction false} RunKeepsInv(acts: seq<Action>)
    ensures After(acts).Some? ==> Inv(After(acts).value)
  {
    if acts != [] {
      var before, last := After(acts[..|acts| - 1]), acts[|acts| - 1];
      RunKeepsInv(acts[..|acts| - 1]);
      if before.Some? && Enabled(before.value, last) {
        StepKeepsInv(before.value, last);
      }
    }
  }

  /** Mutual exclusion in every interleaving: two running sections of one key are the same section. */
  lemma AtMostOneRuns(acts: seq<Action>, s: State, e: nat, f: nat)
    requires After(acts) == Some(s) && e < |s.sections| && f < |s.sections| && SameKey(s, e, f)
    ensures s.sections[e].status.Running? && s.sections[f].status.Running? ==> e == f
  {
    RunKeepsInv(acts);
    RunningIsUnique(s, e, f);
  }

  lemma RunningIsUnique(s: State, e: nat, f: nat)
    requires Inv(s) && e < |s.sections| && f < |s.sections| && SameKey(s, e, f)
    ensures s.sections[e].status.Running? && s.sections[f].status.Running? ==> e == f
  {
    assert e < f ==> OrderOk(s, e, f);
    assert f < e ==> OrderOk(s, f, e);
  }

  /** First come, first served: a queued section can start exactly when every earlier call on its key has settled,
      whether those sections succeeded or were rejected; and nothing starts before that. */
  lemma StartsInCallOrder(acts: seq<Action>, s: State, f: nat)
    requires After(acts) == Some(s) && f < |s.sections|
    ensures var allEarlierSettled := forall e :: 0 <= e < f && SameKey(s, e, f) ==> HasSettled(s, e);
            && (CanStart(s, f) <==> s.sections[f].status.Queued? && allEarlierSettled)
            && (HasStarted(s, f) ==> allEarlierSettled)
  {
    RunKeepsInv(acts);
    QueuedStartsInTurn(s, f);
  }

  lemma QueuedStartsInTurn(s: State, f: nat)
    requires Inv(s) && f < |s.sections|
    ensures var allEarlierSettled := forall e :: 0 <= e < f && SameKey(s, e, f) ==> HasSettled(s, e);
            && (CanStart(s, f) <==> s.sections[f].status.Queued? && allEarlierSettled)
            && (HasStarted(s, f) ==> allEarlierSettled)
  {
    assert PrevOk(s, f);
    forall e | 0 <= e < f && SameKey(s, e, f)
      ensures CanStart(s, f) || HasStarted(s, f) ==> HasSettled(s, e)
    {
      assert OrderOk(s, e, f);
      if CanStart(s, f) {
        StartIsInTurn(s, e, f);
      }
    }
  }

  /** The map does not lie and does not grow: a key without an entry has nothing queued or running, a key with one has a
      section whose finally block is still to come, and once every call is done the map is empty. */
  lemma EntriesTrackSections(acts: seq<Action>, s: State, key: string)
    requires After(acts) == Some(s)
    ensures key !in s.chains ==> forall e :: 0 <= e < |s.sections| && s.sections[e].key == key ==> HasSettled(s, e)
    ensures key in s.chains ==>
              && s.chains[key] < |s.sections| && s.sections[s.chains[key]].key == key
              && !s.sections[s.chains[key]].status.Done?
    ensures (forall e :: 0 <= e < |s.sections| ==> s.sections[e].status.Done?) ==> s.chains == map[]
  {
    RunKeepsInv(acts);
    assert TailOk(s, key);
    QuietMeansEmpty(s);
  }

  lemma QuietMeansEmpty(s: State)
    requires Inv(s)
    ensures (forall e :: 0 <= e < |s.sections| ==> s.sections[e].status.Done?) ==> s.chains == map[]
  {
    if forall e :: 0 <= e < |s.sections| ==> s.sections[e].status.Done? {
      forall k ensures k !in s.chains {
        assert TailOk(s, k);
      }
    }
  }
}
