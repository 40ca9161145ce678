/** core/src/utils/file-mutex.ts: any number of tasks, each acquiring a list of locks one inside the other. */
module MultiLock {
  import opened Basics
  import opened Text
  import opened KeyOrder
  import L = AsyncLock

  /** Where a call of withMultiFileLock stands. At `Waiting(i)` it holds keys[..i] and is queued for keys[i]; at
      `Unwinding(i, ok)` the section of keys[i] has settled and its finally block is next; at `Returned(i, ok)` the run
      on keys[i] has returned and the section around it settles next. */
  datatype Phase =
    | Idle
    | Waiting(level: nat)
    | Body
    | Unwinding(level: nat, ok: bool)
    | Returned(level: nat, ok: bool)
    | Finished(ok: bool)

  /** `tickets[i]` is the section of the lock that this task's run on keys[i] created. */
  datatype Task = Task(keys: seq<string>, phase: Phase, tickets: seq<nat>)

  /** `owners[e]` is the task and the level that created section e. */
  datatype State = State(tasks: seq<Task>, lock: L.State, owners: seq<(nat, nat)>)

  /** Tasks that are about to call withMultiFileLock with these lists of keys. */
  function Init(calls: seq<seq<string>>): State {
    State(seq(|calls|, t requires 0 <= t < |calls| => Task(Canonical(calls[t]), Idle, [])), L.INIT, [])
  }

  datatype Action = Call(t: nat) | Start(t: nat) | Settle(t: nat, ok: bool) | Clean(t: nat) | Return(t: nat)

  predicate Enabled(s: State, a: Action) {
    a.t < |s.tasks| &&
    var task := s.tasks[a.t];
    match a
    case Call(_) => task.phase.Idle?
    case Start(_) =>
      task.phase.Waiting? && task.phase.level < |task.tickets| && L.Enabled(s.lock, L.Start(task.tickets[task.phase.level]))
    case Settle(_, ok) =>
      task.phase.Body?
      && (task.keys != [] ==>
            |task.tickets| == |task.keys| && L.Enabled(s.lock, L.Settle(task.tickets[|task.keys| - 1], ok)))
    case Clean(_) =>
      task.phase.Unwinding? && task.phase.level < |task.tickets| && L.Enabled(s.lock, L.Clean(task.tickets[task.phase.level]))
    case Return(_) =>
      task.phase.Returned? && 0 < task.phase.level <= |task.tickets|
      && L.Enabled(s.lock, L.Settle(task.tickets[task.phase.level - 1], task.phase.ok))
  }

  /** `acquire(i)`: past the last key the body runs, otherwise the task queues for the next key. */
  function Acquire(s: State, t: nat, level: nat): State
    requires t < |s.tasks|
  {
    var task := s.tasks[t];
    if level >= |task.keys| then s.(tasks := s.tasks[t := task.(phase := Body)])
    else
      State(s.tasks[t := task.(phase := Waiting(level), tickets := task.tickets + [|s.lock.sections|])],
            L.Step(s.lock, L.Enter(task.keys[level])),
            s.owners + [(t, level)])
  }

  function Move(s: State, t: nat, phase: Phase, lock: L.State): State
    requires t < |s.tasks|
  {
    s.(tasks := s.tasks[t := s.tasks[t].(phase := phase)], lock := lock)
  }

  function Step(s: State, a: Action): State
    requires Enabled(s, a)
  {
    var task := s.tasks[a.t];
    match a
    case Call(t) => Acquire(s, t, 0)
    case Start(t) =>
      Acquire(s.(lock := L.Step(s.lock, L.Start(task.tickets[task.phase.level]))), t, task.phase.level + 1)
    case Settle(t, ok) =>
      if task.keys == [] then Move(s, t, Finished(ok), s.lock)
      else Move(s, t, Unwinding(|task.keys| - 1, ok), L.Step(s.lock, L.Settle(task.tickets[|task.keys| - 1], ok)))
    case Clean(t) =>
      var lock := L.Step(s.lock, L.Clean(task.tickets[task.phase.level]));
      Move(s, t, if task.phase.level == 0 then Finished(task.phase.ok) else Returned(task.phase.level, task.phase.ok), lock)
    case Return(t) =>
      Move(s, t, Unwinding(task.phase.level - 1, task.phase.ok),
           L.Step(s.lock, L.Settle(task.tickets[task.phase.level - 1], task.phase.ok)))
  }

  // ---- The invariant: every task's phase says what each of its sections is doing ----

  predicate PhaseOk(task: Task) {
    match task.phase
    case Idle => task.tickets == []
    case Waiting(i) => i < |task.keys| && |task.tickets| == i + 1
    case Body => |task.tickets| == |task.keys|
    case Unwinding(i, _) => i < |task.keys| && |task.tickets| == |task.keys|
    case Returned(i, _) => 0 < i < |task.keys| && |task.tickets| == |task.keys|
    case Finished(_) => |task.tickets| == |task.keys|
  }

  /** The status of the section at a level of a task in a phase. */
  predicate StatusFits(status: L.Status, phase: Phase, level: nat) {
    match phase
    case Idle => true
    case Waiting(i) => if level < i then status.Running? else status.Queued?
    case Body => status.Running?
    case Unwinding(i, ok) => if level < i then status.Running? else if level == i then status == L.Settled(ok) else status.Done?
    case Returned(i, _) => if level < i then status.Running? else status.Done?
    case Finished(_) => status.Done?
  }

  ghost predicate TicketOk(s: State, t: nat, level: nat)
    requires t < |s.tasks| && level < |s.tasks[t].tickets|
  {
    var task := s.tasks[t];
    var e := task.tickets[level];
    && level < |task.keys|
    && e < |s.lock.sections| && e < |s.owners| && s.owners[e] == (t, level)
    && s.lock.sections[e].key == task.keys[level]
    && StatusFits(s.lock.sections[e].status, task.phase, level)
  }

  ghost predicate TaskOk(s: State, t: nat)
    requires t < |s.tasks|
  {
    PhaseOk(s.tasks[t]) && forall level :: 0 <= level < |s.tasks[t].tickets| ==> TicketOk(s, t, level)
  }

  ghost predicate OwnerOk(s: State, e: nat)
    requires e < |s.owners|
  {
    var (t, level) := s.owners[e];
    t < |s.tasks| && level < |s.tasks[t].tickets| && s.tasks[t].tickets[level] == e
  }

  ghost predicate Inv(s: State) {
    && L.Inv(s.lock)
    && |s.owners| == |s.lock.sections|
    && (forall t :: 0 <= t < |s.tasks| ==> TaskOk(s, t))
    && (forall e :: 0 <= e < |s.owners| ==> OwnerOk(s, e))
  }

  lemma InitInv(calls: seq<seq<string>>)
    ensures Inv(Init(calls))
  {
  }

  // ---- Every step keeps the invariant ----

  /** The invariant of everything but task t. */
  ghost predicate InvExcept(s: State, t: nat) {
    && L.Inv(s.lock)
    && |s.owners| == |s.lock.sections|
    && (forall u :: 0 <= u < |s.tasks| && u != t ==> TaskOk(s, u))
    && (forall e :: 0 <= e < |s.owners| ==> OwnerOk(s, e))
  }

  /** Task t is running all the sections it has entered. */
  ghost predicate HoldsAll(s: State, t: nat)
    requires t < |s.tasks|
  {
    |s.tasks[t].tickets| <= |s.tasks[t].keys|
    && forall level :: 0 <= level < |s.tasks[t].tickets| ==> TicketRuns(s, t, level)
  }

  ghost predicate TicketRuns(s: State, t: nat, level: nat)
    requires t < |s.tasks| && level < |s.tasks[t].tickets|
  {
    var task := s.tasks[t];
    var e := task.tickets[level];
    && level < |task.keys|
    && e < |s.lock.sections| && e < |s.owners| && s.owners[e] == (t, level)
    && s.lock.sections[e].key == task.keys[level]
    && s.lock.sections[e].status.Running?
  }

  /** What task u has is untouched by a change to a section of task t. */
  lemma OthersKeep(s: State, s': State, t: nat, u: nat)
    requires t < |s.tasks| && u < |s.tasks| && u != t && TaskOk(s, u)
    requires |s'.tasks| == |s.tasks| && s'.tasks[u] == s.tasks[u]
    requires |s.owners| <= |s'.owners| && |s.lock.sections| <= |s'.lock.sections|
    requires forall e :: 0 <= e < |s.owners| ==> s'.owners[e] == s.owners[e]
    requires forall e :: 0 <= e < |s.lock.sections| && e < |s.owners| && s.owners[e].0 != t ==>
                           s'.lock.sections[e] == s.lock.sections[e]
    ensures TaskOk(s', u)
  {
    forall level | 0 <= level < |s'.tasks[u].tickets|
      ensures TicketOk(s', u, level)
    {
      assert TicketOk(s, u, level);
    }
  }

  /** The lock changes the status of one section of task t, or nothing. */
  ghost predicate OneStatus(s: State, lock: L.State, t: nat) {
    && |lock.sections| == |s.lock.sections| == |s.owners|
    && (forall e :: 0 <= e < |s.owners| && s.owners[e].0 != t ==> lock.sections[e] == s.lock.sections[e])
    && (forall e :: 0 <= e < |s.owners| ==> lock.sections[e].key == s.lock.sections[e].key)
  }

  lemma StatusKeepsOthers(s: State, t: nat, phase: Phase, lock: L.State)
    requires InvExcept(s, t) && t < |s.tasks| && OneStatus(s, lock, t) && L.Inv(lock)
    ensures InvExcept(Move(s, t, phase, lock), t)
  {
    var s' := Move(s, t, phase, lock);
    forall u | 0 <= u < |s.tasks| && u != t ensures TaskOk(s', u) {
      OthersKeep(s, s', t, u);
    }
    forall e | 0 <= e < |s'.owners| ensures OwnerOk(s', e) {
      assert OwnerOk(s, e);
    }
  }

  /** Entering the next key, or the body. */
  lemma AcquireKeepsInv(s: State, t: nat)
    requires t < |s.tasks| && InvExcept(s, t) && HoldsAll(s, t)
    ensures Inv(Acquire(s, t, |s.tasks[t].tickets|))
  {
    var task := s.tasks[t];
    var level := |task.tickets|;
    var s' := Acquire(s, t, level);
    if level < |task.keys| {
      L.StepKeepsInv(s.lock, L.Enter(task.keys[level]));
    }
    forall u | 0 <= u < |s.tasks| && u != t ensures TaskOk(s', u) {
      OthersKeep(s, s', t, u);
    }
    forall k | 0 <= k < |s'.tasks[t].tickets| ensures TicketOk(s', t, k) {
      if k < level {
        assert TicketRuns(s, t, k);
        assert s'.tasks[t].tickets[k] == task.tickets[k];
        assert s'.lock.sections[task.tickets[k]] == s.lock.sections[task.tickets[k]];
        assert s'.owners[task.tickets[k]] == s.owners[task.tickets[k]];
      } else {
        assert s'.tasks[t].tickets[k] == |s.lock.sections|;
      }
    }
    forall e | 0 <= e < |s'.owners| ensures OwnerOk(s', e) {
      if e < |s.owners| {
        assert OwnerOk(s, e) && s'.owners[e] == s.owners[e];
        var owner := s.owners[e];
        assert s'.tasks[owner.0].tickets[owner.1] == s.tasks[owner.0].tickets[owner.1];
      } else {
        assert s'.owners[e] == (t, level) && s'.tasks[t].tickets[level] == e;
      }
    }
  }

  /** A task moves on after one of its own sections changed status. */
  lemma MoveKeepsInv(s: State, t: nat, phase: Phase, lock: L.State)
    requires Inv(s) && t < |s.tasks| && OneStatus(s, lock, t) && L.Inv(lock)
    requires PhaseOk(s.tasks[t].(phase := phase))
    requires forall k :: 0 <= k < |s.tasks[t].tickets| ==>
                           s.tasks[t].tickets[k] < |lock.sections| && StatusFits(lock.sections[s.tasks[t].tickets[k]].status, phase, k)
    ensures Inv(Move(s, t, phase, lock))
  {
    var s' := Move(s, t, phase, lock);
    StatusKeepsOthers(s, t, phase, lock);
    assert TaskOk(s, t);
    forall k | 0 <= k < |s'.tasks[t].tickets| ensures TicketOk(s', t, k) {
      assert TicketOk(s, t, k);
    }
  }

  /** Tickets of one task are different sections. */
  lemma TicketsDiffer(s: State, t: nat, j: nat, k: nat)
    requires Inv(s) && t < |s.tasks| && j < |s.tasks[t].tickets| && k < |s.tasks[t].tickets| && j != k
    ensures s.tasks[t].tickets[j] != s.tasks[t].tickets[k]
  {
    assert TaskOk(s, t);
    assert TicketOk(s, t, j) && TicketOk(s, t, k);
  }

  lemma StartKeepsInv(s: State, t: nat)
    requires Inv(s) && Enabled(s, Start(t))
    ensures Inv(Step(s, Start(t)))
  {
    var task := s.tasks[t];
    var i := task.phase.level;
    var e := task.tickets[i];
    assert TaskOk(s, t) && TicketOk(s, t, i);
    L.StepKeepsInv(s.lock, L.Start(e));
    var mid := s.(lock := L.Step(s.lock, L.Start(e)));
    StatusKeepsOthers(s, t, task.phase, mid.lock);
    assert Move(s, t, task.phase, mid.lock) == mid;
    forall k | 0 <= k < |task.tickets| ensures TicketRuns(mid, t, k) {
      assert TicketOk(s, t, k);
    }
    AcquireKeepsInv(mid, t);
  }

  lemma StatusMoveKeepsInv(s: State, t: nat, level: nat, phase: Phase, lock: L.State, status: L.Status)
    requires Inv(s) && t < |s.tasks| && level < |s.tasks[t].tickets| && s.tasks[t].tickets[level] < |s.lock.sections|
    requires lock.sections == L.SetStatus(s.lock, s.tasks[t].tickets[level], status).sections && L.Inv(lock)
    requires PhaseOk(s.tasks[t].(phase := phase)) && StatusFits(status, phase, level)
    requires forall k, st: L.Status :: 0 <= k < |s.tasks[t].tickets| && k != level && StatusFits(st, s.tasks[t].phase, k) ==>
                                         StatusFits(st, phase, k)
    ensures Inv(Move(s, t, phase, lock))
  {
    assert TaskOk(s, t) && TicketOk(s, t, level);
    forall k | 0 <= k < |s.tasks[t].tickets|
      ensures s.tasks[t].tickets[k] < |lock.sections| && StatusFits(lock.sections[s.tasks[t].tickets[k]].status, phase, k)
    {
      assert TicketOk(s, t, k);
      if k != level {
        TicketsDiffer(s, t, k, level);
      }
    }
    MoveKeepsInv(s, t, phase, lock);
  }

  lemma StepKeepsInv(s: State, a: Action)
    requires Inv(s) && Enabled(s, a)
    ensures Inv(Step(s, a))
  {
    var t, task := a.t, s.tasks[a.t];
    assert TaskOk(s, t);
    match a
    case Call(_) => AcquireKeepsInv(s, t);
    case Start(_) => StartKeepsInv(s, t);
    case Settle(_, ok) =>
      if task.keys == [] {
        MoveKeepsInv(s, t, Finished(ok), s.lock);
      } else {
        var n := |task.keys| - 1;
        L.StepKeepsInv(s.lock, L.Settle(task.tickets[n], ok));
        StatusMoveKeepsInv(s, t, n, Unwinding(n, ok), L.Step(s.lock, L.Settle(task.tickets[n], ok)), L.Settled(ok));
      }
    case Clean(_) =>
      var i, ok := task.phase.level, task.phase.ok;
      var lock := L.Step(s.lock, L.Clean(task.tickets[i]));
      L.StepKeepsInv(s.lock, L.Clean(task.tickets[i]));
      StatusMoveKeepsInv(s, t, i, if i == 0 then Finished(ok) else Returned(i, ok), lock,
                         L.Done(s.lock.sections[task.tickets[i]].status.ok));
    case Return(_) =>
      var i, ok := task.phase.level, task.phase.ok;
      L.StepKeepsInv(s.lock, L.Settle(task.tickets[i - 1], ok));
      StatusMoveKeepsInv(s, t, i - 1, Unwinding(i - 1, ok), L.Step(s.lock, L.Settle(task.tickets[i - 1], ok)), L.Settled(ok));
  }

  // ---- Runs ----

  /** The state after a sequence of actions; None when one of them was not enabled in its turn. */
  function After(calls: seq<seq<string>>, acts: seq<Action>): Option<State> {
    if acts == [] then Some(Init(calls))
    else
      var before, last := After(calls, acts[..|acts| - 1]), acts[|acts| - 1];
      if before.Some? && Enabled(before.value, last) then Some(Step(before.value, last)) else None
  }

  lemma StepKeepsKeys(s: State, a: Action)
    requires Enabled(s, a)
    ensures |Step(s, a).tasks| == |s.tasks|
    ensures forall t :: 0 <= t < |s.tasks| ==> Step(s, a).tasks[t].keys == s.tasks[t].keys
  {
  }

  lemma {:induction false} RunKeepsInv(calls: seq<seq<string>>, acts: seq<Action>)
    ensures After(calls, acts).Some? ==>
              var s := After(calls, acts).value;
              && Inv(s) && |s.tasks| == |calls|
              && forall t :: 0 <= t < |calls| ==> s.tasks[t].keys == Canonical(calls[t])
  {
    if acts == [] {
      InitInv(calls);
    } else {
      var before, last := After(calls, acts[..|acts| - 1]), acts[|acts| - 1];
      RunKeepsInv(calls, acts[..|acts| - 1]);
      if before.Some? && Enabled(before.value, last) {
        StepKeepsInv(before.value, last);
        StepKeepsKeys(before.value, last);
      }
    }
  }

  /** Mutual exclusion for multi-locks: two bodies that share a key never overlap. */
  lemma BodiesExclude(calls: seq<seq<string>>, acts: seq<Action>, s: State, t: nat, u: nat, key: string)
    requires After(calls, acts) == Some(s) && t < |calls| && u < |calls|
    requires key in calls[t] && key in calls[u]
    ensures |s.tasks| == |calls|
    ensures s.tasks[t].phase.Body? && s.tasks[u].phase.Body? ==> t == u
  {
    RunKeepsInv(calls, acts);
    if s.tasks[t].phase.Body? && s.tasks[u].phase.Body? {
      assert key in Canonical(calls[t]) && key in Canonical(calls[u]);
      var i :| 0 <= i < |s.tasks[t].keys| && s.tasks[t].keys[i] == key;
      var j :| 0 <= j < |s.tasks[u].keys| && s.tasks[u].keys[j] == key;
      assert TaskOk(s, t) && TaskOk(s, u);
      assert TicketOk(s, t, i) && TicketOk(s, u, j);
      L.RunningIsUnique(s.lock, s.tasks[t].tickets[i], s.tasks[u].tickets[j]);
    }
  }

  // ---- Deadlock freedom ----

  ghost predicate Ascending(s: State) { forall t :: 0 <= t < |s.tasks| ==> StrictlyAscending(s.tasks[t].keys) }

  /** Every key some task asks for. */
  ghost function AllKeys(s: State): set<string> {
    set t, i | 0 <= t < |s.tasks| && 0 <= i < |s.tasks[t].keys| :: s.tasks[t].keys[i]
  }

  ghost function KeysAbove(s: State, key: string): set<string> { set k | k in AllKeys(s) && Less(key, k) }

  lemma FewerAbove(s: State, key: string, next: string)
    requires Less(key, next) && next in AllKeys(s)
    ensures |KeysAbove(s, next)| < |KeysAbove(s, key)|
  {
    forall k | k in KeysAbove(s, next) ensures k in KeysAbove(s, key) {
      LessIsTransitive(key, next, k);
    }
    LessIsTotal(next, next);
    assert next in KeysAbove(s, key) && next !in KeysAbove(s, next);
    SmallerSet(KeysAbove(s, next), KeysAbove(s, key), next);
  }

  lemma SmallerSet(a: set<string>, b: set<string>, x: string)
    requires a <= b && x in b && x !in a
    ensures |a| < |b|
  {
    assert a <= b - {x};
    SubsetIsSmaller(a, b - {x});
  }

  /** A task that is not queued can always take its next step. */
  lemma UnqueuedCanStep(s: State, t: nat) returns (a: Action)
    requires Inv(s) && t < |s.tasks| && !s.tasks[t].phase.Finished? && !s.tasks[t].phase.Waiting?
    ensures Enabled(s, a)
  {
    var task := s.tasks[t];
    assert TaskOk(s, t);
    match task.phase
    case Idle => a := Call(t);
    case Body =>
      a := Settle(t, true);
      if task.keys != [] {
        assert TicketOk(s, t, |task.keys| - 1);
      }
    case Unwinding(i, _) =>
      a := Clean(t);
      assert TicketOk(s, t, i);
    case Returned(i, _) =>
      a := Return(t);
      assert TicketOk(s, t, i - 1);
  }

  /** The key a task is queued for, and its place in the order of all sections. */
  ghost function WaitsFor(s: State, t: nat): Option<(string, nat)>
    requires t < |s.tasks|
  {
    var task := s.tasks[t];
    if task.phase.Waiting? && task.phase.level < |task.tickets| && task.phase.level < |task.keys|
    then Some((task.keys[task.phase.level], task.tickets[task.phase.level])) else None
  }

  /** Task u waits at an earlier place for the same key, or for a greater key. */
  ghost predicate IsAhead(s: State, t: nat, u: nat)
    requires t < |s.tasks| && u < |s.tasks|
  {
    WaitsFor(s, t).Some? && WaitsFor(s, u).Some? &&
    var (key, place) := WaitsFor(s, t).value;
    var (next, ahead) := WaitsFor(s, u).value;
    (next == key && ahead < place) || Less(key, next)
  }

  /** A queued task can start, or it is behind a task that is not queued, or queued ahead of it. */
  lemma QueuedIsBehind(s: State, t: nat) returns (u: nat)
    requires Inv(s) && Ascending(s) && t < |s.tasks| && s.tasks[t].phase.Waiting? && !Enabled(s, Start(t))
    ensures u < |s.tasks| && !s.tasks[u].phase.Finished?
    ensures s.tasks[u].phase.Waiting? ==> IsAhead(s, t, u)
  {
    var i := s.tasks[t].phase.level;
    assert TaskOk(s, t) && TicketOk(s, t, i);
    var f := s.tasks[t].tickets[i];
    assert L.PrevOk(s.lock, f);
    var p := s.lock.sections[f].prev.value;
    assert OwnerOk(s, p);
    var level;
    u, level := s.owners[p].0, s.owners[p].1;
    assert TaskOk(s, u) && TicketOk(s, u, level);
    assert !L.HasSettled(s.lock, p);
    if s.tasks[u].phase.Waiting? && level < s.tasks[u].phase.level {
      assert StrictlyAscending(s.tasks[u].keys);
      assert TicketOk(s, u, s.tasks[u].phase.level);
    }
  }

  /** From any task that is not finished, following who waits for whom ends at a task that can step: along the way the
      awaited key grows, or stays and the place in its queue gets smaller. */
  lemma {:induction false} SomeoneCanStep(s: State, t: nat) returns (a: Action)
    requires Inv(s) && Ascending(s) && t < |s.tasks| && !s.tasks[t].phase.Finished?
    ensures Enabled(s, a)
    decreases s.tasks[t].phase.Waiting?,
              if WaitsFor(s, t).Some? then |KeysAbove(s, WaitsFor(s, t).value.0)| else 0,
              if WaitsFor(s, t).Some? then WaitsFor(s, t).value.1 else 0
  {
    if !s.tasks[t].phase.Waiting? {
      a := UnqueuedCanStep(s, t);
    } else if Enabled(s, Start(t)) {
      a := Start(t);
    } else {
      var u := QueuedIsBehind(s, t);
      if s.tasks[u].phase.Waiting? {
        var key, next := WaitsFor(s, t).value.0, WaitsFor(s, u).value.0;
        if Less(key, next) {
          FewerAbove(s, key, next);
        }
      }
      a := SomeoneCanStep(s, u);
    }
  }

  /** Deadlock freedom: in every reachable state with an unfinished task, some task can take a step. */
  lemma DeadlockFree(calls: seq<seq<string>>, acts: seq<Action>, s: State, t: nat) returns (a: Action)
    requires After(calls, acts) == Some(s) && t < |s.tasks| && !s.tasks[t].phase.Finished?
    ensures Enabled(s, a)
  {
    RunKeepsInv(calls, acts);
    forall u | 0 <= u < |s.tasks| ensures StrictlyAscending(s.tasks[u].keys) {
      CanonicalAscends(calls[u]);
    }
    a := SomeoneCanStep(s, t);
  }

  /** Two tasks that are to take the same two locks in opposite orders, as they would without the sort. */
  const CROSSED := State([Task(["a", "b"], Idle, []), Task(["b", "a"], Idle, [])], L.INIT, [])

  /** Task t holds the section of its first key, and waits in a section behind that of the other task. */
  ghost predicate IsBlocked(s: State, t: nat, own: nat, wanted: nat, ahead: nat) {
    && t < |s.tasks| && s.tasks[t].phase == Waiting(1) && s.tasks[t].tickets == [own, wanted]
    && wanted < |s.lock.sections| && ahead < |s.lock.sections|
    && s.lock.sections[wanted].prev == Some(ahead) && s.lock.sections[ahead].status.Running?
  }

  lemma BothQueue() returns (s: State)
    ensures Enabled(CROSSED, Call(0)) && Enabled(Step(CROSSED, Call(0)), Call(1)) && s == Step(Step(CROSSED, Call(0)), Call(1))
    ensures s.tasks == [Task(["a", "b"], Waiting(0), [0]), Task(["b", "a"], Waiting(0), [1])]
    ensures s.lock.sections == [L.Section("a", None, L.Queued), L.Section("b", None, L.Queued)]
    ensures s.lock.chains == map["a" := 0, "b" := 1]
  {
    var first := Step(CROSSED, Call(0));
    var none: seq<nat> := [];
    assert none + [0] == [0] && none + [1] == [1];
    assert first.tasks[0] == Task(["a", "b"], Waiting(0), [0]) && first.tasks[1] == CROSSED.tasks[1];
    s := Step(first, Call(1));
    assert s.tasks[0] == first.tasks[0] && s.tasks[1] == Task(["b", "a"], Waiting(0), [1]);
  }

  lemma BothStart(queued: State) returns (s: State)
    requires queued.tasks == [Task(["a", "b"], Waiting(0), [0]), Task(["b", "a"], Waiting(0), [1])]
    requires queued.lock.sections == [L.Section("a", None, L.Queued), L.Section("b", None, L.Queued)]
    requires queued.lock.chains == map["a" := 0, "b" := 1]
    ensures Enabled(queued, Start(0)) && Enabled(Step(queued, Start(0)), Start(1)) && s == Step(Step(queued, Start(0)), Start(1))
    ensures |s.tasks| == 2 && IsBlocked(s, 0, 0, 2, 1) && IsBlocked(s, 1, 1, 3, 0)
  {
    var first := Step(queued, Start(0));
    assert first.tasks[0].tickets == [0, 2] && first.tasks[1] == queued.tasks[1];
    s := Step(first, Start(1));
    assert s.tasks[0] == first.tasks[0] && s.tasks[1].tickets == [1, 3];
  }

  /** The sort is what prevents deadlock: with crossed lists, after both tasks have called and got their first lock, nobody
      can take a step. */
  lemma CrossedListsDeadlock() returns (queued: State, s: State)
    ensures Enabled(CROSSED, Call(0)) && Enabled(Step(CROSSED, Call(0)), Call(1)) && queued == Step(Step(CROSSED, Call(0)), Call(1))
    ensures Enabled(queued, Start(0)) && Enabled(Step(queued, Start(0)), Start(1)) && s == Step(Step(queued, Start(0)), Start(1))
    ensures |s.tasks| == 2 && forall a :: !Enabled(s, a)
  {
    queued := BothQueue();
    s := BothStart(queued);
    hide Step;
  }

  // ---- Completion ----

  /** Steps a task still has to take. */
  function Remaining(task: Task): nat {
    var n := |task.keys|;
    match task.phase
    case Idle => 3 * n + 2
    case Waiting(i) => if i < n then 3 * n + 1 - i else 2 * n + 1
    case Body => 2 * n + 1
    case Unwinding(i, _) => 2 * i + 2
    case Returned(i, _) => 2 * i + 1
    case Finished(_) => 0
  }

  function Total(tasks: seq<Task>): nat {
    if tasks == [] then 0 else Total(tasks[..|tasks| - 1]) + Remaining(tasks[|tasks| - 1])
  }

  lemma {:induction false} TotalDrops(tasks: seq<Task>, t: nat, task: Task)
    requires t < |tasks| && Remaining(task) < Remaining(tasks[t])
    ensures Total(tasks[t := task]) < Total(tasks)
  {
    var front, tasks' := tasks[..|tasks| - 1], tasks[t := task];
    if t == |tasks| - 1 {
      assert tasks'[..|tasks| - 1] == front;
    } else {
      assert tasks'[..|tasks| - 1] == front[t := task];
      TotalDrops(front, t, task);
    }
  }

  /** Every step brings the tasks nearer to the end. */
  lemma StepDropsTotal(s: State, a: Action)
    requires Inv(s) && Enabled(s, a)
    ensures Total(Step(s, a).tasks) < Total(s.tasks)
  {
    assert TaskOk(s, a.t);
    var s' := Step(s, a);
    assert s'.tasks == s.tasks[a.t := s'.tasks[a.t]];
    TotalDrops(s.tasks, a.t, s'.tasks[a.t]);
  }

  lemma {:induction false} RunIsBounded(calls: seq<seq<string>>, acts: seq<Action>)
    ensures After(calls, acts).Some? ==> |acts| + Total(After(calls, acts).value.tasks) <= Total(Init(calls).tasks)
  {
    if acts != [] {
      var before, last := After(calls, acts[..|acts| - 1]), acts[|acts| - 1];
      RunIsBounded(calls, acts[..|acts| - 1]);
      RunKeepsInv(calls, acts[..|acts| - 1]);
      if before.Some? && Enabled(before.value, last) {
        StepDropsTotal(before.value, last);
      }
    }
  }

  /** Completion: no run is longer than a bound fixed by the calls; a run that can go no further has finished every
      task, and left no entry in the lock's map. */
  lemma EveryRunCompletes(calls: seq<seq<string>>, acts: seq<Action>, s: State)
    requires After(calls, acts) == Some(s)
    ensures |acts| <= Total(Init(calls).tasks)
    ensures (forall a :: !Enabled(s, a)) ==> forall t :: 0 <= t < |s.tasks| ==> s.tasks[t].phase.Finished?
    ensures (forall t :: 0 <= t < |s.tasks| ==> s.tasks[t].phase.Finished?) ==> s.lock.chains == map[]
  {
    RunIsBounded(calls, acts);
    RunKeepsInv(calls, acts);
    if forall a :: !Enabled(s, a) {
      forall t | 0 <= t < |s.tasks| ensures s.tasks[t].phase.Finished? {
        if !s.tasks[t].phase.Finished? {
          var a := DeadlockFree(calls, acts, s, t);
        }
      }
    }
    if forall t :: 0 <= t < |s.tasks| ==> s.tasks[t].phase.Finished? {
      forall e | 0 <= e < |s.lock.sections| ensures s.lock.sections[e].status.Done? {
        assert OwnerOk(s, e);
        assert TaskOk(s, s.owners[e].0) && TicketOk(s, s.owners[e].0, s.owners[e].1);
      }
      L.QuietMeansEmpty(s.lock);
    }
  }
}
