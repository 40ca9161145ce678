/** core/src/middleware/rate-limiter.ts as a state machine over values, and a log that never forgets. */
module RateLimiter {

  /** Maximum events per window, and the window in ms. */
  datatype Limits = Limits(maxAttempts: nat, windowMs: int) {
    predicate Valid() { maxAttempts > 0 && windowMs > 0 }
  }

  /** `timestamps.filter((t) => t > cutoff)` */
  function Active(ts: seq<int>, cutoff: int): (r: seq<int>)
    ensures |r| <= |ts|
  {
    if ts == [] then []
    else Active(ts[..|ts| - 1], cutoff) + if ts[|ts| - 1] > cutoff then [ts[|ts| - 1]] else []
  }

  type Entries = map<string, seq<int>>

  function At(entries: Entries, key: string): seq<int> { if key in entries then entries[key] else [] }

  /** purgeExpiredForKey */
  function PurgedKey(entries: Entries, key: string, cutoff: int): Entries {
    if key !in entries then entries
    else if Active(entries[key], cutoff) == [] then entries - {key}
    else entries[key := Active(entries[key], cutoff)]
  }

  /** purgeExpiredAll */
  function PurgedAll(entries: Entries, cutoff: int): Entries {
    map key | key in entries && Active(entries[key], cutoff) != [] :: Active(entries[key], cutoff)
  }

  /** isAllowed: filter, then record if there is room. */
  function Admit(lim: Limits, entries: Entries, key: string, now: int): (r: (Entries, bool)) {
    var active := Active(At(entries, key), now - lim.windowMs);
    if |active| >= lim.maxAttempts then (entries[key := active], false)
    else (entries[key := active + [now]], true)
  }

  /** The write of `commit`: purge, then record if there is still room. The clock is read for each of the two. */
  function Committed(lim: Limits, entries: Entries, key: string, now: int, later: int): Entries {
    var purged := PurgedKey(entries, key, now - lim.windowMs);
    if |At(purged, key)| >= lim.maxAttempts then purged
    else purged[key := At(purged, key) + [later]]
  }

  /** The write of revokeLastCommit. */
  function Revoked(entries: Entries, key: string): Entries {
    var ts := At(entries, key);
    if ts == [] then entries
    else if |ts| == 1 then entries - {key}
    else entries[key := ts[..|ts| - 1]]
  }

  /** A ticket is what `check` returns: its key, and whether `commit` has run. */
  datatype Ticket = Ticket(key: string, done: bool)

  datatype State = State(entries: Entries, tickets: seq<Ticket>, disposed: bool)

  const INIT := State(map[], [], false)

  /** A commit takes some ms between its two readings of the clock. */
  datatype Op =
    | IsAllowed(key: string)
    | Check(key: string)
    | Commit(ticket: nat, took: nat)
    | Revoke(key: string)
    | Reset(key: string)
    | Remaining(key: string)
    | PurgeKey(key: string)
    | PurgeAll
    | Dispose

  datatype Answer = Silent | Allowed(ok: bool) | Left(count: nat) | Thrown

  /** The last reading of the clock in a call. */
  function End(op: Op, now: int): int { if op.Commit? then now + op.took else now }

  function Capped(n: nat, max: nat): nat { if n >= max then 0 else max - n }

  /** One call at one time. Ticket numbers are handed out by `check` in order; an unknown number is nobody's ticket. */
  function Step(lim: Limits, s: State, op: Op, now: int): (r: (State, Answer)) {
    var cutoff := now - lim.windowMs;
    match op
    case IsAllowed(key) =>
      var (entries, ok) := Admit(lim, s.entries, key, now);
      (s.(entries := entries), Allowed(ok))
    case Check(key) =>
      if s.disposed then (s, Thrown)
      else
        var purged := PurgedKey(s.entries, key, cutoff);
        (s.(entries := purged, tickets := s.tickets + [Ticket(key, false)]), Allowed(|At(purged, key)| < lim.maxAttempts))
    case Commit(k, _) =>
      if k >= |s.tickets| || s.tickets[k].done || s.disposed then (s, Silent)
      else
        var key := s.tickets[k].key;
        (s.(entries := Committed(lim, s.entries, key, now, End(op, now)), tickets := s.tickets[k := Ticket(key, true)]), Silent)
    case Revoke(key) => (if s.disposed then s else s.(entries := Revoked(s.entries, key)), Silent)
    case Reset(key) => (s.(entries := s.entries - {key}), Silent)
    case Remaining(key) => (s, Left(Capped(|Active(At(s.entries, key), cutoff)|, lim.maxAttempts)))
    case PurgeKey(key) => (s.(entries := PurgedKey(s.entries, key, cutoff)), Silent)
    case PurgeAll => (s.(entries := PurgedAll(s.entries, cutoff)), Silent)
    case Dispose => (s.(entries := map[], disposed := true), Silent)
  }

  // ---- The specification: a log of every unrevoked admission since the key's last reset ----

  datatype LogState = LogState(log: Entries, tickets: seq<Ticket>, disposed: bool)

  const LOG_INIT := LogState(map[], [], false)

  /** An admission: appended when fewer than maxAttempts lie in the window. */
  function Logged(lim: Limits, log: Entries, key: string, now: int, later: int): Entries {
    if |Active(At(log, key), now - lim.windowMs)| >= lim.maxAttempts then log
    else log[key := At(log, key) + [later]]
  }

  /** A revocation: the newest admission, if it is still in the window. */
  function Unlogged(log: Entries, key: string, cutoff: int): Entries {
    var ts := At(log, key);
    if ts == [] || ts[|ts| - 1] <= cutoff then log else log[key := ts[..|ts| - 1]]
  }

  /** A call on the log: nothing is ever purged, admissions are appended, and a revocation takes back the newest
      admission if it is still in the window. */
  function LogStep(lim: Limits, l: LogState, op: Op, now: int): (r: (LogState, Answer)) {
    var cutoff := now - lim.windowMs;
    match op
    case IsAllowed(key) =>
      (l.(log := Logged(lim, l.log, key, now, now)), Allowed(|Active(At(l.log, key), cutoff)| < lim.maxAttempts))
    case Check(key) =>
      if l.disposed then (l, Thrown)
      else (l.(tickets := l.tickets + [Ticket(key, false)]), Allowed(|Active(At(l.log, key), cutoff)| < lim.maxAttempts))
    case Commit(k, _) =>
      if k >= |l.tickets| || l.tickets[k].done || l.disposed then (l, Silent)
      else
        var key := l.tickets[k].key;
        (l.(log := Logged(lim, l.log, key, now, End(op, now)), tickets := l.tickets[k := Ticket(key, true)]), Silent)
    case Revoke(key) => (if l.disposed then l else l.(log := Unlogged(l.log, key, cutoff)), Silent)
    case Reset(key) => (l.(log := l.log[key := []]), Silent)
    case Remaining(key) => (l, Left(Capped(|Active(At(l.log, key), cutoff)|, lim.maxAttempts)))
    case PurgeKey(_) => (l, Silent)
    case PurgeAll => (l, Silent)
    case Dispose => (l.(log := map[], disposed := true), Silent)
  }

  // ---- Facts about filtering ----

  ghost predicate Ascending(ts: seq<int>) { forall i, j :: 0 <= i <= j < |ts| ==> ts[i] <= ts[j] }

  ghost predicate UpTo(ts: seq<int>, now: int) { forall i :: 0 <= i < |ts| ==> ts[i] <= now }

  lemma {:induction false} ActiveTwice(ts: seq<int>, c: int, d: int)
    requires c <= d
    ensures Active(Active(ts, c), d) == Active(ts, d)
  {
    if ts != [] {
      var front, last := ts[..|ts| - 1], ts[|ts| - 1];
      ActiveTwice(front, c, d);
      if last > c {
        assert Active(ts, c)[..|Active(ts, c)| - 1] == Active(front, c);
      } else {
        assert Active(ts, c) == Active(front, c) && Active(ts, d) == Active(front, d);
      }
    }
  }

  lemma AscendingPushed(ts: seq<int>, now: int)
    requires Ascending(ts) && UpTo(ts, now)
    ensures Ascending(ts + [now]) && UpTo(ts + [now], now)
  {
  }

  lemma AscendingFront(ts: seq<int>, now: int)
    requires ts != [] && Ascending(ts) && UpTo(ts, now)
    ensures Ascending(ts[..|ts| - 1]) && UpTo(ts[..|ts| - 1], ts[|ts| - 1]) && UpTo(ts, ts[|ts| - 1]) && ts[|ts| - 1] <= now
  {
  }

  lemma UpToLater(ts: seq<int>, t: int, now: int)
    requires UpTo(ts, t) && t <= now
    ensures UpTo(ts, now)
  {
  }

  lemma {:induction false} NoneActive(ts: seq<int>, c: int)
    requires UpTo(ts, c)
    ensures Active(ts, c) == []
  {
    if ts != [] {
      NoneActive(ts[..|ts| - 1], c);
    }
  }

  /** Filtering keeps the order, and an old newest entry means that nothing is left. */
  lemma {:induction false} ActiveKeeps(ts: seq<int>, c: int, now: int)
    requires Ascending(ts) && UpTo(ts, now)
    ensures Ascending(Active(ts, c)) && UpTo(Active(ts, c), now)
    ensures ts != [] && ts[|ts| - 1] <= c ==> Active(ts, c) == []
    decreases |ts|
  {
    if ts != [] {
      var front, last := ts[..|ts| - 1], ts[|ts| - 1];
      AscendingFront(ts, now);
      ActiveKeeps(front, c, last);
      hide Ascending, UpTo;
      AscendingPushed(Active(front, c), last);
      UpToLater(Active(ts, c), last, now);
      if last <= c {
        UpToLater(ts, last, c);
        NoneActive(ts, c);
      }
    }
  }

  /** In an ascending log the entries of the window are a suffix. */
  lemma {:induction false} ActiveIsSuffix(ts: seq<int>, c: int, now: int)
    requires Ascending(ts) && UpTo(ts, now)
    ensures forall i :: 0 <= i < |ts| - |Active(ts, c)| ==> ts[i] <= c
    decreases |ts|
  {
    if ts != [] {
      var front, last := ts[..|ts| - 1], ts[|ts| - 1];
      ActiveIsSuffix(front, c, last);
      if last <= c {
        ActiveKeeps(ts, c, now);
      }
    }
  }

  // ---- Refinement ----

  /** A key's entries and its log look the same from now on. */
  ghost predicate SameWindow(ts: seq<int>, log: seq<int>, windowMs: int, now: int) {
    && Ascending(ts) && UpTo(ts, now) && Ascending(log) && UpTo(log, now)
    && Active(ts, now - windowMs) == Active(log, now - windowMs)
  }

  ghost predicate SameWindows(lim: Limits, entries: Entries, log: Entries, now: int) {
    forall key :: SameWindow(At(entries, key), At(log, key), lim.windowMs, now)
  }

  ghost predicate Agrees(lim: Limits, s: State, l: LogState, now: int) {
    s.tickets == l.tickets && s.disposed == l.disposed && SameWindows(lim, s.entries, l.log, now)
  }

  lemma SameWindowLater(ts: seq<int>, log: seq<int>, w: int, t: int, now: int)
    requires SameWindow(ts, log, w, t) && t <= now
    ensures SameWindow(ts, log, w, now)
  {
    hide Active, Ascending, UpTo;
    ActiveTwice(ts, t - w, now - w);
    ActiveTwice(log, t - w, now - w);
    UpToLater(ts, t, now);
    UpToLater(log, t, now);
  }

  lemma SameWindowPurged(ts: seq<int>, log: seq<int>, w: int, now: int)
    requires SameWindow(ts, log, w, now)
    ensures SameWindow(Active(ts, now - w), log, w, now)
  {
    ActiveTwice(ts, now - w, now - w);
    ActiveKeeps(ts, now - w, now);
    hide Active, Ascending, UpTo;
  }

  lemma ActivePushed(ts: seq<int>, x: int, c: int)
    ensures Active(ts + [x], c) == Active(ts, c) + if x > c then [x] else []
  {
    assert (ts + [x])[..|ts|] == ts;
  }

  lemma SameWindowPushed(ts: seq<int>, log: seq<int>, w: int, now: int)
    requires SameWindow(ts, log, w, now)
    ensures SameWindow(ts + [now], log + [now], w, now)
  {
    hide Active, Ascending, UpTo;
    ActivePushed(ts, now, now - w);
    ActivePushed(log, now, now - w);
    AscendingPushed(ts, now);
    AscendingPushed(log, now);
  }

  /** Without its newest entry, the window loses exactly that entry, or is empty before and after. */
  lemma ActivePopped(ts: seq<int>, c: int, now: int)
    requires ts != [] && Ascending(ts) && UpTo(ts, now)
    ensures Ascending(ts[..|ts| - 1]) && UpTo(ts[..|ts| - 1], now)
    ensures ts[|ts| - 1] > c ==> Active(ts, c) != [] && Active(ts[..|ts| - 1], c) == Active(ts, c)[..|Active(ts, c)| - 1]
    ensures ts[|ts| - 1] <= c ==> Active(ts, c) == [] && Active(ts[..|ts| - 1], c) == []
  {
    ActiveKeeps(ts, c, now);
  }

  /** Taking back the newest entry: if it is in the window, it is the newest of the log too; if not, the window is empty. */
  lemma SameWindowPopped(ts: seq<int>, log: seq<int>, w: int, now: int)
    requires SameWindow(ts, log, w, now)
    ensures ts != [] && log != [] && log[|log| - 1] > now - w ==> SameWindow(ts[..|ts| - 1], log[..|log| - 1], w, now)
    ensures ts != [] && (log == [] || log[|log| - 1] <= now - w) ==> SameWindow(ts[..|ts| - 1], log, w, now)
    ensures ts == [] ==> log == [] || log[|log| - 1] <= now - w
  {
    hide Ascending, UpTo, Active;
    if ts != [] {
      ActivePopped(ts, now - w, now);
    }
    if log != [] {
      ActivePopped(log, now - w, now);
    }
  }

  lemma SameWindowsLater(lim: Limits, entries: Entries, log: Entries, t: int, now: int)
    requires SameWindows(lim, entries, log, t) && t <= now
    ensures SameWindows(lim, entries, log, now)
  {
    hide SameWindow;
    forall key ensures SameWindow(At(entries, key), At(log, key), lim.windowMs, now) {
      SameWindowLater(At(entries, key), At(log, key), lim.windowMs, t, now);
    }
  }

  lemma AgreesLater(lim: Limits, s: State, l: LogState, t: int, now: int)
    requires Agrees(lim, s, l, t) && t <= now
    ensures Agrees(lim, s, l, now)
  {
    hide SameWindows;
    SameWindowsLater(lim, s.entries, l.log, t, now);
  }

  lemma PurgedKeyAt(entries: Entries, key: string, cutoff: int, k: string)
    ensures At(PurgedKey(entries, key, cutoff), k) == if k == key then Active(At(entries, key), cutoff) else At(entries, k)
  {
  }

  lemma PurgedKeyAgrees(lim: Limits, entries: Entries, log: Entries, key: string, now: int)
    requires SameWindows(lim, entries, log, now)
    ensures SameWindows(lim, PurgedKey(entries, key, now - lim.windowMs), log, now)
  {
    hide SameWindow, Active, PurgedKey;
    forall k
      ensures SameWindow(At(PurgedKey(entries, key, now - lim.windowMs), k), At(log, k), lim.windowMs, now)
    {
      PurgedKeyAt(entries, key, now - lim.windowMs, k);
      SameWindowPurged(At(entries, k), At(log, k), lim.windowMs, now);
    }
  }

  lemma PurgedAllAgrees(lim: Limits, entries: Entries, log: Entries, now: int)
    requires SameWindows(lim, entries, log, now)
    ensures SameWindows(lim, PurgedAll(entries, now - lim.windowMs), log, now)
  {
    hide SameWindow, Active;
    forall k
      ensures SameWindow(At(PurgedAll(entries, now - lim.windowMs), k), At(log, k), lim.windowMs, now)
    {
      SameWindowPurged(At(entries, k), At(log, k), lim.windowMs, now);
    }
  }

  /** One key changes on both sides. */
  lemma OneKeyAgrees(lim: Limits, entries: Entries, log: Entries, key: string, entries': Entries, log': Entries, now: int)
    requires SameWindows(lim, entries, log, now)
    requires forall k :: k != key ==> At(entries', k) == At(entries, k) && At(log', k) == At(log, k)
    requires SameWindow(At(entries', key), At(log', key), lim.windowMs, now)
    ensures SameWindows(lim, entries', log', now)
  {
    hide SameWindow;
    forall k
      ensures SameWindow(At(entries', k), At(log', k), lim.windowMs, now)
    {
      assert SameWindow(At(entries, k), At(log, k), lim.windowMs, now);
    }
  }

  lemma WindowsEqual(lim: Limits, entries: Entries, log: Entries, key: string, now: int)
    requires SameWindows(lim, entries, log, now)
    ensures Active(At(entries, key), now - lim.windowMs) == Active(At(log, key), now - lim.windowMs)
  {
    assert SameWindow(At(entries, key), At(log, key), lim.windowMs, now);
  }

  lemma WindowAt(lim: Limits, entries: Entries, log: Entries, key: string, now: int)
    requires SameWindows(lim, entries, log, now)
    ensures SameWindow(At(entries, key), At(log, key), lim.windowMs, now)
  {
  }

  lemma PutAgrees(lim: Limits, entries: Entries, log: Entries, key: string, ts: seq<int>, ls: seq<int>, now: int)
    requires SameWindows(lim, entries, log, now) && SameWindow(ts, ls, lim.windowMs, now)
    ensures SameWindows(lim, entries[key := ts], log[key := ls], now)
    ensures ls == At(log, key) ==> SameWindows(lim, entries[key := ts], log, now)
  {
    hide SameWindow;
    OneKeyAgrees(lim, entries, log, key, entries[key := ts], log[key := ls], now);
    if ls == At(log, key) {
      OneKeyAgrees(lim, entries, log, key, entries[key := ts], log, now);
    }
  }

  lemma AdmitAgrees(lim: Limits, entries: Entries, log: Entries, key: string, now: int)
    requires SameWindows(lim, entries, log, now)
    ensures SameWindows(lim, Admit(lim, entries, key, now).0, Logged(lim, log, key, now, now), now)
    ensures Admit(lim, entries, key, now).1 <==> |Active(At(log, key), now - lim.windowMs)| < lim.maxAttempts
  {
    hide SameWindow, SameWindows, Active;
    WindowsEqual(lim, entries, log, key, now);
    WindowAt(lim, entries, log, key, now);
    var active, ls := Active(At(entries, key), now - lim.windowMs), At(log, key);
    SameWindowPurged(At(entries, key), ls, lim.windowMs, now);
    SameWindowPushed(active, ls, lim.windowMs, now);
    PutAgrees(lim, entries, log, key, active, ls, now);
    PutAgrees(lim, entries, log, key, active + [now], ls + [now], now);
  }

  /** After a purge of the key, its entries are exactly the window of its log. */
  lemma PurgedIsWindow(lim: Limits, entries: Entries, log: Entries, key: string, now: int)
    requires SameWindows(lim, entries, log, now)
    ensures SameWindows(lim, PurgedKey(entries, key, now - lim.windowMs), log, now)
    ensures At(PurgedKey(entries, key, now - lim.windowMs), key) == Active(At(log, key), now - lim.windowMs)
  {
    PurgedKeyAgrees(lim, entries, log, key, now);
    PurgedKeyAt(entries, key, now - lim.windowMs, key);
    WindowsEqual(lim, entries, log, key, now);
  }

  lemma CommitAgrees(lim: Limits, entries: Entries, log: Entries, key: string, now: int, later: int)
    requires SameWindows(lim, entries, log, now) && now <= later
    ensures SameWindows(lim, Committed(lim, entries, key, now, later), Logged(lim, log, key, now, later), later)
  {
    hide SameWindow, SameWindows, Active, PurgedKey;
    PurgedIsWindow(lim, entries, log, key, now);
    var purged := PurgedKey(entries, key, now - lim.windowMs);
    SameWindowsLater(lim, purged, log, now, later);
    WindowAt(lim, purged, log, key, later);
    SameWindowPushed(At(purged, key), At(log, key), lim.windowMs, later);
    PutAgrees(lim, purged, log, key, At(purged, key) + [later], At(log, key) + [later], later);
  }

  lemma RevokeAgrees(lim: Limits, entries: Entries, log: Entries, key: string, now: int)
    requires SameWindows(lim, entries, log, now)
    ensures SameWindows(lim, Revoked(entries, key), Unlogged(log, key, now - lim.windowMs), now)
  {
    hide SameWindow;
    assert SameWindow(At(entries, key), At(log, key), lim.windowMs, now);
    SameWindowPopped(At(entries, key), At(log, key), lim.windowMs, now);
    OneKeyAgrees(lim, entries, log, key, Revoked(entries, key), Unlogged(log, key, now - lim.windowMs), now);
  }

  lemma ClearedAgrees(lim: Limits, entries: Entries, log: Entries, key: string, now: int)
    requires SameWindows(lim, entries, log, now)
    ensures SameWindows(lim, entries - {key}, log[key := []], now)
    ensures SameWindows(lim, map[], map[], now)
  {
    OneKeyAgrees(lim, entries, log, key, entries - {key}, log[key := []], now);
  }

  /** The lossy limiter refines the log: every call at a later time gets the same answer and keeps the agreement. */
  lemma StepRefines(lim: Limits, s: State, l: LogState, op: Op, t: int, now: int)
    requires Agrees(lim, s, l, t) && t <= now
    ensures Step(lim, s, op, now).1 == LogStep(lim, l, op, now).1
    ensures Agrees(lim, Step(lim, s, op, now).0, LogStep(lim, l, op, now).0, End(op, now))
  {
    hide SameWindow, SameWindows, Active, PurgedKey, PurgedAll, Admit, Committed, Revoked, Logged, Unlogged;
    AgreesLater(lim, s, l, t, now);
    match op
    case IsAllowed(key) =>
      AdmitAgrees(lim, s.entries, l.log, key, now);
    case Check(key) =>
      PurgedIsWindow(lim, s.entries, l.log, key, now);
    case Commit(k, took) =>
      AgreesLater(lim, s, l, now, now + took);
      if k < |s.tickets| {
        CommitAgrees(lim, s.entries, l.log, s.tickets[k].key, now, now + took);
      }
    case Revoke(key) =>
      RevokeAgrees(lim, s.entries, l.log, key, now);
    case Reset(key) =>
      ClearedAgrees(lim, s.entries, l.log, key, now);
    case Remaining(key) =>
      WindowsEqual(lim, s.entries, l.log, key, now);
    case PurgeKey(key) =>
      PurgedKeyAgrees(lim, s.entries, l.log, key, now);
    case PurgeAll =>
      PurgedAllAgrees(lim, s.entries, l.log, now);
    case Dispose =>
      ClearedAgrees(lim, s.entries, l.log, "", now);
  }

  // ---- Runs ----

  datatype Event = Event(op: Op, time: int)

  function EndOf(e: Event): int { End(e.op, e.time) }

  /** The clock never goes back, and calls do not overlap. */
  ghost predicate Ordered(trace: seq<Event>) {
    forall i, j :: 0 <= i < j < |trace| ==> EndOf(trace[i]) <= trace[j].time
  }

  function Run(lim: Limits, trace: seq<Event>): State {
    if trace == [] then INIT
    else Step(lim, Run(lim, trace[..|trace| - 1]), trace[|trace| - 1].op, trace[|trace| - 1].time).0
  }

  function LogRun(lim: Limits, trace: seq<Event>): LogState {
    if trace == [] then LOG_INIT
    else LogStep(lim, LogRun(lim, trace[..|trace| - 1]), trace[|trace| - 1].op, trace[|trace| - 1].time).0
  }

  predicate IsPurge(op: Op) { op.PurgeKey? || op.PurgeAll? }

  /** What the callers see: the answer of every call that is not a purge. */
  function Answers(lim: Limits, trace: seq<Event>): seq<Answer> {
    if trace == [] then []
    else
      var front, last := trace[..|trace| - 1], trace[|trace| - 1];
      Answers(lim, front) + if IsPurge(last.op) then [] else [Step(lim, Run(lim, front), last.op, last.time).1]
  }

  function LogAnswers(lim: Limits, trace: seq<Event>): seq<Answer> {
    if trace == [] then []
    else
      var front, last := trace[..|trace| - 1], trace[|trace| - 1];
      LogAnswers(lim, front) + if IsPurge(last.op) then [] else [LogStep(lim, LogRun(lim, front), last.op, last.time).1]
  }

  function LastTime(trace: seq<Event>): int { if trace == [] then 0 else EndOf(trace[|trace| - 1]) }

  lemma InitAgrees(lim: Limits, now: int)
    ensures Agrees(lim, INIT, LOG_INIT, now)
  {
  }

  /** Refinement over whole runs. */
  lemma {:induction false} RunRefinesLog(lim: Limits, trace: seq<Event>)
    requires Ordered(trace)
    ensures Agrees(lim, Run(lim, trace), LogRun(lim, trace), LastTime(trace))
    ensures Answers(lim, trace) == LogAnswers(lim, trace)
  {
    if trace == [] {
      InitAgrees(lim, 0);
    } else {
      var front, last := trace[..|trace| - 1], trace[|trace| - 1];
      RunRefinesLog(lim, front);
      var t := if front == [] then last.time else LastTime(front);
      if front == [] {
        InitAgrees(lim, t);
      }
      StepRefines(lim, Run(lim, front), LogRun(lim, front), last.op, t, last.time);
    }
  }

  function WithoutPurges(trace: seq<Event>): seq<Event> {
    if trace == [] then []
    else
      WithoutPurges(trace[..|trace| - 1])
      + if IsPurge(trace[|trace| - 1].op) then [] else [trace[|trace| - 1]]
  }

  lemma PurgeIsIdle(lim: Limits, l: LogState, op: Op, now: int)
    requires IsPurge(op)
    ensures LogStep(lim, l, op, now).0 == l
  {
  }

  lemma {:induction false} LogIgnoresPurges(lim: Limits, trace: seq<Event>)
    ensures LogRun(lim, WithoutPurges(trace)) == LogRun(lim, trace)
    ensures LogAnswers(lim, WithoutPurges(trace)) == LogAnswers(lim, trace)
  {
    hide LogStep, IsPurge;
    if trace != [] {
      var front, last := trace[..|trace| - 1], trace[|trace| - 1];
      LogIgnoresPurges(lim, front);
      var kept := WithoutPurges(front);
      if IsPurge(last.op) {
        PurgeIsIdle(lim, LogRun(lim, front), last.op, last.time);
        assert WithoutPurges(trace) == kept;
      } else {
        assert (kept + [last])[..|kept|] == kept;
      }
    }
  }

  /** Purging is unobservable: two runs that differ only in their purges give their callers the same answers. */
  lemma PurgesAreUnobservable(lim: Limits, x: seq<Event>, y: seq<Event>)
    requires Ordered(x) && Ordered(y) && WithoutPurges(x) == WithoutPurges(y)
    ensures Answers(lim, x) == Answers(lim, y)
  {
    RunRefinesLog(lim, x);
    RunRefinesLog(lim, y);
    LogIgnoresPurges(lim, x);
    LogIgnoresPurges(lim, y);
  }

  lemma {:induction false} WithoutPurgesJoin(x: seq<Event>, y: seq<Event>)
    ensures WithoutPurges(x + y) == WithoutPurges(x) + WithoutPurges(y)
    decreases |y|
  {
    if y == [] {
      assert x + y == x;
    } else {
      assert (x + y)[..|x + y| - 1] == x + y[..|y| - 1];
      WithoutPurgesJoin(x, y[..|y| - 1]);
    }
  }

  /** Inserting a purge anywhere in a run changes no answer. */
  lemma InsertedPurgeIsUnobservable(lim: Limits, x: seq<Event>, purge: Event, y: seq<Event>)
    requires IsPurge(purge.op) && Ordered(x + [purge] + y)
    ensures Answers(lim, x + [purge] + y) == Answers(lim, x + y)
  {
    WithoutPurgesJoin(x, y);
    WithoutPurgesJoin(x, [purge]);
    WithoutPurgesJoin(x + [purge], y);
    assert [purge][..0] == [];
    assert WithoutPurges(x + [purge]) == WithoutPurges(x);
    var all, rest := x + [purge] + y, x + y;
    forall i, j | 0 <= i < j < |rest|
      ensures EndOf(rest[i]) <= rest[j].time
    {
      var i', j' := if i < |x| then i else i + 1, if j < |x| then j else j + 1;
      assert rest[i] == all[i'] && rest[j] == all[j'];
    }
    PurgesAreUnobservable(lim, all, rest);
  }

  lemma {:induction false} ActiveCounts(ts: seq<int>, cutoff: int, now: int)
    requires UpTo(ts, now)
    ensures |Active(ts, cutoff)| == CountIn(ts, cutoff, now)
  {
    if ts != [] {
      ActiveCounts(ts[..|ts| - 1], cutoff, now);
    }
  }

  lemma LogIsUpTo(lim: Limits, entries: Entries, log: Entries, key: string, now: int)
    requires SameWindows(lim, entries, log, now)
    ensures UpTo(At(log, key), now)
  {
    WindowAt(lim, entries, log, key, now);
  }

  /** isAllowed, getRemainingAttempts and check agree on every reachable state: a call is let through exactly when fewer than
      maxAttempts logged admissions lie in the window (now - windowMs, now], and the remaining ones fill up the maximum. */
  lemma AnswersCountTheLog(lim: Limits, trace: seq<Event>, key: string, now: int)
    requires Ordered(trace) && (trace != [] ==> LastTime(trace) <= now)
    ensures var s, n := Run(lim, trace), CountIn(At(LogRun(lim, trace).log, key), now - lim.windowMs, now);
            && Step(lim, s, IsAllowed(key), now).1 == Allowed(n < lim.maxAttempts)
            && (n <= lim.maxAttempts ==> Step(lim, s, Remaining(key), now).1 == Left(lim.maxAttempts - n))
            && (n > lim.maxAttempts ==> Step(lim, s, Remaining(key), now).1 == Left(0))
            && (!s.disposed ==> Step(lim, s, Check(key), now).1 == Allowed(n < lim.maxAttempts))
  {
    hide SameWindows, Step, LogStep, Ordered, Active, PurgedKey, CountIn, UpTo;
    RunRefinesLog(lim, trace);
    var t := if trace == [] then now else LastTime(trace);
    if trace == [] {
      InitAgrees(lim, now);
    }
    StepRefines(lim, Run(lim, trace), LogRun(lim, trace), IsAllowed(key), t, now);
    StepRefines(lim, Run(lim, trace), LogRun(lim, trace), Remaining(key), t, now);
    StepRefines(lim, Run(lim, trace), LogRun(lim, trace), Check(key), t, now);
    AgreesLater(lim, Run(lim, trace), LogRun(lim, trace), t, now);
    LogIsUpTo(lim, Run(lim, trace).entries, LogRun(lim, trace).log, key, now);
    ActiveCounts(At(LogRun(lim, trace).log, key), now - lim.windowMs, now);
    AnswersOf(lim, LogRun(lim, trace), key, now);
  }

  lemma AnswersOf(lim: Limits, l: LogState, key: string, now: int)
    ensures var n := |Active(At(l.log, key), now - lim.windowMs)|;
            && LogStep(lim, l, IsAllowed(key), now).1 == Allowed(n < lim.maxAttempts)
            && LogStep(lim, l, Remaining(key), now).1 == Left(if n <= lim.maxAttempts then lim.maxAttempts - n else 0)
            && (!l.disposed ==> LogStep(lim, l, Check(key), now).1 == Allowed(n < lim.maxAttempts))
  {
  }

  // ---- The cap ----

  /** Any maxAttempts + 1 admissions in a row span at least the window. */
  ghost predicate Spaced(lim: Limits, ts: seq<int>) {
    Ascending(ts) && forall i, j :: 0 <= i && j == i + lim.maxAttempts && j < |ts| ==> ts[j] - ts[i] >= lim.windowMs
  }

  ghost predicate AllSpaced(lim: Limits, log: Entries, now: int) {
    forall key :: Spaced(lim, At(log, key)) && UpTo(At(log, key), now)
  }

  lemma AdmitKeepsSpacing(lim: Limits, ts: seq<int>, now: int)
    requires lim.Valid() && Spaced(lim, ts) && UpTo(ts, now) && |Active(ts, now - lim.windowMs)| < lim.maxAttempts
    ensures Spaced(lim, ts + [now]) && UpTo(ts + [now], now)
  {
    ActiveIsSuffix(ts, now - lim.windowMs, now);
  }

  lemma SpacingFacts(lim: Limits, ts: seq<int>, t: int, now: int)
    requires Spaced(lim, ts) && UpTo(ts, t) && t <= now
    ensures UpTo(ts, now) && Spaced(lim, []) && UpTo([], now)
    ensures ts != [] ==> Spaced(lim, ts[..|ts| - 1]) && UpTo(ts[..|ts| - 1], now)
  {
  }

  lemma LogStepKeepsSpacing(lim: Limits, l: LogState, op: Op, t: int, now: int)
    requires lim.Valid() && AllSpaced(lim, l.log, t) && t <= now
    ensures AllSpaced(lim, LogStep(lim, l, op, now).0.log, End(op, now))
  {
    hide Spaced, UpTo, Active;
    var l', end := LogStep(lim, l, op, now).0, End(op, now);
    forall key
      ensures Spaced(lim, At(l'.log, key)) && UpTo(At(l'.log, key), end)
    {
      var ts := At(l.log, key);
      assert Spaced(lim, ts) && UpTo(ts, t);
      SpacingFacts(lim, ts, t, end);
      if |Active(ts, now - lim.windowMs)| < lim.maxAttempts {
        ActiveTwice(ts, now - lim.windowMs, end - lim.windowMs);
        AdmitKeepsSpacing(lim, ts, end);
      }
    }
  }

  /** Number of entries in the window (from, end]. */
  function CountIn(ts: seq<int>, from: int, end: int): (n: nat)
    ensures n <= |ts|
  {
    if ts == [] then 0
    else CountIn(ts[..|ts| - 1], from, end) + if from < ts[|ts| - 1] <= end then 1 else 0
  }

  lemma {:induction false} CountSkips(ts: seq<int>, from: int, end: int, k: nat)
    requires k <= |ts| && forall i :: 0 <= i < k ==> ts[i] <= from
    ensures CountIn(ts, from, end) <= |ts| - k
    decreases |ts|
  {
    if k < |ts| {
      CountSkips(ts[..|ts| - 1], from, end, k);
    } else if ts != [] {
      CountSkips(ts[..|ts| - 1], from, end, k - 1);
    }
  }

  lemma {:induction false} SpacedMeansCapped(lim: Limits, ts: seq<int>, from: int)
    requires lim.Valid() && Spaced(lim, ts)
    ensures CountIn(ts, from, from + lim.windowMs) <= lim.maxAttempts
    decreases |ts|
  {
    if |ts| > lim.maxAttempts {
      var last := ts[|ts| - 1];
      if last > from + lim.windowMs {
        SpacedMeansCapped(lim, ts[..|ts| - 1], from);
      } else {
        var k := |ts| - lim.maxAttempts;
        assert ts[|ts| - 1] - ts[k - 1] >= lim.windowMs;
        assert forall i :: 0 <= i < k ==> ts[i] <= ts[k - 1];
        CountSkips(ts, from, from + lim.windowMs, k);
      }
    }
  }

  // ---- The admissions that the limiter itself makes ----

  /** The call left the key with one entry more than its window held. */
  predicate Grew(lim: Limits, before: Entries, after: Entries, key: string, now: int) {
    |At(after, key)| > |Active(At(before, key), now - lim.windowMs)|
  }

  function DropLast(ts: seq<int>): seq<int> { if ts == [] then [] else ts[..|ts| - 1] }

  /** The unrevoked admissions since each key's last reset, or since the limiter was disposed of, kept beside the limiter: what
      a call is seen to add to or pop from its entries is added or popped here, and what it purges stays. */
  function Remember(lim: Limits, s: State, h: Entries, op: Op, now: int): Entries {
    var s' := Step(lim, s, op, now).0;
    match op
    case IsAllowed(key) => if Grew(lim, s.entries, s'.entries, key, now) then h[key := At(h, key) + [now]] else h
    case Commit(k, took) =>
      if k < |s.tickets| && s'.tickets != s.tickets && Grew(lim, s.entries, s'.entries, s.tickets[k].key, now)
      then h[s.tickets[k].key := At(h, s.tickets[k].key) + [now + took]] else h
    case Revoke(key) => if |At(s'.entries, key)| < |At(s.entries, key)| then h[key := DropLast(At(h, key))] else h
    case Reset(key) => h[key := []]
    case Dispose => map[]
    case _ => h
  }

  function History(lim: Limits, trace: seq<Event>): Entries {
    if trace == [] then map[]
    else
      var front, last := trace[..|trace| - 1], trace[|trace| - 1];
      Remember(lim, Run(lim, front), History(lim, front), last.op, last.time)
  }

  ghost predicate Remembers(lim: Limits, s: State, h: Entries, now: int) {
    SameWindows(lim, s.entries, h, now) && AllSpaced(lim, h, now)
  }

  lemma RecordedAsLogged(lim: Limits, s: State, h: Entries, op: Op, now: int)
    requires SameWindows(lim, s.entries, h, now) && !op.Revoke?
    ensures Remember(lim, s, h, op, now) == LogStep(lim, LogState(h, s.tickets, s.disposed), op, now).0.log
  {
    hide SameWindows, Active;
    match op
    case IsAllowed(key) =>
      WindowsEqual(lim, s.entries, h, key, now);
    case Commit(k, _) =>
      if k < |s.tickets| {
        PurgedIsWindow(lim, s.entries, h, s.tickets[k].key, now);
        WindowsEqual(lim, s.entries, h, s.tickets[k].key, now);
      }
    case _ =>
  }

  lemma PoppedBoth(lim: Limits, ts: seq<int>, hs: seq<int>, now: int)
    requires SameWindow(ts, hs, lim.windowMs, now) && ts != []
    ensures SameWindow(ts[..|ts| - 1], DropLast(hs), lim.windowMs, now)
  {
    hide Ascending, UpTo, Active;
    ActivePopped(ts, now - lim.windowMs, now);
    if hs != [] {
      ActivePopped(hs, now - lim.windowMs, now);
    }
  }

  lemma RevokeIsRemembered(lim: Limits, s: State, h: Entries, key: string, now: int)
    requires Remembers(lim, s, h, now)
    ensures Remembers(lim, Step(lim, s, Revoke(key), now).0, Remember(lim, s, h, Revoke(key), now), now)
  {
    hide SameWindow, Spaced, UpTo;
    var s', h' := Step(lim, s, Revoke(key), now).0, Remember(lim, s, h, Revoke(key), now);
    var ts, hs := At(s.entries, key), At(h, key);
    assert SameWindow(ts, hs, lim.windowMs, now) && Spaced(lim, hs) && UpTo(hs, now);
    SpacingFacts(lim, hs, now, now);
    if |At(s'.entries, key)| < |ts| {
      PoppedBoth(lim, ts, hs, now);
      OneKeyAgrees(lim, s.entries, h, key, s'.entries, h', now);
      forall k ensures Spaced(lim, At(h', k)) && UpTo(At(h', k), now) {
        assert Spaced(lim, At(h, k)) && UpTo(At(h, k), now);
      }
    }
  }

  lemma SpacingLater(lim: Limits, h: Entries, t: int, now: int)
    requires AllSpaced(lim, h, t) && t <= now
    ensures AllSpaced(lim, h, now)
  {
    forall k ensures Spaced(lim, At(h, k)) && UpTo(At(h, k), now) {
      SpacingFacts(lim, At(h, k), t, now);
    }
  }

  lemma StepIsRemembered(lim: Limits, s: State, h: Entries, op: Op, t: int, now: int)
    requires lim.Valid() && Remembers(lim, s, h, t) && t <= now
    ensures Remembers(lim, Step(lim, s, op, now).0, Remember(lim, s, h, op, now), End(op, now))
  {
    hide SameWindows, AllSpaced, Step, LogStep, Remember;
    var l := LogState(h, s.tickets, s.disposed);
    AgreesLater(lim, s, l, t, now);
    SpacingLater(lim, h, t, now);
    if op.Revoke? {
      RevokeIsRemembered(lim, s, h, op.key, now);
    } else {
      RecordedAsLogged(lim, s, h, op, now);
      StepRefines(lim, s, l, op, now, now);
      LogStepKeepsSpacing(lim, l, op, now, now);
    }
  }

  lemma NothingRemembered(lim: Limits, now: int)
    ensures Remembers(lim, INIT, map[], now)
  {
  }

  lemma {:induction false} RunIsRemembered(lim: Limits, trace: seq<Event>)
    requires lim.Valid() && Ordered(trace)
    ensures Remembers(lim, Run(lim, trace), History(lim, trace), LastTime(trace))
  {
    hide Remembers, Step, Remember;
    if trace == [] {
      NothingRemembered(lim, 0);
    } else {
      var front, last := trace[..|trace| - 1], trace[|trace| - 1];
      RunIsRemembered(lim, front);
      NothingRemembered(lim, last.time);
      StepIsRemembered(lim, Run(lim, front), History(lim, front), last.op, if front == [] then last.time else LastTime(front), last.time);
    }
  }

  ghost predicate IsSuffix(ts: seq<int>, hs: seq<int>) { |ts| <= |hs| && ts == hs[|hs| - |ts|..] }

  lemma {:induction false} ActiveIsNewest(ts: seq<int>, c: int, now: int)
    requires Ascending(ts) && UpTo(ts, now)
    ensures IsSuffix(Active(ts, c), ts)
    decreases |ts|
  {
    if ts != [] {
      var front, last := ts[..|ts| - 1], ts[|ts| - 1];
      AscendingFront(ts, now);
      if last <= c {
        ActiveKeeps(ts, c, now);
      } else {
        hide Ascending, UpTo;
        ActiveIsNewest(front, c, last);
        assert Active(ts, c) == ts[|ts| - |Active(ts, c)|..];
      }
    }
  }

  lemma SuffixFacts(ts: seq<int>, hs: seq<int>, c: int, now: int, later: int)
    requires IsSuffix(ts, hs) && Ascending(ts) && UpTo(ts, now)
    ensures IsSuffix(Active(ts, c), hs) && IsSuffix(Active(ts, c) + [later], hs + [later])
    ensures ts != [] ==> IsSuffix(ts[..|ts| - 1], DropLast(hs)) && hs != [] && hs[|hs| - 1] == ts[|ts| - 1]
  {
    ActiveIsNewest(ts, c, now);
  }

  /** The entries of every key are the newest of its history. */
  ghost predicate AreNewest(entries: Entries, h: Entries) { forall key :: IsSuffix(At(entries, key), At(h, key)) }

  /** What a call can do to the entries and the history of a key: leave them, purge, purge and record, pop, or clear. */
  predicate Follows(ts: seq<int>, hs: seq<int>, ts': seq<int>, hs': seq<int>, cutoff: int, end: int) {
    || (hs' == hs && (ts' == ts || ts' == Active(ts, cutoff)))
    || (ts' == Active(ts, cutoff) + [end] && hs' == hs + [end])
    || (ts != [] && ts' == ts[..|ts| - 1] && hs' == DropLast(hs))
    || ts' == []
  }

  lemma CommitFollows(lim: Limits, s: State, h: Entries, k: nat, took: nat, now: int, key: string)
    ensures var (s', h') := (Step(lim, s, Commit(k, took), now).0, Remember(lim, s, h, Commit(k, took), now));
            Follows(At(s.entries, key), At(h, key), At(s'.entries, key), At(h', key), now - lim.windowMs, now + took)
  {
    hide Active, PurgedKey;
    if k < |s.tickets| {
      PurgedKeyAt(s.entries, s.tickets[k].key, now - lim.windowMs, key);
    }
  }

  lemma StepFollows(lim: Limits, s: State, h: Entries, op: Op, now: int, key: string)
    ensures var (s', h') := (Step(lim, s, op, now).0, Remember(lim, s, h, op, now));
            Follows(At(s.entries, key), At(h, key), At(s'.entries, key), At(h', key), now - lim.windowMs, End(op, now))
  {
    hide Active, PurgedKey, Committed;
    match op
    case Commit(k, took) =>
      CommitFollows(lim, s, h, k, took, now, key);
    case Check(k) =>
      PurgedKeyAt(s.entries, k, now - lim.windowMs, key);
    case PurgeKey(k) =>
      PurgedKeyAt(s.entries, k, now - lim.windowMs, key);
    case _ =>
  }

  lemma FollowsKeepsNewest(lim: Limits, ts: seq<int>, hs: seq<int>, ts': seq<int>, hs': seq<int>, now: int, end: int)
    requires SameWindow(ts, hs, lim.windowMs, now) && IsSuffix(ts, hs) && Follows(ts, hs, ts', hs', now - lim.windowMs, end)
    ensures IsSuffix(ts', hs')
  {
    hide Active, Ascending, UpTo;
    SuffixFacts(ts, hs, now - lim.windowMs, now, end);
  }

  lemma StepKeepsNewest(lim: Limits, s: State, h: Entries, op: Op, now: int)
    requires SameWindows(lim, s.entries, h, now) && AreNewest(s.entries, h)
    ensures AreNewest(Step(lim, s, op, now).0.entries, Remember(lim, s, h, op, now))
  {
    hide SameWindow, Step, Remember, Follows, IsSuffix;
    var s', h' := Step(lim, s, op, now).0, Remember(lim, s, h, op, now);
    forall key ensures IsSuffix(At(s'.entries, key), At(h', key)) {
      StepFollows(lim, s, h, op, now, key);
      FollowsKeepsNewest(lim, At(s.entries, key), At(h, key), At(s'.entries, key), At(h', key), now, End(op, now));
    }
  }

  /** In every run the entries of a key are the newest of its history, so what a revocation pops is the newest admission. */
  lemma EntriesAreNewest(lim: Limits, trace: seq<Event>, key: string)
    requires lim.Valid() && Ordered(trace)
    ensures var ts, hs := At(Run(lim, trace).entries, key), At(History(lim, trace), key);
            && |ts| <= |hs| && ts == hs[|hs| - |ts|..]
            && (ts != [] ==> hs[|hs| - 1] == ts[|ts| - 1])
  {
    RunKeepsNewest(lim, trace);
    assert IsSuffix(At(Run(lim, trace).entries, key), At(History(lim, trace), key));
  }

  lemma {:induction false} RunKeepsNewest(lim: Limits, trace: seq<Event>)
    requires lim.Valid() && Ordered(trace)
    ensures AreNewest(Run(lim, trace).entries, History(lim, trace))
  {
    if trace != [] {
      hide Step, Remember, SameWindows, AllSpaced;
      var front, last := trace[..|trace| - 1], trace[|trace| - 1];
      RunKeepsNewest(lim, front);
      RunIsRemembered(lim, front);
      if front == [] {
        NothingRemembered(lim, last.time);
      } else {
        SameWindowsLater(lim, Run(lim, front).entries, History(lim, front), LastTime(front), last.time);
      }
      StepKeepsNewest(lim, Run(lim, front), History(lim, front), last.op, last.time);
    }
  }

  /** The sliding-window cap: in every run with a clock that never goes back, whatever calls are interleaved on whatever
      keys, no window (from, from + windowMs] holds more than maxAttempts unrevoked admissions of a key since its last reset,
      or since the limiter was disposed of, which forgets all admissions. */
  lemma CapHolds(lim: Limits, trace: seq<Event>, key: string, from: int)
    requires lim.Valid() && Ordered(trace)
    ensures CountIn(At(History(lim, trace), key), from, from + lim.windowMs) <= lim.maxAttempts
  {
    RunIsRemembered(lim, trace);
    SpacedMeansCapped(lim, At(History(lim, trace), key), from);
  }

  // ---- Windows that are no whole number of ms ----

  /** The next whole number. */
  function Ceiling(w: real): int { -(-w).Floor }

  /** Times are whole, so a window acts like the next whole one: the same times are in it, and fit into it. */
  lemma WindowActsWhole(w: real, t: int, now: int, from: real)
    requires w > 0.0
    ensures Ceiling(w) > 0 && (t as real > now as real - w <==> t > now - Ceiling(w))
    ensures from < t as real <= from + w ==> from.Floor < t <= from.Floor + Ceiling(w)
  {
    var c := Ceiling(w);
    assert c as real - 1.0 < w <= c as real;
    assert from.Floor as real <= from < from.Floor as real + 1.0;
  }

  // ---- The class ----

  class Limiter {
    const lim: Limits
    var entries: Entries
    var disposed: bool

    constructor (lim: Limits)
      requires lim.Valid()
      ensures this.lim == lim && entries == INIT.entries && disposed == INIT.disposed
    {
      this.lim := lim;
      entries, disposed := map[], false;
    }

    /** The checked constructor: null where the source throws. Any positive window will do. */
    static method Create(maxAttempts: int, windowMs: real) returns (r: Limiter?)
      ensures r != null <==> maxAttempts > 0 && windowMs > 0.0
      ensures r != null ==> fresh(r) && r.lim == Limits(maxAttempts, Ceiling(windowMs)) && r.entries == map[] && !r.disposed
    {
      if maxAttempts <= 0 || windowMs <= 0.0 {
        return null;
      }
      WindowActsWhole(windowMs, 0, 0, 0.0);
      r := new Limiter(Limits(maxAttempts, Ceiling(windowMs)));
    }

    method IsAllowed(key: string, now: int) returns (ok: bool)
      modifies this`entries
      ensures (entries, ok) == Admit(lim, old(entries), key, now)
      ensures (State(entries, [], disposed), Allowed(ok)) == Step(lim, State(old(entries), [], disposed), Op.IsAllowed(key), now)
    {
      var cutoff := now - lim.windowMs;
      var timestamps: seq<int> := [];
      if key in entries {
        timestamps := Active(entries[key], cutoff);
      }
      if |timestamps| >= lim.maxAttempts {
        entries := entries[key := timestamps];
        return false;
      }
      timestamps := timestamps + [now];
      entries := entries[key := timestamps];
      return true;
    }

    method GetRemainingAttempts(key: string, now: int) returns (n: nat)
      ensures n == Capped(|Active(At(entries, key), now - lim.windowMs)|, lim.maxAttempts)
      ensures var counted := |Active(At(entries, key), now - lim.windowMs)|;
              if counted <= lim.maxAttempts then n + counted == lim.maxAttempts else n == 0
      ensures (State(entries, [], disposed), Left(n)) == Step(lim, State(entries, [], disposed), Op.Remaining(key), now)
    {
      if key !in entries {
        return lim.maxAttempts;
      }
      var active := Active(entries[key], now - lim.windowMs);
      n := if lim.maxAttempts < |active| then 0 else lim.maxAttempts - |active|;
    }

    method Reset(key: string)
      modifies this`entries
      ensures entries == old(entries) - {key}
      ensures forall now :: State(entries, [], disposed) == Step(lim, State(old(entries), [], disposed), Op.Reset(key), now).0
    {
      entries := entries - {key};
    }

    method RevokeLastCommit(key: string)
      modifies this`entries
      ensures entries == if disposed then old(entries) else Revoked(old(entries), key)
      ensures forall now :: State(entries, [], disposed) == Step(lim, State(old(entries), [], disposed), Op.Revoke(key), now).0
      ensures key in entries && entries != old(entries) ==> entries[key] != []
    {
      if disposed {
        return;
      }
      if key !in entries || |entries[key]| == 0 {
        return;
      }
      entries := entries[key := entries[key][..|entries[key]| - 1]];
      if |entries[key]| == 0 {
        entries := entries - {key};
      }
    }

    method PurgeExpiredForKey(key: string, now: int)
      modifies this`entries
      ensures entries == PurgedKey(old(entries), key, now - lim.windowMs)
      ensures State(entries, [], disposed) == Step(lim, State(old(entries), [], disposed), Op.PurgeKey(key), now).0
      ensures key in entries ==> entries[key] != []
    {
      if key !in entries {
        return;
      }
      var kept := Active(entries[key], now - lim.windowMs);
      if |kept| == 0 {
        entries := entries - {key};
      } else {
        entries := entries[key := kept];
      }
    }

    method PurgeExpiredAll(now: int)
      modifies this`entries
      ensures entries == PurgedAll(old(entries), now - lim.windowMs)
      ensures State(entries, [], disposed) == Step(lim, State(old(entries), [], disposed), Op.PurgeAll, now).0
      ensures forall key :: key in entries ==> entries[key] != []
    {
      hide Active;
      var cutoff := now - lim.windowMs;
      var keys := entries.Keys;
      while keys != {}
        invariant keys <= old(entries).Keys
        invariant forall k :: k in keys ==> k in entries && entries[k] == old(entries)[k]
        invariant forall k :: k !in keys ==>
                    (k in entries <==> k in old(entries) && Active(old(entries)[k], cutoff) != [])
        invariant forall k :: k !in keys && k in entries ==> entries[k] == Active(old(entries)[k], cutoff)
      {
        var key :| key in keys;
        var active := Active(entries[key], cutoff);
        if |active| == 0 {
          entries := entries - {key};
        } else {
          entries := entries[key := active];
        }
        keys := keys - {key};
      }
    }

    /** `check`: None where the source throws; otherwise the answer, and a ticket for `commit`. */
    method Check(key: string, now: int) returns (allowed: bool, ticket: CommitTicket?)
      modifies this`entries
      ensures ticket == null <==> disposed
      ensures disposed ==> entries == old(entries)
      ensures ticket != null ==>
                && fresh(ticket) && ticket.limiter == this && ticket.key == key && !ticket.done
                && entries == PurgedKey(old(entries), key, now - lim.windowMs)
                && allowed == (|At(entries, key)| < lim.maxAttempts)
                && (State(entries, [Ticket(key, false)], disposed), Allowed(allowed))
                   == Step(lim, State(old(entries), [], disposed), Op.Check(key), now)
    {
      if disposed {
        return false, null;
      }
      PurgeExpiredForKey(key, now);
      allowed := |At(entries, key)| < lim.maxAttempts;
      ticket := new CommitTicket(this, key);
      assert [] + [Ticket(key, false)] == [Ticket(key, false)];
    }

    method Dispose()
      modifies this
      ensures disposed && entries == map[]
      ensures forall now :: State(entries, [], disposed) == Step(lim, State(old(entries), [], old(disposed)), Op.Dispose, now).0
    {
      disposed := true;
      entries := map[];
    }
  }

  /** The closure that `check` hands out. */
  class CommitTicket {
    const limiter: Limiter
    const key: string
    var done: bool

    constructor (limiter: Limiter, key: string)
      ensures this.limiter == limiter && this.key == key && !done
    {
      this.limiter := limiter;
      this.key := key;
      done := false;
    }

    /** The clock is read for the purge and again for the entry. */
    method Commit(now: int, later: int)
      modifies this, limiter`entries
      ensures done == (old(done) || !limiter.disposed)
      ensures limiter.entries ==
              if old(done) || limiter.disposed then old(limiter.entries)
              else Committed(limiter.lim, old(limiter.entries), key, now, later)
      ensures now <= later ==>
                State(limiter.entries, [Ticket(key, done)], limiter.disposed)
                == Step(limiter.lim, State(old(limiter.entries), [Ticket(key, old(done))], limiter.disposed), Op.Commit(0, later - now), now).0
    {
      assert [Ticket(key, false)][0 := Ticket(key, true)] == [Ticket(key, true)];
      if done {
        return;
      }
      if limiter.disposed {
        return;
      }
      done := true;
      limiter.PurgeExpiredForKey(key, now);
      var latest := At(limiter.entries, key);
      if |latest| >= limiter.lim.maxAttempts {
        return;
      }
      limiter.entries := limiter.entries[key := latest + [later]];
    }
  }
}
