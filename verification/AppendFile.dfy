/** appendWithFrontmatter of core/src/utils/file.ts: concurrent create-or-append calls under the file lock. */
module AppendFile {
  import opened Text
  import L = AsyncLock

  /** One call; the path stands for the canonical lock key of the file. */
  datatype Call = Call(path: string, content: string, frontmatter: string)

  /** How much of its text a write gets into the file it has opened; one that fails breaks off after some characters. */
  datatype Extent = All | First(n: nat)

  function Part(text: string, extent: Extent): string {
    if extent.All? || extent.n >= |text| then text else text[..extent.n]
  }

  /** How far a call has come inside its section: entered, file looked up, file written; or it failed without opening the file. */
  datatype Stage = NotCalled | Queued | Entered | Checked(exists_: bool) | Written(extent: Extent) | Failed

  type Files = map<string, string>

  /** `ticket[c]` is the section of call c, `who[e]` the call of section e. */
  datatype State = State(stage: seq<Stage>, ticket: seq<nat>, lock: L.State, who: seq<nat>, files: Files)

  function Init(n: nat, files: Files): State {
    State(seq(n, _ => NotCalled), seq(n, _ => 0), L.INIT, [], files)
  }

  datatype Action =
    | Enter(c: nat) | Start(c: nat) | Stat(c: nat) | StatFails(c: nat)
    | Write(c: nat, extent: Extent) | OpenFails(c: nat) | Settle(c: nat) | Clean(c: nat)

  predicate Enabled(calls: seq<Call>, s: State, a: Action) {
    a.c < |calls| && a.c < |s.stage| && a.c < |s.ticket| &&
    match a
    case Enter(c) => s.stage[c].NotCalled?
    case Start(c) => s.stage[c].Queued? && L.Enabled(s.lock, L.Start(s.ticket[c]))
    case Stat(c) => s.stage[c].Entered?
    case StatFails(c) => s.stage[c].Entered?
    case Write(c, _) => s.stage[c].Checked?
    case OpenFails(c) => s.stage[c].Checked?
    case Settle(c) => (s.stage[c].Written? || s.stage[c].Failed?) && L.Enabled(s.lock, L.Settle(s.ticket[c], s.stage[c] == Written(All)))
    case Clean(c) => (s.stage[c].Written? || s.stage[c].Failed?) && L.Enabled(s.lock, L.Clean(s.ticket[c]))
  }

  function Lookup(files: Files, path: string): Option<string> { if path in files then Some(files[path]) else None }

  /** Lines 105-109: `writeFile` with the front matter when the look-up found nothing, `appendFile` otherwise. */
  function Store(files: Files, call: Call, exists_: bool, extent: Extent): Files {
    if !exists_ then files[call.path := Part(call.frontmatter + call.content, extent)]
    else files[call.path := (if call.path in files then files[call.path] else "") + Part(call.content, extent)]
  }

  function Step(calls: seq<Call>, s: State, a: Action): State
    requires Enabled(calls, s, a)
  {
    var c := a.c;
    match a
    case Enter(_) =>
      s.(stage := s.stage[c := Queued], ticket := s.ticket[c := |s.lock.sections|],
         lock := L.Step(s.lock, L.Enter(calls[c].path)), who := s.who + [c])
    case Start(_) => s.(stage := s.stage[c := Entered], lock := L.Step(s.lock, L.Start(s.ticket[c])))
    case Stat(_) => s.(stage := s.stage[c := Checked(calls[c].path in s.files)])
    case StatFails(_) => s.(stage := s.stage[c := Failed])
    case Write(_, extent) =>
      s.(stage := s.stage[c := Written(extent)], files := Store(s.files, calls[c], s.stage[c].exists_, extent))
    case OpenFails(_) => s.(stage := s.stage[c := Failed])
    case Settle(_) => s.(lock := L.Step(s.lock, L.Settle(s.ticket[c], s.stage[c] == Written(All))))
    case Clean(_) => s.(lock := L.Step(s.lock, L.Clean(s.ticket[c])))
  }

  // ---- What the file should hold ----

  /** A call that has opened its file, and how far its write came. */
  datatype Deed = Deed(call: Call, extent: Extent)

  /** A file after one more call that ran alone: front matter is for a missing file. */
  function Stored(file: Option<string>, deed: Deed): string {
    match file
    case None => Part(deed.call.frontmatter + deed.call.content, deed.extent)
    case Some(text) => text + Part(deed.call.content, deed.extent)
  }

  /** A file after these calls ran one after the other. */
  function Linear(initial: Option<string>, deeds: seq<Deed>): Option<string> {
    if deeds == [] then initial else Some(Stored(Linear(initial, deeds[..|deeds| - 1]), deeds[|deeds| - 1]))
  }

  /** The calls on a path that have opened the file, among the first n sections, in the order of the lock. */
  function Writers(calls: seq<Call>, s: State, path: string, n: nat): seq<Deed> {
    if n == 0 || n > |s.who| then []
    else
      var c := s.who[n - 1];
      Writers(calls, s, path, n - 1)
      + if c < |calls| && c < |s.stage| && calls[c].path == path && s.stage[c].Written? then [Deed(calls[c], s.stage[c].extent)] else []
  }

  // ---- The invariant ----

  predicate StatusFits(status: L.Status, stage: Stage) {
    match stage
    case NotCalled => false
    case Queued => status.Queued?
    case Entered => status.Running?
    case Checked(_) => status.Running?
    case Written(_) => !status.Queued?
    case Failed => !status.Queued?
  }

  ghost predicate CallOk(calls: seq<Call>, s: State, c: nat)
    requires c < |calls| && c < |s.stage| && c < |s.ticket|
  {
    s.stage[c].NotCalled? ||
    var e := s.ticket[c];
    && e < |s.lock.sections| && e < |s.who| && s.who[e] == c
    && s.lock.sections[e].key == calls[c].path
    && StatusFits(s.lock.sections[e].status, s.stage[c])
    && (s.stage[c].Checked? ==> (s.stage[c].exists_ <==> calls[c].path in s.files))
  }

  ghost predicate SectionOk(s: State, e: nat)
    requires e < |s.who|
  {
    s.who[e] < |s.stage| && s.who[e] < |s.ticket| && s.ticket[s.who[e]] == e && !s.stage[s.who[e]].NotCalled?
  }

  ghost predicate FileOk(calls: seq<Call>, initial: Files, s: State, path: string) {
    Lookup(s.files, path) == Linear(Lookup(initial, path), Writers(calls, s, path, |s.who|))
  }

  ghost predicate Wired(calls: seq<Call>, s: State) {
    && L.Inv(s.lock) && |s.who| == |s.lock.sections| && |s.stage| == |s.ticket| == |calls|
    && (forall c :: 0 <= c < |calls| ==> CallOk(calls, s, c))
    && (forall e :: 0 <= e < |s.who| ==> SectionOk(s, e))
  }

  ghost predicate Inv(calls: seq<Call>, initial: Files, s: State) {
    Wired(calls, s) && forall path :: FileOk(calls, initial, s, path)
  }

  // ---- Writers only grow, at the end ----

  predicate SameWrite(a: Stage, b: Stage) { a.Written? || b.Written? ==> a == b }

  lemma {:induction false} WritersSame(calls: seq<Call>, s: State, s': State, path: string, n: nat)
    requires n <= |s.who| && n <= |s'.who| && |s.stage| == |s'.stage|
    requires forall e :: 0 <= e < n ==> s'.who[e] == s.who[e]
    requires forall e :: 0 <= e < n && s.who[e] < |s.stage| ==> SameWrite(s'.stage[s.who[e]], s.stage[s.who[e]])
    ensures Writers(calls, s', path, n) == Writers(calls, s, path, n)
  {
    if n > 0 {
      WritersSame(calls, s, s', path, n - 1);
    }
  }

  /** No call of the path whose section comes at or after `from` has written. */
  lemma {:induction false} WritersStop(calls: seq<Call>, s: State, path: string, from: nat, n: nat)
    requires from <= n <= |s.who|
    requires forall e :: from <= e < n && s.who[e] < |calls| && s.who[e] < |s.stage| && calls[s.who[e]].path == path ==>
                           !s.stage[s.who[e]].Written?
    ensures Writers(calls, s, path, n) == Writers(calls, s, path, from)
    decreases n
  {
    if n > from {
      WritersStop(calls, s, path, from, n - 1);
    }
  }

  /** One more call, made when the look-up was right, is one more call in line. */
  lemma StoreIsLinear(initial: Files, files: Files, done: seq<Deed>, deed: Deed)
    requires Lookup(files, deed.call.path) == Linear(Lookup(initial, deed.call.path), done)
    ensures Lookup(Store(files, deed.call, deed.call.path in files, deed.extent), deed.call.path)
         == Linear(Lookup(initial, deed.call.path), done + [deed])
  {
    assert (done + [deed])[..|done|] == done;
  }

  // ---- Every step keeps the invariant ----

  /** A step of call c leaves the other calls and sections as they were, and files of other paths. */
  ghost predicate OnlyTouches(calls: seq<Call>, s: State, s': State, c: nat)
    requires c < |calls|
  {
    && |s'.stage| == |s.stage| == |calls| && |s'.ticket| == |s.ticket| == |calls|
    && |s.who| <= |s'.who| && |s.who| == |s.lock.sections| && |s'.who| == |s'.lock.sections|
    && (forall d :: 0 <= d < |calls| && d != c ==> s'.stage[d] == s.stage[d] && s'.ticket[d] == s.ticket[d])
    && (forall e :: 0 <= e < |s.who| ==> s'.who[e] == s.who[e])
    && (forall e :: 0 <= e < |s.who| && s.who[e] != c ==> s'.lock.sections[e] == s.lock.sections[e])
    && (forall d :: 0 <= d < |calls| && d != c && s.stage[d].Checked? ==>
                      (calls[d].path in s'.files <==> calls[d].path in s.files))
  }

  lemma OthersKeep(calls: seq<Call>, s: State, s': State, c: nat, d: nat)
    requires c < |calls| && d < |calls| && d != c && OnlyTouches(calls, s, s', c) && CallOk(calls, s, d)
    ensures CallOk(calls, s', d)
  {
  }

  /** Calls whose own stage and ticket did not change keep their sections' records. */
  lemma WiredAfter(calls: seq<Call>, s: State, s': State, c: nat)
    requires c < |calls| && Wired(calls, s) && OnlyTouches(calls, s, s', c)
    requires L.Inv(s'.lock) && CallOk(calls, s', c)
    requires forall e :: 0 <= e < |s'.who| && (e >= |s.who| || s.who[e] == c) ==> SectionOk(s', e)
    ensures Wired(calls, s')
  {
    forall d | 0 <= d < |calls| ensures CallOk(calls, s', d) {
      if d != c {
        OthersKeep(calls, s, s', c, d);
      }
    }
    forall e | 0 <= e < |s'.who| ensures SectionOk(s', e) {
      if e < |s.who| && s.who[e] != c {
        assert SectionOk(s, e);
      }
    }
  }

  /** Two calls inside sections of one path are the same call. */
  lemma OneInside(calls: seq<Call>, s: State, c: nat, d: nat)
    requires Wired(calls, s) && c < |calls| && d < |calls| && calls[c].path == calls[d].path
    requires (s.stage[c].Checked? || s.stage[c].Entered?) && (s.stage[d].Checked? || s.stage[d].Entered?)
    ensures c == d
  {
    assert CallOk(calls, s, c) && CallOk(calls, s, d);
    L.RunningIsUnique(s.lock, s.ticket[c], s.ticket[d]);
  }

  /** While call c is inside its section, no later section of its path has started. */
  lemma LaterHaveNotWritten(calls: seq<Call>, s: State, c: nat, e: nat)
    requires Wired(calls, s) && c < |calls| && s.stage[c].Checked? && s.ticket[c] < e < |s.who|
    requires s.who[e] < |calls| && calls[s.who[e]].path == calls[c].path
    ensures !s.stage[s.who[e]].Written?
  {
    assert CallOk(calls, s, c) && SectionOk(s, e) && CallOk(calls, s, s.who[e]);
    assert L.OrderOk(s.lock, s.ticket[c], e);
  }

  /** Before and after the write of call c, no later section of its path has written. */
  lemma NoneWroteLater(calls: seq<Call>, s: State, c: nat)
    requires Wired(calls, s) && c < |calls| && s.stage[c].Checked?
    ensures forall f :: s.ticket[c] < f < |s.who| && s.who[f] < |calls| && s.who[f] < |s.stage| && calls[s.who[f]].path == calls[c].path ==>
                          !s.stage[s.who[f]].Written? && s.who[f] != c
  {
    forall f | s.ticket[c] < f < |s.who| && s.who[f] < |calls| && s.who[f] < |s.stage| && calls[s.who[f]].path == calls[c].path
      ensures !s.stage[s.who[f]].Written? && s.who[f] != c
    {
      LaterHaveNotWritten(calls, s, c, f);
      assert SectionOk(s, f);
    }
  }

  /** The section at e adds its own call, when that one has written. */
  lemma WritersUpTo(calls: seq<Call>, s: State, e: nat)
    requires e < |s.who| && s.who[e] < |calls| && s.who[e] < |s.stage|
    ensures Writers(calls, s, calls[s.who[e]].path, e + 1)
         == Writers(calls, s, calls[s.who[e]].path, e)
            + if s.stage[s.who[e]].Written? then [Deed(calls[s.who[e]], s.stage[s.who[e]].extent)] else []
  {
  }

  /** The write of call c puts it at the end of the line of its path. */
  lemma OwnPathWriters(calls: seq<Call>, s: State, s': State, c: nat, extent: Extent)
    requires Wired(calls, s) && c < |calls| && s.stage[c].Checked?
    requires s'.who == s.who && s'.stage == s.stage[c := Written(extent)]
    ensures Writers(calls, s', calls[c].path, |s.who|) == Writers(calls, s, calls[c].path, |s.who|) + [Deed(calls[c], extent)]
  {
    hide Writers, L.Inv;
    var e, n, path := s.ticket[c], |s.who|, calls[c].path;
    assert CallOk(calls, s, c);
    WritersUpTo(calls, s, e);
    WritersUpTo(calls, s', e);
    NoneWroteLater(calls, s, c);
    WritersStop(calls, s, path, e + 1, n);
    WritersStop(calls, s', path, e + 1, n);
    forall f | 0 <= f < e && s.who[f] < |s.stage|
      ensures SameWrite(s'.stage[s.who[f]], s.stage[s.who[f]])
    {
      assert SectionOk(s, f);
    }
    WritersSame(calls, s, s', path, e);
    assert Writers(calls, s, path, e) + [] == Writers(calls, s, path, e);
  }

  /** The write of call c puts it at the end of the line of its path, and leaves other paths alone. */
  lemma WriteExtends(calls: seq<Call>, s: State, c: nat, extent: Extent, path: string)
    requires Wired(calls, s) && c < |calls| && s.stage[c].Checked?
    ensures Writers(calls, Step(calls, s, Write(c, extent)), path, |s.who|)
         == Writers(calls, s, path, |s.who|) + if calls[c].path == path then [Deed(calls[c], extent)] else []
  {
    hide Writers;
    var s' := Step(calls, s, Write(c, extent));
    if calls[c].path == path {
      OwnPathWriters(calls, s, s', c, extent);
    } else {
      OtherPathWriters(calls, s, s', path, c, |s.who|);
    }
  }

  lemma {:induction false} OtherPathWriters(calls: seq<Call>, s: State, s': State, path: string, c: nat, n: nat)
    requires c < |calls| && calls[c].path != path && n <= |s.who| && s'.who == s.who && |s'.stage| == |s.stage|
    requires forall d :: 0 <= d < |s.stage| && d != c ==> s'.stage[d] == s.stage[d]
    ensures Writers(calls, s', path, n) == Writers(calls, s, path, n)
  {
    if n > 0 {
      OtherPathWriters(calls, s, s', path, c, n - 1);
    }
  }

  /** A step that writes nothing keeps every file in line. */
  lemma QuietKeepsFiles(calls: seq<Call>, initial: Files, s: State, s': State)
    requires Inv(calls, initial, s) && s'.files == s.files && |s'.stage| == |s.stage|
    requires |s.who| <= |s'.who| && forall e :: 0 <= e < |s.who| ==> s'.who[e] == s.who[e]
    requires forall d :: 0 <= d < |s.stage| ==> SameWrite(s'.stage[d], s.stage[d])
    requires forall e :: |s.who| <= e < |s'.who| && s'.who[e] < |s'.stage| ==> !s'.stage[s'.who[e]].Written?
    ensures forall path :: FileOk(calls, initial, s', path)
  {
    forall path ensures FileOk(calls, initial, s', path) {
      assert FileOk(calls, initial, s, path);
      WritersSame(calls, s, s', path, |s.who|);
      WritersStop(calls, s', path, |s.who|, |s'.who|);
    }
  }

  lemma EnterKeepsInv(calls: seq<Call>, initial: Files, s: State, c: nat)
    requires Inv(calls, initial, s) && Enabled(calls, s, Enter(c))
    ensures Inv(calls, initial, Step(calls, s, Enter(c)))
  {
    var s' := Step(calls, s, Enter(c));
    L.StepKeepsInv(s.lock, L.Enter(calls[c].path));
    assert CallOk(calls, s, c);
    forall e | 0 <= e < |s.who| ensures s.who[e] != c {
      assert SectionOk(s, e);
    }
    WiredAfter(calls, s, s', c);
    QuietKeepsFiles(calls, initial, s, s');
  }

  /** Start, settle and clean: the lock changes the status of the call's own section. */
  lemma LockStepKeepsInv(calls: seq<Call>, initial: Files, s: State, c: nat, a: L.Action, stage: Stage)
    requires Inv(calls, initial, s) && c < |calls| && !s.stage[c].NotCalled? && !stage.NotCalled? && !stage.Checked?
    requires SameWrite(stage, s.stage[c])
    requires (a == L.Start(s.ticket[c]) || (exists ok :: a == L.Settle(s.ticket[c], ok)) || a == L.Clean(s.ticket[c]))
    requires L.Enabled(s.lock, a)
    requires s.ticket[c] < |s.lock.sections| ==> StatusFits(L.Step(s.lock, a).sections[s.ticket[c]].status, stage)
    ensures Inv(calls, initial, s.(stage := s.stage[c := stage], lock := L.Step(s.lock, a)))
  {
    var s' := s.(stage := s.stage[c := stage], lock := L.Step(s.lock, a));
    L.StepKeepsInv(s.lock, a);
    assert CallOk(calls, s, c);
    forall e | 0 <= e < |s.who| && s.who[e] == c ensures SectionOk(s', e) {
      assert SectionOk(s, e);
    }
    WiredAfter(calls, s, s', c);
    QuietKeepsFiles(calls, initial, s, s');
  }

  lemma StatKeepsInv(calls: seq<Call>, initial: Files, s: State, c: nat, stage: Stage)
    requires Inv(calls, initial, s) && c < |calls|
    requires (s.stage[c].Entered? && stage == Checked(calls[c].path in s.files)) || ((s.stage[c].Entered? || s.stage[c].Checked?) && stage == Failed)
    ensures Inv(calls, initial, s.(stage := s.stage[c := stage]))
  {
    var s' := s.(stage := s.stage[c := stage]);
    assert CallOk(calls, s, c);
    forall e | 0 <= e < |s.who| && s.who[e] == c ensures SectionOk(s', e) {
      assert SectionOk(s, e);
    }
    WiredAfter(calls, s, s', c);
    QuietKeepsFiles(calls, initial, s, s');
  }

  lemma WriteKeepsFile(calls: seq<Call>, initial: Files, s: State, c: nat, extent: Extent, path: string)
    requires Inv(calls, initial, s) && Enabled(calls, s, Write(c, extent))
    ensures FileOk(calls, initial, Step(calls, s, Write(c, extent)), path)
  {
    assert CallOk(calls, s, c) && FileOk(calls, initial, s, path);
    WriteExtends(calls, s, c, extent, path);
    var done := Writers(calls, s, path, |s.who|);
    hide Writers, Linear;
    if path == calls[c].path {
      StoreIsLinear(initial, s.files, done, Deed(calls[c], extent));
    } else {
      assert done + [] == done;
    }
  }

  lemma WriteKeepsInv(calls: seq<Call>, initial: Files, s: State, c: nat, extent: Extent)
    requires Inv(calls, initial, s) && Enabled(calls, s, Write(c, extent))
    ensures Inv(calls, initial, Step(calls, s, Write(c, extent)))
  {
    var s' := Step(calls, s, Write(c, extent));
    assert CallOk(calls, s, c);
    forall e | 0 <= e < |s.who| && s.who[e] == c ensures SectionOk(s', e) {
      assert SectionOk(s, e);
    }
    forall d | 0 <= d < |calls| && d != c && s.stage[d].Checked?
      ensures calls[d].path in s'.files <==> calls[d].path in s.files
    {
      if calls[d].path == calls[c].path {
        OneInside(calls, s, c, d);
      }
    }
    WiredAfter(calls, s, s', c);
    forall path ensures FileOk(calls, initial, s', path) {
      WriteKeepsFile(calls, initial, s, c, extent, path);
    }
  }

  lemma StepKeepsInv(calls: seq<Call>, initial: Files, s: State, a: Action)
    requires Inv(calls, initial, s) && Enabled(calls, s, a)
    ensures Inv(calls, initial, Step(calls, s, a))
  {
    assert CallOk(calls, s, a.c);
    match a
    case Enter(c) => EnterKeepsInv(calls, initial, s, c);
    case Start(c) => LockStepKeepsInv(calls, initial, s, c, L.Start(s.ticket[c]), Entered);
    case Stat(c) => StatKeepsInv(calls, initial, s, c, Checked(calls[c].path in s.files));
    case StatFails(c) => StatKeepsInv(calls, initial, s, c, Failed);
    case Write(c, extent) => WriteKeepsInv(calls, initial, s, c, extent);
    case OpenFails(c) => StatKeepsInv(calls, initial, s, c, Failed);
    case Settle(c) =>
      LockStepKeepsInv(calls, initial, s, c, L.Settle(s.ticket[c], s.stage[c] == Written(All)), s.stage[c]);
      assert s.stage[c := s.stage[c]] == s.stage;
    case Clean(c) =>
      LockStepKeepsInv(calls, initial, s, c, L.Clean(s.ticket[c]), s.stage[c]);
      assert s.stage[c := s.stage[c]] == s.stage;
  }

  // ---- Every interleaving ----

  function After(calls: seq<Call>, initial: Files, acts: seq<Action>): Option<State> {
    if acts == [] then Some(Init(|calls|, initial))
    else
      var before, last := After(calls, initial, acts[..|acts| - 1]), acts[|acts| - 1];
      if before.Some? && Enabled(calls, before.value, last) then Some(Step(calls, before.value, last)) else None
  }

  lemma {:induction false} RunKeepsInv(calls: seq<Call>, initial: Files, acts: seq<Action>)
    ensures After(calls, initial, acts).Some? ==> Inv(calls, initial, After(calls, initial, acts).value)
  {
    if acts != [] {
      var before, last := After(calls, initial, acts[..|acts| - 1]), acts[|acts| - 1];
      RunKeepsInv(calls, initial, acts[..|acts| - 1]);
      if before.Some? && Enabled(calls, before.value, last) {
        StepKeepsInv(calls, initial, before.value, last);
      }
    }
  }

  /** The calls on a path in the order in which they took the lock. */
  function LockOrder(calls: seq<Call>, s: State, path: string, n: nat): seq<Call> {
    if n == 0 || n > |s.who| then []
    else
      LockOrder(calls, s, path, n - 1)
      + if s.who[n - 1] < |calls| && calls[s.who[n - 1]].path == path then [calls[s.who[n - 1]]] else []
  }

  /** The calls of these deeds. */
  function Callers(deeds: seq<Deed>): seq<Call> {
    if deeds == [] then [] else Callers(deeds[..|deeds| - 1]) + [deeds[|deeds| - 1].call]
  }

  lemma {:induction false} AllWritersInLockOrder(calls: seq<Call>, s: State, path: string, n: nat)
    requires n <= |s.who| && |s.stage| == |calls| && forall c :: 0 <= c < |calls| ==> s.stage[c].Written?
    ensures Callers(Writers(calls, s, path, n)) == LockOrder(calls, s, path, n)
  {
    if n > 0 {
      AllWritersInLockOrder(calls, s, path, n - 1);
      var before, after := Writers(calls, s, path, n - 1), Writers(calls, s, path, n);
      if after != before {
        assert after[..|after| - 1] == before;
      }
    }
  }

  /** Append linearises: in every interleaving, at every moment, each file holds what the calls that have opened it so far
      would have left one after the other in lock order, each with a write that came as far. */
  lemma AppendsAreLinear(calls: seq<Call>, initial: Files, acts: seq<Action>, s: State, path: string)
    requires After(calls, initial, acts) == Some(s)
    ensures Lookup(s.files, path) == Linear(Lookup(initial, path), Writers(calls, s, path, |s.who|))
  {
    RunKeepsInv(calls, initial, acts);
    assert FileOk(calls, initial, s, path);
  }

  /** The contents of these calls, as far as they were written. */
  function Contents(deeds: seq<Deed>): string {
    if deeds == [] then "" else Contents(deeds[..|deeds| - 1]) + Part(deeds[|deeds| - 1].call.content, deeds[|deeds| - 1].extent)
  }

  lemma {:induction false} LinearFromMissing(deeds: seq<Deed>)
    requires deeds != []
    ensures Linear(None, deeds) == Some(Stored(None, deeds[0]) + Contents(deeds[1..]))
  {
    hide Part;
    var front, last := deeds[..|deeds| - 1], deeds[|deeds| - 1];
    if front == [] {
      assert deeds[1..] == [] && Stored(None, deeds[0]) + "" == Stored(None, deeds[0]);
    } else {
      LinearFromMissing(front);
      assert deeds[1..][..|deeds| - 2] == front[1..] && front[0] == deeds[0];
      var first, middle, end := Stored(None, deeds[0]), Contents(front[1..]), Part(last.call.content, last.extent);
      assert Contents(deeds[1..]) == middle + end && first + (middle + end) == first + middle + end;
    }
  }

  /** What a write leaves of a new file starts with the whole front matter exactly when the write came that far. */
  lemma FrontmatterIsWhole(deed: Deed)
    ensures deed.call.frontmatter <= Stored(None, deed) <==> deed.extent.All? || deed.extent.n >= |deed.call.frontmatter|
    ensures deed.extent.All? ==> Stored(None, deed) == deed.call.frontmatter + deed.call.content
  {
  }

  /** Whoever has written and whoever has failed: a file that was missing holds what the first call to open it left, and then
      the contents of the later ones in lock order without their front matter; or it is still missing. So it starts with
      one whole front matter if the write of that first call came so far, which one that did not fail does. Every call is in
      the order once, and when all have opened the file it is the order in which they took the lock. */
  lemma MissingFileIsCreatedOnce(calls: seq<Call>, initial: Files, acts: seq<Action>, s: State, path: string)
    requires After(calls, initial, acts) == Some(s) && path !in initial
    ensures var order := Writers(calls, s, path, |s.who|);
            && (order == [] ==> path !in s.files)
            && (order != [] ==>
                  && Lookup(s.files, path) == Some(Stored(None, order[0]) + Contents(order[1..]))
                  && (order[0].call.frontmatter <= Stored(None, order[0])
                      <==> order[0].extent.All? || order[0].extent.n >= |order[0].call.frontmatter|)
                  && (order[0].extent.All? ==> Stored(None, order[0]) == order[0].call.frontmatter + order[0].call.content))
    ensures |s.ticket| == |calls| == |s.stage|
    ensures forall c :: 0 <= c < |calls| && !s.stage[c].NotCalled? ==> s.ticket[c] < |s.who| && s.who[s.ticket[c]] == c
    ensures forall e :: 0 <= e < |s.who| ==> s.who[e] < |calls| && s.ticket[s.who[e]] == e
    ensures (forall c :: 0 <= c < |calls| ==> s.stage[c].Written?) ==>
              Callers(Writers(calls, s, path, |s.who|)) == LockOrder(calls, s, path, |s.who|)
  {
    hide Linear, Writers, Stored, Contents, Callers, LockOrder;
    RunKeepsInv(calls, initial, acts);
    AppendsAreLinear(calls, initial, acts, s, path);
    var order := Writers(calls, s, path, |s.who|);
    if order == [] {
      NothingLinear(Lookup(initial, path));
    } else {
      LinearFromMissing(order);
      FrontmatterIsWhole(order[0]);
    }
    if forall c :: 0 <= c < |calls| ==> s.stage[c].Written? {
      AllWritersInLockOrder(calls, s, path, |s.who|);
    }
    forall c | 0 <= c < |calls| && !s.stage[c].NotCalled? ensures s.ticket[c] < |s.who| && s.who[s.ticket[c]] == c {
      assert CallOk(calls, s, c);
    }
    forall e | 0 <= e < |s.who| ensures s.who[e] < |calls| && s.ticket[s.who[e]] == e {
      assert SectionOk(s, e);
    }
  }

  lemma NothingLinear(initial: Option<string>)
    ensures Linear(initial, []) == initial
  {
  }

  lemma OneStepMore(calls: seq<Call>, initial: Files, acts: seq<Action>, s: State, a: Action)
    requires After(calls, initial, acts) == Some(s) && Enabled(calls, s, a)
    ensures After(calls, initial, acts + [a]) == Some(Step(calls, s, a))
  {
    assert (acts + [a])[..|acts|] == acts;
  }

  /** The first call alone: it finds the file missing. */
  lemma FindsMissing(a: Call, b: Call) returns (acts: seq<Action>, s: State)
    ensures After([a, b], map[], acts) == Some(s)
    ensures s == State([Checked(false), NotCalled], [0, 0], L.State([L.Section(a.path, None, L.Running)], map[a.path := 0]), [0], map[])
  {
    var calls := [a, b];
    acts, s := [], Init(2, map[]);
    assert s == State([NotCalled, NotCalled], [0, 0], L.INIT, [], map[]);
    assert After(calls, map[], acts) == Some(s);
    hide After;
    acts, s := Taken(calls, acts, s, Enter(0));
    acts, s := Taken(calls, acts, s, Start(0));
    acts, s := Taken(calls, acts, s, Stat(0));
  }

  /** Its write breaks off as soon as the file is open. */
  lemma CreationFails(a: Call, b: Call) returns (acts: seq<Action>, s: State)
    ensures After([a, b], map[], acts) == Some(s)
    ensures s == State([Written(First(0)), NotCalled], [0, 0], L.State([L.Section(a.path, None, L.Done(false))], map[]), [0], map[a.path := ""])
  {
    hide After;
    var calls := [a, b];
    acts, s := FindsMissing(a, b);
    acts, s := Taken(calls, acts, s, Write(0, First(0)));
    assert s.files == map[a.path := ""];
    acts, s := Taken(calls, acts, s, Settle(0));
    acts, s := Taken(calls, acts, s, Clean(0));
    assert s.lock.chains == map[];
  }

  /** The condition is not met when the first write fails at once: the second call appends to the empty file it has left, and
      succeeds without any front matter. */
  lemma FailedCreationLosesFrontmatter(a: Call, b: Call) returns (acts: seq<Action>, s: State)
    requires a.path == b.path
    ensures After([a, b], map[], acts) == Some(s) && s.stage == [Written(First(0)), Written(All)]
    ensures Lookup(s.files, a.path) == Some(b.content)
  {
    hide After;
    var calls := [a, b];
    acts, s := CreationFails(a, b);
    acts, s := Taken(calls, acts, s, Enter(1));
    acts, s := Taken(calls, acts, s, Start(1));
    acts, s := Taken(calls, acts, s, Stat(1));
    acts, s := Taken(calls, acts, s, Write(1, All));
    assert "" + b.content == b.content;
  }

  lemma Taken(calls: seq<Call>, acts: seq<Action>, s: State, a: Action) returns (acts': seq<Action>, s': State)
    requires After(calls, map[], acts) == Some(s) && Enabled(calls, s, a)
    ensures After(calls, map[], acts') == Some(s') && s' == Step(calls, s, a)
  {
    OneStepMore(calls, map[], acts, s, a);
    acts', s' := acts + [a], Step(calls, s, a);
  }
}
