/** The parent side of one trial worker: regression/src/runner/agent-trial-spawn.ts. */
module TrialRelay {
  import opened CutLines
  import opened Text
  import U = Utf8

  datatype Meter = Meter(costUsd: real, tokenIn: int, tokenOut: int)

  const ZERO_METER := Meter(0.0, 0, 0)

  /** The fields of a parsed line that are looked at; None is an absent or null field. */
  datatype Message = Message(kind: string, costUsd: Option<real>, tokenIn: Option<int>, tokenOut: Option<int>, outcome: Option<string>)

  /** `JSON.parse`, None where it throws. */
  type Json = string -> Option<Message>

  function OrZero(x: Option<int>): int { if x.Some? then x.value else 0 }

  /** `parseMeterLine` */
  function ParseMeterLine(parse: Json, line: string): Option<Meter> {
    if !StartsWith(line, "{") then None
    else
      var msg := parse(line);
      if msg.None? || msg.value.kind != "meter" then None
      else Some(Meter(if msg.value.costUsd.Some? then msg.value.costUsd.value else 0.0,
                      OrZero(msg.value.tokenIn), OrZero(msg.value.tokenOut)))
  }

  /** The outcome of a `trial-result` line. */
  function ParseResultLine(parse: Json, line: string): Option<string> {
    if ParseMeterLine(parse, line).Some? || !StartsWith(line, "{") then None
    else
      var msg := parse(line);
      if msg.Some? && msg.value.kind == "trial-result" then msg.value.outcome else None
  }

  /** What the lines that parse give, in order. */
  function Values<T>(read: string -> Option<T>, lines: seq<string>): seq<T> {
    if lines == [] then []
    else Values(read, lines[..|lines| - 1]) + if read(lines[|lines| - 1]).Some? then [read(lines[|lines| - 1]).value] else []
  }

  function Last<T>(values: seq<T>): Option<T> { if values == [] then None else Some(values[|values| - 1]) }

  /** The last of the new values, or the previous one when there are none. */
  function LastOr<T>(previous: Option<T>, values: seq<T>): Option<T> { if values == [] then previous else Last(values) }

  function Meters(parse: Json): string -> Option<Meter> { (line: string) => ParseMeterLine(parse, line) }

  function Results(parse: Json): string -> Option<string> { (line: string) => ParseResultLine(parse, line) }

  function BatchMeter(parse: Json, stdout: string): Option<Meter> { Last(Values(Meters(parse), Split(stdout, '\n'))) }

  function BatchOutcome(parse: Json, stdout: string): Option<string> { Last(Values(Results(parse), Split(stdout, '\n'))) }

  lemma OneMoreValue<T>(read: string -> Option<T>, lines: seq<string>, n: nat)
    requires n < |lines|
    ensures Values(read, lines[..n + 1]) == Values(read, lines[..n]) + if read(lines[n]).Some? then [read(lines[n]).value] else []
  {
    assert lines[..n + 1][..n] == lines[..n];
  }

  lemma {:induction false} ValuesAppend<T>(read: string -> Option<T>, a: seq<string>, b: seq<string>)
    ensures Values(read, a + b) == Values(read, a) + Values(read, b)
  {
    if b == [] {
      assert a + b == a;
    } else {
      ValuesAppend(read, a, b[..|b| - 1]);
      assert (a + b)[..|a + b| - 1] == a + b[..|b| - 1];
    }
  }

  /** `parseWorkerStdout`: the last result and the last meter over all lines, ended or not. */
  method ParseWorkerStdout(parse: Json, stdout: string) returns (outcome: Option<string>, meter: Option<Meter>)
    ensures outcome == BatchOutcome(parse, stdout) && meter == BatchMeter(parse, stdout)
  {
    outcome, meter := None, None;
    var lines := Split(stdout, '\n');
    for n := 0 to |lines|
      invariant outcome == Last(Values(Results(parse), lines[..n]))
      invariant meter == Last(Values(Meters(parse), lines[..n]))
    {
      OneMoreValue(Results(parse), lines, n);
      OneMoreValue(Meters(parse), lines, n);
      var m := ParseMeterLine(parse, lines[n]);
      if m.Some? {
        meter := m;
        continue;
      }
      if !StartsWith(lines[n], "{") {
        continue;
      }
      var msg := parse(lines[n]);
      if msg.Some? && msg.value.kind == "trial-result" && msg.value.outcome.Some? {
        outcome := msg.value.outcome;
      }
    }
    assert lines[..|lines|] == lines;
  }

  // ---- One trial ----

  datatype Reason = TimedOut | SpawnFailed(message: string) | ExitedWithoutResult(code: int)

  datatype TrialOutcome = FromWorker(outcome: string) | Failed(why: Reason, charged: Meter)

  /** `relayed` are the calls of onMeter, `resolved` the calls of resolve, `live` whether the registry holds the worker. */
  datatype State = State(stdout: string, pendingLine: string, lastMeter: Option<Meter>, relayed: seq<Meter>,
                         settled: bool, resolved: seq<TrialOutcome>, live: bool)

  const START := State("", "", None, [], false, [], true)

  /** A chunk of stdout is bytes; the relay decodes each one by itself. */
  datatype Event = Data(chunk: seq<U.Byte>) | Timeout | SpawnError(message: string) | Close(code: int)

  function Charged(parse: Json, lastMeter: Option<Meter>, stdout: string): Meter {
    if lastMeter.Some? then lastMeter.value
    else if BatchMeter(parse, stdout).Some? then BatchMeter(parse, stdout).value
    else ZERO_METER
  }

  function Settled(s: State, o: TrialOutcome): State {
    if s.settled then s else s.(settled := true, resolved := s.resolved + [o], live := false)
  }

  function Step(parse: Json, s: State, e: Event): State {
    match e
    case Data(chunk) =>
      var text := U.Decode(chunk);
      var pending := s.pendingLine + text;
      var meters := Values(Meters(parse), Ended(pending));
      s.(stdout := s.stdout + text, pendingLine := Unended(pending), relayed := s.relayed + meters,
         lastMeter := LastOr(s.lastMeter, meters))
    case Timeout => Settled(s, Failed(TimedOut, Charged(parse, s.lastMeter, s.stdout)))
    case SpawnError(message) => Settled(s, Failed(SpawnFailed(message), Charged(parse, s.lastMeter, s.stdout)))
    case Close(code) =>
      var outcome := BatchOutcome(parse, s.stdout);
      Settled(s, if outcome.Some? then FromWorker(outcome.value)
                 else Failed(ExitedWithoutResult(code), Charged(parse, s.lastMeter, s.stdout)))
  }

  lemma DataStep(parse: Json, s: State, chunk: seq<U.Byte>)
    ensures var text := U.Decode(chunk);
            var whole := s.pendingLine + text;
            var meters := Values(Meters(parse), Ended(whole));
            Step(parse, s, Data(chunk))
            == State(s.stdout + text, Unended(whole), LastOr(s.lastMeter, meters), s.relayed + meters, s.settled, s.resolved, s.live)
  {
  }

  class Trial {
    const parse: Json
    var stdout: string
    var pendingLine: string
    var lastMeter: Option<Meter>
    var relayed: seq<Meter>
    var settled: bool
    var resolved: seq<TrialOutcome>
    var live: bool

    ghost function View(): State
      reads this
    {
      State(stdout, pendingLine, lastMeter, relayed, settled, resolved, live)
    }

    constructor (parse: Json)
      ensures this.parse == parse && View() == START
    {
      this.parse := parse;
      stdout, pendingLine, lastMeter, relayed := "", "", None, [];
      settled, resolved, live := false, [], true;
    }

    /** Lines 236-251. */
    method OnData(chunk: seq<U.Byte>)
      modifies this
      ensures View() == Step(parse, old(View()), Data(chunk))
    {
      hide Values, Split, Ended, Unended, Meters, LastOr, ParseMeterLine, IndexOf, Step, U.Decode;
      DataStep(parse, View(), chunk);
      hide StartsWith, OrZero;
      var text := U.Decode(chunk);
      stdout := stdout + text;
      pendingLine := pendingLine + text;
      ghost var whole := pendingLine;
      ghost var done: seq<string> := [];
      NoLines(parse, lastMeter);
      assert done + Split(pendingLine, '\n') == Split(whole, '\n');
      var nl := IndexOf(pendingLine, "\n", 0);
      while nl.Some?
        invariant nl == IndexOf(pendingLine, "\n", 0)
        invariant done + Split(pendingLine, '\n') == Split(whole, '\n')
        invariant relayed == old(relayed) + Values(Meters(parse), done)
        invariant lastMeter == LastOr(old(lastMeter), Values(Meters(parse), done))
        invariant stdout == old(stdout) + text
        invariant settled == old(settled) && resolved == old(resolved) && live == old(live)
        decreases |pendingLine|
      {
        var line := pendingLine[..nl.value];
        FirstLine(pendingLine, nl.value);
        OneLineMore(parse, done, line, old(lastMeter));
        assert done + ([line] + Split(pendingLine[nl.value + 1..], '\n')) == done + [line] + Split(pendingLine[nl.value + 1..], '\n');
        done := done + [line];
        var m := ParseMeterLine(parse, line);
        pendingLine := pendingLine[nl.value + 1..];
        if m.Some? {
          lastMeter := m;
          relayed := relayed + [m.value];
        }
        nl := IndexOf(pendingLine, "\n", 0);
      }
      NoNewline(pendingLine);
      PartsAre(whole, done, pendingLine);
    }

    /** Lines 225-231. */
    method Settle(o: TrialOutcome)
      modifies this
      ensures View() == Settled(old(View()), o)
    {
      if settled {
        return;
      }
      settled := true;
      live := false;
      resolved := resolved + [o];
    }

    /** Lines 194-200. */
    method Fail(why: Reason) returns (o: TrialOutcome)
      ensures o == Failed(why, Charged(parse, lastMeter, stdout))
    {
      var _, meter := ParseWorkerStdout(parse, stdout);
      o := Failed(why, if lastMeter.Some? then lastMeter.value else if meter.Some? then meter.value else ZERO_METER);
    }

    method OnTimeout()
      modifies this
      ensures View() == Step(parse, old(View()), Timeout)
    {
      var o := Fail(TimedOut);
      Settle(o);
    }

    method OnError(message: string)
      modifies this
      ensures View() == Step(parse, old(View()), SpawnError(message))
    {
      var o := Fail(SpawnFailed(message));
      Settle(o);
    }

    /** Lines 256-259. */
    method OnClose(code: int)
      modifies this
      ensures View() == Step(parse, old(View()), Close(code))
    {
      var outcome, _ := ParseWorkerStdout(parse, stdout);
      if outcome.Some? {
        Settle(FromWorker(outcome.value));
      } else {
        var o := Fail(ExitedWithoutResult(code));
        Settle(o);
      }
    }
  }

  lemma NoLines(parse: Json, previous: Option<Meter>)
    ensures Values(Meters(parse), []) == [] && LastOr(previous, Values(Meters(parse), [])) == previous
  {
  }

  lemma OneLineMore(parse: Json, done: seq<string>, line: string, previous: Option<Meter>)
    ensures Values(Meters(parse), done + [line])
         == Values(Meters(parse), done) + if ParseMeterLine(parse, line).Some? then [ParseMeterLine(parse, line).value] else []
    ensures LastOr(previous, Values(Meters(parse), done + [line]))
         == if ParseMeterLine(parse, line).Some? then ParseMeterLine(parse, line) else LastOr(previous, Values(Meters(parse), done))
  {
    hide ParseMeterLine;
    assert (done + [line])[..|done|] == done;
  }

  lemma NewlineFirst(s: string)
    ensures "\n" <= s <==> s != "" && s[0] == '\n'
  {
  }

  lemma NewlineAt(pending: string, nl: nat)
    requires nl <= |pending| && "\n" <= pending[nl..] && forall k :: 0 <= k < nl ==> !("\n" <= pending[k..])
    ensures nl < |pending| && pending[nl] == '\n' && '\n' !in pending[..nl]
  {
    NewlineFirst(pending[nl..]);
    forall k | 0 <= k < nl ensures pending[k] != '\n' {
      NewlineFirst(pending[k..]);
    }
  }

  lemma FirstLine(pending: string, nl: nat)
    requires nl <= |pending| && "\n" <= pending[nl..] && forall k :: 0 <= k < nl ==> !("\n" <= pending[k..])
    ensures nl < |pending| && Split(pending, '\n') == [pending[..nl]] + Split(pending[nl + 1..], '\n')
  {
    hide Split;
    NewlineAt(pending, nl);
    AroundNewline(pending, nl);
    SplitAppend(pending[..nl], '\n', pending[nl + 1..]);
  }

  lemma AroundNewline(pending: string, nl: nat)
    requires nl < |pending| && pending[nl] == '\n'
    ensures pending[..nl] + ['\n'] + pending[nl + 1..] == pending
  {
  }

  lemma NoNewline(pending: string)
    requires forall k :: 0 <= k <= |pending| ==> !("\n" <= pending[k..])
    ensures Split(pending, '\n') == [pending]
  {
    assert '\n' !in pending by {
      forall k | 0 <= k < |pending| ensures pending[k] != '\n' {
        assert pending[k..][0] == pending[k];
      }
    }
    SplitOfFree(pending, '\n');
  }

  // ---- Every run ----

  function Run(parse: Json, events: seq<Event>): State {
    if events == [] then START else Step(parse, Run(parse, events[..|events| - 1]), events[|events| - 1])
  }

  /** The stream of the run as the relay reads it. */
  function Stream(events: seq<Event>): string {
    if events == [] then ""
    else Stream(events[..|events| - 1]) + if events[|events| - 1].Data? then U.Decode(events[|events| - 1].chunk) else ""
  }

  ghost predicate Relayed(parse: Json, s: State, text: string) {
    && s.stdout == text && s.pendingLine == Unended(text)
    && s.relayed == Values(Meters(parse), Ended(text)) && s.lastMeter == Last(s.relayed)
  }

  lemma DataKeepsRelayed(parse: Json, s: State, text: string, chunk: seq<U.Byte>)
    requires Relayed(parse, s, text)
    ensures Relayed(parse, Step(parse, s, Data(chunk)), text + U.Decode(chunk))
  {
    hide Ended, Unended, Values, Meters, U.Decode;
    var more := U.Decode(chunk);
    EndedConcat(text, more);
    ValuesAppend(Meters(parse), Ended(text), Ended(Unended(text) + more));
    var meters := Values(Meters(parse), Ended(Unended(text) + more));
    if meters == [] {
      assert s.relayed + meters == s.relayed;
    }
  }

  lemma EndKeepsRelayed(parse: Json, s: State, text: string, e: Event)
    requires Relayed(parse, s, text) && !e.Data?
    ensures Relayed(parse, Step(parse, s, e), text)
  {
    hide Ended, Unended, Values, Charged, BatchOutcome;
  }

  /** However stdout is cut into chunks and whatever events come between, the meters relayed are those of the ended lines
      of the whole stream, once each and in order; the last of them is the last meter. */
  lemma {:induction false} RelaysWholeStream(parse: Json, events: seq<Event>)
    ensures Relayed(parse, Run(parse, events), Stream(events))
  {
    if events == [] {
    } else {
      hide Relayed, Step;
      var before, e := events[..|events| - 1], events[|events| - 1];
      RelaysWholeStream(parse, before);
      if e.Data? {
        DataKeepsRelayed(parse, Run(parse, before), Stream(before), e.chunk);
      } else {
        EndKeepsRelayed(parse, Run(parse, before), Stream(before), e);
        assert Stream(before) + "" == Stream(before);
      }
    }
  }

  // ---- When the cuts can be observed ----

  /** The chunks of the run. */
  function Chunks(events: seq<Event>): seq<seq<U.Byte>> {
    if events == [] then []
    else Chunks(events[..|events| - 1]) + if events[|events| - 1].Data? then [events[|events| - 1].chunk] else []
  }

  lemma {:induction false} StreamIsDecodedChunks(events: seq<Event>)
    ensures Stream(events) == U.DecodeChunks(Chunks(events))
  {
    hide U.Decode;
    if events != [] {
      var before, e := events[..|events| - 1], events[|events| - 1];
      StreamIsDecodedChunks(before);
      if e.Data? {
        assert (Chunks(before) + [e.chunk])[..|Chunks(before)|] == Chunks(before);
      } else {
        assert Chunks(before) + [] == Chunks(before) && Stream(before) + "" == Stream(before);
      }
    }
  }

  /** When the worker writes a text, the relay has read that text if and only if no chunk was cut inside a character. */
  lemma ReadsTextIffCutsBetween(parse: Json, events: seq<Event>, text: string)
    requires U.Flat(Chunks(events)) == U.Encode(text)
    ensures Run(parse, events).stdout == text <==> U.CutsBetween(text, Chunks(events))
  {
    hide U.Encode, U.DecodeChunks, U.Flat, Run, Stream;
    StreamIsDecodedChunks(events);
    U.ChunksDecodeIffCutsBetween(text, Chunks(events));
    RelaysWholeStream(parse, events);
  }

  // ---- What survives every cut ----

  /** Only lines of ASCII give a meter: no other line does, as it is or as cuts may change it. The worker's meter lines hold
      numbers only. */
  ghost predicate MetersAreAscii(parse: Json, text: string) {
    forall i, read :: 0 <= i < |Split(text, '\n')| && CanBeReadAs(Split(text, '\n')[i], read) && ParseMeterLine(parse, read).Some? ==>
      IsAscii(Split(text, '\n')[i])
  }

  /** Cuts do not make or unmake a result line. They replace only characters outside ASCII, which JSON allows in strings and
      nowhere else, and there it allows the replacement too. */
  ghost predicate ResultsStayResults(parse: Json, text: string) {
    forall i, read :: 0 <= i < |Split(text, '\n')| && CanBeReadAs(Split(text, '\n')[i], read) ==>
      (ParseResultLine(parse, read).Some? <==> ParseResultLine(parse, Split(text, '\n')[i]).Some?)
  }

  lemma {:induction false} SameValues<T>(read: string -> Option<T>, a: seq<string>, b: seq<string>)
    requires |a| == |b| && forall i :: 0 <= i < |a| ==> read(a[i]) == read(b[i])
    ensures Values(read, a) == Values(read, b)
  {
    if a != [] {
      SameValues(read, a[..|a| - 1], b[..|b| - 1]);
    }
  }

  lemma {:induction false} AnyValue<T>(read: string -> Option<T>, lines: seq<string>)
    ensures Values(read, lines) != [] <==> exists i :: 0 <= i < |lines| && read(lines[i]).Some?
  {
    if lines != [] {
      AnyValue(read, lines[..|lines| - 1]);
      assert lines[..|lines| - 1] + [lines[|lines| - 1]] == lines;
    }
  }

  /** The lines that are read, beside those that were written. */
  lemma ReadLines(parse: Json, events: seq<Event>, text: string)
    requires U.Flat(Chunks(events)) == U.Encode(text)
    ensures var lines, read := Split(text, '\n'), Split(Run(parse, events).stdout, '\n');
            |read| == |lines| && forall i :: 0 <= i < |lines| ==> CanBeReadAs(lines[i], read[i])
    ensures Relayed(parse, Run(parse, events), Run(parse, events).stdout)
  {
    hide Run, Stream, U.Flat, U.Encode, U.DecodeChunks, Split, Pieces, CanBeReadAs, U.CutsBetween, Values;
    StreamIsDecodedChunks(events);
    RelaysWholeStream(parse, events);
    LinesSurviveCuts(text, Chunks(events));
  }

  lemma MetersStay(parse: Json, text: string, read: seq<string>)
    requires MetersAreAscii(parse, text) && |read| == |Split(text, '\n')|
    requires forall i :: 0 <= i < |read| ==> CanBeReadAs(Split(text, '\n')[i], read[i])
    ensures forall i :: 0 <= i < |read| ==> ParseMeterLine(parse, read[i]) == ParseMeterLine(parse, Split(text, '\n')[i])
  {
    hide ParseMeterLine, Split, CanBeReadAs;
    var lines := Split(text, '\n');
    forall i | 0 <= i < |read| ensures ParseMeterLine(parse, read[i]) == ParseMeterLine(parse, lines[i]) {
      CanBeReadRight(lines[i]);
      if IsAscii(lines[i]) {
        AsciiIsReadRight(lines[i], read[i]);
      }
    }
  }

  /** Metering survives every cut: the meters relayed are those of the ended lines that the worker wrote, and a failed trial is
      charged what it would be charged for the text as written. */
  lemma MetersSurviveCuts(parse: Json, events: seq<Event>, text: string)
    requires U.Flat(Chunks(events)) == U.Encode(text) && MetersAreAscii(parse, text)
    ensures var s := Run(parse, events);
            && s.relayed == Values(Meters(parse), Ended(text)) && s.lastMeter == Last(s.relayed)
            && Charged(parse, s.lastMeter, s.stdout) == Charged(parse, s.lastMeter, text)
  {
    hide Run, Values, ParseMeterLine, Split, CanBeReadAs, U.Flat, U.Encode, MetersAreAscii;
    var s := Run(parse, events);
    var read, lines := Split(s.stdout, '\n'), Split(text, '\n');
    ReadLines(parse, events, text);
    MetersStay(parse, text, read);
    SameValues(Meters(parse), read, lines);
    SameValues(Meters(parse), Ended(s.stdout), Ended(text));
  }

  /** No cut loses a result: the relay finds one exactly when the worker wrote one. */
  lemma ResultSurvivesCuts(parse: Json, events: seq<Event>, text: string)
    requires U.Flat(Chunks(events)) == U.Encode(text) && ResultsStayResults(parse, text)
    ensures BatchOutcome(parse, Run(parse, events).stdout).Some? <==> BatchOutcome(parse, text).Some?
  {
    hide Run, Values, ParseResultLine, Split, CanBeReadAs, U.Flat, U.Encode;
    var read, lines := Split(Run(parse, events).stdout, '\n'), Split(text, '\n');
    ReadLines(parse, events, text);
    AnyValue(Results(parse), read);
    AnyValue(Results(parse), lines);
    assert forall i :: 0 <= i < |lines| ==> (Results(parse)(read[i]).Some? <==> Results(parse)(lines[i]).Some?);
  }

  /** Two ways to cut the text of the worker: what is metered and charged is the same, and without a cut inside a character so
      is all that is read. */
  lemma ChunksAreUnobservable(parse: Json, events: seq<Event>, others: seq<Event>, text: string)
    requires U.Flat(Chunks(events)) == U.Encode(text) == U.Flat(Chunks(others))
    ensures var s, t := Run(parse, events), Run(parse, others);
            && (MetersAreAscii(parse, text) ==>
                  && s.relayed == t.relayed && s.lastMeter == t.lastMeter
                  && Charged(parse, s.lastMeter, s.stdout) == Charged(parse, t.lastMeter, t.stdout))
            && (U.CutsBetween(text, Chunks(events)) && U.CutsBetween(text, Chunks(others)) ==>
                  && s.relayed == t.relayed && s.lastMeter == t.lastMeter
                  && s.stdout == t.stdout == text && s.pendingLine == t.pendingLine)
  {
    hide U.Encode, U.CutsBetween, U.Flat, Run, Stream, Values, Unended, Ended, MetersAreAscii, Charged;
    if MetersAreAscii(parse, text) {
      MetersSurviveCuts(parse, events, text);
      MetersSurviveCuts(parse, others, text);
    }
    ReadsTextIffCutsBetween(parse, events, text);
    ReadsTextIffCutsBetween(parse, others, text);
    RelaysWholeStream(parse, events);
    RelaysWholeStream(parse, others);
  }

  /** What a run that ends now would resolve with. */
  function Verdict(parse: Json, stdout: string, e: Event): TrialOutcome
    requires !e.Data?
  {
    var charged := Charged(parse, Last(Values(Meters(parse), Ended(stdout))), stdout);
    match e
    case Timeout => Failed(TimedOut, charged)
    case SpawnError(message) => Failed(SpawnFailed(message), charged)
    case Close(code) =>
      if BatchOutcome(parse, stdout).Some? then FromWorker(BatchOutcome(parse, stdout).value)
      else Failed(ExitedWithoutResult(code), charged)
  }

  ghost predicate OnlyData(events: seq<Event>) {
    forall k :: 0 <= k < |events| ==> events[k].Data?
  }

  /** Until a timeout, error or close nothing is resolved; the first of them settles the trial. */
  lemma {:induction false} PendingUntilTheFirstEnd(parse: Json, events: seq<Event>)
    requires OnlyData(events)
    ensures var s := Run(parse, events); !s.settled && s.resolved == [] && s.live
  {
    if events != [] {
      PendingUntilTheFirstEnd(parse, events[..|events| - 1]);
    }
  }

  /** In every order of events the trial settles exactly once, at the first timeout, error or close, with the outcome that
      event and the stream so far determine, and it has then left the registry. */
  lemma {:induction false} SettlesExactlyOnce(parse: Json, events: seq<Event>, first: nat)
    requires first < |events| && OnlyData(events[..first]) && !events[first].Data?
    ensures var s := Run(parse, events);
            s.settled && !s.live && s.resolved == [Verdict(parse, Stream(events[..first]), events[first])]
  {
    hide Verdict, Step, Relayed, Stream;
    var before := events[..|events| - 1];
    if first == |events| - 1 {
      PendingUntilTheFirstEnd(parse, before);
      RelaysWholeStream(parse, before);
      FirstEnd(parse, Run(parse, before), Stream(before), events[first]);
    } else {
      assert before[..first] == events[..first];
      SettlesExactlyOnce(parse, before, first);
      StaysSettled(parse, Run(parse, before), events[|events| - 1]);
    }
  }

  lemma FirstEnd(parse: Json, s: State, text: string, e: Event)
    requires Relayed(parse, s, text) && !s.settled && s.resolved == [] && !e.Data?
    ensures var t := Step(parse, s, e); t.settled && !t.live && t.resolved == [Verdict(parse, text, e)]
  {
    hide Values, BatchOutcome, Charged;
  }

  lemma StaysSettled(parse: Json, s: State, e: Event)
    requires s.settled
    ensures var t := Step(parse, s, e); t.settled && t.live == s.live && t.resolved == s.resolved
  {
    hide Values, BatchOutcome, Charged, Unended, Ended;
  }

  // ---- What a failed trial is charged ----

  lemma BatchIsRelayThenTail(parse: Json, stdout: string)
    ensures BatchMeter(parse, stdout)
         == if ParseMeterLine(parse, Unended(stdout)).Some? then ParseMeterLine(parse, Unended(stdout)) else Last(Values(Meters(parse), Ended(stdout)))
  {
    var parts := Split(stdout, '\n');
    assert parts == Ended(stdout) + [Unended(stdout)];
    OneMoreValue(Meters(parse), parts, |parts| - 1);
    assert parts[..|parts| - 1 + 1] == parts;
  }

  /** A failed trial is charged the last meter of the stream, ended line or not, except exactly when an earlier ended line
      already gave a meter and the unended tail is a meter line with other figures. */
  lemma ChargedIsLastMeter(parse: Json, stdout: string)
    ensures var relayed, last := Last(Values(Meters(parse), Ended(stdout))), BatchMeter(parse, stdout);
            Charged(parse, relayed, stdout) == (if last.Some? then last.value else ZERO_METER)
            <==> !(relayed.Some? && ParseMeterLine(parse, Unended(stdout)).Some? && ParseMeterLine(parse, Unended(stdout)) != relayed)
  {
    BatchIsRelayThenTail(parse, stdout);
  }

  /** The exception happens: the worker is cut off just before the newline of its second meter line. */
  lemma UnendedMeterIsNotCharged(parse: Json, first: string, second: string)
    requires '\n' !in first && '\n' !in second
    requires ParseMeterLine(parse, first).Some? && ParseMeterLine(parse, second).Some?
    ensures var s := Run(parse, [Data(U.Encode(first + ['\n'] + second)), Timeout]);
            && s.resolved == [Failed(TimedOut, ParseMeterLine(parse, first).value)]
            && BatchMeter(parse, s.stdout) == ParseMeterLine(parse, second)
  {
    var text := first + ['\n'] + second;
    var chunk := U.Encode(text);
    TwoLines(parse, first, second);
    BatchIsRelayThenTail(parse, text);
    hide Values, Ended, Unended, Meters;
    U.WholeDecodes(text);
    OneChunkThen(chunk, Timeout);
    SettlesExactlyOnce(parse, [Data(chunk), Timeout], 1);
    RelaysWholeStream(parse, [Data(chunk), Timeout]);
  }

  lemma OneChunkThen(chunk: seq<U.Byte>, end: Event)
    requires !end.Data?
    ensures [Data(chunk), end][..1] == [Data(chunk)] && Stream([Data(chunk)]) == U.Decode(chunk) == Stream([Data(chunk), end])
    ensures Chunks([Data(chunk), end]) == [chunk]
  {
    hide U.Decode;
    assert [Data(chunk), end][..1] == [Data(chunk)] && [Data(chunk)][..0] == [];
    assert Stream([Data(chunk)]) == "" + U.Decode(chunk) == U.Decode(chunk);
    assert Stream([Data(chunk), end]) == U.Decode(chunk) + "" == U.Decode(chunk);
    assert Chunks([Data(chunk)]) == [chunk];
    assert Chunks([Data(chunk), end]) == [chunk] + [] == [chunk];
  }

  lemma TwoChunksThen(a: seq<U.Byte>, b: seq<U.Byte>, end: Event)
    requires !end.Data?
    ensures [Data(a), Data(b), end][..2] == [Data(a), Data(b)] && Stream([Data(a), Data(b)]) == U.Decode(a) + U.Decode(b)
  {
    hide U.Decode;
    assert [Data(a), Data(b), end][..2] == [Data(a), Data(b)];
    assert [Data(a), Data(b)][..1] == [Data(a)] && [Data(a)][..0] == [];
    assert Stream([Data(a)]) == "" + U.Decode(a) == U.Decode(a);
  }

  /** A cut inside a character can change the outcome: the trial resolves with what the result line says after the character,
      U+00E9 in this case, has been replaced. */
  lemma CutGarblesOutcome(parse: Json, before: string, after: string, code: int)
    requires '\n' !in before && '\n' !in after
    requires var whole, broken := before + "\U{E9}" + after, before + [U.REPLACEMENT, U.REPLACEMENT] + after;
             ParseResultLine(parse, whole).Some? && ParseResultLine(parse, broken).Some?
             && ParseResultLine(parse, whole) != ParseResultLine(parse, broken)
    ensures var whole, broken := before + "\U{E9}" + after, before + [U.REPLACEMENT, U.REPLACEMENT] + after;
            var a, b := U.Encode(before) + [0xC3], [0xA9] + U.Encode(after);
            var uncut, cut := Run(parse, [Data(a + b), Close(code)]), Run(parse, [Data(a), Data(b), Close(code)]);
            && a + b == U.Encode(whole)
            && uncut.resolved == [FromWorker(ParseResultLine(parse, whole).value)]
            && cut.resolved == [FromWorker(ParseResultLine(parse, broken).value)]
            && uncut.resolved != cut.resolved
  {
    hide U.Encode, U.Decode, Run, Stream, BatchOutcome, Charged, U.Flat, U.DecodeChunks, ParseResultLine;
    var a, b := U.Encode(before) + [0xC3], [0xA9] + U.Encode(after);
    var whole, broken := before + "\U{E9}" + after, before + [U.REPLACEMENT, U.REPLACEMENT] + after;
    U.CutCharacterIsLost(before, after);
    U.TwoChunks(a, b);
    U.WholeDecodes(whole);
    OneChunkThen(a + b, Close(code));
    TwoChunksThen(a, b, Close(code));
    OneLineOutcome(parse, whole);
    OneLineOutcome(parse, broken);
    SettlesExactlyOnce(parse, [Data(a + b), Close(code)], 1);
    SettlesExactlyOnce(parse, [Data(a), Data(b), Close(code)], 2);
    assert FromWorker(ParseResultLine(parse, whole).value) != FromWorker(ParseResultLine(parse, broken).value);
  }

  lemma OneLineOutcome(parse: Json, line: string)
    requires '\n' !in line
    ensures BatchOutcome(parse, line) == ParseResultLine(parse, line)
  {
    SplitOfFree(line, '\n');
    assert [line][..0] == [];
    var none: seq<string> := [];
    assert Values(Results(parse), none) == [];
  }

  lemma TwoLines(parse: Json, first: string, second: string)
    requires '\n' !in first && '\n' !in second && ParseMeterLine(parse, first).Some?
    ensures var text := first + ['\n'] + second;
            Values(Meters(parse), Ended(text)) == [ParseMeterLine(parse, first).value] && Unended(text) == second
  {
    SplitAppend(first, '\n', second);
    SplitOfFree(second, '\n');
    PartsAre(first + ['\n'] + second, [first], second);
    OneLineMore(parse, [], first, None);
    NoLines(parse, None);
    assert [] + [first] == [first];
  }
}
