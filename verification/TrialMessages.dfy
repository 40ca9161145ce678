/** What the worker's lines say, from the fields of their messages: the meters relayed, the result, and the charge. */
module TrialMessages {
  import opened Text
  import opened TrialRelay

  /** A line that starts with a brace and parses as a message of this kind. */
  predicate IsMessage(parse: Json, line: string, kind: string) {
    line != "" && line[0] == '{' && parse(line).Some? && parse(line).value.kind == kind
  }

  /** The figures of a meter line; an absent one is zero. */
  predicate SaysMeter(parse: Json, line: string, m: Meter) {
    IsMessage(parse, line, "meter") &&
    var msg := parse(line).value;
    && m.costUsd == (if msg.costUsd == None then 0.0 else msg.costUsd.value)
    && m.tokenIn == (if msg.tokenIn == None then 0 else msg.tokenIn.value)
    && m.tokenOut == (if msg.tokenOut == None then 0 else msg.tokenOut.value)
  }

  predicate SaysResult(parse: Json, line: string, outcome: string) {
    IsMessage(parse, line, "trial-result") && parse(line).value.outcome == Some(outcome)
  }

  lemma BraceFirst(line: string)
    ensures StartsWith(line, "{") <==> line != "" && line[0] == '{'
  {
  }

  lemma MeterLineIff(parse: Json, line: string, m: Meter)
    ensures ParseMeterLine(parse, line) == Some(m) <==> SaysMeter(parse, line, m)
    ensures ParseMeterLine(parse, line).Some? <==> IsMessage(parse, line, "meter")
  {
    BraceFirst(line);
  }

  lemma ResultLineIff(parse: Json, line: string, outcome: string)
    ensures ParseResultLine(parse, line) == Some(outcome) <==> SaysResult(parse, line, outcome)
  {
    BraceFirst(line);
  }

  // ---- Which line each meter is from ----

  ghost predicate AreIndices(at: seq<nat>, n: nat) {
    (forall k :: 0 <= k < |at| ==> at[k] < n) && forall j, k :: 0 <= j < k < |at| ==> at[j] < at[k]
  }

  /** Every value is from a line of its own, in order, and every other line gives none. */
  ghost predicate AreFrom<T>(read: string -> Option<T>, lines: seq<string>, values: seq<T>, at: seq<nat>) {
    && |at| == |values| && AreIndices(at, |lines|)
    && (forall k :: 0 <= k < |at| ==> read(lines[at[k]]) == Some(values[k]))
    && (forall i :: 0 <= i < |lines| && i !in at ==> read(lines[i]).None?)
  }

  lemma OneMoreFrom<T>(read: string -> Option<T>, lines: seq<string>, line: string, values: seq<T>, at: seq<nat>)
    requires AreFrom(read, lines, values, at)
    ensures read(line).Some? ==> AreFrom(read, lines + [line], values + [read(line).value], at + [|lines|])
    ensures read(line).None? ==> AreFrom(read, lines + [line], values, at)
  {
    var at' := at + [|lines|];
    assert at'[|at|] == |lines|;
    assert forall i :: i in at ==> i in at';
  }

  lemma {:induction false} ValuesAt<T>(read: string -> Option<T>, lines: seq<string>) returns (at: seq<nat>)
    ensures AreFrom(read, lines, Values(read, lines), at)
  {
    at := [];
    if lines != [] {
      hide AreFrom;
      var front, last := lines[..|lines| - 1], lines[|lines| - 1];
      at := ValuesAt(read, front);
      OneMoreFrom(read, front, last, Values(read, front), at);
      assert front + [last] == lines;
      if read(last).Some? {
        at := at + [|front|];
      } else {
        assert Values(read, lines) == Values(read, front);
      }
    }
  }

  /** In every run the k-th meter relayed has the figures of the k-th ended meter line of the stream, and no other line relays
      anything. */
  lemma RelayedSayWhatLinesSay(parse: Json, events: seq<Event>) returns (at: seq<nat>)
    ensures var lines, relayed := Ended(Stream(events)), Run(parse, events).relayed;
            && |at| == |relayed| && AreIndices(at, |lines|)
            && (forall k :: 0 <= k < |at| ==> SaysMeter(parse, lines[at[k]], relayed[k]))
            && (forall i :: 0 <= i < |lines| && i !in at ==> !IsMessage(parse, lines[i], "meter"))
  {
    hide Run, Stream, Ended, Unended, Values, ParseMeterLine, SaysMeter, IsMessage;
    RelaysWholeStream(parse, events);
    var lines, relayed := Ended(Stream(events)), Run(parse, events).relayed;
    at := ValuesAt(Meters(parse), lines);
    forall k | 0 <= k < |at| ensures SaysMeter(parse, lines[at[k]], relayed[k]) {
      assert Meters(parse)(lines[at[k]]) == Some(relayed[k]);
      MeterLineIff(parse, lines[at[k]], relayed[k]);
    }
    forall i | 0 <= i < |lines| && i !in at ensures !IsMessage(parse, lines[i], "meter") {
      assert Meters(parse)(lines[i]).None?;
      MeterLineIff(parse, lines[i], ZERO_METER);
    }
  }

  // ---- The charge and the result ----

  /** The last meter line among these has these figures. */
  ghost predicate LastMeterSays(parse: Json, lines: seq<string>, m: Meter) {
    exists i :: 0 <= i < |lines| && SaysMeter(parse, lines[i], m) && forall j :: i < j < |lines| ==> !IsMessage(parse, lines[j], "meter")
  }

  ghost predicate NoMeter(parse: Json, lines: seq<string>) {
    forall i :: 0 <= i < |lines| ==> !IsMessage(parse, lines[i], "meter")
  }

  /** The last result line among these has this outcome. */
  ghost predicate LastResultSays(parse: Json, lines: seq<string>, outcome: string) {
    exists i :: 0 <= i < |lines| && SaysResult(parse, lines[i], outcome) && forall j, o :: i < j < |lines| ==> !SaysResult(parse, lines[j], o)
  }

  ghost predicate NoResult(parse: Json, lines: seq<string>) {
    forall i, o :: 0 <= i < |lines| ==> !SaysResult(parse, lines[i], o)
  }

  /** What a failed trial is charged: the last ended meter line, or else an unended one, or else nothing. */
  ghost predicate IsCharge(parse: Json, text: string, m: Meter) {
    || LastMeterSays(parse, Ended(text), m)
    || (NoMeter(parse, Ended(text)) && SaysMeter(parse, Unended(text), m))
    || (NoMeter(parse, Ended(text)) && NoMeter(parse, [Unended(text)]) && m == Meter(0.0, 0, 0))
  }

  lemma LastMeterIs(parse: Json, lines: seq<string>)
    ensures var values := Values(Meters(parse), lines);
            if values == [] then NoMeter(parse, lines) else LastMeterSays(parse, lines, values[|values| - 1])
  {
    hide ParseMeterLine, SaysMeter, IsMessage, Values;
    var values := Values(Meters(parse), lines);
    var at := ValuesAt(Meters(parse), lines);
    forall i | 0 <= i < |lines| && i !in at ensures !IsMessage(parse, lines[i], "meter") {
      assert Meters(parse)(lines[i]).None?;
      MeterLineIff(parse, lines[i], ZERO_METER);
    }
    if values != [] {
      var i := at[|at| - 1];
      assert Meters(parse)(lines[i]) == Some(values[|values| - 1]);
      MeterLineIff(parse, lines[i], values[|values| - 1]);
    }
  }

  lemma LastResultIs(parse: Json, lines: seq<string>)
    ensures var values := Values(Results(parse), lines);
            if values == [] then NoResult(parse, lines) else LastResultSays(parse, lines, values[|values| - 1])
  {
    hide ParseResultLine, SaysResult, Values;
    var values := Values(Results(parse), lines);
    var at := ValuesAt(Results(parse), lines);
    forall i, o | 0 <= i < |lines| && i !in at ensures !SaysResult(parse, lines[i], o) {
      assert Results(parse)(lines[i]).None?;
      ResultLineIff(parse, lines[i], o);
    }
    if values != [] {
      var i := at[|at| - 1];
      assert Results(parse)(lines[i]) == Some(values[|values| - 1]);
      ResultLineIff(parse, lines[i], values[|values| - 1]);
    }
  }

  lemma ChargeIs(parse: Json, text: string)
    ensures IsCharge(parse, text, Charged(parse, Last(Values(Meters(parse), Ended(text))), text))
  {
    LastMeterIs(parse, Ended(text));
    BatchIsRelayThenTail(parse, text);
    if ParseMeterLine(parse, Unended(text)).Some? {
      MeterLineIff(parse, Unended(text), ParseMeterLine(parse, Unended(text)).value);
    } else {
      MeterLineIff(parse, Unended(text), ZERO_METER);
    }
    hide Values, Ended, Unended, BatchMeter, ParseMeterLine, SaysMeter, IsMessage;
  }

  /** What a trial resolves with, from the lines of the stream up to the event that ends it: at a close the outcome of the last
      result line if there is one; and otherwise a failure that is charged what the meter lines say. */
  lemma ResolvesWithWhatLinesSay(parse: Json, events: seq<Event>, first: nat) returns (m: Meter)
    requires first < |events| && OnlyData(events[..first]) && !events[first].Data?
    ensures var text, resolved := Stream(events[..first]), Run(parse, events).resolved;
            && IsCharge(parse, text, m) && |resolved| == 1
            && match events[first]
               case Timeout => resolved[0] == Failed(TimedOut, m)
               case SpawnError(message) => resolved[0] == Failed(SpawnFailed(message), m)
               case Close(code) =>
                 if NoResult(parse, Split(text, '\n')) then resolved[0] == Failed(ExitedWithoutResult(code), m)
                 else resolved[0].FromWorker? && LastResultSays(parse, Split(text, '\n'), resolved[0].outcome)
  {
    hide Run, Stream, OnlyData, Values, Ended, Unended, Split, IsCharge, Charged, SaysResult;
    var text := Stream(events[..first]);
    SettlesExactlyOnce(parse, events, first);
    m := Charged(parse, Last(Values(Meters(parse), Ended(text))), text);
    ChargeIs(parse, text);
    LastResultIs(parse, Split(text, '\n'));
  }
}
