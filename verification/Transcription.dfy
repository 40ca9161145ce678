/** The receipt transcription oracle of regression/src/oracles/transcription.ts. */
module Transcription {
  import opened Basics
  import opened Exchange
  import opened FirstFitExact
  import opened FirstFitOnRows
  import opened Matching
  import opened Names
  import opened Text

  /** A parsed number; NaN and the infinities are not finite. */
  datatype Num = Finite(value: real) | NotFinite

  datatype Item = Item(name: string, quantity: Num, unitPrice: Option<Num>, totalPrice: Num)

  datatype Parsed = Parsed(lineItems: seq<Item>, subtotal: Option<Num>, tax: Option<Num>, total: Num)

  /** An item whose numbers have passed the finiteness checks. */
  datatype Line = Line(name: string, quantity: real, unitPrice: Option<real>, totalPrice: real)

  /** A row the operator typed in; None is an absent field, or a null unit price; `high` is its confidence. */
  datatype Row = Row(name: string, quantity: Option<real>, unitPrice: Option<real>, totalPrice: real, high: bool)

  datatype Transcript = Transcript(lineItems: seq<Row>, subtotal: Option<real>, tax: Option<real>, total: real)

  const MONEY_TOLERANCE := 0.01
  const QTY_TOLERANCE := 0.0
  const UNIT_PRICE_TOLERANCE := 0.01
  const EPSILON := 0.000000001

  /** `Math.round(usd * 100)`: halves go up. */
  function PriceCents(usd: real): int { (usd * 100.0 + 0.5).Floor }

  predicate WithinMoney(actual: Num, expected: real) {
    actual.Finite? && Abs(actual.value - expected) <= MONEY_TOLERANCE + EPSILON
  }

  datatype Reason = ByName | ByPrice | ByQuantity | ByUnitPrice

  /** `lineSatisfies`: None when the line satisfies the row, otherwise the first reason why not. */
  function Probe(lower: string -> string, p: Line, t: Row): Option<Reason> {
    if NormalizeName(lower, p.name) != NormalizeName(lower, t.name) then Some(ByName)
    else if PriceCents(p.totalPrice) != PriceCents(t.totalPrice) then Some(ByPrice)
    else if t.quantity.Some? && Abs(p.quantity - t.quantity.value) > QTY_TOLERANCE then Some(ByQuantity)
    else if t.unitPrice.Some? && p.unitPrice.Some?
            && Abs(p.unitPrice.value - t.unitPrice.value) > UNIT_PRICE_TOLERANCE + EPSILON then Some(ByUnitPrice)
    else None
  }

  /** The amount rounds to this many cents, halves up. */
  predicate RoundsTo(usd: real, cents: int) { cents as real - 0.5 <= 100.0 * usd < cents as real + 0.5 }

  /** What it means for a line to satisfy a row: the same words in the name, the same cents, the declared quantity exactly, and
      unit prices, where both are given, a cent and a hair apart at most. */
  ghost predicate AgreeOn(lower: string -> string, p: Line, t: Row) {
    && Words(lower(p.name)) == Words(lower(t.name))
    && (exists cents :: RoundsTo(p.totalPrice, cents) && RoundsTo(t.totalPrice, cents))
    && (t.quantity.Some? ==> p.quantity == t.quantity.value)
    && (t.unitPrice.Some? && p.unitPrice.Some? ==> -0.010000001 <= p.unitPrice.value - t.unitPrice.value <= 0.010000001)
  }

  lemma CentsRound(usd: real, cents: int)
    ensures RoundsTo(usd, cents) <==> PriceCents(usd) == cents
  {
    var x := usd * 100.0 + 0.5;
    assert x.Floor as real <= x < x.Floor as real + 1.0;
  }

  lemma SameCentsIff(x: real, y: real)
    ensures PriceCents(x) == PriceCents(y) <==> exists cents :: RoundsTo(x, cents) && RoundsTo(y, cents)
  {
    hide PriceCents, RoundsTo;
    forall cents ensures (RoundsTo(x, cents) <==> PriceCents(x) == cents) && (RoundsTo(y, cents) <==> PriceCents(y) == cents) {
      CentsRound(x, cents);
      CentsRound(y, cents);
    }
    assert RoundsTo(x, PriceCents(x));
  }

  /** A line satisfies a row exactly when they agree. */
  lemma SatisfiedIff(lower: string -> string, p: Line, t: Row)
    ensures Probe(lower, p, t).None? <==>
            && Words(lower(p.name)) == Words(lower(t.name))
            && (exists cents :: RoundsTo(p.totalPrice, cents) && RoundsTo(t.totalPrice, cents))
            && (t.quantity.Some? ==> p.quantity == t.quantity.value)
            && (t.unitPrice.Some? && p.unitPrice.Some? ==> -0.010000001 <= p.unitPrice.value - t.unitPrice.value <= 0.010000001)
  {
    hide Words, NormalizeName, PriceCents, RoundsTo;
    SameNameMeansSameWords(lower, p.name, t.name);
    SameCentsIff(p.totalPrice, t.totalPrice);
  }

  function Satisfies(lower: string -> string): (Line, Row) -> bool {
    (p: Line, t: Row) => Probe(lower, p, t).None?
  }

  function LineKey(lower: string -> string): Line -> (string, int) {
    (p: Line) => (NormalizeName(lower, p.name), PriceCents(p.totalPrice))
  }

  function RowKey(lower: string -> string): Row -> (string, int) {
    (t: Row) => (NormalizeName(lower, t.name), PriceCents(t.totalPrice))
  }

  /** The near-miss search: same name and price, whatever the other fields say. */
  function SameNameAndPrice(lower: string -> string): (Line, Row) -> bool {
    (p: Line, t: Row) => LineKey(lower)(p) == RowKey(lower)(t)
  }

  // ---- Errors ----

  datatype Problem = TotalNotFinite | PriceNotFinite(i: nat) | QuantityNotFinite(i: nat) | UnitPriceNotFinite(i: nat)

  function ItemProblem(li: Item, i: nat): Option<Problem> {
    if li.totalPrice.NotFinite? then Some(PriceNotFinite(i))
    else if li.quantity.NotFinite? then Some(QuantityNotFinite(i))
    else if li.unitPrice.Some? && li.unitPrice.value.NotFinite? then Some(UnitPriceNotFinite(i))
    else None
  }

  /** The numbers of an item are looked at in the order price, quantity, unit price. */
  predicate IsFirstProblem(li: Item, i: nat, problem: Problem) {
    match problem
    case TotalNotFinite => false
    case PriceNotFinite(k) => k == i && li.totalPrice == NotFinite
    case QuantityNotFinite(k) => k == i && li.totalPrice.Finite? && li.quantity == NotFinite
    case UnitPriceNotFinite(k) => k == i && li.totalPrice.Finite? && li.quantity.Finite? && li.unitPrice == Some(NotFinite)
  }

  function FiniteLine(li: Item): Line
    requires ItemProblem(li, 0).None?
  {
    Line(li.name, li.quantity.value, if li.unitPrice.Some? then Some(li.unitPrice.value.value) else None, li.totalPrice.value)
  }

  ghost predicate AllFinite(items: seq<Item>) {
    forall i :: 0 <= i < |items| ==> ItemProblem(items[i], 0).None?
  }

  function Lines(items: seq<Item>): (lines: seq<Line>)
    requires AllFinite(items)
    ensures |lines| == |items| && forall i :: 0 <= i < |lines| ==> lines[i] == FiniteLine(items[i])
  {
    seq(|items|, i requires 0 <= i < |items| => FiniteLine(items[i]))
  }

  // ---- Failures ----

  datatype Failure =
    | Mismatch(item: Line, reason: Option<Reason>) | Hallucinated(item: Line) | Missing(row: Row)
    | SubtotalOff | TaxOff | TotalOff

  datatype Verdict = Pass | Fail(failures: seq<Failure>) | Error(problem: Problem)

  function Diagnose(lower: string -> string, rows: seq<Row>, p: Line): Failure {
    var k := FirstFit(SameNameAndPrice(lower), p, rows);
    if k < |rows| then Mismatch(p, Probe(lower, p, rows[k])) else Hallucinated(p)
  }

  function Diagnoses(lower: string -> string, rows: seq<Row>, unmatched: seq<Line>): (fs: seq<Failure>)
    ensures |fs| == |unmatched|
  {
    if unmatched == [] then []
    else Diagnoses(lower, rows, unmatched[..|unmatched| - 1]) + [Diagnose(lower, rows, unmatched[|unmatched| - 1])]
  }

  function MissingHigh(left: seq<Row>): (fs: seq<Failure>)
    ensures fs == [] <==> forall k :: 0 <= k < |left| ==> !left[k].high
  {
    if left == [] then []
    else MissingHigh(left[..|left| - 1]) + if left[|left| - 1].high then [Missing(left[|left| - 1])] else []
  }

  function Totals(parsed: Parsed, trx: Transcript): seq<Failure> {
    (if trx.subtotal.Some? && parsed.subtotal.Some? && !WithinMoney(parsed.subtotal.value, trx.subtotal.value) then [SubtotalOff] else [])
    + (if trx.tax.Some? && parsed.tax.Some? && !WithinMoney(parsed.tax.value, trx.tax.value) then [TaxOff] else [])
    + (if !WithinMoney(parsed.total, trx.total) then [TotalOff] else [])
  }

  /** The failures of the line items alone. */
  function LineFailures(lower: string -> string, lines: seq<Line>, rows: seq<Row>): seq<Failure> {
    Diagnoses(lower, rows, Unmatched(Satisfies(lower), lines, rows)) + MissingHigh(Rest(Satisfies(lower), lines, rows))
  }

  // ---- The oracle ----

  /** Lines 55-64. */
  method CheckFinite(parsed: Parsed) returns (problem: Option<Problem>, lines: seq<Line>)
    ensures problem.None? <==> parsed.total.Finite? && AllFinite(parsed.lineItems)
    ensures problem.None? ==> lines == Lines(parsed.lineItems)
    ensures problem.Some? && parsed.total.NotFinite? ==> problem.value == TotalNotFinite
    ensures problem.Some? && parsed.total.Finite? ==>
              exists i :: 0 <= i < |parsed.lineItems| && AllFinite(parsed.lineItems[..i]) && IsFirstProblem(parsed.lineItems[i], i, problem.value)
  {
    lines := [];
    if parsed.total.NotFinite? {
      return Some(TotalNotFinite), lines;
    }
    for i := 0 to |parsed.lineItems|
      invariant AllFinite(parsed.lineItems[..i]) && lines == Lines(parsed.lineItems[..i])
    {
      var li := parsed.lineItems[i];
      problem := ItemProblem(li, i);
      if problem.Some? {
        assert IsFirstProblem(li, i, problem.value);
        return;
      }
      assert parsed.lineItems[..i + 1] == parsed.lineItems[..i] + [li];
      lines := lines + [FiniteLine(li)];
    }
    assert parsed.lineItems[..|parsed.lineItems|] == parsed.lineItems;
    problem := None;
  }

  /** Lines 71-80: the first row left that the line satisfies. */
  method FindRow(lower: string -> string, p: Line, remaining: seq<Row>) returns (i: nat)
    ensures i == FirstFit(Satisfies(lower), p, remaining)
  {
    i := 0;
    while i < |remaining| && Probe(lower, p, remaining[i]).Some?
      invariant 0 <= i <= |remaining|
      invariant forall j :: 0 <= j < i ==> !Satisfies(lower)(p, remaining[j])
    {
      i := i + 1;
    }
  }

  /** Lines 68-87: the matcher loop. */
  method MatchLines(lower: string -> string, lines: seq<Line>, rows: seq<Row>) returns (remaining: seq<Row>, unmatched: seq<Line>)
    ensures remaining == Rest(Satisfies(lower), lines, rows)
    ensures unmatched == Unmatched(Satisfies(lower), lines, rows)
  {
    hide Satisfies;
    remaining, unmatched := rows, [];
    for n := 0 to |lines|
      invariant remaining == Rest(Satisfies(lower), lines[..n], rows)
      invariant unmatched == Unmatched(Satisfies(lower), lines[..n], rows)
    {
      OneMoreDriver(Satisfies(lower), lines, n, rows);
      var i := FindRow(lower, lines[n], remaining);
      if i < |remaining| {
        remaining := Remove(remaining, i);
      } else {
        unmatched := unmatched + [lines[n]];
      }
    }
    assert lines[..|lines|] == lines;
  }

  lemma OneMoreDiagnosis(lower: string -> string, rows: seq<Row>, unmatched: seq<Line>, n: nat)
    requires n < |unmatched|
    ensures Diagnoses(lower, rows, unmatched[..n + 1]) == Diagnoses(lower, rows, unmatched[..n]) + [Diagnose(lower, rows, unmatched[n])]
  {
    assert unmatched[..n + 1][..n] == unmatched[..n];
  }

  lemma NoDiagnosis(lower: string -> string, rows: seq<Row>)
    ensures Diagnoses(lower, rows, []) == [] && MissingHigh([]) == []
  {
  }

  lemma OneMoreRow(left: seq<Row>, n: nat)
    requires n < |left|
    ensures MissingHigh(left[..n + 1]) == MissingHigh(left[..n]) + if left[n].high then [Missing(left[n])] else []
  {
    assert left[..n + 1][..n] == left[..n];
  }

  /** Lines 90-115: one failure for each unmatched item, and one for each high-confidence row left. */
  method DiagnoseLines(lower: string -> string, rows: seq<Row>, remaining: seq<Row>, unmatched: seq<Line>) returns (failures: seq<Failure>)
    ensures failures == Diagnoses(lower, rows, unmatched) + MissingHigh(remaining)
  {
    NoDiagnosis(lower, rows);
    hide Diagnoses, MissingHigh, Diagnose;
    failures := [];
    for n := 0 to |unmatched|
      invariant failures == Diagnoses(lower, rows, unmatched[..n])
    {
      OneMoreDiagnosis(lower, rows, unmatched, n);
      failures := failures + [Diagnose(lower, rows, unmatched[n])];
    }
    assert unmatched[..|unmatched|] == unmatched;
    for n := 0 to |remaining|
      invariant failures == Diagnoses(lower, rows, unmatched) + MissingHigh(remaining[..n])
    {
      OneMoreRow(remaining, n);
      if remaining[n].high {
        failures := failures + [Missing(remaining[n])];
      }
    }
    assert remaining[..|remaining|] == remaining;
  }

  /** Lines 118-132. */
  method CheckTotals(parsed: Parsed, trx: Transcript) returns (failures: seq<Failure>)
    ensures failures == Totals(parsed, trx)
  {
    failures := [];
    if trx.subtotal.Some? && parsed.subtotal.Some? {
      if !WithinMoney(parsed.subtotal.value, trx.subtotal.value) {
        failures := failures + [SubtotalOff];
      }
    }
    if trx.tax.Some? && parsed.tax.Some? {
      if !WithinMoney(parsed.tax.value, trx.tax.value) {
        failures := failures + [TaxOff];
      }
    }
    if !WithinMoney(parsed.total, trx.total) {
      failures := failures + [TotalOff];
    }
  }

  /** An amount is right when it is not given on either side, or finite and within a cent and a hair. */
  predicate IsRight(parsed: Option<Num>, expected: Option<real>) {
    parsed.Some? && expected.Some? ==>
      parsed.value.Finite? && -0.010000001 <= parsed.value.value - expected.value <= 0.010000001
  }

  /** There is no failure of the totals exactly when all three are right, and one for each that is not. */
  lemma TotalsAreRight(parsed: Parsed, trx: Transcript)
    ensures Totals(parsed, trx) == []
       <==> IsRight(parsed.subtotal, trx.subtotal) && IsRight(parsed.tax, trx.tax) && IsRight(Some(parsed.total), Some(trx.total))
    ensures SubtotalOff in Totals(parsed, trx) <==> !IsRight(parsed.subtotal, trx.subtotal)
    ensures TaxOff in Totals(parsed, trx) <==> !IsRight(parsed.tax, trx.tax)
    ensures TotalOff in Totals(parsed, trx) <==> !IsRight(Some(parsed.total), Some(trx.total))
  {
  }

  /** All three totals are right. */
  predicate TotalsFit(parsed: Parsed, trx: Transcript) {
    IsRight(parsed.subtotal, trx.subtotal) && IsRight(parsed.tax, trx.tax) && IsRight(Some(parsed.total), Some(trx.total))
  }

  ghost function Agree(lower: string -> string): (Line, Row) -> bool {
    (p: Line, t: Row) => AgreeOn(lower, p, t)
  }

  lemma AgreeIsSatisfies(lower: string -> string, lines: seq<Line>, rows: seq<Row>)
    ensures Rest(Satisfies(lower), lines, rows) == Rest(Agree(lower), lines, rows)
    ensures Unmatched(Satisfies(lower), lines, rows) == Unmatched(Agree(lower), lines, rows)
  {
    hide Probe, RoundsTo, Words, Rest, Unmatched;
    forall p, t ensures Satisfies(lower)(p, t) <==> Agree(lower)(p, t) {
      SatisfiedIff(lower, p, t);
    }
    SameRelation(Satisfies(lower), Agree(lower), lines, rows);
  }

  predicate HasNotFinite(li: Item) {
    li.totalPrice.NotFinite? || li.quantity.NotFinite? || (li.unitPrice.Some? && li.unitPrice.value.NotFinite?)
  }

  lemma FiniteItems(items: seq<Item>)
    ensures AllFinite(items) <==> forall i :: 0 <= i < |items| ==> !HasNotFinite(items[i])
  {
  }

  /** No failure exactly when first fit over agreement gives every item a row and leaves no high-confidence row, and the totals
      are right. */
  lemma NoFailureIff(lower: string -> string, parsed: Parsed, trx: Transcript)
    requires AllFinite(parsed.lineItems)
    ensures LineFailures(lower, Lines(parsed.lineItems), trx.lineItems) + Totals(parsed, trx) == [] <==>
            && Unmatched(Agree(lower), Lines(parsed.lineItems), trx.lineItems) == []
            && (forall k :: 0 <= k < |Rest(Agree(lower), Lines(parsed.lineItems), trx.lineItems)| ==>
                              !Rest(Agree(lower), Lines(parsed.lineItems), trx.lineItems)[k].high)
            && TotalsFit(parsed, trx)
  {
    var lines := Lines(parsed.lineItems);
    TotalsAreRight(parsed, trx);
    NoLineFailures(lower, lines, trx.lineItems);
    AgreeIsSatisfies(lower, lines, trx.lineItems);
    hide Totals, LineFailures, Rest, Unmatched, Satisfies, Agree, AllFinite, IsRight;
    var x, y := LineFailures(lower, lines, trx.lineItems), Totals(parsed, trx);
    assert |x + y| == |x| + |y|;
  }

  method RunTranscriptionOracle(lower: string -> string, parsed: Parsed, trx: Transcript) returns (v: Verdict)
    ensures v.Error? <==> parsed.total.NotFinite? || !AllFinite(parsed.lineItems)
    ensures !v.Error? ==>
              var failures := LineFailures(lower, Lines(parsed.lineItems), trx.lineItems) + Totals(parsed, trx);
              v == if failures == [] then Pass else Fail(failures)
    ensures v.Error? <==>
            || parsed.total.NotFinite?
            || exists i :: 0 <= i < |parsed.lineItems| && HasNotFinite(parsed.lineItems[i])
    ensures v.Pass? <==>
            && parsed.total.Finite? && AllFinite(parsed.lineItems) && Unmatched(Agree(lower), Lines(parsed.lineItems), trx.lineItems) == []
            && (forall k :: 0 <= k < |Rest(Agree(lower), Lines(parsed.lineItems), trx.lineItems)| ==>
                              !Rest(Agree(lower), Lines(parsed.lineItems), trx.lineItems)[k].high)
            && TotalsFit(parsed, trx)
  {
    FiniteItems(parsed.lineItems);
    if AllFinite(parsed.lineItems) {
      NoFailureIff(lower, parsed, trx);
    }
    hide Satisfies, Agree, Totals, TotalsFit, AllFinite, Rest, Unmatched, Diagnoses, MissingHigh;
    var problem, lines := CheckFinite(parsed);
    if problem.Some? {
      return Error(problem.value);
    }
    var remaining, unmatched := MatchLines(lower, lines, trx.lineItems);
    var failures := DiagnoseLines(lower, trx.lineItems, remaining, unmatched);
    var totals := CheckTotals(parsed, trx);
    failures := failures + totals;
    v := if failures == [] then Pass else Fail(failures);
  }

  // ---- What the failures say ----

  lemma {:induction false} DiagnosesAreDiagnoses(lower: string -> string, rows: seq<Row>, unmatched: seq<Line>, k: nat)
    requires k < |unmatched|
    ensures Diagnoses(lower, rows, unmatched)[k] == Diagnose(lower, rows, unmatched[k])
  {
    hide Diagnose;
    if k < |unmatched| - 1 {
      DiagnosesAreDiagnoses(lower, rows, unmatched[..|unmatched| - 1], k);
    }
  }

  ghost predicate SameWordsAndCents(lower: string -> string, p: Line, t: Row) {
    Words(lower(p.name)) == Words(lower(t.name)) && exists cents :: RoundsTo(p.totalPrice, cents) && RoundsTo(t.totalPrice, cents)
  }

  /** The first row, taken or not, that has the words and the cents of the item. */
  ghost predicate IsFirstNear(lower: string -> string, p: Line, rows: seq<Row>, k: nat) {
    k < |rows| && SameWordsAndCents(lower, p, rows[k]) && forall j :: 0 <= j < k ==> !SameWordsAndCents(lower, p, rows[j])
  }

  /** What is wrong with a row of the same words and cents: the quantity, else the unit price, else only that it was taken. */
  function WrongWith(p: Line, t: Row): Option<Reason> {
    if t.quantity.Some? && p.quantity != t.quantity.value then Some(ByQuantity)
    else if t.unitPrice.Some? && p.unitPrice.Some? && !(-0.010000001 <= p.unitPrice.value - t.unitPrice.value <= 0.010000001) then Some(ByUnitPrice)
    else None
  }

  /** The failure of an item without a row: hallucinated when no row at all has its words and cents; otherwise what is wrong with the
      first that has. */
  lemma DiagnosisSays(lower: string -> string, rows: seq<Row>, unmatched: seq<Line>, n: nat)
    requires n < |unmatched|
    ensures var p, f := unmatched[n], Diagnoses(lower, rows, unmatched)[n];
            && (f == Hallucinated(p) <==> forall k :: 0 <= k < |rows| ==> !SameWordsAndCents(lower, p, rows[k]))
            && (forall k: nat :: IsFirstNear(lower, p, rows, k) ==> f == Mismatch(p, WrongWith(p, rows[k])))
  {
    DiagnosesAreDiagnoses(lower, rows, unmatched, n);
    hide Diagnoses, Diagnose, SameWordsAndCents, WrongWith;
    OneDiagnosisSays(lower, rows, unmatched[n]);
  }

  lemma OneDiagnosisSays(lower: string -> string, rows: seq<Row>, p: Line)
    ensures Diagnose(lower, rows, p) == Hallucinated(p) <==> forall k :: 0 <= k < |rows| ==> !SameWordsAndCents(lower, p, rows[k])
    ensures forall k: nat :: IsFirstNear(lower, p, rows, k) ==> Diagnose(lower, rows, p) == Mismatch(p, WrongWith(p, rows[k]))
  {
    hide SameNameAndPrice, SameWordsAndCents, Probe, WrongWith;
    var first := FirstFit(SameNameAndPrice(lower), p, rows);
    forall k | 0 <= k < |rows| ensures SameNameAndPrice(lower)(p, rows[k]) <==> SameWordsAndCents(lower, p, rows[k]) {
      SameKeyIff(lower, p, rows[k]);
    }
    if first < |rows| {
      ReasonIsWhatIsWrong(lower, p, rows[first]);
    }
  }

  lemma SameKeyMeans(lower: string -> string, p: Line, t: Row)
    ensures SameNameAndPrice(lower)(p, t)
       <==> NormalizeName(lower, p.name) == NormalizeName(lower, t.name) && PriceCents(p.totalPrice) == PriceCents(t.totalPrice)
  {
    hide NormalizeName, PriceCents;
    assert LineKey(lower)(p) == (NormalizeName(lower, p.name), PriceCents(p.totalPrice));
    assert RowKey(lower)(t) == (NormalizeName(lower, t.name), PriceCents(t.totalPrice));
  }

  lemma ReasonIsWhatIsWrong(lower: string -> string, p: Line, t: Row)
    requires SameNameAndPrice(lower)(p, t)
    ensures Probe(lower, p, t) == WrongWith(p, t)
  {
    SameKeyMeans(lower, p, t);
    hide NormalizeName, PriceCents, SameNameAndPrice;
  }

  lemma SameKeyIff(lower: string -> string, p: Line, t: Row)
    ensures SameNameAndPrice(lower)(p, t) <==> SameWordsAndCents(lower, p, t)
  {
    SameKeyMeans(lower, p, t);
    hide Words, NormalizeName, PriceCents, RoundsTo, SameNameAndPrice;
    SameNameMeansSameWords(lower, p.name, t.name);
    SameCentsIff(p.totalPrice, t.totalPrice);
  }

  /** Each high-confidence row left is reported, as often as it is left, and no other row. */
  lemma {:induction false} MissingAreHighRows(left: seq<Row>, row: Row)
    ensures multiset(MissingHigh(left))[Missing(row)] == if row.high then multiset(left)[row] else 0
  {
    if left != [] {
      var front, last := left[..|left| - 1], left[|left| - 1];
      MissingAreHighRows(front, row);
      OneMore(front, last, row);
      assert front + [last] == left;
      if last.high {
        OneMore(MissingHigh(front), Missing(last), Missing(row));
      } else {
        assert MissingHigh(left) == MissingHigh(front);
      }
    }
  }

  // ---- What a verdict means ----

  lemma NoLineFailures(lower: string -> string, lines: seq<Line>, rows: seq<Row>)
    ensures LineFailures(lower, lines, rows) == [] <==>
            (Unmatched(Satisfies(lower), lines, rows) == []
             && forall k :: 0 <= k < |Rest(Satisfies(lower), lines, rows)| ==> !Rest(Satisfies(lower), lines, rows)[k].high)
  {
    hide Diagnoses, MissingHigh, Satisfies, Rest, Unmatched;
    var diagnoses := Diagnoses(lower, rows, Unmatched(Satisfies(lower), lines, rows));
    var missing := MissingHigh(Rest(Satisfies(lower), lines, rows));
    assert |LineFailures(lower, lines, rows)| == |diagnoses| + |missing|;
    assert LineFailures(lower, lines, rows) == diagnoses + missing;
    if LineFailures(lower, lines, rows) == [] {
      assert |diagnoses| == 0 && |missing| == 0;
      assert missing == [];
    }
  }

  /** A pass gives each parsed item a row of its own that it satisfies, and every high-confidence row is one of them. */
  lemma PassCoversEveryHighRow(lower: string -> string, lines: seq<Line>, rows: seq<Row>) returns (choice: seq<Option<nat>>)
    requires LineFailures(lower, lines, rows) == []
    ensures IsMatching(Satisfies(lower), lines, rows, choice) && AllSome(choice)
    ensures forall r: nat :: r < |rows| && rows[r].high ==> Some(r) in choice
  {
    NoLineFailures(lower, lines, rows);
    GreedyIsMatching(Satisfies(lower), lines, rows);
    UnmatchedAreNone(Satisfies(lower), lines, rows);
    RestIsFree(Satisfies(lower), lines, rows);
    var p := Greedy(Satisfies(lower), lines, rows);
    choice := p.choice;
    forall k | 0 <= k < |p.free| ensures !rows[p.free[k]].high {
      assert !Rest(Satisfies(lower), lines, rows)[k].high;
    }
  }

  /** However the rows could be handed out, the oracle reports at most one failed item in two of those that could be
      matched: the items without a failure are at least half of any matching. */
  lemma FailedItemsAtMostHalf(lower: string -> string, lines: seq<Line>, rows: seq<Row>, other: seq<Option<nat>>)
    requires IsMatching(Satisfies(lower), lines, rows, other)
    ensures |Matched(other)| <= 2 * (|lines| - |Diagnoses(lower, rows, Unmatched(Satisfies(lower), lines, rows))|)
  {
    UnmatchedCount(Satisfies(lower), lines, rows);
    GreedyIsHalfOfBest(Satisfies(lower), lines, rows, other);
  }

  /** A failed item satisfies none of the rows the oracle calls left over. */
  lemma FailedItemsFitNothingLeft(lower: string -> string, lines: seq<Line>, rows: seq<Row>, p: Line, t: Row)
    requires p in Unmatched(Satisfies(lower), lines, rows) && t in Rest(Satisfies(lower), lines, rows)
    ensures Probe(lower, p, t).Some?
  {
    UnmatchedFitsNoRest(Satisfies(lower), lines, rows, p, t);
    assert !Satisfies(lower)(p, t);
  }

  // ---- The exact case ----

  ghost predicate OnlyNamesAndPrices(rows: seq<Row>) {
    forall k :: 0 <= k < |rows| ==> rows[k].quantity.None? && rows[k].unitPrice.None?
  }

  lemma KeysDecide(lower: string -> string, lines: seq<Line>, rows: seq<Row>)
    requires OnlyNamesAndPrices(rows)
    ensures SameKey(Satisfies(lower), LineKey(lower), RowKey(lower), lines, rows)
  {
    forall p, t | p in lines && t in rows ensures Satisfies(lower)(p, t) <==> LineKey(lower)(p) == RowKey(lower)(t) {
      assert t.quantity.None? && t.unitPrice.None?;
    }
  }

  /** With high-confidence rows that declare no quantity or unit price, the line items pass exactly when both sides list
      the same names and cents the same number of times. */
  lemma ExactWhenAllHigh(lower: string -> string, lines: seq<Line>, rows: seq<Row>)
    requires OnlyNamesAndPrices(rows) && forall k :: 0 <= k < |rows| ==> rows[k].high
    ensures LineFailures(lower, lines, rows) == []
       <==> multiset(Keys(LineKey(lower), lines)) == multiset(Keys(RowKey(lower), rows))
  {
    NoLineFailures(lower, lines, rows);
    KeysDecide(lower, lines, rows);
    ExactWhenKeysDecide(Satisfies(lower), LineKey(lower), RowKey(lower), lines, rows);
    RestIsAmongRows(Satisfies(lower), lines, rows);
    var left := Rest(Satisfies(lower), lines, rows);
    if left != [] {
      assert left[0] in rows;
      assert left[0].high;
    }
  }

  /** With any confidences, the line items pass exactly when the rows list every parsed name and price often enough, and
      each high-confidence row comes among the first that many rows of its name and price. */
  lemma ExactWithLowRows(lower: string -> string, lines: seq<Line>, rows: seq<Row>)
    requires OnlyNamesAndPrices(rows)
    ensures LineFailures(lower, lines, rows) == []
       <==> (multiset(Keys(LineKey(lower), lines)) <= multiset(Keys(RowKey(lower), rows))
             && forall r: nat :: r < |rows| && rows[r].high ==>
                  Earlier(RowKey(lower), rows, r) < Count(LineKey(lower), lines, RowKey(lower)(rows[r])))
  {
    NoLineFailures(lower, lines, rows);
    KeysDecide(lower, lines, rows);
    UnmatchedIsExcess(Satisfies(lower), LineKey(lower), RowKey(lower), lines, rows);
    HighRowsTaken(lower, lines, rows);
  }

  lemma HighRowsTaken(lower: string -> string, lines: seq<Line>, rows: seq<Row>)
    requires SameKey(Satisfies(lower), LineKey(lower), RowKey(lower), lines, rows)
    ensures (forall k :: 0 <= k < |Rest(Satisfies(lower), lines, rows)| ==> !Rest(Satisfies(lower), lines, rows)[k].high)
       <==> forall r: nat :: r < |rows| && rows[r].high ==>
              Earlier(RowKey(lower), rows, r) < Count(LineKey(lower), lines, RowKey(lower)(rows[r]))
  {
    FirstRowsOfEachKeyGo(Satisfies(lower), LineKey(lower), RowKey(lower), lines, rows);
    RestIsFree(Satisfies(lower), lines, rows);
    var left, free := Rest(Satisfies(lower), lines, rows), Greedy(Satisfies(lower), lines, rows).free;
    forall r: nat | r < |rows| && r in free && rows[r].high ensures exists k :: 0 <= k < |left| && left[k].high {
      var k :| 0 <= k < |free| && free[k] == r;
      assert left[k] == rows[r];
    }
    forall k | 0 <= k < |left| && left[k].high ensures free[k] in free && rows[free[k]].high {
    }
  }

  // ---- Exactly when the oracle decides whether the lines can be given rows ----

  function High(): Row -> bool { (t: Row) => t.high }

  /** Some line can satisfy both rows. */
  predicate Overlap(lower: string -> string, t: Row, u: Row) {
    RowKey(lower)(t) == RowKey(lower)(u) && (t.quantity.Some? && u.quantity.Some? ==> t.quantity == u.quantity)
  }

  /** Every line that satisfies the first of two overlapping rows satisfies the second. */
  predicate Covers(t: Row, u: Row) {
    (u.quantity.Some? ==> t.quantity == u.quantity) && (u.unitPrice.Some? ==> t.unitPrice == u.unitPrice)
  }

  /** What can be read off the transcript: an earlier row that shares a line with a later one declares the later one's
      quantity and unit price, if any, and is of high confidence if the later one is. */
  predicate RowsDecide(lower: string -> string, rows: seq<Row>) {
    forall p, q :: 0 <= p < q < |rows| && Overlap(lower, rows[p], rows[q]) ==> Covers(rows[p], rows[q]) && (rows[q].high ==> rows[p].high)
  }

  /** A line made for a row, or for two overlapping rows, the quantity being that of either. */
  function LineFor(t: Row, quantity: Option<real>, unitPrice: Option<real>): Line {
    Line(t.name, if quantity.Some? then quantity.value else 1.0, unitPrice, t.totalPrice)
  }

  function Either(a: Option<real>, b: Option<real>): Option<real> { if a.Some? then a else b }

  lemma SharedLineMeansOverlap(lower: string -> string, t: Row, u: Row, d: Line)
    requires Probe(lower, d, t).None? && Probe(lower, d, u).None?
    ensures Overlap(lower, t, u)
  {
    hide NormalizeName, PriceCents;
  }

  lemma CoveredLineFits(lower: string -> string, t: Row, u: Row, e: Line)
    requires Overlap(lower, t, u) && Covers(t, u) && Probe(lower, e, t).None?
    ensures Probe(lower, e, u).None?
  {
    hide NormalizeName, PriceCents;
  }

  lemma LineForBoth(lower: string -> string, t: Row, u: Row) returns (d: Line)
    requires Overlap(lower, t, u)
    ensures Probe(lower, d, t).None? && Probe(lower, d, u).None?
  {
    hide NormalizeName, PriceCents;
    d := LineFor(t, Either(t.quantity, u.quantity), None);
  }

  /** A line that satisfies the first row and not the second, when the first does not cover the second. */
  lemma LineForFirstOnly(lower: string -> string, t: Row, u: Row) returns (e: Line)
    requires Overlap(lower, t, u)
    ensures !Covers(t, u) ==> Probe(lower, e, t).None? && Probe(lower, e, u).Some?
  {
    hide NormalizeName, PriceCents;
    e := LineFor(t, None, None);
    if u.quantity.Some? && t.quantity != u.quantity {
      e := LineFor(t, Some(u.quantity.value + 1.0), None);
    } else if u.unitPrice.Some? {
      var tolerance := UNIT_PRICE_TOLERANCE + EPSILON;
      var price := if t.unitPrice.None? then u.unitPrice.value + 1.0
                   else if t.unitPrice.value < u.unitPrice.value then t.unitPrice.value - tolerance
                   else t.unitPrice.value + tolerance;
      e := LineFor(t, Either(t.quantity, u.quantity), Some(price));
    }
  }

  lemma DecidedRowsNest(lower: string -> string, rows: seq<Row>)
    requires RowsDecide(lower, rows)
    ensures RowsNest(Satisfies(lower), rows) && MustComeFirst(Satisfies(lower), High(), rows)
  {
    hide Probe, Overlap, Covers;
    forall p, q, d, e | 0 <= p < q < |rows| && Always<Line>()(d) && Always<Line>()(e)
      ensures ExchangesAt(Flip(Satisfies(lower)), rows[p], rows[q], d, e)
    {
      if Probe(lower, d, rows[p]).None? && Probe(lower, d, rows[q]).None? && Probe(lower, e, rows[p]).None? {
        SharedLineMeansOverlap(lower, rows[p], rows[q], d);
        CoveredLineFits(lower, rows[p], rows[q], e);
      }
    }
    forall p, q, d | 0 <= p < q < |rows| ensures PrefersMustAt(Satisfies(lower), High(), d, rows[p], rows[q]) {
      if Probe(lower, d, rows[p]).None? && Probe(lower, d, rows[q]).None? {
        SharedLineMeansOverlap(lower, rows[p], rows[q], d);
      }
    }
  }

  lemma NestedRowsDecide(lower: string -> string, rows: seq<Row>, p: nat, q: nat)
    requires RowsNest(Satisfies(lower), rows) && MustComeFirst(Satisfies(lower), High(), rows)
    requires p < q < |rows| && Overlap(lower, rows[p], rows[q])
    ensures Covers(rows[p], rows[q]) && (rows[q].high ==> rows[p].high)
  {
    hide Probe, Overlap, Covers;
    var d := LineForBoth(lower, rows[p], rows[q]);
    assert PrefersMustAt(Satisfies(lower), High(), d, rows[p], rows[q]);
    var e := LineForFirstOnly(lower, rows[p], rows[q]);
    assert Always<Line>()(d) && Always<Line>()(e);
    assert ExchangesAt(Flip(Satisfies(lower)), rows[p], rows[q], d, e);
  }

  lemma EveryRowHasLine(lower: string -> string, t: Row)
    ensures HasRow(Flip(Satisfies(lower)), Always(), t)
  {
    hide NormalizeName, PriceCents;
    var d := LineFor(t, t.quantity, None);
    assert Always<Line>()(d) && Flip(Satisfies(lower))(t, d);
  }

  lemma NoFailuresIsSuccess(lower: string -> string, lines: seq<Line>, rows: seq<Row>)
    ensures LineFailures(lower, lines, rows) == [] <==> Succeeds(Satisfies(lower), High(), lines, rows)
  {
    hide LineFailures, Satisfies, Unmatched, Rest;
    NoLineFailures(lower, lines, rows);
    var left := Rest(Satisfies(lower), lines, rows);
    assert forall k :: 0 <= k < |left| ==> (High()(left[k]) <==> left[k].high);
  }

  /** The line items pass exactly when every line can be given a row of its own with every high-confidence row among them,
      whatever the lines are, if and only if the rows decide. */
  lemma PassesExactlyTheCoverableIff(lower: string -> string, rows: seq<Row>)
    ensures (forall lines :: LineFailures(lower, lines, rows) == [] <==> CanSucceed(Satisfies(lower), High(), lines, rows))
       <==> RowsDecide(lower, rows)
  {
    hide LineFailures, Satisfies, Succeeds, CanSucceed, HasRow, Overlap, Covers, RowsNest, MustComeFirst, High;
    forall t | t in rows && High()(t) ensures HasRow(Flip(Satisfies(lower)), Always(), t) {
      EveryRowHasLine(lower, t);
    }
    SucceedsWheneverPossibleIff(Satisfies(lower), High(), rows);
    forall lines: seq<Line> ensures LineFailures(lower, lines, rows) == [] <==> Succeeds(Satisfies(lower), High(), lines, rows) {
      NoFailuresIsSuccess(lower, lines, rows);
    }
    if RowsDecide(lower, rows) {
      DecidedRowsNest(lower, rows);
    }
    if RowsNest(Satisfies(lower), rows) && MustComeFirst(Satisfies(lower), High(), rows) {
      forall p: nat, q: nat | p < q < |rows| && Overlap(lower, rows[p], rows[q])
        ensures Covers(rows[p], rows[q]) && (rows[q].high ==> rows[p].high)
      {
        NestedRowsDecide(lower, rows, p, q);
      }
    }
  }

  // ---- Where first fit is not enough ----

  const TEA := Line("tea", 1.0, None, 4.0)
  const TWO_TEAS := Line("tea", 2.0, None, 4.0)
  const TEA_ROWS := [Row("tea", None, None, 4.0, true), Row("tea", Some(1.0), None, 4.0, true)]

  lemma TeaFits(lower: string -> string)
    ensures var sat := Satisfies(lower);
            && sat(TEA, TEA_ROWS[0]) && sat(TEA, TEA_ROWS[1])
            && sat(TWO_TEAS, TEA_ROWS[0]) && !sat(TWO_TEAS, TEA_ROWS[1])
  {
  }

  /** First fit is not best fit: these two items can be given a row each, and the oracle still reports a failure. */
  lemma FirstFitCanMissAPairing(lower: string -> string)
    ensures IsMatching(Satisfies(lower), [TEA, TWO_TEAS], TEA_ROWS, [Some(1), Some(0)])
    ensures LineFailures(lower, [TEA, TWO_TEAS], TEA_ROWS) != []
  {
    TeaFits(lower);
    hide Satisfies;
    HalfIsReached(Satisfies(lower), TEA, TWO_TEAS, TEA_ROWS[0], TEA_ROWS[1]);
    NoLineFailures(lower, [TEA, TWO_TEAS], TEA_ROWS);
  }
}
