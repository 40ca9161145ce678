/** The multisetRows block of the structural oracle: lines 130-207 of regression/src/oracles/structural.ts. */
module MultisetRows {
  import opened Basics
  import opened Exchange
  import opened FirstFitExact
  import opened Matching
  import opened Text

  /** A JSON value under a field name; an absent field is not in the map. */
  datatype Field = Number(value: real) | NotFinite | NotNumber

  /** A record, with the value of its key field when that is a string. */
  datatype Row = Row(key: Option<string>, fields: map<string, Field>)

  datatype Item = NotObject | Object(row: Row)

  datatype ValueField = ValueField(name: string, tolerance: real)

  datatype Verdict =
    | Pass | NotAnArray | BadExpected(row: Row) | BadValue(name: string)
    | MissingRows(rows: seq<Row>) | ExtraRows(rows: seq<Row>)

  /** Lines 182-187: an undeclared field is not looked at. */
  predicate FieldFits(vf: ValueField, e: Row, a: Row) {
    vf.name in e.fields ==>
      && vf.name in a.fields && e.fields[vf.name].Number? && a.fields[vf.name].Number?
      && Abs(e.fields[vf.name].value - a.fields[vf.name].value) <= vf.tolerance
  }

  predicate AllFit(vfs: seq<ValueField>, e: Row, a: Row) {
    forall k :: 0 <= k < |vfs| ==> FieldFits(vfs[k], e, a)
  }

  function Fits(vfs: seq<ValueField>): (Row, Row) -> bool {
    (e: Row, a: Row) => AllFit(vfs, e, a)
  }

  /** The row predicate without the buckets: equal keys and every declared field within tolerance. */
  function Satisfies(vfs: seq<ValueField>): (Row, Row) -> bool {
    (e: Row, a: Row) => e.key == a.key && AllFit(vfs, e, a)
  }

  predicate AllKeyed(rows: seq<Row>) {
    forall k :: 0 <= k < |rows| ==> rows[k].key.Some?
  }

  // ---- Buckets ----

  function Bucket(rows: seq<Row>, key: string): seq<Row> {
    if rows == [] then []
    else (if rows[0].key == Some(key) then [rows[0]] else []) + Bucket(rows[1..], key)
  }

  lemma {:induction false} BucketPushed(rows: seq<Row>, row: Row, key: string)
    ensures Bucket(rows + [row], key) == Bucket(rows, key) + if row.key == Some(key) then [row] else []
  {
    if rows == [] {
      assert [row][1..] == [];
    } else {
      BucketPushed(rows[1..], row, key);
      assert (rows + [row])[1..] == rows[1..] + [row];
    }
  }

  lemma {:induction false} BucketIsEmpty(rows: seq<Row>, key: string)
    ensures Bucket(rows, key) == [] <==> forall k :: 0 <= k < |rows| ==> rows[k].key != Some(key)
  {
    if rows != [] {
      BucketIsEmpty(rows[1..], key);
      assert rows[0].key != Some(key) && Bucket(rows[1..], key) == [] ==>
          forall k :: 0 <= k < |rows| ==> rows[k].key != Some(key) by {
        if rows[0].key != Some(key) && Bucket(rows[1..], key) == [] {
          forall k | 0 <= k < |rows| ensures rows[k].key != Some(key) {
            assert k > 0 ==> rows[k] == rows[1..][k - 1];
          }
        }
      }
      assert forall k :: 0 <= k < |rows| - 1 ==> rows[1..][k] == rows[k + 1];
    }
  }

  /** The keys of the rows in the order of their first row, each once. */
  function Order(rows: seq<Row>): seq<string> {
    if rows == [] then []
    else AddKey(Order(rows[..|rows| - 1]), rows[|rows| - 1].key)
  }

  function AddKey(order: seq<string>, key: Option<string>): seq<string> {
    if key.None? || key.value in order then order else order + [key.value]
  }

  /** A `Map` from keys to lists of rows, which remembers the order in which keys were first set. */
  datatype BucketMap = BucketMap(order: seq<string>, lists: map<string, seq<Row>>) {
    /** `map.get(key) ?? []` */
    function Get(key: string): seq<Row> {
      if key in lists then lists[key] else []
    }

    /** `map.set(key, list)` */
    function Set(key: string, list: seq<Row>): BucketMap {
      BucketMap(AddKey(order, Some(key)), lists[key := list])
    }
  }

  /** The map holds the rows of each key, in order, under their keys in order. */
  ghost predicate Buckets(m: BucketMap, rows: seq<Row>) {
    m.order == Order(rows) && forall key :: m.Get(key) == Bucket(rows, key)
  }

  /** Lines 145-147 and 166-168. */
  method PushRow(m: BucketMap, ghost rows: seq<Row>, row: Row) returns (r: BucketMap)
    requires row.key.Some? && Buckets(m, rows)
    ensures Buckets(r, rows + [row])
  {
    var list := m.Get(row.key.value);
    r := m.Set(row.key.value, list + [row]);
    assert (rows + [row])[..|rows|] == rows;
    forall k ensures r.Get(k) == Bucket(rows + [row], k) {
      BucketPushed(rows, row, k);
    }
  }

  /** Lines 136-148. */
  method BucketExpected(expected: seq<Row>) returns (bad: Option<Row>, byKey: BucketMap)
    ensures bad.None? <==> AllKeyed(expected)
    ensures bad.None? ==> Buckets(byKey, expected)
    ensures bad.Some? ==> exists i :: 0 <= i < |expected| && AllKeyed(expected[..i]) && expected[i].key.None? && bad == Some(expected[i])
  {
    byKey := BucketMap([], map[]);
    for i := 0 to |expected|
      invariant AllKeyed(expected[..i]) && Buckets(byKey, expected[..i])
    {
      if expected[i].key.None? {
        return Some(expected[i]), byKey;
      }
      assert expected[..i + 1] == expected[..i] + [expected[i]];
      byKey := PushRow(byKey, expected[..i], expected[i]);
    }
    assert expected[..|expected|] == expected;
    bad := None;
  }

  /** The actual rows that are not skipped: objects with a string key. */
  function Keyed(items: seq<Item>): (rows: seq<Row>)
    ensures AllKeyed(rows)
  {
    if items == [] then []
    else
      var last := items[|items| - 1];
      Keyed(items[..|items| - 1]) + if last.Object? && last.row.key.Some? then [last.row] else []
  }

  predicate BadField(vf: ValueField, row: Row) {
    vf.name in row.fields && !row.fields[vf.name].Number?
  }

  predicate NumbersOnly(vfs: seq<ValueField>, rows: seq<Row>) {
    forall i, k :: 0 <= i < |rows| && 0 <= k < |vfs| ==> !BadField(vfs[k], rows[i])
  }

  /** Lines 157-165: the first value field that holds something else than a finite number. */
  method FindBadField(vfs: seq<ValueField>, row: Row) returns (k: nat)
    ensures k <= |vfs| && (k < |vfs| ==> BadField(vfs[k], row))
    ensures forall j :: 0 <= j < k ==> !BadField(vfs[j], row)
  {
    k := 0;
    while k < |vfs| && !BadField(vfs[k], row)
      invariant 0 <= k <= |vfs|
      invariant forall j :: 0 <= j < k ==> !BadField(vfs[j], row)
    {
      k := k + 1;
    }
  }

  lemma {:induction false} KeyedKeeps(items: seq<Item>, i: nat)
    requires i < |items| && items[i].Object? && items[i].row.key.Some?
    ensures items[i].row in Keyed(items)
  {
    if i < |items| - 1 {
      KeyedKeeps(items[..|items| - 1], i);
    }
  }

  lemma BadStaysBad(vfs: seq<ValueField>, items: seq<Item>, i: nat, k: nat)
    requires i < |items| && items[i].Object? && items[i].row.key.Some? && k < |vfs| && BadField(vfs[k], items[i].row)
    ensures !NumbersOnly(vfs, Keyed(items))
  {
    KeyedKeeps(items, i);
    var j :| 0 <= j < |Keyed(items)| && Keyed(items)[j] == items[i].row;
    assert BadField(vfs[k], Keyed(items)[j]);
  }

  /** The field named is the first bad one of the first row with a bad one. */
  ghost predicate IsFirstBad(vfs: seq<ValueField>, items: seq<Item>, i: nat, k: nat) {
    && i < |items| && k < |vfs| && items[i].Object? && items[i].row.key.Some?
    && NumbersOnly(vfs, Keyed(items[..i]))
    && BadField(vfs[k], items[i].row) && forall j :: 0 <= j < k ==> !BadField(vfs[j], items[i].row)
  }

  lemma OneMoreItem(vfs: seq<ValueField>, items: seq<Item>, i: nat)
    requires i < |items|
    ensures items[i].Object? && items[i].row.key.Some? ==> Keyed(items[..i + 1]) == Keyed(items[..i]) + [items[i].row]
    ensures !(items[i].Object? && items[i].row.key.Some?) ==> Keyed(items[..i + 1]) == Keyed(items[..i])
  {
    assert items[..i + 1][..i] == items[..i];
  }

  lemma NumbersOnlyPushed(vfs: seq<ValueField>, rows: seq<Row>, row: Row)
    requires NumbersOnly(vfs, rows) && forall k :: 0 <= k < |vfs| ==> !BadField(vfs[k], row)
    ensures NumbersOnly(vfs, rows + [row])
  {
  }

  /** Lines 151-169. */
  method BucketActual(vfs: seq<ValueField>, items: seq<Item>) returns (bad: Option<string>, byKey: BucketMap)
    ensures bad.None? <==> NumbersOnly(vfs, Keyed(items))
    ensures bad.None? ==> Buckets(byKey, Keyed(items))
    ensures bad.Some? ==> exists i: nat, k: nat :: IsFirstBad(vfs, items, i, k) && bad == Some(vfs[k].name)
  {
    hide Buckets, NumbersOnly, BadField;
    byKey := BucketMap([], map[]);
    NothingYet(vfs);
    for i := 0 to |items|
      invariant NumbersOnly(vfs, Keyed(items[..i])) && Buckets(byKey, Keyed(items[..i]))
    {
      OneMoreItem(vfs, items, i);
      if items[i].NotObject? || items[i].row.key.None? {
        continue;
      }
      var row := items[i].row;
      var k := FindBadField(vfs, row);
      if k < |vfs| {
        BadStaysBad(vfs, items, i, k);
        assert IsFirstBad(vfs, items, i, k);
        return Some(vfs[k].name), byKey;
      }
      NumbersOnlyPushed(vfs, Keyed(items[..i]), row);
      byKey := PushRow(byKey, Keyed(items[..i]), row);
    }
    assert items[..|items|] == items;
    bad := None;
  }

  lemma NothingYet(vfs: seq<ValueField>)
    ensures NumbersOnly(vfs, []) && Buckets(BucketMap([], map[]), [])
  {
  }

  // ---- Assignment inside a bucket ----

  /** Lines 181-189. */
  method RowFits(vfs: seq<ValueField>, e: Row, a: Row) returns (ok: bool)
    ensures ok == Fits(vfs)(e, a)
  {
    for k := 0 to |vfs|
      invariant forall j :: 0 <= j < k ==> FieldFits(vfs[j], e, a)
    {
      if !FieldFits(vfs[k], e, a) {
        return false;
      }
    }
    ok := true;
  }

  method FindRow(vfs: seq<ValueField>, e: Row, actual: seq<Row>) returns (i: nat)
    ensures i == FirstFit(Fits(vfs), e, actual)
  {
    i := 0;
    while i < |actual|
      invariant 0 <= i <= |actual|
      invariant forall j :: 0 <= j < i ==> !Fits(vfs)(e, actual[j])
    {
      var ok := RowFits(vfs, e, actual[i]);
      if ok {
        break;
      }
      i := i + 1;
    }
  }

  /** Lines 179-196. */
  method AssignBucket(vfs: seq<ValueField>, expected: seq<Row>, actual: seq<Row>) returns (missing: seq<Row>, left: seq<Row>)
    ensures missing == Unmatched(Fits(vfs), expected, actual)
    ensures left == Rest(Fits(vfs), expected, actual)
  {
    hide Fits;
    missing, left := [], actual;
    for n := 0 to |expected|
      invariant missing == Unmatched(Fits(vfs), expected[..n], actual)
      invariant left == Rest(Fits(vfs), expected[..n], actual)
    {
      OneMoreDriver(Fits(vfs), expected, n, actual);
      var i := FindRow(vfs, expected[n], left);
      if i < |left| {
        left := Remove(left, i);
      } else {
        missing := missing + [expected[n]];
      }
    }
    assert expected[..|expected|] == expected;
  }

  // ---- All buckets ----

  /** What the oracle collects over these keys. */
  function MissingOver(vfs: seq<ValueField>, expected: seq<Row>, actual: seq<Row>, keys: seq<string>): seq<Row> {
    if keys == [] then []
    else
      var key := keys[|keys| - 1];
      MissingOver(vfs, expected, actual, keys[..|keys| - 1]) + Unmatched(Fits(vfs), Bucket(expected, key), Bucket(actual, key))
  }

  function ExtraOver(vfs: seq<ValueField>, expected: seq<Row>, actual: seq<Row>, keys: seq<string>): seq<Row> {
    if keys == [] then []
    else
      var key := keys[|keys| - 1];
      ExtraOver(vfs, expected, actual, keys[..|keys| - 1]) + Rest(Fits(vfs), Bucket(expected, key), Bucket(actual, key))
  }

  /** `new Set([...expByKey.keys(), ...actByKey.keys()])` */
  function AllKeys(expected: seq<Row>, actual: seq<Row>): seq<string> {
    AddKeys(Order(expected), Order(actual))
  }

  function AddKeys(keys: seq<string>, more: seq<string>): seq<string> {
    if more == [] then keys
    else AddKey(AddKeys(keys, more[..|more| - 1]), Some(more[|more| - 1]))
  }

  method CollectKeys(first: seq<string>, second: seq<string>) returns (keys: seq<string>)
    ensures keys == AddKeys(first, second)
  {
    keys := first;
    for n := 0 to |second|
      invariant keys == AddKeys(first, second[..n])
    {
      assert second[..n + 1][..n] == second[..n];
      keys := AddKey(keys, Some(second[n]));
    }
    assert second[..|second|] == second;
  }

  function Judge(vfs: seq<ValueField>, expected: seq<Row>, actual: seq<Row>): (v: Verdict)
    ensures v.Pass? || v.MissingRows? || v.ExtraRows?
  {
    var missing := MissingOver(vfs, expected, actual, AllKeys(expected, actual));
    var extra := ExtraOver(vfs, expected, actual, AllKeys(expected, actual));
    if missing != [] then MissingRows(missing) else if extra != [] then ExtraRows(extra) else Pass
  }

  lemma OneMoreKey(vfs: seq<ValueField>, expected: seq<Row>, actual: seq<Row>, keys: seq<string>, n: nat)
    requires n < |keys|
    ensures MissingOver(vfs, expected, actual, keys[..n + 1])
         == MissingOver(vfs, expected, actual, keys[..n]) + Unmatched(Fits(vfs), Bucket(expected, keys[n]), Bucket(actual, keys[n]))
    ensures ExtraOver(vfs, expected, actual, keys[..n + 1])
         == ExtraOver(vfs, expected, actual, keys[..n]) + Rest(Fits(vfs), Bucket(expected, keys[n]), Bucket(actual, keys[n]))
  {
    assert keys[..n + 1][..n] == keys[..n];
  }

  /** Lines 170-207. */
  method AssignAll(vfs: seq<ValueField>, ghost expected: seq<Row>, ghost actual: seq<Row>, expByKey: BucketMap, actByKey: BucketMap)
    returns (v: Verdict)
    requires Buckets(expByKey, expected) && Buckets(actByKey, actual)
    ensures v == Judge(vfs, expected, actual)
  {
    hide Fits, Bucket, Rest, Unmatched;
    var keys := CollectKeys(expByKey.order, actByKey.order);
    var missing: seq<Row>, extra: seq<Row> := [], [];
    for n := 0 to |keys|
      invariant missing == MissingOver(vfs, expected, actual, keys[..n])
      invariant extra == ExtraOver(vfs, expected, actual, keys[..n])
    {
      OneMoreKey(vfs, expected, actual, keys, n);
      var m, x := AssignBucket(vfs, expByKey.Get(keys[n]), actByKey.Get(keys[n]));
      missing, extra := missing + m, extra + x;
    }
    assert keys[..|keys|] == keys;
    v := if missing != [] then MissingRows(missing) else if extra != [] then ExtraRows(extra) else Pass;
  }

  // ---- The buckets cannot be observed ----

  lemma ConsumeFront<D, R>(sat: (D, R) -> bool, d: D, rows: seq<R>)
    requires rows != []
    ensures Consume(sat, d, rows) == if sat(d, rows[0]) then rows[1..] else [rows[0]] + Consume(sat, d, rows[1..])
  {
    var k := FirstFit(sat, d, rows[1..]);
    if !sat(d, rows[0]) && k < |rows| - 1 {
      RemoveLater(rows, k);
    }
  }

  lemma RemoveLater<R>(rows: seq<R>, k: nat)
    requires k + 1 < |rows|
    ensures Remove(rows, k + 1) == [rows[0]] + Remove(rows[1..], k)
  {
  }

  lemma SatisfiesIsFits(vfs: seq<ValueField>, e: Row, a: Row)
    ensures Satisfies(vfs)(e, a) <==> e.key == a.key && Fits(vfs)(e, a)
  {
  }

  lemma BucketFront(rows: seq<Row>, key: string)
    requires rows != []
    ensures rows[0].key == Some(key) ==> Bucket(rows, key) != [] && Bucket(rows, key)[0] == rows[0] && Bucket(rows, key)[1..] == Bucket(rows[1..], key)
    ensures rows[0].key != Some(key) ==> Bucket(rows, key) == Bucket(rows[1..], key)
  {
  }

  lemma BucketOfFront(row: Row, rows: seq<Row>, key: string)
    ensures Bucket([row] + rows, key) == if row.key == Some(key) then [row] + Bucket(rows, key) else Bucket(rows, key)
  {
    assert ([row] + rows)[1..] == rows;
  }

  /** Consuming from the whole list is consuming from the bucket of the key. */
  lemma {:induction false} ConsumeInBucket(vfs: seq<ValueField>, e: Row, rows: seq<Row>, key: string)
    requires e.key.Some?
    ensures Bucket(Consume(Satisfies(vfs), e, rows), key)
         == if e.key == Some(key) then Consume(Fits(vfs), e, Bucket(rows, key)) else Bucket(rows, key)
    ensures e.key == Some(key) ==> (FirstFit(Satisfies(vfs), e, rows) < |rows| <==> FirstFit(Fits(vfs), e, Bucket(rows, key)) < |Bucket(rows, key)|)
  {
    if rows != [] {
      ConsumeInBucket(vfs, e, rows[1..], key);
      SatisfiesIsFits(vfs, e, rows[0]);
      ConsumeFront(Satisfies(vfs), e, rows);
      BucketFront(rows, key);
      BucketOfFront(rows[0], Consume(Satisfies(vfs), e, rows[1..]), key);
      hide Fits, Satisfies, Bucket, Consume;
      if rows[0].key == Some(key) {
        ConsumeFront(Fits(vfs), e, Bucket(rows, key));
      }
    }
  }

  lemma OneMoreInBucket(expected: seq<Row>, key: string)
    requires expected != []
    ensures var before, e := expected[..|expected| - 1], expected[|expected| - 1];
            Bucket(expected, key) == if e.key == Some(key) then Bucket(before, key) + [e] else Bucket(before, key)
  {
    var before, e := expected[..|expected| - 1], expected[|expected| - 1];
    assert expected == before + [e];
    BucketPushed(before, e, key);
  }

  lemma DriverPushed<D, R>(sat: (D, R) -> bool, drivers: seq<D>, d: D, rows: seq<R>)
    ensures var left := Rest(sat, drivers, rows);
            && Rest(sat, drivers + [d], rows) == Consume(sat, d, left)
            && Unmatched(sat, drivers + [d], rows)
               == Unmatched(sat, drivers, rows) + if FirstFit(sat, d, left) < |left| then [] else [d]
  {
    assert (drivers + [d])[..|drivers|] == drivers;
  }

  /** First fit over the whole lists leaves, key by key, the rows that first fit over the buckets leaves. */
  lemma {:induction false} RestInBuckets(vfs: seq<ValueField>, expected: seq<Row>, actual: seq<Row>, key: string)
    requires AllKeyed(expected)
    ensures Bucket(Rest(Satisfies(vfs), expected, actual), key) == Rest(Fits(vfs), Bucket(expected, key), Bucket(actual, key))
  {
    hide Fits, Satisfies, Consume;
    if expected == [] {
    } else {
      var before, e := expected[..|expected| - 1], expected[|expected| - 1];
      RestInBuckets(vfs, before, actual, key);
      ConsumeInBucket(vfs, e, Rest(Satisfies(vfs), before, actual), key);
      OneMoreInBucket(expected, key);
      DriverPushed(Fits(vfs), Bucket(before, key), e, Bucket(actual, key));
    }
  }

  /** First fit over the whole lists misses, key by key, the rows that first fit over the buckets misses. */
  lemma {:induction false} UnmatchedInBuckets(vfs: seq<ValueField>, expected: seq<Row>, actual: seq<Row>, key: string)
    requires AllKeyed(expected)
    ensures Bucket(Unmatched(Satisfies(vfs), expected, actual), key) == Unmatched(Fits(vfs), Bucket(expected, key), Bucket(actual, key))
  {
    hide Fits, Satisfies, Consume, Rest;
    if expected == [] {
    } else {
      var before, e := expected[..|expected| - 1], expected[|expected| - 1];
      UnmatchedInBuckets(vfs, before, actual, key);
      RestInBuckets(vfs, before, actual, key);
      ConsumeInBucket(vfs, e, Rest(Satisfies(vfs), before, actual), key);
      OneMoreInBucket(expected, key);
      DriverPushed(Fits(vfs), Bucket(before, key), e, Bucket(actual, key));
      UnmatchedPushed(vfs, before, e, actual, key);
    }
  }

  lemma UnmatchedPushed(vfs: seq<ValueField>, before: seq<Row>, e: Row, actual: seq<Row>, key: string)
    ensures var left := Rest(Satisfies(vfs), before, actual);
            Bucket(Unmatched(Satisfies(vfs), before, actual) + if FirstFit(Satisfies(vfs), e, left) < |left| then [] else [e], key)
            == Bucket(Unmatched(Satisfies(vfs), before, actual), key)
               + if FirstFit(Satisfies(vfs), e, left) < |left| || e.key != Some(key) then [] else [e]
  {
    hide Fits, Satisfies, Rest, Unmatched;
    var unmatched := Unmatched(Satisfies(vfs), before, actual);
    BucketPushed(unmatched, e, key);
    assert unmatched + [] == unmatched && Bucket(unmatched, key) + [] == Bucket(unmatched, key);
  }

  // ---- The keys visited ----

  lemma {:induction false} OrderHas(rows: seq<Row>, key: string)
    ensures key in Order(rows) <==> Bucket(rows, key) != []
  {
    hide Bucket;
    if rows == [] {
      BucketIsEmpty(rows, key);
    } else {
      OrderHas(rows[..|rows| - 1], key);
      OneMoreInBucket(rows, key);
    }
  }

  lemma {:induction false} AddKeysHas(keys: seq<string>, more: seq<string>, key: string)
    ensures key in AddKeys(keys, more) <==> key in keys || key in more
  {
    if more != [] {
      AddKeysHas(keys, more[..|more| - 1], key);
      assert more == more[..|more| - 1] + [more[|more| - 1]];
    }
  }

  ghost predicate Distinct(keys: seq<string>) {
    forall i, j :: 0 <= i < j < |keys| ==> keys[i] != keys[j]
  }

  lemma {:induction false} OrderIsDistinct(rows: seq<Row>)
    ensures Distinct(Order(rows))
  {
    if rows != [] {
      OrderIsDistinct(rows[..|rows| - 1]);
    }
  }

  lemma {:induction false} AddKeysIsDistinct(keys: seq<string>, more: seq<string>)
    requires Distinct(keys)
    ensures Distinct(AddKeys(keys, more))
  {
    if more != [] {
      AddKeysIsDistinct(keys, more[..|more| - 1]);
    }
  }

  /** Every key that some row has is visited, and visited once. */
  lemma {:induction false} AddKeysAtTheEnd(keys: seq<string>, more: seq<string>)
    ensures keys <= AddKeys(keys, more)
  {
    if more != [] {
      AddKeysAtTheEnd(keys, more[..|more| - 1]);
    }
  }

  /** Some row has the one key before any row has the other. */
  ghost predicate ComesFirst(rows: seq<Row>, key: string, other: string) {
    exists p :: 0 <= p < |rows| && rows[p].key == Some(key) && forall q :: 0 <= q < p ==> rows[q].key != Some(other)
  }

  lemma ComesFirstLonger(rows: seq<Row>, row: Row, key: string, other: string)
    requires ComesFirst(rows, key, other)
    ensures ComesFirst(rows + [row], key, other)
  {
    var p :| 0 <= p < |rows| && rows[p].key == Some(key) && forall q :: 0 <= q < p ==> rows[q].key != Some(other);
    assert (rows + [row])[p].key == Some(key);
  }

  /** The keys of the expected rows are visited first, those of each side in the order in which they first occur. */
  lemma {:induction false} OrderIsByFirstRow(rows: seq<Row>, i: nat, j: nat)
    requires i < j < |Order(rows)|
    ensures ComesFirst(rows, Order(rows)[i], Order(rows)[j])
    decreases |rows|
  {
    var front, last := rows[..|rows| - 1], rows[|rows| - 1];
    assert front + [last] == rows;
    var order := Order(front);
    if j < |order| {
      OrderIsByFirstRow(front, i, j);
      ComesFirstLonger(front, last, order[i], order[j]);
    } else {
      OrderHas(front, order[i]);
      OrderHas(front, Order(rows)[j]);
      BucketIsEmpty(front, order[i]);
      BucketIsEmpty(front, Order(rows)[j]);
      ComesFirstLonger(front, last, order[i], Order(rows)[j]);
    }
  }

  lemma KeysAreVisitedOnce(expected: seq<Row>, actual: seq<Row>)
    ensures Distinct(AllKeys(expected, actual))
    ensures forall key :: key in AllKeys(expected, actual) <==> Bucket(expected, key) != [] || Bucket(actual, key) != []
    ensures Order(expected) <= AllKeys(expected, actual)
  {
    AddKeysAtTheEnd(Order(expected), Order(actual));
    OrderIsDistinct(expected);
    AddKeysIsDistinct(Order(expected), Order(actual));
    forall key ensures key in AllKeys(expected, actual) <==> Bucket(expected, key) != [] || Bucket(actual, key) != [] {
      OrderHas(expected, key);
      OrderHas(actual, key);
      AddKeysHas(Order(expected), Order(actual), key);
    }
  }

  // ---- The rows reported, over all buckets ----

  /** The rows of each key in turn. */
  function Gathered(rows: seq<Row>, keys: seq<string>): seq<Row> {
    if keys == [] then [] else Gathered(rows, keys[..|keys| - 1]) + Bucket(rows, keys[|keys| - 1])
  }

  lemma {:induction false} ReportedIsGathered(vfs: seq<ValueField>, expected: seq<Row>, actual: seq<Row>, keys: seq<string>)
    requires AllKeyed(expected)
    ensures MissingOver(vfs, expected, actual, keys) == Gathered(Unmatched(Satisfies(vfs), expected, actual), keys)
    ensures ExtraOver(vfs, expected, actual, keys) == Gathered(Rest(Satisfies(vfs), expected, actual), keys)
  {
    hide Fits, Satisfies, Rest, Unmatched, Bucket;
    if keys != [] {
      ReportedIsGathered(vfs, expected, actual, keys[..|keys| - 1]);
      UnmatchedInBuckets(vfs, expected, actual, keys[|keys| - 1]);
      RestInBuckets(vfs, expected, actual, keys[|keys| - 1]);
    }
  }

  function Occurrences(keys: seq<string>, key: string): nat {
    if keys == [] then 0 else Occurrences(keys[..|keys| - 1], key) + if keys[|keys| - 1] == key then 1 else 0
  }

  lemma {:induction false} OccursOnce(keys: seq<string>, key: string)
    requires Distinct(keys)
    ensures Occurrences(keys, key) == if key in keys then 1 else 0
  {
    if keys != [] {
      var before, last := keys[..|keys| - 1], keys[|keys| - 1];
      OccursOnce(before, key);
      assert keys == before + [last];
      assert forall i :: 0 <= i < |before| ==> before[i] == keys[i];
    }
  }

  lemma {:induction false} GatheredFront(rows: seq<Row>, keys: seq<string>)
    requires rows != [] && rows[0].key.Some?
    ensures |Gathered(rows, keys)| == |Gathered(rows[1..], keys)| + Occurrences(keys, rows[0].key.value)
  {
    if keys != [] {
      GatheredFront(rows, keys[..|keys| - 1]);
    }
  }

  lemma {:induction false} NothingGathered(keys: seq<string>)
    ensures Gathered([], keys) == []
  {
    if keys != [] {
      NothingGathered(keys[..|keys| - 1]);
    }
  }

  /** Visiting every key of the rows once gathers as many rows as there are. */
  lemma {:induction false} GatheredCount(rows: seq<Row>, keys: seq<string>)
    requires Distinct(keys) && forall i :: 0 <= i < |rows| ==> rows[i].key.Some? && rows[i].key.value in keys
    ensures |Gathered(rows, keys)| == |rows|
  {
    if rows == [] {
      NothingGathered(keys);
    } else {
      GatheredCount(rows[1..], keys);
      GatheredFront(rows, keys);
      OccursOnce(keys, rows[0].key.value);
    }
  }

  lemma {:induction false} BucketIsAmongRows(rows: seq<Row>, key: string, row: Row)
    requires row in Bucket(rows, key)
    ensures row in rows
  {
    if row != rows[0] {
      BucketIsAmongRows(rows[1..], key, row);
    }
  }

  lemma {:induction false} GatheredIsAmongRows(rows: seq<Row>, keys: seq<string>, row: Row)
    requires row in Gathered(rows, keys)
    ensures row in rows
  {
    if row in Gathered(rows, keys[..|keys| - 1]) {
      GatheredIsAmongRows(rows, keys[..|keys| - 1], row);
    } else {
      BucketIsAmongRows(rows, keys[|keys| - 1], row);
    }
  }

  lemma KeyIsVisited(expected: seq<Row>, actual: seq<Row>, row: Row)
    requires (row in expected || row in actual) && row.key.Some?
    ensures row.key.value in AllKeys(expected, actual)
  {
    KeysAreVisitedOnce(expected, actual);
    BucketIsEmpty(expected, row.key.value);
    BucketIsEmpty(actual, row.key.value);
  }

  /** As many rows are reported missing, and as many extra, as first fit over the whole lists leaves over. */
  lemma ReportedCounts(vfs: seq<ValueField>, expected: seq<Row>, actual: seq<Row>)
    requires AllKeyed(expected) && AllKeyed(actual)
    ensures |MissingOver(vfs, expected, actual, AllKeys(expected, actual))| == |Unmatched(Satisfies(vfs), expected, actual)|
    ensures |ExtraOver(vfs, expected, actual, AllKeys(expected, actual))| == |Rest(Satisfies(vfs), expected, actual)|
  {
    hide Fits, Satisfies, Rest, Unmatched, Bucket, MissingOver, ExtraOver, Gathered, AllKeys;
    var keys := AllKeys(expected, actual);
    var missing, left := Unmatched(Satisfies(vfs), expected, actual), Rest(Satisfies(vfs), expected, actual);
    KeysAreVisitedOnce(expected, actual);
    ReportedIsGathered(vfs, expected, actual, keys);
    UnmatchedIsAmongDrivers(Satisfies(vfs), expected, actual);
    RestIsAmongRows(Satisfies(vfs), expected, actual);
    forall i | 0 <= i < |missing| ensures missing[i].key.Some? && missing[i].key.value in keys {
      assert missing[i] in expected;
      KeyIsVisited(expected, actual, missing[i]);
    }
    forall i | 0 <= i < |left| ensures left[i].key.Some? && left[i].key.value in keys {
      assert left[i] in actual;
      KeyIsVisited(expected, actual, left[i]);
    }
    GatheredCount(missing, keys);
    GatheredCount(left, keys);
  }

  // ---- What a verdict means ----

  lemma PassLeavesNothing(vfs: seq<ValueField>, expected: seq<Row>, actual: seq<Row>)
    requires AllKeyed(expected) && AllKeyed(actual)
    ensures Judge(vfs, expected, actual) == Pass
       <==> Unmatched(Satisfies(vfs), expected, actual) == [] && Rest(Satisfies(vfs), expected, actual) == []
  {
    hide Fits, Satisfies, Rest, Unmatched, MissingOver, ExtraOver, AllKeys;
    ReportedCounts(vfs, expected, actual);
  }

  /** A pass pairs all expected rows one to one with all actual rows of a string key: equal keys, fields within tolerance. */
  lemma PassIsOneToOne(vfs: seq<ValueField>, expected: seq<Row>, actual: seq<Row>) returns (choice: seq<Option<nat>>)
    requires AllKeyed(expected) && AllKeyed(actual) && Judge(vfs, expected, actual) == Pass
    ensures IsMatching(Satisfies(vfs), expected, actual, choice) && AllSome(choice)
    ensures forall r: nat :: r < |actual| ==> Some(r) in choice
  {
    hide Judge;
    PassLeavesNothing(vfs, expected, actual);
    choice := NothingLeftIsPairing(Satisfies(vfs), expected, actual);
  }

  /** No row reported missing would be satisfied by a row left over as extra. */
  lemma MissingFitsNoExtra(vfs: seq<ValueField>, expected: seq<Row>, actual: seq<Row>, e: Row, a: Row)
    requires AllKeyed(expected) && AllKeyed(actual)
    requires e in MissingOver(vfs, expected, actual, AllKeys(expected, actual))
    requires a in ExtraOver(vfs, expected, actual, AllKeys(expected, actual))
    ensures !Satisfies(vfs)(e, a)
  {
    var keys := AllKeys(expected, actual);
    ReportedIsGathered(vfs, expected, actual, keys);
    hide Satisfies, Rest, Unmatched, MissingOver, ExtraOver, AllKeys, Gathered;
    GatheredIsAmongRows(Unmatched(Satisfies(vfs), expected, actual), keys, e);
    GatheredIsAmongRows(Rest(Satisfies(vfs), expected, actual), keys, a);
    UnmatchedFitsNoRest(Satisfies(vfs), expected, actual, e, a);
  }

  /** The expected rows not reported missing are at least half of any way to match the rows. */
  lemma FoundIsHalfOfBest(vfs: seq<ValueField>, expected: seq<Row>, actual: seq<Row>, other: seq<Option<nat>>)
    requires AllKeyed(expected) && AllKeyed(actual) && IsMatching(Satisfies(vfs), expected, actual, other)
    ensures |Matched(other)| <= 2 * (|expected| - |MissingOver(vfs, expected, actual, AllKeys(expected, actual))|)
  {
    hide Satisfies, Rest, Unmatched, MissingOver, ExtraOver, AllKeys, Matched, IsMatching;
    ReportedCounts(vfs, expected, actual);
    UnmatchedCount(Satisfies(vfs), expected, actual);
    GreedyIsHalfOfBest(Satisfies(vfs), expected, actual, other);
  }

  // ---- The exact case ----

  /** The key of a row and the numbers under the value fields. */
  function Signature(vfs: seq<ValueField>): Row -> (Option<string>, seq<Option<real>>) {
    (row: Row) => (row.key, Values(vfs, row))
  }

  function Values(vfs: seq<ValueField>, row: Row): (values: seq<Option<real>>)
    ensures |values| == |vfs|
  {
    seq(|vfs|, k requires 0 <= k < |vfs| =>
      if vfs[k].name in row.fields && row.fields[vfs[k].name].Number? then Some(row.fields[vfs[k].name].value) else None)
  }

  ghost predicate ZeroTolerance(vfs: seq<ValueField>) {
    forall k :: 0 <= k < |vfs| ==> vfs[k].tolerance == 0.0
  }

  /** The expected row declares a number under every value field. */
  ghost predicate DeclaresAll(vfs: seq<ValueField>, row: Row) {
    forall k :: 0 <= k < |vfs| ==> vfs[k].name in row.fields && row.fields[vfs[k].name].Number?
  }

  lemma SignatureDecides(vfs: seq<ValueField>, e: Row, a: Row)
    requires ZeroTolerance(vfs) && DeclaresAll(vfs, e)
    ensures Satisfies(vfs)(e, a) <==> Signature(vfs)(e) == Signature(vfs)(a)
  {
    if Satisfies(vfs)(e, a) {
      forall k | 0 <= k < |vfs| ensures Values(vfs, e)[k] == Values(vfs, a)[k] {
        assert FieldFits(vfs[k], e, a);
      }
      assert Values(vfs, e) == Values(vfs, a);
    }
    if Signature(vfs)(e) == Signature(vfs)(a) {
      forall k | 0 <= k < |vfs| ensures FieldFits(vfs[k], e, a) {
        assert Values(vfs, e)[k] == Values(vfs, a)[k];
      }
    }
  }

  /** With zero tolerances and every value field declared, the block passes exactly when the expected rows and the actual
      rows of a string key are the same multiset of keys and values. */
  lemma ExactRows(vfs: seq<ValueField>, expected: seq<Row>, actual: seq<Row>)
    requires AllKeyed(expected) && AllKeyed(actual) && ZeroTolerance(vfs)
    requires forall i :: 0 <= i < |expected| ==> DeclaresAll(vfs, expected[i])
    ensures Judge(vfs, expected, actual) == Pass
       <==> multiset(Keys(Signature(vfs), expected)) == multiset(Keys(Signature(vfs), actual))
  {
    hide Judge, Signature, Satisfies, DeclaresAll, ZeroTolerance;
    PassLeavesNothing(vfs, expected, actual);
    forall e, a | e in expected && a in actual ensures Satisfies(vfs)(e, a) <==> Signature(vfs)(e) == Signature(vfs)(a) {
      SignatureDecides(vfs, e, a);
    }
    ExactWhenKeysDecide(Satisfies(vfs), Signature(vfs), Signature(vfs), expected, actual);
  }

  // ---- Exactly when the block decides whether the rows can be paired ----

  /** An actual row that gets as far as the assignment. */
  function OkRow(vfs: seq<ValueField>): Row -> bool {
    (row: Row) => row.key.Some? && IsOk(vfs, row)
  }

  predicate IsOk(vfs: seq<ValueField>, row: Row) {
    forall k :: 0 <= k < |vfs| ==> !BadField(vfs[k], row)
  }

  /** Some actual row can satisfy this one: it declares numbers, with tolerances that are not negative. */
  predicate IsCheckable(vfs: seq<ValueField>, e: Row) {
    forall k :: 0 <= k < |vfs| ==> CheckableAt(vfs[k], e)
  }

  predicate CheckableAt(vf: ValueField, e: Row) {
    vf.name in e.fields ==> e.fields[vf.name].Number? && vf.tolerance >= 0.0
  }

  /** Some actual row can satisfy both: no field that both declare differs by more than twice its tolerance. */
  predicate Overlap(vfs: seq<ValueField>, e: Row, f: Row) {
    e.key == f.key && IsCheckable(vfs, e) && IsCheckable(vfs, f) && forall k :: 0 <= k < |vfs| ==> NearAt(vfs[k], e, f)
  }

  predicate NearAt(vf: ValueField, e: Row, f: Row) {
    vf.name in e.fields && vf.name in f.fields && e.fields[vf.name].Number? && f.fields[vf.name].Number? ==>
      Abs(e.fields[vf.name].value - f.fields[vf.name].value) <= 2.0 * vf.tolerance
  }

  /** The first row declares every value field the second one declares, with the same value. */
  predicate DeclaresAs(vfs: seq<ValueField>, e: Row, f: Row) {
    forall k :: 0 <= k < |vfs| ==> DeclaresAsAt(vfs[k], e, f)
  }

  predicate DeclaresAsAt(vf: ValueField, e: Row, f: Row) {
    vf.name in f.fields ==> vf.name in e.fields && e.fields[vf.name] == f.fields[vf.name]
  }

  /** What can be read off the expected rows: an earlier row that some actual row could satisfy together with a later one
      declares all that the later one declares. */
  predicate RowsDecide(vfs: seq<ValueField>, expected: seq<Row>) {
    forall i, j :: 0 <= i < j < |expected| && Overlap(vfs, expected[i], expected[j]) ==> DeclaresAs(vfs, expected[i], expected[j])
  }

  lemma FittingIsNear(vf: ValueField, e: Row, f: Row, r: Row)
    requires FieldFits(vf, e, r) && FieldFits(vf, f, r)
    ensures CheckableAt(vf, e) && CheckableAt(vf, f) && NearAt(vf, e, f)
  {
  }

  lemma SharedRowMeansOverlap(vfs: seq<ValueField>, e: Row, f: Row, r: Row)
    requires Satisfies(vfs)(e, r) && Satisfies(vfs)(f, r)
    ensures Overlap(vfs, e, f)
  {
    forall k | 0 <= k < |vfs| ensures CheckableAt(vfs[k], e) && CheckableAt(vfs[k], f) && NearAt(vfs[k], e, f) {
      FittingIsNear(vfs[k], e, f, r);
    }
  }

  lemma DecidedExchanges(vfs: seq<ValueField>, e: Row, f: Row, r: Row, s: Row)
    requires Overlap(vfs, e, f) ==> DeclaresAs(vfs, e, f)
    ensures ExchangesAt(Satisfies(vfs), e, f, r, s)
  {
    if Satisfies(vfs)(e, r) && Satisfies(vfs)(e, s) && Satisfies(vfs)(f, r) {
      SharedRowMeansOverlap(vfs, e, f, r);
      forall k | 0 <= k < |vfs| ensures FieldFits(vfs[k], f, s) {
        assert FieldFits(vfs[k], e, s) && DeclaresAsAt(vfs[k], e, f);
      }
    }
  }

  // ---- Two rows that show that the condition is needed ----

  function NumberAt(row: Row, name: string): real {
    if name in row.fields && row.fields[name].Number? then row.fields[name].value else 0.0
  }

  function Middle(e: Row, f: Row, name: string): real {
    if name in e.fields && name in f.fields then (NumberAt(e, name) + NumberAt(f, name)) / 2.0
    else if name in e.fields then NumberAt(e, name)
    else NumberAt(f, name)
  }

  /** An actual row half way between two expected ones. */
  function Between(e: Row, f: Row): Row {
    Row(e.key, map name | name in e.fields.Keys + f.fields.Keys :: Number(Middle(e, f, name)))
  }

  lemma BetweenSatisfiesBoth(vfs: seq<ValueField>, e: Row, f: Row)
    requires Overlap(vfs, e, f) && e.key.Some?
    ensures var r := Between(e, f); OkRow(vfs)(r) && Satisfies(vfs)(e, r) && Satisfies(vfs)(f, r)
  {
    var r := Between(e, f);
    forall k | 0 <= k < |vfs| ensures FieldFits(vfs[k], e, r) && FieldFits(vfs[k], f, r) && !BadField(vfs[k], r) {
      assert CheckableAt(vfs[k], e) && CheckableAt(vfs[k], f) && NearAt(vfs[k], e, f);
      FitsBetween(vfs[k], e, f);
    }
  }

  lemma FitsBetween(vf: ValueField, e: Row, f: Row)
    requires CheckableAt(vf, e) && CheckableAt(vf, f) && NearAt(vf, e, f)
    ensures FieldFits(vf, e, Between(e, f)) && FieldFits(vf, f, Between(e, f)) && !BadField(vf, Between(e, f))
  {
    if vf.name in e.fields || vf.name in f.fields {
      assert Between(e, f).fields[vf.name] == Number(Middle(e, f, vf.name));
    }
  }

  lemma SatisfiesItself(vfs: seq<ValueField>, e: Row)
    requires IsCheckable(vfs, e) && e.key.Some?
    ensures OkRow(vfs)(e) && Satisfies(vfs)(e, e)
  {
    forall k | 0 <= k < |vfs| ensures FieldFits(vfs[k], e, e) && !BadField(vfs[k], e) {
      assert CheckableAt(vfs[k], e);
    }
  }

  /** Among the first n value fields and field k, the one of k's name with the smallest tolerance. */
  lemma {:induction false} Tightest(vfs: seq<ValueField>, k: nat, n: nat) returns (t: nat)
    requires k < |vfs| && n <= |vfs|
    ensures t < |vfs| && vfs[t].name == vfs[k].name && vfs[t].tolerance <= vfs[k].tolerance
    ensures forall m :: 0 <= m < n && vfs[m].name == vfs[k].name ==> vfs[t].tolerance <= vfs[m].tolerance
  {
    if n == 0 {
      t := k;
    } else {
      t := Tightest(vfs, k, n - 1);
      if vfs[n - 1].name == vfs[k].name && vfs[n - 1].tolerance < vfs[t].tolerance {
        t := n - 1;
      }
    }
  }

  /** The row with one number moved away from another one, as far as the tolerance lets it. */
  function Moved(e: Row, name: string, y: real, tolerance: real): Row {
    var x := NumberAt(e, name);
    Row(e.key, e.fields[name := Number(if x < y then x - tolerance else x + tolerance)])
  }

  /** A row the first expected row takes and the second does not, for a field the second declares otherwise. */
  lemma OtherValueTellsApart(vfs: seq<ValueField>, e: Row, f: Row, k: nat) returns (s: Row)
    requires e.key.Some? && IsCheckable(vfs, e) && IsCheckable(vfs, f) && k < |vfs|
    requires vfs[k].name in e.fields && vfs[k].name in f.fields && e.fields[vfs[k].name] != f.fields[vfs[k].name]
    ensures OkRow(vfs)(s) && Satisfies(vfs)(e, s) && !Satisfies(vfs)(f, s)
  {
    var t := Tightest(vfs, k, |vfs|);
    assert CheckableAt(vfs[t], e) && CheckableAt(vfs[t], f);
    var name := vfs[k].name;
    s := Moved(e, name, f.fields[name].value, vfs[t].tolerance);
    forall m | 0 <= m < |vfs| ensures FieldFits(vfs[m], e, s) && !BadField(vfs[m], s) {
      assert CheckableAt(vfs[m], e);
    }
    assert !FieldFits(vfs[t], f, s);
  }

  /** A row the first expected row takes and the second does not. */
  lemma UndeclaredTellsApart(vfs: seq<ValueField>, e: Row, f: Row) returns (s: Row)
    requires Overlap(vfs, e, f) && e.key.Some? && !DeclaresAs(vfs, e, f)
    ensures OkRow(vfs)(s) && Satisfies(vfs)(e, s) && !Satisfies(vfs)(f, s)
  {
    var k: nat :| k < |vfs| && !DeclaresAsAt(vfs[k], e, f);
    if vfs[k].name in e.fields {
      s := OtherValueTellsApart(vfs, e, f, k);
    } else {
      s := e;
      SatisfiesItself(vfs, e);
      assert !FieldFits(vfs[k], f, s);
    }
  }

  lemma NestIffDecided(vfs: seq<ValueField>, expected: seq<Row>)
    requires AllKeyed(expected)
    ensures DriversNest(Satisfies(vfs), OkRow(vfs), expected) <==> RowsDecide(vfs, expected)
  {
    hide Overlap, DeclaresAs, Satisfies, OkRow;
    if RowsDecide(vfs, expected) {
      forall i, j, r, s | 0 <= i < j < |expected| && OkRow(vfs)(r) && OkRow(vfs)(s)
        ensures ExchangesAt(Satisfies(vfs), expected[i], expected[j], r, s)
      {
        DecidedExchanges(vfs, expected[i], expected[j], r, s);
      }
    } else {
      var i: nat, j: nat :| i < j < |expected| && Overlap(vfs, expected[i], expected[j]) && !DeclaresAs(vfs, expected[i], expected[j]);
      var e, f := expected[i], expected[j];
      BetweenSatisfiesBoth(vfs, e, f);
      var s := UndeclaredTellsApart(vfs, e, f);
      assert !ExchangesAt(Satisfies(vfs), expected[i], expected[j], Between(e, f), s);
    }
  }

  lemma HasRowIffCheckable(vfs: seq<ValueField>, e: Row)
    requires e.key.Some?
    ensures HasRow(Satisfies(vfs), OkRow(vfs), e) <==> IsCheckable(vfs, e)
  {
    if IsCheckable(vfs, e) {
      SatisfiesItself(vfs, e);
    } else if HasRow(Satisfies(vfs), OkRow(vfs), e) {
      var r :| OkRow(vfs)(r) && Satisfies(vfs)(e, r);
      SharedRowMeansOverlap(vfs, e, e, r);
    }
  }

  lemma OkRows(vfs: seq<ValueField>, actual: seq<Row>)
    ensures AllOk(OkRow(vfs), actual) <==> AllKeyed(actual) && NumbersOnly(vfs, actual)
  {
    if AllOk(OkRow(vfs), actual) {
      forall i, k | 0 <= i < |actual| && 0 <= k < |vfs| ensures !BadField(vfs[k], actual[i]) {
        assert OkRow(vfs)(actual[i]);
      }
      forall i | 0 <= i < |actual| ensures actual[i].key.Some? {
        assert OkRow(vfs)(actual[i]);
      }
    }
  }

  /** The block passes exactly when the rows can be paired one to one, whatever the actual rows are, if and only if the
      expected rows decide; or else one of them cannot be satisfied at all, and nothing passes or can be paired. */
  lemma PassesExactlyThePairableIff(vfs: seq<ValueField>, expected: seq<Row>)
    requires AllKeyed(expected)
    ensures (forall actual :: AllKeyed(actual) && NumbersOnly(vfs, actual) ==>
               (Judge(vfs, expected, actual) == Pass <==> CanPair(Satisfies(vfs), expected, actual)))
       <==> RowsDecide(vfs, expected) || exists m :: 0 <= m < |expected| && !IsCheckable(vfs, expected[m])
  {
    hide Judge, CanPair, RowsDecide, IsCheckable, Satisfies, OkRow, LeavesNothing, AllKeyed, NumbersOnly, DriversNest;
    FindsEveryPairingIffNested(Satisfies(vfs), OkRow(vfs), expected);
    NestIffDecided(vfs, expected);
    KeyedRowsAreCheckable(vfs, expected);
    forall actual: seq<Row>
      ensures AllOk(OkRow(vfs), actual) <==> AllKeyed(actual) && NumbersOnly(vfs, actual)
      ensures AllKeyed(actual) ==> (Judge(vfs, expected, actual) == Pass <==> LeavesNothing(Satisfies(vfs), expected, actual))
    {
      OkRows(vfs, actual);
      if AllKeyed(actual) {
        PassMeansNothingLeft(vfs, expected, actual);
      }
    }
  }

  lemma PassMeansNothingLeft(vfs: seq<ValueField>, expected: seq<Row>, actual: seq<Row>)
    requires AllKeyed(expected) && AllKeyed(actual)
    ensures Judge(vfs, expected, actual) == Pass <==> LeavesNothing(Satisfies(vfs), expected, actual)
  {
    hide Judge, Satisfies, Unmatched, Rest;
    PassLeavesNothing(vfs, expected, actual);
  }

  lemma KeyedRowsAreCheckable(vfs: seq<ValueField>, expected: seq<Row>)
    requires AllKeyed(expected)
    ensures forall m :: 0 <= m < |expected| ==> (HasRow(Satisfies(vfs), OkRow(vfs), expected[m]) <==> IsCheckable(vfs, expected[m]))
  {
    hide HasRow, IsCheckable, OkRow, Satisfies;
    forall m | 0 <= m < |expected| ensures HasRow(Satisfies(vfs), OkRow(vfs), expected[m]) <==> IsCheckable(vfs, expected[m]) {
      HasRowIffCheckable(vfs, expected[m]);
    }
  }

  // ---- Where first fit is not enough ----

  function Priced(price: real): Row { Row(Some("tea"), map["price" := Number(price)]) }

  /** With a tolerance the block is not a test for a one-to-one pairing: these rows can be paired, and it fails. */
  lemma ToleranceCanMissAPairing()
    ensures var vfs := [ValueField("price", 1.0)];
            && IsMatching(Satisfies(vfs), [Priced(2.0), Priced(0.0)], [Priced(1.0), Priced(3.0)], [Some(1), Some(0)])
            && Judge(vfs, [Priced(2.0), Priced(0.0)], [Priced(1.0), Priced(3.0)]) != Pass
  {
    var vfs := [ValueField("price", 1.0)];
    var expected, actual := [Priced(2.0), Priced(0.0)], [Priced(1.0), Priced(3.0)];
    PricesFit(vfs[0], 2.0, 1.0);
    PricesFit(vfs[0], 2.0, 3.0);
    PricesFit(vfs[0], 0.0, 1.0);
    PricesFit(vfs[0], 0.0, 3.0);
    hide Satisfies, Judge;
    HalfIsReached(Satisfies(vfs), expected[0], expected[1], actual[0], actual[1]);
    PassLeavesNothing(vfs, expected, actual);
  }

  lemma PricesFit(vf: ValueField, x: real, y: real)
    requires vf.name == "price"
    ensures Satisfies([vf])(Priced(x), Priced(y)) <==> Abs(x - y) <= vf.tolerance
  {
    assert AllFit([vf], Priced(x), Priced(y)) <==> FieldFits([vf][0], Priced(x), Priced(y));
  }

  // ---- The verdict, from the values of the fields ----

  predicate IsNumber(row: Row, name: string, x: real) { name in row.fields && row.fields[name] == Number(x) }

  ghost predicate AreNear(vf: ValueField, e: Row, a: Row) {
    exists x, y :: IsNumber(e, vf.name, x) && IsNumber(a, vf.name, y) && -vf.tolerance <= x - y <= vf.tolerance
  }

  /** Equal keys, and for every value field that the expected row declares two numbers within the tolerance. */
  ghost predicate AgreeOn(vfs: seq<ValueField>, e: Row, a: Row) {
    e.key == a.key && forall k :: 0 <= k < |vfs| && vfs[k].name in e.fields ==> AreNear(vfs[k], e, a)
  }

  ghost function Agree(vfs: seq<ValueField>): (Row, Row) -> bool {
    (e: Row, a: Row) => AgreeOn(vfs, e, a)
  }

  lemma FieldFitsIff(vf: ValueField, e: Row, a: Row)
    ensures FieldFits(vf, e, a) <==> (vf.name in e.fields ==> AreNear(vf, e, a))
  {
    if vf.name in e.fields && FieldFits(vf, e, a) {
      assert IsNumber(e, vf.name, e.fields[vf.name].value) && IsNumber(a, vf.name, a.fields[vf.name].value);
    }
  }

  lemma SatisfiesIff(vfs: seq<ValueField>, e: Row, a: Row)
    ensures Satisfies(vfs)(e, a) <==>
            && e.key == a.key
            && forall k :: 0 <= k < |vfs| && vfs[k].name in e.fields ==>
                 exists x, y :: IsNumber(e, vfs[k].name, x) && IsNumber(a, vfs[k].name, y) && -vfs[k].tolerance <= x - y <= vfs[k].tolerance
  {
    hide FieldFits, IsNumber;
    forall k | 0 <= k < |vfs| ensures FieldFits(vfs[k], e, a) <==> (vfs[k].name in e.fields ==> AreNear(vfs[k], e, a)) {
      FieldFitsIff(vfs[k], e, a);
    }
  }

  lemma MissingComesFirst(vfs: seq<ValueField>, expected: seq<Row>, actual: seq<Row>)
    requires AllKeyed(expected) && AllKeyed(actual)
    ensures Judge(vfs, expected, actual).MissingRows? <==> Unmatched(Satisfies(vfs), expected, actual) != []
  {
    hide Fits, Satisfies, Rest, Unmatched, MissingOver, ExtraOver, AllKeys;
    ReportedCounts(vfs, expected, actual);
  }

  lemma PassIff(vfs: seq<ValueField>, expected: seq<Row>, actual: seq<Row>)
    requires AllKeyed(expected) && AllKeyed(actual)
    ensures Judge(vfs, expected, actual) == Pass <==> Unmatched(Agree(vfs), expected, actual) == [] && Rest(Agree(vfs), expected, actual) == []
    ensures Judge(vfs, expected, actual).MissingRows? <==> Unmatched(Agree(vfs), expected, actual) != []
  {
    hide Judge, Unmatched, Rest, IsNumber, FieldFits, AllKeyed;
    PassLeavesNothing(vfs, expected, actual);
    MissingComesFirst(vfs, expected, actual);
    forall e, a ensures Satisfies(vfs)(e, a) <==> Agree(vfs)(e, a) {
      SatisfiesIff(vfs, e, a);
    }
    SameRelation(Satisfies(vfs), Agree(vfs), expected, actual);
  }

  /** An object with a string key holds something other than a finite number in a value field. */
  ghost predicate HasBadValue(vfs: seq<ValueField>, items: seq<Item>) {
    exists i, k :: 0 <= i < |items| && 0 <= k < |vfs| && IsBadValue(items[i], vfs[k].name)
  }

  predicate IsBadValue(item: Item, name: string) {
    item.Object? && item.row.key.Some? && name in item.row.fields && (item.row.fields[name] == NotFinite || item.row.fields[name] == NotNumber)
  }

  lemma {:induction false} BadValuesAre(vfs: seq<ValueField>, items: seq<Item>)
    ensures NumbersOnly(vfs, Keyed(items)) <==> !HasBadValue(vfs, items)
  {
    if HasBadValue(vfs, items) {
      var i, k :| 0 <= i < |items| && 0 <= k < |vfs| && IsBadValue(items[i], vfs[k].name);
      BadStaysBad(vfs, items, i, k);
    } else {
      forall j, k | 0 <= j < |Keyed(items)| && 0 <= k < |vfs| ensures !BadField(vfs[k], Keyed(items)[j]) {
        var i := KeyedFrom(items, j);
        assert !IsBadValue(items[i], vfs[k].name);
      }
    }
  }

  lemma {:induction false} KeyedFrom(items: seq<Item>, j: nat) returns (i: nat)
    requires j < |Keyed(items)|
    ensures i < |items| && items[i] == Object(Keyed(items)[j])
  {
    if j < |Keyed(items[..|items| - 1])| {
      i := KeyedFrom(items[..|items| - 1], j);
    } else {
      i := |items| - 1;
    }
  }

  /** The rows that count are the objects with a string key, as often as they occur. */
  lemma {:induction false} KeyedAreObjectsWithKey(items: seq<Item>, row: Row)
    ensures multiset(Keyed(items))[row] == if row.key.Some? then multiset(items)[Object(row)] else 0
  {
    if items != [] {
      var front, last := items[..|items| - 1], items[|items| - 1];
      KeyedAreObjectsWithKey(front, row);
      assert front + [last] == items;
      OneMore(front, last, Object(row));
      if last.Object? && last.row.key.Some? {
        OneMore(Keyed(front), last.row, row);
      } else {
        assert Keyed(items) == Keyed(front);
      }
    }
  }

  /** What the path leads to comes first: None when that is no array. */
  method CheckMultisetRows(vfs: seq<ValueField>, expected: seq<Row>, found: Option<seq<Item>>) returns (v: Verdict)
    ensures v.NotAnArray? <==> found.None?
    ensures v.BadExpected? <==> found.Some? && !AllKeyed(expected)
    ensures v.BadValue? <==> found.Some? && AllKeyed(expected) && HasBadValue(vfs, found.value)
    ensures v.BadExpected? ==> v.row in expected && v.row.key.None?
    ensures !v.NotAnArray? && !v.BadExpected? && !v.BadValue? ==> v == Judge(vfs, expected, Keyed(found.value))
    ensures v.Pass? <==>
            && found.Some? && AllKeyed(expected) && !HasBadValue(vfs, found.value)
            && Unmatched(Agree(vfs), expected, Keyed(found.value)) == [] && Rest(Agree(vfs), expected, Keyed(found.value)) == []
    ensures v.MissingRows? <==>
            && found.Some? && AllKeyed(expected) && !HasBadValue(vfs, found.value)
            && Unmatched(Agree(vfs), expected, Keyed(found.value)) != []
  {
    hide Judge, NumbersOnly, HasBadValue, Agree, Unmatched, Rest, Keyed, AllKeyed;
    if found.None? {
      return NotAnArray;
    }
    var items := found.value;
    BadValuesAre(vfs, items);
    if AllKeyed(expected) {
      PassIff(vfs, expected, Keyed(items));
    }
    var badRow, expByKey := BucketExpected(expected);
    if badRow.Some? {
      return BadExpected(badRow.value);
    }
    var badField, actByKey := BucketActual(vfs, items);
    if badField.Some? {
      return BadValue(badField.value);
    }
    v := AssignAll(vfs, expected, Keyed(items), expByKey, actByKey);
  }
}
