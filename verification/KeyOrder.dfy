/** `[...new Set(keys)].sort()` of core/src/utils/file-mutex.ts: the canonical order of lock keys. */
module KeyOrder {
  import opened Text

  lemma {:induction false} LessIsTotal(a: string, b: string)
    ensures Less(a, b) || a == b || Less(b, a)
    ensures !(Less(a, b) && Less(b, a))
    ensures !Less(a, a)
  {
    if a != "" && b != "" {
      LessIsTotal(a[1..], b[1..]);
      if a[0] == b[0] && a[1..] == b[1..] {
        assert a == [a[0]] + a[1..] && b == [b[0]] + b[1..];
      }
    } else if a != "" {
      LessIsTotal(a[1..], "");
    }
  }

  lemma {:induction false} LessIsTransitive(a: string, b: string, c: string)
    requires Less(a, b) && Less(b, c)
    ensures Less(a, c)
  {
    if a != "" && a[0] == b[0] == c[0] {
      LessIsTransitive(a[1..], b[1..], c[1..]);
    }
  }

  ghost predicate StrictlyAscending(keys: seq<string>) {
    forall i, j :: 0 <= i < j < |keys| ==> Less(keys[i], keys[j])
  }

  /** The members of `new Set(keys)` in insertion order. */
  function Distinct(keys: seq<string>): (r: seq<string>)
    ensures forall k :: k in r <==> k in keys
    ensures forall i, j :: 0 <= i < j < |r| ==> r[i] != r[j]
  {
    if keys == [] then []
    else
      var rest, last := Distinct(keys[..|keys| - 1]), keys[|keys| - 1];
      if last in rest then rest else rest + [last]
  }

  function Insert(key: string, sorted: seq<string>): (r: seq<string>)
    ensures forall k :: k in r <==> k == key || k in sorted
  {
    if sorted == [] then [key]
    else if Less(key, sorted[0]) then [key] + sorted
    else [sorted[0]] + Insert(key, sorted[1..])
  }

  function Sort(keys: seq<string>): (r: seq<string>)
    ensures forall k :: k in r <==> k in keys
  {
    if keys == [] then [] else Insert(keys[0], Sort(keys[1..]))
  }

  lemma {:induction false} InsertAscends(key: string, sorted: seq<string>)
    requires StrictlyAscending(sorted) && key !in sorted
    ensures StrictlyAscending(Insert(key, sorted))
  {
    if sorted != [] {
      LessIsTotal(key, sorted[0]);
      var r := Insert(key, sorted);
      if Less(key, sorted[0]) {
        forall i | 0 <= i < |sorted| ensures Less(key, sorted[i]) {
          if i > 0 {
            LessIsTransitive(key, sorted[0], sorted[i]);
          }
        }
      } else {
        InsertAscends(key, sorted[1..]);
        forall j | 1 <= j < |r| ensures Less(r[0], r[j]) {
          assert r[j] in Insert(key, sorted[1..]);
        }
      }
    }
  }

  lemma {:induction false} SortAscends(keys: seq<string>)
    requires forall i, j :: 0 <= i < j < |keys| ==> keys[i] != keys[j]
    ensures StrictlyAscending(Sort(keys))
  {
    if keys != [] {
      SortAscends(keys[1..]);
      InsertAscends(keys[0], Sort(keys[1..]));
    }
  }

  /** The keys a multi-lock acquires, in order. */
  function Canonical(keys: seq<string>): (r: seq<string>)
    ensures forall k :: k in r <==> k in keys
  {
    Sort(Distinct(keys))
  }

  lemma CanonicalAscends(keys: seq<string>)
    ensures StrictlyAscending(Canonical(keys))
  {
    SortAscends(Distinct(keys));
  }
}
