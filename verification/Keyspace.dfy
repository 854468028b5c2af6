/** The keyspace as a client sees it: values with optional deadlines, and what they are modelled to cost. */
module Keyspace {
  import opened Bytes

  const ENTRY_OVERHEAD_BYTES: nat := 64

  datatype Entry = Entry(value: bytes, deadline: Option<int>)

  type Entries = map<bytes, Entry>

  /** At the exact boundary the entry is already gone. */
  predicate Expired(e: Entry, now: int) {
    e.deadline.Some? && now >= e.deadline.value
  }

  /** What is left of `m` once everything expired at `now` is dropped. */
  function Unexpired(m: Entries, now: int): Entries {
    map k | k in m && !Expired(m[k], now) :: m[k]
  }

  lemma UnexpiredLater(m: Entries, now: int, later: int)
    requires now <= later
    ensures Unexpired(Unexpired(m, now), later) == Unexpired(m, later)
  {
  }

  lemma UnexpiredWithoutExpired(m: Entries, k: bytes, now: int)
    requires k in m && Expired(m[k], now)
    ensures Unexpired(m - {k}, now) == Unexpired(m, now)
  {
  }

  lemma DroppingAllExpired(m: Entries, now: int, gone: set<bytes>)
    requires forall k :: k in gone <==> k in m && Expired(m[k], now)
    ensures m - gone == Unexpired(m, now)
  {
  }

  function Cost(key: bytes, value: bytes): nat {
    |key| + |value| + ENTRY_OVERHEAD_BYTES
  }

  /** The documented memory model: the sum of the costs of all entries. */
  ghost function Total(m: map<bytes, bytes>): nat
    decreases |m|
  {
    if |m| == 0 then 0
    else
      var k :| k in m;
      Cost(k, m[k]) + Total(m - {k})
  }

  lemma {:induction false} TotalWithout(m: map<bytes, bytes>, k: bytes)
    requires k in m
    ensures Total(m) == Cost(k, m[k]) + Total(m - {k})
    decreases |m|, 1
  {
    var p :| p in m && Total(m) == Cost(p, m[p]) + Total(m - {p});
    if p != k {
      TotalSwap(m, k, p);
    }
  }

  lemma {:induction false} TotalSwap(m: map<bytes, bytes>, k: bytes, p: bytes)
    requires k in m && p in m && p != k
    ensures Cost(p, m[p]) + Total(m - {p}) == Cost(k, m[k]) + Total(m - {k})
    decreases |m|, 0
  {
    hide Total;
    TotalWithout(m - {p}, k);
    TotalWithout(m - {k}, p);
    assert m - {p} - {k} == m - {k} - {p};
  }

  lemma TotalPut(m: map<bytes, bytes>, k: bytes, v: bytes)
    ensures Total(m[k := v]) == Cost(k, v) + Total(m - {k})
    ensures Total(m[k := v]) == Total(m) + Cost(k, v) - (if k in m then Cost(k, m[k]) else 0)
  {
    hide Total;
    var m' := m[k := v];
    TotalWithout(m', k);
    assert m' - {k} == m - {k};
    if k in m {
      TotalWithout(m, k);
    } else {
      assert m - {k} == m;
    }
  }

  lemma TotalEmpty(m: map<bytes, bytes>)
    ensures Total(m) == 0 <==> m == map[]
  {
    if m != map[] {
      var k :| k in m;
      TotalWithout(m, k);
    }
  }

  lemma {:induction false} TotalOfPart(part: map<bytes, bytes>, m: map<bytes, bytes>)
    requires forall k :: k in part ==> k in m && part[k] == m[k]
    ensures Total(part) <= Total(m)
    decreases |m|
  {
    hide Total;
    if |m| == 0 {
      assert part == m;
    } else {
      var k :| k in m;
      assert m == (m - {k})[k := m[k]];
      TotalWithout(m, k);
      TotalOfPart(part - {k}, m - {k});
      if k in part {
        TotalWithout(part, k);
      } else {
        assert part - {k} == part;
      }
    }
  }

  /** Every byte of every key and every value. */
  ghost function Payload(m: Entries): nat
    decreases |m|
  {
    if |m| == 0 then 0
    else
      var k :| k in m;
      |k| + |m[k].value| + Payload(m - {k})
  }

  /** The memory model, in bytes: all keys, all values, and 64 for each entry. */
  ghost function Footprint(m: Entries): nat {
    Payload(m) + 64 * |m|
  }

  lemma {:induction false} TotalIsFootprint(m: Entries)
    ensures Total(Values(m)) == Footprint(m)
    decreases |m|
  {
    hide Values;
    if |m| == 0 {
      NoValues(m);
    } else {
      var k :| k in m && Payload(m) == |k| + |m[k].value| + Payload(m - {k});
      hide Total, Payload;
      ValuesWithout(m, k);
      TotalWithout(Values(m), k);
      TotalIsFootprint(m - {k});
    }
  }

  lemma NoValues(m: Entries)
    requires |m| == 0
    ensures Values(m) == map[]
  {
  }

  lemma ValuesWithout(m: Entries, k: bytes)
    requires k in m
    ensures Values(m) - {k} == Values(m - {k}) && k in Values(m) && Values(m)[k] == m[k].value
    ensures |m| == |m - {k}| + 1
  {
    assert m == (m - {k})[k := m[k]];
  }

  /** The memory model on entries: deadlines cost nothing. */
  ghost function Values(m: Entries): map<bytes, bytes> {
    map k | k in m :: m[k].value
  }
}
