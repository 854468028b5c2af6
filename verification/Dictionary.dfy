/** Python's `dict` over byte keys: a mapping that also remembers insertion order. */
module Dictionary {
  import opened Bytes

  datatype Dict<V> = Dict(order: seq<bytes>, vals: map<bytes, V>) {
    /** Every key is listed exactly once. */
    ghost predicate Ok() {
      NoDup(order) && Elements(order) == vals.Keys
    }
  }

  /** The elements of `xs` other than `x`, in order. */
  function Without(xs: seq<bytes>, x: bytes): (r: seq<bytes>)
    ensures Elements(r) == Elements(xs) - {x}
    ensures |r| <= |xs|
    ensures NoDup(xs) ==> NoDup(r)
  {
    if |xs| == 0 then []
    else
      var last := xs[|xs| - 1];
      var rest := Without(xs[..|xs| - 1], x);
      assert xs == xs[..|xs| - 1] + [last];
      assert Elements(xs) == Elements(xs[..|xs| - 1]) + {last};
      if last == x then rest
      else
        assert NoDup(xs) ==> last !in Elements(rest);
        assert Elements(rest + [last]) == Elements(rest) + {last};
        rest + [last]
  }

  /** `d[k] = v`: a present key keeps its place, a new one goes to the end. */
  function Put<V>(d: Dict<V>, k: bytes, v: V): (r: Dict<V>)
    ensures r.vals == d.vals[k := v]
    ensures d.Ok() ==> r.Ok()
  {
    if k in d.vals then
      assert d.vals[k := v].Keys == d.vals.Keys;
      Dict(d.order, d.vals[k := v])
    else
      assert d.Ok() ==> k !in Elements(d.order);
      assert Elements(d.order + [k]) == Elements(d.order) + {k};
      Dict(d.order + [k], d.vals[k := v])
  }

  /** `d.pop(k, None)`. */
  function Pop<V>(d: Dict<V>, k: bytes): (r: Dict<V>)
    ensures r.vals == d.vals - {k}
    ensures d.Ok() ==> r.Ok()
  {
    Dict(Without(d.order, k), d.vals - {k})
  }

  /** A dictionary lists every key exactly once. */
  lemma ListsEveryKey<V>(d: Dict<V>)
    requires d.Ok()
    ensures NoDup(d.order) && |d.order| == |d.vals|
    ensures forall k :: k in d.order <==> k in d.vals
  {
    CardinalityOfNoDup(d.order);
    assert |d.vals.Keys| == |d.vals|;
    forall k ensures k in d.order <==> k in d.vals {
      assert k in d.order <==> k in Elements(d.order);
      assert k in d.vals <==> k in d.vals.Keys;
    }
  }
}
