/** What eviction looks at: its sample in closed form, and exactly when the sample is as wide as it sets out to be. */
module Sampling {
  import opened Bytes
  import opened Dictionary
  import opened StoreModel
  import opened Eviction

  /** The keys of a cursor that an eviction on behalf of `exclude` may choose from, in the order they are popped. */
  function Popped(s: Store, exclude: bytes, cursor: seq<bytes>): seq<bytes>
    decreases |cursor|
  {
    if |cursor| == 0 then []
    else
      var k := cursor[|cursor| - 1];
      (if Eligible(s, exclude, k) then [k] else []) + Popped(s, exclude, cursor[..|cursor| - 1])
  }

  function FirstFew(xs: seq<bytes>, n: int): seq<bytes> {
    if n <= 0 then [] else if |xs| <= n then xs else xs[..n]
  }

  /** What the cursor still holds from an earlier listing, up to a whole sample. */
  function Leftovers(s: Store, exclude: bytes): seq<bytes> {
    FirstFew(Popped(s, exclude, s.evictCursor), MAXMEMORY_SAMPLES)
  }

  /** What a new listing adds to fill the sample: the keys stored last come first. */
  function Refill(s: Store, exclude: bytes): seq<bytes> {
    FirstFew(Popped(s, exclude, s.data.order), MAXMEMORY_SAMPLES - |Leftovers(s, exclude)|)
  }

  // -- The sample in closed form -------------------------------------------

  lemma FirstFewNone(xs: seq<bytes>, n: int)
    ensures n <= 0 || |xs| == 0 ==> FirstFew(xs, n) == []
  {
  }

  lemma FirstFewOfCons(k: bytes, xs: seq<bytes>, n: int)
    requires n > 0
    ensures FirstFew([k] + xs, n) == [k] + FirstFew(xs, n - 1)
  {
  }

  lemma {:induction false} SampleOfListing(s: Store, exclude: bytes, cursor: seq<bytes>, candidates: seq<bytes>)
    ensures Sample(s, exclude, cursor, candidates, true).1
         == candidates + FirstFew(Popped(s, exclude, cursor), MAXMEMORY_SAMPLES - |candidates|)
    decreases |cursor|
  {
    hide Eligible, FirstFew;
    FirstFewNone(Popped(s, exclude, cursor), MAXMEMORY_SAMPLES - |candidates|);
    if |candidates| >= MAXMEMORY_SAMPLES || |cursor| == 0 {
      assert candidates + [] == candidates;
    } else {
      var k, rest := cursor[|cursor| - 1], cursor[..|cursor| - 1];
      if Eligible(s, exclude, k) {
        SampleOfListing(s, exclude, rest, candidates + [k]);
        FirstFewOfCons(k, Popped(s, exclude, rest), MAXMEMORY_SAMPLES - |candidates|);
      } else {
        SampleOfListing(s, exclude, rest, candidates);
        assert [] + Popped(s, exclude, rest) == Popped(s, exclude, rest);
      }
    }
  }

  /** Leaving out the excluded key beforehand makes no difference. */
  lemma {:induction false} PoppedWithout(s: Store, exclude: bytes, cursor: seq<bytes>)
    ensures Popped(s, exclude, Without(cursor, exclude)) == Popped(s, exclude, cursor)
    decreases |cursor|
  {
    if |cursor| == 0 {
    } else {
      var k, rest := cursor[|cursor| - 1], cursor[..|cursor| - 1];
      PoppedWithout(s, exclude, rest);
      if k != exclude {
        assert (Without(rest, exclude) + [k])[..|Without(rest, exclude)|] == Without(rest, exclude);
      }
    }
  }

  lemma {:induction false} SampleOfCursor(s: Store, exclude: bytes, cursor: seq<bytes>, candidates: seq<bytes>)
    ensures var left := FirstFew(Popped(s, exclude, cursor), MAXMEMORY_SAMPLES - |candidates|);
      var more := FirstFew(Popped(s, exclude, s.data.order), MAXMEMORY_SAMPLES - |candidates| - |left|);
      Sample(s, exclude, cursor, candidates, false).1 == candidates + left + more
    decreases |cursor|
  {
    hide Eligible, Without, FirstFew;
    var few := MAXMEMORY_SAMPLES - |candidates|;
    FirstFewNone(Popped(s, exclude, cursor), few);
    FirstFewNone(Popped(s, exclude, s.data.order), few - |FirstFew(Popped(s, exclude, cursor), few)|);
    if few <= 0 {
      assert candidates + [] + [] == candidates;
    } else if |cursor| == 0 {
      var all := Without(s.data.order, exclude);
      PoppedWithout(s, exclude, s.data.order);
      SampleOfListing(s, exclude, all, candidates);
      assert candidates + [] == candidates;
    } else {
      var k, rest := cursor[|cursor| - 1], cursor[..|cursor| - 1];
      if Eligible(s, exclude, k) {
        SampleOfCursor(s, exclude, rest, candidates + [k]);
        FirstFewOfCons(k, Popped(s, exclude, rest), few);
        var left := FirstFew(Popped(s, exclude, rest), few - 1);
        assert candidates + [k] + left == candidates + ([k] + left);
      } else {
        SampleOfCursor(s, exclude, rest, candidates);
        assert [] + Popped(s, exclude, rest) == Popped(s, exclude, rest);
      }
    }
  }

  /**
   * The sample in closed form, read off the store before the call: the eligible leftovers of the cursor and then
   * the most recently stored eligible keys. The victim is the first of them with the smallest rank.
   */
  lemma SampleIsLeftoversThenRefill(s: Store, exclude: bytes)
    requires Valid(s)
    ensures var sample := Leftovers(s, exclude) + Refill(s, exclude);
      && Sample(s, exclude, s.evictCursor, [], false).1 == sample
      && SelectVictim(s, exclude).1 == if sample == [] then None else Some(LeastRecent(s, sample))
  {
    hide Sample, Popped;
    var none: seq<bytes> := [];
    SampleOfCursor(s, exclude, s.evictCursor, none);
    assert none + Leftovers(s, exclude) + Refill(s, exclude) == Leftovers(s, exclude) + Refill(s, exclude);
  }

  // -- How wide it is ------------------------------------------------------

  lemma {:induction false} PoppedHolds(s: Store, exclude: bytes, cursor: seq<bytes>)
    requires NoDup(cursor)
    ensures NoDup(Popped(s, exclude, cursor))
    ensures forall k :: k in Popped(s, exclude, cursor) <==> k in cursor && Eligible(s, exclude, k)
    decreases |cursor|
  {
    hide Eligible;
    if |cursor| == 0 {
    } else {
      var k, rest := cursor[|cursor| - 1], cursor[..|cursor| - 1];
      NoDupPop(cursor);
      PoppedHolds(s, exclude, rest);
      assert cursor == rest + [k];
    }
  }

  lemma FirstFewHolds(xs: seq<bytes>, n: int)
    requires NoDup(xs)
    ensures NoDup(FirstFew(xs, n)) && |Elements(FirstFew(xs, n))| == |FirstFew(xs, n)|
    ensures Elements(FirstFew(xs, n)) <= Elements(xs)
  {
    CardinalityOfNoDup(FirstFew(xs, n));
  }

  lemma UnionSize(a: set<bytes>, b: set<bytes>)
    ensures |a + b| == |a| + |b| - |a * b|
  {
    assert a + b == a + (b - a) && b == (b - a) + a * b;
  }

  /** A listing yields every other key, once. */
  lemma OthersListed(s: Store, exclude: bytes)
    requires Valid(s)
    ensures var all := Popped(s, exclude, s.data.order);
      NoDup(all) && Elements(all) == Others(s, exclude) && |all| == |Others(s, exclude)|
  {
    var all := Popped(s, exclude, s.data.order);
    ListsEveryKey(s.data);
    PoppedHolds(s, exclude, s.data.order);
    CardinalityOfNoDup(all);
    hide Valid, NoDup, Popped;
    assert Elements(all) == Others(s, exclude);
  }

  lemma LeftoversAreOthers(s: Store, exclude: bytes)
    requires Valid(s)
    ensures var left := Popped(s, exclude, s.evictCursor); NoDup(left) && Elements(left) <= Others(s, exclude)
  {
    PoppedHolds(s, exclude, s.evictCursor);
    hide Valid, NoDup, Popped;
  }

  /** Both halves hold other keys only, once each, and together they fill the sample if there are enough. */
  lemma HalvesHold(s: Store, exclude: bytes)
    requires Valid(s)
    ensures var left, more, n := Leftovers(s, exclude), Refill(s, exclude), |Others(s, exclude)|;
      && |Elements(left)| == |left| && |Elements(more)| == |more|
      && Elements(left) + Elements(more) <= Others(s, exclude)
      && |left| <= MAXMEMORY_SAMPLES
      && |more| == if MAXMEMORY_SAMPLES - |left| <= n then MAXMEMORY_SAMPLES - |left| else n
  {
    hide Valid, Popped, NoDup, Elements, Others;
    OthersListed(s, exclude);
    LeftoversAreOthers(s, exclude);
    FirstFewHolds(Popped(s, exclude, s.evictCursor), MAXMEMORY_SAMPLES);
    FirstFewHolds(Popped(s, exclude, s.data.order), MAXMEMORY_SAMPLES - |Leftovers(s, exclude)|);
  }

  /** How many keys the sample sets out to hold. */
  function Aim(s: Store, exclude: bytes): nat {
    if |Others(s, exclude)| < MAXMEMORY_SAMPLES then |Others(s, exclude)| else MAXMEMORY_SAMPLES
  }

  /**
   * How wide the sample is. It holds as many distinct keys as its two halves have between them, and so it falls
   * short of min(n, 5) exactly when more leftovers are listed again than there are places to spare. With five
   * other keys or more no place is to spare: every leftover must be outside the part of the listing that is used.
   */
  lemma SampleWidth(s: Store, exclude: bytes)
    requires Valid(s)
    ensures var left, more := Leftovers(s, exclude), Refill(s, exclude);
      var sampled := Elements(Sample(s, exclude, s.evictCursor, [], false).1);
      var again := Elements(left) * Elements(more);
      && |sampled| == |left| + |more| - |again| <= Aim(s, exclude)
      && (|sampled| == Aim(s, exclude) <==> |again| <= |left| + |more| - Aim(s, exclude))
      && (|Others(s, exclude)| >= MAXMEMORY_SAMPLES ==>
            |left| + |more| == MAXMEMORY_SAMPLES && (|sampled| == Aim(s, exclude) <==> again == {}))
      && (|left| == 0 || |left| == MAXMEMORY_SAMPLES ==> |sampled| == Aim(s, exclude))
  {
    hide Valid, Leftovers, Refill, Sample, Others, Elements, SelectVictim;
    var left, more := Leftovers(s, exclude), Refill(s, exclude);
    SampleIsLeftoversThenRefill(s, exclude);
    HalvesHold(s, exclude);
    ElementsOfBoth(left, more);
    UnionWidth(Elements(left), Elements(more), Others(s, exclude));
  }

  lemma ElementsOfBoth(xs: seq<bytes>, ys: seq<bytes>)
    ensures Elements(xs + ys) == Elements(xs) + Elements(ys)
  {
  }

  lemma UnionWidth(left: set<bytes>, more: set<bytes>, others: set<bytes>)
    requires left + more <= others && |left| <= MAXMEMORY_SAMPLES
    requires |more| == if MAXMEMORY_SAMPLES - |left| <= |others| then MAXMEMORY_SAMPLES - |left| else |others|
    ensures var aim := if |others| < MAXMEMORY_SAMPLES then |others| else MAXMEMORY_SAMPLES;
      && |left + more| == |left| + |more| - |left * more| <= aim
      && (|others| >= MAXMEMORY_SAMPLES ==> |left| + |more| == MAXMEMORY_SAMPLES)
      && (|left * more| == 0 <==> left * more == {})
      && (|left| == 0 || |left| == MAXMEMORY_SAMPLES ==> |left + more| == aim)
  {
    UnionSize(left, more);
    SubsetSize(left + more, others);
    SubsetSize(left, others);
    assert |left| == 0 || |more| == 0 ==> left * more == {};
  }
}
