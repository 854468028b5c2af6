/** Bounded memory: sampling a victim from a stale cursor, and admitting a write or refusing it whole. */
module Eviction {
  import opened Bytes
  import opened Dictionary
  import opened Keyspace
  import opened StoreModel

  const MAXMEMORY_SAMPLES: nat := 5

  // -- Sampling ------------------------------------------------------------

  /** The keys an eviction on behalf of `exclude` may choose from. */
  function Others(s: Store, exclude: bytes): set<bytes> {
    s.data.vals.Keys - {exclude}
  }

  predicate Eligible(s: Store, exclude: bytes, k: bytes) {
    k != exclude && k in s.data.vals
  }

  /** Draw candidates off the end of the cursor, refilling it at most once; the new cursor and the candidates. */
  function Sample(s: Store, exclude: bytes, cursor: seq<bytes>, candidates: seq<bytes>, refilled: bool)
    : (seq<bytes>, seq<bytes>)
    decreases if refilled then 0 else 1, |cursor|
  {
    if |candidates| >= MAXMEMORY_SAMPLES then (cursor, candidates)
    else if |cursor| == 0 then
      if refilled then (cursor, candidates)
      else
        var all := Without(s.data.order, exclude);
        if |all| == 0 then (all, candidates) else Sample(s, exclude, all, candidates, true)
    else
      var k := cursor[|cursor| - 1];
      Sample(s, exclude, cursor[..|cursor| - 1],
             if Eligible(s, exclude, k) then candidates + [k] else candidates, refilled)
  }

  /** Every candidate before the i-th ranks above it. */
  predicate FirstBelow(s: Store, candidates: seq<bytes>, i: nat)
    requires i < |candidates|
  {
    forall j :: 0 <= j < i ==> Rank(s, candidates[j]) > Rank(s, candidates[i])
  }

  /** The first of the candidates with the smallest rank. */
  function LeastRecent(s: Store, candidates: seq<bytes>): (r: bytes)
    requires |candidates| > 0
    ensures r in candidates
    ensures forall k :: k in candidates ==> Rank(s, r) <= Rank(s, k)
    ensures exists i :: 0 <= i < |candidates| && candidates[i] == r && FirstBelow(s, candidates, i)
  {
    var last := candidates[|candidates| - 1];
    if |candidates| == 1 then last
    else
      var best := LeastRecent(s, candidates[..|candidates| - 1]);
      assert candidates == candidates[..|candidates| - 1] + [last];
      assert forall j :: 0 <= j < |candidates| - 1 ==> candidates[j] == candidates[..|candidates| - 1][j];
      assert candidates[|candidates| - 1] == last;
      if Rank(s, last) < Rank(s, best) then last else best
  }

  /** Ranks alone decide, so moving the cursor does not change the choice. */
  lemma {:induction false} LeastRecentSame(s: Store, t: Store, candidates: seq<bytes>)
    requires s.access == t.access
    ensures |candidates| > 0 ==> LeastRecent(s, candidates) == LeastRecent(t, candidates)
    decreases |candidates|
  {
    if |candidates| <= 1 {
    } else {
      LeastRecentSame(s, t, candidates[..|candidates| - 1]);
    }
  }

  /** What one half of a sample looks like: distinct, eligible, and no longer in the cursor. */
  ghost predicate Drawn(s: Store, exclude: bytes, part: seq<bytes>) {
    NoDup(part) && forall k :: k in part ==> Eligible(s, exclude, k)
  }

  lemma DrawnAppend(s: Store, exclude: bytes, part: seq<bytes>, k: bytes)
    requires Drawn(s, exclude, part) && Eligible(s, exclude, k) && k !in part
    ensures Drawn(s, exclude, part + [k])
  {
    NoDupAppend(part, k);
  }

  /** A refilled cursor lists exactly the eligible keys, once each. */
  lemma RefillLists(s: Store, exclude: bytes)
    requires s.data.Ok()
    ensures var all := Without(s.data.order, exclude);
      NoDup(all) && forall k :: Eligible(s, exclude, k) <==> k in all
  {
    var all := Without(s.data.order, exclude);
    ListsEveryKey(s.data);
    forall k ensures Eligible(s, exclude, k) <==> k in all {
      assert k in all <==> k in Elements(all);
      assert k in s.data.order <==> k in Elements(s.data.order);
    }
  }

  /**
   * A sample is the leftovers of a stale cursor followed by a fresh listing; neither half repeats a key,
   * and a sample that falls short of its size holds every eligible key.
   */
  lemma {:induction false} SampleShape(
    s: Store, exclude: bytes, cursor: seq<bytes>, stale: seq<bytes>, recent: seq<bytes>, refilled: bool)
    returns (stale': seq<bytes>, recent': seq<bytes>)
    requires s.data.Ok() && NoDup(cursor) && |stale| + |recent| <= MAXMEMORY_SAMPLES
    requires Drawn(s, exclude, stale) && Drawn(s, exclude, recent)
    requires !refilled ==> recent == [] && forall k :: k in stale ==> k !in cursor
    requires refilled ==> forall k :: k in recent ==> k !in cursor
    requires refilled ==> forall k :: Eligible(s, exclude, k) ==> k in cursor || k in recent
    ensures Drawn(s, exclude, stale') && Drawn(s, exclude, recent')
    ensures var (cursor', candidates') := Sample(s, exclude, cursor, stale + recent, refilled);
      && candidates' == stale' + recent' && NoDup(cursor')
      && |candidates'| <= MAXMEMORY_SAMPLES
      && (|candidates'| < MAXMEMORY_SAMPLES ==> forall k :: Eligible(s, exclude, k) ==> k in recent')
    decreases if refilled then 0 else 1, |cursor|
  {
    hide NoDup, Elements, Without, Drawn, Eligible;
    stale', recent' := stale, recent;
    if |stale + recent| >= MAXMEMORY_SAMPLES {
    } else {
      if |cursor| == 0 {
        if !refilled {
          var all := Without(s.data.order, exclude);
          RefillLists(s, exclude);
          if |all| > 0 {
            stale', recent' := SampleShape(s, exclude, all, stale, recent, true);
          }
        }
      } else {
        var k := cursor[|cursor| - 1];
        var rest := cursor[..|cursor| - 1];
        assert cursor == rest + [k];
        NoDupPop(cursor);
        if !Eligible(s, exclude, k) {
          stale', recent' := SampleShape(s, exclude, rest, stale, recent, refilled);
        } else if refilled {
          assert stale + recent + [k] == stale + (recent + [k]);
          DrawnAppend(s, exclude, recent, k);
          stale', recent' := SampleShape(s, exclude, rest, stale, recent + [k], refilled);
        } else {
          assert stale + recent + [k] == (stale + [k]) + recent;
          assert k in cursor;
          DrawnAppend(s, exclude, stale, k);
          stale', recent' := SampleShape(s, exclude, rest, stale + [k], recent, refilled);
        }
      }
    }
  }

  lemma SampleCursor(s: Store, exclude: bytes)
    requires Valid(s)
    ensures var (cursor, candidates) := Sample(s, exclude, s.evictCursor, [], false);
      NoDup(cursor) && forall k :: k in candidates ==> Eligible(s, exclude, k)
  {
    var none: seq<bytes> := [];
    var stale, recent := SampleShape(s, exclude, s.evictCursor, none, none, false);
    assert none + none == none;
  }

  /** `_select_victim`: the store with its advanced cursor, and the chosen key if there is one. */
  function SelectVictim(s: Store, exclude: bytes): (r: (Store, Option<bytes>))
    requires Valid(s)
    ensures Valid(r.0) && SameConfig(r.0, s)
    ensures r.0 == s.(evictCursor := r.0.evictCursor)
    ensures r.1.Some? ==> Eligible(s, exclude, r.1.value)
  {
    SampleCursor(s, exclude);
    var (cursor, candidates) := Sample(s, exclude, s.evictCursor, [], false);
    (s.(evictCursor := cursor),
     if |candidates| == 0 then None else Some(LeastRecent(s, candidates)))
  }

  /**
   * Sampling quality. There is a victim exactly when there is another key at all; and with n other keys,
   * at least min(n, 3) distinct keys, the victim among them, were used no earlier than the victim.
   */
  lemma SamplingQuality(s: Store, exclude: bytes) returns (sampled: set<bytes>)
    requires Valid(s)
    ensures SelectVictim(s, exclude).1.Some? <==> Others(s, exclude) != {}
    ensures sampled <= Others(s, exclude)
    ensures |sampled| >= if |Others(s, exclude)| < 3 then |Others(s, exclude)| else 3
    ensures SelectVictim(s, exclude).1.Some? ==>
      var victim := SelectVictim(s, exclude).1.value;
      victim in sampled && forall k :: k in sampled ==> Rank(s, victim) <= Rank(s, k)
  {
    var none: seq<bytes> := [];
    var stale, recent := SampleShape(s, exclude, s.evictCursor, none, none, false);
    assert none + none == none;
    hide Sample, Valid;
    var candidates := stale + recent;
    sampled := Elements(candidates);
    CardinalityOfNoDup(stale);
    CardinalityOfNoDup(recent);
    assert Elements(stale) <= sampled && Elements(recent) <= sampled;
    SubsetSize(Elements(stale), sampled);
    SubsetSize(Elements(recent), sampled);
    if |candidates| < MAXMEMORY_SAMPLES {
      assert Others(s, exclude) <= sampled;
      SubsetSize(Others(s, exclude), sampled);
    }
    assert sampled <= Others(s, exclude);
    assert |candidates| > 0 ==> candidates[0] in sampled;
    assert |candidates| == 0 ==> sampled == {};
  }

  lemma {:induction false} SubsetSize(a: set<bytes>, b: set<bytes>)
    requires a <= b
    ensures |a| <= |b|
    ensures |a| == |b| ==> a == b
    decreases |a|
  {
    if a == {} {
    } else {
      var x :| x in a;
      SubsetSize(a - {x}, b - {x});
      assert a == (a - {x}) + {x} && b == (b - {x}) + {x};
    }
  }

  /** With at most three other keys, eviction is exact LRU. */
  lemma ExactLruWhenSmall(s: Store, exclude: bytes, k: bytes)
    requires Valid(s) && |Others(s, exclude)| <= 3 && k in Others(s, exclude)
    ensures SelectVictim(s, exclude).1.Some?
    ensures Rank(s, SelectVictim(s, exclude).1.value) <= Rank(s, k)
  {
    var sampled := SamplingQuality(s, exclude);
    SubsetSize(sampled, Others(s, exclude));
  }

  // -- Admission -----------------------------------------------------------

  /** What the memory total would become if `k` came to cost `cost`. */
  function Projected(s: Store, k: bytes, cost: nat): int {
    s.memory - (if k in s.data.vals then Cost(k, s.data.vals[k]) else 0) + cost
  }

  /** Remove one victim and report it. */
  function Evict(s: Store, victim: bytes): (r: Store)
    requires Valid(s) && victim in s.data.vals
    ensures Valid(r) && SameConfig(r, s) && Reduced(s, r)
    ensures r.sweepCursor == s.sweepCursor
  {
    hide Total;
    var removed := Remove(s, victim);
    removed.(evicted := removed.evicted + [victim])
  }

  /** The eviction loop; `None` is its `victim is None` branch. */
  function EvictUntilFits(s: Store, k: bytes, cost: nat): (r: Option<Store>)
    requires Valid(s)
    ensures r.Some? ==> Valid(r.value) && SameConfig(r.value, s) && Reduced(s, r.value)
    ensures r.Some? ==> r.value.sweepCursor == s.sweepCursor
    decreases |s.data.vals|
  {
    if Projected(s, k, cost) <= s.maxmemory then Some(s)
    else
      var (sampled, victim) := SelectVictim(s, k);
      if victim.None? then None
      else
        assert Reduced(s, sampled);
        hide Valid, Reduced;
        var next := Evict(sampled, victim.value);
        var end := EvictUntilFits(next, k, cost);
        assert end.Some? ==> Reduced(s, end.value) by {
          if end.Some? {
            ReducedTrans(s, sampled, next);
            ReducedTrans(s, next, end.value);
          }
        }
        end
  }

  /** `_admit`: the store with room made for the write, or `None` for `OutOfMemoryError`. */
  function Admit(s: Store, now: int, k: bytes, v: bytes): (r: Option<Store>)
    requires Valid(s)
    ensures r.Some? ==> Valid(r.value) && SameConfig(r.value, s) && Reduced(s, r.value)
    ensures r.Some? ==> r.value.sweepCursor == s.sweepCursor
  {
    var cost := Cost(k, v);
    assert Reduced(s, s);
    hide Valid, Reduced;
    if s.maxmemory == 0 || Projected(s, k, cost) <= s.maxmemory then Some(s)
    else if s.policy.NoEviction? || cost > s.maxmemory then None
    else
      var live := DropExpired(s, now);
      var end := EvictUntilFits(live, k, cost);
      assert end.Some? ==> Reduced(s, end.value) by {
        if end.Some? { ReducedTrans(s, live, end.value); }
      }
      end
  }

  lemma NothingElseStored(s: Store, k: bytes)
    requires Valid(s) && Others(s, k) == {}
    ensures s.memory == if k in s.data.vals then Cost(k, s.data.vals[k]) else 0
  {
    TotalEmpty(s.data.vals - {k});
    assert s.data.vals - {k} == map[];
    if k in s.data.vals {
      TotalWithout(s.data.vals, k);
    } else {
      assert s.data.vals == map[];
    }
  }

  /** A write that could fit an empty keyspace always finds another victim while it does not fit. */
  lemma VictimExists(s: Store, k: bytes, cost: nat)
    requires Valid(s) && cost <= s.maxmemory < Projected(s, k, cost)
    ensures SelectVictim(s, k).1.Some?
  {
    hide Valid, SelectVictim;
    var _ := SamplingQuality(s, k);
    if Others(s, k) == {} {
      NothingElseStored(s, k);
    }
  }

  /** The keys a call has added to the eviction report. */
  function Reported(before: Store, after: Store): seq<bytes>
    requires |before.evicted| <= |after.evicted|
  {
    after.evicted[|before.evicted|..]
  }

  /** Evicting from `s` led to `r` and reported exactly what went missing, one key at a time. */
  ghost predicate EvictedExactly(s: Store, r: Store, k: bytes) {
    && s.evicted <= r.evicted
    && var report := Reported(s, r);
       && NoDup(report)
       && Elements(report) <= Others(s, k)
       && Stored(r) == Stored(s) - Elements(report)
       && r.data.vals == s.data.vals - Elements(report)
  }

  lemma EvictStored(s: Store, victim: bytes)
    requires Valid(s) && victim in s.data.vals
    ensures Stored(Evict(s, victim)) == Stored(s) - {victim}
    ensures Evict(s, victim).data.vals == s.data.vals - {victim}
    ensures Evict(s, victim).memory == s.memory - Cost(victim, s.data.vals[victim])
  {
    hide Valid;
    RemoveStored(s, victim);
  }

  lemma EvictedExactlyStep(s: Store, victim: bytes, r: Store, k: bytes)
    requires Valid(s) && Eligible(s, k, victim)
    requires EvictedExactly(Evict(s, victim), r, k)
    ensures EvictedExactly(s, r, k) && s.evicted <= r.evicted && Evict(s, victim).evicted <= r.evicted
    ensures Reported(s, r) == [victim] + Reported(Evict(s, victim), r)
  {
    hide Valid, Stored, Reduced;
    EvictStored(s, victim);
    var tail := Reported(Evict(s, victim), r);
    assert r.evicted == s.evicted + [victim] + tail;
    assert Reported(s, r) == [victim] + tail;
    assert victim !in Elements(tail);
    assert Elements([victim] + tail) == {victim} + Elements(tail);
  }

  /** Choosing a victim changes nothing but the cursor. */
  lemma SelectVictimKeeps(s: Store, k: bytes)
    requires Valid(s)
    ensures var next := SelectVictim(s, k).0;
      Stored(next) == Stored(s) && next.data == s.data && next.memory == s.memory && next.evicted == s.evicted
  {
    hide Valid;
  }

  /** The eviction loop cannot fail, ends within the limit, and evicts exactly what it reports. */
  lemma {:induction false} EvictUntilFitsExact(s: Store, k: bytes, cost: nat)
    requires Valid(s) && cost <= s.maxmemory
    ensures EvictUntilFits(s, k, cost).Some?
    ensures EvictedExactly(s, EvictUntilFits(s, k, cost).value, k)
    ensures Projected(EvictUntilFits(s, k, cost).value, k, cost) <= s.maxmemory
    decreases |s.data.vals|
  {
    hide Valid, SelectVictim, Stored, Evict, EvictedExactly, Reduced;
    if Projected(s, k, cost) <= s.maxmemory {
      NothingEvictedExactly(s, k);
    } else {
      VictimExists(s, k, cost);
      SelectVictimKeeps(s, k);
      var (sampled, victim) := SelectVictim(s, k);
      EvictStored(sampled, victim.value);
      EvictUntilFitsExact(Evict(sampled, victim.value), k, cost);
      var r := EvictUntilFits(s, k, cost).value;
      EvictedExactlyStep(sampled, victim.value, r, k);
      EvictedExactlySame(s, sampled, r, k);
    }
  }

  lemma NothingEvictedExactly(s: Store, k: bytes)
    ensures EvictedExactly(s, s, k)
  {
    hide Stored;
    assert Elements(Reported(s, s)) == {};
    assert s.data.vals - {} == s.data.vals && Stored(s) - {} == Stored(s);
  }

  lemma EvictedExactlySame(s: Store, t: Store, r: Store, k: bytes)
    requires EvictedExactly(t, r, k)
    requires Stored(t) == Stored(s) && t.data == s.data && t.evicted == s.evicted
    ensures EvictedExactly(s, r, k)
  {
    hide Stored;
  }

  /** Nothing is reported when `d` already has room, and the last victim was needed. */
  ghost predicate EvictedMinimally(d: Store, a: Store, k: bytes, cost: nat) {
    && d.evicted <= a.evicted
    && var report := Reported(d, a);
       && (report == [] <==> Projected(d, k, cost) <= d.maxmemory)
       && (report != [] ==>
             var last := report[|report| - 1];
             last in d.data.vals && Projected(a, k, cost) + Cost(last, d.data.vals[last]) > d.maxmemory)
  }

  /** Nothing is evicted when nothing is needed, and without its last victim the write would not have fitted. */
  lemma {:induction false} EvictUntilFitsMinimal(s: Store, k: bytes, cost: nat)
    requires Valid(s) && cost <= s.maxmemory
    ensures EvictUntilFits(s, k, cost).Some? && EvictedExactly(s, EvictUntilFits(s, k, cost).value, k)
    ensures EvictedMinimally(s, EvictUntilFits(s, k, cost).value, k, cost)
    decreases |s.data.vals|
  {
    hide Valid, SelectVictim, Evict, EvictedExactly, Reduced;
    EvictUntilFitsExact(s, k, cost);
    if Projected(s, k, cost) <= s.maxmemory {
    } else {
      VictimExists(s, k, cost);
      SelectVictimKeeps(s, k);
      var (sampled, victim) := SelectVictim(s, k);
      var next := Evict(sampled, victim.value);
      EvictStored(sampled, victim.value);
      EvictUntilFitsMinimal(next, k, cost);
      var r := EvictUntilFits(next, k, cost).value;
      EvictedExactlyStep(sampled, victim.value, r, k);
      assert Projected(next, k, cost) + Cost(victim.value, s.data.vals[victim.value]) == Projected(s, k, cost);
      var report, tail := Reported(s, r), Reported(next, r);
      assert report == [victim.value] + tail;
      if tail == [] {
        EvictUntilFitsStops(next, k, cost);
        assert report[|report| - 1] == victim.value;
      } else {
        assert report[|report| - 1] == tail[|tail| - 1];
      }
    }
  }

  lemma EvictUntilFitsStops(s: Store, k: bytes, cost: nat)
    requires Valid(s) && Projected(s, k, cost) <= s.maxmemory
    ensures EvictUntilFits(s, k, cost) == Some(s)
  {
  }

  /** The condition a caller can check beforehand under which `_admit` refuses the write. */
  predicate Refused(s: Store, k: bytes, v: bytes) {
    && s.maxmemory != 0
    && Projected(s, k, Cost(k, v)) > s.maxmemory
    && (s.policy.NoEviction? || Cost(k, v) > s.maxmemory)
  }

  /** Room is made only when there is a limit and the write does not fit as things stand. */
  predicate NeedsRoom(s: Store, k: bytes, v: bytes) {
    s.maxmemory != 0 && Projected(s, k, Cost(k, v)) > s.maxmemory
  }

  /** All-or-nothing admission: refused exactly by the up-front checks, and otherwise within the ceiling. */
  lemma AdmissionIsAllOrNothing(s: Store, now: int, k: bytes, v: bytes)
    requires Valid(s)
    ensures Admit(s, now, k, v).None? <==> Refused(s, k, v)
    ensures Admit(s, now, k, v).Some? && s.maxmemory != 0 ==>
      Projected(Admit(s, now, k, v).value, k, Cost(k, v)) <= s.maxmemory
    ensures !NeedsRoom(s, k, v) ==> Admit(s, now, k, v) == Some(s)
  {
    hide Valid, DropExpired, EvictUntilFits;
    if NeedsRoom(s, k, v) && !Refused(s, k, v) {
      EvictUntilFitsExact(DropExpired(s, now), k, Cost(k, v));
    }
  }

  /** What eviction left behind and what it reported, when room had to be made. */
  lemma AdmissionEvictsExactly(s: Store, now: int, k: bytes, v: bytes)
    requires Valid(s) && NeedsRoom(s, k, v) && !Refused(s, k, v)
    ensures var a := Admit(s, now, k, v);
      && a.Some? && EvictedExactly(DropExpired(s, now), a.value, k)
      && s.evicted <= a.value.evicted
      && Reported(s, a.value) == Reported(DropExpired(s, now), a.value)
      && Stored(DropExpired(s, now)) == View(s, now)
  {
    hide Valid, DropExpired, EvictUntilFits, Stored;
    EvictUntilFitsExact(DropExpired(s, now), k, Cost(k, v));
    DropExpiredStored(s, now);
  }

  /**
   * From `s` to `a`, every stored key is a survivor with its entry unchanged, or was already expired, or is
   * in the report; the report repeats nothing and names no expired key and not the written key `k`; and a
   * client sees exactly the reported keys disappear.
   */
  ghost predicate Conserved(s: Store, a: Store, now: int, k: bytes) {
    && s.evicted <= a.evicted
    && var report := Reported(s, a);
       && NoDup(report) && k !in report
       && Elements(report) <= View(s, now).Keys
       && View(a, now) == View(s, now) - Elements(report)
       && Elements(report) !! Stored(a).Keys
       && (forall j :: j in Stored(a) ==> j in Stored(s) && Stored(a)[j] == Stored(s)[j])
       && (forall j :: j in Stored(s) ==> j in Stored(a) || j in report || Expired(Stored(s)[j], now))
  }

  lemma ConservedByEviction(s: Store, d: Store, a: Store, now: int, k: bytes)
    requires EvictedExactly(d, a, k) && Stored(d) == View(s, now) && d.evicted == s.evicted
    ensures Conserved(s, a, now, k)
  {
    StoredKeys(d);
    hide Stored;
    var report := Reported(s, a);
    assert Reported(d, a) == report;
    assert k !in Elements(report);
    UnexpiredLater(Stored(s), now, now);
  }

  /** Eviction conserves: nothing is lost without being reported, unless it had expired. */
  lemma AdmissionConserves(s: Store, now: int, k: bytes, v: bytes, a: Store)
    requires Valid(s) && Admit(s, now, k, v) == Some(a)
    ensures Conserved(s, a, now, k)
  {
    AdmissionIsAllOrNothing(s, now, k, v);
    hide Valid, DropExpired, Admit, Stored;
    if NeedsRoom(s, k, v) {
      hide Conserved, EvictedExactly;
      AdmissionEvictsExactly(s, now, k, v);
      ConservedByEviction(s, DropExpired(s, now), a, now, k);
    } else {
      assert Elements(Reported(s, a)) == {};
    }
  }

  /** Eviction is minimal: nothing live goes if reclaiming expired keys suffices, and the last victim was needed. */
  lemma AdmissionEvictsNoMoreThanNeeded(s: Store, now: int, k: bytes, v: bytes, a: Store)
    requires Valid(s) && NeedsRoom(s, k, v) && Admit(s, now, k, v) == Some(a)
    ensures EvictedMinimally(DropExpired(s, now), a, k, Cost(k, v))
  {
    hide Valid, DropExpired, EvictUntilFits, EvictedExactly;
    EvictUntilFitsMinimal(DropExpired(s, now), k, Cost(k, v));
  }

  // -- Which keys go -------------------------------------------------------

  /** The report lists keys in the order of their last use, none used later than a key that is left, `k` aside. */
  ghost predicate EvictedOldest(s: Store, a: Store, k: bytes) {
    && s.evicted <= a.evicted
    && var report := Reported(s, a);
       && (forall i, j :: 0 <= i < j < |report| ==> Rank(s, report[i]) <= Rank(s, report[j]))
       && (forall j, x :: j in report && x in Others(a, k) ==> Rank(s, j) <= Rank(s, x))
  }

  lemma EvictedOldestStep(s: Store, victim: bytes, r: Store, k: bytes)
    requires Valid(s) && Eligible(s, k, victim) && Reduced(Evict(s, victim), r)
    requires forall x :: x in Others(s, k) ==> Rank(s, victim) <= Rank(s, x)
    requires EvictedExactly(Evict(s, victim), r, k) && EvictedOldest(Evict(s, victim), r, k)
    ensures EvictedOldest(s, r, k)
  {
    EvictStored(s, victim);
    EvictedExactlyStep(s, victim, r, k);
    EvictReduces(s, victim);
    var next := Evict(s, victim);
    EvictedOldestFirst(s, next, victim, r, k, Reported(next, r));
  }

  lemma EvictReduces(s: Store, victim: bytes)
    requires Valid(s) && victim in s.data.vals
    ensures Reduced(s, Evict(s, victim))
  {
    hide Valid, Reduced;
  }

  lemma EvictedOldestFirst(s: Store, t: Store, victim: bytes, r: Store, k: bytes, tail: seq<bytes>)
    requires Reduced(s, t) && Reduced(t, r) && s.evicted <= r.evicted && t.evicted <= r.evicted
    requires victim in s.data.vals && tail == Reported(t, r) && Reported(s, r) == [victim] + tail
    requires forall x :: x in Others(s, k) ==> Rank(s, victim) <= Rank(s, x)
    requires Elements(tail) <= Others(t, k) && EvictedOldest(t, r, k)
    ensures EvictedOldest(s, r, k)
  {
    hide Rank, Reported;
    assert forall x :: x in tail ==> x in Elements(tail);
    assert forall x :: x in Others(t, k) ==> x in Others(s, k) && Rank(t, x) == Rank(s, x);
    assert forall x :: x in Others(r, k) ==> x in Others(t, k);
  }

  /** With at most three other keys the eviction loop is exact LRU from its first victim to its last. */
  lemma {:induction false} EvictUntilFitsOldest(s: Store, k: bytes, cost: nat)
    requires Valid(s) && cost <= s.maxmemory && |Others(s, k)| <= 3
    ensures EvictUntilFits(s, k, cost).Some? && EvictedOldest(s, EvictUntilFits(s, k, cost).value, k)
    decreases |s.data.vals|
  {
    hide Valid, SelectVictim, Evict, EvictedExactly, EvictedOldest, Reduced, Rank;
    EvictUntilFitsExact(s, k, cost);
    if Projected(s, k, cost) <= s.maxmemory {
      NothingEvicted(s, k);
    } else {
      VictimExists(s, k, cost);
      SelectVictimKeeps(s, k);
      var (sampled, victim) := SelectVictim(s, k);
      var next := Evict(sampled, victim.value);
      forall x | x in Others(s, k) ensures Rank(sampled, victim.value) <= Rank(sampled, x) {
        ExactLruWhenSmall(s, k, x);
        SelectVictimRanks(s, k, victim.value, x);
      }
      EvictStored(sampled, victim.value);
      SubsetSize(Others(next, k), Others(s, k));
      EvictUntilFitsExact(next, k, cost);
      EvictUntilFitsOldest(next, k, cost);
      var r := EvictUntilFits(next, k, cost).value;
      EvictedOldestStep(sampled, victim.value, r, k);
      EvictedOldestSame(s, sampled, r, k);
    }
  }

  lemma NothingEvicted(s: Store, k: bytes)
    ensures EvictedOldest(s, s, k)
  {
  }

  lemma SelectVictimRanks(s: Store, k: bytes, j: bytes, x: bytes)
    requires Valid(s)
    ensures var next := SelectVictim(s, k).0; Rank(next, j) == Rank(s, j) && Rank(next, x) == Rank(s, x)
  {
    hide Valid;
  }

  lemma EvictedOldestSame(s: Store, t: Store, r: Store, k: bytes)
    requires EvictedOldest(t, r, k) && t == s.(evictCursor := t.evictCursor)
    ensures EvictedOldest(s, r, k)
  {
    assert forall x :: Rank(s, x) == Rank(t, x);
  }

  /**
   * What a write evicts. When a client sees at most three keys besides the written one, the keys reported are
   * exactly those used longest ago, in that order.
   */
  lemma AdmissionEvictsOldest(s: Store, now: int, k: bytes, v: bytes, a: Store)
    requires Valid(s) && Admit(s, now, k, v) == Some(a) && |View(s, now).Keys - {k}| <= 3
    ensures EvictedOldest(s, a, k)
  {
    AdmissionIsAllOrNothing(s, now, k, v);
    hide Valid, DropExpired, EvictUntilFits, EvictedExactly, Stored;
    if NeedsRoom(s, k, v) {
      var live := DropExpired(s, now);
      DropExpiredStored(s, now);
      StoredKeys(live);
      EvictUntilFitsExact(live, k, Cost(k, v));
      EvictUntilFitsOldest(live, k, Cost(k, v));
      EvictedOldestLater(s, live, a, k);
    } else {
      NothingEvicted(s, k);
    }
  }

  /** Dropping keys beforehand changes no rank that matters. */
  lemma EvictedOldestLater(s: Store, t: Store, r: Store, k: bytes)
    requires Reduced(s, t) && t.evicted == s.evicted && Reduced(t, r)
    requires EvictedExactly(t, r, k) && EvictedOldest(t, r, k)
    ensures EvictedOldest(s, r, k)
  {
    hide Stored, Rank;
    var report := Reported(s, r);
    assert report == Reported(t, r);
    forall i | 0 <= i < |report| ensures Rank(s, report[i]) == Rank(t, report[i]) {
      assert report[i] in Elements(report);
    }
    assert forall x :: x in Others(r, k) ==> Rank(s, x) == Rank(t, x);
  }
}
