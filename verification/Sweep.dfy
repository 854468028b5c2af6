/** Active expiration: a bounded sweep whose cursor resumes where the previous call stopped. */
module Sweep {
  import opened Bytes
  import opened Dictionary
  import opened Keyspace
  import opened StoreModel

  /** The cursor the next examined key is popped from; refilled from the timed keys when empty. */
  function NextCursor(s: Store): seq<bytes> {
    if |s.sweepCursor| == 0 then s.expires.order else s.sweepCursor
  }

  /** The sweep stops early: nothing to examine, or the whole listing was examined in this call. */
  predicate Exhausted(s: Store, refilled: bool) {
    |s.sweepCursor| == 0 && (refilled || |s.expires.order| == 0)
  }

  /** Pop one key off the cursor and drop it if it has expired. */
  function Examine(s: Store, now: int): (r: Store)
    requires Valid(s) && |NextCursor(s)| > 0
    ensures Valid(r) && SameReport(r, s) && Reduced(s, r)
  {
    hide Total, NoDup, Elements;
    var cursor := NextCursor(s);
    DropIfExpired(s.(sweepCursor := cursor[..|cursor| - 1]), now, cursor[|cursor| - 1])
  }

  /** Examining a key is popping it off the cursor and removing it if its deadline has passed. */
  lemma ExamineIsPop(s: Store, now: int)
    requires Valid(s) && |NextCursor(s)| > 0
    ensures var cursor := NextCursor(s);
      var k := cursor[|cursor| - 1];
      var popped := s.(sweepCursor := cursor[..|cursor| - 1]);
      && Valid(popped)
      && Examine(s, now) == (if DeadlinePassed(s, now, k) then Remove(popped, k) else popped)
      && (DeadlinePassed(s, now, k) ==> k in s.data.vals)
  {
    hide Total, Reduced, Remove;
  }

  /** The store after examining at most `limit` keys, and how many of them were dropped. */
  function SweepLoop(s: Store, now: int, limit: nat, refilled: bool): (r: (Store, nat))
    requires Valid(s)
    ensures Valid(r.0) && SameReport(r.0, s) && Reduced(s, r.0)
    ensures r.1 <= limit
    decreases limit
  {
    hide Valid;
    if limit == 0 || Exhausted(s, refilled) then (s, 0)
    else
      var cursor := NextCursor(s);
      var dropped := if DeadlinePassed(s, now, cursor[|cursor| - 1]) then 1 else 0;
      var (end, removed) := SweepLoop(Examine(s, now), now, limit - 1, refilled || |s.sweepCursor| == 0);
      (end, removed + dropped)
  }

  /** `sweep_expired(limit)`. */
  function SweepExpired(s: Store, now: int, limit: nat): (r: (Store, nat))
    requires Valid(s)
    ensures Valid(r.0) && SameReport(r.0, s) && Reduced(s, r.0)
    ensures r.1 <= limit
  {
    SweepLoop(s, now, limit, false)
  }

  /** The keys the loop examines, one for each time round. */
  function Examined(s: Store, now: int, limit: nat, refilled: bool): (r: seq<bytes>)
    requires Valid(s)
    ensures |r| <= limit
    decreases limit
  {
    hide Valid;
    if limit == 0 || Exhausted(s, refilled) then []
    else
      var cursor := NextCursor(s);
      [cursor[|cursor| - 1]] + Examined(Examine(s, now), now, limit - 1, refilled || |s.sweepCursor| == 0)
  }

  /** Half way: `seen` were examined and `removed` dropped, and going on from `s` for `left` keys ends like `whole`. */
  ghost predicate Sweeping(
    s: Store, now: int, left: nat, refilled: bool, seen: seq<bytes>, removed: nat, whole: (Store, nat), all: seq<bytes>)
    requires Valid(s)
  {
    var (end, more) := SweepLoop(s, now, left, refilled);
    end == whole.0 && removed + more == whole.1 && seen + Examined(s, now, left, refilled) == all
  }

  lemma SweepingStarts(s: Store, now: int, limit: nat)
    requires Valid(s)
    ensures Sweeping(s, now, limit, false, [], 0, SweepExpired(s, now, limit), Examined(s, now, limit, false))
  {
    hide Valid, Reduced, SweepLoop, Examined;
  }

  /** One time round the loop: pop a key off the cursor, and remove it if its deadline has passed. */
  lemma SweepingGoesOn(
    s: Store, now: int, left: nat, refilled: bool, seen: seq<bytes>, removed: nat, whole: (Store, nat), all: seq<bytes>)
    requires Valid(s) && left > 0 && !Exhausted(s, refilled)
    requires Sweeping(s, now, left, refilled, seen, removed, whole, all)
    ensures |NextCursor(s)| > 0
    ensures var cursor, refilled' := NextCursor(s), refilled || |s.sweepCursor| == 0;
      var k, popped := cursor[|cursor| - 1], s.(sweepCursor := cursor[..|cursor| - 1]);
      && Valid(popped) && (DeadlinePassed(s, now, k) ==> k in s.data.vals)
      && (DeadlinePassed(s, now, k) ==>
            Sweeping(Remove(popped, k), now, left - 1, refilled', seen + [k], removed + 1, whole, all))
      && (!DeadlinePassed(s, now, k) ==> Sweeping(popped, now, left - 1, refilled', seen + [k], removed, whole, all))
  {
    hide Valid, Reduced, Examine, Remove;
    assert |NextCursor(s)| > 0;
    ExamineIsPop(s, now);
    var k := NextCursor(s)[|NextCursor(s)| - 1];
    var later := Examined(Examine(s, now), now, left - 1, refilled || |s.sweepCursor| == 0);
    assert seen + ([k] + later) == (seen + [k]) + later;
  }

  lemma SweepingEnds(
    s: Store, now: int, left: nat, refilled: bool, seen: seq<bytes>, removed: nat, whole: (Store, nat), all: seq<bytes>)
    requires Valid(s) && (left == 0 || Exhausted(s, refilled))
    requires Sweeping(s, now, left, refilled, seen, removed, whole, all)
    ensures (s, removed) == whole && seen == all
  {
    hide Valid, Reduced, Examine;
    assert seen + [] == seen;
  }

  // -- A sweep removes garbage and nothing else ----------------------------

  /** `t` is `s` after dropping some expired keys. */
  ghost predicate OnlyExpiredGone(s: Store, t: Store, now: int) {
    && (forall k :: k in Stored(t) ==> k in Stored(s) && Stored(t)[k] == Stored(s)[k])
    && (forall k :: k in Stored(s) && k !in Stored(t) ==> Expired(Stored(s)[k], now))
  }

  lemma OnlyExpiredGoneView(s: Store, t: Store, now: int)
    requires OnlyExpiredGone(s, t, now)
    ensures View(t, now) == View(s, now)
  {
    hide Stored;
  }

  lemma OnlyExpiredGoneTrans(s: Store, t: Store, u: Store, now: int)
    requires OnlyExpiredGone(s, t, now) && OnlyExpiredGone(t, u, now)
    ensures OnlyExpiredGone(s, u, now)
  {
    hide Stored;
  }

  lemma ExamineStored(s: Store, now: int)
    requires Valid(s) && |NextCursor(s)| > 0
    ensures var k := NextCursor(s)[|NextCursor(s)| - 1];
      Stored(Examine(s, now)) == if DeadlinePassed(s, now, k) then Stored(s) - {k} else Stored(s)
    ensures var k := NextCursor(s)[|NextCursor(s)| - 1];
      DeadlinePassed(s, now, k) ==> k in Stored(s) && Expired(Stored(s)[k], now)
  {
    hide DropIfExpired;
    var cursor := NextCursor(s);
    var popped := s.(sweepCursor := cursor[..|cursor| - 1]);
    assert Stored(popped) == Stored(s);
    DropIfExpiredStored(popped, now, cursor[|cursor| - 1]);
  }

  lemma {:induction false} SweepLoopDropsOnlyExpired(s: Store, now: int, limit: nat, refilled: bool)
    requires Valid(s)
    ensures OnlyExpiredGone(s, SweepLoop(s, now, limit, refilled).0, now)
    ensures |Stored(SweepLoop(s, now, limit, refilled).0)| + SweepLoop(s, now, limit, refilled).1 == |Stored(s)|
    decreases limit
  {
    hide Valid, Examine, Stored, Unexpired;
    if limit == 0 || Exhausted(s, refilled) {
    } else {
      var next, refilled' := Examine(s, now), refilled || |s.sweepCursor| == 0;
      var end := SweepLoop(next, now, limit - 1, refilled').0;
      ExamineStored(s, now);
      SweepLoopDropsOnlyExpired(next, now, limit - 1, refilled');
      assert OnlyExpiredGone(s, next, now);
      OnlyExpiredGoneTrans(s, next, end, now);
    }
  }

  /** A sweep is invisible to clients and its answer is the number of keys it removed. */
  lemma SweepIsInvisible(s: Store, now: int, limit: nat)
    requires Valid(s)
    ensures View(SweepExpired(s, now, limit).0, now) == View(s, now)
    ensures OnlyExpiredGone(s, SweepExpired(s, now, limit).0, now)
    ensures |Stored(SweepExpired(s, now, limit).0)| + SweepExpired(s, now, limit).1 == |Stored(s)|
  {
    SweepLoopDropsOnlyExpired(s, now, limit, false);
    OnlyExpiredGoneView(s, SweepExpired(s, now, limit).0, now);
  }

  // -- What a sweep examines -----------------------------------------------

  lemma {:induction false} SweepLoopDropsExamined(s: Store, now: int, limit: nat, refilled: bool)
    requires Valid(s)
    ensures var examined := Examined(s, now, limit, refilled);
      Stored(SweepLoop(s, now, limit, refilled).0)
        == Stored(s) - (set k | k in examined && k in Stored(s) && Expired(Stored(s)[k], now))
    decreases limit
  {
    hide Valid, Examine, Stored, NextCursor, Reduced;
    if limit == 0 || Exhausted(s, refilled) {
    } else {
      assert |NextCursor(s)| > 0 by { NotExhausted(s, refilled); }
      var k := NextCursor(s)[|NextCursor(s)| - 1];
      ExamineStored(s, now);
      if k in Stored(s) {
        StoredDeadlinePassed(s, now, k);
      }
      SweepLoopDropsExamined(Examine(s, now), now, limit - 1, refilled || |s.sweepCursor| == 0);
    }
  }

  lemma StoredDeadlinePassed(s: Store, now: int, k: bytes)
    requires k in Stored(s)
    ensures DeadlinePassed(s, now, k) <==> Expired(Stored(s)[k], now)
  {
  }

  lemma TimedListed(s: Store)
    requires Valid(s)
    ensures |s.expires.order| == |s.expires.vals| && forall k :: k in s.expires.order <==> k in s.expires.vals
  {
    ListsEveryKey(s.expires);
  }

  /** A loop that stops short of its limit has examined every key with a deadline. */
  lemma {:induction false} ShortSweepExaminesAll(s: Store, now: int, limit: nat, refilled: bool, k: bytes)
    requires Valid(s) && k in s.expires.vals && (refilled ==> k in s.sweepCursor)
    requires |Examined(s, now, limit, refilled)| < limit
    ensures k in Examined(s, now, limit, refilled)
    decreases limit
  {
    hide Valid, Examine, Reduced, DeadlinePassed;
    TimedListed(s);
    if Exhausted(s, refilled) {
      assert false;
    } else {
      ExamineExpires(s, now);
      var cursor := NextCursor(s);
      var next := Examine(s, now);
      assert cursor == next.sweepCursor + [cursor[|cursor| - 1]];
      if k != cursor[|cursor| - 1] {
        ShortSweepExaminesAll(next, now, limit - 1, refilled || |s.sweepCursor| == 0, k);
      }
    }
  }

  lemma {:induction false} LoopPopsFromTheEnd(s: Store, now: int, limit: nat, refilled: bool, i: nat)
    requires Valid(s) && (refilled ==> |s.sweepCursor| > 0) && i < limit && i < |NextCursor(s)|
    ensures i < |Examined(s, now, limit, refilled)|
    ensures Examined(s, now, limit, refilled)[i] == NextCursor(s)[|NextCursor(s)| - 1 - i]
    decreases limit
  {
    hide Valid, Examine, Reduced, DeadlinePassed;
    assert !Exhausted(s, refilled) by { NotYetExhausted(s, refilled); }
    if i > 0 {
      ExamineExpires(s, now);
      LoopPopsFromTheEnd(Examine(s, now), now, limit - 1, refilled || |s.sweepCursor| == 0, i - 1);
    }
  }

  lemma NotYetExhausted(s: Store, refilled: bool)
    requires |NextCursor(s)| > 0 && (refilled ==> |s.sweepCursor| > 0)
    ensures !Exhausted(s, refilled)
  {
  }

  /** A sweep takes its keys off the end of what the last one left, or of a fresh listing if nothing was left. */
  lemma SweepPopsFromTheEnd(s: Store, now: int, limit: nat, i: nat)
    requires Valid(s) && i < limit
    requires var left := if s.sweepCursor == [] then s.expires.order else s.sweepCursor; i < |left|
    ensures var left := if s.sweepCursor == [] then s.expires.order else s.sweepCursor;
      var examined := Examined(s, now, limit, false);
      i < |examined| && examined[i] == left[|left| - 1 - i]
  {
    hide Valid, Examined;
    LoopPopsFromTheEnd(s, now, limit, false, i);
  }

  /**
   * A sweep examines at most `limit` keys and removes exactly those of them that have expired; if it examines
   * fewer, nothing expired is left.
   */
  lemma SweepExaminesWithinLimit(s: Store, now: int, limit: nat)
    requires Valid(s)
    ensures var examined, end := Examined(s, now, limit, false), SweepExpired(s, now, limit).0;
      && |examined| <= limit
      && Stored(end) == Stored(s) - (set k | k in examined && k in Stored(s) && Expired(Stored(s)[k], now))
      && (|examined| < limit ==> Stored(end) == View(s, now))
  {
    SweepLoopDropsExamined(s, now, limit, false);
    var examined := Examined(s, now, limit, false);
    if |examined| < limit {
      forall k | k in Stored(s) && Expired(Stored(s)[k], now) ensures k in examined {
        ShortSweepExaminesAll(s, now, limit, false, k);
      }
      hide Valid, Stored, Examined, SweepLoop;
      var gone := set k | k in examined && k in Stored(s) && Expired(Stored(s)[k], now);
      DroppingAllExpired(Stored(s), now, gone);
    }
  }

  // -- Coverage ------------------------------------------------------------

  /** None of the keys in `targets` carries a deadline any more. */
  ghost predicate Cleared(s: Store, targets: set<bytes>) {
    targets !! s.expires.vals.Keys
  }

  /** Every target still there waits in the cursor, which `pops` more pops empty. */
  ghost predicate Queued(s: Store, targets: set<bytes>, pops: int) {
    |s.sweepCursor| <= pops && forall k :: k in targets && k in s.expires.vals ==> k in s.sweepCursor
  }

  /** `pops` more pops are enough to clear the targets while no more than `timed` keys carry a deadline. */
  ghost predicate Due(s: Store, targets: set<bytes>, pops: int, timed: nat) {
    && |s.expires.vals| <= timed
    && (Cleared(s, targets) || Queued(s, targets, pops) || |s.sweepCursor| + timed <= pops)
  }

  ghost predicate AllOverdue(s: Store, targets: set<bytes>, now: int) {
    forall k :: k in targets && k in s.expires.vals ==> now >= s.expires.vals[k]
  }

  lemma ExamineExpires(s: Store, now: int)
    requires Valid(s) && |NextCursor(s)| > 0
    ensures var cursor := NextCursor(s);
      var k, next := cursor[|cursor| - 1], Examine(s, now);
      && next.sweepCursor == cursor[..|cursor| - 1]
      && next.expires.vals == if DeadlinePassed(s, now, k) then s.expires.vals - {k} else s.expires.vals
  {
  }

  /** One pop from a queue that holds every target. */
  lemma ExamineQueued(s: Store, targets: set<bytes>, pops: int, now: int)
    requires Valid(s) && |NextCursor(s)| > 0 && AllOverdue(s, targets, now)
    requires |NextCursor(s)| <= pops && forall k :: k in targets && k in s.expires.vals ==> k in NextCursor(s)
    ensures Queued(Examine(s, now), targets, pops - 1)
  {
    ExamineExpires(s, now);
    hide Valid, Examine;
    var cursor := NextCursor(s);
    assert cursor == Examine(s, now).sweepCursor + [cursor[|cursor| - 1]];
  }

  lemma ExamineMakesProgress(s: Store, targets: set<bytes>, pops: int, timed: nat, now: int)
    requires Valid(s) && |NextCursor(s)| > 0
    requires AllOverdue(s, targets, now) && Due(s, targets, pops, timed)
    ensures AllOverdue(Examine(s, now), targets, now)
    ensures Due(Examine(s, now), targets, pops - 1, timed)
    ensures |s.sweepCursor| == 0 || Cleared(s, targets) || Queued(s, targets, pops)
      ==> Cleared(Examine(s, now), targets) || Queued(Examine(s, now), targets, pops - 1)
  {
    ListsEveryKey(s.expires);
    ExamineExpires(s, now);
    hide Valid, Examine;
    var next := Examine(s, now);
    MapShrinks(s.expires.vals, NextCursor(s)[|NextCursor(s)| - 1]);
    if Cleared(s, targets) {
      assert Cleared(next, targets);
    } else if |s.sweepCursor| == 0 || Queued(s, targets, pops) {
      ExamineQueued(s, targets, pops, now);
    }
  }

  lemma MapShrinks(m: map<bytes, int>, k: bytes)
    ensures |m - {k}| <= |m|
  {
    if k in m {
      assert m == (m - {k})[k := m[k]];
    } else {
      assert m - {k} == m;
    }
  }

  lemma NotExhausted(s: Store, refilled: bool)
    requires !Exhausted(s, refilled)
    ensures |NextCursor(s)| > 0
  {
  }

  lemma ExhaustedMeansCleared(s: Store, targets: set<bytes>, pops: int, left: int, timed: nat, refilled: bool)
    requires Valid(s) && Exhausted(s, refilled) && Due(s, targets, pops, timed)
    requires refilled ==> Cleared(s, targets) || Queued(s, targets, pops)
    ensures Due(s, targets, left, timed)
  {
    ListsEveryKey(s.expires);
    assert Cleared(s, targets);
  }

  lemma {:induction false} SweepLoopPaysDebt(
    s: Store, targets: set<bytes>, pops: int, timed: nat, now: int, limit: nat, refilled: bool)
    requires Valid(s) && AllOverdue(s, targets, now) && Due(s, targets, pops, timed)
    requires refilled ==> Cleared(s, targets) || Queued(s, targets, pops)
    ensures AllOverdue(SweepLoop(s, now, limit, refilled).0, targets, now)
    ensures Due(SweepLoop(s, now, limit, refilled).0, targets, pops - limit, timed)
    decreases limit
  {
    hide Valid, Examine, AllOverdue, Due, Cleared, Queued, NextCursor;
    if limit == 0 {
    } else {
      if Exhausted(s, refilled) {
        ExhaustedMeansCleared(s, targets, pops, pops - limit, timed, refilled);
      } else {
        assert |NextCursor(s)| > 0 by { NotExhausted(s, refilled); }
        ExamineMakesProgress(s, targets, pops, timed, now);
        SweepLoopPaysDebt(
          Examine(s, now), targets, pops - 1, timed, now, limit - 1, refilled || |s.sweepCursor| == 0);
      }
    }
  }

  /** Consecutive sweeps, one at each clock reading. */
  function Sweeps(s: Store, readings: seq<int>, limit: nat): (r: Store)
    requires Valid(s)
    ensures Valid(r)
    decreases |readings|
  {
    hide Valid;
    if |readings| == 0 then s
    else Sweeps(SweepExpired(s, readings[0], limit).0, readings[1..], limit)
  }

  ghost predicate NonDecreasing(readings: seq<int>, start: int) {
    && (forall i :: 0 <= i < |readings| ==> start <= readings[i])
    && (forall i, j :: 0 <= i < j < |readings| ==> readings[i] <= readings[j])
  }

  lemma {:induction false} SweepsPayDebt(
    s: Store, targets: set<bytes>, pops: int, timed: nat, start: int, readings: seq<int>, limit: nat)
    requires Valid(s) && AllOverdue(s, targets, start) && Due(s, targets, pops, timed)
    requires NonDecreasing(readings, start)
    ensures Due(Sweeps(s, readings, limit), targets, pops - |readings| * limit, timed)
    decreases |readings|
  {
    hide Valid, Due;
    if |readings| == 0 {
    } else {
      var now, next := readings[0], SweepExpired(s, readings[0], limit).0;
      SweepLoopPaysDebt(s, targets, pops, timed, now, limit, false);
      SweepsPayDebt(next, targets, pops - limit, timed, now, readings[1..], limit);
      assert pops - limit - (|readings| - 1) * limit == pops - |readings| * limit;
    }
  }

  /**
   * Sweep coverage. With L keys left in the cursor and n timed keys, any k sweeps of a positive limit with
   * k * limit >= L + n reclaim every key that had expired when they began.
   */
  lemma SweepCoverage(s: Store, start: int, readings: seq<int>, limit: nat, k: bytes)
    requires Valid(s) && NonDecreasing(readings, start)
    requires |readings| * limit >= |s.sweepCursor| + |s.expires.vals|
    requires k in Stored(s) && Expired(Stored(s)[k], start)
    ensures k !in Sweeps(s, readings, limit).expires.vals
    ensures k !in Stored(Sweeps(s, readings, limit))
  {
    var pops := |s.sweepCursor| + |s.expires.vals|;
    SweepsPayDebt(s, {k}, pops, |s.expires.vals|, start, readings, limit);
    SweepsKeepDeadlines(s, readings, limit, k);
    assert Cleared(Sweeps(s, readings, limit), {k});
  }

  /** Sweeping never strips a deadline off a key it leaves in place. */
  lemma {:induction false} SweepsKeepDeadlines(s: Store, readings: seq<int>, limit: nat, k: bytes)
    requires Valid(s)
    ensures k in Stored(Sweeps(s, readings, limit)) ==>
      k in Stored(s) && Stored(Sweeps(s, readings, limit))[k] == Stored(s)[k]
    decreases |readings|
  {
    hide Valid, Stored, SweepExpired;
    if |readings| == 0 {
    } else {
      SweepIsInvisible(s, readings[0], limit);
      SweepsKeepDeadlines(SweepExpired(s, readings[0], limit).0, readings[1..], limit, k);
    }
  }
}
