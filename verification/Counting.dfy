/** INCR counts: canonical integers, 64-bit overflow and preserved deadlines over any number of increments. */
module Counting {
  import opened Bytes
  import opened Keyspace
  import opened StoreModel
  import opened Eviction
  import opened StoreOps
  import opened Reference

  /** `n` INCRs of one key in a row, at one clock reading: the store, and the last answer or the first error. */
  function Incrs(s: Store, now: int, k: bytes, n: nat): (r: (Store, Result<int>))
    requires Valid(s) && n > 0
    ensures Valid(r.0) && SameConfig(r.0, s)
    decreases n
  {
    hide Valid, Incr;
    var (next, updated) := Incr(s, now, k);
    if updated.Failure? || n == 1 then (next, updated) else Incrs(next, now, k, n - 1)
  }

  /** The client sees a counter that reads `value`; a missing key counts as 0. */
  ghost predicate Counts(s: Store, now: int, k: bytes, value: int) {
    SeenCurrent(View(s, now), k) == Some(value)
  }

  /** The client sees exactly the canonical rendering of `value` under `deadline`. */
  ghost predicate Reads(s: Store, now: int, k: bytes, value: int, deadline: Option<int>) {
    k in View(s, now) && View(s, now)[k] == Entry(Render(value), deadline)
  }

  lemma ReadsCounts(s: Store, now: int, k: bytes, value: int, deadline: Option<int>)
    requires Reads(s, now, k, value, deadline) && INT64_MIN <= value <= INT64_MAX
    ensures Counts(s, now, k, value) && SeenDeadline(View(s, now), k) == deadline
  {
    hide ParseInt, Render, View;
    ParseIntInvertsRender(Render(value), value);
  }

  lemma CountsInRange(s: Store, now: int, k: bytes, value: int)
    requires Counts(s, now, k, value)
    ensures INT64_MIN <= value <= INT64_MAX
  {
    hide IsCanonicalInteger, ParseCount, View;
  }

  lemma IncrReads(s: Store, now: int, k: bytes)
    requires Valid(s) && Incr(s, now, k).1.Success?
    ensures Reads(Incr(s, now, k).0, now, k, Incr(s, now, k).1.value, SeenDeadline(View(s, now), k))
  {
    hide Valid, View, Incr, SeenDeadline, Reduced, Render, Elements, DeadlineMs;
    IncrSuccessView(s, now, k);
  }

  /** One increment: one more under the same deadline, or an overflow at the top, or no room. */
  lemma IncrOnce(s: Store, now: int, k: bytes, value: int)
    requires Valid(s) && Counts(s, now, k, value)
    ensures var (next, updated) := Incr(s, now, k);
      && (updated.Success? ==>
            && value < 9_223_372_036_854_775_807 && updated == Success(value + 1)
            && Reads(next, now, k, value + 1, SeenDeadline(View(s, now), k)))
      && (updated == Failure(IntegerOverflow) <==> value == 9_223_372_036_854_775_807)
      && (updated.Failure? ==> updated.error.IntegerOverflow? || updated.error.OutOfMemory?)
      && (s.maxmemory == 0 ==> updated != Failure(OutOfMemory))
  {
    CountsInRange(s, now, k, value);
    hide Valid, View, Incr, IncrRefused, SeenCurrent, SeenDeadline, Reduced, Reads;
    IncrErrors(s, now, k);
    UnlimitedIncrFits(s, now, k);
    var updated := Incr(s, now, k).1;
    if updated.Success? {
      IncrReads(s, now, k);
    } else {
      assert updated == Failure(updated.error);
    }
  }

  lemma UnlimitedIncrFits(s: Store, now: int, k: bytes)
    requires Valid(s)
    ensures s.maxmemory == 0 ==> !IncrRefused(s, now, k)
  {
    hide Valid;
  }

  /**
   * Counting. From a missing key or a canonical integer v, n INCRs that succeed answer v + n and leave its
   * canonical rendering under the deadline the key had; they overflow as soon as v + n passes the 64-bit range,
   * and without a memory limit nothing else can stop them.
   */
  lemma {:induction false} IncrsCount(s: Store, now: int, k: bytes, value: int, n: nat)
    requires Valid(s) && n > 0 && Counts(s, now, k, value)
    ensures var (end, updated) := Incrs(s, now, k, n);
      && (updated.Success? ==>
            && updated == Success(value + n) && value + n <= 9_223_372_036_854_775_807
            && Reads(end, now, k, value + n, SeenDeadline(View(s, now), k)))
      && (updated == Failure(IntegerOverflow) ==> value + n > 9_223_372_036_854_775_807)
      && (updated.Failure? ==> updated.error.IntegerOverflow? || updated.error.OutOfMemory?)
      && (s.maxmemory == 0 && value + n <= 9_223_372_036_854_775_807 ==> updated.Success?)
    decreases n
  {
    hide Valid, View, Incr, Counts, Reads, Reduced, SeenDeadline;
    CountsInRange(s, now, k, value);
    IncrOnce(s, now, k, value);
    var (next, updated) := Incr(s, now, k);
    if updated.Failure? || n == 1 {
    } else {
      ReadsCounts(next, now, k, value + 1, SeenDeadline(View(s, now), k));
      IncrsCount(next, now, k, value + 1, n - 1);
    }
  }

  // -- A clock that moves within one INCR ----------------------------------

  /** `incr` with the two clock readings it makes: one for the lazy drop, one when room has to be made. */
  function IncrAcross(s: Store, early: int, late: int, k: bytes): (r: (Store, Result<int>))
    requires Valid(s)
    ensures Valid(r.0)
    ensures early == late ==> r == Incr(s, early, k)
  {
    hide Valid, Admit;
    var live := DropIfExpired(s, early, k);
    match Current(live, k)
    case None => (live, Failure(NotAnInteger))
    case Some(n) =>
      if n + 1 > INT64_MAX then (live, Failure(IntegerOverflow))
      else
        match Admit(live, late, k, Render(n + 1))
        case None => (live, Failure(OutOfMemory))
        case Some(admitted) => (Touch(Write(admitted, k, Render(n + 1)), k), Success(n + 1))
  }

  lemma SeenIsStored(s: Store, now: int, k: bytes)
    requires Valid(s) && k in View(s, now)
    ensures DropIfExpired(s, now, k) == s && k in Stored(s) && View(s, now)[k] == Stored(s)[k]
    ensures !Expired(Stored(s)[k], now) && k in s.data.vals && s.data.vals[k] == Stored(s)[k].value
  {
    hide Total, Ranked, NoDup, Elements, Remove;
  }

  /** What room-making at `late` leaves of a key: everything, unless it had to be made and the key was overdue. */
  lemma AdmittedKeeps(s: Store, late: int, k: bytes, v: bytes, a: Store)
    requires Valid(s) && k in Stored(s) && Admit(s, late, k, v) == Some(a)
    ensures k in Stored(a) <==> !(NeedsRoom(s, k, v) && Expired(Stored(s)[k], late))
    ensures k in Stored(a) ==> Stored(a)[k] == Stored(s)[k]
  {
    AdmissionIsAllOrNothing(s, late, k, v);
    hide Valid, Admit, DropExpired, Stored, NeedsRoom, Refused;
    if NeedsRoom(s, k, v) {
      AdmissionEvictsExactly(s, late, k, v);
    }
  }

  lemma TouchedEntry(a: Store, k: bytes, v: bytes)
    requires Valid(a)
    ensures var r := Touch(Write(a, k, v), k);
      k in Stored(r) && Stored(r)[k] == Entry(v, if k in Stored(a) then Stored(a)[k].deadline else None)
  {
    hide Valid, Write, Stored;
    WriteStored(a, k, v);
  }

  /**
   * Why the reading is taken as fixed. If the clock moves between the two readings of an INCR, the key keeps its
   * deadline, except in one case: memory had to be made room for and the deadline passed in between. Then the
   * key is reclaimed under the INCR's feet and comes back counting on, without a deadline.
   */
  lemma MovingClockLosesDeadline(s: Store, early: int, late: int, k: bytes)
    requires Valid(s) && early <= late && k in View(s, early) && View(s, early)[k].deadline.Some?
    requires IncrAcross(s, early, late, k).1.Success?
    ensures var (r, updated) := IncrAcross(s, early, late, k);
      var deadline := View(s, early)[k].deadline;
      var lost := NeedsRoom(s, k, Render(updated.value)) && early < deadline.value <= late;
      && ParseInt(View(s, early)[k].value) == Some(updated.value - 1)
      && k in Stored(r)
      && Stored(r)[k] == Entry(Render(updated.value), if lost then None else deadline)
  {
    hide Valid, Admit, Write, Touch, Stored, View, NeedsRoom, ParseInt, Render;
    SeenIsStored(s, early, k);
    var v := Render(IncrAcross(s, early, late, k).1.value);
    var a := Admit(s, late, k, v).value;
    AdmittedKeeps(s, late, k, v, a);
    TouchedEntry(a, k, v);
    assert IncrAcross(s, early, late, k).0 == Touch(Write(a, k, v), k);
    assert Expired(Stored(s)[k], late) <==> Stored(s)[k].deadline.value <= late;
  }
}
