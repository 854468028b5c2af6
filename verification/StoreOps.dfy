/** The operations `KeyValueStore` offers, composed of the primitives, and what each does to the client's view. */
module StoreOps {
  import opened Bytes
  import opened Dictionary
  import opened Keyspace
  import opened StoreModel
  import opened Eviction

  /** `None` stands for `InvalidExpireError`. */
  function Deadline(now: int, ttl: int): Option<int> {
    if ttl <= 0 || now + ttl > INT64_MAX then None else Some(now + ttl)
  }

  // -- Client operations ---------------------------------------------------

  /** The store afterwards and the error, if the write was refused. */
  function Set(s: Store, now: int, k: bytes, v: bytes, ttl: Option<int>): (r: (Store, Option<StoreError>))
    requires Valid(s)
    ensures Valid(r.0) && SameConfig(r.0, s)
    ensures r.1.Some? ==> r.0 == s
    ensures r.0.sweepCursor == s.sweepCursor
  {
    hide Valid, Admit;
    var deadline := if ttl.None? then None else Deadline(now, ttl.value);
    if ttl.Some? && deadline.None? then (s, Some(InvalidExpire))
    else
      match Admit(s, now, k, v)
      case None => (s, Some(OutOfMemory))
      case Some(admitted) => (Overwrite(admitted, k, v, deadline), None)
  }

  function Overwrite(s: Store, k: bytes, v: bytes, deadline: Option<int>): (r: Store)
    requires Valid(s)
    ensures Valid(r) && SameReport(r, s)
    ensures r.sweepCursor == s.sweepCursor
  {
    Touch(Restore(s, k, v, deadline), k)
  }

  function Get(s: Store, now: int, k: bytes): (r: (Store, Option<bytes>))
    requires Valid(s)
    ensures Valid(r.0) && SameReport(r.0, s) && r.0.memory <= s.memory
    ensures r.0.sweepCursor == s.sweepCursor
  {
    hide Total, Ranked;
    var live := DropIfExpired(s, now, k);
    if k in live.data.vals then (Touch(live, k), Some(live.data.vals[k])) else (live, None)
  }

  function Delete(s: Store, now: int, keys: seq<bytes>): (r: (Store, nat))
    requires Valid(s)
    ensures Valid(r.0) && SameReport(r.0, s) && Reduced(s, r.0)
    ensures r.0.sweepCursor == s.sweepCursor
    decreases |keys|
  {
    hide Valid;
    if |keys| == 0 then (s, 0)
    else
      var live := DropIfExpired(s, now, keys[0]);
      if keys[0] in live.data.vals then
        var (end, removed) := Delete(Remove(live, keys[0]), now, keys[1..]);
        (end, removed + 1)
      else Delete(live, now, keys[1..])
  }

  function Exists(s: Store, now: int, keys: seq<bytes>): (r: (Store, nat))
    requires Valid(s)
    ensures Valid(r.0) && SameReport(r.0, s) && Reduced(s, r.0)
    ensures r.0.sweepCursor == s.sweepCursor
    decreases |keys|
  {
    hide Valid;
    if |keys| == 0 then (s, 0)
    else
      var live := DropIfExpired(s, now, keys[0]);
      var (end, present) := Exists(live, now, keys[1..]);
      (end, present + if keys[0] in live.data.vals then 1 else 0)
  }

  /** The current value as an integer; a missing key counts as 0 and `None` stands for `NotAnIntegerError`. */
  function Current(s: Store, k: bytes): Option<int> {
    if k in s.data.vals then ParseInt(s.data.vals[k]) else Some(0)
  }

  function Incr(s: Store, now: int, k: bytes): (r: (Store, Result<int>))
    requires Valid(s)
    ensures Valid(r.0) && SameConfig(r.0, s)
    ensures r.1.Failure? ==> SameReport(r.0, s) && Reduced(s, r.0)
    ensures r.0.sweepCursor == s.sweepCursor
  {
    hide Valid, Admit;
    var live := DropIfExpired(s, now, k);
    match Current(live, k)
    case None => (live, Failure(NotAnInteger))
    case Some(n) =>
      if n + 1 > INT64_MAX then (live, Failure(IntegerOverflow))
      else
        match Admit(live, now, k, Render(n + 1))
        case None => (live, Failure(OutOfMemory))
        case Some(admitted) => (Touch(Write(admitted, k, Render(n + 1)), k), Success(n + 1))
  }

  function Expire(s: Store, now: int, k: bytes, ttl: int): (r: (Store, Result<bool>))
    requires Valid(s)
    ensures Valid(r.0) && SameReport(r.0, s) && Reduced(s, r.0)
    ensures r.0.sweepCursor == s.sweepCursor
  {
    hide Valid;
    var live := DropIfExpired(s, now, k);
    if k !in live.data.vals then (live, Success(false))
    else if ttl <= 0 then (Remove(live, k), Success(true))
    else
      match Deadline(now, ttl)
      case None => (live, Failure(InvalidExpire))
      case Some(deadline) => (PutDeadline(live, k, Some(deadline)), Success(true))
  }

  datatype TtlResult = TtlResult(exists_: bool, remaining: Option<int>)

  function Ttl(s: Store, now: int, k: bytes): (r: (Store, TtlResult))
    requires Valid(s)
    ensures Valid(r.0) && SameReport(r.0, s) && Reduced(s, r.0)
    ensures r.0.sweepCursor == s.sweepCursor
  {
    var live := DropIfExpired(s, now, k);
    if k !in live.data.vals then (live, TtlResult(false, None))
    else if k in live.expires.vals then (live, TtlResult(true, Some(live.expires.vals[k] - now)))
    else (live, TtlResult(true, None))
  }

  function Persist(s: Store, now: int, k: bytes): (r: (Store, bool))
    requires Valid(s)
    ensures Valid(r.0) && SameReport(r.0, s) && Reduced(s, r.0)
    ensures r.0.sweepCursor == s.sweepCursor
  {
    hide Valid;
    var live := DropIfExpired(s, now, k);
    if k !in live.data.vals || k !in live.expires.vals then (live, false)
    else (PutDeadline(live, k, None), true)
  }

  function DeadlineMs(s: Store, k: bytes): Option<int> {
    if k in s.expires.vals then Some(s.expires.vals[k]) else None
  }

  function Dbsize(s: Store, now: int): (r: (Store, nat))
    requires Valid(s)
    ensures Valid(r.0) && SameReport(r.0, s) && Reduced(s, r.0)
    ensures r.0.sweepCursor == s.sweepCursor
  {
    var live := DropExpired(s, now);
    (live, |live.data.vals|)
  }

  /** Everything goes but the clock of uses, which keeps counting. */
  function FlushDb(s: Store): (r: Store)
    requires Valid(s)
    ensures Valid(r) && SameReport(r, s) && Reduced(s, r) && Stored(r) == map[]
  {
    TotalEmpty(map[]);
    s.(data := Dict([], map[]), expires := Dict([], map[]), sweepCursor := [],
       access := map[], evictCursor := [], memory := 0)
  }

  function TakeEvicted(s: Store): (r: Store)
    requires Valid(s)
    ensures Valid(r) && SameConfig(r, s) && Stored(r) == Stored(s)
    ensures r.sweepCursor == s.sweepCursor
  {
    s.(evicted := [])
  }

  // -- Recovery primitives -------------------------------------------------

  function Restore(s: Store, k: bytes, v: bytes, deadline: Option<int>): (r: Store)
    requires Valid(s)
    ensures Valid(r) && SameReport(r, s) && k in r.data.vals
    ensures r.tick == s.tick && r.access == s.access
    ensures r.sweepCursor == s.sweepCursor
  {
    PutDeadline(Write(s, k, v), k, deadline)
  }

  function SetDeadline(s: Store, k: bytes, deadline: int): (r: Store)
    requires Valid(s)
    ensures Valid(r) && SameReport(r, s) && Reduced(s, r)
  {
    if k in s.data.vals then PutDeadline(s, k, Some(deadline)) else s
  }

  function ClearDeadline(s: Store, k: bytes): (r: Store)
    requires Valid(s)
    ensures Valid(r) && SameReport(r, s) && Reduced(s, r)
  {
    hide Total, NoDup, Without;
    s.(expires := Pop(s.expires, k))
  }

  function Discard(s: Store, keys: seq<bytes>): (r: Store)
    requires Valid(s)
    ensures Valid(r) && SameReport(r, s) && Reduced(s, r)
    decreases |keys|
  {
    hide Valid;
    if |keys| == 0 then s
    else Discard(if keys[0] in s.data.vals then Remove(s, keys[0]) else s, keys[1..])
  }

  // -- What recovery does to the stored entries ----------------------------

  lemma RestoreStored(s: Store, k: bytes, v: bytes, deadline: Option<int>)
    requires Valid(s)
    ensures Stored(Restore(s, k, v, deadline)) == Stored(s)[k := Entry(v, deadline)]
  {
    hide Valid, Stored, PutDeadline, Write;
    WriteStored(s, k, v);
    PutDeadlineStored(Write(s, k, v), k, deadline);
  }

  lemma SetDeadlineStored(s: Store, k: bytes, deadline: int)
    requires Valid(s)
    ensures Stored(SetDeadline(s, k, deadline))
         == if k in Stored(s) then Stored(s)[k := Stored(s)[k].(deadline := Some(deadline))] else Stored(s)
  {
    hide Valid, PutDeadline;
    if k in s.data.vals {
      PutDeadlineStored(s, k, Some(deadline));
    }
  }

  lemma ClearDeadlineStored(s: Store, k: bytes)
    requires Valid(s)
    ensures Stored(ClearDeadline(s, k))
         == if k in Stored(s) then Stored(s)[k := Stored(s)[k].(deadline := None)] else Stored(s)
  {
    hide Total, Ranked, NoDup, Elements;
  }

  lemma {:induction false} DiscardStored(s: Store, keys: seq<bytes>)
    requires Valid(s)
    ensures Stored(Discard(s, keys)) == Stored(s) - Elements(keys)
    decreases |keys|
  {
    StoredKeys(s);
    hide Valid, Stored, Remove;
    if |keys| == 0 {
    } else {
      var k := keys[0];
      assert keys == [k] + keys[1..];
      assert Elements(keys) == {k} + Elements(keys[1..]);
      if k in s.data.vals {
        RemoveStored(s, k);
        DiscardStored(Remove(s, k), keys[1..]);
      } else {
        DiscardStored(s, keys[1..]);
      }
    }
  }

  // -- What each client operation does to the view -------------------------

  lemma OverwriteStored(s: Store, k: bytes, v: bytes, deadline: Option<int>)
    requires Valid(s)
    ensures Stored(Overwrite(s, k, v, deadline)) == Stored(s)[k := Entry(v, deadline)]
  {
    RestoreStored(s, k, v, deadline);
  }

  lemma UnexpiredPut(m: Entries, k: bytes, e: Entry, now: int)
    requires !Expired(e, now)
    ensures Unexpired(m[k := e], now) == Unexpired(m, now)[k := e]
  {
  }

  /** An admitted SET shows the new entry and hides exactly the evicted keys; a refused one changes nothing. */
  lemma SetView(s: Store, now: int, k: bytes, v: bytes, ttl: Option<int>)
    requires Valid(s)
    ensures var (r, error) := Set(s, now, k, v, ttl);
      var deadline := if ttl.None? then None else Deadline(now, ttl.value);
      && (error == Some(InvalidExpire) <==> ttl.Some? && deadline.None?)
      && (error == Some(OutOfMemory) <==> error != Some(InvalidExpire) && Refused(s, k, v))
      && (error.Some? ==> r == s && (error == Some(InvalidExpire) || error == Some(OutOfMemory)))
      && (error.None? ==>
            && s.evicted <= r.evicted
            && Elements(Reported(s, r)) <= View(s, now).Keys - {k}
            && View(r, now) == (View(s, now) - Elements(Reported(s, r)))[k := Entry(v, deadline)]
            && DeadlineMs(r, k) == deadline)
  {
    AdmissionIsAllOrNothing(s, now, k, v);
    var (r, error) := Set(s, now, k, v, ttl);
    var deadline := if ttl.None? then None else Deadline(now, ttl.value);
    if error.None? {
      var a := Admit(s, now, k, v).value;
      AdmissionConserves(s, now, k, v, a);
      OverwriteStored(a, k, v, deadline);
      OverwriteDeadline(a, k, v, deadline);
      hide Valid, Admit, Stored, Overwrite, Refused;
      UnexpiredPut(Stored(a), k, Entry(v, deadline), now);
    }
  }

  lemma OverwriteDeadline(s: Store, k: bytes, v: bytes, deadline: Option<int>)
    requires Valid(s)
    ensures DeadlineMs(Overwrite(s, k, v, deadline), k) == deadline
  {
  }

  lemma GetView(s: Store, now: int, k: bytes)
    requires Valid(s)
    ensures View(Get(s, now, k).0, now) == View(s, now)
    ensures Get(s, now, k).1 == if k in View(s, now) then Some(View(s, now)[k].value) else None
  {
    DropIfExpiredView(s, now, k);
    DropIfExpiredStored(s, now, k);
    hide Valid, DropIfExpired;
  }

  // -- Which keys a write can store ----------------------------------------

  lemma WriteKeys(s: Store, k: bytes, v: bytes, deadline: Option<int>)
    requires Valid(s)
    ensures Write(s, k, v).data.vals.Keys == s.data.vals.Keys + {k}
    ensures Restore(s, k, v, deadline).data.vals.Keys == s.data.vals.Keys + {k}
  {
    hide Valid;
  }

  lemma OverwriteKeys(a: Store, k: bytes, v: bytes, deadline: Option<int>)
    requires Valid(a)
    ensures Others(Overwrite(a, k, v, deadline), k) == Others(a, k)
    ensures Others(Touch(Write(a, k, v), k), k) == Others(a, k)
  {
    WriteKeys(a, k, v, deadline);
    hide Valid, Write, Restore, Stored;
  }

  /** SET and INCR store no key but the one they name. */
  lemma SetOthers(s: Store, now: int, k: bytes, v: bytes, ttl: Option<int>)
    requires Valid(s) && Set(s, now, k, v, ttl).1.None?
    ensures Others(Set(s, now, k, v, ttl).0, k) <= s.data.vals.Keys
  {
    hide Valid, Admit, Overwrite;
    var a := Admit(s, now, k, v).value;
    OverwriteKeys(a, k, v, if ttl.None? then None else Deadline(now, ttl.value));
  }

  lemma IncrOthers(s: Store, now: int, k: bytes)
    requires Valid(s) && Incr(s, now, k).1.Success?
    ensures Others(Incr(s, now, k).0, k) <= s.data.vals.Keys
  {
    hide Valid, Admit, DropIfExpired, Write, Touch, Current, Render;
    var live := DropIfExpired(s, now, k);
    var v := Render(Current(live, k).value + 1);
    OverwriteKeys(Admit(live, now, k, v).value, k, v, None);
  }
}
