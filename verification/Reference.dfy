/**
 * The documented meaning of each command, on nothing but the entries a client can see, and the proof that the
 * store, with its lazy expiry, cursors and accounting, never answers or behaves otherwise.
 */
module Reference {
  import opened Bytes
  import opened Resp
  import opened Keyspace
  import opened StoreModel
  import opened Eviction
  import opened StoreOps
  import opened Facts
  import opened Commands

  // -- The reference machine -----------------------------------------------

  /** How many of `keys` are in `view`, repeats counted every time. */
  function Present(view: Entries, keys: seq<bytes>): nat
    decreases |keys|
  {
    if |keys| == 0 then 0 else (if keys[0] in view then 1 else 0) + Present(view, keys[1..])
  }

  function RefSet(view: Entries, now: int, args: seq<bytes>): (Entries, Reply)
    requires |args| >= 2
  {
    match ParseSetOptions(args)
    case BadOptions(reply) => (view, reply)
    case Options(None) => (view[args[0] := Entry(args[1], None)], OK)
    case Options(Some(ttl)) =>
      match Deadline(now, ttl)
      case None => (view, Err(INVALID_SET_EXPIRE))
      case Some(deadline) => (view[args[0] := Entry(args[1], Some(deadline))], OK)
  }

  /** The value INCR starts from, as the client sees it. */
  function SeenCurrent(view: Entries, k: bytes): Option<int> {
    if k in view then ParseInt(view[k].value) else Some(0)
  }

  function SeenDeadline(view: Entries, k: bytes): Option<int> {
    if k in view then view[k].deadline else None
  }

  function RefIncr(view: Entries, k: bytes): (Entries, Reply) {
    match SeenCurrent(view, k)
    case None => (view, StoreErrorReply(NotAnInteger))
    case Some(n) =>
      if n == INT64_MAX then (view, StoreErrorReply(IntegerOverflow))
      else
        (view[k := Entry(Render(n + 1), SeenDeadline(view, k))], Integer(n + 1))
  }

  function RefExpire(view: Entries, now: int, k: bytes, seconds: Option<int>): (Entries, Reply) {
    match seconds
    case None => (view, StoreErrorReply(NotAnInteger))
    case Some(n) =>
      if k !in view then (view, Integer(0))
      else if n <= 0 then (view - {k}, Integer(1))
      else
        match Deadline(now, n * MILLIS_PER_SECOND)
        case None => (view, Err(INVALID_EXPIRE))
        case Some(deadline) => (view[k := view[k].(deadline := Some(deadline))], Integer(1))
  }

  function RefTtl(view: Entries, now: int, k: bytes): Reply {
    if k !in view then Integer(-2)
    else
      match view[k].deadline
      case None => Integer(-1)
      case Some(deadline) => Integer((deadline - now + 500) / MILLIS_PER_SECOND)
  }

  function RefPersist(view: Entries, k: bytes): (Entries, Reply) {
    if k in view && view[k].deadline.Some? then (view[k := view[k].(deadline := None)], Integer(1))
    else (view, Integer(0))
  }

  /** The view after a command and its reply, memory being unlimited. */
  function RefHandle(c: Command, view: Entries, now: int, args: seq<bytes>): (Entries, Reply)
    requires ArityOk(c, |args|)
  {
    match c
    case Ping => (view, if |args| == 0 then PONG else Bulk(args[0]))
    case SetC => RefSet(view, now, args)
    case GetC => (view, if args[0] in view then Bulk(view[args[0]].value) else NullBulk)
    case ExpireC => RefExpire(view, now, args[0], ParseInt(args[1]))
    case TtlC => (view, RefTtl(view, now, args[0]))
    case PersistC => RefPersist(view, args[0])
    case DelC => (view - Elements(args), Integer(|Elements(args) * view.Keys|))
    case ExistsC => (view, Integer(Present(view, args)))
    case IncrC => RefIncr(view, args[0])
    case DbsizeC => (view, Integer(|view|))
    case FlushdbC => (map[], OK)
  }

  // -- The store's operations, seen through the view -----------------------

  lemma UnexpiredMinus(m: Entries, gone: set<bytes>, now: int)
    ensures Unexpired(m - gone, now) == Unexpired(m, now) - gone
  {
  }

  lemma CountOneMore(k: bytes, rest: set<bytes>, view: set<bytes>)
    ensures |({k} + rest) * view| == if k in view then 1 + |rest * (view - {k})| else |rest * view|
  {
    if k in view {
      assert ({k} + rest) * view == {k} + rest * (view - {k});
    } else {
      assert ({k} + rest) * view == rest * view;
    }
  }

  lemma MinusOneMore(view: Entries, k: bytes, rest: set<bytes>)
    ensures view - ({k} + rest) == (view - {k}) - rest
    ensures k !in view ==> view - ({k} + rest) == view - rest
    ensures (view - {k}).Keys == view.Keys - {k}
  {
  }

  lemma {:induction false} DeleteView(s: Store, now: int, keys: seq<bytes>)
    requires Valid(s)
    ensures View(Delete(s, now, keys).0, now) == View(s, now) - Elements(keys)
    ensures Delete(s, now, keys).1 == |Elements(keys) * View(s, now).Keys|
    decreases |keys|
  {
    hide Valid, Stored, DropIfExpired, Remove, Unexpired, Elements;
    if |keys| == 0 {
      assert Elements(keys) == {} by { NoElements(keys); }
    } else {
      var k, rest := keys[0], keys[1..];
      var live := DropIfExpired(s, now, k);
      DropIfExpiredView(s, now, k);
      StoredKeys(live);
      ElementsOfCons(keys);
      CountOneMore(k, Elements(rest), View(s, now).Keys);
      MinusOneMore(View(s, now), k, Elements(rest));
      if k in live.data.vals {
        RemoveStored(live, k);
        UnexpiredMinus(Stored(live), {k}, now);
        DeleteView(Remove(live, k), now, rest);
      } else {
        DeleteView(live, now, rest);
      }
    }
  }

  lemma {:induction false} ExistsView(s: Store, now: int, keys: seq<bytes>)
    requires Valid(s)
    ensures View(Exists(s, now, keys).0, now) == View(s, now)
    ensures Exists(s, now, keys).1 == Present(View(s, now), keys)
    decreases |keys|
  {
    hide Valid, Stored, DropIfExpired, Unexpired;
    if |keys| == 0 {
    } else {
      var live := DropIfExpired(s, now, keys[0]);
      DropIfExpiredView(s, now, keys[0]);
      StoredKeys(live);
      ExistsView(live, now, keys[1..]);
    }
  }

  /** After the lazy drop, the stored entry of `k` is the one the client sees. */
  lemma LiveEntry(s: Store, now: int, k: bytes)
    requires Valid(s)
    ensures var live := DropIfExpired(s, now, k);
      && View(live, now) == View(s, now)
      && (k in live.data.vals <==> k in View(s, now))
      && (k in View(s, now) ==>
            && Stored(live)[k] == View(s, now)[k]
            && live.data.vals[k] == View(s, now)[k].value
            && DeadlineMs(live, k) == View(s, now)[k].deadline)
  {
    DropIfExpiredView(s, now, k);
    DropIfExpiredStored(s, now, k);
    hide DropIfExpired;
    StoredKeys(DropIfExpired(s, now, k));
  }

  lemma ExpireView(s: Store, now: int, k: bytes, ttl: int)
    requires Valid(s)
    ensures var (r, applied) := Expire(s, now, k, ttl);
      var view := View(s, now);
      if k !in view then View(r, now) == view && applied == Success(false)
      else if ttl <= 0 then View(r, now) == view - {k} && applied == Success(true) && DeadlineMs(r, k).None?
      else if Deadline(now, ttl).None? then View(r, now) == view && applied == Failure(InvalidExpire)
      else
        && View(r, now) == view[k := view[k].(deadline := Deadline(now, ttl))] && applied == Success(true)
        && DeadlineMs(r, k) == Deadline(now, ttl)
  {
    LiveEntry(s, now, k);
    var live := DropIfExpired(s, now, k);
    if k in View(s, now) {
      if ttl <= 0 {
        RemoveStored(live, k);
        UnexpiredMinus(Stored(live), {k}, now);
      } else if Deadline(now, ttl).Some? {
        PutDeadlineStored(live, k, Deadline(now, ttl));
        hide Valid, Stored, DropIfExpired;
        UnexpiredPut(Stored(live), k, Entry(live.data.vals[k], Deadline(now, ttl)), now);
      }
    }
  }

  lemma TtlView(s: Store, now: int, k: bytes)
    requires Valid(s)
    ensures View(Ttl(s, now, k).0, now) == View(s, now)
    ensures TtlReply(Ttl(s, now, k).1) == RefTtl(View(s, now), now, k)
  {
    hide Valid, Stored, DropIfExpired, Unexpired, Reduced;
    LiveEntry(s, now, k);
  }

  lemma PersistView(s: Store, now: int, k: bytes)
    requires Valid(s)
    ensures var (r, removed) := Persist(s, now, k);
      var view := View(s, now);
      && (removed <==> k in view && view[k].deadline.Some?)
      && View(r, now) == if removed then view[k := view[k].(deadline := None)] else view
  {
    LiveEntry(s, now, k);
    var live := DropIfExpired(s, now, k);
    if k in live.data.vals {
      PutDeadlineStored(live, k, None);
      hide Valid, Stored, DropIfExpired;
      UnexpiredPut(Stored(live), k, Entry(live.data.vals[k], None), now);
    }
  }

  lemma DbsizeView(s: Store, now: int)
    requires Valid(s)
    ensures View(Dbsize(s, now).0, now) == View(s, now)
    ensures Dbsize(s, now).1 == |View(s, now)|
  {
    hide Valid, Stored, DropExpired, Unexpired;
    DropExpiredStored(s, now);
    StoredSize(DropExpired(s, now));
  }

  /** INCR is refused for want of memory exactly when its encoded result is. */
  predicate IncrRefused(s: Store, now: int, k: bytes)
    requires Valid(s)
  {
    var live := DropIfExpired(s, now, k);
    var n := Current(live, k);
    n.Some? && n.value < INT64_MAX && Refused(live, k, Render(n.value + 1))
  }

  lemma WriteOverAdmitted(live: Store, a: Store, now: int, k: bytes, v: bytes)
    requires Valid(live) && Valid(a) && Conserved(live, a, now, k)
    requires k in Stored(live) ==> !Expired(Stored(live)[k], now)
    ensures var deadline := if k in Stored(live) then Stored(live)[k].deadline else None;
      && View(Touch(Write(a, k, v), k), now)
           == (View(live, now) - Elements(Reported(live, a)))[k := Entry(v, deadline)]
      && DeadlineMs(Touch(Write(a, k, v), k), k) == deadline
  {
    WriteStored(a, k, v);
    hide Valid, Stored;
    var deadline := if k in Stored(live) then Stored(live)[k].deadline else None;
    assert k in Stored(live) ==> k in View(live, now) && k in View(a, now);
    assert (if k in Stored(a) then Stored(a)[k].deadline else None) == deadline;
    UnexpiredPut(Stored(a), k, Entry(v, deadline), now);
    var end := Touch(Write(a, k, v), k);
    StoredDeadline(end, k);
  }

  lemma ConservedReport(s: Store, a: Store, now: int, k: bytes)
    requires Conserved(s, a, now, k)
    ensures s.evicted <= a.evicted && Elements(Reported(s, a)) <= View(s, now).Keys - {k}
  {
    hide Stored, Unexpired;
  }

  lemma StoredDeadline(s: Store, k: bytes)
    requires k in Stored(s)
    ensures Stored(s)[k].deadline == DeadlineMs(s, k)
  {
  }

  /** Which error INCR reports, each exactly when it should. */
  lemma IncrErrors(s: Store, now: int, k: bytes)
    requires Valid(s)
    ensures var updated, current := Incr(s, now, k).1, SeenCurrent(View(s, now), k);
      && (updated == Failure(NotAnInteger) <==> current.None?)
      && (updated == Failure(IntegerOverflow) <==> current == Some(INT64_MAX))
      && (updated == Failure(OutOfMemory) <==> IncrRefused(s, now, k))
      && updated != Failure(InvalidExpire)
      && (updated.Success? ==> current == Some(updated.value - 1))
  {
    hide Valid, View, Stored, Admit, Refused, DropIfExpired, Current, SeenCurrent, ParseInt;
    LiveCurrent(s, now, k);
    var live := DropIfExpired(s, now, k);
    var current := Current(live, k);
    CurrentBounded(live, k);
    if current.Some? && current.value < INT64_MAX {
      AdmissionIsAllOrNothing(live, now, k, Render(current.value + 1));
    }
  }

  /** A failed INCR changes neither value nor deadline, of this key or any other. */
  lemma IncrFailureView(s: Store, now: int, k: bytes)
    requires Valid(s) && Incr(s, now, k).1.Failure?
    ensures View(Incr(s, now, k).0, now) == View(s, now) && Incr(s, now, k).0.evicted == s.evicted
  {
    hide Valid, View, Admit, DropIfExpired, Current;
    DropIfExpiredView(s, now, k);
  }

  /** An admitted INCR shows the incremented value under the old deadline and hides exactly the evicted keys. */
  lemma IncrSuccessView(s: Store, now: int, k: bytes)
    requires Valid(s) && Incr(s, now, k).1.Success?
    ensures var (r, updated) := Incr(s, now, k);
      var view, deadline := View(s, now), SeenDeadline(View(s, now), k);
      && s.evicted <= r.evicted
      && Elements(Reported(s, r)) <= view.Keys - {k}
      && View(r, now) == (view - Elements(Reported(s, r)))[k := Entry(Render(updated.value), deadline)]
      && DeadlineMs(r, k) == deadline
  {
    hide Valid, View, Stored, Admit, DropIfExpired, Write, Touch, Current, Conserved, Render, DeadlineMs, Expired,
         SeenDeadline;
    LiveCurrent(s, now, k);
    var live := DropIfExpired(s, now, k);
    var v := Render(Current(live, k).value + 1);
    var a := Admit(live, now, k, v).value;
    AdmissionConserves(live, now, k, v, a);
    ConservedReport(live, a, now, k);
    WriteOverAdmitted(live, a, now, k, v);
  }

  /** What INCR finds after its lazy drop is what the client sees. */
  lemma LiveCurrent(s: Store, now: int, k: bytes)
    requires Valid(s)
    ensures Current(DropIfExpired(s, now, k), k) == SeenCurrent(View(s, now), k)
    ensures var live := DropIfExpired(s, now, k);
      && View(live, now) == View(s, now)
      && (k in Stored(live) ==> !Expired(Stored(live)[k], now))
      && (if k in Stored(live) then Stored(live)[k].deadline else None) == SeenDeadline(View(s, now), k)
  {
    LiveEntry(s, now, k);
    hide DropIfExpired, Stored, ParseInt;
    StoredKeys(DropIfExpired(s, now, k));
  }

  lemma CurrentBounded(s: Store, k: bytes)
    ensures Current(s, k).Some? ==> Current(s, k).value <= INT64_MAX
  {
    hide IsCanonicalInteger, ParseCount;
  }

  // -- Every command refines the reference machine -------------------------

  /** A write refused for want of memory: nothing visible changes and nothing is recorded. */
  ghost predicate OutOfMemoryOutcome(s: Store, now: int, o: Outcome) {
    o.reply == StoreErrorReply(OutOfMemory) && View(o.store, now) == View(s, now)
    && o.facts == [] && o.evicted == []
  }

  /** The reference reply and view, less the keys that were evicted. */
  ghost predicate ReferenceOutcome(s: Store, now: int, o: Outcome, expected: (Entries, Reply)) {
    && o.reply == expected.1
    && Elements(o.evicted) <= View(s, now).Keys
    && View(o.store, now) == expected.0 - Elements(o.evicted)
  }

  /** The write that is refused, if any: only SET and INCR can run out of memory. */
  ghost predicate MemoryRefuses(c: Command, s: Store, now: int, args: seq<bytes>)
    requires Valid(s) && ArityOk(c, |args|)
  {
    match c
    case SetC =>
      var options := ParseSetOptions(args);
      && options.Options? && (options.ttl.Some? ==> Deadline(now, options.ttl.value).Some?)
      && Refused(s, args[0], args[1])
    case IncrC => IncrRefused(s, now, args[0])
    case _ => false
  }

  lemma MinusNothing(view: Entries)
    ensures view - Elements([]) == view && Elements<bytes>([]) <= view.Keys
  {
    assert Elements<bytes>([]) == {};
  }

  lemma PutMinus(view: Entries, gone: set<bytes>, k: bytes, e: Entry)
    requires k !in gone
    ensures (view - gone)[k := e] == view[k := e] - gone
  {
  }

  /** A handler drains the eviction report, which held nothing before. */
  lemma DrainedReport(s: Store, end: Store, now: int)
    requires s.evicted == []
    ensures Reported(s, end) == end.evicted
    ensures View(end.(evicted := []), now) == View(end, now)
  {
  }

  lemma SetRefines(s: Store, now: int, args: seq<bytes>)
    requires Valid(s) && s.evicted == [] && ArityOk(SetC, |args|)
    ensures var o := HandleSet(s, now, args);
      if MemoryRefuses(SetC, s, now, args) then OutOfMemoryOutcome(s, now, o)
      else ReferenceOutcome(s, now, o, RefSet(View(s, now), now, args))
  {
    MinusNothing(View(s, now));
    var options := ParseSetOptions(args);
    if options.Options? {
      SetView(s, now, args[0], args[1], options.ttl);
      var (end, error) := Set(s, now, args[0], args[1], options.ttl);
      hide Valid, Set, Stored, View, Refused, ParseSetOptions, Elements;
      if error.None? {
        DrainedReport(s, end, now);
        var deadline := if options.ttl.None? then None else Deadline(now, options.ttl.value);
        PutMinus(View(s, now), Elements(end.evicted), args[0], Entry(args[1], deadline));
      }
    }
  }

  lemma IncrRefines(s: Store, now: int, args: seq<bytes>)
    requires Valid(s) && s.evicted == [] && ArityOk(IncrC, |args|)
    ensures var o := HandleIncr(s, now, args);
      if MemoryRefuses(IncrC, s, now, args) then OutOfMemoryOutcome(s, now, o)
      else ReferenceOutcome(s, now, o, RefIncr(View(s, now), args[0]))
  {
    hide Valid, Incr, Stored, View, IncrRefused, SeenCurrent, Elements, Render, Reduced, StoreErrorReply;
    var k, view := args[0], View(s, now);
    MinusNothing(view);
    IncrErrors(s, now, k);
    if Incr(s, now, k).1.Success? {
      IncrSuccessRefines(s, now, args);
    } else {
      IncrFailureView(s, now, k);
      var o, e := HandleIncr(s, now, args), Incr(s, now, k).1.error;
      assert o == Outcome(Incr(s, now, k).0, [], [], StoreErrorReply(e));
      assert e.OutOfMemory? || RefIncr(view, k) == (view, StoreErrorReply(e));
    }
  }

  lemma IncrSuccessRefines(s: Store, now: int, args: seq<bytes>)
    requires Valid(s) && s.evicted == [] && |args| == 1 && Incr(s, now, args[0]).1.Success?
    ensures ReferenceOutcome(s, now, HandleIncr(s, now, args), RefIncr(View(s, now), args[0]))
  {
    hide Valid, Incr, Stored, View, IncrRefused, SeenCurrent, SeenDeadline, Elements, Render, Reduced, StoreErrorReply;
    var k, view := args[0], View(s, now);
    var (end, updated) := Incr(s, now, k);
    IncrErrors(s, now, k);
    IncrSuccessView(s, now, k);
    DrainedReport(s, end, now);
    PutMinus(view, Elements(end.evicted), k, Entry(Render(updated.value), SeenDeadline(view, k)));
  }

  lemma ExpireRefines(s: Store, now: int, args: seq<bytes>)
    requires Valid(s) && ArityOk(ExpireC, |args|)
    ensures ReferenceOutcome(s, now, HandleExpire(s, now, args),
                             RefExpire(View(s, now), now, args[0], ParseInt(args[1])))
  {
    hide Valid, View, Expire, ParseInt, Elements, StoreErrorReply, Err, Reduced, DeadlineMs, Deadline;
    MinusNothing(View(s, now));
    var seconds := ParseInt(args[1]);
    if seconds.Some? {
      ExpireView(s, now, args[0], seconds.value * MILLIS_PER_SECOND);
    }
  }

  lemma PersistRefines(s: Store, now: int, args: seq<bytes>)
    requires Valid(s) && ArityOk(PersistC, |args|)
    ensures ReferenceOutcome(s, now, HandlePersist(s, now, args), RefPersist(View(s, now), args[0]))
  {
    hide Valid, View, Persist, Elements, Reduced;
    MinusNothing(View(s, now));
    PersistView(s, now, args[0]);
  }

  lemma DeleteRefines(s: Store, now: int, args: seq<bytes>)
    requires Valid(s) && ArityOk(DelC, |args|)
    ensures ReferenceOutcome(s, now, HandleDelete(s, now, args),
                             (View(s, now) - Elements(args), Integer(|Elements(args) * View(s, now).Keys|)))
  {
    hide Valid, View, Delete, Elements, Reduced;
    MinusNothing(View(s, now) - Elements(args));
    NoElements<bytes>([]);
    DeleteView(s, now, args);
  }

  lemma GetRefines(s: Store, now: int, args: seq<bytes>)
    requires Valid(s) && ArityOk(GetC, |args|)
    ensures ReferenceOutcome(s, now, HandleGet(s, now, args), RefHandle(GetC, View(s, now), now, args))
  {
    hide Valid, View, Get, Elements, Reduced;
    MinusNothing(View(s, now));
    GetView(s, now, args[0]);
  }

  lemma FlushView(s: Store, now: int)
    requires Valid(s)
    ensures View(FlushDb(s), now) == map[]
  {
    hide Valid, Stored;
  }

  /**
   * Refinement. Unless memory refuses the write, every command answers what the documented meaning says and
   * leaves the client exactly the documented view, less the keys it reported as evicted.
   */
  lemma HandleRefines(c: Command, s: Store, now: int, args: seq<bytes>)
    requires Valid(s) && s.evicted == [] && ArityOk(c, |args|)
    ensures var o := Handle(c, s, now, args);
      if MemoryRefuses(c, s, now, args) then OutOfMemoryOutcome(s, now, o)
      else ReferenceOutcome(s, now, o, RefHandle(c, View(s, now), now, args))
  {
    hide Valid, View, Elements, Reduced, StoreErrorReply, Ttl, Dbsize, Exists, FlushDb,
         HandleSet, HandleIncr, HandleGet, HandleExpire, HandlePersist, HandleDelete,
         RefSet, RefIncr, RefExpire, RefPersist, Present, Refused, IncrRefused, ParseSetOptions;
    MinusNothing(View(s, now));
    match c
    case SetC => SetRefines(s, now, args);
    case IncrC => IncrRefines(s, now, args);
    case GetC => GetRefines(s, now, args);
    case ExpireC => ExpireRefines(s, now, args);
    case TtlC => TtlView(s, now, args[0]);
    case PersistC => PersistRefines(s, now, args);
    case DelC => DeleteRefines(s, now, args);
    case ExistsC => ExistsView(s, now, args);
    case DbsizeC => DbsizeView(s, now);
    case FlushdbC =>
      FlushView(s, now);
      MinusNothing(map[]);
      NoElements<bytes>([]);
    case Ping =>
  }

  // -- Time to live --------------------------------------------------------

  /** TTL answers the remaining time to the nearest second. */
  lemma TtlIsNearestSecond(view: Entries, now: int, k: bytes)
    requires k in view && view[k].deadline.Some?
    ensures RefTtl(view, now, k).Integer?
    ensures var seconds, remaining := RefTtl(view, now, k).n, view[k].deadline.value - now;
      1000 * seconds - 500 <= remaining < 1000 * seconds + 500
  {
  }
}
