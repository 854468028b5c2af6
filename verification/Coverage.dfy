/** Sweep coverage over whole runs: expired garbage nobody touches again is reclaimed within a known sweep budget. */
module Coverage {
  import opened Bytes
  import opened Keyspace
  import opened StoreModel
  import opened StoreOps
  import opened Sweep
  import opened Journaling
  import opened Commands
  import opened Reference
  import opened Runs
  import FailStop

  // -- What a request names ------------------------------------------------

  /** The keys a command looks at. */
  function Named(c: Command, args: seq<bytes>): seq<bytes>
    requires ArityOk(c, |args|)
  {
    match c
    case Ping => []
    case SetC => args[..1]
    case ExpireC => args[..1]
    case _ => args
  }

  predicate LeavesAlone(request: seq<bytes>, k: bytes)
    requires |request| > 0
  {
    match RouteOf(request)
    case Rejected(_) => true
    case Routed(c, args) => k !in Named(c, args)
  }

  /** No request of the run names `k`. */
  predicate LeftAlone(events: seq<Event>, k: bytes) {
    forall i :: 0 <= i < |events| && events[i].Request? && |events[i].parts| > 0 ==> LeavesAlone(events[i].parts, k)
  }

  // -- A command that does not name a key ----------------------------------

  lemma ReferenceLeavesUnseen(c: Command, view: Entries, now: int, args: seq<bytes>, k: bytes)
    requires ArityOk(c, |args|) && k !in Named(c, args) && k !in view
    ensures k !in RefHandle(c, view, now, args).0
  {
    hide ParseSetOptions, ParseInt, Deadline, Present;
  }

  /** It does not bring the key to a client's sight. */
  lemma HandleLeavesUnseen(c: Command, s: Store, now: int, args: seq<bytes>, k: bytes)
    requires Valid(s) && s.evicted == [] && ArityOk(c, |args|) && k !in Named(c, args) && k !in View(s, now)
    ensures k !in View(Handle(c, s, now, args).store, now)
  {
    hide Valid, View, Handle, RefHandle, MemoryRefuses, Named;
    HandleRefines(c, s, now, args);
    ReferenceLeavesUnseen(c, View(s, now), now, args, k);
  }

  lemma TakenKeys(s: Store)
    requires Valid(s)
    ensures TakeEvicted(s).data == s.data
  {
    hide Valid;
  }

  lemma SetStoresNamed(s: Store, now: int, args: seq<bytes>)
    requires Valid(s) && ArityOk(SetC, |args|)
    ensures HandleSet(s, now, args).store.data.vals.Keys <= s.data.vals.Keys + {args[0]}
  {
    hide Valid, Set, ParseSetOptions, TakeEvicted, StoreErrorReply, DeletedEach, Err;
    var options := ParseSetOptions(args);
    if options.Options? && Set(s, now, args[0], args[1], options.ttl).1.None? {
      SetOthers(s, now, args[0], args[1], options.ttl);
      TakenKeys(Set(s, now, args[0], args[1], options.ttl).0);
    }
  }

  lemma IncrStoresNamed(s: Store, now: int, args: seq<bytes>)
    requires Valid(s) && ArityOk(IncrC, |args|)
    ensures HandleIncr(s, now, args).store.data.vals.Keys <= s.data.vals.Keys + {args[0]}
  {
    hide Valid, Incr, TakeEvicted, StoreErrorReply, DeletedEach, Render;
    if Incr(s, now, args[0]).1.Success? {
      IncrOthers(s, now, args[0]);
      TakenKeys(Incr(s, now, args[0]).0);
    }
  }

  lemma GetStoresNothing(s: Store, now: int, args: seq<bytes>)
    requires Valid(s) && ArityOk(GetC, |args|)
    ensures HandleGet(s, now, args).store.data.vals.Keys <= s.data.vals.Keys
  {
    hide Valid, DropIfExpired, Stored;
  }

  /** Only SET and INCR store keys, and only the one they name. */
  lemma HandleStoresNamed(c: Command, s: Store, now: int, args: seq<bytes>, k: bytes)
    requires Valid(s) && ArityOk(c, |args|) && k !in Named(c, args)
    ensures k in Handle(c, s, now, args).store.data.vals ==> k in s.data.vals
  {
    hide Valid, HandleSet, HandleIncr, HandleGet, HandleExpire, HandlePersist, HandleDelete, Exists, Ttl, Dbsize,
         FlushDb;
    match c
    case SetC => SetStoresNamed(s, now, args);
    case IncrC => IncrStoresNamed(s, now, args);
    case GetC => GetStoresNothing(s, now, args);
    case _ =>
  }

  // -- A key waiting for a sweep -------------------------------------------

  /** `k` is stored, its deadline has passed, and `pops` more pops of the sweep reach it. */
  ghost predicate Waiting(s: Store, now: int, k: bytes, pops: int, timed: nat) {
    && k in s.data.vals && DeadlinePassed(s, now, k)
    && ((k in s.sweepCursor && |s.sweepCursor| <= pops) || |s.sweepCursor| + timed <= pops)
  }

  /** Either it is gone already or it is waiting. */
  ghost predicate Doomed(w: World, k: bytes, pops: int, timed: nat) {
    Valid(w.store) && w.store.evicted == [] && (k !in w.store.data.vals || Waiting(w.store, w.now, k, pops, timed))
  }

  lemma UnseenIsOverdue(s: Store, now: int, k: bytes)
    requires Valid(s)
    ensures k in s.data.vals ==> (k !in View(s, now) <==> DeadlinePassed(s, now, k))
  {
    hide Total, Ranked, NoDup, Elements;
  }

  lemma HandleKeepsDoomed(w: World, c: Command, args: seq<bytes>, k: bytes, pops: int, timed: nat)
    requires Doomed(w, k, pops, timed) && ArityOk(c, |args|) && k !in Named(c, args)
    ensures Doomed(w.(store := Handle(c, w.store, w.now, args).store), k, pops, timed)
  {
    hide Valid, View, Handle, Named, DeadlinePassed;
    var s, r := w.store, Handle(c, w.store, w.now, args).store;
    HandleStoresNamed(c, s, w.now, args, k);
    if k in r.data.vals {
      UnseenIsOverdue(s, w.now, k);
      HandleLeavesUnseen(c, s, w.now, args, k);
      UnseenIsOverdue(r, w.now, k);
      FlushStoresNothing(s, w.now, args);
    }
  }

  lemma FlushStoresNothing(s: Store, now: int, args: seq<bytes>)
    requires Valid(s)
    ensures ArityOk(FlushdbC, |args|) ==> Handle(FlushdbC, s, now, args).store.data.vals == map[]
  {
    hide Valid, Stored;
  }

  lemma ServeKeepsDoomed(w: World, request: seq<bytes>, k: bytes, pops: int, timed: nat)
    requires Doomed(w, k, pops, timed) && |request| > 0 && LeavesAlone(request, k)
    ensures Doomed(Serve(w, request).0, k, pops, timed)
  {
    hide Valid, Handle, RouteOf, Named, Ascii, UsedBy, Handled, DeadlinePassed;
    match RouteOf(request)
    case Rejected(_) =>
    case Routed(c, args) =>
      if !(Mutates(c) && Failed(w.journal)) {
        HandleKeepsDoomed(w, c, args, k, pops, timed);
      }
  }

  lemma SweepStoresNothing(s: Store, now: int, limit: nat, k: bytes)
    requires Valid(s) && k in SweepExpired(s, now, limit).0.data.vals && k !in View(s, now)
    ensures k in s.data.vals && DeadlinePassed(SweepExpired(s, now, limit).0, now, k)
  {
    hide Valid, View, SweepExpired, DeadlinePassed;
    SweepIsInvisible(s, now, limit);
    UnseenIsOverdue(SweepExpired(s, now, limit).0, now, k);
  }

  lemma SweepPaysDebt(w: World, limit: nat, k: bytes, pops: int, timed: nat)
    requires Doomed(w, k, pops, timed) && |w.store.expires.vals| <= timed
    ensures Doomed(w.(store := SweepExpired(w.store, w.now, limit).0), k, pops - limit, timed)
  {
    hide Valid, View, DeadlinePassed, SweepLoop, Stored, Reduced;
    var s, r := w.store, SweepExpired(w.store, w.now, limit).0;
    assert k in r.data.vals ==> k in s.data.vals by { SweepReduces(s, w.now, limit); }
    if k in r.data.vals {
      UnseenIsOverdue(s, w.now, k);
      SweepStoresNothing(s, w.now, limit, k);
      OverdueTargets(s, w.now, k);
      DueWhileWaiting(s, w.now, k, pops, timed);
      SweepLoopPaysDebt(s, {k}, pops, timed, w.now, limit, false);
      WaitingWhileDue(r, w.now, k, pops - limit, timed);
    }
  }

  lemma SweepReduces(s: Store, now: int, limit: nat)
    requires Valid(s)
    ensures SweepExpired(s, now, limit).0.data.vals.Keys <= s.data.vals.Keys
  {
    hide Valid;
  }

  lemma OverdueTargets(s: Store, now: int, k: bytes)
    requires DeadlinePassed(s, now, k)
    ensures AllOverdue(s, {k}, now)
  {
  }

  lemma DueWhileWaiting(s: Store, now: int, k: bytes, pops: int, timed: nat)
    requires Waiting(s, now, k, pops, timed) && |s.expires.vals| <= timed
    ensures Due(s, {k}, pops, timed)
  {
  }

  lemma WaitingWhileDue(s: Store, now: int, k: bytes, pops: int, timed: nat)
    requires Due(s, {k}, pops, timed) && k in s.data.vals && DeadlinePassed(s, now, k)
    ensures Waiting(s, now, k, pops, timed)
  {
    assert k in {k};
  }

  // -- Over a run ----------------------------------------------------------

  /** How many keys the sweeps of a run may examine. */
  function Budget(events: seq<Event>): nat
    decreases |events|
  {
    if |events| == 0 then 0 else (if events[0].Sweep? then events[0].limit else 0) + Budget(events[1..])
  }

  /** At no point of the run do more than `timed` keys carry a deadline. */
  ghost predicate TimedAtMost(w: World, events: seq<Event>, timed: nat)
    requires Valid(w.store)
    decreases |events|
  {
    && |w.store.expires.vals| <= timed
    && (|events| > 0 ==> TimedAtMost(Step(w, events[0]), events[1..], timed))
  }

  lemma StepKeepsDoomed(w: World, e: Event, k: bytes, pops: int, timed: nat)
    requires Doomed(w, k, pops, timed) && |w.store.expires.vals| <= timed && !e.Restart?
    requires e.Request? && |e.parts| > 0 ==> LeavesAlone(e.parts, k)
    ensures Doomed(Step(w, e), k, pops - (if e.Sweep? then e.limit else 0), timed)
  {
    hide Valid, Serve, SweepExpired, LeavesAlone;
    match e
    case Request(parts) => if |parts| > 0 { ServeKeepsDoomed(w, parts, k, pops, timed); }
    case Sweep(limit) => SweepPaysDebt(w, limit, k, pops, timed);
    case _ =>
  }

  lemma {:induction false} RunKeepsDoomed(w: World, events: seq<Event>, k: bytes, pops: int, timed: nat)
    requires Doomed(w, k, pops, timed) && FailStop.NoRestart(events) && LeftAlone(events, k)
    requires Valid(w.store) && TimedAtMost(w, events, timed)
    ensures Doomed(Run(w, events), k, pops - Budget(events), timed)
    ensures |Run(w, events).store.expires.vals| <= timed
    decreases |events|
  {
    hide Valid, Step, Doomed, LeavesAlone;
    if |events| == 0 {
    } else {
      var cost := if events[0].Sweep? then events[0].limit else 0;
      StepKeepsDoomed(w, events[0], k, pops, timed);
      RunKeepsDoomed(Step(w, events[0]), events[1..], k, pops - cost, timed);
    }
  }

  lemma ExpiredIsDoomed(w: World, k: bytes, timed: nat)
    requires Valid(w.store) && w.store.evicted == [] && k in Stored(w.store) && Expired(Stored(w.store)[k], w.now)
    ensures Doomed(w, k, |w.store.sweepCursor| + timed, timed)
  {
    hide Valid;
  }

  lemma NothingOwedIsGone(w: World, k: bytes, pops: int, timed: nat)
    requires Doomed(w, k, pops, timed) && pops <= 0 && |w.store.expires.vals| <= timed
    ensures k !in Stored(w.store)
  {
    hide Valid;
    StoredKeys(w.store);
    assert DeadlinePassed(w.store, w.now, k) ==> |w.store.expires.vals| > 0;
  }

  /**
   * Sweep coverage, with everything a server does in between. With L keys left in the cursor and never more than
   * n timed keys, a key that has expired and that no request names again is gone once the sweeps of the run
   * have been allowed L + n examinations, whatever commands, clock readings and faults come between them.
   */
  lemma SweepsCoverRun(w: World, events: seq<Event>, k: bytes, timed: nat)
    requires Valid(w.store) && w.store.evicted == [] && k in Stored(w.store) && Expired(Stored(w.store)[k], w.now)
    requires FailStop.NoRestart(events) && LeftAlone(events, k) && TimedAtMost(w, events, timed)
    requires Budget(events) >= |w.store.sweepCursor| + timed
    ensures k !in Stored(Run(w, events).store)
  {
    hide Valid, Run, TimedAtMost, LeftAlone, Doomed, Stored;
    var pops := |w.store.sweepCursor| + timed;
    ExpiredIsDoomed(w, k, timed);
    RunKeepsDoomed(w, events, k, pops, timed);
    NothingOwedIsGone(Run(w, events), k, pops - Budget(events), timed);
  }
}
