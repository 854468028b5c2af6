/** Recency ranks are history: they order keys exactly by when a client last used them. */
module Recency {
  import opened Bytes
  import opened StoreModel
  import opened Eviction
  import opened StoreOps
  import opened Sweep
  import opened Facts
  import opened Journaling
  import opened Commands
  import Reference
  import opened Runs
  import opened Ceiling

  /** The position, counted from 1, of the last use of `k`; 0 if it was never used. */
  function LastUse(uses: seq<bytes>, k: bytes): (r: nat)
    ensures r <= |uses|
    ensures r > 0 ==> uses[r - 1] == k
    ensures forall i :: r <= i < |uses| ==> uses[i] != k
  {
    if |uses| == 0 then 0
    else if uses[|uses| - 1] == k then |uses|
    else LastUse(uses[..|uses| - 1], k)
  }

  /** Every stored key is ranked by its last use, and the tick counts all uses. */
  ghost predicate RanksAreHistory(s: Store, uses: seq<bytes>) {
    s.tick == |uses| && forall k :: k in s.data.vals ==> Rank(s, k) == LastUse(uses, k)
  }

  lemma LastUseAppend(uses: seq<bytes>, k: bytes, j: bytes)
    ensures LastUse(uses + [k], j) == if j == k then |uses| + 1 else LastUse(uses, j)
  {
    assert (uses + [k])[..|uses|] == uses;
  }

  lemma ReducedKeepsHistory(s: Store, r: Store, uses: seq<bytes>)
    requires RanksAreHistory(s, uses) && Reduced(s, r)
    ensures RanksAreHistory(r, uses)
  {
    hide LastUse, Rank;
  }

  /** Using a key, possibly after storing it, puts it last in the order and leaves the rest alone. */
  lemma UseExtendsHistory(s: Store, t: Store, k: bytes, uses: seq<bytes>)
    requires RanksAreHistory(s, uses) && t.tick == s.tick && t.access == s.access
    requires Valid(t) && k in t.data.vals && t.data.vals.Keys <= s.data.vals.Keys + {k}
    ensures RanksAreHistory(Touch(t, k), uses + [k])
  {
    hide Valid, LastUse;
    forall j | j in t.data.vals ensures Rank(Touch(t, k), j) == LastUse(uses + [k], j) {
      LastUseAppend(uses, k, j);
    }
  }

  lemma SetExtendsHistory(s: Store, now: int, k: bytes, v: bytes, ttl: Option<int>, uses: seq<bytes>)
    requires Valid(s) && RanksAreHistory(s, uses) && Set(s, now, k, v, ttl).1.None?
    ensures RanksAreHistory(Set(s, now, k, v, ttl).0, uses + [k])
  {
    hide Valid, Admit, Restore, RanksAreHistory, Touch, Reduced;
    var a := Admit(s, now, k, v).value;
    var deadline := if ttl.None? then None else Deadline(now, ttl.value);
    ReducedKeepsHistory(s, a, uses);
    WriteKeys(a, k, v, deadline);
    UseExtendsHistory(a, Restore(a, k, v, deadline), k, uses);
  }

  lemma IncrExtendsHistory(s: Store, now: int, k: bytes, uses: seq<bytes>)
    requires Valid(s) && RanksAreHistory(s, uses) && Incr(s, now, k).1.Success?
    ensures RanksAreHistory(Incr(s, now, k).0, uses + [k])
  {
    hide Valid, Admit, DropIfExpired, Write, RanksAreHistory, Touch, Reduced, Current;
    var live := DropIfExpired(s, now, k);
    var v := Render(Current(live, k).value + 1);
    var a := Admit(live, now, k, v).value;
    ReducedKeepsHistory(s, live, uses);
    ReducedKeepsHistory(live, a, uses);
    WriteKeys(a, k, v, None);
    UseExtendsHistory(a, Write(a, k, v), k, uses);
  }

  lemma GetExtendsHistory(s: Store, now: int, k: bytes, uses: seq<bytes>)
    requires Valid(s) && RanksAreHistory(s, uses)
    ensures RanksAreHistory(Get(s, now, k).0, if Get(s, now, k).1.Some? then uses + [k] else uses)
  {
    hide Valid, DropIfExpired, RanksAreHistory, Touch, Reduced;
    var live := DropIfExpired(s, now, k);
    ReducedKeepsHistory(s, live, uses);
    if k in live.data.vals {
      UseExtendsHistory(live, live, k, uses);
    }
  }

  lemma DrainKeepsHistory(s: Store, uses: seq<bytes>)
    requires Valid(s)
    ensures RanksAreHistory(TakeEvicted(s), uses) <==> RanksAreHistory(s, uses)
  {
    hide Valid, LastUse;
    forall k ensures Rank(TakeEvicted(s), k) == Rank(s, k) { }
  }

  /** A GET that hits, a SET or an INCR that is carried out is a use; nothing else touches a surviving rank. */
  lemma HandleExtendsHistory(c: Command, s: Store, now: int, args: seq<bytes>, uses: seq<bytes>)
    requires Valid(s) && ArityOk(c, |args|) && RanksAreHistory(s, uses)
    ensures var o := Handle(c, s, now, args);
      RanksAreHistory(o.store, if Used(c, o.reply) then uses + [args[0]] else uses)
  {
    hide Valid, Set, Incr, Get, Delete, Exists, Expire, Persist, Ttl, Dbsize, FlushDb, StoreErrorReply, Err,
         ParseSetOptions, RanksAreHistory, Reduced;
    BadOptionsAreErrors(args);
    match c
    case Ping =>
    case SetC =>
      var options := ParseSetOptions(args);
      if options.Options? {
        var (end, error) := Set(s, now, args[0], args[1], options.ttl);
        if error.None? {
          SetExtendsHistory(s, now, args[0], args[1], options.ttl, uses);
          DrainKeepsHistory(end, uses + [args[0]]);
        }
      }
    case IncrC =>
      var (end, updated) := Incr(s, now, args[0]);
      if updated.Success? {
        IncrExtendsHistory(s, now, args[0], uses);
        DrainKeepsHistory(end, uses + [args[0]]);
      } else {
        ReducedKeepsHistory(s, end, uses);
      }
    case GetC => GetExtendsHistory(s, now, args[0], uses);
    case _ => ReducedKeepsHistory(s, Handle(c, s, now, args).store, uses);
  }

  lemma ServeExtendsHistory(w: World, request: seq<bytes>)
    requires Valid(w.store) && |request| > 0 && RanksAreHistory(w.store, w.uses)
    ensures RanksAreHistory(Serve(w, request).0.store, Serve(w, request).0.uses)
  {
    hide Valid, Handle, RouteOf, RanksAreHistory, Ascii;
    assert w.uses + [] == w.uses;
    match RouteOf(request)
    case Rejected(_) =>
    case Routed(c, args) =>
      if !(Mutates(c) && Failed(w.journal)) {
        HandleExtendsHistory(c, w.store, w.now, args, w.uses);
        if Used(c, Handle(c, w.store, w.now, args).reply) {
          assert args[..1] == [args[0]];
        }
      }
  }

  lemma FreshRanks(s: Store, uses: seq<bytes>)
    requires s.tick == 0 && s.access.Keys <= {} && uses == []
    ensures RanksAreHistory(s, uses)
  {
  }

  lemma StepExtendsHistory(w: World, e: Event)
    requires Valid(w.store) && RanksAreHistory(w.store, w.uses)
    ensures RanksAreHistory(Step(w, e).store, Step(w, e).uses)
  {
    hide Valid, Serve, SweepExpired, RanksAreHistory, Load, Reduced;
    match e
    case Request(parts) => if |parts| > 0 { ServeExtendsHistory(w, parts); }
    case Sweep(limit) => ReducedKeepsHistory(w.store, SweepExpired(w.store, w.now, limit).0, w.uses);
    case Restart(maxmemory, policy, _) =>
      var next := Step(w, e);
      if next != w { FreshRanks(next.store, next.uses); }
    case _ =>
  }

  /**
   * Recency is history. Over any run, across restarts, ranks order the stored keys exactly by their last GET,
   * SET or INCR in this process; keys restored and not used since rank below every used one.
   */
  lemma {:induction false} RunRanksAreHistory(w: World, events: seq<Event>)
    requires Valid(w.store) && RanksAreHistory(w.store, w.uses)
    ensures RanksAreHistory(Run(w, events).store, Run(w, events).uses)
    decreases |events|
  {
    hide Valid, Step, RanksAreHistory;
    if |events| == 0 {
    } else {
      StepExtendsHistory(w, events[0]);
      RunRanksAreHistory(Step(w, events[0]), events[1..]);
    }
  }

  // -- What a write evicts -------------------------------------------------

  lemma SetEvictsOldest(s: Store, now: int, k: bytes, v: bytes, ttl: Option<int>)
    requires Valid(s) && Set(s, now, k, v, ttl).1.None? && |View(s, now).Keys - {k}| <= 3
    ensures EvictedOldest(s, Set(s, now, k, v, ttl).0, k)
  {
    hide Valid, Admit, Overwrite, Rank, Others, View;
    var a := Admit(s, now, k, v).value;
    AdmissionEvictsOldest(s, now, k, v, a);
    OverwriteKeys(a, k, v, if ttl.None? then None else Deadline(now, ttl.value));
  }

  /** The lazy drop before an admission changes no rank that matters. */
  lemma AdmittedOldest(s: Store, live: Store, now: int, k: bytes, v: bytes, a: Store)
    requires Valid(live) && Reduced(s, live) && live.evicted == s.evicted
    requires Admit(live, now, k, v) == Some(a) && |View(live, now).Keys - {k}| <= 3
    ensures EvictedOldest(s, a, k)
  {
    hide Valid, Admit, View, EvictedOldest, Stored, Conserved, Others, Reduced;
    AdmissionEvictsOldest(live, now, k, v, a);
    AdmissionConserves(live, now, k, v, a);
    ReportedAreStored(live, a, now, k);
    EvictedOldestBefore(s, live, a, a, k);
  }

  lemma IncrEvictsOldest(s: Store, now: int, k: bytes)
    requires Valid(s) && Incr(s, now, k).1.Success? && |View(s, now).Keys - {k}| <= 3
    ensures EvictedOldest(s, Incr(s, now, k).0, k)
  {
    hide Valid, Admit, DropIfExpired, Write, Touch, View, EvictedOldest, Current, Render, Stored, Reduced, Others;
    DropIfExpiredView(s, now, k);
    var live := DropIfExpired(s, now, k);
    var v := Render(Current(live, k).value + 1);
    var a := Admit(live, now, k, v).value;
    AdmittedOldest(s, live, now, k, v, a);
    OverwriteKeys(a, k, v, None);
    SameReportOldest(s, a, Incr(s, now, k).0, k);
  }

  lemma SameReportOldest(s: Store, a: Store, r: Store, k: bytes)
    requires EvictedOldest(s, a, k) && r.evicted == a.evicted && Others(r, k) == Others(a, k)
    ensures EvictedOldest(s, r, k)
  {
    hide Rank, Others;
  }

  lemma ReportedAreStored(s: Store, a: Store, now: int, k: bytes)
    requires Conserved(s, a, now, k)
    ensures s.evicted <= a.evicted && forall j :: j in Reported(s, a) ==> j in s.data.vals
  {
    forall j | j in Reported(s, a) ensures j in s.data.vals {
      assert j in Elements(Reported(s, a));
    }
  }

  /** Ranks are those from before the lazy drop, and the written key itself does not matter. */
  lemma EvictedOldestBefore(s: Store, t: Store, a: Store, r: Store, k: bytes)
    requires Reduced(s, t) && t.evicted == s.evicted && Reduced(t, a) && EvictedOldest(t, a, k)
    requires forall j :: j in Reported(t, a) ==> j in t.data.vals
    requires r.evicted == a.evicted && Others(r, k) == Others(a, k)
    ensures EvictedOldest(s, r, k)
  {
    hide Rank;
    var report := Reported(s, r);
    assert report == Reported(t, a);
    assert forall i :: 0 <= i < |report| ==> report[i] in report;
    assert forall x :: x in Others(a, k) ==> Rank(s, x) == Rank(t, x);
  }

  /** The keys of `evicted` were last used in the order given, and none after any key still stored but `k`. */
  ghost predicate LongestUnused(evicted: seq<bytes>, s: Store, k: bytes, uses: seq<bytes>) {
    && (forall i, j :: 0 <= i < j < |evicted| ==> LastUse(uses, evicted[i]) <= LastUse(uses, evicted[j]))
    && (forall j, x :: j in evicted && x in Others(s, k) ==> LastUse(uses, j) <= LastUse(uses, x))
  }

  lemma OldestIsLongestUnused(s: Store, r: Store, k: bytes, uses: seq<bytes>)
    requires RanksAreHistory(s, uses) && s.evicted == [] && EvictedOldest(s, r, k)
    requires Elements(r.evicted) <= s.data.vals.Keys && Others(r, k) <= s.data.vals.Keys
    ensures LongestUnused(r.evicted, r, k, uses)
  {
    hide Rank, LastUse;
    assert Reported(s, r) == r.evicted;
    assert forall j :: j in r.evicted ==> j in Elements(r.evicted);
  }

  lemma SetEvictsLongestUnused(
    s: Store, now: int, k: bytes, v: bytes, ttl: Option<int>, uses: seq<bytes>)
    requires Valid(s) && s.evicted == [] && RanksAreHistory(s, uses)
    requires Set(s, now, k, v, ttl).1.None? && |View(s, now).Keys - {k}| <= 3
    ensures var end := Set(s, now, k, v, ttl).0; LongestUnused(end.evicted, TakeEvicted(end), k, uses)
  {
    hide Valid, Set, View, EvictedOldest, LongestUnused, Others, RanksAreHistory, Refused, Elements;
    var end := Set(s, now, k, v, ttl).0;
    SetEvictsOldest(s, now, k, v, ttl);
    SetView(s, now, k, v, ttl);
    SetOthers(s, now, k, v, ttl);
    ReportIsStored(s, end, now, k);
    OldestIsLongestUnused(s, end, k, uses);
    TakenKeeps(end, k, uses);
  }

  lemma IncrEvictsLongestUnused(s: Store, now: int, k: bytes, uses: seq<bytes>)
    requires Valid(s) && s.evicted == [] && RanksAreHistory(s, uses)
    requires Incr(s, now, k).1.Success? && |View(s, now).Keys - {k}| <= 3
    ensures var end := Incr(s, now, k).0; LongestUnused(end.evicted, TakeEvicted(end), k, uses)
  {
    hide Valid, Incr, View, EvictedOldest, LongestUnused, Others, RanksAreHistory, Elements, Reduced;
    var end := Incr(s, now, k).0;
    IncrEvictsOldest(s, now, k);
    Reference.IncrSuccessView(s, now, k);
    IncrOthers(s, now, k);
    ReportIsStored(s, end, now, k);
    OldestIsLongestUnused(s, end, k, uses);
    TakenKeeps(end, k, uses);
  }

  lemma HandleSetEvicts(s: Store, now: int, args: seq<bytes>, uses: seq<bytes>)
    requires Valid(s) && s.evicted == [] && RanksAreHistory(s, uses)
    requires ArityOk(SetC, |args|) && |View(s, now).Keys - {args[0]}| <= 3
    ensures var o := HandleSet(s, now, args); LongestUnused(o.evicted, o.store, args[0], uses)
  {
    hide Valid, Set, View, ParseSetOptions, LongestUnused, RanksAreHistory, StoreErrorReply, Err, TakeEvicted,
         DeletedEach, DeadlineMs, Rank;
    NoneUnused(HandleSet(s, now, args).store, args[0], uses);
    var options := ParseSetOptions(args);
    if options.Options? && Set(s, now, args[0], args[1], options.ttl).1.None? {
      SetEvictsLongestUnused(s, now, args[0], args[1], options.ttl, uses);
    }
  }

  lemma HandleIncrEvicts(s: Store, now: int, args: seq<bytes>, uses: seq<bytes>)
    requires Valid(s) && s.evicted == [] && RanksAreHistory(s, uses)
    requires ArityOk(IncrC, |args|) && |View(s, now).Keys - {args[0]}| <= 3
    ensures var o := HandleIncr(s, now, args); LongestUnused(o.evicted, o.store, args[0], uses)
  {
    hide Valid, Incr, View, LongestUnused, RanksAreHistory, StoreErrorReply, Reduced, TakeEvicted, DeletedEach,
         DeadlineMs, Render, Rank;
    NoneUnused(HandleIncr(s, now, args).store, args[0], uses);
    if Incr(s, now, args[0]).1.Success? {
      IncrEvictsLongestUnused(s, now, args[0], uses);
    }
  }

  lemma HandleEvictsLongestUnused(c: Command, s: Store, now: int, args: seq<bytes>, uses: seq<bytes>)
    requires Valid(s) && s.evicted == [] && RanksAreHistory(s, uses)
    requires c.SetC? || c.IncrC?
    requires ArityOk(c, |args|) && |View(s, now).Keys - {args[0]}| <= 3
    ensures var o := Handle(c, s, now, args); LongestUnused(o.evicted, o.store, args[0], uses)
  {
    hide Valid, HandleSet, HandleIncr, View, LongestUnused, RanksAreHistory;
    match c
    case SetC => HandleSetEvicts(s, now, args, uses);
    case IncrC => HandleIncrEvicts(s, now, args, uses);
  }

  lemma NoneUnused(s: Store, k: bytes, uses: seq<bytes>)
    ensures LongestUnused([], s, k, uses)
  {
  }

  lemma ReportIsStored(s: Store, r: Store, now: int, k: bytes)
    requires s.evicted == [] && Elements(Reported(s, r)) <= View(s, now).Keys - {k}
    ensures Elements(r.evicted) <= s.data.vals.Keys
  {
    StoredKeys(s);
    hide Stored;
    assert Reported(s, r) == r.evicted;
  }

  lemma TakenKeeps(s: Store, k: bytes, uses: seq<bytes>)
    requires Valid(s)
    ensures LongestUnused(s.evicted, TakeEvicted(s), k, uses) <==> LongestUnused(s.evicted, s, k, uses)
  {
    hide Valid, LastUse;
  }

  /**
   * Eviction over whole runs. After any history of the server, when a client sees at most three keys besides the
   * one a SET or INCR writes, the keys that write reports as evicted are those whose last GET, SET or INCR lies
   * longest back, in that order: none was used after any key that is left.
   */
  lemma EvictionTakesLeastRecentlyUsed(
    file: bytes, maxmemory: nat, policy: Policy, fate: Fate, start: int, events: seq<Event>,
    c: Command, args: seq<bytes>)
    requires Loads(file, maxmemory, policy, start) && (c.SetC? || c.IncrC?) && ArityOk(c, |args|)
    requires var w := Run(Start(file, maxmemory, policy, fate, start), events);
      |View(w.store, w.now).Keys - {args[0]}| <= 3
    ensures var w := Run(Start(file, maxmemory, policy, fate, start), events);
      var o := Handle(c, w.store, w.now, args);
      LongestUnused(o.evicted, o.store, args[0], w.uses)
  {
    hide Valid, Run, View, RanksAreHistory, LongestUnused, Handle, Durable, Start, Loads;
    var first := Start(file, maxmemory, policy, fate, start);
    StartRanks(file, maxmemory, policy, fate, start);
    StartIsDurable(file, maxmemory, policy, fate, start);
    RunRanksAreHistory(first, events);
    RunKeepsDurable(first, events);
    var w := Run(first, events);
    DurableReport(w);
    HandleEvictsLongestUnused(c, w.store, w.now, args, w.uses);
  }

  lemma DurableReport(w: World)
    requires Durable(w)
    ensures w.store.evicted == []
  {
    hide Valid, View, FileHolds;
  }

  lemma StartRanks(file: bytes, maxmemory: nat, policy: Policy, fate: Fate, now: int)
    requires Loads(file, maxmemory, policy, now)
    ensures var w := Start(file, maxmemory, policy, fate, now); RanksAreHistory(w.store, w.uses)
  {
    hide Valid, Load, RanksAreHistory;
    var w := Start(file, maxmemory, policy, fate, now);
    FreshRanks(w.store, w.uses);
  }
}
