/** The server as a state machine, and what holds over every run of it, across faults and restarts. */
module Runs {
  import opened Bytes
  import opened Resp
  import opened LogFormat
  import opened Keyspace
  import opened StoreModel
  import opened Sweep
  import opened Facts
  import opened Journaling
  import opened Commands
  import opened Durability

  /**
   * The server between two atomic steps. `logged` and `uses` are history: the facts whose whole records are in
   * the file, and the keys used since the process started, oldest first.
   */
  datatype World = World(store: Store, journal: Journal, now: int, logged: seq<Fact>, uses: seq<bytes>)

  datatype Event =
    | Request(parts: seq<bytes>)
    | Sweep(limit: nat)
    | Advance(ms: nat)
    | SyncAttempt(succeeds: bool)
    | Restart(maxmemory: nat, policy: Policy, fate: Fate)

  // -- Steps ---------------------------------------------------------------

  /** The outcome of the handler a request reaches, if it reaches one. */
  function Handled(w: World, request: seq<bytes>): (r: Option<Outcome>)
    requires Valid(w.store) && |request| > 0
    ensures r.Some? ==> Valid(r.value.store)
  {
    hide Valid, Handle, RouteOf;
    match RouteOf(request)
    case Rejected(_) => None
    case Routed(c, args) =>
      if Mutates(c) && Failed(w.journal) then None else Some(Handle(c, w.store, w.now, args))
  }

  /** A write that was carried out, as its reply tells. */
  predicate CarriedOut(c: Command, reply: Reply) {
    (c.SetC? && reply == OK) || (c.IncrC? && reply.Integer?)
  }

  /** Whether a command counts as a use of its key, judged by its reply. */
  predicate Used(c: Command, reply: Reply) {
    CarriedOut(c, reply) || (c.GetC? && reply.Bulk?)
  }

  /** The keys a request used: a GET that hit, a SET or INCR that was carried out. */
  function UsedBy(w: World, request: seq<bytes>): seq<bytes>
    requires Valid(w.store) && |request| > 0
  {
    hide Valid, Handle, RouteOf;
    match RouteOf(request)
    case Rejected(_) => []
    case Routed(c, args) =>
      if Mutates(c) && Failed(w.journal) then []
      else if Used(c, Handle(c, w.store, w.now, args).reply) then args[..1]
      else []
  }

  /** Every request is served; an empty one is ignored by the connection and never gets here. */
  function Serve(w: World, request: seq<bytes>): (r: (World, Reply))
    requires Valid(w.store) && |request| > 0
    ensures Valid(r.0.store)
  {
    hide Valid, Dispatch, Handled;
    var d := Dispatch(w.store, w.journal, w.now, request);
    var o := Handled(w, request);
    (World(d.store, d.journal, w.now,
           if o.Some? then w.logged + Landed(w.journal, o.value.facts) else w.logged,
           w.uses + UsedBy(w, request)),
     d.reply)
  }

  /** A new process recovers from the file the old one left, or refuses to start and changes nothing. */
  function Recover(w: World, maxmemory: nat, policy: Policy, fate: Fate): (r: World)
    requires Valid(w.store)
    ensures Valid(r.store)
  {
    hide Valid, Load;
    var empty := FreshStore(maxmemory, policy);
    match w.journal
    case NullJournal => World(empty, NullJournal, w.now, [], [])
    case AppendOnlyFile(_, file, _) =>
      match Load(file, empty, w.now)
      case None => w
      case Some(l) => World(l.store, AppendOnlyFile(false, l.file, fate), w.now, w.logged, [])
  }

  function Step(w: World, e: Event): (r: World)
    requires Valid(w.store)
    ensures Valid(r.store)
  {
    hide Valid, Serve, Recover, SweepExpired;
    match e
    case Request(parts) => if |parts| == 0 then w else Serve(w, parts).0
    case Sweep(limit) => w.(store := SweepExpired(w.store, w.now, limit).0)
    case Advance(ms) => w.(now := w.now + ms)
    case SyncAttempt(succeeds) => w.(journal := Sync(w.journal, succeeds))
    case Restart(maxmemory, policy, fate) => Recover(w, maxmemory, policy, fate)
  }

  function Run(w: World, events: seq<Event>): (r: World)
    requires Valid(w.store)
    ensures Valid(r.store)
    decreases |events|
  {
    hide Valid, Step;
    if |events| == 0 then w else Run(Step(w, events[0]), events[1..])
  }

  /** A server can start on `file`: recovery does not refuse it. */
  predicate Loads(file: bytes, maxmemory: nat, policy: Policy, now: int) {
    Load(file, FreshStore(maxmemory, policy), now).Some?
  }

  /** A server started on any file recovery accepts, whoever wrote it. */
  function Start(file: bytes, maxmemory: nat, policy: Policy, fate: Fate, now: int): (r: World)
    requires Loads(file, maxmemory, policy, now)
    ensures Valid(r.store)
  {
    hide Valid, Load;
    var l := Load(file, FreshStore(maxmemory, policy), now).value;
    LoadStates(file, FreshStore(maxmemory, policy), now);
    World(l.store, AppendOnlyFile(false, l.file, fate), now, Meaning(ScanLog(file).records), [])
  }

  // -- The durability invariant --------------------------------------------

  /** The file says `logged` and then holds at most one torn record, and that only once the journal failed. */
  ghost predicate FileHolds(file: bytes, logged: seq<Fact>, failed: bool) {
    exists torn: bytes :: TornRecord(torn) && (!failed ==> torn == []) && Holds(file, logged, torn)
  }

  ghost predicate Holds(file: bytes, logged: seq<Fact>, torn: bytes) {
    |torn| <= |file| && file[|file| - |torn|..] == torn && States(file[..|file| - |torn|], logged)
  }

  /** While the journal is healthy, the log and the store describe the same keyspace. */
  ghost predicate Durable(w: World) {
    && Valid(w.store) && w.store.evicted == [] && w.journal.AppendOnlyFile?
    && FileHolds(w.journal.file, w.logged, w.journal.failed)
    && (!w.journal.failed ==> Unexpired(Recorded(w.logged), w.now) == View(w.store, w.now))
  }

  lemma HoldsWhole(whole: bytes, logged: seq<Fact>, torn: bytes)
    requires States(whole, logged)
    ensures Holds(whole + torn, logged, torn)
  {
    hide States;
    assert (whole + torn)[..|whole|] == whole && (whole + torn)[|whole|..] == torn;
  }

  lemma FileHoldsWhole(whole: bytes, logged: seq<Fact>, torn: bytes, failed: bool)
    requires States(whole, logged) && TornRecord(torn) && (!failed ==> torn == [])
    ensures FileHolds(whole + torn, logged, failed)
  {
    hide States, TornRecord;
    HoldsWhole(whole, logged, torn);
  }

  lemma StartIsDurable(file: bytes, maxmemory: nat, policy: Policy, fate: Fate, now: int)
    requires Loads(file, maxmemory, policy, now)
    ensures Durable(Start(file, maxmemory, policy, fate, now))
  {
    hide Valid, Load, Stored, Unexpired, ApplyFacts, States, FileHolds, FreshStore, TornRecord;
    var empty := FreshStore(maxmemory, policy);
    LoadStates(file, empty, now);
    FreshReport(maxmemory, policy);
    StatesNothing();
    var w := Start(file, maxmemory, policy, fate, now);
    FileHoldsWhole(w.journal.file, w.logged, [], false);
    assert w.journal.file + [] == w.journal.file;
    UnexpiredLater(Recorded(w.logged), now, now);
  }

  lemma FileHoldsMore(file: bytes, logged: seq<Fact>, more: seq<Fact>, torn: bytes, failed: bool)
    requires FileHolds(file, logged, false) && AllRecordable(more) && TornRecord(torn) && (!failed ==> torn == [])
    ensures FileHolds(file + EncodeLog(more) + torn, logged + more, failed)
  {
    hide TornRecord, EncodeLog, States, AllRecordable;
    assert file[..|file|] == file;
    StatesMore(file, logged, more);
    FileHoldsWhole(file + EncodeLog(more), logged + more, torn, failed);
  }

  lemma RecordedAppend(logged: seq<Fact>, more: seq<Fact>)
    ensures Recorded(logged + more) == ApplyFacts(Recorded(logged), more)
  {
    ApplyFactsAppend(map[], logged, more);
  }

  /** A command that reaches its handler keeps the invariant, whatever becomes of its appends. */
  lemma HandledKeepsDurable(w: World, c: Command, args: seq<bytes>)
    requires Durable(w) && ArityOk(c, |args|) && !(Mutates(c) && w.journal.failed)
    ensures var o := Handle(c, w.store, w.now, args);
      Durable(w.(store := o.store, journal := AppendFacts(w.journal, o.facts).0,
                 logged := w.logged + Landed(w.journal, o.facts)))
  {
    hide Valid, View, Unexpired, Handle, EncodeLog, TornRecord, Recorded, FileHolds, AllRecordable;
    var o := Handle(c, w.store, w.now, args);
    HandleReplays(c, w.store, w.now, args);
    if w.journal.failed {
      ReadsRecordNothing(c, w.store, w.now, args);
      assert w.logged + [] == w.logged;
    } else {
      var torn := AppendFactsLand(w.journal, o.facts);
      var landed := Landed(w.journal, o.facts);
      AllRecordablePrefix(o.facts, landed);
      FileHoldsMore(w.journal.file, w.logged, landed, torn, AppendFacts(w.journal, o.facts).0.failed);
      RecordedAppend(w.logged, landed);
    }
  }

  lemma AllRecordablePrefix(facts: seq<Fact>, prefix: seq<Fact>)
    requires AllRecordable(facts) && prefix <= facts
    ensures AllRecordable(prefix)
  {
  }

  lemma ServeKeepsDurable(w: World, request: seq<bytes>)
    requires Durable(w) && |request| > 0
    ensures Durable(Serve(w, request).0)
  {
    hide Valid, View, Unexpired, Handle, RouteOf, Recorded, FileHolds, AllRecordable, UsedBy;
    match RouteOf(request)
    case Rejected(_) =>
    case Routed(c, args) =>
      if !(Mutates(c) && w.journal.failed) {
        HandledKeepsDurable(w, c, args);
      }
  }

  lemma RecoverKeepsDurable(w: World, maxmemory: nat, policy: Policy, fate: Fate)
    requires Durable(w)
    ensures Durable(Recover(w, maxmemory, policy, fate))
  {
    hide Valid, Load, Stored, Unexpired, Recorded, States, TornRecord, FreshStore;
    var torn := TornTail(w);
    var whole := w.journal.file[..|w.journal.file| - |torn|];
    LoadOfLog(whole, w.logged, torn, FreshStore(maxmemory, policy), w.now);
    FreshReport(maxmemory, policy);
    UnexpiredLater(Recorded(w.logged), w.now, w.now);
    StatesNothing();
    FileHoldsWhole(whole, w.logged, [], false);
    assert whole + [] == whole;
  }

  /** What follows the whole records in the file of a durable server. */
  lemma TornTail(w: World) returns (torn: bytes)
    requires Durable(w)
    ensures Valid(w.store) && w.journal.AppendOnlyFile? && TornRecord(torn) && (!w.journal.failed ==> torn == [])
    ensures |torn| <= |w.journal.file| && States(w.journal.file[..|w.journal.file| - |torn|], w.logged)
    ensures w.journal.file == w.journal.file[..|w.journal.file| - |torn|] + torn
  {
    hide Valid, Unexpired, Stored, Recorded, TornRecord, States;
    torn :| TornRecord(torn) && (!w.journal.failed ==> torn == []) && Holds(w.journal.file, w.logged, torn);
  }

  lemma FreshReport(maxmemory: nat, policy: Policy)
    ensures FreshStore(maxmemory, policy).evicted == []
  {
  }

  lemma StepKeepsDurable(w: World, e: Event)
    requires Durable(w)
    ensures Durable(Step(w, e))
  {
    hide Valid, Stored, Unexpired, Recorded, FileHolds, Serve, Recover, SweepExpired;
    match e
    case Request(parts) => if |parts| > 0 { ServeKeepsDurable(w, parts); }
    case Sweep(limit) => SweepIsInvisible(w.store, w.now, limit);
    case Advance(ms) =>
      UnexpiredLater(Recorded(w.logged), w.now, w.now + ms);
      UnexpiredLater(Stored(w.store), w.now, w.now + ms);
    case SyncAttempt(succeeds) => FailingKeepsFile(w.journal.file, w.logged);
    case Restart(maxmemory, policy, fate) => RecoverKeepsDurable(w, maxmemory, policy, fate);
  }

  lemma FailingKeepsFile(file: bytes, logged: seq<Fact>)
    ensures FileHolds(file, logged, false) ==> FileHolds(file, logged, true)
  {
    hide Holds, TornRecord;
  }

  /** Every reachable state is durable: over every run of commands, sweeps, clock readings, faults and restarts. */
  lemma {:induction false} RunKeepsDurable(w: World, events: seq<Event>)
    requires Durable(w)
    ensures Durable(Run(w, events))
    decreases |events|
  {
    hide Durable, Step, Valid;
    assert Valid(w.store) by { DurableIsValid(w); }
    if |events| == 0 {
    } else {
      StepKeepsDurable(w, events[0]);
      RunKeepsDurable(Step(w, events[0]), events[1..]);
    }
  }

  lemma DurableIsValid(w: World)
    requires Durable(w)
    ensures Valid(w.store) && w.journal.AppendOnlyFile?
  {
    hide Valid;
  }
}
