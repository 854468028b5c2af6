/** After the journal has failed: nothing is recorded, no mutation touches the store, and only time removes keys. */
module FailStop {
  import opened Bytes
  import opened Keyspace
  import opened StoreModel
  import opened StoreOps
  import opened Sweep
  import opened Journaling
  import opened Commands
  import Durability
  import opened Runs

  lemma OnlyExpiredGoneRefl(s: Store, now: int)
    ensures OnlyExpiredGone(s, s, now)
  {
  }

  lemma OnlyExpiredGoneSame(s: Store, t: Store, now: int)
    requires Stored(s) == Stored(t)
    ensures OnlyExpiredGone(s, t, now)
  {
  }

  lemma DropIfExpiredOnly(s: Store, now: int, k: bytes)
    requires Valid(s)
    ensures OnlyExpiredGone(s, DropIfExpired(s, now, k), now)
  {
    hide Valid, Stored, DropIfExpired;
    DropIfExpiredStored(s, now, k);
  }

  lemma {:induction false} ExistsOnlyExpires(s: Store, now: int, keys: seq<bytes>)
    requires Valid(s)
    ensures OnlyExpiredGone(s, Exists(s, now, keys).0, now)
    decreases |keys|
  {
    hide Valid, DropIfExpired, OnlyExpiredGone, Reduced;
    if |keys| == 0 {
      OnlyExpiredGoneRefl(s, now);
    } else {
      var live := DropIfExpired(s, now, keys[0]);
      DropIfExpiredOnly(s, now, keys[0]);
      ExistsOnlyExpires(live, now, keys[1..]);
      OnlyExpiredGoneTrans(s, live, Exists(live, now, keys[1..]).0, now);
    }
  }

  lemma DropExpiredOnly(s: Store, now: int)
    requires Valid(s)
    ensures OnlyExpiredGone(s, DropExpired(s, now), now)
  {
    hide Valid, Stored, DropExpired;
    DropExpiredStored(s, now);
  }

  /** A command not flagged as mutating removes nothing that has not expired, and adds and changes nothing. */
  lemma ReadsOnlyExpire(c: Command, s: Store, now: int, args: seq<bytes>)
    requires Valid(s) && ArityOk(c, |args|) && !Mutates(c)
    ensures OnlyExpiredGone(s, Handle(c, s, now, args).store, now)
  {
    hide Valid, Stored, DropIfExpired, DropExpired, OnlyExpiredGone, Exists, Reduced;
    match c
    case Ping => OnlyExpiredGoneRefl(s, now);
    case GetC =>
      var live := DropIfExpired(s, now, args[0]);
      DropIfExpiredOnly(s, now, args[0]);
      if args[0] in live.data.vals {
        OnlyExpiredGoneSame(live, Touch(live, args[0]), now);
        OnlyExpiredGoneTrans(s, live, Touch(live, args[0]), now);
      }
    case TtlC => DropIfExpiredOnly(s, now, args[0]);
    case ExistsC => ExistsOnlyExpires(s, now, args);
    case DbsizeC => DropExpiredOnly(s, now);
  }

  /** With the journal failed, a request for a mutating command is refused with the store untouched. */
  lemma MutationsRefused(s: Store, j: Journal, now: int, request: seq<bytes>)
    requires Valid(s) && |request| > 0 && Failed(j)
    requires Lookup(Upper(request[0])).Some? && Mutates(Lookup(Upper(request[0])).value)
    ensures var d := Dispatch(s, j, now, request);
      && d.store == s && d.journal == j
      && (ArityOk(Lookup(Upper(request[0])).value, |request| - 1) ==> d.reply == Err(PERSISTENCE_ERROR))
      && d.reply.Error?
  {
    hide Valid, Handle, Ascii;
  }

  predicate NoRestart(events: seq<Event>) {
    forall i :: 0 <= i < |events| ==> !events[i].Restart?
  }

  /** The journal is latched and every key that went missing had expired. */
  ghost predicate Latched(w: World, v: World) {
    && v.journal == w.journal && v.logged == w.logged && w.now <= v.now
    && OnlyExpiredGone(w.store, v.store, v.now)
  }

  lemma LatchedStep(w: World, e: Event)
    requires Valid(w.store) && Failed(w.journal) && !e.Restart?
    ensures Latched(w, Step(w, e))
  {
    hide Valid, Stored, Handle, Ascii, OnlyExpiredGone, SweepExpired, UsedBy, Reduced;
    OnlyExpiredGoneRefl(w.store, w.now);
    match e
    case Request(parts) =>
      if |parts| > 0 {
        match RouteOf(parts)
        case Rejected(_) =>
        case Routed(c, args) =>
          if !Mutates(c) {
            ReadsOnlyExpire(c, w.store, w.now, args);
            Durability.ReadsRecordNothing(c, w.store, w.now, args);
          }
      }
    case Sweep(limit) => SweepIsInvisible(w.store, w.now, limit);
    case Advance(ms) => OnlyExpiredGoneRefl(w.store, w.now + ms);
    case SyncAttempt(_) =>
  }

  lemma LatchedTrans(u: World, v: World, w: World)
    requires Latched(u, v) && Latched(v, w)
    ensures Latched(u, w)
  {
    hide Stored;
  }

  /**
   * Fail-stop. Once the journal has failed, in every continuation short of a restart it stays failed, the file
   * and the log never change again, and the keyspace changes by expiry alone.
   */
  lemma {:induction false} FailureIsLatched(w: World, events: seq<Event>)
    requires Valid(w.store) && Failed(w.journal) && NoRestart(events)
    ensures Latched(w, Run(w, events))
    ensures View(Run(w, events).store, Run(w, events).now) == View(w.store, Run(w, events).now)
    decreases |events|
  {
    hide Valid, Stored, Step, Unexpired, OnlyExpiredGone;
    if |events| == 0 {
      OnlyExpiredGoneRefl(w.store, w.now);
    } else {
      LatchedStep(w, events[0]);
      FailureIsLatched(Step(w, events[0]), events[1..]);
      LatchedTrans(w, Step(w, events[0]), Run(w, events));
    }
    OnlyExpiredGoneView(w.store, Run(w, events).store, Run(w, events).now);
  }
}
