/** With unlimited memory, clients cannot tell when, or how, expired keys are reclaimed. */
module Invisible {
  import opened Bytes
  import opened Resp
  import opened Keyspace
  import opened StoreModel
  import opened StoreOps
  import opened Sweep
  import opened Facts
  import opened Journaling
  import opened Commands
  import opened Reference

  /** What happens to a store, in order: requests and passing time, and reclamation in between. */
  datatype Item =
    | Ask(request: seq<bytes>)
    | Wait(ms: nat)
    | SweepNow(limit: nat)
    | CollectNow

  predicate WellFormed(script: seq<Item>) {
    forall i :: 0 <= i < |script| ==> script[i].Ask? ==> |script[i].request| > 0
  }

  /** The store and the clock at the end of the script, and the replies on the way. */
  function Play(s: Store, now: int, script: seq<Item>): (r: (Store, int, seq<Reply>))
    requires Valid(s) && WellFormed(script)
    ensures Valid(r.0)
    decreases |script|
  {
    hide Valid, Dispatch, SweepExpired, DropExpired;
    if |script| == 0 then (s, now, [])
    else
      match script[0]
      case Ask(request) =>
        var d := Dispatch(s, NullJournal, now, request);
        var (end, clock, replies) := Play(d.store, now, script[1..]);
        (end, clock, [d.reply] + replies)
      case Wait(ms) => Play(s, now + ms, script[1..])
      case SweepNow(limit) => Play(SweepExpired(s, now, limit).0, now, script[1..])
      case CollectNow => Play(DropExpired(s, now), now, script[1..])
  }

  /** The reference machine's answer to a request. */
  function RefDispatch(view: Entries, now: int, request: seq<bytes>): (Entries, Reply)
    requires |request| > 0
  {
    match RouteOf(request)
    case Rejected(reply) => (view, reply)
    case Routed(c, args) => RefHandle(c, view, now, args)
  }

  /** The script on the reference machine, which has nothing to reclaim. */
  function RefPlay(view: Entries, now: int, script: seq<Item>): (Entries, int, seq<Reply>)
    requires WellFormed(script)
    decreases |script|
  {
    if |script| == 0 then (view, now, [])
    else
      match script[0]
      case Ask(request) =>
        var (next, reply) := RefDispatch(view, now, request);
        var (end, clock, replies) := RefPlay(next, now, script[1..]);
        (end, clock, [reply] + replies)
      case Wait(ms) => RefPlay(Unexpired(view, now + ms), now + ms, script[1..])
      case _ => RefPlay(view, now, script[1..])
  }

  lemma {:induction false} NullJournalAccepts(facts: seq<Fact>)
    ensures AppendFacts(NullJournal, facts) == (NullJournal, |facts|)
    decreases |facts|
  {
    hide EncodeFact;
    if |facts| == 0 {
    } else {
      NullJournalAccepts(facts[1..]);
    }
  }

  lemma UnlimitedSet(s: Store, now: int, k: bytes, v: bytes, ttl: Option<int>)
    requires Valid(s) && s.maxmemory == 0
    ensures Set(s, now, k, v, ttl).0.evicted == s.evicted
  {
    hide Valid, Overwrite;
  }

  lemma UnlimitedIncr(s: Store, now: int, k: bytes)
    requires Valid(s) && s.maxmemory == 0
    ensures Incr(s, now, k).0.evicted == s.evicted
  {
    hide Valid, DropIfExpired, Write, Touch, Reduced;
  }

  /** Without a limit nothing is refused and nothing is evicted. */
  lemma UnlimitedOutcome(c: Command, s: Store, now: int, args: seq<bytes>)
    requires Valid(s) && s.maxmemory == 0 && s.evicted == [] && ArityOk(c, |args|)
    ensures !MemoryRefuses(c, s, now, args) && Handle(c, s, now, args).evicted == []
  {
    hide Valid, Set, Incr, Get, Delete, Exists, Expire, Persist, Ttl, Dbsize, FlushDb, StoreErrorReply, Err,
         ParseSetOptions, Reduced;
    match c
    case SetC =>
      var options := ParseSetOptions(args);
      if options.Options? { UnlimitedSet(s, now, args[0], args[1], options.ttl); }
    case IncrC => UnlimitedIncr(s, now, args[0]);
    case _ =>
  }

  lemma DispatchRefines(s: Store, now: int, request: seq<bytes>)
    requires Valid(s) && s.maxmemory == 0 && s.evicted == [] && |request| > 0
    ensures var d := Dispatch(s, NullJournal, now, request);
      && d.reply == RefDispatch(View(s, now), now, request).1
      && View(d.store, now) == RefDispatch(View(s, now), now, request).0
  {
    hide Valid, View, Handle, RefHandle, RouteOf, MemoryRefuses;
    match RouteOf(request)
    case Rejected(_) =>
    case Routed(c, args) =>
      NullJournalAccepts(Handle(c, s, now, args).facts);
      UnlimitedOutcome(c, s, now, args);
      HandleRefines(c, s, now, args);
      MinusNothing(RefHandle(c, View(s, now), now, args).0);
  }

  /** Every script plays on the store as it does on the reference machine started from the client's view. */
  lemma {:induction false} PlayRefines(s: Store, now: int, script: seq<Item>)
    requires Valid(s) && s.maxmemory == 0 && s.evicted == [] && WellFormed(script)
    ensures var (end, clock, replies) := Play(s, now, script);
      RefPlay(View(s, now), now, script) == (View(end, clock), clock, replies)
    decreases |script|
  {
    hide Valid, Stored, Unexpired, Dispatch, SweepExpired, DropExpired, RefDispatch, Reduced;
    if |script| == 0 {
    } else {
      var rest := script[1..];
      match script[0]
      case Ask(request) =>
        DispatchRefines(s, now, request);
        PlayRefines(Dispatch(s, NullJournal, now, request).store, now, rest);
      case Wait(ms) =>
        UnexpiredLater(Stored(s), now, now + ms);
        PlayRefines(s, now + ms, rest);
      case SweepNow(limit) =>
        SweepIsInvisible(s, now, limit);
        PlayRefines(SweepExpired(s, now, limit).0, now, rest);
      case CollectNow =>
        DropExpiredStored(s, now);
        PlayRefines(DropExpired(s, now), now, rest);
    }
  }

  /** The script without its reclamation. */
  function Erase(script: seq<Item>): (r: seq<Item>)
    requires WellFormed(script)
    ensures WellFormed(r)
    decreases |script|
  {
    if |script| == 0 then []
    else if script[0].Ask? || script[0].Wait? then [script[0]] + Erase(script[1..])
    else Erase(script[1..])
  }

  lemma {:induction false} ReferenceIgnoresReclamation(view: Entries, now: int, script: seq<Item>)
    requires WellFormed(script)
    ensures RefPlay(view, now, script) == RefPlay(view, now, Erase(script))
    decreases |script|
  {
    hide RefDispatch, Unexpired;
    if |script| == 0 {
    } else {
      var rest := script[1..];
      match script[0]
      case Ask(request) =>
        assert Erase(script)[1..] == Erase(rest);
        ReferenceIgnoresReclamation(RefDispatch(view, now, request).0, now, rest);
      case Wait(ms) =>
        assert Erase(script)[1..] == Erase(rest);
        ReferenceIgnoresReclamation(Unexpired(view, now + ms), now + ms, rest);
      case _ => ReferenceIgnoresReclamation(view, now, rest);
    }
  }

  /**
   * Reclamation is invisible. Two stores a client cannot tell apart now give the same replies and the same
   * later views to the same requests at the same times, whatever lazy drops, collections and sweeps each sees.
   */
  lemma ReclamationIsInvisible(s: Store, t: Store, now: int, x: seq<Item>, y: seq<Item>)
    requires Valid(s) && s.maxmemory == 0 && s.evicted == []
    requires Valid(t) && t.maxmemory == 0 && t.evicted == []
    requires View(s, now) == View(t, now)
    requires WellFormed(x) && WellFormed(y) && Erase(x) == Erase(y)
    ensures var (send, sclock, sreplies) := Play(s, now, x);
      var (tend, tclock, treplies) := Play(t, now, y);
      sreplies == treplies && sclock == tclock && View(send, sclock) == View(tend, tclock)
  {
    hide Valid, View, Play, RefPlay, Erase, WellFormed;
    PlayRefines(s, now, x);
    PlayRefines(t, now, y);
    ReferenceIgnoresReclamation(View(s, now), now, x);
    ReferenceIgnoresReclamation(View(t, now), now, y);
  }
}
