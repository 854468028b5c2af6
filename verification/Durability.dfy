/** What a command records says the same about the keyspace as what the command did to it. */
module Durability {
  import opened Bytes
  import opened Resp
  import opened Keyspace
  import opened StoreModel
  import opened Eviction
  import opened StoreOps
  import opened Facts
  import opened Commands
  import opened Reference

  lemma {:induction false} ApplyDeletedEach(m: Entries, keys: seq<bytes>)
    ensures ApplyFacts(m, DeletedEach(keys)) == m - Elements(keys)
    decreases |keys|
  {
    if |keys| == 0 {
      assert Elements(keys) == {};
    } else {
      var k, rest := keys[0], keys[1..];
      assert DeletedEach(keys) == [Deleted([k])] + DeletedEach(rest);
      ApplyDeletedEach(m - Elements([k]), rest);
      ElementsOfCons(keys);
      ElementsOfCons([k]);
      NoElements<bytes>([k][1..]);
      MinusOneMore(m, k, Elements(rest));
    }
  }

  lemma ApplyOne(m: Entries, fact: Fact)
    ensures ApplyFacts(m, [fact]) == ApplyFact(m, fact)
  {
    hide ApplyFact;
    assert ApplyFacts(ApplyFact(m, fact), []) == ApplyFact(m, fact);
  }

  /** An evicting write, as recorded: the victims' deletions, then the write. */
  lemma WriteReplays(m: Entries, now: int, evicted: seq<bytes>, k: bytes, e: Entry)
    requires !Expired(e, now)
    ensures Unexpired(ApplyFacts(m, DeletedEach(evicted) + [Written(k, e.value, e.deadline)]), now)
         == (Unexpired(m, now) - Elements(evicted))[k := e]
  {
    hide Unexpired, Elements;
    ApplyFactsAppend(m, DeletedEach(evicted), [Written(k, e.value, e.deadline)]);
    ApplyDeletedEach(m, evicted);
    ApplyOne(m - Elements(evicted), Written(k, e.value, e.deadline));
    UnexpiredMinus(m, Elements(evicted), now);
    UnexpiredPut(m - Elements(evicted), k, e, now);
  }

  lemma WriteRecordable(evicted: seq<bytes>, fact: Fact)
    requires Recordable(fact)
    ensures AllRecordable(DeletedEach(evicted) + [fact])
  {
  }

  lemma NewDeadlineIsAhead(now: int, ttl: int)
    ensures Deadline(now, ttl).Some? ==> Deadline(now, ttl).value > now
  {
  }

  /** The facts of an outcome, replayed on any log that agrees with the view, agree with the new view. */
  ghost predicate Replays(s: Store, now: int, o: Outcome) {
    && AllRecordable(o.facts)
    && forall m: Entries :: Unexpired(m, now) == View(s, now) ==>
         Unexpired(ApplyFacts(m, o.facts), now) == View(o.store, now)
  }

  lemma WriteOutcomeReplays(s: Store, now: int, evicted: seq<bytes>, k: bytes, e: Entry, o: Outcome)
    requires !Expired(e, now) && o.facts == DeletedEach(evicted) + [Written(k, e.value, e.deadline)]
    requires View(o.store, now) == (View(s, now) - Elements(evicted))[k := e]
    ensures Replays(s, now, o)
  {
    hide View, Unexpired, Expired, Elements, DeletedEach, ApplyFacts, AllRecordable;
    WriteRecordable(evicted, Written(k, e.value, e.deadline));
    forall m: Entries | Unexpired(m, now) == View(s, now)
      ensures Unexpired(ApplyFacts(m, o.facts), now) == View(o.store, now)
    {
      WriteReplays(m, now, evicted, k, e);
    }
  }

  lemma SetReplays(s: Store, now: int, args: seq<bytes>)
    requires Valid(s) && s.evicted == [] && ArityOk(SetC, |args|)
    ensures Replays(s, now, HandleSet(s, now, args))
  {
    hide Valid, Set, View, Unexpired, Elements, Ascii, Refused, ParseSetOptions, DeletedEach, ApplyFacts;
    var options, o := ParseSetOptions(args), HandleSet(s, now, args);
    forall m: Entries | true ensures ApplyFacts(m, []) == m { ApplyNothing(m); }
    if options.Options? {
      var k, v := args[0], args[1];
      SetView(s, now, k, v, options.ttl);
      var (end, error) := Set(s, now, k, v, options.ttl);
      if error.None? {
        var deadline := if options.ttl.None? then None else Deadline(now, options.ttl.value);
        DrainedReport(s, end, now);
        WriteOutcomeReplays(s, now, end.evicted, k, Entry(v, deadline), o);
      }
    }
  }

  lemma ApplyNothing(m: Entries)
    ensures ApplyFacts(m, []) == m
  {
  }

  lemma SeenDeadlineIsAhead(s: Store, now: int, k: bytes, v: bytes)
    ensures !Expired(Entry(v, SeenDeadline(View(s, now), k)), now)
  {
    hide Stored;
  }

  lemma IncrReplays(s: Store, now: int, args: seq<bytes>)
    requires Valid(s) && s.evicted == [] && ArityOk(IncrC, |args|)
    ensures Replays(s, now, HandleIncr(s, now, args))
  {
    hide Valid, Incr, View, Unexpired, Reduced, Replays, StoreErrorReply;
    if Incr(s, now, args[0]).1.Success? {
      IncrSuccessReplays(s, now, args);
    } else {
      IncrFailureView(s, now, args[0]);
      NothingReplays(s, now, HandleIncr(s, now, args));
    }
  }

  lemma IncrSuccessReplays(s: Store, now: int, args: seq<bytes>)
    requires Valid(s) && s.evicted == [] && ArityOk(IncrC, |args|) && Incr(s, now, args[0]).1.Success?
    ensures Replays(s, now, HandleIncr(s, now, args))
  {
    hide Valid, Incr, View, Expired, Elements, DeletedEach, Render, SeenDeadline, Reduced, Replays, DeadlineMs,
         HandleIncr;
    var k := args[0];
    var (end, updated) := Incr(s, now, k);
    var v, deadline := Render(updated.value), SeenDeadline(View(s, now), k);
    IncrSuccessView(s, now, k);
    SeenDeadlineIsAhead(s, now, k, v);
    DrainedReport(s, end, now);
    IncrOutcome(s, now, args);
    WriteOutcomeReplays(s, now, end.evicted, k, Entry(v, deadline), HandleIncr(s, now, args));
  }

  lemma IncrOutcome(s: Store, now: int, args: seq<bytes>)
    requires Valid(s) && ArityOk(IncrC, |args|) && Incr(s, now, args[0]).1.Success?
    ensures var (end, updated) := Incr(s, now, args[0]);
      HandleIncr(s, now, args) ==
        Outcome(end.(evicted := []), end.evicted,
                DeletedEach(end.evicted) + [Written(args[0], Render(updated.value), DeadlineMs(end, args[0]))],
                Integer(updated.value))
  {
    hide Valid, Incr, DeletedEach, Render, DeadlineMs, Reduced;
  }

  lemma DeadlineReplays(m: Entries, now: int, k: bytes, deadline: Option<int>)
    requires k in Unexpired(m, now) && !Expired(Entry([], deadline), now)
    ensures k in m
    ensures Unexpired(m[k := m[k].(deadline := deadline)], now)
         == Unexpired(m, now)[k := Unexpired(m, now)[k].(deadline := deadline)]
  {
  }

  lemma ExpireReplays(s: Store, now: int, args: seq<bytes>)
    requires Valid(s) && ArityOk(ExpireC, |args|)
    ensures Replays(s, now, HandleExpire(s, now, args))
  {
    hide Valid, Expire, View, Unexpired, ParseInt, Ascii, Reduced, Deadline, DeadlineMs;
    var k, seconds, o := args[0], ParseInt(args[1]), HandleExpire(s, now, args);
    if seconds.Some? {
      var ttl := seconds.value * MILLIS_PER_SECOND;
      ExpireView(s, now, k, ttl);
      NewDeadlineIsAhead(now, ttl);
      forall m: Entries | Unexpired(m, now) == View(s, now)
        ensures Unexpired(ApplyFacts(m, o.facts), now) == View(o.store, now)
      {
        if |o.facts| == 1 {
          ApplyOne(m, o.facts[0]);
          if ttl <= 0 {
            ElementsOfCons([k]);
            UnexpiredMinus(m, {k}, now);
            assert Elements([k]) == {k};
          } else {
            DeadlineReplays(m, now, k, Deadline(now, ttl));
          }
        }
      }
    }
  }

  lemma PersistReplays(s: Store, now: int, args: seq<bytes>)
    requires Valid(s) && ArityOk(PersistC, |args|)
    ensures Replays(s, now, HandlePersist(s, now, args))
  {
    hide Valid, Persist, View, Unexpired, Reduced;
    var k, o := args[0], HandlePersist(s, now, args);
    PersistView(s, now, k);
    forall m: Entries | Unexpired(m, now) == View(s, now)
      ensures Unexpired(ApplyFacts(m, o.facts), now) == View(o.store, now)
    {
      if |o.facts| == 1 {
        ApplyOne(m, o.facts[0]);
        DeadlineReplays(m, now, k, None);
      }
    }
  }

  lemma DeleteReplays(s: Store, now: int, args: seq<bytes>)
    requires Valid(s) && ArityOk(DelC, |args|)
    ensures Replays(s, now, HandleDelete(s, now, args))
  {
    hide Valid, Delete, View, Unexpired, Elements, Reduced;
    var o := HandleDelete(s, now, args);
    DeleteView(s, now, args);
    forall m: Entries | Unexpired(m, now) == View(s, now)
      ensures Unexpired(ApplyFacts(m, o.facts), now) == View(o.store, now)
    {
      if |o.facts| == 1 {
        ApplyOne(m, o.facts[0]);
        UnexpiredMinus(m, Elements(args), now);
      } else {
        NothingDeleted(View(s, now), Elements(args));
      }
    }
  }

  lemma NothingDeleted(view: Entries, gone: set<bytes>)
    requires |gone * view.Keys| == 0
    ensures view - gone == view
  {
    forall k | k in view ensures k !in gone {
      assert k in gone ==> k in gone * view.Keys;
    }
  }

  lemma FlushReplays(s: Store, now: int)
    requires Valid(s)
    ensures Replays(s, now, Outcome(FlushDb(s), [], [Flushed], OK))
  {
    hide Valid, View, FlushDb;
    FlushView(s, now);
    forall m: Entries | true ensures Unexpired(ApplyFacts(m, [Flushed]), now) == map[] { ApplyOne(m, Flushed); }
  }

  lemma NothingReplays(s: Store, now: int, o: Outcome)
    requires o.facts == [] && View(o.store, now) == View(s, now)
    ensures Replays(s, now, o)
  {
    hide View, Unexpired;
  }

  /** Commands not flagged as mutating record nothing and leave the client's view as it was. */
  lemma ReadsRecordNothing(c: Command, s: Store, now: int, args: seq<bytes>)
    requires Valid(s) && ArityOk(c, |args|) && !Mutates(c)
    ensures Handle(c, s, now, args).facts == []
    ensures View(Handle(c, s, now, args).store, now) == View(s, now)
  {
    hide Valid, View, Get, Ttl, Dbsize, Exists, Reduced;
    match c
    case Ping =>
    case GetC => GetView(s, now, args[0]);
    case TtlC => TtlView(s, now, args[0]);
    case ExistsC => ExistsView(s, now, args);
    case DbsizeC => DbsizeView(s, now);
  }

  /** Every command, refused or not, records exactly what it did: replay can stand in for the live store. */
  lemma HandleReplays(c: Command, s: Store, now: int, args: seq<bytes>)
    requires Valid(s) && s.evicted == [] && ArityOk(c, |args|)
    ensures Replays(s, now, Handle(c, s, now, args))
  {
    if !Mutates(c) {
      hide Valid, View, Replays, Handle;
      ReadsRecordNothing(c, s, now, args);
      NothingReplays(s, now, Handle(c, s, now, args));
    } else {
      hide Valid, View, Replays, HandleSet, HandleIncr, HandleExpire, HandlePersist, HandleDelete, Reduced, FlushDb;
      match c
      case SetC => SetReplays(s, now, args);
      case IncrC => IncrReplays(s, now, args);
      case ExpireC => ExpireReplays(s, now, args);
      case PersistC => PersistReplays(s, now, args);
      case DelC => DeleteReplays(s, now, args);
      case FlushdbC => FlushReplays(s, now);
    }
  }

  // -- Nothing more and nothing less is recorded ---------------------------

  /** The entry of `k` as a fact. */
  function EntryFact(view: Entries, k: bytes): seq<Fact> {
    if k in view then [Written(k, view[k].value, view[k].deadline)] else []
  }

  /** What a carried-out command records besides its evictions: what it led to, and nothing when nothing came of it. */
  function DueFacts(c: Command, view: Entries, now: int, args: seq<bytes>): seq<Fact>
    requires ArityOk(c, |args|)
  {
    var (after, reply) := RefHandle(c, view, now, args);
    if reply.Error? || (reply == Integer(0) && !c.IncrC?) then []
    else
      match c
      case SetC => EntryFact(after, args[0])
      case IncrC => EntryFact(after, args[0])
      case ExpireC =>
        if args[0] !in after then [Deleted([args[0]])]
        else if after[args[0]].deadline.Some? then [DeadlineSet(args[0], after[args[0]].deadline.value)]
        else []
      case PersistC => [Persisted(args[0])]
      case DelC => [Deleted(args)]
      case FlushdbC => [Flushed]
      case _ => []
  }

  /** An outcome records one deletion for each key it evicted, in order, and then `due`. */
  ghost predicate Records(o: Outcome, due: seq<Fact>) {
    o.facts == DeletedEach(o.evicted) + due
  }

  lemma NoEvictions(due: seq<Fact>)
    ensures DeletedEach([]) + due == due
  {
    assert DeletedEach([]) == [];
  }

  lemma SetRecords(s: Store, now: int, args: seq<bytes>)
    requires Valid(s) && s.evicted == [] && ArityOk(SetC, |args|) && !MemoryRefuses(SetC, s, now, args)
    ensures Records(HandleSet(s, now, args), DueFacts(SetC, View(s, now), now, args))
  {
    hide Valid, Set, View, Ascii, Refused, ParseSetOptions, DeletedEach, Elements;
    NoEvictions([]);
    BadOptionsAreErrors(args);
    var options := ParseSetOptions(args);
    if options.Options? {
      SetView(s, now, args[0], args[1], options.ttl);
      DrainedReport(s, Set(s, now, args[0], args[1], options.ttl).0, now);
    }
  }

  lemma BadOptionsAreErrors(args: seq<bytes>)
    ensures ParseSetOptions(args).BadOptions? ==> ParseSetOptions(args).reply.Error?
    ensures Err(INVALID_SET_EXPIRE).Error?
  {
  }

  lemma IncrRecords(s: Store, now: int, args: seq<bytes>)
    requires Valid(s) && s.evicted == [] && ArityOk(IncrC, |args|) && !MemoryRefuses(IncrC, s, now, args)
    ensures Records(HandleIncr(s, now, args), DueFacts(IncrC, View(s, now), now, args))
  {
    hide Valid, Incr, View, IncrRefused, SeenCurrent, SeenDeadline, Elements, Render, Reduced, StoreErrorReply,
         DeletedEach, DeadlineMs;
    NoEvictions([]);
    StoreErrorsAreErrors();
    var k := args[0];
    IncrErrors(s, now, k);
    var (end, updated) := Incr(s, now, k);
    if updated.Success? {
      IncrSuccessView(s, now, k);
      DrainedReport(s, end, now);
    } else {
      var e := updated.error;
      assert updated == Failure(e) && !e.OutOfMemory?;
      assert RefIncr(View(s, now), k) == (View(s, now), StoreErrorReply(e));
      assert HandleIncr(s, now, args) == Outcome(end, [], [], StoreErrorReply(e));
      assert DueFacts(IncrC, View(s, now), now, args) == [];
    }
  }

  lemma StoreErrorsAreErrors()
    ensures forall e :: StoreErrorReply(e).Error?
  {
  }

  lemma ExpireRecords(s: Store, now: int, args: seq<bytes>)
    requires Valid(s) && ArityOk(ExpireC, |args|)
    ensures Records(HandleExpire(s, now, args), DueFacts(ExpireC, View(s, now), now, args))
  {
    hide Valid, Expire, View, ParseInt, Ascii, Reduced, Deadline, DeadlineMs, DeletedEach;
    var seconds, due := ParseInt(args[1]), DueFacts(ExpireC, View(s, now), now, args);
    NoEvictions(due);
    StoreErrorsAreErrors();
    if seconds.Some? {
      ExpireView(s, now, args[0], seconds.value * MILLIS_PER_SECOND);
    }
  }

  lemma PersistRecords(s: Store, now: int, args: seq<bytes>)
    requires Valid(s) && ArityOk(PersistC, |args|)
    ensures Records(HandlePersist(s, now, args), DueFacts(PersistC, View(s, now), now, args))
  {
    hide Valid, Persist, View, Reduced, DeletedEach;
    NoEvictions(DueFacts(PersistC, View(s, now), now, args));
    PersistView(s, now, args[0]);
  }

  lemma DeleteRecords(s: Store, now: int, args: seq<bytes>)
    requires Valid(s) && ArityOk(DelC, |args|)
    ensures Records(HandleDelete(s, now, args), DueFacts(DelC, View(s, now), now, args))
  {
    hide Valid, Delete, View, Elements, Reduced, DeletedEach;
    NoEvictions(DueFacts(DelC, View(s, now), now, args));
    DeleteView(s, now, args);
  }

  lemma ReadsAreNotDue(c: Command, view: Entries, now: int, args: seq<bytes>)
    requires ArityOk(c, |args|) && !Mutates(c)
    ensures DueFacts(c, view, now, args) == []
  {
    hide RefHandle;
  }

  lemma ReadsEvictNothing(c: Command, s: Store, now: int, args: seq<bytes>)
    requires Valid(s) && ArityOk(c, |args|) && !Mutates(c)
    ensures Handle(c, s, now, args).evicted == []
  {
    hide Valid, Get, Ttl, Dbsize, Exists, Reduced;
  }

  /**
   * Exact recording. A command that memory does not refuse records one deletion for each key it evicted and then what
   * the reference machine led to; an error is not recorded, nor is a command that answers that it changed nothing.
   */
  lemma HandleRecords(c: Command, s: Store, now: int, args: seq<bytes>)
    requires Valid(s) && s.evicted == [] && ArityOk(c, |args|)
    ensures MemoryRefuses(c, s, now, args) ==> Handle(c, s, now, args).facts == []
    ensures !MemoryRefuses(c, s, now, args) ==>
      Records(Handle(c, s, now, args), DueFacts(c, View(s, now), now, args))
  {
    hide Valid, View, DueFacts, Records, MemoryRefuses, Handle, RefHandle, Elements;
    if MemoryRefuses(c, s, now, args) {
      HandleRefines(c, s, now, args);
    } else if !Mutates(c) {
      ReadsRecordNothing(c, s, now, args);
      ReadsEvictNothing(c, s, now, args);
      ReadsAreNotDue(c, View(s, now), now, args);
      assert Records(Handle(c, s, now, args), []) by { NothingRecorded(Handle(c, s, now, args)); }
    } else {
      MutationRecords(c, s, now, args);
    }
  }

  lemma NothingRecorded(o: Outcome)
    requires o.facts == [] && o.evicted == []
    ensures Records(o, [])
  {
    NoEvictions([]);
  }

  lemma MutationRecords(c: Command, s: Store, now: int, args: seq<bytes>)
    requires Valid(s) && s.evicted == [] && ArityOk(c, |args|) && Mutates(c) && !MemoryRefuses(c, s, now, args)
    ensures Records(Handle(c, s, now, args), DueFacts(c, View(s, now), now, args))
  {
    hide Valid, View, HandleSet, HandleIncr, HandleExpire, HandlePersist, HandleDelete, MemoryRefuses, Records, FlushDb,
         Reduced;
    match c
    case SetC => SetRecords(s, now, args);
    case IncrC => IncrRecords(s, now, args);
    case ExpireC => ExpireRecords(s, now, args);
    case PersistC => PersistRecords(s, now, args);
    case DelC => DeleteRecords(s, now, args);
    case FlushdbC => FlushRecords(s, now, args);
  }

  lemma FlushRecords(s: Store, now: int, args: seq<bytes>)
    requires Valid(s) && ArityOk(FlushdbC, |args|)
    ensures Records(Handle(FlushdbC, s, now, args), DueFacts(FlushdbC, View(s, now), now, args))
  {
    hide Valid, View, FlushDb, DeletedEach;
    NoEvictions([Flushed]);
  }
}
