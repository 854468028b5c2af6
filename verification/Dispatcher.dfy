/** Command handlers and dispatch as the program runs them: mutate the store, then append to the journal. */
module Dispatcher {
  import opened Bytes
  import opened Resp
  import opened StoreModel
  import opened Facts
  import opened Journaling
  import opened Commands
  import opened KeyValue
  import opened Aof
  import StoreOps

  /** How a handler ends: with a reply, or with one of the exceptions `dispatch` translates. */
  datatype Attempt =
    | Replied(reply: Reply)
    | PersistenceFailed
    | StoreFailed(error: StoreError)

  /** No file at all is `NO_JOURNAL`. */
  function JournalOf(journal: AppendOnlyFile?): Journal
    reads journal
  {
    if journal == null then NullJournal else journal.Model()
  }

  /** The reply `dispatch` makes of a handler's ending. */
  function Translate(a: Attempt): Reply {
    match a
    case Replied(reply) => reply
    case PersistenceFailed => Err(PERSISTENCE_ERROR)
    case StoreFailed(e) => StoreErrorReply(e)
  }

  /** What an ending must be, given the outcome of the handler and how many of its facts were accepted. */
  ghost predicate Ends(a: Attempt, o: Outcome, accepted: nat) {
    if accepted == |o.facts| then a != PersistenceFailed && Translate(a) == o.reply else a == PersistenceFailed
  }

  method AppendTo(journal: AppendOnlyFile?, record: bytes) returns (accepted: bool)
    modifies journal
    ensures (JournalOf(journal), accepted) == Append(old(JournalOf(journal)), record)
  {
    if journal == null {
      return true;
    }
    accepted := journal.Append(record);
  }

  lemma AppendOneFact(j: Journal, fact: Fact)
    ensures var (next, accepted) := Append(j, EncodeFact(fact));
      AppendFacts(j, [fact]) == (next, if accepted then 1 else 0)
  {
    hide EncodeFact, Append;
    assert [fact][1..] == [];
  }

  lemma {:induction false} AppendFactsSplit(j: Journal, xs: seq<Fact>, ys: seq<Fact>)
    ensures var (next, count) := AppendFacts(j, xs);
      AppendFacts(j, xs + ys) ==
        if count < |xs| then (next, count)
        else (AppendFacts(next, ys).0, |xs| + AppendFacts(next, ys).1)
    decreases |xs|
  {
    hide EncodeFact, Append;
    if |xs| == 0 {
      assert xs + ys == ys;
    } else {
      var (next, accepted) := Append(j, EncodeFact(xs[0]));
      AppendFactsSplit(next, xs[1..], ys);
      assert (xs + ys)[1..] == xs[1..] + ys;
    }
  }

  /** `_journal_evictions`; `false` is a `PersistenceError` from one of the appends. */
  method JournalEvictions(store: KeyValueStore, journal: AppendOnlyFile?) returns (accepted: bool)
    requires store.Valid()
    modifies store, journal
    ensures store.Valid() && store.now == old(store.now)
    ensures store.Model() == StoreOps.TakeEvicted(old(store.Model()))
    ensures var (j, count) := AppendFacts(old(JournalOf(journal)), DeletedEach(old(store.evicted)));
      JournalOf(journal) == j && (accepted <==> count == |old(store.evicted)|)
  {
    hide StoreModel.Valid, EncodeFact, Append;
    var keys := store.TakeEvicted();
    ghost var facts := DeletedEach(keys);
    ghost var start := JournalOf(journal);
    assert facts[0..] == facts;
    for i := 0 to |keys|
      invariant store.Valid() && store.now == old(store.now)
      invariant store.Model() == StoreOps.TakeEvicted(old(store.Model()))
      invariant var (j, count) := AppendFacts(JournalOf(journal), facts[i..]);
        AppendFacts(start, facts) == (j, i + count)
    {
      assert facts[i..][0] == Deleted([keys[i]]) && facts[i..][1..] == facts[i + 1..];
      accepted := AppendTo(journal, EncodeFact(Deleted([keys[i]])));
      if !accepted {
        return;
      }
    }
    accepted := true;
  }

  // -- Handlers ------------------------------------------------------------

  method HandleSetRequest(store: KeyValueStore, args: seq<bytes>, journal: AppendOnlyFile?) returns (a: Attempt)
    requires store.Valid() && |args| >= 2
    modifies store, journal
    ensures store.Valid() && store.now == old(store.now)
    ensures var o := HandleSet(old(store.Model()), store.now, args);
      var (j, accepted) := AppendFacts(old(JournalOf(journal)), o.facts);
      store.Model() == o.store && JournalOf(journal) == j && Ends(a, o, accepted)
  {
    hide StoreModel.Valid, EncodeFact, Append, Ascii, ParseInt, Upper, StoreOps.Set;
    var ttl := None;
    if |args| > 2 {
      if |args| != 4 {
        return Replied(Err(SYNTAX_ERROR));
      }
      var option := Upper(args[2]);
      if option != EX && option != PX {
        return Replied(Err(SYNTAX_ERROR));
      }
      var n := ParseInt(args[3]);
      if n.None? {
        return StoreFailed(NotAnInteger);
      }
      ttl := Some(if option == EX then n.value * MILLIS_PER_SECOND else n.value);
    }
    assert ParseSetOptions(args) == Options(ttl);
    hide ParseSetOptions, StoreErrorReply;
    var error := store.Set(args[0], args[1], ttl);
    if error == Some(InvalidExpire) {
      return Replied(Err(INVALID_SET_EXPIRE));
    }
    if error.Some? {
      return StoreFailed(error.value);
    }
    a := JournalWrite(store, args[0], args[1], Resp.OK, journal);
  }

  /** The common end of SET and INCR: the evictions, then the write itself with the deadline it has now. */
  method JournalWrite(
    store: KeyValueStore, key: bytes, value: bytes, reply: Reply, journal: AppendOnlyFile?) returns (a: Attempt)
    requires store.Valid()
    modifies store, journal
    ensures store.Valid() && store.now == old(store.now)
    ensures store.Model() == StoreOps.TakeEvicted(old(store.Model()))
    ensures var written := Written(key, value, StoreOps.DeadlineMs(old(store.Model()), key));
      var facts := DeletedEach(old(store.evicted)) + [written];
      var (j, accepted) := AppendFacts(old(JournalOf(journal)), facts);
      JournalOf(journal) == j && a == if accepted == |facts| then Replied(reply) else PersistenceFailed
  {
    hide StoreModel.Valid, EncodeFact, Append;
    ghost var deletions := DeletedEach(store.evicted);
    ghost var start := JournalOf(journal);
    var accepted := JournalEvictions(store, journal);
    var deadline := store.DeadlineMs(key);
    var written := Written(key, value, deadline);
    AppendFactsSplit(start, deletions, [written]);
    if !accepted {
      return PersistenceFailed;
    }
    AppendOneFact(JournalOf(journal), written);
    accepted := AppendTo(journal, EncodeFact(written));
    a := if accepted then Replied(reply) else PersistenceFailed;
  }

  /** Append the one fact of a command that evicts nothing. */
  method JournalOne(journal: AppendOnlyFile?, fact: Fact, reply: Reply) returns (a: Attempt)
    modifies journal
    ensures var (j, accepted) := AppendFacts(old(JournalOf(journal)), [fact]);
      JournalOf(journal) == j && a == if accepted == 1 then Replied(reply) else PersistenceFailed
  {
    hide EncodeFact, Append;
    AppendOneFact(JournalOf(journal), fact);
    var accepted := AppendTo(journal, EncodeFact(fact));
    a := if accepted then Replied(reply) else PersistenceFailed;
  }

  method HandleExpireRequest(store: KeyValueStore, args: seq<bytes>, journal: AppendOnlyFile?) returns (a: Attempt)
    requires store.Valid() && |args| == 2
    modifies store, journal
    ensures store.Valid() && store.now == old(store.now)
    ensures var o := HandleExpire(old(store.Model()), store.now, args);
      var (j, accepted) := AppendFacts(old(JournalOf(journal)), o.facts);
      store.Model() == o.store && JournalOf(journal) == j && Ends(a, o, accepted)
  {
    hide StoreModel.Valid, EncodeFact, Append, Ascii, ParseInt, StoreOps.Expire, Reduced;
    var seconds := ParseInt(args[1]);
    if seconds.None? {
      return StoreFailed(NotAnInteger);
    }
    var applied := store.Expire(args[0], seconds.value * MILLIS_PER_SECOND);
    if applied.Failure? {
      return Replied(Err(INVALID_EXPIRE));
    }
    if !applied.value {
      return Replied(Integer(0));
    }
    var deadline := store.DeadlineMs(args[0]);
    var fact := if deadline.None? then Deleted([args[0]]) else DeadlineSet(args[0], deadline.value);
    a := JournalOne(journal, fact, Integer(1));
  }

  method HandlePersistRequest(store: KeyValueStore, args: seq<bytes>, journal: AppendOnlyFile?) returns (a: Attempt)
    requires store.Valid() && |args| == 1
    modifies store, journal
    ensures store.Valid() && store.now == old(store.now)
    ensures var o := HandlePersist(old(store.Model()), store.now, args);
      var (j, accepted) := AppendFacts(old(JournalOf(journal)), o.facts);
      store.Model() == o.store && JournalOf(journal) == j && Ends(a, o, accepted)
  {
    hide StoreModel.Valid, EncodeFact, Append, StoreOps.Persist, Reduced;
    var removed := store.Persist(args[0]);
    if removed {
      a := JournalOne(journal, Persisted(args[0]), Integer(1));
    } else {
      a := Replied(Integer(0));
    }
  }

  method HandleDeleteRequest(store: KeyValueStore, args: seq<bytes>, journal: AppendOnlyFile?) returns (a: Attempt)
    requires store.Valid() && |args| >= 1
    modifies store, journal
    ensures store.Valid() && store.now == old(store.now)
    ensures var o := HandleDelete(old(store.Model()), store.now, args);
      var (j, accepted) := AppendFacts(old(JournalOf(journal)), o.facts);
      store.Model() == o.store && JournalOf(journal) == j && Ends(a, o, accepted)
  {
    hide StoreModel.Valid, EncodeFact, Append, StoreOps.Delete, Reduced;
    var removed := store.Delete(args);
    if removed > 0 {
      a := JournalOne(journal, Deleted(args), Integer(removed));
    } else {
      a := Replied(Integer(removed));
    }
  }

  method HandleIncrRequest(store: KeyValueStore, args: seq<bytes>, journal: AppendOnlyFile?) returns (a: Attempt)
    requires store.Valid() && |args| == 1
    modifies store, journal
    ensures store.Valid() && store.now == old(store.now)
    ensures var o := HandleIncr(old(store.Model()), store.now, args);
      var (j, accepted) := AppendFacts(old(JournalOf(journal)), o.facts);
      store.Model() == o.store && JournalOf(journal) == j && Ends(a, o, accepted)
  {
    hide StoreModel.Valid, EncodeFact, Append, StoreErrorReply, StoreOps.Incr, Reduced;
    var updated := store.Incr(args[0]);
    if updated.Failure? {
      return StoreFailed(updated.error);
    }
    a := JournalWrite(store, args[0], Render(updated.value), Integer(updated.value), journal);
  }

  method HandleReadRequest(c: Command, store: KeyValueStore, args: seq<bytes>) returns (a: Attempt)
    requires store.Valid() && ArityOk(c, |args|) && !Mutates(c)
    modifies store
    ensures store.Valid() && store.now == old(store.now)
    ensures var o := Handle(c, old(store.Model()), store.now, args);
      o.facts == [] && store.Model() == o.store && a == Replied(o.reply)
  {
    hide StoreModel.Valid, StoreOps.Get, StoreOps.Ttl, StoreOps.Exists, StoreOps.Dbsize, Reduced;
    match c
    case Ping => a := Replied(if |args| == 0 then PONG else Bulk(args[0]));
    case GetC =>
      var value := store.Get(args[0]);
      a := Replied(if value.None? then NullBulk else Bulk(value.value));
    case TtlC =>
      var result := store.Ttl(args[0]);
      a := Replied(TtlReply(result));
    case ExistsC =>
      var present := store.Exists(args);
      a := Replied(Integer(present));
    case DbsizeC =>
      var size := store.Dbsize();
      a := Replied(Integer(size));
  }

  method RunHandler(c: Command, store: KeyValueStore, args: seq<bytes>, journal: AppendOnlyFile?)
    returns (a: Attempt)
    requires store.Valid() && ArityOk(c, |args|)
    modifies store, journal
    ensures store.Valid() && store.now == old(store.now)
    ensures var o := Handle(c, old(store.Model()), store.now, args);
      var (j, accepted) := AppendFacts(old(JournalOf(journal)), o.facts);
      store.Model() == o.store && JournalOf(journal) == j && Ends(a, o, accepted)
  {
    hide StoreModel.Valid, EncodeFact, Append, HandleSet, HandleExpire, HandlePersist, HandleDelete, HandleIncr,
         StoreOps.FlushDb, Reduced;
    if !Mutates(c) {
      hide Handle;
      a := HandleReadRequest(c, store, args);
    } else {
      match c
      case SetC => a := HandleSetRequest(store, args, journal);
      case ExpireC => a := HandleExpireRequest(store, args, journal);
      case PersistC => a := HandlePersistRequest(store, args, journal);
      case DelC => a := HandleDeleteRequest(store, args, journal);
      case IncrC => a := HandleIncrRequest(store, args, journal);
      case FlushdbC =>
        store.FlushDb();
        a := JournalOne(journal, Flushed, Resp.OK);
    }
  }

  // -- Dispatch ------------------------------------------------------------

  /** `dispatch`: one request in, one encoded reply out, the store and the journal updated in place. */
  method DispatchRequest(store: KeyValueStore, request: seq<bytes>, journal: AppendOnlyFile?)
    returns (encoded: bytes, ghost reply: Reply)
    requires store.Valid() && |request| > 0
    modifies store, journal
    ensures store.Valid() && store.now == old(store.now)
    ensures Dispatch(old(store.Model()), old(JournalOf(journal)), store.now, request)
         == Dispatched(store.Model(), JournalOf(journal), reply)
    ensures encoded == EncodeReply(reply)
  {
    hide StoreModel.Valid, EncodeFact, Append, Handle, Ascii, UnknownCommand, WrongArity, StoreErrorReply, Upper,
         Lookup;
    var name, args := request[0], request[1..];
    var command := Lookup(Upper(name));
    if command.None? {
      reply := UnknownCommand(name, args);
      return EncodeReply(UnknownCommand(name, args)), reply;
    }
    var c := command.value;
    if !ArityOk(c, |args|) {
      reply := WrongArity(c);
      return EncodeReply(WrongArity(c)), reply;
    }
    if Mutates(c) && journal != null && journal.failed {
      reply := Err(PERSISTENCE_ERROR);
      return EncodeReply(Err(PERSISTENCE_ERROR)), reply;
    }
    var attempt := RunHandler(c, store, args, journal);
    reply := Translate(attempt);
    encoded := EncodeReply(Translate(attempt));
  }
}
