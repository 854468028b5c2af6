/** What every request is answered: on any journal, healthy, failing or failed, and under any memory limit. */
module Serving {
  import opened Bytes
  import opened Resp
  import opened Keyspace
  import opened StoreModel
  import opened StoreOps
  import opened Facts
  import opened Journaling
  import opened Commands
  import opened Reference
  import opened Runs
  import Durability
  import Invisible

  /** The commands that only look. */
  predicate OnlyLooks(c: Command) {
    c.Ping? || c.GetC? || c.TtlC? || c.ExistsC? || c.DbsizeC?
  }

  // -- Errors and their classes --------------------------------------------

  /** The first word of an error reply. */
  predicate OfClass(reply: Reply, class_: string) {
    && reply.Error? && |reply.text| > |class_|
    && reply.text[..|class_|] == Ascii(class_) && reply.text[|class_|] == 32
  }

  predicate PersistenceFailure(reply: Reply) {
    reply == Error(Ascii("ERR persistence failure"))
  }

  lemma ErrClass(text: bytes)
    requires |text| >= 4 && text[0] == 69 && text[1] == 82 && text[2] == 82 && text[3] == 32
    ensures OfClass(Error(text), "ERR") && !OfClass(Error(text), "OOM")
  {
    assert text[..3] == Ascii("ERR");
    assert Ascii("OOM")[0] == 79 && text[..3][0] == 69;
  }

  lemma ErrText(text: string)
    requires |text| >= 4 && text[0] == 'E' && text[1] == 'R' && text[2] == 'R' && text[3] == ' '
    ensures OfClass(Err(text), "ERR") && !OfClass(Err(text), "OOM")
  {
    hide OfClass;
    ErrClass(Ascii(text));
  }

  lemma ComposedClass(class_: string, message: string)
    ensures OfClass(Err(class_ + " " + message), class_)
  {
    var text := Ascii(class_ + " " + message);
    assert text[..|class_|] == Ascii(class_);
    assert text[|class_|] == 32;
  }

  lemma OneClass(reply: Reply)
    ensures !(OfClass(reply, "ERR") && OfClass(reply, "OOM"))
  {
    assert Ascii("ERR")[0] == 69 && Ascii("OOM")[0] == 79;
    assert OfClass(reply, "OOM") ==> reply.text[0] == reply.text[..3][0];
    assert OfClass(reply, "ERR") ==> reply.text[0] == reply.text[..3][0];
  }

  lemma StoreErrorClasses(e: StoreError)
    ensures OfClass(StoreErrorReply(e), "OOM") <==> e.OutOfMemory?
    ensures OfClass(StoreErrorReply(e), "ERR") <==> !e.OutOfMemory?
  {
    hide OfClass, Err, Message;
    ComposedClass(Prefix(e), Message(e));
    OneClass(StoreErrorReply(e));
  }

  lemma FixedErrorClasses()
    ensures OfClass(Err(SYNTAX_ERROR), "ERR") && !OfClass(Err(SYNTAX_ERROR), "OOM")
    ensures OfClass(Err(PERSISTENCE_ERROR), "ERR") && !OfClass(Err(PERSISTENCE_ERROR), "OOM")
    ensures OfClass(Err(INVALID_SET_EXPIRE), "ERR") && !OfClass(Err(INVALID_SET_EXPIRE), "OOM")
    ensures OfClass(Err(INVALID_EXPIRE), "ERR") && !OfClass(Err(INVALID_EXPIRE), "OOM")
  {
    hide OfClass, Ascii;
    ErrText(SYNTAX_ERROR);
    ErrText(PERSISTENCE_ERROR);
    ErrText(INVALID_SET_EXPIRE);
    ErrText(INVALID_EXPIRE);
  }

  /** A request that reaches no command changes nothing; its error is of class ERR, and says what was wrong. */
  lemma RejectionIsHarmless(s: Store, j: Journal, now: int, request: seq<bytes>)
    requires Valid(s) && |request| > 0 && RouteOf(request).Rejected?
    ensures var d := Dispatch(s, j, now, request);
      && d.store == s && d.journal == j && OfClass(d.reply, "ERR") && !OfClass(d.reply, "OOM")
      && forall c :: Upper(request[0]) == Upper(Ascii(Name(c))) ==>
           d.reply == Error(Ascii("ERR wrong number of arguments for '" + Name(c) + "' command"))
  {
    hide Valid, Handle, Ascii, Upper, OfClass, ArityOk;
    forall c ensures Lookup(Upper(request[0])) == Some(c) <==> Upper(request[0]) == Upper(Ascii(Name(c))) {
      TableIsByName(request[0], c);
    }
    match Lookup(Upper(request[0]))
    case None => UnknownClass(request[0], request[1..]);
    case Some(c) => ArityClass(c);
  }

  lemma UnknownClass(name: bytes, args: seq<bytes>)
    ensures OfClass(UnknownCommand(name, args), "ERR") && !OfClass(UnknownCommand(name, args), "OOM")
  {
    hide Quote, QuoteArgs, OfClass;
    var head := Ascii("ERR unknown command '");
    var text := UnknownCommand(name, args).text;
    assert |head| == 21 && head[0] == 69 && head[1] == 82 && head[2] == 82 && head[3] == 32;
    assert text[..|head|] == head;
    assert forall i :: 0 <= i < 4 ==> text[i] == text[..|head|][i];
    ErrClass(text);
  }

  lemma ArityClass(c: Command)
    ensures OfClass(WrongArity(c), "ERR") && !OfClass(WrongArity(c), "OOM")
  {
    hide OfClass, Ascii, Name;
    ErrText("ERR wrong number of arguments for '" + Name(c) + "' command");
  }

  // -- Answers -------------------------------------------------------------

  /** The file, if there is one, grew by exactly the records of `facts`. */
  predicate FileGrew(j: Journal, end: Journal, facts: seq<Fact>) {
    if j.NullJournal? then end == j else end.AppendOnlyFile? && end.file == j.file + EncodeLog(facts)
  }

  /**
   * The answer a routed command is due, and what a client then sees. A command that only looks is answered from the
   * view whatever the journal is; any other is refused if the journal had failed or memory refuses it, and otherwise
   * carried out and recorded, the answer being the documented one unless the journal failed under it.
   */
  ghost predicate Answered(
    c: Command, args: seq<bytes>, s: Store, j: Journal, now: int, end: Store, end_: Journal, reply: Reply)
    requires Valid(s) && ArityOk(c, |args|)
  {
    var view, expected := View(s, now), RefHandle(c, View(s, now), now, args);
    if OnlyLooks(c) then reply == expected.1 && View(end, now) == view && end_ == j
    else if Failed(j) then end == s && end_ == j && PersistenceFailure(reply)
    else if MemoryRefuses(c, s, now, args) then
      && OfClass(reply, "OOM")
      && View(end, now) == view && end_ == j
    else
      && (if Failed(end_) then PersistenceFailure(reply) else reply == expected.1)
      && var evicted := Handle(c, s, now, args).evicted;
         && Elements(evicted) <= view.Keys && View(end, now) == expected.0 - Elements(evicted)
         && (!Failed(end_) ==> FileGrew(j, end_, DeletedEach(evicted) + Durability.DueFacts(c, view, now, args)))
  }

  lemma LooksAreNoMutations(c: Command)
    ensures OnlyLooks(c) <==> !Mutates(c)
  {
  }

  /** All facts are accepted exactly if the journal has not failed afterwards. */
  lemma AcceptedUnlessFailed(j: Journal, facts: seq<Fact>)
    requires !Failed(j)
    ensures AppendFacts(j, facts).1 == |facts| <==> !Failed(AppendFacts(j, facts).0)
    ensures !Failed(AppendFacts(j, facts).0) ==> FileGrew(j, AppendFacts(j, facts).0, facts)
  {
    hide EncodeFact, EncodeLog;
    if j.NullJournal? {
      Invisible.NullJournalAccepts(facts);
    } else {
      var torn := AppendFactsLand(j, facts);
      assert j.file + EncodeLog(facts) + [] == j.file + EncodeLog(facts);
    }
  }

  lemma NothingAppended(j: Journal)
    ensures AppendFacts(j, []) == (j, 0)
  {
  }

  lemma LookAnswers(s: Store, j: Journal, now: int, c: Command, args: seq<bytes>, d: Dispatched)
    requires Valid(s) && s.evicted == [] && ArityOk(c, |args|) && OnlyLooks(c)
    requires var o := Handle(c, s, now, args);
      d.store == o.store && d.journal == AppendFacts(j, o.facts).0
      && d.reply == if AppendFacts(j, o.facts).1 == |o.facts| then o.reply else Err(PERSISTENCE_ERROR)
    ensures Answered(c, args, s, j, now, d.store, d.journal, d.reply)
  {
    hide Valid, View, Handle, RefHandle, MemoryRefuses, Ascii, AppendFacts;
    Durability.ReadsRecordNothing(c, s, now, args);
    NothingAppended(j);
    HandleRefines(c, s, now, args);
    LooksFitMemory(c, s, now, args);
  }

  lemma LooksFitMemory(c: Command, s: Store, now: int, args: seq<bytes>)
    requires Valid(s) && ArityOk(c, |args|)
    ensures OnlyLooks(c) ==> !MemoryRefuses(c, s, now, args)
  {
    hide Valid;
  }

  lemma WriteAnswers(s: Store, j: Journal, now: int, c: Command, args: seq<bytes>, d: Dispatched)
    requires Valid(s) && s.evicted == [] && ArityOk(c, |args|) && !OnlyLooks(c) && !Failed(j)
    requires var o := Handle(c, s, now, args);
      d.store == o.store && d.journal == AppendFacts(j, o.facts).0
      && d.reply == if AppendFacts(j, o.facts).1 == |o.facts| then o.reply else Err(PERSISTENCE_ERROR)
    ensures Answered(c, args, s, j, now, d.store, d.journal, d.reply)
  {
    hide Valid, View, Handle, RefHandle, MemoryRefuses, Ascii, AppendFacts, Elements, FileGrew, DeletedEach,
         Durability.DueFacts;
    NothingAppended(j);
    Durability.HandleRecords(c, s, now, args);
    StoreErrorClasses(OutOfMemory);
    AcceptedUnlessFailed(j, Handle(c, s, now, args).facts);
    HandleRefines(c, s, now, args);
  }

  /** Every request that reaches a command is answered as documented, on every journal and under every limit. */
  lemma DispatchAnswers(s: Store, j: Journal, now: int, request: seq<bytes>)
    requires Valid(s) && s.evicted == [] && |request| > 0 && RouteOf(request).Routed?
    ensures var d, route := Dispatch(s, j, now, request), RouteOf(request);
      Answered(route.command, route.args, s, j, now, d.store, d.journal, d.reply)
  {
    hide Valid, Handle, RouteOf, Ascii, AppendFacts;
    var Routed(c, args) := RouteOf(request);
    var d := Dispatch(s, j, now, request);
    LooksAreNoMutations(c);
    if OnlyLooks(c) {
      hide Answered;
      LookAnswers(s, j, now, c, args, d);
    } else if Failed(j) {
      assert d == Dispatched(s, j, Err(PERSISTENCE_ERROR));
    } else {
      hide Answered;
      WriteAnswers(s, j, now, c, args, d);
    }
  }

  /** The same for a request served by a running server. */
  lemma ServeAnswers(w: World, request: seq<bytes>)
    requires Valid(w.store) && w.store.evicted == [] && |request| > 0 && RouteOf(request).Routed?
    ensures var (end, reply) := Serve(w, request);
      var route := RouteOf(request);
      end.now == w.now
      && Answered(route.command, route.args, w.store, w.journal, w.now, end.store, end.journal, reply)
  {
    hide Valid, Dispatch, RouteOf, Answered, Handled, UsedBy;
    DispatchAnswers(w.store, w.journal, w.now, request);
  }

  /**
   * Service over whole runs. In every state a server reaches, from any file and across any faults and restarts, every
   * request that reaches a command is answered as documented: reads keep working after the journal has failed.
   */
  lemma RunAnswers(
    file: bytes, maxmemory: nat, policy: Policy, fate: Fate, start: int, events: seq<Event>, request: seq<bytes>)
    requires Loads(file, maxmemory, policy, start) && |request| > 0 && RouteOf(request).Routed?
    ensures var w := Run(Start(file, maxmemory, policy, fate, start), events);
      var (end, reply) := Serve(w, request);
      var route := RouteOf(request);
      Answered(route.command, route.args, w.store, w.journal, w.now, end.store, end.journal, reply)
  {
    hide Valid, Run, Start, Loads, Durable, Serve, RouteOf, Answered;
    var first := Start(file, maxmemory, policy, fate, start);
    StartIsDurable(file, maxmemory, policy, fate, start);
    RunKeepsDurable(first, events);
    var w := Run(first, events);
    DurableReport(w);
    ServeAnswers(w, request);
  }

  lemma DurableReport(w: World)
    requires Durable(w)
    ensures w.store.evicted == []
  {
    hide Valid, View, FileHolds;
  }

  // -- Out of memory -------------------------------------------------------

  lemma ReferenceNeverOom(c: Command, view: Entries, now: int, args: seq<bytes>)
    requires ArityOk(c, |args|)
    ensures !OfClass(RefHandle(c, view, now, args).1, "OOM")
  {
    hide OfClass, Err, StoreErrorReply, ParseInt, Deadline, Present, Elements, Upper, Render;
    FixedErrorClasses();
    StoreErrorClasses(NotAnInteger);
    StoreErrorClasses(IntegerOverflow);
    RepliesHaveNoClass();
  }

  lemma RepliesHaveNoClass()
    ensures forall reply: Reply :: !reply.Error? ==> !OfClass(reply, "OOM")
  {
  }

  /** OOM is the class of a write refused for want of memory, and of nothing else. */
  lemma OomMeansNoMemory(s: Store, j: Journal, now: int, request: seq<bytes>)
    requires Valid(s) && s.evicted == [] && |request| > 0
    ensures OfClass(Dispatch(s, j, now, request).reply, "OOM") <==>
      var route := RouteOf(request);
      && route.Routed? && (!OnlyLooks(route.command) ==> !Failed(j))
      && MemoryRefuses(route.command, s, now, route.args)
  {
    hide Valid, Dispatch, RouteOf, RefHandle, MemoryRefuses, OfClass, Handle, Elements, View, Ascii;
    if RouteOf(request).Rejected? {
      RejectionIsHarmless(s, j, now, request);
    } else {
      var Routed(c, args) := RouteOf(request);
      DispatchAnswers(s, j, now, request);
      ReferenceNeverOom(c, View(s, now), now, args);
      LooksFitMemory(c, s, now, args);
      StoreErrorClasses(OutOfMemory);
      FixedErrorClasses();
    }
  }
}
