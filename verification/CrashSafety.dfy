/** What a restart brings back: the durability, crash-safety and repair theorems over whole runs. */
module CrashSafety {
  import opened Bytes
  import opened LogFormat
  import opened Keyspace
  import opened StoreModel
  import opened StoreOps
  import opened Sweep
  import opened Facts
  import opened Journaling
  import opened Commands
  import opened Durability
  import opened Runs
  import Ceiling

  /** Recovery of a durable file into any fresh store gives what `logged` describes, less what has expired. */
  lemma DurableFileLoads(w: World, maxmemory: nat, policy: Policy, later: int)
    requires Durable(w)
    ensures Loads(w.journal.file, maxmemory, policy, later)
    ensures var l := Load(w.journal.file, FreshStore(maxmemory, policy), later).value;
      && l.file <= w.journal.file && States(l.file, w.logged)
      && (!w.journal.failed ==> l.file == w.journal.file)
      && Stored(l.store) == Unexpired(Recorded(w.logged), later)
      && l.result.records == |w.logged|
  {
    hide Valid, Load, Stored, View, Unexpired, Recorded, States, TornRecord, FreshStore;
    var torn := TornTail(w);
    var whole := w.journal.file[..|w.journal.file| - |torn|];
    LoadOfLog(whole, w.logged, torn, FreshStore(maxmemory, policy), later);
    assert whole + [] == whole;
  }

  /** Stores with the same entries are charged the same memory. */
  lemma SameEntriesSameMemory(s: Store, t: Store)
    requires Valid(s) && Valid(t) && Stored(s) == Stored(t)
    ensures s.memory == t.memory
  {
    hide Total, Ranked, NoDup, Elements;
    StoredValues(s);
    StoredValues(t);
  }

  lemma StoredValues(s: Store)
    ensures Values(Stored(s)) == s.data.vals
  {
  }

  /**
   * Durability. After any run from any file recovery accepts, across any faults and restarts, and while the
   * journal is healthy: replaying the file into a fresh store of any configuration and dropping what has expired
   * by then gives exactly the live store's entries, deadlines and memory total after dropping at that time.
   */
  lemma ReplayReconstructsLive(
    file: bytes, maxmemory: nat, policy: Policy, fate: Fate, start: int, events: seq<Event>,
    maxmemory': nat, policy': Policy, later: int)
    requires Loads(file, maxmemory, policy, start)
    ensures var w := Run(Start(file, maxmemory, policy, fate, start), events);
      w.journal.AppendOnlyFile?
      && (!w.journal.failed && later >= w.now ==>
            var l := Load(w.journal.file, FreshStore(maxmemory', policy'), later);
            && l.Some? && l.value.file == w.journal.file
            && Stored(l.value.store) == Stored(DropExpired(w.store, later)) == View(w.store, later)
            && l.value.store.memory == DropExpired(w.store, later).memory)
  {
    var first := Start(file, maxmemory, policy, fate, start);
    StartIsDurable(file, maxmemory, policy, fate, start);
    hide Valid, Durable, Load, Stored, Unexpired, Recorded, States, FreshStore, Start, DropExpired;
    var w := Run(first, events);
    RunKeepsDurable(first, events);
    DurableIsValid(w);
    if !w.journal.failed && later >= w.now {
      DurableFileLoads(w, maxmemory', policy', later);
      HealthyDurable(w);
      UnexpiredLater(Recorded(w.logged), w.now, later);
      UnexpiredLater(Stored(w.store), w.now, later);
      DropExpiredStored(w.store, later);
      var l := Load(w.journal.file, FreshStore(maxmemory', policy'), later).value;
      SameEntriesSameMemory(l.store, DropExpired(w.store, later));
    }
  }

  lemma HealthyDurable(w: World)
    requires Durable(w) && !w.journal.failed
    ensures Unexpired(Recorded(w.logged), w.now) == View(w.store, w.now)
    ensures States(w.journal.file, w.logged)
  {
    hide Valid, Recorded, States, TornRecord, Unexpired, Stored;
    assert w.journal.file[..|w.journal.file|] == w.journal.file;
  }

  // -- The log only grows --------------------------------------------------

  lemma StepGrowsLog(w: World, e: Event)
    requires Durable(w)
    ensures w.logged <= Step(w, e).logged
  {
    hide Valid, Load, Dispatch, Handled, SweepExpired, Recorded, Unexpired, Stored, FileHolds, States;
    match e
    case Restart(maxmemory, policy, fate) => DurableFileLoads(w, maxmemory, policy, w.now);
    case _ =>
  }

  lemma {:induction false} RunGrowsLog(w: World, events: seq<Event>)
    requires Durable(w)
    ensures Valid(w.store) && w.logged <= Run(w, events).logged
    decreases |events|
  {
    hide Valid, Durable, Step;
    DurableIsValid(w);
    if |events| == 0 {
    } else {
      StepGrowsLog(w, events[0]);
      StepKeepsDurable(w, events[0]);
      RunGrowsLog(Step(w, events[0]), events[1..]);
    }
  }

  /** A reply other than the persistence error means every fact of the command is wholly in the file. */
  lemma AcknowledgedIsLogged(w: World, request: seq<bytes>)
    requires Durable(w) && |request| > 0
    ensures Serve(w, request).1 != Err(PERSISTENCE_ERROR) && Handled(w, request).Some? ==>
      Serve(w, request).0.logged == w.logged + Handled(w, request).value.facts
  {
    hide Valid, Handle, Durable, Landed, Ascii, UsedBy;
    DurableIsValid(w);
    if Handled(w, request).Some? {
      var facts := Handled(w, request).value.facts;
      if !w.journal.failed {
        var torn := AppendFactsLand(w.journal, facts);
      } else {
        FailedJournalRunsReadsOnly(w, request);
        NothingToLand(w.journal);
      }
    }
  }

  lemma NothingToLand(j: Journal)
    ensures Landed(j, []) == []
  {
  }

  lemma FailedJournalRunsReadsOnly(w: World, request: seq<bytes>)
    requires Valid(w.store) && |request| > 0 && Failed(w.journal) && Handled(w, request).Some?
    ensures Handled(w, request).value.facts == []
  {
    hide Valid, Handle;
    var Routed(c, args) := RouteOf(request);
    ReadsRecordNothing(c, w.store, w.now, args);
  }

  /**
   * Crash safety. Once a command is acknowledged, its facts are in the log at their place for good: whatever
   * runs, faults and restarts follow, recovery at any later state replays a log that begins with everything
   * logged before the command followed by all of its facts.
   */
  lemma AcknowledgedSurvives(
    w: World, request: seq<bytes>, after: seq<Event>, maxmemory: nat, policy: Policy, later: int)
    requires Durable(w) && |request| > 0 && Handled(w, request).Some?
    requires Serve(w, request).1 != Err(PERSISTENCE_ERROR)
    ensures var end := Run(Serve(w, request).0, after);
      && w.logged + Handled(w, request).value.facts <= end.logged
      && end.journal.AppendOnlyFile?
      && var l := Load(end.journal.file, FreshStore(maxmemory, policy), later);
         l.Some? && Stored(l.value.store) == Unexpired(Recorded(end.logged), later)
  {
    hide Valid, Durable, Serve, Handled, Load, Stored, Unexpired, Recorded, FreshStore, Ascii;
    DurableIsValid(w);
    AcknowledgedIsLogged(w, request);
    ServeKeepsDurable(w, request);
    var next := Serve(w, request).0;
    RunGrowsLog(next, after);
    RunKeepsDurable(next, after);
    DurableIsValid(Run(next, after));
    DurableFileLoads(Run(next, after), maxmemory, policy, later);
  }

  // -- A crash at any byte -------------------------------------------------

  /** Cutting a log anywhere leaves the records before the cut whole and at most one torn. */
  lemma {:induction false} CutLog(facts: seq<Fact>, n: nat) returns (whole: nat, torn: bytes)
    requires n <= |EncodeLog(facts)|
    ensures whole <= |facts| && TornRecord(torn)
    ensures EncodeLog(facts)[..n] == EncodeLog(facts[..whole]) + torn
    ensures n == |EncodeLog(facts)| ==> whole == |facts|
    decreases |facts|
  {
    hide EncodeLog, EncodeFact, TornRecord;
    whole := 0;
    torn := NothingLands(NullJournal);
    if |facts| == 0 {
      assert facts == [];
    } else {
      var first, rest := facts[0], facts[1..];
      assert facts == [first] + rest;
      EncodeLogAppend([first], rest);
      EncodeLogOne(first);
      var record := EncodeFact(first);
      if n < |record| {
        CutIsTorn(first, n);
        torn := record[..n];
        assert EncodeLog(facts)[..n] == torn;
        assert facts[..0] == [];
      } else {
        var count, tail := CutLog(rest, n - |record|);
        whole, torn := count + 1, tail;
        EncodeLogAppend([first], rest[..count]);
        assert facts[..whole] == [first] + rest[..count];
        assert EncodeLog(facts)[..n] == record + EncodeLog(rest)[..n - |record|];
      }
    }
  }

  /**
   * A crash at any byte of what a command appends: recovery never refuses, and brings back the log as it was
   * together with the facts that were whole, in order; with nothing cut off, all of them.
   */
  lemma CrashAtAnyByte(w: World, facts: seq<Fact>, n: nat, maxmemory: nat, policy: Policy, later: int)
    returns (whole: nat)
    requires Durable(w) && !w.journal.failed && AllRecordable(facts) && n <= |EncodeLog(facts)|
    ensures whole <= |facts| && (n == |EncodeLog(facts)| ==> whole == |facts|)
    ensures var l := Load(w.journal.file + EncodeLog(facts)[..n], FreshStore(maxmemory, policy), later);
      && l.Some?
      && Stored(l.value.store) == Unexpired(Recorded(w.logged + facts[..whole]), later)
      && l.value.file == w.journal.file + EncodeLog(facts[..whole])
  {
    hide Valid, Durable, Load, Stored, Unexpired, Recorded, States, EncodeLog, TornRecord, FreshStore;
    var torn;
    whole, torn := CutLog(facts, n);
    HealthyDurable(w);
    DurableIsValid(w);
    var file := w.journal.file + EncodeLog(facts[..whole]);
    StatesMore(w.journal.file, w.logged, facts[..whole]);
    assert w.journal.file + EncodeLog(facts)[..n] == file + torn;
    LoadOfLog(file, w.logged + facts[..whole], torn, FreshStore(maxmemory, policy), later);
  }

  // -- A crash never leaves too much ---------------------------------------

  /** What is recorded before the last fact of a command is deletions only. */
  lemma EvictionsComeFirst(c: Command, s: Store, now: int, args: seq<bytes>)
    requires Valid(s) && ArityOk(c, |args|)
    ensures var facts := Handle(c, s, now, args).facts;
      forall i :: 0 <= i < |facts| - 1 ==> facts[i].Deleted?
  {
    hide Valid, Set, Incr, Get, Delete, Exists, Expire, Persist, Ttl, Dbsize, FlushDb, StoreErrorReply, Err,
         ParseSetOptions, Reduced, DeadlineMs, Render;
  }

  /** `part` holds some of the entries of `m`. */
  ghost predicate PartOf(part: Entries, m: Entries) {
    forall k :: k in part ==> k in m && part[k] == m[k]
  }

  lemma {:induction false} DeletionsLeavePart(m: Entries, facts: seq<Fact>)
    requires forall i :: 0 <= i < |facts| ==> facts[i].Deleted?
    ensures PartOf(ApplyFacts(m, facts), m)
    decreases |facts|
  {
    if |facts| == 0 {
    } else {
      DeletionsLeavePart(ApplyFact(m, facts[0]), facts[1..]);
      assert PartOf(ApplyFact(m, facts[0]), m);
    }
  }

  lemma UnexpiredPart(part: Entries, m: Entries, now: int)
    requires PartOf(part, m)
    ensures PartOf(Unexpired(part, now), Unexpired(m, now))
  {
  }

  lemma FootprintOfPart(part: Entries, m: Entries)
    requires PartOf(part, m)
    ensures Footprint(part) <= Footprint(m)
  {
    hide Total, Footprint;
    TotalIsFootprint(part);
    TotalIsFootprint(m);
    TotalOfPart(Values(part), Values(m));
  }

  lemma ViewFits(s: Store, now: int)
    requires Valid(s)
    ensures PartOf(View(s, now), Stored(s)) && Footprint(View(s, now)) <= s.memory
  {
    hide Valid, Stored, Footprint;
    assert PartOf(View(s, now), Stored(s));
    FootprintOfPart(View(s, now), Stored(s));
    Ceiling.MemoryIsFootprint(s);
    assert Footprint(Stored(s)) == Payload(Stored(s)) + 64 * |Stored(s)| by { FootprintInBytes(Stored(s)); }
  }

  lemma FootprintInBytes(m: Entries)
    ensures Footprint(m) == Payload(m) + 64 * |m|
  {
  }

  /**
   * The ceiling holds at every crash point. Evictions are recorded before the write they make room for, so whichever of
   * a command's facts a crash leaves in the log, what recovery brings back is within the limit if the server was.
   */
  lemma CrashStaysWithinCeiling(w: World, c: Command, args: seq<bytes>, n: nat)
    requires Durable(w) && !w.journal.failed && ArityOk(c, |args|)
    requires 0 != w.store.maxmemory >= w.store.memory && n <= |Handle(c, w.store, w.now, args).facts|
    ensures var kept := Unexpired(Recorded(w.logged + Handle(c, w.store, w.now, args).facts[..n]), w.now);
      Payload(kept) + 64 * |kept| <= w.store.maxmemory
  {
    hide Valid, View, Stored, Unexpired, Recorded, Handle, Footprint, Payload, PartOf, FileHolds, ApplyFacts;
    var s, o := w.store, Handle(c, w.store, w.now, args);
    var kept := Unexpired(Recorded(w.logged + o.facts[..n]), w.now);
    RecordedAppend(w.logged, o.facts[..n]);
    FootprintInBytes(kept);
    if n == |o.facts| {
      assert o.facts[..n] == o.facts;
      HandleReplays(c, s, w.now, args);
      assert kept == View(o.store, w.now) by { ReplayedView(w, o); }
      ViewFits(o.store, w.now);
      Ceiling.HandleRespectsCeiling(c, s, w.now, args);
    } else {
      EvictionsComeFirst(c, s, w.now, args);
      DeletionsLeavePart(Recorded(w.logged), o.facts[..n]);
      UnexpiredPart(ApplyFacts(Recorded(w.logged), o.facts[..n]), Recorded(w.logged), w.now);
      FootprintOfPart(kept, View(s, w.now));
      ViewFits(s, w.now);
    }
  }

  lemma ReplayedView(w: World, o: Outcome)
    requires Replays(w.store, w.now, o) && Unexpired(Recorded(w.logged), w.now) == View(w.store, w.now)
    ensures Unexpired(ApplyFacts(Recorded(w.logged), o.facts), w.now) == View(o.store, w.now)
  {
    hide Unexpired, Stored, ApplyFacts, Recorded;
  }

  // -- Repair --------------------------------------------------------------

  /**
   * Repair is idempotent, for any file recovery accepts: the repaired file holds the same records with nothing
   * trailing, recovers again to the same keyspace without further repair, and stays parseable record for record
   * when facts are appended to it.
   */
  lemma RepairIsIdempotent(file: bytes, s: Store, now: int, later: int, more: seq<Fact>)
    requires Valid(s) && Load(file, s, now).Some? && now <= later && AllRecordable(more)
    ensures var l, scan := Load(file, s, now).value, ScanLog(file);
      && scan.Scanned?
      && l.file <= file
      && ScanLog(l.file) == Scanned(scan.records, |l.file|, 0)
      && ScanLog(l.file + EncodeLog(more))
           == Scanned(scan.records + Offsets(LogRecords(more), |l.file|), |l.file + EncodeLog(more)|, 0)
      && var again := Load(l.file, s, later);
         && again.Some? && again.value.file == l.file && again.value.result.repaired == 0
         && Stored(again.value.store) == Unexpired(Stored(l.store), later)
  {
    hide Valid, ScanFrom, Stored, Unexpired, DropExpired, Dbsize, EncodeLog, ApplyRecords, TornRecord, LogRecords;
    var scan, l := ScanLog(file), Load(file, s, now).value;
    ScanTruncated(file, 0);
    assert file[..|file|] == file;
    assert l.file == file[..scan.consumed] && |l.file| == scan.consumed;
    StatesNothing();
    ScanAppended(l.file, scan.records, more, []);
    assert l.file + EncodeLog(more) + [] == l.file + EncodeLog(more);
    ScanIsWellFramed(file, 0);
    var replayed := ApplyRecords(s, scan.records).value;
    CollectedTwice(replayed, now);
    CollectedTwice(replayed, later);
    UnexpiredLater(Stored(replayed), now, later);
  }
}
