/** What a log record says, and replaying a log through the store's recovery primitives. */
module Facts {
  import opened Bytes
  import opened Resp
  import opened LogFormat
  import opened Keyspace
  import opened StoreModel
  import opened StoreOps

  const SET: bytes := [83, 69, 84]
  const PXAT: bytes := [80, 88, 65, 84]
  const PEXPIREAT: bytes := [80, 69, 88, 80, 73, 82, 69, 65, 84]
  const DEL: bytes := [68, 69, 76]
  const PERSIST: bytes := [80, 69, 82, 83, 73, 83, 84]
  const FLUSHDB: bytes := [70, 76, 85, 83, 72, 68, 66]

  /** The recorded vocabulary: statements about the keyspace, never computations on it. */
  datatype Fact =
    | Written(key: bytes, value: bytes, deadline: Option<int>)
    | DeadlineSet(key: bytes, at: int)
    | Deleted(keys: seq<bytes>)
    | Persisted(key: bytes)
    | Flushed

  /** A deletion names at least one key; every other fact can always be recorded. */
  predicate Recordable(fact: Fact) {
    fact.Deleted? ==> |fact.keys| > 0
  }

  /** The record a handler appends for `fact`. */
  function RecordParts(fact: Fact): (r: seq<bytes>)
    ensures |r| > 0
  {
    match fact
    case Written(k, v, None) => [SET, k, v]
    case Written(k, v, Some(deadline)) => [SET, k, v, PXAT, Render(deadline)]
    case DeadlineSet(k, at) => [PEXPIREAT, k, Render(at)]
    case Deleted(keys) => [DEL] + keys
    case Persisted(k) => [PERSIST, k]
    case Flushed => [FLUSHDB]
  }

  /** What a record means to `_apply`; `None` stands for `AofCorruptError`. */
  function ParseFact(parts: seq<bytes>): Option<Fact>
    requires |parts| > 0
  {
    var name := Upper(parts[0]);
    if name == SET then
      if |parts| == 3 then Some(Written(parts[1], parts[2], None))
      else if |parts| == 5 && Upper(parts[3]) == PXAT then
        match ParseCount(parts[4])
        case None => None
        case Some(deadline) => Some(Written(parts[1], parts[2], Some(deadline)))
      else None
    else if name == PEXPIREAT then
      if |parts| != 3 then None
      else
        match ParseCount(parts[2])
        case None => None
        case Some(at) => Some(DeadlineSet(parts[1], at))
    else if name == DEL then
      if |parts| >= 2 then Some(Deleted(parts[1..])) else None
    else if name == PERSIST then
      if |parts| == 2 then Some(Persisted(parts[1])) else None
    else if name == FLUSHDB then
      if |parts| == 1 then Some(Flushed) else None
    else None
  }

  lemma NamesAreUpper()
    ensures Upper(SET) == SET && Upper(PXAT) == PXAT && Upper(PEXPIREAT) == PEXPIREAT
    ensures Upper(DEL) == DEL && Upper(PERSIST) == PERSIST && Upper(FLUSHDB) == FLUSHDB
  {
  }

  /** Every record a handler can append is accepted on replay and means what was recorded. */
  lemma ParseFactInvertsRecord(fact: Fact)
    requires Recordable(fact)
    ensures ParseFact(RecordParts(fact)) == Some(fact)
  {
    NamesAreUpper();
    hide Upper, Render, ParseCount;
    match fact
    case Written(_, _, Some(deadline)) => ParseCountRender(deadline);
    case DeadlineSet(_, at) => ParseCountRender(at);
    case Deleted(keys) => assert RecordParts(fact)[1..] == keys;
    case _ =>
  }

  /** The records a handler appends, letter for letter. */
  lemma RecordsAreSpelled(k: bytes, v: bytes, at: int, keys: seq<bytes>)
    ensures RecordParts(Written(k, v, None)) == [Ascii("SET"), k, v]
    ensures RecordParts(Written(k, v, Some(at))) == [Ascii("SET"), k, v, Ascii("PXAT"), Render(at)]
    ensures RecordParts(DeadlineSet(k, at)) == [Ascii("PEXPIREAT"), k, Render(at)]
    ensures RecordParts(Deleted(keys)) == [Ascii("DEL")] + keys
    ensures RecordParts(Persisted(k)) == [Ascii("PERSIST"), k]
    ensures RecordParts(Flushed) == [Ascii("FLUSHDB")]
  {
    NamesAreAscii();
  }

  lemma NamesAreAscii()
    ensures SET == Ascii("SET") && PXAT == Ascii("PXAT") && PEXPIREAT == Ascii("PEXPIREAT")
    ensures DEL == Ascii("DEL") && PERSIST == Ascii("PERSIST") && FLUSHDB == Ascii("FLUSHDB")
  {
  }

  /** The record says `fact`: its name in either case, its operands in their places, a deadline as any count. */
  predicate Says(parts: seq<bytes>, fact: Fact)
    requires |parts| > 0
  {
    match fact
    case Written(k, v, None) => |parts| == 3 && Spells(parts[0], "SET") && parts[1] == k && parts[2] == v
    case Written(k, v, Some(at)) =>
      && |parts| == 5 && Spells(parts[0], "SET") && parts[1] == k && parts[2] == v
      && Spells(parts[3], "PXAT") && ParseCount(parts[4]) == Some(at)
    case DeadlineSet(k, at) =>
      |parts| == 3 && Spells(parts[0], "PEXPIREAT") && parts[1] == k && ParseCount(parts[2]) == Some(at)
    case Deleted(keys) => |parts| >= 2 && Spells(parts[0], "DEL") && parts[1..] == keys
    case Persisted(k) => |parts| == 2 && Spells(parts[0], "PERSIST") && parts[1] == k
    case Flushed => |parts| == 1 && Spells(parts[0], "FLUSHDB")
  }

  /** Replay understands a record exactly when it says something, and then just that. */
  lemma ParseFactExactly(parts: seq<bytes>, fact: Fact)
    requires |parts| > 0
    ensures ParseFact(parts) == Some(fact) <==> Says(parts, fact)
  {
    NamesAreAscii();
    NamesDiffer();
    hide Upper, Ascii, ParseCount, Spells;
    UpperSpells(parts[0], "SET");
    UpperSpells(parts[0], "PEXPIREAT");
    UpperSpells(parts[0], "DEL");
    UpperSpells(parts[0], "PERSIST");
    UpperSpells(parts[0], "FLUSHDB");
    if |parts| > 3 {
      UpperSpells(parts[3], "PXAT");
    }
  }

  ghost predicate SaysNothing(parts: seq<bytes>) {
    |parts| > 0 && forall fact :: !Says(parts, fact)
  }

  lemma SaysNothingIsRefused(parts: seq<bytes>)
    requires |parts| > 0
    ensures SaysNothing(parts) <==> ParseFact(parts).None?
  {
    hide ParseFact, Says;
    forall fact ensures ParseFact(parts) == Some(fact) <==> Says(parts, fact) {
      ParseFactExactly(parts, fact);
    }
    if ParseFact(parts).Some? {
      assert Says(parts, ParseFact(parts).value);
    }
  }

  lemma NamesDiffer()
    ensures SET != PEXPIREAT && SET != DEL && SET != PERSIST && SET != FLUSHDB && PEXPIREAT != DEL
    ensures PEXPIREAT != PERSIST && PEXPIREAT != FLUSHDB && DEL != PERSIST && DEL != FLUSHDB && PERSIST != FLUSHDB
  {
    assert SET[0] == 83 && DEL[0] == 68 && PEXPIREAT[1] == 69;
    assert |PERSIST| == |FLUSHDB| == 7 && PERSIST[0] != FLUSHDB[0];
  }

  // -- The meaning of a log ------------------------------------------------

  function ApplyFact(m: Entries, fact: Fact): Entries {
    match fact
    case Written(k, v, deadline) => m[k := Entry(v, deadline)]
    case DeadlineSet(k, at) => if k in m then m[k := m[k].(deadline := Some(at))] else m
    case Deleted(keys) => m - Elements(keys)
    case Persisted(k) => if k in m then m[k := m[k].(deadline := None)] else m
    case Flushed => map[]
  }

  function ApplyFacts(m: Entries, facts: seq<Fact>): Entries
    decreases |facts|
  {
    if |facts| == 0 then m else ApplyFacts(ApplyFact(m, facts[0]), facts[1..])
  }

  lemma {:induction false} ApplyFactsAppend(m: Entries, xs: seq<Fact>, ys: seq<Fact>)
    ensures ApplyFacts(m, xs + ys) == ApplyFacts(ApplyFacts(m, xs), ys)
    decreases |xs|
  {
    hide ApplyFact;
    if |xs| == 0 {
      assert xs + ys == ys;
    } else {
      ApplyFactsAppend(ApplyFact(m, xs[0]), xs[1..], ys);
      assert (xs + ys)[1..] == xs[1..] + ys;
    }
  }

  /** The entries a log of these facts describes, deadlines evaluated nowhere along the way. */
  function Recorded(facts: seq<Fact>): Entries {
    ApplyFacts(map[], facts)
  }

  // -- Replay --------------------------------------------------------------

  /** Replay counts as nobody's use. */
  ghost predicate NoNewRank(s: Store, r: Store) {
    r.tick == s.tick && r.access.Keys <= s.access.Keys
  }

  /** `_apply`, through the recovery primitives. */
  function Apply(s: Store, parts: seq<bytes>): (r: Option<Store>)
    requires Valid(s) && |parts| > 0
    ensures r.Some? ==> Valid(r.value) && SameReport(r.value, s) && NoNewRank(s, r.value)
    ensures r.Some? <==> ParseFact(parts).Some?
  {
    hide Valid, SetDeadline, ClearDeadline, Restore;
    match ParseFact(parts)
    case None => None
    case Some(Written(k, v, deadline)) => Some(Restore(s, k, v, deadline))
    case Some(DeadlineSet(k, at)) => Some(SetDeadline(s, k, at))
    case Some(Deleted(keys)) => Some(Discard(s, keys))
    case Some(Persisted(k)) => Some(ClearDeadline(s, k))
    case Some(Flushed) => Some(FlushDb(s))
  }

  lemma ApplyStored(s: Store, parts: seq<bytes>)
    requires Valid(s) && |parts| > 0 && ParseFact(parts).Some?
    ensures Stored(Apply(s, parts).value) == ApplyFact(Stored(s), ParseFact(parts).value)
  {
    hide Valid, ParseFact, SetDeadline, ClearDeadline, Restore, Stored, FlushDb;
    match ParseFact(parts).value
    case Written(k, v, deadline) => RestoreStored(s, k, v, deadline);
    case DeadlineSet(k, at) => SetDeadlineStored(s, k, at);
    case Deleted(keys) => DiscardStored(s, keys);
    case Persisted(k) => ClearDeadlineStored(s, k);
    case Flushed =>
  }

  predicate WellFramed(records: seq<Record>) {
    forall i :: 0 <= i < |records| ==> |records[i].parts| > 0
  }

  /** Replay records in order; `None` when one of them is not a record the log can hold. */
  function ApplyRecords(s: Store, records: seq<Record>): (r: Option<Store>)
    requires Valid(s) && WellFramed(records)
    ensures r.Some? ==> Valid(r.value) && SameReport(r.value, s) && NoNewRank(s, r.value)
    decreases |records|
  {
    hide Valid, Apply;
    if |records| == 0 then Some(s)
    else
      match Apply(s, records[0].parts)
      case None => None
      case Some(next) => ApplyRecords(next, records[1..])
  }

  /** The store when replay stops at the first record it refuses: the earlier ones have been applied. */
  function ApplyWhile(s: Store, records: seq<Record>): (r: Store)
    requires Valid(s) && WellFramed(records)
    ensures Valid(r) && SameReport(r, s)
    decreases |records|
  {
    hide Valid, Apply;
    if |records| == 0 then s
    else
      match Apply(s, records[0].parts)
      case None => s
      case Some(next) => ApplyWhile(next, records[1..])
  }

  /** The records replay accepts before the first it refuses, as facts. */
  function Meaning(records: seq<Record>): seq<Fact>
    requires WellFramed(records)
    decreases |records|
  {
    if |records| == 0 || ParseFact(records[0].parts).None? then []
    else [ParseFact(records[0].parts).value] + Meaning(records[1..])
  }

  /**
   * Replay refuses a scanned log exactly when one of its records means nothing, and by then the store holds
   * what all the records before it say.
   */
  lemma {:induction false} ReplayStopsAtFirstRefusal(s: Store, records: seq<Record>)
    requires Valid(s) && WellFramed(records)
    ensures ApplyRecords(s, records).None? <==> exists i :: 0 <= i < |records| && ParseFact(records[i].parts).None?
    ensures Stored(ApplyWhile(s, records)) == ApplyFacts(Stored(s), Meaning(records))
    ensures ApplyRecords(s, records).Some? ==> ApplyRecords(s, records).value == ApplyWhile(s, records)
    ensures ApplyRecords(s, records).Some? <==> |Meaning(records)| == |records|
    ensures |Meaning(records)| <= |records|
    decreases |records|
  {
    hide Valid, Stored, Apply, ApplyFact, ParseFact, NoNewRank;
    if |records| == 0 {
    } else {
      var parts, rest := records[0].parts, records[1..];
      if ParseFact(parts).Some? {
        var next := Apply(s, parts).value;
        ApplyStored(s, parts);
        ReplayStopsAtFirstRefusal(next, rest);
        if i :| 0 <= i < |records| && ParseFact(records[i].parts).None? {
          assert rest[i - 1] == records[i];
        }
        if j :| 0 <= j < |rest| && ParseFact(rest[j].parts).None? {
          assert records[j + 1] == rest[j];
        }
      }
    }
  }

  /**
   * A well-framed record that means nothing makes recovery refuse to start, yet the records before it have
   * already been applied: here one SET.
   */
  lemma RefusalMayApplyEarlierRecords(s: Store, k: bytes, v: bytes, now: int)
    requires Valid(s) && Stored(s) == map[]
    ensures var records := [Record(0, [SET, k, v]), Record(|EncodeArray([SET, k, v])|, [[88]])];
      var file := EncodeRecords([[SET, k, v], [[88]]]);
      && ScanLog(file) == Scanned(records, |file|, 0) && Load(file, s, now).None?
      && Stored(LeftBehind(file, s)) == map[k := Entry(v, None)]
  {
    hide Valid, Stored, EncodeArray, ScanFrom, NoNewRank;
    var first, second: seq<bytes> := [SET, k, v], [[88]];
    var parts := [first, second];
    var file := EncodeRecords(parts);
    var records := [Record(0, first), Record(|EncodeArray(first)|, second)];
    var offset := |EncodeArray(first)|;
    assert parts[1..] == [second] && [second][1..] == [];
    assert Offsets([second], offset) == [Record(offset, second)] + Offsets([], offset + |EncodeArray(second)|);
    assert Offsets(parts, 0) == [Record(0, first)] + Offsets([second], offset);
    assert TornRecord([]) && file[0..] == file + [];
    ScanInvertsEncode(file, 0, parts, []);
    NamesAreUpper();
    assert Upper([88])[0] == 88;
    assert ParseFact(first) == Some(Written(k, v, None)) && ParseFact(second).None?;
    assert records[1..] == [Record(|EncodeArray(first)|, second)];
    hide ParseFact, Offsets;
    assert records[1].parts == second;
    ReplayStopsAtFirstRefusal(s, records);
    assert Meaning(records) == [Written(k, v, None)];
    assert ApplyFacts(map[k := Entry(v, None)], []) == map[k := Entry(v, None)];
  }

  datatype LoadResult = LoadResult(records: nat, keys: nat, expired: nat, repaired: nat)

  datatype Loaded = Loaded(store: Store, file: bytes, result: LoadResult)

  lemma {:induction false} ScanIsWellFramed(data: bytes, offset: nat)
    requires offset <= |data| && ScanFrom(data, offset).Scanned?
    ensures WellFramed(ScanFrom(data, offset).records)
    decreases |data| - offset
  {
    hide ReadRecord;
    if offset == |data| {
    } else {
      match ReadRecord(data, offset)
      case Complete(_, next) => ScanIsWellFramed(data, next);
      case _ =>
    }
  }

  /** `load`: the recovered store and the repaired file, or `None` when the server must refuse to start. */
  function Load(file: bytes, s: Store, now: int): (r: Option<Loaded>)
    requires Valid(s)
    ensures r.Some? ==>
      Valid(r.value.store) && SameReport(r.value.store, s) && NoNewRank(s, r.value.store)
  {
    hide Valid, ScanFrom, DropExpired, Dbsize;
    match ScanLog(file)
    case ScanCorrupt(_) => None
    case Scanned(records, consumed, trailing) =>
      ScanIsWellFramed(file, 0);
      match ApplyRecords(s, records)
      case None => None
      case Some(replayed) =>
        var collected := DropExpired(replayed, now);
        var (end, keys) := Dbsize(collected, now);
        Some(Loaded(end, if trailing > 0 then file[..consumed] else file,
                    LoadResult(|records|, keys, Lost(replayed, collected), trailing)))
  }

  /** Recovery refuses exactly a log whose scan finds damage or one of whose records says nothing. */
  lemma LoadRefusesExactly(file: bytes, s: Store, now: int)
    requires Valid(s)
    ensures Load(file, s, now).None? <==>
      var scan := ScanLog(file);
      scan.ScanCorrupt? || exists i :: 0 <= i < |scan.records| && SaysNothing(scan.records[i].parts)
  {
    hide Valid, Stored, ScanFrom, ApplyFacts, ParseFact, ApplyWhile, ApplyRecords, SaysNothing;
    var scan := ScanLog(file);
    if scan.Scanned? {
      ScanIsWellFramed(file, 0);
      ReplayStopsAtFirstRefusal(s, scan.records);
      forall i | 0 <= i < |scan.records|
        ensures SaysNothing(scan.records[i].parts) <==> ParseFact(scan.records[i].parts).None?
      {
        SaysNothingIsRefused(scan.records[i].parts);
      }
    }
  }

  /** The store a load leaves behind when it refuses. */
  function LeftBehind(file: bytes, s: Store): (r: Store)
    requires Valid(s)
    ensures Valid(r)
  {
    hide Valid, ScanFrom;
    match ScanLog(file)
    case ScanCorrupt(_) => s
    case Scanned(records, _, _) =>
      ScanIsWellFramed(file, 0);
      ApplyWhile(s, records)
  }

  /**
   * "Nothing is applied" when recovery refuses: true exactly when the scan found the damage, or what the records
   * before the refused one say changes nothing about the entries there were.
   */
  lemma RefusalIsCleanExactlyWhen(file: bytes, s: Store, now: int)
    requires Valid(s) && Load(file, s, now).None?
    ensures var scan := ScanLog(file);
      && (scan.Scanned? ==> WellFramed(scan.records) && |Meaning(scan.records)| < |scan.records|)
      && (Stored(LeftBehind(file, s)) == Stored(s) <==>
            scan.ScanCorrupt? || ApplyFacts(Stored(s), Meaning(scan.records)) == Stored(s))
  {
    hide Valid, Stored, ScanFrom, ApplyFacts, ParseFact, ApplyWhile, ApplyRecords;
    if ScanLog(file).Scanned? {
      ScanIsWellFramed(file, 0);
      ReplayStopsAtFirstRefusal(s, ScanLog(file).records);
    }
  }

  /** How many keys `t` has fewer than `s`. */
  function Lost(s: Store, t: Store): nat {
    if |s.data.vals| >= |t.data.vals| then |s.data.vals| - |t.data.vals| else 0
  }

  // -- A log of facts, as bytes --------------------------------------------

  function LogRecords(facts: seq<Fact>): (r: seq<seq<bytes>>)
    ensures |r| == |facts|
    ensures forall i :: 0 <= i < |r| ==> |r[i]| > 0
  {
    seq(|facts|, i requires 0 <= i < |facts| => RecordParts(facts[i]))
  }

  function EncodeFact(fact: Fact): (r: bytes)
    ensures |r| > 0
  {
    EncodeArray(RecordParts(fact))
  }

  function EncodeLog(facts: seq<Fact>): bytes {
    EncodeRecords(LogRecords(facts))
  }

  lemma EncodeLogAppend(xs: seq<Fact>, ys: seq<Fact>)
    ensures EncodeLog(xs + ys) == EncodeLog(xs) + EncodeLog(ys)
  {
    hide RecordParts, EncodeRecords;
    EncodeRecordsAppend(LogRecords(xs), LogRecords(ys));
    assert LogRecords(xs + ys) == LogRecords(xs) + LogRecords(ys);
  }

  lemma EncodeLogOne(fact: Fact)
    ensures EncodeLog([fact]) == EncodeFact(fact)
  {
    hide RecordParts, EncodeArray;
    assert LogRecords([fact]) == [RecordParts(fact)];
    assert EncodeRecords([RecordParts(fact)]) == EncodeArray(RecordParts(fact)) + EncodeRecords([]);
  }

  predicate AllRecordable(facts: seq<Fact>) {
    forall i :: 0 <= i < |facts| ==> Recordable(facts[i])
  }

  // -- Any log that loads --------------------------------------------------

  /** `whole` scans to its end and its records say `facts`, however they are spelled. */
  ghost predicate States(whole: bytes, facts: seq<Fact>) {
    var scan := ScanLog(whole);
    && scan.Scanned? && scan.trailing == 0
    && WellFramed(scan.records)
    && |scan.records| == |facts| && Meaning(scan.records) == facts
  }

  lemma {:induction false} MeaningAppend(xs: seq<Record>, ys: seq<Record>)
    requires WellFramed(xs) && WellFramed(ys) && |Meaning(xs)| == |xs|
    ensures WellFramed(xs + ys) && Meaning(xs + ys) == Meaning(xs) + Meaning(ys)
    decreases |xs|
  {
    hide ParseFact;
    if |xs| == 0 {
      assert xs + ys == ys;
    } else {
      MeaningAppend(xs[1..], ys);
      assert (xs + ys)[1..] == xs[1..] + ys;
    }
  }

  /** The records a handler appends mean what they were to say. */
  lemma {:induction false} MeaningOfLog(facts: seq<Fact>, offset: nat)
    requires AllRecordable(facts)
    ensures var records := Offsets(LogRecords(facts), offset);
      |records| == |facts| && WellFramed(records) && Meaning(records) == facts
    decreases |facts|
  {
    hide RecordParts, ParseFact, EncodeArray;
    if |facts| == 0 {
    } else {
      ParseFactInvertsRecord(facts[0]);
      assert LogRecords(facts)[1..] == LogRecords(facts[1..]);
      MeaningOfLog(facts[1..], offset + |EncodeArray(RecordParts(facts[0]))|);
    }
  }

  /** Facts appended to a whole log, and then a torn record, are scanned after what was there. */
  lemma ScanAppended(whole: bytes, records: seq<Record>, more: seq<Fact>, torn: bytes)
    requires ScanLog(whole) == Scanned(records, |whole|, 0) && TornRecord(torn)
    ensures ScanLog(whole + EncodeLog(more) + torn)
         == Scanned(records + Offsets(LogRecords(more), |whole|), |whole + EncodeLog(more)|, |torn|)
  {
    hide ScanFrom, TornRecord, LogRecords, EncodeRecords, Offsets, EncodeArray;
    var longer := whole + EncodeLog(more) + torn;
    assert longer[..|whole|] == whole;
    ScanMonotone(whole, longer, 0);
    assert longer[|whole|..] == EncodeRecords(LogRecords(more)) + torn;
    ScanInvertsEncode(longer, |whole|, LogRecords(more), torn);
  }

  lemma StatesNothing()
    ensures States([], []) && TornRecord([]) && EncodeLog([]) == []
  {
    assert LogRecords([]) == [];
  }

  /** Recording more facts on any log that loads makes a log that says both. */
  lemma StatesMore(whole: bytes, facts: seq<Fact>, more: seq<Fact>)
    requires States(whole, facts) && AllRecordable(more)
    ensures States(whole + EncodeLog(more), facts + more)
  {
    hide ScanFrom, EncodeLog, TornRecord, ParseFact, LogRecords;
    StatesNothing();
    ScanAppended(whole, ScanLog(whole).records, more, []);
    assert whole + EncodeLog(more) + [] == whole + EncodeLog(more);
    MeaningOfLog(more, |whole|);
    MeaningAppend(ScanLog(whole).records, Offsets(LogRecords(more), |whole|));
  }

  /** What recovery accepts, it leaves as a whole log that says what was replayed. */
  lemma LoadStates(file: bytes, s: Store, now: int)
    requires Valid(s) && Load(file, s, now).Some?
    ensures var l, scan := Load(file, s, now).value, ScanLog(file);
      && scan.Scanned? && WellFramed(scan.records)
      && States(l.file, Meaning(scan.records))
      && Stored(l.store) == Unexpired(ApplyFacts(Stored(s), Meaning(scan.records)), now)
  {
    hide Valid, Stored, ScanFrom, ApplyRecords, ApplyFacts, DropExpired, Unexpired, ParseFact, ApplyWhile;
    var records := ScanLog(file).records;
    ScanTruncated(file, 0);
    assert file[..|file|] == file;
    ScanIsWellFramed(file, 0);
    ReplayStopsAtFirstRefusal(s, records);
    CollectedTwice(ApplyRecords(s, records).value, now);
  }

  lemma CollectedTwice(s: Store, now: int)
    requires Valid(s)
    ensures Stored(Dbsize(DropExpired(s, now), now).0) == Unexpired(Stored(s), now)
    ensures Dbsize(DropExpired(s, now), now).1 == |Unexpired(Stored(s), now)|
    ensures Lost(s, DropExpired(s, now)) == |Stored(s)| - |Unexpired(Stored(s), now)|
  {
    hide Valid, Stored, DropExpired, Unexpired;
    var collected := DropExpired(s, now);
    DropExpiredStored(s, now);
    DropExpiredStored(collected, now);
    UnexpiredLater(Stored(s), now, now);
    StoredSize(s);
    StoredSize(collected);
    StoredSize(DropExpired(collected, now));
    UnexpiredSize(Stored(s), now);
  }

  /**
   * Recovery of a log with a torn tail: it never refuses, cuts the file back to whole records, and brings
   * back exactly what the whole records say, less what has expired by now.
   */
  lemma LoadOfLog(whole: bytes, facts: seq<Fact>, torn: bytes, s: Store, now: int)
    requires Valid(s) && Stored(s) == map[] && States(whole, facts) && TornRecord(torn)
    ensures var r := Load(whole + torn, s, now);
      && r.Some?
      && r.value.file == whole
      && Stored(r.value.store) == Unexpired(Recorded(facts), now)
      && r.value.result.records == |facts|
      && r.value.result.repaired == |torn|
      && r.value.result.keys == |Unexpired(Recorded(facts), now)|
      && r.value.result.expired == |Recorded(facts)| - |Unexpired(Recorded(facts), now)|
  {
    hide Valid, Stored, ScanFrom, EncodeLog, TornRecord, ApplyRecords, ApplyFacts, DropExpired, Unexpired, ParseFact,
         ApplyWhile, Dbsize, Lost;
    var records := ScanLog(whole).records;
    StatesNothing();
    ScanAppended(whole, records, [], torn);
    assert whole + [] + torn == whole + torn && records + Offsets(LogRecords([]), |whole|) == records;
    ReplayStopsAtFirstRefusal(s, records);
    CollectedTwice(ApplyRecords(s, records).value, now);
    assert (whole + torn)[..|whole|] == whole;
    assert |torn| == 0 ==> whole + torn == whole;
  }

  lemma StoredSize(s: Store)
    ensures |Stored(s)| == |s.data.vals|
  {
    assert Stored(s).Keys == s.data.vals.Keys;
    assert |Stored(s)| == |Stored(s).Keys| && |s.data.vals| == |s.data.vals.Keys|;
  }

  lemma UnexpiredSize(m: Entries, now: int)
    ensures |Unexpired(m, now)| <= |m|
  {
    var rest := m.Keys - Unexpired(m, now).Keys;
    assert m.Keys == Unexpired(m, now).Keys + rest;
    assert |m| == |m.Keys| && |Unexpired(m, now)| == |Unexpired(m, now).Keys|;
  }
}
