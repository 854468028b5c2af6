/** A history in which eviction looks at three keys where it sets out to look at five. */
module StaleCursor {
  import opened Bytes
  import opened Dictionary
  import opened Keyspace
  import opened StoreModel
  import opened Eviction
  import opened Sampling
  import opened StoreOps
  import opened Facts
  import opened Journaling
  import opened Commands
  import opened Runs

  /** Room for seven keys of one byte without a value. */
  const LIMIT: nat := 455

  function SetKey(k: bytes): Event {
    Request([SET, k, []])
  }

  function SetKeys(keys: seq<bytes>): seq<Event> {
    seq(|keys|, i requires 0 <= i < |keys| => SetKey(keys[i]))
  }

  const A: bytes := [1]
  const B: bytes := [2]
  const FIRST: seq<bytes> := [A, B, [3], [4], [5], [6], [7]]
  const EIGHTH: bytes := [8]
  const NINTH: bytes := [9]

  /** Fill the store, evict one key, then delete and store again the two keys left in the cursor. */
  function History(): seq<Event> {
    SetKeys(FIRST) + [SetKey(EIGHTH)] + [Request([DEL, A, B])] + SetKeys([A, B])
  }

  /** A store of such keys alone, none with a deadline. */
  ghost predicate Small(s: Store, keys: seq<bytes>, cursor: seq<bytes>) {
    && Valid(s) && s.maxmemory == LIMIT && s.policy == AllKeysLru
    && s.data.order == keys && s.evictCursor == cursor && s.expires.vals == map[]
    && s.memory == 65 * |keys|
    && forall k :: k in s.data.vals ==> Cost(k, s.data.vals[k]) == 65
  }

  ghost predicate Holding(w: World, keys: seq<bytes>, cursor: seq<bytes>) {
    && Small(w.store, keys, cursor) && w.store.evicted == []
    && w.journal.AppendOnlyFile? && !w.journal.failed && w.journal.fate == Healthy
  }

  // -- One request at a time -----------------------------------------------

  lemma {:induction false} HealthyStays(j: Journal, facts: seq<Fact>)
    requires j.AppendOnlyFile? && !j.failed && j.fate == Healthy
    ensures var end := AppendFacts(j, facts).0; end.AppendOnlyFile? && !end.failed && end.fate == Healthy
    decreases |facts|
  {
    hide EncodeFact;
    if |facts| == 0 {
    } else {
      HealthyStays(Append(j, EncodeFact(facts[0])).0, facts[1..]);
    }
  }

  /** On a healthy journal a request does to the store what its handler does. */
  lemma StepHandles(w: World, request: seq<bytes>, c: Command, args: seq<bytes>)
    requires Valid(w.store) && |request| > 0 && RouteOf(request) == Routed(c, args)
    requires w.journal.AppendOnlyFile? && !w.journal.failed && w.journal.fate == Healthy
    ensures ArityOk(c, |args|)
    ensures var next := Step(w, Request(request));
      && next.store == Handle(c, w.store, w.now, args).store
      && next.journal.AppendOnlyFile? && !next.journal.failed && next.journal.fate == Healthy
  {
    hide Valid, Handle, RouteOf, AppendFacts, UsedBy, Ascii;
    HealthyStays(w.journal, Handle(c, w.store, w.now, args).facts);
  }

  lemma Routes(k: bytes, j: bytes)
    ensures RouteOf([SET, k, []]) == Routed(SetC, [k, []]) && RouteOf([DEL, k, j]) == Routed(DelC, [k, j])
  {
    NamesAreUpper();
    hide Upper;
    assert [SET, k, []][1..] == [k, []] && [DEL, k, j][1..] == [k, j];
    assert SET[0] != PING[0] && DEL[0] == 68 && PING[0] == 80 && SET[0] == 83 && GET[0] == 71 && EXPIRE[0] == 69
        && TTL[0] == 84 && PERSIST[0] == 80;
  }

  /** Storing a key for which there is room. */
  lemma StoresKey(s: Store, keys: seq<bytes>, cursor: seq<bytes>, k: bytes)
    requires Small(s, keys, cursor) && |k| == 1 && k !in s.data.vals
    ensures k !in keys
    ensures var r := Overwrite(s, k, [], None);
      && Valid(r) && r.data.order == keys + [k] && r.expires.vals == map[]
      && r.evictCursor == cursor && r.memory == 65 * |keys + [k]| && r.maxmemory == LIMIT && r.policy == AllKeysLru
      && r.evicted == s.evicted
      && forall j :: j in r.data.vals ==> Cost(j, r.data.vals[j]) == 65
  {
    ListsEveryKey(s.data);
    hide Total, Ranked, NoDup, Elements;
    assert s.expires.vals - {k} == map[];
  }

  lemma SetFitting(w: World, keys: seq<bytes>, cursor: seq<bytes>, k: bytes)
    requires Holding(w, keys, cursor) && |k| == 1 && k !in keys && |keys| < 7
    ensures Holding(Step(w, SetKey(k)), keys + [k], cursor)
  {
    Routes(k, k);
    StepHandles(w, [SET, k, []], SetC, [k, []]);
    ListsEveryKey(w.store.data);
    StoresKey(w.store, keys, cursor, k);
    AdmissionIsAllOrNothing(w.store, w.now, k, []);
    hide Valid, Overwrite, Admit;
    assert Projected(w.store, k, Cost(k, [])) == 65 * |keys| + 65;
    TakenReport(Overwrite(w.store, k, [], None));
  }

  lemma TakenReport(s: Store)
    requires Valid(s)
    ensures TakeEvicted(s) == s.(evicted := [])
  {
    hide Valid;
  }

  // -- The eviction --------------------------------------------------------

  lemma {:induction false} PopsFromTheEnd(s: Store, exclude: bytes, cursor: seq<bytes>, candidates: seq<bytes>)
    requires |candidates| <= MAXMEMORY_SAMPLES <= |candidates| + |cursor|
    requires forall k :: k in cursor ==> Eligible(s, exclude, k)
    ensures var few := MAXMEMORY_SAMPLES - |candidates|;
      var (cursor', candidates') := Sample(s, exclude, cursor, candidates, true);
      && cursor' == cursor[..|cursor| - few]
      && |candidates'| == MAXMEMORY_SAMPLES
      && forall k :: k in candidates' ==> k in candidates || k in cursor[|cursor| - few..]
    decreases |cursor|
  {
    hide Eligible;
    if |candidates| == MAXMEMORY_SAMPLES {
      assert cursor[..|cursor|] == cursor;
    } else {
      var rest := cursor[..|cursor| - 1];
      PopsFromTheEnd(s, exclude, rest, candidates + [cursor[|cursor| - 1]]);
      assert cursor == rest + [cursor[|cursor| - 1]];
    }
  }

  lemma SampleRefills(s: Store, exclude: bytes)
    requires |Without(s.data.order, exclude)| > 0
    ensures Sample(s, exclude, [], [], false) == Sample(s, exclude, Without(s.data.order, exclude), [], true)
  {
  }

  lemma SampleLeavesTwo(s: Store, keys: seq<bytes>, exclude: bytes) returns (candidates: seq<bytes>)
    requires Small(s, keys, []) && |keys| == 7 && exclude !in s.data.vals
    ensures Sample(s, exclude, [], [], false) == (keys[..2], candidates)
    ensures |candidates| > 0 && forall k :: k in candidates ==> k in keys[2..]
  {
    hide Valid, Sample, Without, Eligible, Total;
    SmallIsValid(s, keys, []);
    ListedAreEligible(s, exclude);
    SampleRefills(s, exclude);
    PopsFromTheEnd(s, exclude, keys, []);
    candidates := Sample(s, exclude, keys, [], true).1;
  }

  lemma SmallIsValid(s: Store, keys: seq<bytes>, cursor: seq<bytes>)
    requires Small(s, keys, cursor)
    ensures s.data.Ok() && s.data.order == keys && NoDup(keys)
    ensures forall k :: k in keys <==> k in s.data.vals
    ensures |keys| == |s.data.vals|
  {
    ListsEveryKey(s.data);
  }

  /** With an empty cursor and seven keys, two keys stay in the cursor and the victim is one of the other five. */
  lemma SelectLeavesTwo(s: Store, keys: seq<bytes>, exclude: bytes) returns (victim: bytes)
    requires Small(s, keys, []) && |keys| == 7 && exclude !in s.data.vals
    ensures SelectVictim(s, exclude) == (s.(evictCursor := keys[..2]), Some(victim))
    ensures victim in s.data.vals && victim in keys[2..]
  {
    hide Valid, Sample, LeastRecent, Total;
    var candidates := SampleLeavesTwo(s, keys, exclude);
    victim := LeastRecent(s, candidates);
    assert SelectVictim(s, exclude).1 == Some(victim);
  }

  lemma ListedAreEligible(s: Store, exclude: bytes)
    requires s.data.Ok() && exclude !in s.data.vals
    ensures forall k :: k in s.data.order ==> Eligible(s, exclude, k)
    ensures Without(s.data.order, exclude) == s.data.order
  {
    ListsEveryKey(s.data);
    WithoutAbsent(s.data.order, exclude);
  }

  lemma {:induction false} WithoutAbsent(xs: seq<bytes>, x: bytes)
    requires x !in xs
    ensures Without(xs, x) == xs
    decreases |xs|
  {
    if |xs| == 0 {
    } else {
      WithoutAbsent(xs[..|xs| - 1], x);
    }
  }

  lemma {:induction false} WithoutPresent(xs: seq<bytes>, x: bytes)
    requires x in xs && NoDup(xs)
    ensures |Without(xs, x)| == |xs| - 1
  {
    CardinalityOfNoDup(xs);
    CardinalityOfNoDup(Without(xs, x));
  }

  lemma NoneTimed(s: Store, keys: seq<bytes>, cursor: seq<bytes>, now: int)
    requires Small(s, keys, cursor)
    ensures DropExpired(s, now) == s && forall k :: DropIfExpired(s, now, k) == s
  {
    ListsEveryKey(s.expires);
    assert |s.expires.vals| == 0;
    DropEachNone(s, now, s.expires.order);
  }

  lemma RemovesKey(s: Store, keys: seq<bytes>, cursor: seq<bytes>, k: bytes)
    requires Small(s, keys, cursor) && k in keys
    ensures k in s.data.vals
    ensures Small(Remove(s, k), Without(keys, k), cursor) && |Without(keys, k)| == |keys| - 1
  {
    ListsEveryKey(s.data);
    WithoutPresent(keys, k);
    hide Total, Ranked, NoDup, Elements, Without;
    assert s.expires.vals - {k} == map[];
  }

  /** Once one of seven keys is gone, the write fits and the loop ends. */
  lemma OneEvictionIsEnough(s: Store, full: Store, keys: seq<bytes>, k: bytes, victim: bytes)
    requires Valid(s) && s.maxmemory == LIMIT && |keys| == 7 && s.memory == 65 * |keys| && full.memory == s.memory
    requires k !in s.data.vals && full.data == s.data && full.maxmemory == s.maxmemory
    requires SelectVictim(s, k) == (full, Some(victim))
    requires victim in s.data.vals && Cost(victim, s.data.vals[victim]) == 65
    ensures Valid(full) && EvictUntilFits(s, k, 65) == Some(Evict(full, victim))
  {
    hide Valid, SelectVictim, Evict, Reduced;
    SelectVictimValid(s, k);
    EvictStored(full, victim);
    EvictUntilFitsStops(Evict(full, victim), k, 65);
  }

  /** A full store evicts one of five keys for a new one. */
  lemma AdmitsByEvicting(s: Store, keys: seq<bytes>, now: int, k: bytes) returns (victim: bytes)
    requires Small(s, keys, []) && |keys| == 7 && |k| == 1 && k !in s.data.vals
    ensures victim in keys[2..] && victim in s.data.vals
    ensures var full := s.(evictCursor := keys[..2]);
      Valid(full) && Admit(s, now, k, []) == Some(Evict(full, victim))
  {
    hide Valid, SelectVictim, DropExpired, DropIfExpired, Evict, EvictUntilFits, Reduced;
    NoneTimed(s, keys, [], now);
    victim := SelectLeavesTwo(s, keys, k);
    OneEvictionIsEnough(s, s.(evictCursor := keys[..2]), keys, k, victim);
  }

  lemma SelectVictimValid(s: Store, k: bytes)
    requires Valid(s)
    ensures Valid(SelectVictim(s, k).0)
  {
    hide Valid;
  }

  lemma {:induction false} RunAppend(w: World, xs: seq<Event>, ys: seq<Event>)
    requires Valid(w.store)
    ensures Run(w, xs + ys) == Run(Run(w, xs), ys)
    decreases |xs|
  {
    hide Valid, Step;
    if |xs| == 0 {
      assert xs + ys == ys;
    } else {
      RunAppend(Step(w, xs[0]), xs[1..], ys);
      assert (xs + ys)[1..] == xs[1..] + ys;
    }
  }

  lemma EvictsAndStores(s: Store, keys: seq<bytes>, now: int, k: bytes) returns (victim: bytes)
    requires Small(s, keys, []) && |keys| == 7 && |k| == 1 && k !in s.data.vals
    ensures victim in keys[2..] && |Without(keys, victim)| == 6
    ensures Valid(s) && var (r, error) := Set(s, now, k, [], None);
      error.None? && Small(TakeEvicted(r), Without(keys, victim) + [k], keys[..2])
  {
    hide Valid, Overwrite, Admit, Without, Reduced, Total;
    SmallIsValid(s, keys, []);
    victim := AdmitsByEvicting(s, keys, now, k);
    var full := s.(evictCursor := keys[..2]);
    RemovesKey(full, keys, keys[..2], victim);
    var room := Evict(full, victim);
    StoresKey(room, Without(keys, victim), keys[..2], k);
    TakenReport(Overwrite(room, k, [], None));
  }

  lemma SetEvicting(w: World, keys: seq<bytes>, k: bytes) returns (victim: bytes)
    requires Holding(w, keys, []) && |keys| == 7 && |k| == 1 && k !in keys
    ensures victim in keys[2..] && |Without(keys, victim)| == 6
    ensures Holding(Step(w, SetKey(k)), Without(keys, victim) + [k], keys[..2])
  {
    hide Small, Valid, Set, Without, Handled, UsedBy;
    SmallIsValid(w.store, keys, []);
    victim := EvictsAndStores(w.store, keys, w.now, k);
    Routes(k, k);
    StepHandles(w, [SET, k, []], SetC, [k, []]);
  }

  /** With nothing expired, a deletion removes the first key and goes on with the rest. */
  lemma DeletesKey(s: Store, keys: seq<bytes>, cursor: seq<bytes>, now: int, names: seq<bytes>)
    requires Small(s, keys, cursor) && |names| > 0 && names[0] in keys
    ensures names[0] in s.data.vals && Valid(s) && Valid(Remove(s, names[0]))
    ensures Delete(s, now, names).0 == Delete(Remove(s, names[0]), now, names[1..]).0
    ensures Small(Remove(s, names[0]), Without(keys, names[0]), cursor)
    ensures |Without(keys, names[0])| == |keys| - 1
  {
    NoneTimed(s, keys, cursor, now);
    RemovesKey(s, keys, cursor, names[0]);
    hide Small, DropIfExpired, Remove, Without;
  }

  lemma StaysListed(keys: seq<bytes>, k: bytes, j: bytes)
    requires j in keys && j != k
    ensures j in Without(keys, k)
  {
    assert j in Elements(keys) - {k};
  }

  lemma DeleteTwo(w: World, keys: seq<bytes>, cursor: seq<bytes>, k: bytes, j: bytes)
    requires Holding(w, keys, cursor) && k in keys && j in keys && k != j
    ensures Holding(Step(w, Request([DEL, k, j])), Without(Without(keys, k), j), cursor)
    ensures |Without(Without(keys, k), j)| == |keys| - 2
  {
    hide Small, Valid, Without, Remove, Handled, UsedBy, Reduced;
    HoldingIsValid(w, keys, cursor);
    Routes(k, j);
    StepHandles(w, [DEL, k, j], DelC, [k, j]);
    assert [k, j][1..] == [j] && [j][1..] == [];
    StaysListed(keys, k, j);
    DeletesKey(w.store, keys, cursor, w.now, [k, j]);
    DeletesKey(Remove(w.store, k), Without(keys, k), cursor, w.now, [j]);
  }

  lemma {:induction false} SetMany(w: World, keys: seq<bytes>, cursor: seq<bytes>, more: seq<bytes>)
    requires Holding(w, keys, cursor) && NoDup(keys + more) && |keys + more| <= 7
    requires forall k :: k in more ==> |k| == 1
    ensures Valid(w.store) && Holding(Run(w, SetKeys(more)), keys + more, cursor)
    decreases |more|
  {
    hide Holding, Step;
    HoldingIsValid(w, keys, cursor);
    if |more| == 0 {
      assert keys + more == keys;
    } else {
      var k := more[0];
      forall i | 0 <= i < |keys| ensures keys[i] != k {
        assert (keys + more)[i] == keys[i] && (keys + more)[|keys|] == k;
      }
      assert keys + more == keys + [k] + more[1..];
      assert SetKeys(more) == [SetKey(k)] + SetKeys(more[1..]);
      SetFitting(w, keys, cursor, k);
      SetMany(Step(w, SetKey(k)), keys + [k], cursor, more[1..]);
    }
  }

  lemma HoldingIsValid(w: World, keys: seq<bytes>, cursor: seq<bytes>)
    requires Holding(w, keys, cursor)
    ensures Valid(w.store) && NoDup(keys)
  {
  }

  lemma EmptyFileLoads(now: int)
    ensures Loads([], LIMIT, AllKeysLru, now)
    ensures Holding(Start([], LIMIT, AllKeysLru, Healthy, now), [], [])
  {
    var empty := FreshStore(LIMIT, AllKeysLru);
    DropEachNone(empty, now, empty.expires.order);
    hide Valid;
    assert Loads([], LIMIT, AllKeysLru, now);
  }

  // -- The history ---------------------------------------------------------

  lemma FirstKeys()
    ensures NoDup(FIRST) && FIRST[..2] == [A, B] && NoDup(FIRST[..2])
    ensures A !in FIRST[2..] && B !in FIRST[2..] && EIGHTH !in FIRST && NINTH !in FIRST
    ensures forall k :: k in FIRST ==> |k| == 1
  {
    assert forall i :: 0 <= i < 7 ==> |FIRST[i]| == 1 && FIRST[i][0] as int == i + 1;
  }

  lemma WithoutLast(xs: seq<bytes>, last: bytes, x: bytes)
    requires last != x
    ensures Without(xs + [last], x) == Without(xs, x) + [last]
  {
    assert (xs + [last])[..|xs|] == xs;
  }

  /** The keys after the eviction and the deletions: four of the first, then the new one. */
  lemma KeysLeft(victim: bytes) returns (rest: seq<bytes>)
    requires victim in FIRST[2..] && |Without(FIRST, victim)| == 6
    ensures var keys := Without(FIRST, victim) + [EIGHTH];
      && A in keys && B in keys
      && Without(Without(keys, A), B) == rest + [EIGHTH]
    ensures forall k :: k in rest ==> k in FIRST && k != A && k != B
  {
    FirstKeys();
    hide Without;
    var six := Without(FIRST, victim);
    WithoutLast(six, EIGHTH, A);
    WithoutLast(Without(six, A), EIGHTH, B);
    rest := Without(Without(six, A), B);
    assert FIRST[0] == A && FIRST[1] == B;
    StaysListed(FIRST, victim, A);
    StaysListed(FIRST, victim, B);
    forall k | k in rest ensures k in FIRST && k != A && k != B {
      assert k in Elements(rest);
      assert k in Elements(FIRST);
    }
  }

  /** After the whole history the cursor holds the two keys that were stored last. */
  lemma HistoryLeads(now: int) returns (rest: seq<bytes>)
    ensures Loads([], LIMIT, AllKeysLru, now)
    ensures var w := Run(Start([], LIMIT, AllKeysLru, Healthy, now), History());
      Holding(w, rest + [EIGHTH] + [A, B], [A, B])
    ensures |rest| == 4 && NINTH !in rest + [EIGHTH] + [A, B]
  {
    FirstKeys();
    EmptyFileLoads(now);
    hide Holding, Step, Without, NoDup, Start, SetKeys, Loads, Valid;
    var start := Start([], LIMIT, AllKeysLru, Healthy, now);
    var deletion := Request([DEL, A, B]);
    assert [] + FIRST == FIRST;
    SetMany(start, [], [], FIRST);
    var full := Run(start, SetKeys(FIRST));
    var victim := SetEvicting(full, FIRST, EIGHTH);
    rest := KeysLeft(victim);
    HoldingIsValid(full, FIRST, []);
    var evicted := Step(full, SetKey(EIGHTH));
    var keys := Without(FIRST, victim) + [EIGHTH];
    HoldingIsValid(evicted, keys, [A, B]);
    DeleteTwo(evicted, keys, [A, B], A, B);
    var deleted := Step(evicted, deletion);
    HoldingIsValid(deleted, rest + [EIGHTH], [A, B]);
    StoredAgain(deleted, rest);
    HistoryRuns(start, full, evicted, deleted);
  }

  lemma StoredAgain(w: World, rest: seq<bytes>)
    requires Holding(w, rest + [EIGHTH], [A, B]) && |rest| == 4
    requires forall k :: k in rest ==> k in FIRST && k != A && k != B
    ensures Valid(w.store)
    ensures Holding(Run(w, SetKeys([A, B])), rest + [EIGHTH] + [A, B], [A, B])
    ensures NINTH !in rest + [EIGHTH] + [A, B]
  {
    hide Holding, Run, SetKeys;
    FirstKeys();
    HoldingIsValid(w, rest + [EIGHTH], [A, B]);
    assert EIGHTH != A && EIGHTH != B && A != B by { assert FIRST[0] == A && FIRST[1] == B; }
    NoDupAppend(rest + [EIGHTH], A);
    NoDupAppend(rest + [EIGHTH] + [A], B);
    assert rest + [EIGHTH] + [A] + [B] == rest + [EIGHTH] + [A, B];
    SetMany(w, rest + [EIGHTH], [A, B], [A, B]);
  }

  lemma HistoryRuns(start: World, full: World, evicted: World, deleted: World)
    requires Valid(start.store) && full == Run(start, SetKeys(FIRST)) && evicted == Step(full, SetKey(EIGHTH))
    requires deleted == Step(evicted, Request([DEL, A, B]))
    ensures Run(start, History()) == Run(deleted, SetKeys([A, B]))
  {
    hide Step, Valid, SetKeys, SetKey;
    var deletion := Request([DEL, A, B]);
    var last := SetKeys([A, B]);
    RunAppend(start, SetKeys(FIRST), [SetKey(EIGHTH)] + [deletion] + last);
    RunAppend(full, [SetKey(EIGHTH)], [deletion] + last);
    RunAppend(evicted, [deletion], last);
    assert Run(full, [SetKey(EIGHTH)]) == evicted && Run(evicted, [deletion]) == deleted;
    assert History() == SetKeys(FIRST) + ([SetKey(EIGHTH)] + [deletion] + last);
    assert [SetKey(EIGHTH)] + [deletion] + last == [SetKey(EIGHTH)] + ([deletion] + last);
  }

  lemma PoppedLast(s: Store, exclude: bytes, xs: seq<bytes>, k: bytes)
    requires Eligible(s, exclude, k)
    ensures Popped(s, exclude, xs + [k]) == [k] + Popped(s, exclude, xs)
  {
    assert (xs + [k])[..|xs|] == xs;
  }

  lemma PoppedNone(s: Store, exclude: bytes)
    ensures Popped(s, exclude, []) == []
  {
  }

  /** The last three keys of the listing fill the sample up. */
  lemma LastListed(s: Store, rest: seq<bytes>)
    requires NINTH !in s.data.vals && A in s.data.vals && B in s.data.vals && EIGHTH in s.data.vals
    requires s.data.order == rest + [EIGHTH] + [A, B] && s.evictCursor == [A, B]
    ensures Leftovers(s, NINTH) == [B, A] && Refill(s, NINTH) == [B, A, EIGHTH]
  {
    hide Popped;
    assert s.data.order == rest + [EIGHTH] + [A] + [B] && s.evictCursor == [] + [A] + [B];
    PoppedLast(s, NINTH, rest + [EIGHTH] + [A], B);
    PoppedLast(s, NINTH, rest + [EIGHTH], A);
    PoppedLast(s, NINTH, rest, EIGHTH);
    PoppedLast(s, NINTH, [] + [A], B);
    PoppedLast(s, NINTH, [], A);
    PoppedNone(s, NINTH);
    assert Popped(s, NINTH, s.evictCursor) == [B, A];
    assert Popped(s, NINTH, s.data.order)[..3] == [B, A, EIGHTH];
  }

  lemma ThreeKeys(sample: seq<bytes>)
    requires sample == [B, A, B, A, EIGHTH]
    ensures |Elements(sample)| == 3
  {
    assert Elements(sample) == {A, B, EIGHTH};
    assert A[0] == 1 && B[0] == 2 && EIGHTH[0] == 8;
  }

  lemma FullAfterHistory(w: World, keys: seq<bytes>, cursor: seq<bytes>)
    requires Holding(w, keys, cursor) && |keys| == 7 && NINTH !in keys
    ensures Valid(w.store) && NINTH !in w.store.data.vals && NeedsRoom(w.store, NINTH, [])
    ensures w.store.data.order == keys && w.store.evictCursor == cursor
    ensures forall k :: k in keys ==> k in w.store.data.vals
    ensures |Others(w.store, NINTH)| == 7
  {
    SmallIsValid(w.store, keys, cursor);
    hide Valid, Total;
    assert Others(w.store, NINTH) == w.store.data.vals.Keys;
    assert |w.store.data.vals.Keys| == |w.store.data.vals|;
  }

  /**
   * Five distinct keys are not what a server can count on. This run leaves seven keys and no room for another,
   * and the write of an eighth looks at three of the seven: exactly the three `SamplingQuality` promises.
   */
  lemma StaleCursorDrawsTwice(now: int)
    ensures Loads([], LIMIT, AllKeysLru, now)
    ensures var s := Run(Start([], LIMIT, AllKeysLru, Healthy, now), History()).store;
      && Valid(s) && |Others(s, NINTH)| == 7 && NeedsRoom(s, NINTH, [])
      && Sample(s, NINTH, s.evictCursor, [], false).1 == [B, A, B, A, EIGHTH]
      && |Elements(Sample(s, NINTH, s.evictCursor, [], false).1)| == 3
  {
    hide Holding, Valid, Run, Start, Loads, History, Sample, Leftovers, Refill, NeedsRoom, Others, SelectVictim,
         LeastRecent, Elements;
    var rest := HistoryLeads(now);
    var w := Run(Start([], LIMIT, AllKeysLru, Healthy, now), History());
    var keys := rest + [EIGHTH] + [A, B];
    FullAfterHistory(w, keys, [A, B]);
    assert keys[4] == EIGHTH && keys[5] == A && keys[6] == B;
    LastListed(w.store, rest);
    SampleIsLeftoversThenRefill(w.store, NINTH);
    ThreeKeys([B, A, B, A, EIGHTH]);
  }
}
