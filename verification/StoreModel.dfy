/** The state of `KeyValueStore` as a value, and each of its operations as a function on that value. */
module StoreModel {
  import opened Bytes
  import opened Dictionary
  import opened Keyspace

  datatype Policy = NoEviction | AllKeysLru

  datatype StoreError = NotAnInteger | IntegerOverflow | InvalidExpire | OutOfMemory

  datatype Result<+T> = Success(value: T) | Failure(error: StoreError)

  datatype Store = Store(
    data: Dict<bytes>,
    expires: Dict<int>,
    access: map<bytes, nat>,
    memory: int,
    tick: nat,
    sweepCursor: seq<bytes>,
    evictCursor: seq<bytes>,
    evicted: seq<bytes>,
    maxmemory: nat,
    policy: Policy)

  // -- Invariant and abstraction -------------------------------------------

  /** Ranks are distinct, positive, bounded by the tick, and held only by stored keys. */
  ghost predicate Ranked(s: Store) {
    && s.access.Keys <= s.data.vals.Keys
    && (forall k :: k in s.access ==> 1 <= s.access[k] <= s.tick)
    && (forall j, k :: j in s.access && k in s.access && j != k ==> s.access[j] != s.access[k])
  }

  ghost predicate Valid(s: Store) {
    && s.data.Ok() && s.expires.Ok()
    && s.expires.vals.Keys <= s.data.vals.Keys
    && s.memory == Total(s.data.vals)
    && Ranked(s)
    && NoDup(s.evictCursor)
  }

  /** Every stored entry with its deadline, expired or not. */
  function Stored(s: Store): Entries {
    map k | k in s.data.vals ::
      Entry(s.data.vals[k], if k in s.expires.vals then Some(s.expires.vals[k]) else None)
  }

  /** The entries a client can still observe at `now`. */
  function View(s: Store, now: int): Entries {
    Unexpired(Stored(s), now)
  }

  /** The recency rank eviction compares: 0 for a key never used since it was restored. */
  function Rank(s: Store, k: bytes): nat {
    if k in s.access then s.access[k] else 0
  }

  /** The configuration never changes while the store lives. */
  predicate SameConfig(s: Store, t: Store) {
    s.maxmemory == t.maxmemory && s.policy == t.policy
  }

  /** Neither the configuration nor the buffer of keys awaiting an eviction report. */
  predicate SameReport(s: Store, t: Store) {
    SameConfig(s, t) && s.evicted == t.evicted
  }

  /** `r` is `s` with some keys gone: no value, use or rank is new. */
  ghost predicate Reduced(s: Store, r: Store) {
    && r.tick == s.tick && r.memory <= s.memory && r.access.Keys <= s.access.Keys
    && forall k :: k in r.data.vals ==>
         k in s.data.vals && r.data.vals[k] == s.data.vals[k] && Rank(r, k) == Rank(s, k)
  }

  lemma ReducedTrans(s: Store, t: Store, u: Store)
    requires Reduced(s, t) && Reduced(t, u)
    ensures Reduced(s, u)
  {
    hide Rank;
  }

  function FreshStore(maxmemory: nat, policy: Policy): (r: Store)
    ensures Valid(r) && Stored(r) == map[]
  {
    TotalEmpty(map[]);
    Store(Dict([], map[]), Dict([], map[]), map[], 0, 0, [], [], [], maxmemory, policy)
  }

  // -- The primitives every operation is made of ---------------------------

  function Remove(s: Store, k: bytes): (r: Store)
    requires Valid(s) && k in s.data.vals
    ensures Valid(r) && SameReport(r, s) && Reduced(s, r)
    ensures r.sweepCursor == s.sweepCursor
  {
    hide Total, NoDup, Elements;
    TotalWithout(s.data.vals, k);
    s.(memory := s.memory - Cost(k, s.data.vals[k]),
       data := Pop(s.data, k),
       expires := Pop(s.expires, k),
       access := s.access - {k})
  }

  lemma RemoveStored(s: Store, k: bytes)
    requires Valid(s) && k in s.data.vals
    ensures Stored(Remove(s, k)) == Stored(s) - {k}
  {
    hide Total, Ranked, NoDup, Elements;
  }

  function Write(s: Store, k: bytes, v: bytes): (r: Store)
    requires Valid(s)
    ensures Valid(r) && SameReport(r, s) && k in r.data.vals
    ensures r.tick == s.tick && r.access == s.access
    ensures r.sweepCursor == s.sweepCursor
  {
    TotalPut(s.data.vals, k, v);
    var memory :=
      if k in s.data.vals then s.memory + |v| - |s.data.vals[k]| else s.memory + Cost(k, v);
    s.(memory := memory, data := Put(s.data, k, v))
  }

  /** Install or clear the deadline of a stored key. */
  function PutDeadline(s: Store, k: bytes, deadline: Option<int>): (r: Store)
    requires Valid(s) && k in s.data.vals
    ensures Valid(r) && SameReport(r, s) && Reduced(s, r)
    ensures r.sweepCursor == s.sweepCursor
  {
    s.(expires := if deadline.None? then Pop(s.expires, k) else Put(s.expires, k, deadline.value))
  }

  lemma PutDeadlineStored(s: Store, k: bytes, deadline: Option<int>)
    requires Valid(s) && k in s.data.vals
    ensures Stored(PutDeadline(s, k, deadline)) == Stored(s)[k := Entry(s.data.vals[k], deadline)]
  {
    hide Total, Ranked, NoDup, Elements;
  }

  /** Store a value without touching the deadline the key may have. */
  lemma WriteStored(s: Store, k: bytes, v: bytes)
    requires Valid(s)
    ensures Stored(Write(s, k, v))
         == Stored(s)[k := Entry(v, if k in Stored(s) then Stored(s)[k].deadline else None)]
    ensures Write(s, k, v).data.vals[k] == v
  {
    hide Total, Ranked, NoDup, Elements;
  }

  /** Mark a stored key as just used. */
  function Touch(s: Store, k: bytes): (r: Store)
    requires Valid(s) && k in s.data.vals
    ensures Valid(r) && SameReport(r, s) && Stored(r) == Stored(s)
    ensures r.sweepCursor == s.sweepCursor
  {
    s.(tick := s.tick + 1, access := s.access[k := s.tick + 1])
  }

  predicate DeadlinePassed(s: Store, now: int, k: bytes) {
    k in s.expires.vals && now >= s.expires.vals[k]
  }

  function DropIfExpired(s: Store, now: int, k: bytes): (r: Store)
    requires Valid(s)
    ensures Valid(r) && SameReport(r, s) && Reduced(s, r)
    ensures r.sweepCursor == s.sweepCursor
  {
    if DeadlinePassed(s, now, k) then Remove(s, k) else s
  }

  lemma DropIfExpiredStored(s: Store, now: int, k: bytes)
    requires Valid(s)
    ensures Stored(DropIfExpired(s, now, k))
         == if k in Stored(s) && Expired(Stored(s)[k], now) then Stored(s) - {k} else Stored(s)
  {
    hide Remove;
    if DeadlinePassed(s, now, k) {
      RemoveStored(s, k);
    }
  }

  /** Lazy expiry drops nothing a client could still see, and leaves nothing it should not. */
  lemma DropIfExpiredView(s: Store, now: int, k: bytes)
    requires Valid(s)
    ensures View(DropIfExpired(s, now, k), now) == View(s, now)
    ensures k in Stored(DropIfExpired(s, now, k)) <==> k in View(s, now)
  {
    hide DropIfExpired, Stored;
    DropIfExpiredStored(s, now, k);
    if k in Stored(s) && Expired(Stored(s)[k], now) {
      UnexpiredWithoutExpired(Stored(s), k, now);
    }
  }

  function DropEach(s: Store, now: int, keys: seq<bytes>): (r: Store)
    requires Valid(s)
    ensures Valid(r) && SameReport(r, s) && Reduced(s, r)
    ensures r.sweepCursor == s.sweepCursor
    decreases |keys|
  {
    hide Valid;
    if |keys| == 0 then s else DropEach(DropIfExpired(s, now, keys[0]), now, keys[1..])
  }

  lemma DropEachNone(s: Store, now: int, keys: seq<bytes>)
    requires Valid(s) && |keys| == 0
    ensures DropEach(s, now, keys) == s
  {
    hide Valid;
  }

  /** Visiting one key removes it if its deadline has passed and leaves the rest to be visited. */
  lemma DropEachStep(s: Store, now: int, keys: seq<bytes>)
    requires Valid(s) && |keys| > 0
    ensures !DeadlinePassed(s, now, keys[0]) ==> DropEach(s, now, keys) == DropEach(s, now, keys[1..])
    ensures DeadlinePassed(s, now, keys[0]) ==>
      && keys[0] in s.data.vals
      && DropEach(s, now, keys) == DropEach(Remove(s, keys[0]), now, keys[1..])
      && Remove(s, keys[0]).expires.vals == s.expires.vals - {keys[0]}
      && |Remove(s, keys[0]).data.vals| == |s.data.vals| - 1
  {
    hide Total, Ranked, NoDup, Elements, Reduced;
    if DeadlinePassed(s, now, keys[0]) {
      assert s.data.vals == (s.data.vals - {keys[0]})[keys[0] := s.data.vals[keys[0]]];
    }
  }

  /** `drop_expired`: visit every key that carries a deadline. */
  function DropExpired(s: Store, now: int): (r: Store)
    requires Valid(s)
    ensures Valid(r) && SameReport(r, s) && Reduced(s, r)
    ensures r.sweepCursor == s.sweepCursor
  {
    DropEach(s, now, s.expires.order)
  }

  lemma {:induction false} DropEachStored(s: Store, now: int, keys: seq<bytes>)
    requires Valid(s)
    ensures var gone := set k | k in keys && k in Stored(s) && Expired(Stored(s)[k], now);
      Stored(DropEach(s, now, keys)) == Stored(s) - gone
    decreases |keys|
  {
    hide Valid, View, Stored;
    if |keys| == 0 {
    } else {
      DropIfExpiredStored(s, now, keys[0]);
      DropEachStored(DropIfExpired(s, now, keys[0]), now, keys[1..]);
      assert keys == [keys[0]] + keys[1..];
    }
  }

  /** The collection pass removes everything expired and nothing else. */
  lemma DropExpiredStored(s: Store, now: int)
    requires Valid(s)
    ensures Stored(DropExpired(s, now)) == Unexpired(Stored(s), now)
    ensures View(DropExpired(s, now), now) == View(s, now)
  {
    hide DropEach, Unexpired;
    DropEachStored(s, now, s.expires.order);
    ListsEveryKey(s.expires);
    DroppingAllExpired(Stored(s), now, set k | k in s.expires.order && k in Stored(s) && Expired(Stored(s)[k], now));
    UnexpiredLater(Stored(s), now, now);
  }

  lemma StoredKeys(s: Store)
    ensures Stored(s).Keys == s.data.vals.Keys
  {
  }
}
