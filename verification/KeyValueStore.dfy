/** The keyspace as the program holds it: one object whose methods update their fields in place. */
module KeyValue {
  import opened Bytes
  import opened Dictionary
  import opened Keyspace
  import opened StoreModel
  import Eviction
  import Sweep
  import StoreOps

  /** The keys still to be visited are distinct and all present. */
  ghost predicate Pending(keys: seq<bytes>, m: map<bytes, int>) {
    NoDup(keys) && forall k :: k in keys ==> k in m
  }

  lemma AllPending(s: Store)
    requires StoreModel.Valid(s)
    ensures Pending(s.expires.order, s.expires.vals) && s.expires.order[0..] == s.expires.order
  {
    ListsEveryKey(s.expires);
  }

  lemma PendingNext(keys: seq<bytes>, m: map<bytes, int>)
    requires Pending(keys, m) && |keys| > 0
    ensures keys[0] in m && Pending(keys[1..], m) && Pending(keys[1..], m - {keys[0]})
  {
  }

  class KeyValueStore {
    var data: Dict<bytes>
    var expires: Dict<int>
    var access: map<bytes, nat>
    var memory: int
    var tick: nat
    var sweepCursor: seq<bytes>
    var evictCursor: seq<bytes>
    var evicted: seq<bytes>
    const maxmemory: nat
    const policy: Policy

    /** The reading of the injected clock; it does not change while an operation runs. */
    var now: int

    function Model(): Store
      reads this
    {
      Store(data, expires, access, memory, tick, sweepCursor, evictCursor, evicted, maxmemory, policy)
    }

    ghost predicate Valid()
      reads this
    {
      StoreModel.Valid(Model())
    }

    constructor (maxmemory: nat, policy: Policy, now: int)
      ensures Valid() && Model() == FreshStore(maxmemory, policy) && this.now == now
    {
      this.maxmemory, this.policy, this.now := maxmemory, policy, now;
      data, expires, access := Dict([], map[]), Dict([], map[]), map[];
      memory, tick := 0, 0;
      sweepCursor, evictCursor, evicted := [], [], [];
      new;
      assert Model() == FreshStore(maxmemory, policy);
    }

    // -- Client operations -------------------------------------------------

    method Set(key: bytes, value: bytes, ttl: Option<int>) returns (error: Option<StoreError>)
      requires Valid()
      modifies this
      ensures Valid() && now == old(now)
      ensures (Model(), error) == StoreOps.Set(old(Model()), now, key, value, ttl)
    {
      hide StoreModel.Valid, Reduced;
      var deadline := None;
      if ttl.Some? {
        deadline := StoreOps.Deadline(now, ttl.value);
        if deadline.None? {
          return Some(InvalidExpire);
        }
      }
      var admitted := Admit(key, value);
      if !admitted {
        return Some(OutOfMemory);
      }
      Write(key, value);
      ghost var written := Model();
      if deadline.None? {
        expires := Pop(expires, key);
      } else {
        expires := Put(expires, key, deadline.value);
      }
      assert Model() == PutDeadline(written, key, deadline);
      Touch(key);
      error := None;
    }

    method Get(key: bytes) returns (value: Option<bytes>)
      requires Valid()
      modifies this
      ensures Valid() && now == old(now)
      ensures (Model(), value) == StoreOps.Get(old(Model()), now, key)
    {
      hide StoreModel.Valid, Reduced;
      DropIfExpired(key);
      if key in data.vals {
        value := Some(data.vals[key]);
        Touch(key);
      } else {
        value := None;
      }
    }

    method Delete(keys: seq<bytes>) returns (removed: nat)
      requires Valid()
      modifies this
      ensures Valid() && now == old(now)
      ensures (Model(), removed) == StoreOps.Delete(old(Model()), now, keys)
    {
      hide StoreModel.Valid, Reduced;
      removed := 0;
      for i := 0 to |keys|
        invariant Valid() && now == old(now)
        invariant StoreOps.Delete(Model(), now, keys[i..]).0 == StoreOps.Delete(old(Model()), now, keys).0
        invariant StoreOps.Delete(Model(), now, keys[i..]).1 + removed == StoreOps.Delete(old(Model()), now, keys).1
      {
        assert keys[i..][0] == keys[i] && keys[i..][1..] == keys[i + 1..];
        DropIfExpired(keys[i]);
        if keys[i] in data.vals {
          Remove(keys[i]);
          removed := removed + 1;
        }
      }
    }

    method Exists(keys: seq<bytes>) returns (present: nat)
      requires Valid()
      modifies this
      ensures Valid() && now == old(now)
      ensures (Model(), present) == StoreOps.Exists(old(Model()), now, keys)
    {
      hide StoreModel.Valid, Reduced;
      present := 0;
      for i := 0 to |keys|
        invariant Valid() && now == old(now)
        invariant StoreOps.Exists(Model(), now, keys[i..]).0 == StoreOps.Exists(old(Model()), now, keys).0
        invariant StoreOps.Exists(Model(), now, keys[i..]).1 + present == StoreOps.Exists(old(Model()), now, keys).1
      {
        assert keys[i..][0] == keys[i] && keys[i..][1..] == keys[i + 1..];
        DropIfExpired(keys[i]);
        if keys[i] in data.vals {
          present := present + 1;
        }
      }
    }

    method Incr(key: bytes) returns (updated: Result<int>)
      requires Valid()
      modifies this
      ensures Valid() && now == old(now)
      ensures (Model(), updated) == StoreOps.Incr(old(Model()), now, key)
    {
      hide StoreModel.Valid, Reduced;
      DropIfExpired(key);
      var current := if key in data.vals then ParseInt(data.vals[key]) else Some(0);
      if current.None? {
        return Failure(NotAnInteger);
      }
      var next := current.value + 1;
      if next > INT64_MAX {
        return Failure(IntegerOverflow);
      }
      var encoded := Render(next);
      var admitted := Admit(key, encoded);
      if !admitted {
        return Failure(OutOfMemory);
      }
      Write(key, encoded);
      Touch(key);
      updated := Success(next);
    }

    method Expire(key: bytes, ttl: int) returns (applied: Result<bool>)
      requires Valid()
      modifies this
      ensures Valid() && now == old(now)
      ensures (Model(), applied) == StoreOps.Expire(old(Model()), now, key, ttl)
    {
      hide StoreModel.Valid, Reduced;
      DropIfExpired(key);
      if key !in data.vals {
        return Success(false);
      }
      if ttl <= 0 {
        Remove(key);
        return Success(true);
      }
      var deadline := StoreOps.Deadline(now, ttl);
      if deadline.None? {
        return Failure(InvalidExpire);
      }
      ghost var live := Model();
      expires := Put(expires, key, deadline.value);
      assert Model() == PutDeadline(live, key, deadline);
      applied := Success(true);
    }

    method Ttl(key: bytes) returns (result: StoreOps.TtlResult)
      requires Valid()
      modifies this
      ensures Valid() && now == old(now)
      ensures (Model(), result) == StoreOps.Ttl(old(Model()), now, key)
    {
      hide StoreModel.Valid, Reduced;
      DropIfExpired(key);
      if key !in data.vals {
        return StoreOps.TtlResult(false, None);
      }
      if key !in expires.vals {
        return StoreOps.TtlResult(true, None);
      }
      result := StoreOps.TtlResult(true, Some(expires.vals[key] - now));
    }

    method Persist(key: bytes) returns (removed: bool)
      requires Valid()
      modifies this
      ensures Valid() && now == old(now)
      ensures (Model(), removed) == StoreOps.Persist(old(Model()), now, key)
    {
      hide StoreModel.Valid, Reduced;
      DropIfExpired(key);
      if key !in data.vals || key !in expires.vals {
        return false;
      }
      ghost var live := Model();
      expires := Pop(expires, key);
      assert Model() == PutDeadline(live, key, None);
      removed := true;
    }

    method DeadlineMs(key: bytes) returns (deadline: Option<int>)
      requires Valid()
      ensures deadline == StoreOps.DeadlineMs(Model(), key)
      ensures deadline == if key in Stored(Model()) then Stored(Model())[key].deadline else None
    {
      hide Total, Ranked, NoDup;
      deadline := if key in expires.vals then Some(expires.vals[key]) else None;
    }

    method Dbsize() returns (size: nat)
      requires Valid()
      modifies this
      ensures Valid() && now == old(now)
      ensures (Model(), size) == StoreOps.Dbsize(old(Model()), now)
    {
      hide StoreModel.Valid, Reduced;
      var _ := DropExpired();
      size := |data.vals|;
    }

    method DropExpired() returns (removed: nat)
      requires Valid()
      modifies this
      ensures Valid() && now == old(now)
      ensures Model() == StoreModel.DropExpired(old(Model()), now)
      ensures removed + |data.vals| == |old(data.vals)|
    {
      hide StoreModel.Valid, Reduced, StoreModel.Remove, Pending, DropEach;
      var keys := expires.order;
      AllPending(Model());
      removed := 0;
      for i := 0 to |keys|
        invariant Valid() && now == old(now)
        invariant Pending(keys[i..], expires.vals)
        invariant DropEach(Model(), now, keys[i..]) == DropEach(old(Model()), now, keys)
        invariant removed + |data.vals| == |old(data.vals)|
      {
        assert keys[i..][0] == keys[i] && keys[i..][1..] == keys[i + 1..];
        PendingNext(keys[i..], expires.vals);
        DropEachStep(Model(), now, keys[i..]);
        if now >= expires.vals[keys[i]] {
          Remove(keys[i]);
          removed := removed + 1;
        }
      }
      DropEachNone(Model(), now, keys[|keys|..]);
    }

    method FlushDb()
      requires Valid()
      modifies this
      ensures Valid() && now == old(now)
      ensures Model() == StoreOps.FlushDb(old(Model()))
      ensures Stored(Model()) == map[] && memory == 0 && access == map[] && sweepCursor == [] && evictCursor == []
      ensures tick == old(tick) && evicted == old(evicted)
    {
      hide StoreModel.Valid, Reduced;
      data, expires, sweepCursor := Dict([], map[]), Dict([], map[]), [];
      access, evictCursor, memory := map[], [], 0;
      assert Model() == StoreOps.FlushDb(old(Model()));
    }

    method TakeEvicted() returns (report: seq<bytes>)
      requires Valid()
      modifies this
      ensures Valid() && now == old(now)
      ensures report == old(evicted) && Model() == StoreOps.TakeEvicted(old(Model()))
    {
      hide StoreModel.Valid, Reduced;
      report, evicted := evicted, [];
      assert Model() == StoreOps.TakeEvicted(old(Model()));
    }

    method SweepExpired(limit: nat) returns (removed: nat, ghost seen: seq<bytes>)
      requires Valid()
      modifies this
      ensures Valid() && now == old(now)
      ensures (Model(), removed) == Sweep.SweepExpired(old(Model()), now, limit)
      ensures |seen| <= limit && seen == Sweep.Examined(old(Model()), now, limit, false)
    {
      hide StoreModel.Valid, Reduced, StoreModel.Remove, Sweep.Sweeping, Sweep.SweepExpired, Sweep.Examined;
      removed, seen := 0, [];
      ghost var whole, all := Sweep.SweepExpired(Model(), now, limit), Sweep.Examined(Model(), now, limit, false);
      Sweep.SweepingStarts(Model(), now, limit);
      var refilled := false;
      var examined := 0;
      while examined < limit
        invariant examined == |seen| <= limit && Valid() && now == old(now)
        invariant Sweep.Sweeping(Model(), now, limit - examined, refilled, seen, removed, whole, all)
      {
        ghost var before, first := Model(), !refilled && |sweepCursor| == 0;
        if |sweepCursor| == 0 {
          if refilled || |expires.order| == 0 {
            break;
          }
          sweepCursor, refilled := expires.order, true;
        }
        var key := sweepCursor[|sweepCursor| - 1];
        sweepCursor := sweepCursor[..|sweepCursor| - 1];
        Sweep.SweepingGoesOn(before, now, limit - examined, refilled && !first, seen, removed, whole, all);
        if key in expires.vals && now >= expires.vals[key] {
          Remove(key);
          removed := removed + 1;
        }
        examined, seen := examined + 1, seen + [key];
      }
      Sweep.SweepingEnds(Model(), now, limit - examined, refilled, seen, removed, whole, all);
    }

    // -- Recovery primitives -----------------------------------------------

    method Restore(key: bytes, value: bytes, deadline: Option<int>)
      requires Valid()
      modifies this
      ensures Valid() && now == old(now)
      ensures Model() == StoreOps.Restore(old(Model()), key, value, deadline)
    {
      hide StoreModel.Valid, Reduced;
      Write(key, value);
      ghost var written := Model();
      if deadline.None? {
        expires := Pop(expires, key);
      } else {
        expires := Put(expires, key, deadline.value);
      }
      assert Model() == PutDeadline(written, key, deadline);
    }

    method SetDeadline(key: bytes, deadline: int)
      requires Valid()
      modifies this
      ensures Valid() && now == old(now)
      ensures Model() == StoreOps.SetDeadline(old(Model()), key, deadline)
    {
      hide StoreModel.Valid, Reduced;
      if key in data.vals {
        expires := Put(expires, key, deadline);
        assert Model() == PutDeadline(old(Model()), key, Some(deadline));
      }
    }

    method ClearDeadline(key: bytes)
      requires Valid()
      modifies this
      ensures Valid() && now == old(now)
      ensures Model() == StoreOps.ClearDeadline(old(Model()), key)
    {
      hide StoreModel.Valid, Reduced;
      expires := Pop(expires, key);
      assert Model() == StoreOps.ClearDeadline(old(Model()), key);
    }

    method Discard(keys: seq<bytes>)
      requires Valid()
      modifies this
      ensures Valid() && now == old(now)
      ensures Model() == StoreOps.Discard(old(Model()), keys)
    {
      hide StoreModel.Valid, Reduced;
      for i := 0 to |keys|
        invariant Valid() && now == old(now)
        invariant StoreOps.Discard(Model(), keys[i..]) == StoreOps.Discard(old(Model()), keys)
      {
        assert keys[i..][0] == keys[i] && keys[i..][1..] == keys[i + 1..];
        if keys[i] in data.vals {
          Remove(keys[i]);
        }
      }
    }

    // -- Primitives --------------------------------------------------------

    method DropIfExpired(key: bytes)
      requires Valid()
      modifies this
      ensures Valid() && now == old(now)
      ensures Model() == StoreModel.DropIfExpired(old(Model()), now, key)
    {
      hide Total, Ranked, NoDup, Reduced;
      if key in expires.vals && now >= expires.vals[key] {
        Remove(key);
      }
    }

    method Remove(key: bytes)
      requires Valid() && key in data.vals
      modifies this
      ensures Valid() && now == old(now)
      ensures Model() == StoreModel.Remove(old(Model()), key)
    {
      hide StoreModel.Valid, Reduced;
      memory := memory - Cost(key, data.vals[key]);
      data := Pop(data, key);
      expires := Pop(expires, key);
      access := access - {key};
      assert Model() == StoreModel.Remove(old(Model()), key);
    }

    method Write(key: bytes, value: bytes)
      requires Valid()
      modifies this
      ensures Valid() && now == old(now)
      ensures Model() == StoreModel.Write(old(Model()), key, value)
    {
      hide StoreModel.Valid, Reduced;
      if key in data.vals {
        memory := memory + |value| - |data.vals[key]|;
      } else {
        memory := memory + Cost(key, value);
      }
      data := Put(data, key, value);
      assert Model() == StoreModel.Write(old(Model()), key, value);
    }

    method Touch(key: bytes)
      requires Valid() && key in data.vals
      modifies this
      ensures Valid() && now == old(now)
      ensures Model() == StoreModel.Touch(old(Model()), key)
    {
      hide StoreModel.Valid, Reduced;
      tick := tick + 1;
      access := access[key := tick];
      assert Model() == StoreModel.Touch(old(Model()), key);
    }

    // -- Memory limits -----------------------------------------------------

    /** `false` is `OutOfMemoryError`, and then nothing has changed. */
    method Admit(key: bytes, value: bytes) returns (admitted: bool)
      requires Valid()
      modifies this
      ensures Valid() && now == old(now)
      ensures Eviction.Admit(old(Model()), now, key, value) == if admitted then Some(Model()) else None
      ensures !admitted ==> Model() == old(Model())
    {
      hide StoreModel.Valid, Reduced;
      if maxmemory == 0 {
        return true;
      }
      var cost := Cost(key, value);
      if Eviction.Projected(Model(), key, cost) <= maxmemory {
        return true;
      }
      if policy.NoEviction? {
        return false;
      }
      if cost > maxmemory {
        return false;
      }
      var _ := DropExpired();
      while Eviction.Projected(Model(), key, cost) > maxmemory
        invariant Valid() && now == old(now)
        invariant Eviction.EvictUntilFits(Model(), key, cost)
               == Eviction.EvictUntilFits(StoreModel.DropExpired(old(Model()), now), key, cost)
        decreases |data.vals|
      {
        Eviction.VictimExists(Model(), key, cost);
        var victim := SelectVictim(key);
        if victim.None? {
          assert false;
        } else {
          Remove(victim.value);
          evicted := evicted + [victim.value];
        }
      }
      admitted := true;
    }

    method SelectVictim(exclude: bytes) returns (victim: Option<bytes>)
      requires Valid()
      modifies this
      ensures Valid() && now == old(now)
      ensures (Model(), victim) == Eviction.SelectVictim(old(Model()), exclude)
    {
      hide StoreModel.Valid, Reduced;
      var candidates := [];
      var refilled := false;
      while |candidates| < Eviction.MAXMEMORY_SAMPLES
        invariant Model() == old(Model()).(evictCursor := evictCursor) && now == old(now)
        invariant Eviction.Sample(old(Model()), exclude, evictCursor, candidates, refilled)
               == Eviction.Sample(old(Model()), exclude, old(evictCursor), [], false)
        decreases if refilled then 0 else 1, |evictCursor|
      {
        if |evictCursor| == 0 {
          if refilled {
            break;
          }
          evictCursor := Without(data.order, exclude);
          refilled := true;
          if |evictCursor| == 0 {
            break;
          }
        }
        var candidate := evictCursor[|evictCursor| - 1];
        evictCursor := evictCursor[..|evictCursor| - 1];
        if candidate != exclude && candidate in data.vals {
          candidates := candidates + [candidate];
        }
      }
      assert (evictCursor, candidates) == Eviction.Sample(old(Model()), exclude, old(evictCursor), [], false);
      victim := if |candidates| == 0 then None else Some(Eviction.LeastRecent(Model(), candidates));
      Eviction.LeastRecentSame(old(Model()), Model(), candidates);
      assert Model() == Eviction.SelectVictim(old(Model()), exclude).0;
    }
  }
}
