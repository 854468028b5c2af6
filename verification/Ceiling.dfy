/** Memory: the total is exact over every run, and under a limit it is a hard ceiling. */
module Ceiling {
  import opened Bytes
  import opened Keyspace
  import opened StoreModel
  import opened Eviction
  import opened StoreOps
  import opened Sweep
  import opened Facts
  import opened Commands
  import opened LogFormat
  import opened Journaling
  import opened Runs
  import Durability
  import FailStop

  lemma WriteWeighs(s: Store, k: bytes, v: bytes)
    requires Valid(s)
    ensures Write(s, k, v).memory == Projected(s, k, Cost(k, v))
  {
    hide Valid;
  }

  lemma SetFits(s: Store, now: int, k: bytes, v: bytes, ttl: Option<int>)
    requires Valid(s) && s.maxmemory != 0 && Set(s, now, k, v, ttl).1.None?
    ensures Set(s, now, k, v, ttl).0.memory <= s.maxmemory
  {
    hide Valid, Admit, PutDeadline, Write;
    AdmissionIsAllOrNothing(s, now, k, v);
    var a := Admit(s, now, k, v).value;
    WriteWeighs(a, k, v);
    var deadline := if ttl.None? then None else Deadline(now, ttl.value);
    PutDeadlineIsFree(Write(a, k, v), k, deadline);
  }

  /** A deadline costs nothing. */
  lemma PutDeadlineIsFree(s: Store, k: bytes, deadline: Option<int>)
    requires Valid(s) && k in s.data.vals
    ensures PutDeadline(s, k, deadline).memory == s.memory
  {
    hide Valid;
  }

  lemma IncrFits(s: Store, now: int, k: bytes)
    requires Valid(s) && s.maxmemory != 0 && Incr(s, now, k).1.Success?
    ensures Incr(s, now, k).0.memory <= s.maxmemory
  {
    hide Valid, Admit, DropIfExpired, Write, Current;
    var live := DropIfExpired(s, now, k);
    var v := Render(Current(live, k).value + 1);
    AdmissionIsAllOrNothing(live, now, k, v);
    WriteWeighs(Admit(live, now, k, v).value, k, v);
  }

  /** The ceiling after one command: a write that is carried out ends within it, nothing else adds a byte. */
  lemma HandleRespectsCeiling(c: Command, s: Store, now: int, args: seq<bytes>)
    requires Valid(s) && ArityOk(c, |args|)
    ensures var o := Handle(c, s, now, args);
      && (!CarriedOut(c, o.reply) ==> o.store.memory <= s.memory)
      && (CarriedOut(c, o.reply) && s.maxmemory != 0 ==> o.store.memory <= s.maxmemory)
  {
    hide Valid, Set, Incr, Get, Delete, Exists, Expire, Persist, Ttl, Dbsize, StoreErrorReply, Err, ParseSetOptions;
    match c
    case SetC =>
      var options := ParseSetOptions(args);
      if options.Options? && s.maxmemory != 0 && Set(s, now, args[0], args[1], options.ttl).1.None? {
        SetFits(s, now, args[0], args[1], options.ttl);
      }
      BadOptionsAreErrors(args);
    case IncrC =>
      if s.maxmemory != 0 && Incr(s, now, args[0]).1.Success? {
        IncrFits(s, now, args[0]);
      }
      FailuresAreErrors();
    case FlushdbC => assert s.memory >= 0 by { MemoryIsNatural(s); }
    case _ =>
  }

  lemma BadOptionsAreErrors(args: seq<bytes>)
    ensures ParseSetOptions(args).BadOptions? ==> ParseSetOptions(args).reply.Error?
    ensures Err(INVALID_SET_EXPIRE).Error? && forall e :: StoreErrorReply(e).Error?
  {
  }

  lemma FailuresAreErrors()
    ensures forall e :: StoreErrorReply(e).Error?
  {
  }

  lemma MemoryIsNatural(s: Store)
    requires Valid(s)
    ensures s.memory >= 0
  {
  }

  ghost predicate WithinLimit(s: Store) {
    s.maxmemory != 0 ==> s.memory <= s.maxmemory
  }

  lemma StepKeepsCeiling(w: World, e: Event)
    requires Valid(w.store) && WithinLimit(w.store) && !e.Restart?
    ensures WithinLimit(Step(w, e).store) && SameConfig(Step(w, e).store, w.store)
  {
    hide Valid, Handle, RouteOf, SweepExpired, Ascii, CarriedOut;
    match e
    case Request(parts) =>
      if |parts| > 0 && RouteOf(parts).Routed? {
        HandleRespectsCeiling(RouteOf(parts).command, w.store, w.now, RouteOf(parts).args);
      }
    case _ =>
  }

  /**
   * Exact accounting. The incremental total is the sum over all stored entries of their key's and their value's
   * bytes and 64 more, in every valid store and so in every state of a run.
   */
  lemma MemoryIsFootprint(s: Store)
    requires Valid(s)
    ensures s.memory == Payload(Stored(s)) + 64 * |Stored(s)|
  {
    hide Valid, Stored;
    MemoryIsExact(s);
    TotalIsFootprint(Stored(s));
  }

  lemma RunMemoryIsFootprint(w: World, events: seq<Event>)
    requires Valid(w.store)
    ensures var s := Run(w, events).store; s.memory == Payload(Stored(s)) + 64 * |Stored(s)|
  {
    hide Valid, Run, Stored;
    MemoryIsFootprint(Run(w, events).store);
  }

  lemma ValuesOfStored(s: Store, k: bytes, v: bytes)
    ensures Values(Stored(s)) == s.data.vals && Values(Stored(s)[k := Entry(v, None)]) == s.data.vals[k := v]
  {
  }

  lemma ProjectedIsFootprint(s: Store, k: bytes, v: bytes)
    requires Valid(s)
    ensures Projected(s, k, Cost(k, v)) == Footprint(Stored(s)[k := Entry(v, None)])
  {
    hide Valid, Stored, Total, Footprint;
    var after := Stored(s)[k := Entry(v, None)];
    MemoryIsExact(s);
    ValuesOfStored(s, k, v);
    TotalPut(s.data.vals, k, v);
    TotalIsFootprint(after);
  }

  /**
   * Admission in bytes. A write is refused if and only if there is a limit, the keyspace with the new value would be
   * larger, and the policy forbids eviction or the entry by itself is larger; a write that is admitted fits.
   */
  lemma AdmissionInBytes(s: Store, now: int, k: bytes, v: bytes)
    requires Valid(s)
    ensures var after := Stored(s)[k := Entry(v, None)];
      Admit(s, now, k, v).None? <==>
        && s.maxmemory != 0 && Payload(after) + 64 * |after| > s.maxmemory
        && (s.policy.NoEviction? || |k| + |v| + 64 > s.maxmemory)
    ensures Admit(s, now, k, v).Some? && s.maxmemory != 0 ==>
      var after := Stored(Admit(s, now, k, v).value)[k := Entry(v, None)];
      Payload(after) + 64 * |after| <= s.maxmemory
  {
    hide Valid, Stored, Admit, Payload;
    AdmissionIsAllOrNothing(s, now, k, v);
    ProjectedIsFootprint(s, k, v);
    if Admit(s, now, k, v).Some? {
      ProjectedIsFootprint(Admit(s, now, k, v).value, k, v);
    }
    CostInBytes(k, v);
  }

  /** One entry alone, measured as a keyspace. */
  lemma CostInBytes(k: bytes, v: bytes)
    ensures Cost(k, v) == |k| + |v| + 64
  {
    var m := map[k := Entry(v, None)];
    TotalIsFootprint(m);
    var j :| j in m && Payload(m) == |j| + |m[j].value| + Payload(m - {j});
    assert m - {j} == map[] && Values(m) == map[k := v];
    TotalWithout(Values(m), k);
    TotalEmpty(Values(m) - {k});
  }

  /**
   * The hard ceiling. From a state within the limit no run short of a restart ever leaves it, and the total it
   * is judged by is exactly the sum of the costs of the stored entries.
   */
  lemma {:induction false} RunStaysWithinCeiling(w: World, events: seq<Event>)
    requires Valid(w.store) && WithinLimit(w.store) && FailStop.NoRestart(events)
    ensures WithinLimit(Run(w, events).store)
    ensures Run(w, events).store.memory == Total(Values(Stored(Run(w, events).store)))
    ensures var s := Run(w, events).store; s.memory == Payload(Stored(s)) + 64 * |Stored(s)|
    decreases |events|
  {
    hide Valid, Step, Stored;
    if |events| > 0 {
      StepKeepsCeiling(w, events[0]);
      RunStaysWithinCeiling(Step(w, events[0]), events[1..]);
    } else {
      MemoryIsExact(w.store);
      MemoryIsFootprint(w.store);
    }
  }

  lemma MemoryIsExact(s: Store)
    requires Valid(s)
    ensures s.memory == Total(Values(Stored(s)))
  {
    assert Values(Stored(s)) == s.data.vals;
  }

  /** An overwrite that does not grow is always admitted from a state within the limit. */
  lemma ShrinkingOverwriteAdmitted(s: Store, k: bytes, v: bytes)
    requires Valid(s) && WithinLimit(s) && k in s.data.vals && |v| <= |s.data.vals[k]|
    ensures !Refused(s, k, v)
  {
    hide Total;
  }

  /** The part of the total that `k` is responsible for. */
  lemma OwnCost(s: Store, k: bytes)
    requires Valid(s) && k in s.data.vals
    ensures s.memory >= Cost(k, s.data.vals[k])
  {
    TotalWithout(s.data.vals, k);
  }

  /**
   * Recovery may exceed the limit, and then the documented promise fails under either policy. An overwrite that
   * does not grow is refused exactly when there is a limit and, under `noeviction`, what it saves leaves the total
   * above it, or, under `allkeys-lru`, the entry alone does not fit.
   */
  lemma ShrinkingOverwriteAfterRecovery(s: Store, now: int, k: bytes, v: bytes)
    requires Valid(s) && k in s.data.vals && |v| <= |s.data.vals[k]|
    ensures Admit(s, now, k, v).None? <==>
      s.maxmemory != 0 && match s.policy {
        case NoEviction => s.memory > s.maxmemory + (|s.data.vals[k]| - |v|)
        case AllKeysLru => |k| + |v| + 64 > s.maxmemory
      }
  {
    OwnCost(s, k);
    AdmissionIsAllOrNothing(s, now, k, v);
    hide Valid, Admit;
  }

  const COUNTER: bytes := [107]

  /** A server recovered from this log, limited to ten bytes, refuses to shrink the one value it holds. */
  lemma ShrinkingOverwriteRefused(policy: Policy, fate: Fate, now: int)
    ensures var file := EncodeLog([Written(COUNTER, [1, 2], None)]);
      && Loads(file, 10, policy, now)
      && var s := Start(file, 10, policy, fate, now).store;
         && Stored(s) == map[COUNTER := Entry([1, 2], None)] && s.maxmemory == 10 && s.policy == policy
         && Admit(s, now, COUNTER, [1]).None?
  {
    hide Valid, Load, Stored, EncodeLog, States, TornRecord, Admit, FreshStore, Unexpired;
    var facts := [Written(COUNTER, [1, 2], None)];
    var file := EncodeLog(facts);
    StatesNothing();
    StatesMore([], [], facts);
    assert [] + file == file && [] + facts == facts && file + [] == file;
    LoadOfLog(file, facts, [], FreshStore(10, policy), now);
    var s := Start(file, 10, policy, fate, now).store;
    OneFact(facts, now);
    FreshConfig(10, policy);
    StoredEntry(s, COUNTER);
    ShrinkingOverwriteAfterRecovery(s, now, COUNTER, [1]);
    OwnCost(s, COUNTER);
  }

  lemma OneFact(facts: seq<Fact>, now: int)
    requires facts == [Written(COUNTER, [1, 2], None)]
    ensures AllRecordable(facts) && Unexpired(Recorded(facts), now) == map[COUNTER := Entry([1, 2], None)]
  {
    Durability.ApplyOne(map[], facts[0]);
    assert facts == [facts[0]];
  }

  lemma FreshConfig(maxmemory: nat, policy: Policy)
    ensures var s := FreshStore(maxmemory, policy); s.maxmemory == maxmemory && s.policy == policy
  {
  }

  lemma StoredEntry(s: Store, k: bytes)
    requires k in Stored(s)
    ensures k in s.data.vals && s.data.vals[k] == Stored(s)[k].value
  {
  }
}
