/** How long a key lives: SET with its options and EXPIRE, from the bytes of a request to the key's last moment. */
module Lifetimes {
  import opened Bytes
  import opened Resp
  import opened Keyspace
  import opened StoreModel
  import opened Eviction
  import opened StoreOps
  import opened Facts
  import opened Commands
  import opened Reference

  /** A client sees `k` hold `v` until just before `end`, and never from then on. */
  ghost predicate LivesUntil(s: Store, k: bytes, v: bytes, end: int) {
    forall t: int :: (k in View(s, t) <==> t < end) && (t < end ==> View(s, t)[k].value == v)
  }

  ghost predicate LivesForever(s: Store, k: bytes, v: bytes) {
    forall t: int :: k in View(s, t) && View(s, t)[k].value == v
  }

  /** The outcome of a command that did nothing but report an error. */
  predicate OnlyError(s: Store, o: Outcome, message: string) {
    o == Outcome(s, [], [], Error(Ascii(message)))
  }

  lemma EntryLives(s: Store, k: bytes, v: bytes, end: int)
    requires k in Stored(s) && Stored(s)[k] == Entry(v, Some(end))
    ensures LivesUntil(s, k, v, end)
  {
    hide Stored;
  }

  lemma EntryStays(s: Store, k: bytes, v: bytes)
    requires k in Stored(s) && Stored(s)[k] == Entry(v, None)
    ensures LivesForever(s, k, v)
  {
    hide Stored;
  }

  /** What GET answers at a later time. */
  lemma GetWhileItLives(s: Store, k: bytes, v: bytes, end: int, t: int)
    requires Valid(s) && LivesUntil(s, k, v, end)
    ensures HandleGet(s, t, [k]).reply == if t < end then Bulk(v) else NullBulk
  {
    assert k in View(s, t) <==> t < end;
    hide Valid, View, Get, LivesUntil;
    GetView(s, t, k);
    assert [k][0] == k;
  }

  // -- SET -----------------------------------------------------------------

  /** The milliseconds an option asks for; `EX` counts seconds and `PX` milliseconds, in either case. */
  predicate Asks(option: bytes, n: int, ms: int) {
    (Spells(option, "EX") && ms == n * 1000) || (Spells(option, "PX") && ms == n)
  }

  lemma OptionsAreRead(args: seq<bytes>)
    requires |args| >= 2
    ensures |args| == 2 ==> ParseSetOptions(args) == Options(None)
    ensures |args| == 4 && ParseInt(args[3]).Some? ==>
      forall ms :: Asks(args[2], ParseInt(args[3]).value, ms) ==> ParseSetOptions(args) == Options(Some(ms))
    ensures |args| == 4 && (Spells(args[2], "EX") || Spells(args[2], "PX")) && ParseInt(args[3]).None? ==>
      ParseSetOptions(args) == BadOptions(StoreErrorReply(NotAnInteger))
    ensures |args| > 2 && (|args| != 4 || !(Spells(args[2], "EX") || Spells(args[2], "PX"))) ==>
      ParseSetOptions(args) == BadOptions(Err(SYNTAX_ERROR))
  {
    hide ParseInt, Upper, Ascii, Spells, StoreErrorReply, Err;
    OptionNames();
    if |args| == 4 {
      UpperSpells(args[2], "EX");
      UpperSpells(args[2], "PX");
    }
  }

  lemma OptionNames()
    ensures EX == Ascii("EX") && PX == Ascii("PX") && EX != PX
  {
    assert EX[0] != PX[0];
  }

  /** A SET that is carried out stores its value under the deadline it asked for and records just that. */
  lemma SetStores(s: Store, now: int, k: bytes, v: bytes, ttl: Option<int>)
    requires Valid(s) && Set(s, now, k, v, ttl).1.None?
    ensures var end := Set(s, now, k, v, ttl).0;
      var deadline := if ttl.None? then None else Some(now + ttl.value);
      && k in Stored(TakeEvicted(end)) && Stored(TakeEvicted(end))[k] == Entry(v, deadline)
      && DeadlineMs(end, k) == deadline
  {
    SetView(s, now, k, v, ttl);
    hide Valid, Set, Stored, Refused;
    var end := Set(s, now, k, v, ttl).0;
    assert k in View(end, now);
  }

  /** When the SET of a valid request fails, and that it then does nothing. */
  lemma SetFails(s: Store, now: int, k: bytes, v: bytes, ttl: Option<int>)
    requires Valid(s)
    ensures var (r, error) := Set(s, now, k, v, ttl);
      && (error == Some(InvalidExpire) <==>
            ttl.Some? && (ttl.value <= 0 || now + ttl.value > 9_223_372_036_854_775_807))
      && (error == Some(OutOfMemory) <==> error != Some(InvalidExpire) && Admit(s, now, k, v).None?)
      && (error.Some? ==> r == s && (error == Some(InvalidExpire) || error == Some(OutOfMemory)))
  {
    hide Valid, Admit;
  }

  /**
   * SET with a duration. With an option spelled EX or PX and a whole number n of seconds or milliseconds, the key
   * lives exactly until that long from now, and that deadline is what is recorded. A duration that is not positive, or
   * that leads past the 64-bit range, is refused, as is a value there is no memory for, and nothing has changed.
   */
  lemma SetLives(s: Store, now: int, args: seq<bytes>, n: int, ms: int)
    requires Valid(s) && s.evicted == [] && |args| == 4 && ParseInt(args[3]) == Some(n) && Asks(args[2], n, ms)
    ensures var o := HandleSet(s, now, args);
      if ms <= 0 || now + ms > 9_223_372_036_854_775_807 then
        OnlyError(s, o, "ERR invalid expire time in 'set' command")
      else if Admit(s, now, args[0], args[1]).None? then o == Outcome(s, [], [], StoreErrorReply(OutOfMemory))
      else
        && o.reply == Simple([79, 75]) && LivesUntil(o.store, args[0], args[1], now + ms)
        && args[0] in View(o.store, now) && View(o.store, now)[args[0]] == Entry(args[1], Some(now + ms))
        && |o.facts| > 0 && o.facts[|o.facts| - 1] == Written(args[0], args[1], Some(now + ms))
  {
    hide Valid, Set, Admit, ParseSetOptions, ParseInt, Asks, Stored, LivesUntil, Ascii, StoreErrorReply, DeadlineMs;
    OptionsAreRead(args);
    SetFails(s, now, args[0], args[1], Some(ms));
    if Set(s, now, args[0], args[1], Some(ms)).1.None? {
      SetStores(s, now, args[0], args[1], Some(ms));
      EntryLives(HandleSet(s, now, args).store, args[0], args[1], now + ms);
      SeenNow(HandleSet(s, now, args).store, args[0], now);
    }
  }

  /** SET without options: the key lives on, whatever deadline it had before. */
  lemma SetStays(s: Store, now: int, args: seq<bytes>)
    requires Valid(s) && s.evicted == [] && |args| == 2
    ensures var o := HandleSet(s, now, args);
      if Admit(s, now, args[0], args[1]).None? then o == Outcome(s, [], [], StoreErrorReply(OutOfMemory))
      else
        && o.reply == Simple([79, 75]) && LivesForever(o.store, args[0], args[1])
        && |o.facts| > 0 && o.facts[|o.facts| - 1] == Written(args[0], args[1], None)
  {
    hide Valid, Set, Admit, ParseSetOptions, Stored, LivesForever, Ascii, StoreErrorReply, DeadlineMs;
    OptionsAreRead(args);
    SetFails(s, now, args[0], args[1], None);
    if Set(s, now, args[0], args[1], None).1.None? {
      SetStores(s, now, args[0], args[1], None);
      EntryStays(HandleSet(s, now, args).store, args[0], args[1]);
    }
  }

  /** Any other options are an error, and so is a duration that is no integer; nothing changes. */
  lemma SetRejects(s: Store, now: int, args: seq<bytes>)
    requires Valid(s) && |args| > 2
    ensures |args| != 4 || !(Spells(args[2], "EX") || Spells(args[2], "PX")) ==>
      OnlyError(s, HandleSet(s, now, args), "ERR syntax error")
    ensures |args| == 4 && (Spells(args[2], "EX") || Spells(args[2], "PX")) && ParseInt(args[3]).None? ==>
      HandleSet(s, now, args) == Outcome(s, [], [], StoreErrorReply(NotAnInteger))
  {
    hide Valid, Set, ParseSetOptions, ParseInt, Spells, Ascii, StoreErrorReply;
    OptionsAreRead(args);
  }

  /** A key just set for n seconds answers n to TTL straight away, not n - 1, whatever the write had to evict. */
  lemma TtlAfterSetIsWhole(s: Store, now: int, k: bytes, v: bytes, option: bytes, seconds: int)
    requires Valid(s) && s.evicted == [] && Spells(option, "EX")
    requires var o := HandleSet(s, now, [k, v, option, Render(seconds)]); o.reply == Simple([79, 75])
    ensures var o := HandleSet(s, now, [k, v, option, Render(seconds)]);
      TtlReply(Ttl(o.store, now, k).1) == Integer(seconds)
  {
    hide Valid, Set, Admit, ParseInt, Render, Ascii, Ttl, TtlReply, View, HandleSet, Spells, LivesUntil;
    var args := [k, v, option, Render(seconds)];
    SetRejects(s, now, args);
    ReadsItself(seconds);
    SetLives(s, now, args, seconds, seconds * 1000);
    TtlView(HandleSet(s, now, args).store, now, k);
    assert (seconds * 1000 + 500) / 1000 == seconds;
  }

  lemma ReadsItself(n: int)
    ensures ParseInt(Render(n)).Some? ==> ParseInt(Render(n)) == Some(n)
  {
    hide ParseInt, Render, ParseCount;
    if ParseInt(Render(n)).Some? {
      var m := ParseInt(Render(n)).value;
      ParseIntInvertsRender(Render(n), m);
      ParseCountRender(m);
      ParseCountRender(n);
    }
  }

  lemma SeenNow(s: Store, k: bytes, now: int)
    requires k in Stored(s) && !Expired(Stored(s)[k], now)
    ensures k in View(s, now) && View(s, now)[k] == Stored(s)[k]
  {
    hide Stored;
  }

  // -- EXPIRE --------------------------------------------------------------

  /**
   * EXPIRE. On a visible key and with a whole positive number n of seconds, the key keeps its value and lives exactly
   * until n seconds from now, which is what is recorded. A number that is not positive deletes the key at once; one
   * that leads past the 64-bit range is refused; and without a visible key nothing happens.
   */
  lemma ExpireLives(s: Store, now: int, args: seq<bytes>, n: int)
    requires Valid(s) && |args| == 2 && ParseInt(args[1]) == Some(n)
    ensures var k, view, o := args[0], View(s, now), HandleExpire(s, now, args);
      if k !in view then o.reply == Integer(0) && o.facts == [] && View(o.store, now) == view
      else if n <= 0 then
        o.reply == Integer(1) && o.facts == [Deleted([k])] && View(o.store, now) == view - {k}
      else if now + n * 1000 > 9_223_372_036_854_775_807 then
        && o.reply == Error(Ascii("ERR invalid expire time in 'expire' command"))
        && o.facts == [] && View(o.store, now) == view
      else
        && o.reply == Integer(1) && o.facts == [DeadlineSet(k, now + n * 1000)]
        && LivesUntil(o.store, k, view[k].value, now + n * 1000)
  {
    hide Valid, Expire, View, ParseInt, Ascii, Reduced, LivesUntil, DeadlineMs, StoreErrorReply;
    var k, view := args[0], View(s, now);
    ExpireView(s, now, k, n * 1000);
    if k in view && n > 0 && now + n * 1000 <= 9_223_372_036_854_775_807 {
      var r := Expire(s, now, k, n * 1000).0;
      SeenEntry(r, now, k);
      EntryLives(r, k, view[k].value, now + n * 1000);
    }
  }

  lemma SeenEntry(s: Store, now: int, k: bytes)
    requires k in View(s, now)
    ensures k in Stored(s) && Stored(s)[k] == View(s, now)[k]
  {
    hide Stored;
  }
}
