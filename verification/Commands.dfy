/** Command dispatch: what every command does to the store, what it records, and what it answers. */
module Commands {
  import opened Bytes
  import opened Resp
  import opened StoreModel
  import opened StoreOps
  import opened Facts
  import opened Journaling

  datatype Command =
    | Ping | SetC | GetC | ExpireC | TtlC | PersistC | DelC | ExistsC | IncrC | DbsizeC | FlushdbC

  const PING: bytes := [80, 73, 78, 71]
  const GET: bytes := [71, 69, 84]
  const EXPIRE: bytes := [69, 88, 80, 73, 82, 69]
  const TTL: bytes := [84, 84, 76]
  const EXISTS: bytes := [69, 88, 73, 83, 84, 83]
  const INCR: bytes := [73, 78, 67, 82]
  const DBSIZE: bytes := [68, 66, 83, 73, 90, 69]
  const EX: bytes := [69, 88]
  const PX: bytes := [80, 88]

  const MILLIS_PER_SECOND: int := 1000
  const MAX_REPORTED_ARGS: nat := 20
  const MAX_REPORTED_ARG_BYTES: nat := 128

  // -- The command table ---------------------------------------------------

  /** Look up an upper-case name. */
  function Lookup(name: bytes): Option<Command> {
    if name == PING then Some(Ping)
    else if name == SET then Some(SetC)
    else if name == GET then Some(GetC)
    else if name == EXPIRE then Some(ExpireC)
    else if name == TTL then Some(TtlC)
    else if name == PERSIST then Some(PersistC)
    else if name == DEL then Some(DelC)
    else if name == EXISTS then Some(ExistsC)
    else if name == INCR then Some(IncrC)
    else if name == DBSIZE then Some(DbsizeC)
    else if name == FLUSHDB then Some(FlushdbC)
    else None
  }

  function Name(c: Command): string {
    match c
    case Ping => "ping" case SetC => "set" case GetC => "get" case ExpireC => "expire"
    case TtlC => "ttl" case PersistC => "persist" case DelC => "del" case ExistsC => "exists"
    case IncrC => "incr" case DbsizeC => "dbsize" case FlushdbC => "flushdb"
  }

  predicate ArityOk(c: Command, n: nat) {
    match c
    case Ping => n <= 1
    case SetC => 2 <= n <= 4
    case ExpireC => n == 2
    case DelC => n >= 1
    case ExistsC => n >= 1
    case DbsizeC => n == 0
    case FlushdbC => n == 0
    case GetC => n == 1
    case TtlC => n == 1
    case PersistC => n == 1
    case IncrC => n == 1
  }

  /** The `mutates` column of the table. */
  predicate Mutates(c: Command) {
    c.SetC? || c.ExpireC? || c.PersistC? || c.DelC? || c.IncrC? || c.FlushdbC?
  }

  // -- Error replies -------------------------------------------------------

  function Err(text: string): Reply {
    Error(Ascii(text))
  }

  const SYNTAX_ERROR: string := "ERR syntax error"
  const PERSISTENCE_ERROR: string := "ERR persistence failure"

  /** The class an error reports itself under. */
  function Prefix(e: StoreError): string {
    if e.OutOfMemory? then "OOM" else "ERR"
  }

  function Message(e: StoreError): string {
    match e
    case NotAnInteger => "value is not an integer or out of range"
    case IntegerOverflow => "increment or decrement would overflow"
    case InvalidExpire => "invalid expire time"
    case OutOfMemory => "command not allowed when used memory > 'maxmemory'."
  }

  function StoreErrorReply(e: StoreError): Reply {
    Err(Prefix(e) + " " + Message(e))
  }

  function Quote(raw: bytes): bytes {
    Printable(if |raw| > MAX_REPORTED_ARG_BYTES then raw[..MAX_REPORTED_ARG_BYTES] else raw)
  }

  function QuoteArgs(args: seq<bytes>): bytes
    decreases |args|
  {
    if |args| == 0 then [] else [39] + Quote(args[0]) + Ascii("', ") + QuoteArgs(args[1..])
  }

  function UnknownCommand(name: bytes, args: seq<bytes>): Reply {
    Error(Ascii("ERR unknown command '") + Quote(name) + Ascii("', with args beginning with: ")
          + QuoteArgs(if |args| > MAX_REPORTED_ARGS then args[..MAX_REPORTED_ARGS] else args))
  }

  function WrongArity(c: Command): Reply {
    Err("ERR wrong number of arguments for '" + Name(c) + "' command")
  }

  // -- Handlers ------------------------------------------------------------

  /**
   * What a handler does before anything reaches the journal: the new store, the keys it evicted, the facts
   * it goes on to append, in order, and the reply if they are all accepted.
   */
  datatype Outcome = Outcome(store: Store, evicted: seq<bytes>, facts: seq<Fact>, reply: Reply)

  function DeletedEach(keys: seq<bytes>): seq<Fact> {
    seq(|keys|, i requires 0 <= i < |keys| => Deleted([keys[i]]))
  }

  /** The duration SET's options ask for, or the error reply to a malformed option. */
  datatype SetOptions = Options(ttl: Option<int>) | BadOptions(reply: Reply)

  function ParseSetOptions(args: seq<bytes>): SetOptions {
    if |args| <= 2 then Options(None)
    else if |args| != 4 then BadOptions(Err(SYNTAX_ERROR))
    else
      var option, n := Upper(args[2]), ParseInt(args[3]);
      if option != EX && option != PX then BadOptions(Err(SYNTAX_ERROR))
      else if n.None? then BadOptions(StoreErrorReply(NotAnInteger))
      else Options(Some(if option == EX then n.value * MILLIS_PER_SECOND else n.value))
  }

  const INVALID_SET_EXPIRE: string := "ERR invalid expire time in 'set' command"
  const INVALID_EXPIRE: string := "ERR invalid expire time in 'expire' command"

  function HandleSet(s: Store, now: int, args: seq<bytes>): (o: Outcome)
    requires Valid(s) && |args| >= 2
    ensures Valid(o.store) && SameConfig(o.store, s)
    ensures s.evicted == [] ==> o.store.evicted == []
    ensures o.store.sweepCursor == s.sweepCursor
  {
    hide Valid, Set;
    match ParseSetOptions(args)
    case BadOptions(reply) => Outcome(s, [], [], reply)
    case Options(ttl) =>
      var (end, error) := Set(s, now, args[0], args[1], ttl);
      match error
      case Some(InvalidExpire) => Outcome(end, [], [], Err(INVALID_SET_EXPIRE))
      case Some(e) => Outcome(end, [], [], StoreErrorReply(e))
      case None =>
        Outcome(TakeEvicted(end), end.evicted,
                DeletedEach(end.evicted) + [Written(args[0], args[1], DeadlineMs(end, args[0]))], OK)
  }

  function HandleExpire(s: Store, now: int, args: seq<bytes>): (o: Outcome)
    requires Valid(s) && |args| == 2
    ensures Valid(o.store) && SameReport(o.store, s) && Reduced(s, o.store)
    ensures o.store.sweepCursor == s.sweepCursor
  {
    hide Valid, Expire;
    match ParseInt(args[1])
    case None => Outcome(s, [], [], StoreErrorReply(NotAnInteger))
    case Some(seconds) =>
      var (end, applied) := Expire(s, now, args[0], seconds * MILLIS_PER_SECOND);
      match applied
      case Failure(_) => Outcome(end, [], [], Err(INVALID_EXPIRE))
      case Success(false) => Outcome(end, [], [], Integer(0))
      case Success(true) =>
        var fact :=
          match DeadlineMs(end, args[0])
          case None => Deleted([args[0]])
          case Some(deadline) => DeadlineSet(args[0], deadline);
        Outcome(end, [], [fact], Integer(1))
  }

  function TtlReply(r: TtlResult): Reply {
    if !r.exists_ then Integer(-2)
    else if r.remaining.None? then Integer(-1)
    else Integer((r.remaining.value + 500) / MILLIS_PER_SECOND)
  }

  function HandlePersist(s: Store, now: int, args: seq<bytes>): (o: Outcome)
    requires Valid(s) && |args| == 1
    ensures Valid(o.store) && SameReport(o.store, s) && Reduced(s, o.store)
    ensures o.store.sweepCursor == s.sweepCursor
  {
    hide Valid, Persist;
    var (end, removed) := Persist(s, now, args[0]);
    if removed then Outcome(end, [], [Persisted(args[0])], Integer(1)) else Outcome(end, [], [], Integer(0))
  }

  function HandleGet(s: Store, now: int, args: seq<bytes>): (o: Outcome)
    requires Valid(s) && |args| == 1
    ensures Valid(o.store) && SameReport(o.store, s)
    ensures o.store.sweepCursor == s.sweepCursor
  {
    hide Valid, Get;
    var (end, value) := Get(s, now, args[0]);
    Outcome(end, [], [], if value.None? then NullBulk else Bulk(value.value))
  }

  function HandleDelete(s: Store, now: int, args: seq<bytes>): (o: Outcome)
    requires Valid(s) && |args| >= 1
    ensures Valid(o.store) && SameReport(o.store, s) && Reduced(s, o.store)
    ensures o.store.sweepCursor == s.sweepCursor
  {
    hide Valid, Delete;
    var (end, removed) := Delete(s, now, args);
    Outcome(end, [], if removed > 0 then [Deleted(args)] else [], Integer(removed))
  }

  function HandleIncr(s: Store, now: int, args: seq<bytes>): (o: Outcome)
    requires Valid(s) && |args| == 1
    ensures Valid(o.store) && SameConfig(o.store, s)
    ensures s.evicted == [] ==> o.store.evicted == []
    ensures o.store.sweepCursor == s.sweepCursor
  {
    hide Valid, Incr;
    var (end, updated) := Incr(s, now, args[0]);
    match updated
    case Failure(e) => Outcome(end, [], [], StoreErrorReply(e))
    case Success(n) =>
      Outcome(TakeEvicted(end), end.evicted,
              DeletedEach(end.evicted) + [Written(args[0], Render(n), DeadlineMs(end, args[0]))], Integer(n))
  }

  /** Run a command whose arity has been checked. */
  function Handle(c: Command, s: Store, now: int, args: seq<bytes>): (o: Outcome)
    requires Valid(s) && ArityOk(c, |args|)
    ensures Valid(o.store) && SameConfig(o.store, s)
    ensures s.evicted == [] ==> o.store.evicted == []
    ensures !c.FlushdbC? ==> o.store.sweepCursor == s.sweepCursor
  {
    hide Valid, Exists, Ttl, Dbsize, FlushDb;
    match c
    case Ping => Outcome(s, [], [], if |args| == 0 then PONG else Bulk(args[0]))
    case SetC => HandleSet(s, now, args)
    case GetC => HandleGet(s, now, args)
    case ExpireC => HandleExpire(s, now, args)
    case TtlC => Outcome(Ttl(s, now, args[0]).0, [], [], TtlReply(Ttl(s, now, args[0]).1))
    case PersistC => HandlePersist(s, now, args)
    case DelC => HandleDelete(s, now, args)
    case ExistsC => Outcome(Exists(s, now, args).0, [], [], Integer(Exists(s, now, args).1))
    case IncrC => HandleIncr(s, now, args)
    case DbsizeC => Outcome(Dbsize(s, now).0, [], [], Integer(Dbsize(s, now).1))
    case FlushdbC => Outcome(FlushDb(s), [], [Flushed], OK)
  }

  // -- Dispatch ------------------------------------------------------------

  /** How a request is routed before any handler runs. */
  datatype Route =
    | Rejected(reply: Reply)
    | Routed(command: Command, args: seq<bytes>)

  function RouteOf(request: seq<bytes>): (r: Route)
    requires |request| > 0
    ensures r.Routed? ==> ArityOk(r.command, |r.args|)
  {
    var name, args := request[0], request[1..];
    match Lookup(Upper(name))
    case None => Rejected(UnknownCommand(name, args))
    case Some(c) => if ArityOk(c, |args|) then Routed(c, args) else Rejected(WrongArity(c))
  }

  datatype Dispatched = Dispatched(store: Store, journal: Journal, reply: Reply)

  /** `dispatch`: a failed journal turns mutations away before they touch the store. */
  function Dispatch(s: Store, j: Journal, now: int, request: seq<bytes>): (r: Dispatched)
    requires Valid(s) && |request| > 0
    ensures Valid(r.store) && SameConfig(r.store, s)
    ensures s.evicted == [] ==> r.store.evicted == []
  {
    hide Valid, Handle, RouteOf;
    match RouteOf(request)
    case Rejected(reply) => Dispatched(s, j, reply)
    case Routed(c, args) =>
      if Mutates(c) && Failed(j) then Dispatched(s, j, Err(PERSISTENCE_ERROR))
      else
        var o := Handle(c, s, now, args);
        var (end, accepted) := AppendFacts(j, o.facts);
        Dispatched(o.store, end, if accepted == |o.facts| then o.reply else Err(PERSISTENCE_ERROR))
  }

  // -- The table -----------------------------------------------------------

  /** The key a command is entered under. */
  function Key(c: Command): bytes {
    match c
    case Ping => PING case SetC => SET case GetC => GET case ExpireC => EXPIRE
    case TtlC => TTL case PersistC => PERSIST case DelC => DEL case ExistsC => EXISTS
    case IncrC => INCR case DbsizeC => DBSIZE case FlushdbC => FLUSHDB
  }

  lemma KeyIsUpperName(c: Command)
    ensures Key(c) == Upper(Ascii(Name(c)))
  {
    var name := Ascii(Name(c));
    match c
    case Ping => assert Upper(name) == PING;
    case SetC => assert Upper(name) == SET;
    case GetC => assert Upper(name) == GET;
    case ExpireC => assert Upper(name) == EXPIRE;
    case TtlC => assert Upper(name) == TTL;
    case PersistC => assert Upper(name) == PERSIST;
    case DelC => assert Upper(name) == DEL;
    case ExistsC => assert Upper(name) == EXISTS;
    case IncrC => assert Upper(name) == INCR;
    case DbsizeC => assert Upper(name) == DBSIZE;
    case FlushdbC => assert Upper(name) == FLUSHDB;
  }

  lemma LookupFindsKey(name: bytes, c: Command)
    ensures Lookup(name) == Some(c) <==> name == Key(c)
  {
    match c
    case SetC => assert SET[0] != GET[0];
    case _ =>
  }

  /** Each command is found under its own name, in any case, and under nothing else. */
  lemma TableIsByName(name: bytes, c: Command)
    ensures Lookup(Upper(name)) == Some(c) <==> Upper(name) == Upper(Ascii(Name(c)))
  {
    hide Upper, Ascii, Name, Lookup, Key;
    KeyIsUpperName(c);
    LookupFindsKey(Upper(name), c);
  }

  lemma KeysAreAscii()
    ensures Key(Ping) == Ascii("PING") && Key(SetC) == Ascii("SET") && Key(GetC) == Ascii("GET")
    ensures Key(ExpireC) == Ascii("EXPIRE") && Key(TtlC) == Ascii("TTL") && Key(PersistC) == Ascii("PERSIST")
    ensures Key(DelC) == Ascii("DEL") && Key(ExistsC) == Ascii("EXISTS") && Key(IncrC) == Ascii("INCR")
    ensures Key(DbsizeC) == Ascii("DBSIZE") && Key(FlushdbC) == Ascii("FLUSHDB")
  {
  }

  lemma RouteIs(request: seq<bytes>, c: Command, word: string)
    requires |request| > 0 && Key(c) == Ascii(word) && forall i :: 0 <= i < |word| ==> 'A' <= word[i] <= 'Z'
    ensures RouteOf(request) == Routed(c, request[1..])
       <==> Spells(request[0], word) && ArityOk(c, |request| - 1)
  {
    hide Upper, Ascii, Spells, Lookup, UnknownCommand, WrongArity;
    UpperSpells(request[0], word);
    LookupFindsKey(Upper(request[0]), c);
  }

  /** Which requests reach which command: its name in any case, and the right number of arguments. */
  lemma RoutesExactly(request: seq<bytes>)
    requires |request| > 0
    ensures var name, args := request[0], request[1..];
      && (RouteOf(request) == Routed(Ping, args) <==> Spells(name, "PING") && |args| <= 1)
      && (RouteOf(request) == Routed(SetC, args) <==> Spells(name, "SET") && 2 <= |args| <= 4)
      && (RouteOf(request) == Routed(GetC, args) <==> Spells(name, "GET") && |args| == 1)
      && (RouteOf(request) == Routed(ExpireC, args) <==> Spells(name, "EXPIRE") && |args| == 2)
      && (RouteOf(request) == Routed(TtlC, args) <==> Spells(name, "TTL") && |args| == 1)
      && (RouteOf(request) == Routed(PersistC, args) <==> Spells(name, "PERSIST") && |args| == 1)
      && (RouteOf(request) == Routed(DelC, args) <==> Spells(name, "DEL") && |args| >= 1)
      && (RouteOf(request) == Routed(ExistsC, args) <==> Spells(name, "EXISTS") && |args| >= 1)
      && (RouteOf(request) == Routed(IncrC, args) <==> Spells(name, "INCR") && |args| == 1)
      && (RouteOf(request) == Routed(DbsizeC, args) <==> Spells(name, "DBSIZE") && |args| == 0)
      && (RouteOf(request) == Routed(FlushdbC, args) <==> Spells(name, "FLUSHDB") && |args| == 0)
  {
    KeysAreAscii();
    hide RouteOf, Ascii, Spells, Key;
    RouteIs(request, Ping, "PING");
    RouteIs(request, SetC, "SET");
    RouteIs(request, GetC, "GET");
    RouteIs(request, ExpireC, "EXPIRE");
    RouteIs(request, TtlC, "TTL");
    RouteIs(request, PersistC, "PERSIST");
    RouteIs(request, DelC, "DEL");
    RouteIs(request, ExistsC, "EXISTS");
    RouteIs(request, IncrC, "INCR");
    RouteIs(request, DbsizeC, "DBSIZE");
    RouteIs(request, FlushdbC, "FLUSHDB");
  }

  lemma QuoteIsBounded(raw: bytes)
    ensures |Quote(raw)| <= 4 * MAX_REPORTED_ARG_BYTES
  {
  }

  lemma {:induction false} QuoteArgsIsBounded(args: seq<bytes>)
    ensures |QuoteArgs(args)| <= |args| * (4 * MAX_REPORTED_ARG_BYTES + 4)
    decreases |args|
  {
    if |args| == 0 {
    } else {
      QuoteIsBounded(args[0]);
      QuoteArgsIsBounded(args[1..]);
    }
  }

  /** However much a client sends, an unknown command is answered in little more than ten kilobytes. */
  lemma UnknownCommandIsBounded(name: bytes, args: seq<bytes>)
    ensures |EncodeReply(UnknownCommand(name, args))| <= 11000
  {
    hide Quote, QuoteArgs;
    QuoteIsBounded(name);
    QuoteArgsIsBounded(if |args| > MAX_REPORTED_ARGS then args[..MAX_REPORTED_ARGS] else args);
  }
}
