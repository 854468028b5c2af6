/** One client session: read a command, dispatch it, write the reply, repeat, while the rest of the server runs. */
module Connection {
  import opened Bytes
  import opened Resp
  import opened StoreModel
  import opened Facts
  import opened Journaling
  import opened Commands
  import opened KeyValue
  import opened Aof
  import opened Dispatcher
  import Runs
  import FailStop
  import Sweep

  // -- The reader ----------------------------------------------------------

  /** The bytes a peer sends before it disconnects, and how far they have been read. */
  class Reader {
    const data: bytes
    var pos: nat

    ghost predicate Valid()
      reads this
    {
      pos <= |data|
    }

    constructor (data: bytes)
      ensures Valid() && this.data == data && pos == 0
    {
      this.data, pos := data, 0;
    }

    /** A line without its terminator; `None` when the stream ends first. */
    method NextLine() returns (line: Option<bytes>)
      requires Valid()
      modifies this
      ensures Valid()
      ensures line.Some? <==> ReadLine(data, old(pos)).Some?
      ensures line.Some? ==> ReadLine(data, old(pos)) == Some((line.value, pos))
      ensures line.None? ==> pos == old(pos)
    {
      match FindCrlf(data, pos)
      case None => line := None;
      case Some(end) =>
        line := Some(data[pos..end]);
        pos := end + 2;
    }

    method NextBulkString() returns (r: BulkRead)
      requires Valid()
      modifies this
      ensures Valid()
      ensures r == ReadBulkString(data, old(pos))
      ensures r.Body? ==> pos == r.next
    {
      hide ReadLine, ParseCount, Ascii, Got;
      var line := NextLine();
      if line.None? {
        return BulkDisconnected;
      }
      var header := line.value;
      if |header| == 0 || header[0] != DOLLAR {
        return BulkProtocolError(Got(EXPECTED_DOLLAR, header));
      }
      var length := ParseCount(header[1..]);
      if length.None? || length.value < 0 || length.value > MAX_BULK_LENGTH {
        return BulkProtocolError(Ascii(INVALID_BULK));
      }
      if pos + length.value + 2 > |data| {
        return BulkDisconnected;
      }
      var start := pos;
      pos := pos + length.value + 2;
      if !CrlfAt(data, pos - 2) {
        return BulkProtocolError(Ascii(INVALID_BULK));
      }
      r := Body(data[start..pos - 2], pos);
    }

    method NextBulkStrings(count: nat) returns (r: CommandRead)
      requires Valid()
      modifies this
      ensures Valid()
      ensures r == ReadBulkStrings(data, old(pos), count)
      ensures r.Request? ==> pos == r.next
    {
      hide ReadBulkString;
      var parts: seq<bytes> := [];
      PrependNoParts(ReadBulkStrings(data, pos, count));
      for i := 0 to count
        invariant Valid()
        invariant PrependParts(parts, ReadBulkStrings(data, pos, count - i)) == ReadBulkStrings(data, old(pos), count)
      {
        var bulk := NextBulkString();
        match bulk
        case BulkProtocolError(message) => return ProtocolError(message);
        case BulkDisconnected => return Disconnected;
        case Body(body, next) =>
          PrependMoreParts(parts, body, ReadBulkStrings(data, next, count - i - 1));
          parts := parts + [body];
      }
      assert parts + [] == parts;
      r := Request(parts, pos);
    }

    method NextCommand() returns (r: CommandRead)
      requires Valid()
      modifies this
      ensures Valid()
      ensures r == ReadCommand(data, old(pos))
      ensures r.Request? ==> pos == r.next
    {
      hide ReadLine, ParseCount, Ascii, Got, ReadBulkStrings;
      var atEnd := pos == |data|;
      var line := NextLine();
      if line.None? {
        return if atEnd then EndOfStream else Disconnected;
      }
      var header := line.value;
      if |header| == 0 || header[0] != STAR {
        return ProtocolError(Got(EXPECTED_STAR, header));
      }
      var count := ParseCount(header[1..]);
      if count.None? || count.value > MAX_MULTIBULK_LENGTH {
        return ProtocolError(Ascii(INVALID_MULTIBULK));
      }
      if count.value <= 0 {
        return Request([], pos);
      }
      r := NextBulkStrings(count.value);
    }
  }

  function PrependParts(parts: seq<bytes>, r: CommandRead): CommandRead {
    if r.Request? then Request(parts + r.parts, r.next) else r
  }

  lemma PrependNoParts(r: CommandRead)
    ensures PrependParts([], r) == r
  {
    if r.Request? {
      assert [] + r.parts == r.parts;
    }
  }

  lemma PrependMoreParts(parts: seq<bytes>, part: bytes, r: CommandRead)
    ensures PrependParts(parts, PrependParts([part], r)) == PrependParts(parts + [part], r)
  {
    if r.Request? {
      assert parts + ([part] + r.parts) == parts + [part] + r.parts;
    }
  }

  // -- A session as a function ---------------------------------------------

  const PROTOCOL_ERROR: string := "ERR Protocol error: "

  /** What the rest of the server does while the session waits for its next command. */
  function Meanwhile(w: Runs.World, others: seq<seq<Runs.Event>>): (r: Runs.World)
    requires Valid(w.store)
    ensures Valid(r.store)
  {
    if |others| == 0 then w else Runs.Run(w, others[0])
  }

  function Later(others: seq<seq<Runs.Event>>): seq<seq<Runs.Event>> {
    if |others| == 0 then [] else others[1..]
  }

  /** The server after the session, and its replies in order. */
  function Session(w: Runs.World, data: bytes, offset: nat, others: seq<seq<Runs.Event>>)
    : (r: (Runs.World, seq<Reply>))
    requires Valid(w.store) && offset <= |data|
    ensures Valid(r.0.store)
    decreases |data| - offset
  {
    hide Valid, Runs.Serve, Runs.Run, ReadCommand, Ascii;
    var ready := Meanwhile(w, others);
    match ReadCommand(data, offset)
    case EndOfStream => (ready, [])
    case Disconnected => (ready, [])
    case ProtocolError(message) => (ready, [Error(Ascii(PROTOCOL_ERROR) + message)])
    case Request(parts, next) =>
      if |parts| == 0 then Session(ready, data, next, Later(others))
      else
        var (served, reply) := Runs.Serve(ready, parts);
        var (end, replies) := Session(served, data, next, Later(others));
        (end, [reply] + replies)
  }

  /** One round of the session. */
  lemma SessionRound(w: Runs.World, data: bytes, offset: nat, others: seq<seq<Runs.Event>>)
    requires Valid(w.store) && offset <= |data|
    ensures var ready := Meanwhile(w, others);
      Session(w, data, offset, others) ==
        match ReadCommand(data, offset)
        case EndOfStream => (ready, [])
        case Disconnected => (ready, [])
        case ProtocolError(message) => (ready, [Error(Ascii(PROTOCOL_ERROR) + message)])
        case Request(parts, next) =>
          if |parts| == 0 then Session(ready, data, next, Later(others))
          else
            var (served, reply) := Runs.Serve(ready, parts);
            (Session(served, data, next, Later(others)).0, [reply] + Session(served, data, next, Later(others)).1)
  {
    hide Valid, Runs.Serve, Runs.Run, ReadCommand, Ascii;
  }

  /** The whole session is what has been sent so far followed by what the rest of it sends. */
  ghost predicate SentSoFar(whole: (Runs.World, seq<Reply>), sent: seq<Reply>, rest: (Runs.World, seq<Reply>)) {
    whole == (rest.0, sent + rest.1)
  }

  lemma SentMore(whole: (Runs.World, seq<Reply>), sent: seq<Reply>, reply: Reply, rest: (Runs.World, seq<Reply>))
    requires SentSoFar(whole, sent, (rest.0, [reply] + rest.1))
    ensures SentSoFar(whole, sent + [reply], rest)
  {
    assert sent + ([reply] + rest.1) == sent + [reply] + rest.1;
  }

  lemma SentNothing(whole: (Runs.World, seq<Reply>))
    ensures SentSoFar(whole, [], whole)
  {
    assert [] + whole.1 == whole.1;
  }

  lemma SentAll(whole: (Runs.World, seq<Reply>), sent: seq<Reply>, end: Runs.World)
    requires SentSoFar(whole, sent, (end, []))
    ensures whole == (end, sent)
  {
    assert sent + [] == sent;
  }

  // -- The connection loop -------------------------------------------------

  /** The objects are in the state `w` describes. */
  ghost predicate Mirrors(store: KeyValueStore, journal: AppendOnlyFile?, w: Runs.World)
    reads store, journal
  {
    store.Model() == w.store && JournalOf(journal) == w.journal && store.now == w.now && store.Valid()
  }

  /** One atomic step of another task. */
  method OtherStep(store: KeyValueStore, journal: AppendOnlyFile?, e: Runs.Event, ghost w: Runs.World)
    requires Mirrors(store, journal, w) && !e.Restart?
    modifies store, journal
    ensures Mirrors(store, journal, Runs.Step(w, e))
  {
    hide StoreModel.Valid, Dispatch, Sweep.SweepExpired, Runs.Handled, Runs.UsedBy, Reduced;
    match e
    case Request(parts) =>
      if |parts| > 0 {
        var _, _ := DispatchRequest(store, parts, journal);
      }
    case Sweep(limit) =>
      var _, _ := store.SweepExpired(limit);
    case Advance(ms) =>
      store.now := store.now + ms;
    case SyncAttempt(succeeds) =>
      if journal != null {
        journal.Sync(succeeds);
      }
  }

  method OtherSteps(store: KeyValueStore, journal: AppendOnlyFile?, events: seq<Runs.Event>, ghost w: Runs.World)
    requires Mirrors(store, journal, w) && FailStop.NoRestart(events)
    modifies store, journal
    ensures Mirrors(store, journal, Runs.Run(w, events))
  {
    hide Mirrors, Runs.Step;
    ghost var now := w;
    MirrorsIsValid(store, journal, w);
    for i := 0 to |events|
      invariant Valid(now.store) && Mirrors(store, journal, now)
      invariant Runs.Run(now, events[i..]) == Runs.Run(w, events)
    {
      assert events[i..][0] == events[i] && events[i..][1..] == events[i + 1..];
      OtherStep(store, journal, events[i], now);
      now := Runs.Step(now, events[i]);
    }
  }

  lemma MirrorsIsValid(store: KeyValueStore, journal: AppendOnlyFile?, w: Runs.World)
    requires Mirrors(store, journal, w)
    ensures Valid(w.store) && store.Valid()
  {
  }

  method ServeOne(store: KeyValueStore, journal: AppendOnlyFile?, request: seq<bytes>, ghost w: Runs.World)
    returns (encoded: bytes)
    requires Mirrors(store, journal, w) && |request| > 0
    modifies store, journal
    ensures Mirrors(store, journal, Runs.Serve(w, request).0)
    ensures encoded == EncodeReply(Runs.Serve(w, request).1)
  {
    hide StoreModel.Valid, Dispatch, Runs.Handled, Runs.UsedBy;
    ghost var reply;
    encoded, reply := DispatchRequest(store, request, journal);
  }

  /**
   * `handle_connection`: everything the session writes, until the client disconnects or desynchronizes the
   * stream. `others[i]` is what other tasks do while the session awaits its i-th command.
   */
  method HandleConnection(
    reader: Reader, store: KeyValueStore, journal: AppendOnlyFile?,
    others: seq<seq<Runs.Event>>, ghost w: Runs.World)
    returns (output: bytes)
    requires reader.Valid() && Mirrors(store, journal, w)
    requires forall i :: 0 <= i < |others| ==> FailStop.NoRestart(others[i])
    modifies reader, store, journal
    ensures var (end, replies) := Session(w, reader.data, old(reader.pos), others);
      Mirrors(store, journal, end) && output == EncodeReplies(replies)
  {
    hide Mirrors, Runs.Serve, Runs.Run, ReadCommand, Ascii, EncodeReply, EncodeReplies, Session, SentSoFar, Valid;
    MirrorsIsValid(store, journal, w);
    output := [];
    var pending := others;
    ghost var now, sent := w, [];
    ghost var whole := Session(w, reader.data, reader.pos, others);
    SentNothing(whole);
    assert output == EncodeReplies(sent) by { NothingEncoded(); }
    while true
      invariant reader.Valid() && Valid(now.store) && Mirrors(store, journal, now)
      invariant forall i :: 0 <= i < |pending| ==> FailStop.NoRestart(pending[i])
      invariant output == EncodeReplies(sent)
      invariant SentSoFar(whole, sent, Session(now, reader.data, reader.pos, pending))
      decreases |reader.data| - reader.pos
    {
      SessionRound(now, reader.data, reader.pos, pending);
      if |pending| > 0 {
        OtherSteps(store, journal, pending[0], now);
        now := Runs.Run(now, pending[0]);
        pending := pending[1..];
      }
      var command := reader.NextCommand();
      match command
      case ProtocolError(message) =>
        var failure := Error(Ascii(PROTOCOL_ERROR) + message);
        assert [failure] + [] == [failure];
        SentMore(whole, sent, failure, (now, []));
        SentAll(whole, sent + [failure], now);
        EncodeRepliesAppend(sent, failure);
        output := output + EncodeReply(failure);
        return;
      case Disconnected =>
        SentAll(whole, sent, now);
        return;
      case EndOfStream =>
        SentAll(whole, sent, now);
        return;
      case Request(parts, next) =>
        if |parts| > 0 {
          var encoded := ServeOne(store, journal, parts, now);
          ghost var (served, reply) := Runs.Serve(now, parts);
          EncodeRepliesAppend(sent, reply);
          SentMore(whole, sent, reply, Session(served, reader.data, next, pending));
          now, sent := served, sent + [reply];
          output := output + encoded;
        }
    }
  }

  lemma NothingEncoded()
    ensures EncodeReplies([]) == []
  {
  }
}
