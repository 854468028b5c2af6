/** Pipelining: what a session writes is exactly one whole reply frame per request, in order. */
module Pipeline {
  import opened Bytes
  import opened Resp
  import opened LogFormat
  import opened Grammar
  import opened StoreModel
  import opened StoreOps
  import opened Journaling
  import opened Commands
  import opened Connection
  import Runs

  /** Whatever a request says and whatever state it meets, its reply is one frame. */
  lemma DispatchIsFramed(s: Store, j: Journal, now: int, request: seq<bytes>)
    requires Valid(s) && |request| > 0
    ensures Framed(Dispatch(s, j, now, request).reply)
  {
    hide Valid, AppendFacts;
    if RouteOf(request).Routed? {
      HandleIsFramed(RouteOf(request).command, s, now, RouteOf(request).args);
    }
  }

  lemma HandleIsFramed(c: Command, s: Store, now: int, args: seq<bytes>)
    requires Valid(s) && ArityOk(c, |args|)
    ensures Framed(Handle(c, s, now, args).reply)
  {
    hide Valid, Ascii, Set, Incr, Get, Delete, Exists, Expire, Persist, Ttl, Dbsize, FlushDb, Reduced,
         ParseInt, Upper, Deadline;
  }

  lemma {:induction false} SessionIsFramed(
    w: Runs.World, data: bytes, offset: nat, others: seq<seq<Runs.Event>>)
    requires Valid(w.store) && offset <= |data|
    ensures forall i :: 0 <= i < |Session(w, data, offset, others).1| ==>
      Framed(Session(w, data, offset, others).1[i])
    decreases |data| - offset
  {
    hide Valid, ReadCommand, Dispatch, Framed, Runs.Run, Ascii, Runs.Handled, Runs.UsedBy;
    var ready := Meanwhile(w, others);
    match ReadCommand(data, offset)
    case Request(parts, next) =>
      if |parts| == 0 {
        SessionIsFramed(ready, data, next, Later(others));
      } else {
        DispatchIsFramed(ready.store, ready.journal, ready.now, parts);
        SessionIsFramed(Runs.Serve(ready, parts).0, data, next, Later(others));
      }
    case ProtocolError(message) => ErrorsAreFramed(Ascii(PROTOCOL_ERROR) + message);
    case _ =>
  }

  lemma ErrorsAreFramed(text: bytes)
    ensures Framed(Error(text))
  {
  }

  /**
   * Framing. Whatever bytes a client sends, what comes back decodes, uniquely and to the last byte, into exactly
   * the replies of the session: no request can add, split or counterfeit a frame.
   */
  lemma SessionOutputDecodes(w: Runs.World, data: bytes, others: seq<seq<Runs.Event>>)
    requires Valid(w.store)
    ensures var replies := Session(w, data, 0, others).1;
      DecodeReplies(EncodeReplies(replies), 0) == Some(ReceivedAll(replies))
  {
    hide Valid, Session, Framed;
    var replies := Session(w, data, 0, others).1;
    SessionIsFramed(w, data, 0, others);
    assert EncodeReplies(replies)[0..] == EncodeReplies(replies);
    DecodeRepliesInvertsEncode(EncodeReplies(replies), 0, replies);
  }

  /** The reply to bytes that are no request. */
  predicate ProtocolFailure(reply: Reply) {
    && reply.Error? && |reply.text| >= 20
    && reply.text[..20] == Ascii("ERR Protocol error: ")
  }

  lemma ProtocolFailureText(message: bytes)
    ensures ProtocolFailure(Error(Ascii(PROTOCOL_ERROR) + message))
  {
    assert Ascii(PROTOCOL_ERROR) == Ascii("ERR Protocol error: ") && |Ascii(PROTOCOL_ERROR)| == 20;
    assert (Ascii(PROTOCOL_ERROR) + message)[..20] == Ascii(PROTOCOL_ERROR);
  }

  /** A request that stands at the position is served, or skipped in silence if empty, and the session goes on. */
  lemma RequestIsServed(
    w: Runs.World, data: bytes, offset: nat, others: seq<seq<Runs.Event>>, parts: seq<bytes>, next: nat)
    requires Valid(w.store) && offset <= |data| && RequestAt(data, offset, parts, next)
    ensures offset < next <= |data|
    ensures var ready, whole := Meanwhile(w, others), Session(w, data, offset, others);
      if |parts| == 0 then whole == Session(ready, data, next, Later(others))
      else
        var (served, reply) := Runs.Serve(ready, parts);
        var (end, replies) := Session(served, data, next, Later(others));
        whole == (end, [reply] + replies)
  {
    hide Valid, Runs.Serve, Runs.Run, ReadCommand, Ascii, RequestAt, Session, Meanwhile;
    RequestsAreRead(data, offset, parts, next);
    SessionRound(w, data, offset, others);
  }

  /** Bytes that break the grammar or a cap get exactly one more frame, an error, and that ends the session. */
  lemma ProtocolErrorEndsSession(w: Runs.World, data: bytes, offset: nat, others: seq<seq<Runs.Event>>)
    requires Valid(w.store) && offset <= |data| && BadRequestAt(data, offset)
    ensures var (end, replies) := Session(w, data, offset, others);
      end == Meanwhile(w, others) && |replies| == 1 && ProtocolFailure(replies[0])
  {
    hide Valid, Runs.Serve, Runs.Run, ReadCommand, Ascii, BadRequestAt, Session, ProtocolFailure, Meanwhile;
    RequestsAreRead(data, offset, [], 0);
    SessionRound(w, data, offset, others);
    ProtocolFailureText(ReadCommand(data, offset).message);
  }

  /** A line that does not begin with `*` is such bytes. */
  lemma StrangeLineEndsSession(
    w: Runs.World, data: bytes, offset: nat, line: bytes, others: seq<seq<Runs.Event>>)
    requires Valid(w.store) && LineAt(data, offset, line) && (|line| == 0 || line[0] != 42)
    ensures offset <= |data|
    ensures var (end, replies) := Session(w, data, offset, others);
      end == Meanwhile(w, others) && |replies| == 1 && ProtocolFailure(replies[0])
  {
    hide Valid, Session, LineAt, BadRequestAt, ProtocolFailure, Meanwhile;
    StrangeLineIsBad(data, offset, line);
    ProtocolErrorEndsSession(w, data, offset, others);
  }

  /** When the peer leaves, between two requests or within one, nothing more is sent. */
  lemma DepartureIsSilent(w: Runs.World, data: bytes, offset: nat, others: seq<seq<Runs.Event>>)
    requires Valid(w.store) && offset <= |data| && !BadRequestAt(data, offset)
    requires forall parts, next :: !RequestAt(data, offset, parts, next)
    ensures Session(w, data, offset, others) == (Meanwhile(w, others), [])
  {
    hide Valid, Runs.Serve, Runs.Run, ReadCommand, Ascii, RequestAt, BadRequestAt, Session, Meanwhile;
    SessionRound(w, data, offset, others);
    RequestsAreRead(data, offset, [], 0);
    if ReadCommand(data, offset).Request? {
      RequestsAreRead(data, offset, ReadCommand(data, offset).parts, ReadCommand(data, offset).next);
    }
  }

  // -- Well-formed pipelines -----------------------------------------------

  /** The server after answering `requests` one by one, and the answers: one for each that is not empty. */
  function Answers(w: Runs.World, requests: seq<seq<bytes>>, others: seq<seq<Runs.Event>>)
    : (r: (Runs.World, seq<Reply>))
    requires Valid(w.store)
    ensures Valid(r.0.store)
    decreases |requests|
  {
    hide Valid, Runs.Serve, Runs.Run;
    var ready := Meanwhile(w, others);
    if |requests| == 0 then (ready, [])
    else if |requests[0]| == 0 then Answers(ready, requests[1..], Later(others))
    else
      var (served, reply) := Runs.Serve(ready, requests[0]);
      var (end, replies) := Answers(served, requests[1..], Later(others));
      (end, [reply] + replies)
  }

  /** How many of the requests are not empty. */
  function Answered(requests: seq<seq<bytes>>): nat
    decreases |requests|
  {
    if |requests| == 0 then 0 else (if |requests[0]| > 0 then 1 else 0) + Answered(requests[1..])
  }

  lemma {:induction false} OneAnswerEach(w: Runs.World, requests: seq<seq<bytes>>, others: seq<seq<Runs.Event>>)
    requires Valid(w.store)
    ensures |Answers(w, requests, others).1| == Answered(requests)
    decreases |requests|
  {
    hide Valid, Runs.Serve, Runs.Run;
    var ready := Meanwhile(w, others);
    if |requests| == 0 {
    } else {
      OneAnswerEach(if |requests[0]| == 0 then ready else Runs.Serve(ready, requests[0]).0,
                    requests[1..], Later(others));
    }
  }

  /** A request a client encodes, empty or within the wire caps, is read back as it is. */
  lemma ReadCommandOfEncoded(data: bytes, offset: nat, parts: seq<bytes>)
    requires At(data, offset, EncodeArray(parts)) && WithinWireCaps(parts)
    ensures offset <= |data|
    ensures ReadCommand(data, offset) == Request(parts, offset + |EncodeArray(parts)|)
  {
    if |parts| > 0 {
      hide ReadCommand, EncodeArray, ReadRecord;
      ReadRecordOfEncoded(data, offset, parts);
      WireAndLogAgree(data, offset, parts, offset + |EncodeArray(parts)|);
    } else {
      hide ParseCount, ReadLine, Render;
      ParseCountRender(0);
      RenderHasNoCr(0);
      assert EncodeArray(parts) == [STAR] + Render(0) + CRLF;
      LineWithKind(data, offset, STAR, Render(0));
      assert parts == [];
    }
  }

  lemma {:induction false} SessionOfEncoded(
    w: Runs.World, data: bytes, offset: nat, requests: seq<seq<bytes>>, others: seq<seq<Runs.Event>>)
    requires Valid(w.store) && offset <= |data| && data[offset..] == EncodeRecords(requests)
    requires forall i :: 0 <= i < |requests| ==> WithinWireCaps(requests[i])
    ensures Session(w, data, offset, others) == Answers(w, requests, others)
    decreases |requests|
  {
    hide Valid, Runs.Serve, Runs.Run, ReadCommand, EncodeArray, WithinWireCaps, Ascii;
    var ready := Meanwhile(w, others);
    if |requests| == 0 {
      EndOfInput(data, offset);
    } else {
      var first, rest := requests[0], requests[1..];
      EncodeRepliesHead(data, offset, EncodeArray(first), EncodeRecords(rest));
      ReadCommandOfEncoded(data, offset, first);
      var next := offset + |EncodeArray(first)|;
      if |first| == 0 {
        SessionOfEncoded(ready, data, next, rest, Later(others));
      } else {
        SessionOfEncoded(Runs.Serve(ready, first).0, data, next, rest, Later(others));
      }
    }
  }

  lemma EndOfInput(data: bytes, offset: nat)
    requires offset <= |data| && data[offset..] == []
    ensures ReadCommand(data, offset).EndOfStream?
  {
    assert FindCrlf(data, offset).None?;
  }

  /**
   * Pipelining. For any concatenation of encoded requests, however the rest of the server interleaves, the
   * output decodes uniquely into exactly one reply per non-empty request, in order, each the reply of serving
   * that request on the state the ones before it left.
   */
  lemma PipelineAnswersInOrder(w: Runs.World, requests: seq<seq<bytes>>, others: seq<seq<Runs.Event>>)
    requires Valid(w.store)
    requires forall i :: 0 <= i < |requests| ==> WithinWireCaps(requests[i])
    ensures var replies := Answers(w, requests, others).1;
      && |replies| == Answered(requests)
      && Session(w, EncodeRecords(requests), 0, others) == Answers(w, requests, others)
      && DecodeReplies(EncodeReplies(replies), 0) == Some(ReceivedAll(replies))
  {
    hide Valid, Session, Answers, WithinWireCaps;
    var data := EncodeRecords(requests);
    assert data[0..] == data;
    OneAnswerEach(w, requests, others);
    SessionOfEncoded(w, data, 0, requests, others);
    SessionOutputDecodes(w, data, others);
  }
}
