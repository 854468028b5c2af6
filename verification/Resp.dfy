/** RESP2 framing: request decoding, reply encoding, and the reply grammar a client decodes. */
module Resp {
  import opened Bytes

  const MAX_MULTIBULK_LENGTH: int := 1024 * 1024
  const MAX_BULK_LENGTH: int := 64 * 1024 * 1024

  const STAR: byte := 42
  const DOLLAR: byte := 36
  const PLUS: byte := 43
  const COLON: byte := 58

  // -- Byte strings inside a buffer ----------------------------------------

  /** `chunk` stands in `data` at `offset`. */
  ghost predicate At(data: bytes, offset: nat, chunk: bytes) {
    offset + |chunk| <= |data| && data[offset..offset + |chunk|] == chunk
  }

  lemma AtSplit(data: bytes, offset: nat, x: bytes, y: bytes)
    ensures At(data, offset, x + y) <==> At(data, offset, x) && At(data, offset + |x|, y)
  {
    if At(data, offset, x + y) {
      var whole := data[offset..offset + |x + y|];
      assert data[offset..offset + |x|] == whole[..|x|] == x;
      assert data[offset + |x|..offset + |x| + |y|] == whole[|x|..] == y;
    }
    if At(data, offset, x) && At(data, offset + |x|, y) {
      assert data[offset..offset + |x + y|]
          == data[offset..offset + |x|] + data[offset + |x|..offset + |x| + |y|];
    }
  }

  predicate CrlfAt(data: bytes, i: nat) {
    i + 2 <= |data| && data[i] == CR && data[i + 1] == LF
  }

  /** `data.find(CRLF, offset)`. */
  function FindCrlf(data: bytes, offset: nat): (r: Option<nat>)
    requires offset <= |data|
    ensures r.Some? ==> offset <= r.value && CrlfAt(data, r.value)
    ensures r.Some? ==> forall i :: offset <= i < r.value ==> !CrlfAt(data, i)
    ensures r.None? ==> forall i :: offset <= i ==> !CrlfAt(data, i)
    decreases |data| - offset
  {
    if offset + 2 > |data| then None
    else if CrlfAt(data, offset) then Some(offset)
    else FindCrlf(data, offset + 1)
  }

  /** The line starting at `offset` without its terminator, and the offset after the terminator. */
  function ReadLine(data: bytes, offset: nat): (r: Option<(bytes, nat)>)
    requires offset <= |data|
    ensures r.Some? ==> offset + 2 <= r.value.1 <= |data|
    ensures r.Some? ==> At(data, offset, r.value.0 + CRLF) && |r.value.0| + 2 == r.value.1 - offset
  {
    match FindCrlf(data, offset)
    case None => None
    case Some(end) =>
      AtSplit(data, offset, data[offset..end], CRLF);
      Some((data[offset..end], end + 2))
  }

  lemma ReadLineFinds(data: bytes, offset: nat, line: bytes)
    requires At(data, offset, line + CRLF) && CR !in line
    ensures offset <= |data|
    ensures ReadLine(data, offset) == Some((line, offset + |line| + 2))
  {
    AtSplit(data, offset, line, CRLF);
    var end := offset + |line|;
    assert data[end] == CRLF[0] && data[end + 1] == CRLF[1] by {
      assert data[end..end + 2][0] == CR && data[end..end + 2][1] == LF;
    }
    assert CrlfAt(data, end);
    assert forall i :: offset <= i < end ==> data[i] == line[i - offset];
    var found := FindCrlf(data, offset);
    assert found == Some(end);
  }

  // -- Encoding ------------------------------------------------------------

  function EncodeInteger(n: int): bytes {
    [COLON] + Render(n) + CRLF
  }

  function EncodeBulkString(value: bytes): bytes {
    [DOLLAR] + Render(|value|) + CRLF + (value + CRLF)
  }

  function EncodeBulkStrings(parts: seq<bytes>): bytes {
    if |parts| == 0 then [] else EncodeBulkString(parts[0]) + EncodeBulkStrings(parts[1..])
  }

  function EncodeArray(parts: seq<bytes>): (r: bytes)
    ensures |r| > 0
  {
    [STAR] + Render(|parts|) + CRLF + EncodeBulkStrings(parts)
  }

  /** CR and LF become spaces, so that the text stays on one line. */
  function SingleLine(message: bytes): bytes {
    seq(|message|, i requires 0 <= i < |message| =>
      if message[i] == CR || message[i] == LF then 32 else message[i])
  }

  function EncodeError(message: bytes): bytes {
    [MINUS] + SingleLine(message) + CRLF
  }

  function HexDigit(n: nat): byte
    requires n < 16
  {
    if n < 10 then (48 + n) as byte else (87 + n) as byte
  }

  /** Printable ASCII for embedding in an error message; any other byte becomes `\xhh`. */
  function Printable(raw: bytes): (r: bytes)
    ensures forall i :: 0 <= i < |r| ==> 32 <= r[i] < 127
    ensures |raw| <= |r| <= 4 * |raw|
  {
    if |raw| == 0 then []
    else
      var b := raw[0];
      (if 32 <= b < 127 then [b] else [92, 120, HexDigit(b as int / 16), HexDigit(b as int % 16)])
      + Printable(raw[1..])
  }

  /** The number a lower-case hexadecimal digit stands for. */
  function HexValue(b: byte): int {
    if 48 <= b <= 57 then b as int - 48 else b as int - 87
  }

  /** Quoting goes byte by byte: what can be printed stays, anything else can be read back from its escape. */
  lemma PrintableByByte(raw: bytes, b: byte)
    ensures Printable([b] + raw) == Printable([b]) + Printable(raw)
    ensures 32 <= b < 127 ==> Printable([b]) == [b]
    ensures !(32 <= b < 127) ==>
      && |Printable([b])| == 4 && Printable([b])[..2] == [92, 120]
      && 16 * HexValue(Printable([b])[2]) + HexValue(Printable([b])[3]) == b as int
  {
    assert ([b] + raw)[1..] == raw && [b][1..] == [];
  }

  // -- Replies -------------------------------------------------------------

  /** What a reply says; `EncodeReply` is how it goes on the wire. */
  datatype Reply =
    | Simple(text: bytes)
    | Error(text: bytes)
    | Integer(n: int)
    | Bulk(value: bytes)
    | NullBulk

  const OK: Reply := Simple([79, 75])           // OK
  const PONG: Reply := Simple([80, 79, 78, 71]) // PONG

  function EncodeReply(reply: Reply): bytes {
    match reply
    case Simple(text) => [PLUS] + text + CRLF
    case Error(text) => EncodeError(text)
    case Integer(n) => EncodeInteger(n)
    case Bulk(value) => EncodeBulkString(value)
    case NullBulk => [DOLLAR] + Render(-1) + CRLF
  }

  /** The reply a client decodes at `offset`, and the offset after it; `None` is a partial or foreign frame. */
  function DecodeReply(data: bytes, offset: nat): (r: Option<(Reply, nat)>)
    requires offset <= |data|
    ensures r.Some? ==> offset < r.value.1 <= |data|
  {
    match ReadLine(data, offset)
    case None => None
    case Some((line, after)) =>
      if |line| == 0 then None
      else
        var kind, body := line[0], line[1..];
        if kind == PLUS then Some((Simple(body), after))
        else if kind == MINUS then Some((Error(body), after))
        else
          match ParseCount(body)
          case None => None
          case Some(n) =>
            if kind == COLON then Some((Integer(n), after))
            else if kind != DOLLAR then None
            else if n == -1 then Some((NullBulk, after))
            else if n < 0 || after + n + 2 > |data| then None
            else Some((Bulk(data[after..after + n]), after + n + 2))
  }

  /** Decode every reply from `offset` to the end; `None` unless the bytes are whole frames. */
  function DecodeReplies(data: bytes, offset: nat): Option<seq<Reply>>
    requires offset <= |data|
    decreases |data| - offset
  {
    if offset == |data| then Some([])
    else
      match DecodeReply(data, offset)
      case None => None
      case Some((reply, next)) =>
        match DecodeReplies(data, next)
        case None => None
        case Some(rest) => Some([reply] + rest)
  }

  /** The reply as a client sees it: an error text arrives on a single line. */
  function Received(reply: Reply): Reply {
    if reply.Error? then Error(SingleLine(reply.text)) else reply
  }

  /** A simple string must be one line by itself; no other reply can break its own frame. */
  predicate Framed(reply: Reply) {
    reply.Simple? ==> CR !in reply.text
  }

  /** Every byte of an error text arrives where it was, but CR and LF arrive as spaces. */
  lemma ErrorTextArrives(message: bytes)
    ensures Received(Error(message)).Error?
    ensures var text := Received(Error(message)).text;
      && |text| == |message|
      && forall i :: 0 <= i < |text| ==> text[i] == if message[i] == 13 || message[i] == 10 then 32 else message[i]
    ensures 13 !in message && 10 !in message ==> Received(Error(message)) == Error(message)
  {
    if 13 !in message && 10 !in message {
      assert SingleLine(message) == message;
    }
  }

  /** The replies, byte for byte. */
  lemma RepliesOnTheWire(text: bytes, n: int, value: bytes)
    ensures EncodeReply(OK) == [43, 79, 75, 13, 10]
    ensures EncodeReply(PONG) == [43, 80, 79, 78, 71, 13, 10]
    ensures EncodeReply(NullBulk) == [36, 45, 49, 13, 10]
    ensures EncodeReply(Integer(n)) == [58] + Render(n) + [13, 10]
    ensures EncodeReply(Bulk(value)) == [36] + Render(|value|) + [13, 10] + value + [13, 10]
    ensures 13 !in text && 10 !in text ==> EncodeReply(Error(text)) == [45] + text + [13, 10]
  {
    assert Render(-1) == [45, 49] by { assert Digits(1) == [49]; }
    if 13 !in text && 10 !in text {
      assert SingleLine(text) == text;
    }
  }

  lemma SingleLineHasNoCr(message: bytes)
    ensures CR !in SingleLine(message) && LF !in SingleLine(message)
  {
  }

  lemma LineWithKind(data: bytes, offset: nat, kind: byte, body: bytes)
    requires At(data, offset, [kind] + body + CRLF) && kind != CR && CR !in body
    ensures offset <= |data| && ReadLine(data, offset) == Some(([kind] + body, offset + |body| + 3))
  {
    ReadLineFinds(data, offset, [kind] + body);
  }

  lemma DecodeText(data: bytes, offset: nat, kind: byte, body: bytes)
    requires At(data, offset, [kind] + body + CRLF) && (kind == PLUS || kind == MINUS) && CR !in body
    ensures offset <= |data|
    ensures DecodeReply(data, offset)
         == Some((if kind == PLUS then Simple(body) else Error(body), offset + |[kind] + body + CRLF|))
  {
    hide ReadLine, ParseCount;
    LineWithKind(data, offset, kind, body);
    assert ([kind] + body)[1..] == body;
  }

  lemma DecodeInteger(data: bytes, offset: nat, n: int)
    requires At(data, offset, EncodeInteger(n))
    ensures offset <= |data|
    ensures DecodeReply(data, offset) == Some((Integer(n), offset + |EncodeInteger(n)|))
  {
    hide Render, ParseCount, ReadLine;
    ParseCountRender(n);
    RenderHasNoCr(n);
    LineWithKind(data, offset, COLON, Render(n));
  }

  lemma DecodeBulk(data: bytes, offset: nat, value: bytes)
    requires At(data, offset, EncodeBulkString(value))
    ensures offset <= |data|
    ensures DecodeReply(data, offset) == Some((Bulk(value), offset + |EncodeBulkString(value)|))
  {
    hide Render, ParseCount, ReadLine;
    RenderHasNoCr(|value|);
    var header := [DOLLAR] + Render(|value|) + CRLF;
    ParseCountRender(|value|);
    AtSplit(data, offset, header, value + CRLF);
    LineWithKind(data, offset, DOLLAR, Render(|value|));
    AtSplit(data, offset + |header|, value, CRLF);
  }

  lemma DecodeNullBulk(data: bytes, offset: nat)
    requires At(data, offset, EncodeReply(NullBulk))
    ensures offset <= |data|
    ensures DecodeReply(data, offset) == Some((NullBulk, offset + |EncodeReply(NullBulk)|))
  {
    hide Render, ParseCount, ReadLine;
    ParseCountRender(-1);
    RenderHasNoCr(-1);
    LineWithKind(data, offset, DOLLAR, Render(-1));
  }

  /** Every encoded reply is exactly one frame, whatever bytes follow it. */
  lemma DecodeReplyInvertsEncode(data: bytes, offset: nat, reply: Reply)
    requires Framed(reply) && At(data, offset, EncodeReply(reply))
    ensures offset <= |data|
    ensures DecodeReply(data, offset) == Some((Received(reply), offset + |EncodeReply(reply)|))
  {
    hide Render, ParseCount, ReadLine, DecodeReply, SingleLine, At;
    match reply
    case Simple(text) =>
      DecodeText(data, offset, PLUS, text);
    case Error(text) =>
      SingleLineHasNoCr(text);
      DecodeText(data, offset, MINUS, SingleLine(text));
    case Integer(n) =>
      DecodeInteger(data, offset, n);
    case Bulk(value) =>
      DecodeBulk(data, offset, value);
    case NullBulk =>
      DecodeNullBulk(data, offset);
  }

  function EncodeReplies(replies: seq<Reply>): bytes {
    if |replies| == 0 then [] else EncodeReply(replies[0]) + EncodeReplies(replies[1..])
  }

  lemma {:induction false} EncodeRepliesAppend(xs: seq<Reply>, x: Reply)
    ensures EncodeReplies(xs + [x]) == EncodeReplies(xs) + EncodeReply(x)
  {
    hide EncodeReply;
    if |xs| == 0 {
      assert xs + [x] == [x];
    } else {
      EncodeRepliesAppend(xs[1..], x);
      assert (xs + [x])[1..] == xs[1..] + [x];
    }
  }

  function ReceivedAll(replies: seq<Reply>): seq<Reply> {
    seq(|replies|, i requires 0 <= i < |replies| => Received(replies[i]))
  }

  lemma EncodeRepliesHead(data: bytes, offset: nat, first: bytes, rest: bytes)
    requires offset <= |data| && data[offset..] == first + rest
    ensures At(data, offset, first) && data[offset + |first|..] == rest
  {
    var tail := data[offset..];
    assert tail[..|first|] == first && tail[|first|..] == rest;
    assert data[offset..offset + |first|] == tail[..|first|];
    assert data[offset + |first|..] == tail[|first|..];
  }

  /** A stream of replies decodes uniquely into those replies, one frame each, in order. */
  lemma {:induction false} DecodeRepliesInvertsEncode(data: bytes, offset: nat, replies: seq<Reply>)
    requires forall i :: 0 <= i < |replies| ==> Framed(replies[i])
    requires offset <= |data| && data[offset..] == EncodeReplies(replies)
    ensures DecodeReplies(data, offset) == Some(ReceivedAll(replies))
    decreases |replies|
  {
    hide EncodeReply, DecodeReply, Received;
    if |replies| == 0 {
    } else {
      var first, rest := EncodeReply(replies[0]), replies[1..];
      EncodeRepliesHead(data, offset, first, EncodeReplies(rest));
      DecodeReplyInvertsEncode(data, offset, replies[0]);
      DecodeRepliesInvertsEncode(data, offset + |first|, rest);
      assert ReceivedAll(replies) == [Received(replies[0])] + ReceivedAll(rest);
    }
  }

  // -- Requests ------------------------------------------------------------

  datatype BulkRead =
    | Body(body: bytes, next: nat)
    | BulkProtocolError(message: bytes)
    | BulkDisconnected

  datatype CommandRead =
    | EndOfStream
    | Request(parts: seq<bytes>, next: nat)
    | ProtocolError(message: bytes)
    | Disconnected

  const EXPECTED_STAR: string := "expected '*', got '"
  const EXPECTED_DOLLAR: string := "expected '$', got '"
  const INVALID_MULTIBULK: string := "invalid multibulk length"
  const INVALID_BULK: string := "invalid bulk length"

  function Got(expected: string, line: bytes): bytes {
    Ascii(expected) + Printable(if |line| > 0 then line[..1] else []) + [39]
  }

  function ReadBulkString(data: bytes, offset: nat): (r: BulkRead)
    requires offset <= |data|
    ensures r.Body? ==> offset < r.next <= |data|
  {
    match ReadLine(data, offset)
    case None => BulkDisconnected
    case Some((header, after)) =>
      if |header| == 0 || header[0] != DOLLAR then BulkProtocolError(Got(EXPECTED_DOLLAR, header))
      else
        match ParseCount(header[1..])
        case None => BulkProtocolError(Ascii(INVALID_BULK))
        case Some(length) =>
          if length < 0 || length > MAX_BULK_LENGTH then BulkProtocolError(Ascii(INVALID_BULK))
          else if after + length + 2 > |data| then BulkDisconnected
          else if !CrlfAt(data, after + length) then BulkProtocolError(Ascii(INVALID_BULK))
          else Body(data[after..after + length], after + length + 2)
  }

  function ReadBulkStrings(data: bytes, offset: nat, count: nat): (r: CommandRead)
    requires offset <= |data|
    ensures !r.EndOfStream?
    ensures r.Request? ==> offset <= r.next <= |data| && |r.parts| == count
    decreases count
  {
    if count == 0 then Request([], offset)
    else
      match ReadBulkString(data, offset)
      case BulkProtocolError(message) => ProtocolError(message)
      case BulkDisconnected => Disconnected
      case Body(body, next) =>
        match ReadBulkStrings(data, next, count - 1)
        case Request(rest, end) => Request([body] + rest, end)
        case other => other
  }

  /** `read_command` on the unread bytes `data[offset..]` of a stream that then ends. */
  function ReadCommand(data: bytes, offset: nat): (r: CommandRead)
    requires offset <= |data|
    ensures r.Request? ==> offset < r.next <= |data|
  {
    match ReadLine(data, offset)
    case None => if offset == |data| then EndOfStream else Disconnected
    case Some((header, after)) =>
      if |header| == 0 || header[0] != STAR then ProtocolError(Got(EXPECTED_STAR, header))
      else
        match ParseCount(header[1..])
        case None => ProtocolError(Ascii(INVALID_MULTIBULK))
        case Some(count) =>
          if count > MAX_MULTIBULK_LENGTH then ProtocolError(Ascii(INVALID_MULTIBULK))
          else if count <= 0 then Request([], after)
          else ReadBulkStrings(data, after, count)
  }
}
