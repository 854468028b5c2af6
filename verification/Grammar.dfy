/** The grammar of requests and log records as relations on the bytes, and that the readers decide exactly it. */
module Grammar {
  import opened Bytes
  import opened Resp
  import opened LogFormat

  // -- The grammar ---------------------------------------------------------

  /** `line` stands at `offset`, ended by the first CRLF there is. */
  ghost predicate LineAt(data: bytes, offset: nat, line: bytes) {
    && At(data, offset, line + [13, 10])
    && forall i :: offset <= i < offset + |line| ==> !(data[i] == 13 && data[i + 1] == 10)
  }

  /** `line` is `mark` and then a count, namely `n`. */
  predicate Announces(line: bytes, mark: byte, n: int) {
    |line| > 0 && line[0] == mark && ParseCount(line[1..]) == Some(n)
  }

  predicate Over(n: int, cap: Option<int>) {
    cap.Some? && n > cap.value
  }

  /** The bulk string `body` stands at `offset` and ends before `next`. */
  ghost predicate BulkAt(data: bytes, offset: nat, body: bytes, next: nat, cap: Option<int>) {
    exists header :: LineAt(data, offset, header)
      && Announces(header, 36, |body|) && !Over(|body|, cap)
      && At(data, offset + |header| + 2, body + [13, 10]) && next == offset + |header| + |body| + 4
  }

  /** No body of `n` bytes can stand at `start`. */
  predicate NoBody(data: bytes, start: nat, n: int, cap: Option<int>) {
    n < 0 || Over(n, cap) || (start + n + 2 <= |data| && data[start + n..start + n + 2] != [13, 10])
  }

  /** The line at `offset` announces no bulk string, or one that what follows cannot be. */
  ghost predicate BadBulkAt(data: bytes, offset: nat, cap: Option<int>) {
    exists header :: LineAt(data, offset, header)
      && forall n :: Announces(header, 36, n) ==> NoBody(data, offset + |header| + 2, n, cap)
  }

  ghost predicate BulksAt(data: bytes, offset: nat, parts: seq<bytes>, next: nat, cap: Option<int>)
    decreases |parts|
  {
    if |parts| == 0 then next == offset
    else exists mid: nat :: BulkAt(data, offset, parts[0], mid, cap) && BulksAt(data, mid, parts[1..], next, cap)
  }

  /** Of the `count` bulk strings from `offset` on, the first that is not one stands at `at`. */
  ghost predicate BadBulksAt(data: bytes, offset: nat, count: nat, at: nat, cap: Option<int>)
    decreases count
  {
    count > 0 && ((at == offset && BadBulkAt(data, offset, cap))
      || exists body, mid: nat :: BulkAt(data, offset, body, mid, cap) && BadBulksAt(data, mid, count - 1, at, cap))
  }

  ghost predicate SomeBadBulk(data: bytes, offset: nat, count: nat, cap: Option<int>) {
    exists at :: BadBulksAt(data, offset, count, at, cap)
  }

  const WIRE_CAP: Option<int> := Some(67_108_864)

  /** A request: `*` and a count of at most 2^20, then that many bulk strings; none for a count of 0 or less. */
  ghost predicate RequestAt(data: bytes, offset: nat, parts: seq<bytes>, next: nat) {
    exists header :: LineAt(data, offset, header)
      && if |parts| == 0 then next == offset + |header| + 2 && exists n :: Announces(header, 42, n) && n <= 0
         else |parts| <= 1_048_576 && Announces(header, 42, |parts|)
              && BulksAt(data, offset + |header| + 2, parts, next, WIRE_CAP)
  }

  /** No request can go on at `start` after announcing `n` bulk strings. */
  ghost predicate NoBulks(data: bytes, start: nat, n: int) {
    n > 1_048_576 || (n > 0 && SomeBadBulk(data, start, n, WIRE_CAP))
  }

  /** What stands at `offset` breaks the grammar of requests, whatever may follow. */
  ghost predicate BadRequestAt(data: bytes, offset: nat) {
    exists header :: LineAt(data, offset, header)
      && forall n :: Announces(header, 42, n) ==> NoBulks(data, offset + |header| + 2, n)
  }

  /** A record: `*` and a positive count, then that many bulk strings of any length. */
  ghost predicate RecordAt(data: bytes, offset: nat, parts: seq<bytes>, next: nat) {
    && |parts| > 0
    && exists header :: LineAt(data, offset, header)
         && Announces(header, 42, |parts|) && BulksAt(data, offset + |header| + 2, parts, next, None)
  }

  /** What stands at `offset` breaks the grammar of records, first at `at`. */
  ghost predicate BadRecordAt(data: bytes, offset: nat, at: nat) {
    exists header :: LineAt(data, offset, header)
      && if exists n :: Announces(header, 42, n) && n > 0
         then forall n :: Announces(header, 42, n) ==> n > 0 && BadBulksAt(data, offset + |header| + 2, n, at, None)
         else at == offset
  }

  ghost predicate RecordsAt(data: bytes, offset: nat, records: seq<Record>, next: nat)
    decreases |records|
  {
    if |records| == 0 then next == offset
    else
      records[0].offset == offset
      && exists mid: nat :: RecordAt(data, offset, records[0].parts, mid) && RecordsAt(data, mid, records[1..], next)
  }

  /** Neither a record nor the beginning of something that is none. */
  ghost predicate Unfinished(data: bytes, offset: nat) {
    (forall parts, next :: !RecordAt(data, offset, parts, next)) && forall at :: !BadRecordAt(data, offset, at)
  }

  // -- Lines ---------------------------------------------------------------

  lemma LineIsRead(data: bytes, offset: nat, line: bytes)
    requires offset <= |data|
    ensures LineAt(data, offset, line) <==> ReadLine(data, offset) == Some((line, offset + |line| + 2))
  {
    var end := offset + |line|;
    AtSplit(data, offset, line, [13, 10]);
    if LineAt(data, offset, line) {
      assert data[end..end + 2][0] == 13 && data[end..end + 2][1] == 10;
      assert CrlfAt(data, end) && forall i :: offset <= i < end ==> !CrlfAt(data, i);
      assert FindCrlf(data, offset) == Some(end);
      assert data[offset..end] == line;
    }
    if ReadLine(data, offset) == Some((line, end + 2)) {
      assert line + CRLF == line + [13, 10];
      forall i | offset <= i < end ensures !(data[i] == 13 && data[i + 1] == 10) {
        assert !CrlfAt(data, i);
      }
    }
  }

  /** The line at an offset, if it is complete, is the one that is read. */
  lemma LinesAreRead(data: bytes, offset: nat)
    requires offset <= |data|
    ensures forall line ::
      LineAt(data, offset, line) <==> ReadLine(data, offset).Some? && ReadLine(data, offset).value.0 == line
    ensures ReadLine(data, offset).Some? ==>
      ReadLine(data, offset).value.1 == offset + |ReadLine(data, offset).value.0| + 2
  {
    hide LineAt;
    forall line ensures LineAt(data, offset, line)
      <==> ReadLine(data, offset).Some? && ReadLine(data, offset).value.0 == line
    {
      LineIsRead(data, offset, line);
    }
  }

  lemma BodyStands(data: bytes, start: nat, n: nat, body: bytes)
    requires start + n + 2 <= |data| && |body| == n
    ensures At(data, start, body + [13, 10]) <==> CrlfAt(data, start + n) && data[start..start + n] == body
    ensures CrlfAt(data, start + n) <==> data[start + n..start + n + 2] == [13, 10]
  {
    var end := data[start + n..start + n + 2];
    assert end[0] == data[start + n] && end[1] == data[start + n + 1];
    assert CrlfAt(data, start + n) <==> end == [13, 10];
    AtSplit(data, start, body, [13, 10]);
  }

  // -- Bulk strings --------------------------------------------------------

  lemma HeadersCount(header: bytes, mark: byte)
    ensures forall n :: Announces(header, mark, n) <==>
      |header| > 0 && header[0] == mark && ParseCount(header[1..]).Some? && ParseCount(header[1..]).value == n
  {
  }

  /** What follows the one complete line there is decides. */
  lemma OneHeader(data: bytes, offset: nat, header: bytes, body: bytes, next: nat, cap: Option<int>)
    requires LineAt(data, offset, header) && forall line :: LineAt(data, offset, line) ==> line == header
    ensures BulkAt(data, offset, body, next, cap)
       <==> Announces(header, 36, |body|) && !Over(|body|, cap)
            && At(data, offset + |header| + 2, body + [13, 10]) && next == offset + |header| + |body| + 4
    ensures BadBulkAt(data, offset, cap)
       <==> forall n :: Announces(header, 36, n) ==> NoBody(data, offset + |header| + 2, n, cap)
  {
    hide LineAt, At, Announces, NoBody;
  }

  lemma NoHeader(data: bytes, offset: nat, body: bytes, next: nat, cap: Option<int>)
    requires forall line :: !LineAt(data, offset, line)
    ensures !BulkAt(data, offset, body, next, cap) && !BadBulkAt(data, offset, cap)
  {
    hide LineAt, At, Announces, NoBody;
  }

  /** The body an announced length cuts out, or why there is none. */
  lemma BodyCut(data: bytes, start: nat, n: int, body: bytes, cap: Option<int>)
    ensures n >= 0 && start + n + 2 <= |data| ==> |data[start..start + n]| == n
    ensures |body| == n && At(data, start, body + [13, 10])
       <==> n >= 0 && start + n + 2 <= |data| && CrlfAt(data, start + n) && data[start..start + n] == body
    ensures NoBody(data, start, n, cap)
       <==> n < 0 || Over(n, cap) || (start + n + 2 <= |data| && !CrlfAt(data, start + n))
  {
    if 0 <= n && start + n + 2 <= |data| {
      BodyStands(data, start, n, data[start..start + n]);
      if |body| == n {
        BodyStands(data, start, n, body);
      }
    }
  }

  /** The log's reader of bulk strings. */
  lemma PartIsRead(data: bytes, cursor: nat, body: bytes, next: nat)
    requires cursor <= |data|
    ensures BulkAt(data, cursor, body, next, None) <==> ReadPart(data, cursor) == Part(body, next)
    ensures BadBulkAt(data, cursor, None) <==> ReadPart(data, cursor).PartCorrupt?
    ensures ReadPart(data, cursor).PartCorrupt? ==> ReadPart(data, cursor).at == cursor
  {
    hide LineAt, ReadLine, ParseCount, At, CrlfAt, Announces, NoBody, BulkAt, BadBulkAt;
    LinesAreRead(data, cursor);
    if ReadLine(data, cursor).None? {
      NoHeader(data, cursor, body, next, None);
    } else {
      var (header, after) := ReadLine(data, cursor).value;
      OneHeader(data, cursor, header, body, next, None);
      HeadersCount(header, 36);
      if |header| > 0 && header[0] == 36 && ParseCount(header[1..]).Some? {
        assert Announces(header, 36, ParseCount(header[1..]).value);
        BodyCut(data, after, ParseCount(header[1..]).value, body, None);
      }
    }
  }

  /** The connection's reader of bulk strings. */
  lemma BulkIsRead(data: bytes, cursor: nat, body: bytes, next: nat)
    requires cursor <= |data|
    ensures BulkAt(data, cursor, body, next, WIRE_CAP) <==> ReadBulkString(data, cursor) == Body(body, next)
    ensures BadBulkAt(data, cursor, WIRE_CAP) <==> ReadBulkString(data, cursor).BulkProtocolError?
  {
    hide LineAt, ReadLine, ParseCount, At, CrlfAt, Announces, NoBody, BulkAt, BadBulkAt, Got, Ascii;
    LinesAreRead(data, cursor);
    if ReadLine(data, cursor).None? {
      NoHeader(data, cursor, body, next, WIRE_CAP);
    } else {
      var (header, after) := ReadLine(data, cursor).value;
      OneHeader(data, cursor, header, body, next, WIRE_CAP);
      HeadersCount(header, 36);
      if |header| > 0 && header[0] == 36 && ParseCount(header[1..]).Some? {
        assert Announces(header, 36, ParseCount(header[1..]).value);
        BodyCut(data, after, ParseCount(header[1..]).value, body, WIRE_CAP);
      }
    }
  }

  lemma {:induction false} PartsAreRead(data: bytes, cursor: nat, count: nat, parts: seq<bytes>, next: nat, at: nat)
    requires cursor <= |data|
    ensures |parts| == count && BulksAt(data, cursor, parts, next, None)
       <==> ReadParts(data, cursor, count) == Complete(parts, next)
    ensures BadBulksAt(data, cursor, count, at, None) <==> ReadParts(data, cursor, count) == Corrupt(at)
    decreases count
  {
    hide ReadPart, BulkAt, BadBulkAt;
    if count == 0 {
    } else {
      var read := ReadPart(data, cursor);
      forall body, mid: nat ensures BulkAt(data, cursor, body, mid, None) <==> read == Part(body, mid) {
        PartIsRead(data, cursor, body, mid);
      }
      PartIsRead(data, cursor, [], 0);
      if read.Part? {
        PartsAreRead(data, read.next, count - 1, if |parts| > 0 then parts[1..] else [], next, at);
        assert BulkAt(data, cursor, read.part, read.next, None);
        assert |parts| > 0 ==> parts == [parts[0]] + parts[1..];
      }
    }
  }

  lemma {:induction false} BulksAreRead(data: bytes, cursor: nat, count: nat, parts: seq<bytes>, next: nat)
    requires cursor <= |data|
    ensures |parts| == count && BulksAt(data, cursor, parts, next, WIRE_CAP)
       <==> ReadBulkStrings(data, cursor, count) == Request(parts, next)
    ensures SomeBadBulk(data, cursor, count, WIRE_CAP)
       <==> ReadBulkStrings(data, cursor, count).ProtocolError?
    decreases count
  {
    hide ReadBulkString, BulkAt, BadBulkAt;
    if count == 0 {
    } else {
      var read := ReadBulkString(data, cursor);
      forall body, mid: nat ensures BulkAt(data, cursor, body, mid, WIRE_CAP) <==> read == Body(body, mid) {
        BulkIsRead(data, cursor, body, mid);
      }
      BulkIsRead(data, cursor, [], 0);
      if read.Body? {
        BulksAreRead(data, read.next, count - 1, if |parts| > 0 then parts[1..] else [], next);
        assert BulkAt(data, cursor, read.body, read.next, WIRE_CAP);
        assert |parts| > 0 ==> parts == [parts[0]] + parts[1..];
        if at: nat :| BadBulksAt(data, cursor, count, at, WIRE_CAP) {
          assert BadBulksAt(data, read.next, count - 1, at, WIRE_CAP);
          assert SomeBadBulk(data, read.next, count - 1, WIRE_CAP);
        }
        var rest, left: nat := read.next, count - 1;
        if at: nat :| BadBulksAt(data, rest, left, at, WIRE_CAP) {
          assert BadBulksAt(data, cursor, count, at, WIRE_CAP);
        }
      } else if read.BulkProtocolError? {
        assert BadBulksAt(data, cursor, count, cursor, WIRE_CAP);
      }
    }
  }

  // -- Requests ------------------------------------------------------------

  lemma OneRequestHeader(data: bytes, offset: nat, header: bytes, parts: seq<bytes>, next: nat)
    requires LineAt(data, offset, header) && forall line :: LineAt(data, offset, line) ==> line == header
    ensures RequestAt(data, offset, parts, next)
       <==> if |parts| == 0 then next == offset + |header| + 2 && exists n :: Announces(header, 42, n) && n <= 0
            else |parts| <= 1_048_576 && Announces(header, 42, |parts|)
                 && BulksAt(data, offset + |header| + 2, parts, next, WIRE_CAP)
    ensures BadRequestAt(data, offset)
       <==> forall n :: Announces(header, 42, n) ==> NoBulks(data, offset + |header| + 2, n)
  {
    hide LineAt, BulksAt, NoBulks, Announces;
  }

  lemma NoRequestHeader(data: bytes, offset: nat, parts: seq<bytes>, next: nat)
    requires forall line :: !LineAt(data, offset, line)
    ensures !RequestAt(data, offset, parts, next) && !BadRequestAt(data, offset)
  {
    hide LineAt, BulksAt, BadBulksAt, Announces;
  }

  /**
   * Reading requests. A request is read exactly when one stands at the position, an empty one exactly when its
   * line announces none or less; the reading is a protocol error exactly when the bytes break the grammar or a
   * cap, and a clean end exactly at the end of the stream. All that remains is a peer that vanished in between.
   */
  lemma RequestsAreRead(data: bytes, offset: nat, parts: seq<bytes>, next: nat)
    requires offset <= |data|
    ensures ReadCommand(data, offset) == Request(parts, next) <==> RequestAt(data, offset, parts, next)
    ensures ReadCommand(data, offset).ProtocolError? <==> BadRequestAt(data, offset)
    ensures ReadCommand(data, offset).EndOfStream? <==> offset == |data|
  {
    hide LineAt, ReadLine, ParseCount, At, Announces, Got, Ascii, BulksAt, SomeBadBulk, ReadBulkStrings, RequestAt,
         BadRequestAt;
    LinesAreRead(data, offset);
    if ReadLine(data, offset).None? {
      NoRequestHeader(data, offset, parts, next);
    } else {
      var (header, after) := ReadLine(data, offset).value;
      OneRequestHeader(data, offset, header, parts, next);
      HeadersCount(header, 42);
      if |header| > 0 && header[0] == 42 && ParseCount(header[1..]).Some? {
        var n := ParseCount(header[1..]).value;
        assert Announces(header, 42, n);
        if n > 0 {
          BulksAreRead(data, after, n, parts, next);
        }
      }
    }
  }

  /** In particular a line that does not begin with `*` is a protocol error. */
  lemma StrangeLineIsBad(data: bytes, offset: nat, line: bytes)
    requires LineAt(data, offset, line) && (|line| == 0 || line[0] != 42)
    ensures offset <= |data| && BadRequestAt(data, offset)
  {
    hide At;
    assert At(data, offset, line + [13, 10]);
    AtIsInside(data, offset, line + [13, 10]);
  }

  lemma AtIsInside(data: bytes, offset: nat, chunk: bytes)
    requires At(data, offset, chunk)
    ensures offset + |chunk| <= |data|
  {
  }

  // -- Records -------------------------------------------------------------

  lemma OneRecordHeader(data: bytes, offset: nat, header: bytes, parts: seq<bytes>, next: nat, at: nat)
    requires LineAt(data, offset, header) && forall line :: LineAt(data, offset, line) ==> line == header
    ensures RecordAt(data, offset, parts, next)
       <==> |parts| > 0 && Announces(header, 42, |parts|) && BulksAt(data, offset + |header| + 2, parts, next, None)
    ensures BadRecordAt(data, offset, at)
       <==> if exists n :: Announces(header, 42, n) && n > 0
            then forall n :: Announces(header, 42, n) ==>
                   n > 0 && BadBulksAt(data, offset + |header| + 2, n, at, None)
            else at == offset
  {
    hide LineAt, BulksAt, BadBulksAt, Announces;
  }

  lemma NoRecordHeader(data: bytes, offset: nat, parts: seq<bytes>, next: nat, at: nat)
    requires forall line :: !LineAt(data, offset, line)
    ensures !RecordAt(data, offset, parts, next) && !BadRecordAt(data, offset, at)
  {
    hide LineAt, BulksAt, BadBulksAt, Announces;
  }

  /** A record is read exactly when one stands there, and called corrupt exactly where the grammar is broken. */
  lemma RecordsAreRead(data: bytes, offset: nat, parts: seq<bytes>, next: nat, at: nat)
    requires offset <= |data|
    ensures ReadRecord(data, offset) == Complete(parts, next) <==> RecordAt(data, offset, parts, next)
    ensures ReadRecord(data, offset) == Corrupt(at) <==> BadRecordAt(data, offset, at)
  {
    hide LineAt, ReadLine, ParseCount, At, Announces, BulksAt, BadBulksAt, ReadParts, RecordAt, BadRecordAt;
    LinesAreRead(data, offset);
    if ReadLine(data, offset).None? {
      NoRecordHeader(data, offset, parts, next, at);
    } else {
      var (header, after) := ReadLine(data, offset).value;
      OneRecordHeader(data, offset, header, parts, next, at);
      HeadersCount(header, 42);
      if |header| > 0 && header[0] == 42 && ParseCount(header[1..]).Some? {
        var n := ParseCount(header[1..]).value;
        assert Announces(header, 42, n);
        if n > 0 {
          PartsAreRead(data, after, n, parts, next, at);
        }
      }
    }
  }

  lemma UnfinishedIsIncomplete(data: bytes, offset: nat)
    requires offset <= |data|
    ensures Unfinished(data, offset) <==> ReadRecord(data, offset).Incomplete?
  {
    hide RecordAt, BadRecordAt, ReadRecord;
    forall parts, next: nat
      ensures RecordAt(data, offset, parts, next) <==> ReadRecord(data, offset) == Complete(parts, next)
    {
      RecordsAreRead(data, offset, parts, next, 0);
    }
    forall at: nat ensures BadRecordAt(data, offset, at) <==> ReadRecord(data, offset) == Corrupt(at) {
      RecordsAreRead(data, offset, [], 0, at);
    }
    match ReadRecord(data, offset)
    case Complete(parts, next) => assert RecordAt(data, offset, parts, next);
    case Corrupt(at) => assert BadRecordAt(data, offset, at);
    case Incomplete =>
  }

  // -- Logs ----------------------------------------------------------------

  /**
   * Scanning. The records of a scan are exactly those that stand one after the other, and it stops exactly where
   * the rest is unfinished; it refuses the log exactly when after some whole records the grammar is broken.
   */
  lemma {:induction false} LogsAreScanned(data: bytes, offset: nat, records: seq<Record>, next: nat, at: nat)
    requires offset <= |data|
    ensures (ScanFrom(data, offset).Scanned? && ScanFrom(data, offset).records == records
             && ScanFrom(data, offset).consumed == next)
       <==> RecordsAt(data, offset, records, next) && next <= |data| && Unfinished(data, next)
    ensures ScanFrom(data, offset) == ScanCorrupt(at)
       <==> exists whole, end: nat :: RecordsAt(data, offset, whole, end) && end <= |data| && BadRecordAt(data, end, at)
    decreases |data| - offset
  {
    hide RecordAt, BadRecordAt, ReadRecord, Unfinished;
    UnfinishedIsIncomplete(data, offset);
    var read := ReadRecord(data, offset);
    forall parts, mid: nat ensures RecordAt(data, offset, parts, mid) <==> read == Complete(parts, mid) {
      RecordsAreRead(data, offset, parts, mid, 0);
    }
    RecordsAreRead(data, offset, [], 0, at);
    if offset == |data| {
      EmptyIsIncomplete(data, offset);
    }
    match read
    case Incomplete =>
    case Corrupt(_) => assert RecordsAt(data, offset, [], offset);
    case Complete(parts, mid) =>
      LogsAreScanned(data, mid, if |records| > 0 then records[1..] else [], next, at);
      assert RecordAt(data, offset, parts, mid);
      assert |records| > 0 ==> records == [records[0]] + records[1..];
      if whole, end: nat :| RecordsAt(data, offset, whole, end) && end <= |data| && BadRecordAt(data, end, at) {
        assert |whole| > 0 && RecordsAt(data, mid, whole[1..], end);
      }
      if whole, end: nat :| RecordsAt(data, mid, whole, end) && end <= |data| && BadRecordAt(data, end, at) {
        var longer := [Record(offset, parts)] + whole;
        assert longer[1..] == whole && RecordsAt(data, offset, longer, end);
      }
  }

  lemma EmptyIsIncomplete(data: bytes, offset: nat)
    requires offset == |data|
    ensures ReadRecord(data, offset).Incomplete?
  {
  }
}
