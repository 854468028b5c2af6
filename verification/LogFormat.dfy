/** The append-only log as bytes: how records are split off, and what a torn or damaged tail means. */
module LogFormat {
  import opened Bytes
  import opened Resp

  // -- The scanner ---------------------------------------------------------

  datatype PartRead =
    | Part(part: bytes, next: nat)
    | PartIncomplete
    | PartCorrupt(at: nat)

  datatype RecordRead =
    | Complete(parts: seq<bytes>, next: nat)
    | Incomplete
    | Corrupt(at: nat)

  datatype Record = Record(offset: nat, parts: seq<bytes>)

  datatype Scan =
    | Scanned(records: seq<Record>, consumed: nat, trailing: nat)
    | ScanCorrupt(at: nat)

  function ReadPart(data: bytes, cursor: nat): (r: PartRead)
    requires cursor <= |data|
    ensures r.Part? ==> cursor < r.next <= |data|
  {
    match ReadLine(data, cursor)
    case None => PartIncomplete
    case Some((line, after)) =>
      if |line| == 0 || line[0] != DOLLAR then PartCorrupt(cursor)
      else
        match ParseCount(line[1..])
        case None => PartCorrupt(cursor)
        case Some(length) =>
          if length < 0 then PartCorrupt(cursor)
          else if after + length + 2 > |data| then PartIncomplete
          else if !CrlfAt(data, after + length) then PartCorrupt(cursor)
          else Part(data[after..after + length], after + length + 2)
  }

  function ReadParts(data: bytes, cursor: nat, count: nat): (r: RecordRead)
    requires cursor <= |data|
    ensures r.Complete? ==> cursor <= r.next <= |data| && |r.parts| == count
    decreases count
  {
    if count == 0 then Complete([], cursor)
    else
      match ReadPart(data, cursor)
      case PartIncomplete => Incomplete
      case PartCorrupt(at) => Corrupt(at)
      case Part(part, next) => Prepend([part], ReadParts(data, next, count - 1))
  }

  function Prepend(parts: seq<bytes>, r: RecordRead): RecordRead {
    if r.Complete? then Complete(parts + r.parts, r.next) else r
  }

  function ReadRecord(data: bytes, offset: nat): (r: RecordRead)
    requires offset <= |data|
    ensures r.Complete? ==> offset < r.next <= |data| && |r.parts| > 0
  {
    match ReadLine(data, offset)
    case None => Incomplete
    case Some((header, cursor)) =>
      if |header| == 0 || header[0] != STAR then Corrupt(offset)
      else
        match ParseCount(header[1..])
        case None => Corrupt(offset)
        case Some(count) => if count <= 0 then Corrupt(offset) else ReadParts(data, cursor, count)
  }

  function Extend(records: seq<Record>, scan: Scan): Scan {
    if scan.Scanned? then scan.(records := records + scan.records) else scan
  }

  function ScanFrom(data: bytes, offset: nat): (r: Scan)
    requires offset <= |data|
    ensures r.Scanned? ==> offset <= r.consumed <= |data| && r.trailing == |data| - r.consumed
    decreases |data| - offset
  {
    if offset == |data| then Scanned([], offset, 0)
    else
      match ReadRecord(data, offset)
      case Incomplete => Scanned([], offset, |data| - offset)
      case Corrupt(at) => ScanCorrupt(at)
      case Complete(parts, next) => Extend([Record(offset, parts)], ScanFrom(data, next))
  }

  /** `scan(data)`. */
  function ScanLog(data: bytes): Scan {
    ScanFrom(data, 0)
  }

  // -- What the scanner has seen it keeps ----------------------------------

  /** `data` and `other` agree on everything before `next`. */
  ghost predicate Agree(data: bytes, other: bytes, next: nat) {
    next <= |data| && next <= |other| && data[..next] == other[..next]
  }

  lemma AgreeAt(data: bytes, other: bytes, next: nat, i: nat)
    requires Agree(data, other, next) && i < next
    ensures data[i] == other[i]
  {
    assert data[..next][i] == other[..next][i];
  }

  lemma ReadLineLocal(data: bytes, other: bytes, offset: nat, next: nat)
    requires offset <= |data| && ReadLine(data, offset).Some?
    requires ReadLine(data, offset).value.1 <= next && Agree(data, other, next)
    ensures ReadLine(other, offset) == ReadLine(data, offset)
  {
    var end := FindCrlf(data, offset).value;
    forall i | offset <= i < end + 2 ensures data[i] == other[i] { AgreeAt(data, other, next, i); }
    assert CrlfAt(other, end);
    forall i | offset <= i < end ensures !CrlfAt(other, i) { assert !CrlfAt(data, i); }
    assert FindCrlf(other, offset) == Some(end);
    assert other[offset..end] == data[offset..end];
  }

  lemma ReadPartLocal(data: bytes, other: bytes, cursor: nat, next: nat)
    requires cursor <= |data| && ReadPart(data, cursor).Part?
    requires ReadPart(data, cursor).next <= next && Agree(data, other, next)
    ensures ReadPart(other, cursor) == ReadPart(data, cursor)
  {
    hide ReadLine, ParseCount;
    ReadLineLocal(data, other, cursor, next);
    var part := ReadPart(data, cursor);
    var start := part.next - 2 - |part.part|;
    forall i | start <= i < part.next ensures data[i] == other[i] { AgreeAt(data, other, next, i); }
    assert other[start..part.next - 2] == data[start..part.next - 2];
  }

  lemma {:induction false} ReadPartsLocal(data: bytes, other: bytes, cursor: nat, count: nat, next: nat)
    requires cursor <= |data| && ReadParts(data, cursor, count).Complete?
    requires ReadParts(data, cursor, count).next <= next && Agree(data, other, next)
    ensures ReadParts(other, cursor, count) == ReadParts(data, cursor, count)
    decreases count
  {
    hide ReadPart, Agree;
    if count == 0 {
    } else {
      ReadPartLocal(data, other, cursor, next);
      ReadPartsLocal(data, other, ReadPart(data, cursor).next, count - 1, next);
    }
  }

  /** A complete record is decided by its own bytes: neither truncating after it nor appending changes it. */
  lemma ReadRecordLocal(data: bytes, other: bytes, offset: nat, next: nat)
    requires offset <= |data| && ReadRecord(data, offset).Complete?
    requires ReadRecord(data, offset).next <= next && Agree(data, other, next)
    ensures ReadRecord(other, offset) == ReadRecord(data, offset)
  {
    ReadLineLocal(data, other, offset, next);
    var (header, cursor) := ReadLine(data, offset).value;
    ReadPartsLocal(data, other, cursor, ParseCount(header[1..]).value, next);
  }

  lemma ReadPartCorruptStays(data: bytes, longer: bytes, cursor: nat)
    requires data <= longer && cursor <= |data| && ReadPart(data, cursor).PartCorrupt?
    ensures ReadPart(longer, cursor) == ReadPart(data, cursor)
  {
    hide ReadLine, ParseCount;
    ReadLineLocal(data, longer, cursor, |data|);
  }

  lemma {:induction false} ReadPartsCorruptStays(data: bytes, longer: bytes, cursor: nat, count: nat)
    requires data <= longer && cursor <= |data| && ReadParts(data, cursor, count).Corrupt?
    ensures ReadParts(longer, cursor, count) == ReadParts(data, cursor, count)
    decreases count
  {
    hide ReadPart;
    match ReadPart(data, cursor)
    case PartCorrupt(_) => ReadPartCorruptStays(data, longer, cursor);
    case Part(_, next) =>
      ReadPartLocal(data, longer, cursor, |data|);
      ReadPartsCorruptStays(data, longer, next, count - 1);
  }

  lemma ReadRecordCorruptStays(data: bytes, longer: bytes, offset: nat)
    requires data <= longer && offset <= |data| && ReadRecord(data, offset).Corrupt?
    ensures ReadRecord(longer, offset) == ReadRecord(data, offset)
  {
    hide ParseCount;
    ReadLineLocal(data, longer, offset, |data|);
    var (header, cursor) := ReadLine(data, offset).value;
    if |header| > 0 && header[0] == STAR {
      var count := ParseCount(header[1..]);
      if count.Some? && count.value > 0 {
        ReadPartsCorruptStays(data, longer, cursor, count.value);
      }
    }
  }

  /**
   * Scanner monotonicity. Appending bytes keeps every record already scanned and resumes where the scan
   * had stopped; bytes that were corrupt are corrupt at the same offset however they are extended.
   */
  lemma {:induction false} ScanMonotone(data: bytes, longer: bytes, offset: nat)
    requires data <= longer && offset <= |data|
    ensures ScanFrom(data, offset).ScanCorrupt? ==> ScanFrom(longer, offset) == ScanFrom(data, offset)
    ensures ScanFrom(data, offset).Scanned? ==>
      var scan := ScanFrom(data, offset);
      ScanFrom(longer, offset) == Extend(scan.records, ScanFrom(longer, scan.consumed))
    decreases |data| - offset
  {
    hide ReadRecord;
    if offset == |data| {
    } else {
      match ReadRecord(data, offset)
      case Incomplete =>
      case Corrupt(_) => ReadRecordCorruptStays(data, longer, offset);
      case Complete(parts, next) =>
        ReadRecordLocal(data, longer, offset, |data|);
        ScanMonotone(data, longer, next);
        var scan := ScanFrom(data, next);
        if scan.Scanned? {
          var rest := ScanFrom(longer, scan.consumed);
          if rest.Scanned? {
            assert [Record(offset, parts)] + (scan.records + rest.records)
                == ([Record(offset, parts)] + scan.records) + rest.records;
          }
        }
    }
  }

  /** Repair: cutting a log at `consumed` keeps the scanned records and leaves nothing trailing. */
  lemma {:induction false} ScanTruncated(data: bytes, offset: nat)
    requires offset <= |data| && ScanFrom(data, offset).Scanned?
    ensures var scan := ScanFrom(data, offset);
      ScanFrom(data[..scan.consumed], offset) == Scanned(scan.records, scan.consumed, 0)
    decreases |data| - offset
  {
    var cut := data[..ScanFrom(data, offset).consumed];
    if offset == |data| {
    } else {
      match ReadRecord(data, offset)
      case Incomplete =>
      case Complete(_, next) =>
        ScanTruncated(data, next);
        ReadRecordLocal(data, cut, offset, |cut|);
    }
  }

  // -- Round trip ----------------------------------------------------------

  lemma ReadPartOfEncoded(data: bytes, cursor: nat, part: bytes)
    requires At(data, cursor, EncodeBulkString(part))
    ensures cursor <= |data|
    ensures ReadPart(data, cursor) == Part(part, cursor + |EncodeBulkString(part)|)
  {
    hide Render, ParseCount, ReadLine;
    var header := [DOLLAR] + Render(|part|) + CRLF;
    ParseCountRender(|part|);
    RenderHasNoCr(|part|);
    AtSplit(data, cursor, header, part + CRLF);
    LineWithKind(data, cursor, DOLLAR, Render(|part|));
    AtSplit(data, cursor + |header|, part, CRLF);
    var end := cursor + |header| + |part|;
    assert data[end..end + 2][0] == CR && data[end..end + 2][1] == LF;
  }

  lemma {:induction false} ReadPartsOfEncoded(data: bytes, cursor: nat, parts: seq<bytes>)
    requires At(data, cursor, EncodeBulkStrings(parts))
    ensures cursor <= |data|
    ensures ReadParts(data, cursor, |parts|) == Complete(parts, cursor + |EncodeBulkStrings(parts)|)
    decreases |parts|
  {
    hide EncodeBulkString;
    hide ReadPart;
    if |parts| == 0 {
    } else {
      var first := EncodeBulkString(parts[0]);
      AtSplit(data, cursor, first, EncodeBulkStrings(parts[1..]));
      ReadPartOfEncoded(data, cursor, parts[0]);
      ReadPartsOfEncoded(data, cursor + |first|, parts[1..]);
    }
  }

  lemma ReadRecordOfEncoded(data: bytes, offset: nat, parts: seq<bytes>)
    requires |parts| > 0 && At(data, offset, EncodeArray(parts))
    ensures offset <= |data|
    ensures ReadRecord(data, offset) == Complete(parts, offset + |EncodeArray(parts)|)
  {
    hide ReadParts, EncodeBulkStrings, Digits;
    var header := [STAR] + Render(|parts|) + CRLF;
    ParseCountRender(|parts|);
    AtSplit(data, offset, header, EncodeBulkStrings(parts));
    LineWithKind(data, offset, STAR, Render(|parts|));
    ReadPartsOfEncoded(data, offset + |header|, parts);
  }

  /** A strict prefix of a record is torn, never corrupt: the whole record would be corrupt too. */
  lemma ReadRecordOfTorn(data: bytes, offset: nat, parts: seq<bytes>)
    requires |parts| > 0 && offset <= |data| && data[offset..] < EncodeArray(parts)
    ensures ReadRecord(data, offset).Incomplete?
  {
    hide ReadRecord, EncodeArray;
    var whole := data[..offset] + EncodeArray(parts);
    assert data == data[..offset] + data[offset..];
    assert At(whole, offset, EncodeArray(parts));
    ReadRecordOfEncoded(whole, offset, parts);
    match ReadRecord(data, offset)
    case Incomplete =>
    case Corrupt(_) => ReadRecordCorruptStays(data, whole, offset);
    case Complete(_, _) => ReadRecordLocal(data, whole, offset, |data|);
  }

  function EncodeRecords(records: seq<seq<bytes>>): bytes {
    if |records| == 0 then [] else EncodeArray(records[0]) + EncodeRecords(records[1..])
  }

  /** Where the scanner must find each record, one after the other. */
  function Offsets(records: seq<seq<bytes>>, offset: nat): seq<Record> {
    if |records| == 0 then []
    else [Record(offset, records[0])] + Offsets(records[1..], offset + |EncodeArray(records[0])|)
  }

  /** `torn` is what a write of one record may have left when it was cut short. */
  ghost predicate TornRecord(torn: bytes) {
    torn == [] || exists parts: seq<bytes> :: |parts| > 0 && torn < EncodeArray(parts)
  }

  /** Log round trip, with a torn tail: exactly the written records come back, at their offsets. */
  lemma {:induction false} ScanInvertsEncode(data: bytes, offset: nat, records: seq<seq<bytes>>, torn: bytes)
    requires forall i :: 0 <= i < |records| ==> |records[i]| > 0
    requires TornRecord(torn)
    requires offset <= |data| && data[offset..] == EncodeRecords(records) + torn
    ensures ScanFrom(data, offset)
         == Scanned(Offsets(records, offset), offset + |EncodeRecords(records)|, |torn|)
    decreases |records|
  {
    hide EncodeArray;
    hide ReadRecord;
    if |records| == 0 {
      assert data[offset..] == torn;
      if |torn| > 0 {
        var parts: seq<bytes> :| |parts| > 0 && torn < EncodeArray(parts);
        ReadRecordOfTorn(data, offset, parts);
      }
    } else {
      var first, rest := EncodeArray(records[0]), EncodeRecords(records[1..]) + torn;
      assert data[offset..] == first + rest;
      EncodeRepliesHead(data, offset, first, rest);
      ReadRecordOfEncoded(data, offset, records[0]);
      ScanInvertsEncode(data, offset + |first|, records[1..], torn);
    }
  }

  lemma EncodeRecordsStep(records: seq<seq<bytes>>)
    ensures EncodeRecords(records)
         == if |records| == 0 then [] else EncodeArray(records[0]) + EncodeRecords(records[1..])
  {
    hide EncodeArray;
  }

  lemma {:induction false} EncodeRecordsAppend(xs: seq<seq<bytes>>, ys: seq<seq<bytes>>)
    ensures EncodeRecords(xs + ys) == EncodeRecords(xs) + EncodeRecords(ys)
  {
    hide EncodeArray, EncodeRecords;
    EncodeRecordsStep(xs);
    if |xs| == 0 {
      assert xs + ys == ys;
      assert [] + EncodeRecords(ys) == EncodeRecords(ys);
    } else {
      var first, rest := EncodeArray(xs[0]), xs[1..];
      EncodeRecordsStep(xs + ys);
      EncodeRecordsAppend(rest, ys);
      assert (xs + ys)[1..] == rest + ys;
      assert first + (EncodeRecords(rest) + EncodeRecords(ys)) == (first + EncodeRecords(rest)) + EncodeRecords(ys);
    }
  }

  // -- Damage that can never be repaired -----------------------------------

  /** No continuation of a corrupt log is a whole log. */
  lemma CorruptNeverLoads(data: bytes, longer: bytes)
    requires data <= longer && ScanLog(data).ScanCorrupt?
    ensures ScanLog(longer).ScanCorrupt?
  {
    ScanMonotone(data, longer, 0);
  }

  // -- The wire reader and the log scanner agree ---------------------------

  predicate WithinWireCaps(parts: seq<bytes>) {
    |parts| <= MAX_MULTIBULK_LENGTH && forall i :: 0 <= i < |parts| ==> |parts[i]| <= MAX_BULK_LENGTH
  }

  lemma BulkStringAgrees(data: bytes, cursor: nat, part: bytes, next: nat)
    requires cursor <= |data|
    ensures ReadBulkString(data, cursor) == Body(part, next)
      <==> (ReadPart(data, cursor) == Part(part, next) && |part| <= MAX_BULK_LENGTH)
  {
  }

  lemma {:induction false} BulkStringsAgree(data: bytes, cursor: nat, count: nat, parts: seq<bytes>, next: nat)
    requires cursor <= |data|
    ensures ReadBulkStrings(data, cursor, count) == Request(parts, next)
      <==> (ReadParts(data, cursor, count) == Complete(parts, next)
            && forall i :: 0 <= i < |parts| ==> |parts[i]| <= MAX_BULK_LENGTH)
    decreases count
  {
    hide ReadPart, ReadBulkString;
    if count == 0 || |parts| == 0 {
    } else {
      var read := ReadPart(data, cursor);
      if read.Part? {
        BulkStringAgrees(data, cursor, read.part, read.next);
        BulkStringsAgree(data, read.next, count - 1, parts[1..], next);
        assert parts == [parts[0]] + parts[1..];
      }
      var body := ReadBulkString(data, cursor);
      if body.Body? {
        BulkStringAgrees(data, cursor, body.body, body.next);
      }
    }
  }

  /** A non-empty request is accepted from the wire exactly when it scans as a record within the caps. */
  lemma WireAndLogAgree(data: bytes, offset: nat, parts: seq<bytes>, next: nat)
    requires offset <= |data| && |parts| > 0
    ensures ReadCommand(data, offset) == Request(parts, next)
       <==> ReadRecord(data, offset) == Complete(parts, next) && WithinWireCaps(parts)
  {
    var line := ReadLine(data, offset);
    if line.Some? && |line.value.0| > 0 {
      var count := ParseCount(line.value.0[1..]);
      if count.Some? && count.value > 0 {
        BulkStringsAgree(data, line.value.1, count.value, parts, next);
      }
    }
  }
}
