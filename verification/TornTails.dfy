/** Exactly which tails the scanner calls torn are prefixes of something that would load. */
module TornTails {
  import opened Bytes
  import opened Resp
  import opened LogFormat

  predicate Zeros(raw: bytes) {
    forall i :: 0 <= i < |raw| ==> raw[i] == ZERO
  }

  /** A count the reader accepts: positive for a record header, not negative for a part. */
  predicate Accepted(raw: bytes, positive: bool) {
    var n := ParseCount(raw);
    n.Some? && n.value >= (if positive then 1 else 0)
  }

  /** An unterminated header line that more bytes can still turn into an accepted one. */
  predicate HeaderCanGrow(kind: byte, tail: bytes, positive: bool) {
    |tail| == 0 ||
    (tail[0] == kind &&
     var body := tail[1..];
     || AllDigits(body)
     || (!positive && |body| > 0 && body[0] == MINUS && Zeros(body[1..]))
     || (|body| > 0 && body[|body| - 1] == CR && Accepted(body[..|body| - 1], positive)))
  }

  /** A part that ends early, but not in a way that rules out its completion. */
  predicate PartCanGrow(data: bytes, cursor: nat)
    requires cursor <= |data| && ReadPart(data, cursor).PartIncomplete?
  {
    match ReadLine(data, cursor)
    case None => HeaderCanGrow(DOLLAR, data[cursor..], false)
    case Some((line, after)) =>
      var end := after + ParseCount(line[1..]).value;
      |data| <= end || data[end] == CR
  }

  predicate PartsCanGrow(data: bytes, cursor: nat, count: nat)
    requires cursor <= |data|
    decreases count
  {
    if count == 0 then true
    else
      match ReadPart(data, cursor)
      case PartIncomplete => PartCanGrow(data, cursor)
      case PartCorrupt(_) => false
      case Part(_, next) => PartsCanGrow(data, next, count - 1)
  }

  /** The bytes from `offset` on are the beginning of a record, as far as they go. */
  predicate Completable(data: bytes, offset: nat)
    requires offset <= |data|
  {
    match ReadLine(data, offset)
    case None => HeaderCanGrow(STAR, data[offset..], true)
    case Some((header, cursor)) =>
      && |header| > 0 && header[0] == STAR && Accepted(header[1..], true)
      && PartsCanGrow(data, cursor, ParseCount(header[1..]).value)
  }

  // -- Decimal facts -------------------------------------------------------

  lemma {:induction false} ZerosAreZero(raw: bytes)
    requires AllDigits(raw)
    ensures DigitsValue(raw) == 0 <==> Zeros(raw)
    decreases |raw|
  {
    if |raw| == 0 {
    } else {
      var front := raw[..|raw| - 1];
      ZerosAreZero(front);
      assert raw == front + [raw[|raw| - 1]];
    }
  }

  lemma AppendDigit(raw: bytes, digit: byte)
    requires AllDigits(raw) && IsDigit(digit)
    ensures AllDigits(raw + [digit])
    ensures DigitsValue(raw + [digit]) == DigitsValue(raw) * 10 + (digit as int - 48)
  {
    assert (raw + [digit])[..|raw|] == raw;
  }

  lemma AcceptedShape(raw: bytes, positive: bool)
    ensures Accepted(raw, positive) <==>
      || (|raw| > 0 && AllDigits(raw) && (positive ==> DigitsValue(raw) > 0))
      || (!positive && |raw| > 1 && raw[0] == MINUS && Zeros(raw[1..]))
  {
    if |raw| > 1 && raw[0] == MINUS && AllDigits(raw[1..]) {
      assert raw == [MINUS] + raw[1..];
      ParseCountOfDigits(raw[1..]);
      ZerosAreZero(raw[1..]);
    } else if |raw| > 0 && AllDigits(raw) {
      ParseCountOfDigits(raw);
      assert IsDigit(raw[0]);
    }
    if |raw| > 1 && raw[0] == MINUS && Zeros(raw[1..]) {
      assert AllDigits(raw[1..]);
    }
  }

  // -- Growing a tail into a record ----------------------------------------

  lemma GrowHeader(kind: byte, tail: bytes, positive: bool) returns (more: bytes, line: bytes)
    requires HeaderCanGrow(kind, tail, positive) && kind != CR
    ensures tail + more == line + CRLF && CR !in line
    ensures |line| > 0 && line[0] == kind && Accepted(line[1..], positive)
  {
    hide ParseCount, DigitsValue;
    var one: byte := 49;
    if |tail| == 0 {
      line, more := [kind, one], [kind, one] + CRLF;
      assert line[1..] == [one];
      AppendDigit([], one);
      assert [] + [one] == [one];
      AcceptedShape([one], positive);
    } else {
      var body := tail[1..];
      assert tail == [kind] + body;
      if AllDigits(body) {
        line, more := tail + [one], [one] + CRLF;
        assert line[1..] == body + [one];
        AppendDigit(body, one);
        AcceptedShape(body + [one], positive);
      } else if !positive && |body| > 0 && body[0] == MINUS && Zeros(body[1..]) {
        line, more := tail + [ZERO], [ZERO] + CRLF;
        assert line[1..] == body + [ZERO];
        assert (body + [ZERO])[1..] == body[1..] + [ZERO];
        AcceptedShape(body + [ZERO], positive);
      } else {
        line, more := tail[..|tail| - 1], [LF];
        assert line[1..] == body[..|body| - 1];
        AcceptedShape(line[1..], positive);
        assert line == [kind] + line[1..];
      }
    }
  }

  lemma TailAt(data: bytes, offset: nat, more: bytes, chunk: bytes)
    requires offset <= |data| && data[offset..] + more == chunk
    ensures At(data + more, offset, chunk)
  {
    assert (data + more)[offset..] == data[offset..] + more;
  }

  /** Once its header line is there, a part is completed by any bytes of the length it announces. */
  lemma FillPart(data: bytes, cursor: nat, line: bytes, after: nat, more: bytes)
    requires cursor <= |data| && ReadLine(data, cursor) == Some((line, after))
    requires |line| > 0 && line[0] == DOLLAR && Accepted(line[1..], false)
    requires |data + more| == after + ParseCount(line[1..]).value + 2
    requires CrlfAt(data + more, |data + more| - 2)
    ensures ReadPart(data + more, cursor).Part? && ReadPart(data + more, cursor).next == |data + more|
  {
    hide ParseCount, ReadLine;
    ReadLineLocal(data, data + more, cursor, |data|);
  }

  lemma GrowUnterminatedPart(data: bytes, cursor: nat) returns (more: bytes)
    requires cursor <= |data| && ReadLine(data, cursor).None? && HeaderCanGrow(DOLLAR, data[cursor..], false)
    ensures ReadPart(data + more, cursor).Part? && ReadPart(data + more, cursor).next == |data + more|
  {
    hide ParseCount, ReadLine, ReadPart, HeaderCanGrow;
    var header, line := GrowHeader(DOLLAR, data[cursor..], false);
    TailAt(data, cursor, header, line + CRLF);
    var grown := data + header;
    ReadLineFinds(grown, cursor, line);
    GrownLength(data, cursor, header, line);
    var body := Filler(ParseCount(line[1..]).value) + CRLF;
    assert CrlfAt(grown + body, |grown + body| - 2);
    FillPart(grown, cursor, line, |grown|, body);
    more := header + body;
    assert data + more == grown + body;
  }

  lemma GrownLength(data: bytes, cursor: nat, header: bytes, line: bytes)
    requires cursor <= |data| && data[cursor..] + header == line + CRLF
    ensures cursor + |line| + 2 == |data + header|
  {
    assert |data[cursor..] + header| == |line + CRLF|;
  }

  /** Complete the unfinished part and nothing else. */
  lemma GrowPart(data: bytes, cursor: nat) returns (more: bytes)
    requires cursor <= |data| && ReadPart(data, cursor).PartIncomplete? && PartCanGrow(data, cursor)
    ensures ReadPart(data + more, cursor).Part? && ReadPart(data + more, cursor).next == |data + more|
  {
    match ReadLine(data, cursor)
    case None =>
      more := GrowUnterminatedPart(data, cursor);
    case Some((line, after)) =>
      hide HeaderCanGrow, ParseCount;
      var end: nat := after + ParseCount(line[1..]).value;
      more := if |data| <= end then Filler(end - |data|) + CRLF else [LF];
      assert CrlfAt(data + more, end);
      FillPart(data, cursor, line, after, more);
  }

  function Filler(n: nat): (r: bytes)
    ensures |r| == n
  {
    seq(n, _ => 0)
  }

  function EmptyParts(n: nat): (r: seq<bytes>)
    ensures |r| == n
  {
    seq(n, _ => [])
  }

  lemma {:induction false} GrowParts(data: bytes, cursor: nat, count: nat) returns (more: bytes)
    requires cursor <= |data| && PartsCanGrow(data, cursor, count)
    ensures ReadParts(data + more, cursor, count).Complete?
    decreases count
  {
    hide ReadPart, PartCanGrow, EncodeBulkStrings;
    more := [];
    if count == 0 {
    } else {
      match ReadPart(data, cursor)
      case Part(_, next) =>
        more := GrowParts(data, next, count - 1);
        ReadPartLocal(data, data + more, cursor, |data|);
      case PartIncomplete =>
        var first := GrowPart(data, cursor);
        var rest := EncodeBulkStrings(EmptyParts(count - 1));
        more := first + rest;
        var grown := data + first;
        assert data + more == grown + rest;
        ReadPartLocal(grown, data + more, cursor, |grown|);
        assert (data + more)[|grown|..|grown| + |rest|] == rest;
        ReadPartsOfEncoded(data + more, |grown|, EmptyParts(count - 1));
    }
  }

  lemma GrowUnterminatedRecord(data: bytes, offset: nat) returns (more: bytes)
    requires offset <= |data| && ReadLine(data, offset).None? && HeaderCanGrow(STAR, data[offset..], true)
    ensures ReadRecord(data + more, offset).Complete?
  {
    hide ParseCount, ReadLine, ReadParts, HeaderCanGrow, EncodeBulkStrings;
    var header, line := GrowHeader(STAR, data[offset..], true);
    TailAt(data, offset, header, line + CRLF);
    var grown := data + header;
    ReadLineFinds(grown, offset, line);
    GrownLength(data, offset, header, line);
    var parts := EmptyParts(ParseCount(line[1..]).value);
    var rest := EncodeBulkStrings(parts);
    more := header + rest;
    assert data + more == grown + rest;
    ReadLineLocal(grown, grown + rest, offset, |grown|);
    assert (grown + rest)[|grown|..|grown| + |rest|] == rest;
    ReadPartsOfEncoded(grown + rest, |grown|, parts);
  }

  lemma GrowRecord(data: bytes, offset: nat) returns (more: bytes)
    requires offset <= |data| && Completable(data, offset)
    ensures ReadRecord(data + more, offset).Complete?
  {
    hide PartsCanGrow, ReadParts, HeaderCanGrow, ParseCount;
    match ReadLine(data, offset)
    case Some((header, cursor)) =>
      more := GrowParts(data, cursor, ParseCount(header[1..]).value);
      ReadLineLocal(data, data + more, offset, |data|);
    case None =>
      more := GrowUnterminatedRecord(data, offset);
  }

  // -- What cannot grow never loads ----------------------------------------

  lemma PrefixOfAccepted(raw: bytes, n: nat, positive: bool)
    requires Accepted(raw, positive) && n <= |raw|
    ensures AllDigits(raw[..n]) || (!positive && n > 0 && raw[0] == MINUS && Zeros(raw[..n][1..]))
  {
    AcceptedShape(raw, positive);
    hide Accepted, DigitsValue;
    if n > 0 && !AllDigits(raw) {
      assert raw[..n][1..] == raw[1..][..n - 1];
    }
  }

  /** The part of an accepted header line that has been written so far could always still grow into it. */
  lemma WrittenHeaderCouldGrow(data: bytes, longer: bytes, offset: nat, kind: byte, positive: bool)
    requires data <= longer && offset <= |data| && ReadLine(data, offset).None?
    requires ReadLine(longer, offset).Some?
    requires var line := ReadLine(longer, offset).value.0;
      |line| > 0 && line[0] == kind && Accepted(line[1..], positive)
    ensures HeaderCanGrow(kind, data[offset..], positive)
  {
    hide ParseCount, DigitsValue;
    var (line, after) := ReadLine(longer, offset).value;
    var end, tail := after - 2, data[offset..];
    AtSplit(longer, offset, line, CRLF);
    assert !CrlfAt(data, end);
    assert end + 2 > |data|;
    AcceptedShape(line[1..], positive);
    if |tail| > 0 {
      assert forall i :: offset <= i < |data| ==> data[i] == longer[i];
      if end >= |data| {
        assert tail == line[..|tail|];
        PrefixOfAccepted(line[1..], |tail| - 1, positive);
        assert tail[1..] == line[1..][..|tail| - 1];
      } else {
        assert tail == line + [CR];
        assert tail[1..] == line[1..] + [CR];
        assert tail[1..][..|tail| - 2] == line[1..];
      }
    }
  }

  lemma WrittenPartCouldGrow(data: bytes, longer: bytes, cursor: nat)
    requires data <= longer && cursor <= |data|
    requires ReadPart(data, cursor).PartIncomplete? && ReadPart(longer, cursor).Part?
    ensures PartCanGrow(data, cursor)
  {
    match ReadLine(data, cursor)
    case None =>
      WrittenHeaderCouldGrow(data, longer, cursor, DOLLAR, false);
    case Some((line, after)) =>
      hide ParseCount, HeaderCanGrow;
      ReadLineLocal(data, longer, cursor, |data|);
  }

  lemma {:induction false} WrittenPartsCouldGrow(data: bytes, longer: bytes, cursor: nat, count: nat)
    requires data <= longer && cursor <= |data| && ReadParts(longer, cursor, count).Complete?
    ensures PartsCanGrow(data, cursor, count)
    decreases count
  {
    hide ReadPart, PartCanGrow;
    if count == 0 {
    } else {
      match ReadPart(data, cursor)
      case Part(_, next) =>
        ReadPartLocal(data, longer, cursor, |data|);
        WrittenPartsCouldGrow(data, longer, next, count - 1);
      case PartIncomplete => WrittenPartCouldGrow(data, longer, cursor);
      case PartCorrupt(_) => ReadPartCorruptStays(data, longer, cursor);
    }
  }

  lemma WrittenRecordCouldGrow(data: bytes, longer: bytes, offset: nat)
    requires data <= longer && offset <= |data| && ReadRecord(longer, offset).Complete?
    ensures Completable(data, offset)
  {
    hide HeaderCanGrow, ReadParts, PartsCanGrow, ParseCount;
    match ReadLine(data, offset)
    case None => WrittenHeaderCouldGrow(data, longer, offset, STAR, true);
    case Some((header, cursor)) =>
      ReadLineLocal(data, longer, offset, |data|);
      WrittenPartsCouldGrow(data, longer, cursor, ParseCount(header[1..]).value);
  }

  /**
   * The scanner's documented promise, exactly: what follows the last whole record is a prefix of some record
   * that would load if and only if it can still grow, which its own bytes decide.
   */
  lemma TailIsPrefixExactlyWhenCompletable(data: bytes, offset: nat)
    requires offset <= |data|
    ensures (exists longer: bytes :: data <= longer && ReadRecord(longer, offset).Complete?)
       <==> Completable(data, offset)
  {
    hide Completable, ReadRecord;
    if Completable(data, offset) {
      var more := GrowRecord(data, offset);
      assert data <= data + more;
    }
    forall longer: bytes | data <= longer && ReadRecord(longer, offset).Complete?
      ensures Completable(data, offset)
    {
      WrittenRecordCouldGrow(data, longer, offset);
    }
  }

  /** Corruption is never a prefix of anything that loads; a garbage tail is not either, yet counts as torn. */
  lemma TornPromiseOneWay(data: bytes, offset: nat)
    requires offset <= |data|
    ensures ReadRecord(data, offset).Corrupt? ==> !Completable(data, offset)
    ensures !Completable([PLUS], 0) && ReadRecord([PLUS], 0).Incomplete?
  {
    hide HeaderCanGrow, ReadParts, PartsCanGrow, ParseCount;
    if Completable(data, offset) && ReadRecord(data, offset).Corrupt? {
      var more := GrowRecord(data, offset);
      ReadRecordCorruptStays(data, data + more, offset);
    }
    PlusIsTorn();
  }

  lemma PlusIsTorn()
    ensures !Completable([PLUS], 0) && ReadRecord([PLUS], 0).Incomplete?
  {
    assert FindCrlf([PLUS], 0).None?;
    assert [PLUS][0..] == [PLUS];
  }
}
