/** The append-only file: writing it, splitting it into records, and loading it back, as the program does. */
module Aof {
  import opened Bytes
  import opened Resp
  import opened LogFormat
  import opened StoreModel
  import opened Facts
  import opened Journaling
  import opened KeyValue
  import StoreOps

  class AppendOnlyFile {
    var failed: bool
    var file: bytes
    var fate: Fate

    function Model(): Journal
      reads this
    {
      Journal.AppendOnlyFile(failed, file, fate)
    }

    constructor (file: bytes, fate: Fate)
      ensures Model() == Journal.AppendOnlyFile(false, file, fate)
    {
      failed, this.file, this.fate := false, file, fate;
    }

    /** `false` is a `PersistenceError`. */
    method Append(record: bytes) returns (accepted: bool)
      modifies this
      ensures (Model(), accepted) == Journaling.Append(old(Model()), record)
      ensures accepted <==> !failed
      ensures old(failed) ==> file == old(file)
      ensures accepted ==> file == old(file) + record
      ensures !accepted ==> old(file) <= file <= old(file) + record
      ensures !accepted && !old(failed) ==> old(fate).Fails?
    {
      if failed {
        return false;
      }
      match fate
      case Healthy =>
        file := file + record;
        accepted := true;
      case Fails(after, written) =>
        if after > 0 {
          file, fate := file + record, Fails(after - 1, written);
          accepted := true;
        } else {
          file := file + if written <= |record| then record[..written] else record;
          failed := true;
          accepted := false;
        }
    }

    /** `succeeds` is what the operating system answers to the fsync. */
    method Sync(succeeds: bool)
      modifies this
      ensures Model() == Journaling.Sync(old(Model()), succeeds)
      ensures file == old(file) && (failed <==> old(failed) || !succeeds)
    {
      if failed {
        return;
      }
      if !succeeds {
        failed := true;
      }
    }
  }

  // -- Reading a log back --------------------------------------------------

  method ReadRecordAt(data: bytes, offset: nat) returns (r: RecordRead)
    requires offset <= |data|
    ensures r == ReadRecord(data, offset)
  {
    var line := ReadLine(data, offset);
    if line.None? {
      return Incomplete;
    }
    var header := line.value.0;
    var cursor: nat := line.value.1;
    if |header| == 0 || header[0] != STAR {
      return Corrupt(offset);
    }
    var count := ParseCount(header[1..]);
    if count.None? || count.value <= 0 {
      return Corrupt(offset);
    }
    r := ReadPartsAt(data, cursor, count.value);
  }

  method ReadPartsAt(data: bytes, start: nat, count: nat) returns (r: RecordRead)
    requires start <= |data|
    ensures r == ReadParts(data, start, count)
  {
    hide ReadPart;
    var parts: seq<bytes> := [];
    var cursor: nat := start;
    PrependNone(ReadParts(data, start, count));
    for i := 0 to count
      invariant cursor <= |data|
      invariant Prepend(parts, ReadParts(data, cursor, count - i)) == ReadParts(data, start, count)
    {
      match ReadPart(data, cursor)
      case PartIncomplete => return Incomplete;
      case PartCorrupt(at) => return Corrupt(at);
      case Part(part, next) =>
        PrependMore(parts, part, ReadParts(data, next, count - i - 1));
        parts, cursor := parts + [part], next;
    }
    assert parts + [] == parts;
    r := Complete(parts, cursor);
  }

  lemma PrependNone(r: RecordRead)
    ensures Prepend([], r) == r
  {
    if r.Complete? {
      assert [] + r.parts == r.parts;
    }
  }

  lemma PrependMore(parts: seq<bytes>, part: bytes, r: RecordRead)
    ensures Prepend(parts, Prepend([part], r)) == Prepend(parts + [part], r)
  {
    if r.Complete? {
      assert parts + ([part] + r.parts) == parts + [part] + r.parts;
    }
  }

  method ScanBytes(data: bytes) returns (r: Scan)
    ensures r == ScanLog(data)
  {
    hide ReadRecord;
    var records := [];
    var offset := 0;
    while offset < |data|
      invariant offset <= |data|
      invariant Extend(records, ScanFrom(data, offset)) == ScanLog(data)
    {
      var read := ReadRecordAt(data, offset);
      match read
      case Incomplete =>
        assert records + [] == records;
        return Scanned(records, offset, |data| - offset);
      case Corrupt(at) => return ScanCorrupt(at);
      case Complete(parts, next) =>
        ExtendMore(records, Record(offset, parts), ScanFrom(data, next));
        records, offset := records + [Record(offset, parts)], next;
    }
    assert records + [] == records;
    r := Scanned(records, offset, 0);
  }

  lemma ExtendMore(records: seq<Record>, record: Record, scan: Scan)
    ensures Extend(records, Extend([record], scan)) == Extend(records + [record], scan)
  {
    if scan.Scanned? {
      assert records + ([record] + scan.records) == records + [record] + scan.records;
    }
  }

  /** `_apply`; `false` is `AofCorruptError`, and then the store is as it was. */
  method ApplyRecord(store: KeyValueStore, parts: seq<bytes>) returns (accepted: bool)
    requires store.Valid() && |parts| > 0
    modifies store
    ensures store.Valid() && store.now == old(store.now)
    ensures accepted <==> Apply(old(store.Model()), parts).Some?
    ensures store.Model() == if accepted then Apply(old(store.Model()), parts).value else old(store.Model())
  {
    hide StoreModel.Valid, Upper, ParseCount, NoNewRank, Reduced;
    var name := Upper(parts[0]);
    if name == SET {
      if |parts| == 3 {
        store.Restore(parts[1], parts[2], None);
      } else if |parts| == 5 && Upper(parts[3]) == PXAT {
        var deadline := ParseCount(parts[4]);
        if deadline.None? {
          return false;
        }
        store.Restore(parts[1], parts[2], deadline);
      } else {
        return false;
      }
    } else if name == PEXPIREAT {
      if |parts| != 3 {
        return false;
      }
      var deadline := ParseCount(parts[2]);
      if deadline.None? {
        return false;
      }
      store.SetDeadline(parts[1], deadline.value);
    } else if name == DEL {
      if |parts| < 2 {
        return false;
      }
      store.Discard(parts[1..]);
    } else if name == PERSIST {
      if |parts| != 2 {
        return false;
      }
      store.ClearDeadline(parts[1]);
    } else if name == FLUSHDB {
      if |parts| != 1 {
        return false;
      }
      store.FlushDb();
    } else {
      return false;
    }
    accepted := true;
  }

  /**
   * `load`: replay, repair, collect. `None` refuses to start; the file is returned as the repair leaves it.
   * A log the scanner calls corrupt leaves the store untouched; a record without meaning stops the replay there.
   */
  method LoadInto(file: bytes, store: KeyValueStore) returns (repaired: bytes, result: Option<LoadResult>)
    requires store.Valid()
    modifies store
    ensures store.Valid() && store.now == old(store.now)
    ensures result.Some? <==> Load(file, old(store.Model()), store.now).Some?
    ensures result.Some? ==>
      Load(file, old(store.Model()), store.now) == Some(Loaded(store.Model(), repaired, result.value))
    ensures result.None? ==> repaired == file
    ensures ScanLog(file).ScanCorrupt? ==> store.Model() == old(store.Model())
    ensures result.None? ==> store.Model() == LeftBehind(file, old(store.Model()))
  {
    hide StoreModel.Valid, ScanFrom, Apply, NoNewRank, Reduced, DropExpired, StoreOps.Dbsize;
    repaired, result := file, None;
    var scan := ScanBytes(file);
    if scan.ScanCorrupt? {
      return;
    }
    ScanIsWellFramed(file, 0);
    var records := scan.records;
    for i := 0 to |records|
      invariant store.Valid() && store.now == old(store.now)
      invariant ApplyRecords(store.Model(), records[i..]) == ApplyRecords(old(store.Model()), records)
      invariant ApplyWhile(store.Model(), records[i..]) == ApplyWhile(old(store.Model()), records)
    {
      assert records[i..][0] == records[i] && records[i..][1..] == records[i + 1..];
      var accepted := ApplyRecord(store, records[i].parts);
      if !accepted {
        return;
      }
    }
    if scan.trailing > 0 {
      repaired := file[..scan.consumed];
    }
    var expired := store.DropExpired();
    var keys := store.Dbsize();
    result := Some(LoadResult(|records|, keys, expired, scan.trailing));
  }
}
