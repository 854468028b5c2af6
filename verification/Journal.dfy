/** The append-only file as a fail-stop journal: once a write fails it records nothing further. */
module Journaling {
  import opened Bytes
  import opened Resp
  import opened LogFormat
  import opened Facts

  /**
   * What the file system has in store for this journal: either it never fails, or `after` appends succeed and
   * the next one fails having left the first `written` bytes of its record (all of them, for a failed fsync).
   */
  datatype Fate = Healthy | Fails(after: nat, written: nat)

  /** `NullJournal` is persistence switched off. */
  datatype Journal =
    | NullJournal
    | AppendOnlyFile(failed: bool, file: bytes, fate: Fate)

  predicate Failed(j: Journal) {
    j.AppendOnlyFile? && j.failed
  }

  /** The journal afterwards, and whether the record was accepted; `false` is a `PersistenceError`. */
  function Append(j: Journal, record: bytes): (Journal, bool) {
    match j
    case NullJournal => (j, true)
    case AppendOnlyFile(true, _, _) => (j, false)
    case AppendOnlyFile(false, file, Healthy) => (j.(file := file + record), true)
    case AppendOnlyFile(false, file, Fails(after, written)) =>
      if after > 0 then (AppendOnlyFile(false, file + record, Fails(after - 1, written)), true)
      else
        var torn := if written <= |record| then record[..written] else record;
        (AppendOnlyFile(true, file + torn, Fails(after, written)), false)
  }

  /** `sync`, which may itself fail; it writes nothing. */
  function Sync(j: Journal, succeeds: bool): Journal {
    if j.AppendOnlyFile? && !j.failed && !succeeds then j.(failed := true) else j
  }

  /** Append facts until one is refused: the journal, and how many were accepted. */
  function AppendFacts(j: Journal, facts: seq<Fact>): (r: (Journal, nat))
    ensures r.1 <= |facts|
    decreases |facts|
  {
    if |facts| == 0 then (j, 0)
    else
      var (next, accepted) := Append(j, EncodeFact(facts[0]));
      if !accepted then (next, 0)
      else
        var (end, count) := AppendFacts(next, facts[1..]);
        (end, count + 1)
  }

  // -- What reaches the file -----------------------------------------------

  /** The facts whose whole records are in the file after appending `facts`. */
  function Landed(j: Journal, facts: seq<Fact>): (r: seq<Fact>)
    ensures r <= facts
    decreases |facts|
  {
    if |facts| == 0 || j.NullJournal? || j.failed then []
    else
      var record := EncodeFact(facts[0]);
      var (next, accepted) := Append(j, record);
      if accepted then [facts[0]] + Landed(next, facts[1..])
      else if j.fate.Fails? && j.fate.written >= |record| then [facts[0]]
      else []
  }

  lemma CutIsTorn(fact: Fact, n: nat)
    requires n < |EncodeFact(fact)|
    ensures TornRecord(EncodeFact(fact)[..n])
  {
    hide EncodeArray;
    assert EncodeFact(fact)[..n] < EncodeArray(RecordParts(fact));
  }

  lemma AppendLands(j: Journal, fact: Fact) returns (torn: bytes)
    requires j.AppendOnlyFile? && !j.failed
    ensures var (next, accepted) := Append(j, EncodeFact(fact));
      && TornRecord(torn) && next.AppendOnlyFile?
      && (accepted <==> !next.failed)
      && (accepted ==> torn == [])
      && next.file == j.file + EncodeLog(Landed(j, [fact])) + torn
      && (Landed(j, [fact]) == if accepted || j.fate.written >= |EncodeFact(fact)| then [fact] else [])
  {
    hide TornRecord, EncodeLog, EncodeFact;
    torn := NothingLands(j);
    EncodeLogOne(fact);
    var (next, accepted) := Append(j, EncodeFact(fact));
    if accepted {
      assert Landed(next, [fact][1..]) == [];
      assert Landed(j, [fact]) == [fact];
    } else if j.fate.written < |EncodeFact(fact)| {
      CutIsTorn(fact, j.fate.written);
      torn := EncodeFact(fact)[..j.fate.written];
      assert j.file + [] == j.file;
    } else {
      assert EncodeFact(fact)[..|EncodeFact(fact)|] == EncodeFact(fact);
    }
    assert j.file + EncodeFact(fact) + [] == j.file + EncodeFact(fact);
  }

  /**
   * A crash-cut or failing append leaves whole records followed by at most one torn one; every accepted
   * record is among the whole ones, and nothing is written that was not asked for.
   */
  lemma {:induction false} AppendFactsLand(j: Journal, facts: seq<Fact>) returns (torn: bytes)
    requires j.AppendOnlyFile? && !j.failed
    ensures var (end, count) := AppendFacts(j, facts);
      && TornRecord(torn) && end.AppendOnlyFile?
      && end.file == j.file + EncodeLog(Landed(j, facts)) + torn
      && facts[..count] <= Landed(j, facts)
      && (count == |facts| <==> !end.failed)
      && (!end.failed ==> torn == [] && Landed(j, facts) == facts)
    decreases |facts|
  {
    hide TornRecord, EncodeLog, EncodeFact;
    if |facts| == 0 {
      torn := NothingLands(j);
    } else {
      torn := AppendLands(j, facts[0]);
      var (next, accepted) := Append(j, EncodeFact(facts[0]));
      EncodeLogOne(facts[0]);
      if accepted {
        torn := AppendFactsLand(next, facts[1..]);
        EncodeLogAppend([facts[0]], Landed(next, facts[1..]));
        var (end, count) := AppendFacts(next, facts[1..]);
        assert facts[..count + 1] == [facts[0]] + facts[1..][..count];
      } else {
        var _ := NothingLands(j);
      }
    }
  }

  lemma NothingLands(j: Journal) returns (torn: bytes)
    ensures torn == [] && TornRecord(torn) && EncodeLog([]) == []
  {
    torn := [];
    assert LogRecords([]) == [];
  }

  // -- Any use of the journal ----------------------------------------------

  datatype JournalCall = AppendCall(record: bytes) | SyncCall(succeeds: bool)

  function Call(j: Journal, call: JournalCall): Journal {
    match call
    case AppendCall(record) => Append(j, record).0
    case SyncCall(succeeds) => Sync(j, succeeds)
  }

  function Calls(j: Journal, calls: seq<JournalCall>): Journal
    decreases |calls|
  {
    if |calls| == 0 then j else Calls(Call(j, calls[0]), calls[1..])
  }

  /** The records whose append was not refused, one after the other. */
  function Acknowledged(j: Journal, calls: seq<JournalCall>): bytes
    decreases |calls|
  {
    if |calls| == 0 then []
    else
      (if calls[0].AppendCall? && Append(j, calls[0].record).1 then calls[0].record else [])
      + Acknowledged(Call(j, calls[0]), calls[1..])
  }

  /** A failed journal is failed for good: nothing is acknowledged and nothing reaches the file. */
  lemma {:induction false} FailedForGood(j: Journal, calls: seq<JournalCall>)
    requires Failed(j)
    ensures Calls(j, calls) == j && Acknowledged(j, calls) == []
    decreases |calls|
  {
    if |calls| == 0 {
    } else {
      FailedForGood(j, calls[1..]);
    }
  }

  /**
   * Whatever appends and syncs are made, in whatever order and wherever one fails: the file grows by exactly the
   * acknowledged records, and after a failure at most by part of the one record that failed.
   */
  lemma {:induction false} FileIsAcknowledgedThenCut(j: Journal, calls: seq<JournalCall>) returns (cut: bytes)
    requires j.AppendOnlyFile? && !j.failed
    ensures var end := Calls(j, calls);
      && end.AppendOnlyFile? && end.file == j.file + Acknowledged(j, calls) + cut
      && (cut != [] ==> end.failed && exists i :: 0 <= i < |calls| && calls[i].AppendCall? && cut <= calls[i].record)
    decreases |calls|
  {
    cut := [];
    if |calls| == 0 {
      assert j.file + [] + [] == j.file;
    } else {
      var next, rest := Call(j, calls[0]), calls[1..];
      if next.failed {
        FailedForGood(next, rest);
        cut := next.file[|j.file|..];
        assert cut != [] ==> calls[0].AppendCall? && cut <= calls[0].record;
      } else {
        cut := FileIsAcknowledgedThenCut(next, rest);
        var more := next.file[|j.file|..];
        assert next.file == j.file + more;
        assert j.file + more + Acknowledged(next, rest) + cut == j.file + (more + Acknowledged(next, rest)) + cut;
        if cut != [] {
          var i :| 0 <= i < |rest| && rest[i].AppendCall? && cut <= rest[i].record;
          assert calls[i + 1] == rest[i];
        }
      }
    }
  }
}
