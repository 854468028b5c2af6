/** Start-up: recovery from the append-only file comes before anything is served. */
module Server {
  import opened Bytes
  import opened StoreModel
  import opened Facts
  import opened Journaling
  import opened KeyValue
  import opened Aof
  import opened Connection
  import CrashSafety
  import Runs

  /**
   * `_recover`: a fresh store loaded from `file` and a journal opened on the repaired file, or a refusal to
   * start. It is the restart step of the state machine, and after any run of the server it never refuses.
   */
  method Recover(file: bytes, maxmemory: nat, policy: Policy, fate: Fate, now: int, ghost w: Runs.World)
    returns (store: KeyValueStore, journal: AppendOnlyFile?)
    requires Valid(w.store) && w.journal.AppendOnlyFile? && w.journal.file == file && w.now == now
    ensures fresh(store) && (journal != null ==> fresh(journal))
    ensures journal != null <==> Load(file, FreshStore(maxmemory, policy), now).Some?
    ensures journal != null ==> Mirrors(store, journal, Runs.Recover(w, maxmemory, policy, fate))
    ensures journal != null ==> Mirrors(store, journal, Runs.Start(file, maxmemory, policy, fate, now))
    ensures Runs.Durable(w) ==> journal != null
  {
    hide StoreModel.Valid, Load, Runs.Durable;
    store := new KeyValueStore(maxmemory, policy, now);
    journal := null;
    var repaired, result := LoadInto(file, store);
    if result.Some? {
      journal := new AppendOnlyFile(repaired, fate);
    }
    if Runs.Durable(w) {
      CrashSafety.DurableFileLoads(w, maxmemory, policy, now);
    }
  }
}
