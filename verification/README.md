# PyRedis, modelled and verified in Dafny

PyRedis is a small Redis-like server: a bounded, expiring key-value store, an append-only log that is replayed
at start-up, and a dispatcher that ties the two together behind the RESP2 wire format (the sections "Arrays" and
"Bulk strings" of the Redis serialization protocol specification). This project models all three and proves what
holds across them, over every input and every run. `dafny verify dfyconfig.toml` checks it.

## How the model is laid out

Each mutable object of the program is a Dafny class whose methods update its fields in place and are proved equal
to functions on a value, the object's `Model()`. The theorems are about those functions.

| file | what it holds |
|---|---|
| `Bytes.dfy`, `Dictionary.dfy`, `Keyspace.dfy` | byte strings and decimal notation; Python's insertion-ordered dictionary; entries, expiry and the memory model |
| `Resp.dfy`, `LogFormat.dfy`, `Grammar.dfy`, `TornTails.dfy` | encoding and decoding of requests and replies; the log scanner; the grammar both readers decide, stated on the bytes; exactly which torn tails could still load |
| `StoreModel.dfy`, `StoreOps.dfy`, `Eviction.dfy`, `Sampling.dfy`, `Sweep.dfy` | the store as a value: primitives and invariant, operations, admission, what eviction samples, the active sweep |
| `Facts.dfy`, `Journal.dfy`, `Commands.dfy` | what log records say and their replay; the fail-stop journal; the command table, handlers and dispatch |
| `Reference.dfy`, `Lifetimes.dfy`, `Durability.dfy` | the documented meaning of every command on the entries a client sees, refined by the store; how long a key lives, from the bytes of a request; what commands record is what they did |
| `Runs.dfy`, `CrashSafety.dfy`, `FailStop.dfy`, `Serving.dfy`, `Ceiling.dfy`, `Recency.dfy`, `Coverage.dfy`, `StaleCursor.dfy`, `Invisible.dfy`, `Counting.dfy` | the server as a state machine, and the theorems over all its runs |
| `KeyValueStore.dfy`, `AppendOnlyFile.dfy`, `Dispatcher.dfy`, `Connection.dfy`, `Pipeline.dfy`, `Server.dfy` | the imperative program, method by method, and the pipelining theorems |

The state machine (`Runs.dfy`) has five kinds of step: a request, a sweep, passing time, an fsync attempt and a
restart. The clock is an integer that never decreases, across restarts too, and is fixed within one step. A
journal carries its `Fate`: either no write ever fails, or a given later append fails having left any given prefix
of its record behind; since a failed journal stays failed, one failure per process life is all there can be, and a
crash in the middle of an append is such a failure followed by a restart.

A run starts on any file recovery accepts, whoever wrote it and however it spells its records, the empty one
included. The invariant at the centre (`Runs.Durable`) says that, while the journal is healthy, the unexpired part of
what the log says is exactly what a client can see in the store. Replay itself never looks at the clock.

## Where the code and its documentation part

- The scanner's comment (`src/pyredis/aof.py:217-219`) says a torn tail is a prefix of a well-formed record. A tail
  that has not reached a line end is always called torn, also when nothing could complete it, such as a lone `+`
  (`TornTails.TornPromiseOneWay`). `TornTails.TailIsPrefixExactlyWhenCompletable` gives the exact condition.
- `load` promises that nothing is applied when the log is corrupt (`src/pyredis/aof.py:194-195`). That holds for
  damage the scanner finds. A well-framed record without meaning is refused only after the records before it have
  been applied (`Facts.ReplayStopsAtFirstRefusal`, with an instance in `Facts.RefusalMayApplyEarlierRecords`).
  `Facts.RefusalIsCleanExactlyWhen` gives the exact condition.
- An overwrite that shrinks a value is documented as always admitted (`README.md:269-270`). From within the limit it
  is (`Ceiling.ShrinkingOverwriteAdmitted`). Recovery may start above the limit, and there it can be refused under
  either policy (`Ceiling.ShrinkingOverwriteRefused`); `Ceiling.ShrinkingOverwriteAfterRecovery` says exactly when, for
  both: under `noeviction` when what it saves leaves the total above the limit, under `allkeys-lru` when the entry
  alone does not fit.
- Eviction is documented to sample five keys (`README.md:278-280`), but a refilled cursor can draw leftovers a second
  time. `Sampling.SampleWidth` says how many distinct keys are sampled and exactly when that is min(n, 5), from two
  lists read off the store before the call. Three is what can be promised (`Eviction.SamplingQuality`), and no more: a
  run of the server in which seven keys are left and three are looked at is in `StaleCursor.StaleCursorDrawsTwice`.

## Model

| member | source | states |
|---|---|---|
| Bytes.ParseIntInvertsRender | src/pyredis/store.py:536-549 | `parse_int` accepts exactly the canonical decimal renderings of signed 64-bit integers and inverts them |
| Bytes.ParseCountRender | src/pyredis/aof.py:270-274 | a printed length or deadline is read back as the same number, negative ones included |
| Bytes.CountsAreSpelled | src/pyredis/aof.py:270-274 | a count is read if and only if it is an optional '-' and at least one digit, and leading zeros do not change it |
| Bytes.UpperSpells | src/pyredis/commands.py:209 | a name matches an upper-case word exactly when it spells it letter by letter in either case |
| Resp.Printable | src/pyredis/resp.py:153-155 | whatever bytes are quoted, the text is printable ASCII of at most four characters per byte |
| Resp.PrintableByByte | src/pyredis/resp.py:153-155 | printable bytes are quoted as they are, every other one as an escape it can be read back from |
| Resp.ErrorTextArrives | src/pyredis/resp.py:142-150 | of an error text every byte arrives in its place, CR and LF as spaces |
| Resp.RepliesOnTheWire | src/pyredis/resp.py:33-36 | each kind of reply, byte for byte |
| Resp.ReadLineFinds | src/pyredis/aof.py:263-267 | a terminated line without CR is found whole, with the offset after its terminator |
| Resp.DecodeReplyInvertsEncode | src/pyredis/resp.py:123-150 | every encoded reply decodes as one complete frame with the right end, whatever bytes follow; error text cannot break out of its line |
| Resp.DecodeRepliesInvertsEncode | scripts/demo.py:43-66 | a stream of replies decodes uniquely into those replies, in order, to the last byte |
| LogFormat.ReadRecordOfEncoded | src/pyredis/aof.py:327-329 | an encoded record, of arbitrary bytes, is read back with its parts and end wherever it stands in the log |
| LogFormat.ReadRecordLocal | src/pyredis/aof.py:232-260 | a complete record is decided by its own bytes: cutting after it or appending changes nothing |
| LogFormat.ReadRecordOfTorn | src/pyredis/aof.py:217-218 | a strict prefix of a record is torn, never corrupt and never a shorter record |
| LogFormat.ScanInvertsEncode | src/pyredis/aof.py:214-229 | scanning encoded records followed by a torn one yields exactly those records at their offsets, the bytes consumed and the bytes trailing |
| LogFormat.ScanMonotone | src/pyredis/aof.py:214-260 | appending bytes keeps every scanned record and resumes where the scan stopped; corruption stays corruption at the same offset |
| LogFormat.CorruptNeverLoads | src/pyredis/aof.py:218-219 | no continuation of a corrupt log is a whole log |
| LogFormat.ScanTruncated | src/pyredis/aof.py:277-284 | truncating to the consumed bytes keeps the records and leaves nothing trailing |
| LogFormat.WireAndLogAgree | src/pyredis/resp.py:44-90 | a non-empty request is read from the wire exactly when it scans as a log record within the wire caps, with the same parts and end |
| Grammar.RequestsAreRead | src/pyredis/resp.py:44-116 | a request is read, empty or not, if and only if one stands at the position; a protocol error is raised if and only if the bytes there break the grammar or a cap; a clean end is reported exactly at the end |
| Grammar.StrangeLineIsBad | src/pyredis/resp.py:58-59 | a line that does not begin with `*` is such bytes |
| Grammar.RecordsAreRead | src/pyredis/aof.py:232-260 | a record is read if and only if one stands there, and called corrupt, at the offset named, if and only if the bytes break the grammar there |
| Grammar.LogsAreScanned | src/pyredis/aof.py:214-229 | a scan returns the records that stand one after the other up to an unfinished one, and refuses the log if and only if after some whole records the grammar is broken |
| TornTails.TailIsPrefixExactlyWhenCompletable | src/pyredis/aof.py:217-218 | the bytes at an offset begin some record that would load if and only if they can still grow into one, a test on those bytes alone |
| TornTails.TornPromiseOneWay | src/pyredis/aof.py:232-235 | corrupt bytes can never grow into a record; a lone `+` cannot either and yet is reported as torn |
| Keyspace.TotalPut | src/pyredis/store.py:447-454 | storing a value changes the sum of all costs by exactly the difference the incremental total adds |
| Keyspace.TotalWithout | src/pyredis/store.py:442-443 | removing a key lowers the sum of all costs by exactly its own cost |
| Keyspace.TotalIsFootprint | src/pyredis/store.py:525-533 | the sum of all costs is all bytes of keys and values and 64 more for each entry |
| StoreModel.RemoveStored | src/pyredis/store.py:442-445 | removal takes the value and the deadline of that key and touches no other entry |
| StoreModel.WriteStored | src/pyredis/store.py:447-454 | a write replaces the value and leaves the key's deadline, if any, in place |
| StoreModel.DropIfExpiredView | src/pyredis/store.py:430-440 | lazy expiry is invisible, and afterwards the key is stored exactly if a client can see it |
| StoreModel.DropExpiredStored | src/pyredis/store.py:321-329 | the collection pass leaves exactly the unexpired entries |
| StoreOps.RestoreStored | src/pyredis/store.py:393-405 | recovery stores value and deadline as recorded, expired or not |
| StoreOps.SetDeadlineStored | src/pyredis/store.py:407-410 | a recorded deadline is attached to an existing key and to nothing else |
| StoreOps.ClearDeadlineStored | src/pyredis/store.py:412-414 | a recorded PERSIST drops the deadline, passed or not, and keeps the value |
| StoreOps.DiscardStored | src/pyredis/store.py:416-420 | a recorded deletion removes exactly the named keys, missing ones ignored |
| StoreOps.SetView | src/pyredis/store.py:169-189 | SET shows the new entry with its absolute deadline and hides exactly the evicted keys, or fails for exactly one of two stated reasons with the store unchanged |
| StoreOps.GetView | src/pyredis/store.py:191-203 | GET answers the visible value and changes nothing visible |
| Reference.DeleteView | src/pyredis/store.py:205-218 | DEL removes the named keys from view and counts the distinct ones that were there |
| Reference.ExistsView | src/pyredis/store.py:220-231 | EXISTS counts visible keys, repeats each time, and changes nothing visible |
| Reference.IncrErrors | src/pyredis/store.py:233-256 | each INCR error occurs exactly when it should, judged by the visible value and the memory check |
| Reference.IncrFailureView | src/pyredis/store.py:247-248 | a failed INCR changes no value and no deadline |
| Reference.IncrSuccessView | src/pyredis/store.py:250-260 | INCR shows the incremented value in canonical form under the old deadline and hides exactly the evicted keys |
| Reference.ExpireView | src/pyredis/store.py:262-280 | EXPIRE sets an absolute deadline, deletes on a non-positive duration, or leaves the view alone, in exactly the documented cases |
| Reference.TtlView | src/pyredis/store.py:282-291 | TTL answers from the visible entry and one clock reading, and changes nothing visible |
| Reference.PersistView | src/pyredis/store.py:293-299 | PERSIST answers true exactly for a visible key with a deadline and removes only that deadline |
| Reference.DbsizeView | src/pyredis/store.py:309-319 | DBSIZE is the number of visible keys |
| Reference.TtlIsNearestSecond | src/pyredis/commands.py:118-126 | the TTL reply is within half a second of the remaining time |
| Lifetimes.TtlAfterSetIsWhole | src/pyredis/commands.py:124-126 | after `SET k v EX n`, EX in any case, TTL answers n straight away |
| Lifetimes.SetLives | src/pyredis/commands.py:80-97 | `SET k v EX n` and `PX n`: the key lives until exactly n seconds or milliseconds from now and no longer, and that deadline is recorded; refused, with nothing changed, exactly for a duration not positive or past 2^63 - 1, or for want of memory |
| Lifetimes.SetStays | src/pyredis/commands.py:79-97 | `SET k v` makes the key live on, whatever deadline it had |
| Lifetimes.SetRejects | src/pyredis/commands.py:80-89 | three arguments or any other option are a syntax error, a duration that is no integer an error, and nothing changes |
| Lifetimes.ExpireLives | src/pyredis/commands.py:100-115 | `EXPIRE k n`: the key keeps its value and lives until exactly n seconds from now; deletion, refusal past 2^63 - 1 and a missing key in exactly their cases, with what each records |
| Lifetimes.GetWhileItLives | src/pyredis/store.py:191-203 | GET answers the value before the deadline and a null from it on |
| Reference.SetRefines | src/pyredis/commands.py:72-97 | the SET handler replies and acts as documented, less reported evictions, or is refused for memory with nothing visible changed |
| Reference.IncrRefines | src/pyredis/commands.py:156-169 | the same for INCR |
| Reference.ExpireRefines | src/pyredis/commands.py:100-115 | the EXPIRE handler replies and acts as documented, its errors included |
| Reference.PersistRefines | src/pyredis/commands.py:129-133 | the PERSIST handler replies and acts as documented |
| Reference.DeleteRefines | src/pyredis/commands.py:143-149 | the DEL handler replies with the number removed and removes exactly those keys |
| Reference.GetRefines | src/pyredis/commands.py:136-140 | the GET handler replies with the visible value or a null |
| Reference.HandleRefines | src/pyredis/commands.py:197-225 | every command, from every state, gives the documented reply and view less its reported evictions, or is a SET or INCR refused for memory |
| Sweep.SweepIsInvisible | src/pyredis/store.py:359-384 | a sweep removes only expired keys, answers how many, and clients cannot see it |
| Sweep.SweepExaminesWithinLimit | src/pyredis/store.py:371-384 | one call examines at most `limit` keys and removes exactly the expired ones among them; if it examines fewer, nothing expired is left |
| Sweep.SweepPopsFromTheEnd | src/pyredis/store.py:371-384 | the keys examined come off the end of what the last sweep left, or of a new listing if nothing was left |
| Sweep.SweepCoverage | src/pyredis/store.py:364-382 | with L keys left in the cursor and n timed keys, any k consecutive sweeps with k * limit >= L + n reclaim everything that had expired when they began |
| Coverage.SweepsCoverRun | src/pyredis/server.py:191-206 | the same with everything the server does between its sweeps: an expired key no request names again is gone once the run's sweeps were allowed L + n examinations, n bounding the timed keys along the run |
| Coverage.HandleStoresNamed | src/pyredis/commands.py:72-179 | a command stores no key that it does not name |
| Eviction.LeastRecent | src/pyredis/store.py:522 | the chosen candidate is the first of those that none ranks below |
| Eviction.SampleShape | src/pyredis/store.py:507-519 | a sample is stale leftovers then a fresh listing, each without repeats, and holds every eligible key if it falls short of five |
| Eviction.SamplingQuality | src/pyredis/store.py:500-522 | a victim exists exactly when another key does, and at least min(n, 3) distinct keys, it included, rank no lower |
| Eviction.ExactLruWhenSmall | src/pyredis/store.py:520-522 | with at most three other keys the victim has the lowest rank of all |
| Sampling.SampleIsLeftoversThenRefill | src/pyredis/store.py:507-522 | the sample in closed form: the eligible leftovers of the cursor as they are popped, then the eligible keys stored last; the victim is the first of least rank |
| Sampling.SampleWidth | README.md:278-280 | the number of distinct keys sampled, and that it is min(n, 5) if and only if no more leftovers are listed again than there are places to spare: none at all once five other keys exist |
| StaleCursor.StaleCursorDrawsTwice | src/pyredis/store.py:509-519 | a run of SETs and one DEL after which a full server of seven keys samples three distinct ones |
| Eviction.VictimExists | src/pyredis/store.py:488-491 | the "no victim" branch is unreachable for a write that could fit an empty keyspace |
| Eviction.EvictUntilFitsExact | src/pyredis/store.py:488-493 | the eviction loop ends within the limit having removed exactly the keys it reports |
| Eviction.AdmissionIsAllOrNothing | src/pyredis/store.py:463-493 | a write is refused exactly by the up-front checks, with nothing changed, and otherwise the projected total is within the limit |
| Eviction.AdmissionConserves | src/pyredis/store.py:486-493 | every key survives unchanged, or had expired, or is reported once; no reported key was expired or is the one written |
| Eviction.AdmissionEvictsNoMoreThanNeeded | src/pyredis/store.py:486-493 | nothing live is evicted if reclaiming expired keys suffices, and without the last victim the write would not fit |
| Eviction.AdmissionEvictsOldest | src/pyredis/store.py:486-498 | with at most three other visible keys, the keys one write reports go in the order of their ranks and none ranks above a survivor |
| Facts.ParseFactInvertsRecord | src/pyredis/aof.py:290-341 | every record a handler can append is accepted on replay and means what was recorded |
| Facts.ParseFactExactly | src/pyredis/aof.py:290-319 | replay understands a record if and only if it says something, names in either case and operands in their places, and then just that |
| Facts.RecordsAreSpelled | src/pyredis/aof.py:327-341 | the records handlers append, letter for letter |
| Facts.ApplyStored | src/pyredis/aof.py:290-319 | applying a record through the recovery primitives does to the entries exactly what the record says |
| Facts.LoadOfLog | src/pyredis/aof.py:190-211 | any log that loads, with a torn tail: the file is cut to whole records, the entries are what they say less what has expired, and the reported counts are right |
| Facts.LoadStates | src/pyredis/aof.py:205-211 | whatever file recovery accepts, however its records are spelled, it leaves a whole log that says what was replayed |
| Facts.StatesMore | src/pyredis/aof.py:322-341 | facts appended to any log that loads make a log that says both |
| Facts.ReplayStopsAtFirstRefusal | src/pyredis/aof.py:205-207 | replay is refused exactly when some record means nothing, and the store then holds what the records before it say |
| Facts.LoadRefusesExactly | src/pyredis/aof.py:190-211 | recovery refuses a file if and only if its scan finds damage or some record says nothing |
| Facts.RefusalMayApplyEarlierRecords | src/pyredis/aof.py:193-195 | a file whose first record has been applied when the second makes recovery refuse |
| Facts.RefusalIsCleanExactlyWhen | src/pyredis/aof.py:193-195 | a refused load leaves the entries as they were if and only if the scan was corrupt or the records before the refused one say nothing new |
| Journaling.AppendFactsLand | src/pyredis/aof.py:126-136 | appending leaves whole records and at most one torn one, every accepted record whole, and the journal failed exactly when one was refused |
| Journaling.FileIsAcknowledgedThenCut | src/pyredis/aof.py:104-146 | over any appends and syncs the file grows by exactly the acknowledged records, and after a failure by at most part of the one that failed |
| Journaling.FailedForGood | src/pyredis/aof.py:104-146 | a failed journal acknowledges nothing and changes nothing ever after |
| Commands.TableIsByName | src/pyredis/commands.py:182-194 | a command is found under its own name in any case and under nothing else |
| Commands.RoutesExactly | src/pyredis/commands.py:182-220 | command by command, which name and which numbers of arguments reach it |
| Commands.UnknownCommandIsBounded | src/pyredis/commands.py:245-251 | the error quoting an unknown command is bounded whatever the client sends |
| Durability.WriteReplays | src/pyredis/commands.py:235-242 | deletions of the victims followed by the write replay to what the evicting write did |
| Durability.HandleReplays | src/pyredis/commands.py:72-179 | for every command and every log that agrees with the visible entries, replaying what the command records agrees with what it did |
| Durability.HandleRecords | src/pyredis/commands.py:72-179 | a command records exactly one deletion for each key it evicted and then what the documented outcome calls for; errors and commands that changed nothing record nothing |
| Durability.ReadsRecordNothing | src/pyredis/commands.py:182-194 | commands not flagged as mutating record nothing and leave the view as it was |
| Runs.HandledKeepsDurable | src/pyredis/commands.py:221-230 | a command that reaches its handler keeps log and store in step, or leaves a failed journal with whole records and a torn one |
| Runs.StartIsDurable | src/pyredis/server.py:154-180 | a server started on any file recovery accepts has log and store in step |
| Runs.RecoverKeepsDurable | src/pyredis/server.py:154-180 | a restart recovers, repairs and continues the log without losing a record |
| Runs.RunKeepsDurable | src/pyredis/server.py:80-129 | the durability invariant holds over every run of requests, sweeps, time, faults and restarts |
| CrashSafety.ReplayReconstructsLive | src/pyredis/aof.py:190-211 | after any run from any file that loads, with a healthy journal, loading the file at any later time gives the live store's entries, deadlines and memory total at that time |
| CrashSafety.AcknowledgedIsLogged | src/pyredis/commands.py:221-230 | any reply but the persistence error means all facts of the command are wholly in the file |
| CrashSafety.AcknowledgedSurvives | src/pyredis/aof.py:104-111 | the facts of an acknowledged command stay in the log at their place through whatever follows, and every later recovery replays them |
| CrashSafety.CrashAtAnyByte | src/pyredis/aof.py:126-136 | a crash at any byte of a command's appends recovers the earlier log, byte for byte, and the facts that were whole, in order |
| CrashSafety.CrashStaysWithinCeiling | src/pyredis/commands.py:235-242 | evictions are recorded before the write they make room for, so whatever part of a command's records a crash leaves, what is recovered is within the limit |
| CrashSafety.RepairIsIdempotent | src/pyredis/aof.py:205-211 | for any file that loads, the repaired file holds the same records with nothing trailing, loads to the same keyspace, and stays parseable after further appends |
| FailStop.MutationsRefused | src/pyredis/commands.py:221-222 | once the journal has failed a mutating command is refused with store and journal untouched |
| FailStop.ReadsOnlyExpire | src/pyredis/commands.py:209-211 | a command not flagged as mutating only ever drops expired keys |
| FailStop.FailureIsLatched | src/pyredis/aof.py:103-164 | in every continuation without a restart the journal stays failed, the file never changes, and the keyspace changes by expiry alone |
| Serving.DispatchAnswers | src/pyredis/commands.py:197-232 | on every journal, healthy, failing or failed, and under every limit: a command that only looks is answered from the view; any other is refused if the journal had failed or for want of memory, and otherwise answered as documented and its due facts appended, unless the journal fails under it |
| Serving.RunAnswers | README.md:210-213 | the same in every state a server reaches: reads keep working after the journal has failed |
| Serving.RejectionIsHarmless | src/pyredis/commands.py:209-220 | an unknown command or a wrong number of arguments is an error of class ERR and changes nothing |
| Serving.OomMeansNoMemory | src/pyredis/store.py:99-105 | OOM is the class of a write refused for want of memory and of nothing else |
| Ceiling.HandleRespectsCeiling | src/pyredis/store.py:474-498 | a SET or INCR carried out under a limit ends within it; nothing else adds a byte |
| Ceiling.MemoryIsFootprint | src/pyredis/store.py:525-533 | in every valid store the incremental total is all bytes of keys and values and 64 more for each entry |
| Ceiling.RunMemoryIsFootprint | README.md:251-262 | the same in every state of a run |
| Ceiling.AdmissionInBytes | src/pyredis/store.py:474-498 | a write is refused if and only if the keyspace with it would hold more bytes than the limit and the policy forbids eviction or the entry alone holds more; what is admitted fits |
| Ceiling.RunStaysWithinCeiling | README.md:251-262 | from within the limit no run short of a restart leaves it, and the total is exactly the bytes of all entries and 64 for each |
| Ceiling.ShrinkingOverwriteAdmitted | README.md:269-270 | from within the limit an overwrite that does not grow is never refused |
| Ceiling.ShrinkingOverwriteAfterRecovery | src/pyredis/store.py:477-484 | from any state and under either policy, an overwrite that does not grow is refused if and only if a test on the total, the limit and the sizes says so |
| Ceiling.ShrinkingOverwriteRefused | src/pyredis/server.py:172-180 | a log of one SET from which, under either policy, a server with a low limit recovers and then refuses to shrink the value |
| Recency.HandleExtendsHistory | src/pyredis/store.py:456-459 | a GET that hits, a SET or an INCR that is carried out becomes the last use of its key; nothing else moves a surviving key |
| Recency.RunRanksAreHistory | README.md:272-276 | over any run, ranks order the stored keys exactly by their last use in this process, restored keys below all used ones |
| Recency.EvictionTakesLeastRecentlyUsed | README.md:278-280 | after any history, if at most three other keys are visible, the keys a SET or INCR evicts are those used longest ago, in that order |
| Invisible.DispatchRefines | src/pyredis/commands.py:197-232 | with unlimited memory every request is answered exactly as documented |
| Invisible.PlayRefines | src/pyredis/store.py:309-384 | every script of requests, time and reclamation plays as on the reference machine |
| Invisible.ReclamationIsInvisible | README.md:223-235 | stores a client cannot tell apart stay so under the same requests, however lazy drops, collections and sweeps are interleaved |
| Counting.IncrOnce | src/pyredis/store.py:250-260 | an INCR adds one under the same deadline, overflows exactly at the top of the range, or finds no room |
| Counting.IncrsCount | src/pyredis/store.py:233-260 | n INCRs from v that succeed leave the rendering of v + n under the old deadline, and without a limit only the 64-bit range can stop them |
| Counting.MovingClockLosesDeadline | src/pyredis/store.py:250-260 | if the clock moves within an INCR, the deadline is lost if and only if room has to be made and the deadline passes between the two readings |
| KeyValue.KeyValueStore.constructor | src/pyredis/store.py:137-167 | an empty store satisfying the invariant |
| KeyValue.KeyValueStore.Set | src/pyredis/store.py:169-189 | new state and error are those of the model's Set |
| KeyValue.KeyValueStore.Get | src/pyredis/store.py:191-203 | new state and value are those of the model's Get |
| KeyValue.KeyValueStore.Delete | src/pyredis/store.py:205-218 | new state and count are those of the model's Delete |
| KeyValue.KeyValueStore.Exists | src/pyredis/store.py:220-231 | new state and count are those of the model's Exists |
| KeyValue.KeyValueStore.Incr | src/pyredis/store.py:233-260 | new state and result are those of the model's Incr |
| KeyValue.KeyValueStore.Expire | src/pyredis/store.py:262-280 | new state and result are those of the model's Expire |
| KeyValue.KeyValueStore.Ttl | src/pyredis/store.py:282-291 | new state and result are those of the model's Ttl |
| KeyValue.KeyValueStore.Persist | src/pyredis/store.py:293-299 | new state and answer are those of the model's Persist |
| KeyValue.KeyValueStore.DeadlineMs | src/pyredis/store.py:301-307 | the deadline of the stored entry, expired or not, and none for a key that is not stored |
| KeyValue.KeyValueStore.Dbsize | src/pyredis/store.py:309-319 | new state and size are those of the model's Dbsize |
| KeyValue.KeyValueStore.DropExpired | src/pyredis/store.py:321-329 | the loop over a listing taken beforehand meets every key still present, drops exactly the expired ones and counts them |
| KeyValue.KeyValueStore.FlushDb | src/pyredis/store.py:331-338 | everything is cleared but the use counter and the eviction report |
| KeyValue.KeyValueStore.TakeEvicted | src/pyredis/store.py:350-357 | the report is handed over and forgotten |
| KeyValue.KeyValueStore.SweepExpired | src/pyredis/store.py:359-384 | the loop with its refilled cursor ends in the state and count of the model's sweep, having examined the model's keys, at most `limit` |
| KeyValue.KeyValueStore.Restore | src/pyredis/store.py:393-405 | new state is that of the model's Restore |
| KeyValue.KeyValueStore.SetDeadline | src/pyredis/store.py:407-410 | new state is that of the model's SetDeadline |
| KeyValue.KeyValueStore.ClearDeadline | src/pyredis/store.py:412-414 | new state is that of the model's ClearDeadline |
| KeyValue.KeyValueStore.Discard | src/pyredis/store.py:416-420 | new state is that of the model's Discard |
| KeyValue.KeyValueStore.DropIfExpired | src/pyredis/store.py:430-440 | new state is that of the model's lazy drop |
| KeyValue.KeyValueStore.Remove | src/pyredis/store.py:442-445 | new state is that of the model's Remove, the invariant kept |
| KeyValue.KeyValueStore.Write | src/pyredis/store.py:447-454 | new state is that of the model's Write, the memory total exact |
| KeyValue.KeyValueStore.Touch | src/pyredis/store.py:456-459 | new state is that of the model's Touch |
| KeyValue.KeyValueStore.Admit | src/pyredis/store.py:463-493 | admitted with the room made, or refused with nothing changed; the loop terminates and its refusing branch is dead |
| KeyValue.KeyValueStore.SelectVictim | src/pyredis/store.py:500-522 | the loop over the stale cursor terminates and chooses the model's victim |
| Aof.AppendOnlyFile.Append | src/pyredis/aof.py:126-136 | an accepted record is in the file whole and the journal is healthy; a refused one leaves the journal failed and at most part of itself, and nothing if it had failed before |
| Aof.AppendOnlyFile.Sync | src/pyredis/aof.py:138-146 | never writes, and the journal has failed afterwards exactly if it had before or the fsync did |
| Aof.ReadRecordAt | src/pyredis/aof.py:232-260 | the loop over the parts returns what the record grammar says |
| Aof.ScanBytes | src/pyredis/aof.py:214-229 | the loop over the records returns what the scan function says |
| Aof.ApplyRecord | src/pyredis/aof.py:290-319 | a record is applied or refused as its meaning says, refusal leaving the store as it was |
| Aof.LoadInto | src/pyredis/aof.py:190-211 | store, repaired file and counts are those of the load function; a refusal leaves what `Facts.RefusalIsCleanExactlyWhen` speaks of, and scan-level corruption the store untouched |
| Dispatcher.JournalEvictions | src/pyredis/commands.py:235-242 | the report is drained and its deletions appended in order until one fails |
| Dispatcher.HandleSetRequest | src/pyredis/commands.py:72-97 | store, journal and ending are those of the SET handler's outcome |
| Dispatcher.HandleExpireRequest | src/pyredis/commands.py:100-115 | the same for EXPIRE |
| Dispatcher.HandlePersistRequest | src/pyredis/commands.py:129-133 | the same for PERSIST |
| Dispatcher.HandleDeleteRequest | src/pyredis/commands.py:143-149 | the same for DEL |
| Dispatcher.HandleIncrRequest | src/pyredis/commands.py:156-169 | the same for INCR |
| Dispatcher.HandleReadRequest | src/pyredis/commands.py:66-69 | PING, GET, TTL, EXISTS and DBSIZE reply as their outcomes say and record nothing |
| Dispatcher.DispatchRequest | src/pyredis/commands.py:197-232 | store, journal and encoded reply are those of the dispatch function, every exception translated |
| Connection.Reader.NextLine | src/pyredis/resp.py:93-108 | a terminated line is consumed whole, or nothing is |
| Connection.Reader.NextBulkString | src/pyredis/resp.py:71-90 | the bulk string, protocol error or disconnection that stands at the position |
| Connection.Reader.NextCommand | src/pyredis/resp.py:44-68 | the request, clean end, protocol error or disconnection that stands at the position |
| Connection.HandleConnection | src/pyredis/connection.py:23-62 | everything written is the encoding of the session's replies, with any other server activity between two commands |
| Pipeline.DispatchIsFramed | src/pyredis/commands.py:197-232 | every reply on every branch is one frame |
| Pipeline.SessionOutputDecodes | src/pyredis/connection.py:31-62 | whatever bytes a client sends, the output decodes uniquely into exactly the session's replies |
| Pipeline.RequestIsServed | src/pyredis/connection.py:31-62 | a request that stands at the position is served, an empty one skipped in silence, and the session goes on after it |
| Pipeline.ProtocolErrorEndsSession | src/pyredis/connection.py:34-39 | bytes that break the grammar or a cap get exactly one more frame, a protocol error, and the session ends |
| Pipeline.StrangeLineEndsSession | src/pyredis/connection.py:34-39 | so does a line that does not begin with `*` |
| Pipeline.DepartureIsSilent | src/pyredis/connection.py:40-45 | when the peer leaves between two requests or within one, nothing more is sent |
| Pipeline.PipelineAnswersInOrder | src/pyredis/connection.py:31-62 | concatenated requests get exactly one reply per non-empty request, in order, each computed on the state the earlier ones left |
| Server.Recover | src/pyredis/server.py:154-171 | start-up is the first state of a run, and the restart step of the state machine; after any run it never refuses |

## Left out

- The asyncio listener, tasks, shutdown and signals (`server.py`): plumbing; kept are that commands and sweeps are atomic steps and that recovery precedes serving.
- Real files: the log is a byte sequence, and an append may fail after writing any prefix. What the operating system loses in a power failure after accepting a write, and closing the file, are not modelled.
- The stream reader's chunking and its limit on header lines: the reader is a byte sequence with a position.
- A clock that moves within one operation: each step uses one reading. The one exception is INCR, where `Counting.MovingClockLosesDeadline` says exactly what two readings can change.
- A clock that goes backwards, across restarts included: expiry drops are not journalled, so durability needs the clock not to decrease.
- Python's limit on the digits it converts to an integer: lengths are mathematical integers.
- UTF-8 encoding of error text: every message of the program is ASCII, and so the model's texts are bytes already.
- The connection's catch-all for unexpected exceptions: every modelled operation is total, so there is nothing for it to catch.
- Sweep coverage across a restart: a restart after a failed append may bring back a key without its deadline, so `Coverage.SweepsCoverRun` speaks of one process life.
- Log messages, configuration and process entry points: presentation and validation only.
- Several stores or journals sharing state: one store and one journal object are served at a time.
