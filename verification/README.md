# racez in Dafny

racez looks for data races by sampling. A preloaded library keeps, for every thread, a small table of the
mutexes it holds; a hardware counter interrupts the program now and then, and the signal handler logs one
memory access with the registers of that moment and a copy of the table. Off-line, `convert` maps code
addresses to functions, a MAO pass extends each sample to the neighbouring accesses of its basic block, and
`detect` replays everything through a lockset state machine per address and prints the suspicious ones.

This project models the logic of those stages and proves what each is there to guarantee.

| file | part of racez |
|---|---|
| `Sequences.dfy` | the first index of an element, which several scans compute, and regrouping |
| `Records.dfy` | log records and the record set ordered by record number and code address |
| `History.dfy` | what a history of accesses to one address says: threads, writes, common locks, when a warning is due |
| `Machine.dfy` | the five-state machine of `core_detection`, and its exact refinement of the history |
| `Verdicts.dfy` | what follows for warnings, sampling, reordering and the delayed warning |
| `Detector.dfy` | the three maps with heap purging, as a class, and their projection to one address |
| `LockTable.dfy` | the ten-slot table of held locks, as a class, and runs of lock and unlock calls |
| `Interrupts.dfy` | the same table step by step, with a signal handler between any two steps |
| `EndToEnd.dfy` | from the lock wrappers of interleaved threads to the absence of warnings, and the runs that have false ones |
| `RecordBuffer.dfy` | the shared log buffer: claim, fill field by field, drain |
| `Extender.dfy` | the basic-block walk, an instruction semantics, soundness and completeness |
| `Merge.dfy` | the merge of logged and synthetic records in `main` of the detector |
| `Attribution.dfy` | the pass that gives samples to instructions |
| `Symbols.dfy` | symbol lookup, and the text file that `convert` prints and the pass reads |

## Main results

1. *The state machine is exactly a predicate on the history* (`Machine.RunRefines`). The lockset is the
   intersection of all recorded locksets, the status is decided by "more than one thread" and "some write", the
   record set is the only one that represents the history (`Machine.RecordsDecided`), and the one warning comes at the first access where the history is shared, written and without a common
   lock, and either sharing with a write has just begun or the thread was seen before. From it follow what
   sampling and reordering can do (`Verdicts.SamplingInventsNothing`, `Verdicts.OrderInsensitive`) and
   exactly which racy histories are not warned about (`Verdicts.UnwarnedExactly`).
2. *The detector over all addresses is that machine per address* (`Detector.Projection`), on the accesses
   since the last free that covers the address, and its warnings are those of the histories
   (`Detector.WarningsExactly`).
3. *No false alarm* (`EndToEnd.NoFalseAlarm`): in every interleaving of threads through the lock wrappers,
   with signal handlers at every step, inside the functions of the table too, and profiling switched at will, an
   address that is always accessed while one mutex is really owned is never warned about, whichever samples are
   fed and in whatever order, and also for the records that extend a sample, unless the table lost that mutex.
   `EndToEnd.ConservedExactly` shows that it does so in exactly two ways: a call to lock it found the table full,
   or an unlock of another lock was disturbed while it was the last entry. Either way leads to a false alarm
   (`EndToEnd.FullTableFalseAlarm`, `EndToEnd.StolenFalseAlarm`).
4. *Interrupt safety of the table* (`Interrupts.InterruptedAdd`, `Interrupts.InterruptedRemove`): any
   number of handlers of any depth between any two steps leave an addition as if it had not been interrupted. A
   removal, of any entry, ends as if it had not been interrupted if and only if no handler changed anything
   between the lowering of the count and the read of the last entry, or there was no entry of the user's to be
   moved. A handler itself gives a table back if and only if it is not refused a lock of a mutex that is in the
   table (`Interrupts.HandlerExactly`); in an addition that can happen in one situation only
   (`Interrupts.LossExactly`), in a removal in none (`Interrupts.RemovalNeedsNoRoom`).
5. *The basic-block walk is sound and exact* (`Extender.ExtensionSound`, `Extender.ExtensionExactly`): what it
   emits is true of every execution that agrees with the sample, and it emits exactly what the untouched
   registers give.
6. *The log is complete for every interleaving of writers* (`RecordBuffer.DrainedLog`), and its text form,
   written and split into lines again, comes back unchanged (`Symbols.FileRoundTrip`).
7. *Samples are given to the right instruction on exactly the layouts without padding before an instruction*
   (`Attribution.RightLayouts`); on all others `Attribution.Attribute` says how far off they are, and
   `Attribution.PassExactly` and `Attribution.GivenExactly` which of them are given at all.

## What the code relies on

These are preconditions of the lemmas, because the program is only right under them.

- `is_write_` is 0 or 1; it is a `bool` here.
- Records of one address with equal record number and code address come from one thread. Two threads under one key break the program's own assertion (`Verdicts.KeyCollisionBreaksSize`).
- A freed size is not negative: otherwise the erasing loops of `delete_map_entries` run past the end of the maps.
- Fewer than `BUFFERSIZE` slots are claimed. `RecordBuffer.BoundsExactly` shows that the check in `WriteRecord` admits one too many.
- A handler that interrupts the table unlocks what it locks and uses none of the user's mutexes. Beyond that there are two situations in which it must hold back: while the tenth lock is being added there must be none (`Interrupts.TenthLockWindow`), and while a new slot is not yet filled it must not be refused a lock of the mutex that lies there from before (`Interrupts.LossExactly`, `Interrupts.LossLosesCount`, `Interrupts.NoRoomLosesCount`).
- For the absence of false alarms, the mutex in question is not lost. `EndToEnd.DepthElevenFalseAlarm`, `EndToEnd.LateStartFalseAlarm` and `EndToEnd.DisturbedUnlockFalseAlarm` are runs in which it is; the second one because `pthread_mutex_lock` fills the table whether profiling is on or not and `pthread_mutex_unlock` empties it only while it is on.
- Instructions in an extended block write to registers by the names in the tables of the pass: 64-bit names, the 32-bit names of the eight old registers, vector registers; addresses use 64-bit general registers. `Extender.UncoveredNameIsStale` shows that every other name of a general register fails, and `Extender.VictimsCover` that the marks reach a register exactly for the covered names.
- Logged records have strictly increasing numbers when they are merged. Those that `WriteRecord` fills do; the unused first slot, which is written out too, spoils it exactly if its memory holds a number above 0 (`RecordBuffer.NumbersIncrease`, `EndToEnd.LogIncreases`). The keys of what is fed then tell threads apart, as the detector needs (`Merge.FeedKeys`, `EndToEnd.ExtensionExtends`).

## Where the code and its comments differ

- The detector cites the Eraser paper, but it refines the lockset from the very first access, and a thread first seen in the shared-modified state does not report. The model follows the code; `Verdicts.WarningCanBeDelayed` is the effect.
- The comment on frees gives the range as closed at the end (tools/detect.cc:421-422); the code purges a half-open one, and so does the model.
- A displacement of -1 reads as "not known" to the pass, so that such accesses are never recovered (`Extender.MinusOneIsLost`), and a lea is recorded as if it were the load (`Extender.LeaIsEmitted`).
- The attribution loop steps over alignment padding without counting it (`Attribution.PaddingShiftsSamples`).
- No comment says so, but the merge loop of `main` stops at the logged record of the last synthetic one and never looks at the rest of the log. `Merge.MergeRecords` states where it stops.

## Model

| member | source | states |
|---|---|---|
| RecordSets.InsertOrdered | tools/detect.cc:99-106 | record numbers never fall along the set and code addresses rise within a number; insertion loses nothing and holds the new record unless one with its number and code address was there |
| RecordSets.OrderedUnique | tools/detect.cc:99-106 | the order leaves no choice: the same records make the same set in the same order |
| RecordSets.EraseOrdered | tools/detect.cc:218-219 | erasing one record keeps the order and all other records |
| History.Extend | tools/detect.cc:184-335 | how one more access changes threads, sharing, writes, common locks and the call for a warning |
| History.WarnedIsRacy | tools/detect.cc:314-334 | a history that was ever warned about is shared, written and without a common lock, for good |
| Machine.RepresentsSize | tools/detect.cc:197-251 | one representative record exactly when the location is not shared |
| Machine.StepRecords | tools/detect.cc:194-310 | a step keeps one record per thread seen: its latest write, or if it never wrote its last access before the first write of all, or its first access behind that |
| Machine.RecordsDecided | tools/detect.cc:194-310 | no other record set represents the history |
| Machine.StepStatus | tools/detect.cc:194-334 | a step's status, lockset and report are those of the history with the access added |
| Machine.StepRefines | tools/detect.cc:184-335 | the whole refinement is kept by every step, and a reported set represents the history |
| Machine.RunRefines | tools/detect.cc:184-335 | exact refinement: for every history, status, lockset and the very records are decided by the history, those of the warning once there was one, and an access reports exactly when it is the first that calls for a warning |
| Verdicts.WarnsOnce | tools/detect.cc:287-334 | the error state is reached exactly when some access reported, and at most one access ever does |
| Verdicts.ReportedSet | tools/detect.cc:326-333 | a reported set has one record per thread seen, of at least two threads, with at least one write |
| Verdicts.SizeAssertions | tools/detect.cc:194-290 | the assertions on the size of the record set hold on every run |
| Verdicts.KeyCollisionBreaksSize | tools/detect.cc:99-106 | two threads under one key leave a single record where the program asserts more than one |
| Verdicts.RacyMonotone | tools/detect.cc:184-335 | adding accesses, anywhere, keeps a history racy |
| Verdicts.SettledVerdict | tools/detect.cc:270-286 | after an access by a thread already seen, warned means racy and racy means warned |
| Verdicts.OrderInsensitive | tools/detect.cc:270-334 | any two orders of the same accesses agree on the verdict after one more access by a thread already seen |
| Verdicts.SamplingInventsNothing | tools/detect.cc:184-335 | a warning on any sample means that the full history is racy and is warned about after one more access by a thread already seen |
| Verdicts.UnwarnedExactly | tools/detect.cc:270-286 | a racy history is unwarned exactly when its lockset became empty after sharing with a write had begun and every access since is the first one of its thread |
| Verdicts.WarningCanBeDelayed | tools/detect.cc:274-275 | three writes by three threads that are racy and leave the machine in state 3 with an empty lockset |
| Verdicts.DelayLastsForNewThreads | tools/detect.cc:270-286 | such a history stays unwarned exactly as long as only threads not seen before come |
| Detector.HeapIsLastRegistered | tools/detect.cc:426-446 | the size that a free without one uses is the size of the last allocation at that start, also after lookups of unknown blocks |
| Detector.Projection | tools/detect.cc:337-456 | on every trace, the entry of an address is the single-address machine run on its accesses since the last free whose half-open range covers it, and there is none when there are none |
| Detector.WarningsExactly | tools/detect.cc:392-411 | an access adds a warning exactly when the history of its address since the last purge first calls for one, with a record set that represents that history |
| Detector.OtherEventsAreQuiet | tools/detect.cc:380-381 | frees, allocations, other records and accesses to the null address give no warning |
| Detector.LockedNeverWarned | tools/detect.cc:314-334 | if all accesses to an address recorded one lock, no trace whatever gives a warning on it |
| Detector.SetIncludesThreadId | tools/detect.cc:173-182 | finds the first record of the thread, or the end exactly when there is none |
| Detector.EraseRange | tools/detect.cc:337-373 | the loop removes exactly the keys from the start up to, but not including, the end, and keeps all other values |
| Detector.CollectLocks | tools/detect.cc:314-318 | the set holds exactly the recorded locks |
| Detector.OfflineDetector.constructor | tools/detect.cc:48-51 | starts with empty maps that stand for the empty trace |
| Detector.SwitchState | tools/detect.cc:194-310 | the branches of the switch, with its assertions, take the status and the records to those of the machine |
| Detector.OfflineDetector.StateSwitch | tools/detect.cc:194-310 | the in-place switch meets its assertions in every reachable state and changes this address only, as the machine does |
| Detector.OfflineDetector.RefineLockset | tools/detect.cc:312-334 | the lockset becomes the intersection, and the error is reported exactly in state 3 with an empty one when the switch allows it |
| Detector.OfflineDetector.CoreDetection | tools/detect.cc:184-335 | the switch and the refinement together are one step of the machine, and no other address changes |
| Detector.OfflineDetector.DeleteMapEntries | tools/detect.cc:337-373 | the three maps lose the same keys, those of the range, and agree on their keys afterwards |
| Detector.OfflineDetector.FirstAccess | tools/detect.cc:392-403 | a new address is new to all three maps and gets the entry of its first access |
| Detector.OfflineDetector.KnownAccess | tools/detect.cc:404-411 | a known address finds its record set and lockset, takes one step, and a report carries its records |
| Detector.OfflineDetector.DetectAlloc | tools/detect.cc:413-451 | allocations register their size, frees purge their range with the given or registered size |
| Detector.OfflineDetector.OfflineDetection | tools/detect.cc:375-456 | every record keeps the invariant: the maps have the same keys and are those of the whole trace so far |
| LockTable.SwapRemove | racez_mutex.cc:61-73 | moving the last entry into the hole loses exactly one occurrence of the removed lock |
| LockTable.AddLive | racez_mutex.cc:24-44 | a lock is appended to the live entries unless the table is full |
| LockTable.RemoveLive | racez_mutex.cc:61-73 | removal takes one occurrence of the lock out of the live multiset and nothing else |
| LockTable.LockSet.constructor | racez_lockset.h:8-12 | a new table is empty and not full |
| LockTable.LockSet.AddOneMutex | racez_mutex.cc:9-45 | the in-place update keeps 0 <= n <= 10 and "full exactly at 10" |
| LockTable.LockSet.RemoveOneMutex | racez_mutex.cc:47-74 | the scan and the in-place move remove the first occurrence and keep the same invariant |
| LockTable.TableBounded | racez_preload.c:114-138 | on every run of lock and unlock calls, of any depth, the live entries are a sub-multiset of the locks pending or held and the stale ones |
| LockTable.TableConserves | racez_preload.c:114-138 | while everything fits, the live entries are exactly the locks pending or held plus those unlocked while profiling was off |
| LockTable.TableIsHeldExactly | racez_preload.c:128-138 | the table is the multiset of locks pending or held exactly when no unlock came while profiling was off, that is, without a start that no stop followed |
| Interrupts.FullIgnoresHandler | racez_mutex.cc:24-24 | a handler that loses nothing does not change a table that is marked full |
| Interrupts.HandlerExactly | racez_mutex.cc:24-73 | a balanced handler of any depth, whatever its mutexes, gives back the count and the entries up to order if and only if it is not refused a lock of a mutex that is in the table; otherwise it leaves fewer |
| Interrupts.HandlerKeeps | racez_mutex.cc:27-38 | an admissible handler gives back count, flag and the live slots, exchanging at most mutexes of its own, also when a slot not yet filled holds one of them |
| Interrupts.InterruptedAdd | racez_mutex.cc:24-44 | an addition interrupted at any steps, any number of times, by handlers of any depth, ends with count, flag and live slots of an uninterrupted one |
| Interrupts.LossExactly | racez_mutex.cc:26-43 | outside the tenth-lock window, a balanced handler lowers the count of an addition exactly if it comes while the new slot is unfilled and is refused a lock of the mutex that lies there; admissible are exactly the others |
| Interrupts.LossLosesCount | racez_mutex.cc:26-43 | in whatever run such a handler comes, the call then ends with one lock too few |
| Interrupts.TenthLockWindow | racez_mutex.cc:26-43 | a handler's lock would be written outside the slots exactly while the tenth lock is between raising the count and setting the flag |
| Interrupts.NoRoomLosesCount | racez_mutex.cc:24-73 | an interrupted call that ends with eight of nine locks, because of a handler two locks deep |
| Interrupts.InterruptedRemove | racez_mutex.cc:61-73 | a removal of any lock, interrupted at any steps, ends with count and flag of an uninterrupted one, and with its live slots if and only if no handler changed anything between lowering the count and reading the last entry, or the entry was the last, or the table full, or the last entry a handler's |
| Interrupts.HarmLosesLast | racez_mutex.cc:65-67 | after harm the user's last entry is lost, a handler's mutex is where it should have been moved, and all else is as it should be |
| Interrupts.RemoveCount | racez_mutex.cc:61-73 | every mutex of the user is as often in the table as after an uninterrupted removal, but for the one that harm loses |
| Interrupts.HarmIsReachable | racez_mutex.cc:65-67 | whenever there is an entry of the user's to be moved, a handler with a single lock does the harm |
| Interrupts.RemovalNeedsNoRoom | racez_mutex.cc:61-73 | until then every balanced handler with mutexes of its own, of any depth, may interrupt a removal |
| Interrupts.LastInterrupt | racez_mutex.cc:65-67 | once the count is lowered, a handler that changes anything leaves one of its own mutexes in the slot of the last entry |
| Interrupts.HandlerTakesSlot | racez_mutex.cc:61-73 | the first free slot is a handler's after any handler that does something, of any depth |
| EndToEnd.ConservedExactly | racez_mutex.cc:24-73 | throughout a run with interrupted table functions, every table has a mutex as often as it is pending, held or left over from an unlock while profiling was off, if and only if no call to lock it found the table full and no unlock of another entry was disturbed while it was the last |
| EndToEnd.OwnedIsInTable | racez_preload.c:114-138 | in every reachable state of interleaved and interrupted threads, a mutex really owned and lost in neither way is in its owner's table, since it enters before the real lock and leaves after the real unlock |
| EndToEnd.EnabledExactly | racez_preload.c:276-286 | profiling is on exactly if it was started and not stopped since, or was on at first and never stopped |
| EndToEnd.NoFalseAlarm | racez_preload.c:114-138 | an address always accessed while owning one mutex that was lost in neither way is never warned about, with handlers at every step and profiling switched at will, for any sampled subset in any order among any other records |
| EndToEnd.ExtendedOwning | mao-patch/patch:858-865 | records that extend such a sample count as such samples themselves |
| EndToEnd.ExtensionExtends | mao-patch/patch:858-859 | records that extend a logged access have its number and thread |
| EndToEnd.LogIncreases | racez_bufferdata.cc:81-93 | the log that the merge reads has increasing numbers from its second entry on, and as a whole exactly if nothing was logged or the unused first entry has a number below 1 |
| EndToEnd.MissingFalseAlarm | tools/detect.cc:314-334 | from every run in which a thread owns a mutex that is not in its table, a run with mutual exclusion goes on to two samples that own that mutex and make the detector warn |
| EndToEnd.FullTableFalseAlarm | racez_mutex.cc:24-24 | and so from every run in which a thread's table is full of other locks |
| EndToEnd.StolenFalseAlarm | racez_mutex.cc:65-67 | and from every run in which the mutex is the last entry behind one that the thread unlocks, if a handler disturbs it |
| EndToEnd.DisturbedUnlockFalseAlarm | racez_mutex.cc:65-67 | such a run, with profiling on and no table ever full, by a thread that holds two locks |
| EndToEnd.LateStartFalseAlarm | racez_preload.c:114-138 | such a run after ten lock and unlock pairs before profiling started |
| EndToEnd.DepthElevenFalseAlarm | racez_mutex.cc:24-43 | such a run, with profiling on throughout, by an eleventh lock |
| RecordBuffer.StoresDistinct | racez_bufferdata.cc:41-77 | the stores of one record go to distinct fields |
| RecordBuffer.StoredCarries | racez_bufferdata.cc:41-77 | after all of them the slot reads back as the whole record |
| RecordBuffer.NumberedNext | racez_bufferdata.cc:19-36 | every claim and every store keeps the claimed numbers exactly 1 up to the last, one writer each |
| RecordBuffer.ContentsNext | racez_bufferdata.cc:30-79 | every step keeps what each writer has stored so far, whoever takes it |
| RecordBuffer.Always | racez_bufferdata.cc:19-79 | in every state of every interleaving, slots are pairwise distinct, numbers are exactly 1 up to k, and partly filled slots hold what was stored |
| RecordBuffer.DrainedLog | racez_bufferdata.cc:30-93 | once all writers are done, entry i of what is written out is record number i with the payload and trace of the one writer that claimed it |
| RecordBuffer.NumbersIncrease | racez_bufferdata.cc:25-41 | entry i of what is written out has number i from 1 on; entry 0 is never filled, and the numbers increase throughout exactly if its memory has one below 1 or nothing was logged |
| RecordBuffer.BoundsExactly | racez_bufferdata.cc:38-39 | all calls that go on to store, and the drain, are inside the buffer exactly when fewer than BUFFERSIZE claims were made |
| RecordBuffer.StopBuffer | racez_bufferdata.cc:81-93 | writes the slots from 0 up to and including the last one claimed, in order |
| Extender.VictimsCover | mao-patch/patch:771-823 | overwriting a name marks the 64-bit name of its register exactly when the tables cover the name, both names of an old register whichever is written, and no other register |
| Extender.RegisterValue | mao-patch/patch:1158-1247 | the value looked up is the sampled one, or unknown exactly when the register is marked or holds what stands for unknown |
| Extender.ComputeMemoryExactly | mao-patch/patch:1248-1279 | an address is computed exactly for non-frame operands with a plain displacement other than -1 and usable registers, and is then the effective address |
| Extender.ScaleValue | mao-patch/patch:568-578 | the factor is two to the encoded power |
| Extender.UnmarkedUnchanged | mao-patch/patch:771-823 | an instruction does not change a register that its marks leave out, aliases included |
| Extender.ForwardVisitSound | mao-patch/patch:839-908 | forward: marks stay truthful across the instruction and a found address is its effective address |
| Extender.BackwardVisitSound | mao-patch/patch:909-982 | backward: the same from the state after the instruction to the state before it |
| Extender.ExtensionSound | mao-patch/patch:1025-1095 | for every block, position and execution that agrees with the snapshot, each emitted record has the address and direction of its instruction's memory operand in that execution, a code address as far from the sample's as their offsets are, and is an access really made exactly when the instruction is not a lea |
| Extender.ExecuteSimWhole | mao-patch/patch:1025-1095 | the two loops emit the backward walk from the sample, then the forward walk behind it, and nothing for a sampled instruction of another kind |
| Extender.WalkBackward | mao-patch/patch:1059-1069 | the loop emits what the backward walk specifies, in its order |
| Extender.WalkForward | mao-patch/patch:1080-1091 | the loop emits what the forward walk specifies, from the marks of the sampled instruction |
| Extender.WalkFinds | mao-patch/patch:1059-1091 | either walk emits for an instruction exactly when it goes on over all before it and the step there, with all their marks, emits |
| Extender.FoundExactly | mao-patch/patch:825-989 | a visit finds the effective address of the memory operand exactly when it follows from the sampled registers without a mark |
| Extender.MarkedExactly | mao-patch/patch:771-823 | the marks of a stretch of instructions are exactly the registers that it overwrites by covered names, and the null name after a result without a register that is not a plain store |
| Extender.ExtensionExactly | mao-patch/patch:1025-1095 | exactly which positions a sample is extended to: all instructions up to them are moves, additions, subtractions, leas, comparisons, tests or jumps, and their effective addresses follow from sampled registers that none in between overwrites |
| Extender.ExtensionOrder | mao-patch/patch:1059-1091 | the records come out nearest first, those before the sample and then those behind it, at most one for an instruction |
| Extender.ExtensionCopies | mao-patch/patch:858-865 | a record has number, thread and locks of its sample |
| Extender.UpdateMemoryExactly | mao-patch/patch:1283-1305 | the sampled record gets direction and effective address for moves, keeps the logged address where none can be computed, and is left alone otherwise |
| Extender.UncoveredNameIsStale | mao-patch/patch:819-821 | after a write to any uncovered name of a general register the walk emits a load through it with the address of the old value |
| Extender.LeaIsEmitted | mao-patch/patch:837-873 | a block in which a lea is emitted as an access although it touches no memory |
| Extender.MinusOneIsLost | mao-patch/patch:580-592 | a load at displacement -1 is not emitted although its address is known |
| Merge.OrderNew | tools/detect.cc:600-603 | every key of the file comes out once, with the first record that has it, numbers never falling and code addresses rising within a number |
| Merge.MergeRecords | tools/detect.cc:609-629 | fed by rising numbers, of one number the synthetic records by rising code addresses and then the logged one; all synthetic ones are fed exactly when each has a logged one, and the loop then stops before the logged record of the last; otherwise the first one without blocks all behind it and the whole log is fed |
| Merge.FeedFiles | tools/detect.cc:609-634 | the whole input: the log alone is fed unchanged; synthetic records are fed once per key up to the first without a logged one; what is fed tells threads by keys |
| Merge.FeedKeys | tools/detect.cc:606-608 | when synthetic records have number and thread of a logged access, equal keys in the feed come from one thread |
| Attribution.Attribute | mao-patch/patch:1380-1451 | for every layout and sample list, a sample is given at most once, in order, to an instruction at its offset or behind it; the distance never shrinks along the list and is made of directive bytes before the instruction |
| Attribution.RightExactly | mao-patch/patch:1389-1443 | a sample is given to the instruction at its offset exactly when it has no such distance, and once one is off all that follow are |
| Attribution.RightLayouts | mao-patch/patch:1403-1407 | the pass is right about every sample list exactly on the layouts in which no instruction has a sized directive before it |
| Attribution.PaddingShiftsSamples | mao-patch/patch:1403-1407 | a sample in alignment padding, and the one behind it, go to the wrong instructions |
| Attribution.AllGivenExactly | mao-patch/patch:1408-1451 | all samples, duplicates included, are given to the instructions at their offsets exactly when all are at instruction starts, whatever takes space between |
| Attribution.ServedExactly | mao-patch/patch:1389-1439 | a sample at an instruction start is given by its round exactly if no round before has reached that instruction; otherwise it is lost and takes the next instruction with it |
| Attribution.InsideTakesNext | mao-patch/patch:1389-1439 | a sample inside an instruction costs the sample at the next instruction |
| Attribution.PassExactly | mao-patch/patch:1389-1451 | for every layout and sample list, each sample in turn uses up the first instruction from the first free entry counted at its offset or behind, is given if that entry is counted at its offset, and goes together with an equal one just given; the pass ends at the first sample for which nothing is left |
| Attribution.FatesUnique | mao-patch/patch:1389-1451 | that leaves no choice: there is one list of fates |
| Attribution.GivenExactly | mao-patch/patch:1389-1451 | without padding, a sample at an instruction start is given to it if and only if no sample at an earlier offset has used up that instruction or one behind it |
| Symbols.SortByStart | tools/convert.cc:313-313 | the symbols are sorted by start and none is lost or added |
| Symbols.LowerBound | tools/convert.cc:328-328 | the first symbol that does not start below the address |
| Symbols.Locate | tools/convert.cc:313-333 | finds a symbol with the greatest start not above the address, whose start plus the printed offset is the address; it steps out of the table exactly when there is none |
| Symbols.DecimalShape | tools/convert.cc:332-333 | decimal digits without a leading zero that stand for the number |
| Symbols.NumberOfDecimal | mao-patch/patch:290-293 | a number printed in decimal is read back by the base-guessing conversion, which uses all of it; one that is too large is cut off |
| Symbols.NumberOfOctal | mao-patch/patch:290-290 | after a 0 the digits are octal |
| Symbols.NumberOfHex | mao-patch/patch:290-290 | after 0x they are hexadecimal |
| Symbols.NumberOfNegative | mao-patch/patch:290-290 | after a minus sign the number is negative |
| Symbols.SplitConcat | mao-patch/patch:229-249 | lines written one after the other are read back as those lines |
| Symbols.ParseExactly | mao-patch/patch:284-327 | a line is parsed exactly if it has the five delimited parts with numbers for index and offset, and then to them |
| Symbols.ReadLineExactly | mao-patch/patch:303-338 | a line gives a sample exactly if it is parsed to the file and function wanted, and is an error exactly if it cannot be parsed and is not already known to be for another file |
| Symbols.LineRoundTrip | mao-patch/patch:284-327 | a printed line, read line by line, is parsed to the same index, file, function and offset exactly when the file has no colon, the function no tab, and neither they nor the line number a newline |
| Symbols.Combine | tools/convert.cc:358-379 | the loop reads both texts line by line and numbers every line with the position of its record, also after lines that are left out; a line without its newline is the program's failing assertion |
| Symbols.CombinePrinted | tools/convert.cc:332-378 | from the two texts of a log it makes the text of the log's lines |
| Symbols.Read | mao-patch/patch:280-347 | the loop collects the samples of all lines, or fails at the first line that cannot be parsed |
| Symbols.ReadExactly | mao-patch/patch:280-347 | reading fails exactly if some line is an error, and otherwise yields the samples of exactly the lines that give one |
| Symbols.FileRoundTrip | mao-patch/patch:280-347 | text to text: what the reader collects for a function is exactly the records of that function that are not at line 0 of the unknown file, in order, each with its own index |

## Left out

- Setting up the hardware counters and signals (racez_pmuprofiler.cc): foreign calls; what remains is that a sample copies the thread's table.
- `dlsym`, environment flags, thread-local storage and thread start: the flags are parameters or fixed.
- `report_error`, `get_filename`, the `print_` functions and tools/read.cc: output only; a warning is an event with its record set.
- `ExecuteSim`, `ComputeNewSample`, `ComputeAddress`, `UpdateState` in the pass: an older path that is no longer called.
- The source-file table, the `.loc` tracking and the returns on a change of source file in `Go`: they depend on the MAO library.
- The comparisons with "invalid" and the readelf and addr2line stages of tools/convert.cc: they depend on external tools.
- Condition variables, trylock and the payload of synchronisation records: `WriteRecord` copies none of it.
- The disabled branch of state 4 (tools/detect.cc:290-308).
- Detector.OfflineDetector.OfflineDetection: pointers are numbers without a top, so that a block that wraps around the address space is not modelled.
- Detector.EraseRange: the keys of the range are removed in any order, not in the order of the map, which no result depends on.
- EndToEnd.NoFalseAlarm: samples are taken outside the two functions that update the table; handlers that lose an entry, and handlers in the tenth-lock window, do not occur in its runs.
- Interrupts.LossLosesCount: a store to the slot before the first, which a lost count can lead to in an empty table, does nothing in the model.
- RecordBuffer.DrainedLog: a state machine over values, not an array in place, and the payloads of a slot are separate fields, not a union.
- Extender.ExtensionSound: addresses relative to rip, destinations with names shorter than 32 bits or the 32-bit names of r8 to r15, 32-bit address registers, segment overrides and calls are excluded; a displacement that only the linker knows is never used by the walk.
- Extender.WalkForward: labels and directives of a block are not entries of it; the walk goes from instruction to instruction.
- Merge.OrderNew: the set is kept as its sorted sequence, and it is filled from a sequence instead of a file.
- Attribution.Attribute: the pass that runs past the last entry is reported and stops, where the program reads on past the end.
- Symbols.SortByStart: an insertion into a sequence in the place of the library's sort; only sortedness and the contents matter to the lookup.
- Symbols.Combine: a line longer than the fixed buffers is not cut, and a record number is not limited to 32 bits.
- Symbols.Read: a line without a tab after the file name counts as unreadable; the program reads on past its end there.
