# MUT, the Memory Usage Tracker: a Dafny model

MUT runs a target program under breakpoints at its malloc, calloc, realloc, free and cfree, and keeps a
ledger of the calls: freeing unallocated memory (FUM), freeing freed memory (FFM), writing outside an
object (WUM) and memory leaks (MLK) are reported, and statistics kept. This project models the tracker
and the parts it rests on, and proves what they promise. `dafny verify dfyconfig.toml` checks all of it.

## How the model is laid out

- `Words`, `Memory`, `WordCopy`: 32-bit words as bounded integers with C's bitwise operators, target
  memory as a map from mapped addresses to bytes, and the word-at-a-time copy and fill loops.
- `Uint64`, `CounterRuns`, `ShiftDiv`: the two-word counter with its division by ten and decimal
  printing, when it agrees with exact counters over a run, and the shift-pattern divisions.
- `Backtraces`, `FrameWalk`, `Processes`: the shared backtraces, the x86 frame walk, and the traced
  process with its status machine. What the operating system will answer is a sequence of events for
  waiting and continuing, and one of denials for register accesses; how the target was sent on (`trail`:
  text, registers and data of each resumption, with the return address patched) and the stops it came to
  (`stops`: program counter, registers and data) are recorded as ghost state. `refused` records that the
  system refused a request or that the target did not return from a call. `Followed` ties the status to
  the answers heard so far: stopped, `Ended`, or, if the process was lost, `CutOff`.
- `Ledger`, `History`, `Findings`, `Peaks`: the books as a function of the completed calls, what is on
  record of every address as a function of the history alone, and the theorems that connect the two.
- `Transcripts`: the whole log as a script that the history alone writes, usage reports, leaks and final
  statistics included.
- `Truth`: what the target really has, read off the history without regard to the tracker's branches, and
  exactly when the record, the diagnoses and the leaks agree with it.
- `ResourceLists`, `Breakpoints`, `Trackers`, `Sessions`: the imperative tracker. Every handler is proved
  to take the step of `Ledger.Step`, to keep every backtrace counted right and that of the call which
  produced or consumed the entry (`Traced`), and to let the target run only on text in which nothing but
  the return address is patched, that address being the word on top of the stack at the stop of the call.
  `Orderly` says of every resumption of a run which program counter, registers and memory it is made
  with. `Trackers.CallsOf` reads the history off the raw stops, so that a finished session's log is a
  function of what the target did; `UnderHand` does so for a session that ends in a call.
- `Zones`: the safety zones of the -c control, kept apart from the ledger.
- `Symtabs`, `DebugMem`: the symbol table and the debugging allocator.

The sequences of list nodes are fields that the methods reassign. The target and its allocator are an
environment. Theorems about what is on record assume that no call returns an address that is on record
(`History.FreshResults`); those about the truth that the allocator is honest (`Truth.Honest`): a non-zero
result is not in use, and when memory is kept (no -f) it was never returned before. A real realloc may
return its argument. `Truth.HonestIsFresh` shows that the second implies the first.
`int`, `long`, `size_t` and registers are 32 bits wide, as README:13 says. The tracker is the x86 one,
whose words are little-endian; copying and filling are treated for both byte orders. Text is changed by the tracker
only. Failing `mut_mem_malloc` calls are nondeterministic choices.

## Where the code departs from what it says, and what is proved instead

- `ans.hi` is not initialised when `inc` carries or `dec` borrows: `IncExactIffNoCarry` and
  `DecExactIffNoBorrow` quantify over what it holds and give the exact condition; `RunCounters` and
  `LongLongAgrees` show that runs whose totals stay below 2^32 are not affected.
- `lt` is not lexicographic: `LtExactIff` says for which pairs it is wrong.
- A breakpoint is a whole word 0xCC written over the function's first word, so overlapping words are not
  restored: `CycleIff` gives the exact condition.
- The merge of a last partial word suits big-endian words: `CopyCorrectIff`, `ZeroCorrectIff` and, for
  realloc, `ReallocKeepsContents` give the exact conditions, `LittleEndianCopyFails` and
  `LittleEndianZeroFails` instances.
- A realloc of a consumed object when memory is kept ends in a failed assertion, and a realloc whose result
  is to be recorded ends the run when it returns zero: `Truth.EndsIff` shows that, apart from a refusing
  system, exhausted memory and misaligned objects, nothing else ends a run in a call, and `Sessions.Session`
  that a run ends only so. The FFM of such a realloc is still logged (`EndsWithFfm`).
- With -f the result of reallocating an unknown address is not entered, so the target has an object that
  is missing from the leaks and whose release is called a FUM. `TruthfulIff` gives the exact condition:
  over an honest allocator diagnoses and leaks are the true ones if and only if memory is kept or no
  realloc of an address that is not zero and has no object succeeded (`NothingEscapes`); `FalseAlarm` is
  an input on which they are not.
- An address that malloc returns while it is listed is noticed only through its backtrace: `TakenOver`
  gives the exact condition, and `Tracker.EnterObject` takes the entry over otherwise.
- The file name of a function without line ranges is never initialised (src/exec/mut_exec_symtab.c:48-53),
  yet a lookup returns it and src/backtrace/fixed/mut_backtrace.c:76 tests it against zero. `LookupExact`
  has a file exactly for the functions that some range was added to.
- The zone of a calloc of a multiple of four bytes is written one word behind where it is looked for:
  `SameZonesIff` and `WumIff` show that exactly these objects are always reported as written outside, and
  the report ends the run; `UntouchedReported` is such a run.
- A debug realloc that fails has already moved the old block to the freed list: `DebugMem.Store.Realloc`.
- A process that was lost while running cannot be closed: closing it fails an assertion.
  `Sessions.Session` fails an assertion exactly for a lost process or an aborted handler; a process is
  lost only by a failed wait or continue or when the answers run out, and never when they hold no failure
  and end with the target's end. `LostSession` is a session that is lost.
- misc/div/README:65-68 leaves the worst errors of the division patterns open: `Estimate16Bounds` and
  `Estimate8Bounds` bound them for every input.

## Model

| member | source | states |
|---|---|---|
| `Sessions.Session` | src/ui/tty/mut_ui.c:149-197 | A session that finishes logged exactly what the history read off the target's stops calls for; with fresh results that is, record by record, the script of the history, which is stated without the tracker's books: each diagnosis and null result with its arguments, a usage report of exactly the objects on record after each call that calls for one, then the leaks, each object alive once, then, with -s and only then, one record of the true statistics. Over an honest allocator the log is the truth (every FUM and FFM deserved and none missing, the leaks the objects alive) if and only if no object escaped by a successful -f realloc of an unknown address. However a session ends, its diagnoses are those of the completed calls and of the one under way, all of them due if and only if no call names an escaped object. One that does not finish met a refusing system or exhausted memory, or the call under way, with the arguments at its stop and the result at its return, ends the run: it reallocates to zero or a consumed object, or a misaligned object had to be copied or zeroed. Each time the target was sent on (`Orderly`), program counter, registers and memory were those that the stops before call for: a function at its entry, on the data it is to have, to be stopped at the word on top of its stack; a skipped call at that word with the stack popped; a completed call where it returned, with the memory it leaves. Each object shown as leaked has the backtrace walked at the stop of the very call that asked for its size and got its address. Every backtrace is freed and the target is gone; an assertion fails exactly if the process is lost or a handler aborted, lost only by a failed wait or continue or missing answers; if the functions' words do not overlap the target never ran on anything but its own text with the registered breakpoints or one patched return address |
| `Sessions.Conclude` | src/ui/tty/mut_ui.c:180-197 | Closing after a run: an assertion fails exactly for a lost process or an aborted handler; only leaks and statistics are added to the log, which is then complete |
| `Sessions.LostSession` | src/proc/ptrace/mut_process.c:78-130 | A session whose first wait fails leaves the target running and fails an assertion |
| `Trackers.Tracker.constructor` | src/mut.c:140-176 | A new tracker has empty books and nothing registered, is ready, and has -b switched off for a target without the symbols for it |
| `Trackers.Tracker.Open` | src/mut.c:94-127 | Each function the target has is registered as what it is; addresses are distinct, and if their words do not overlap the breakpoints are there on the original text and the kept words are the original ones |
| `Trackers.PlacesExact` | src/mut.c:94-127 | Which kind an address is handled as: the first of malloc, calloc, realloc, free, cfree, usage that is there |
| `Trackers.Tracker.ManageAction` | src/mut.c:70-89 | Registers an address once and keeps text and kept words those of breakpoints on the original text |
| `Trackers.Tracker.OneMoreRegistered` | src/mut.c:32-43 | Entering one more address at the head of the list keeps the registrations sound, addresses distinct |
| `Trackers.Tracker.FindAction` | src/mut.c:53-65 | Finds the action registered at an address, if there is one |
| `Trackers.Tracker.Run` | src/mut.c:1311-1355 | Over the whole run the books are those of the replayed history, the history is the calls read off the stops, the diagnoses logged are those of the history and of the call under way, every resumption has the program counter, registers and memory the stops before it call for and is on the disciplined text (words not overlapping), the target stands where the answers heard put it, it is lost if the first wait fails, and a run that ends otherwise was refused something or ended in the call made at its last registered stop |
| `Trackers.Tracker.Turn` | src/mut.c:1317-1354 | One round of the loop keeps all of that: the target is sent on as the last stop calls for and runs to its next one, and a registered call made there is one event more or the one the run ends in |
| `Trackers.Tracker.HandleStop` | src/mut.c:1325-1354 | One stop: breakpoints out, the call handled as one step of the ledger, breakpoints back on the original text; completed or not, the call is the one made at the stop, its argument is diagnosed, and it ran to the word on top of the stack of that stop, on the data it is to have; completed, the target is back at that word; not completed, it met a refusing system or exhausted memory, or ends runs, and then the log ends with what that call adds |
| `Trackers.Tracker.Handle` | src/mut.c:1328-1351 | The event handled is the call the target made, completed or not: its kind, its arguments and return address at the stop, its result; once completed the program counter is that return address, and the memory what the call leaves; a call that has not returned is given up only if it ends the run whatever it returns |
| `Trackers.Tracker.ResumeAndWait` | src/mut.c:1317-1324 | The target is sent on with the registers and memory its stops call for, on armed text; waiting ends it, stops it or fails |
| `Trackers.OneCallMore` | src/mut.c:1311-1355 | A stop at a registered function with its return adds exactly that call to the history |
| `Trackers.CallAtHand` | src/mut.c:1311-1355 | A stop at a registered function with at most one more stop leaves exactly that call under way |
| `Trackers.Tracker.OrderlyOn` | src/mut.c:1317-1324 | Sending the target on from where its stops put it keeps every resumption, before and since, the one its stops call for |
| `Trackers.Tracker.OrderlyMore` | src/mut.c:1325-1354 | So do more stops, and resumptions that are as these call for |
| `Trackers.Tracker.SettledPoised` | src/mut.c:1325-1354 | A completed call leaves the target to go on at the word on top of the stack of its stop, popped if the call was skipped, with the memory the call leaves |
| `Trackers.Tracker.NullArgBytes` | src/mut.c:1242-1258 | Without -f realloc is run with zero in the four bytes of its first argument and every other byte as at the stop |
| `Trackers.Tracker.DoAction` | src/mut.c:205-225 | The function runs from its entry with the registers and data it was given, on text patched only at its return address, and stops there with the text restored; otherwise something was refused |
| `Trackers.Tracker.RunCall` | src/mut.c:408-415 | The function is run to the word on top of the stack, the program counter is that word, and its result is read, or the backtrace is given up |
| `Trackers.Tracker.RunOrSkip` | src/mut.c:815-817 | With -f the call runs to its return address; without it the program counter becomes that address and esp 4 more, and nothing else of registers and memory changes |
| `Trackers.Tracker.ProduceBacktrace` | src/mut.c:356-369 | With -b the handler owns a backtrace holding the frame walk at the stop of the call |
| `Trackers.Tracker.MakeBacktrace` | src/mut.c:356-369 | A new backtrace is filled with the walk, or closed if that fails |
| `Trackers.ProducedHere` | src/mut.c:316-352 | Once the producer at the last stop has returned, its backtrace is that of the call that asked for the size and got the address |
| `Trackers.NewTraced` | src/mut.c:316-352 | Entering an object with the backtrace of its producer keeps every backtrace in the list that of the call which produced or consumed the entry |
| `Trackers.Tracker.EnterObject` | src/mut.c:316-352 | A new object enters books and statistics as `Ledger.Enter` says; a listed one with a backtrace is reported (MMM, CMM) and fails, or, for realloc, fails an assertion |
| `Trackers.TakenOver` | src/mut.c:316-352 | An object cannot be entered exactly when its address is listed with a backtrace |
| `Trackers.Tracker.EnterAndReport` | src/mut.c:316-352 | The same followed by the usage report wanted |
| `Trackers.Tracker.DoMalloc` | src/mut.c:394-434 | A completed malloc is the ledger's step for its argument and result, a failed call of the target being only reported; it ran from its entry with registers and data untouched to the word on top of the stack, where the target is; one that is not completed is the same call and would end the run |
| `Trackers.Tracker.DoCalloc` | src/mut.c:524-571 | The same for calloc and the product modulo 2^32 |
| `Trackers.Tracker.DoConsumer` | src/mut.c:718-823 | A completed free or cfree is the ledger's step: diagnosed, or its object taken out of the books. The target is back at the word on top of the stack of the call's stop, whether the call ran or was popped; with -z a live object is zeroed as `WordCopy.Fill` says, before the call runs with -f, and nothing else of memory changes; the diagnosis is logged whether or not the call is completed |
| `Trackers.Tracker.ConsumeObject` | src/mut.c:752-823 | The same for an address that is not zero |
| `Trackers.Tracker.ConsumeLive` | src/mut.c:792-823 | A live object leaves statistics and list, and is zeroed with -z in the data the call is run with or the skipped call leaves |
| `Trackers.Tracker.DeleteObject` | src/mut.c:809-812 | Either deletion policy is the ledger's deletion |
| `Trackers.Tracker.LogDiagnosis` | src/mut.c:583-619 | FUM for an unlisted address, FFM with the earlier consumer for a consumed one |
| `Trackers.Tracker.DoRealloc` | src/mut.c:1203-1272 | A completed realloc, by whichever of its five paths, is the ledger's step, its function run to the word on top of the stack: without -f and for a non-zero address on the data of the stop with argument 0 replaced by zero, otherwise on the data of the stop. What it leaves of the memory the target came back with is given for every path (`Moved`): without -f a listed object is copied and, with -z, then zeroed; with -f and -z an object that moved is zeroed over exactly its old size; else no byte is changed. FUM and FFM are logged whether or not the call is completed |
| `Trackers.Tracker.ReallocNull` | src/mut.c:885-934 | realloc of null is the ledger's step for its size and result |
| `Trackers.Tracker.ReallocObject` | src/mut.c:1231-1266 | The same for an address that is not zero, with argument 0 zeroed beforehand exactly when memory is kept |
| `Trackers.Tracker.FinishRealloc` | src/mut.c:1245-1266 | Which path follows once the target has run the call |
| `Trackers.Tracker.ReallocMalloc` | src/mut.c:885-934 | realloc of null, or of an unknown address when memory is kept, enters the result as a malloc would |
| `Trackers.Tracker.ReallocMove` | src/mut.c:957-1023 | With -f the entry is rewritten in place for the new address and size, and of the memory the target came back with exactly the old size is zeroed at the old address if -z is on and the object moved, and nothing otherwise |
| `Trackers.Tracker.VacatedFrame` | src/mut.c:982-999 | That zeroing changes no byte outside the words of the old object, and zeroes exactly its bytes if and only if, with little-endian words, the other bytes of its last word were zero already |
| `Trackers.Tracker.ReallocCopy` | src/mut.c:1041-1108 | Without -f the old object is consumed, the new one entered and the common bytes copied; an already consumed object fails the assertion |
| `Trackers.Tracker.MoveContents` | src/mut.c:1078-1083 | What copying and zeroing leave in memory |
| `Trackers.Tracker.ReallocKeepsContents` | src/mut.c:1078-1083 | The content rule of realloc (section 7.20.3.4 of ISO/IEC 9899:1999): the new object starts with the old contents exactly when no byte under the mask of a partial word had bits of its own, always for whole words |
| `Trackers.Tracker.DoUsage` | src/mut.c:1275-1283 | The usage function adds one report of the present state, after running to the word on top of its stack on the data of its stop |
| `Trackers.Tracker.ReportUsage` | src/mut.c:229-247 | A usage report lists the live objects in list order under the list's own count |
| `Trackers.Tracker.RemoveBreakpoints` | src/mut.c:1286-1295 | Removing breakpoints that do not overlap restores the original text |
| `Trackers.Tracker.InstallBreakpoints` | src/mut.c:1299-1307 | Installing them arms the text and keeps the original words |
| `Trackers.Tracker.LogLeaks` | src/mut.c:1392-1408 | Exactly the live objects are reported, in list order |
| `Trackers.Tracker.Close` | src/mut.c:1412-1420 | Leaks are reported and then, exactly with -s, the final statistics; every backtrace is freed and the process ended |
| `Trackers.Tracker.CloseOnError` | src/mut.c:1424-1429 | After a failed run every backtrace but the one a handler still held is freed and the process ended |
| `Breakpoints.CycleIff` | src/mut.c:1286-1307 | Installing and removing breakpoints restores every text exactly when no two of their words overlap |
| `Breakpoints.ApartCycle` | src/mut.c:1286-1307 | It does so for words that do not overlap |
| `Breakpoints.CycleByte` | src/mut.c:1286-1307 | Byte by byte: untouched, restored, or a leftover of a breakpoint where words overlap |
| `Breakpoints.EnterBreakpoint` | src/mut.c:70-89 | A breakpoint away from all others may be set before or after them |
| `Breakpoints.InstallSnoc` | src/mut.c:1299-1307 | One round of installing |
| `History.ReplayFaithful` | src/mut.c:1311-1355 | Over every run with fresh results the list holds of every address what is on record by the history; counts and statistics are those of the live entries; with -f nothing is ever marked consumed |
| `History.StepFaithful` | src/mut.c:718-823 | One completed call keeps that |
| `History.ReallocFaithful` | src/mut.c:1203-1272 | So do all realloc paths |
| `History.ConsumerFaithful` | src/mut.c:718-823 | So do free and cfree |
| `History.EnterNew` | src/resources/list/mut_resources.c:96-120 | Entering an unlisted address lists it as alive and changes no other |
| `History.DeleteLive` | src/resources/list/mut_resources.c:40-81 | Deleting a live entry, either way, changes its status only, and count and space accordingly |
| `Truth.AliveIff` | src/resources/list/mut_resources.c:40-120 | An address is truly alive exactly when some call produced it and none since consumed it |
| `Truth.UnknownIff` | src/resources/list/mut_resources.c:123-135 | Without -f an address is unknown exactly when no call ever produced it |
| `Truth.RightOrHidden` | src/mut.c:1231-1266 | Over an honest allocator the record is right about every address, or, with -f, an object is there that has no record |
| `Truth.RightIfNothingEscapes` | src/mut.c:1231-1266 | It is right about every address if no object escaped |
| `Truth.AstrayOnceEscaped` | src/mut.c:1235-1240 | Once one has escaped, some object is hidden or a diagnosis was made that was not due |
| `Truth.TruthfulIff` | src/mut.c:1412-1420 | The log of a closed tracker over an honest allocator holds exactly the diagnoses due and the objects alive if and only if no object escaped; without -f always |
| `Truth.FalseAlarm` | src/mut.c:1235-1240 | An input on which a live object is called unallocated when freed, and is missing from the leaks before |
| `Truth.EndsIff` | src/mut.c:1203-1272 | Over an honest allocator a call ends the run exactly when it is a realloc that returns zero, unless under -f of an address without an object on record, or a realloc of a consumed object |
| `Truth.DueIff` | src/mut.c:718-823 | Over an honest allocator the diagnoses made, up to the last call, are the ones due if and only if no call names an object that escaped |
| `Truth.LogIsAccurate` | src/mut.c:1311-1355 | So it is with the log of a session, however it ends |
| `Truth.EndsWithFfm` | src/mut.c:1253-1254 | A realloc of a consumed object ends the run, and the diagnoses end with its FFM |
| `Truth.HonestIsFresh` | src/mut.c:316-352 | An honest allocator never returns what is on record |
| `Findings.DiagnosesAgree` | src/mut.c:718-823 | Over every run with fresh results the FUM and FFM reports are exactly those the record calls for, in order, in both deletion modes |
| `Findings.LastDiagnosis` | src/mut.c:1231-1254 | The same with one call more that is not completed: its argument is diagnosed as the record calls for |
| `Findings.StepLog` | src/mut.c:583-619 | One call adds the diagnosis the record calls for |
| `Findings.LeaksAgree` | src/mut.c:1392-1408 | The leak list names exactly the objects on record as alive at the end, each once |
| `Findings.NewestFirst` | src/resources/list/mut_resources.c:96-120 | When memory is kept the list holds the addresses in the order the history gave them out, newest first |
| `Findings.ClosedLog` | src/mut.c:1412-1420 | The log of a closed tracker holds those diagnoses and those leaks, no others |
| `Transcripts.ScriptFollowed` | src/mut.c:229-247 | Over every run with fresh results the log is, record by record, what the history alone calls for: diagnoses, null results with their arguments, and one usage report for each call of the usage function and, with the usage control, for each success of malloc, calloc, realloc of null or of a live object and each release of a live one, listing exactly the objects on record as alive then |
| `Transcripts.EndFollowed` | src/mut.c:1203-1272 | So is the log when one call more ends the run, which reports no usage |
| `Transcripts.StepAdds` | src/mut.c:885-934 | What one call adds to the log is determined by what is on record of the address it names |
| `Transcripts.ClosedIsComplete` | src/mut.c:1412-1420 | Closing adds the objects on record as alive, each once, and with -s the statistics, whose current values are the sum and number of the leaks |
| `Transcripts.StatisticsOnce` | src/mut.c:1415-1416 | With -s the last record is the statistics and no other is, without it there are none |
| `Findings.StopsIff` | src/mut.c:885-1179 | With fresh results a call ends the run exactly when it is a realloc to be recorded that returns zero, or of an object recorded as consumed |
| `Findings.EndsIff` | src/mut.c:1203-1272 | The same over whole histories |
| `Findings.UsageCounts` | src/mut.c:229-247 | Every usage report announces as many objects as it lists |
| `Findings.ModesAgree` | src/resources/list/mut_resources.c:40-159 | For creates, by realloc of null too, and deletes without address reuse the list of -f is the kept list without its consumed nodes, in order, with the same statistics and leaks |
| `Peaks.FirstPeaks` | src/mut.c:257-271 | Both maxima are the pair at the first moment their dimension peaked |
| `Peaks.MomentIs` | src/mut.c:257-271 | The moments are the current statistics after every change |
| `Peaks.StatsOrdered` | src/mut.c:257-271 | total >= max >= now in both dimensions |
| `Peaks.NowIsLive` | src/mut.c:794-797 | The current statistics are the space and number of the objects on record as alive, which is the list's own count |
| `Peaks.StatsAreOps` | src/mut.c:885-1179 | The statistics of a run are those of its objects' comings and goings |
| `Peaks.TotalIs` | src/mut.c:257-264 | The totals are the sum of sizes and number of all objects the history brought |
| `Peaks.NowIs` | src/mut.c:794-797 | The current statistics are what the history brought less what it took |
| `Peaks.StatisticsAre` | src/mut.c:257-271 | All statistics as functions of the history: current, total, and both maxima as the pair at the first moment their dimension peaked |
| `CounterRuns.TwoWordsExact` | src/uint64/struct/mut_uint64.c:8-55 | While totals stay below 2^32 the two-word counters are exact whatever the uninitialised words hold |
| `CounterRuns.RunCounters` | src/mut.c:257-271 | So every run with such totals ends with the exact statistics |
| `CounterRuns.RunBalanced` | src/mut.c:794-797 | A run never takes more from the statistics than is there |
| `CounterRuns.LongLongAgrees` | src/uint64/longlong/mut_uint64.h:6-9 | Both implementations of the counter then show the same statistics |
| `Uint64.IncExactIffNoCarry` | src/uint64/struct/mut_uint64.c:17-31 | The low word is right modulo 2^32; the sum is right exactly when there is no carry |
| `Uint64.DecExactIffNoBorrow` | src/uint64/struct/mut_uint64.c:35-48 | The assertion stops exactly the underflows; the difference is right exactly when there is no borrow |
| `Uint64.LtExactIff` | src/uint64/struct/mut_uint64.c:52-55 | `lt` never claims too much, and misses exactly the pairs whose high words rise while the low words do not |
| `Uint64.FromUint` | src/uint64/struct/mut_uint64.c:8-14 | The value of a converted word |
| `Uint64.Udiv10` | src/uint64/struct/mut_uint64.c:88-147 | Exact division by ten of every 64-bit value |
| `Uint64.NibbleStep` | src/uint64/struct/mut_uint64.c:98-108 | One nibble: the widened mask exposes only remainder, nibble and zeros, and the quotient gains a digit |
| `Uint64.MaskWidens` | src/uint64/struct/mut_uint64.c:98-108 | The mask is a run of low ones, 4 bits wider after a zero and 8 bits otherwise |
| `Uint64.Out` | src/uint64/struct/mut_uint64.c:157-171 | At most 20 digits, read back as the value, no leading zero |
| `ShiftDiv.CorrectionExactIff` | misc/div/div_16_10.c:20-36 | The correction gives i/10 exactly when ten times the estimate does not wrap into the error |
| `ShiftDiv.Estimate16Bounds` | misc/div/div_16_10.c:19-32 | Worst errors of the long pattern for every 32-bit input |
| `ShiftDiv.Division16Exact` | misc/div/div_16_10.c:14-39 | The corrected long pattern is i/10 for every 32-bit input |
| `ShiftDiv.Estimate8Bounds` | misc/div/div_8_10.c:16-27 | Worst errors of the short pattern |
| `ShiftDiv.Division8ExactIff` | misc/div/div_8_10.c:14-33 | For which inputs the corrected short pattern is i/10 |
| `ShiftDiv.Survey` | misc/div/div_16_10.c:14-41 | The loop finds the worst errors in both directions and whether any answer is wrong |
| `ShiftDiv.Survey16` | misc/div/div_16_10.c:14-41 | Over its range the long pattern is never wrong, with those bounds |
| `ShiftDiv.Survey8` | misc/div/div_8_10.c:14-35 | Over its range the short pattern is never wrong, with those bounds |
| `Backtraces.Backtrace.constructor` | src/backtrace/fixed/mut_backtrace.c:19-31 | A new backtrace has one share and no frames |
| `Backtraces.Backtrace.Enter` | src/backtrace/fixed/mut_backtrace.c:34-44 | Appends a frame, or refuses once there are 20 |
| `Backtraces.Backtrace.Close` | src/backtrace/fixed/mut_backtrace.c:87-93 | One share less; the last one frees it |
| `Processes.Process.FunctionBacktrace` | src/proc/ptrace/arch/x86/mut_process_arch.c:116-151 | The loop ends for every memory and records the walk, or fails where that does or where a register cannot be read |
| `FrameWalk.WalkIsLongestPrefix` | src/proc/ptrace/arch/x86/mut_process_arch.c:116-151 | The walk is the caller and the longest prefix of the frame chain with rising frame pointers and non-zero return addresses, at most 20 frames, each recorded as the address from which the return address is five bytes on |
| `FrameWalk.WalkFailsIff` | src/proc/ptrace/arch/x86/mut_process_arch.c:116-151 | The walk fails exactly when the word on top of the stack cannot be read, or after recordable frames it needs a word that cannot be read |
| `FrameWalk.FramesFailIff` | src/proc/ptrace/arch/x86/mut_process_arch.c:136-149 | The same for the loop from any frame on |
| `FrameWalk.BehindCallSite` | src/proc/ptrace/arch/x86/mut_process_arch.c:130 | The return address lies five bytes behind the call recorded for it |
| `Processes.Process.Wait` | src/proc/ptrace/mut_process.c:78-130 | Waiting comes to what the answers of the system call for: the target stops at its breakpoint (pc = eip - 1), or its program counter cannot be read; it is gone; or it is lost, which takes a failed answer or none; other signals only continue it, on the same text |
| `Processes.AwaitedHeard` | src/proc/ptrace/mut_process.c:78-130 | Waiting hears answers up to a stop, the end of the target, or a failure or the lack of one |
| `Processes.HealthyNeverCutOff` | src/proc/ptrace/mut_process.c:78-130 | Answers without a failure that end with the end of the target are never cut off |
| `Processes.Process.Resume` | src/proc/ptrace/mut_process.c:151-161 | A stopped target runs on, on its present text, unless its program counter cannot be written or it cannot be continued |
| `Processes.Process.SetBreakpoint` | src/proc/ptrace/mut_process.c:134-141 | The word that was there is returned and overwritten with the breakpoint |
| `Processes.Process.BreakpointBytes` | src/proc/ptrace/mut_process.c:134-141 | The bytes of the breakpoint: 0xCC and three zeros, in the order of the words |
| `Processes.Process.Restore` | src/proc/ptrace/mut_process.c:144-148 | A word is put back |
| `Processes.Process.ReadArg` | src/proc/ptrace/arch/x86/mut_process_arch.c:44-55 | Argument n is the word at esp+4+4n, if stack pointer and word can be read |
| `Processes.Process.WriteArg` | src/proc/ptrace/arch/x86/mut_process_arch.c:58-69 | Writing it changes that word alone |
| `Processes.Process.ReturnAddr` | src/proc/ptrace/arch/x86/mut_process_arch.c:73-88 | The return address is the word at esp |
| `Processes.Process.Close` | src/proc/ptrace/mut_process.c:263-269 | A target that does not run is gone afterwards |
| `Processes.Process.Memcpy` | src/proc/ptrace/mut_process.c:197-227 | The loop copies as `WordCopy.Copy` says, or fails where that does |
| `Processes.Process.Memset` | src/proc/ptrace/mut_process.c:236-259 | The loop fills as `WordCopy.Fill` says, or fails where that does |
| `Processes.Process.MergeWord` | src/proc/ptrace/mut_process.c:216-225 | The masked merge of numbers is the byte-wise merge of the partial word |
| `Memory.TailIsMerge` | src/proc/ptrace/mut_process.c:182-189 | Which bytes the mask reaches, for both byte orders |
| `WordCopy.CopyCorrectIff` | src/proc/ptrace/mut_process.c:197-227 | The first n bytes are copied for every n with big-endian words, and with little-endian words exactly when no destination byte under the mask had bits of its own |
| `WordCopy.CopyFrame` | src/proc/ptrace/mut_process.c:197-227 | Only the ceil(n/4) destination words change |
| `WordCopy.CopyEffect` | src/proc/ptrace/mut_process.c:197-227 | The whole effect of a copy, byte by byte |
| `WordCopy.LittleEndianCopyFails` | src/proc/ptrace/mut_process.c:222 | A one-byte copy that goes wrong |
| `WordCopy.ZeroCorrectIff` | src/proc/ptrace/mut_process.c:236-259 | Zeroing zeroes exactly n bytes always with big-endian words, and with little-endian words exactly when the bytes of the last word were zero already |
| `WordCopy.ZeroFrame` | src/proc/ptrace/mut_process.c:236-259 | Zeroing changes only the ceil(n/4) words from the address on |
| `WordCopy.LittleEndianZeroFails` | src/proc/ptrace/mut_process.c:254 | Zeroing one byte can leave it as it was |
| `WordCopy.ContentsMoved` | src/mut.c:1078-1083 | Zeroing the old object afterwards does not spoil the copy |
| `WordCopy.PatternBytes` | src/proc/ptrace/mut_process.c:240 | The pattern is the byte four times |
| `ResourceLists.Resources.Lookup` | src/resources/list/mut_resources.c:123-135 | The first entry at an address |
| `ResourceLists.Resources.CreateResource` | src/resources/list/mut_resources.c:96-120 | The entry at the address, or a new one at the head |
| `ResourceLists.Resources.MakeProducer` | src/resources/list/mut_resources.c:19-27 | The entry takes over the handler's backtrace |
| `ResourceLists.Resources.DeleteResource` | src/resources/list/mut_resources.c:40-81 | Removed with its backtrace's share, or marked and sharing the consumer's backtrace; every reference count stays the number of fields that hold the backtrace |
| `ResourceLists.Resources.ReallyDelete` | src/resources/list/mut_resources.c:40-65 | The first of these: the node searched for by address is taken out |
| `ResourceLists.Resources.MarkAsFree` | src/resources/list/mut_resources.c:68-81 | The second |
| `ResourceLists.Resources.Rewrite` | src/mut.c:996-1008 | Reusing an entry closes the backtraces it held and keeps all counts right |
| `ResourceLists.Resources.IterRead` | src/resources/list/mut_resources.c:147-159 | It reads exactly the unconsumed entries, or all, in order |
| `ResourceLists.Resources.Close` | src/resources/list/mut_resources.c:169-182 | Every backtrace the list holds is freed, exactly once |
| `ResourceLists.Resources.CloseHeld` | src/mut.c:746-747 | A handler gives its backtrace up |
| `Zones.InstallZones` | src/mut.c:373-386 | Both zone words are marked and the call returns the object between them; a misaligned word fails an assertion |
| `Zones.CheckZones` | src/mut.c:658-679 | The first zone word that does not read 0xDEADBEEF is found, with its value (`CheckedWords`); a misaligned object fails an assertion |
| `Zones.CheckedWords` | src/mut.c:658-679 | For any memory in which the two zone words of a well-placed block can be read: intact if and only if the word at the start of the block and the second zone word both read 0xDEADBEEF, otherwise the address and value of the first that does not |
| `Zones.DamageReported` | src/mut.c:658-679 | Over every run in which the target writes anywhere at all, an object other than one from a calloc of a multiple of four bytes is found intact exactly if its two zone words are what they were when it was allocated |
| `Zones.RoundUpValue` | src/mut.c:188-191 | Rounding up is the next multiple of four and two words more, modulo 2^32 |
| `Zones.SameZonesIff` | src/mut.c:542-565 | The checker looks at the words the installer wrote, whatever the size, except after a calloc of a multiple of four bytes |
| `Zones.RoomIff` | src/mut.c:188-191 | The block has room for object and zones exactly when rounding up does not wrap |
| `Zones.WatchedPlaces` | src/mut.c:658-679 | The words looked at lie in the block and outside the object |
| `Zones.RunSound` | src/mut.c:373-386 | Over every run of a target that writes only inside its own live objects, freed ones being zeroed with -z, the words looked at stay as they were set |
| `Zones.ZeroedStays` | src/mut.c:804-807 | Zeroing a freed object changes no word looked at, of its own or of another object |
| `Zones.WumIff` | src/mut.c:658-679 | So such a target's objects are found intact, except that one from a calloc of a multiple of four bytes is always reported |
| `Zones.UntouchedReported` | src/mut.c:542-565 | A run of one calloc of four bytes, written nowhere, in which the object is reported |
| `Symtabs.Symtab.AddFun` | src/exec/mut_exec_symtab.c:64-82 | Sorted insertion; the first name for an address is kept |
| `Symtabs.Symtab.AddRange` | src/exec/mut_exec_symtab.c:125-153 | A line is entered in the function it lies in; one before all functions changes nothing |
| `Symtabs.Symtab.AddLine` | src/exec/mut_exec_symtab.c:105-122 | Lines stay sorted, equal addresses in order of arrival, numbers modulo 2^16 |
| `Symtabs.Symtab.LookupAddr` | src/exec/mut_exec_symtab.c:157-183 | The function with the greatest start not after the address; none exactly when it precedes all |
| `Symtabs.Symtab.LookupName` | src/exec/mut_exec_symtab.c:186-197 | The least address of the name, or zero |
| `Symtabs.InsertFunSorted` | src/exec/mut_exec_symtab.c:64-82 | The list stays strictly sorted |
| `Symtabs.InsertFunAdds` | src/exec/mut_exec_symtab.c:64-82 | Nothing is lost, and nothing but a function with a new start appears |
| `Symtabs.InsertLineAdds` | src/exec/mut_exec_symtab.c:105-122 | No line is lost |
| `Symtabs.TableExact` | src/exec/mut_exec_symtab.c:64-82 | After any functions in any order an address belongs to the one with the greatest start not after it, first name kept |
| `Symtabs.LookupExact` | src/exec/mut_exec_symtab.c:125-183 | With ranges added after all functions a lookup gives the line of the least recorded address not before it in that function, earliest on ties, else 0, and the file added last |
| `Symtabs.LateFunction` | src/exec/mut_exec_symtab.c:34-82 | A function added later has no lines and no file, and other lookups stay |
| `DebugMem.Store.constructor` | src/mem/debug/mut_mem.c:187-204 | The empty store keeps the account |
| `DebugMem.Store.Allocate` | src/mem/debug/mut_mem.c:50-83 | A new block enters the in-use list; counters and maxima follow |
| `DebugMem.Store.Malloc` | src/mem/debug/mut_mem.c:50-83 | The same as a call, keeping the account |
| `DebugMem.Store.Free` | src/mem/debug/mut_mem.c:86-128 | Halts exactly on an address that is neither zero nor in use, reporting where it was given up, if it was; otherwise moves the block |
| `DebugMem.Store.Realloc` | src/mem/debug/mut_mem.c:131-184 | The same, and replaces the block; it is in the freed list even when no new block was had |
| `DebugMem.Store.GiveUp` | src/mem/debug/mut_mem.c:99-107 | A block moves to the freed list; counters follow |
| `DebugMem.Store.Close` | src/mem/debug/mut_mem.c:234-286 | Every block in use is reported with where it was allocated and both zero assertions hold |
| `DebugMem.InUseIff` | src/mem/debug/mut_mem.c:50-184 | The lists divide up all allocations: in use is what was given and not given up since |
| `DebugMem.LeaksExact` | src/mem/debug/mut_mem.c:259-264 | The report holds position, address and size of exactly the blocks allocated and not given up since |
| `DebugMem.EarlierExact` | src/mem/debug/mut_mem.c:86-128 | The earlier position in the message for a block given up twice is where a call gave it up; one called unallocated was never given up |
| `DebugMem.PeaksSnoc` | src/mem/debug/mut_mem.c:69-76 | While less than 2^32 was in use the maxima are the true peaks |

## Left out

- Text of the log and the option parser: records are abstract; a leak or usage record holds the object; the frames shown with it are those of the entry's backtrace.
- Trace lines (-t) and hit counts.
- `mut_process_open` up to the first stop, fork and exec: the model starts with a stopped target.
- Nodes as separate objects: lists are sequences, so splicing through pointers to pointers, node identity and freeing of nodes are not captured.
- Safety zones inside the ledger's handlers: the tracker is modelled without -c, and the zones by themselves in `Zones`; realloc of existing objects under -c, where the code disables zones, is in neither.
- Contents of the debugging allocator's blocks (its fill patterns and the copy in realloc) and write failures of its report.
- ELF and a.out readers, src/resources/avl (unfinished), the sysVr4, mips and SPARC ports.
- Sessions.Session: without -c, and from the first stop of the target on.
- Trackers.Tracker.constructor: opening and closing the executable and the process are left out; only whether the target can be traced back is given.
- Trackers.Tracker.DoMalloc: without -c, which rounds the size up and installs zones (`Zones.InstallZones`).
- Trackers.Tracker.DoCalloc: without -c, likewise.
- Trackers.Tracker.DoConsumer: without -c, which checks the zones first (`Zones.CheckZones`).
- Trackers.Tracker.ConsumeObject: without -c, likewise.
- Trackers.Tracker.ConsumeLive: without -c, likewise.
- Trackers.Tracker.DoRealloc: without -c, likewise.
- Trackers.Tracker.ReallocMalloc: without -c, which installs zones.
- Trackers.Tracker.Close: the statistics are the tracker's own; hit counts and closing the executable are left out.
- Findings.ModesAgree: runs that reallocate nothing but null, because the two modes treat objects given out by other reallocs differently (a real one rewrites the entry in place, a kept one enters a new entry at the head).
- History.ReplayFaithful: fresh results only; a target that is given an address on record again can make an entry be taken over (`Trackers.TakenOver`) or end the run.
