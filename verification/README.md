# An allocation tracker and its unwinder, verified

The repository is an allocation tracker (`backtrace/`) that hooks the allocator of a process, unwinds the stack of every
allocation with a copy of Android's libunwindstack (`unwindstack/`), and keeps what is live. This project models the parts
of both whose correctness is not obvious, in Dafny, and proves what they are for.

* **The JIT entry list** (`JitWriter`, `JitReader`). A debugger-side reader walks a linked list that the process goes on
  changing, without locks, with a seqlock in each entry. `JitWriter` is the writer as a state machine and the timeline of
  its states; `JitReader.DebugReader` is the reader, whose single memory reads fall on increasing instants of that
  timeline. Waiting times and read failures are parameters, so the results hold in every interleaving.
* **The tracker** (`MapSums`, `TrackerState`, `PeakList`, `PointerData`, `TrackerThreads`, `MallocHooks`). `TrackerState` has
  the locked sections as functions on the tracker's record, `PointerData` the methods that carry them out in place,
  `PeakList` the lists made of it, `TrackerThreads` the sections of any number of threads in any order, and `MallocHooks`
  the hooks around the system allocator, which refine `TrackerThreads`.
* **DWARF unwinding** (`OrderedMap`, `FdeIndex`, `CfaRows`, `CfaMeaning`, `StepCache`, `RegisterEval`, `CallerFrame`,
  `PrologueRows`). The interval map of FDEs, the row machine, the evaluation of the registers, and the whole step with its
  two caches. `CfaMeaning` and `CallerFrame` say what the instructions and the rules mean, independently of the functions
  that carry them out, and `PrologueRows` takes a step out of a function from its call frame program to its caller.
* **Numbers and byte code** (`DwarfMemory`, `DwarfExpression`, `ExpressionTrees`, `ArmUnwind`, `ArmForms`). LEB128 and
  fixed-width numbers, the DWARF expression machine, and the ARM exception handling byte code. `ExpressionTrees` gives the
  opcodes their meaning as arithmetic, and `ArmForms` lists the ARM instructions as the standard writes them.
* **Maps, symbols, memory** (`MapList`, `SymbolSearch`, `SymbolTable`, `PageCache`). Reading the memory maps again while
  keeping the objects of those that stay, the cached symbol search with its remap table, and the page cache.

Code that changes things in place is a class with methods here, each proved against a function of its inputs or old state;
the theorems are lemmas about those functions. The order in which an unordered map is iterated is a parameter. Where the
source departs from its documentation or from the standard, the model follows the code, and lemmas state the exact
condition under which that makes a difference, with an example where one helps:

* a program ending in `DW_CFA_restore_state` can make a reported row start too early (`CfaRows.RangesServeIff`,
  `StepCache.RowsServeIff`; the example is `StepCache.PopRun`);
* the extended offset is not multiplied by the data alignment (`CfaRows.ExtendedOffsetAgrees`; the example is
  `CfaRows.ExtendedOffsetDiffers`);
* map offsets are not compared when the maps are read again (the offset clause of `MapList.LocalUpdatableMaps.Reparse`;
  the example is `MapList.OffsetMoves`);
* failed allocations are all recorded under the null pointer, where each goes on being counted and only the last is tracked
  (`TrackerState.ReinsertAccounts`, `TrackerState.FailedAllocations`);
* sizes of 2^31 and more lose bits in lists (`PeakList.ListedBytesAreTracked`; the example is `PeakList.LargeSizeIsLost`);
* the merged list of a peak can keep duplicates (`PeakList.GroupedIffNothingSplits`, `PeakList.MergedIsUniqueIffGrouped`;
  the example is `PeakList.DuplicatesCanRemain`);
* a cached symbol of 2^32 bytes or more is lost, and a cached empty symbol hides one that ends where it stands. The
  condition in `SymbolSearch.SearchAnswersIff` is exact for an arbitrary cache that agrees with the table, whether or not
  searches lead to it. `SymbolSearch.FirstAnswersIff` has the weaker one that is exact while nothing is cached, and
  `SymbolSearch.LaterSearchGoesWrong` a table that meets the weaker one and on which the second search goes wrong. Other
  examples are `SymbolSearch.AskedAgain` and `SymbolSearch.EmptySymbolHides`;
* an empty function inside another, or before it at its start, makes searches through the remap table lose it
  (`SymbolTable.RemapAnswersIff`, again for arbitrary caches; the example, with nothing cached, is
  `SymbolTable.EmptyFunctionHides`);
* a branch on zero goes backwards, and comparisons ignore signs (`DwarfExpression.BranchOnZero`,
  `DwarfExpression.ComparisonSigns`);
* ten-byte negative SLEB128 numbers need an undefined shift (`DwarfMemory.ShortestSlebRoundTrip`).

## Model

| member | source | states |
|---|---|---|
| JitWriter.StepKeeps | unwindstack/GlobalDebugImpl.h:79-83 | Every step of the writer keeps the list well formed (a chain from newest to oldest, all entries on it live or dying) and moves the world forward: seqlocks only grow, a live incarnation keeps its birth, place and file |
| JitWriter.RunLater | unwindstack/GlobalDebugImpl.h:308-314 | Any later instant of any run is related so to any earlier one |
| JitWriter.RunWellFormed | unwindstack/GlobalDebugImpl.h:206-209 | The list is well formed at every instant of every run |
| JitReader.SeqlockSandwich | unwindstack/GlobalDebugImpl.h:284-316 | A seqlock read equal before and after an instant had that value at the instant |
| JitReader.DebugReader.ReadNextField | unwindstack/GlobalDebugImpl.h:284-316 | On success there is one instant during the call at which the field held the address and the entry there had that even seqlock |
| JitReader.DebugReader.CheckSeqlock | unwindstack/GlobalDebugImpl.h:318-337 | Success means the entry has that seqlock now; a race is reported only for a different one |
| JitReader.StaysLive | unwindstack/GlobalDebugImpl.h:318-319 | An entry whose seqlock is unchanged has been the same live incarnation at every instant between |
| JitReader.ReadsAgree | unwindstack/GlobalDebugImpl.h:240-249 | Two words read before a seqlock check belong to the incarnation that is checked |
| JitReader.LoadAgrees | unwindstack/GlobalDebugImpl.h:251-268 | A file loaded between two checks is the file of that incarnation |
| JitReader.HeadCovers | unwindstack/GlobalDebugImpl.h:226-231 | Nothing on the list when the head is read is newer than the entry it leads to |
| JitReader.StepCovers | unwindstack/GlobalDebugImpl.h:270-279 | Following a pointer goes to a strictly older live entry and skips nothing that is live |
| JitReader.CachedCovers | unwindstack/GlobalDebugImpl.h:235-238 | Stopping at an entry recorded before loses nothing, because that pass recorded all that is older |
| JitReader.WalkGoesOn | unwindstack/GlobalDebugImpl.h:234-279 | One iteration of the walk keeps its invariant and strictly lowers the birth reached, which is why each walk ends while the writer goes on inserting |
| JitReader.DebugReader.Visit | unwindstack/GlobalDebugImpl.h:240-278 | The file and the next entry it returns belong to the incarnation it was asked for |
| JitReader.DebugReader.ReadNewEntries | unwindstack/GlobalDebugImpl.h:224-282 | A successful pass has recorded every loadable entry born before its head read that is still live, and only entries that were live |
| JitReader.CoversHoldsAllThatStay | unwindstack/GlobalDebugImpl.h:205-222 | Being complete up to the head read means holding every entry that stays live from then on |
| JitReader.StableIsSnapshot | unwindstack/GlobalDebugImpl.h:210-221 | A pass that leaves the size of the map unchanged has left the map unchanged, and that is a snapshot |
| JitReader.DebugReader.ReadUntilStable | unwindstack/GlobalDebugImpl.h:205-222 | On success everything in the snapshot was live during the call, with the file it had; everything that stays live from the last head read is in it; on failure the old snapshot stays; it succeeds if nobody writes and no read fails |
| JitReader.DebugReader.ReadAllEntries | unwindstack/GlobalDebugImpl.h:188-201 | The same, over at most 16 attempts. Every attempt but the last one raced; on success the last one succeeded, and on failure it failed for another reason than a race (a read failed, or 16 passes each found something new) or was the sixteenth. If nobody writes and no read fails from any race but the sixteenth on, it succeeds |
| TrackerState.InsertAccounts | backtrace/src/PointerData.cpp:58-66 | Recording an untracked pointer keeps the totals equal to the sums over the tracked pointers |
| TrackerState.EraseAccounts | backtrace/src/PointerData.cpp:128-146 | So does removing a tracked one |
| TrackerState.ReinsertAccounts | backtrace/src/PointerData.cpp:63-66 | Recording a tracked pointer again keeps the totals right if and only if the record it replaces counted no bytes |
| TrackerState.FailedAllocations | backtrace/src/malloc_debug.cpp:129-136 | Failed allocations all go under the null pointer. After any number of them, whatever else is tracked, the totals are the sums over what is tracked if and only if the sizes of all but the last add up to zero modulo the word, which for sizes that fit a word means that they are all 0 |
| TrackerState.AddBacktraceKeepsIndex | backtrace/src/PointerData.cpp:105-126 | Adding a stack keeps stacks and indices mutually inverse, and gives an index that stands for that stack |
| TrackerState.RemoveBacktraceKeepsIndex | backtrace/src/PointerData.cpp:148-170 | So does releasing a stack |
| PeakList.CountRun | backtrace/src/PointerData.cpp:200-232 | Counts the run of entries equal to one and finds the first that differs |
| PeakList.MergeRuns | backtrace/src/PointerData.cpp:195-236 | The in-place merging ends and leaves each run as its first entry with its length |
| PeakList.MergedExpands | backtrace/src/PointerData.cpp:195-236 | Expanding the merged list by its counts gives back size and stack of every allocation, in order |
| PeakList.MergedNeighboursDiffer | backtrace/src/PointerData.cpp:195-236 | No two neighbours agree in size and stack |
| PeakList.MergedKeepsFirst | backtrace/src/PointerData.cpp:200-232 | Each entry of the merged list is the first of its run, but for the count |
| PeakList.MergedConserves | backtrace/src/PointerData.cpp:195-236 | Allocation count and the sum of size times count are preserved |
| PeakList.MergedIsUniqueIffGrouped | backtrace/src/PointerData.cpp:222-235 | No two entries at all agree after merging if and only if equal entries stood together |
| PeakList.GroupedIffNothingSplits | backtrace/src/PointerData.cpp:195-220 | In the order the list is sorted by, equal entries stand together if and only if no tracked pointer splits two others: three pointers in order of address, with stacks, of equal size and depth, of which only the first and last have the same stack |
| PeakList.DuplicatesCanRemain | backtrace/src/PointerData.cpp:195-199 | A list sorted by size that keeps two equal entries apart |
| PeakList.GetList | backtrace/src/PointerData.cpp:172-193 | One line for each tracked pointer with a stack, none other, in the order asked for; the unchecked lookups all hit |
| PeakList.LargestFirst | backtrace/src/PointerData.cpp:197-230 | In the list that is merged larger sizes come first, among equal ones deeper stacks, and among those lower addresses |
| PeakList.GetUniqueList | backtrace/src/PointerData.cpp:195-236 | The merge of the sorted lines, with the totals of what is tracked; free of duplicates if and only if no pointer splits two others |
| PeakList.ListTotals | backtrace/src/PointerData.cpp:172-193 | The list has as many bytes as are listed of the tracked pointers with a stack |
| PeakList.ListedBytesAreTracked | backtrace/include/PointerData.h:71-72 | The bytes listed are the bytes tracked if and only if every size is at most MaxSize |
| PeakList.LargeSizeIsLost | backtrace/include/PointerData.h:71-72 | An allocation of 2^31 bytes is listed with none |
| PointerData.PointerData.AddBacktrace | backtrace/src/PointerData.cpp:82-126 | The method does to the fields what the section does to the record |
| PointerData.StackIsRecordedIff | backtrace/src/PointerData.cpp:81-102 | A stack is recorded if and only if stacks are asked for, the size is one of those asked for, and unwinding gave frames; only an allocation for which unwinding says so is not to be recorded at all |
| PointerData.PointerData.CountBytes | backtrace/src/PointerData.cpp:64-71 | Totals and peaks after adding bytes of a kind |
| PointerData.PointerData.AddPointer | backtrace/src/PointerData.cpp:58-80 | Records the pointer, and at a new overall peak above the threshold replaces the peak list by the merge of the sorted lines of that moment |
| PointerData.PointerData.RemovePointer | backtrace/src/PointerData.cpp:128-146 | Erases the pointer and gives its stack index to be released |
| PointerData.PointerData.RemoveBacktrace | backtrace/src/PointerData.cpp:148-170 | Drops one reference, and the stack with the last |
| PointerData.PointerData.DumpLive | backtrace/src/PointerData.cpp:238-275 | Hands over the peak list or a fresh list, with host and dma bytes that add up to its total; without a recorded peak the lines are in order of time and the totals are those of what is tracked, by the kind of memory |
| TrackerThreads.UnwindKeeps | backtrace/src/PointerData.cpp:50-56 | The first section of Add, by any thread at any time, keeps the invariant |
| TrackerThreads.UnwoundWithoutFrames | backtrace/src/PointerData.cpp:50-57 | An allocation for which unwinding says so leaves no trace; one without a stack goes on under the empty index |
| TrackerThreads.InsertKeeps | backtrace/src/PointerData.cpp:58-80 | So does its second section on an untracked key |
| TrackerThreads.EraseKeeps | backtrace/src/PointerData.cpp:128-146 | So does the first section of Remove |
| TrackerThreads.ReleaseKeeps | backtrace/src/PointerData.cpp:148-170 | So does its second section |
| TrackerThreads.AlwaysInv | backtrace/src/PointerData.cpp:50-170 | In every interleaving of any number of threads: the references of each stack are its tracked pointers plus the threads between two sections, stacks and indices are mutually inverse, every tracked pointer resolves to the stack captured for it, and the totals are the sums |
| TrackerThreads.AlwaysLookupsHit | backtrace/src/PointerData.cpp:176-187 | Hence the unchecked lookups of GetList hit at every moment |
| TrackerThreads.LinesShowAllocations | backtrace/src/PointerData.cpp:172-193 | In every interleaving each line of a dump shows the stack captured when its pointer was allocated, and the size, kind and time of that allocation |
| TrackerThreads.ReinsertKeepsIff | backtrace/src/PointerData.cpp:63 | Adding a tracked key keeps the invariant if and only if the record it replaces holds no stack and no bytes |
| TrackerThreads.PeaksAreMaxima | backtrace/src/PointerData.cpp:64-73 | As long as the totals fit in 64 bits, the peaks at every moment are the running maxima of the totals, and the overall peak is at most the host peak plus the dma peak |
| MallocHooks.AddedIsUntracked | backtrace/src/malloc_debug.cpp:129-205 | In every run, because Remove precedes the system free and Add follows the allocation, no thread comes to record an address that is tracked |
| MallocHooks.StaysSafe | backtrace/src/malloc_debug.cpp:129-205 | Every step of every hook keeps tracked addresses live in the system allocator, or in the hands of the hook that removes them |
| MallocHooks.StepRefines | backtrace/src/malloc_debug.cpp:129-205 | Each step is a step of the interleaved sections, or none |
| MallocHooks.RunRefines | backtrace/src/malloc_debug.cpp:129-205 | Every run of the hooks is a run of the interleaved sections |
| MallocHooks.HooksAccount | backtrace/src/malloc_debug.cpp:129-205 | So over whole runs of the hooks the used, host and dma totals are the sums over what is tracked, and each peak is the running maximum of its total |
| OrderedMap.UpperBound | unwindstack/DwarfSection.cpp:43 | The least key above, or none |
| OrderedMap.LowerNeighbour | unwindstack/Symbols.cpp:63 | The greatest key not above, or none |
| FdeIndex.InsertFde | unwindstack/DwarfSection.cpp:641-656 | For any FDE, overlapping or nested: the pieces stay disjoint and not empty, and exactly the addresses that were free and are covered go to it |
| FdeIndex.BuildFdeMap | unwindstack/DwarfSection.cpp:775-792 | Every address goes to the first FDE in section order that covers it |
| FdeIndex.FirstFdeIsLeast | unwindstack/DwarfSection.cpp:754-773 | The first FDE is the least entry that is reached and covers the address; there is none only if none does |
| FdeIndex.EntryDecides | unwindstack/DwarfSection.cpp:760-773 | Although the index drops the starts of pieces, comparing with the start of the FDE itself gives the right answer |
| FdeIndex.FdeTable.GetFdeFromPc | unwindstack/DwarfSection.cpp:754-773 | Returns the first FDE in section order containing the pc, or none if and only if none does |
| CfaRows.DwarfCfa.GetLocationInfo | unwindstack/DwarfCfa.cpp:43-145 | The loop computes the run of the row machine, stack of remembered states included |
| CfaRows.RuleTouchesTarget | unwindstack/DwarfCfa.cpp:349-541 | An instruction leaves the rules of all registers but its own alone |
| CfaRows.ExtendedOffsetAgrees | unwindstack/DwarfCfa.cpp:349-353 | The extended offset, which is not multiplied, agrees with a multiplied one if and only if the operand times the alignment less one is zero modulo the word, and in 32 bits the sign is clear |
| CfaRows.ExtendedOffsetDiffers | unwindstack/DwarfCfa.cpp:349-353 | An alignment and an operand for which the two put the register in different places |
| CfaRows.RulesCompose | unwindstack/DwarfCfa.cpp:412-441 | Setting the CFA register and then its offset is setting both; negating the sign state twice is doing nothing once it has a rule |
| CfaRows.RunThatStops | unwindstack/DwarfCfa.cpp:57-65 | A lookup returns the machine of the first moment its location passes the pc, or of the end of the program |
| CfaRows.StartAfter | unwindstack/DwarfCfa.cpp:66 | The reported start is the location before the last instruction if and only if that does not restore a state remembered in an earlier row |
| CfaRows.RowIsValid | unwindstack/DwarfCfa.cpp:43-145 | If the location never moves back: the row contains the pc, every pc from its true start to the reported end gets the same rules, and the reported start is never too late and is the true one exactly unless the last instruction pops an earlier row |
| CfaRows.PopIsLast | unwindstack/DwarfCfa.cpp:395-409 | Only a lookup that runs to the end of the program can end in such a pop |
| CfaRows.PopServesIff | unwindstack/DwarfCfa.cpp:401-409 | Every pc that a pop at the end of the program draws into the last row gets the rules of that row if and only if every machine that completes a row after the matching remember has the rules that are restored: what the machine goes through decides what the lookups find |
| CfaRows.RangesServeIff | unwindstack/DwarfCfa.cpp:43-145 | If the location never moves back: every pc in every reported range gets the rules of the range if and only if the rows completed between the remember and a pop at the end of the program all have the rules it restores |
| CfaRows.TrailingPopReachesBack | unwindstack/DwarfCfa.cpp:401-409 | A program for which a reported range contains a pc with other rules |
| CfaRows.RestoreMatchesRemember | unwindstack/DwarfCfa.cpp:395-409 | A restore brings back the rules its remember saved, and the states below, whatever is nested between |
| CfaRows.SameEndSameRow | unwindstack/DwarfSection.cpp:60 | Two lookups of an FDE with the same reported end report the same row |
| CfaMeaning.RuleLeaves | unwindstack/DwarfCfa.cpp:348-537 | For each instruction, what its register has afterwards, with factored offsets as products in signed words; and exactly which instructions are refused |
| CfaMeaning.LastRuleStands | unwindstack/DwarfCfa.cpp:43-145 | The rule that a lookup returns for a register is what the last instruction about it leaves, unless a remembered state has been restored since |
| CfaMeaning.UntouchedRuleStands | unwindstack/DwarfCfa.cpp:43-145 | A register that no instruction is about keeps the rule it started with |
| CfaMeaning.RestoreBringsCieRule | unwindstack/DwarfCfa.cpp:355-370 | After a restore, whatever came before, a lookup returns the rule of the CIE for the register, and none if the CIE has none |
| CfaMeaning.UnmatchedRestore | unwindstack/DwarfCfa.cpp:400-405 | Restoring a state when none is remembered changes neither the rules nor the location |
| CfaMeaning.LookupFailsIff | unwindstack/DwarfCfa.cpp:58-145 | A lookup fails if and only if it gets to an instruction that cannot be carried out, which are listed |
| CfaMeaning.LocationAdvances | unwindstack/DwarfCfa.cpp:342-346 | The location moves by the sum of the deltas times the code alignment, modulo the word |
| CfaMeaning.LocationSet | unwindstack/DwarfCfa.cpp:327-346 | After the last instruction that sets it, the location is what that one says, and the deltas since |
| CfaMeaning.CieRulesComeFirst | unwindstack/DwarfCfa.cpp:45-49 | A lookup starts with the rules of the CIE, and with those already there where it has none |
| StepCache.CieRulesAgree | unwindstack/DwarfSection.cpp:582-592 | The rules of a CIE that moves no location do not depend on the FDE and pc they were computed for |
| StepCache.RowServes | unwindstack/DwarfSection.cpp:43-44 | A row computed for one pc has the rules and the CIE that any other pc in its range would get |
| StepCache.SameKeySameRow | unwindstack/DwarfSection.cpp:60 | Rows with the same end are the same row |
| StepCache.DwarfSection.GetCfaLocationInfo | unwindstack/DwarfSection.cpp:577-598 | With the CIE cached or not, the row is the one computed from nothing |
| StepCache.DwarfSection.FindRow | unwindstack/DwarfSection.cpp:42-61 | After any history of calls the row used has the rules and CIE of a row computed from nothing, and there is none exactly when that fails; insertion never meets another row; cached rows are never replaced; a cached row whose range holds the pc is used |
| StepCache.DwarfSection.Step | unwindstack/DwarfSection.cpp:40-67 | So after any history the registers become the parallel assignment of the rules of a row computed from nothing, and it fails exactly when there is none or it cannot be evaluated |
| PrologueRows.PrologueIs | unwindstack/DwarfSection.cpp:577-600 | The two rows of a function that pushes a register, for any alignment factors: their rules with the offsets multiplied, and where they begin and end |
| PrologueRows.PushIsUndone | unwindstack/DwarfSection.cpp:41-67 | A step from behind the push, in the numbers of x86-64, succeeds and gives the registers the caller has when the call returns, for every memory that holds what was pushed |
| StepCache.RowsServeIff | unwindstack/DwarfSection.cpp:43-44 | If all else is in order, a cached row serves every pc in its range if and only if the pops at the ends of programs are harmless |
| StepCache.AskedAfter | unwindstack/DwarfSection.cpp:40-61 | In any section, asking for a pc and then for another in the range reported for it uses the first row for both |
| StepCache.PopRun | unwindstack/DwarfSection.cpp:40-61 | A run of two calls in which the second gets the wrong rules, because of a trailing pop |
| RegisterEval.RegsInfo.Save | unwindstack/RegsInfo.h:43-52 | From then on Get gives what the register holds now, and for all others what it gave; so overwriting a register saved once does not show |
| RegisterEval.EvalExpression | unwindstack/DwarfSection.cpp:380-411 | The value of an expression is its value on the entry registers |
| RegisterEval.EvalRegister | unwindstack/DwarfSection.cpp:424-481 | One rule has its effect on the entry registers, whatever was overwritten before |
| RegisterEval.Eval | unwindstack/DwarfSection.cpp:483-575 | In any iteration order it succeeds if and only if each rule holds by itself, and then the registers are the parallel assignment of the rules on the entry registers, with pc from the return register and sp from the CFA |
| CallerFrame.CanEvaluateIff | unwindstack/DwarfSection.cpp:424-575 | A frame can be evaluated if and only if there is a CFA and every rule gives its register some value: the bytes of the word can be read, the source register exists, the expression has a value |
| CallerFrame.EvaluatedIsCaller | unwindstack/DwarfSection.cpp:424-575 | The stack pointer becomes the CFA, the pc the return address (stripped if the sign state says so, zero if it is undefined), and every other register the word in memory at the CFA plus its offset, least significant byte first, or the sum, register or value of an expression that its rule says; registers without a rule stay |
| CallerFrame.FrameIsRestored | unwindstack/DwarfSection.cpp:424-575 | If memory holds the registers of the caller at the offsets from the CFA that the rules say, and the others have not been changed, evaluation succeeds and gives exactly those registers |
| CallerFrame.SignStateIs | unwindstack/DwarfSection.cpp:500-552 | The sign state is what its rule says, and clear without one, in any order of evaluation |
| CallerFrame.DexPcIs | unwindstack/DwarfSection.cpp:446-469 | The dex pc is the value of the one expression that is marked as such, and zero without one |
| RegisterEval.OrderDoesNotMatter | unwindstack/DwarfSection.cpp:535-556 | With at most one rule for the dex pc and one for the sign state, those do not depend on the order either |
| RegisterEval.RunKeepsPseudo | unwindstack/DwarfCfa.cpp:524-541 | Over whole runs, the row machine makes pseudo register rules only for the sign state, so that a row has at most one |
| MapList.LocalUpdatableMaps.Reparse | unwindstack/Maps.cpp:167-250 | For sorted lists with distinct starts: the list comes out with the keys that were read, in order, as one doubly linked chain; an old object is reused exactly where an equal map is read; changes are reported if and only if the key lists differ; the offsets are those read if and only if every reused map has the offset read for it; a failed parse leaves list and links as they were |
| MapList.DeviceMapsAreMarked | unwindstack/Maps.cpp:63-68 | A map is marked as one of a device if and only if it was already or its name lies in /dev/ but not in /dev/ashmem/; its other flags stay |
| MapList.OffsetMoves | unwindstack/Maps.cpp:178-206 | A map read again at another offset keeps the old one, and no change is reported |
| MapList.LocalUpdatableMaps.Parse | unwindstack/Maps.cpp:59-73 | Adds a chain of new maps after the old ones, up to where reading fails |
| MapList.LocalUpdatableMaps.CompareOne | unwindstack/Maps.cpp:178-223 | One new map: the equal old one takes its place in the chain, and the old maps passed over, which equal no new one, are dropped |
| MapList.TakePlace | unwindstack/Maps.cpp:189-203 | Putting an object in the place of another keeps the chain doubly linked |
| MapList.MergedIsPresent | unwindstack/Maps.cpp:225-242 | What is left after the merge are the maps of the merged list, each once |
| MapList.OneOrder | unwindstack/Maps.cpp:232-241 | Sorting with the holes last gives that list in only one order |
| MapList.SameKeys | unwindstack/Maps.cpp:244-246 | Nothing dropped and the same length means the same keys, and conversely |
| MapList.LocalUpdatableMaps.Find | unwindstack/Maps.cpp:39-57 | The map containing the pc, or null if none does |
| SymbolSearch.SearchKeepsFaithful | unwindstack/Symbols.cpp:49-84 | For any table, sorted or not, the cache holds only what the table has, so cached indices stay inside it |
| SymbolSearch.SearchIsSound | unwindstack/Symbols.cpp:49-84 | For disjoint symbols below 2^32 bytes in any order, where no empty symbol stands at the end of another, what a search finds covers the address |
| SymbolSearch.SearchAnswers | unwindstack/Symbols.cpp:49-84 | If they are in order, a symbol is found if and only if one covers the address, with its index and offset, for any faithful cache |
| SymbolSearch.SearchAnswersIff | unwindstack/Symbols.cpp:53-84 | For a table in order, searches give the right answer with every cache that agrees with the table, whether or not a history of searches leads to it, if and only if no empty symbol stands where another ends and every size is below 2^32 |
| SymbolSearch.FirstAnswersIff | unwindstack/Symbols.cpp:53-84 | For a table in order, searches with nothing cached all give the right answer if and only if no midpoint on the way to a symbol that is not empty is an empty symbol at its end |
| SymbolSearch.LaterSearchGoesWrong | unwindstack/Symbols.cpp:53-84 | A table for which they do, and two searches of which the second reports the wrong symbol, because bounds from the cache make it take other midpoints |
| SymbolSearch.AskedAgain | unwindstack/Symbols.cpp:53-73 | In any table in order, searching for an address in a symbol with nothing cached finds it, and asking again gives the same answer if and only if the size of that symbol is below 2^32 |
| SymbolSearch.EmptySymbolHides | unwindstack/Symbols.cpp:73 | A table and two searches that bring such a cache about and report the wrong symbol |
| SymbolTable.Symbols.BinarySearch | unwindstack/Symbols.cpp:49-84 | The method computes that search, through the remap table or not, after any history |
| SymbolTable.ReadBatch | unwindstack/Symbols.cpp:97-111 | The symbols that lie whole in one batch, in order |
| SymbolTable.ReadSymbols | unwindstack/Symbols.cpp:89-111 | Every symbol once and in order, wherever batches end, up to the first that cannot be read |
| SymbolTable.Unique | unwindstack/Symbols.cpp:115-117 | Of each run of equal addresses the first is kept |
| SymbolTable.BuildRemapTable | unwindstack/Symbols.cpp:87-119 | The table is strictly increasing by address, with exactly one index, the lowest, for each function address |
| SymbolTable.RemapAnswersIff | unwindstack/Symbols.cpp:87-119 | For a table in any order without overlaps, empty symbols at the ends of others and sizes of 2^32: the remap table has every function that covers anything and searches through it give the right answers with every cache that agrees with it, if and only if no empty function stands inside another or, with a lower index, at its start |
| SymbolTable.EmptyFunctionHides | unwindstack/Symbols.cpp:53-119 | A table whose empty function makes searches through its remap table miss the function around it, with nothing cached |
| SymbolTable.RemapOfLoose | unwindstack/Symbols.cpp:87-119 | If none does, the view through the remap table is in order, and searches through it give the right answers |
| SymbolTable.NamesThrough | unwindstack/Symbols.cpp:121-142 | What is named through the remap table is what the table, in whatever order, names |
| SymbolTable.Symbols.GetName | unwindstack/Symbols.cpp:121-164 | For a table in any order, of disjoint symbols below 2^32 bytes whose empty symbols are not in the way of others: the name is that of the function covering the address, after any lookups, found directly or through the remap table |
| PageCache.PrefixSplits | unwindstack/Memory.cpp:515-521 | A read whose first part succeeds goes on with a read of the rest |
| PageCache.PrefixWithin | unwindstack/Memory.cpp:509-513 | A read inside a readable page is that part of the page |
| PageCache.MemoryCache.CachedRead | unwindstack/Memory.cpp:496-536 | Up to 64 bytes, across pages and with pages of which only part can be read: the same count and bytes as a direct read |
| PageCache.MemoryCache.Read | unwindstack/MemoryCache.h:41-54 | So for any sequence of reads and clears |
| DwarfMemory.UlebRoundTrip | unwindstack/DwarfMemory.cpp:45-58 | Any encoding of at most ten bytes of an unsigned 64-bit number is read back, with the cursor just past it |
| DwarfMemory.SlebRoundTrip | unwindstack/DwarfMemory.cpp:60-77 | So is any encoding of at most nine bytes of a signed number, and of ten when its sign bit is clear |
| DwarfMemory.EncodeUlebEncodes | unwindstack/DwarfMemory.cpp:45-58 | Every number below 2^(7n) has an encoding of at most n bytes |
| DwarfMemory.EncodeSlebLength | unwindstack/DwarfMemory.cpp:60-77 | The shortest signed encoding has at most n bytes if and only if the number fits in 7n bits |
| DwarfMemory.ShortestSlebRoundTrip | unwindstack/DwarfMemory.cpp:72-75 | With masked shift counts, the shortest encoding of a 64-bit number is read back if and only if the number is at least -2^62 |
| DwarfMemory.Cursor.ReadBytes | unwindstack/DwarfMemory.cpp:27-33 | The bytes at the cursor, which moves only on success |
| DwarfMemory.Cursor.ReadULEB128 | unwindstack/DwarfMemory.cpp:45-58 | The loop computes the sum of the groups |
| DwarfMemory.Cursor.ReadSLEB128 | unwindstack/DwarfMemory.cpp:60-77 | The same, sign extended |
| DwarfMemory.Cursor.ReadEncodedValue | unwindstack/DwarfMemory.cpp:147-231 | The fixed widths and variable lengths an expression uses |
| DwarfMemory.NumberElsewhere | unwindstack/DwarfMemory.cpp:147-231 | A number reads the same wherever its bytes stand |
| DwarfMemory.FixedRoundTrip | unwindstack/DwarfMemory.cpp:146-237 | A number written in a fixed width, the least significant byte first, is read back |
| DwarfMemory.SignedRoundTrip | unwindstack/DwarfMemory.cpp:35-42 | So is a signed one, extended to 64 bits |
| DwarfExpression.TableCoversHandlers | unwindstack/DwarfOp.cpp:100-1435 | For every opcode the table checks for as many stack values, and reads as many operands, as its handler touches |
| DwarfExpression.EvalHalts | unwindstack/DwarfOp.cpp:1524-1573 | Whatever the branches do: a program that reaches the end after n decodes succeeds if and only if n is at most 1000, with the machine of that moment |
| DwarfExpression.EvalFinds | unwindstack/DwarfOp.cpp:1524-1573 | And one that succeeds reaches the end after at most 1000 decodes |
| DwarfExpression.DepthIsBounded | unwindstack/DwarfOp.cpp:1576-1609 | The stack is never deeper than the number of decodes |
| DwarfExpression.OperationLaws | unwindstack/DwarfOp.cpp:1696-1821 | Swapping twice, rotating three times, copying and dropping, and adding and subtracting do nothing; negating gives the complement; signed division rounds toward zero |
| DwarfExpression.BitwiseBits | unwindstack/DwarfOp.cpp:1752-1814 | And, or and xor work on each bit by itself |
| DwarfExpression.MeaningComposes | unwindstack/DwarfOp.cpp:1654-1977 | The meaning of two instruction lists after each other is one meaning after the other |
| DwarfExpression.DecodeAssembled | unwindstack/DwarfOp.cpp:1576-1609 | Decoding the bytes of an instruction, wherever they stand, has the effect of the instruction |
| DwarfExpression.EvalMeans | unwindstack/DwarfOp.cpp:1524-1573 | Evaluating the bytes of a list without branches gives its meaning, if it has at most 1000 instructions, and fails otherwise; it is a dex pc exactly if it starts with the marking constant and a drop |
| DwarfExpression.BranchOnZero | unwindstack/DwarfOp.cpp:1859-1872 | A branch on zero goes on with the next operation if and only if its displacement is zero |
| DwarfExpression.ComparisonSigns | unwindstack/DwarfOp.cpp:1881-1907 | Comparing as unsigned agrees with comparing as signed if and only if the signs agree |
| DwarfExpression.DwarfOp.Decode | unwindstack/DwarfOp.cpp:1576-1609 | The method does to the fields what one decode does to the machine |
| DwarfExpression.DwarfOp.Eval | unwindstack/DwarfOp.cpp:1524-1573 | Computes the evaluation with at most 1001 calls of Decode, at most 1000 when it succeeds |
| ExpressionTrees.TreeIsEvaluated | unwindstack/DwarfOp.cpp:1524-1652 | For every tree over constants, registers, memory and the seventeen binary and three unary operations: evaluating the bytes it is written as gives its value as arithmetic on words, and fails if it has none or needs more than 1000 instructions |
| ExpressionTrees.TreeMeans | unwindstack/DwarfOp.cpp:1654-1960 | The bytes of a tree push its value, whatever is below it on the stack |
| ExpressionTrees.SameOperation | unwindstack/DwarfOp.cpp:1742-1914 | What each operation of the machine is as arithmetic, and that it gives a word |
| ExpressionTrees.MarkedIsDexPc | unwindstack/DwarfOp.cpp:1524-1558 | A tree behind the constant DEX1 and a drop has its value, as a dex pc |
| ExpressionTrees.NoValue | unwindstack/DwarfSection.cpp:382-409 | An expression that names a register, and an empty one, have no value |
| ExpressionTrees.StackOpcodes | unwindstack/DwarfOp.cpp:1696-1740 | What duplicating, dropping, copying, swapping, rotating, doing nothing and naming a register leave on the stack, by opcode |
| ExpressionTrees.PickOpcode | unwindstack/DwarfOp.cpp:1714-1724 | Picking copies the value at an index counted from the top, and fails beyond the last |
| ExpressionTrees.RegisterOpcode | unwindstack/DwarfOp.cpp:1930-1944 | Naming a register by a number pushes the number |
| ExpressionTrees.SkipOpcode | unwindstack/DwarfOp.cpp:1916-1921 | A skip moves by its signed displacement from the place after it |
| ExpressionTrees.BranchOpcode | unwindstack/DwarfOp.cpp:1859-1872 | A branch takes the top away and moves by its displacement, backwards if the top is zero |
| ExpressionTrees.RefusedOpcodes | unwindstack/DwarfOp.cpp:1584-1597 | Opcodes that are not implemented are refused, and so are those for which the stack is not deep enough |
| ArmUnwind.MaskRegsAre | unwindstack/ArmExidx.cpp:228-236 | A mask stands for exactly the registers of its set bits, in ascending order |
| ArmUnwind.UlebOfEncoding | unwindstack/ArmExidx.cpp:442-455 | Any LEB128 encoding of at most five bytes is read as the number it encodes, modulo 2^32 |
| ArmUnwind.AdjustRoundTrip | unwindstack/ArmExidx.cpp:442-475 | Every adjustment the byte code can express, written out, is parsed as that adjustment, and nothing after it is touched |
| ArmForms.WrittenIsParsed | unwindstack/ArmExidx.cpp:186-822 | Every instruction that can be written (adjustments, pops by mask, by run and of r0 to r3, setting the stack pointer from a register, the pops of VFP and Wireless MMX registers, the finish code) is parsed as what it stands for, and nothing after it is touched |
| ArmForms.RefusedOrWritten | unwindstack/ArmExidx.cpp:186-822 | There are no others: all other bytes are refused, each with its status |
| ArmForms.UnendedIsRefused | unwindstack/ArmExidx.cpp:442-455 | A number of several bytes that does not end is refused as truncated |
| ArmForms.WrittenIsDecoded | unwindstack/ArmExidx.cpp:186-822 | Decoding an instruction moves the stack pointer, sets it, or pops: the lowest register gets the lowest word, r13 sets the stack pointer, r15 is noted, and the status of a word that cannot be read has its address |
| ArmForms.ProgramOfWritten | unwindstack/ArmExidx.cpp:824-828 | Any list of instructions written out with the finish code behind it is the program of what they stand for |
| ArmUnwind.ParseEncodable | unwindstack/ArmExidx.cpp:186-563 | Every instruction pops existing registers in ascending order |
| ArmUnwind.FinishesIffReached | unwindstack/ArmExidx.cpp:774-828 | Evaluation succeeds if and only if a finish code is reached in opcode position |
| ArmUnwind.EvaluateRunsProgram | unwindstack/ArmExidx.cpp:824-828 | Evaluating bytes is running the instructions they stand for |
| ArmUnwind.FinishedProgramSettles | unwindstack/ArmExidx.cpp:186-828 | For adjustments and pops without r13 the cfa ends at its start plus the sum of the deltas modulo 2^32, and each popped register holds the word of its last slot |
| ArmUnwind.ArmExidx.GetByte | unwindstack/ArmExidx.cpp:176-184 | Takes the first byte, or reports truncation |
| ArmUnwind.ArmExidx.DecodePopMask | unwindstack/ArmExidx.cpp:186-256 | Pops r4 to r15 by mask, with the cfa from r13 and the pc noted |
| ArmUnwind.ArmExidx.DecodeUleb | unwindstack/ArmExidx.cpp:442-475 | The large adjustment |
| ArmUnwind.ArmExidx.Decode | unwindstack/ArmExidx.cpp:774-822 | One instruction: bytes taken, registers, cfa and status |
| ArmUnwind.ArmExidx.Eval | unwindstack/ArmExidx.cpp:824-828 | Ends for every byte queue, and is true exactly when the status is finish |

## Left out

- System calls, ptrace, `/proc`, signals, DMA detection, driver headers, logging and text output: foreign effects, formats and text. The system allocator is its set of live addresses, other processes' memory a map of the bytes that can be read.
- JitReader.DebugReader.ReadAllEntries: descriptors without the Android fields. Without seqlocks entries that are not loaded are not recorded, so a walk of a list that changes under it need not end, and nothing can be promised of it; `ReadNextField` and `CheckSeqlock` cover such descriptors, the walks do not.
- JitReader.DebugReader.ReadUntilStable: the same.
- JitReader.DebugReader.ReadNewEntries: the same.
- JitReader.DebugReader.Visit: the same. Loading a symbol file is one read of the image of its place, and addresses are not cut to the width of a pointer.
- PointerData.PointerData.AddPointer: does not model the mangling of pointers, which is a bijection, nor the text and the split by type of the dumps after merging.
- MallocHooks.HooksAccount: does not cover programs that free or reuse addresses behind the hooks; the reinsertion lemmas state what then happens to the totals and the counts.
- CfaRows.DwarfCfa.GetLocationInfo: programs are sequences of decoded instructions; a read failure inside a program is an illegal instruction. Decoding of operands is `DwarfMemory`.
- StepCache.DwarfSection.FindRow: nothing is promised about rules when FDEs overlap, a program leaves its FDE or moves back, or a CIE moves the location or leaves remembered states; the end of a remembered range is not kept, as nothing reads it. Reading CIE and FDE headers is not modelled.
- RegisterEval.RegsInfo.Save: the bit map of saved registers is the set of its bits, so that the 64-bit word is not modelled.
- MapList.LocalUpdatableMaps.Reparse: weak references are plain ones; no link of the result leaves the list, so none of them can have expired. Offsets are not compared, as in the source. The read-write lock is not modelled.
- SymbolTable.Symbols.GetName: overlapping symbols that are not empty, which have no one right answer; the bytes of a symbol and its name string are what the layout says they are; addresses of table entries do not wrap. Fewer than 2^32 symbols.
- SymbolTable.BuildRemapTable: entries smaller than a symbol, or symbols larger than the buffer, are not modelled.
- PageCache.MemoryCache.CachedRead: nothing is promised for ranges that wrap around 2^64. The per-thread variant differs only in where the map is kept.
- DwarfMemory.Cursor.ReadEncodedValue: relative and aligned pointer encodings, which expressions do not use. The memory read is one block of bytes.
- DwarfExpression.EvalMeans: programs with branches have no list meaning; for them the decode-by-decode results hold. What C++ leaves undefined (shifts by the width and more, negating or dividing the smallest number) is an arbitrary value.
- ArmUnwind.FinishedProgramSettles: pops that include r13 and moves from a register have no closed form over a whole program; `ArmForms.WrittenIsDecoded` says what each of them does. Shifting a group past 32 bits is an arbitrary value; lookups in the exception index are not modelled.
- The outer unwinding loop, the thread handshake, plain binary searches over offsets, ELF parsing, dex files and demangling: shallow next to the above, or foreign.
