# Virtual-memory simulator: address translation and page replacement

This project models the engine of a virtual-memory simulator, the state held by
the `useSimulation` hook, in Dafny. Each virtual address is processed the same
way:

- The logical clock advances.
- The address is split into a page number and an offset.
- The bounded TLB is searched for the page. On a TLB miss the page table is
  consulted.
- On a page fault, the page goes into the lowest free frame. When every frame
  is in use, it replaces a victim chosen by FIFO, LRU, MRU or OPTIMAL.
- The four counters are updated, and one of three phase traces is recorded.

The project is organised as follows:

- **AddressSpace** (`address_space.dfy`): the five configuration constants,
  the page/offset split, the physical address, and the filter applied to an
  uploaded address file.
- **Replacement** (`replacement.dfy`): frames and the victim scans of the four
  policies.
- **TlbCache** (`tlb_cache.dfy`): TLB lookup, filtering and refill.
- **Engine** (`engine.dfy`): one translation as a function over an explicit
  `State`, with the invariants every reachable state keeps.
- **Timeline** (`timeline.dfy`): navigation through the recorded phases.
- **Simulator** (`simulator.dfy`): the hook as a class. Its fields are the
  hook's state slots, and its methods are proved against Engine. The hook
  replaces each slot with an updated copy (it copies the array, changes one
  element and stores the copy). So the page table, the frames and the TLB are
  `seq` fields that the methods reassign.
- **StaleTlb** (`stale_tlb.dfy`): a concrete run that exhibits the first
  finding below.

The Simulator class follows the corrected engine (`Engine.Step`): on
replacement it drops the victim page's TLB entry. The code as written is
`Engine.StepAsWritten`, and the difference is the first row of "## Findings".

## Model

| member | source | states |
|---|---|---|
| AddressSpace.SplitAddress | src/hooks/useSimulation.js:69-70 | `PageOf` and `OffsetOf`: a valid address splits into a page below NUM_PAGES and an offset below PAGE_SIZE with page * PAGE_SIZE + offset == address |
| AddressSpace.PhysicalAddressInFrame | src/hooks/useSimulation.js:102 | `PhysicalAddress`: when FRAME_SIZE >= PAGE_SIZE the physical address lies inside its frame and below NUM_FRAMES * FRAME_SIZE |
| AddressSpace.PhysicalAddressInjective | src/hooks/useSimulation.js:131 | under the same condition, distinct (frame, offset) pairs never share a physical address |
| AddressSpace.FilterAddresses | src/hooks/useSimulation.js:292-296 | the upload filter keeps exactly the parsed numbers in [0, PAGE_SIZE * NUM_PAGES), never more entries than lines |
| AddressSpace.FilterAddressesAppend | src/hooks/useSimulation.js:292-296 | the filter keeps file order: filtering a concatenation concatenates the filtered parts |
| Replacement.FirstFree | src/hooks/useSimulation.js:165 | -1 exactly when every frame is used; otherwise a free frame with every lower frame used |
| Replacement.OldestScan | src/hooks/useSimulation.js:186-197 | the FIFO/LRU reduce returns the lowest index among those with the minimal lastUsed |
| Replacement.NewestScan | src/hooks/useSimulation.js:200-204 | the MRU reduce returns the lowest index among those with the maximal lastUsed |
| Replacement.FirstReference | src/hooks/useSimulation.js:213-215 | -1 exactly when no lookahead address is on the page; otherwise the first such position |
| Replacement.Distance | src/hooks/useSimulation.js:213-218 | a page never referenced in the lookahead gets MAX_SAFE_INTEGER; a referenced page gets the position of its first reference |
| Replacement.AccessTimes | src/hooks/useSimulation.js:207-220 | plumbing for OPTIMAL: keys are exactly the frames whose page is not -1, each mapped to the page's next-reference distance; what a distance means comes from FirstReference's contract |
| Replacement.FarthestScan | src/hooks/useSimulation.js:222-226 | the reduce over ascending keys returns a key with the largest time, the lowest such key, or -1 when there is no key |
| Replacement.Victim | src/hooks/useSimulation.js:184-230 | a valid frame; FIFO/LRU the lowest index of minimal lastUsed, MRU the lowest of maximal lastUsed, OPTIMAL the lowest resident frame of largest distance, any other selector frame 0 |
| Replacement.OptimalPrefersUnreferenced | src/hooks/useSimulation.js:216-226 | when some resident page is never referenced again, OPTIMAL evicts a page that is never referenced again |
| Replacement.FirstReferenceAfterHead | src/hooks/useSimulation.js:207 | prepending an address on another page shifts a next reference by one and keeps "never" as "never" |
| Replacement.FarthestScanKeepsOrder | src/hooks/useSimulation.js:222-226 | the scan depends only on the keys and on how the times compare |
| Replacement.DistanceOrderIgnoresHead | src/hooks/useSimulation.js:207 | prepending the faulting address keeps the strict order of any two distances |
| Replacement.AccessTimesIgnoreHead | src/hooks/useSimulation.js:207-226 | OPTIMAL picks the same frame whether or not the stale lookahead still starts with the faulting address |
| Replacement.VictimIgnoresHead | src/hooks/useSimulation.js:207 | the same for the victim of every policy |
| TlbCache.Find | src/hooks/useSimulation.js:82-86 | -1 exactly when no entry has the page; otherwise the first entry with it |
| TlbCache.UniquePagesAt | src/hooks/useSimulation.js:255-268 | in a TLB without duplicates, no two positions hold the same page |
| TlbCache.UniquePagesAppend | src/hooks/useSimulation.js:266 | pushing an entry for a page not yet present keeps the pages unique |
| TlbCache.SubsequenceTail | src/hooks/useSimulation.js:264 | dropping the first element of a subsequence leaves a subsequence |
| TlbCache.SubsequenceOfTail | src/hooks/useSimulation.js:257 | a subsequence of the tail is a subsequence of the whole list |
| TlbCache.RemovePage | src/hooks/useSimulation.js:257 | the filter keeps exactly the entries of other pages, in their order, and keeps pages unique |
| TlbCache.RemovePageCounts | src/hooks/useSimulation.js:257 | on any list, duplicates included, the filter keeps every copy of an entry of another page and no copy of an entry of the page |
| TlbCache.Insert | src/hooks/useSimulation.js:255-268 | the new entry is last; the others are the filtered list, minus its first entry exactly when that list is at TLB_SIZE; the length stays within TLB_SIZE; pages stay unique; order is kept |
| TlbCache.FindAfterInsert | src/hooks/useSimulation.js:255-268 | after the refill, lookup finds the page at the last position |
| Engine.Touch | src/hooks/useSimulation.js:270-277 | only the given frame changes, and only its lastUsed |
| Engine.ChooseFrame | src/hooks/useSimulation.js:164-230 | plumbing: the free frame when there is one, otherwise the policy's victim; what either means comes from the FirstFree and Victim contracts |
| Engine.Install | src/hooks/useSimulation.js:167-247 | with a free frame, map the page to it with nothing evicted; otherwise unmap the victim's page and map the page; only that frame changes; it now holds the page with the clock |
| Engine.HandleFault | src/hooks/useSimulation.js:164-253 | the page table keeps its size and range; the frames stay well formed under the new stamp; the chosen frame is ChooseFrame's, and the new tables are Install's for that frame |
| Engine.FaultKeepsTablesAgree | src/hooks/useSimulation.js:232-247 | a fault keeps the page table and the frames describing the same mapping, unmaps only the evicted page and maps only the new one |
| Engine.HitPath | src/hooks/useSimulation.js:84-106 | the TLB-hit path leaves a well-formed state with the clock advanced by one and a valid frame |
| Engine.TableHitPath | src/hooks/useSimulation.js:118-135 | the same for the page-table-hit path |
| Engine.FaultTlb | src/hooks/useSimulation.js:146-149 | the refilled TLB is within capacity, unique by page, with valid entries |
| Engine.FaultPath | src/hooks/useSimulation.js:136-157 | the same for the fault path |
| Engine.CountHit | src/hooks/useSimulation.js:91-95 | one more address and one more TLB hit, the other counters unchanged; totalAddresses == tlbHits + tlbMisses is kept |
| Engine.CountMiss | src/hooks/useSimulation.js:110-114 | one more address and one more TLB miss, the other counters unchanged; totalAddresses == tlbHits + tlbMisses is kept |
| Engine.CountFault | src/hooks/useSimulation.js:139-142 | one more page fault, the other counters unchanged |
| Engine.TranslatePage | src/hooks/useSimulation.js:81-159 | every translation leaves a well-formed state with the clock advanced by one and a valid frame |
| Engine.StepWith | src/hooks/useSimulation.js:65-162 | on all three paths the physical address is frame * FRAME_SIZE + address % PAGE_SIZE |
| Engine.Step | src/hooks/useSimulation.js:65-162 | the corrected engine, which the Simulator class follows: the physical address is `PhysicalAddress` of the frame, so the AddressSpace lemmas apply to it; a state satisfying the invariant steps to one that satisfies it |
| Engine.StepAsWritten | src/hooks/useSimulation.js:65-162 | the code as written: the physical address is `PhysicalAddress` of the frame; the page table and the frames stay in agreement (the TLB need not, see "## Findings") |
| Engine.TracesDiffer | src/hooks/useSimulation.js:81-150 | the three phase traces are pairwise distinct |
| Engine.TraceShape | src/hooks/useSimulation.js:81-150 | the trace is the hit trace exactly when the page is in the TLB, the page-table trace exactly when it is not but is mapped, the fault trace exactly when it is neither |
| Engine.CountersBalance | src/hooks/useSimulation.js:91-142 | each translation adds one address and exactly one hit or miss; faults grow by one on the fault path only; totalAddresses == tlbHits + tlbMisses and pageFaults <= tlbMisses are kept |
| Engine.TlbHitOnlyRestamps | src/hooks/useSimulation.js:82-100 | a TLB hit changes neither the TLB nor the page table; only the hit frame's lastUsed is restamped |
| Engine.RepeatIsTlbHit | src/hooks/useSimulation.js:82-149 | after any translation the page is in the TLB, so translating it again at once is a TLB hit |
| Engine.KeepsTablesAgree | src/hooks/useSimulation.js:164-277 | every translation keeps the page table and the frames in agreement |
| Engine.TouchKeepsTablesAgree | src/hooks/useSimulation.js:270-277 | restamping a frame moves no mapping |
| Engine.FaultTlbAgrees | src/hooks/useSimulation.js:232-266 | with the victim's entry dropped, every TLB entry after a fault repeats the new page table |
| Engine.KeepsTlbAgrees | src/hooks/useSimulation.js:82-149 | with invalidation every translation keeps each TLB entry equal to the page table's mapping |
| Engine.TableHitKeepsTlbAgrees | src/hooks/useSimulation.js:126 | the page-table-hit refill keeps TLB and page table agreeing |
| Engine.FaultPathKeepsTlbAgrees | src/hooks/useSimulation.js:146-149 | the fault-path refill, with invalidation, keeps TLB and page table agreeing |
| Engine.TranslatesToResidentFrame | src/hooks/useSimulation.js:82-157 | with invalidation the translated frame holds the page and the page table maps the page to it |
| Engine.HitPathResident | src/hooks/useSimulation.js:82-88 | a TLB hit's frame holds the page |
| Engine.FaultPathResident | src/hooks/useSimulation.js:146-149 | the frame a fault fills holds the page and is mapped to it |
| Engine.KeepsInvariant | src/hooks/useSimulation.js:65-162 | well-formedness, table agreement, TLB agreement and balanced counters are kept by every translation |
| Engine.StampsNewest | src/hooks/useSimulation.js:270-277 | the touched frame carries the clock, strictly newer than every other frame; MRU would evict it next, and with two or more frames FIFO/LRU would not |
| Engine.IgnoresStaleHead | src/hooks/useSimulation.js:56-63 | translating with the stale queue (the current address still at its head) gives the same result as with the queue after removal |
| Engine.InitialInvariant | src/hooks/useSimulation.js:6-19 | the initial state satisfies the invariant |
| Engine.Initial | src/hooks/useSimulation.js:309-329 | the reset state: every page unmapped, TLB empty, every frame free, counters zero and balanced, clock 0 |
| Engine.RunWith | src/hooks/useSimulation.js:38-63 | processing a queue keeps the state well formed and advances the clock by its length |
| Engine.RunKeepsInvariant | src/hooks/useSimulation.js:56-63 | every state reached by processing a queue satisfies the invariant, and every address is counted once |
| Timeline.NavigateAsWritten | src/hooks/useSimulation.js:399-409 | 'next' moves forward one and every other argument back one, when the target is a recorded phase; otherwise the index stays |
| Timeline.Navigate | src/hooks/useSimulation.js:399-409 | the corrected navigation: the arrows move one phase when the target is a recorded phase and otherwise leave the index; a click on an existing phase moves there, a click elsewhere changes nothing |
| Timeline.ArrowsAgree | src/hooks/useSimulation.js:402 | on 'next' and 'prev' both versions agree |
| Timeline.NavigateKeepsRange | src/hooks/useSimulation.js:403-407 | an index in [-1, |steps|) stays in that range |
| Timeline.JumpMovesBackAsWritten | src/hooks/useSimulation.js:402 | a click on phase 3 while phase 2 is shown moves to phase 1 as written and to phase 3 as corrected |
| Simulator.Simulator.constructor | src/hooks/useSimulation.js:6-34 | the hook's initial state: every page unmapped, empty TLB, free frames, zero counters and clock, FIFO, empty queue and timeline |
| Simulator.Simulator.Reset | src/hooks/useSimulation.js:309-338 | clock 0, every page -1, empty TLB, every frame free, counters 0, the queue the given addresses, the timeline empty at -1, the invariant holds |
| Simulator.Simulator.SetAlgorithm | src/hooks/useSimulation.js:13 | the selector takes the given policy |
| Simulator.Simulator.FindFreeFrame | src/hooks/useSimulation.js:165 | the loop returns the lowest free frame or -1 |
| Simulator.Simulator.LookupTlb | src/hooks/useSimulation.js:82-86 | the loop returns the index of the page's first entry or -1 |
| Simulator.Simulator.UpdateMemoryUsage | src/hooks/useSimulation.js:270-277 | the frames become Touch of the old frames with the clock |
| Simulator.Simulator.UpdateTlb | src/hooks/useSimulation.js:255-268 | the TLB becomes Insert of the old TLB with the new entry stamped with the clock |
| Simulator.Simulator.InvalidateTlb | src/hooks/useSimulation.js:232-247 | the correction of the first row of "## Findings" (the hook has no such step): the evicted page's TLB entry is removed, every other entry is kept in order |
| Simulator.Simulator.HandlePageFault | src/hooks/useSimulation.js:164-253 | page table, frames, chosen frame and evicted page are those of Engine.HandleFault |
| Simulator.Simulator.RefillTlb | src/hooks/useSimulation.js:146-149 | drop the evicted page's entry when a page was evicted, then insert the new mapping |
| Simulator.Simulator.TlbHitHere | src/hooks/useSimulation.js:87-99 | count the hit and restamp the entry's frame, nothing else |
| Simulator.Simulator.TableHitHere | src/hooks/useSimulation.js:118-129 | refill the TLB with the page table's frame and restamp it |
| Simulator.Simulator.FaultHere | src/hooks/useSimulation.js:137-149 | count the fault, handle it, refill the TLB with the victim's entry dropped |
| Simulator.Simulator.HitCase | src/hooks/useSimulation.js:81-106 | the TLB-hit branch yields Engine.TranslatePage's state, frame and trace |
| Simulator.Simulator.TableHitCase | src/hooks/useSimulation.js:107-135 | the page-table-hit branch yields Engine.TranslatePage's state, frame and trace |
| Simulator.Simulator.FaultCase | src/hooks/useSimulation.js:136-158 | the fault branch yields Engine.TranslatePage's state, frame and trace |
| Simulator.Simulator.TranslatePageHere | src/hooks/useSimulation.js:81-159 | the three branches together yield Engine.TranslatePage's state, frame and non-empty trace |
| Simulator.Simulator.TranslateAddress | src/hooks/useSimulation.js:65-162 | the new state, physical address and timeline are Engine.Step's; the timeline index is 0 when a previous timeline existed, else the last phase; the invariant is kept |
| Simulator.Simulator.ProcessNextAddress | src/hooks/useSimulation.js:56-63 | an empty queue changes nothing; otherwise the head is removed and translated with the queue before removal as lookahead, as Engine.Step; the timeline index is 0 when a previous timeline existed, else the last phase |
| Simulator.Simulator.LoadAddresses | src/hooks/useSimulation.js:292-304 | returns how many addresses the filter keeps; when any, the state is reset and the queue is exactly the filtered addresses; the timeline is cleared to index -1 and the algorithm kept; when none, the state, the queue and the timeline are unchanged |
| Simulator.Simulator.NavigateTimeline | src/hooks/useSimulation.js:399-409 | the index becomes Timeline.Navigate of the old index and stays in range |
| StaleTlb.PrefixRun | src/hooks/useSimulation.js:65-253 | with two frames, a two-entry TLB and LRU, the accesses 0, 16, 0, 32 lead to the stated state for either version |
| StaleTlb.StaleEntryHits | src/hooks/useSimulation.js:232-266 | after that run page 1 is unmapped and frame 1 holds page 2; the access 16 is then a TLB hit on frame 1 as written, and a page fault with invalidation |

## Left out

- The auto-run effect (`setTimeout`, src/hooks/useSimulation.js:38-50): it only paces the run. `Engine.RunWith` models the run as the repeated translation of the queue.
- The timeline animation (`setInterval`, src/hooks/useSimulation.js:384-394) is not modelled. Only its first effect is: the reset of the index at :381-382, which `TranslateAddress` models. The interval callback closes over the previous render's `timelineSteps`. While running, it advances `currentTimelineIndex` up to that older trace's length - 1 and shows that trace's phases. For example, a 4-phase fault trace followed by a 3-phase hit trace can leave index 3 on a 3-phase timeline. That index is outside the range `Simulator.Simulator.Valid` keeps.
- The random memory value shown after each access, `generateTestAddresses`, and the log with its `Date.now` stamps. They are random or wall-clock inputs with no effect on translation.
- The file-reading side of upload (`FileReader`, `split`, `trim`, `parseInt`). The filter is modelled over already-parsed lines (`Parsed`), with `NaN` for a line that does not parse.
- Theme switching, the export utilities and every rendering component. None of them holds translation or replacement logic.
- React batching and stale closures in general. One translation is one atomic step over an explicit state, and counter updates are applied in source order. Two stale reads are modelled. OPTIMAL reads the queue before removal; `Engine.IgnoresStaleHead` shows this is harmless. The `timelineSteps.length > 0` test at src/hooks/useSimulation.js:381 reads the previous translation's timeline; `Simulator.Simulator.TranslateAddress` models it as index 0 when a previous timeline existed.
- Simulator.Simulator.TranslateAddress: requires an address in [0, PAGE_SIZE * NUM_PAGES). The hook does not check this itself. Every address it is given comes from the upload filter or the generator, both of which guarantee the range.
- Out-of-range addresses: `simulateAddressTranslation` (src/hooks/useSimulation.js:65-80) never range-checks and has no error path. Its addresses come only from the upload filter (:292-296) and the generator, which pass in-range addresses. So `Engine.StepWith` requires `c.ValidAddress(va)`.
- Display slots and the run flag: `currentAddress`, `currentStep`, `activePage`, `activeFrame` and `activeTlbIndex` only drive the rendering. `isRunning` gates the auto-run effect (src/hooks/useSimulation.js:40-44) and the timeline animation (:383). `toggleSimulation` flips it (:358), and the auto-run effect at the end of the queue (:44-45), `stepSimulation` (:368-370) and `navigateTimeline` (:400) clear it. None of them feeds back into translation.
- Simulator.Simulator.InvalidateTlb: follows the correction in the first row of "## Findings". The hook never removes an evicted page's TLB entry.
- Simulator.Simulator.RefillTlb: follows the same correction. It drops the evicted page's entry before the refill that src/hooks/useSimulation.js:149 performs. The as-written refill is `Engine.FaultTlb` with `invalidate` false.
- Simulator.Simulator.FaultHere: follows the same correction, through `RefillTlb`. The as-written fault path is `Engine.StepAsWritten`.
- Simulator.Simulator.NavigateTimeline: follows the correction in the second row of "## Findings". A clicked index moves to that phase, where src/hooks/useSimulation.js:402 moves back one. The as-written navigation is `Timeline.NavigateAsWritten`.
- OPTIMAL's `Object.keys` strings: the keys are modelled as integers, visited in ascending order, which is the order JavaScript enumerates integer-like keys.
- Integer widths: the counters and the clock are unbounded naturals. The JavaScript numbers would lose precision only beyond 2^53 accesses.
- Engine.IgnoresStaleHead: assumes a queue shorter than MAX_SAFE_INTEGER - 1. Otherwise a shifted distance could reach the sentinel.
- The configuration values themselves: the file defining them is not part of this model. They are parameters, required to be positive (`Config.Valid`).

## Findings

| source | as written | input that shows it | evidently intended | confidence | as-written member | corrected member |
|---|---|---|---|---|---|---|
| src/hooks/useSimulation.js:232-247 | on replacement the victim's page is unmapped, but its TLB entry is kept | PAGE_SIZE 16, 4 pages, 2 frames, FRAME_SIZE 16, TLB 2, LRU; addresses 0, 16, 0, 32, then 16: the last access is a TLB hit on frame 1, which now holds page 2 | an evicted page's TLB entry is dropped, so every TLB entry repeats the page table | high (not executed) | StaleTlb.StaleEntryHits | Engine.KeepsTlbAgrees |
| src/hooks/useSimulation.js:402 | any argument other than 'next' moves back one; the phase buttons (src/components/simulator/Timeline.jsx:31, src/components/simulator/Controls.jsx:307) pass the clicked index, so a click moves back one | 4 phases, phase 2 shown, a click on phase 3: the index becomes 1 | a click moves to the clicked phase | high (not executed) | Timeline.JumpMovesBackAsWritten | Timeline.Navigate |
