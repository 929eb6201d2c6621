# Verification of the Sapote boot kernel's core

This project models the parts of the Sapote kernel where a mistake would be
silent: the Boot Ledger that plans, runs and audits the boot, the kernel heap,
the firmware table readers, DMA ownership, the APIC timer's two modes, the
framebuffer, the private filesystem read session and the boot logo's codec. The
models are Dafny 4.11; `dafny verify dfyconfig.toml` checks the whole project.

How the files divide:

- **Boot Ledger.** `Scheduling` is the graph theory of the planner, `PlanRules`
  the refusals and what they mean, `PlanDiagnosis` that each is true of the plan or
  record it names, `Planner` the planner's loops, `PlanEquivalence` and `Fingerprint`
  independence from declaration order, `FingerprintWords` what a fingerprint
  distinguishes.
  `Execution` is the executor as a function of what the stage bodies return,
  `ExecutionProofs` what every run keeps, `RunMeaning` why a run stopped, `ReceiptAudit` the verifier and its
  agreement with the executor, `LedgerLoops` and `BootLedger` the mutable ledger.
- **Heap.** `HeapTable` and `HeapRuns` treat the heap as a value, over single
  calls and over whole runs, `HeapAnswers` says when each call answers what and
  `HeapTally` what the statistics count; `BlockArray` edits the table in place; `PageTables`
  is the theory of the interior tables, `HeapPages` the page window with its tables
  and frames, `KernelHeap` the heap object and its audit.
- **Firmware tables.** `FirmwareBytes`, `Madt`, `MadtMeaning`, `MadtRoundTrip`,
  `MadtDiscovery` and `MadtFixture` are the MADT reader and the table builder it undoes (ACPI 6.6
  section 5.2.12); `RootTable` and `ConfigWindows` are table lookup and the
  MCFG windows (PCI Firmware Specification 3.3 section 4.1.2).
- **Logo.** `RunLength` is the build-time encoder, `LogoDecoder` the kernel's decoder,
  `PixelPacking` the blended word it writes.
- **DMA.** `DmaTable` and `DmaRuns` are the ownership machine, `DmaService` the
  service with its handle objects.
- **Timer.** `TimerMath` is the 64-bit arithmetic, `TimerModes` the mode machine and driver.
- **Framebuffer.** `Screen`. **Filesystem.** `SessionStates` and `PrivateRead`.
- `Seqs` and `Architecture` hold what the others share.

Code that updates state in place is a class or an array method here, proved
against a function of the old state; what the system promises is then proved of
that function. Hardware, callers and code outside the modelled files are
parameters: stage bodies, the choice of frames and what paging refuses, the
NVMe controller's reads, the FAT16 parsers, timer interrupts and the calls an
expiry handler makes. The theorems hold for all of their values.

## Where the code and its promise part

- **Heap statistics.** When growth appends the 256th block and the split is then
  refused, `heap_allocate` answers OUT_OF_BLOCKS with a grown table and a stale
  block count, and `heap_verify` reports a validation failure until the next
  successful call (`src/kernel/heap.c:381-390`). `HeapStale.StaleIsReachable`
  gives the run, `KernelHeap.StaleExactlyThen` and
  `KernelHeap.KernelHeap.AuditAfterAllocate` the exact condition, and
  `KernelHeap.StaleUntilSuccess` says how long it lasts.
- **Heap audit.** `validate_table` promises an exact tiling, but adds sizes up in
  64 bits (`src/kernel/heap.c:156-187`): `HeapTable.WrapIsAccepted` and
  `KernelHeap.KernelHeap.WrapIsAudited` are inputs that pass,
  `HeapTable.AcceptsExactly` and `KernelHeap.KernelHeap.AuditExactly` the exact
  condition. No run of the heap reaches such a table (`HeapRuns.RunKeeps`).
- **Growth's trace.** `commit_pages` says that failed growth leaves no trace, and
  `map_range` that running out of table frames is rolled back. The pages are, but the
  roll-back skips the page that failed, so its interior tables stay
  (`src/kernel/paging.c:788-797, 991-996`), and a roll-back that passes below such an
  empty table gives it back. `HeapPages.TableKept` and `HeapPages.EmptyTableSwept`
  are the two traces, `HeapPages.NoTrace` and `HeapPages.KeptExactly` the exact
  condition, `HeapPages.TidyTrace` its short form where no table is empty.
- **DMA audit.** `dma_verify` asks that a record's handle is genuine for some
  record, not for that one (`src/kernel/dma.c:346-349`). Reusing a registered
  handle in a successful `dma_allocate` orphans the older record unseen:
  `DmaService.ReuseOneHandle` is the run, and `DmaService.Service.AuditMeaning`
  the exact gap.
- **One-shot intervals.** The comment above `count_for_nanoseconds` says neither
  half can overflow; calibration does not guarantee it.
  `TimerMath.CountExactly` is the exact condition, `FastRateWraps` and
  `CalibrationAllowsWrap` the inputs.
- **Failed teardown.** `private_read_cleanup` says it retains the retry token, but
  an open that fails to tear down has already wiped the caller's token
  (`src/kernel/filesystem.c:1171, 1288-1293`):
  `PrivateRead.StrandedAfterFailedTeardown`, with its exact condition.
- **Logo buffer.** The decoder's comment asks for a buffer of exactly the picture's
  size; the code accepts a larger one, and so does the model, which proves the
  rest untouched.

## Model

| member | source | states |
|---|---|---|
| `Scheduling.GreedyIsLeast` | src/kernel/boot_ledger.c:645-701 | a complete greedy order is a schedule, and every other schedule first differs from it at a stage with a larger (phase, id) key: it is the lexicographically least |
| `Scheduling.GreedyUnique` | src/kernel/boot_ledger.c:645-701 | two complete greedy orders of one dependency graph are the same order |
| `Scheduling.StuckShortIffCyclic` | src/kernel/boot_ledger.c:679-694 | selection stops before every stage is placed exactly when the provider graph has a cycle, self-loops included |
| `Scheduling.StuckMeansDoomed` | src/kernel/boot_ledger.c:679-688 | when selection stops, an unplaced stage is one whose dependencies lead into a cycle, and the other way round |
| `Scheduling.ScheduleIffAcyclic` | src/kernel/boot_ledger.c:645-701 | some legal order exists exactly when the graph has no cycle |
| `Scheduling.GreedySortsPhases` | src/kernel/boot_ledger.c:645-722 | if each single edge respects phases, the whole greedy order is non-decreasing in phase |
| `Scheduling.RelistedGreedy` | src/kernel/boot_ledger.c:645-701 | renaming the stages of a graph carries its greedy order over |
| `Scheduling.RelistedCyclic` | src/kernel/boot_ledger.c:679-694 | renaming the stages of a graph keeps whether it is cyclic |
| `PlanRules.StaticFaultMeaning` | src/kernel/boot_ledger.c:472-643 | the checks before ordering refuse nothing exactly for plans that are well declared, have distinct ids, exclusive providers, provided requirements and honoured irreversible classes |
| `PlanDiagnosis.StaticFaultTrue` | src/kernel/boot_ledger.c:472-643 | whatever a plan is refused for before ordering is true of it: the named stage and capability are at fault in the way the status says |
| `PlanDiagnosis.PhaseTrue` | src/kernel/boot_ledger.c:703-722 | a phase refusal names a stage that requires, by the named capability, an outcome of a later phase |
| `PlanDiagnosis.PassesExactly` | src/kernel/boot_ledger.c:472-722 | a plan passes every check but the search for a cycle exactly when no refusal at all is true of it |
| `PlanRules.PhaseMeaning` | src/kernel/boot_ledger.c:703-722 | the single-edge phase check refuses nothing exactly when no stage depends on a later phase |
| `PlanRules.ProviderUnique` | src/kernel/boot_ledger.c:578-597 | in a plan with exclusive providers the recorded provider of a capability is the one stage that declares it |
| `PlanRules.DescriptorFaultMeaning` | src/kernel/boot_ledger.c:490-598 | what one descriptor must satisfy, given the descriptors before it, to be refused by none of the declaration checks |
| `PlanRules.GraphWellFormed` | src/kernel/boot_ledger.c:657-665 | the dependency graph of a statically legal plan has distinct keys and edges inside the plan |
| `Planner.CheckRequirements` | src/kernel/boot_ledger.c:537-557 | the requirement loop reports the first unknown or repeated requirement, if any |
| `Planner.ClaimOutcomes` | src/kernel/boot_ledger.c:559-597 | the provider table stays the first-provider table while outcomes are claimed, and the reported refusal is the first clash |
| `Planner.CheckDeclarations` | src/kernel/boot_ledger.c:484-598 | all descriptors: the first refusal, or a provider table for the whole plan |
| `Planner.CheckProviders` | src/kernel/boot_ledger.c:600-618 | the first requirement without a provider |
| `Planner.CheckClasses` | src/kernel/boot_ledger.c:620-643 | the first irreversible stage whose mandatory prerequisite is not required, not provided, or provided in a later phase |
| `Planner.IrreversibleRequirementAt` | src/kernel/boot_ledger.c:350-416 | the k-th mandatory prerequisite of an irreversible class, or that there is none |
| `Planner.CheckPhases` | src/kernel/boot_ledger.c:703-722 | the first edge into a later phase |
| `Planner.SelectReady` | src/kernel/boot_ledger.c:646-677 | the stage with the least (phase, id) among the ready ones, or that none is ready |
| `Planner.LowestUnplanned` | src/kernel/boot_ledger.c:679-688 | the least id among the unplaced stages |
| `Planner.PlanOrder` | src/kernel/boot_ledger.c:645-701 | the loop leaves the greedy order of everything that can be placed; it reports a cycle exactly when there is one, naming the lowest stage that depends on a cycle |
| `Planner.PlanStages` | src/kernel/boot_ledger.c:456-729 | planning accepts exactly the legal plans; then the order is the canonical one, and a refusal is the first reason in checking order |
| `PlanEquivalence.LegalityIgnoresDeclarationOrder` | src/kernel/boot_ledger.c:456-729 | permuting the descriptors, or the capability lists inside them, never changes whether the plan is legal |
| `PlanEquivalence.OrderIgnoresDeclarationOrder` | src/kernel/boot_ledger.c:645-701 | two declarations of one plan have canonical orders that run the same stages in the same order |
| `Fingerprint.FingerprintIgnoresDeclarationOrder` | src/kernel/boot_ledger.c:261-326 | two declarations of one plan have the same validated id sequence and the same plan fingerprint |
| `Fingerprint.FingerprintWord` | src/kernel/boot_ledger.c:261-270 | the eight-byte mixing loop computes the 64-bit word mix, wrap-around included |
| `Fingerprint.FingerprintCapabilitySet` | src/kernel/boot_ledger.c:272-291 | a capability list is mixed as the set of its members in numeric order |
| `Fingerprint.FingerprintPlan` | src/kernel/boot_ledger.c:293-326 | the plan loops compute the fingerprint of the planned stage sequence |
| `Fingerprint.FingerprintReceipts` | src/kernel/boot_ledger.c:328-348 | the receipt loops compute the fingerprint of the receipts on top of the plan's |
| `FingerprintWords.PlanWordsDetermine` | src/kernel/boot_ledger.c:272-326 | the words a plan fingerprint mixes are equal exactly for plans with the same stages in the same order: ids, phases, flags, class, requirements and both outcome sets, nothing else |
| `FingerprintWords.OneWordMatters` | src/kernel/boot_ledger.c:261-270 | changing one small word of any mixed sequence always changes the 64-bit result |
| `FingerprintWords.AlteredPlanShows` | src/kernel/boot_ledger.c:293-326 | changing the id, phase, class or one flag of any planned stage always changes the plan fingerprint |
| `FingerprintWords.RecordWordsDetermine` | src/kernel/boot_ledger.c:328-348 | the words a receipt fingerprint mixes determine every receipt: stage, sequence, outcome, status and provided set |
| `ExecutionProofs.AcceptedExactly` | src/kernel/boot_ledger.c:840-885 | a stage result is accepted exactly when its outcome is known, its counters fit, and what it provides is, counted with multiplicity, what that outcome declares |
| `ExecutionProofs.RunConsistent` | src/kernel/boot_ledger.c:887-1081 | after any number of stages of any run, whatever the bodies return: receipts are honest and in order, the established list is their concatenation without repeats, the skip counter is the number of receipts whose outcome is a skip and the executed counter the number of the others, and degraded holds iff some receipt failed or was a non-neutral skip |
| `RunMeaning.RunMeant` | src/kernel/boot_ledger.c:821-1081 | any run is running with a receipt for every stage so far, or stopped at the first stage without one, for the stated reason: a required stage whose named requirement no earlier receipt provides, a result at fault in the named way, or a required body that did not succeed |
| `RunMeaning.CheckResultMeaning` | src/kernel/boot_ledger.c:840-885 | a stage result is accepted exactly when outcome and counters are in range and it provides the declared capabilities once each; a refusal names the first capability at fault and how |
| `RunMeaning.AppendMeaning` | src/kernel/boot_ledger.c:887-955 | in any state: a receipt is refused when 43 stand already, or names the capability that would be the 58th; otherwise it is the next one, numbered in sequence, and what it provides is established once each after what was |
| `ExecutionProofs.IrreversibleStepsAreSafe` | src/kernel/boot_ledger.c:350-416 | when a stage with an irreversible effect is entered, earlier receipts already provide every capability its class demands, class by class: device windows and frames before CR3, IDT and controllers before interrupts, the write-combining proof before output, and so on |
| `ExecutionProofs.CallsAreSafe` | src/kernel/boot_ledger.c:821-838 | a stage body is entered only after every requirement, irreversible prerequisites included, came from an earlier receipt |
| `ExecutionProofs.OneProviderPerCapability` | src/kernel/boot_ledger.c:906-929 | in every run, whatever the bodies return, a capability is established exactly when one receipt provides it, and then no other receipt does |
| `ReceiptAudit.AuditExact` | src/kernel/boot_ledger.c:1083-1249 | the receipt verifier accepts exactly the complete legal records whose capabilities are, counted with multiplicity, the established ones |
| `PlanDiagnosis.AuditTrue` | src/kernel/boot_ledger.c:1083-1249 | whatever a record is refused for is true of it: some receipt is at fault in the way the status says over the named capability, or the established list differs from the receipts |
| `ReceiptAudit.ExecutionIsAccepted` | src/kernel/boot_ledger.c:1022-1249 | whatever the bodies do, a run that completes is accepted by the verifier |
| `ReceiptAudit.AcceptedIsExecution` | src/kernel/boot_ledger.c:1083-1249 | every accepted record is what executing the plan with some bodies produces, up to capability order and proof counters, and the established list is what that run establishes |
| `PlanExecution.CanonicalIsRunnable` | src/kernel/boot_ledger.c:645-701 | the canonical order of a legal plan meets everything the executor relies on |
| `PlanExecution.CanonicalOrderIsLeast` | src/kernel/boot_ledger.c:645-722 | the canonical order of a legal plan runs every stage once, providers first, phases never going back, and is the least by (phase, id) of all orders that run the plan legally |
| `PlanExecution.HealthyBoot` | src/kernel/boot_ledger.c:957-1081 | if success alone can satisfy every requirement and every body succeeds, the canonical order runs every stage, counts all of them executed and none skipped, and ends undegraded |
| `LedgerLoops.RequirementsEstablished` | src/kernel/boot_ledger.c:821-838 | the first requirement not yet established, if any |
| `LedgerLoops.ValidateResult` | src/kernel/boot_ledger.c:840-885 | the result checks in their order |
| `LedgerLoops.AuditReceipts` | src/kernel/boot_ledger.c:1083-1249 | the verifier's loops report the first fault of the record, or none |
| `BootLedger.Ledger.constructor` | src/kernel/boot_ledger.c:418-431 | a reset ledger is empty, unvalidated and unexecuted |
| `BootLedger.Ledger.AddStage` | src/kernel/boot_ledger.c:433-454 | adding a stage appends it and withdraws validation, or refuses at capacity and keeps the plan |
| `BootLedger.Ledger.Validate` | src/kernel/boot_ledger.c:456-729 | Ok exactly for legal plans; the ledger then holds the canonical order, its ids and fingerprint; a refusal names the first reason and keeps the old fingerprints |
| `BootLedger.Ledger.AppendReceipt` | src/kernel/boot_ledger.c:887-955 | the ledger's fields become those of the receipt step; in a consistent run the counters then hold the executed and the skipped receipts apart |
| `BootLedger.Ledger.SettleResult` | src/kernel/boot_ledger.c:982-1019 | skips, failures and successes of required and optional stages are recorded as the settle step says |
| `BootLedger.Ledger.ExecuteStage` | src/kernel/boot_ledger.c:957-1020 | one stage: missing requirements skip an optional stage and halt on a required one; otherwise the body is entered and its result settled |
| `BootLedger.Ledger.RunPlan` | src/kernel/boot_ledger.c:1045-1073 | the plan loop leaves the ledger in exactly the state of the run function, halted or complete |
| `BootLedger.Ledger.Execute` | src/kernel/boot_ledger.c:1022-1081 | refused, unchanged, unless validated, unexecuted and unaltered; otherwise the record of the run, with the receipt fingerprint when it completes; soundness is kept |
| `BootLedger.AlteredPlanIsRefused` | src/kernel/boot_ledger.c:1022-1047 | a validated plan in which the id, phase, class or one flag of any stage is then changed is never executed: the answer is PLAN_FINGERPRINT_MISMATCH |
| `BootLedger.Ledger.VerifyReceiptSet` | src/kernel/boot_ledger.c:1083-1249 | answers as the audit does, and marks the fault |
| `BootLedger.Ledger.VerifyEvidence` | src/kernel/boot_ledger.c:1251-1290 | Ok exactly when validated, executed, unaltered, audited and receipt-fingerprinted; a sound executed ledger always passes |
| `BootLedger.ReachableIsAccepted` | src/kernel/boot_ledger.c:1022-1290 | the record of any run of a validated plan passes the verifier and matches the plan fingerprint |
| `HeapTable.SplitKeeps` | src/kernel/heap.c:92-119 | splitting a free block keeps the table a gap-free, overlap-free tiling without adjacent free blocks |
| `HeapTable.FreeCoalesces` | src/kernel/heap.c:126-141 | freeing and merging leaves no two free neighbours |
| `HeapTable.FreeKeeps` | src/kernel/heap.c:126-141 | freeing a used block keeps the tiling valid |
| `HeapTable.ExtendedKeeps` | src/kernel/heap.c:280-290 | growing the region, by the last block or a new one, keeps the tiling valid |
| `HeapTable.FitInRange` | src/kernel/heap.c:43-58 | the search returns the first free block that is large enough, or none exists |
| `HeapRuns.GrowKeeps` | src/kernel/heap.c:253-292 | growth keeps the heap valid and the live blocks, ends in a free block that is large enough, or changes nothing |
| `HeapRuns.AllocateKeeps` | src/kernel/heap.c:350-396 | an allocation keeps the heap valid; success adds exactly one live block, of at least the asked size, at the returned pointer; refusal adds none |
| `HeapAnswers.AllocateExactly` | src/kernel/heap.c:350-396 | every answer of an allocation from the blocks alone: ZERO_SIZE and TOO_LARGE exactly for empty and oversized requests; else the first free block that holds the request serves it, with exactly its size rounded to 16; if none does, the region grows by the shortfall in whole pages, and each refusal has its condition |
| `HeapAnswers.FreeExactly` | src/kernel/heap.c:398-441 | Ok exactly when a used block starts at the pointer, DOUBLE_FREE exactly when a free one does, NULL_ARGUMENT exactly for null and BAD_POINTER otherwise; a refusal changes nothing |
| `HeapTally.StatsCountLive` | src/kernel/heap.c:294-306 | the statistics of a valid heap are its block count and the number and summed bytes of the live allocations |
| `HeapTally.AllocateCounted` | src/kernel/heap.c:350-396 | a successful allocation adds one and its rounded size to them |
| `HeapTally.FreeCounted` | src/kernel/heap.c:398-441 | freeing a live allocation takes one and exactly its size from them |
| `HeapRuns.FreeKeepsHeap` | src/kernel/heap.c:398-441 | a free keeps the heap valid; success removes exactly the block at the pointer, and it succeeds exactly for live pointers |
| `HeapRuns.RunKeeps` | src/kernel/heap.c:350-441 | over every sequence of calls, refused ones included, the heap is valid and what callers hold is exactly what is live |
| `HeapRuns.HoldingsDisjoint` | src/kernel/heap.c:350-441 | in every reachable state a held allocation is 16-aligned and inside the committed region at its requested size, and two are disjoint |
| `HeapRuns.FreeUndoesAllocate` | src/kernel/heap.c:381-440 | an allocation that needed no growth followed by its free restores the identical table |
| `HeapRuns.FreeAllLeavesOneBlock` | src/kernel/heap.c:126-141 | freeing all live blocks in any order leaves one free block, or none when nothing is committed |
| `HeapRuns.OutOfBlocksNeedsMany` | src/kernel/heap.c:253-292 | OUT_OF_BLOCKS is answered only with at least 128 live allocations |
| `HeapRuns.RefusalTrace` | src/kernel/heap.c:381-390 | a refused allocation changes the heap exactly when growth succeeded and the split then lacked a table slot |
| `BlockArray.FindFit` | src/kernel/heap.c:43-58 | the scan is the first-fit search |
| `BlockArray.BlockIndexForOffset` | src/kernel/heap.c:60-75 | the scan is the offset lookup |
| `BlockArray.RemoveBlock` | src/kernel/heap.c:77-84 | shifting left in place removes exactly one block |
| `BlockArray.SplitBlock` | src/kernel/heap.c:92-119 | shifting right in place and writing the two halves is the table split; refused, nothing changes |
| `BlockArray.MergeFreeNeighbours` | src/kernel/heap.c:126-141 | merging in place, forwards first, is the coalescing of the table |
| `BlockArray.ValidateTable` | src/kernel/heap.c:150-188 | the check, its running offset a 64-bit word, answers true exactly for the tables that tile the region modulo 2^64 without adjacent free blocks |
| `HeapTable.AcceptsExactly` | src/kernel/heap.c:150-188 | an accepted table is a valid tiling exactly when its sizes add up to less than 2^64 |
| `HeapTable.AcceptsSmall` | src/kernel/heap.c:150-188 | the check is exact for every table whose blocks fit the heap window |
| `HeapTable.WrapIsAccepted` | src/kernel/heap.c:150-188 | two blocks of 2^63 bytes are accepted as a tiling of nothing |
| `PageTables.SlotsFollowAddress` | src/kernel/paging.c:291-301 | tables and slots follow the address bits that the walk indexes by |
| `PageTables.MakeCounts` | src/kernel/paging.c:773-822 | with any number of frames the walk makes that many of the missing tables, or all |
| `PageTables.MakeAll` | src/kernel/paging.c:773-822 | with frames enough it makes exactly the missing tables of the path |
| `PageTables.MakeCloses` | src/kernel/paging.c:773-822 | whenever it stops, every table hangs in a table |
| `PageTables.SweepNext` | src/kernel/paging.c:865-906 | unmapping one more page and reclaiming its path is sweeping one more path, so the order of unmapping does not matter |
| `PageTables.ReclaimCloses` | src/kernel/paging.c:865-906 | reclaiming never takes a table that something hangs in |
| `PageTables.TracelessExactly` | src/kernel/paging.c:939-1005 | after a refused request the tables are what they were if and only if none was made for a page it could not map, and none that had held nothing was swept |
| `PageTables.TidyLeaves` | src/kernel/paging.c:939-1005 | where every table held something, what is left is that, the tables made for the refused page and those above them |
| `PageTables.KeptIsUntidy` | src/kernel/paging.c:939-1005 | every table then holds something again exactly when no table was kept |
| `HeapPages.Backing.MakeTables` | src/kernel/paging.c:773-822 | the loop makes the missing tables from the top down until one frame is left, and answers whether that was enough |
| `HeapPages.Backing.ReclaimTables` | src/kernel/paging.c:865-906 | the climb gives back exactly the tables the unmapping emptied |
| `HeapPages.Backing.UnmapPage` | src/kernel/paging.c:1035-1056 | the page is gone, its frame free, and the tables are those reclaiming leaves |
| `HeapPages.Backing.ReleasePages` | src/kernel/heap.c:196-213 | releases every page of the range except those whose unmap is refused; the tables left are those of one sweep over the pages unmapped here and before; no frame is lost or used twice |
| `HeapPages.Backing.CommitPage` | src/kernel/heap.c:224-243 | one page: granted exactly when it has a frame, is not refused, its missing tables have frames and the book of mappings has room; a refusal keeps the pages, leaves the free frames alone when it is outright and one when the tables ran out, and the tables are those left by the sweep |
| `HeapPages.Backing.CommitPages` | src/kernel/heap.c:221-246 | the answer is that of the first page that cannot be served; granted, the whole range has distinct fresh frames and the tables above it; refused, only pages whose unmap was refused stay; with no such page the mappings are as before, the tables are exactly what the sweep leaves, and the free frames are what they were if and only if the attempt left no trace |
| `HeapPages.GrantedExactly` | src/kernel/heap.c:221-246 | a request for pages is granted exactly when there is a frame for each page and for each table missing above them, and no page of the range is refused |
| `HeapPages.NeededWithoutTables` | src/kernel/heap.c:221-246 | one frame a page suffices exactly when every table above the range is there |
| `HeapPages.TableKept` | src/kernel/paging.c:773-822 | the call that leaves a trace: two frames, two tables to make; it is refused, keeps the first table and has one frame left |
| `HeapPages.NoTrace` | src/kernel/heap.c:221-246 | once the pages of a refused request are unmapped, the free frames are the same exactly when it made no table for a page it could not map and swept no table that had held nothing; free and table frames together are as many as before |
| `HeapPages.KeptExactly` | src/kernel/heap.c:221-246 | tables are kept exactly when some page is reached, not refused, and left with frames for some but not all of the tables it lacks; the kept tables are as many as those frames |
| `HeapPages.TidyTrace` | src/kernel/heap.c:221-246 | where every table holds something, a refused request leaves exactly the tables it made for the refused page and those above them; it leaves no trace, and every table holding something, exactly when it kept none |
| `HeapPages.TidyGranted` | src/kernel/heap.c:221-246 | a granted request keeps every table holding something |
| `HeapPages.EmptyTableSwept` | src/kernel/paging.c:865-906 | the opposite trace: a table left empty by one refused request is given back by a later one, also refused |
| `KernelHeap.StaleExactlyThen` | src/kernel/heap.c:381-394 | after a refused allocation the cached statistics are out of date exactly when the refusal came after growth had appended a block |
| `KernelHeap.RefusalLags` | src/kernel/heap.c:381-394 | after such a refusal the cached block count is behind the table |
| `KernelHeap.StaleUntilSuccess` | src/kernel/heap.c:350-441 | a block count that lags stays behind through any further refused calls, and the next successful call sets every statistic right |
| `KernelHeap.KernelHeap.Initialize` | src/kernel/heap.c:308-348 | Ok exactly for an inactive heap with paging active, interrupts disabled and both guards unmapped; table, committed bytes and counters then start from nothing whatever they held; a refusal changes nothing |
| `KernelHeap.KernelHeap.RefreshState` | src/kernel/heap.c:294-306 | the statistics become those of the table |
| `KernelHeap.KernelHeap.GrowFor` | src/kernel/heap.c:253-292 | the object's growth is the heap value's under the answer the pages give; every page of the committed region is mapped, and exactly those while unmaps succeed; a refusal leaves the free frames as they were exactly when pages were never asked for or the attempt left no trace; the tables stay tidy exactly when none was kept |
| `KernelHeap.KernelHeap.Allocate` | src/kernel/heap.c:350-396 | the object's allocation is the heap value's under the answer the free frames and page tables give, with invariant, page cover and frames kept and statistics refreshed only on success; what a refusal for want of memory does to the free frames, and when the tables stay tidy, as for growth |
| `KernelHeap.KernelHeap.Free` | src/kernel/heap.c:398-441 | the object's free is the heap value's, with statistics refreshed on success |
| `KernelHeap.KernelHeap.Serve` | src/kernel/heap.c:350-441 | any sequence of calls on the object is a run of the heap value, with the statistics that run deserves; while unmaps succeed, mapped pages equal committed / 4096 throughout |
| `KernelHeap.KernelHeap.PagesCounted` | src/kernel/heap.c:450-507 | with no page mapped beyond the committed region, mapped pages equal committed / 4096 |
| `KernelHeap.KernelHeap.Verify` | src/kernel/heap.c:450-507 | of any state at all: Ok exactly when the tiling modulo 2^64, the page count, the page cover and the statistics all agree and no guard is mapped |
| `KernelHeap.KernelHeap.AuditExactly` | src/kernel/heap.c:450-507 | a heap really agrees with its table, pages and statistics exactly when the audit passes and the block sizes add up to less than 2^64 |
| `KernelHeap.KernelHeap.WrapIsAudited` | src/kernel/heap.c:450-507 | two blocks of 2^63 bytes in a heap that committed nothing pass the audit |
| `KernelHeap.KernelHeap.AuditAfterAllocate` | src/kernel/heap.c:381-507 | after an allocation the audit passes, except exactly when a refused request had appended a block |
| `KernelHeap.KernelHeap.AuditWhenFresh` | src/kernel/heap.c:450-507 | whenever the statistics are fresh and no page is mapped beyond the committed region, mapped pages equal committed / 4096 and the audit passes |
| `HeapStale.StaleIsReachable` | src/kernel/heap.c:350-396 | 255 ordinary allocations from a fresh heap lead to a request that is refused after appending a block |
| `FirmwareBytes.Reads32` | src/kernel/acpi_util.c:58-66 | a 32-bit field reads back as written, whatever surrounds it |
| `FirmwareBytes.Reads64` | src/kernel/acpi_util.c:68-74 | a 64-bit field reads back as written |
| `FirmwareBytes.SumBytes` | src/kernel/acpi_util.c:15-25 | the wrapping accumulation is the byte sum modulo 256 |
| `FirmwareBytes.ChecksumCancels` | src/kernel/acpi_madt.c:433-439 | storing the negated sum in a zeroed byte makes the whole sum zero |
| `Madt.LocalFrom` | src/kernel/acpi_madt.c:103-107 | the enabled and online-capable flags are bits zero and one |
| `Madt.LegalNext` | src/kernel/acpi_madt.c:79-207 | one more structure keeps a list legal exactly when there is room for it: fields in range, id unused, capacity left |
| `Madt.ConsumeAllExact` | src/kernel/acpi_madt.c:214-361 | consuming a list of structures succeeds exactly for legal lists, and yields their description in order |
| `MadtRoundTrip.DiscoverExact` | src/kernel/acpi_madt.c:295-361 | for every table: accepted exactly when its place and length are in range and its bytes sum to zero, it splits cleanly, and its structures are legal and bootable; the answer describes exactly those structures |
| `MadtRoundTrip.RevalidateExactly` | src/kernel/acpi_madt.c:49-77 | each status of the second look at the table, from address, length and the sum of its bytes alone |
| `MadtRoundTrip.CorruptedIsRefused` | src/kernel/acpi_madt.c:70-72 | changing any one byte of a good table makes discovery refuse it for its checksum |
| `MadtMeaning.DecodeSays` | src/kernel/acpi_madt.c:214-293 | a structure is decoded exactly as its bytes say, field by field at ACPI's offsets, type and length agreeing |
| `MadtMeaning.EntriesExactly` | src/kernel/acpi_madt.c:317-348 | the table splits into structures exactly when self-describing pieces fill it from byte 44 to its end and each says its structure |
| `MadtMeaning.DiscoverRefusal` | src/kernel/acpi_madt.c:295-361 | every refusal is explained: an unreadable table, the first structure that cannot follow the ones before it and how, a tail that is no structure, or the missing processor or controller |
| `MadtRoundTrip.OverridesFit` | src/kernel/acpi_madt.c:148-188 | distinct sources below sixteen never fill the sixteen slots while another source is unused, so the unchecked write is in range |
| `MadtRoundTrip.DecodeEncode` | src/kernel/acpi_madt.c:475-533 | every representable structure decodes from its own bytes |
| `MadtRoundTrip.BuiltEntries` | src/kernel/acpi_madt.c:396-430 | splitting a built table gives back the list of structures, whatever its header holds |
| `MadtRoundTrip.SealedSums` | src/kernel/acpi_madt.c:433-439 | a sealed table has byte sum zero |
| `MadtRoundTrip.DiscoverUndoesBuild` | src/kernel/acpi_madt.c:295-533 | whatever list of structures is built and sealed, discovery accepts it exactly when it is legal and bootable and reads it back exactly in order |
| `MadtDiscovery.Store.Clear` | src/kernel/acpi_util.c:41-48 | every counter, flag and array slot is zero |
| `MadtDiscovery.Store.RecordLocalApic` | src/kernel/acpi_madt.c:79-114 | flags, duplicate uid and capacity in that order; then one more processor and its enabled count |
| `MadtDiscovery.Store.RecordController` | src/kernel/acpi_madt.c:116-146 | window, duplicate id and capacity in that order; then one more controller |
| `MadtDiscovery.Store.RecordInterruptOverride` | src/kernel/acpi_madt.c:148-188 | bus, source, flags and duplicate in that order; the write needs no capacity test and stays in its array |
| `MadtDiscovery.Store.RecordLocalApicAddress` | src/kernel/acpi_madt.c:190-207 | one override at most, inside the early window |
| `MadtDiscovery.Store.ConsumeEntry` | src/kernel/acpi_madt.c:214-293 | one structure: length against type before any field, then the record |
| `MadtDiscovery.Store.Walk` | src/kernel/acpi_madt.c:317-348 | the offset loop is the single pass that stops at the first structure that cannot be cut or consumed |
| `MadtDiscovery.WalkIsCutAndConsume` | src/kernel/acpi_madt.c:317-348 | that single pass answers as cutting the whole table first and consuming afterwards |
| `MadtDiscovery.Store.DiscoverTopology` | src/kernel/acpi_madt.c:295-361 | all or nothing: the discovered topology, or the refusal with every field and slot zero, whatever the store held before |
| `MadtFixture.Fixture.Begin` | src/kernel/acpi_madt.c:396-410 | a fresh builder holds the header and no structures |
| `MadtFixture.Fixture.Append` | src/kernel/acpi_madt.c:412-430 | reserves a zeroed structure exactly when it has a header and fits; refused, nothing changes |
| `MadtFixture.Fixture.AppendLocalApic` | src/kernel/acpi_madt.c:475-492 | the buffer holds one more processor structure, or is full and unchanged |
| `MadtFixture.Fixture.AppendIoApic` | src/kernel/acpi_madt.c:494-511 | the buffer holds one more I/O controller structure, or is full and unchanged |
| `MadtFixture.Fixture.AppendOverride` | src/kernel/acpi_madt.c:513-533 | the buffer holds one more ISA override, or is full and unchanged |
| `MadtFixture.Fixture.Seal` | src/kernel/acpi_madt.c:433-439 | length and checksum are rewritten, the structures kept, and the byte sum is zero |
| `MadtFixture.SealAndDiscover` | src/kernel/acpi_madt.c:295-439 | a sealed fixture is discovered exactly when what was appended is legal and bootable; the store then describes it, and is all zero otherwise |
| `RunLength.GreedyEncodes` | tools/make-logo-asset.py:116-134 | expanding the encoder's runs gives back every pixel, and every run length is in 1..255 |
| `RunLength.GreedyMinimal` | tools/make-logo-asset.py:116-134 | no encoding with runs of at most 255 has fewer runs |
| `RunLength.GreedyRepeat` | tools/make-logo-asset.py:124-130 | up to 255 more copies of one pixel cost at most one more run |
| `RunLength.Encode` | tools/make-logo-asset.py:116-134 | the loop writes exactly the bytes of the greedy runs |
| `LogoDecoder.ParsedIsPrinted` | src/rust/logo.rs:125-168 | whatever run stream the decoder accepts is the byte form of runs of 1..255 that fill exactly the declared pixels |
| `LogoDecoder.PrintedIsParsed` | src/rust/logo.rs:125-168 | every such byte form is accepted, as those runs |
| `LogoDecoder.GeometryExactly` | src/rust/logo.rs:83-101 | the header is accepted exactly for the four marker bytes and sides of 1 to 1024, read low byte first |
| `LogoDecoder.ParseRefusal` | src/rust/logo.rs:125-168 | a refused run stream starts with good runs and then goes wrong as the status says: bytes missing, an empty run, or one run too long |
| `LogoDecoder.DecodeUndoesEncode` | src/rust/logo.rs:125-168 | for every picture of 1..1024 by 1..1024, decoding the encoder's blob succeeds and gives back every pixel |
| `LogoDecoder.BytesComeBack` | src/rust/logo.rs:125-168 | the raw picture, four bytes a pixel in red, green, blue, alpha order, comes back byte by byte |
| `LogoDecoder.DrawRuns` | src/rust/logo.rs:137-165 | the loop draws the runs in order and reports the first fault; nothing past the picture is touched |
| `LogoDecoder.DecodeInto` | src/rust/logo.rs:125-168 | the decoder answers as the blob deserves; on success the buffer shows the picture and the rest is unchanged |
| `LogoDecoder.MixBlends` | src/rust/logo.rs:104-111 | blending is exact for opaque and transparent pixels and always lies between the two colours |
| `LogoDecoder.MixRounds` | src/rust/logo.rs:104-111 | the blended channel is the weighted mean rounded to nearest |
| `PixelPacking.PackExactly` | src/rust/logo.rs:113-117 | for any three bit positions, every three bytes are read back from the word they are packed into exactly when the channels are whole and do not overlap |
| `PixelPacking.ComposeBlends` | src/rust/logo.rs:102-118 | each channel blends over the background's own channel: opaque as it is, transparent as the background, otherwise between the two; channels that are whole and apart hold exactly those bytes |
| `PixelPacking.DrawLogo` | src/rust/logo.rs:125-168 | the decoder with this packing: on success every pixel of the picture is its blend, and the rest of the buffer is unchanged |
| `DmaTable.ValidateExact` | src/kernel/dma.c:40-76 | validation accepts a presented handle for record i exactly when it is the registered object and shows exactly that record |
| `DmaTable.AllocateKeeps` | src/kernel/dma.c:97-182 | allocation keeps the invariant: counters match the table, device-owned means initialised, ranges are disjoint and exactly the outstanding ones |
| `DmaTable.ToDeviceKeeps` | src/kernel/dma.c:206-233 | handing over keeps the invariant |
| `DmaTable.ToCpuKeeps` | src/kernel/dma.c:235-258 | taking back keeps the invariant |
| `DmaTable.ReleaseKeeps` | src/kernel/dma.c:260-309 | release keeps the invariant |
| `DmaRuns.RunKeeps` | src/kernel/dma.c:97-309 | the invariant holds after every run of calls, whatever handles are presented |
| `DmaRuns.AllocateExactly` | src/kernel/dma.c:97-182 | each answer of an allocation and its whole effect: the first inactive slot records the caller's handle and the granted frames, owned by the CPU and uninitialised; a refusal changes nothing |
| `DmaRuns.CallsExactly` | src/kernel/dma.c:184-308 | of every handle, genuine or not: when marking, handing over, taking back and releasing each answer what, and the one record, range and handle they change |
| `DmaRuns.DeviceOwnedExactly` | src/kernel/dma.c:311-321 | a handle is reported device-owned exactly when it is genuine for a record the device owns |
| `DmaRuns.ForgedIsRefused` | src/kernel/dma.c:40-76 | a copied, stale or altered handle is refused and nothing at all changes |
| `DmaRuns.RefusedUnchanged` | src/kernel/dma.c:184-309 | every refused call leaves table, ranges and handle as they were |
| `DmaRuns.OnlyOwnerReturns` | src/kernel/dma.c:260-309 | a range goes back to the frame allocator only by a release through its genuine handle while the CPU owns it |
| `DmaRuns.DeviceRangeHeld` | src/kernel/dma.c:206-309 | from hand-over to take-back, through any run, a device-owned record and its range stay as they are |
| `DmaRuns.LifeCycle` | src/kernel/dma.c:97-321 | allocate, initialise, hand over, take back and release each succeed in turn, out-of-turn calls are refused by name, and the books end as they began |
| `DmaService.Service.Initialize` | src/kernel/dma.c:78-95 | once: counters zero and no record active; again: refused; outstanding ranges stay |
| `DmaService.Service.RecordFor` | src/kernel/dma.c:21-38 | the first active record with the identifier |
| `DmaService.Service.ValidateAllocation` | src/kernel/dma.c:40-76 | the record the handle object speaks for, if genuine |
| `DmaService.Service.AllocateBuffer` | src/kernel/dma.c:97-182 | table, counters and handle become those of the allocation step; if every registered handle was genuine, they still are exactly when this handle was not already registered |
| `DmaService.Service.MarkInitialized` | src/kernel/dma.c:184-204 | table and handle become those of the mark step |
| `DmaService.Service.TransferToDevice` | src/kernel/dma.c:206-233 | table, counters and handle become those of the hand-over step |
| `DmaService.Service.TransferToCpu` | src/kernel/dma.c:235-258 | table, counters and handle become those of the take-back step |
| `DmaService.Service.ReleaseAllocation` | src/kernel/dma.c:260-309 | table, counters, ranges and handle become those of the release step |
| `DmaService.Service.IsDeviceOwned` | src/kernel/dma.c:311-321 | true exactly for the genuine handle of a device-owned record |
| `DmaService.Service.Verify` | src/kernel/dma.c:328-368 | of any table: Ok exactly when each active record has a handle that validates as something and the counters add up |
| `DmaService.Service.AuditMeaning` | src/kernel/dma.c:328-368 | every registered handle is genuine exactly when the audit passes and no handle is registered twice |
| `DmaService.Service.ReuseIsMissed` | src/kernel/dma.c:97-182 | in every table where two active records share one handle and every record but the first is intact, the audit passes although the first has no handle left |
| `DmaService.ReuseOneHandle` | src/kernel/dma.c:78-368 | the run: a fresh service and two allocations through one handle end in a table the audit passes although the first record has no handle left |
| `TimerMath.CountExactly` | src/kernel/apic_timer.c:103-133 | the split conversion equals the exact floor, or refuses as it should, exactly when the remainder product fits 64 bits, or the interval has whole seconds, or what wraps around is not a count |
| `TimerMath.BoundedRateIsExact` | src/kernel/apic_timer.c:103-133 | for every rate with rate * (10^9 - 1) < 2^64 the conversion is exact for every interval |
| `TimerMath.FastRateWraps` | src/kernel/apic_timer.c:103-170 | a countdown that calibration accepts measures 20 GHz, and at that rate an interval that must be refused is armed with a wrapped count |
| `TimerMath.RateIsExact` | src/kernel/apic_timer.c:140-170 | calibration never overflows: it measures exactly when the counter moved, did not run out and the quotient is positive, and then the rate is the exact floor |
| `TimerMath.CalibrationAllowsWrap` | src/kernel/apic_timer.c:140-170 | a countdown that calibration accepts can exceed the rate bound |
| `TimerMath.PeriodicIsExact` | src/kernel/apic_timer.c:172-192 | the periodic count is answered exactly when it is the whole number of input ticks in one period and fits the register |
| `TimerModes.DoKeeps` | src/kernel/apic_timer.c:215-516 | every call keeps the mode invariant |
| `TimerModes.InterruptKeeps` | src/kernel/apic_timer.c:87-101 | the interrupt keeps it, whatever calls the expiry handler makes |
| `TimerModes.RunKeeps` | src/kernel/apic_timer.c:87-516 | in every interleaving of calls and interrupts: the vector is registered iff exactly one of running and one-shot-ready holds, armed means one-shot-ready and not running, and arms = expiries + disarms + (1 if armed) |
| `TimerModes.BootKeeps` | src/kernel/apic_timer.c:87-516 | the mode invariant holds in every state reachable from boot |
| `TimerModes.PeriodicReachable` | src/kernel/apic_timer.c:274-339 | from boot the periodic mode can be entered |
| `TimerModes.OneShotReachable` | src/kernel/apic_timer.c:395-497 | from boot a deadline can be armed, and its expiry arms the next from inside the interrupt |
| `TimerModes.ModesUndo` | src/kernel/apic_timer.c:274-516 | stop undoes start, disarm undoes arm and removing the handler undoes installing the first one, up to the counter, tick count, frequency and the two arm counters |
| `TimerModes.RearmInsideHandler` | src/kernel/apic_timer.c:68-101 | a handler that arms again from inside the interrupt is served |
| `TimerModes.StartAnswers` | src/kernel/apic_timer.c:274-339 | when starting the periodic mode answers each refusal |
| `TimerModes.ArmAnswers` | src/kernel/apic_timer.c:442-497 | when arming answers each refusal |
| `TimerModes.OtherAnswers` | src/kernel/apic_timer.c:341-516 | when stopping, disarming and setting the handler answer each refusal; stopping never fails to unregister |
| `TimerModes.CalibrateAnswers` | src/kernel/apic_timer.c:215-272 | when calibration answers each refusal, the rate's by the countdown itself |
| `TimerModes.Driver.RunCalibration` | src/kernel/apic_timer.c:215-272 | Ok exactly when online, masked and uncalibrated, the power-management timer is present and its wait succeeds, the countdown moved without running out and measures at least one tick a second; the rate is then the exact floor and the counter stopped; a refusal changes at most the counter; the mode invariant is kept |
| `TimerModes.Driver.StartPeriodic` | src/kernel/apic_timer.c:274-339 | Ok exactly when online, masked, calibrated, interrupts ready, the vector free, the period converts and the register reads back; the timer then runs with the whole number of input ticks in a period; a read-back failure costs only tick count and counter, any other refusal nothing; the mode invariant is kept |
| `TimerModes.Driver.StopPeriodic` | src/kernel/apic_timer.c:341-363 | Ok exactly when running and masked: unregistering then never fails; the vector is freed; a refusal changes nothing; the mode invariant is kept |
| `TimerModes.Driver.SetExpiryHandler` | src/kernel/apic_timer.c:395-440 | Ok exactly when masked, not armed and, to install, the vector is already held for one-shot use, or interrupts are ready and the timer is not running; the vector is then held exactly while a handler is installed or the timer runs; a refusal changes nothing; the mode invariant is kept |
| `TimerModes.Driver.ArmOneShot` | src/kernel/apic_timer.c:442-497 | Ok exactly when online, masked, calibrated, a handler is installed, nothing is armed, the interval converts and the register reads back; the count is the exact floor whenever the product fits 64 bits; a read-back failure costs only the counter, any other refusal nothing; the mode invariant is kept |
| `TimerModes.Driver.DisarmOneShot` | src/kernel/apic_timer.c:503-516 | Ok exactly when armed and masked; one more disarm, vector and handler kept; a refusal changes nothing; the mode invariant is kept |
| `TimerModes.Driver.HandleInterrupt` | src/kernel/apic_timer.c:87-101 | a periodic tick only counts; an expiry is counted once whatever the handler calls, disarming before it runs; the mode invariant is kept |
| `TimerModes.Driver.Live` | src/kernel/apic_timer.c:87-516 | from boot or any valid state the driver follows every sequence of calls, interrupts and outside changes exactly, invariant kept |
| `Screen.CellsDisjoint` | src/kernel/framebuffer.c:29-38 | for every legal geometry, padded pitch included, pixel cells are inside the buffer and share no byte |
| `Screen.ScrolledPixels` | src/kernel/framebuffer.c:209-251 | after a scroll each pixel is the old one the given rows below, or the fill colour, and no padding byte changes |
| `Screen.PixelIsAtOffset` | src/kernel/framebuffer.c:29-33 | a pixel is the little-endian word at y * pitch + 4 * x |
| `Screen.CopyRow` | src/kernel/framebuffer.c:233-240 | copying a row upwards moves exactly its picture bytes |
| `Screen.PaintRow` | src/kernel/framebuffer.c:242-248 | painting a row writes exactly its picture bytes |
| `Screen.Framebuffer.Initialize` | src/kernel/framebuffer.c:66-137 | Ok exactly for a present, mapped, non-wrapping picture whose rows fit the pitch and fill the span, the window's end taken in 64 bits; each refusal has its exact condition |
| `Screen.MappedIsInside` | src/kernel/framebuffer.c:105-110 | the 64-bit window test accepts exactly the buffers inside a window whose end does not wrap |
| `Screen.Framebuffer.WritePixel` | src/kernel/framebuffer.c:144-160 | the pixel holds the value, every other pixel and every byte outside the cell what it held; out of bounds, nothing changes |
| `Screen.Framebuffer.ReadPixel` | src/kernel/framebuffer.c:162-184 | the pixel, or zero with the refusal |
| `Screen.Framebuffer.Fill` | src/kernel/framebuffer.c:192-207 | every pixel is the colour and no padding byte changes |
| `Screen.Framebuffer.MoveRows` | src/kernel/framebuffer.c:233-240 | the front-to-back loop moves every remaining row up, each read before it is overwritten |
| `Screen.Framebuffer.ScrollUp` | src/kernel/framebuffer.c:209-251 | the buffer is scrolled; by zero rows unchanged; by the height or more, filled |
| `SessionStates.InspectedAfterReturn` | src/kernel/filesystem.c:639-761 | on every accepted path, a state in which the CPU may inspect the block lies after a hand-back that directly followed controller ownership, with no controller ownership since |
| `SessionStates.ReleaseIsLast` | src/kernel/filesystem.c:639-693 | nothing follows RELEASED on an accepted path, and only RELEASED follows STOPPING |
| `SessionStates.TransitionExactly` | src/kernel/filesystem.c:639-693 | the moves allowed are exactly: open once; a block to the controller from any resting state or again from the CPU; back to the CPU; recognised as volume, place or file from there; stopping from anything open; release after stopping; a repeat and a reversal are told apart |
| `PrivateRead.Reader.Move` | src/kernel/filesystem.c:639-693 | a move is taken exactly when allowed |
| `PrivateRead.Reader.ReadBlock` | src/kernel/filesystem.c:891-934 | Ok exactly for one whole clean block by one interrupt, handed back, and which failure each other outcome is; the CPU then holds exactly that ordinal |
| `PrivateRead.Reader.ValidateVolume` | src/kernel/filesystem.c:1207-1222 | read one, inspected only in CPU custody; a parser failure exactly for a good block that is no boot sector |
| `PrivateRead.Reader.LocateFile` | src/kernel/filesystem.c:1223-1254 | reads two and three, each inspected only in CPU custody |
| `PrivateRead.Reader.FetchFile` | src/kernel/filesystem.c:1255-1278 | read four: the destination is its first 128 bytes, exactly when size and counts agree |
| `PrivateRead.Reader.Cleanup` | src/kernel/filesystem.c:1126-1148 | a successful close forgets the session; a failed one keeps it, stopping, under its generation |
| `PrivateRead.Reader.Open` | src/kernel/filesystem.c:1150-1294 | Ok exactly when four good reads and the parsers agree, ordinals 1 to 4 in order, with the file's 128 bytes delivered; TEARDOWN_FAILURE exactly when the session opened, the read failed and the close was refused; any answer but Ok past the buffer test leaves the destination zero, and the session owned only on TEARDOWN_FAILURE or PRIVATE_BUSY; no block was ever looked at outside CPU custody |
| `PrivateRead.WholeReadExactly` | src/kernel/filesystem.c:1207-1280 | the file is delivered exactly when four clean reads exist in which each block, parsed, names the next: boot sector, FAT, directory, file |
| `PrivateRead.Reader.Close` | src/kernel/filesystem.c:1296-1314 | only the current token closes; a failed close keeps token and session for another try |
| `PrivateRead.StrandedAfterFailedTeardown` | src/kernel/filesystem.c:1126-1314 | closing with the returned token is refused and every later open is busy exactly when the session opened, the read failed and the controller refused to close |
| `RootTable.FindExact` | src/kernel/acpi_tables.c:252-434 | of the bytes of memory: lookup succeeds exactly when the root's tag, length, entry count and byte sum are good, every table an entry points to is sound, and one entry alone points to a table with the signature; it returns that address and the count |
| `RootTable.TableFaultExactly` | src/kernel/acpi_tables.c:327-357 | each verdict on a referenced table, from its address, the length field and the sum of its bytes |
| `RootTable.RootExactly` | src/kernel/acpi_tables.c:252-325 | a root is accepted with a count exactly when its bytes are a sound root of that many entries |
| `RootTable.RootFaultExactly` | src/kernel/acpi_tables.c:252-325 | the root's refusals, in the order they are given |
| `RootTable.FindRefusal` | src/kernel/acpi_tables.c:368-434 | a refused lookup is a refused root, or the first entry that is unsound or a second carrier of the signature, or no carrier at all |
| `RootTable.ScanExact` | src/kernel/acpi_tables.c:398-430 | the walk from any entry on, with what was found before it |
| `RootTable.FindUniqueTable` | src/kernel/acpi_tables.c:368-434 | the loop answers as the lookup does, first fault first, with the entries read at the root's own width |
| `ConfigWindows.ConflictMeaning` | src/kernel/acpi_tables.c:652-669 | for sound windows the conflict test holds exactly when some address or some bus of a segment belongs to both |
| `ConfigWindows.DecodeExact` | src/kernel/acpi_tables.c:671-751 | for every table and list of windows: the table decodes to exactly that list iff it holds 1 to 8 records of 16 bytes after byte 44, each record's bytes spell out base, segment, first and last bus of its window, each window is aligned, non-empty and below 2^64, and no two overlap |
| `ConfigWindows.DecodeRefusal` | src/kernel/acpi_tables.c:671-751 | a refusal is a bad length, no record, too many, or the first record whose window is unsound or overlaps an earlier one, under that status |
| `ConfigWindows.DecodeUndoesWrite` | src/kernel/acpi_tables.c:671-751 | windows written out as records decode to themselves, exactly when they are sound and apart |
| `ConfigWindows.AcceptedWindows` | src/kernel/acpi_tables.c:671-751 | accepted windows never wrap 64 bits and are pairwise disjoint in memory and in (segment, bus) |
| `ConfigWindows.DecodeWindows` | src/kernel/acpi_tables.c:671-751 | the nested loops decode the windows, or report the first fault |
| `ConfigWindows.DiscoverWindows` | src/kernel/acpi_tables.c:763-813 | windows are reported only from the one MCFG behind a sound root; any refusal leaves every slot empty |

## Left out

- BootLedger.Ledger.VerifyEvidence: the evidence checks only; the comparisons with paging, interrupts and devices that follow (`src/kernel/boot_ledger.c:1292-1717`) read other subsystems field by field.
- Fingerprint.FingerprintPlan: a plan changed in one id, phase, class or flag always has another fingerprint (`FingerprintWords.AlteredPlanShows`); that no two plans share one is false of any 64-bit value and is not claimed.
- BlockArray.ValidateTable: does not promise an exact tiling of every table, because the code's running offset wraps at 2^64; `HeapTable.AcceptsExactly` says when it does.
- KernelHeap.KernelHeap.Verify: promises the audit the code makes, whose sums wrap at 2^64; `KernelHeap.KernelHeap.AuditExactly` says when it means agreement. The permissions and level of each mapped page are not modelled; every heap page is mapped one way.
- HeapPages.Backing.CommitPages: does not promise the free frames back after every refusal, because a map that runs out keeps its tables; `HeapPages.NoTrace` says when it does. Frames are chosen arbitrarily among the free ones. Maps refused outright, refused unmaps and a full book of supervisor mappings are parameters, and tables that other mappings use are one set that no call changes. A table frame past the early physical limit (`src/kernel/paging.c:742-744`) cannot occur, since the allocator has none (`src/kernel/physical_memory.c:9`).
- DmaTable.AllocateKeeps: the contiguous frame allocator is a contract (a fresh identifier and a non-empty disjoint range above low memory; releasing an outstanding range succeeds), and the identity-mapping test one boolean; compiler barriers are not modelled.
- TimerModes.RunKeeps: the expiry count is unbounded, not modulo 2^64; register writes appear only as what the count register was told to do, and a failed read-back as a parameter.
- Screen.Framebuffer.WritePixel: write-combining and store fences are not modelled; neither is colour packing nor the mapping audit.
- LogoDecoder.DecodeInto: packing is a parameter, fixed by `PixelPacking.DrawLogo`; a position past the 32-bit word, which overflows the shift in the code, is excluded there; reading, filtering and scaling the PNG at build time are not modelled.
- PrivateRead.Reader.Open: the parsers and the NVMe layer are parameters, so FAT16 itself is not modelled; nor is `filesystem_file_prove`, which repeats the same four reads.
- MadtDiscovery.Store.DiscoverTopology: the caller's NULL arguments are not modelled here or elsewhere, since Dafny references are never null.
- `boot_plan.c` and `boot_proofs.c`: the concrete plan is data, and its proofs exercise hardware.
- The FADT and power-management timer reader, RSDP discovery, PIC, IOAPIC, clock, CPU and PCI code: short checks that would only add easy members.
- `apic_timer_wait_for_ticks`: a halt loop around the interrupt already modelled.
- ELF, font and process loading, threads, xHCI and NVMe drivers, the consoles and the boot report: device plumbing outside the modelled core.
- Self-tests and status strings: finite cases and tables.
