# Nocter ARM64 back end: model and proofs

Nocter is a programming language whose compiler emits ARM64 code for Darwin. This project models the
hardest parts of its ARM64 back end, and two small independent components, and proves what each part
is for.

- **Asynchronous computations.** A deferred function, a leaf wait, a join, a race or a group is a heap
  frame with a state tag and three entries: resume, cancel and consume. `AsyncTree` states the protocol
  of joins, races and leaves as functions over an immutable tree, `AsyncTreeProofs` and `AsyncRuns`
  prove what every poll and every run keeps, and `AsyncHeap`, `AsyncRuntime` and `AsyncDriver` hold the
  entries on a mutable heap and prove that they carry out the protocol. `AsyncOutputs` says what consuming
  a tree writes. `AsyncGroup` has the group scan
  with its two reused buffers, and `GroupRuns` whole runs of a group with readiness signals in between.
  `AsyncProgram`, `AsyncFrame` and `AsyncResume` prove that suspension is transparent: the calls of the
  resume entry, on the bytes of its heap frame, do together what one uninterrupted call with blocking
  awaits does. `Cancellation`, `CancelAddress` and `CancelPath` have the cleanup of a cancelled function.
  `ObjectLayout` lays the frame out.
- **Code.** `CodeLayout`, `CodeWords` and `CodeBuilder` resolve labels, relax branches to the least
  fixpoint, and prove that the words take the path of the labelled items.
- **Instruction sequences with an exact meaning.** `Isa` is a small instruction set after sections
  C1.2.4 and C6.2 of the Arm Architecture Reference Manual (DDI 0487). `CheckedArithmetic` and
  `ArithmeticBuilder` have checked integer operations, `Deadlines` the conversion of deadlines to
  milliseconds, `WaitLoop` the retry loops around the event queue, and `Atomics` the exclusive
  load/store loops under every interleaving.
- **Lowering with two paths that must agree.** `AggregatePlan`, `AggregateCode`, `AggregateSelection`
  and `AggregateBuilder` compare aggregates built in registers with aggregates built in memory, and
  `AggregateMembers` tells their bytes from the members alone; `Addresses`, `AddressCode` and
  `AddressBuilder` resolve machine addresses; `Transport`, `FragmentedStore`, `TransportEntry`,
  `Constructor` and `TransportBuilder` pass arguments to a callee and to the constructor of a deferred
  function. `AddressAcceptance` and `TransportAcceptance` say for which inputs there is code. `NocterAbi` has the register roles, `ValuePlan` where values
  live.
- **Source edits** (`SourceEdits`) and **Unicode tables** (`UnicodeRanges`, `UnicodeCasing`).

Where the source is a set of loops over mutable state, the model is a class or method with the same
loops, proved against a specification function; the properties are lemmas about those functions.
`Results`, `ByteRanges`, `NaturalSets` and `Arithmetic` hold what several modules share.

## Where the code and its promise differ

Four properties hold only under a condition. Each is stated with the condition, and with an input
outside it.

- The wait loop keeps the numerically least deadline, while whether a deadline has passed is decided on
  the wrapping distance. The least deadline leaves the least time to wait exactly when it has passed
  itself, or no deadline has passed and the counter does not wrap between the least and another one
  (`WaitLoop.LeastDeadlineIsNext`, and `WaitLoop.EarliestIsNext` for a list of interests).
  `WaitLoop.LeastDeadlineCanBeLater` is a list for which the loop sleeps past the nearer timer. A timer
  whose deadline is the maximum word reads as no deadline (`WaitLoop.MaximumWordIsNoDeadline`).
- A value of 7 bytes is stored to the stack in fragments of 4, 2 and 1 bytes. When its register is one
  of the two scratch registers, the second fragment is shifted into the other one; if the address of that
  fragment cannot be encoded, it is formed in the register of the value itself, out of which the third
  fragment is then shifted. Its byte becomes byte 6 of the address
  (`FragmentedStore.FragmentedStoreIsExact`, `FragmentedStore.StoreTells`).
  The entry code stores stack arguments from x17, so a direct argument in a slot whose last lane has
  7 bytes loses its last byte when that lane lies at an odd offset of the callee's frame or behind the
  encodable ones. `TransportEntry.ArgumentListIsExact` says for which argument lists every value
  survives, and `TransportEntry.NinthArgumentArrivesChanged` is one for which it does not. The
  constructor of a deferred function copies native chunks and keeps the byte
  (`Constructor.ConstructorCapturesArguments`).
- A register plan does not look at values without bytes, so it accepts one behind the end of the
  aggregate, which the memory path rejects (`AggregateSelection.PlannedWritesAreAccepted`,
  `AggregateSelection.PlanAcceptsAnEmptyValueOutOfBounds`).
- Cancellation resolves an address in x16 with the view length in x17, and these are also the registers
  in which wide offsets are materialized. `CancelAddress.AddressCodeComputes` says what the code of any
  address computes. A path is right in every part, state and world exactly when no wide offset is
  materialized in a register that is read later (`CancelPath.PathIsRightExactlyWhenHarmless`); then the
  whole path resolves to the address it denotes (`CancelPath.CancellationAddressIsDenoted`).
  `CancelPath.FarFieldLosesTheAddress` runs a selected address for which it is wrong. The ordinary
  resolution (`AddressCode.ResolvedAddressIsDenoted`) uses x0 and x1 and has no such condition.

Binding a label a second time is rejected, but the label has already moved
(`CodeBuilder.Arm64CodeBuilder.Bind`).

## Model

| member | source | states |
|---|---|---|
| `AsyncRuns.EveryFrameIsReleasedExactlyOnce` | development/compiler/crates/nocter-arm64/src/async_pair_code.rs:109-435 | over every run of a join/race tree, ended by one cancel or by one consume of a completed root: each node's frame is unmapped once with one cancel or consume, no event touches a frame after its release, and every mapped interest buffer is unmapped |
| `AsyncRuns.PollAndSignalProgress` | development/compiler/crates/nocter-arm64/src/async_drive_code.rs:15-52 | a pending poll followed by a wait that signals one returned interest leaves fewer unfinished leaves at the next poll |
| `AsyncRuns.PollAfterSignalRetiresALeaf` | development/compiler/crates/nocter-arm64/src/async_interest_code.rs:261-348 | if any waiting leaf was signalled, the next poll of the root completes or releases at least one leaf |
| `AsyncRuns.SignalThroughAnInterestIsSeen` | development/compiler/crates/nocter-arm64/src/async_pair_code.rs:208-236 | the readiness pointer of every returned interest reaches an unfinished leaf of the tree |
| `AsyncRuns.PollNeverRevivesLeaves` | development/compiler/crates/nocter-arm64/src/async_pair_code.rs:109-236 | a poll never adds an unfinished leaf |
| `AsyncRuns.RunKeepsAccounts` | development/compiler/crates/nocter-arm64/src/async_pair_code.rs:109-435 | after any number of polls and signals every frame is owned or released, never both, and mapped buffers balance unmapped and held ones |
| `AsyncRuns.PollIsOrdered` | development/compiler/crates/nocter-arm64/src/async_pair_code.rs:109-236 | within one poll no frame is touched after its release and only frames of the tree are touched |
| `AsyncTreeProofs.PollKeepsValid` | development/compiler/crates/nocter-arm64/src/async_pair_code.rs:109-236 | a poll that does not trap keeps the tree valid: distinct frames, done flags, and buffers only where a pair waits |
| `AsyncTreeProofs.PollCompletesExactlyWhenReady` | development/compiler/crates/nocter-arm64/src/async_pair_code.rs:109-206 | a poll completes exactly when the readiness of the leaves implies it through joins and races |
| `AsyncTreeProofs.RaceWinnerIsLeftmostReady` | development/compiler/crates/nocter-arm64/src/async_pair_code.rs:162-206 | the left child wins every tie and the loser is released in the same poll |
| `AsyncTreeProofs.InterestsAreTheRecordsOfWaitingLeaves` | development/compiler/crates/nocter-arm64/src/async_pair_code.rs:208-236 | a pending tree returns the records of its unfinished leaves, from left to right, and nothing else |
| `AsyncTreeProofs.PendingPairsHaveInterests` | development/compiler/crates/nocter-arm64/src/async_pair_code.rs:208-236 | a pending poll never returns an empty list |
| `AsyncTreeProofs.ReadinessPointersNameLiveLeaves` | development/compiler/crates/nocter-arm64/src/async_pair_code.rs:437-599 | every returned readiness pointer names an unfinished leaf that the tree still owns |
| `AsyncTreeProofs.BoundedTreesNeverTrap` | development/compiler/crates/nocter-arm64/src/async_pair_code.rs:497-520 | the only trap of a valid tree is the interest limit |
| `AsyncTreeProofs.OnlyOpenNodesAreResumed` | development/compiler/crates/nocter-arm64/src/async_pair_code.rs:437-495 | a poll resumes the polled computation once, every other node at most once, and nothing that belongs to a finished node or to a child recorded as done |
| `AsyncTreeProofs.PollBalances` | development/compiler/crates/nocter-arm64/src/async_pair_code.rs:109-236 | frames unmapped by a poll are the frames that it stops owning, one cancel or consume for each, and buffers balance |
| `AsyncTreeProofs.CancelBalances` | development/compiler/crates/nocter-arm64/src/async_pair_code.rs:259-323 | cancel unmaps every owned frame once and every held buffer once |
| `AsyncTreeProofs.ConsumeBalances` | development/compiler/crates/nocter-arm64/src/async_pair_code.rs:325-435 | consume unmaps every owned frame once and every held buffer once |
| `AsyncHeap.BufferIsAttached` | development/compiler/crates/nocter-arm64/src/async_pair_code.rs:522-568 | mapping a buffer and storing its words turns the represented tree into the same tree holding that buffer |
| `AsyncHeap.HoldsWhereHeapsAgree` | development/compiler/crates/nocter-arm64/src/async_pair_code.rs:437-495 | whether a heap represents a tree depends only on the tree's own frames and buffers |
| `AsyncRuntime.Runtime.JoinPoll` | development/compiler/crates/nocter-arm64/src/async_pair_code.rs:109-160 | the join entry on the heap polls both unfinished children and ends as the protocol says, with its events |
| `AsyncRuntime.Runtime.RacePoll` | development/compiler/crates/nocter-arm64/src/async_pair_code.rs:162-206 | the race entry polls the left child first and settles on the first ready one |
| `AsyncRuntime.Runtime.PollChild` | development/compiler/crates/nocter-arm64/src/async_pair_code.rs:437-495 | a child is polled through its own entry; its result is recorded, or its done flag set |
| `AsyncRuntime.Runtime.CombinedPending` | development/compiler/crates/nocter-arm64/src/async_pair_code.rs:208-236 | the pending result is one child's list, or both lists in a mapped buffer |
| `AsyncRuntime.Runtime.CopyRecords` | development/compiler/crates/nocter-arm64/src/async_pair_code.rs:570-599 | copying keeps every record and its readiness pointer, in order |
| `AsyncRuntime.Runtime.ReleaseInterestBuffer` | development/compiler/crates/nocter-arm64/src/async_pair_code.rs:601-638 | a held buffer is unmapped once and its words cleared |
| `AsyncRuntime.Runtime.Cancel` | development/compiler/crates/nocter-arm64/src/async_pair_code.rs:259-323 | cancel on the heap releases children, buffer and frame as the protocol says and touches nothing else |
| `AsyncRuntime.Runtime.Consume` | development/compiler/crates/nocter-arm64/src/async_pair_code.rs:325-435 | consume writes what the tree's winners stand for, releases the children, and unmaps the frame |
| `AsyncOutputs.ConsumedRaceTells` | development/compiler/crates/nocter-arm64/src/async_pair_code.rs:325-435 | consuming a race leaves 0 at its tag place when its first child was ready at the completing poll, and 1 otherwise, whatever the winner's own output is |
| `AsyncOutputs.ConsumeWritesOnlyTags` | development/compiler/crates/nocter-arm64/src/async_pair_code.rs:640-708 | the tag of a nested race lies at the sum of the placements on the way to the root, and every other address keeps its byte |
| `AsyncRuntime.Runtime.LeafResume` | development/compiler/crates/nocter-arm64/src/async_interest_code.rs:261-348 | a leaf returns its record until its readiness word is set, then completes |
| `AsyncRuntime.Runtime.Resume` | development/compiler/crates/nocter-arm64/src/async_composition_code.rs:22-336 | one resume of any represented computation carries out one poll of the protocol, or traps |
| `AsyncDriver.ProcessRoot.Drive` | development/compiler/crates/nocter-arm64/src/async_drive_code.rs:9-93 | the drive loop resumes the root at most once more than it has unfinished leaves, clears the owning handle, consumes once with the output that the finished tree stands for, and leaves no frame or buffer |
| `AsyncDriver.ProcessRoot.Wait` | development/compiler/crates/nocter-arm64/src/async_drive_code.rs:28-45 | a wait sets at least one readiness word that the returned interests name |
| `AsyncGroup.ScanFindsTheLeastReadyChild` | development/compiler/crates/nocter-arm64/src/async_group_code.rs:111-161 | a completed scan stops at the least index that is ready in that scan, and a pending one found none |
| `AsyncGroup.ScanReleasesNoChild` | development/compiler/crates/nocter-arm64/src/async_group_code.rs:111-161 | a scan releases no child |
| `AsyncGroup.GatheredLength` | development/compiler/crates/nocter-arm64/src/async_group_code.rs:289-319 | the accumulated count is the number of interests of the children polled so far |
| `AsyncGroup.ScanPollsInOrder` | development/compiler/crates/nocter-arm64/src/async_group_code.rs:220-273 | a scan polls each child once, in order, up to the first that ends it, and gives up exactly at a child whose poll traps or with which the interests are too many |
| `AsyncGroup.GatheredInChildOrder` | development/compiler/crates/nocter-arm64/src/async_group_code.rs:410-448 | the interests of earlier children come before those of later ones |
| `AsyncGroup.SlicedChildrenHaveInterests` | development/compiler/crates/nocter-arm64/src/async_group_code.rs:275-319 | every recorded slice still reads as the interests of its child |
| `AsyncGroup.Group.Resume` | development/compiler/crates/nocter-arm64/src/async_group_code.rs:111-161 | one resume scans the children in order, keeps both buffers consistent with their sizes, and returns the least ready index or all interests in child order |
| `GroupRuns.Wake` | development/compiler/crates/nocter-arm64/src/async_wait_code/signal.rs:286-346 | readiness words set between two resumes leave the group as live as it was, for the children with those leaves ready |
| `GroupRuns.RunsStaySound` | development/compiler/crates/nocter-arm64/src/async_group_code.rs:111-161 | over any polls and signals no child is released, and the outcome keeps naming a child that finished and is not consumed |
| `GroupRuns.RunToTheEnd` | development/compiler/crates/nocter-arm64/src/async_group_code.rs:111-218 | after any polls and signals, a cancel, or a consume of a completed group, unmaps exactly once what the group mapped, keeps the children, and a consume writes what the completing poll found |
| `AsyncGroup.Group.ScanChildren` | development/compiler/crates/nocter-arm64/src/async_group_code.rs:111-273 | the ordered scan with its recorded results |
| `AsyncGroup.Group.EnsureMetadataBuffer` | development/compiler/crates/nocter-arm64/src/async_group_code.rs:321-347 | the metadata buffer is reused or mapped, and is zero exactly when its size is |
| `AsyncGroup.Group.EnsureInterestBuffer` | development/compiler/crates/nocter-arm64/src/async_group_code.rs:349-396 | the interest buffer holds at least the accumulated count before anything is copied |
| `AsyncGroup.Group.CopyInterests` | development/compiler/crates/nocter-arm64/src/async_group_code.rs:410-448 | the interest buffer receives every slice, in child order |
| `AsyncGroup.Group.Cancel` | development/compiler/crates/nocter-arm64/src/async_group_code.rs:163-173 | cancel unmaps both buffers and the frame once and releases no borrowed child |
| `AsyncGroup.Group.Consume` | development/compiler/crates/nocter-arm64/src/async_group_code.rs:175-218 | consume of a completed scan writes the index and unmaps everything once |
| `AsyncGroup.Group.ReleaseAll` | development/compiler/crates/nocter-arm64/src/async_group_code.rs:506-549 | each temporary buffer is unmapped once, and the frame last |
| `AsyncResume.DeferredFrame.RunCalls` | development/compiler/crates/nocter-arm64/src/async_resume_code.rs:14-84 | however often awaited children stay pending, and whatever each call finds in its registers, the calls together are one run of the machine that keeps its environment; when they complete or trap, they return what one uninterrupted call with blocking awaits returns |
| `AsyncResume.DeferredFrame.Resume` | development/compiler/crates/nocter-arm64/src/async_resume_code.rs:117-160 | one call of the resume entry finds its state by tag, restores it, and takes the frame from one configuration of the plain machine to the next |
| `AsyncResume.DeferredFrame.RunBlock` | development/compiler/crates/nocter-arm64/src/async_resume_code.rs:14-84 | a block runs to its suspension, completion or next block, as the plain machine does |
| `AsyncResume.DeferredFrame.Poll` | development/compiler/crates/nocter-arm64/src/async_resume_code.rs:211-283 | polling the awaited child leaves its interests or its readiness, with the loans that the child changed |
| `AsyncResume.DeferredFrame.StayPending` | development/compiler/crates/nocter-arm64/src/async_resume_code.rs:211-283 | a child that is pending again needs no save: the frame already holds the state |
| `AsyncResume.DeferredFrame.Consume` | development/compiler/crates/nocter-arm64/src/async_resume_code.rs:285-314 | the child's output becomes the await's result |
| `AsyncResume.DeferredFrame.Complete` | development/compiler/crates/nocter-arm64/src/async_resume_code.rs:316-348 | completion stores the output and the completed tag |
| `AsyncResume.DeferredFrame.SaveFields` | development/compiler/crates/nocter-arm64/src/async_resume_code.rs:369-386 | saving writes exactly the frame ranges of the listed fields |
| `AsyncResume.DeferredFrame.RestoreFields` | development/compiler/crates/nocter-arm64/src/async_resume_code.rs:350-367 | restoring gives every listed field the value that its frame range holds |
| `AsyncResume.EntriesAgree` | development/compiler/crates/nocter-arm64/src/async_resume_code.rs:117-160 | if a state's fields cover what is live into its resume block, the restored activation agrees with the plain machine on everything live |
| `AsyncProgram.RunsAgree` | development/compiler/crates/nocter-arm64/src/async_resume_code.rs:14-84 | runs of the plain machine from states that agree on what is live stay the same in all that a caller can observe |
| `AsyncProgram.CallsAreOneBlockingCall` | development/compiler/crates/nocter-arm64/src/async_resume_code.rs:14-84 | when calls that return at every pending poll together finish or fault, so does one call in which every await polls and ticks until its child is done: same output, environment and world |
| `AsyncProgram.AwaitEndsOnce` | development/compiler/crates/nocter-arm64/src/async_resume_code.rs:211-314 | a blocking await that ends does not depend on how many more polls it would have taken |
| `AsyncProgram.AwaitChangesOnlyResultAndLoans` | development/compiler/crates/nocter-arm64/src/async_resume_code.rs:211-314 | however many polls stay pending, an await changes its result and what the child borrowed, nothing else |
| `AsyncProgram.InstructionStoresItsResults` | development/compiler/crates/nocter-arm64/src/async_resume_code.rs:14-84 | an instruction is given its operands in order, stores its results in order, cut or padded to their fields, and changes nothing else |
| `AsyncProgram.CodeRunsInOrder` | development/compiler/crates/nocter-arm64/src/async_resume_code.rs:14-84 | instructions run from the first to the last |
| `AsyncProgram.BlocksEndAsWritten` | development/compiler/crates/nocter-arm64/src/async_resume_code.rs:14-84 | a branch goes to the target that its operands choose, and a return gives the value of its field |
| `AsyncProgram.UnchangedLoansChangeNothing` | development/compiler/crates/nocter-arm64/src/async_resume_code.rs:260-274 | a pending child that gives its loans back as they were leaves the whole environment as it was |
| `AsyncProgram.PendingLoansComeBack` | development/compiler/crates/nocter-arm64/src/async_activation.rs:133-144 | the loans of a pending child come back each to its own stack object, and nothing else changes |
| `AsyncProgram.AwaitedOutputArrives` | development/compiler/crates/nocter-arm64/src/async_resume_code.rs:285-314 | the output of a completed child arrives in the awaited result, its loans in their own objects, and nothing else changes |
| `AsyncProgram.WritesInOrder` | development/compiler/crates/nocter-arm64/src/async_resume_code.rs:350-367 | each of several different fields holds the result at its own position |
| `AsyncFrame.SkippedSaveIsCurrent` | development/compiler/crates/nocter-arm64/src/async_resume_code.rs:211-283 | a frame that represents a state still represents it after a pending poll without a save |
| `AsyncFrame.SimilarIsRepresented` | development/compiler/crates/nocter-arm64/src/async_resume_code.rs:369-386 | a frame represents every environment that agrees on the saved fields |
| `AsyncFrame.SelectFields` | development/compiler/crates/nocter-arm64/src/async_activation.rs:126-170 | each field of a state must have a frame range; stack objects are addressed in place and the others copied |
| `ObjectLayout.BuildFrame` | development/compiler/crates/nocter-arm64/src/async_frame.rs:101-163 | every surviving identity gets one range of its own size and alignment; ranges are aligned in every frame that is, disjoint and inside the frame, whose alignment is the strictest of them and whose size is rounded up to it; this succeeds exactly when every identity is known, every alignment supported, and the size fits |
| `ObjectLayout.PlaceFields` | development/compiler/crates/nocter-arm64/src/async_frame.rs:301-343 | each field is placed once, at the next offset that suits its own alignment, and earlier ranges stay; this fails exactly for an unknown field, an unsupported alignment or an overflow |
| `ObjectLayout.PlaceHeader` | development/compiler/crates/nocter-arm64/src/async_frame.rs:270-299 | the process context, a retained pack and the output come first, behind the fixed header |
| `ObjectLayout.RoundingOverflows` | development/compiler/crates/nocter-arm64/src/object_layout.rs:41-57 | checking for overflow before rounding up refuses nothing that would fit |
| `ObjectLayout.ObjectSequence.Add` | development/compiler/crates/nocter-arm64/src/object_layout.rs:41-57 | a new object starts at the next offset behind all others that suits its alignment, and it is refused exactly for an unsupported alignment or an end beyond the address space |
| `ObjectLayout.ObjectSequence.ObjectsAreAligned` | development/compiler/crates/nocter-arm64/src/object_layout.rs:41-57 | every placed object is aligned at each base address that suits the whole sequence |
| `ObjectLayout.StateTags.TagsAreDistinct` | development/compiler/crates/nocter-arm64/src/async_frame.rs:357-377 | initial, suspension and completed tags are all different |
| `CancelAddress.AddressCodeComputes` | development/compiler/crates/nocter-arm64/src/async_cancel_code.rs:279-420 | the code of any address, at any offsets, leaves in x0 the address that the two working registers hold step by step, and traps exactly where they say |
| `CancelAddress.StepLeads` | development/compiler/crates/nocter-arm64/src/async_cancel_code.rs:303-361 | each step leaves in both working registers exactly the stated values, wide offsets included |
| `CancelPath.SelectedPathMeans` | development/compiler/crates/nocter-arm64/src/async_cancellation.rs:309-372 | the selected path means on the heap frame what the machine path means |
| `CancelPath.CancellationAddressIsDenoted` | development/compiler/crates/nocter-arm64/src/async_cancel_code.rs:279-420 | when nothing wide hits a register that is read later, resolution leaves in x0 the address that the path denotes on the heap frame and traps exactly where the path does |
| `CancelPath.PathIsRightExactlyWhenHarmless` | development/compiler/crates/nocter-arm64/src/async_cancel_code.rs:279-420 | every part of a path, with or without its root, is right in every state and world if and only if no wide offset is materialized in a register that is read later |
| `CancelPath.ViewDereferenceKeepsItsLength` | development/compiler/crates/nocter-arm64/src/async_cancel_code.rs:320-341 | a view's length survives the load of its pointer exactly when the pointer is at a narrow offset or the length equals the pointer's address |
| `CancelPath.ViewRootKeepsItsLength` | development/compiler/crates/nocter-arm64/src/async_cancel_code.rs:294-302 | the same for a view root in the heap frame |
| `CancelPath.FrameIndexIsExact` | development/compiler/crates/nocter-arm64/src/async_cancel_code.rs:363-435 | an index from the frame is right exactly when its offset is narrow, or comparing with its address and adding to its offset changes nothing |
| `CancelPath.FrameWordIsAddedExactly` | development/compiler/crates/nocter-arm64/src/async_cancel_code.rs:308-312 | adding a frame word to the address is right exactly when its offset is narrow or the address equals that offset |
| `CancelPath.ViewSurvivesAnOffset` | development/compiler/crates/nocter-arm64/src/async_cancel_code.rs:305-307 | an offset keeps the view length exactly when it can be encoded or equals that length |
| `CancelPath.FarFieldLosesTheAddress` | development/compiler/crates/nocter-arm64/src/async_cancel_code.rs:491-508 | a selected address with a field at 0x8000: its code computes the denoted address only if the frame lies at 0x8000 |
| `CancelAddress.SelectAddressSteps` | development/compiler/crates/nocter-arm64/src/async_cancellation.rs:309-372 | the loop follows whether there is a current view, rejects an index without one, and rejects the destruction of a view |
| `AddressAcceptance.FrameSelectionIsExact` | development/compiler/crates/nocter-arm64/src/async_cancellation.rs:242-412 | which addresses the cancel entry selects: only what the state keeps, no view at the end, and current-view bounds only where there is a view |
| `AddressAcceptance.FrameCodeIsExact` | development/compiler/crates/nocter-arm64/src/async_cancel_code.rs:279-435 | a selected path has code exactly when its view words and its unchecked constant indices fit a word |
| `Cancellation.EveryPageIsUnmappedOnce` | development/compiler/crates/nocter-arm64/src/async_cancel_code.rs:439-489 | over a whole cleanup a page is unmapped once when a released region has it, and never otherwise |
| `Cancellation.EveryEventIsCalledFor` | development/compiler/crates/nocter-arm64/src/async_cancel_code.rs:136-251 | over a whole cleanup every event happens as often as there are actions that call for it: a destruction whose initialization flag is zero never does |
| `Cancellation.CleanupIsInOrder` | development/compiler/crates/nocter-arm64/src/async_cancel_code.rs:136-251 | earlier actions of a state happen before later ones |
| `Cancellation.CancelledFrame.Cancel` | development/compiler/crates/nocter-arm64/src/async_cancel_code.rs:22-98 | the stored tag selects the cleanup, each action happens once and in order, the frame is unmapped last, and an unknown tag traps before anything happens |
| `Cancellation.CancelledFrame.DrainRegion` | development/compiler/crates/nocter-arm64/src/async_cancel_code.rs:439-489 | the next page is read before its page is unmapped; the head ends at zero and exactly the chain is unmapped |
| `CodeWords.WordsSimulateItems` | development/compiler/crates/nocter-arm64/src/code.rs:272-365 | running the words takes the control path of the labelled items for any number of steps, with an inverted branch over a jump for each expanded conditional |
| `CodeWords.ItemsStartAtTheirOffsets` | development/compiler/crates/nocter-arm64/src/code.rs:236-252 | each item starts at its computed byte offset |
| `CodeWords.EveryFixupNamesItsPlaceholder` | development/compiler/crates/nocter-arm64/src/code.rs:272-390 | every fixup offset is that of its own placeholder |
| `CodeWords.InvertedConditionIsTheOpposite` | development/compiler/crates/nocter-arm64/src/code.rs:272-365 | an inverted condition holds exactly when the condition does not |
| `CodeLayout.RelaxationIsLeast` | development/compiler/crates/nocter-arm64/src/code.rs:170-203 | relaxation ends with a valid expansion that every valid expansion contains |
| `CodeLayout.DistancesGrow` | development/compiler/crates/nocter-arm64/src/code.rs:404-410 | every displacement grows in magnitude with the set of expanded branches |
| `CodeLayout.TooFarStaysTooFar` | development/compiler/crates/nocter-arm64/src/code.rs:170-203 | a branch out of range stays out of range when more is expanded |
| `CodeLayout.RangesAreImmediates` | development/compiler/crates/nocter-arm64/src/code.rs:170-203 | a displacement is in range exactly when its number of instructions is a signed number of 19 or 26 bits |
| `CodeBuilder.Arm64CodeBuilder.Finish` | development/compiler/crates/nocter-arm64/src/code.rs:170-215 | succeeds exactly when every label is known and bound and the least expansion encodes, and returns its words and fixups |
| `CodeBuilder.Arm64CodeBuilder.ExpandFarBranches` | development/compiler/crates/nocter-arm64/src/code.rs:170-203 | one pass expands every short branch that is out of range |
| `CodeBuilder.Arm64CodeBuilder.ItemOffsets` | development/compiler/crates/nocter-arm64/src/code.rs:236-252 | running offsets of the items, or an overflow |
| `CodeBuilder.Arm64CodeBuilder.ResolveLabels` | development/compiler/crates/nocter-arm64/src/code.rs:254-270 | every label has the offset of its item, or the first unbound one is reported |
| `CodeBuilder.Arm64CodeBuilder.EncodeItems` | development/compiler/crates/nocter-arm64/src/code.rs:272-365 | the words and fixups of all items, or the first branch that cannot be encoded |
| `CodeBuilder.Arm64CodeBuilder.Bind` | development/compiler/crates/nocter-arm64/src/code.rs:84-93 | binds a label; a second binding and an unknown label are rejected |
| `CodeBuilder.FinishedCodeSimulatesItems` | development/compiler/crates/nocter-arm64/src/code.rs:170-215 | what finish returns simulates the item list |
| `Atomics.EveryScheduleIsLinearizable` | development/compiler/crates/nocter-arm64/src/atomic_code.rs:67-251 | under every interleaving, with reservations lost or stores failing spuriously, an order of indivisible operations explains the memory and every returned result |
| `Atomics.CallsActAtOnce` | development/compiler/crates/nocter-arm64/src/atomic_code.rs:67-251 | under every interleaving a transition succeeds exactly on the expected value and stores the replacement, an increment exactly below the maximum, a decrement exactly above zero; a failing call reports the value that it found and changes nothing |
| `Atomics.CountsStayWithinBounds` | development/compiler/crates/nocter-arm64/src/atomic_code.rs:132-251 | a count stays within 0 and its maximum, and is its start plus successes up minus successes down |
| `Atomics.SequentialCountsAreConserved` | development/compiler/crates/nocter-arm64/src/atomic_code.rs:132-251 | in the sequential history the count is conserved |
| `Atomics.StepKeepsConsistent` | development/compiler/crates/nocter-arm64/src/atomic_code.rs:67-251 | each instruction of any thread keeps what every thread may rely on |
| `Atomics.Builder.AppendAtomicStateTransition` | development/compiler/crates/nocter-arm64/src/atomic_code.rs:67-126 | the emitted loop is a guarded transition that retries lost reservations and clears on mismatch |
| `Atomics.Builder.AppendAtomicBoundedIncrement` | development/compiler/crates/nocter-arm64/src/atomic_code.rs:132-191 | the emitted loop increments only below the maximum |
| `Atomics.Builder.AppendAtomicNonzeroDecrement` | development/compiler/crates/nocter-arm64/src/atomic_code.rs:197-251 | the emitted loop decrements only above zero |
| `CheckedArithmetic.AddSubtractIsExact` | development/compiler/crates/nocter-arm64/src/arithmetic_check_code.rs:18-55 | traps exactly when the sum or difference is not representable, otherwise the destination holds the normalized result |
| `CheckedArithmetic.MultiplyIsExact` | development/compiler/crates/nocter-arm64/src/arithmetic_check_code.rs:210-270 | traps exactly when the product is not representable, including the signed 64-bit high-half test |
| `CheckedArithmetic.DivideIsExact` | development/compiler/crates/nocter-arm64/src/arithmetic_check_code.rs:112-161 | traps exactly for a zero divisor or the least number by minus one |
| `CheckedArithmetic.RemainderIsExact` | development/compiler/crates/nocter-arm64/src/arithmetic_check_code.rs:112-161 | traps as the quotient does, otherwise the remainder of truncating division |
| `CheckedArithmetic.QuotientTruncates` | development/compiler/crates/nocter-arm64/src/arithmetic_check_code.rs:112-161 | the remainder is smaller than the divisor and has the sign of the dividend |
| `CheckedArithmetic.DivisionTrapsWhereItMust` | development/compiler/crates/nocter-arm64/src/arithmetic_check_code.rs:112-161 | a division is refused exactly where its quotient is undefined or not representable |
| `CheckedArithmetic.ShiftIsExact` | development/compiler/crates/nocter-arm64/src/arithmetic_check_code.rs:88-110 | a checked shift traps exactly when the amount is not below the width; otherwise, and unchecked, the amount counts modulo the register width and the result is the normalized shift or the rotation |
| `CheckedArithmetic.RotationsCancel` | development/compiler/crates/nocter-arm64/src/arithmetic_check_code.rs:88-110 | rotating by an amount and by the rest of the width gives the number back |
| `CheckedArithmetic.LowBitsMoveToTheTop` | development/compiler/crates/nocter-arm64/src/arithmetic_check_code.rs:88-110 | a rotation to the right takes the low bits to the top and moves the others down |
| `CheckedArithmetic.HighHalfTells` | development/compiler/crates/nocter-arm64/src/arithmetic_check_code.rs:210-270 | the high half repeats the sign of the low half exactly when the product fits |
| `CheckedArithmetic.MinimumPatternReads` | development/compiler/crates/nocter-arm64/src/arithmetic_check_code.rs:197-208 | the pattern of the least number reads back as the least number at every width |
| `CheckedArithmetic.ExecRangeCheck` | development/compiler/crates/nocter-arm64/src/arithmetic_check_code.rs:272-310 | the narrow range check traps exactly outside the range |
| `Isa.ExecLoadImmediate` | development/compiler/crates/nocter-arm64/src/frame_access.rs:142-180 | the emitted moves load the immediate truncated to the data size |
| `ArithmeticBuilder.Builder.EmitAddSubtract` | development/compiler/crates/nocter-arm64/src/arithmetic_check_code.rs:18-55 | the builder appends exactly the proved sequence |
| `ArithmeticBuilder.Builder.EmitMultiply` | development/compiler/crates/nocter-arm64/src/arithmetic_check_code.rs:57-86 | the builder appends exactly the proved sequence |
| `ArithmeticBuilder.Builder.EmitDivisionCheck` | development/compiler/crates/nocter-arm64/src/arithmetic_check_code.rs:112-161 | the builder appends exactly the proved check |
| `ArithmeticBuilder.Builder.EmitShift` | development/compiler/crates/nocter-arm64/src/arithmetic_check_code.rs:88-110 | the builder appends exactly the proved sequence |
| `Deadlines.ConvertDeadline` | development/compiler/crates/nocter-arm64/src/async_wait_timeout_code.rs:12-63 | no deadline is the maximum word, a passed one 0, and any other the capped ceiling of its distance in milliseconds |
| `Deadlines.ConvertFinite` | development/compiler/crates/nocter-arm64/src/async_wait_timeout_code.rs:78-150 | the instruction steps give the capped ceiling and no intermediate product overflows |
| `Deadlines.TimeoutNeverFiresEarly` | development/compiler/crates/nocter-arm64/src/async_wait_timeout_code.rs:78-150 | an uncapped timeout never ends before the deadline, and ends less than a millisecond after it, even across one counter wrap |
| `Deadlines.CeilingInSteps` | development/compiler/crates/nocter-arm64/src/async_wait_timeout_code.rs:78-150 | whole seconds, then the rest, then one more for a remainder, add up to the ceiling |
| `Deadlines.FutureIsTheHalfAhead` | development/compiler/crates/nocter-arm64/src/async_wait_timeout_code.rs:30-44 | a deadline counts as future exactly when it lies ahead of the counter by less than half of the counter's period |
| `WaitLoop.Waiter.Wait` | development/compiler/crates/nocter-arm64/src/async_wait_code.rs:18-50 | the wait ends in each of its four ways exactly as its answers, events and readings say; when it returns, it has signalled those who wait for a vanished process, for the key of a returned event or for an eligible deadline, and no others, and somebody unless half a counter period was missed |
| `WaitLoop.Waiter.WaitUntilReady` | development/compiler/crates/nocter-arm64/src/async_wait_code.rs:223-266 | another call follows every interruption, and every empty answer while there is something to wait for; the loop fails exactly at another error, at a list longer than the registrations, or when a frequency out of range keeps the time left from being told; it wakes exactly at events, at once if something is ready, or at an eligible deadline |
| `WaitLoop.Waiter.PrepareTimeout` | development/compiler/crates/nocter-arm64/src/async_wait_code.rs:268-341 | no limit without a deadline, none to wait for what is ready, otherwise the time that is left of the earliest deadline at a fresh reading |
| `WaitLoop.BuildTimespec` | development/compiler/crates/nocter-arm64/src/async_wait_code.rs:268-341 | seconds and nanoseconds add up to the milliseconds and nanoseconds stay below a second |
| `WaitLoop.Waiter.Submit` | development/compiler/crates/nocter-arm64/src/async_wait_code.rs:152-221 | every registration is handed over in order, again after each interruption; the submission fails exactly at another error, at a returned event, or at a missing process for a registration that watches none; a missing process counts as ready |
| `WaitLoop.RegistrationsTellKeys` | development/compiler/crates/nocter-arm64/src/async_wait_code/change.rs:122-185 | native interests are told apart by the subject and the filter that are registered for them |
| `WaitLoop.Waiter.Translate` | development/compiler/crates/nocter-arm64/src/async_wait_code/change.rs:10-285 | accepts exactly well-formed records, registers the first of each native key, and finds the least deadline |
| `WaitLoop.Waiter.SignalNativeEvents` | development/compiler/crates/nocter-arm64/src/async_wait_code/signal.rs:11-149 | every event sets the readiness words of all interests with its key; the first faulty event fails the wait when it is an error and is a corrupt record otherwise |
| `WaitLoop.Waiter.SignalExpiredTimers` | development/compiler/crates/nocter-arm64/src/async_wait_code/signal.rs:286-346 | exactly the timers whose deadline is eligible are signalled |
| `WaitLoop.EligibleStays` | development/compiler/crates/nocter-arm64/src/async_wait_code/signal.rs:286-346 | an eligible deadline stays eligible until it is half a counter period overdue |
| `WaitLoop.NumericOrderIsTimeOrder` | development/compiler/crates/nocter-arm64/src/async_wait_code/change.rs:254-272 | the lesser of two deadlines leaves no more time exactly when it has passed, or neither has and the counter does not lie between them |
| `WaitLoop.LeastDeadlineIsNext` | development/compiler/crates/nocter-arm64/src/async_wait_code/change.rs:254-272 | the least deadline leaves the least time to wait exactly when it has passed, or none has and the counter does not wrap between the deadlines |
| `WaitLoop.EarliestIsNext` | development/compiler/crates/nocter-arm64/src/async_wait_code/change.rs:254-272 | the deadline that the loop keeps for a list of interests is the next of its timers under that condition and no other |
| `WaitLoop.MaximumWordIsNoDeadline` | development/compiler/crates/nocter-arm64/src/async_wait_code/change.rs:254-272 | there is no deadline exactly when every timer's deadline is the maximum word |
| `WaitLoop.LeastDeadlineCanBeLater` | development/compiler/crates/nocter-arm64/src/async_wait_code/change.rs:254-272 | two timers around a wrap for which the timeout of the kept deadline sleeps 15 milliseconds past the nearer one |
| `AggregateSelection.RegisterPathAgreesWithMemoryPath` | development/compiler/crates/nocter-arm64/src/aggregate_selection.rs:17-140 | whenever a plan exists, each result register agrees on its lane bytes with zero-filled memory, every write done there in order, and the lanes loaded back |
| `AggregateSelection.SelectedRegistersHoldTheAggregate` | development/compiler/crates/nocter-arm64/src/aggregate_selection.rs:17-78 | whichever path is selected, the result registers hold the bytes of the aggregate |
| `AggregateSelection.MemoryHoldsTheImage` | development/compiler/crates/nocter-arm64/src/aggregate_selection.rs:142-267 | the stores leave in the destination the zero-filled bytes with every member stored, and no other object changes |
| `AggregateMembers.SelectedMemoryHoldsTheMembers` | development/compiler/crates/nocter-arm64/src/aggregate_selection.rs:44-60 | the code selected for a result in memory leaves at each of its bytes that of the last member over it, copies and tags at their offsets, or zero, and changes nothing else |
| `AggregateMembers.SelectedRegistersHoldTheMembers` | development/compiler/crates/nocter-arm64/src/aggregate_selection.rs:17-140 | the code selected for a result in registers leaves the same bytes in its lanes, on either path |
| `AggregateMembers.SelectionIsExact` | development/compiler/crates/nocter-arm64/src/aggregate_selection.rs:17-78 | which aggregates are selected: by a plan with at most two general lanes, by staging or home when every write is accepted there, or without bytes |
| `AggregateMembers.WritesAreExact` | development/compiler/crates/nocter-arm64/src/aggregate_selection.rs:142-265 | memory accepts exactly writes in bounds whose values have a matching home apart from the destination |
| `AggregateCode.LastStoreWins` | development/compiler/crates/nocter-arm64/src/aggregate_selection.rs:142-267 | each byte of the memory form comes from the last write that covers it |
| `AggregatePlan.PlannedWritesAreDisjoint` | development/compiler/crates/nocter-arm64/src/aggregate_plan.rs:58-127 | no two writes of a plan share a byte |
| `AggregatePlan.PlanIgnoresOrder` | development/compiler/crates/nocter-arm64/src/aggregate_plan.rs:26-46 | recipes with the same writes in any order have the same plan, or none |
| `AggregatePlan.PlanIsExact` | development/compiler/crates/nocter-arm64/src/aggregate_plan.rs:26-127 | there is a plan exactly when there is a register for each lane, every write falls on lanes, and no two share a byte |
| `AggregateSelection.PlannedWritesAreAccepted` | development/compiler/crates/nocter-arm64/src/aggregate_selection.rs:152-265 | a recipe with a plan is accepted by the memory path exactly when its empty values are in bounds and its floating widths are their sizes |
| `AggregateSelection.PlanAcceptsAnEmptyValueOutOfBounds` | development/compiler/crates/nocter-arm64/src/aggregate_plan.rs:141-148 | an empty value behind the end has a plan and is rejected by the memory path |
| `AggregateSelection.PlansAreSelectable` | development/compiler/crates/nocter-arm64/src/aggregate_selection.rs:80-140 | a plan is refused exactly when more than two lanes come from general registers |
| `AggregateSelection.CopiesHappenTogether` | development/compiler/crates/nocter-arm64/src/aggregate_selection.rs:88-138 | general lanes are copied at once, so that a destination may be another lane's source |
| `AggregateSelection.DeferredLanesFollow` | development/compiler/crates/nocter-arm64/src/aggregate_selection.rs:88-138 | the other lanes follow, each in its own register |
| `AggregateBuilder.BuildPlan` | development/compiler/crates/nocter-arm64/src/aggregate_plan.rs:26-46 | the loop builds exactly that plan |
| `AggregateBuilder.LaneBuilder.ApplyValue` | development/compiler/crates/nocter-arm64/src/aggregate_plan.rs:129-180 | one member: accepted for whole, matching lanes only, and written once |
| `AggregateBuilder.LaneBuilder.ApplyWrite` | development/compiler/crates/nocter-arm64/src/aggregate_plan.rs:95-127 | one write of the recipe, repeated values included |
| `AggregateBuilder.LaneBuilder.WriteTag` | development/compiler/crates/nocter-arm64/src/aggregate_plan.rs:66-78 | a tag byte needs its byte unwritten in a lane without a register |
| `AggregateBuilder.LaneBuilder.WriteFull` | development/compiler/crates/nocter-arm64/src/aggregate_plan.rs:80-87 | a register needs the whole lane unwritten |
| `AggregateBuilder.SelectAggregate` | development/compiler/crates/nocter-arm64/src/aggregate_selection.rs:17-78 | the method selects exactly that code: for registers when there is a plan, through memory otherwise, or the first error |
| `AggregateBuilder.SelectDirectAggregate` | development/compiler/crates/nocter-arm64/src/aggregate_selection.rs:80-140 | emits the copies first and together, then the other lanes |
| `AggregateBuilder.AggregateWriteSelection.SelectValue` | development/compiler/crates/nocter-arm64/src/aggregate_selection.rs:197-265 | emits the stores of one member or the first error |
| `AggregateBuilder.ValidateOmittedAggregate` | development/compiler/crates/nocter-arm64/src/aggregate_selection.rs:307-331 | an aggregate without bytes admits only members without bytes |
| `AddressCode.ResolvedAddressIsDenoted` | development/compiler/crates/nocter-arm64/src/address_code.rs:18-137 | resolving an accepted address leaves in x0 the address that the machine path denotes modulo 2^64 and in x1 its view length, traps exactly where the path does, and changes no register but x0, x1, x16 and x17 |
| `Addresses.SelectionPreservesMeaning` | development/compiler/crates/nocter-arm64/src/address_selection.rs:167-240 | the selected address means what the machine path means; every current-view bound reads the length set by the latest view root or view dereference; folded stack paths sum to the same address |
| `Addresses.OffsetsAddUp` | development/compiler/crates/nocter-arm64/src/address_selection.rs:242-265 | a folded stack offset is the address of the path |
| `Addresses.StepsAreTracked` | development/compiler/crates/nocter-arm64/src/address_selection.rs:177-228 | the length register holds the current view's length wherever there is one |
| `AddressAcceptance.SelectionIsExact` | development/compiler/crates/nocter-arm64/src/address_selection.rs:167-265 | which addresses are selected: roots and values in the right places, an index bounded by the current view only where there is one, and a view at the end as expected; leading offsets on the stack fit a word |
| `AddressAcceptance.ResolutionIsExact` | development/compiler/crates/nocter-arm64/src/address_code.rs:18-137 | a selected address has code exactly when everything it names has a place and its unchecked constant indices fit a word |
| `AddressCode.StepResolves` | development/compiler/crates/nocter-arm64/src/address_code.rs:74-137 | each step's code does the step, or traps where it stops |
| `AddressCode.IndexResolves` | development/compiler/crates/nocter-arm64/src/address_code.rs:259-323 | an index with its check traps exactly when required and out of bounds, or when proven to trap |
| `AddressCode.BoundsCheckTraps` | development/compiler/crates/nocter-arm64/src/address_code.rs:325-345 | the check traps exactly when the index is not below the bound |
| `AddressCode.AddOffsetAdds` | development/compiler/crates/nocter-arm64/src/address_code.rs:376-406 | an offset is added in every encoding, and a wide one takes one scratch register |
| `AddressCode.LoadNativeLoads` | development/compiler/crates/nocter-arm64/src/address_code.rs:408-507 | a load at any offset reads there and takes scratch registers only |
| `AddressCode.RootResolves` | development/compiler/crates/nocter-arm64/src/address_code.rs:18-67 | each root's code leaves its address, and its length for a view |
| `AddressBuilder.SelectAddress` | development/compiler/crates/nocter-arm64/src/address_selection.rs:167-240 | the loop selects exactly that address or the first error |
| `AddressBuilder.SelectStaticStack` | development/compiler/crates/nocter-arm64/src/address_selection.rs:242-265 | folds a stack path of offsets alone, with the overflow error |
| `AddressBuilder.AddressEmitter.EmitResolve` | development/compiler/crates/nocter-arm64/src/address_code.rs:18-72 | the emitter appends exactly the proved code or reports the first error |
| `AddressBuilder.AddressEmitter.EmitIndex` | development/compiler/crates/nocter-arm64/src/address_code.rs:259-323 | appends the code of one index with its check |
| `AddressBuilder.AddressEmitter.EmitLoadNative` | development/compiler/crates/nocter-arm64/src/address_code.rs:408-507 | appends a load whose wide offset goes through free registers |
| `FragmentedStore.FragmentedStoreIsExact` | development/compiler/crates/nocter-arm64/src/memory_code.rs:318-355 | a store in fragments is exact for all values if and only if the width is not 7, or the source is not a scratch register, or the address of the second fragment can be encoded |
| `FragmentedStore.StoreTells` | development/compiler/crates/nocter-arm64/src/frame_access.rs:63-81 | for one value, in a register or spilled: its bytes are stored exactly when the last one is not lost or equals byte 6 of the formed address |
| `TransportEntry.ArgumentsRoundTrip` | development/compiler/crates/nocter-arm64/src/call_selection.rs:88-155 | for every argument list, the caller's moves and the callee's entry code leave in each parameter object the caller's bytes, except for a last byte that is lost; an argument arrives exactly when no byte is lost or the lost one equals the byte in its place |
| `TransportEntry.ArgumentListIsExact` | development/compiler/crates/nocter-arm64/src/call_selection.rs:88-155 | all values of an argument list arrive exactly if and only if no stack parameter has a last lane of 7 bytes at an offset that loses its tail |
| `TransportEntry.NinthArgumentArrivesChanged` | development/compiler/crates/nocter-arm64/src/call_selection.rs:479-530 | a ninth argument of 7 bytes at frame offset 65 arrives with byte 6 of an address as its last byte |
| `TransportAcceptance.CallIsExact` | development/compiler/crates/nocter-arm64/src/call_selection.rs:599-763 | a call has code exactly when every argument is of its class and its location has room |
| `TransportAcceptance.EntryIsExact` | development/compiler/crates/nocter-arm64/src/call_selection.rs:88-155 | an entry has code exactly when there is a parameter for every argument and each can be filled from its location |
| `TransportAcceptance.ConstructorIsExact` | development/compiler/crates/nocter-arm64/src/async_constructor_code.rs:91-221 | a constructor has staging code exactly when every staging object can take its argument |
| `Transport.ArgumentsAreDelivered` | development/compiler/crates/nocter-arm64/src/call_selection.rs:599-763 | the caller's moves, one after another, put every argument at its location, and no move changes a value that a later one reads |
| `Transport.ArgumentIsDelivered` | development/compiler/crates/nocter-arm64/src/call_selection.rs:667-763 | the code of one argument brings it to its location and touches nothing else |
| `Transport.DeliveredIsKept` | development/compiler/crates/nocter-arm64/src/call_selection.rs:599-665 | a later argument never disturbs one that is delivered |
| `NocterAbi.AllocatableRegistersAreSeparate` | development/compiler/crates/nocter-arm64/src/abi.rs:144-175 | no allocatable register is an argument, scratch, indirect-result or context register |
| `TransportEntry.EarlyPass` | development/compiler/crates/nocter-arm64/src/call_selection.rs:112-123 | the first pass stores every register argument before any scratch register is needed |
| `TransportEntry.LatePass` | development/compiler/crates/nocter-arm64/src/call_selection.rs:124-153 | the second pass completes stack and indirect arguments, apart from lost tails, and keeps the finished ones |
| `TransportEntry.LateParameterArrives` | development/compiler/crates/nocter-arm64/src/call_selection.rs:479-597 | one stack or indirect argument lands in its object: its bytes, except for a last byte that is lost |
| `Constructor.ConstructorCapturesArguments` | development/compiler/crates/nocter-arm64/src/async_constructor_code.rs:11-63 | the constructor of a deferred function captures into the heap frame exactly the bytes that the caller passed |
| `Constructor.StagingHoldsArguments` | development/compiler/crates/nocter-arm64/src/async_constructor_code.rs:91-221 | staging leaves every argument's exact bytes in its object, at whatever offset it lies |
| `Constructor.RegisterStagingsAreEarly` | development/compiler/crates/nocter-arm64/src/async_constructor_code.rs:91-155 | register staging is the same code as a callee's register pass |
| `Constructor.StackParameterIsStaged` | development/compiler/crates/nocter-arm64/src/async_constructor_code.rs:157-189 | a slot is copied whole: the value, or the pointer to it |
| `Constructor.IndirectParameterCloses` | development/compiler/crates/nocter-arm64/src/async_constructor_code.rs:191-221 | the staged pointer is replaced by what it points to, while it stays in x0 |
| `Constructor.HeapChunksCopy` | development/compiler/crates/nocter-arm64/src/async_constructor_code.rs:289-324 | a staging object is copied to its field chunk by chunk, with the mapping loaded anew |
| `TransportBuilder.Selection.SelectCallArguments` | development/compiler/crates/nocter-arm64/src/call_selection.rs:599-665 | the loop selects exactly the proved moves or reports the first error |
| `TransportBuilder.Selection.SelectParameters` | development/compiler/crates/nocter-arm64/src/call_selection.rs:88-155 | two loops: register parameters, then all others |
| `TransportBuilder.Selection.SelectLateParameter` | development/compiler/crates/nocter-arm64/src/call_selection.rs:124-153 | selects one parameter of the second pass or its error |
| `TransportBuilder.Selection.StageParameters` | development/compiler/crates/nocter-arm64/src/async_constructor_code.rs:91-221 | the constructor's three staging loops |
| `TransportBuilder.Selection.CopyCapturesToHeap` | development/compiler/crates/nocter-arm64/src/async_constructor_code.rs:274-287 | copies every staging object into its field, or reports a size mismatch |
| `SourceEdits.ApplyEdits` | development/compiler/crates/nocter-analysis/src/source_edits.rs:185-231 | applying canonical edits from last to first equals simultaneous substitution in original coordinates, and succeeds exactly when every endpoint is a character boundary of the original text |
| `SourceEdits.CanonicalEditGroups` | development/compiler/crates/nocter-analysis/src/source_edits.rs:233-278 | sorted groups in increasing order of source; the error is an empty mutation, else the least source whose edits overlap, else the least that is missing |
| `SourceEdits.NeighboursSuffice` | development/compiler/crates/nocter-analysis/src/source_edits.rs:252-269 | the check of adjacent pairs implies that no two edits overlap |
| `SourceEdits.SortingIsStable` | development/compiler/crates/nocter-analysis/src/source_edits.rs:233-252 | edits of one range keep their input order |
| `SourceEdits.BoundariesAreOriginal` | development/compiler/crates/nocter-analysis/src/source_edits.rs:185-231 | a start is a character boundary of the edited text exactly when it is one of the original |
| `SourceEdits.OneMoreEdit` | development/compiler/crates/nocter-analysis/src/source_edits.rs:185-231 | one more edit in front extends the substitution by its gap and its text |
| `SourceEdits.ReplacementsArrive` | development/compiler/crates/nocter-analysis/src/source_edits.rs:185-231 | every replacement stands where its range was, moved by the edits in front of it |
| `SourceEdits.OtherBytesAreKept` | development/compiler/crates/nocter-analysis/src/source_edits.rs:185-231 | every byte that no range covers is kept, moved by the edits in front of it, and there is nothing else |
| `SourceEdits.GroupsKeepOrder` | development/compiler/crates/nocter-analysis/src/source_edits.rs:233-252 | the group of a source has its edits in input order |
| `SourceEdits.CandidateTexts` | development/compiler/crates/nocter-analysis/src/source_edits.rs:185-231 | every edited source gets its substituted text and every other keeps its own, or the error names the least source with an endpoint that is no character boundary |
| `UnicodeRanges.MergeRanges` | development/unicode/lib/ucd.js:56-68 | merging gives sorted ranges separated by gaps with exactly the same members; merged scalar ranges are valid and none crosses the surrogates |
| `UnicodeRanges.SeparatedFormIsUnique` | development/unicode/lib/ucd.js:56-68 | there is one such list for a set of scalars |
| `UnicodeRanges.Contains` | development/unicode/lib/validate.js:12-23 | binary search over separated ranges answers membership exactly |
| `UnicodeRanges.ValidateRanges` | development/unicode/lib/validate.js:31-56 | accepts exactly valid, nonempty ranges |
| `UnicodeRanges.TotalIsMemberCount` | development/unicode/lib/validate.js:25-29 | the summed lengths are the number of members |
| `UnicodeCasing.PackedTablesAreValid` | development/unicode/lib/ucd.js:159-191 | packed tables pass the validation that consumers rely on |
| `UnicodeCasing.CasingOf` | development/unicode/lib/validate.js:58-62 | the packed tables answer every scalar with its effective casing; a scalar without a key maps to itself |
| `UnicodeCasing.SlicesAreSequences` | development/unicode/lib/ucd.js:159-176 | each packed slice is the record's sequence |
| `UnicodeCasing.PackMappings` | development/unicode/lib/ucd.js:159-176 | keys in order, slices back to back |
| `UnicodeCasing.PackLowerMappings` | development/unicode/lib/ucd.js:178-191 | the lower table keeps one record for each changing scalar |
| `UnicodeCasing.BuildMapping` | development/unicode/lib/ucd.js:143-157 | exactly the scalars that change, in order, special casing first |
| `UnicodeCasing.FindKey` | development/unicode/lib/validate.js:58-62 | binary search finds the key or that there is none |
| `UnicodeCasing.ValidatePackedMapping` | development/unicode/lib/validate.js:68-110 | accepts exactly the valid tables |
| `UnicodeCasing.ParseUnicodeData` | development/unicode/lib/ucd.js:74-109 | ranges given by their first and last line are completed, and unordered or open ranges are rejected |
| `UnicodeCasing.LineDecidesCasing` | development/unicode/lib/ucd.js:74-157 | a scalar with a line of its own is cased by that line's lower and upper fields, and by itself where a field is empty, unless its casing is special |

## Left out

- AsyncRuntime.Runtime.Resume: the frame of a deferred function inside a tree is not a node kind; trees are made of leaf waits, joins and races, and deferred frames have their own model in `AsyncResume`.
- Atomics.EveryScheduleIsLinearizable: memory is sequentially consistent apart from the exclusive monitors; barriers and acquire/release ordering are not modelled.
- CancelPath.PathIsRightExactlyWhenHarmless: goes both ways for all parts of a path, from every state that stands at their start; a whole path with a harmful part can still be right from its root when an earlier step always traps or its words coincide.
- AddressCode.ResolvedAddressIsDenoted: memory is read as doublewords at addresses modulo 2^64; faults of the memory system are not modelled.
- AggregateSelection.MemoryHoldsTheImage: its stores read virtual registers and are one step each; register allocation is not modelled. A member of 7 bytes whose register is spilled is stored from x16 and can lose its last byte like a stack argument (`FragmentedStore.StoreTells`).
- TransportEntry.ArgumentsRoundTrip: loads in fragments are one step, because they are assembled in a destination that their scratch registers avoid; stack and heap addresses are unbounded naturals below the size of one memory; hidden allocation and process contexts, argument packs and call results are not modelled.
- Constructor.ConstructorCapturesArguments: mapping the frame and writing its header are one step that keeps the staging objects.
- AggregateCode.LastStoreWins: frame objects are separate byte ranges, not addresses in one memory.
- AsyncGroup.Group.Resume: the borrowed child set does not change while the group runs.
- CheckedArithmetic.ShiftIsExact: rotations are those of unsigned 64-bit words, the only ones that are selected.
- Cancellation.CancelledFrame.Cancel: destruction functions and child cancels are events that do not change the words of the frame; the address of each destruction is given.
- WaitLoop.Waiter.Wait: the kernel's answers and the counter are given sequences; the event queue's own contents are foreign, and opening and closing it are left out; where either fails, the source fails the wait.
- CodeWords.WordsSimulateItems: instruction encodings are abstract words with their branch ranges; page and offset fixups are resolved by the program linker.
- SourceEdits.CanonicalEditGroups: the library's stable sort is an insertion sort here; text is bytes with character boundaries.
- UnicodeCasing.ParseUnicodeData: lines arrive split into fields; reading archives and hexadecimal scalars is not modelled.
- Failure of `munmap` traps in the source and is not modelled; a failed `mmap` traps.
- Register allocation, liveness and argument assignment are preconditions: live fields cover what is live, spans and slots are disjoint, values live in allocatable registers or in their own frame.
- Restoring the ambient allocation and process contexts on resume and cancel.
- Darwin system calls, block, datagram and file services.
- Identity tables, target declarations and the text of errors would add only easy members.
