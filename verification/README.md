# Verified model of the TFLite memory planner, graph partitioner and checked arithmetic

This project models four parts of the TFLite runtime in LiteRT and proves what they are for.

**Memory planner and arena.** `ArenaPlanner` computes a lifetime for every tensor by two rounds of
reference counting, lets in-place operators share one buffer, and places tensors by offset through
`SimpleMemoryArena`, an aligned best-fit allocator over intervals of time and address. The classes
`ArenaPlanner`, `SimpleMemoryArena` and `ResizableAlignedBuffer` keep the fields and the control
flow of the original. Their methods are proved equal to functions on values (`ArenaPlacement`,
`Liveness`, `InPlace`, `ArenaLayout`), and the theorems are about those. The chain of results is:

1. lifetimes are exact and cover every use of a tensor or of one that shares its buffer
   (`LivenessTheorems`);
2. a new allocation avoids every live one, in every run of the arena whose recalculations start from
   records of that arena (`ArenaPlacement`, `ArenaRuns`), and purging changes no answer;
3. the planner places tensors in a fixed order, which packs those that live for the whole run at the
   start of the arena (`PlacementOrder`);
4. every call of the planner keeps an invariant (`ArenaPlanner.Valid`), so every run of the protocol
   does (`ArenaProtocol`);
5. in every state so reached, tensors in use at the same node never overlap, and addresses are right
   and aligned (`ArenaSafety`);
6. hence running the nodes in the two arenas computes the same values as running them with separate
   memory for each tensor, for arbitrary kernels, those that update variable tensors included
   (`ArenaExecution`, `ArenaSafety.GraphRunsInArena`), and also when planning goes on between the
   nodes and the buffers grow under the tensors already there (`ArenaInference`). Only tensors whose
   allocation type puts them elsewhere are taken to have memory of their own; every other tensor a
   node uses must have a place in an arena, and `ArenaSafety.PlacedNodeIsCoveredIff` says exactly
   which placed nodes meet that.

The planner protocol is: `PlanAllocations`; then `ExecuteAllocations` over node intervals that skip
no node; at any time `ResetAllocationsAfter(n)` for a node `n` already reached, after which execution
goes on with `n` or `n + 1`, or `ResetAllocations`, after which it starts over with the same plan;
release and re-acquisition of the memory; and in between, operators may resize tensors of later
nodes, change their allocation type as long as they have no space, and add temporaries. Going back
without a reset empties the arena's list, which is safe exactly when nothing placed outlives the last
node placed (`ArenaLayout.ForgettingIsSafeIff`); that is what the protocol asks for in such a call.

**Graph partitioner.** `Partitioner.PartitionerImpl` keeps the epochs, the control-edge counters and
the passes of the original and is proved equal to a scheduling function (`Schedule.Partition`), about
which soundness, completeness, order preservation, optimality and preservation of meaning are proved.
`ExecutionOrder` says what a partition is in terms of the graph alone.
Nodes may update the variable tensors they read.

**Checked arithmetic.** `CheckedInt` models every integer type by its width and sign, the builtin and
the hand-written operations, and the 64-bit product from 32-bit halves.

**Tensor sizes.** `TensorSize` models the overflow-checked product and the byte size of a tensor.

Where properties turned out to be false, the code is modelled as it is:

* **In-place sharing can lose a value.** The planner checks the reference counts of the input and of
  the owner of the buffer, but not those of tensors in between. `OverwritingCanLoseAValue` is a
  concrete graph (two reshapes, an in-place operator, and a later reader of the first reshape) where
  a value is overwritten while it is still needed. Exactly when nothing is lost: the counters of all
  tensors that share the buffer so far are spent by the overwriting node
  (`OverwritingLosesNothingIff`); single references in between suffice (`OverwritingLosesNothing`).
  Whenever a value is lost, some kernels make a node read a wrong value in every run
  (`LostValueIsRead`).
* **Best fit need not be a shortest fit.** The length compared for a candidate excludes the padding,
  the length recorded for the chosen gap includes it. `UnalignedGapsDefeatBestFit` is an input where a
  longer gap is chosen. The chosen gap is a shortest one if and only if no fitting gap after the last
  of the shortest looks shorter with its padding taken off (`ShortestGapIff`); aligned gaps suffice.
* **A recalculated list can hold conflicting entries.** `ResetAllocationsAfter` hands the records of
  both arenas to `CalculateActiveAllocs` of one. `RecalculationCanExceedTheMark` is an instance where
  the live bytes then exceed the high-water mark; `RecalculationKeepsInvariantIff` says exactly when
  the list stays in order. Placement stays safe all the same (`ArenaLayout.RebuildingKeepsLayout`).
* **A persistent tensor can end up without space.** One that has none yet gets none exactly when it
  was to borrow from a tensor of its size in the other arena (`PersistentHasSpaceIff`).
  `BorrowerHasNoSpace` runs the planner on such a graph: it reports success, and the last node reads a
  tensor without memory.
* **A persistent tensor that grows keeps its old space.** After a reset its size may change, but the
  planner only asks whether it has space at all. It has enough exactly when it had none before, or
  enough (`PersistentHasItsBytesIff`). `OutgrownTensorsOverlap` is a run that ends with success and two
  persistent tensors that overlap.
* **Greedy partitioning can let a reader overtake an update.** A node that updates a variable tensor is
  not marked as having side effects, so nothing keeps it in order with other nodes that read the
  variable. `UpdateCanBeOvertaken` is a graph where that changes the result. Meaning is kept for every
  choice of delegated nodes and all kernels if and only if data and control dependencies order any two
  such nodes, node 0 apart (`GreedyKeepsMeaningIff`).
* **The rounding of packed types can wrap.** For 4-bit and 2-bit types with an element count close to
  `SIZE_MAX` the addition before the division wraps (`RoundingCanWrap`); `BytesRequired` states the
  exact condition for a right answer.
* **Mixed operand types.** Without compiler builtins `CheckedInt` reports overflow for operands that
  the common type cannot hold even when the result fits (`MixedFallbackIsStricter`,
  `MixedFallbackDiffers`).
* **A documented flag is ignored.** `tflite/core/c/common.h:1101-1127` says that with
  `kTfLiteInplaceInputCanBeSharedWithCorrespondingOutput` input N may share with output N only. The
  planner always shares with the first output. `CorrespondingOutputIsIgnored` is a graph where it
  oversteps the flags, and `SharesAsPermittedIff` says exactly when it does.

## Model

| member | source | states |
|---|---|---|
| `Common.CheckedAdd` | tflite/simple_memory_arena.cc:57-65 | fails exactly when the true sum is no `size_t`, otherwise gives the true sum |
| `Common.AlignToIsLeast` | tflite/simple_memory_arena.cc:68-81 | the aligned offset is the least multiple of the alignment not below the offset, and failure means that multiple is no `size_t` |
| `ArenaPlacement.AllocateIsSafe` | tflite/simple_memory_arena.cc:293-357 | a successful nonempty allocation is aligned, below the high-water mark, and shares no byte with any listed allocation whose usage interval meets its own; needs only that the list is sorted |
| `ArenaPlacement.LiveInMeans` | tflite/simple_memory_arena.cc:313-317 | the test that skips an entry of the list says exactly that it is live at no node of the request |
| `ArenaPlacement.EarlyExitIsUnreachable` | tflite/simple_memory_arena.cc:338-341 | the early exit of the walk is never taken: the scan with it and the scan without it agree on every list |
| `ArenaPlacement.AllocateSucceeds` | tflite/simple_memory_arena.cc:293-357 | with a usable alignment an allocation can fail only because addresses run past the largest `size_t`, and it raises the mark by no more than its size and alignment |
| `ArenaBestFit.AllocationFailsIff` | tflite/simple_memory_arena.cc:308-350 | a nonempty request fails if and only if some start that is computed runs past the largest `size_t`: below an entry live with it, or behind all of them when it fits in no gap |
| `ArenaBestFit.GapIsUsedWhenOneFits` | tflite/simple_memory_arena.cc:308-345 | the block goes behind everything only if no gap fits; otherwise it starts a fitting gap, a first shortest one when the gaps start aligned |
| `ArenaBestFit.ShortestGapIff` | tflite/simple_memory_arena.cc:308-345 | the chosen gap is one of the shortest that fit if and only if no fitting gap after the last of these is shorter than them once its own padding is taken off |
| `ArenaBestFit.LastShortestExists` | tflite/simple_memory_arena.cc:308-345 | whenever some gap fits there is a last shortest one, so the equivalence decides every such input |
| `ArenaBestFit.UnalignedGapsDefeatBestFit` | tflite/simple_memory_arena.cc:328-333 | an input with unaligned gaps where a longer fitting gap is chosen |
| `ArenaRuns.StepKeepsInvariant` | tflite/simple_memory_arena.cc:250-357 | every arena operation other than a recalculation keeps the list sorted, live entries disjoint and below the mark, and a recalculation does so exactly when the records it starts from are free of conflicts and below the mark; a failed allocation changes neither list nor mark |
| `ArenaRuns.RunKeepsInvariant` | tflite/simple_memory_arena.cc:250-394 | over a whole sequence of operations the invariant holds throughout if and only if every recalculation fits |
| `ArenaRuns.RecalculationKeepsInvariantIff` | tflite/simple_memory_arena.cc:280-289 | a recalculated list meets the invariant if and only if the records live at the node are nonempty, pairwise free of conflicts and end below the mark |
| `ArenaRuns.WithoutRecalculationAllFit` | tflite/simple_memory_arena.cc:250-394 | sequences of the other operations always fit, so the results about fitting runs hold for them without more |
| `ArenaRuns.RecalculationCanExceedTheMark` | tflite/arena_planner.cc:88-89 | two records at one offset, as those of two arenas can be, whose recalculation gives eight live bytes under a mark of four |
| `ArenaRuns.UtilizationBound` | tflite/simple_memory_arena_debug_dump.cc:173-189 | after any run whose recalculations fit, the sizes of all active allocations live at a node add up to at most the high-water mark |
| `ArenaRuns.PurgingChangesNoAnswer` | tflite/simple_memory_arena.cc:265-278 | a paced run with and without its purges gives the same replies and mark, and the purged list is the full one without entries that end before the latest purged node |
| `ArenaRuns.PurgesCanBeLeftOut` | tflite/simple_memory_arena.h:122-127 | `PurgeActiveAllocs` has no impact on results: all purges of a paced run can be left out |
| `ArenaPlacement.PurgesCount` | tflite/simple_memory_arena.cc:250-278 | a purge keeps every copy of the entries still alive, or already begun, and no copy of the others |
| `ArenaPlacement.RecalculationCounts` | tflite/simple_memory_arena.cc:280-289 | a recalculation takes every copy of the records whose interval contains the node, and nothing else |
| `MemoryArena.ResizableAlignedBuffer.Resize` | tflite/simple_memory_arena.cc:201-234 | succeeds exactly when the alignment is usable and the new size is no larger or a block can be had; failure changes nothing; growth keeps all old bytes; reports whether the block moved |
| `MemoryArena.AllocationSizeIsLeast` | tflite/simple_memory_arena.cc:134-145 | the block asked for is the least multiple of the alignment with room for the data after padding, and it cannot be asked for exactly when that multiple is no `size_t` |
| `MemoryArena.ResizableAlignedBuffer.Release` | tflite/simple_memory_arena.cc:236-248 | leaves an empty buffer without a block |
| `MemoryArena.SimpleMemoryArena.Allocate` | tflite/simple_memory_arena.cc:293-357 | the loop over the active list computes exactly the placement function; a failed or empty request changes neither list nor mark, an empty one gets offset 0, and a block placed raises the mark to its end and enters the list behind all entries that do not start behind it |
| `MemoryArena.SimpleMemoryArena.FindOffset` | tflite/simple_memory_arena.cc:308-350 | the walk with its three running values finds the offset the placement function chooses, or none when an address would wrap |
| `MemoryArena.SimpleMemoryArena.PurgeAfter` | tflite/simple_memory_arena.cc:250-263 | marking and erasing drops exactly the entries that start after the node, in order |
| `MemoryArena.SimpleMemoryArena.PurgeActiveAllocs` | tflite/simple_memory_arena.cc:265-278 | marking and erasing drops exactly the entries that end before the node, in order |
| `MemoryArena.SimpleMemoryArena.CalculateActiveAllocs` | tflite/simple_memory_arena.cc:280-289 | the new list is sorted and a permutation of the records whose interval contains the node |
| `MemoryArena.SimpleMemoryArena.Commit` | tflite/simple_memory_arena.cc:359-371 | succeeds exactly when the buffer holds the high-water mark already or can grow to it; then it holds at least the mark; old bytes are kept; on failure it stays and the arena is not committed |
| `MemoryArena.SimpleMemoryArena.ResolveAlloc` | tflite/simple_memory_arena.cc:373-387 | succeeds exactly when committed and in range, with base plus offset, or null for an empty allocation |
| `ArenaDebugDump.LayerUsage` | tflite/simple_memory_arena_debug_dump.cc:174-187 | the accumulated bytes are the sum of the live sizes modulo the `size_t` range, and the live tensors come out in ascending order |
| `ArenaDebugDump.LiveAppend` | tflite/simple_memory_arena_debug_dump.cc:178-181 | an entry counts at exactly the nodes of its usage interval, both ends included |
| `ArenaDebugDump.LargestTensors` | tflite/simple_memory_arena_debug_dump.cc:145-161 | the largest size of all entries, and in ascending order all tensors that have it |
| `ArenaDebugDump.DumpArenaInfo` | tflite/simple_memory_arena_debug_dump.cc:134-198 | one row for each node of the plan with its bytes and live tensors, and five of the rows whose totals are the five largest; nothing for an arena without entries or an empty plan |
| `ArenaDebugDump.PerNodeBytes` | tflite/simple_memory_arena_debug_dump.cc:169-189 | after any run whose recalculations fit, and for an arena at least as large as the mark, no sum wraps and no per-node sum exceeds the arena size |
| `ArenaDebugDump.TopKLayers.Add` | tflite/simple_memory_arena_debug_dump.cc:89-98 | the heap keeps the k largest totals added so far: with room the layer joins, otherwise it replaces the least one unless it is smaller still |
| `ArenaDebugDump.LargestStep` | tflite/simple_memory_arena_debug_dump.cc:89-98 | how the k largest totals change with one more total |
| `ArenaDebugDump.LargestAreLargest` | tflite/simple_memory_arena_debug_dump.cc:89-98 | the totals kept are among those added, as many as k allows, and none left out is larger than one kept |
| `Liveness.HandleInput` | tflite/arena_planner.cc:316-331 | a reference counter reaches zero exactly at the last read of an unpinned owner |
| `Liveness.ReleaseInput` | tflite/arena_planner.cc:316-331 | handling one input keeps counters and release nodes equal to their specification, and the double-release check never fires |
| `Liveness.CountInputs` | tflite/arena_planner.cc:274-301 | adds to every counter the number of node inputs that resolve to that tensor |
| `Liveness.CountPins` | tflite/arena_planner.cc:239-270 | adds to every counter the number of its occurrences in the list |
| `InPlace.ReferencesCount` | tflite/arena_planner.cc:239-283 | the counter that sharing is decided by is the number of occurrences of the tensor among graph outputs, variables and inputs and the inputs of all nodes |
| `LivenessTheorems.FirstUseIsExact` | tflite/arena_planner.cc:246-314 | graph inputs and variables are allocated at node 0, other tensors at the first node that computes them, and what no node computes never |
| `LivenessTheorems.ReleaseIsExact` | tflite/arena_planner.cc:287-332 | the release node of an allocated owner that is read and is no graph input, output or variable is the last node with an input resolving to it; all others, and sharing tensors, are never released, nor is anything when all tensors are preserved |
| `LivenessTheorems.LifetimeCoversUses` | tflite/arena_planner.cc:302-332 | the owner's lifetime contains the node computing a tensor and every node reading it, for the owner and all tensors sharing its buffer |
| `LivenessTheorems.OwnerIsOlder` | tflite/arena_planner.cc:157-202 | the owner of a shared buffer is computed strictly before every tensor sharing it |
| `LivenessTheorems.SharingIsStable` | tflite/arena_planner.cc:157-202 | a sharing decision is never changed later, and only the node computing a tensor makes it share |
| `LivenessTheorems.NoInPlaceSameLifetimes` | tflite/simple_planner.cc:70-173 | without in-place operators and without preserving all tensors the arena planner's release nodes are the simple planner's |
| `InPlace.OwnersShareNothing` | tflite/arena_planner.cc:97-103 | sharing chains have depth one, resolving is idempotent, and no owner is a graph input |
| `InPlace.SharedAreOutputs` | tflite/arena_planner.cc:157-202 | a sharing tensor is the first output of an in-place node and no graph output |
| `InPlace.NoInPlaceNoSharing` | tflite/arena_planner.cc:168-170 | without in-place operators nothing is shared |
| `InPlace.PreserveNoSharing` | tflite/arena_planner.cc:143-145 | with `preserve_all_tensors` nothing is shared |
| `InPlaceFlags.SharesIff` | tflite/arena_planner.cc:105-200 | a node shares exactly when one of its first three inputs has its flag, is no graph input, for an output that is no graph output, with kinds that allow it, nothing preserved and, if the data changes, equal sizes above 4 bytes and one reference; the first such input hands on its buffer, unless the data changes and the owner of the buffer is referenced more than once |
| `InPlaceFlags.SharesAsPermittedIff` | tflite/core/c/common.h:1101-1127 | a node shares beyond its flags if and only if it has the flag for corresponding outputs, its first input is not sharable, a later one is, and the counter of that one's owner does not stop it |
| `InPlaceFlags.PicksFirst` | tflite/arena_planner.cc:174-190 | the input taken is the first sharable one of the leading three |
| `InPlaceFlags.CorrespondingOutputIsIgnored` | tflite/arena_planner.cc:165-200 | a well-formed graph where the second input shares with the first output although its flags permit the second output only |
| `InPlaceSafety.InputAndOwnerAreDead` | tflite/arena_planner.cc:122-199 | the counter checks guarantee that input and owner are not needed after the node that overwrites them |
| `InPlaceSafety.BufferIsOneChain` | tflite/arena_planner.cc:157-202 | with single references along the chain a buffer holds only the chain from its owner to the input |
| `InPlaceSafety.OverwritingLosesNothing` | tflite/arena_planner.cc:97-202 | if every tensor strictly between owner and input has one reference, nothing in the buffer is needed after the overwrite |
| `InPlaceSafety.OverwritingLosesNothingIff` | tflite/arena_planner.cc:97-202 | nothing is lost if and only if every other tensor that shares the buffer so far has its reference counter spent by the overwriting node, the check the planner makes only for input and owner |
| `InPlaceSafety.OverwritingCanLoseAValue` | tflite/arena_planner.cc:195-200 | a well-formed graph where the planner lets a node overwrite a tensor that a later node reads |
| `ArenaPlanner.ArenaPlanner.PlanAllocations` | tflite/arena_planner.cc:204-337 | never fails on a well-formed graph; both arrays equal the lifetime specification, the sharing is the specified one, the counters are the exact reference counts, and nothing is placed |
| `ArenaPlanner.ArenaPlanner.IdentifyInPlaceTensors` | tflite/arena_planner.cc:157-202 | the nested loops compute exactly the specified sharing, whose steps `InPlaceFlags.SharesIff` spells out on sizes, counters, kinds and flags |
| `ArenaPlanner.ArenaPlanner.QueueOutputs` | tflite/arena_planner.cc:306-314 | first uses stay exact and `nodes_to_tensors_` stays the inverse of `alloc_node_` |
| `ArenaPlanner.ArenaPlanner.ReleaseInputs` | tflite/arena_planner.cc:316-331 | counters and last uses stay exact over one node |
| `ArenaPlanner.ArenaPlanner.ResetAllocations` | tflite/arena_planner.cc:65-75 | both arenas are empty, all records cleared, the last active node undefined; the plan stays valid, so the tensors can be placed anew with other sizes |
| `ArenaPlanner.ArenaPlanner.ResetAllocationsAfter` | tflite/arena_planner.cc:77-95 | for any node: the records and addresses of exactly the arena tensors placed after it are cleared, the active list holds exactly the records live at the node, or those begun by then; everything up to it stays placed safely, and the whole protocol invariant is kept when the node has been reached |
| `ArenaPlanner.ArenaPlanner.SetTemporaries` | tflite/arena_planner.cc:347-362 | temporaries of the interval get the lifetime of their node (or until the end when everything is preserved), or have it already, without disturbing what is placed |
| `ArenaPlanner.ArenaPlanner.GetTensorsToAllocate` | tflite/arena_planner.cc:474-485 | lists every tensor first needed in the interval once, whatever the iteration order |
| `ArenaPlanner.ArenaPlanner.CreateTensorAllocationVector` | tflite/arena_planner.cc:442-472 | a permutation in which tensors allocated at node 0 and never released come first, by index, and of any two others the first is larger, or of the same size and allocated no later |
| `ArenaPlanner.OrderIsWeak` | tflite/arena_planner.cc:445-467 | the comparison is a strict weak order, as `std::sort` requires |
| `PlacementOrder.WholeRunTensorsArePacked` | tflite/arena_planner.cc:445-472 | placing tensors in this order into an empty arena puts those that live for the whole run back to back at its start, by index: each at the aligned end of the one before |
| `PlacementOrder.FirstPlacementIsPacked` | tflite/arena_planner.cc:487-564 | so does the first placement after planning or a reset |
| `PlacementOrder.OthersLieBehind` | tflite/arena_planner.cc:445-472 | all other tensors in the arena lie behind them |
| `ArenaPlanner.ArenaPlanner.AllocateTensor` | tflite/arena_planner.cc:525-560 | one tensor is placed apart from all live ones, or keeps borrowing exactly when the owner is in the arena and of its size, or stops sharing; a tensor that has what it needs stays as it is, and no other record changes |
| `ArenaPlanner.ArenaPlanner.CalculateAllocations` | tflite/arena_planner.cc:487-564 | on success every due tensor of the arena has its space, every due persistent tensor the space it had or else space of its size, unless it borrows; all live owners are disjoint, and records of earlier tensors are untouched; it fails only when the alignment is unusable or addresses run out |
| `ArenaPlanner.ArenaPlanner.Commit` | tflite/arena_planner.cc:431-440 | succeeds exactly when both buffers suffice or can grow; then both are large enough; all bytes are kept; the flag tells exactly whether one of them moved |
| `ArenaPlanner.ArenaPlanner.ResolveTensorAllocation` | tflite/arena_planner.cc:580-612 | the tensor gets the address of its owner when both are of one kind, else base plus its own offset, none for an empty persistent record and no new one for an empty arena record; the recursion ends after one step and nothing else changes except the owner's address |
| `ArenaPlanner.ArenaPlanner.ExecuteAllocations` | tflite/arena_planner.cc:339-382 | if the alignment is usable and the sizes of all tensors leave enough addresses, it succeeds exactly when both buffers can hold their marks; then the protocol invariant holds up to the last node: disjoint placement, full sizes in the arena, and right addresses even if a buffer moved; each persistent tensor of the interval goes on borrowing, keeps its record or gets space of its size, exactly as its sharing, owner and record before the call say; tensors placed before keep their records, and both arenas keep their bytes; records and marks are those of placing the due tensors one after the other in the order above, and tensors outside the arenas are left alone |
| `ArenaPlanner.ArenaPlanner.ReleaseNonPersistentMemory` | tflite/arena_planner.cc:384-397 | the buffer is gone, exactly the arena tensors lose their addresses, and all records and offsets stay |
| `ArenaPlanner.ArenaPlanner.AcquireNonPersistentMemory` | tflite/arena_planner.cc:399-413 | fails exactly when the buffer cannot be had, changing no tensor; otherwise every tensor is back at its offset in the new buffer |
| `ArenaLayout.PlacingKeepsLayout` | tflite/arena_planner.cc:545-550 | placing one pending tensor keeps all owners pairwise disjoint while alive, including those already dropped from the active list |
| `ArenaLayout.PurgingKeepsLayout` | tflite/arena_planner.cc:515-519 | the purge before an interval loses no owner that is still alive |
| `ArenaLayout.RebuildingKeepsLayout` | tflite/arena_planner.cc:88-92 | rebuilding the active list from the records after a reset loses no owner that is still alive |
| `ArenaLayout.ForgettingIsSafeIff` | tflite/arena_planner.cc:512-514 | after the active list has been emptied every later block misses everything placed that is still alive if and only if nothing placed outlives the last node placed |
| `ArenaLayout.DueWereAll` | tflite/arena_planner.cc:494-506 | the tensors selected are all that need space up to the last node, and only they need an address |
| `ArenaLayout.LaterChangesKeepPlan` | tflite/arena_planner.cc:340-362 | growing the arrays, new temporaries and new sizes of later tensors do not concern what is placed |
| `ArenaProtocol.TakeStep` | tflite/arena_planner.h:42-45 | every call and every change between calls that the protocol allows has its effect and keeps the invariant; it fails exactly when it is not allowed or, for placing (with addresses enough) and acquiring, when a buffer cannot be had; one that gives up neither plan nor memory also keeps everything placed before, and the bytes |
| `ArenaProtocol.FollowProtocol` | tflite/arena_planner.h:42-45 | so does every run of the protocol, incremental planning and starting over with other sizes included; it ends at the node its steps lead to, or stops early at a step that is not allowed or lacks addresses or memory |
| `ArenaSafety.OwnerCoversUse` | tflite/arena_planner.cc:204-364 | while a tensor, temporaries included, is in use, the stored lifetime of the owner of its buffer contains the node |
| `ArenaSafety.TensorsInUseNeverOverlap` | tflite/arena_planner.cc:204-564 | in every valid state, tensors in use at the same node with different owners share no byte, neither by offset nor by address, and lie below the mark |
| `ArenaSafety.AddressesAreAligned` | tflite/arena_planner.cc:580-602 | if the tensor alignment divides the arena's, the address of every placed tensor, borrowing ones included, is a multiple of it, and whole tensors lie inside the buffer |
| `PersistentSpace.PersistentHasSpaceIff` | tflite/arena_planner.cc:525-557 | over a successful `ExecuteAllocations`, a persistent tensor that had no space has none if and only if before the call it was to borrow from an arena tensor of its size |
| `PersistentSpace.PersistentHasItsBytesIff` | tflite/arena_planner.cc:548-557 | a persistent tensor that borrows nothing has at least its bytes afterwards if and only if its record was empty or large enough before |
| `PersistentSpace.PersistentCanBorrow` | tflite/arena_planner.cc:137-142 | on a well-formed graph the plan makes a persistent tensor borrow from the other arena |
| `PersistentSpace.BorrowerHasNoSpace` | tflite/arena_planner.cc:525-557 | a run of the planner over that graph that reports success and leaves a tensor that the last node reads without space |
| `PersistentSpace.OutgrownTensorsOverlap` | tflite/arena_planner.cc:548-557 | a run of the planner that reports success and leaves two persistent tensors of 400 bytes with 4 bytes each, overlapping by address |
| `ArenaSafety.ReachedTensorsHaveWindows` | tflite/arena_planner.cc:487-564 | every nonempty arena tensor whose node has been reached has space, its own or its owner's, unless that owner comes from nowhere |
| `ArenaSafety.PlannedWindowsAreSafe` | tflite/arena_planner.cc:204-564 | in every valid state the windows of both arenas are safe and below the marks: owners as planned, and what is in use together apart |
| `ArenaSafety.PlacedNodeIsCoveredIff` | tflite/arena_planner.cc:339-382 | a node up to the last one placed has memory for all it reads, computes and uses as temporaries if and only if its nonempty persistent tensors borrow nothing and have not outgrown their space; assumes that no arena tensor that is read comes from nowhere |
| `ArenaSafety.GraphRunsInArena` | tflite/arena_planner.h:31-41 | if every node has memory for its tensors, running the graph in the planned memory of both arenas gives every node its input values and the caller the output values of separate memory, for kernels that may also update the variables they read |
| `ArenaInference.InferenceIsFaithful` | tflite/arena_planner.h:42-45 | the same when steps of planning and running nodes are interleaved in any way: every node that has memory for its tensors finds the values of its inputs, and in the end graph outputs and variables hold theirs |
| `ArenaInference.KeepPlanning` | tflite/core/subgraph.cc:1765-1785 | every call of the planner made while the graph runs (placing further nodes, resetting later ones, resizing, adding temporaries) is such a step: what is there and still needed keeps its place and its bytes even if a buffer moves |
| `ArenaInference.WindowIsKept` | tflite/arena_planner.cc:339-382 | what is placed for nodes up to the one kept has the same bytes of the same arena before and after |
| `ArenaSafety.BothPlanners` | tflite/simple_planner.cc:70-173 | run on one graph without in-place operators, both planners compute equal arrays |
| `ArenaExecution.AllAliasesAgree` | tflite/arena_planner.cc:157-202 | tensors that share a buffer and are both still needed always have the same value, if no overwrite loses one |
| `ArenaExecution.LosesNothingIff` | tflite/arena_planner.cc:157-202 | no overwrite of the graph loses a value if and only if at each one the reference counters of all other tensors sharing the buffer are spent |
| `ArenaExecution.UpdatesLoseNothingIff` | tflite/arena_planner.cc:157-202 | no update of a variable tensor loses a value if and only if at each one the counters of all tensors borrowing its buffer are spent |
| `ArenaExecution.PersistentVariablesLoseNothing` | tflite/core/subgraph.cc:2025-2026 | with variables in the persistent arena, where the runtime puts them, and outputs of in-place operators in the other, updates lose nothing |
| `ArenaExecution.MemoryStaysFaithful` | tflite/arena_planner.cc:302-332 | a node that has memory for its tensors, writes its outputs, updates variables it reads and scribbles on its temporaries leaves every still needed tensor intact |
| `ArenaExecution.RunIsFaithful` | tflite/arena_planner.h:31-41 | over a whole run in safe windows in which every node has memory for its tensors, every node reads the values of its inputs, for arbitrary kernels that may update variables |
| `LostValues.LostValueIsRead` | tflite/arena_planner.cc:157-202 | if some overwrite loses a value, there are kernels and a node that reads a wrong value in every run with them, in every safe placement that is as planned |
| `LostValues.RunExists` | tflite/arena_planner.h:31-41 | runs exist from any memory large enough, for all kernels whose results have the sizes of their tensors and whose written tensors are apart, as the outputs of a node always are |
| `SimplePlanner.SimplePlanner.PlanAllocations` | tflite/simple_planner.cc:70-173 | never fails, and both arrays equal the lifetime specification without sharing |
| `SimplePlanner.SimplePlanner.ReleaseInputs` | tflite/simple_planner.cc:155-167 | counters and last uses stay exact over one node |
| `Sorting.Sort` | tflite/graph_info.cc:29-29 | an ascending permutation, for any strict weak order |
| `Sorting.Uniquefy` | tflite/graph_info.cc:27-31 | strictly ascending with the same elements |
| `Partitioner.PartitionerImpl.UpdateNode` | tflite/graph_info.cc:171-246 | adds a node exactly when it may join the current subset, and keeps epochs, counters and boundary lists consistent |
| `Partitioner.PartitionerImpl.BuildNodeSubset` | tflite/graph_info.cc:249-266 | the passes build exactly the specified next subset and terminate |
| `Partitioner.PartitionerImpl.CountControlEdges` | tflite/graph_info.cc:97-101 | each counter is the number of distinct edges from unassigned nodes, so duplicate edges do not matter |
| `Partitioner.PartitionerImpl.Partition` | tflite/graph_info.cc:90-154 | the subsets are those of the scheduling function, Ok exactly when every node is scheduled, with exact boundary lists |
| `Partitioner.BoundariesAreExact` | tflite/graph_info.cc:132-152 | inputs are the sorted tensors read but not computed in a subset, outputs the sorted tensors it computes that another subset reads or that are graph outputs |
| `Partitioner.ReadyMeans` | tflite/graph_info.cc:180-192 | the epoch and counter tests hold exactly when all data and control dependencies are scheduled |
| `PartitionGraph.PartitionGraphIntoIndependentNodeSubsets` | tflite/graph_info.cc:305-337 | succeeds exactly when nodes and edges are in range and the nodes can run in some order: inputs first, along the caller's edges, or without any and greedily with side effects in sequence; the subsets then cut such an order into pieces, those in the list of nodes to partition being exactly the delegated ones, with exact boundaries, single nodes without fusion, else alternating kinds; non-greedily the plan itself when its dependencies lead forward |
| `ExecutionOrder.CanRunMeans` | tflite/graph_info.cc:180-192 | the solutions of the scheduling problem are exactly the orders in which the nodes of the graph can run |
| `PartitionGraph.ChainSideEffects` | tflite/graph_info.cc:316-328 | the added edges link consecutive nodes with side effects |
| `PartitionGraph.ValidateControlEdges` | tflite/graph_info.cc:47-56 | Ok exactly when both ends of every edge are execution nodes |
| `PartitionGraph.NonGreedyPreservesOrder` | tflite/graph_info.h:115-116 | on a dependency-ordered graph with forward edges the non-greedy result is the maximal runs of one kind, in the original order |
| `PartitionGraph.UnfusedPreservesOrder` | tflite/graph_info.cc:174-174 | without fusion greedy partitioning gives single nodes in the original order |
| `PartitionGraph.DefaultPartitionKeepsMeaning` | tflite/graph_info.cc:313-329 | without caller edges, running the nodes in the returned order gives the same tensors, world and trace of side effects as the plan, for arbitrary node functions that may update variables; with greedy fusing, if dependencies order any two nodes one of which updates a variable the other reads |
| `VariableUpdates.GreedyKeepsMeaningIff` | tflite/graph_info.cc:313-329 | greedy partitioning keeps the meaning for every choice of delegated nodes and all kernels with the given updates if and only if dependencies order any two nodes in conflict over a variable, node 0 apart |
| `VariableUpdates.UpdateCanBeOvertaken` | tflite/core/subgraph.cc:1195-1209 | a graph without marked nodes, a choice of delegated nodes and kernels for which the result changes |
| `VariableUpdates.ConflictShows` | tflite/graph_info.cc:171-266 | two orders that run nodes in conflict in opposite sequence are told apart by some kernels with these updates |
| `VariableUpdates.UnorderedCanSwap` | tflite/graph_info.cc:171-266 | two nodes that no dependency orders change places for some choice of delegated nodes, unless the first is node 0 |
| `PartitionGraph.GreedyReturnsNoMoreSubsets` | tflite/interpreter_options.h:75-81 | greedy clustering with its side-effect chain never returns more subsets than non-greedy |
| `PartitionMeaning.GreedyKeepsMeaning` | tflite/graph_info.cc:171-266 | any edges that contain the chain of side effects preserve meaning as long as nodes in conflict over a variable keep their order |
| `PartitionMeaning.ScheduleKeepsMeaning` | tflite/graph_info.cc:171-266 | for any edges the order respects the data, and meaning is preserved whenever side effects and nodes in conflict over a variable keep their order |
| `PartitionMeaning.OrderedUpdatesAgree` | tflite/graph_info.cc:180-192 | dependencies that order nodes in conflict over a variable keep them in plan order in every complete schedule |
| `PartitionMeaning.ScheduleKeepsValues` | tflite/graph_info.cc:171-266 | if no kernel looks at the world, every tensor gets its value even when caller edges reorder the side effects, as long as nodes in conflict over a variable keep their order |
| `Reordering.SameMeaning` | tflite/graph_info.cc:171-266 | two orders that respect the data and have the same sequence of side effects and of nodes in conflict over a variable mean the same |
| `Reordering.SameValues` | tflite/graph_info.cc:171-266 | kernels that ignore the world give every tensor the same value in any two orders that respect the data and agree on nodes in conflict over a variable |
| `Schedule.PartitionIsSound` | tflite/graph_info.cc:117-123 | every node at most once, one kind per subset, every dependency first, and nothing schedulable is left over |
| `ScheduleTheorems.CompleteIffAcyclic` | tflite/graph_info.cc:125-128 | all nodes are scheduled if and only if the dependencies have no cycle |
| `ScheduleTheorems.NonGreedyKeepsOrder` | tflite/graph_info.cc:249-266 | with forward dependencies non-greedy passes produce the maximal runs |
| `GreedyOptimality.GreedyPartitionAlternates` | tflite/graph_info.cc:197-206 | consecutive greedy subsets have different kinds |
| `GreedyOptimality.GreedyStaysAhead` | tflite/graph_info.cc:249-266 | the first k greedy subsets contain everything any rival schedules in k alternating phases |
| `GreedyOptimality.GreedyIsOptimal` | tflite/interpreter_options.h:75-81 | greedy has no more subsets than any valid schedule of the same starting kind, and at most one more than any |
| `GreedyOptimality.GreedyBeatsNonGreedy` | tflite/interpreter_options.h:75-81 | greedy has no more subsets than non-greedy for the same dependencies |
| `CheckedInt.ConvertIsExact` | tflite/util.h:179-194 | construction from any integer type flags exactly the values the type cannot hold, and always keeps the low bits |
| `CheckedInt.Limits` | tflite/util.h:179-194 | the ranges of the eight integer types |
| `CheckedInt.Upper64IsExact` | tflite/util.h:477-489 | the upper half computed from four 32-bit products is the true one; the sum of the middle column never wraps |
| `CheckedInt.FallbackIsBuiltin` | tflite/util.h:378-522 | without builtins addition, subtraction and multiplication agree with the builtin value and flag, for every width and sign |
| `CheckedInt.TruncDivIsQuotient` | tflite/util.h:536-536 | division rounds toward zero: the remainder is smaller than the divisor and has the sign of the dividend |
| `CheckedInt.QuotientIsUnique` | tflite/util.h:536-536 | there is only one such quotient |
| `CheckedInt.OperationIsExact` | tflite/util.h:378-543 | the flag is set exactly if an operand's is or no representable value is the sum, difference, product or quotient rounded toward zero; otherwise the value is that one; a value that does not fit wraps around, and a division without result gives the largest value |
| `CheckedInt.ExpressionIsExact` | tflite/util.h:378-543 | a whole expression is flagged exactly when it has no meaning in which every subexpression is representable, and otherwise its value is the only one |
| `CheckedInt.CommonTypeIs` | tflite/util.h:378-381 | the common type of two different types is `int` if that holds both, else 64 bits wide if one is, unsigned if `uint64` is one of them, else `uint32`; if one type holds the other's values, so does it |
| `CheckedInt.MixedFallbackIsStricter` | tflite/util.h:378-522 | with mixed types the builtin is exact in the common type; the hand-written code gives the same values and is stricter exactly for operands outside the common type |
| `CheckedInt.MixedFallbackDiffers` | tflite/util.h:378-414 | an instance where the two differ |
| `CheckedInt.OperatorIsExact` | tflite/util.h:378-543 | in builds with and without builtins an operator on two types is flagged exactly when an operand is, the result does not fit, or, where operands are converted first, one of them does not fit; otherwise it is the true result |
| `CheckedInt.MixedCompareIsExact` | tflite/util.h:327-352 | all six comparisons between any two integer types compare the mathematical values |
| `CheckedInt.CheckedVariable.Assign` | tflite/util.h:217-256 | an assigning operator keeps earlier overflow and adds exactly its own, for operands of any two types, with and without compiler builtins; a value that does not fit keeps its low bits |
| `TensorSize.MultiplyIsExact` | tflite/util.cc:193-206 | fails exactly when the true product exceeds `size_t`, despite the fast path without division |
| `TensorSize.CountElements` | tflite/util.cc:210-218 | Ok exactly when every running product fits; the count is then their product |
| `TensorSize.BytesRequired` | tflite/util.cc:208-248 | Ok exactly when the type has a size and all products fit; the bytes are the bits of all elements rounded up exactly when the rounding addition does not wrap, and 0 otherwise |
| `TensorSize.SizesOfTypes` | tflite/util.cc:80-160 | the bytes of an unpacked element are its bits, rounded up; only unsupported types have no size |
| `TensorSize.PackRoundsUp` | tflite/util.cc:227-246 | packing 4-bit and 2-bit types rounds their bits up, and leaves all others as they are |
| `TensorSize.RoundingCanWrap` | tflite/util.cc:230-246 | dimensions for which the reported size of a packed type is zero |

## Left out

- ExecuteAllocations: an interval that skips nodes, ends before the last node placed, or starts before it while something placed outlives that node is not covered; the code accepts the call, and `ArenaLayout.ForgettingIsSafeIff` shows that it then loses track of live allocations.
- CalculateAllocations: covers the same intervals as `ExecuteAllocations`, its only caller.
- SetTemporaries: covers the same intervals as `ExecuteAllocations`, its only caller.
- ResetAllocationsAfter: node numbers below -1 are not covered; no caller passes one.
- ResetAllocations: that the plan stays usable is promised only when no tensor has been added since the last placement.
- Failed calls: after an error of `ExecuteAllocations` only what a new `PlanAllocations` needs is promised, and that earlier records and the bytes of the arena are kept; the code leaves partly written records behind.
- Changing allocation types: allowed for tensors of later nodes that have no space; nothing is claimed about changing the type of a tensor that has.
- GraphRunsInArena: takes tensors of other allocation types to hold their values, because their memory is not the planner's; assumes that no overwrite or update loses a value, because in-place sharing can lose one (`ArenaExecution.LosesNothingIff` and `ArenaExecution.UpdatesLoseNothingIff` say exactly when none does), and that an operator declared not to change its data hands its shared input on, because kernels are not part of this model.
- InferenceIsFaithful: makes the same assumptions; an output of an operator whose type puts it elsewhere is taken to get its value; releasing the memory or planning anew in the middle of a run is not covered.
- `PurgeAfter`: the header's remark that it has no impact on results is not claimed, only that it keeps the invariant.
- The system allocator: a parameter that answers with a fresh aligned block or with failure; the platform variants of aligned allocation are not part of this model.
- `unordered_set` iteration order: any order is allowed; `unordered_map` is a map.
- `int` counters and node numbers: unbounded integers with the largest 32-bit value as "not assigned"; overflow of reference counters is not modelled.
- SimplePlanner: allocation, release and re-acquisition are not modelled, only the planning of lifetimes; its outputs must be present, as the code indexes by them unchecked.
- Null checks of out-pointers, error logging, profiler hooks and printing are left out.
- Utilization percentages: floating point; only the byte sums are modelled.
- `CheckedInt` and `bool` or 128-bit operands: only the 8 to 64-bit integer types are modelled.
- The runtime's C API, weight loading, delegates, string buffers and op resolvers are not part of this model.
