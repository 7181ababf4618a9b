/** Whole runs of the planner: the calls its users may make, in any order the protocol allows. */
module ArenaProtocol {
  import opened Common
  import opened InPlace
  import opened InPlaceSafety
  import opened ArenaLifetimes
  import opened ArenaPlacement
  import opened LivenessTheorems
  import opened ArenaLayout
  import opened PlacementOrder
  import opened ArenaPlanner
  import opened MemoryArena

  /** A call, or something operators do between calls. Blocks are what the system allocator would offer. */
  datatype ProtocolStep =
    | Replan
    | Reset
    | Execute(firstNode: int, lastNode: int, arenaBlock: Option<nat>, persistentBlock: Option<nat>)
    | ResetAfter(node: int)
    | Release
    | Acquire(block: Option<nat>)
    | Resize(tensor: int, bytes: SizeT, kind: AllocationType)
    | NewTensor(value: Tensor)
    | NewTemporary(owner: nat, temporary: int)
  {
    /** A step that may happen while the graph runs: it gives up neither the plan nor the memory. */
    predicate KeepsMemory() { !Replan? && !Reset? && !Release? && !Acquire? }
  }

  /** The node to place next after a step that succeeds. */
  function NextAfter(step: ProtocolStep, next: int): int {
    match step
    case Replan | Reset => 0
    case Execute(_, lastNode, _, _) => lastNode + 1
    case ResetAfter(node) => node + 1
    case _ => next
  }

  /** The node to place next after a run. */
  function NextAfterAll(steps: seq<ProtocolStep>): int {
    if steps == [] then 0 else NextAfter(steps[|steps| - 1], NextAfterAll(steps[..|steps| - 1]))
  }

  /** The allocator never hands out the null pointer, a misaligned block, or the one in use. */
  function Offer(buffer: ResizableAlignedBuffer, block: Option<nat>): (r: Option<nat>)
    reads buffer
    ensures buffer.PossibleBlock(r)
    ensures buffer.PossibleBlock(block) ==> r == block
  {
    if buffer.PossibleBlock(block) then block else None
  }

  /** What the protocol allows when `next` is the node to place next. */
  predicate Allowed(planner: ArenaPlanner, step: ProtocolStep, next: int)
    reads planner
  {
    match step
    case Replan | Release | NewTensor(_) => true
    case Reset => |planner.allocNode| == |planner.tensors|
    case Execute(firstNode, lastNode, _, _) =>
      0 <= firstNode && next - 1 <= firstNode <= next && next - 1 <= lastNode < |planner.nodesToTensors|
    case ResetAfter(node) => -1 <= node < next
    case Acquire(_) => |planner.allocs| == |planner.tensors|
    case Resize(tensor, _, kind) =>
      && 0 <= tensor < |planner.allocNode| && tensor < |planner.allocs| && tensor < |planner.tensors|
      && next <= planner.allocNode[tensor] < NODE_NOT_ASSIGNED
      && (planner.allocs[tensor].size > 0 ==> kind == planner.tensors[tensor].allocationType)
    case NewTemporary(owner, temporary) =>
      && next <= owner < |planner.graph.nodes| && 0 <= temporary < |planner.tensors|
      && !Mentioned(planner.graph, temporary) && !IsTemporary(planner.temporaries, temporary)
  }

  /** Why a step failed, seen from the state it leaves: it was not allowed, or there was no room or no memory. */
  ghost predicate CannotTake(planner: ArenaPlanner, step: ProtocolStep, next: int)
    reads planner, planner.arena, planner.arena.buffer, planner.persistentArena, planner.persistentArena.buffer
  {
    || (planner.Valid() && planner.frontier == next - 1 && !Allowed(planner, step, next))
    || (step.Acquire? && planner.arena.buffer.Stuck(planner.arena.highWaterMark, step.block))
    || (step.Execute? && (planner.NoRoom()
                          || planner.arena.buffer.Stuck(planner.arena.highWaterMark, step.arenaBlock)
                          || planner.persistentArena.buffer.Stuck(
                               planner.persistentArena.highWaterMark, step.persistentBlock)))
  }

  /** Places the tensors of some nodes with what the system allocator offers. */
  method PlaceNodes(
    planner: ArenaPlanner, firstNode: int, lastNode: int, arenaBlock: Option<nat>, persistentBlock: Option<nat>)
    returns (status: Status)
    requires planner.Valid() && 0 <= firstNode && planner.frontier <= firstNode <= planner.frontier + 1
    requires planner.frontier <= lastNode < |planner.nodesToTensors|
    modifies planner, planner.arena, planner.arena.buffer, planner.persistentArena, planner.persistentArena.buffer
    ensures planner.Ready()
    ensures status.Ok? ==>
              && planner.Valid() && planner.frontier == lastNode && planner.setting == old(planner.setting)
              && planner.hasNonpersistentMemory && |planner.allocs| == |planner.tensors|
              && KeptUpTo(
                   old(planner.Ctx()), old(planner.State()), planner.Ctx(), planner.State(), old(planner.frontier))
              && planner.arena.highWaterMark <= planner.arena.buffer.size
              && planner.persistentArena.highWaterMark <= planner.persistentArena.buffer.size
              && old(planner.arena.buffer.data[..]) <= planner.arena.buffer.data[..]
              && old(planner.persistentArena.buffer.data[..]) <= planner.persistentArena.buffer.data[..]
    ensures old(planner.HasRoom()) ==>
              (status.Ok? <==>
                && planner.arena.buffer.CanHold(
                     old(planner.arena.buffer.size), planner.arena.highWaterMark,
                     old(Offer(planner.arena.buffer, arenaBlock)))
                && planner.persistentArena.buffer.CanHold(
                     old(planner.persistentArena.buffer.size), planner.persistentArena.highWaterMark,
                     old(Offer(planner.persistentArena.buffer, persistentBlock))))
    ensures status.Error? ==>
              || planner.NoRoom()
              || planner.arena.buffer.Stuck(planner.arena.highWaterMark, arenaBlock)
              || planner.persistentArena.buffer.Stuck(planner.persistentArena.highWaterMark, persistentBlock)
  {
    hide Setting.Valid, TemporariesOk, LifetimesOk, NodesToTensorsOk, SharingOk, GraphOk, CountersExact;
    hide Context.LayoutOk, Context.PersistentOk, Context.AllSettled, Context.PointersOk, PersistentsDone;
    hide KeptUpTo, IsTemporary, ArenaPlanner.NoRoom, ArenaPlanner.HasRoom, Demand, PlacedInOrder, Packed, OthersKept;
    planner.NextMayStart();
    status := planner.ExecuteAllocations(
      firstNode, lastNode, Offer(planner.arena.buffer, arenaBlock),
      Offer(planner.persistentArena.buffer, persistentBlock));
  }

  /**
   * One step; `next` is the node to go on with. It fails if the protocol does not allow it, and
   * otherwise only for want of addresses or memory.
   */
  method TakeStep(planner: ArenaPlanner, step: ProtocolStep, next: int) returns (status: Status, newNext: int)
    requires planner.Valid() && planner.frontier == next - 1
    modifies planner, planner.arena, planner.arena.buffer, planner.persistentArena, planner.persistentArena.buffer
    ensures planner.Ready()
    ensures status.Ok? ==>
              planner.Valid() && planner.frontier == newNext - 1 && newNext == NextAfter(step, next)
    ensures status.Ok? ==>
              match step
              case Replan =>
                planner.actualTensorId == FinalSharing(planner.setting)
                && planner.setting == Setting(planner.graph, old(planner.tensors), planner.refcounts,
                                              planner.preserveAllTensors)
              case Reset => planner.allocs == seq(|planner.tensors|, _ => UNALLOCATED)
              case Execute(_, _, _, _) => planner.hasNonpersistentMemory && |planner.allocs| == |planner.tensors|
              case ResetAfter(node) => planner.lastActiveNode == node
              case Release =>
                !planner.hasNonpersistentMemory && planner.tensors == WithoutAddresses(old(planner.tensors))
              case Acquire(_) => planner.hasNonpersistentMemory
              case Resize(tensor, bytes, kind) =>
                && 0 <= tensor < |old(planner.tensors)|
                && planner.tensors == old(planner.tensors)[
                     tensor := old(planner.tensors)[tensor].(bytes := bytes, allocationType := kind)]
              case NewTensor(value) => planner.tensors == old(planner.tensors) + [value]
              case NewTemporary(owner, temporary) =>
                && owner < |old(planner.temporaries)|
                && planner.temporaries
                   == old(planner.temporaries)[owner := old(planner.temporaries)[owner] + [temporary]]
    ensures match step
            case Replan | Release | NewTensor(_) => status.Ok?
            case Reset => status.Ok? <==> |old(planner.allocNode)| == |old(planner.tensors)|
            case ResetAfter(node) => status.Ok? <==> -1 <= node < next
            case Resize(tensor, _, kind) =>
              status.Ok? <==>
                && 0 <= tensor < |old(planner.allocNode)| && next <= old(planner.allocNode)[tensor] < NODE_NOT_ASSIGNED
                && (old(planner.allocs)[tensor].size > 0 ==> kind == old(planner.tensors)[tensor].allocationType)
            case NewTemporary(owner, temporary) =>
              status.Ok? <==>
                && next <= owner < |planner.graph.nodes| && 0 <= temporary < |old(planner.tensors)|
                && !Mentioned(planner.graph, temporary) && !IsTemporary(old(planner.temporaries), temporary)
            case _ => true
    ensures step.Acquire? ==>
              (status.Ok? <==>
                && |old(planner.allocs)| == |old(planner.tensors)|
                && old(!planner.arena.buffer.Stuck(planner.arena.highWaterMark, step.block)))
    ensures step.Execute? && old(planner.HasRoom()) ==>
              (status.Ok? <==>
                && 0 <= step.firstNode && next - 1 <= step.firstNode <= next
                && next - 1 <= step.lastNode < |old(planner.nodesToTensors)|
                && planner.arena.buffer.CanHold(
                     old(planner.arena.buffer.size), planner.arena.highWaterMark,
                     old(Offer(planner.arena.buffer, step.arenaBlock)))
                && planner.persistentArena.buffer.CanHold(
                     old(planner.persistentArena.buffer.size), planner.persistentArena.highWaterMark,
                     old(Offer(planner.persistentArena.buffer, step.persistentBlock))))
    ensures status.Error? ==> CannotTake(planner, step, next) && newNext == next
    ensures status.Ok? && step.KeepsMemory() ==>
              && (if step.ResetAfter? then newNext == step.node + 1 else newNext >= next)
              && planner.setting == old(planner.setting)
              && KeptUpTo(old(planner.Ctx()), old(planner.State()), planner.Ctx(), planner.State(),
                          if newNext < next then newNext - 1 else next - 1)
              && old(planner.arena.buffer.data[..]) <= planner.arena.buffer.data[..]
              && old(planner.persistentArena.buffer.data[..]) <= planner.persistentArena.buffer.data[..]
              && (old(planner.arena.highWaterMark <= planner.arena.buffer.size) ==>
                    planner.arena.highWaterMark <= planner.arena.buffer.size)
              && (old(planner.persistentArena.highWaterMark <= planner.persistentArena.buffer.size) ==>
                    planner.persistentArena.highWaterMark <= planner.persistentArena.buffer.size)
  {
    hide Setting.Valid, TemporariesOk, LifetimesOk, NodesToTensorsOk, SharingOk, GraphOk, CountersExact;
    hide Context.LayoutOk, Context.PersistentOk, Context.AllSettled, Context.PointersOk;
    hide KeptUpTo, IsTemporary, Mentioned, ArenaPlanner.NoRoom, ArenaPlanner.HasRoom, FreedAfter, OthersKept;
    hide FinalSharing, SameTensors, ResetTensors;
    planner.ListPerNode();
    status, newNext := Ok, next;
    if !Allowed(planner, step, next) {
      return Error, next;
    }
    match step {
      case Replan =>
        status := planner.PlanAllocations();
        newNext := 0;
      case Reset =>
        planner.ResetAllocations();
        newNext := 0;
      case Execute(firstNode, lastNode, arenaBlock, persistentBlock) =>
        status := PlaceNodes(planner, firstNode, lastNode, arenaBlock, persistentBlock);
        newNext := if status.Ok? then lastNode + 1 else next;
      case ResetAfter(node) =>
        status := planner.ResetAllocationsAfter(node);
        newNext := node + 1;
      case Release =>
        status := planner.ReleaseNonPersistentMemory();
      case Acquire(block) =>
        status := planner.AcquireNonPersistentMemory(Offer(planner.arena.buffer, block));
      case Resize(tensor, bytes, kind) =>
        planner.ResizeTensor(tensor, bytes, kind);
      case NewTensor(value) =>
        planner.AddTensor(value);
      case NewTemporary(owner, temporary) =>
        planner.AddTemporary(owner, temporary);
    }
  }

  /**
   * Every run of the protocol keeps the invariant, and with it all that is proved about valid
   * states: disjoint tensors, right and aligned addresses, faithful execution. It goes on to the
   * end unless a step is not allowed or addresses or memory are lacking at it.
   */
  method FollowProtocol(planner: ArenaPlanner, steps: seq<ProtocolStep>)
    returns (status: Status, done: nat, next: int)
    requires planner.Ready()
    modifies planner, planner.arena, planner.arena.buffer, planner.persistentArena, planner.persistentArena.buffer
    ensures planner.Ready() && done <= |steps|
    ensures status.Ok? ==>
              planner.Valid() && planner.frontier == next - 1 && done == |steps| && next == NextAfterAll(steps)
    ensures status.Error? ==> done < |steps| && CannotTake(planner, steps[done], next)
  {
    hide Setting.Valid, TemporariesOk, LifetimesOk, NodesToTensorsOk, SharingOk, GraphOk, CountersExact;
    hide Context.LayoutOk, Context.PersistentOk, Context.AllSettled, Context.PointersOk;
    hide ArenaPlanner.NoRoom, ArenaPlanner.HasRoom, Allowed;
    status := planner.PlanAllocations();
    next, done := 0, 0;
    while done < |steps|
      invariant 0 <= done <= |steps|
      invariant status.Ok? && planner.Ready() && planner.Valid() && planner.frontier == next - 1
      invariant next == NextAfterAll(steps[..done])
    {
      status, next := TakeStep(planner, steps[done], next);
      if status.Error? {
        return;
      }
      assert steps[..done + 1][..done] == steps[..done];
      done := done + 1;
    }
    assert steps[..done] == steps;
  }
}
