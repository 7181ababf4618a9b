/** Which persistent tensors end up with space, and with enough of it; and two runs in which they do not. */
module PersistentSpace {
  import opened Common
  import opened GraphInfo
  import opened Liveness
  import opened InPlace
  import opened InPlaceSafety
  import opened LivenessTheorems
  import opened ArenaPlacement
  import opened ArenaLayout
  import opened PlacementOrder
  import opened ArenaLifetimes
  import opened ArenaPlanner
  import opened MemoryArena
  import opened ArenaExecution
  import opened ArenaSafety

  /**
   * `p` is the plan before a successful `ExecuteAllocations` over the nodes from `first` to `last`
   * and `q` the one after it. A persistent tensor that had no space has none afterwards exactly
   * when it was to borrow from a tensor of the other arena that has its size.
   */
  lemma PersistentHasSpaceIff(c: Context, p: Plan, q: Plan, first: int, last: int, t: int)
    requires c.Shape(p) && c.Shape(q) && PersistentsDone(c, p, q, first, last)
    requires c.IsPersistent(t) && t < |c.allocNode| && first <= c.allocNode[t] <= last && c.tensors[t].bytes > 0
    requires p.allocs[t].size == 0
    ensures !c.PlacedForever(q, t) <==>
            t in p.actual && c.IsRw(p.actual[t]) && c.tensors[p.actual[t]].bytes == c.tensors[t].bytes
  {
    assert PersistentPlaced(c, p, q, t);
  }

  /**
   * A persistent tensor that borrows nothing has at least its bytes afterwards exactly when it had
   * no space before, or enough: space once given is not extended when the tensor has grown.
   */
  lemma PersistentHasItsBytesIff(c: Context, p: Plan, q: Plan, first: int, last: int, t: int)
    requires c.Shape(p) && c.Shape(q) && PersistentsDone(c, p, q, first, last)
    requires c.IsPersistent(t) && t < |c.allocNode| && first <= c.allocNode[t] <= last && t !in q.actual
    ensures q.allocs[t].size >= c.tensors[t].bytes <==>
            p.allocs[t].size == 0 || p.allocs[t].size >= c.tensors[t].bytes
  {
    assert PersistentPlaced(c, p, q, t);
  }

  /** A node that uses a persistent tensor without enough space is not one the execution theorem covers. */
  lemma TooLittleSpaceIsNotCovered(planner: ArenaPlanner, n: nat, t: int)
    requires n < |planner.graph.nodes| == |planner.temporaries| && Uses(planner.graph, planner.temporaries, n, t)
    requires 0 <= t < |planner.allocs| && planner.Ctx().IsPersistent(t)
    requires planner.allocs[t].size < planner.tensors[t].bytes
    ensures !Covered(planner.graph, planner.temporaries, PlacementOf(planner), n)
  {
    assert !IsThere(planner.Ctx(), planner.State(), planner.frontier, t);
    assert !PlacementOf(planner).Reachable(t);
  }

  /* ---- A borrowing persistent tensor has no space ---- */

  /** 0 -> 1, reshaped to 2, which is persistent and read by the last node. */
  const BORROWING_GRAPH: Graph := Graph(
    4, [Node([0], [1], false, NONE), Node([1], [2], false, RESHAPE), Node([2], [3], false, NONE)], [0, 1, 2], 3,
    [0], [3], [])

  const BORROWING_TENSORS: seq<Tensor> :=
    [Tensor(24, ArenaRw, 0), Tensor(24, ArenaRw, 0), Tensor(24, ArenaRwPersistent, 0), Tensor(24, ArenaRw, 0)]

  lemma BorrowingIsWellFormed()
    ensures GraphOk(BORROWING_GRAPH) && !Eligible(BORROWING_GRAPH, 0) && !Eligible(BORROWING_GRAPH, 2)
    ensures AllocSpec(BORROWING_GRAPH, 2) == 1
  {
    var g := BORROWING_GRAPH;
    forall n, t | 0 <= n < 3
      ensures g.Produces(n, t) <==> t == n + 1
      ensures g.Reads(n, t) <==> t == n
    {
      assert g.nodes[n].inputs == [n] && g.nodes[n].outputs == [n + 1];
    }
    assert FirstProducer(g, 2, 1) == 1;
    assert g.nodes[1].outputs == [2] && g.nodes[0].inplace == NONE && g.nodes[2].inplace == NONE;
  }

  /** The plan makes the persistent tensor 2 borrow from tensor 1 of the other arena. */
  lemma PersistentCanBorrow(p: Setting)
    requires p.Valid() && p.g == BORROWING_GRAPH && p.tensors == BORROWING_TENSORS && !p.preserve
    ensures FinalSharing(p) == map[2 := 1]
  {
    BorrowingIsWellFormed();
    assert |p.tensors| == |p.refcounts| == 4;
    hide p.Valid, Graph.WellFormed;
    var g := BORROWING_GRAPH;
    assert g.nodes[1].inputs == [1] && g.nodes[1].outputs == [2];
    assert p.ShareMap(0) == map[];
    assert p.ShareMap(1) == map[];
    assert p.InputTensorCanBeShared(1, 2, false);
    assert p.PickInput(1, 0) == Some(1);
    assert p.ShareMap(2) == map[2 := 1];
    assert p.ShareMap(3) == map[2 := 1];
  }

  /** A fresh block holds a small arena. */
  lemma SmallArenaFits(buffer: ResizableAlignedBuffer, size: SizeT, mark: SizeT, block: Option<nat>)
    requires buffer.alignment == DEFAULT_ARENA_ALIGNMENT && mark <= 10000 && block.Some?
    ensures buffer.CanHold(size, mark, block)
  {
    AlignToFits(DEFAULT_ARENA_ALIGNMENT, mark + DEFAULT_ARENA_ALIGNMENT - 1);
  }

  lemma FourTensors(c: Context, cost: nat)
    requires forall t :: 0 <= t < 4 ==> c.Cost(t) <= cost
    ensures Demand(c, Indices(4), 4) <= 4 * cost
  {
    assert Demand(c, Indices(4), 0) == 0;
    assert Demand(c, Indices(4), 1) <= cost;
    assert Demand(c, Indices(4), 2) <= 2 * cost;
    assert Demand(c, Indices(4), 3) <= 3 * cost;
  }

  /** Both arenas still have no memory. */
  ghost predicate Unused(planner: ArenaPlanner)
    reads planner, planner.arena, planner.arena.buffer, planner.persistentArena, planner.persistentArena.buffer
  {
    && planner.arena.buffer.size == planner.persistentArena.buffer.size == 0
    && planner.arena.buffer.alignment == planner.persistentArena.buffer.alignment == DEFAULT_ARENA_ALIGNMENT
    && planner.tensorAlignment == DEFAULT_ARENA_ALIGNMENT
  }

  /** Plans and places four small tensors, up to `lastNode`. */
  method PlanAndPlace(planner: ArenaPlanner, lastNode: nat, cost: nat) returns (status: Status, ghost planned: Plan)
    requires planner.Ready() && Unused(planner) && |planner.tensors| == 4 && lastNode < |planner.graph.nodes|
    requires cost <= 1000 && forall t :: 0 <= t < 4 ==> planner.Ctx().Cost(t) <= cost
    modifies planner, planner.arena, planner.arena.buffer, planner.persistentArena, planner.persistentArena.buffer
    ensures status.Ok? && planner.Valid() && planner.frontier == lastNode
    ensures |planner.allocs| == |planner.allocNode| == 4
    ensures planner.State().Mark() <= 4 * cost && SameTensors(old(planner.tensors), planner.tensors)
    ensures planner.setting.tensors == old(planner.tensors) && planner.setting.g == planner.graph
    ensures planner.setting.preserve == planner.preserveAllTensors && planner.setting.Valid()
    ensures planner.temporaries == old(planner.temporaries)
    ensures planner.Ctx().Shape(planned) && planner.Ctx().Shape(planner.State())
    ensures planned.actual == FinalSharing(planner.setting)
    ensures forall t :: 0 <= t < 4 ==> planned.allocs[t] == UNALLOCATED
    ensures PersistentsDone(planner.Ctx(), planned, planner.State(), 0, lastNode)
  {
    hide TemporariesOk, LifetimesOk, NodesToTensorsOk, SharingOk, Graph.WellFormed, CountersExact, FinalSharing;
    hide GraphOk;
    hide Setting.Valid, Context.LayoutOk, Context.PersistentOk, Context.AllSettled, Context.PointersOk;
    hide KeptUpTo, DeallocSpec, AllocSpec, Demand, PersistentsDone, ArenaPlanner.NoRoom;
    hide ResizableAlignedBuffer.CanHold, PlacedInOrder, Packed, OthersKept;
    ghost var c := planner.Ctx();
    status := planner.PlanAllocations();
    assert forall t :: 0 <= t < 4 ==> c.Cost(t) <= cost && planner.Ctx().Cost(t) == c.Cost(t);
    FourTensors(planner.Ctx(), cost);
    planner.NextMayStart();
    planned := Grown(planner.State(), 4);
    status := planner.ExecuteAllocations(0, lastNode, Some(DEFAULT_ARENA_ALIGNMENT), Some(DEFAULT_ARENA_ALIGNMENT));
    SmallArenaFits(planner.arena.buffer, 0, planner.arena.highWaterMark, Some(DEFAULT_ARENA_ALIGNMENT));
    SmallArenaFits(planner.persistentArena.buffer, 0, planner.persistentArena.highWaterMark,
                   Some(DEFAULT_ARENA_ALIGNMENT));
  }

  lemma NoTemporaries(g: Graph, temporaries: seq<seq<int>>, numTensors: nat)
    requires |temporaries| == |g.nodes| && forall n :: 0 <= n < |g.nodes| ==> temporaries[n] == []
    ensures TemporariesOk(g, temporaries, numTensors) && forall t :: !IsTemporary(temporaries, t)
  {
  }

  lemma FirstNodeIsPlanned(planner: ArenaPlanner, t: int)
    requires planner.Valid() && 0 <= t < |planner.allocNode| && !IsTemporary(planner.temporaries, t)
    ensures |planner.graph.nodes| < NODE_NOT_ASSIGNED && planner.allocNode[t] == AllocSpec(planner.graph, t)
  {
    hide TemporariesOk, NodesToTensorsOk, SharingOk, CountersExact;
    hide Context.LayoutOk, Context.PersistentOk, Context.AllSettled, Context.PointersOk, AllocSpec, DeallocSpec;
    assert PlannedOk(planner.setting, planner.Times(), t);
  }

  /** Run to the end, the planner reports success, and the tensor that the last node reads has no space. */
  method BorrowerHasNoSpace() returns (planner: ArenaPlanner, status: Status)
    ensures status.Ok? && planner.Valid() && planner.graph == BORROWING_GRAPH && planner.frontier == 2
    ensures planner.graph.Reads(2, 2) && planner.Ctx().IsPersistent(2) && planner.tensors[2].bytes == 24
    ensures !planner.Ctx().PlacedForever(planner.State(), 2)
    ensures |planner.temporaries| == 3 && !Covered(planner.graph, planner.temporaries, PlacementOf(planner), 2)
  {
    hide ArenaPlanner.Valid, TemporariesOk, PersistentsDone, FinalSharing;
    BorrowingIsWellFormed();
    NoTemporaries(BORROWING_GRAPH, [[], [], []], 4);
    planner := new ArenaPlanner(BORROWING_GRAPH, BORROWING_TENSORS, [[], [], []], false, DEFAULT_ARENA_ALIGNMENT);
    ghost var planned;
    status, planned := PlanAndPlace(planner, 2, 88);
    PersistentCanBorrow(planner.setting);
    FirstNodeIsPlanned(planner, 2);
    PersistentHasSpaceIff(planner.Ctx(), planned, planner.State(), 0, 2, 2);
    assert planner.graph.nodes[2].inputs == [2];
    TooLittleSpaceIsNotCovered(planner, 2, 2);
  }

  /* ---- A persistent tensor that grows keeps its old space ---- */

  /** 0 -> 1 -> 2 and 3, both persistent. */
  const GROWING_GRAPH: Graph := Graph(
    4, [Node([0], [1], false, NONE), Node([1], [2, 3], false, NONE)], [0, 1], 2, [0], [2, 3], [])

  const GROWING_TENSORS: seq<Tensor> :=
    [Tensor(4, ArenaRw, 0), Tensor(4, ArenaRw, 0), Tensor(4, ArenaRwPersistent, 0), Tensor(4, ArenaRwPersistent, 0)]

  lemma GrowingIsWellFormed()
    ensures GraphOk(GROWING_GRAPH) && forall n :: 0 <= n < 2 ==> GROWING_GRAPH.nodes[n].inplace.IsNone()
    ensures AllocSpec(GROWING_GRAPH, 2) == AllocSpec(GROWING_GRAPH, 3) == 1
  {
    var g := GROWING_GRAPH;
    assert g.nodes[0].inputs == [0] && g.nodes[0].outputs == [1] && g.nodes[0].inplace == NONE;
    assert g.nodes[1].inputs == [1] && g.nodes[1].outputs == [2, 3] && g.nodes[1].inplace == NONE;
    forall t
      ensures g.Produces(0, t) <==> t == 1
      ensures g.Produces(1, t) <==> t == 2 || t == 3
      ensures g.Reads(0, t) <==> t == 0
      ensures g.Reads(1, t) <==> t == 1
    {
    }
    assert FirstProducer(g, 2, 1) == FirstProducer(g, 3, 1) == 1;
  }

  /** Where a persistent tensor with space is. */
  lemma WherePersistentIs(planner: ArenaPlanner, t: int)
    requires planner.Valid() && planner.Ctx().PlacedForever(planner.State(), t)
    ensures planner.allocs[t].End() <= planner.persistentArena.highWaterMark
    ensures planner.persistentArena.highWaterMark <= planner.persistentArena.buffer.size ==>
              planner.tensors[t].data == planner.persistentArena.buffer.ptr + planner.allocs[t].offset
  {
    hide Setting.Valid, TemporariesOk, LifetimesOk, NodesToTensorsOk, SharingOk, CountersExact, GraphOk;
    hide Context.LayoutOk, Context.AllSettled;
    if planner.persistentArena.highWaterMark <= planner.persistentArena.buffer.size {
      assert planner.persistentArena.buffer.ptr != NULL_PTR;
      assert planner.Ctx().PersistentRight(planner.State(), planner.persistentArena.buffer.ptr, t);
    }
  }

  /** Places the grown tensors again; they keep their records. */
  method PlaceGrown(planner: ArenaPlanner) returns (status: Status)
    requires planner.Valid() && planner.frontier == 0 && |planner.allocs| == |planner.tensors| == 4
    requires |planner.graph.nodes| == 2 && planner.actualTensorId == map[]
    requires !IsTemporary(planner.temporaries, 2) && !IsTemporary(planner.temporaries, 3)
    requires AllocSpec(planner.graph, 2) == AllocSpec(planner.graph, 3) == 1
    requires forall t :: 2 <= t < 4 ==> planner.Ctx().IsPersistent(t) && planner.allocs[t].size > 0
    requires planner.tensorAlignment == planner.arena.buffer.alignment == planner.persistentArena.buffer.alignment
    requires planner.tensorAlignment == DEFAULT_ARENA_ALIGNMENT && planner.State().Mark() <= 1000
    requires forall t :: 0 <= t < 4 ==> planner.tensors[t].bytes <= 400
    modifies planner, planner.arena, planner.arena.buffer, planner.persistentArena, planner.persistentArena.buffer
    ensures status.Ok? && planner.Valid() && planner.frontier == 1
    ensures planner.persistentArena.highWaterMark <= planner.persistentArena.buffer.size
    ensures |planner.allocs| == 4 && SameTensors(old(planner.tensors), planner.tensors)
    ensures planner.temporaries == old(planner.temporaries)
    ensures forall t :: 2 <= t < 4 ==> planner.allocs[t] == old(planner.allocs[t])
  {
    hide TemporariesOk, LifetimesOk, NodesToTensorsOk, SharingOk, Graph.WellFormed, CountersExact, FinalSharing;
    hide GraphOk;
    hide Setting.Valid, Context.LayoutOk, Context.PersistentOk, Context.AllSettled, Context.PointersOk;
    hide KeptUpTo, AllocSpec, DeallocSpec, Demand, ArenaPlanner.NoRoom, ResizableAlignedBuffer.CanHold, OthersKept;
    hide PlacedInOrder, Packed;
    assert forall t :: 0 <= t < 4 ==> planner.Ctx().Cost(t) <= 464;
    FourTensors(planner.Ctx(), 464);
    planner.NextMayStart();
    ghost var p := planner.State();
    var block := FreshBlock(planner.arena.buffer);
    var persistentBlock := FreshBlock(planner.persistentArena.buffer);
    ghost var size, persistentSize := planner.arena.buffer.size, planner.persistentArena.buffer.size;
    status := planner.ExecuteAllocations(1, 1, block, persistentBlock);
    SmallArenaFits(planner.arena.buffer, size, planner.arena.highWaterMark, block);
    SmallArenaFits(planner.persistentArena.buffer, persistentSize, planner.persistentArena.highWaterMark,
                   persistentBlock);
    FirstNodeIsPlanned(planner, 2);
    FirstNodeIsPlanned(planner, 3);
    assert PersistentPlaced(planner.Ctx(), Grown(p, 4), planner.State(), 2);
    assert PersistentPlaced(planner.Ctx(), Grown(p, 4), planner.State(), 3);
  }

  /** An aligned block other than the one in use. */
  function FreshBlock(buffer: ResizableAlignedBuffer): (r: Option<nat>)
    requires buffer.alignment == DEFAULT_ARENA_ALIGNMENT
    reads buffer
    ensures r.Some? && buffer.PossibleBlock(r)
  {
    Some(if buffer.ptr == DEFAULT_ARENA_ALIGNMENT then 2 * DEFAULT_ARENA_ALIGNMENT else DEFAULT_ARENA_ALIGNMENT)
  }

  /** Going back to node 0 leaves the space of persistent tensors alone. */
  method GrowTensors(planner: ArenaPlanner) returns (status: Status)
    requires planner.Valid() && planner.frontier == 1
    requires |planner.allocs| == |planner.allocNode| == |planner.tensors| == 4
    requires forall t :: 2 <= t < 4 ==> planner.Ctx().IsPersistent(t) && planner.allocNode[t] == 1
    modifies planner, planner.arena
    ensures status.Ok? && planner.Valid() && planner.frontier == 0
    ensures |planner.allocs| == |planner.tensors| == 4 && planner.temporaries == old(planner.temporaries)
    ensures planner.persistentArena.State() == old(planner.persistentArena.State())
    ensures planner.actualTensorId == old(planner.actualTensorId)
    ensures planner.State().Mark() == old(planner.State().Mark())
    ensures forall t :: 2 <= t < 4 ==>
              && planner.Ctx().IsPersistent(t) && planner.tensors[t].bytes == 400
              && planner.allocs[t] == old(planner.allocs[t])
    ensures forall t :: 0 <= t < 2 ==> planner.tensors[t].bytes == old(planner.tensors[t].bytes)
  {
    hide Setting.Valid, TemporariesOk, LifetimesOk, NodesToTensorsOk, SharingOk, CountersExact, GraphOk;
    hide Context.LayoutOk, Context.AllSettled, Context.PersistentOk, Context.PointersOk, KeptUpTo, FreedAfter;
    status := planner.ResetAllocationsAfter(0);
    planner.ResizeTensor(2, 400, ArenaRwPersistent);
    planner.ResizeTensor(3, 400, ArenaRwPersistent);
  }

  /**
   * Two persistent tensors of 4 bytes are placed; then the planner goes back, both grow to 400
   * bytes, and they are placed again. The planner reports success, but both still have their 4
   * bytes, and the memory they are supposed to have overlaps.
   */
  method OutgrownTensorsOverlap() returns (planner: ArenaPlanner, status: Status)
    ensures status.Ok? && planner.Valid() && planner.graph == GROWING_GRAPH && planner.frontier == 1
    ensures |planner.allocs| == |planner.tensors| == 4
    ensures forall t :: 2 <= t < 4 ==>
              && planner.Ctx().IsPersistent(t) && planner.graph.Produces(1, t)
              && planner.allocs[t].size == 4 && planner.tensors[t].bytes == 400
    ensures planner.tensors[2].data < planner.tensors[3].data + planner.tensors[3].bytes
    ensures planner.tensors[3].data < planner.tensors[2].data + planner.tensors[2].bytes
    ensures |planner.temporaries| == 2 && !Covered(planner.graph, planner.temporaries, PlacementOf(planner), 1)
  {
    hide ArenaPlanner.Valid, ArenaPlanner.Ready, TemporariesOk, FinalSharing, AllocSpec, PersistentsDone, GraphOk;
    GrowingIsWellFormed();
    NoTemporaries(GROWING_GRAPH, [[], []], 4);
    planner := new ArenaPlanner(GROWING_GRAPH, GROWING_TENSORS, [[], []], false, DEFAULT_ARENA_ALIGNMENT);
    ghost var planned;
    status, planned := PlanAndPlace(planner, 1, 68);
    NothingBorrows(planner);
    FirstNodeIsPlanned(planner, 2);
    FirstNodeIsPlanned(planner, 3);
    BothGetSpace(planner.Ctx(), planned, planner.State());
    WherePersistentIs(planner, 2);
    WherePersistentIs(planner, 3);
    status := GrowTensors(planner);
    status := PlaceGrown(planner);
    WherePersistentIs(planner, 2);
    WherePersistentIs(planner, 3);
    assert planner.graph.nodes[1].outputs == [2, 3];
    TooLittleSpaceIsNotCovered(planner, 1, 2);
  }

  lemma BothGetSpace(c: Context, p: Plan, q: Plan)
    requires c.Shape(p) && c.Shape(q) && PersistentsDone(c, p, q, 0, 1) && |c.allocNode| == 4 && p.actual == map[]
    requires forall t :: 2 <= t < 4 ==> c.IsPersistent(t) && c.allocNode[t] == 1 && p.allocs[t].size == 0
    ensures forall t :: 2 <= t < 4 ==> q.allocs[t].size == c.tensors[t].bytes
  {
    assert PersistentPlaced(c, p, q, 2) && PersistentPlaced(c, p, q, 3);
  }

  lemma NothingBorrows(planner: ArenaPlanner)
    requires planner.Valid() && forall n :: 0 <= n < |planner.graph.nodes| ==> planner.graph.nodes[n].inplace.IsNone()
    ensures planner.actualTensorId == FinalSharing(planner.setting) == map[]
  {
    hide LifetimesOk, NodesToTensorsOk, CountersExact, Context.LayoutOk, Context.PersistentOk, Context.AllSettled;
    hide Context.PointersOk, Setting.Valid, TemporariesOk, GraphOk;
    NoInPlaceNoSharing(planner.setting, |planner.graph.nodes|);
    assert forall t :: t in planner.actualTensorId ==> t in FinalSharing(planner.setting);
    assert planner.actualTensorId.Keys == {};
  }
}
