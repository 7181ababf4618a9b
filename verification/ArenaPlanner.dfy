/**
 * The arena planner: plans lifetimes and buffer sharing once, then places the tensors of
 * consecutive node intervals in the arenas and resolves their addresses.
 */
module ArenaPlanner {
  import opened Common
  import opened GraphInfo
  import opened Liveness
  import opened InPlace
  import opened InPlaceSafety
  import opened LivenessTheorems
  import opened ArenaPlacement
  import opened ArenaLayout
  import opened ArenaLifetimes
  import opened PlacementOrder
  import opened MemoryArena
  import opened Sorting

  const DEFAULT_ARENA_ALIGNMENT: SizeT := 64

  /** The graphs the planner is meant for; an in-place operator has its first output. */
  ghost predicate GraphOk(g: Graph) {
    && g.WellFormed()
    && forall n :: 0 <= n < |g.nodes| && Eligible(g, n) ==> g.IsTensor(g.nodes[n].outputs[0])
  }

  class ArenaPlanner {
    const graph: Graph
    /** The temporaries of each node; operators add them when they are prepared. */
    var temporaries: seq<seq<int>>
    var tensors: seq<Tensor>

    var allocs: seq<ArenaAlloc>
    var nodesToTensors: seq<set<int>>
    var allocNode: seq<int>
    var deallocNode: seq<int>
    const arena: SimpleMemoryArena
    var hasNonpersistentMemory: bool
    const persistentArena: SimpleMemoryArena
    const preserveAllTensors: bool
    const tensorAlignment: SizeT
    var lastActiveNode: int
    var actualTensorId: Sharing
    var refcounts: seq<int>

    /** What the sharing was decided from. */
    ghost var setting: Setting
    /** The last node whose tensors are placed. */
    ghost var frontier: int

    ghost predicate Ready()
      reads this`tensors, this`temporaries, arena, arena.buffer, persistentArena, persistentArena.buffer
    {
      && arena.Valid() && persistentArena.Valid()
      && arena != persistentArena && arena.buffer != persistentArena.buffer
      && GraphOk(graph) && graph.numTensors <= |tensors| && TemporariesOk(graph, temporaries, |tensors|)
    }

    ghost function State(): Plan
      reads this, arena, persistentArena
    {
      Plan(allocs, actualTensorId, arena.State(), persistentArena.State())
    }

    ghost function Ctx(): Context
      reads this
    {
      Context(tensors, allocNode, deallocNode, tensorAlignment)
    }

    ghost function Times(): Lifetimes
      reads this
    {
      Lifetimes(allocNode, deallocNode)
    }

    /** There is a plan, and lifetimes (of temporaries, up to node `last`) and queues agree with it. */
    ghost predicate PlannedUpTo(last: int)
      reads this, arena, arena.buffer, persistentArena, persistentArena.buffer
    {
      && Ready()
      && setting.Valid() && setting.g == graph && setting.preserve == preserveAllTensors && CountersExact(setting)
      && graph.numTensors <= |allocNode| && Ctx().Shape(State())
      && LifetimesOk(setting, temporaries, Times(), last)
      && |nodesToTensors| == Max(|graph.nodes|, 1) && NodesToTensorsOk(nodesToTensors, allocNode)
      && SharingOk(setting, actualTensorId)
      && -1 <= last < |nodesToTensors|
    }

    /** Everything up to `last` is placed, safely and findably. */
    ghost predicate PlacedUpTo(last: int)
      reads this, arena, arena.buffer, persistentArena, persistentArena.buffer
    {
      && Ctx().Shape(State())
      && Ctx().LayoutOk(State(), last, last) && Ctx().PersistentOk(State()) && Ctx().AllSettled(State(), last)
      && Ctx().PointersOk(State(), arena.buffer.ptr, persistentArena.buffer.ptr, last)
    }

    /** The invariant of the protocol. */
    ghost predicate Valid()
      reads this, arena, arena.buffer, persistentArena, persistentArena.buffer
    {
      && PlannedUpTo(frontier) && PlacedUpTo(frontier)
      && (lastActiveNode == frontier || (frontier == -1 && lastActiveNode == NODE_NOT_ASSIGNED))
    }

    constructor (graph: Graph, tensors: seq<Tensor>, temporaries: seq<seq<int>>, preserve: bool, alignment: SizeT)
      requires GraphOk(graph) && graph.numTensors <= |tensors| && TemporariesOk(graph, temporaries, |tensors|)
      ensures Ready() && fresh(arena) && fresh(arena.buffer) && fresh(persistentArena) && fresh(persistentArena.buffer)
      ensures this.graph == graph && this.tensors == tensors && this.temporaries == temporaries
      ensures preserveAllTensors == preserve && tensorAlignment == alignment && !hasNonpersistentMemory
      ensures arena.buffer.alignment == persistentArena.buffer.alignment == 64
      ensures arena.buffer.size == persistentArena.buffer.size == 0
    {
      this.graph, this.tensors, this.temporaries := graph, tensors, temporaries;
      allocs, nodesToTensors, allocNode, deallocNode := [], [], [], [];
      arena := new SimpleMemoryArena(DEFAULT_ARENA_ALIGNMENT);
      hasNonpersistentMemory := false;
      persistentArena := new SimpleMemoryArena(DEFAULT_ARENA_ALIGNMENT);
      preserveAllTensors, tensorAlignment := preserve, alignment;
      lastActiveNode := NODE_NOT_ASSIGNED;
      actualTensorId, refcounts := map[], [];
      frontier := -1;
    }

    /* ---- Planning ---- */

    /**
     * Forgets all placement. The plan itself stays, so that the tensors can be placed anew with
     * other sizes; tensors added since the last placement have to wait for a new plan.
     */
    method ResetAllocations()
      requires arena.Valid() && persistentArena.Valid() && arena != persistentArena
      modifies this`allocs, this`lastActiveNode, this`frontier
      modifies arena`committed, arena`highWaterMark, arena`activeAllocs
      modifies persistentArena`committed, persistentArena`highWaterMark, persistentArena`activeAllocs
      ensures arena.Valid() && persistentArena.Valid() && frontier == -1
      ensures arena.State() == persistentArena.State() == ArenaState([], 0)
      ensures allocs == seq(|tensors|, _ => UNALLOCATED) && lastActiveNode == NODE_NOT_ASSIGNED
      ensures old(Valid()) && |allocNode| == |tensors| ==> Valid()
    {
      hide Context.LayoutOk, Context.PersistentOk, Context.AllSettled, Context.PointersOk, Setting.Valid, GraphOk;
      hide Graph.WellFormed, TemporariesOk, LifetimesOk, NodesToTensorsOk, CountersExact;
      ghost var oldFrontier := frontier;
      arena.ClearPlan();
      persistentArena.ClearPlan();
      allocs := seq(|tensors|, _ => UNALLOCATED);
      lastActiveNode := NODE_NOT_ASSIGNED;
      frontier := -1;
      if old(Valid()) && |allocNode| == |tensors| {
        GraphFacts(graph);
        EarlierFrontier(setting, temporaries, Times(), oldFrontier, -1);
        NodesAreNotNegative(setting, temporaries, Times(), -1);
        NothingPlaced(Ctx(), State(), arena.buffer.ptr, persistentArena.buffer.ptr);
      }
    }

    ghost predicate Sized()
      reads this
    {
      |allocNode| == |deallocNode| == |tensors|
    }

    ghost predicate QueuesOk()
      reads this
    {
      Sized() && |nodesToTensors| == Max(|graph.nodes|, 1) && NodesToTensorsOk(nodesToTensors, allocNode)
    }

    method Allocate(node: int, tensor: int) returns (status: Status)
      requires Sized() && 0 <= tensor < |tensors|
      modifies this`allocNode
      ensures status.Ok? <==> old(allocNode)[tensor] != NODE_NOT_ASSIGNED || deallocNode[tensor] == NODE_NOT_ASSIGNED
      ensures allocNode == if status.Ok? && old(allocNode)[tensor] == NODE_NOT_ASSIGNED
                           then old(allocNode)[tensor := node] else old(allocNode)
    {
      if allocNode[tensor] != NODE_NOT_ASSIGNED {
        return Ok;
      }
      if deallocNode[tensor] != NODE_NOT_ASSIGNED {
        return Error;
      }
      allocNode := allocNode[tensor := node];
      return Ok;
    }

    method Deallocate(node: int, tensor: int) returns (status: Status)
      requires Sized() && 0 <= tensor < |tensors|
      modifies this`deallocNode
      ensures status.Ok? <==> allocNode[tensor] == NODE_NOT_ASSIGNED || old(deallocNode)[tensor] == NODE_NOT_ASSIGNED
      ensures deallocNode == if status.Ok? && allocNode[tensor] != NODE_NOT_ASSIGNED
                             then old(deallocNode)[tensor := node] else old(deallocNode)
    {
      if allocNode[tensor] == NODE_NOT_ASSIGNED {
        return Ok;
      }
      if deallocNode[tensor] != NODE_NOT_ASSIGNED {
        return Error;
      }
      deallocNode := deallocNode[tensor := node];
      return Ok;
    }

    /** Queues the present tensors of the list for allocation before the first node. */
    method QueueSources(list: seq<int>)
      requires NoneOrTensors(graph, list) && QueuesOk() && graph.numTensors <= |tensors|
      requires |graph.nodes| < NODE_NOT_ASSIGNED
      requires forall t :: 0 <= t < |tensors| ==>
                 allocNode[t] in {0, NODE_NOT_ASSIGNED} && deallocNode[t] == NODE_NOT_ASSIGNED
      modifies this`allocNode, this`nodesToTensors
      ensures QueuesOk()
      ensures forall t :: 0 <= t < |tensors| ==>
                allocNode[t] == if t in list && old(allocNode)[t] == NODE_NOT_ASSIGNED then 0 else old(allocNode)[t]
    {
      ghost var before := allocNode;
      var i := 0;
      while i < |list|
        invariant 0 <= i <= |list| && QueuesOk()
        invariant forall t :: 0 <= t < |tensors| ==>
                    allocNode[t] == if t in list[..i] && before[t] == NODE_NOT_ASSIGNED then 0 else before[t]
      {
        var t := list[i];
        assert list[..i + 1] == list[..i] + [t];
        assert t in list;
        if t != OPTIONAL_TENSOR {
          ghost var queued := allocNode;
          var status := Allocate(0, t);
          assert status.Ok?;
          QueueingKeepsInverse(nodesToTensors, queued, allocNode, 0, t);
          nodesToTensors := nodesToTensors[0 := nodesToTensors[0] + {t}];
        }
        i := i + 1;
      }
      assert list[..i] == list;
    }

    /** Pins graph outputs, variables and inputs, and queues the latter two for the first node. */
    method PinTensors()
      requires GraphOk(graph) && QueuesOk() && graph.numTensors <= |tensors| && |refcounts| == |tensors|
      requires forall t :: 0 <= t < |tensors| ==>
                 allocNode[t] == deallocNode[t] == NODE_NOT_ASSIGNED && refcounts[t] == 0
      modifies this`allocNode, this`nodesToTensors, this`refcounts
      ensures QueuesOk() && |refcounts| == |tensors|
      ensures forall t :: 0 <= t < |tensors| ==> refcounts[t] == PinCount(graph, t)
      ensures AllocsBefore(graph, allocNode, 0)
    {
      refcounts := CountPins(graph, graph.outputs, refcounts);
      refcounts := CountPins(graph, graph.variables, refcounts);
      QueueSources(graph.variables);
      refcounts := CountPins(graph, graph.inputs, refcounts);
      QueueSources(graph.inputs);
    }

    method QueueOutputs(i: nat)
      requires GraphOk(graph) && QueuesOk() && graph.numTensors <= |tensors| && i < |graph.nodes|
      requires setting.Valid() && setting.g == graph
      requires AllocsBefore(graph, allocNode, i)
      requires DeallocsBefore(graph, actualTensorId, preserveAllTensors, deallocNode, i)
      modifies this`allocNode, this`nodesToTensors
      ensures QueuesOk() && AllocsBefore(graph, allocNode, i + 1)
    {
      hide NodesToTensorsOk, DeallocBefore, AllocBefore, AllocSpec;
      NodeTensors(graph, i);
      var outputs := graph.nodes[i].outputs;
      OutputsStart(graph, allocNode, i);
      var j := 0;
      while j < |outputs|
        invariant 0 <= j <= |outputs| && QueuesOk() && AllocsAre(graph, allocNode, i, j)
      {
        var t := outputs[j];
        assert t in outputs;
        assert outputs[..j + 1] == outputs[..j] + [t];
        if t != OPTIONAL_TENSOR {
          ComputedHere(graph, i, t);
          NotYetAllocated(graph, actualTensorId, preserveAllTensors, t, i);
          ghost var queues, queued := nodesToTensors, allocNode;
          nodesToTensors := nodesToTensors[i := nodesToTensors[i] + {t}];
          var status := Allocate(i, t);
          assert status.Ok?;
          QueueingKeepsInverse(queues, queued, allocNode, i, t);
        }
        j := j + 1;
      }
      OutputsDone(graph, allocNode, i);
    }

    method ReleaseInputs(i: nat, counts: seq<int>) returns (newCounts: seq<int>)
      requires GraphOk(graph) && Sized() && graph.numTensors <= |tensors| && i < |graph.nodes|
      requires |counts| == |tensors| && SharingInRange(graph, actualTensorId) && !preserveAllTensors
      requires AllocsBefore(graph, allocNode, i + 1)
      requires DeallocsBefore(graph, actualTensorId, false, deallocNode, i)
      requires CountsBefore(graph, actualTensorId, counts, i)
      modifies this`deallocNode
      ensures Sized() && |newCounts| == |tensors|
      ensures DeallocsBefore(graph, actualTensorId, false, deallocNode, i + 1)
      ensures CountsBefore(graph, actualTensorId, newCounts, i + 1)
    {
      hide AllocsBefore, CountsAre, DeallocsAre;
      NodeTensors(graph, i);
      newCounts := counts;
      InputsStart(graph, actualTensorId, newCounts, deallocNode, i);
      var inputs := graph.nodes[i].inputs;
      var j := 0;
      while j < |inputs|
        invariant 0 <= j <= |inputs| && Sized() && |newCounts| == |tensors|
        invariant CountsAre(graph, actualTensorId, newCounts, i, j)
        invariant DeallocsAre(graph, actualTensorId, deallocNode, i, j)
      {
        if inputs[j] != OPTIONAL_TENSOR {
          var t := Resolve(actualTensorId, inputs[j]);
          ReleaseInput(graph, actualTensorId, newCounts, allocNode, deallocNode, i, j, t);
          newCounts := newCounts[t := newCounts[t] - 1];
          if newCounts[t] == 0 {
            var status := Deallocate(i, t);
            assert status.Ok?;
          }
        } else {
          SkipInput(graph, actualTensorId, newCounts, deallocNode, i, j);
        }
        j := j + 1;
      }
      InputsDone(graph, actualTensorId, newCounts, deallocNode, i);
    }

    /** The first input of node `i` that its first output may share, or -1. */
    method FindSharableInput(i: nat) returns (inputId: int)
      requires setting == Setting(graph, tensors, refcounts, preserveAllTensors) && setting.Valid()
      requires i < |graph.nodes| && Eligible(graph, i)
      ensures setting.PickInput(i, 0) == if inputId == -1 then None else Some(inputId)
    {
      inputId := -1;
      var changed := TensorChanged(graph, i);
      var outputId := graph.nodes[i].outputs[0];
      var inputs := graph.nodes[i].inputs;
      var loopEnd := if |inputs| < MAX_SHARABLE_INPUTS then |inputs| else MAX_SHARABLE_INPUTS;
      var k := 0;
      while k < loopEnd
        invariant 0 <= k <= loopEnd && inputId == -1
        invariant setting.PickInput(i, 0) == setting.PickInput(i, k)
      {
        assert inputs[k] in inputs;
        if inputs[k] != OPTIONAL_TENSOR && graph.nodes[i].inplace.Shareable(k) {
          var now := Setting(graph, tensors, refcounts, preserveAllTensors);
          if now.InputTensorCanBeShared(inputs[k], outputId, changed) {
            inputId := inputs[k];
            break;
          }
        }
        k := k + 1;
      }
    }

    method IdentifyInPlaceTensors()
      requires setting == Setting(graph, tensors, refcounts, preserveAllTensors) && setting.Valid()
      modifies this`actualTensorId
      ensures actualTensorId == FinalSharing(setting)
    {
      hide setting.PickInput;
      actualTensorId := map[];
      var i := 0;
      while i < |graph.nodes|
        invariant 0 <= i <= |graph.nodes|
        invariant actualTensorId == setting.ShareMap(i)
      {
        if graph.nodes[i].outputs != [] && !graph.nodes[i].inplace.IsNone() {
          var inputId := FindSharableInput(i);
          if inputId != -1 {
            var root := Resolve(actualTensorId, inputId);
            if !(TensorChanged(graph, i) && refcounts[root] > 1) {
              actualTensorId := actualTensorId[graph.nodes[i].outputs[0] := root];
            }
          }
        }
        i := i + 1;
      }
    }

    /**
     * Never fails on a well-formed graph. The lifetimes are exactly the planned ones, the
     * sharing is decided from the exact reference counts, and nothing is placed yet.
     */
    method PlanAllocations() returns (status: Status)
      requires Ready()
      modifies this
      modifies arena`committed, arena`highWaterMark, arena`activeAllocs
      modifies persistentArena`committed, persistentArena`highWaterMark, persistentArena`activeAllocs
      ensures status.Ok? && Valid() && frontier == -1
      ensures allocs == seq(|tensors|, _ => UNALLOCATED)
      ensures arena.State() == persistentArena.State() == ArenaState([], 0)
      ensures tensors == old(tensors) && temporaries == old(temporaries)
      ensures setting == Setting(graph, tensors, refcounts, preserveAllTensors)
      ensures forall t :: graph.IsTensor(t) ==> refcounts[t] == References(graph, t)
      ensures actualTensorId == FinalSharing(setting)
      ensures |allocNode| == |deallocNode| == |tensors|
      ensures forall t :: 0 <= t < |tensors| ==>
                && allocNode[t] == AllocSpec(graph, t)
                && deallocNode[t] == DeallocSpec(graph, FinalSharing(setting), preserveAllTensors, t)
    {
      hide AllocSpec, DeallocSpec, GraphOk, Graph.WellFormed, Valid;
      GraphFacts(graph);
      ResetAllocations();
      ComputeLifetimes();
      forall t | 0 <= t < |tensors|
        ensures allocNode[t] == AllocSpec(graph, t)
        ensures deallocNode[t] == DeallocSpec(graph, FinalSharing(setting), preserveAllTensors, t)
      {
        assert PlannedOk(setting, Times(), t);
      }
      NewPlanIsValid();
      status := Ok;
    }

    /** A new plan, with nothing placed, meets the invariant. */
    lemma NewPlanIsValid()
      requires Ready() && QueuesOk() && frontier == -1 && lastActiveNode == NODE_NOT_ASSIGNED
      requires setting.Valid() && setting.g == graph && setting.preserve == preserveAllTensors && CountersExact(setting)
      requires actualTensorId == FinalSharing(setting)
      requires |graph.nodes| < NODE_NOT_ASSIGNED && forall t :: 0 <= t < |tensors| ==> PlannedOk(setting, Times(), t)
      requires arena.State() == persistentArena.State() == ArenaState([], 0)
      requires allocs == seq(|tensors|, _ => UNALLOCATED)
      ensures Valid()
    {
      hide AllocBefore, AllocSpec, DeallocSpec, Context.LayoutOk, Context.PersistentOk, Context.PointersOk, GraphOk;
      hide Graph.WellFormed;
      FreshLifetimes(setting, temporaries, Times(), |tensors|);
      NodesAreNotNegative(setting, temporaries, Times(), -1);
      NothingPlaced(Ctx(), State(), arena.buffer.ptr, persistentArena.buffer.ptr);
    }

    /** Everything `PlanAllocations` computes once the old allocations are gone. */
    method ComputeLifetimes()
      requires GraphOk(graph) && graph.numTensors <= |tensors|
      modifies this`allocNode, this`deallocNode, this`nodesToTensors, this`refcounts, this`setting, this`actualTensorId
      ensures QueuesOk() && |refcounts| == |tensors|
      ensures setting == Setting(graph, tensors, refcounts, preserveAllTensors) && setting.Valid()
      ensures CountersExact(setting)
      ensures actualTensorId == FinalSharing(setting)
      ensures forall t :: 0 <= t < |tensors| ==> PlannedOk(setting, Times(), t)
    {
      hide AllocBefore, AllocSpec, DeallocSpec, setting.ShareMap, NodesToTensorsOk;
      allocNode := seq(|tensors|, _ => NODE_NOT_ASSIGNED);
      deallocNode := seq(|tensors|, _ => NODE_NOT_ASSIGNED);
      nodesToTensors := seq(Max(|graph.nodes|, 1), _ => {});
      refcounts := seq(|tensors|, _ => 0);
      NothingQueued(nodesToTensors, allocNode);
      PinTensors();
      var counts := refcounts;
      refcounts := CountInputs(graph, map[], refcounts);
      setting := Setting(graph, tensors, refcounts, preserveAllTensors);
      IdentifyInPlaceTensors();
      counts := CountInputs(graph, actualTensorId, counts);
      TraverseNodes(counts);
      forall t | 0 <= t < |tensors|
        ensures PlannedOk(setting, Times(), t)
      {
        TraversalDone(graph, actualTensorId, preserveAllTensors, t);
      }
    }

    /** The walk over the nodes in execution order. */
    method TraverseNodes(counts: seq<int>)
      requires GraphOk(graph) && QueuesOk() && graph.numTensors <= |tensors| && |counts| == |tensors|
      requires setting.Valid() && setting.g == graph && SharingInRange(graph, actualTensorId)
      requires AllocsBefore(graph, allocNode, 0) && CountsBefore(graph, actualTensorId, counts, 0)
      requires forall t :: 0 <= t < |tensors| ==> deallocNode[t] == NODE_NOT_ASSIGNED
      modifies this`allocNode, this`deallocNode, this`nodesToTensors
      ensures QueuesOk() && AllocsBefore(graph, allocNode, |graph.nodes|)
      ensures DeallocsBefore(graph, actualTensorId, preserveAllTensors, deallocNode, |graph.nodes|)
    {
      hide AllocsBefore, NodesToTensorsOk;
      var newCounts := counts;
      var i := 0;
      while i < |graph.nodes|
        invariant 0 <= i <= |graph.nodes| && QueuesOk() && |newCounts| == |tensors|
        invariant AllocsBefore(graph, allocNode, i)
        invariant DeallocsBefore(graph, actualTensorId, preserveAllTensors, deallocNode, i)
        invariant !preserveAllTensors ==> CountsBefore(graph, actualTensorId, newCounts, i)
      {
        QueueOutputs(i);
        if !preserveAllTensors {
          newCounts := ReleaseInputs(i, newCounts);
        }
        i := i + 1;
      }
    }

    /* ---- Going back ---- */

    /** Frees the records and addresses of the tensors placed after `node`. */
    method FreeAfter(node: int)
      requires Ctx().Shape(State())
      modifies this`allocs, this`tensors
      ensures allocs == ResetAfter(old(Ctx()), old(State()), node)
      ensures tensors == ResetTensors(old(Ctx()), old(State()), node)
    {
      ghost var c, p := Ctx(), State();
      ghost var newAllocs, newTensors := ResetAfter(c, p, node), ResetTensors(c, p, node);
      var i := 0;
      while i < |allocs|
        invariant 0 <= i <= |allocs| == |p.allocs| && |tensors| == |c.tensors|
        invariant forall t :: 0 <= t < i ==> allocs[t] == newAllocs[t] && tensors[t] == newTensors[t]
        invariant forall t :: i <= t < |allocs| ==> allocs[t] == p.allocs[t]
        invariant forall t :: i <= t < |tensors| ==> tensors[t] == c.tensors[t]
      {
        if allocs[i].firstNode > node && allocs[i].size > 0 {
          if tensors[i].allocationType.ArenaRw? {
            allocs := allocs[i := UNALLOCATED];
            tensors := tensors[i := tensors[i].(data := NULL_PTR)];
          }
        }
        i := i + 1;
      }
    }

    /** Everything `ResetAllocationsAfter` clears. */
    method ClearAfter(node: int)
      requires Ctx().Shape(State()) && arena != persistentArena
      modifies this`allocs, this`tensors, arena`activeAllocs
      ensures allocs == ResetAfter(old(Ctx()), old(State()), node)
      ensures tensors == ResetTensors(old(Ctx()), old(State()), node)
      ensures FreedAfter(old(allocs), old(tensors), allocs, tensors, node)
      ensures lastActiveNode > node ==>
                && SortedByOffset(arena.activeAllocs)
                && forall a :: a in arena.activeAllocs <==> a in allocs && a.firstNode <= node <= a.lastNode
      ensures lastActiveNode <= node ==>
                && arena.activeAllocs == DropStartedAfter(old(arena.activeAllocs), node)
                && forall a :: a in arena.activeAllocs <==>
                     a in old(arena.activeAllocs) && a.tensor != -1 && a.firstNode <= node
    {
      hide ResetAfter, ResetTensors, SortedByOffset, FreedAfter;
      ghost var c, p := Ctx(), State();
      FreeAfter(node);
      ResetSpellsOut(c, p, node);
      if lastActiveNode > node {
        arena.CalculateActiveAllocs(allocs, node);
      } else {
        arena.PurgeAfter(node);
      }
    }

    /**
     * Forgets what was placed after `node`, and nothing else. Everything up to `node` stays safely
     * placed; for a node beyond the last one placed only `lastActiveNode` is then out of step.
     */
    method ResetAllocationsAfter(node: int) returns (status: Status)
      requires Valid() && -1 <= node
      modifies this`allocs, this`tensors, this`lastActiveNode, this`frontier, arena`activeAllocs
      ensures status.Ok? && Ready() && lastActiveNode == node && frontier == Min(node, old(frontier))
      ensures PlannedUpTo(frontier) && PlacedUpTo(frontier)
      ensures node <= old(frontier) ==> Valid()
      ensures KeptUpTo(old(Ctx()), old(State()), Ctx(), State(), node)
      ensures allocs == ResetAfter(old(Ctx()), old(State()), node)
      ensures tensors == ResetTensors(old(Ctx()), old(State()), node)
      ensures FreedAfter(old(allocs), old(tensors), allocs, tensors, node)
      ensures forall a :: a in arena.activeAllocs <==>
                if old(lastActiveNode) > node then a in allocs && a.firstNode <= node <= a.lastNode
                else a in old(arena.activeAllocs) && a.tensor != -1 && a.firstNode <= node
    {
      hide Setting.Valid, TemporariesOk, LifetimesOk, NodesToTensorsOk, SharingOk, Context.LayoutOk;
      hide Context.PersistentOk, Context.AllSettled, Context.PointersOk, GraphOk, Graph.WellFormed, ResetAfter;
      hide ResetTensors, SameTensors, SortedByOffset, DropStartedAfter, ActiveAt, Context.Placed, KeptUpTo, FreedAfter;
      GraphFacts(graph);
      ghost var c, p := Ctx(), State();
      ClearAfter(node);
      if lastActiveNode > node {
        RebuildingKeepsLayout(c, p, State(), frontier, node);
      } else {
        PurgingAfterKeepsLayout(c, p, frontier, node);
      }
      lastActiveNode := node;
      AddressesDoNotMatter(c, Ctx(), State(), Min(node, frontier), Min(node, frontier));
      ResettingKeepsTheRest(c, Ctx(), p, State(), arena.buffer.ptr, persistentArena.buffer.ptr, frontier, node);
      EarlierFrontier(setting, temporaries, Times(), frontier, Min(node, frontier));
      ResettingKeepsEarlier(c, Ctx(), p, State(), frontier, node);
      frontier := Min(node, frontier);
      status := Ok;
    }

    /* ---- What happens between calls ---- */

    /** A tensor of a node still to come gets its final size, and its kind unless it has space already. */
    method ResizeTensor(tensor: int, bytes: SizeT, kind: AllocationType)
      requires Valid() && 0 <= tensor < |allocNode| && frontier < allocNode[tensor] < NODE_NOT_ASSIGNED
      requires allocs[tensor].size == 0 || kind == tensors[tensor].allocationType
      modifies this`tensors
      ensures Valid()
      ensures tensors == old(tensors)[tensor := old(tensors)[tensor].(bytes := bytes, allocationType := kind)]
      ensures KeptUpTo(old(Ctx()), old(State()), Ctx(), State(), frontier)
    {
      hide Setting.Valid, TemporariesOk, LifetimesOk, NodesToTensorsOk, SharingOk, Context.LayoutOk;
      hide Context.PersistentOk, Context.AllSettled, Context.PointersOk, GraphOk, Graph.WellFormed;
      GraphFacts(graph);
      ghost var c := Ctx();
      OwnersAreOld(setting, temporaries, Times(), frontier, |tensors|, actualTensorId);
      tensors := tensors[tensor := tensors[tensor].(bytes := bytes, allocationType := kind)];
      LaterChangesKeepPlan(c, Ctx(), State(), State(), arena.buffer.ptr, persistentArena.buffer.ptr, frontier);
    }

    /** An operator's prepare function adds a tensor. */
    method AddTensor(tensor: Tensor)
      requires Valid()
      modifies this`tensors
      ensures Valid()
      ensures tensors == old(tensors) + [tensor]
      ensures KeptUpTo(old(Ctx()), old(State()), Ctx(), State(), frontier)
    {
      hide Setting.Valid, TemporariesOk, LifetimesOk, NodesToTensorsOk, SharingOk, Context.LayoutOk;
      hide Context.PersistentOk, Context.AllSettled, Context.PointersOk, GraphOk, Graph.WellFormed;
      ghost var c := Ctx();
      tensors := tensors + [tensor];
      LaterChangesKeepPlan(c, Ctx(), State(), State(), arena.buffer.ptr, persistentArena.buffer.ptr, frontier);
      MoreTensors(graph, temporaries, |tensors| - 1, |tensors|);
    }

    /** An operator's prepare function makes an otherwise unused tensor a temporary of its node. */
    method AddTemporary(node: nat, tensor: int)
      requires Valid() && frontier < node < |graph.nodes|
      requires 0 <= tensor < |tensors| && !Mentioned(graph, tensor) && !IsTemporary(temporaries, tensor)
      modifies this`temporaries
      ensures Valid()
      ensures temporaries == old(temporaries)[node := old(temporaries)[node] + [tensor]]
      ensures KeptUpTo(old(Ctx()), old(State()), Ctx(), State(), frontier)
    {
      hide Context.LayoutOk, Context.PersistentOk, Context.PointersOk, Context.AllSettled, GraphOk, Graph.WellFormed;
      GraphFacts(graph);
      NewTemporaryKeepsLifetimes(setting, temporaries, Times(), frontier, node, tensor);
      temporaries := temporaries[node := temporaries[node] + [tensor]];
    }

    /* ---- Placing ---- */

    /** Makes room for tensors added since the plan was made. */
    method GrowArrays()
      requires Valid()
      modifies this`allocs, this`allocNode, this`deallocNode
      ensures Valid() && |allocs| == |tensors|
      ensures |allocs| >= |old(allocs)| && allocs[..|old(allocs)|] == old(allocs)
      ensures State() == Grown(old(State()), |tensors|)
      ensures allocNode == Grow(old(allocNode), |tensors|) && deallocNode == Grow(old(deallocNode), |tensors|)
    {
      hide Setting.Valid, LifetimesOk, NodesToTensorsOk, SharingOk, Context.LayoutOk, Context.PersistentOk;
      hide Context.AllSettled, Context.PointersOk, GraphOk, Graph.WellFormed;
      GraphFacts(graph);
      ghost var c, p := Ctx(), State();
      GrowingKeepsLifetimes(setting, temporaries, Times(), frontier, |tensors|);
      GrowingKeepsInverse(nodesToTensors, allocNode, |tensors|);
      allocNode := Grow(allocNode, |tensors|);
      deallocNode := Grow(deallocNode, |tensors|);
      allocs := allocs + seq(|tensors| - |allocs|, _ => UNALLOCATED);
      LaterChangesKeepPlan(c, Ctx(), p, State(), arena.buffer.ptr, persistentArena.buffer.ptr, frontier);
    }

    /** One temporary of node `i` gets its lifetime; up to `last` it has it already. */
    method SetTemporary(i: nat, tensor: int, ghost last: int)
      requires PlannedUpTo(last) && PlacedUpTo(frontier) && |allocNode| == |tensors|
      requires i < |graph.nodes| && frontier <= last && (i <= last || frontier < i) && tensor in temporaries[i]
      modifies this`allocNode, this`deallocNode, this`nodesToTensors
      ensures PlannedUpTo(last) && PlacedUpTo(frontier) && |allocNode| == |tensors|
      ensures 0 <= tensor < |allocNode| && allocNode == old(allocNode)[tensor := i]
      ensures AssignsLater(old(Times()), Times(), frontier)
    {
      hide CountersExact, Setting.Valid, LifetimesOk, NodesToTensorsOk, SharingOk, Context.LayoutOk;
      hide Context.PersistentOk, Context.AllSettled, Context.PointersOk, GraphOk, Graph.WellFormed, AssignsLater;
      GraphFacts(graph);
      assert |temporaries| == |graph.nodes|;
      hide TemporariesOk;
      TemporaryIsPlaced(setting, temporaries, Ctx(), State(), nodesToTensors, last, frontier, i, tensor);
      TemporaryKeepsPlaced(setting, temporaries, Ctx(), State(), arena.buffer.ptr, persistentArena.buffer.ptr, last,
                           frontier, i, tensor);
      allocNode := allocNode[tensor := i];
      nodesToTensors := nodesToTensors[i := nodesToTensors[i] + {tensor}];
      if !preserveAllTensors {
        deallocNode := deallocNode[tensor := i];
      }
    }

    /** Gives the temporaries of the nodes from `firstNode` to `lastNode` their lifetimes; -1 stands for every node. */
    method SetTemporaries(firstNode: int, lastNode: int)
      requires PlannedUpTo(frontier) && PlacedUpTo(frontier) && |allocNode| == |tensors|
      requires 0 <= firstNode <= frontier + 1 && frontier <= lastNode < |nodesToTensors|
      modifies this`allocNode, this`deallocNode, this`nodesToTensors
      ensures PlannedUpTo(lastNode) && PlacedUpTo(frontier) && |allocNode| == |tensors|
      ensures AssignsLater(old(Times()), Times(), frontier)
    {
      hide Setting.Valid, LifetimesOk, NodesToTensorsOk, SharingOk, Context.LayoutOk, Context.PersistentOk;
      hide Context.AllSettled, Context.PointersOk, GraphOk, Graph.WellFormed;
      GraphFacts(graph);
      ghost var last := frontier;
      var i := firstNode;
      while (lastNode < 0 || i <= lastNode) && i < |graph.nodes|
        invariant firstNode <= i && (i == firstNode || i <= |graph.nodes|) && (lastNode >= 0 ==> i <= lastNode + 1)
        invariant last == if i <= frontier then frontier else i - 1
        invariant PlannedUpTo(last) && PlacedUpTo(frontier) && |allocNode| == |tensors|
        invariant AssignsLater(old(Times()), Times(), frontier)
        decreases |graph.nodes| - i
      {
        var j := 0;
        while j < |temporaries[i]|
          invariant 0 <= j <= |temporaries[i]|
          invariant PlannedUpTo(last) && PlacedUpTo(frontier) && |allocNode| == |tensors|
          invariant AssignsLater(old(Times()), Times(), frontier)
          invariant forall k :: 0 <= k < j ==>
                      0 <= temporaries[i][k] < |allocNode| && allocNode[temporaries[i][k]] == i
        {
          SetTemporary(i, temporaries[i][j], last);
          j := j + 1;
        }
        if i > last {
          LaterFrontier(setting, temporaries, Times(), i);
          last := i;
        }
        i := i + 1;
      }
      NoMoreTemporaries(setting, temporaries, Times(), last, lastNode);
    }

    /** The tensors whose node is between the two, in any order within a node. */
    method GetTensorsToAllocate(firstNode: int, lastNode: int) returns (r: seq<int>)
      requires 0 <= firstNode && lastNode < |nodesToTensors| && NodesToTensorsOk(nodesToTensors, allocNode)
      ensures forall t :: t in r <==> 0 <= t < |allocNode| && firstNode <= allocNode[t] <= lastNode
      ensures forall t :: multiset(r)[t] <= 1
    {
      r := [];
      var i := firstNode;
      while i <= lastNode
        invariant firstNode <= i && (i <= lastNode + 1 || i == firstNode)
        invariant forall t :: t in r <==> 0 <= t < |allocNode| && firstNode <= allocNode[t] < i
        invariant forall t :: multiset(r)[t] <= 1
      {
        var rest := nodesToTensors[i];
        while rest != {}
          invariant rest <= nodesToTensors[i]
          invariant forall t :: t in r <==>
                      0 <= t < |allocNode| && (firstNode <= allocNode[t] < i || (allocNode[t] == i && t !in rest))
          invariant forall t :: multiset(r)[t] <= 1
          decreases |rest|
        {
          var t := AnyMember(rest);
          r := r + [t];
          rest := rest - {t};
        }
        i := i + 1;
      }
    }

    /**
     * Tensors that live for the whole run come first, by index; the others by decreasing size,
     * and at equal size by the node they are first needed at.
     */
    method CreateTensorAllocationVector(list: seq<int>) returns (r: seq<int>)
      requires |allocNode| == |deallocNode| <= |tensors| && forall t :: t in list ==> 0 <= t < |allocNode|
      ensures multiset(r) == multiset(list) && InPlacementOrder(Ctx(), r)
      ensures forall i, j :: 0 <= i < j < |r| && allocNode[r[j]] == 0 && deallocNode[r[j]] == NODE_NOT_ASSIGNED ==>
                allocNode[r[i]] == 0 && deallocNode[r[i]] == NODE_NOT_ASSIGNED && r[i] <= r[j]
      ensures forall i, j ::
                && 0 <= i < j < |r|
                && !(allocNode[r[i]] == 0 && deallocNode[r[i]] == NODE_NOT_ASSIGNED)
                && !(allocNode[r[j]] == 0 && deallocNode[r[j]] == NODE_NOT_ASSIGNED) ==>
                || tensors[r[i]].bytes > tensors[r[j]].bytes
                || (tensors[r[i]].bytes == tensors[r[j]].bytes && allocNode[r[i]] <= allocNode[r[j]])
    {
      OrderIsWeak(Ctx());
      r := Sort(list, AllocationOrder(Context(tensors, allocNode, deallocNode, tensorAlignment)));
      OrderMeans(Ctx(), list, r);
    }

    /** Both arenas can place tensors at their alignment. */
    ghost predicate AlignmentUsable() {
      0 < tensorAlignment <= arena.buffer.alignment && tensorAlignment <= persistentArena.buffer.alignment
    }

    /** Even if every tensor of the list had to go past everything placed, addresses would not run out. */
    ghost predicate HasRoomFor(list: seq<int>)
      reads this, arena, persistentArena
    {
      AlignmentUsable() && State().Mark() + Demand(Ctx(), list, |tensors|) <= SIZE_MAX
    }

    ghost predicate HasRoom()
      reads this, arena, persistentArena
    {
      HasRoomFor(Indices(|tensors|))
    }

    /** The tensor alignment is unusable, or the addresses of `t` would run past the address space. */
    ghost predicate NoRoomAt(t: int)
      reads this, arena, persistentArena
    {
      !AlignmentUsable() || State().Mark() + Ctx().Cost(t) > SIZE_MAX
    }

    ghost predicate NoRoom()
      reads this, arena, persistentArena
    {
      exists t :: 0 <= t < |tensors| && NoRoomAt(t)
    }

    /** Reserves bytes of the arena for a tensor. */
    method PlaceRw(tensor: int, ghost reach: int, ghost keep: int) returns (status: Status)
      requires Ctx().Shape(State()) && Ctx().LayoutOk(State(), reach, keep) && Ctx().PersistentOk(State())
      requires 0 <= tensor < |allocs| && Ctx().Pending(State(), tensor, keep) && 0 <= allocNode[tensor] <= reach
      requires Ctx().IsRw(tensor) && tensors[tensor].bytes > 0 && tensor !in actualTensorId && arena != persistentArena
      modifies this`allocs, arena`activeAllocs, arena`highWaterMark
      ensures Ctx().Shape(State()) && allocs == old(allocs)[tensor := allocs[tensor]]
      ensures status.Ok? ==> Ctx().LayoutOk(State(), reach, keep) && Ctx().PersistentOk(State())
      ensures status.Ok? ==> Ctx().Settled(State(), tensor)
      ensures State().Mark() <= old(State().Mark()) + Ctx().Cost(tensor)
      ensures status.Error? ==> NoRoomAt(tensor) && State().Mark() == old(State().Mark())
      ensures PlaceOwn(Ctx(), old(State()), arena.buffer.alignment, persistentArena.buffer.alignment, tensor)
              == if status.Ok? then Some(State()) else None
      ensures status.Ok? ==>
                allocs[tensor] == ArenaAlloc(allocs[tensor].offset, tensors[tensor].bytes, tensor, allocNode[tensor],
                                             deallocNode[tensor])
    {
      hide Context.LayoutOk, Context.PersistentOk;
      ghost var c, p := Ctx(), State();
      var newAlloc;
      status, newAlloc := arena.Allocate(
        Request(tensorAlignment, tensors[tensor].bytes, tensor, allocNode[tensor], deallocNode[tensor]),
        allocs[tensor]);
      allocs := allocs[tensor := newAlloc];
      hide ArenaPlacement.Allocate;
      RoomNeeded(c, p, reach, keep, false, arena.buffer.alignment, RwRequest(c, tensor), p.allocs[tensor]);
      if status.Ok? {
        PlacingSettles(c, p, Outcome(status, newAlloc, arena.State()), arena.buffer.alignment, tensor, reach, keep);
      }
    }

    /** Reserves bytes of the persistent arena for a tensor. */
    method PlacePersistent(tensor: int, ghost reach: int, ghost keep: int) returns (status: Status)
      requires Ctx().Shape(State()) && Ctx().LayoutOk(State(), reach, keep) && Ctx().PersistentOk(State())
      requires 0 <= tensor < |allocs| && Ctx().Pending(State(), tensor, keep) && allocs[tensor].size == 0
      requires Ctx().IsPersistent(tensor) && tensors[tensor].bytes > 0 && tensor !in actualTensorId
      requires arena != persistentArena
      modifies this`allocs, persistentArena`activeAllocs, persistentArena`highWaterMark
      ensures Ctx().Shape(State()) && allocs == old(allocs)[tensor := allocs[tensor]]
      ensures status.Ok? ==> Ctx().LayoutOk(State(), reach, keep) && Ctx().PersistentOk(State())
      ensures status.Ok? ==> Ctx().Settled(State(), tensor) && allocs[tensor].size == tensors[tensor].bytes
      ensures State().Mark() <= old(State().Mark()) + Ctx().Cost(tensor)
      ensures status.Error? ==> NoRoomAt(tensor) && State().Mark() == old(State().Mark())
      ensures PlaceOwn(Ctx(), old(State()), arena.buffer.alignment, persistentArena.buffer.alignment, tensor)
              == if status.Ok? then Some(State()) else None
      ensures status.Ok? ==>
                allocs[tensor] == ArenaAlloc(allocs[tensor].offset, tensors[tensor].bytes, tensor, allocNode[tensor],
                                             NODE_NOT_ASSIGNED)
    {
      hide Context.LayoutOk, Context.PersistentOk;
      ghost var c, p := Ctx(), State();
      var newAlloc;
      status, newAlloc := persistentArena.Allocate(
        Request(tensorAlignment, tensors[tensor].bytes, tensor, allocNode[tensor], NODE_NOT_ASSIGNED), allocs[tensor]);
      allocs := allocs[tensor := newAlloc];
      hide ArenaPlacement.Allocate;
      RoomNeeded(c, p, reach, keep, true, persistentArena.buffer.alignment, PersistentRequest(c, tensor),
                 p.allocs[tensor]);
      if status.Ok? {
        PlacingForeverSettles(
          c, p, Outcome(status, newAlloc, persistentArena.State()), persistentArena.buffer.alignment, tensor, reach,
          keep);
      }
    }

    /** Places one due tensor that borrows nothing, unless it has what it needs. */
    method AllocateOwn(tensor: int, ghost reach: int, ghost keep: int) returns (status: Status)
      requires Ctx().Shape(State()) && arena != persistentArena
      requires Ctx().LayoutOk(State(), reach, keep) && Ctx().PersistentOk(State())
      requires Ctx().Due(State(), tensor) && tensor !in actualTensorId && -1 <= keep
      requires if allocNode[tensor] <= keep then Ctx().Settled(State(), tensor)
               else Ctx().Pending(State(), tensor, keep) && allocNode[tensor] <= reach
      modifies this`allocs
      modifies arena`activeAllocs, arena`highWaterMark, persistentArena`activeAllocs, persistentArena`highWaterMark
      ensures Ctx().Shape(State()) && allocs == old(allocs)[tensor := allocs[tensor]]
      ensures status.Ok? ==> Ctx().LayoutOk(State(), reach, keep) && Ctx().PersistentOk(State())
      ensures status.Ok? ==> Ctx().Settled(State(), tensor)
      ensures status.Ok? && Ctx().IsPersistent(tensor) ==>
                if old(allocs)[tensor].size > 0 then allocs == old(allocs)
                else allocs[tensor].size == tensors[tensor].bytes
      ensures State().Mark() <= old(State().Mark()) + Ctx().Cost(tensor)
      ensures status.Error? ==> NoRoomAt(tensor) && State().Mark() == old(State().Mark())
      ensures allocNode[tensor] <= keep ==> allocs == old(allocs)
      ensures PlaceOwn(Ctx(), old(State()), arena.buffer.alignment, persistentArena.buffer.alignment, tensor)
              == if status.Ok? then Some(State()) else None
    {
      hide Context.LayoutOk, Context.PersistentOk, NoRoomAt;
      if tensors[tensor].allocationType.ArenaRw? {
        status := PlaceRw(tensor, reach, keep);
        if status.Error? {
          return;
        }
      }
      if tensors[tensor].allocationType.ArenaRwPersistent? && allocs[tensor].size == 0 {
        if allocs[tensor].size < tensors[tensor].bytes {
          status := PlacePersistent(tensor, reach, keep);
          if status.Error? {
            return;
          }
        }
      }
      status := Ok;
    }

    /** Places one due tensor, unless it can still borrow the buffer it was planned to borrow. */
    method AllocateTensor(tensor: int, ghost reach: int, ghost keep: int) returns (status: Status)
      requires Ctx().Shape(State()) && arena != persistentArena
      requires Ctx().LayoutOk(State(), reach, keep) && Ctx().PersistentOk(State())
      requires Placeable(Ctx(), State(), tensor, keep, reach) && -1 <= keep
      modifies this`allocs, this`actualTensorId
      modifies arena`activeAllocs, arena`highWaterMark, persistentArena`activeAllocs, persistentArena`highWaterMark
      ensures Ctx().Shape(State())
      ensures status.Ok? ==> Ctx().LayoutOk(State(), reach, keep) && Ctx().PersistentOk(State())
      ensures status.Ok? ==> Ctx().Settled(State(), tensor)
      ensures status.Ok? && Ctx().IsPersistent(tensor) ==> PersistentPlaced(Ctx(), old(State()), State(), tensor)
      ensures State().Mark() <= old(State().Mark()) + Ctx().Cost(tensor)
      ensures status.Error? ==> NoRoomAt(tensor) && State().Mark() == old(State().Mark())
      ensures actualTensorId == old(actualTensorId) || actualTensorId == old(actualTensorId) - {tensor}
      ensures tensor in actualTensorId <==>
                && tensor in old(actualTensorId)
                && var root := old(actualTensorId)[tensor];
                   Ctx().IsRw(root) && tensors[root].bytes == tensors[tensor].bytes
      ensures allocs == old(allocs)[tensor := allocs[tensor]]
      ensures allocNode[tensor] <= keep ==> allocs == old(allocs) && actualTensorId == old(actualTensorId)
      ensures PlaceOne(Ctx(), old(State()), arena.buffer.alignment, persistentArena.buffer.alignment, tensor)
              == if status.Ok? then Some(State()) else None
    {
      hide Context.LayoutOk, Context.PersistentOk, NoRoomAt, PlaceOwn;
      assert tensor !in actualTensorId ==> actualTensorId - {tensor} == actualTensorId;
      if tensor in actualTensorId {
        var root := actualTensorId[tensor];
        if !tensors[root].allocationType.ArenaRw? || tensors[root].bytes != tensors[tensor].bytes {
          ghost var before := State();
          actualTensorId := actualTensorId - {tensor};
          LessSharingKeepsLayout(Ctx(), before, State(), reach, keep);
        } else {
          return Ok;
        }
      }
      status := AllocateOwn(tensor, reach, keep);
    }

    /** Of the tensors due, those that need an arena. */
    method SelectTensors(due: seq<int>) returns (r: seq<int>)
      requires Ctx().Shape(State()) && forall t :: t in due ==> 0 <= t < |allocs|
      requires forall t :: multiset(due)[t] <= 1
      ensures forall t :: multiset(r)[t] <= 1
      ensures forall t :: t in r <==> t in due && Ctx().Due(State(), t)
      ensures forall t :: t in r <==>
                && t in due
                && match tensors[t].allocationType
                   case ArenaRw => allocs[t].size < tensors[t].bytes
                   case ArenaRwPersistent => true
                   case Elsewhere(_) => false
    {
      r := [];
      var i := 0;
      while i < |due|
        invariant 0 <= i <= |due|
        invariant multiset(r) <= multiset(due[..i])
        invariant forall t :: t in r <==> t in due[..i] && Ctx().Due(State(), t)
      {
        var t := due[i];
        assert due[..i + 1] == due[..i] + [t];
        assert t in due;
        if tensors[t].allocationType.ArenaRw? {
          if allocs[t].size < tensors[t].bytes {
            r := r + [t];
          }
        } else if tensors[t].allocationType.ArenaRwPersistent? {
          r := r + [t];
        }
        i := i + 1;
      }
      assert due[..i] == due;
    }

    /** Places the listed tensors one after the other. */
    method AllocateTensors(list: seq<int>, lastNode: int) returns (status: Status)
      requires Ctx().Shape(State()) && arena != persistentArena
      requires Ctx().LayoutOk(State(), lastNode, frontier) && Ctx().PersistentOk(State()) && -1 <= frontier
      requires forall t :: multiset(list)[t] <= 1
      requires ListPlaceable(Ctx(), State(), list, frontier, lastNode)
      modifies this`allocs, this`actualTensorId
      modifies arena`activeAllocs, arena`highWaterMark, persistentArena`activeAllocs, persistentArena`highWaterMark
      ensures Ctx().Shape(State()) && OnlyChanges(Ctx(), old(State()), State(), list, frontier)
      ensures status.Ok? ==>
                && Ctx().LayoutOk(State(), lastNode, frontier) && Ctx().PersistentOk(State())
                && Ctx().ListSettled(State(), list) && PersistentsPlaced(Ctx(), old(State()), State(), list)
      ensures State().Mark() <= old(State().Mark()) + Demand(Ctx(), list, |tensors|)
      ensures status.Error? ==> NoRoom() && !old(HasRoomFor(list))
      ensures forall i :: 0 <= i < |list| ==> 0 <= list[i] < |allocNode|
      ensures status.Ok? ==>
                PlaceAll(Ctx(), old(State()), arena.buffer.alignment, persistentArena.buffer.alignment, list)
                == Some(State())
    {
      hide Context.LayoutOk, Context.PersistentOk, Context.ListSettled, OnlyChanges, ListPlaceable, Placeable;
      hide PersistentsPlaced, PersistentPlaced, Plan.Mark, Context.Cost, Demand, PlaceOne;
      ghost var p := State();
      PlaceableAreTensors(Ctx(), p, list, frontier, lastNode);
      NothingChanges(Ctx(), p, list, frontier);
      var k := 0;
      while k < |list|
        invariant 0 <= k <= |list|
        invariant Ctx().Shape(State()) && OnlyChanges(Ctx(), p, State(), list[..k], frontier)
        invariant Ctx().LayoutOk(State(), lastNode, frontier) && Ctx().PersistentOk(State())
        invariant Ctx().ListSettled(State(), list[..k]) && PersistentsPlaced(Ctx(), p, State(), list[..k])
        invariant PlaceAll(Ctx(), p, arena.buffer.alignment, persistentArena.buffer.alignment, list[..k])
                  == Some(State())
        invariant State().Mark() <= p.Mark() + Demand(Ctx(), list[..k], |tensors|)
      {
        var t := list[k];
        ghost var q := State();
        NotRepeated(list, k);
        StillPlaceable(Ctx(), p, q, list, k, frontier, lastNode);
        OneMoreDemanded(Ctx(), list, k, |tensors|);
        status := AllocateTensor(t, lastNode, frontier);
        OneMorePlaced(Ctx(), p, q, State(), list, k, frontier);
        if status.Error? {
          return;
        }
        OneMorePersistent(Ctx(), p, q, State(), list, k, frontier);
        assert list[..k + 1][..k] == list[..k];
        k := k + 1;
      }
      assert list[..k] == list;
      status := Ok;
    }

    /**
     * Placement may go on at `firstNode`: no node is skipped, and if the arena's list is going to
     * be emptied, nothing placed outlives the last node placed.
     */
    ghost predicate MayStartAt(firstNode: int)
      requires Ctx().Shape(State())
      reads this, arena, persistentArena
    {
      0 <= firstNode <= frontier + 1 && (firstNode < lastActiveNode ==> NothingOutlives(Ctx(), State(), frontier))
    }

    /** The last node placed and the one after it are always fine. */
    lemma NextMayStart()
      requires Valid()
      ensures Ready() && -1 <= frontier && Ctx().Shape(State())
      ensures MayStartAt(frontier + 1) && (frontier >= 0 ==> MayStartAt(frontier))
    {
      hide Setting.Valid, TemporariesOk, LifetimesOk, NodesToTensorsOk, SharingOk, CountersExact, GraphOk;
      hide Context.PersistentOk, Context.AllSettled, Context.PointersOk;
    }

    /** Every node has its list of temporaries. */
    lemma ListPerNode()
      requires Ready()
      ensures |temporaries| == |graph.nodes|
    {
      hide GraphOk;
    }

    lemma FirstNodeIsNext(firstNode: int)
      requires Valid() && MayStartAt(firstNode)
      ensures Ctx().Shape(State())
      ensures lastActiveNode == NODE_NOT_ASSIGNED ==> Ctx().LayoutOk(State(), -1, -1) && firstNode < NODE_NOT_ASSIGNED
    {
      hide Setting.Valid, TemporariesOk, LifetimesOk, NodesToTensorsOk, SharingOk, CountersExact, GraphOk;
      hide Context.PersistentOk, Context.AllSettled, Context.PointersOk, Context.LayoutOk, Graph.WellFormed;
      GraphFacts(graph);
    }

    /** Empties the arena's list when placement goes back, and otherwise drops what is over. */
    method ClearList(firstNode: int)
      modifies this`lastActiveNode, arena`activeAllocs
      ensures arena != persistentArena ==> State() == Cleared(old(State()), firstNode, old(lastActiveNode))
    {
      if firstNode < lastActiveNode {
        arena.ResetAllocs();
        lastActiveNode := firstNode;
      } else {
        arena.PurgeActiveAllocs(firstNode);
      }
    }

    /** Clears the arena's list of what is over, and places the tensors due in their order. */
    method PlaceTensors(due: seq<int>, firstNode: int, lastNode: int)
      returns (status: Status, tensorsAllocated: seq<int>)
      requires Ctx().Shape(State()) && arena != persistentArena
      requires Ctx().LayoutOk(State(), frontier, frontier) && Ctx().PersistentOk(State())
      requires Ctx().AllSettled(State(), frontier)
      requires DueList(Ctx(), State(), due, firstNode, lastNode) && forall t :: multiset(due)[t] <= 1
      requires MayStartAt(firstNode) && -1 <= frontier <= lastNode < NODE_NOT_ASSIGNED
      modifies this`allocs, this`actualTensorId, this`lastActiveNode
      modifies arena`activeAllocs, arena`highWaterMark, persistentArena`activeAllocs, persistentArena`highWaterMark
      ensures multiset(tensorsAllocated) == multiset(due) && InPlacementOrder(Ctx(), tensorsAllocated)
      ensures status.Ok? ==>
                PlaceAll(Ctx(), Cleared(old(State()), firstNode, old(lastActiveNode)), arena.buffer.alignment,
                         persistentArena.buffer.alignment, tensorsAllocated) == Some(State())
      ensures Ctx().Shape(State()) && OnlyChanges(Ctx(), old(State()), State(), tensorsAllocated, frontier)
      ensures status.Ok? ==>
                && Ctx().LayoutOk(State(), lastNode, lastNode) && Ctx().PersistentOk(State())
                && Ctx().ListSettled(State(), tensorsAllocated)
                && PersistentsPlaced(Ctx(), old(State()), State(), tensorsAllocated)
      ensures State().Mark() <= old(State().Mark()) + Demand(Ctx(), tensorsAllocated, |tensors|)
      ensures status.Error? ==> NoRoom() && !old(HasRoomFor(tensorsAllocated))
    {
      hide Setting.Valid, TemporariesOk, LifetimesOk, NodesToTensorsOk, SharingOk, Context.LayoutOk;
      hide Context.PersistentOk, Context.AllSettled, Context.ListSettled, DueList, ListPlaceable, NothingOutlives;
      hide NoRoom, Demand, InPlacementOrder, PlaceAll, OnlyChanges, PersistentsPlaced;
      ghost var c, p := Ctx(), State();
      ClearedIsPlaceable(c, p, due, firstNode, lastActiveNode, frontier, lastNode);
      ClearList(firstNode);
      tensorsAllocated := CreateTensorAllocationVector(due);
      SameListInAnyOrder(c, State(), due, tensorsAllocated, firstNode, frontier, lastNode);
      status := AllocateTensors(tensorsAllocated, lastNode);
      ClearingChangesNoRecord(c, p, State(), tensorsAllocated, firstNode, old(lastActiveNode), frontier);
      if status.Ok? {
        KeepingLess(c, State(), lastNode, frontier);
      }
    }

    /** No tensor due after `frontier` owns a buffer already in use. */
    lemma OwnersAreNotDue(lastNode: int)
      requires PlannedUpTo(lastNode) && Ctx().Shape(State())
      ensures lastNode < NODE_NOT_ASSIGNED
      ensures forall s :: s in actualTensorId && 0 <= s < |allocs| && allocNode[s] <= frontier ==>
                var o := actualTensorId[s]; 0 <= o < |allocs| ==> !(frontier < allocNode[o] <= lastNode)
    {
      hide Setting.Valid, TemporariesOk, LifetimesOk, NodesToTensorsOk, SharingOk, GraphOk, Graph.WellFormed;
      hide CountersExact;
      GraphFacts(graph);
      OwnersAreOld(setting, temporaries, Times(), lastNode, |tensors|, actualTensorId);
    }

    /** Everything up to `last` is placed; the listed tensors still lack their addresses. */
    ghost predicate PlacedBut(last: int, list: seq<int>)
      reads this, arena, arena.buffer, persistentArena, persistentArena.buffer
    {
      && Ctx().Shape(State())
      && Ctx().LayoutOk(State(), last, last) && Ctx().PersistentOk(State()) && Ctx().AllSettled(State(), last)
      && Ctx().PointersOkBut(State(), arena.buffer.ptr, persistentArena.buffer.ptr, last, set t | t in list)
    }

    /** Places the tensors due, of which there is at least one. */
    method PlaceDue(due: seq<int>, firstNode: int, lastNode: int) returns (status: Status, tensorsAllocated: seq<int>)
      requires due != []
      requires PlannedUpTo(lastNode) && PlacedUpTo(frontier) && DueList(Ctx(), State(), due, firstNode, lastNode)
      requires forall t :: multiset(due)[t] <= 1
      requires MayStartAt(firstNode) && -1 <= frontier <= lastNode
      modifies this`allocs, this`actualTensorId, this`lastActiveNode
      modifies arena`activeAllocs, arena`highWaterMark, persistentArena`activeAllocs, persistentArena`highWaterMark
      ensures PlannedUpTo(lastNode) && |allocs| == |old(allocs)|
      ensures OnlyChanges(Ctx(), old(State()), State(), tensorsAllocated, frontier)
      ensures DueList(Ctx(), old(State()), tensorsAllocated, firstNode, lastNode)
      ensures status.Ok? ==>
                && PlacedBut(lastNode, tensorsAllocated)
                && PersistentsPlaced(Ctx(), old(State()), State(), tensorsAllocated)
                && PlacedAs(Ctx(), old(State()), State(), old(lastActiveNode), firstNode, lastNode,
                            arena.buffer.alignment, persistentArena.buffer.alignment, tensorsAllocated)
      ensures State().Mark() <= old(State().Mark()) + Demand(Ctx(), tensorsAllocated, |tensors|)
      ensures status.Error? ==> NoRoom() && !old(HasRoomFor(tensorsAllocated))
    {
      hide Setting.Valid, TemporariesOk, LifetimesOk, NodesToTensorsOk, SharingOk, CountersExact, GraphOk;
      hide Graph.WellFormed;
      hide Context.LayoutOk, Context.PersistentOk, Context.AllSettled, Context.ListSettled, Context.PointersOk;
      hide Context.PointersOkBut, OnlyChanges, DueList, NoRoom, HasRoomFor, PersistentsPlaced;
      hide InPlacementOrder, PlaceAll, Cleared;
      ghost var c, p := Ctx(), State();
      OwnersAreNotDue(lastNode);
      status, tensorsAllocated := PlaceTensors(due, firstNode, lastNode);
      SameListInAnyOrder(c, p, due, tensorsAllocated, firstNode, frontier, lastNode);
      LessSharingIsOk(setting, c, p, State(), tensorsAllocated, frontier);
      NoneRepeated(due, tensorsAllocated);
      if status.Ok? {
        DueWereAll(c, p, State(), tensorsAllocated, arena.buffer.ptr, persistentArena.buffer.ptr, firstNode, frontier,
                   lastNode);
      }
    }

    /**
     * Places every tensor due in the interval. Nothing placed before moves, and on success
     * everything up to `lastNode` is placed safely; a persistent tensor with space keeps it as it is.
     */
    method CalculateAllocations(firstNode: int, lastNode: int) returns (status: Status, tensorsAllocated: seq<int>)
      requires PlannedUpTo(lastNode) && PlacedUpTo(frontier) && |allocs| == |tensors|
      requires MayStartAt(firstNode) && frontier <= lastNode && -1 <= frontier
      modifies this`allocs, this`actualTensorId, this`lastActiveNode
      modifies arena`activeAllocs, arena`highWaterMark, persistentArena`activeAllocs, persistentArena`highWaterMark
      ensures PlannedUpTo(lastNode) && |allocs| == |tensors|
      ensures OnlyChanges(Ctx(), old(State()), State(), tensorsAllocated, frontier)
      ensures DueList(Ctx(), old(State()), tensorsAllocated, firstNode, lastNode)
      ensures status.Ok? ==> PlacedBut(lastNode, tensorsAllocated) && lastActiveNode == lastNode
      ensures status.Ok? ==> PersistentsPlaced(Ctx(), old(State()), State(), tensorsAllocated)
      ensures status.Ok? ==>
                PlacedAs(Ctx(), old(State()), State(), old(lastActiveNode), firstNode, lastNode,
                         arena.buffer.alignment, persistentArena.buffer.alignment, tensorsAllocated)
      ensures State().Mark() <= old(State().Mark()) + Demand(Ctx(), tensorsAllocated, |tensors|)
      ensures status.Error? ==> NoRoom() && !old(HasRoomFor(tensorsAllocated))
    {
      hide Setting.Valid, TemporariesOk, LifetimesOk, NodesToTensorsOk, SharingOk, CountersExact, GraphOk;
      hide Graph.WellFormed;
      hide Context.LayoutOk, Context.PersistentOk, Context.AllSettled, Context.PointersOk, Context.PointersOkBut;
      hide OnlyChanges, DueList, NoRoom, HasRoomFor, PersistentPlaced, PlacedAs;
      ghost var c, p := Ctx(), State();
      var due := GetTensorsToAllocate(firstNode, lastNode);
      tensorsAllocated := SelectTensors(due);
      SelectedAreDue(c, p, due, tensorsAllocated, firstNode, lastNode);
      if tensorsAllocated == [] {
        lastActiveNode := lastNode;
        OwnersAreNotDue(lastNode);
        NothingDue(c, p, frontier, lastNode);
        NothingPlacedAs(c, p, old(lastActiveNode), firstNode, lastNode, arena.buffer.alignment,
                        persistentArena.buffer.alignment);
        DueWereAll(c, p, State(), [], arena.buffer.ptr, persistentArena.buffer.ptr, firstNode, frontier, lastNode);
        return Ok, tensorsAllocated;
      }
      status, tensorsAllocated := PlaceDue(tensorsAllocated, firstNode, lastNode);
      if status.Ok? {
        lastActiveNode := lastNode;
      }
    }

    /* ---- Addresses ---- */

    /** Makes both buffers large enough; `reallocated` tells whether one of them moved. */
    method Commit(arenaBlock: Option<nat>, persistentBlock: Option<nat>) returns (status: Status, reallocated: bool)
      requires arena.Valid() && persistentArena.Valid() && arena != persistentArena
      requires arena.buffer != persistentArena.buffer
      requires arena.buffer.PossibleBlock(arenaBlock) && persistentArena.buffer.PossibleBlock(persistentBlock)
      modifies this`hasNonpersistentMemory
      modifies arena`committed, arena.buffer, persistentArena`committed, persistentArena.buffer
      ensures arena.Valid() && persistentArena.Valid()
      ensures status.Ok? <==>
              && arena.buffer.CanHold(old(arena.buffer.size), arena.highWaterMark, arenaBlock)
              && persistentArena.buffer.CanHold(old(persistentArena.buffer.size), persistentArena.highWaterMark,
                                                persistentBlock)
      ensures status.Error? ==>
                || (arena.buffer.Stuck(arena.highWaterMark, arenaBlock) && arena.buffer.ptr == old(arena.buffer.ptr))
                || (persistentArena.buffer.Stuck(persistentArena.highWaterMark, persistentBlock)
                    && persistentArena.buffer.ptr == old(persistentArena.buffer.ptr))
      ensures status.Ok? ==> arena.committed && persistentArena.committed && hasNonpersistentMemory
      ensures hasNonpersistentMemory <==> old(hasNonpersistentMemory) || arena.committed
      ensures status.Ok? ==> arena.buffer.size == Max(old(arena.buffer.size), arena.highWaterMark)
      ensures status.Ok? ==>
                persistentArena.buffer.size == Max(old(persistentArena.buffer.size), persistentArena.highWaterMark)
      ensures status.Ok? ==> (reallocated <==> arena.buffer.ptr != old(arena.buffer.ptr)
                                               || persistentArena.buffer.ptr != old(persistentArena.buffer.ptr))
      ensures arena.buffer.data.Length >= old(arena.buffer.data.Length)
      ensures arena.buffer.data[..old(arena.buffer.data.Length)] == old(arena.buffer.data[..])
      ensures persistentArena.buffer.data.Length >= old(persistentArena.buffer.data.Length)
      ensures persistentArena.buffer.data[..old(persistentArena.buffer.data.Length)]
                == old(persistentArena.buffer.data[..])
    {
      var arenaReallocated, persistentReallocated;
      reallocated := false;
      status, arenaReallocated := arena.Commit(arenaBlock);
      if status.Error? {
        return;
      }
      hasNonpersistentMemory := true;
      status, persistentReallocated := persistentArena.Commit(persistentBlock);
      reallocated := arenaReallocated || persistentReallocated;
    }

    /** Records are placed, owners share nothing, and the arena is committed and large enough. */
    ghost predicate ArenaReady(reach: int)
      reads this, arena, arena.buffer, persistentArena
    {
      && |tensors| == |allocs| && Ctx().Shape(State())
      && Ctx().LayoutOk(State(), reach, reach) && Ctx().PersistentOk(State())
      && (forall s :: s in actualTensorId ==> actualTensorId[s] !in actualTensorId)
      && arena.committed && arena.highWaterMark <= arena.buffer.size
    }

    ghost predicate PersistentReady()
      reads this, persistentArena, persistentArena.buffer
    {
      persistentArena.committed && persistentArena.highWaterMark <= persistentArena.buffer.size
    }

    /** The arenas `t` needs are ready. */
    ghost predicate Resolvable(t: int, reach: int)
      reads this, arena, arena.buffer, persistentArena, persistentArena.buffer
    {
      0 <= t < |tensors| && ArenaReady(reach) && (Ctx().IsPersistent(t) ==> PersistentReady())
    }

    predicate SameArena(root: int, tensor: int)
      requires 0 <= root < |tensors| && 0 <= tensor < |tensors|
      reads this`tensors
    {
      || (tensors[root].allocationType.ArenaRw? && tensors[tensor].allocationType.ArenaRw?)
      || (tensors[root].allocationType.ArenaRwPersistent? && tensors[tensor].allocationType.ArenaRwPersistent?)
    }

    /**
     * The address that `tensor` has for itself: that of its record. An empty record of the arena
     * leaves the old address, an empty one of the persistent arena gives none.
     */
    function HomeAddress(tensor: int, before: nat): nat
      requires 0 <= tensor < |tensors| && tensor < |allocs|
      reads this`tensors, this`allocs, arena.buffer, persistentArena.buffer
    {
      match tensors[tensor].allocationType
      case ArenaRw => if allocs[tensor].size == 0 then before else arena.buffer.ptr + allocs[tensor].offset
      case ArenaRwPersistent =>
        if allocs[tensor].size == 0 then NULL_PTR else persistentArena.buffer.ptr + allocs[tensor].offset
      case Elsewhere(_) => before
    }

    /** Gives a tensor the address of its own record, if it has one. */
    method ResolveOwn(tensor: int, ghost reach: int) returns (status: Status)
      requires Resolvable(tensor, reach)
      modifies this`tensors
      ensures status.Ok? && |tensors| == |old(tensors)|
      ensures tensors == old(tensors)[tensor := old(tensors)[tensor].(data := tensors[tensor].data)]
      ensures Ctx().Shape(State()) && Ctx().PointsHome(State(), arena.buffer.ptr, persistentArena.buffer.ptr, tensor)
      ensures OthersKept(old(tensors), tensors)
      ensures tensors[tensor].data == HomeAddress(tensor, old(tensors[tensor].data))
    {
      if tensors[tensor].allocationType.ArenaRw? {
        if allocs[tensor].size != 0 {
          var ptr;
          assert Ctx().Placed(State(), tensor);
          status, ptr := arena.ResolveAlloc(allocs[tensor]);
          tensors := tensors[tensor := tensors[tensor].(data := ptr)];
          return;
        }
      }
      if tensors[tensor].allocationType.ArenaRwPersistent? {
        var ptr;
        assert allocs[tensor].size != 0 ==> Ctx().PlacedForever(State(), tensor);
        status, ptr := persistentArena.ResolveAlloc(allocs[tensor]);
        tensors := tensors[tensor := tensors[tensor].(data := ptr)];
        return;
      }
      status := Ok;
    }

    /** Gives a tensor its address: that of its own record, or that of the owner of its buffer. */
    method ResolveTensorAllocation(tensor: int, ghost reach: int) returns (status: Status)
      requires Resolvable(tensor, reach)
      modifies this`tensors
      ensures status.Ok? && Resolvable(tensor, reach)
      ensures OnlyResolves(old(Ctx()), Ctx(), State(), arena.buffer.ptr, persistentArena.buffer.ptr, tensor)
      ensures Ctx().PointerRight(State(), arena.buffer.ptr, tensor)
      ensures Ctx().PersistentRight(State(), persistentArena.buffer.ptr, tensor)
      ensures tensor !in actualTensorId ==>
                Ctx().PointsHome(State(), arena.buffer.ptr, persistentArena.buffer.ptr, tensor)
      ensures var root := Resolve(actualTensorId, tensor);
              && 0 <= root < |tensors|
              && tensors[tensor].data ==
                 if root != tensor && tensors[root].allocationType == tensors[tensor].allocationType
                    && !tensors[tensor].allocationType.Elsewhere? then tensors[root].data
                 else HomeAddress(tensor, old(tensors[tensor].data))
      decreases tensor in actualTensorId
    {
      hide Context.LayoutOk, Context.PersistentOk, Context.PointersOk;
      ghost var c := Ctx();
      var root := Resolve(actualTensorId, tensor);
      if root != tensor {
        if SameArena(root, tensor) {
          status := ResolveTensorAllocation(root, reach);
          ghost var d := Ctx();
          tensors := tensors[tensor := tensors[tensor].(data := tensors[root].data)];
          BorrowedAddress(c, d, Ctx(), State(), arena.buffer.ptr, persistentArena.buffer.ptr, tensor, reach);
          return Ok;
        }
      }
      status := ResolveOwn(tensor, reach);
      OwnAddress(c, Ctx(), State(), arena.buffer.ptr, persistentArena.buffer.ptr, tensor, reach);
    }

    /** Resolves the listed tensors; with the others in order, all addresses are right. */
    method ResolveTensors(list: seq<int>, ghost reach: int) returns (status: Status)
      requires ArenaReady(reach) && forall t :: t in list ==> 0 <= t < |tensors|
      requires PersistentReady() || forall t :: t in list ==> !Ctx().IsPersistent(t)
      requires Ctx().PointersOkBut(State(), arena.buffer.ptr, persistentArena.buffer.ptr, reach, set t | t in list)
      modifies this`tensors
      ensures status.Ok? && SameTensors(old(tensors), tensors) && OthersKept(old(tensors), tensors) && ArenaReady(reach)
      ensures Ctx().PointersOk(State(), arena.buffer.ptr, persistentArena.buffer.ptr, reach)
    {
      hide Context.LayoutOk, Context.PersistentOk, Context.PointersOk;
      ghost var todo := set t | t in list;
      var i := 0;
      while i < |list|
        invariant 0 <= i <= |list|
        invariant ArenaReady(reach) && SameTensors(old(tensors), tensors) && OthersKept(old(tensors), tensors)
        invariant forall t :: t in todo ==> t in list[i..]
        invariant Ctx().PointersOkBut(State(), arena.buffer.ptr, persistentArena.buffer.ptr, reach, todo)
      {
        ghost var c := Ctx();
        assert list[i..] == [list[i]] + list[i + 1..];
        assert list[i] in list;
        status := ResolveTensorAllocation(list[i], reach);
        ResolvingMakesProgress(
          c, Ctx(), State(), arena.buffer.ptr, persistentArena.buffer.ptr, reach, todo, list[i]);
        todo := todo - {list[i]};
        i := i + 1;
      }
      NothingToDo(Ctx(), State(), arena.buffer.ptr, persistentArena.buffer.ptr, reach, todo);
      status := Ok;
    }

    /* ---- The protocol ---- */

    /** Resolves every tensor if a buffer moved, otherwise only the new ones. */
    method AddressTensors(reallocated: bool, tensorsAllocated: seq<int>, lastNode: int) returns (status: Status)
      requires PlannedUpTo(lastNode) && ArenaReady(lastNode) && PersistentReady() && Ctx().AllSettled(State(), lastNode)
      requires forall t :: t in tensorsAllocated ==> 0 <= t < |tensors|
      requires !reallocated ==> PlacedBut(lastNode, tensorsAllocated)
      modifies this`tensors, this`frontier
      ensures status.Ok? && SameTensors(old(tensors), tensors) && OthersKept(old(tensors), tensors)
      ensures frontier == lastNode && PlannedUpTo(lastNode) && PlacedUpTo(lastNode) && Ready() && |allocs| == |tensors|
    {
      hide Setting.Valid, TemporariesOk, LifetimesOk, NodesToTensorsOk, SharingOk, Context.LayoutOk;
      hide Context.PersistentOk, Context.AllSettled, Context.PointersOk, GraphOk, Graph.WellFormed;
      ghost var c := Ctx();
      if reallocated {
        EverythingToDo(Ctx(), State(), arena.buffer.ptr, persistentArena.buffer.ptr, lastNode);
        status := ResolveTensors(Indices(|tensors|), lastNode);
      } else {
        status := ResolveTensors(tensorsAllocated, lastNode);
      }
      AddressesDoNotMatter(c, Ctx(), State(), lastNode, lastNode);
      frontier := lastNode;
    }

    /** Everything `ExecuteAllocations` does before the buffers are committed. */
    method ReserveSpace(firstNode: int, lastNode: int) returns (status: Status, tensorsAllocated: seq<int>)
      requires Valid() && MayStartAt(firstNode) && frontier <= lastNode < |nodesToTensors|
      modifies this`allocs, this`allocNode, this`deallocNode, this`nodesToTensors, this`actualTensorId,
        this`lastActiveNode
      modifies arena`activeAllocs, arena`highWaterMark, persistentArena`activeAllocs, persistentArena`highWaterMark
      ensures PlannedUpTo(lastNode) && Ready() && |allocs| == |tensors|
      ensures forall t :: t in tensorsAllocated ==> 0 <= t < |tensors|
      ensures KeptUpTo(old(Ctx()), old(State()), Ctx(), State(), frontier)
      ensures status.Ok? ==> PlacedBut(lastNode, tensorsAllocated) && lastActiveNode == lastNode
      ensures Ctx().Shape(Grown(old(State()), |tensors|)) && Ctx().Shape(State())
      ensures status.Ok? ==> PersistentsDone(Ctx(), Grown(old(State()), |tensors|), State(), firstNode, lastNode)
      ensures status.Ok? ==>
                PlacedInOrder(Ctx(), Grown(old(State()), |tensors|), State(), old(lastActiveNode), firstNode, lastNode,
                              arena.buffer.alignment, persistentArena.buffer.alignment)
      ensures State().Mark() <= old(State().Mark()) + old(Demand(Ctx(), Indices(|tensors|), |tensors|))
      ensures status.Error? ==> NoRoom() && !old(HasRoom())
    {
      hide Setting.Valid, TemporariesOk, LifetimesOk, NodesToTensorsOk, SharingOk, CountersExact, GraphOk;
      hide Graph.WellFormed;
      hide Context.LayoutOk, Context.PersistentOk, Context.AllSettled, Context.PointersOk, OnlyChanges, DueList, NoRoom;
      hide KeptUpTo, PersistentsDone, PersistentsPlaced, Grown, Demand, NothingOutlives, AssignsLater, PlacedAs;
      GraphFacts(graph);
      ghost var c, p := Ctx(), State();
      GrowArrays();
      SetTemporaries(firstNode, lastNode);
      ghost var d, q := Ctx(), State();
      GrownKeepsEarlier(c, p, d, q, frontier);
      if firstNode < lastActiveNode {
        OutlivesNoMore(c, p, d, q, frontier);
      }
      status, tensorsAllocated := CalculateAllocations(firstNode, lastNode);
      PlacingKeepsEarlier(c, p, d, q, State(), tensorsAllocated, firstNode, frontier, lastNode);
      DemandAtMost(d, c, tensorsAllocated, Indices(|tensors|), |tensors|);
      if status.Ok? {
        PersistentsWereDue(Ctx(), q, State(), tensorsAllocated, firstNode, lastNode);
      }
    }

    /** Commits both buffers without touching the plan. */
    method CommitPlan(
      arenaBlock: Option<nat>, persistentBlock: Option<nat>, tensorsAllocated: seq<int>, ghost lastNode: int)
      returns (status: Status, reallocated: bool)
      requires PlannedUpTo(lastNode) && |allocs| == |tensors| && PlacedBut(lastNode, tensorsAllocated)
      requires arena.buffer.PossibleBlock(arenaBlock) && persistentArena.buffer.PossibleBlock(persistentBlock)
      modifies this`hasNonpersistentMemory
      modifies arena`committed, arena.buffer, persistentArena`committed, persistentArena.buffer
      ensures PlannedUpTo(lastNode) && Ready()
      ensures status.Ok? <==>
              && arena.buffer.CanHold(old(arena.buffer.size), arena.highWaterMark, arenaBlock)
              && persistentArena.buffer.CanHold(old(persistentArena.buffer.size), persistentArena.highWaterMark,
                                                persistentBlock)
      ensures status.Error? ==>
                || (arena.buffer.Stuck(arena.highWaterMark, arenaBlock) && arena.buffer.ptr == old(arena.buffer.ptr))
                || (persistentArena.buffer.Stuck(persistentArena.highWaterMark, persistentBlock)
                    && persistentArena.buffer.ptr == old(persistentArena.buffer.ptr))
      ensures status.Ok? ==> hasNonpersistentMemory && Ctx().AllSettled(State(), lastNode)
      ensures status.Ok? ==> arena.committed && arena.highWaterMark <= arena.buffer.size
      ensures status.Ok? ==>
                ArenaReady(lastNode) && PersistentReady() && (!reallocated ==> PlacedBut(lastNode, tensorsAllocated))
      ensures status.Ok? ==> persistentArena.highWaterMark <= persistentArena.buffer.size
      ensures arena.buffer.data.Length >= old(arena.buffer.data.Length)
      ensures arena.buffer.data[..old(arena.buffer.data.Length)] == old(arena.buffer.data[..])
      ensures persistentArena.buffer.data.Length >= old(persistentArena.buffer.data.Length)
      ensures persistentArena.buffer.data[..old(persistentArena.buffer.data.Length)]
                == old(persistentArena.buffer.data[..])
    {
      hide Setting.Valid, TemporariesOk, LifetimesOk, NodesToTensorsOk, SharingOk, CountersExact, GraphOk;
      hide Graph.WellFormed;
      hide Context.LayoutOk, Context.PersistentOk, Context.AllSettled, Context.PointersOkBut;
      hide ResizableAlignedBuffer.CanHold, ResizableAlignedBuffer.Stuck;
      GraphFacts(graph);
      OwnersStayOwners(setting, actualTensorId);
      status, reallocated := Commit(arenaBlock, persistentBlock);
    }

    /**
     * Places and addresses the tensors of the next nodes, up to `lastNode`. The two blocks are
     * the system allocator's answers, should a buffer have to grow. It can only fail when
     * addresses run out or a buffer cannot grow, and growth keeps all bytes.
     */
    method ExecuteAllocations(firstNode: int, lastNode: int, arenaBlock: Option<nat>, persistentBlock: Option<nat>)
      returns (status: Status)
      requires Valid() && MayStartAt(firstNode) && frontier <= lastNode < |nodesToTensors|
      requires arena.buffer.PossibleBlock(arenaBlock) && persistentArena.buffer.PossibleBlock(persistentBlock)
      modifies this`allocs, this`allocNode, this`deallocNode, this`nodesToTensors, this`actualTensorId, this`tensors
      modifies this`lastActiveNode, this`frontier, this`hasNonpersistentMemory
      modifies arena, arena.buffer, persistentArena, persistentArena.buffer
      ensures Ready() && SameTensors(old(tensors), tensors) && OthersKept(old(tensors), tensors)
      ensures State().Mark() <= old(State().Mark()) + old(Demand(Ctx(), Indices(|tensors|), |tensors|))
      ensures old(HasRoom()) || !NoRoom() ==>
                (status.Ok? <==>
                 && arena.buffer.CanHold(old(arena.buffer.size), arena.highWaterMark, arenaBlock)
                 && persistentArena.buffer.CanHold(
                      old(persistentArena.buffer.size), persistentArena.highWaterMark, persistentBlock))
      ensures status.Error? ==>
                || NoRoom()
                || (arena.buffer.Stuck(arena.highWaterMark, arenaBlock) && arena.buffer.ptr == old(arena.buffer.ptr))
                || (persistentArena.buffer.Stuck(persistentArena.highWaterMark, persistentBlock)
                    && persistentArena.buffer.ptr == old(persistentArena.buffer.ptr))
      ensures status.Ok? ==> Valid() && frontier == lastNode && hasNonpersistentMemory && |allocs| == |tensors|
      ensures status.Ok? ==> arena.committed && arena.highWaterMark <= arena.buffer.size
      ensures status.Ok? ==> persistentArena.highWaterMark <= persistentArena.buffer.size
      ensures KeptUpTo(old(Ctx()), old(State()), Ctx(), State(), old(frontier))
      ensures status.Ok? ==>
                && Ctx().Shape(Grown(old(State()), |tensors|)) && Ctx().Shape(State())
                && PersistentsDone(Ctx(), Grown(old(State()), |tensors|), State(), firstNode, lastNode)
                && PlacedInOrder(Ctx(), Grown(old(State()), |tensors|), State(), old(lastActiveNode), firstNode,
                                 lastNode, arena.buffer.alignment, persistentArena.buffer.alignment)
      ensures status.Ok? && old(lastActiveNode) == NODE_NOT_ASSIGNED ==> Packed(Ctx(), State())
      ensures arena.buffer.data.Length >= old(arena.buffer.data.Length)
      ensures arena.buffer.data[..old(arena.buffer.data.Length)] == old(arena.buffer.data[..])
      ensures persistentArena.buffer.data.Length >= old(persistentArena.buffer.data.Length)
      ensures persistentArena.buffer.data[..old(persistentArena.buffer.data.Length)]
                == old(persistentArena.buffer.data[..])
    {
      hide PlannedUpTo, PlacedUpTo, PlacedBut, Ready, ArenaReady, PersistentReady, NoRoom, HasRoom, KeptUpTo;
      hide Context.AllSettled, ResizableAlignedBuffer.CanHold, ResizableAlignedBuffer.Stuck, PersistentsDone, Grown;
      hide PlacedInOrder, Packed;
      ghost var c, p, lastActive := Ctx(), State(), lastActiveNode;
      FirstNodeIsNext(firstNode);
      var tensorsAllocated;
      status, tensorsAllocated := ReserveSpace(firstNode, lastNode);
      if status.Error? {
        return;
      }
      var reallocated;
      status, reallocated := CommitPlan(arenaBlock, persistentBlock, tensorsAllocated, lastNode);
      if status.Error? {
        return;
      }
      ghost var d := Ctx();
      status := AddressTensors(reallocated, tensorsAllocated, lastNode);
      AddressingKeepsEarlier(c, p, d, Ctx(), State(), old(frontier));
      AddressingKeepsPersistents(d, Ctx(), Grown(p, |tensors|), State(), firstNode, lastNode);
      OrderIgnoresAddresses(d, Ctx(), Grown(p, |tensors|), State(), lastActive, firstNode, lastNode,
                            arena.buffer.alignment, persistentArena.buffer.alignment);
      if lastActive == NODE_NOT_ASSIGNED {
        FirstPlacementIsPacked(c, p, Ctx(), Grown(p, |tensors|), State(), firstNode, lastNode, arena.buffer.alignment,
                               persistentArena.buffer.alignment);
      }
    }

    /* ---- Releasing and re-acquiring the memory ---- */

    /** Clears the addresses of the tensors in the arena. */
    method ClearAddresses()
      modifies this`tensors
      ensures tensors == WithoutAddresses(old(tensors))
    {
      var i := 0;
      while i < |tensors|
        invariant 0 <= i <= |tensors| == |old(tensors)|
        invariant forall t :: 0 <= t < |tensors| ==>
                    tensors[t] == if t < i then WithoutAddresses(old(tensors))[t] else old(tensors)[t]
      {
        if tensors[i].allocationType.ArenaRw? {
          tensors := tensors[i := tensors[i].(data := NULL_PTR)];
        }
        i := i + 1;
      }
    }

    /** Gives the memory of the arena back; records and offsets stay. */
    method ReleaseNonPersistentMemory() returns (status: Status)
      requires Valid()
      modifies this`tensors, this`hasNonpersistentMemory, arena`committed, arena.buffer
      ensures status.Ok? && Valid() && !hasNonpersistentMemory && !arena.committed
      ensures arena.buffer.size == 0 && arena.buffer.ptr == NULL_PTR
      ensures tensors == WithoutAddresses(old(tensors)) && |tensors| == |old(tensors)|
      ensures forall t :: 0 <= t < |tensors| ==>
                tensors[t] == if old(tensors)[t].allocationType == ArenaRw then old(tensors)[t].(data := NULL_PTR)
                              else old(tensors)[t]
    {
      hide Setting.Valid, TemporariesOk, LifetimesOk, NodesToTensorsOk, SharingOk, Context.LayoutOk;
      hide Context.PersistentOk, Context.AllSettled, Context.PointersOk, GraphOk, Graph.WellFormed;
      ghost var c, p := Ctx(), State();
      arena.ReleaseBuffer();
      hasNonpersistentMemory := false;
      ClearAddresses();
      AddressesDoNotMatter(c, Ctx(), p, frontier, frontier);
      WithoutMemory(c, Ctx(), p, old(arena.buffer.ptr), persistentArena.buffer.ptr, frontier);
      status := Ok;
    }

    method SelectRwTensors() returns (list: seq<int>)
      ensures forall t :: t in list <==> Ctx().IsRw(t)
    {
      list := [];
      var i := 0;
      while i < |tensors|
        invariant 0 <= i <= |tensors|
        invariant forall t :: t in list <==> t < i && Ctx().IsRw(t)
      {
        if tensors[i].allocationType.ArenaRw? {
          list := list + [i];
        }
        i := i + 1;
      }
    }

    /**
     * Gets memory for the arena again and addresses its tensors; no record changes, so every
     * one is back at its old offset. It fails exactly when the buffer cannot be had.
     */
    method AcquireNonPersistentMemory(block: Option<nat>) returns (status: Status)
      requires Valid() && |allocs| == |tensors| && arena.buffer.PossibleBlock(block)
      modifies this`tensors, this`hasNonpersistentMemory, arena`committed, arena.buffer
      ensures Ready() && SameTensors(old(tensors), tensors) && OthersKept(old(tensors), tensors)
      ensures status.Ok? <==> arena.buffer.CanHold(old(arena.buffer.size), arena.highWaterMark, block)
      ensures status.Error? ==>
                && arena.buffer.Stuck(arena.highWaterMark, block) && arena.buffer.ptr == old(arena.buffer.ptr)
                && tensors == old(tensors) && hasNonpersistentMemory == old(hasNonpersistentMemory)
      ensures status.Ok? ==> Valid() && hasNonpersistentMemory && arena.highWaterMark <= arena.buffer.size
    {
      hide Setting.Valid, TemporariesOk, LifetimesOk, NodesToTensorsOk, SharingOk, Context.LayoutOk;
      hide Context.PersistentOk, Context.AllSettled, Context.PointersOk, GraphOk, Graph.WellFormed;
      GraphFacts(graph);
      ghost var c, oldBase := Ctx(), arena.buffer.ptr;
      var reallocated;
      status, reallocated := arena.Commit(block);
      if status.Error? {
        return;
      }
      hasNonpersistentMemory := true;
      OwnersStayOwners(setting, actualTensorId);
      var list := SelectRwTensors();
      OnlyRwToDo(c, State(), oldBase, arena.buffer.ptr, persistentArena.buffer.ptr, frontier, list);
      status := ResolveTensors(list, frontier);
      AddressesDoNotMatter(c, Ctx(), State(), frontier, frontier);
    }
  }

  /**
   * A request of the planner fails only if its alignment is unusable or addresses run out, and
   * adds no more to the high-water marks than its size and alignment.
   */
  lemma RoomNeeded(
    c: Context, p: Plan, reach: int, keep: int, forever: bool, bufferAlignment: SizeT, r: Request, record: ArenaAlloc)
    requires c.Shape(p) && c.LayoutOk(p, reach, keep) && c.PersistentOk(p)
    ensures var state := if forever then p.persistent else p.arena;
            var o := ArenaPlacement.Allocate(state, bufferAlignment, r, record);
            && o.state.highWater <= p.Mark() + r.alignment + r.size
            && (o.status.Error? ==>
                  && o.state == state
                  && (!(0 < r.alignment <= bufferAlignment) || p.Mark() + r.alignment + r.size > SIZE_MAX))
  {
    if 0 < r.alignment <= bufferAlignment && p.Mark() + r.alignment + r.size <= SIZE_MAX {
      AllocateSucceeds(if forever then p.persistent else p.arena, bufferAlignment, r, record, p.Mark());
    }
  }

  /** Tensors without a node may get one after `frontier`; all others keep theirs. */
  ghost predicate AssignsLater(l: Lifetimes, m: Lifetimes, frontier: int) {
    && |m.allocNode| == |l.allocNode| == |l.deallocNode| == |m.deallocNode|
    && (forall t :: 0 <= t < |l.allocNode| ==>
          m.allocNode[t] == l.allocNode[t] || (l.allocNode[t] == NODE_NOT_ASSIGNED && m.allocNode[t] > frontier))
    && (forall t :: 0 <= t < |l.allocNode| && l.allocNode[t] <= frontier ==> m.deallocNode[t] == l.deallocNode[t])
  }

  /** Lifetimes with temporary `t` assigned to node `i`. */
  function WithTemporary(c: Context, preserve: bool, i: nat, t: int): Context
    requires 0 <= t < |c.allocNode| == |c.deallocNode|
  {
    c.(allocNode := c.allocNode[t := i], deallocNode := if preserve then c.deallocNode else c.deallocNode[t := i])
  }

  /** A temporary gets its lifetime, or has it already. */
  lemma TemporaryIsPlaced(
    s: Setting, temporaries: seq<seq<int>>, c: Context, p: Plan, queues: seq<set<int>>, last: int, frontier: int,
    i: nat, t: int)
    requires s.Valid() && |s.g.nodes| < NODE_NOT_ASSIGNED && i < |temporaries| && t in temporaries[i]
    requires c.Shape(p) && |c.allocNode| == |c.tensors| && TemporariesOk(s.g, temporaries, |c.tensors|)
    requires LifetimesOk(s, temporaries, Lifetimes(c.allocNode, c.deallocNode), last)
    requires NodesToTensorsOk(queues, c.allocNode) && i < |queues| <= NODE_NOT_ASSIGNED
    requires frontier <= last < NODE_NOT_ASSIGNED && (i <= last || frontier < i)
    ensures 0 <= t < |c.allocNode|
    ensures var d := WithTemporary(c, s.preserve, i, t);
            && LifetimesOk(s, temporaries, Lifetimes(d.allocNode, d.deallocNode), last)
            && NodesToTensorsOk(queues[i := queues[i] + {t}], d.allocNode)
            && AssignsLater(Lifetimes(c.allocNode, c.deallocNode), Lifetimes(d.allocNode, d.deallocNode), frontier)
  {
    hide s.Valid, LifetimesOk, NodesToTensorsOk;
    var l := Lifetimes(c.allocNode, c.deallocNode);
    TemporaryIsFree(s, temporaries, l, last, |c.tensors|, i, t);
    TemporaryKeepsLifetimes(s, temporaries, l, last, i, t);
    var d := WithTemporary(c, s.preserve, i, t);
    QueueingKeepsInverse(queues, c.allocNode, d.allocNode, i, t);
    if i <= last {
      TemporaryIsSet(s, temporaries, l, last, i, t);
      assert d.allocNode == c.allocNode && d.deallocNode == c.deallocNode;
    }
  }

  /** That changes nothing for what is placed. */
  lemma TemporaryKeepsPlaced(
    s: Setting, temporaries: seq<seq<int>>, c: Context, p: Plan, base: nat, persistentBase: nat, last: int,
    frontier: int, i: nat, t: int)
    requires c.Shape(p) && 0 <= t < |c.allocNode| && frontier <= last < NODE_NOT_ASSIGNED
    requires var d := WithTemporary(c, s.preserve, i, t);
             AssignsLater(Lifetimes(c.allocNode, c.deallocNode), Lifetimes(d.allocNode, d.deallocNode), frontier)
    requires c.LayoutOk(p, frontier, frontier) && c.PersistentOk(p) && c.AllSettled(p, frontier)
    requires c.PointersOk(p, base, persistentBase, frontier)
    ensures var d := WithTemporary(c, s.preserve, i, t);
            && d.Shape(p) && d.LayoutOk(p, frontier, frontier) && d.PersistentOk(p) && d.AllSettled(p, frontier)
            && d.PointersOk(p, base, persistentBase, frontier)
  {
    var d := WithTemporary(c, s.preserve, i, t);
    assert AgreeUpTo(c, d, p, p, frontier);
    hide AgreeUpTo, Context.LayoutOk, Context.PersistentOk, Context.AllSettled, Context.PointersOk;
    LaterChangesKeepPlan(c, d, p, p, base, persistentBase, frontier);
  }

  /** Growing the arrays and setting temporaries of later nodes changes nothing up to `frontier`. */
  lemma GrownKeepsEarlier(c: Context, p: Plan, d: Context, q: Plan, frontier: int)
    requires c.Shape(p) && d.Shape(q) && d.tensors == c.tensors && q == Grown(p, |c.tensors|)
    requires frontier < NODE_NOT_ASSIGNED
    requires AssignsLater(Lifetimes(Grow(c.allocNode, |c.tensors|), Grow(c.deallocNode, |c.tensors|)),
                          Lifetimes(d.allocNode, d.deallocNode), frontier)
    ensures KeptUpTo(c, p, d, q, frontier)
  {
    GrowingKeepsEarlier(c, p, d, q, frontier);
  }

  lemma NotRepeated(list: seq<int>, k: nat)
    requires k < |list| && forall t :: multiset(list)[t] <= 1
    ensures list[k] !in list[..k]
  {
    var x := list[k];
    assert multiset(list)[x] <= 1;
    assert list == list[..k] + [x] + list[k + 1..];
    assert multiset(list) == multiset(list[..k]) + multiset{x} + multiset(list[k + 1..]);
    assert x in list[..k] <==> x in multiset(list[..k]);
  }

  lemma NothingChanges(c: Context, p: Plan, list: seq<int>, frontier: int)
    requires c.Shape(p)
    ensures OnlyChanges(c, p, p, list[..0], frontier) && OnlyChanges(c, p, p, list, frontier)
    ensures c.ListSettled(p, list[..0]) && PersistentsPlaced(c, p, p, list[..0])
  {
  }

  /** What placing one more tensor of the list can add to a high-water mark. */
  lemma OneMoreDemanded(c: Context, list: seq<int>, k: nat, n: nat)
    requires k < |list| && list[k] !in list[..k]
    ensures Demand(c, list[..k + 1], n) == Demand(c, list[..k], n) + if 0 <= list[k] < n then c.Cost(list[k]) else 0
    ensures Demand(c, list[..k + 1], n) <= Demand(c, list, n)
  {
    DemandGrows(c, list[..k], list[k], n);
    assert list[..k + 1] == list[..k] + [list[k]];
    assert forall t :: t in list[..k + 1] ==> t in list;
    DemandAtMost(c, c, list[..k + 1], list, n);
  }

  /** Placing it settles one more persistent tensor, if it is one. */
  lemma OneMorePersistent(c: Context, p: Plan, q: Plan, r: Plan, list: seq<int>, k: nat, frontier: int)
    requires c.Shape(p) && c.Shape(q) && c.Shape(r) && k < |list| && list[k] !in list[..k]
    requires OnlyChanges(c, p, q, list[..k], frontier) && 0 <= list[k] < |q.allocs|
    requires r.allocs == q.allocs[list[k] := r.allocs[list[k]]]
    requires r.actual == q.actual || r.actual == q.actual - {list[k]}
    requires PersistentsPlaced(c, p, q, list[..k])
    requires c.IsPersistent(list[k]) ==> PersistentPlaced(c, q, r, list[k])
    ensures PersistentsPlaced(c, p, r, list[..k + 1])
  {
    assert list[..k + 1] == list[..k] + [list[k]];
    forall t | t in list[..k + 1] && 0 <= t < |c.allocNode| && c.IsPersistent(t)
      ensures PersistentPlaced(c, p, r, t)
    {
      assert t != list[k] ==> PersistentPlaced(c, p, q, t);
    }
  }

  /** A tensor of the list can still be placed after those before it. */
  lemma StillPlaceable(c: Context, p: Plan, q: Plan, list: seq<int>, k: nat, frontier: int, last: int)
    requires c.Shape(p) && c.Shape(q) && k < |list| && list[k] !in list[..k]
    requires ListPlaceable(c, p, list, frontier, last) && OnlyChanges(c, p, q, list[..k], frontier)
    ensures Placeable(c, q, list[k], frontier, last) && 0 <= list[k] < |q.allocs|
  {
    assert list[k] in list;
    assert Placeable(c, p, list[k], frontier, last);
  }

  /** Placing it changes no other, and leaves one more settled. */
  lemma OneMorePlaced(c: Context, p: Plan, q: Plan, r: Plan, list: seq<int>, k: nat, frontier: int)
    requires c.Shape(p) && c.Shape(q) && c.Shape(r) && k < |list| && list[k] !in list[..k]
    requires OnlyChanges(c, p, q, list[..k], frontier) && 0 <= list[k] < |q.allocs|
    requires r.allocs == q.allocs[list[k] := r.allocs[list[k]]]
    requires r.actual == q.actual || r.actual == q.actual - {list[k]}
    requires c.allocNode[list[k]] <= frontier ==> r.allocs == q.allocs && r.actual == q.actual
    ensures OnlyChanges(c, p, r, list[..k + 1], frontier) && OnlyChanges(c, p, r, list, frontier)
    ensures c.ListSettled(q, list[..k]) && c.Settled(r, list[k]) ==> c.ListSettled(r, list[..k + 1])
  {
    assert list[..k + 1] == list[..k] + [list[k]];
    assert forall t :: t in list[..k + 1] ==> t in list;
  }

  lemma PlaceableAreTensors(c: Context, p: Plan, list: seq<int>, frontier: int, last: int)
    requires c.Shape(p) && ListPlaceable(c, p, list, frontier, last)
    ensures forall i :: 0 <= i < |list| ==> 0 <= list[i] < |c.allocNode|
  {
    forall i | 0 <= i < |list|
      ensures 0 <= list[i] < |c.allocNode|
    {
      assert Placeable(c, p, list[i], frontier, last);
    }
  }

  lemma NoneRepeated(a: seq<int>, b: seq<int>)
    requires multiset(a) == multiset(b) && forall t :: multiset(a)[t] <= 1
    ensures forall i, j :: 0 <= i < j < |b| ==> b[i] != b[j]
    ensures a != [] ==> b != []
  {
    forall i, j | 0 <= i < j < |b|
      ensures b[i] != b[j]
    {
      NotRepeated(b, j);
      assert b[i] in b[..j];
    }
    assert a != [] ==> a[0] in multiset(a);
  }

  lemma SameMembers(a: seq<int>, b: seq<int>)
    requires multiset(a) == multiset(b)
    ensures forall t :: t in a <==> t in b
  {
    assert forall t :: t in a <==> t in multiset(a);
    assert forall t :: t in b <==> t in multiset(b);
  }

  /** Selecting the due tensors of the nodes in question gives the list of all due tensors. */
  lemma SelectedAreDue(c: Context, p: Plan, due: seq<int>, selected: seq<int>, first: int, last: int)
    requires c.Shape(p)
    requires forall t :: t in due <==> 0 <= t < |c.allocNode| && first <= c.allocNode[t] <= last
    requires forall t :: t in selected <==> t in due && c.Due(p, t)
    ensures DueList(c, p, selected, first, last)
  {
  }

  /** What is said about the members of a list does not depend on their order. */
  lemma SameListInAnyOrder(c: Context, p: Plan, a: seq<int>, b: seq<int>, first: int, frontier: int, last: int)
    requires c.Shape(p) && multiset(a) == multiset(b)
    ensures DueList(c, p, a, first, last) ==> DueList(c, p, b, first, last)
    ensures ListPlaceable(c, p, a, frontier, last) ==> ListPlaceable(c, p, b, frontier, last)
    ensures forall t :: t in a <==> t in b
  {
    SameMembers(a, b);
  }

  lemma LessSharingIsOk(p: Setting, c: Context, before: Plan, after: Plan, list: seq<int>, frontier: int)
    requires p.Valid() && SharingOk(p, before.actual) && OnlyChanges(c, before, after, list, frontier)
    ensures SharingOk(p, after.actual)
  {
  }

  function Indices(n: nat): (r: seq<int>)
    ensures |r| == n && forall i :: 0 <= i < n ==> r[i] == i
    ensures forall i :: 0 <= i < n ==> i in r
  {
    var s := seq(n, i => i);
    assert forall i :: 0 <= i < n ==> i in s by {
      forall i | 0 <= i < n ensures i in s {
        assert s[i] == i;
      }
    }
    s
  }

  lemma OwnersStayOwners(p: Setting, actual: Sharing)
    requires p.Valid() && p.g.WellFormed() && SharingOk(p, actual)
    ensures forall s :: s in actual ==> actual[s] !in actual
  {
    forall s | s in actual
      ensures actual[s] !in actual
    {
      OwnersShareNothing(p, |p.g.nodes|, s);
    }
  }

  /** When everything is to be resolved nothing need be known. */
  lemma EverythingToDo(c: Context, p: Plan, base: nat, persistentBase: nat, reach: int)
    requires c.Shape(p) && |p.allocs| == |c.tensors|
    ensures c.PointersOkBut(p, base, persistentBase, reach, set t | t in Indices(|c.tensors|))
  {
    forall t | 0 <= t < |c.tensors|
      ensures t in Indices(|c.tensors|)
    {
      assert Indices(|c.tensors|)[t] == t;
    }
  }

  /** The next element of a hash set. */
  method AnyMember<T>(s: set<T>) returns (x: T)
    requires s != {}
    ensures x in s
  {
    x :| x in s;
  }

  /* ---- The order of placement ---- */

  datatype SortKey = SortKey(wholeRun: bool, index: int, bytes: int, allocNode: int) {
    predicate Before(other: SortKey) {
      if wholeRun then (if other.wholeRun then index < other.index else true)
      else if other.wholeRun then false
      else if bytes != other.bytes then bytes > other.bytes
      else allocNode < other.allocNode
    }
  }

  function KeyOf(c: Context, t: int): SortKey {
    if 0 <= t < |c.tensors| && t < |c.allocNode| && t < |c.deallocNode|
    then SortKey(c.allocNode[t] == 0 && c.deallocNode[t] == NODE_NOT_ASSIGNED, t, c.tensors[t].bytes, c.allocNode[t])
    else SortKey(false, t, 0, 0)
  }

  function AllocationOrder(c: Context): (int, int) -> bool {
    (a, b) => KeyOf(c, a).Before(KeyOf(c, b))
  }

  lemma OrderIsWeak(c: Context)
    ensures StrictWeakOrder(AllocationOrder(c))
  {
  }

  lemma ResetSpellsOut(c: Context, p: Plan, node: int)
    requires c.Shape(p)
    ensures FreedAfter(p.allocs, c.tensors, ResetAfter(c, p, node), ResetTensors(c, p, node), node)
  {
  }

  /** What the order says about the fields of two tensors. */
  lemma OrderMeans(c: Context, list: seq<int>, r: seq<int>)
    requires |c.allocNode| == |c.deallocNode| <= |c.tensors| && forall t :: t in list ==> 0 <= t < |c.allocNode|
    requires multiset(r) == multiset(list) && Ascending(AllocationOrder(c), r)
    ensures InPlacementOrder(c, r)
  {
    SameMembers(list, r);
    assert forall i :: 0 <= i < |r| ==> r[i] in r;
    assert forall i, j :: 0 <= i < j < |r| ==> !AllocationOrder(c)(r[j], r[i]);
  }

  lemma GraphFacts(g: Graph)
    requires GraphOk(g)
    ensures g.WellFormed() && |g.nodes| < NODE_NOT_ASSIGNED
  {
  }

  lemma GrowingKeepsInverse(nodesToTensors: seq<set<int>>, allocNode: seq<int>, n: nat)
    requires NodesToTensorsOk(nodesToTensors, allocNode) && |nodesToTensors| <= NODE_NOT_ASSIGNED
    ensures NodesToTensorsOk(nodesToTensors, Grow(allocNode, n))
  {
  }

  lemma MoreTensors(g: Graph, temporaries: seq<seq<int>>, m: nat, n: nat)
    requires TemporariesOk(g, temporaries, m) && m <= n
    ensures TemporariesOk(g, temporaries, n)
  {
  }

  lemma NothingQueued(nodesToTensors: seq<set<int>>, allocNode: seq<int>)
    requires |nodesToTensors| <= NODE_NOT_ASSIGNED && forall i :: 0 <= i < |nodesToTensors| ==> nodesToTensors[i] == {}
    requires forall t :: 0 <= t < |allocNode| ==> allocNode[t] == NODE_NOT_ASSIGNED
    ensures NodesToTensorsOk(nodesToTensors, allocNode)
  {
  }

  /** Every record is as `reset()` leaves it, and both arenas are empty. */
  ghost predicate NothingYet(c: Context, p: Plan)
    requires c.Shape(p)
  {
    && p.arena == p.persistent == ArenaState([], 0)
    && forall t :: 0 <= t < |p.allocs| ==> p.allocs[t] == UNALLOCATED && c.allocNode[t] >= 0
  }

  lemma NothingIsPlaced(c: Context, p: Plan)
    requires c.Shape(p) && NothingYet(c, p)
    ensures c.BelowMarks(p) && forall t :: !c.Placed(p, t) && !c.PlacedForever(p, t)
    ensures forall t :: 0 <= t < |p.allocs| ==> p.allocs[t].offset == 0 && c.allocNode[t] > -1
  {
    hide NothingYet;
    forall t | 0 <= t < |p.allocs|
      ensures p.allocs[t].End() == p.allocs[t].offset == p.allocs[t].size == 0 && c.allocNode[t] > -1
    {
      RecordIsEmpty(c, p, t);
    }
    NothingListed(c, p);
    hide ArenaAlloc.End, Max;
  }

  lemma RecordIsEmpty(c: Context, p: Plan, t: int)
    requires c.Shape(p) && NothingYet(c, p) && 0 <= t < |p.allocs|
    ensures p.allocs[t].End() == p.allocs[t].offset == p.allocs[t].size == 0 && c.allocNode[t] > -1
  {
    assert p.allocs[t] == UNALLOCATED;
  }

  lemma NothingListed(c: Context, p: Plan)
    requires c.Shape(p) && NothingYet(c, p)
    ensures p.arena.active == p.persistent.active == [] && p.arena.highWater == p.persistent.highWater == 0
  {
  }

  /** A plan that places nothing is fine. */
  lemma NothingPlaced(c: Context, p: Plan, base: nat, persistentBase: nat)
    requires c.Shape(p) && NothingYet(c, p)
    ensures c.LayoutOk(p, -1, -1) && c.PersistentOk(p) && c.AllSettled(p, -1)
    ensures c.PointersOk(p, base, persistentBase, -1)
  {
    NothingIsPlaced(c, p);
    hide NothingYet, Context.BelowMarks, Context.Placed, Context.PlacedForever, Context.Settled, Context.PointerRight;
  }

  /** A tensor that node `n` computes has no earlier producer and is no graph input or variable. */
  lemma ComputedHere(g: Graph, n: nat, t: int)
    requires g.WellFormed() && n < |g.nodes| && g.Produces(n, t)
    ensures AllocSpec(g, t) == n && AllocBefore(g, t, n) == NODE_NOT_ASSIGNED
  {
    assert g.Computed(t);
  }
}
