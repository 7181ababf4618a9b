/**
 * Inference with planning in between: nodes run while the tensors of later nodes are still being
 * resized, placed, or placed anew, and the buffer of the arena may grow under those already there.
 */
module ArenaInference {
  import opened Common
  import opened GraphInfo
  import opened Liveness
  import opened InPlace
  import opened InPlaceSafety
  import opened LivenessTheorems
  import opened ArenaLifetimes
  import opened ArenaLayout
  import opened ArenaPlanner
  import opened ArenaExecution
  import opened ArenaSafety
  import opened ArenaProtocol

  /** What is where in the arenas before node `next` runs. */
  datatype Moment = Moment(
    placement: Placement, temporaries: seq<seq<int>>, numTensors: nat, memory: Memory, next: nat)

  /** The tensors have been placed safely, inside the arenas. */
  ghost predicate SafelyPlaced(p: Setting, k: Operators, m: Moment)
    requires p.Valid()
  {
    && m.next <= |p.g.nodes| && FitsMemory(m.placement, m.memory)
    && Executable(p, k, m.temporaries, m.numTensors, m.placement)
  }

  ghost predicate HoldsValues(p: Setting, k: Operators, m: Moment)
    requires p.Valid() && SafelyPlaced(p, k, m)
  {
    Faithful(p.g, k, m.placement, m.memory, m.next)
  }

  /** A node runs that has memory for all its tensors. */
  ghost predicate NodeRan(p: Setting, k: Operators, before: Moment, after: Moment)
    requires p.Valid() && SafelyPlaced(p, k, before)
  {
    && before.next < |p.g.nodes| && Covered(p.g, before.temporaries, before.placement, before.next)
    && after == before.(memory := after.memory, next := before.next + 1)
    && RunsNode(p.g, k, before.temporaries, before.placement, before.memory, after.memory, before.next)
  }

  /** Planning goes on: the arenas keep their bytes, and what is there and still needed stays where it is. */
  ghost predicate PlanStep(g: Graph, before: Moment, after: Moment)
    requires before.next <= |g.nodes|
  {
    && after.next == before.next
    && before.memory.arena <= after.memory.arena && before.memory.persistent <= after.memory.persistent
    && forall t :: Available(g, t, before.next) && Needed(g, t, before.next) ==>
         if t in before.placement.at then
           t in after.placement.at && after.placement.at[t] == before.placement.at[t]
         else t !in after.placement.at
  }

  /** A run of the graph with planning anywhere in between. */
  ghost predicate IsInference(p: Setting, k: Operators, trace: seq<Moment>)
    requires p.Valid()
  {
    && (forall i :: 0 <= i < |trace| ==> SafelyPlaced(p, k, trace[i]))
    && (forall i :: 0 < i < |trace| ==>
          NodeRan(p, k, trace[i - 1], trace[i]) || PlanStep(p.g, trace[i - 1], trace[i]))
  }

  lemma RunningKeepsValues(p: Setting, k: Operators, before: Moment, after: Moment)
    requires p.Valid() && SafelyPlaced(p, k, before) && SafelyPlaced(p, k, after)
    requires NodeRan(p, k, before, after) && HoldsValues(p, k, before)
    ensures HoldsValues(p, k, after)
  {
    hide p.Valid, Executable, RunsNode, Faithful;
    MemoryStaysFaithful(p, k, before.temporaries, before.numTensors, before.placement, before.memory, after.memory,
                        before.next);
  }

  lemma PlanningKeepsValues(p: Setting, k: Operators, before: Moment, after: Moment)
    requires p.Valid() && SafelyPlaced(p, k, before) && SafelyPlaced(p, k, after)
    requires PlanStep(p.g, before, after) && HoldsValues(p, k, before)
    ensures HoldsValues(p, k, after)
  {
    forall t | t in after.placement.at && Available(p.g, t, after.next) && Needed(p.g, t, after.next)
      ensures Slice(after.memory, after.placement.at[t]) == Value(p.g, k, after.next, t)
    {
      var w := after.placement.at[t];
      assert Slice(after.memory, w) == Slice(before.memory, w);
    }
  }

  /**
   * However planning and running are interleaved, every node that has memory for its tensors finds
   * the values of its inputs, and in the end the graph outputs and the variables hold theirs.
   */
  lemma {:induction false} InferenceIsFaithful(p: Setting, k: Operators, trace: seq<Moment>, i: nat)
    requires p.Valid() && IsInference(p, k, trace) && i < |trace| && HoldsValues(p, k, trace[0])
    ensures HoldsValues(p, k, trace[i])
    ensures var m := trace[i];
            if m.next < |p.g.nodes| then
              Covered(p.g, m.temporaries, m.placement, m.next) ==>
                LoadInputs(p.g, k, m.temporaries, m.placement, m.memory, m.next) == InputValues(p.g, k, m.next)
            else
              forall t :: t in m.placement.at && (t in p.g.outputs || t in p.g.variables) ==>
                Slice(m.memory, m.placement.at[t]) == Value(p.g, k, m.next, t)
  {
    var m := trace[i];
    assert |m.temporaries| == |p.g.nodes|;
    hide p.Valid, Executable, NodeRan, PlanStep, InputValues, LoadInputs, Slice, Value;
    if i > 0 {
      InferenceIsFaithful(p, k, trace, i - 1);
      if NodeRan(p, k, trace[i - 1], trace[i]) {
        RunningKeepsValues(p, k, trace[i - 1], trace[i]);
      } else {
        PlanningKeepsValues(p, k, trace[i - 1], trace[i]);
      }
    }
    if m.next < |p.g.nodes| && Covered(p.g, m.temporaries, m.placement, m.next) {
      InputsAreRead(p, k, m.temporaries, m.numTensors, m.placement, m.memory, m.next);
    }
  }

  /* ---- What the planner does is such a step ---- */

  /** What is known of a valid planner, as values. */
  ghost predicate Coherent(
    p: Setting, temporaries: seq<seq<int>>, numTensors: nat, c: Context, q: Plan, frontier: int)
  {
    && p.Valid() && p.g.WellFormed() && TemporariesOk(p.g, temporaries, numTensors)
    && LifetimesOk(p, temporaries, Lifetimes(c.allocNode, c.deallocNode), frontier) && SharingOk(p, q.actual)
    && p.g.numTensors <= |c.allocNode| && -1 <= frontier < NODE_NOT_ASSIGNED
    && c.Shape(q) && c.LayoutOk(q, frontier, frontier)
  }

  lemma ValidIsCoherent(planner: ArenaPlanner)
    requires planner.Valid()
    ensures Coherent(planner.setting, planner.temporaries, |planner.tensors|, planner.Ctx(), planner.State(),
                       planner.frontier)
  {
    hide Setting.Valid, TemporariesOk, LifetimesOk, NodesToTensorsOk, SharingOk, CountersExact, Graph.WellFormed;
    hide Context.LayoutOk, Context.PersistentOk, Context.AllSettled, Context.PointersOk;
    GraphFacts(planner.graph);
  }

  /** A tensor that is there before node `n` was first needed before it, or has no place in the arena. */
  lemma AvailableIsEarly(
    p: Setting, temporaries: seq<seq<int>>, numTensors: nat, c: Context, q: Plan, frontier: int, n: nat, t: int)
    requires Coherent(p, temporaries, numTensors, c, q, frontier) && n <= |p.g.nodes| && 0 <= t < |c.allocNode|
    requires Available(p.g, t, n) && Needed(p.g, t, n)
    ensures c.allocNode[t] < n || c.allocNode[t] in {0, NODE_NOT_ASSIGNED}
  {
    assert Mentioned(p.g, t);
    NoTemporary(p.g, temporaries, numTensors, t);
    assert PlannedOk(p, Lifetimes(c.allocNode, c.deallocNode), t);
    if !Source(p.g, t) && p.g.Computed(t) {
      assert p.g.Produces(FirstProducer(p.g, t, 0), t);
    }
  }

  /** The owner of a buffer in use has its planned first node. */
  lemma OwnerIsPlanned(
    p: Setting, temporaries: seq<seq<int>>, numTensors: nat, c: Context, q: Plan, frontier: int, t: int)
    requires Coherent(p, temporaries, numTensors, c, q, frontier) && t in FinalSharing(p)
    ensures var o := FinalSharing(p)[t]; 0 <= o < |c.allocNode| && c.allocNode[o] == AllocSpec(p.g, o)
  {
    var o := FinalSharing(p)[t];
    var m := OwnerIsRead(p, |p.g.nodes|, t);
    assert Mentioned(p.g, o);
    NoTemporary(p.g, temporaries, numTensors, o);
    assert PlannedOk(p, Lifetimes(c.allocNode, c.deallocNode), o);
  }

  /** The owner of the buffer of such a tensor is placed before and after, at the same place, or not at all. */
  lemma OwnerIsKept(
    p: Setting, temporaries: seq<seq<int>>, numTensors: nat, c: Context, q: Plan, frontier: int,
    newTemporaries: seq<seq<int>>, newNumTensors: nat, d: Context, r: Plan, newFrontier: int, node: int, t: int)
    requires Coherent(p, temporaries, numTensors, c, q, frontier)
    requires Coherent(p, newTemporaries, newNumTensors, d, r, newFrontier)
    requires KeptUpTo(c, q, d, r, node) && node <= frontier && 0 <= t < |q.allocs| && c.allocNode[t] <= node
    ensures Resolve(r.actual, t) == Resolve(q.actual, t)
    ensures var o := Resolve(q.actual, t);
            (c.Placed(q, o) <==> d.Placed(r, o)) && (c.Placed(q, o) ==> r.allocs[o] == q.allocs[o])
  {
    hide p.Valid, TemporariesOk, LifetimesOk, Graph.WellFormed, FinalSharing;
    if t in q.actual {
      OwnersAreOld(p, temporaries, Lifetimes(c.allocNode, c.deallocNode), frontier, numTensors, q.actual);
      OwnerIsPlanned(p, temporaries, numTensors, c, q, frontier, t);
      OwnerIsPlanned(p, newTemporaries, newNumTensors, d, r, newFrontier, t);
    }
  }

  /** What is placed for the nodes up to `node` has the same window before and after. */
  lemma WindowIsKept(
    p: Setting, temporaries: seq<seq<int>>, numTensors: nat, c: Context, q: Plan, frontier: int,
    newTemporaries: seq<seq<int>>, newNumTensors: nat, d: Context, r: Plan, newFrontier: int, node: int, t: int)
    requires Coherent(p, temporaries, numTensors, c, q, frontier)
    requires Coherent(p, newTemporaries, newNumTensors, d, r, newFrontier)
    requires KeptUpTo(c, q, d, r, node) && node <= frontier && node <= newFrontier
    requires 0 <= t < |q.allocs| && c.allocNode[t] <= node
    ensures var before, after := PlacementIn(c, q, frontier).at, PlacementIn(d, r, newFrontier).at;
            (t in before <==> t in after) && (t in before ==> after[t] == before[t])
  {
    OwnerIsKept(p, temporaries, numTensors, c, q, frontier, newTemporaries, newNumTensors, d, r, newFrontier, node, t);
    hide Coherent;
    assert IsPlaced(c, q, frontier, t) <==> IsPlaced(d, r, newFrontier, t);
    assert IsPlacedForever(c, q, frontier, t) <==> IsPlacedForever(d, r, newFrontier, t);
    assert IsEmpty(c, q, frontier, t) <==> IsEmpty(d, r, newFrontier, t);
  }

  /** Keeping what is placed up to the last node before `m.next` is a step of planning. */
  lemma ChangeIsPlanStep(
    p: Setting, m: Moment, c: Context, q: Plan, frontier: int, newMoment: Moment, d: Context, r: Plan,
    newFrontier: int, node: int)
    requires Coherent(p, m.temporaries, m.numTensors, c, q, frontier)
    requires Coherent(p, newMoment.temporaries, newMoment.numTensors, d, r, newFrontier)
    requires KeptUpTo(c, q, d, r, node) && m.next <= node + 1 && 0 <= node <= frontier && node <= newFrontier
    requires m.next <= |p.g.nodes|
    requires m.placement == PlacementIn(c, q, frontier) && newMoment.placement == PlacementIn(d, r, newFrontier)
    requires newMoment.next == m.next
    requires m.memory.arena <= newMoment.memory.arena && m.memory.persistent <= newMoment.memory.persistent
    ensures PlanStep(p.g, m, newMoment)
  {
    hide Executable, Available, Needed, Context.LayoutOk, p.Valid, TemporariesOk, LifetimesOk, SharingOk;
    hide Graph.WellFormed;
    forall t | Available(p.g, t, m.next) && Needed(p.g, t, m.next)
      ensures if t in m.placement.at then
                t in newMoment.placement.at && newMoment.placement.at[t] == m.placement.at[t]
              else t !in newMoment.placement.at
    {
      if 0 <= t < |d.allocNode| {
        AvailableIsEarly(p, newMoment.temporaries, newMoment.numTensors, d, r, newFrontier, m.next, t);
      }
      if 0 <= t < |c.allocNode| && c.allocNode[t] <= node {
        WindowIsKept(p, m.temporaries, m.numTensors, c, q, frontier, newMoment.temporaries, newMoment.numTensors, d, r,
                     newFrontier, node, t);
      } else if 0 <= t < |c.allocNode| {
        AvailableIsEarly(p, m.temporaries, m.numTensors, c, q, frontier, m.next, t);
      }
    }
  }

  ghost function MomentOf(planner: ArenaPlanner, next: nat): Moment
    reads planner, planner.arena, planner.persistentArena, planner.arena.buffer, planner.arena.buffer.data
    reads planner.persistentArena.buffer, planner.persistentArena.buffer.data
  {
    Moment(PlacementOf(planner), planner.temporaries, |planner.tensors|,
           Memory(planner.arena.buffer.data[..], planner.persistentArena.buffer.data[..]), next)
  }

  /** Both buffers reach up to the high-water marks. */
  ghost predicate HasMemory(planner: ArenaPlanner)
    reads planner, planner.arena, planner.persistentArena, planner.arena.buffer, planner.persistentArena.buffer
  {
    && planner.arena.highWaterMark <= planner.arena.buffer.size
    && planner.persistentArena.highWaterMark <= planner.persistentArena.buffer.size
  }

  /** What the theorem assumes of the plan and the kernels. */
  ghost predicate Lossless(p: Setting, k: Operators)
    requires p.Valid()
  {
    HandsOn(p, k) && LosesNothing(p) && UpdatesLoseNothing(p, k)
  }

  /** A valid planner with its memory. */
  lemma ValidIsSafelyPlaced(planner: ArenaPlanner, k: Operators, next: nat)
    requires planner.Valid() && HasMemory(planner)
    requires next <= |planner.graph.nodes| && Lossless(planner.setting, k)
    ensures SafelyPlaced(planner.setting, k, MomentOf(planner, next))
  {
    hide Setting.Valid, TemporariesOk, LifetimesOk, NodesToTensorsOk, SharingOk, CountersExact, Graph.WellFormed;
    hide Context.LayoutOk, Context.PersistentOk, Context.AllSettled, Context.PointersOk, SafeWindows, PlacementOf;
    GraphFacts(planner.graph);
    PlannedWindowsAreSafe(planner);
  }

  /**
   * Any call or change the protocol allows while the graph runs, node `next` being the next one
   * to run, is a step of planning: everything placed for nodes already run stays where it is,
   * with its bytes, even when the buffer moves.
   */
  method KeepPlanning(planner: ArenaPlanner, k: Operators, step: ProtocolStep, nextToPlace: int, next: nat)
    returns (status: Status, newNextToPlace: int)
    requires planner.Valid() && HasMemory(planner)
    requires next <= |planner.graph.nodes| && Lossless(planner.setting, k)
    requires next <= nextToPlace == planner.frontier + 1 && 1 <= nextToPlace && step.KeepsMemory()
    requires step.ResetAfter? ==> next - 1 <= step.node && 0 <= step.node
    modifies planner, planner.arena, planner.arena.buffer, planner.persistentArena, planner.persistentArena.buffer
    ensures status.Ok? ==>
              && planner.Valid() && HasMemory(planner)
              && next <= newNextToPlace == planner.frontier + 1 && 1 <= newNextToPlace
              && planner.setting == old(planner.setting)
              && SafelyPlaced(planner.setting, k, MomentOf(planner, next))
              && PlanStep(planner.graph, old(MomentOf(planner, next)), MomentOf(planner, next))
  {
    hide Setting.Valid, TemporariesOk, LifetimesOk, NodesToTensorsOk, SharingOk, CountersExact, Graph.WellFormed;
    hide Context.LayoutOk, Context.PersistentOk, Context.AllSettled, Context.PointersOk, Lossless, PlacementIn;
    hide KeptUpTo;
    hide SafelyPlaced, PlanStep, Coherent;
    ValidIsCoherent(planner);
    ghost var m, c, q, frontier := MomentOf(planner, next), planner.Ctx(), planner.State(), planner.frontier;
    status, newNextToPlace := TakeStep(planner, step, nextToPlace);
    if status.Ok? {
      ValidIsCoherent(planner);
      ValidIsSafelyPlaced(planner, k, next);
      ChangeIsPlanStep(planner.setting, m, c, q, frontier, MomentOf(planner, next), planner.Ctx(), planner.State(),
                       planner.frontier, if planner.frontier < frontier then planner.frontier else frontier);
    }
  }
}
