/** Partitioning a graph: validation, the chain between side-effect nodes, and the theorems about the result. */
module PartitionGraph {
  import opened Common
  import opened GraphInfo
  import opened Schedule
  import opened ScheduleTheorems
  import opened Reordering
  import opened PartitionMeaning
  import opened GreedyOptimality
  import opened ExecutionOrder
  import opened Partitioner

  method ValidateNodesToPartition(g: Graph, nodesToPartition: seq<int>) returns (status: Status)
    ensures status.Ok? <==> forall n :: n in nodesToPartition ==> 0 <= n < g.numTotalNodes
  {
    var i := 0;
    while i < |nodesToPartition|
      invariant 0 <= i <= |nodesToPartition|
      invariant forall n :: n in nodesToPartition[..i] ==> 0 <= n < g.numTotalNodes
    {
      assert nodesToPartition[i] in nodesToPartition;
      assert nodesToPartition[..i + 1] == nodesToPartition[..i] + [nodesToPartition[i]];
      if !(0 <= nodesToPartition[i] < g.numTotalNodes) {
        return Error;
      }
      i := i + 1;
    }
    assert nodesToPartition[..i] == nodesToPartition;
    return Ok;
  }

  method ValidateControlEdges(g: Graph, edges: seq<ControlEdge>) returns (status: Status)
    ensures status.Ok? <==> EdgesInRange(g, edges)
  {
    var i := 0;
    while i < |edges|
      invariant 0 <= i <= |edges|
      invariant EdgesInRange(g, edges[..i])
    {
      assert edges[..i + 1] == edges[..i] + [edges[i]];
      if !(0 <= edges[i].0 < |g.nodes|) || !(0 <= edges[i].1 < |g.nodes|) {
        return Error;
      }
      i := i + 1;
    }
    assert edges[..i] == edges;
    return Ok;
  }

  lemma ChainStep(effects: seq<nat>, n: nat)
    ensures SideEffectChain(effects + [n]) ==
            if effects == [] then SideEffectChain(effects) else SideEffectChain(effects) + [(effects[|effects| - 1], n)]
  {
    assert (effects + [n])[..|effects|] == effects;
  }

  /** The dependency chain between stateful nodes. */
  method ChainSideEffects(g: Graph) returns (edges: seq<ControlEdge>)
    ensures edges == SideEffectChain(Effects(g, OriginalOrder(g)))
  {
    edges := [];
    var lastWithSideEffect := -1;
    var n := 0;
    hide *;
    FirstAndAllEffects(g);
    while n < |g.nodes|
      invariant 0 <= n <= |g.nodes|
      invariant edges == SideEffectChain(FirstEffects(g, n))
      invariant if lastWithSideEffect == -1 then FirstEffects(g, n) == []
                else FirstEffects(g, n) != [] && FirstEffects(g, n)[|FirstEffects(g, n)| - 1] == lastWithSideEffect
    {
      FirstEffectsStep(g, n);
      if g.nodes[n].mightHaveSideEffect {
        ChainStep(FirstEffects(g, n), n);
        if lastWithSideEffect != -1 {
          edges := edges + [(lastWithSideEffect, n)];
        }
        lastWithSideEffect := n;
      }
      n := n + 1;
    }
  }

  /**
   * Partitions a graph into independent node subsets. Fails exactly when a node or an edge is
   * out of range or the combined data and control dependencies have a cycle. Otherwise the
   * subsets hold, in the order of the scheduling problem's solution, the original indices of
   * the nodes, one kind per subset, with exact boundary lists.
   */
  method PartitionGraphIntoIndependentNodeSubsets(
    g: Graph, nodesToPartition: seq<int>, greedily: bool, controlEdges: Option<seq<ControlEdge>>,
    disableNodeFusion: bool)
    returns (status: Status, subsets: seq<NodeSubset>)
    requires UsableGraph(g)
    ensures var edges := EffectiveEdges(g, greedily, controlEdges);
            var p := ProblemOf(g, edges, nodesToPartition, !disableNodeFusion);
            status.Ok? <==>
              && (forall n :: n in nodesToPartition ==> 0 <= n < g.numTotalNodes)
              && EdgesInRange(g, edges)
              && !exists c :: IsCycle(p, c)
    ensures status.Ok? ==>
              var edges := EffectiveEdges(g, greedily, controlEdges);
              var p := ProblemOf(g, edges, nodesToPartition, !disableNodeFusion);
              && p.Valid()
              && var sched := Schedule.Partition(p, greedily, []);
                 && Complete(p, Flatten(sched))
                 && SubsetsMatch(g, p, sched, subsets)
                 && forall e :: 0 <= e < |sched| ==> ExactBoundaries(g, sched, e, subsets[e])
    ensures status.Ok? <==>
            && (forall n :: n in nodesToPartition ==> 0 <= n < g.numTotalNodes)
            && (controlEdges.Some? ==>
                  forall e :: e in controlEdges.value ==> 0 <= e.0 < |g.nodes| && 0 <= e.1 < |g.nodes|)
            && exists order :: CanRunIn(g, greedily, controlEdges, order)
    ensures status.Ok? ==>
              exists pieces ::
                IsPartition(g, nodesToPartition, greedily, controlEdges, disableNodeFusion, pieces, subsets)
    ensures status.Ok? ==>
              forall e, x :: 0 <= e < |subsets| && x in subsets[e].nodes ==>
                (subsets[e].kind == Some(Delegated) <==> x in nodesToPartition)
  {
    subsets := [];
    EffectiveEdgesInRange(g, greedily, controlEdges);
    RunnableIffAcyclic(g, greedily, controlEdges, nodesToPartition, !disableNodeFusion);
    hide IsCycle, ProblemOf, Problem.Valid, CanRunIn, IsPartition, ExactBoundaries, SubsetsMatch;

    status := ValidateNodesToPartition(g, nodesToPartition);
    if status != Ok {
      return;
    }
    var edges := [];
    if controlEdges.Some? {
      edges := controlEdges.value;
    } else if greedily {
      edges := ChainSideEffects(g);
    }
    status := ValidateControlEdges(g, edges);
    if status != Ok {
      return;
    }
    var partitioner := new PartitionerImpl(g, nodesToPartition, greedily, edges, disableNodeFusion);
    status := partitioner.Partition();
    subsets := partitioner.nodeSubsets;
    CompleteIffAcyclic(partitioner.problem, greedily);
    if status == Ok {
      PartitionMeans(g, nodesToPartition, greedily, controlEdges, disableNodeFusion, subsets);
      KindsMean(g, nodesToPartition, greedily, controlEdges, disableNodeFusion, partitioner.sched, subsets);
    }
  }

  lemma RunnableIffAcyclic(
    g: Graph, greedily: bool, controlEdges: Option<seq<ControlEdge>>, nodesToPartition: seq<int>, fuse: bool)
    requires UsableGraph(g)
    ensures var edges := EffectiveEdges(g, greedily, controlEdges);
            var p := ProblemOf(g, edges, nodesToPartition, fuse);
            p.Valid()
            && (EdgesInRange(g, edges) ==>
                  ((exists order :: CanRunIn(g, greedily, controlEdges, order)) <==> !exists c :: IsCycle(p, c)))
  {
    var edges := EffectiveEdges(g, greedily, controlEdges);
    var p := ProblemOf(g, edges, nodesToPartition, fuse);
    ProblemIsValid(g, edges, nodesToPartition, fuse);
    if EdgesInRange(g, edges) {
      hide CanRunIn, ProblemOf, EffectiveEdges, InDependencyOrder, Complete, Schedule.Partition;
      if order :| CanRunIn(g, greedily, controlEdges, order) {
        CanRunMeans(g, greedily, controlEdges, nodesToPartition, fuse, order);
        if c :| IsCycle(p, c) {
          PathGoesForward(p, order, c);
        }
      }
      if !exists c :: IsCycle(p, c) {
        PartitionIsSound(p, greedily);
        CompleteIffAcyclic(p, greedily);
        CanRunMeans(g, greedily, controlEdges, nodesToPartition, fuse, Flatten(Schedule.Partition(p, greedily, [])));
      }
    }
  }

  /** What the partitioner returns is a partition of the graph. */
  lemma PartitionMeans(
    g: Graph, nodesToPartition: seq<int>, greedily: bool, controlEdges: Option<seq<ControlEdge>>,
    disableNodeFusion: bool, subsets: seq<NodeSubset>)
    requires UsableGraph(g) && EdgesInRange(g, EffectiveEdges(g, greedily, controlEdges))
    requires var p := ProblemOf(g, EffectiveEdges(g, greedily, controlEdges), nodesToPartition, !disableNodeFusion);
             && p.Valid()
             && var sched := Schedule.Partition(p, greedily, []);
                Complete(p, Flatten(sched)) && SubsetsMatch(g, p, sched, subsets)
                && forall e :: 0 <= e < |sched| ==> ExactBoundaries(g, sched, e, subsets[e])
    ensures var p := ProblemOf(g, EffectiveEdges(g, greedily, controlEdges), nodesToPartition, !disableNodeFusion);
            IsPartition(g, nodesToPartition, greedily, controlEdges, disableNodeFusion,
                        Schedule.Partition(p, greedily, []), subsets)
  {
    var edges := EffectiveEdges(g, greedily, controlEdges);
    var p := ProblemOf(g, edges, nodesToPartition, !disableNodeFusion);
    var pieces := Schedule.Partition(p, greedily, []);
    PartitionIsSound(p, greedily);
    CanRunMeans(g, greedily, controlEdges, nodesToPartition, !disableNodeFusion, Flatten(pieces));
    PiecesAreInPlan(g, p, pieces, subsets);
    hide Schedule.Partition, CanRunIn, EffectiveEdges, ProblemOf, IsSubset, ExactBoundaries;
    forall e | 0 <= e < |pieces|
      ensures IsSubset(g, nodesToPartition, pieces, e, subsets[e])
    {
      SubsetMeans(g, edges, nodesToPartition, !disableNodeFusion, pieces, e, subsets);
    }
    ShapeMeans(g, nodesToPartition, greedily, controlEdges, !disableNodeFusion, subsets);
  }

  /** How the order is cut, and when it is the original one. */
  lemma ShapeMeans(
    g: Graph, nodesToPartition: seq<int>, greedily: bool, controlEdges: Option<seq<ControlEdge>>, fuse: bool,
    subsets: seq<NodeSubset>)
    requires UsableGraph(g) && EdgesInRange(g, EffectiveEdges(g, greedily, controlEdges))
    requires var p := ProblemOf(g, EffectiveEdges(g, greedily, controlEdges), nodesToPartition, fuse);
             p.Valid() && SubsetsMatch(g, p, Schedule.Partition(p, greedily, []), subsets)
    ensures var p := ProblemOf(g, EffectiveEdges(g, greedily, controlEdges), nodesToPartition, fuse);
            var pieces := Schedule.Partition(p, greedily, []);
            && (!fuse ==> forall e :: 0 <= e < |pieces| ==> |pieces[e]| == 1)
            && (fuse && greedily ==> NeighboursDiffer(subsets))
            && (!greedily && g.DependencyOrdered()
                && (controlEdges.Some? ==> forall e :: e in controlEdges.value ==> e.0 < e.1) ==>
                  Flatten(pieces) == OriginalOrder(g) && (fuse ==> NeighboursDiffer(subsets)))
  {
    var edges := EffectiveEdges(g, greedily, controlEdges);
    var p := ProblemOf(g, edges, nodesToPartition, fuse);
    var pieces := Schedule.Partition(p, greedily, []);
    assert p.Size() == |g.nodes| && p.fuse == fuse;
    PartitionIsSound(p, greedily);
    assert forall e :: 0 <= e < |pieces| ==> pieces[e] != [] && pieces[e][0] < p.Size();
    hide Schedule.Partition, ProblemOf;
    if !fuse {
      UnfusedPartition(p, greedily, []);
    }
    if fuse && greedily {
      forall e, f | 0 <= e < f < |pieces| && f == e + 1
        ensures p.kinds[pieces[e][0]] != p.kinds[pieces[f][0]]
      {
        GreedyPartitionAlternates(p, e);
      }
      NeighboursMean(g, p, pieces, subsets);
    }
    if !greedily && g.DependencyOrdered()
       && (controlEdges.Some? ==> forall e :: e in controlEdges.value ==> e.0 < e.1) {
      NonGreedyShape(g, edges, nodesToPartition, fuse, subsets);
    }
  }

  lemma NonGreedyShape(
    g: Graph, edges: seq<ControlEdge>, nodesToPartition: seq<int>, fuse: bool, subsets: seq<NodeSubset>)
    requires UsableGraph(g) && g.DependencyOrdered() && ForwardEdges(edges)
    requires var p := ProblemOf(g, edges, nodesToPartition, fuse);
             p.Valid() && SubsetsMatch(g, p, Schedule.Partition(p, false, []), subsets)
    ensures var p := ProblemOf(g, edges, nodesToPartition, fuse);
            && Flatten(Schedule.Partition(p, false, [])) == OriginalOrder(g)
            && (fuse ==> NeighboursDiffer(subsets))
  {
    var p := ProblemOf(g, edges, nodesToPartition, fuse);
    NonGreedyPreservesOrder(g, edges, nodesToPartition, fuse);
    if fuse {
      RunsAlternate(p, 0);
      NeighboursMean(g, p, Schedule.Partition(p, false, []), subsets);
    }
  }

  lemma NeighboursMean(g: Graph, p: Problem, pieces: seq<seq<nat>>, subsets: seq<NodeSubset>)
    requires |g.nodeIndex| == |g.nodes| == |p.kinds| && SubsetsMatch(g, p, pieces, subsets) && p.Valid()
    requires forall e :: 0 <= e < |pieces| ==> pieces[e] != [] && pieces[e][0] < p.Size()
    requires forall e, f :: 0 <= e < f < |pieces| && f == e + 1 ==> p.kinds[pieces[e][0]] != p.kinds[pieces[f][0]]
    ensures NeighboursDiffer(subsets)
  {
  }

  lemma KindsMean(
    g: Graph, nodesToPartition: seq<int>, greedily: bool, controlEdges: Option<seq<ControlEdge>>,
    disableNodeFusion: bool, pieces: seq<seq<nat>>, subsets: seq<NodeSubset>)
    requires |g.nodeIndex| == |g.nodes|
    requires IsPartition(g, nodesToPartition, greedily, controlEdges, disableNodeFusion, pieces, subsets)
    ensures forall e, x :: 0 <= e < |subsets| && x in subsets[e].nodes ==>
              (subsets[e].kind == Some(Delegated) <==> x in nodesToPartition)
  {
    forall e, x | 0 <= e < |subsets| && x in subsets[e].nodes
      ensures subsets[e].kind == Some(Delegated) <==> x in nodesToPartition
    {
      assert IsSubset(g, nodesToPartition, pieces, e, subsets[e]);
    }
  }

  /* ---- Dependency-ordered graphs ---- */

  /** The edges the partitioner adds by itself point forward. */
  lemma DefaultEdgesAreForward(g: Graph, greedily: bool)
    ensures ForwardEdges(EffectiveEdges(g, greedily, None))
  {
    FirstEffectsAscend(g, |g.nodes|);
    var effects := FirstEffects(g, |g.nodes|);
    forall e | e in SideEffectChain(effects) ensures e.0 < e.1 {
      var i :| 0 <= i < |SideEffectChain(effects)| && SideEffectChain(effects)[i] == e;
      assert e == (effects[i], effects[i + 1]);
    }
  }

  /**
   * Non-greedy partitioning of a dependency-ordered graph whose control edges point forward
   * preserves the execution order: maximal runs of one kind, or single nodes without fusion.
   */
  lemma NonGreedyPreservesOrder(g: Graph, edges: seq<ControlEdge>, nodesToPartition: seq<int>, fuse: bool)
    requires UsableGraph(g) && g.DependencyOrdered() && ForwardEdges(edges)
    requires ProblemOf(g, edges, nodesToPartition, fuse).Valid()
    ensures var p := ProblemOf(g, edges, nodesToPartition, fuse);
            && Schedule.Partition(p, false, []) == (if fuse then Runs(p, 0) else Singletons(p, 0))
            && Flatten(Schedule.Partition(p, false, [])) == OriginalOrder(g)
  {
    var p := ProblemOf(g, edges, nodesToPartition, fuse);
    OrderedGraphIsForward(g, edges, nodesToPartition, fuse);
    assert Range(0, 0) == [];
    if fuse {
      NonGreedyKeepsOrder(p, 0);
      RunsFlatten(p, 0);
    } else {
      UnfusedKeepsOrder(p, false, 0);
      SingletonsFlatten(p, 0);
    }
  }

  /** Without fusion greedy partitioning preserves the execution order too. */
  lemma UnfusedPreservesOrder(g: Graph, edges: seq<ControlEdge>, nodesToPartition: seq<int>)
    requires UsableGraph(g) && g.DependencyOrdered() && ForwardEdges(edges)
    requires ProblemOf(g, edges, nodesToPartition, false).Valid()
    ensures var p := ProblemOf(g, edges, nodesToPartition, false);
            Schedule.Partition(p, true, []) == Singletons(p, 0) && Flatten(Singletons(p, 0)) == OriginalOrder(g)
  {
    var p := ProblemOf(g, edges, nodesToPartition, false);
    OrderedGraphIsForward(g, edges, nodesToPartition, false);
    assert Range(0, 0) == [];
    UnfusedKeepsOrder(p, true, 0);
    SingletonsFlatten(p, 0);
  }

  /** The greedy schedule of a graph whose edges point forward starts with node 0. */
  lemma GreedyStartsWithZero(p: Problem)
    requires p.Valid() && Forward(p) && p.Size() > 0
    ensures var greedy := Schedule.Partition(p, true, []);
            greedy != [] && greedy[0] != [] && greedy[0][0] == 0 && Flatten(greedy)[0] == 0
  {
    EmptyIsGrowing(p, []);
    var s := BuildSubset(p, true, [], []);
    PartitionUnfolds(p, true, [], s);
    SubsetStart(p, true);
    var none: seq<nat> := [];
    assert none + none == none && CanJoin(p, none, none, 0);
    var r := Sweep(p, true, none, none + [0], 1, true);
    assert none + [0] == [0] && r.current[..1] == none + [0];
    assert r.current[0] == r.current[..1][0];
  }

  /** The scheduling problem of a dependency-ordered graph without control edges of the caller's own. */
  ghost function DefaultProblem(g: Graph, nodesToPartition: seq<int>, greedily: bool, fuse: bool): Problem
    requires |g.nodeIndex| == |g.nodes|
  {
    ProblemOf(g, EffectiveEdges(g, greedily, None), nodesToPartition, fuse)
  }

  /** It always has a solution, and the greedy one starts with node 0. */
  lemma DefaultIsComplete(g: Graph, nodesToPartition: seq<int>, greedily: bool, fuse: bool)
    requires UsableGraph(g) && g.DependencyOrdered()
    ensures var p := DefaultProblem(g, nodesToPartition, greedily, fuse);
            && p.Valid() && Forward(p) && Complete(p, Flatten(Schedule.Partition(p, greedily, [])))
            && Sound(p, Schedule.Partition(p, greedily, [])) && InPlan(g, Flatten(Schedule.Partition(p, greedily, [])))
            && InPlan(g, OriginalOrder(g))
  {
    var edges := EffectiveEdges(g, greedily, None);
    var p := DefaultProblem(g, nodesToPartition, greedily, fuse);
    ProblemIsValid(g, edges, nodesToPartition, fuse);
    DefaultEdgesAreForward(g, greedily);
    OrderedGraphIsForward(g, edges, nodesToPartition, fuse);
    ForwardIsComplete(p, greedily);
    PartitionIsSound(p, greedily);
  }

  lemma DefaultGreedyKeepsMeaning<V, W>(g: Graph, nodesToPartition: seq<int>, k: Kernels<V, W>, start: Machine<V, W>)
    requires UsableGraph(g) && g.DependencyOrdered() && UpdatesOrdered(g, EffectiveEdges(g, true, None), k.updates, 1)
    requires var p := DefaultProblem(g, nodesToPartition, true, true);
             && p.Valid() && InPlan(g, Flatten(Schedule.Partition(p, true, []))) && InPlan(g, OriginalOrder(g))
    ensures var p := DefaultProblem(g, nodesToPartition, true, true);
            RunAll(g, k, Flatten(Schedule.Partition(p, true, [])), start) == RunAll(g, k, OriginalOrder(g), start)
  {
    hide RunAll, UpdatesOrdered, ConflictsAgree, Schedule.Partition;
    var edges := EffectiveEdges(g, true, None);
    var p := DefaultProblem(g, nodesToPartition, true, true);
    var order := Flatten(Schedule.Partition(p, true, []));
    DefaultIsComplete(g, nodesToPartition, true, true);
    if |g.nodes| > 0 {
      GreedyStartsWithZero(p);
      OrderedUpdatesAgree(g, edges, nodesToPartition, true, order, k.updates, 1);
    } else {
      NoConflicts(g, k.updates, order);
    }
    GreedyKeepsMeaning(g, edges, nodesToPartition, true, k, start);
  }

  lemma NoConflicts(g: Graph, updates: (nat, int) -> bool, order: seq<nat>)
    requires |g.nodes| == 0 && InPlan(g, order) && InPlan(g, OriginalOrder(g))
    ensures ConflictsAgree(g, updates, order, OriginalOrder(g))
  {
  }

  /**
   * Partitioning a dependency-ordered graph without control edges of the caller's own always
   * succeeds, and running the result means what running the plan means, side effects included.
   * In greedy mode dependencies have to keep nodes in conflict over a variable in order; node 0
   * comes first in any case.
   */
  lemma DefaultPartitionKeepsMeaning<V, W>(
    g: Graph, nodesToPartition: seq<int>, greedily: bool, fuse: bool, k: Kernels<V, W>, start: Machine<V, W>)
    requires UsableGraph(g) && g.DependencyOrdered()
    requires greedily && fuse ==> UpdatesOrdered(g, EffectiveEdges(g, true, None), k.updates, 1)
    ensures var p := DefaultProblem(g, nodesToPartition, greedily, fuse);
            && p.Valid() && Complete(p, Flatten(Schedule.Partition(p, greedily, [])))
            && var order := Flatten(Schedule.Partition(p, greedily, []));
               && InPlan(g, order) && InPlan(g, OriginalOrder(g))
               && RunAll(g, k, order, start) == RunAll(g, k, OriginalOrder(g), start)
  {
    hide RunAll, UpdatesOrdered, Schedule.Partition;
    DefaultIsComplete(g, nodesToPartition, greedily, fuse);
    DefaultEdgesAreForward(g, greedily);
    if greedily && fuse {
      DefaultGreedyKeepsMeaning(g, nodesToPartition, k, start);
    } else if greedily {
      UnfusedPreservesOrder(g, EffectiveEdges(g, true, None), nodesToPartition);
    } else {
      NonGreedyPreservesOrder(g, EffectiveEdges(g, false, None), nodesToPartition, fuse);
    }
  }

  /**
   * On such a graph greedy partitioning, although it keeps the side effects in order, never
   * returns more subsets than non-greedy partitioning.
   */
  lemma GreedyReturnsNoMoreSubsets(g: Graph, nodesToPartition: seq<int>)
    requires UsableGraph(g) && g.DependencyOrdered()
    ensures var p := ProblemOf(g, EffectiveEdges(g, true, None), nodesToPartition, true);
            var q := ProblemOf(g, EffectiveEdges(g, false, None), nodesToPartition, true);
            p.Valid() && q.Valid() && |Schedule.Partition(p, true, [])| <= |Schedule.Partition(q, false, [])|
  {
    var e, f := EffectiveEdges(g, true, None), EffectiveEdges(g, false, None);
    var p, q := ProblemOf(g, e, nodesToPartition, true), ProblemOf(g, f, nodesToPartition, true);
    ProblemIsValid(g, e, nodesToPartition, true);
    ProblemIsValid(g, f, nodesToPartition, true);
    DefaultEdgesAreForward(g, true);
    DefaultEdgesAreForward(g, false);
    NonGreedyPreservesOrder(g, e, nodesToPartition, true);
    NonGreedyPreservesOrder(g, f, nodesToPartition, true);
    SameRuns(p, q, 0);
    OrderedGraphIsForward(g, e, nodesToPartition, true);
    ForwardIsComplete(p, false);
    GreedyBeatsNonGreedy(p);
  }

  /** The runs depend on the kinds alone. */
  lemma {:induction false} SameRuns(p: Problem, q: Problem, k: nat)
    requires p.Valid() && q.Valid() && p.kinds == q.kinds && k <= p.Size()
    ensures Runs(p, k) == Runs(q, k)
    decreases p.Size() - k
  {
    if k < p.Size() {
      SameRunEnd(p, q, k, k + 1);
      SameRuns(p, q, RunEnd(p, k, k + 1));
    }
  }

  lemma {:induction false} SameRunEnd(p: Problem, q: Problem, k: nat, n: nat)
    requires p.Valid() && q.Valid() && p.kinds == q.kinds && k < n <= p.Size()
    ensures RunEnd(p, k, n) == RunEnd(q, k, n)
    decreases p.Size() - n
  {
    if n < p.Size() && p.kinds[n] == p.kinds[k] {
      SameRunEnd(p, q, k, n + 1);
    }
  }
}
