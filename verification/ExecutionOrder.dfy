/**
 * What a partition of a graph is, in terms of the graph alone: an order in which its nodes can
 * run, cut into pieces of one kind with exact boundaries.
 */
module ExecutionOrder {
  import opened Common
  import opened GraphInfo
  import opened Schedule
  import opened ScheduleTheorems
  import opened Reordering
  import opened PartitionMeaning
  import opened Partitioner

  /** What the builder of a graph guarantees; nodes to partition and control edges are validated. */
  ghost predicate UsableGraph(g: Graph) {
    Usable(g, [])
  }

  ghost predicate EdgesInRange(g: Graph, edges: seq<ControlEdge>) {
    forall e :: e in edges ==> 0 <= e.0 < |g.nodes| && 0 <= e.1 < |g.nodes|
  }

  /** The control edges in force: the caller's, or for greedy partitioning the chain of side effects. */
  ghost function EffectiveEdges(g: Graph, greedily: bool, controlEdges: Option<seq<ControlEdge>>): seq<ControlEdge> {
    if controlEdges.Some? then controlEdges.value
    else if greedily then SideEffectChain(Effects(g, OriginalOrder(g)))
    else []
  }

  /** The side-effect nodes among the first `n` nodes of the plan. */
  ghost function FirstEffects(g: Graph, n: nat): seq<nat>
    requires n <= |g.nodes|
  {
    Effects(g, Range(0, n))
  }

  lemma FirstEffectsStep(g: Graph, n: nat)
    requires n < |g.nodes|
    ensures FirstEffects(g, n + 1) == if g.nodes[n].mightHaveSideEffect then FirstEffects(g, n) + [n]
                                      else FirstEffects(g, n)
  {
    assert Range(0, n + 1)[..n] == Range(0, n) && Range(0, n + 1)[n] == n;
  }

  lemma FirstAndAllEffects(g: Graph)
    ensures FirstEffects(g, 0) == [] && SideEffectChain([]) == []
    ensures InPlan(g, OriginalOrder(g)) && FirstEffects(g, |g.nodes|) == Effects(g, OriginalOrder(g))
  {
  }

  lemma {:induction false} FirstEffectsAscend(g: Graph, n: nat)
    requires n <= |g.nodes|
    ensures forall i :: 0 <= i < |FirstEffects(g, n)| ==> FirstEffects(g, n)[i] < n
    ensures forall i, j :: 0 <= i < j < |FirstEffects(g, n)| ==> FirstEffects(g, n)[i] < FirstEffects(g, n)[j]
  {
    if n > 0 {
      FirstEffectsAscend(g, n - 1);
      FirstEffectsStep(g, n - 1);
    }
  }

  lemma {:induction false} FirstEffectsAre(g: Graph, n: nat, m: nat)
    requires n <= |g.nodes|
    ensures m in FirstEffects(g, n) <==> m < n && g.nodes[m].mightHaveSideEffect
  {
    if n > 0 {
      FirstEffectsAre(g, n - 1, m);
      FirstEffectsStep(g, n - 1);
    }
  }

  /* ---- Orders in which the nodes can run ---- */

  /** `m` stands before `n`. */
  ghost predicate Before(order: seq<nat>, m: int, n: int) {
    exists i, j :: 0 <= i < j < |order| && order[i] == m && order[j] == n
  }

  ghost predicate IsPlanOrder(g: Graph, order: seq<nat>) {
    && (forall n :: n in order <==> 0 <= n < |g.nodes|)
    && (forall i, j :: 0 <= i < j < |order| ==> order[i] != order[j])
  }

  /** The caller's control edges lead forward; without any, greedy partitioning keeps side effects in order. */
  ghost predicate ControlKept(g: Graph, greedily: bool, controlEdges: Option<seq<ControlEdge>>, order: seq<nat>) {
    match controlEdges
    case Some(edges) => forall e :: e in edges ==> Before(order, e.0, e.1)
    case None => greedily ==> EffectsKept(g, order)
  }

  ghost predicate EffectsKept(g: Graph, order: seq<nat>) {
    forall m, n ::
      0 <= m < n < |g.nodes| && g.nodes[m].mightHaveSideEffect && g.nodes[n].mightHaveSideEffect ==>
        Before(order, m, n)
  }

  /** Every node comes after those that compute its inputs. */
  ghost predicate DataKept(g: Graph, order: seq<nat>) {
    forall m, n, t ::
      && 0 <= m < |g.nodes| && 0 <= n < |g.nodes| && t != -1
      && t in g.nodes[m].outputs && t in g.nodes[n].inputs ==>
        Before(order, m, n)
  }

  /** The nodes can run in this order: each once, and after those that compute its inputs. */
  ghost predicate CanRunIn(g: Graph, greedily: bool, controlEdges: Option<seq<ControlEdge>>, order: seq<nat>) {
    IsPlanOrder(g, order) && DataKept(g, order) && ControlKept(g, greedily, controlEdges, order)
  }

  lemma BeforeIsTransitive(g: Graph, order: seq<nat>, l: nat, m: nat, n: nat)
    requires IsPlanOrder(g, order) && Before(order, l, m) && Before(order, m, n)
    ensures Before(order, l, n)
  {
    var i, j :| 0 <= i < j < |order| && order[i] == l && order[j] == m;
    var j', k :| 0 <= j' < k < |order| && order[j'] == m && order[k] == n;
    assert j == j';
  }

  /** In an order that keeps the chain, every two nodes with side effects keep their order. */
  lemma {:induction false} ChainKeepsOrder(g: Graph, order: seq<nat>, effects: seq<nat>, i: nat, j: nat)
    requires IsPlanOrder(g, order) && i < j < |effects|
    requires forall e :: e in SideEffectChain(effects) ==> Before(order, e.0, e.1)
    ensures Before(order, effects[i], effects[j])
  {
    assert SideEffectChain(effects)[j - 1] in SideEffectChain(effects);
    if i < j - 1 {
      ChainKeepsOrder(g, order, effects, i, j - 1);
      BeforeIsTransitive(g, order, effects[i], effects[j - 1], effects[j]);
    }
  }

  /** The nodes with side effects, in the order of the plan. */
  ghost predicate AreEffects(g: Graph, effects: seq<nat>) {
    && (forall i, j :: 0 <= i < j < |effects| ==> effects[i] < effects[j])
    && forall m: nat :: m in effects <==> m < |g.nodes| && g.nodes[m].mightHaveSideEffect
  }

  lemma EffectsAre(g: Graph)
    ensures InPlan(g, OriginalOrder(g))
    ensures AreEffects(g, Effects(g, OriginalOrder(g)))
  {
    FirstAndAllEffects(g);
    FirstEffectsAscend(g, |g.nodes|);
    forall m: nat
      ensures m in FirstEffects(g, |g.nodes|) <==> m < |g.nodes| && g.nodes[m].mightHaveSideEffect
    {
      FirstEffectsAre(g, |g.nodes|, m);
    }
  }

  /** An order keeps the side effects as they are exactly when it keeps the chain. */
  lemma ChainMeans(g: Graph, order: seq<nat>)
    requires IsPlanOrder(g, order) && InPlan(g, OriginalOrder(g))
    ensures EffectsKept(g, order) <==>
            forall e :: e in SideEffectChain(Effects(g, OriginalOrder(g))) ==> Before(order, e.0, e.1)
  {
    var effects := Effects(g, OriginalOrder(g));
    EffectsAre(g);
    hide *;
    if EffectsKept(g, order) {
      ChainIsKept(g, order, effects);
    }
    if forall e :: e in SideEffectChain(effects) ==> Before(order, e.0, e.1) {
      EffectsAreKept(g, order, effects);
    }
  }

  lemma ChainIsKept(g: Graph, order: seq<nat>, effects: seq<nat>)
    requires AreEffects(g, effects) && EffectsKept(g, order)
    ensures forall e :: e in SideEffectChain(effects) ==> Before(order, e.0, e.1)
  {
    hide Before;
    var chain := SideEffectChain(effects);
    forall e | e in chain
      ensures Before(order, e.0, e.1)
    {
      var i :| 0 <= i < |chain| && chain[i] == e;
      assert effects[i] in effects && effects[i + 1] in effects;
    }
  }

  lemma EffectsAreKept(g: Graph, order: seq<nat>, effects: seq<nat>)
    requires IsPlanOrder(g, order) && AreEffects(g, effects)
    requires forall e :: e in SideEffectChain(effects) ==> Before(order, e.0, e.1)
    ensures EffectsKept(g, order)
  {
    hide Before, IsPlanOrder;
    forall m, n | 0 <= m < n < |g.nodes| && g.nodes[m].mightHaveSideEffect && g.nodes[n].mightHaveSideEffect
      ensures Before(order, m, n)
    {
      assert m in effects && n in effects;
      var i :| 0 <= i < |effects| && effects[i] == m;
      var j :| 0 <= j < |effects| && effects[j] == n;
      ChainKeepsOrder(g, order, effects, i, j);
    }
  }

  /** The edges in force say what `ControlKept` says. */
  lemma EffectiveEdgesMean(g: Graph, greedily: bool, controlEdges: Option<seq<ControlEdge>>, order: seq<nat>)
    requires IsPlanOrder(g, order)
    ensures ControlKept(g, greedily, controlEdges, order) <==>
            forall e :: e in EffectiveEdges(g, greedily, controlEdges) ==> Before(order, e.0, e.1)
  {
    hide Before, EffectsKept;
    EffectsAre(g);
    ChainMeans(g, order);
  }

  /** Edges of the caller's own are in force as they are; the others are in range. */
  lemma EffectiveEdgesInRange(g: Graph, greedily: bool, controlEdges: Option<seq<ControlEdge>>)
    ensures EdgesInRange(g, EffectiveEdges(g, greedily, controlEdges)) <==>
            (controlEdges.Some? ==> forall e :: e in controlEdges.value ==>
                                      0 <= e.0 < |g.nodes| && 0 <= e.1 < |g.nodes|)
  {
    if controlEdges.None? && greedily {
      EffectsAre(g);
      var effects := Effects(g, OriginalOrder(g));
      forall e | e in SideEffectChain(effects)
        ensures 0 <= e.0 < |g.nodes| && 0 <= e.1 < |g.nodes|
      {
        var i :| 0 <= i < |SideEffectChain(effects)| && SideEffectChain(effects)[i] == e;
        assert effects[i] in effects && effects[i + 1] in effects;
      }
    }
  }

  /** An order in which the nodes can run solves the scheduling problem, and the other way round. */
  lemma CanRunMeans(
    g: Graph, greedily: bool, controlEdges: Option<seq<ControlEdge>>, nodesToPartition: seq<int>, fuse: bool,
    order: seq<nat>)
    requires UsableGraph(g) && EdgesInRange(g, EffectiveEdges(g, greedily, controlEdges))
    ensures var p := ProblemOf(g, EffectiveEdges(g, greedily, controlEdges), nodesToPartition, fuse);
            && p.Valid()
            && (CanRunIn(g, greedily, controlEdges, order) <==> InDependencyOrder(p, order) && Complete(p, order))
  {
    var edges := EffectiveEdges(g, greedily, controlEdges);
    var p := ProblemOf(g, edges, nodesToPartition, fuse);
    ProblemIsValid(g, edges, nodesToPartition, fuse);
    hide EffectiveEdges, ControlKept;
    if CanRunIn(g, greedily, controlEdges, order) {
      EffectiveEdgesMean(g, greedily, controlEdges, order);
      RunnableIsOrdered(g, edges, nodesToPartition, fuse, order);
    }
    if InDependencyOrder(p, order) && Complete(p, order) {
      OrderedIsRunnable(g, edges, nodesToPartition, fuse, order);
      EffectiveEdgesMean(g, greedily, controlEdges, order);
    }
  }

  lemma RunnableIsOrdered(
    g: Graph, edges: seq<ControlEdge>, nodesToPartition: seq<int>, fuse: bool, order: seq<nat>)
    requires |g.nodeIndex| == |g.nodes| && ProblemOf(g, edges, nodesToPartition, fuse).Valid()
    requires IsPlanOrder(g, order) && DataKept(g, order)
    requires forall e :: e in edges ==> Before(order, e.0, e.1)
    ensures var p := ProblemOf(g, edges, nodesToPartition, fuse); InDependencyOrder(p, order) && Complete(p, order)
  {
    var p := ProblemOf(g, edges, nodesToPartition, fuse);
    forall i | 0 <= i < |order|
      ensures order[i] < p.Size() && Ready(p, order[..i], order[i])
    {
      assert order[i] in order;
      forall d | d in p.deps[order[i]]
        ensures d in order[..i]
      {
        assert Before(order, d, order[i]);
        var j, k :| 0 <= j < k < |order| && order[j] == d && order[k] == order[i];
        assert k == i && order[..i][j] == d;
      }
    }
  }

  lemma OrderedIsRunnable(
    g: Graph, edges: seq<ControlEdge>, nodesToPartition: seq<int>, fuse: bool, order: seq<nat>)
    requires |g.nodeIndex| == |g.nodes| && EdgesInRange(g, edges)
    requires var p := ProblemOf(g, edges, nodesToPartition, fuse);
             p.Valid() && InDependencyOrder(p, order) && Complete(p, order)
    ensures IsPlanOrder(g, order) && DataKept(g, order)
    ensures forall e :: e in edges ==> Before(order, e.0, e.1)
  {
    var p := ProblemOf(g, edges, nodesToPartition, fuse);
    forall i, j | 0 <= i < j < |order|
      ensures order[i] != order[j]
    {
      assert Ready(p, order[..j], order[j]) && order[..j][i] == order[i];
    }
    forall m: nat, n: nat | n < |g.nodes| && m in DepsOf(g, edges, n)
      ensures Before(order, m, n)
    {
      DependencyFirst(p, order, m, n);
    }
    forall m, n, t | 0 <= m < |g.nodes| && 0 <= n < |g.nodes| && t != -1
                     && t in g.nodes[m].outputs && t in g.nodes[n].inputs
      ensures Before(order, m, n)
    {
      assert g.Produces(m, t) && g.Reads(n, t);
      assert m in DepsOf(g, edges, n);
    }
    forall e | e in edges
      ensures Before(order, e.0, e.1)
    {
      assert e == (e.0, e.1) && e.0 in DepsOf(g, edges, e.1);
    }
  }

  lemma DependencyFirst(p: Problem, order: seq<nat>, m: nat, n: nat)
    requires p.Valid() && InDependencyOrder(p, order) && Complete(p, order) && n < p.Size() && m in p.deps[n]
    ensures Before(order, m, n)
  {
    assert n in order;
    var j :| 0 <= j < |order| && order[j] == n;
    assert Ready(p, order[..j], order[j]);
    var i :| 0 <= i < j && order[..j][i] == m;
    assert order[i] == m;
  }

  /* ---- Pieces of such an order ---- */

  ghost predicate PiecesInPlan(g: Graph, pieces: seq<seq<nat>>) {
    forall e, i :: 0 <= e < |pieces| && 0 <= i < |pieces[e]| ==> pieces[e][i] < |g.nodes|
  }

  ghost predicate NodesInPlan(g: Graph, nodes: seq<nat>) {
    forall i :: 0 <= i < |nodes| ==> nodes[i] < |g.nodes|
  }

  /** One of these nodes reads `t`, and none computes it. */
  ghost predicate EntersAt(g: Graph, nodes: seq<nat>, t: int)
    requires NodesInPlan(g, nodes)
  {
    && t != -1
    && (exists i :: 0 <= i < |nodes| && t in g.nodes[nodes[i]].inputs)
    && !(exists i :: 0 <= i < |nodes| && t in g.nodes[nodes[i]].outputs)
  }

  /** A node of piece `e` computes `t`, which is a graph output or read by a node of another piece. */
  ghost predicate LeavesAt(g: Graph, pieces: seq<seq<nat>>, e: nat, t: int)
    requires e < |pieces| && PiecesInPlan(g, pieces)
  {
    && t != -1
    && (exists i :: 0 <= i < |pieces[e]| && t in g.nodes[pieces[e][i]].outputs)
    && (t in g.outputs
        || exists k, i :: 0 <= k < |pieces| && k != e && 0 <= i < |pieces[k]| && t in g.nodes[pieces[k][i]].inputs)
  }

  /** `subset` holds the original indices of the nodes in piece `e`, of its kind, and its exact boundaries. */
  ghost predicate IsSubset(g: Graph, nodesToPartition: seq<int>, pieces: seq<seq<nat>>, e: nat, subset: NodeSubset)
    requires e < |pieces| && |g.nodeIndex| == |g.nodes| && PiecesInPlan(g, pieces)
  {
    && pieces[e] != [] && |subset.nodes| == |pieces[e]|
    && (forall i :: 0 <= i < |pieces[e]| ==> subset.nodes[i] == g.nodeIndex[pieces[e][i]])
    && (forall x :: x in subset.nodes ==>
          subset.kind == Some(if x in nodesToPartition then Delegated else NotDelegated))
    && (forall i, j :: 0 <= i < j < |subset.inputTensors| ==> subset.inputTensors[i] < subset.inputTensors[j])
    && (forall i, j :: 0 <= i < j < |subset.outputTensors| ==> subset.outputTensors[i] < subset.outputTensors[j])
    && (forall t :: t in subset.inputTensors <==> EntersAt(g, pieces[e], t))
    && (forall t :: t in subset.outputTensors <==> LeavesAt(g, pieces, e, t))
  }

  ghost predicate NeighboursDiffer(subsets: seq<NodeSubset>) {
    forall e :: 0 <= e < |subsets| - 1 ==> subsets[e].kind != subsets[e + 1].kind
  }

  /**
   * The subsets cut an order in which the nodes can run into pieces: single nodes without fusion,
   * and otherwise pieces that follow one of the other kind when partitioning greedily. Non-greedy
   * partitioning leaves the nodes of a graph whose dependencies all lead forward as they are, and
   * cuts them where the kind changes.
   */
  ghost predicate IsPartition(
    g: Graph, nodesToPartition: seq<int>, greedily: bool, controlEdges: Option<seq<ControlEdge>>,
    disableNodeFusion: bool, pieces: seq<seq<nat>>, subsets: seq<NodeSubset>)
    requires |g.nodeIndex| == |g.nodes|
  {
    && CanRunIn(g, greedily, controlEdges, Flatten(pieces))
    && |subsets| == |pieces| && PiecesInPlan(g, pieces)
    && (forall e :: 0 <= e < |pieces| ==> IsSubset(g, nodesToPartition, pieces, e, subsets[e]))
    && (disableNodeFusion ==> forall e :: 0 <= e < |pieces| ==> |pieces[e]| == 1)
    && (!disableNodeFusion && greedily ==> NeighboursDiffer(subsets))
    && (!greedily && g.DependencyOrdered()
        && (controlEdges.Some? ==> forall e :: e in controlEdges.value ==> e.0 < e.1) ==>
          && |Flatten(pieces)| == |g.nodes| && (forall i :: 0 <= i < |g.nodes| ==> Flatten(pieces)[i] == i)
          && (!disableNodeFusion ==> NeighboursDiffer(subsets)))
  }

  lemma {:induction false} RunsAlternate(p: Problem, k: nat)
    requires p.Valid() && k <= p.Size()
    ensures k < p.Size() ==> Runs(p, k) != [] && Runs(p, k)[0] != [] && Runs(p, k)[0][0] == k
    ensures forall e :: 0 <= e < |Runs(p, k)| ==> Runs(p, k)[e] != [] && Runs(p, k)[e][0] < p.Size()
    ensures forall e :: 0 <= e < |Runs(p, k)| - 1 ==> p.kinds[Runs(p, k)[e][0]] != p.kinds[Runs(p, k)[e + 1][0]]
    decreases p.Size() - k
  {
    if k < p.Size() {
      var e := RunEnd(p, k, k + 1);
      RunsAlternate(p, e);
      assert Range(k, e)[0] == k;
    }
  }

  /** Without fusion a subset is complete with its first node. */
  lemma {:induction false} UnfusedSweep(p: Problem, greedy: bool, done: seq<nat>, current: seq<nat>, n: nat, did: bool)
    requires p.Valid() && !p.fuse && n <= p.Size() && |current| <= 1
    ensures |Sweep(p, greedy, done, current, n, did).current| <= 1
    decreases p.Size() - n
  {
    if n < p.Size() {
      if CanJoin(p, done, current, n) {
        UnfusedSweep(p, greedy, done, current + [n], n + 1, true);
      } else if !(did && !greedy) {
        UnfusedSweep(p, greedy, done, current, n + 1, did);
      }
    }
  }

  lemma {:induction false} UnfusedSubset(p: Problem, greedy: bool, done: seq<nat>, current: seq<nat>)
    requires p.Valid() && !p.fuse && Growing(p, done, current) && |current| <= 1
    ensures |BuildSubset(p, greedy, done, current)| <= 1
    decreases Unscheduled(p, done + current)
  {
    hide Sweep, Growing, Unscheduled;
    var s := Sweep(p, greedy, done, current, 0, false);
    SweepKeepsGrowing(p, greedy, done, current, 0, false);
    BuildSubsetUnfolds(p, greedy, done, current, s);
    UnfusedSweep(p, greedy, done, current, 0, false);
    if !s.stopped && s.did {
      UnfusedSubset(p, greedy, done, s.current);
    }
  }

  lemma {:induction false} UnfusedPartition(p: Problem, greedy: bool, done: seq<nat>)
    requires p.Valid() && !p.fuse && InDependencyOrder(p, done)
    ensures forall e :: 0 <= e < |Partition(p, greedy, done)| ==> |Partition(p, greedy, done)[e]| == 1
    decreases Unscheduled(p, done)
  {
    hide BuildSubset, Growing, InDependencyOrder, Unscheduled;
    EmptyIsGrowing(p, done);
    var s := BuildSubset(p, greedy, done, []);
    PartitionUnfolds(p, greedy, done, s);
    UnfusedSubset(p, greedy, done, []);
    if s != [] {
      UnfusedPartition(p, greedy, done + s);
    }
  }

  /** What the partitioner says about one subset, in terms of the graph. */
  lemma SubsetMeans(
    g: Graph, edges: seq<ControlEdge>, nodesToPartition: seq<int>, fuse: bool, pieces: seq<seq<nat>>, e: nat,
    subsets: seq<NodeSubset>)
    requires |g.nodeIndex| == |g.nodes| && ProblemOf(g, edges, nodesToPartition, fuse).Valid()
    requires var p := ProblemOf(g, edges, nodesToPartition, fuse);
             Sound(p, pieces) && SubsetsMatch(g, p, pieces, subsets) && e < |pieces|
    requires ExactBoundaries(g, pieces, e, subsets[e])
    ensures PiecesInPlan(g, pieces) && IsSubset(g, nodesToPartition, pieces, e, subsets[e])
  {
    PiecesAreInPlan(g, ProblemOf(g, edges, nodesToPartition, fuse), pieces, subsets);
    KindMeans(g, edges, nodesToPartition, fuse, pieces, e, subsets);
    InputsMean(g, pieces, e, subsets[e]);
    OutputsMean(g, pieces, e, subsets[e]);
    hide ExactBoundaries, ProblemOf, Sound;
    assert subsets[e].nodes == OriginalIndices(g, pieces[e]);
  }

  lemma PiecesAreInPlan(g: Graph, p: Problem, pieces: seq<seq<nat>>, subsets: seq<NodeSubset>)
    requires |g.nodeIndex| == |g.nodes| == |p.kinds| && SubsetsMatch(g, p, pieces, subsets)
    ensures PiecesInPlan(g, pieces)
  {
    forall e, i | 0 <= e < |pieces| && 0 <= i < |pieces[e]|
      ensures pieces[e][i] < |g.nodes|
    {
      assert AreNodes(g, pieces[e]);
    }
  }

  lemma KindMeans(
    g: Graph, edges: seq<ControlEdge>, nodesToPartition: seq<int>, fuse: bool, pieces: seq<seq<nat>>, e: nat,
    subsets: seq<NodeSubset>)
    requires |g.nodeIndex| == |g.nodes| && ProblemOf(g, edges, nodesToPartition, fuse).Valid()
    requires var p := ProblemOf(g, edges, nodesToPartition, fuse);
             Sound(p, pieces) && SubsetsMatch(g, p, pieces, subsets) && e < |pieces|
    ensures pieces[e] != []
    ensures forall x :: x in subsets[e].nodes ==>
              subsets[e].kind == Some(if x in nodesToPartition then Delegated else NotDelegated)
  {
    var p := ProblemOf(g, edges, nodesToPartition, fuse);
    assert OneKind(p, pieces[e]) && AreNodes(g, pieces[e]) && pieces[e] != [];
    forall x | x in subsets[e].nodes
      ensures subsets[e].kind == Some(if x in nodesToPartition then Delegated else NotDelegated)
    {
      var i :| 0 <= i < |subsets[e].nodes| && subsets[e].nodes[i] == x;
      assert p.kinds[pieces[e][i]] == p.kinds[pieces[e][0]];
    }
  }

  lemma InputsMean(g: Graph, pieces: seq<seq<nat>>, e: nat, subset: NodeSubset)
    requires e < |pieces| && PiecesInPlan(g, pieces) && ExactBoundaries(g, pieces, e, subset)
    ensures forall i, j :: 0 <= i < j < |subset.inputTensors| ==> subset.inputTensors[i] < subset.inputTensors[j]
    ensures forall t :: t in subset.inputTensors <==> EntersAt(g, pieces[e], t)
  {
    hide ReadIn, ComputedIn;
    forall t
      ensures ReadIn(g, pieces[e], t) <==>
              t != -1 && exists i :: 0 <= i < |pieces[e]| && t in g.nodes[pieces[e][i]].inputs
      ensures ComputedIn(g, pieces[e], t) <==>
              t != -1 && exists i :: 0 <= i < |pieces[e]| && t in g.nodes[pieces[e][i]].outputs
    {
      BoundaryMeans(g, pieces, e, t);
    }
  }

  lemma OutputsMean(g: Graph, pieces: seq<seq<nat>>, e: nat, subset: NodeSubset)
    requires e < |pieces| && PiecesInPlan(g, pieces) && ExactBoundaries(g, pieces, e, subset)
    ensures forall i, j :: 0 <= i < j < |subset.outputTensors| ==> subset.outputTensors[i] < subset.outputTensors[j]
    ensures forall t :: t in subset.outputTensors <==> LeavesAt(g, pieces, e, t)
  {
    hide ReadIn, ComputedIn;
    forall t, k | 0 <= k < |pieces|
      ensures ReadIn(g, pieces[k], t) <==>
              t != -1 && exists i :: 0 <= i < |pieces[k]| && t in g.nodes[pieces[k][i]].inputs
      ensures ComputedIn(g, pieces[k], t) <==>
              t != -1 && exists i :: 0 <= i < |pieces[k]| && t in g.nodes[pieces[k][i]].outputs
    {
      BoundaryMeans(g, pieces, k, t);
    }
  }

  lemma BoundaryMeans(g: Graph, pieces: seq<seq<nat>>, e: nat, t: int)
    requires e < |pieces| && PiecesInPlan(g, pieces)
    ensures ReadIn(g, pieces[e], t) <==>
            t != -1 && exists i :: 0 <= i < |pieces[e]| && t in g.nodes[pieces[e][i]].inputs
    ensures ComputedIn(g, pieces[e], t) <==>
            t != -1 && exists i :: 0 <= i < |pieces[e]| && t in g.nodes[pieces[e][i]].outputs
  {
    forall i | 0 <= i < |pieces[e]|
      ensures pieces[e][i] in pieces[e] && pieces[e][i] < |g.nodes|
    {
    }
    if ReadIn(g, pieces[e], t) {
      var n :| n in pieces[e] && n < |g.nodes| && g.Reads(n, t);
      var i :| 0 <= i < |pieces[e]| && pieces[e][i] == n;
    }
    if ComputedIn(g, pieces[e], t) {
      var n :| n in pieces[e] && n < |g.nodes| && g.Produces(n, t);
      var i :| 0 <= i < |pieces[e]| && pieces[e][i] == n;
    }
    if i :| t != -1 && 0 <= i < |pieces[e]| && t in g.nodes[pieces[e][i]].inputs {
      assert g.Reads(pieces[e][i], t);
    }
    if i :| t != -1 && 0 <= i < |pieces[e]| && t in g.nodes[pieces[e][i]].outputs {
      assert g.Produces(pieces[e][i], t);
    }
  }
}
