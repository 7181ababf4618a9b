/** Lifetimes as `ArenaPlanner` stores them: planned ones, and those of temporaries added later. */
module ArenaLifetimes {
  import opened Common
  import opened GraphInfo
  import opened Liveness
  import opened InPlace
  import opened LivenessTheorems

  /** The graph itself uses tensor `t`. */
  predicate Mentioned(g: Graph, t: int) {
    || t in g.inputs || t in g.outputs || t in g.variables
    || exists n :: 0 <= n < |g.nodes| && (t in g.nodes[n].inputs || t in g.nodes[n].outputs)
  }

  ghost predicate Unmentioned(g: Graph, numTensors: nat, t: int) {
    0 <= t < numTensors && !Mentioned(g, t)
  }

  /** Each temporary is a tensor that belongs to one node and is nothing else. */
  ghost predicate TemporariesOk(g: Graph, temporaries: seq<seq<int>>, numTensors: nat) {
    && |temporaries| == |g.nodes|
    && (forall n, t {:trigger t in temporaries[n]} :: 0 <= n < |temporaries| && t in temporaries[n] ==>
          Unmentioned(g, numTensors, t))
    && (forall m, n, t {:trigger t in temporaries[m], t in temporaries[n]} ::
          0 <= m < |temporaries| && 0 <= n < |temporaries| && t in temporaries[m] && t in temporaries[n] ==> m == n)
  }

  predicate IsTemporary(temporaries: seq<seq<int>>, t: int) {
    exists n :: 0 <= n < |temporaries| && t in temporaries[n]
  }

  /** `t` holds a value that is there before node `n` or made by it, and still needed by node `n` or later. */
  ghost predicate InUse(g: Graph, temporaries: seq<seq<int>>, t: int, n: nat)
    requires n < |g.nodes| == |temporaries|
  {
    || t in temporaries[n]
    || ((t in g.inputs || t in g.variables || exists a :: 0 <= a <= n && g.Produces(a, t))
        && (Pinned(g, t) || exists b :: n <= b < |g.nodes| && (g.Reads(b, t) || g.Produces(b, t))))
  }

  /** The two arrays of node numbers. */
  datatype Lifetimes = Lifetimes(allocNode: seq<int>, deallocNode: seq<int>)

  /** Temporary `t` of node `n` lives during that node; unless the node is still to come, it has been told so. */
  predicate TemporaryOk(l: Lifetimes, preserve: bool, frontier: int, n: int, t: int)
    requires |l.allocNode| == |l.deallocNode|
  {
    if 0 <= t < |l.allocNode| && l.allocNode[t] != NODE_NOT_ASSIGNED
    then l.allocNode[t] == n && l.deallocNode[t] == if preserve then NODE_NOT_ASSIGNED else n
    else n > frontier && (0 <= t < |l.allocNode| ==> l.deallocNode[t] == NODE_NOT_ASSIGNED)
  }

  /** The planned lifetime of a tensor that is no temporary. */
  ghost predicate PlannedOk(p: Setting, l: Lifetimes, t: int)
    requires p.Valid() && |p.g.nodes| < NODE_NOT_ASSIGNED && 0 <= t < |l.allocNode| == |l.deallocNode|
  {
    && l.allocNode[t] == AllocSpec(p.g, t)
    && l.deallocNode[t] == DeallocSpec(p.g, FinalSharing(p), p.preserve, t)
  }

  ghost predicate LifetimesOk(p: Setting, temporaries: seq<seq<int>>, l: Lifetimes, frontier: int)
    requires p.Valid() && |p.g.nodes| < NODE_NOT_ASSIGNED
  {
    && |l.allocNode| == |l.deallocNode|
    && (forall t :: 0 <= t < |l.allocNode| && !IsTemporary(temporaries, t) ==> PlannedOk(p, l, t))
    && (forall n, t {:trigger t in temporaries[n]} :: 0 <= n < |temporaries| && t in temporaries[n] ==>
          TemporaryOk(l, p.preserve, frontier, n, t))
  }

  /** `nodes_to_tensors_` inverts `alloc_node_`. */
  ghost predicate NodesToTensorsOk(nodesToTensors: seq<set<int>>, allocNode: seq<int>) {
    forall i, t :: 0 <= i < |nodesToTensors| ==>
      (t in nodesToTensors[i] <==> 0 <= t < |allocNode| && allocNode[t] == i)
  }

  /** Queueing an unassigned tensor at node `i`, or one that is queued there already. */
  lemma QueueingKeepsInverse(nodesToTensors: seq<set<int>>, before: seq<int>, after: seq<int>, i: nat, t: int)
    requires NodesToTensorsOk(nodesToTensors, before) && i < |nodesToTensors| <= NODE_NOT_ASSIGNED
    requires 0 <= t < |before| && before[t] in {i, NODE_NOT_ASSIGNED}
    requires |after| == |before| && forall s :: 0 <= s < |before| ==> after[s] == if s == t then i else before[s]
    ensures NodesToTensorsOk(nodesToTensors[i := nodesToTensors[i] + {t}], after)
  {
  }

  lemma NotMentioned(p: Setting, t: int)
    requires p.Valid() && |p.g.nodes| < NODE_NOT_ASSIGNED && !Mentioned(p.g, t)
    ensures AllocSpec(p.g, t) == NODE_NOT_ASSIGNED
    ensures DeallocSpec(p.g, FinalSharing(p), p.preserve, t) == NODE_NOT_ASSIGNED
    ensures t !in FinalSharing(p)
  {
    if t in FinalSharing(p) {
      var m := SharedAreOutputs(p, |p.g.nodes|, t);
    }
  }

  lemma OutsideGraph(g: Graph, t: int)
    requires g.IndicesInRange() && t >= g.numTensors
    ensures !Mentioned(g, t)
  {
  }

  lemma NoTemporary(g: Graph, temporaries: seq<seq<int>>, numTensors: nat, t: int)
    requires TemporariesOk(g, temporaries, numTensors) && Mentioned(g, t)
    ensures !IsTemporary(temporaries, t)
  {
    hide Mentioned;
  }

  function Grow(s: seq<int>, n: nat): (r: seq<int>)
    ensures |r| == if |s| < n then n else |s|
    ensures forall t :: 0 <= t < |r| ==> r[t] == if t < |s| then s[t] else NODE_NOT_ASSIGNED
  {
    s + seq(if |s| < n then n - |s| else 0, _ => NODE_NOT_ASSIGNED)
  }

  /** Tensors added since the plan was made have no lifetime yet. */
  lemma GrowingKeepsLifetimes(p: Setting, temporaries: seq<seq<int>>, l: Lifetimes, frontier: int, n: nat)
    requires p.Valid() && |p.g.nodes| < NODE_NOT_ASSIGNED
    requires TemporariesOk(p.g, temporaries, n) && p.g.numTensors <= |l.allocNode| <= n
    requires LifetimesOk(p, temporaries, l, frontier)
    ensures LifetimesOk(p, temporaries, Lifetimes(Grow(l.allocNode, n), Grow(l.deallocNode, n)), frontier)
  {
    forall t | |l.allocNode| <= t < n
      ensures AllocSpec(p.g, t) == NODE_NOT_ASSIGNED
      ensures DeallocSpec(p.g, FinalSharing(p), p.preserve, t) == NODE_NOT_ASSIGNED
    {
      OutsideGraph(p.g, t);
      NotMentioned(p, t);
    }
  }

  /** A temporary of a later node is unassigned, or assigned to that node already. */
  lemma TemporaryIsFree(
    p: Setting, temporaries: seq<seq<int>>, l: Lifetimes, frontier: int, numTensors: nat, n: nat, t: int)
    requires p.Valid() && |p.g.nodes| < NODE_NOT_ASSIGNED && n < |temporaries|
    requires TemporariesOk(p.g, temporaries, numTensors) && LifetimesOk(p, temporaries, l, frontier)
    requires t in temporaries[n]
    ensures 0 <= t < numTensors && t !in FinalSharing(p)
    ensures t < |l.allocNode| ==> l.allocNode[t] in {n, NODE_NOT_ASSIGNED}
    ensures forall s :: s in FinalSharing(p) ==> FinalSharing(p)[s] != t
  {
    NotMentioned(p, t);
    forall s | s in FinalSharing(p)
      ensures FinalSharing(p)[s] != t
    {
      var m := OwnerIsRead(p, |p.g.nodes|, s);
      assert Mentioned(p.g, FinalSharing(p)[s]);
    }
  }

  /** Up to the frontier every temporary has its lifetime. */
  lemma TemporaryIsSet(p: Setting, temporaries: seq<seq<int>>, l: Lifetimes, frontier: int, n: nat, t: int)
    requires p.Valid() && |p.g.nodes| < NODE_NOT_ASSIGNED && n < |temporaries| && n <= frontier
    requires LifetimesOk(p, temporaries, l, frontier) && t in temporaries[n]
    ensures 0 <= t < |l.allocNode| == |l.deallocNode| && l.allocNode[t] == n
    ensures !p.preserve ==> l.deallocNode[t] == n
  {
    assert TemporaryOk(l, p.preserve, frontier, n, t);
  }

  /** A temporary of a later node gets its lifetime. */
  lemma TemporaryKeepsLifetimes(p: Setting, temporaries: seq<seq<int>>, l: Lifetimes, frontier: int, n: nat, t: int)
    requires p.Valid() && |p.g.nodes| < NODE_NOT_ASSIGNED && n < |temporaries|
    requires TemporariesOk(p.g, temporaries, |l.allocNode|) && t in temporaries[n] && 0 <= t < |l.allocNode|
    requires LifetimesOk(p, temporaries, l, frontier)
    ensures LifetimesOk(
              p, temporaries,
              Lifetimes(l.allocNode[t := n], if p.preserve then l.deallocNode else l.deallocNode[t := n]), frontier)
  {
    assert IsTemporary(temporaries, t);
    hide AllocSpec, DeallocSpec, FinalSharing;
  }

  /** A tensor the graph does not mention becomes a temporary of a later node. */
  lemma NewTemporaryKeepsLifetimes(
    p: Setting, temporaries: seq<seq<int>>, l: Lifetimes, frontier: int, n: nat, t: int)
    requires p.Valid() && |p.g.nodes| < NODE_NOT_ASSIGNED && frontier < n < |temporaries|
    requires LifetimesOk(p, temporaries, l, frontier) && !Mentioned(p.g, t) && !IsTemporary(temporaries, t)
    ensures LifetimesOk(p, temporaries[n := temporaries[n] + [t]], l, frontier)
  {
    NotMentioned(p, t);
    var after := temporaries[n := temporaries[n] + [t]];
    forall s | IsTemporary(temporaries, s)
      ensures IsTemporary(after, s)
    {
      var m :| 0 <= m < |temporaries| && s in temporaries[m];
      assert s in after[m];
    }
  }

  /** Going back to an earlier node. */
  lemma EarlierFrontier(p: Setting, temporaries: seq<seq<int>>, l: Lifetimes, frontier: int, node: int)
    requires p.Valid() && |p.g.nodes| < NODE_NOT_ASSIGNED
    requires LifetimesOk(p, temporaries, l, frontier) && node <= frontier
    ensures LifetimesOk(p, temporaries, l, node)
  {
    hide PlannedOk;
  }

  /** Node `n` follows the frontier, and all its temporaries have their lifetimes. */
  lemma LaterFrontier(p: Setting, temporaries: seq<seq<int>>, l: Lifetimes, n: nat)
    requires p.Valid() && |p.g.nodes| < NODE_NOT_ASSIGNED && n < |temporaries| < NODE_NOT_ASSIGNED
    requires LifetimesOk(p, temporaries, l, n - 1)
    requires forall k :: 0 <= k < |temporaries[n]| ==>
               0 <= temporaries[n][k] < |l.allocNode| && l.allocNode[temporaries[n][k]] == n
    ensures LifetimesOk(p, temporaries, l, n)
  {
    hide PlannedOk;
    forall m, t | 0 <= m < |temporaries| && t in temporaries[m]
      ensures TemporaryOk(l, p.preserve, n, m, t)
    {
      assert TemporaryOk(l, p.preserve, n - 1, m, t);
    }
  }

  /** Beyond the last node there are no temporaries. */
  lemma NoMoreTemporaries(p: Setting, temporaries: seq<seq<int>>, l: Lifetimes, frontier: int, last: int)
    requires p.Valid() && |p.g.nodes| < NODE_NOT_ASSIGNED && LifetimesOk(p, temporaries, l, frontier)
    requires last <= frontier || |temporaries| <= frontier + 1
    ensures LifetimesOk(p, temporaries, l, last)
  {
    hide PlannedOk;
    forall m, t | 0 <= m < |temporaries| && t in temporaries[m]
      ensures TemporaryOk(l, p.preserve, last, m, t)
    {
      assert TemporaryOk(l, p.preserve, frontier, m, t);
    }
  }

  /** Right after planning no temporary has its lifetime yet. */
  lemma FreshLifetimes(p: Setting, temporaries: seq<seq<int>>, l: Lifetimes, n: nat)
    requires p.Valid() && |p.g.nodes| < NODE_NOT_ASSIGNED && TemporariesOk(p.g, temporaries, n)
    requires |l.allocNode| == |l.deallocNode| == n && forall t :: 0 <= t < n ==> PlannedOk(p, l, t)
    ensures LifetimesOk(p, temporaries, l, -1)
  {
    forall m, t | 0 <= m < |temporaries| && t in temporaries[m]
      ensures TemporaryOk(l, p.preserve, -1, m, t)
    {
      NotMentioned(p, t);
      assert PlannedOk(p, l, t);
    }
  }

  /** First nodes are nodes, or none. */
  lemma NodesAreNotNegative(p: Setting, temporaries: seq<seq<int>>, l: Lifetimes, frontier: int)
    requires p.Valid() && |p.g.nodes| < NODE_NOT_ASSIGNED && LifetimesOk(p, temporaries, l, frontier)
    ensures forall t :: 0 <= t < |l.allocNode| ==> 0 <= l.allocNode[t]
  {
    forall t | 0 <= t < |l.allocNode|
      ensures 0 <= l.allocNode[t]
    {
      if n :| 0 <= n < |temporaries| && t in temporaries[n] {
        assert TemporaryOk(l, p.preserve, frontier, n, t);
      } else {
        assert PlannedOk(p, l, t);
      }
    }
  }

  /** The sharing still in force is part of the planned one. */
  ghost predicate SharingOk(p: Setting, actual: Sharing)
    requires p.Valid()
  {
    forall t :: t in actual ==> t in FinalSharing(p) && actual[t] == FinalSharing(p)[t]
  }

  /** The owner of a shared buffer has no lifetime at all, or one that starts no later than the sharing tensor's. */
  lemma OwnerLivesFirst(p: Setting, temporaries: seq<seq<int>>, l: Lifetimes, frontier: int, numTensors: nat, t: int)
    requires p.Valid() && p.g.WellFormed() && TemporariesOk(p.g, temporaries, numTensors)
    requires LifetimesOk(p, temporaries, l, frontier) && p.g.numTensors <= |l.allocNode|
    requires t in FinalSharing(p)
    ensures 0 <= t < |l.allocNode| && 0 <= FinalSharing(p)[t] < |l.allocNode|
    ensures var owner := l.allocNode[FinalSharing(p)[t]]; owner == NODE_NOT_ASSIGNED || owner <= l.allocNode[t]
  {
    var owner := FinalSharing(p)[t];
    var n := SharedAreOutputs(p, |p.g.nodes|, t);
    var m := OwnerIsRead(p, |p.g.nodes|, t);
    assert Mentioned(p.g, t) && Mentioned(p.g, owner);
    NoTemporary(p.g, temporaries, numTensors, t);
    NoTemporary(p.g, temporaries, numTensors, owner);
    assert PlannedOk(p, l, t) && PlannedOk(p, l, owner);
    if l.allocNode[owner] != NODE_NOT_ASSIGNED && !(owner in p.g.variables || owner in p.g.inputs) {
      OwnerIsOlder(p, |p.g.nodes|, t, FirstProducer(p.g, owner, 0), n);
    }
  }

  /** Buffers in use are owned by tensors that are not still to come. */
  lemma OwnersAreOld(p: Setting, temporaries: seq<seq<int>>, l: Lifetimes, last: int, numTensors: nat, actual: Sharing)
    requires p.Valid() && p.g.WellFormed() && TemporariesOk(p.g, temporaries, numTensors)
    requires LifetimesOk(p, temporaries, l, last) && p.g.numTensors <= |l.allocNode| && SharingOk(p, actual)
    ensures forall s :: s in actual ==> 0 <= s < |l.allocNode| && 0 <= actual[s] < |l.allocNode|
    ensures forall s :: s in actual ==>
              l.allocNode[actual[s]] == NODE_NOT_ASSIGNED || l.allocNode[actual[s]] <= l.allocNode[s]
  {
    hide LifetimesOk, TemporariesOk;
    forall s | s in actual
      ensures 0 <= s < |l.allocNode| && 0 <= actual[s] < |l.allocNode|
      ensures l.allocNode[actual[s]] == NODE_NOT_ASSIGNED || l.allocNode[actual[s]] <= l.allocNode[s]
    {
      OwnerLivesFirst(p, temporaries, l, last, numTensors, s);
    }
  }
}
