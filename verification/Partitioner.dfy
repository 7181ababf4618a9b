/** The graph partitioner: epochs of nodes and tensors, counters of control edges, node subsets. */
module Partitioner {
  import opened Common
  import opened GraphInfo
  import opened Schedule
  import Sorting

  /** A tensor or node that waits for its inputs. */
  const EPOCH_NOT_READY: int := -1
  /** A tensor no node of the plan computes. */
  const EPOCH_ALWAYS_READY: int := -2

  /** A subset while it is built; it has no kind until its first node arrives. */
  datatype NodeSubset = NodeSubset(kind: Option<Kind>, nodes: seq<int>, inputTensors: seq<int>, outputTensors: seq<int>)

  const EMPTY_SUBSET := NodeSubset(None, [], [], [])

  predicate EdgeLess(a: ControlEdge, b: ControlEdge) {
    a.0 < b.0 || (a.0 == b.0 && a.1 < b.1)
  }

  predicate IntLess(a: int, b: int) { a < b }

  /* ---- What the fields mean, in terms of the subsets scheduled so far ---- */

  /** Node epochs number the subsets; a computed tensor has the epoch of its producer. */
  ghost predicate EpochsMatch(g: Graph, sched: seq<seq<nat>>, nodeEpochs: seq<int>, tensorEpochs: seq<int>) {
    && |nodeEpochs| == |g.nodes| && |tensorEpochs| == g.numTensors
    && (forall n :: 0 <= n < |nodeEpochs| ==> EPOCH_NOT_READY <= nodeEpochs[n] < |sched|)
    && (forall n, e :: 0 <= n < |nodeEpochs| && 0 <= e < |sched| ==> (nodeEpochs[n] == e <==> n in sched[e]))
    && (forall t :: 0 <= t < g.numTensors && !g.Computed(t) ==> tensorEpochs[t] == EPOCH_ALWAYS_READY)
    && (forall n, t :: 0 <= n < |g.nodes| && 0 <= t < g.numTensors && g.Produces(n, t) ==>
          tensorEpochs[t] == nodeEpochs[n])
  }

  /** The unscheduled sources of control edges into `n`. */
  ghost function Pending(g: Graph, edges: seq<ControlEdge>, nodeEpochs: seq<int>, n: nat): set<nat>
    requires |nodeEpochs| == |g.nodes|
  {
    set m: nat | m < |g.nodes| && (m, n) in edges && nodeEpochs[m] == EPOCH_NOT_READY
  }

  ghost predicate CountersMatch(g: Graph, edges: seq<ControlEdge>, nodeEpochs: seq<int>, counters: seq<int>)
    requires |nodeEpochs| == |g.nodes|
  {
    && |counters| == |g.nodes|
    && forall n :: 0 <= n < |g.nodes| ==> counters[n] == |Pending(g, edges, nodeEpochs, n)|
  }

  /** A node of subset `e` reads `t`, which that subset does not compute. */
  ghost predicate Imports(g: Graph, sched: seq<seq<nat>>, tensorEpochs: seq<int>, e: nat, t: int)
    requires |tensorEpochs| == g.numTensors && e < |sched|
  {
    g.IsTensor(t) && tensorEpochs[t] != e && exists n :: n in sched[e] && n < |g.nodes| && g.Reads(n, t)
  }

  /** A node of another subset reads `t`, which subset `e` computes. */
  ghost predicate Exports(g: Graph, nodeEpochs: seq<int>, tensorEpochs: seq<int>, e: nat, t: int)
    requires |tensorEpochs| == g.numTensors && |nodeEpochs| == |g.nodes|
  {
    g.IsTensor(t) && tensorEpochs[t] == e
    && exists n :: 0 <= n < |g.nodes| && nodeEpochs[n] != EPOCH_NOT_READY && nodeEpochs[n] != e && g.Reads(n, t)
  }

  ghost predicate BoundariesMatch(
    g: Graph, sched: seq<seq<nat>>, nodeEpochs: seq<int>, tensorEpochs: seq<int>, subsets: seq<NodeSubset>)
    requires |tensorEpochs| == g.numTensors && |nodeEpochs| == |g.nodes| && |subsets| == |sched|
  {
    forall e :: 0 <= e < |sched| ==>
      && (forall t :: t in subsets[e].inputTensors <==> Imports(g, sched, tensorEpochs, e, t))
      && (forall t :: t in subsets[e].outputTensors <==> Exports(g, nodeEpochs, tensorEpochs, e, t))
  }

  ghost function OriginalIndices(g: Graph, nodes: seq<nat>): (r: seq<int>)
    requires |g.nodeIndex| == |g.nodes| && AreNodes(g, nodes)
    ensures |r| == |nodes| && forall i :: 0 <= i < |r| ==> r[i] == g.nodeIndex[nodes[i]]
  {
    seq(|nodes|, i requires 0 <= i < |nodes| => g.nodeIndex[nodes[i]])
  }

  ghost predicate AreNodes(g: Graph, nodes: seq<nat>) {
    forall i :: 0 <= i < |nodes| ==> nodes[i] < |g.nodes|
  }

  /** The nodes and the kind of each subset. */
  ghost predicate SubsetsMatch(g: Graph, p: Problem, sched: seq<seq<nat>>, subsets: seq<NodeSubset>)
    requires |g.nodeIndex| == |g.nodes| == |p.kinds|
  {
    && |subsets| == |sched|
    && (forall e :: 0 <= e < |sched| ==> AreNodes(g, sched[e]))
    && (forall e :: 0 <= e < |sched| ==>
          && subsets[e].nodes == OriginalIndices(g, sched[e])
          && subsets[e].kind == if sched[e] == [] then None else Some(p.kinds[sched[e][0]]))
  }

  /** What the partitioner relies on; the indices are validated or guaranteed by the graph's builder. */
  ghost predicate Usable(g: Graph, edges: seq<ControlEdge>) {
    && g.IndicesInRange() && g.UniqueProducers()
    && (forall t :: t in g.outputs ==> g.IsTensor(t))
    && |g.nodeIndex| == |g.nodes| && (forall n :: 0 <= n < |g.nodes| ==> g.nodeIndex[n] < g.numTotalNodes)
    && (forall e :: e in edges ==> 0 <= e.0 < |g.nodes| && 0 <= e.1 < |g.nodes|)
  }

  /* ---- One node joins ---- */

  lemma PendingShrinks(g: Graph, edges: seq<ControlEdge>, nodeEpochs: seq<int>, n: nat, epoch: int, m: nat)
    requires |nodeEpochs| == |g.nodes| && n < |g.nodes| && nodeEpochs[n] == EPOCH_NOT_READY && epoch != EPOCH_NOT_READY
    ensures |Pending(g, edges, nodeEpochs[n := epoch], m)|
            == |Pending(g, edges, nodeEpochs, m)| - if (n, m) in edges then 1 else 0
  {
    var before, after := Pending(g, edges, nodeEpochs, m), Pending(g, edges, nodeEpochs[n := epoch], m);
    if (n, m) in edges {
      assert n in before && after == before - {n};
    } else {
      assert after == before;
    }
  }

  /** A node is ready exactly when no input waits and no control edge is pending. */
  lemma ReadyMeans(g: Graph, edges: seq<ControlEdge>, p: Problem, sched: seq<seq<nat>>,
                   nodeEpochs: seq<int>, tensorEpochs: seq<int>, n: nat)
    requires Usable(g, edges) && n < |g.nodes| == |p.deps| && p.deps[n] == DepsOf(g, edges, n)
    requires EpochsMatch(g, sched, nodeEpochs, tensorEpochs)
    ensures Ready(p, Flatten(sched), n) <==>
            && nodeEpochs[n] == EPOCH_NOT_READY
            && (forall t :: g.Reads(n, t) ==> tensorEpochs[t] != EPOCH_NOT_READY)
            && Pending(g, edges, nodeEpochs, n) == {}
  {
    forall m | 0 <= m < |g.nodes| ensures m in Flatten(sched) <==> nodeEpochs[m] != EPOCH_NOT_READY {
      ScheduledMeans(g, sched, nodeEpochs, tensorEpochs, m);
    }
    if Ready(p, Flatten(sched), n) {
      forall t | g.Reads(n, t) ensures tensorEpochs[t] != EPOCH_NOT_READY {
        if g.Computed(t) {
          var m :| 0 <= m < |g.nodes| && g.Produces(m, t);
          assert g.Feeds(m, n);
          assert m in p.deps[n];
        }
      }
      assert Pending(g, edges, nodeEpochs, n) <= p.deps[n];
      assert forall m :: m !in Pending(g, edges, nodeEpochs, n);
    } else if nodeEpochs[n] == EPOCH_NOT_READY {
      var m :| m in p.deps[n] && m !in Flatten(sched);
      if g.Feeds(m, n) {
        var t :| g.Produces(m, t) && g.Reads(n, t);
        assert tensorEpochs[t] == nodeEpochs[m];
      } else {
        assert m in Pending(g, edges, nodeEpochs, n);
      }
    }
  }

  lemma ScheduledMeans(g: Graph, sched: seq<seq<nat>>, nodeEpochs: seq<int>, tensorEpochs: seq<int>, n: nat)
    requires EpochsMatch(g, sched, nodeEpochs, tensorEpochs) && n < |g.nodes|
    ensures n in Flatten(sched) <==> nodeEpochs[n] != EPOCH_NOT_READY
  {
    InFlatten(sched, n);
    if nodeEpochs[n] != EPOCH_NOT_READY {
      assert n in sched[nodeEpochs[n]];
    }
  }

  /** The schedule after node `n` has joined its last subset. */
  ghost function Joined(sched: seq<seq<nat>>, n: nat): seq<seq<nat>>
    requires sched != []
  {
    sched[|sched| - 1 := sched[|sched| - 1] + [n]]
  }

  lemma EpochsStep(
    g: Graph, edges: seq<ControlEdge>, sched: seq<seq<nat>>, nodeEpochs: seq<int>, tensorEpochs: seq<int>,
                   n: nat, tensorEpochs': seq<int>)
    requires Usable(g, edges) && EpochsMatch(g, sched, nodeEpochs, tensorEpochs) && sched != []
    requires n < |g.nodes| && nodeEpochs[n] == EPOCH_NOT_READY && |tensorEpochs'| == g.numTensors
    requires forall t :: 0 <= t < g.numTensors ==>
               tensorEpochs'[t] == if g.Produces(n, t) then |sched| - 1 else tensorEpochs[t]
    ensures EpochsMatch(g, Joined(sched, n), nodeEpochs[n := |sched| - 1], tensorEpochs')
  {
    var sched', nodeEpochs' := Joined(sched, n), nodeEpochs[n := |sched| - 1];
    forall m, t | 0 <= m < |g.nodes| && 0 <= t < g.numTensors && g.Produces(m, t)
      ensures tensorEpochs'[t] == nodeEpochs'[m]
    {
      assert g.Produces(n, t) ==> m == n;
    }
    forall t | 0 <= t < g.numTensors && !g.Computed(t) ensures tensorEpochs'[t] == EPOCH_ALWAYS_READY {
      assert !g.Produces(n, t);
    }
  }

  /** Scheduled nodes read tensors that are there. */
  ghost predicate ReadsReady(g: Graph, nodeEpochs: seq<int>, tensorEpochs: seq<int>)
    requires |tensorEpochs| == g.numTensors && |nodeEpochs| == |g.nodes| && g.IndicesInRange()
  {
    forall n, t :: 0 <= n < |g.nodes| && nodeEpochs[n] != EPOCH_NOT_READY && g.Reads(n, t) ==>
      tensorEpochs[t] != EPOCH_NOT_READY
  }

  /** What is recorded about the inputs `seen` of the node that joins subset `last`. */
  ghost predicate InputsRecorded(
    g: Graph, seen: seq<int>, last: nat, tensorEpochs: seq<int>, before: seq<NodeSubset>, after: seq<NodeSubset>)
    requires |tensorEpochs| == g.numTensors
  {
    && |before| == |after|
    && forall e :: 0 <= e < |before| ==>
         && before[e].nodes == after[e].nodes && before[e].kind == after[e].kind
         && (forall t :: t in after[e].inputTensors <==>
               t in before[e].inputTensors || (e == last && t in seen && g.IsTensor(t) && tensorEpochs[t] != e))
         && (forall t :: t in after[e].outputTensors <==>
               t in before[e].outputTensors || (e != last && t in seen && g.IsTensor(t) && tensorEpochs[t] == e))
  }

  /** Recording one more input. */
  lemma RecordStep(g: Graph, seen: seq<int>, t: int, last: nat, tensorEpochs: seq<int>,
                   before: seq<NodeSubset>, mid: seq<NodeSubset>, after: seq<NodeSubset>)
    requires |tensorEpochs| == g.numTensors && g.IsTensor(t)
    requires InputsRecorded(g, seen, last, tensorEpochs, before, mid)
    requires InputsRecorded(g, [t], last, tensorEpochs, mid, after)
    ensures InputsRecorded(g, seen + [t], last, tensorEpochs, before, after)
  {
  }

  lemma BoundariesStep(
    g: Graph, edges: seq<ControlEdge>, sched: seq<seq<nat>>, nodeEpochs: seq<int>, tensorEpochs: seq<int>,
                       n: nat, tensorEpochs': seq<int>, before: seq<NodeSubset>, after: seq<NodeSubset>)
    requires Usable(g, edges) && EpochsMatch(g, sched, nodeEpochs, tensorEpochs) && sched != []
    requires ReadsReady(g, nodeEpochs, tensorEpochs)
    requires n < |g.nodes| && nodeEpochs[n] == EPOCH_NOT_READY && |tensorEpochs'| == g.numTensors
    requires forall t :: g.Reads(n, t) ==> tensorEpochs[t] != EPOCH_NOT_READY
    requires forall t :: 0 <= t < g.numTensors ==>
               tensorEpochs'[t] == if g.Produces(n, t) then |sched| - 1 else tensorEpochs[t]
    requires |before| == |sched| && BoundariesMatch(g, sched, nodeEpochs, tensorEpochs, before)
    requires InputsRecorded(g, g.nodes[n].inputs, |sched| - 1, tensorEpochs', before, after)
    ensures BoundariesMatch(g, Joined(sched, n), nodeEpochs[n := |sched| - 1], tensorEpochs', after)
    ensures ReadsReady(g, nodeEpochs[n := |sched| - 1], tensorEpochs')
  {
    var last := |sched| - 1;
    var sched', nodeEpochs' := Joined(sched, n), nodeEpochs[n := last];
    forall k, t | 0 <= k < |g.nodes| && nodeEpochs'[k] != EPOCH_NOT_READY && g.Reads(k, t)
      ensures !g.Produces(n, t)
    {
      assert g.IsTensor(t);
    }
    forall e, t | 0 <= e < |sched|
      ensures t in after[e].inputTensors <==> Imports(g, sched', tensorEpochs', e, t)
    {
      ImportsStep(g, sched, nodeEpochs, tensorEpochs, n, tensorEpochs', e, t);
    }
    forall e, t | 0 <= e < |sched|
      ensures t in after[e].outputTensors <==> Exports(g, nodeEpochs', tensorEpochs', e, t)
    {
      ExportsStep(g, sched, nodeEpochs, tensorEpochs, n, tensorEpochs', e, t);
    }
  }

  lemma ImportsStep(g: Graph, sched: seq<seq<nat>>, nodeEpochs: seq<int>, tensorEpochs: seq<int>,
                    n: nat, tensorEpochs': seq<int>, e: nat, t: int)
    requires EpochsMatch(g, sched, nodeEpochs, tensorEpochs) && e < |sched| && n < |g.nodes|
    requires |tensorEpochs'| == g.numTensors
    requires forall t :: 0 <= t < g.numTensors ==>
               tensorEpochs'[t] == if g.Produces(n, t) then |sched| - 1 else tensorEpochs[t]
    requires forall k, t ::
               && 0 <= k < |g.nodes| && nodeEpochs[n := |sched| - 1][k] != EPOCH_NOT_READY
               && g.Reads(k, t) ==>
               !g.Produces(n, t)
    ensures Imports(g, Joined(sched, n), tensorEpochs', e, t) <==>
            Imports(g, sched, tensorEpochs, e, t)
            || (e == |sched| - 1 && g.Reads(n, t) && g.IsTensor(t) && tensorEpochs'[t] != e)
  {
    var sched' := Joined(sched, n);
    if Imports(g, sched', tensorEpochs', e, t) {
      var k :| k in sched'[e] && k < |g.nodes| && g.Reads(k, t);
      assert k != n ==> k in sched[e];
    }
    if Imports(g, sched, tensorEpochs, e, t) {
      var k :| k in sched[e] && k < |g.nodes| && g.Reads(k, t);
      assert k in sched'[e];
      assert nodeEpochs[k] == e;
    }
    if e == |sched| - 1 && g.Reads(n, t) {
      assert n in sched'[e];
    }
  }

  lemma ExportsStep(g: Graph, sched: seq<seq<nat>>, nodeEpochs: seq<int>, tensorEpochs: seq<int>,
                    n: nat, tensorEpochs': seq<int>, e: nat, t: int)
    requires EpochsMatch(g, sched, nodeEpochs, tensorEpochs) && e < |sched| && n < |g.nodes|
    requires |tensorEpochs'| == g.numTensors && nodeEpochs[n] == EPOCH_NOT_READY
    requires forall t :: 0 <= t < g.numTensors ==>
               tensorEpochs'[t] == if g.Produces(n, t) then |sched| - 1 else tensorEpochs[t]
    requires forall k, t ::
               && 0 <= k < |g.nodes| && nodeEpochs[n := |sched| - 1][k] != EPOCH_NOT_READY
               && g.Reads(k, t) ==>
               !g.Produces(n, t)
    ensures Exports(g, nodeEpochs[n := |sched| - 1], tensorEpochs', e, t) <==>
            Exports(g, nodeEpochs, tensorEpochs, e, t)
            || (e != |sched| - 1 && g.Reads(n, t) && g.IsTensor(t) && tensorEpochs'[t] == e)
  {
    var nodeEpochs' := nodeEpochs[n := |sched| - 1];
    if Exports(g, nodeEpochs, tensorEpochs, e, t) {
      var k :| 0 <= k < |g.nodes| && nodeEpochs[k] != EPOCH_NOT_READY && nodeEpochs[k] != e && g.Reads(k, t);
      assert nodeEpochs'[k] == nodeEpochs[k];
    }
    if Exports(g, nodeEpochs', tensorEpochs', e, t) {
      var k :| 0 <= k < |g.nodes| && nodeEpochs'[k] != EPOCH_NOT_READY && nodeEpochs'[k] != e && g.Reads(k, t);
      assert k != n ==> nodeEpochs'[k] == nodeEpochs[k];
    }
    if e != |sched| - 1 && g.Reads(n, t) {
      assert nodeEpochs'[n] == |sched| - 1;
    }
  }

  lemma SubsetsStep(g: Graph, p: Problem, sched: seq<seq<nat>>, before: seq<NodeSubset>, n: nat, after: seq<NodeSubset>)
    requires |g.nodeIndex| == |g.nodes| == |p.kinds| && n < |g.nodes| && sched != []
    requires SubsetsMatch(g, p, sched, before) && |after| == |before|
    requires forall e :: 0 <= e < |sched| - 1 ==> after[e].nodes == before[e].nodes && after[e].kind == before[e].kind
    requires var last := |sched| - 1;
             && after[last].nodes == before[last].nodes + [g.nodeIndex[n]] && after[last].kind == Some(p.kinds[n])
             && (before[last].kind.Some? ==> before[last].kind == Some(p.kinds[n]))
    ensures SubsetsMatch(g, p, Joined(sched, n), after)
  {
    var last := |sched| - 1;
    assert AreNodes(g, sched[last]);
    assert OriginalIndices(g, sched[last] + [n]) == OriginalIndices(g, sched[last]) + [g.nodeIndex[n]];
  }

  /** The mutable part of the partitioner. */
  datatype Progress = Progress(
    sched: seq<seq<nat>>, nodeEpochs: seq<int>, tensorEpochs: seq<int>, counters: seq<int>, subsets: seq<NodeSubset>)

  ghost predicate Consistent(g: Graph, edges: seq<ControlEdge>, p: Problem, s: Progress)
    requires Usable(g, edges) && |g.nodes| == |p.kinds|
  {
    && EpochsMatch(g, s.sched, s.nodeEpochs, s.tensorEpochs)
    && CountersMatch(g, edges, s.nodeEpochs, s.counters)
    && SubsetsMatch(g, p, s.sched, s.subsets)
    && BoundariesMatch(g, s.sched, s.nodeEpochs, s.tensorEpochs, s.subsets)
    && ReadsReady(g, s.nodeEpochs, s.tensorEpochs)
  }

  /** The current subset with node `n` added, before its inputs are recorded. */
  ghost function WithNode(g: Graph, p: Problem, subsets: seq<NodeSubset>, n: nat): seq<NodeSubset>
    requires |g.nodeIndex| == |g.nodes| == |p.kinds| && n < |g.nodes| && subsets != []
  {
    var last := |subsets| - 1;
    subsets[last := subsets[last].(kind := Some(p.kinds[n]), nodes := subsets[last].nodes + [g.nodeIndex[n]])]
  }

  /** `after` is `before` with the schedulable node `n` added to the current subset. */
  ghost predicate JoinedState(g: Graph, edges: seq<ControlEdge>, p: Problem, before: Progress, n: nat, after: Progress)
    requires |g.nodeIndex| == |g.nodes| == |p.kinds| && n < |g.nodes|
  {
    && before.sched != [] && |before.subsets| == |before.sched| && |before.nodeEpochs| == |g.nodes|
    && |before.tensorEpochs| == |after.tensorEpochs| == g.numTensors
    && |before.counters| == |after.counters| == |g.nodes|
    && after.sched == Joined(before.sched, n)
    && after.nodeEpochs == before.nodeEpochs[n := |before.sched| - 1]
    && (forall t :: 0 <= t < g.numTensors ==>
          after.tensorEpochs[t] == if g.Produces(n, t) then |before.sched| - 1 else before.tensorEpochs[t])
    && InputsRecorded(g, g.nodes[n].inputs, |before.sched| - 1, after.tensorEpochs, WithNode(g, p, before.subsets, n),
                      after.subsets)
    && (forall m :: 0 <= m < |g.nodes| ==> after.counters[m] == before.counters[m] - if (n, m) in edges then 1 else 0)
  }

  lemma SameTensorsSameBoundaries(g: Graph, sched: seq<seq<nat>>, nodeEpochs: seq<int>, tensorEpochs: seq<int>,
                                  a: seq<NodeSubset>, b: seq<NodeSubset>)
    requires |tensorEpochs| == g.numTensors && |nodeEpochs| == |g.nodes| && |a| == |b| == |sched|
    requires BoundariesMatch(g, sched, nodeEpochs, tensorEpochs, a)
    requires forall e :: 0 <= e < |a| ==>
               a[e].inputTensors == b[e].inputTensors && a[e].outputTensors == b[e].outputTensors
    ensures BoundariesMatch(g, sched, nodeEpochs, tensorEpochs, b)
  {
  }

  lemma JoinBoundaries(g: Graph, edges: seq<ControlEdge>, p: Problem, before: Progress, n: nat, after: Progress)
    requires Usable(g, edges) && |g.nodes| == |p.kinds| && n < |g.nodes|
    requires JoinedState(g, edges, p, before, n, after) && before.nodeEpochs[n] == EPOCH_NOT_READY
    requires EpochsMatch(g, before.sched, before.nodeEpochs, before.tensorEpochs)
    requires BoundariesMatch(g, before.sched, before.nodeEpochs, before.tensorEpochs, before.subsets)
    requires ReadsReady(g, before.nodeEpochs, before.tensorEpochs)
    requires forall t :: g.Reads(n, t) ==> before.tensorEpochs[t] != EPOCH_NOT_READY
    ensures BoundariesMatch(g, after.sched, after.nodeEpochs, after.tensorEpochs, after.subsets)
    ensures ReadsReady(g, after.nodeEpochs, after.tensorEpochs)
  {
    assert |g.nodeIndex| == |g.nodes|;
    hide EpochsMatch, BoundariesMatch, ReadsReady, Usable, InputsRecorded;
    var subsets1 := WithNode(g, p, before.subsets, n);
    SameTensorsSameBoundaries(g, before.sched, before.nodeEpochs, before.tensorEpochs, before.subsets, subsets1);
    BoundariesStep(g, edges, before.sched, before.nodeEpochs, before.tensorEpochs, n, after.tensorEpochs, subsets1,
                   after.subsets);
  }

  lemma JoinCounters(g: Graph, edges: seq<ControlEdge>, p: Problem, before: Progress, n: nat, after: Progress)
    requires |g.nodeIndex| == |g.nodes| == |p.kinds| && n < |g.nodes|
    requires JoinedState(g, edges, p, before, n, after) && before.nodeEpochs[n] == EPOCH_NOT_READY
    requires CountersMatch(g, edges, before.nodeEpochs, before.counters)
    ensures CountersMatch(g, edges, after.nodeEpochs, after.counters)
  {
    forall m | 0 <= m < |g.nodes| ensures after.counters[m] == |Pending(g, edges, after.nodeEpochs, m)| {
      PendingShrinks(g, edges, before.nodeEpochs, n, |before.sched| - 1, m);
    }
  }

  lemma JoinKeepsConsistent(g: Graph, edges: seq<ControlEdge>, p: Problem, before: Progress, n: nat, after: Progress)
    requires Usable(g, edges) && |g.nodes| == |p.kinds| && n < |g.nodes|
    requires Consistent(g, edges, p, before) && JoinedState(g, edges, p, before, n, after)
    requires before.nodeEpochs[n] == EPOCH_NOT_READY
    requires forall t :: g.Reads(n, t) ==> before.tensorEpochs[t] != EPOCH_NOT_READY
    requires var last := before.subsets[|before.sched| - 1]; last.kind.None? || last.kind == Some(p.kinds[n])
    ensures Consistent(g, edges, p, after)
  {
    EpochsStep(g, edges, before.sched, before.nodeEpochs, before.tensorEpochs, n, after.tensorEpochs);
    JoinBoundaries(g, edges, p, before, n, after);
    JoinCounters(g, edges, p, before, n, after);
    SubsetsStep(g, p, before.sched, before.subsets, n, after.subsets);
  }

  lemma EdgeLessIsOrder()
    ensures Sorting.StrictTotalOrder(EdgeLess)
  {
  }

  lemma EdgeIsNew(edges: seq<ControlEdge>, first: nat, i: nat)
    requires Sorting.StrictlyAscending(EdgeLess, edges) && first <= i < |edges|
    ensures edges[i] !in edges[first..i]
  {
    forall j | 0 <= j < i ensures edges[j] != edges[i] {
      assert EdgeLess(edges[j], edges[i]);
    }
  }

  /** The control edges out of `n` stand together in the sorted list. */
  lemma EdgesFrom(edges: seq<ControlEdge>, n: nat, first: nat, last: nat)
    requires Sorting.StrictlyAscending(EdgeLess, edges) && first <= last <= |edges|
    requires forall j :: 0 <= j < first ==> edges[j].0 < n
    requires last < |edges| ==> edges[last].0 > n
    ensures forall m: nat :: (n, m) in edges <==> (n, m) in edges[first..last]
  {
    forall j | last <= j < |edges| ensures edges[j].0 > n {
      assert j > last ==> EdgeLess(edges[last], edges[j]);
    }
    forall m: nat | (n, m) in edges ensures (n, m) in edges[first..last] {
      var j :| 0 <= j < |edges| && edges[j] == (n, m);
      assert edges[first..last][j - first] == (n, m);
    }
  }

  class PartitionerImpl {
    const graph: Graph
    const greedily: bool
    const disableNodeFusion: bool
    /** Kinds of all nodes of the graph, in the execution plan or not. */
    const nodeType: seq<Kind>
    /** Sorted and without duplicates. */
    const controlEdges: seq<ControlEdge>
    var nodeSubsets: seq<NodeSubset>
    var tensorEpochs: seq<int>
    var nodeEpochs: seq<int>
    var numIncomingControlEdges: seq<int>

    /** The scheduling problem being solved. */
    ghost const problem: Problem
    /** The nodes of each subset, as positions in the execution plan. */
    ghost var sched: seq<seq<nat>>

    /** Stores kinds per node and sorts the control edges. */
    constructor (
      graph: Graph, nodesToPartition: seq<int>, greedily: bool, edges: seq<ControlEdge>, disableNodeFusion: bool)
      requires Usable(graph, edges)
      requires forall n :: n in nodesToPartition ==> 0 <= n < graph.numTotalNodes
      ensures Wired() && this.graph == graph && this.greedily == greedily
      ensures problem == ProblemOf(graph, edges, nodesToPartition, !disableNodeFusion)
    {
      EdgeLessIsOrder();
      var types := seq(graph.numTotalNodes, _ => NotDelegated);
      var i := 0;
      while i < |nodesToPartition|
        invariant 0 <= i <= |nodesToPartition| && |types| == graph.numTotalNodes
        invariant forall n :: 0 <= n < |types| ==>
                    types[n] == if n in nodesToPartition[..i] then Delegated else NotDelegated
      {
        assert nodesToPartition[i] in nodesToPartition;
        assert nodesToPartition[..i + 1] == nodesToPartition[..i] + [nodesToPartition[i]];
        types := types[nodesToPartition[i] := Delegated];
        i := i + 1;
      }
      assert nodesToPartition[..i] == nodesToPartition;
      var sorted := Sorting.Uniquefy(edges, EdgeLess);
      this.graph, this.greedily, this.disableNodeFusion := graph, greedily, disableNodeFusion;
      nodeType, controlEdges := types, sorted;
      nodeSubsets, tensorEpochs, nodeEpochs, numIncomingControlEdges := [], [], [], [];
      problem := ProblemOf(graph, edges, nodesToPartition, !disableNodeFusion);
      sched := [];
      ProblemIsValid(graph, edges, nodesToPartition, !disableNodeFusion);
      assert forall n :: 0 <= n < |graph.nodes| ==> DepsOf(graph, edges, n) == DepsOf(graph, sorted, n);
    }

    /** What never changes after construction. */
    ghost predicate Wired() {
      && Usable(graph, controlEdges)
      && Sorting.StrictlyAscending(EdgeLess, controlEdges)
      && problem.Valid() && problem.Size() == |graph.nodes| && problem.fuse == !disableNodeFusion
      && |nodeType| == graph.numTotalNodes
      && forall n :: 0 <= n < |graph.nodes| ==>
           problem.deps[n] == DepsOf(graph, controlEdges, n) && problem.kinds[n] == nodeType[graph.nodeIndex[n]]
    }

    /** The invariant between node updates. */
    ghost function State(): Progress
      reads this
    {
      Progress(sched, nodeEpochs, tensorEpochs, numIncomingControlEdges, nodeSubsets)
    }

    ghost predicate Valid()
      reads this
    {
      Wired() && Consistent(graph, controlEdges, problem, State())
    }

    /** Whether every present input of the node has its epoch. */
    method InputsReady(n: nat) returns (ready: bool)
      requires Wired() && n < |graph.nodes| && |tensorEpochs| == graph.numTensors
      ensures ready <==> forall t :: graph.Reads(n, t) ==> tensorEpochs[t] != EPOCH_NOT_READY
    {
      NodeTensors(graph, n);
      var inputs := graph.nodes[n].inputs;
      var j := 0;
      while j < |inputs|
        invariant 0 <= j <= |inputs|
        invariant forall i :: 0 <= i < j && inputs[i] != OPTIONAL_TENSOR ==> tensorEpochs[inputs[i]] != EPOCH_NOT_READY
      {
        if inputs[j] != OPTIONAL_TENSOR && tensorEpochs[inputs[j]] == EPOCH_NOT_READY {
          assert graph.Reads(n, inputs[j]);
          return false;
        }
        j := j + 1;
      }
      return true;
    }

    /** Gives the node's outputs the epoch of the subset it joined. */
    method MarkOutputs(n: nat, epoch: int)
      requires Wired() && n < |graph.nodes| && |tensorEpochs| == graph.numTensors
      modifies this`tensorEpochs
      ensures |tensorEpochs| == graph.numTensors
      ensures forall t :: 0 <= t < graph.numTensors ==>
                tensorEpochs[t] == if graph.Produces(n, t) then epoch else old(tensorEpochs[t])
    {
      NodeTensors(graph, n);
      var outputs := graph.nodes[n].outputs;
      var j := 0;
      while j < |outputs|
        invariant 0 <= j <= |outputs| && |tensorEpochs| == graph.numTensors
        invariant forall t :: 0 <= t < graph.numTensors ==>
                    tensorEpochs[t] == if t in outputs[..j] then epoch else old(tensorEpochs[t])
      {
        assert outputs[..j + 1] == outputs[..j] + [outputs[j]];
        if outputs[j] != OPTIONAL_TENSOR {
          tensorEpochs := tensorEpochs[outputs[j] := epoch];
        }
        j := j + 1;
      }
      assert outputs[..j] == outputs;
    }

    /** Adds the inputs the node takes from elsewhere to its subset, and to the outputs of theirs. */
    method RecordInputs(n: nat, epoch: nat)
      requires Wired() && n < |graph.nodes| && |tensorEpochs| == graph.numTensors
      requires epoch + 1 == |nodeSubsets| && forall t :: 0 <= t < graph.numTensors ==> tensorEpochs[t] <= epoch
      modifies this`nodeSubsets
      ensures InputsRecorded(graph, graph.nodes[n].inputs, epoch, tensorEpochs, old(nodeSubsets), nodeSubsets)
    {
      NodeTensors(graph, n);
      var inputs := graph.nodes[n].inputs;
      ghost var before := nodeSubsets;
      var j := 0;
      while j < |inputs|
        invariant 0 <= j <= |inputs| && |nodeSubsets| == |before|
        invariant InputsRecorded(graph, inputs[..j], epoch, tensorEpochs, before, nodeSubsets)
      {
        assert inputs[..j + 1] == inputs[..j] + [inputs[j]];
        if inputs[j] != OPTIONAL_TENSOR {
          ghost var mid := nodeSubsets;
          RecordInput(inputs[j], epoch);
          RecordStep(graph, inputs[..j], inputs[j], epoch, tensorEpochs, before, mid, nodeSubsets);
        }
        j := j + 1;
      }
      assert inputs[..j] == inputs;
    }

    method RecordInput(t: int, epoch: nat)
      requires graph.IsTensor(t) && |tensorEpochs| == graph.numTensors
      requires epoch + 1 == |nodeSubsets| && tensorEpochs[t] <= epoch
      modifies this`nodeSubsets
      ensures InputsRecorded(graph, [t], epoch, tensorEpochs, old(nodeSubsets), nodeSubsets)
    {
      var inputEpoch := tensorEpochs[t];
      if inputEpoch != epoch {
        var current := nodeSubsets[epoch];
        nodeSubsets := nodeSubsets[epoch := current.(inputTensors := current.inputTensors + [t])];
        if inputEpoch >= 0 {
          var source := nodeSubsets[inputEpoch];
          nodeSubsets := nodeSubsets[inputEpoch := source.(outputTensors := source.outputTensors + [t])];
        }
      }
    }

    /** First control edge that is not below `(n, 0)`. */
    method LowerBound(n: nat) returns (i: nat)
      requires Wired()
      ensures i <= |controlEdges|
      ensures forall j :: 0 <= j < i ==> controlEdges[j].0 < n
      ensures forall j :: i <= j < |controlEdges| ==> controlEdges[j].0 >= n
    {
      i := 0;
      while i < |controlEdges| && EdgeLess(controlEdges[i], (n, 0))
        invariant 0 <= i <= |controlEdges|
        invariant forall j :: 0 <= j < i ==> controlEdges[j].0 < n
      {
        assert controlEdges[i] in controlEdges;
        i := i + 1;
      }
      if i < |controlEdges| {
        assert forall j :: i < j < |controlEdges| ==> EdgeLess(controlEdges[i], controlEdges[j]);
      }
    }

    /** Removes the node as a precondition of the nodes its control edges lead to. */
    method ReleaseSuccessors(n: nat)
      requires Wired() && n < |graph.nodes| && |numIncomingControlEdges| == |graph.nodes|
      modifies this`numIncomingControlEdges
      ensures |numIncomingControlEdges| == |graph.nodes|
      ensures forall m :: 0 <= m < |graph.nodes| ==>
                numIncomingControlEdges[m] == old(numIncomingControlEdges[m]) - if (n, m) in controlEdges then 1 else 0
    {
      var first := LowerBound(n);
      var i := first;
      while i < |controlEdges| && controlEdges[i].0 == n
        invariant first <= i <= |controlEdges| && |numIncomingControlEdges| == |graph.nodes|
        invariant forall m :: 0 <= m < |graph.nodes| ==>
                    numIncomingControlEdges[m] ==
                    old(numIncomingControlEdges[m]) - if (n, m) in controlEdges[first..i] then 1 else 0
      {
        var target := controlEdges[i].1;
        assert controlEdges[i] in controlEdges;
        assert controlEdges[first..i + 1] == controlEdges[first..i] + [controlEdges[i]];
        EdgeIsNew(controlEdges, first, i);
        numIncomingControlEdges := numIncomingControlEdges[target := numIncomingControlEdges[target] - 1];
        i := i + 1;
      }
      EdgesFrom(controlEdges, n, first, i);
    }

    /** The subsets that are complete, in sequence. */
    ghost function Done(): seq<nat>
      reads this
      requires sched != []
    {
      Flatten(sched[..|sched| - 1])
    }

    /** The subset being built. */
    ghost function Current(): seq<nat>
      reads this
      requires sched != []
    {
      sched[|sched| - 1]
    }

    lemma CanJoinMeans(n: nat)
      requires Valid() && sched != [] && n < |graph.nodes|
      ensures CanJoin(problem, Done(), Current(), n) <==>
              && (disableNodeFusion ==> nodeSubsets[|sched| - 1].nodes == [])
              && nodeEpochs[n] == EPOCH_NOT_READY
              && (forall t :: graph.Reads(n, t) ==> tensorEpochs[t] != EPOCH_NOT_READY)
              && numIncomingControlEdges[n] == 0
              && (nodeSubsets[|sched| - 1].kind.None?
                  || nodeSubsets[|sched| - 1].kind == Some(nodeType[graph.nodeIndex[n]]))
    {
      var last := |sched| - 1;
      assert sched == sched[..last] + [sched[last]];
      FlattenAppend(sched[..last], sched[last]);
      ReadyMeans(graph, controlEdges, problem, sched, nodeEpochs, tensorEpochs, n);
      assert sched[last] != [] ==> sched[last][0] < |graph.nodes|;
    }

    /** Adds node `n` to the current subset if it may join it now. */
    method UpdateNode(n: nat) returns (updated: bool)
      requires Valid() && sched != [] && n < |graph.nodes|
      modifies this
      ensures Valid()
      ensures updated <==> old(CanJoin(problem, Done(), Current(), n))
      ensures sched == if updated then Joined(old(sched), n) else old(sched)
    {
      CanJoinMeans(n);
      var last := |nodeSubsets| - 1;
      if disableNodeFusion && nodeSubsets[last].nodes != [] {
        return false;
      }
      if nodeEpochs[n] != EPOCH_NOT_READY {
        return false;
      }
      var ready := InputsReady(n);
      if !ready {
        return false;
      }
      if numIncomingControlEdges[n] != 0 {
        return false;
      }
      var original := graph.nodeIndex[n];
      if nodeSubsets[last].kind.Some? && nodeSubsets[last].kind != Some(nodeType[original]) {
        return false;
      }
      JoinNode(n);
      return true;
    }

    /** The part of `UpdateNode` that changes state: node `n` starts or joins the current subset. */
    method JoinNode(n: nat)
      requires Valid() && sched != [] && n < |graph.nodes|
      requires nodeEpochs[n] == EPOCH_NOT_READY
      requires forall t :: graph.Reads(n, t) ==> tensorEpochs[t] != EPOCH_NOT_READY
      requires nodeSubsets[|sched| - 1].kind.None?
               || nodeSubsets[|sched| - 1].kind == Some(nodeType[graph.nodeIndex[n]])
      modifies this
      ensures Valid()
      ensures sched == Joined(old(sched), n)
    {
      ghost var before := State();
      var last := |nodeSubsets| - 1;
      var original := graph.nodeIndex[n];
      var current := nodeSubsets[last];
      nodeSubsets := nodeSubsets[last := current.(kind := Some(nodeType[original]),
                                                  nodes := current.nodes + [original])];
      nodeEpochs := nodeEpochs[n := last];
      MarkOutputs(n, last);
      RecordInputs(n, last);
      ReleaseSuccessors(n);
      sched := Joined(sched, n);
      JoinKeepsConsistent(graph, controlEdges, problem, before, n, State());
    }

    /** Starts a subset and fills it by sweeps over the plan. */
    method BuildNodeSubset()
      requires Valid() && InDependencyOrder(problem, Flatten(sched))
      modifies this
      ensures Valid()
      ensures Growing(problem, Flatten(old(sched)), [])
      ensures sched == old(sched) + [BuildSubset(problem, greedily, Flatten(old(sched)), [])]
    {
      hide Consistent, Usable, BuildSubset, Growing, InDependencyOrder;
      ghost var done := Flatten(sched);
      EmptyIsGrowing(problem, done);
      StartSubset();
      FillSubset(done, BuildSubset(problem, greedily, done, []));
      assert sched == sched[..|sched| - 1] + [sched[|sched| - 1]];
    }

    /** Sweeps until nothing joins any more, or until a non-greedy sweep stops. */
    method FillSubset(ghost done: seq<nat>, ghost goal: seq<nat>)
      requires Valid() && sched != [] && Done() == done
      requires problem.Valid() && Growing(problem, done, Current())
      requires goal == BuildSubset(problem, greedily, done, Current())
      modifies this
      ensures Valid() && |sched| == |old(sched)| && sched[..|sched| - 1] == old(sched[..|sched| - 1])
      ensures Current() == goal
    {
      hide Valid, BuildSubset, Growing, InDependencyOrder, Sweep, Unscheduled, Flatten;
      while true
        invariant Valid() && |sched| == |old(sched)| && sched[..|sched| - 1] == old(sched[..|sched| - 1])
        invariant Growing(problem, done, Current())
        invariant BuildSubset(problem, greedily, done, Current()) == goal
        decreases Unscheduled(problem, done + Current())
      {
        ghost var before := Current();
        ghost var swept := Sweep(problem, greedily, done, before, 0, false);
        BuildSubsetUnfolds(problem, greedily, done, before, swept);
        SweepKeepsGrowing(problem, greedily, done, before, 0, false);
        var didSomething, stopped := SweepOnce(done);
        if stopped || !didSomething {
          return;
        }
      }
    }

    method StartSubset()
      requires Valid()
      modifies this
      ensures Valid() && sched == old(sched) + [[]] && sched[..|sched| - 1] == old(sched)
    {
      hide Consistent, Usable;
      StartKeepsConsistent(graph, controlEdges, problem, State());
      nodeSubsets := nodeSubsets + [EMPTY_SUBSET];
      sched := sched + [[]];
    }

    /** One pass of the loop over the nodes; `stopped` when a non-greedy pass returned early. */
    method SweepOnce(ghost done: seq<nat>) returns (didSomething: bool, stopped: bool)
      requires Valid() && sched != [] && Done() == done
      modifies this
      ensures Valid() && |sched| == |old(sched)| && sched[..|sched| - 1] == old(sched[..|sched| - 1])
      ensures Sweep(problem, greedily, done, old(Current()), 0, false) == SweepResult(Current(), didSomething, stopped)
    {
      hide Consistent, Usable;
      didSomething, stopped := false, false;
      ghost var current0 := Current();
      var n := 0;
      while n < |graph.nodes|
        invariant 0 <= n <= |graph.nodes|
        invariant Valid() && |sched| == |old(sched)| && sched[..|sched| - 1] == old(sched[..|sched| - 1])
        invariant Sweep(problem, greedily, done, current0, 0, false) ==
                  Sweep(problem, greedily, done, Current(), n, didSomething)
      {
        var updated := UpdateNode(n);
        if updated {
          didSomething := true;
        } else if didSomething && !greedily {
          stopped := true;
          return;
        }
        n := n + 1;
      }
    }

    /** Zeroes the counters and counts every control edge at its target. */
    method CountControlEdges()
      requires Wired() && nodeEpochs == seq(|graph.nodes|, _ => EPOCH_NOT_READY)
      modifies this`numIncomingControlEdges
      ensures CountersMatch(graph, controlEdges, nodeEpochs, numIncomingControlEdges)
    {
      numIncomingControlEdges := seq(|graph.nodes|, _ => 0);
      var i := 0;
      while i < |controlEdges|
        invariant 0 <= i <= |controlEdges|
        invariant CountersMatch(graph, controlEdges[..i], nodeEpochs, numIncomingControlEdges)
      {
        var target := controlEdges[i].1;
        assert controlEdges[i] in controlEdges;
        EdgeIsNew(controlEdges, 0, i);
        CountStep(graph, controlEdges, i, nodeEpochs, numIncomingControlEdges);
        numIncomingControlEdges := numIncomingControlEdges[target := numIncomingControlEdges[target] + 1];
        i := i + 1;
      }
      assert controlEdges[..i] == controlEdges;
    }

    /** Tensors start out available, except those some node computes. */
    method InitTensorEpochs()
      requires Wired() && nodeEpochs == seq(|graph.nodes|, _ => EPOCH_NOT_READY)
      modifies this`tensorEpochs
      ensures EpochsMatch(graph, [], nodeEpochs, tensorEpochs)
    {
      tensorEpochs := seq(graph.numTensors, _ => EPOCH_ALWAYS_READY);
      var n := 0;
      while n < |graph.nodes|
        invariant 0 <= n <= |graph.nodes| && |tensorEpochs| == graph.numTensors
        invariant forall t :: 0 <= t < graph.numTensors ==>
                    tensorEpochs[t] == if ComputedBefore(graph, n, t) then EPOCH_NOT_READY else EPOCH_ALWAYS_READY
      {
        MarkOutputs(n, EPOCH_NOT_READY);
        n := n + 1;
      }
      forall m, t | 0 <= m < |graph.nodes| && 0 <= t < graph.numTensors && graph.Produces(m, t)
        ensures tensorEpochs[t] == nodeEpochs[m]
      {
        assert ComputedBefore(graph, n, t);
      }
    }

    /** Adds every computed graph output to the outputs of the subset that computes it. */
    method MarkGraphOutputs() returns (status: Status)
      requires Valid() && forall n :: 0 <= n < |nodeEpochs| ==> nodeEpochs[n] != EPOCH_NOT_READY
      modifies this`nodeSubsets
      ensures status.Ok?
      ensures OutputsAdded(graph, tensorEpochs, graph.outputs, old(nodeSubsets), nodeSubsets)
    {
      ghost var before := nodeSubsets;
      var outputs := graph.outputs;
      var i := 0;
      while i < |outputs|
        invariant 0 <= i <= |outputs| && |nodeSubsets| == |before|
        invariant OutputsAdded(graph, tensorEpochs, outputs[..i], before, nodeSubsets)
      {
        var t := outputs[i];
        assert t in outputs && outputs[..i + 1] == outputs[..i] + [t];
        AssignedEpoch(graph, sched, nodeEpochs, tensorEpochs, t);
        var epoch := tensorEpochs[t];
        i := i + 1;
        if epoch == EPOCH_ALWAYS_READY {
          continue;
        }
        if epoch < 0 || epoch >= |nodeSubsets| {
          return Error;
        }
        var subset := nodeSubsets[epoch];
        nodeSubsets := nodeSubsets[epoch := subset.(outputTensors := subset.outputTensors + [t])];
      }
      assert outputs[..i] == outputs;
      return Ok;
    }

    /** Sorts the boundary lists and drops duplicates. */
    method UniquefyBoundaries()
      modifies this`nodeSubsets
      ensures |nodeSubsets| == |old(nodeSubsets)|
      ensures forall e :: 0 <= e < |nodeSubsets| ==> Uniquefied(old(nodeSubsets)[e], nodeSubsets[e])
    {
      ghost var before := nodeSubsets;
      var e := 0;
      while e < |nodeSubsets|
        invariant 0 <= e <= |nodeSubsets| == |before|
        invariant forall k :: 0 <= k < e ==> Uniquefied(before[k], nodeSubsets[k])
        invariant forall k :: e <= k < |before| ==> nodeSubsets[k] == before[k]
      {
        var inputs := Sorting.Uniquefy(nodeSubsets[e].inputTensors, IntLess);
        var outputs := Sorting.Uniquefy(nodeSubsets[e].outputTensors, IntLess);
        nodeSubsets := nodeSubsets[e := nodeSubsets[e].(inputTensors := inputs, outputTensors := outputs)];
        e := e + 1;
      }
    }

    /**
     * Partitions the graph. The nodes of the subsets are exactly those the scheduling problem
     * prescribes; the status is Ok exactly when every node got a place, and then each subset's
     * boundary lists are exact, sorted and free of duplicates.
     */
    method Partition() returns (status: Status)
      requires Wired()
      modifies this
      ensures sched == Schedule.Partition(problem, greedily, [])
      ensures status.Ok? <==> Complete(problem, Flatten(sched))
      ensures SubsetsMatch(graph, problem, sched, nodeSubsets)
      ensures status.Ok? ==> forall e :: 0 <= e < |sched| ==> ExactBoundaries(graph, sched, e, nodeSubsets[e])
    {
      nodeSubsets, sched := [], [];
      nodeEpochs := seq(|graph.nodes|, _ => EPOCH_NOT_READY);
      CountControlEdges();
      InitTensorEpochs();
      BuildAllSubsets();
      var unassigned := SomeNodeNotReady();
      if unassigned {
        return Error;
      }
      ghost var built := nodeSubsets;
      status := MarkGraphOutputs();
      ghost var marked := nodeSubsets;
      UniquefyBoundaries();
      forall e | 0 <= e < |sched| ensures ExactBoundaries(graph, sched, e, nodeSubsets[e]) {
        BoundariesAreExact(graph, controlEdges, problem, State().(subsets := built), marked, e, nodeSubsets[e]);
      }
    }

    /** Subset after subset, until one stays empty. */
    method BuildAllSubsets()
      requires Valid() && sched == []
      modifies this
      ensures Valid() && sched == Schedule.Partition(problem, greedily, [])
    {
      NothingScheduled();
      assert Flatten(sched) == [] && forall r: seq<seq<nat>> :: sched + r == r;
      hide Valid, BuildSubset, Growing, InDependencyOrder, Schedule.Partition, Flatten, Unscheduled;
      while true
        invariant Valid() && problem.Valid() && InDependencyOrder(problem, Flatten(sched))
        invariant sched + Schedule.Partition(problem, greedily, Flatten(sched))
                    == Schedule.Partition(problem, greedily, [])
        decreases Unscheduled(problem, Flatten(sched))
      {
        ghost var before := sched;
        var empty := NextSubset();
        if empty {
          return;
        }
        AppendAssociates(before, sched, Schedule.Partition(problem, greedily, Flatten(sched)));
      }
    }

    /** Builds a subset and takes it back if it stayed empty. */
    method NextSubset() returns (empty: bool)
      requires Valid() && InDependencyOrder(problem, Flatten(sched))
      modifies this
      ensures Valid() && problem.Valid() && InDependencyOrder(problem, Flatten(sched))
      ensures empty ==> sched == old(sched) && old(Schedule.Partition(problem, greedily, Flatten(sched))) == []
      ensures !empty ==>
                && |sched| == |old(sched)| + 1 && sched[..|old(sched)|] == old(sched)
                && old(Schedule.Partition(problem, greedily, Flatten(sched))) ==
                   [sched[|old(sched)|]] + Schedule.Partition(problem, greedily, Flatten(sched))
                && Unscheduled(problem, Flatten(sched)) < old(Unscheduled(problem, Flatten(sched)))
    {
      hide Consistent, Usable, BuildSubset, Growing, InDependencyOrder, Schedule.Partition;
      ghost var before, done := sched, Flatten(sched);
      BuildNodeSubset();
      ghost var subset := sched[|before|];
      PartitionUnfolds(problem, greedily, done, subset);
      FlattenAppend(before, subset);
      LastSubset();
      empty := nodeSubsets[|nodeSubsets| - 1].nodes == [];
      if empty {
        DropEmptySubset();
      }
    }

    lemma NothingScheduled()
      requires Wired()
      ensures problem.Valid() && InDependencyOrder(problem, Flatten([]))
    {
    }

    lemma LastSubset()
      requires Valid() && sched != []
      ensures |nodeSubsets| == |sched| && (nodeSubsets[|sched| - 1].nodes == [] <==> sched[|sched| - 1] == [])
    {
      assert AreNodes(graph, sched[|sched| - 1]);
    }

    method DropEmptySubset()
      requires Valid() && sched != [] && sched[|sched| - 1] == []
      modifies this
      ensures Valid() && sched == old(sched[..|sched| - 1])
    {
      LastSubset();
      hide Consistent, Usable;
      DropKeepsConsistent(graph, controlEdges, problem, State());
      nodeSubsets := nodeSubsets[..|nodeSubsets| - 1];
      sched := sched[..|sched| - 1];
    }

    method SomeNodeNotReady() returns (found: bool)
      requires Valid()
      ensures found <==> !Complete(problem, Flatten(sched))
      ensures !found ==> forall n :: 0 <= n < |nodeEpochs| ==> nodeEpochs[n] != EPOCH_NOT_READY
    {
      var n := 0;
      while n < |nodeEpochs|
        invariant 0 <= n <= |nodeEpochs|
        invariant forall m :: 0 <= m < n ==> nodeEpochs[m] != EPOCH_NOT_READY
      {
        ScheduledMeans(graph, sched, nodeEpochs, tensorEpochs, n);
        if nodeEpochs[n] == EPOCH_NOT_READY {
          return true;
        }
        n := n + 1;
      }
      forall m | 0 <= m < problem.Size() ensures m in Flatten(sched) {
        ScheduledMeans(graph, sched, nodeEpochs, tensorEpochs, m);
      }
      return false;
    }
  }

  /* ---- The boundary lists at the end ---- */

  ghost predicate OutputsAdded(
    g: Graph, tensorEpochs: seq<int>, outputs: seq<int>, before: seq<NodeSubset>, after: seq<NodeSubset>)
    requires |tensorEpochs| == g.numTensors
  {
    && |before| == |after|
    && forall e :: 0 <= e < |before| ==>
         && after[e].nodes == before[e].nodes && after[e].kind == before[e].kind
         && after[e].inputTensors == before[e].inputTensors
         && (forall t :: t in after[e].outputTensors <==>
               t in before[e].outputTensors || (t in outputs && g.IsTensor(t) && tensorEpochs[t] == e))
  }

  ghost predicate Uniquefied(before: NodeSubset, after: NodeSubset) {
    && after.nodes == before.nodes && after.kind == before.kind
    && Sorting.StrictlyAscending(IntLess, after.inputTensors) && Sorting.StrictlyAscending(IntLess, after.outputTensors)
    && (forall t :: t in after.inputTensors <==> t in before.inputTensors)
    && (forall t :: t in after.outputTensors <==> t in before.outputTensors)
  }

  ghost predicate ReadIn(g: Graph, nodes: seq<nat>, t: int) {
    exists n :: n in nodes && n < |g.nodes| && g.Reads(n, t)
  }

  ghost predicate ComputedIn(g: Graph, nodes: seq<nat>, t: int) {
    exists n :: n in nodes && n < |g.nodes| && g.Produces(n, t)
  }

  /**
   * The inputs of a subset are the tensors its nodes read and do not compute; its outputs are
   * the tensors it computes that another subset reads or that the graph outputs.
   */
  ghost predicate ExactBoundaries(g: Graph, sched: seq<seq<nat>>, e: nat, subset: NodeSubset)
    requires e < |sched|
  {
    && Sorting.StrictlyAscending(IntLess, subset.inputTensors)
    && Sorting.StrictlyAscending(IntLess, subset.outputTensors)
    && (forall t :: t in subset.inputTensors <==> ReadIn(g, sched[e], t) && !ComputedIn(g, sched[e], t))
    && (forall t :: t in subset.outputTensors <==>
          ComputedIn(g, sched[e], t)
          && (t in g.outputs || exists o :: 0 <= o < |sched| && o != e && ReadIn(g, sched[o], t)))
  }

  lemma AssignedEpoch(g: Graph, sched: seq<seq<nat>>, nodeEpochs: seq<int>, tensorEpochs: seq<int>, t: int)
    requires EpochsMatch(g, sched, nodeEpochs, tensorEpochs) && g.IsTensor(t)
    requires forall n :: 0 <= n < |nodeEpochs| ==> nodeEpochs[n] != EPOCH_NOT_READY
    ensures tensorEpochs[t] == EPOCH_ALWAYS_READY || 0 <= tensorEpochs[t] < |sched|
  {
    if g.Computed(t) {
      var n :| 0 <= n < |g.nodes| && g.Produces(n, t);
      assert tensorEpochs[t] == nodeEpochs[n];
    }
  }

  lemma EpochMeans(g: Graph, sched: seq<seq<nat>>, nodeEpochs: seq<int>, tensorEpochs: seq<int>, e: nat, t: int)
    requires EpochsMatch(g, sched, nodeEpochs, tensorEpochs) && g.IsTensor(t) && e < |sched|
    ensures tensorEpochs[t] == e <==> ComputedIn(g, sched[e], t)
  {
    if g.Computed(t) {
      var n :| 0 <= n < |g.nodes| && g.Produces(n, t);
      assert tensorEpochs[t] == nodeEpochs[n];
      if tensorEpochs[t] == e {
        assert n in sched[e];
      }
    }
    if ComputedIn(g, sched[e], t) {
      var m :| m in sched[e] && m < |g.nodes| && g.Produces(m, t);
      assert nodeEpochs[m] == e;
    }
  }

  lemma ExportsMeans(g: Graph, sched: seq<seq<nat>>, nodeEpochs: seq<int>, tensorEpochs: seq<int>, e: nat, t: int)
    requires EpochsMatch(g, sched, nodeEpochs, tensorEpochs) && e < |sched|
    ensures Exports(g, nodeEpochs, tensorEpochs, e, t) <==>
            g.IsTensor(t) && tensorEpochs[t] == e && exists o :: 0 <= o < |sched| && o != e && ReadIn(g, sched[o], t)
  {
    if Exports(g, nodeEpochs, tensorEpochs, e, t) {
      var n :| 0 <= n < |g.nodes| && nodeEpochs[n] != EPOCH_NOT_READY && nodeEpochs[n] != e && g.Reads(n, t);
      assert n in sched[nodeEpochs[n]];
      assert ReadIn(g, sched[nodeEpochs[n]], t);
    }
    if o :| 0 <= o < |sched| && o != e && ReadIn(g, sched[o], t) {
      var n :| n in sched[o] && n < |g.nodes| && g.Reads(n, t);
      assert nodeEpochs[n] == o;
    }
  }

  lemma BoundariesAreExact(
    g: Graph, edges: seq<ControlEdge>, p: Problem, s: Progress, marked: seq<NodeSubset>, e: nat, final: NodeSubset)
    requires Usable(g, edges) && |g.nodes| == |p.kinds| && Consistent(g, edges, p, s) && e < |s.sched|
    requires OutputsAdded(g, s.tensorEpochs, g.outputs, s.subsets, marked) && Uniquefied(marked[e], final)
    ensures ExactBoundaries(g, s.sched, e, final)
  {
    forall t ensures t in final.inputTensors <==> ReadIn(g, s.sched[e], t) && !ComputedIn(g, s.sched[e], t) {
      assert t in final.inputTensors <==> Imports(g, s.sched, s.tensorEpochs, e, t);
      if g.IsTensor(t) {
        EpochMeans(g, s.sched, s.nodeEpochs, s.tensorEpochs, e, t);
      } else {
        NotATensor(g, edges, t);
      }
    }
    forall t
      ensures t in final.outputTensors <==>
              ComputedIn(g, s.sched[e], t)
              && (t in g.outputs || exists o :: 0 <= o < |s.sched| && o != e && ReadIn(g, s.sched[o], t))
    {
      assert t in final.outputTensors <==>
             || Exports(g, s.nodeEpochs, s.tensorEpochs, e, t)
             || (t in g.outputs && g.IsTensor(t) && s.tensorEpochs[t] == e);
      ExportsMeans(g, s.sched, s.nodeEpochs, s.tensorEpochs, e, t);
      if g.IsTensor(t) {
        EpochMeans(g, s.sched, s.nodeEpochs, s.tensorEpochs, e, t);
      } else {
        NotATensor(g, edges, t);
      }
    }
  }

  lemma NotATensor(g: Graph, edges: seq<ControlEdge>, t: int)
    requires Usable(g, edges) && !g.IsTensor(t)
    ensures forall n :: 0 <= n < |g.nodes| ==> !g.Reads(n, t) && !g.Produces(n, t)
  {
  }

  lemma DropKeepsConsistent(g: Graph, edges: seq<ControlEdge>, p: Problem, s: Progress)
    requires Usable(g, edges) && |g.nodes| == |p.kinds| && Consistent(g, edges, p, s)
    requires s.sched != [] && s.sched[|s.sched| - 1] == []
    ensures Consistent(g, edges, p, s.(sched := s.sched[..|s.sched| - 1], subsets := s.subsets[..|s.subsets| - 1]))
  {
    var s' := s.(sched := s.sched[..|s.sched| - 1], subsets := s.subsets[..|s.subsets| - 1]);
    forall e | 0 <= e < |s'.sched|
      ensures forall t :: t in s'.subsets[e].inputTensors <==> Imports(g, s'.sched, s'.tensorEpochs, e, t)
    {
      assert s'.sched[e] == s.sched[e];
      assert forall t :: Imports(g, s'.sched, s'.tensorEpochs, e, t) <==> Imports(g, s.sched, s.tensorEpochs, e, t);
    }
  }

  lemma AppendAssociates(before: seq<seq<nat>>, after: seq<seq<nat>>, rest: seq<seq<nat>>)
    requires |after| == |before| + 1 && after[..|before|] == before
    ensures before + ([after[|before|]] + rest) == after + rest
  {
    assert after == before + [after[|before|]];
  }

  /** One of the first `n` nodes computes `t`. */
  ghost predicate ComputedBefore(g: Graph, n: nat, t: int)
    requires n <= |g.nodes|
  {
    exists m :: 0 <= m < n && g.Produces(m, t)
  }

  /** One more edge adds its source to the pending ones of its target, and to no others. */
  lemma PendingStep(g: Graph, edges: seq<ControlEdge>, e: ControlEdge, nodeEpochs: seq<int>, n: nat)
    requires |nodeEpochs| == |g.nodes| && n < |g.nodes| && 0 <= e.0 < |g.nodes| && 0 <= e.1 < |g.nodes|
    requires e !in edges && nodeEpochs[e.0] == EPOCH_NOT_READY
    ensures |Pending(g, edges + [e], nodeEpochs, n)| == |Pending(g, edges, nodeEpochs, n)| + if n == e.1 then 1 else 0
  {
    var before, after := Pending(g, edges, nodeEpochs, n), Pending(g, edges + [e], nodeEpochs, n);
    assert forall m: nat :: (m, n) in edges + [e] <==> (m, n) in edges || (m, n) == e;
    if n == e.1 {
      assert e.0 !in before && after == before + {e.0};
    } else {
      assert after == before;
    }
  }

  lemma CountStep(g: Graph, edges: seq<ControlEdge>, i: nat, nodeEpochs: seq<int>, counters: seq<int>)
    requires i < |edges| && |nodeEpochs| == |g.nodes|
    requires 0 <= edges[i].0 < |g.nodes| && 0 <= edges[i].1 < |g.nodes|
    requires edges[i] !in edges[0..i] && nodeEpochs[edges[i].0] == EPOCH_NOT_READY
    requires CountersMatch(g, edges[..i], nodeEpochs, counters)
    ensures CountersMatch(g, edges[..i + 1], nodeEpochs, counters[edges[i].1 := counters[edges[i].1] + 1])
  {
    hide Pending;
    assert edges[..i + 1] == edges[..i] + [edges[i]] && edges[..i] == edges[0..i];
    forall n | 0 <= n < |g.nodes|
      ensures |Pending(g, edges[..i + 1], nodeEpochs, n)|
              == |Pending(g, edges[..i], nodeEpochs, n)| + if n == edges[i].1 then 1 else 0
    {
      PendingStep(g, edges[..i], edges[i], nodeEpochs, n);
    }
  }

  lemma StartKeepsConsistent(g: Graph, edges: seq<ControlEdge>, p: Problem, s: Progress)
    requires Usable(g, edges) && |g.nodes| == |p.kinds| && Consistent(g, edges, p, s)
    ensures Consistent(g, edges, p, s.(sched := s.sched + [[]], subsets := s.subsets + [EMPTY_SUBSET]))
  {
    var s' := s.(sched := s.sched + [[]], subsets := s.subsets + [EMPTY_SUBSET]);
    forall e | 0 <= e < |s'.sched|
      ensures forall t :: t in s'.subsets[e].inputTensors <==> Imports(g, s'.sched, s'.tensorEpochs, e, t)
      ensures forall t :: t in s'.subsets[e].outputTensors <==> Exports(g, s'.nodeEpochs, s'.tensorEpochs, e, t)
    {
      if e < |s.sched| {
        assert s'.sched[e] == s.sched[e];
        assert forall t :: Imports(g, s'.sched, s'.tensorEpochs, e, t) <==> Imports(g, s.sched, s.tensorEpochs, e, t);
      } else {
        forall t ensures !Exports(g, s'.nodeEpochs, s'.tensorEpochs, e, t) {
          EpochBound(g, s.sched, s.nodeEpochs, s.tensorEpochs, t);
        }
      }
    }
  }

  lemma EpochBound(g: Graph, sched: seq<seq<nat>>, nodeEpochs: seq<int>, tensorEpochs: seq<int>, t: int)
    requires EpochsMatch(g, sched, nodeEpochs, tensorEpochs)
    ensures g.IsTensor(t) ==> tensorEpochs[t] < |sched|
  {
    if g.IsTensor(t) && g.Computed(t) {
      var n :| 0 <= n < |g.nodes| && g.Produces(n, t);
      assert tensorEpochs[t] == nodeEpochs[n];
    }
  }
}
