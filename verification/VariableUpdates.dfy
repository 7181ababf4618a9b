/**
 * Greedy partitioning and nodes that update variable tensors: exactly when no choice of delegated
 * nodes changes what a graph means.
 */
module VariableUpdates {
  import opened Common
  import opened GraphInfo
  import opened Schedule
  import opened ScheduleTheorems
  import opened GreedyOptimality
  import opened Reordering
  import opened PartitionMeaning
  import opened ExecutionOrder
  import opened PartitionGraph

  /* ---- Kernels that show which of two nodes in conflict ran first ---- */

  /** What node `n`, given these inputs, sees in tensor `t`. */
  function Seen(g: Graph, n: nat, inputs: seq<Option<bool>>, t: int): bool {
    && n < |g.nodes| && t in g.nodes[n].inputs
    && FirstAt(g.nodes[n].inputs, t) < |inputs| && inputs[FirstAt(g.nodes[n].inputs, t)] == Some(true)
  }

  /** Node `x` raises variable `v`, node `y` passes on what it sees there, and nothing else changes a variable. */
  function Passing(g: Graph, updates: (nat, int) -> bool, x: nat, y: nat, v: int): Kernels<bool, bool> {
    Kernels(
      (n, inputs, world, j) => n == y && Seen(g, y, inputs, v),
      (n, inputs, world) => world,
      updates,
      (n, inputs, world, t) => if n == x && t == v then true else Seen(g, n, inputs, if n == y then v else t))
  }

  /** Node `x` raises variable `v`, node `y` lowers it, and nothing else changes a variable. */
  function Deciding(g: Graph, updates: (nat, int) -> bool, x: nat, y: nat, v: int): Kernels<bool, bool> {
    Kernels(
      (n, inputs, world, j) => false,
      (n, inputs, world) => world,
      updates,
      (n, inputs, world, t) =>
        if t == v && n == x then true else if t == v && n == y then false else Seen(g, n, inputs, t))
  }

  function Lowered(g: Graph): Machine<bool, bool> {
    Machine(seq(g.numTensors, _ => false), false, [])
  }

  lemma SeesTensor(g: Graph, n: nat, t: int, tensors: seq<bool>)
    requires n < |g.nodes| && g.Reads(n, t) && 0 <= t < |tensors|
    ensures Seen(g, n, InputsOf(g, n, tensors), t) == tensors[t]
  {
  }

  lemma {:induction false} WriteConstant<V>(outputs: seq<int>, j: nat, value: nat -> V, tensors: seq<V>, c: V, t: nat)
    requires j <= |outputs| && (forall i :: value(i) == c) && t < |tensors|
    ensures t in outputs[j..] || tensors[t] == c ==> WriteOutputs(outputs, j, value, tensors)[t] == c
    decreases |outputs| - j
  {
    if j < |outputs| {
      assert outputs[j..] == [outputs[j]] + outputs[j + 1..];
      var next := if 0 <= outputs[j] < |tensors| then tensors[outputs[j] := value(j)] else tensors;
      WriteConstant(outputs, j + 1, value, next, c, t);
    }
  }

  /** One tensor after one node, for kernels whose outputs are all alike. */
  lemma TensorAfter<V, W>(
    g: Graph, k: Kernels<V, W>, n: nat, m: Machine<V, W>, world: Option<W>, output: V, t: nat)
    requires n < |g.nodes| && t < |m.tensors|
    requires world == if g.nodes[n].mightHaveSideEffect then Some(m.world) else None
    requires forall j :: k.compute(n, InputsOf(g, n, m.tensors), world, j) == output
    ensures |Execute(g, k, n, m).tensors| == |m.tensors|
    ensures Execute(g, k, n, m).tensors[t] ==
            if Updates(g, k.updates, n, t) then k.update(n, InputsOf(g, n, m.tensors), world, t)
            else if g.Produces(n, t) then output
            else m.tensors[t]
  {
    var inputs, outputs := InputsOf(g, n, m.tensors), g.nodes[n].outputs;
    assert outputs[0..] == outputs;
    WriteConstant(outputs, 0, j => k.compute(n, inputs, world, j), m.tensors, output, t);
    WrittenAt(g, k, n, world, inputs, m.tensors, m.tensors, t);
  }

  /* ---- What the last node of an order finds ---- */

  /** A node that computes what another one reads has not yet run when it runs for the first time. */
  lemma ProducerIsFirst(g: Graph, order: seq<nat>, x: nat, t: int)
    requires RespectsData(g, order) && order != [] && x < |g.nodes|
    requires g.Produces(order[|order| - 1], t) && g.Reads(x, t)
    ensures x !in order
  {
    var last := order[|order| - 1];
    assert g.Feeds(last, x);
    RespectsIsDistinct(g, order);
    forall i | 0 <= i < |order|
      ensures order[i] != x
    {
      assert last !in order[..i];
    }
  }

  ghost predicate RunsBefore(order: seq<nat>, x: nat, y: nat) {
    exists i, j :: 0 <= i < j < |order| && order[i] == x && order[j] == y
  }

  lemma RunsBeforeStep(order: seq<nat>, x: nat, y: nat)
    requires order != [] && x != y && Distinct(order)
    ensures var p, n := order[..|order| - 1], order[|order| - 1];
            RunsBefore(order, x, y) <==> if n == y then x in p else RunsBefore(p, x, y)
  {
    var p, n := order[..|order| - 1], order[|order| - 1];
    if RunsBefore(order, x, y) {
      var i, j :| 0 <= i < j < |order| && order[i] == x && order[j] == y;
      assert p[i] == x;
      assert n != y ==> p[j] == y;
    }
    if n == y && x in p {
      var i :| 0 <= i < |p| && p[i] == x;
      assert order[i] == x;
    }
    if RunsBefore(p, x, y) {
      var i, j :| 0 <= i < j < |p| && p[i] == x && p[j] == y;
      assert order[i] == x && order[j] == y;
    }
  }

  /** Node `x` updates variable `v`, and node `y` reads it. */
  ghost predicate Meet(g: Graph, updates: (nat, int) -> bool, x: nat, y: nat, v: int) {
    && g.IndicesInRange() && g.UniqueProducers() && x < |g.nodes| && y < |g.nodes| && x != y
    && Updates(g, updates, x, v) && g.Reads(y, v) && g.IsTensor(v)
  }

  lemma WorldOf(g: Graph, n: nat, m: Machine<bool, bool>) returns (world: Option<bool>)
    requires n < |g.nodes|
    ensures world == if g.nodes[n].mightHaveSideEffect then Some(m.world) else None
  {
    world := if g.nodes[n].mightHaveSideEffect then Some(m.world) else None;
  }

  /** One tensor after one node, with the kernels that pass on. */
  lemma PassingStep(
    g: Graph, updates: (nat, int) -> bool, x: nat, y: nat, v: int, n: nat, m: Machine<bool, bool>, t: nat)
    requires Meet(g, updates, x, y, v) && n < |g.nodes| && |m.tensors| == g.numTensors && t < g.numTensors
    ensures var after := Execute(g, Passing(g, updates, x, y, v), n, m).tensors;
            && |after| == g.numTensors
            && after[t] ==
               if Updates(g, updates, n, t) then (n == x && t == v) || m.tensors[if n == y then v else t]
               else if g.Produces(n, t) then n == y && m.tensors[v]
               else m.tensors[t]
  {
    var k := Passing(g, updates, x, y, v);
    var world := WorldOf(g, n, m);
    SeesTensor(g, y, v, m.tensors);
    if g.Reads(n, t) {
      SeesTensor(g, n, t, m.tensors);
    }
    TensorAfter(g, k, n, m, world, n == y && Seen(g, y, InputsOf(g, n, m.tensors), v), t);
  }

  /** The variable is raised as soon as `x` has run, if `y` does not update it. */
  lemma {:induction false} PassingVariable(
    g: Graph, updates: (nat, int) -> bool, x: nat, y: nat, v: int, order: seq<nat>)
    requires Meet(g, updates, x, y, v) && !Updates(g, updates, y, v) && RespectsData(g, order)
    ensures var after := RunAll(g, Passing(g, updates, x, y, v), order, Lowered(g)).tensors;
            |after| == g.numTensors && after[v] == (x in order)
  {
    if order != [] {
      var p, n := order[..|order| - 1], order[|order| - 1];
      PrefixRespectsData(g, order);
      PassingVariable(g, updates, x, y, v, p);
      hide Execute, Passing, Meet, RespectsData;
      PassingStep(g, updates, x, y, v, n, RunAll(g, Passing(g, updates, x, y, v), p, Lowered(g)), v);
      assert order == p + [n];
      RunsOnce(g, order);
      if g.Produces(n, v) {
        ReadersAreNotYet(g, updates, x, y, v, order);
      }
    }
  }

  lemma SplitLast(order: seq<nat>, y: nat)
    requires order != []
    ensures order == order[..|order| - 1] + [order[|order| - 1]]
    ensures y in order <==> y == order[|order| - 1] || y in order[..|order| - 1]
  {
  }

  lemma RunsOnce(g: Graph, order: seq<nat>)
    requires RespectsData(g, order) && order != []
    ensures order[|order| - 1] < |g.nodes| && order[|order| - 1] !in order[..|order| - 1]
    ensures InPlan(g, order) && InPlan(g, order[..|order| - 1])
  {
  }

  lemma ReadersAreNotYet(g: Graph, updates: (nat, int) -> bool, x: nat, y: nat, v: int, order: seq<nat>)
    requires Meet(g, updates, x, y, v) && RespectsData(g, order) && order != []
    requires g.Produces(order[|order| - 1], v)
    ensures x !in order && y !in order
  {
    ProducerIsFirst(g, order, x, v);
    ProducerIsFirst(g, order, y, v);
  }

  /** A tensor that `y` changes, other than the variable, ends up with what `y` saw. */
  lemma {:induction false} PassingTensor(
    g: Graph, updates: (nat, int) -> bool, x: nat, y: nat, v: int, order: seq<nat>, t: nat)
    requires Meet(g, updates, x, y, v) && !Updates(g, updates, y, v) && RespectsData(g, order)
    requires t < g.numTensors && Changes(g, updates, y, t) && t != v && y in order
    ensures var after := RunAll(g, Passing(g, updates, x, y, v), order, Lowered(g)).tensors;
            |after| == g.numTensors && after[t] == RunsBefore(order, x, y)
  {
    RunsOnce(g, order);
    PrefixRespectsData(g, order);
    assert x != y;
    hide Execute, Passing, RespectsData, RunsBefore, Distinct, Meet, Changes, Updates, RunAll, InPlan;
    var p, n := order[..|order| - 1], order[|order| - 1];
    var k := Passing(g, updates, x, y, v);
    PassingVariable(g, updates, x, y, v, p);
    RespectsIsDistinct(g, order);
    RunsBeforeStep(order, x, y);
    SplitLast(order, y);
    RunAppend(g, k, p, n, Lowered(g));
    if n != y {
      PassingTensor(g, updates, x, y, v, p, t);
      OthersLeaveIt(g, updates, x, y, v, order, RunAll(g, k, p, Lowered(g)), t);
    } else {
      PassingOn(g, updates, x, y, v, RunAll(g, k, p, Lowered(g)), t);
    }
  }

  /** What `y` changes becomes what it sees. */
  lemma PassingOn(g: Graph, updates: (nat, int) -> bool, x: nat, y: nat, v: int, m: Machine<bool, bool>, t: nat)
    requires Meet(g, updates, x, y, v) && |m.tensors| == g.numTensors
    requires t < g.numTensors && Changes(g, updates, y, t) && t != v
    ensures var after := Execute(g, Passing(g, updates, x, y, v), y, m).tensors;
            |after| == g.numTensors && after[t] == m.tensors[v]
  {
    hide Execute, Passing;
    PassingStep(g, updates, x, y, v, y, m, t);
  }

  /** After `y` no other node changes it. */
  lemma OthersLeaveIt(
    g: Graph, updates: (nat, int) -> bool, x: nat, y: nat, v: int, order: seq<nat>, m: Machine<bool, bool>, t: nat)
    requires Meet(g, updates, x, y, v) && |m.tensors| == g.numTensors && RespectsData(g, order) && y in order
    requires order != [] && order[|order| - 1] < |g.nodes| && order[|order| - 1] != y
    requires t < g.numTensors && Changes(g, updates, y, t) && t != v
    ensures var after := Execute(g, Passing(g, updates, x, y, v), order[|order| - 1], m).tensors;
            |after| == g.numTensors && after[t] == m.tensors[t]
  {
    var n := order[|order| - 1];
    hide Execute, Passing, RespectsData;
    PassingStep(g, updates, x, y, v, n, m, t);
    if g.Produces(n, t) && Updates(g, updates, y, t) {
      ProducerIsFirst(g, order, y, t);
    }
  }

  /** If `y` is marked, its event shows what it saw. */
  ghost predicate EventShows(g: Graph, y: nat, v: int, trace: seq<Event<bool>>) {
    exists i :: 0 <= i < |trace| && trace[i].node == y && Seen(g, y, trace[i].inputs, v)
  }

  lemma {:induction false} PassingTrace(
    g: Graph, updates: (nat, int) -> bool, x: nat, y: nat, v: int, order: seq<nat>)
    requires Meet(g, updates, x, y, v) && !Updates(g, updates, y, v) && RespectsData(g, order)
    requires g.nodes[y].mightHaveSideEffect
    ensures EventShows(g, y, v, RunAll(g, Passing(g, updates, x, y, v), order, Lowered(g)).trace)
            <==> RunsBefore(order, x, y)
  {
    if order != [] {
      var p, n := order[..|order| - 1], order[|order| - 1];
      var k := Passing(g, updates, x, y, v);
      var m := RunAll(g, k, p, Lowered(g));
      PrefixRespectsData(g, order);
      PassingVariable(g, updates, x, y, v, p);
      PassingTrace(g, updates, x, y, v, p);
      RespectsIsDistinct(g, order);
      RunsBeforeStep(order, x, y);
      SeesTensor(g, y, v, m.tensors);
      hide RespectsData, RunsBefore, Passing, Written;
      var after := Execute(g, k, n, m).trace;
      var event := Event(n, InputsOf(g, n, m.tensors));
      if g.nodes[n].mightHaveSideEffect {
        OneMoreEvent(g, y, v, m.trace, event);
      }
      if n == y {
        NotYet(order, x, y);
      }
    }
  }

  lemma OneMoreEvent(g: Graph, y: nat, v: int, trace: seq<Event<bool>>, e: Event<bool>)
    ensures EventShows(g, y, v, trace + [e]) <==>
            EventShows(g, y, v, trace) || (e.node == y && Seen(g, y, e.inputs, v))
  {
    var longer := trace + [e];
    assert longer[|trace|] == e;
    if EventShows(g, y, v, trace) {
      var i :| 0 <= i < |trace| && trace[i].node == y && Seen(g, y, trace[i].inputs, v);
      assert longer[i] == trace[i];
    }
  }

  /** Before its last node, `y`, has run, an order has run nothing before `y`. */
  lemma NotYet(order: seq<nat>, x: nat, y: nat)
    requires order != [] && Distinct(order) && order[|order| - 1] == y
    ensures !RunsBefore(order[..|order| - 1], x, y)
  {
  }

  /** Of two nodes that both update the variable, `x` has run, and `y` has not run after it. */
  ghost predicate LastIs(order: seq<nat>, x: nat, y: nat) {
    order != [] &&
    var n := order[|order| - 1];
    n == x || (n != y && LastIs(order[..|order| - 1], x, y))
  }

  lemma DecidingStep(g: Graph, updates: (nat, int) -> bool, x: nat, y: nat, v: int, n: nat, m: Machine<bool, bool>)
    requires Meet(g, updates, x, y, v) && Updates(g, updates, y, v) && n < |g.nodes| && |m.tensors| == g.numTensors
    ensures var after := Execute(g, Deciding(g, updates, x, y, v), n, m).tensors;
            && |after| == g.numTensors
            && after[v] ==
               if n == x then true else if n == y then false
               else if Updates(g, updates, n, v) then m.tensors[v]
               else if g.Produces(n, v) then false
               else m.tensors[v]
  {
    var world := WorldOf(g, n, m);
    if g.Reads(n, v) {
      SeesTensor(g, n, v, m.tensors);
    }
    TensorAfter(g, Deciding(g, updates, x, y, v), n, m, world, false, v);
  }

  lemma {:induction false} DecidingVariable(
    g: Graph, updates: (nat, int) -> bool, x: nat, y: nat, v: int, order: seq<nat>)
    requires Meet(g, updates, x, y, v) && Updates(g, updates, y, v) && RespectsData(g, order)
    ensures var after := RunAll(g, Deciding(g, updates, x, y, v), order, Lowered(g)).tensors;
            |after| == g.numTensors && after[v] == LastIs(order, x, y)
    ensures x !in order ==> !LastIs(order, x, y)
  {
    if order != [] {
      var p, n := order[..|order| - 1], order[|order| - 1];
      PrefixRespectsData(g, order);
      DecidingVariable(g, updates, x, y, v, p);
      hide Execute, Deciding, Meet, RespectsData;
      DecidingStep(g, updates, x, y, v, n, RunAll(g, Deciding(g, updates, x, y, v), p, Lowered(g)));
      assert order == p + [n];
      RunsOnce(g, order);
      if g.Produces(n, v) {
        ReadersAreNotYet(g, updates, x, y, v, order);
      }
    }
  }

  lemma {:induction false} LastIsTheLater(order: seq<nat>, x: nat, y: nat)
    requires Distinct(order) && x in order && y in order && x != y
    ensures LastIs(order, x, y) <==> RunsBefore(order, y, x)
  {
    var p, n := order[..|order| - 1], order[|order| - 1];
    assert order == p + [n];
    RunsBeforeStep(order, y, x);
    if n != x && n != y {
      LastIsTheLater(p, x, y);
    } else if n == y {
      NotYetEither(order, y, x);
    }
  }

  /** A node that comes last has run before nothing. */
  lemma NotYetEither(order: seq<nat>, y: nat, x: nat)
    requires order != [] && Distinct(order) && order[|order| - 1] == y
    ensures !RunsBefore(order, y, x)
  {
  }

  /**
   * Orders that run two nodes in conflict in opposite sequence can be told apart: some kernels
   * that update these variables give different tensors, or different effects.
   */
  lemma ConflictShows(g: Graph, updates: (nat, int) -> bool, a: seq<nat>, b: seq<nat>, x: nat, y: nat)
    returns (k: Kernels<bool, bool>)
    requires g.IndicesInRange() && g.UniqueProducers() && x < |g.nodes| && y < |g.nodes| && Clash(g, updates, x, y)
    requires RespectsData(g, a) && RespectsData(g, b) && Covers(g, a) && Covers(g, b)
    requires RunsBefore(a, x, y) != RunsBefore(b, x, y)
    ensures k.updates == updates && RunAll(g, k, a, Lowered(g)) != RunAll(g, k, b, Lowered(g))
  {
    var v :| Updates(g, updates, x, v) && g.Reads(y, v);
    if Updates(g, updates, y, v) {
      k := Deciding(g, updates, x, y, v);
      DecidingVariable(g, updates, x, y, v, a);
      DecidingVariable(g, updates, x, y, v, b);
      RespectsIsDistinct(g, a);
      RespectsIsDistinct(g, b);
      LastIsTheLater(a, x, y);
      LastIsTheLater(b, x, y);
      OneOrTheOther(a, x, y);
      OneOrTheOther(b, x, y);
    } else {
      k := Passing(g, updates, x, y, v);
      if g.nodes[y].mightHaveSideEffect {
        PassingTrace(g, updates, x, y, v, a);
        PassingTrace(g, updates, x, y, v, b);
      } else {
        var t :| Changes(g, updates, y, t);
        OtherTensor(g, updates, a, y, v, t);
        PassingTensor(g, updates, x, y, v, a, t);
        PassingTensor(g, updates, x, y, v, b, t);
      }
    }
  }

  lemma OneOrTheOther(order: seq<nat>, x: nat, y: nat)
    requires Distinct(order) && x in order && y in order && x != y
    ensures RunsBefore(order, x, y) <==> !RunsBefore(order, y, x)
  {
    var i :| 0 <= i < |order| && order[i] == x;
    var j :| 0 <= j < |order| && order[j] == y;
  }

  /** What a node changes is a tensor, and not one that it only reads. */
  lemma OtherTensor(g: Graph, updates: (nat, int) -> bool, order: seq<nat>, y: nat, v: int, t: int)
    requires g.IndicesInRange() && y < |g.nodes| && RespectsData(g, order) && Covers(g, order)
    requires Changes(g, updates, y, t) && g.Reads(y, v) && !Updates(g, updates, y, v)
    ensures g.IsTensor(t) && t != v
  {
    assert y in order;
    var i :| 0 <= i < |order| && order[i] == y;
    assert y !in order[..i];
    assert !g.Feeds(y, y);
  }

  /* ---- A choice of delegated nodes that swaps two nodes ---- */

  /** No two nodes of the plan are the same node. */
  ghost predicate PlanIsDistinct(g: Graph) {
    |g.nodeIndex| == |g.nodes| && forall i, j :: 0 <= i < j < |g.nodes| ==> g.nodeIndex[i] != g.nodeIndex[j]
  }

  /** Node 0, node `n`, and everything that leads to it. */
  ghost predicate LeadsUpTo(g: Graph, edges: seq<ControlEdge>, d: nat, n: nat) {
    d == 0 || d == n || Leads(g, edges, d, n)
  }

  ghost function NodesUpTo(g: Graph, edges: seq<ControlEdge>, n: nat, k: nat): seq<int>
    requires k <= |g.nodeIndex|
  {
    if k == 0 then []
    else NodesUpTo(g, edges, n, k - 1) + if LeadsUpTo(g, edges, k - 1, n) then [g.nodeIndex[k - 1]] else []
  }

  lemma {:induction false} NodesUpToHas(g: Graph, edges: seq<ControlEdge>, n: nat, k: nat, d: nat)
    requires PlanIsDistinct(g) && k <= |g.nodes| && d < |g.nodes|
    ensures g.nodeIndex[d] in NodesUpTo(g, edges, n, k) <==> d < k && LeadsUpTo(g, edges, d, n)
  {
    if k > 0 {
      NodesUpToHas(g, edges, n, k - 1, d);
      assert d < k - 1 ==> g.nodeIndex[d] != g.nodeIndex[k - 1];
      assert d > k - 1 ==> g.nodeIndex[k - 1] != g.nodeIndex[d];
    }
  }

  /** What a node that leads up to `n` depends on leads up to it too. */
  lemma LeadsOn(g: Graph, edges: seq<ControlEdge>, e: nat, d: nat, n: nat)
    requires d < |g.nodes| && n < |g.nodes| && e in DepsOf(g, edges, d) && (d == n || Leads(g, edges, d, n))
    ensures Leads(g, edges, e, n)
  {
    if d == n {
      assert DependencyPath(g, edges, [e, n]);
    } else {
      var c :| DependencyPath(g, edges, c) && c[0] == d && c[|c| - 1] == n;
      var longer := [e] + c;
      forall i | 0 <= i < |longer| - 1
        ensures longer[i] in DepsOf(g, edges, longer[i + 1])
      {
        assert i > 0 ==> longer[i] == c[i - 1] && longer[i + 1] == c[i];
      }
      assert DependencyPath(g, edges, longer);
    }
  }

  /** Delegating exactly the nodes that lead up to `n` puts them all into the first greedy subset. */
  lemma {:induction false} TheyComeFirst(
    g: Graph, edges: seq<ControlEdge>, p: Problem, greedy: seq<seq<nat>>, n: nat, d: nat)
    requires |g.nodeIndex| == |g.nodes| && n < |g.nodes| && d < |g.nodes| && LeadsUpTo(g, edges, d, n)
    requires p == ProblemOf(g, edges, NodesUpTo(g, edges, n, |g.nodes|), true) && PlanIsDistinct(g)
    requires p.Valid() && Forward(p) && greedy == Partition(p, true, [])
    requires greedy != [] && greedy[0] != [] && greedy[0][0] == 0
    ensures InFirst(greedy, 1, d)
  {
    PartitionIsSound(p, true);
    GreedyIsClosed(p, []);
    NodesUpToHas(g, edges, n, |g.nodes|, d);
    NodesUpToHas(g, edges, n, |g.nodes|, 0);
    forall e | e in p.deps[d]
      ensures InFirst(greedy, 1, e)
    {
      LeadsOn(g, edges, e, d, n);
      TheyComeFirst(g, edges, p, greedy, n, e);
    }
    GreedyHasIt(p, greedy, 0, d);
  }

  /** Nodes that no dependency keeps in order can be made to change places. */
  lemma UnorderedCanSwap(g: Graph, m: nat, n: nat) returns (delegated: seq<int>)
    requires UsableGraph(g) && g.DependencyOrdered() && PlanIsDistinct(g) && 0 < m < n < |g.nodes|
    requires !Leads(g, EffectiveEdges(g, true, None), m, n)
    ensures var p := DefaultProblem(g, delegated, true, true);
            p.Valid() && RunsBefore(Flatten(Partition(p, true, [])), n, m)
  {
    var edges := EffectiveEdges(g, true, None);
    delegated := NodesUpTo(g, edges, n, |g.nodes|);
    var p := DefaultProblem(g, delegated, true, true);
    var greedy := Partition(p, true, []);
    DefaultIsComplete(g, delegated, true, true);
    GreedyStartsWithZero(p);
    TheyComeFirst(g, edges, p, greedy, n, n);
    NodesUpToHas(g, edges, n, |g.nodes|, m);
    NodesUpToHas(g, edges, n, |g.nodes|, 0);
    assert p.kinds[m] != p.kinds[0];
    forall e | 0 <= e < |greedy[0]|
      ensures greedy[0][e] != m
    {
      assert p.kinds[greedy[0][e]] == p.kinds[greedy[0][0]];
    }
    hide Partition, LeadsUpTo, Leads, OneKind, UsableGraph;
    FirstSubsetFirst(greedy, m, n);
  }

  /** What is in the first subset runs before what is in a later one. */
  lemma FirstSubsetFirst(greedy: seq<seq<nat>>, m: nat, n: nat)
    requires greedy != [] && n in greedy[0] && m in Flatten(greedy)
    requires forall e :: 0 <= e < |greedy[0]| ==> greedy[0][e] != m
    ensures RunsBefore(Flatten(greedy), n, m)
  {
    var order := Flatten(greedy);
    assert order == greedy[0] + Flatten(greedy[1..]);
    var i :| 0 <= i < |greedy[0]| && greedy[0][i] == n;
    var j :| 0 <= j < |order| && order[j] == m;
    assert order[i] == n;
  }

  /* ---- The equivalence ---- */

  /** Whichever nodes are delegated, and whatever the kernels with these updates do, nothing changes. */
  ghost predicate AlwaysKeepsMeaning(g: Graph, updates: (nat, int) -> bool)
    requires UsableGraph(g) && g.DependencyOrdered()
  {
    forall delegated: seq<int>, k: Kernels<bool, bool> {:trigger KeepsMeaning(g, delegated, k)} ::
      k.updates == updates ==> KeepsMeaning(g, delegated, k)
  }

  ghost predicate KeepsMeaning(g: Graph, delegated: seq<int>, k: Kernels<bool, bool>)
    requires |g.nodeIndex| == |g.nodes|
  {
    var p := DefaultProblem(g, delegated, true, true);
    p.Valid() && var order := Flatten(Partition(p, true, []));
                 && InPlan(g, order) && InPlan(g, OriginalOrder(g))
                 && forall start: Machine<bool, bool> ::
                      RunAll(g, k, order, start) == RunAll(g, k, OriginalOrder(g), start)
  }

  /** An unordered conflict shows for some choice of delegated nodes and some kernels. */
  lemma UnorderedConflictShows(g: Graph, updates: (nat, int) -> bool, m: nat, n: nat)
    returns (delegated: seq<int>, k: Kernels<bool, bool>)
    requires UsableGraph(g) && g.DependencyOrdered() && PlanIsDistinct(g) && 0 < m < n < |g.nodes|
    requires Conflict(g, updates, m, n) && !Leads(g, EffectiveEdges(g, true, None), m, n)
    ensures k.updates == updates && !KeepsMeaning(g, delegated, k)
  {
    delegated := UnorderedCanSwap(g, m, n);
    var edges := EffectiveEdges(g, true, None);
    var p := DefaultProblem(g, delegated, true, true);
    var order, plan := Flatten(Partition(p, true, [])), OriginalOrder(g);
    DefaultIsComplete(g, delegated, true, true);
    ScheduleRespectsData(g, edges, delegated, true, order);
    PlanRespectsData(g);
    RespectsIsDistinct(g, order);
    RespectsIsDistinct(g, plan);
    assert plan[m] == m && plan[n] == n;
    OneOrTheOther(order, m, n);
    OneOrTheOther(plan, m, n);
    assert RunsBefore(plan, m, n);
    if Clash(g, updates, m, n) {
      k := ConflictShows(g, updates, order, plan, m, n);
    } else {
      k := ConflictShows(g, updates, order, plan, n, m);
    }
  }

  /**
   * Exactly when greedy partitioning is safe for nodes that update variables: data and control
   * dependencies keep any two nodes one of which updates a variable the other reads in order. Node
   * 0 needs no such dependency, because it always comes first.
   */
  lemma GreedyKeepsMeaningIff(g: Graph, updates: (nat, int) -> bool)
    requires UsableGraph(g) && g.DependencyOrdered() && PlanIsDistinct(g)
    ensures AlwaysKeepsMeaning(g, updates) <==> UpdatesOrdered(g, EffectiveEdges(g, true, None), updates, 1)
  {
    hide KeepsMeaning, Leads, Conflict;
    var edges := EffectiveEdges(g, true, None);
    if UpdatesOrdered(g, edges, updates, 1) {
      forall delegated: seq<int>, k: Kernels<bool, bool> | k.updates == updates
        ensures KeepsMeaning(g, delegated, k)
      {
        OrderedKeepsMeaning(g, delegated, k);
      }
    } else {
      var m, n :| 1 <= m < n < |g.nodes| && Conflict(g, updates, m, n) && !Leads(g, edges, m, n);
      var delegated, k := UnorderedConflictShows(g, updates, m, n);
    }
  }

  lemma OrderedKeepsMeaning(g: Graph, delegated: seq<int>, k: Kernels<bool, bool>)
    requires UsableGraph(g) && g.DependencyOrdered() && UpdatesOrdered(g, EffectiveEdges(g, true, None), k.updates, 1)
    ensures KeepsMeaning(g, delegated, k)
  {
    hide RunAll, UpdatesOrdered, Partition;
    DefaultIsComplete(g, delegated, true, true);
    forall start: Machine<bool, bool>
      ensures var p := DefaultProblem(g, delegated, true, true);
              RunAll(g, k, Flatten(Partition(p, true, [])), start) == RunAll(g, k, OriginalOrder(g), start)
    {
      DefaultGreedyKeepsMeaning(g, delegated, k, start);
    }
  }

  /* ---- The condition is needed ---- */

  const PLAIN := Inplace(false, false, false, false, false)

  /** Three unconnected nodes; nodes 1 and 2 read variable 0. */
  const OVERTAKEN: Graph := Graph(
    5, [Node([1], [2], false, PLAIN), Node([0], [3], false, PLAIN), Node([0], [4], false, PLAIN)], [0, 1, 2], 3,
    [1], [], [0])

  /** If node 1 updates the variable, node 2 can be made to see its old value, with kernels to show it. */
  lemma UpdateCanBeOvertaken() returns (delegated: seq<int>, k: Kernels<bool, bool>)
    ensures UsableGraph(OVERTAKEN) && OVERTAKEN.DependencyOrdered()
    ensures k.updates(1, 0) && !KeepsMeaning(OVERTAKEN, delegated, k)
  {
    var g := OVERTAKEN;
    var updates := (n: nat, t: int) => n == 1 && t == 0;
    forall n, t | 0 <= n < 3
      ensures g.Produces(n, t) <==> t == n + 2
      ensures g.Reads(n, t) <==> t == if n == 0 then 1 else 0
    {
      assert g.nodes[n].outputs == [n + 2] && g.nodes[n].inputs == [if n == 0 then 1 else 0];
    }
    assert Updates(g, updates, 1, 0) && Changes(g, updates, 2, 4);
    NoEdges(g);
    delegated, k := UnorderedConflictShows(g, updates, 1, 2);
  }

  lemma {:induction false} NoEffects(g: Graph, order: seq<nat>)
    requires InPlan(g, order) && forall n :: 0 <= n < |g.nodes| ==> !g.nodes[n].mightHaveSideEffect
    ensures Effects(g, order) == []
  {
    if order != [] {
      NoEffects(g, order[..|order| - 1]);
    }
  }

  /** Without data dependencies and side effects nothing leads anywhere. */
  lemma NoEdges(g: Graph)
    requires forall n :: 0 <= n < |g.nodes| ==> !g.nodes[n].mightHaveSideEffect
    requires forall m, n :: 0 <= m < |g.nodes| && 0 <= n < |g.nodes| ==> !g.Feeds(m, n)
    ensures forall m, n :: !Leads(g, EffectiveEdges(g, true, None), m, n)
  {
    NoEffects(g, OriginalOrder(g));
    forall m, n
      ensures !Leads(g, EffectiveEdges(g, true, None), m, n)
    {
      forall c
        ensures !DependencyPath(g, EffectiveEdges(g, true, None), c)
      {
        if |c| >= 2 && c[1] < |g.nodes| {
          assert c[0] !in DepsOf(g, EffectiveEdges(g, true, None), c[1]);
        }
      }
    }
  }
}
