/** The order in which the partitioner schedules a graph means what the original plan means. */
module PartitionMeaning {
  import opened GraphInfo
  import opened Schedule
  import opened ScheduleTheorems
  import opened Reordering

  /** The original execution plan. */
  ghost function OriginalOrder(g: Graph): seq<nat> {
    Range(0, |g.nodes|)
  }

  lemma ScheduleRespectsData(g: Graph, edges: seq<ControlEdge>, delegated: seq<int>, fuse: bool, order: seq<nat>)
    requires |g.nodeIndex| == |g.nodes|
    requires var p := ProblemOf(g, edges, delegated, fuse); p.Valid() && InDependencyOrder(p, order)
    ensures RespectsData(g, order)
  {
    var p := ProblemOf(g, edges, delegated, fuse);
    forall i | 0 <= i < |order|
      ensures order[i] < |g.nodes| && order[i] !in order[..i]
      ensures forall m :: 0 <= m < |g.nodes| && g.Feeds(m, order[i]) ==> m in order[..i]
    {
      assert Ready(p, order[..i], order[i]);
      forall m | 0 <= m < |g.nodes| && g.Feeds(m, order[i]) ensures m in order[..i] {
        assert m in p.deps[order[i]];
      }
    }
  }

  lemma PlanRespectsData(g: Graph)
    requires g.DependencyOrdered()
    ensures RespectsData(g, OriginalOrder(g)) && Covers(g, OriginalOrder(g))
  {
    var order := OriginalOrder(g);
    forall n | 0 <= n < |g.nodes| ensures n in order {
      InRange(0, |g.nodes|, n);
    }
    forall i | 0 <= i < |order|
      ensures order[i] !in order[..i]
      ensures forall m :: 0 <= m < |g.nodes| && g.Feeds(m, order[i]) ==> m in order[..i]
    {
      assert order[..i] == Range(0, i);
      InRange(0, i, i);
      forall m | 0 <= m < |g.nodes| && g.Feeds(m, order[i]) ensures m in order[..i] {
        InRange(0, i, m);
      }
    }
  }

  /* ---- The chain between side-effect nodes ---- */

  /** An edge from every side-effect node of the plan to the next one. */
  ghost function SideEffectChain(effects: seq<nat>): (r: seq<ControlEdge>)
    ensures |r| == if effects == [] then 0 else |effects| - 1
    ensures forall i :: 0 <= i < |r| ==> r[i] == (effects[i], effects[i + 1])
  {
    if |effects| < 2 then []
    else SideEffectChain(effects[..|effects| - 1]) + [(effects[|effects| - 2], effects[|effects| - 1])]
  }

  lemma IndexInPrefix(s: seq<nat>, k: nat, i: nat)
    requires Distinct(s) && k <= |s| && i < |s|
    ensures s[i] in s[..k] <==> i < k
  {
    if i < k {
      assert s[..k][i] == s[i];
    }
  }

  /** The next side-effect node to run is the next one in the plan. */
  lemma NextEffect(
    g: Graph, edges: seq<ControlEdge>, delegated: seq<int>, fuse: bool, before: seq<nat>, n: nat, effects: seq<nat>)
    requires |g.nodeIndex| == |g.nodes| && InPlan(g, effects) && Distinct(effects) && InPlan(g, before)
    requires n < |g.nodes| && g.nodes[n].mightHaveSideEffect
    requires var p := ProblemOf(g, edges, delegated, fuse); p.Valid() && Ready(p, before, n)
    requires forall e :: e in SideEffectChain(effects) ==> e in edges
    requires forall m :: 0 <= m < |g.nodes| ==> (g.nodes[m].mightHaveSideEffect <==> m in effects)
    requires Effects(g, before) <= effects
    ensures |Effects(g, before)| < |effects| && effects[|Effects(g, before)|] == n
  {
    var p, done := ProblemOf(g, edges, delegated, fuse), Effects(g, before);
    assert n in effects;
    var j := Position(effects, n);
    assert effects[..|done|] == done;
    EffectsHas(g, before, n);
    IndexInPrefix(effects, |done|, j);
    if j > 0 {
      var prior := effects[j - 1];
      assert SideEffectChain(effects)[j - 1] == (prior, n);
      assert (prior, n) in edges;
      assert prior in p.deps[n];
      EffectsHas(g, before, prior);
      IndexInPrefix(effects, |done|, j - 1);
    }
  }

  /** The chain makes every schedule keep the side-effect nodes in plan order. */
  lemma {:induction false} ChainKeepsEffects(
    g: Graph, edges: seq<ControlEdge>, delegated: seq<int>, fuse: bool, order: seq<nat>, effects: seq<nat>)
    requires |g.nodeIndex| == |g.nodes| && InPlan(g, effects) && Distinct(effects)
    requires var p := ProblemOf(g, edges, delegated, fuse); p.Valid() && InDependencyOrder(p, order)
    requires forall e :: e in SideEffectChain(effects) ==> e in edges
    requires forall m :: 0 <= m < |g.nodes| ==> (g.nodes[m].mightHaveSideEffect <==> m in effects)
    ensures InPlan(g, order) && Effects(g, order) <= effects
  {
    var p := ProblemOf(g, edges, delegated, fuse);
    if order != [] {
      var before, n := order[..|order| - 1], order[|order| - 1];
      forall i | 0 <= i < |before| ensures before[i] < p.Size() && Ready(p, before[..i], before[i]) {
        assert before[..i] == order[..i] && before[i] == order[i];
      }
      ChainKeepsEffects(g, edges, delegated, fuse, before, effects);
      assert Ready(p, before, n);
      if g.nodes[n].mightHaveSideEffect {
        NextEffect(g, edges, delegated, fuse, before, n, effects);
      }
    }
  }

  /** All effects have happened once all nodes have run. */
  lemma AllEffectsHappen(g: Graph, order: seq<nat>, effects: seq<nat>)
    requires InPlan(g, order) && Covers(g, order) && Distinct(effects) && InPlan(g, effects)
    requires forall m :: 0 <= m < |g.nodes| ==> (g.nodes[m].mightHaveSideEffect <==> m in effects)
    requires Effects(g, order) <= effects
    ensures Effects(g, order) == effects
  {
    var done := Effects(g, order);
    if |done| < |effects| {
      var n := effects[|done|];
      assert n in effects;
      assert n in order;
      EffectsHas(g, order, n);
    }
  }

  /* ---- Dependency-ordered graphs are always scheduled ---- */

  ghost predicate ForwardEdges(edges: seq<ControlEdge>) {
    forall e :: e in edges ==> e.0 < e.1
  }

  lemma OrderedGraphIsForward(g: Graph, edges: seq<ControlEdge>, delegated: seq<int>, fuse: bool)
    requires |g.nodeIndex| == |g.nodes| && g.DependencyOrdered() && ForwardEdges(edges)
    ensures Forward(ProblemOf(g, edges, delegated, fuse))
  {
    var p := ProblemOf(g, edges, delegated, fuse);
    forall n, d | 0 <= n < p.Size() && d in p.deps[n] ensures d < n {
      if g.Feeds(d, n) {
        var t :| g.Produces(d, t) && g.Reads(n, t);
      }
    }
  }

  lemma {:induction false} ForwardPathGrows(p: Problem, c: seq<nat>)
    requires p.Valid() && Forward(p) && |c| >= 2 && IsPath(p, c)
    ensures c[0] < c[|c| - 1]
  {
    assert c[|c| - 2] in p.deps[c[|c| - 1]];
    if |c| > 2 {
      ForwardPathGrows(p, c[..|c| - 1]);
    }
  }

  /** Dependency-ordered input leaves no node behind. */
  lemma ForwardIsComplete(p: Problem, greedy: bool)
    requires p.Valid() && Forward(p)
    ensures Complete(p, Flatten(Partition(p, greedy, [])))
  {
    forall c | IsPath(p, c) && |c| >= 2 ensures !IsCycle(p, c) {
      ForwardPathGrows(p, c);
    }
    CompleteIffAcyclic(p, greedy);
  }

  /* ---- Nodes in conflict over a variable ---- */

  /** Each node of `c` computes an input of the next one, or a control edge leads there. */
  ghost predicate DependencyPath(g: Graph, edges: seq<ControlEdge>, c: seq<nat>) {
    && |c| >= 2 && (forall i :: 0 <= i < |c| ==> c[i] < |g.nodes|)
    && forall i :: 0 <= i < |c| - 1 ==> c[i] in DepsOf(g, edges, c[i + 1])
  }

  /** Data and control dependencies make node `m` run before node `n`. */
  ghost predicate Leads(g: Graph, edges: seq<ControlEdge>, m: nat, n: nat) {
    exists c :: DependencyPath(g, edges, c) && c[0] == m && c[|c| - 1] == n
  }

  /** Dependencies keep any two nodes in conflict over a variable in plan order, `first` being the first to matter. */
  ghost predicate UpdatesOrdered(g: Graph, edges: seq<ControlEdge>, updates: (nat, int) -> bool, first: nat) {
    forall m, n :: first <= m < n < |g.nodes| && Conflict(g, updates, m, n) ==> Leads(g, edges, m, n)
  }

  lemma LeadingNodeIsEarlier(
    g: Graph, edges: seq<ControlEdge>, delegated: seq<int>, fuse: bool, order: seq<nat>, i: nat, j: nat)
    requires |g.nodeIndex| == |g.nodes|
    requires var p := ProblemOf(g, edges, delegated, fuse);
             p.Valid() && InDependencyOrder(p, order) && Complete(p, order)
    requires i < |order| && j < |order| && Leads(g, edges, order[j], order[i])
    ensures j < i
  {
    var p := ProblemOf(g, edges, delegated, fuse);
    var c :| DependencyPath(g, edges, c) && c[0] == order[j] && c[|c| - 1] == order[i];
    assert IsPath(p, c);
    PathGoesForward(p, order, c);
    ScheduleRespectsData(g, edges, delegated, fuse, order);
    OnlyPosition(g, order, i);
    OnlyPosition(g, order, j);
  }

  lemma OnlyPosition(g: Graph, order: seq<nat>, i: nat)
    requires RespectsData(g, order) && i < |order|
    ensures Position(order, order[i]) == i
  {
    RespectsIsDistinct(g, order);
  }

  /** Such a schedule agrees with the plan on all nodes in conflict. */
  lemma OrderedUpdatesAgree(
    g: Graph, edges: seq<ControlEdge>, delegated: seq<int>, fuse: bool, order: seq<nat>, updates: (nat, int) -> bool,
    first: nat)
    requires |g.nodeIndex| == |g.nodes| && g.DependencyOrdered()
    requires var p := ProblemOf(g, edges, delegated, fuse);
             p.Valid() && InDependencyOrder(p, order) && Complete(p, order)
    requires UpdatesOrdered(g, edges, updates, first)
    requires first == 0 || (first == 1 && order != [] && order[0] == 0)
    ensures InPlan(g, order) && InPlan(g, OriginalOrder(g))
    ensures ConflictsAgree(g, updates, order, OriginalOrder(g))
  {
    ScheduleRespectsData(g, edges, delegated, fuse, order);
    PlanRespectsData(g);
    RespectsIsDistinct(g, order);
    hide Conflict, Leads, RespectsData;
    var plan := OriginalOrder(g);
    forall i, j, p, q | 0 <= i < j < |order| && 0 <= p < q < |plan| && order[i] == plan[q] && order[j] == plan[p]
      ensures !Conflict(g, updates, order[i], order[j])
    {
      if p >= first && Conflict(g, updates, order[i], order[j]) {
        EitherWay(g, updates, p, q);
        LeadingNodeIsEarlier(g, edges, delegated, fuse, order, i, j);
      }
    }
  }

  lemma EitherWay(g: Graph, updates: (nat, int) -> bool, m: nat, n: nat)
    requires m < |g.nodes| && n < |g.nodes|
    ensures Conflict(g, updates, m, n) <==> Conflict(g, updates, n, m)
  {
  }

  /* ---- The theorems ---- */

  /**
   * With the chain between side-effect nodes, which is what the partitioner adds when the
   * caller gives no control edges, the greedy schedule of a dependency-ordered graph means
   * what the plan means: same tensors, same side effects in the same order. Nodes in conflict
   * over a variable tensor must not change places.
   */
  lemma GreedyKeepsMeaning<V, W>(
    g: Graph, edges: seq<ControlEdge>, delegated: seq<int>, fuse: bool, k: Kernels<V, W>, start: Machine<V, W>)
    requires |g.nodeIndex| == |g.nodes| && g.UniqueProducers() && g.DependencyOrdered()
    requires InPlan(g, OriginalOrder(g))
    requires forall e :: e in SideEffectChain(Effects(g, OriginalOrder(g))) ==> e in edges
    requires ProblemOf(g, edges, delegated, fuse).Valid()
    requires Complete(ProblemOf(g, edges, delegated, fuse),
                      Flatten(Partition(ProblemOf(g, edges, delegated, fuse), true, [])))
    requires var order := Flatten(Partition(ProblemOf(g, edges, delegated, fuse), true, []));
             InPlan(g, order) && ConflictsAgree(g, k.updates, order, OriginalOrder(g))
    ensures var order := Flatten(Partition(ProblemOf(g, edges, delegated, fuse), true, []));
            RespectsData(g, order) && RunAll(g, k, order, start) == RunAll(g, k, OriginalOrder(g), start)
  {
    var p := ProblemOf(g, edges, delegated, fuse);
    var order, effects := Flatten(Partition(p, true, [])), Effects(g, OriginalOrder(g));
    PartitionIsSound(p, true);
    ScheduleRespectsData(g, edges, delegated, fuse, order);
    PlanRespectsData(g);
    EffectsInPlan(g, OriginalOrder(g));
    EffectsDistinct(g, OriginalOrder(g));
    forall m | 0 <= m < |g.nodes| ensures g.nodes[m].mightHaveSideEffect <==> m in effects {
      EffectsHas(g, OriginalOrder(g), m);
    }
    ChainKeepsEffects(g, edges, delegated, fuse, order, effects);
    AllEffectsHappen(g, order, effects);
    SameMeaning(g, k, order, OriginalOrder(g), start);
  }

  /**
   * With any control edges and in either mode, a complete schedule of a dependency-ordered
   * graph means what the plan means as soon as it runs the side-effect nodes, and any two nodes
   * in conflict over a variable, in plan order.
   */
  lemma ScheduleKeepsMeaning<V, W>(
    g: Graph, edges: seq<ControlEdge>, delegated: seq<int>, fuse: bool, greedy: bool, k: Kernels<V, W>,
    start: Machine<V, W>)
    requires |g.nodeIndex| == |g.nodes| && g.UniqueProducers() && g.DependencyOrdered()
    requires ProblemOf(g, edges, delegated, fuse).Valid()
    requires Complete(ProblemOf(g, edges, delegated, fuse),
                      Flatten(Partition(ProblemOf(g, edges, delegated, fuse), greedy, [])))
    ensures var order := Flatten(Partition(ProblemOf(g, edges, delegated, fuse), greedy, []));
            && RespectsData(g, order) && InPlan(g, OriginalOrder(g))
            && (Effects(g, order) == Effects(g, OriginalOrder(g))
                && ConflictsAgree(g, k.updates, order, OriginalOrder(g)) ==>
                  RunAll(g, k, order, start) == RunAll(g, k, OriginalOrder(g), start))
  {
    var p := ProblemOf(g, edges, delegated, fuse);
    var order := Flatten(Partition(p, greedy, []));
    PartitionIsSound(p, greedy);
    ScheduleRespectsData(g, edges, delegated, fuse, order);
    PlanRespectsData(g);
    if Effects(g, order) == Effects(g, OriginalOrder(g)) && ConflictsAgree(g, k.updates, order, OriginalOrder(g)) {
      SameMeaning(g, k, order, OriginalOrder(g), start);
    }
  }

  /**
   * Even if control edges of the caller make side-effect nodes change places, a complete schedule
   * gives every tensor the value the plan gives it, as long as no kernel looks at the world and
   * nodes in conflict over a variable keep their places.
   */
  lemma ScheduleKeepsValues<V(!new), W(!new)>(
    g: Graph, edges: seq<ControlEdge>, delegated: seq<int>, fuse: bool, greedy: bool, k: Kernels<V, W>,
    start: Machine<V, W>)
    requires |g.nodeIndex| == |g.nodes| && g.UniqueProducers() && g.DependencyOrdered() && IgnoresWorld(k)
    requires ProblemOf(g, edges, delegated, fuse).Valid()
    requires Complete(ProblemOf(g, edges, delegated, fuse),
                      Flatten(Partition(ProblemOf(g, edges, delegated, fuse), greedy, [])))
    ensures var order := Flatten(Partition(ProblemOf(g, edges, delegated, fuse), greedy, []));
            && RespectsData(g, order) && InPlan(g, OriginalOrder(g))
            && (ConflictsAgree(g, k.updates, order, OriginalOrder(g)) ==>
                  RunAll(g, k, order, start).tensors == RunAll(g, k, OriginalOrder(g), start).tensors)
  {
    var p := ProblemOf(g, edges, delegated, fuse);
    var order := Flatten(Partition(p, greedy, []));
    PartitionIsSound(p, greedy);
    ScheduleRespectsData(g, edges, delegated, fuse, order);
    PlanRespectsData(g);
    if ConflictsAgree(g, k.updates, order, OriginalOrder(g)) {
      SameValues(g, k, order, OriginalOrder(g), start);
    }
  }
}
