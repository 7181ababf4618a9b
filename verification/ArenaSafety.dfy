/** The end-to-end guarantees of the arena planner. */
module ArenaSafety {
  import opened Common
  import opened GraphInfo
  import opened Liveness
  import opened InPlace
  import opened InPlaceSafety
  import opened LivenessTheorems
  import opened ArenaLayout
  import opened ArenaLifetimes
  import opened ArenaPlanner
  import opened SimplePlanner
  import opened ArenaExecution

  /** Planned tensors: while one is in use, the owner of its buffer is alive. */
  lemma PlannedOwnerCoversUse(p: Setting, actual: Sharing, t: int, n: nat)
    requires p.Valid() && p.g.WellFormed() && SharingOk(p, actual) && n < |p.g.nodes| && t != OPTIONAL_TENSOR
    requires t in p.g.inputs || t in p.g.variables || exists a :: 0 <= a <= n && p.g.Produces(a, t)
    requires Pinned(p.g, t) || exists b :: n <= b < |p.g.nodes| && (p.g.Reads(b, t) || p.g.Produces(b, t))
    requires AllocSpec(p.g, Resolve(actual, t)) != NODE_NOT_ASSIGNED
    ensures var o := Resolve(actual, t);
            AllocSpec(p.g, o) <= n <= DeallocSpec(p.g, FinalSharing(p), p.preserve, o)
  {
    var share := FinalSharing(p);
    if t in share {
      var m := SharedAreOutputs(p, |p.g.nodes|, t);
      assert p.g.Computed(t);
      SharedIsNotRead(p, t);
    }
    if Resolve(actual, t) == Resolve(share, t) {
      if a :| 0 <= a <= n && p.g.Produces(a, t) {
        LifetimeCoversUses(p, t, a);
      }
      if b :| n <= b < |p.g.nodes| && (p.g.Reads(b, t) || p.g.Produces(b, t)) {
        LifetimeCoversUses(p, t, b);
      }
    }
  }

  /** The same for every tensor, temporaries included, in terms of the planner's arrays. */
  lemma OwnerCoversUse(
    p: Setting, temporaries: seq<seq<int>>, l: Lifetimes, frontier: int, numTensors: nat, actual: Sharing, t: int,
    n: nat)
    requires p.Valid() && p.g.WellFormed() && TemporariesOk(p.g, temporaries, numTensors)
    requires LifetimesOk(p, temporaries, l, frontier) && SharingOk(p, actual) && p.g.numTensors <= |l.allocNode|
    requires n < |p.g.nodes| && 0 <= t < |l.allocNode| && InUse(p.g, temporaries, t, n)
    requires 0 <= Resolve(actual, t) < |l.allocNode| && l.allocNode[Resolve(actual, t)] != NODE_NOT_ASSIGNED
    ensures var o := Resolve(actual, t); l.allocNode[o] <= n <= l.deallocNode[o]
  {
    var o := Resolve(actual, t);
    if t in temporaries[n] {
      TemporaryIsFree(p, temporaries, l, frontier, numTensors, n, t);
      assert TemporaryOk(l, p.preserve, frontier, n, t);
    } else {
      assert Mentioned(p.g, t);
      NoTemporary(p.g, temporaries, numTensors, t);
      if t in actual {
        var m := OwnerIsRead(p, |p.g.nodes|, t);
        assert Mentioned(p.g, o);
        NoTemporary(p.g, temporaries, numTensors, o);
      }
      assert PlannedOk(p, l, o);
      PlannedOwnerCoversUse(p, actual, t, n);
    }
  }

  /**
   * Safety: take any state the protocol reaches. Two tensors of the arena that are in use at
   * the same node, with space of their own owners, never share a byte unless they share the
   * whole buffer; and both lie below the high-water mark.
   */
  lemma TensorsInUseNeverOverlap(planner: ArenaPlanner, s: int, t: int, n: nat)
    requires planner.Valid() && n < |planner.graph.nodes| && HasWindow(planner, s) && HasWindow(planner, t)
    requires Resolve(planner.actualTensorId, s) != Resolve(planner.actualTensorId, t)
    requires InUse(planner.graph, planner.temporaries, s, n) && InUse(planner.graph, planner.temporaries, t, n)
    ensures var c, p := planner.Ctx(), planner.State();
            var i, j := p.allocs[Resolve(p.actual, s)].offset, p.allocs[Resolve(p.actual, t)].offset;
            && (i + c.tensors[s].bytes <= j || j + c.tensors[t].bytes <= i)
            && i + c.tensors[s].bytes <= p.arena.highWater && j + c.tensors[t].bytes <= p.arena.highWater
    ensures planner.arena.buffer.ptr != NULL_PTR ==>
              var u, v := planner.tensors[s], planner.tensors[t];
              u.data + u.bytes <= v.data || v.data + v.bytes <= u.data
  {
    hide Setting.Valid, TemporariesOk, LifetimesOk, NodesToTensorsOk, GraphOk, Graph.WellFormed, CountersExact;
    hide Context.LayoutOk, Context.PersistentOk, Context.AllSettled, Context.PointersOk;
    GraphFacts(planner.graph);
    OwnersStayOwners(planner.setting, planner.actualTensorId);
    PlacedIsAssigned(planner.Ctx(), planner.State(), planner.frontier, Resolve(planner.actualTensorId, s));
    PlacedIsAssigned(planner.Ctx(), planner.State(), planner.frontier, Resolve(planner.actualTensorId, t));
    OwnerCoversUse(planner.setting, planner.temporaries, planner.Times(), planner.frontier, |planner.tensors|,
                   planner.actualTensorId, s, n);
    OwnerCoversUse(planner.setting, planner.temporaries, planner.Times(), planner.frontier, |planner.tensors|,
                   planner.actualTensorId, t, n);
    OwnersApart(planner.Ctx(), planner.State(), planner.frontier, s, t, n, planner.arena.buffer.ptr,
                planner.persistentArena.buffer.ptr);
  }

  lemma PlacedIsAssigned(c: Context, p: Plan, frontier: int, t: int)
    requires c.Shape(p) && c.LayoutOk(p, frontier, frontier) && c.Placed(p, t)
    ensures 0 <= c.allocNode[t] <= frontier
  {
  }

  /** The placement side: two owners alive at the same node are apart, and so are the tensors in their buffers. */
  lemma OwnersApart(
    c: Context, p: Plan, frontier: int, s: int, t: int, n: int, base: nat, persistentBase: nat)
    requires c.Shape(p) && c.LayoutOk(p, frontier, frontier) && c.AllSettled(p, frontier)
    requires c.PointersOk(p, base, persistentBase, frontier)
    requires forall x :: x in p.actual ==> p.actual[x] !in p.actual
    requires 0 <= s < |p.allocs| && c.IsRw(s) && c.allocNode[s] <= frontier && c.tensors[s].bytes > 0
    requires 0 <= t < |p.allocs| && c.IsRw(t) && c.allocNode[t] <= frontier && c.tensors[t].bytes > 0
    requires c.Placed(p, Resolve(p.actual, s)) && c.Placed(p, Resolve(p.actual, t))
    requires Resolve(p.actual, s) != Resolve(p.actual, t)
    requires c.allocNode[Resolve(p.actual, s)] <= n <= c.deallocNode[Resolve(p.actual, s)]
    requires c.allocNode[Resolve(p.actual, t)] <= n <= c.deallocNode[Resolve(p.actual, t)]
    ensures var a, b := p.allocs[Resolve(p.actual, s)], p.allocs[Resolve(p.actual, t)];
            && a.size == c.tensors[s].bytes && b.size == c.tensors[t].bytes
            && a.DisjointFrom(b) && a.End() <= p.arena.highWater && b.End() <= p.arena.highWater
    ensures base != NULL_PTR ==> c.tensors[s].data + c.tensors[s].bytes <= c.tensors[t].data
                                 || c.tensors[t].data + c.tensors[t].bytes <= c.tensors[s].data
  {
    var o, q := Resolve(p.actual, s), Resolve(p.actual, t);
    assert c.Settled(p, s) && c.Settled(p, t) && c.Settled(p, o) && c.Settled(p, q);
    assert p.allocs[o].CompatibleWith(p.allocs[q]);
    if base != NULL_PTR {
      assert c.PointerRight(p, base, s) && c.PointerRight(p, base, t);
    }
  }

  /* ---- Execution ---- */

  /** `t` is placed in the arena, with space of its own or of the owner of its buffer. */
  ghost predicate IsPlaced(c: Context, p: Plan, frontier: int, t: int) {
    && 0 <= t < |p.allocs| && t < |c.allocNode| && c.IsRw(t) && c.allocNode[t] <= frontier && c.tensors[t].bytes > 0
    && c.Placed(p, Resolve(p.actual, t))
  }

  /** `t` has been placed in the persistent arena, and its space is still large enough. */
  ghost predicate IsPlacedForever(c: Context, p: Plan, frontier: int, t: int) {
    && 0 <= t < |p.allocs| && t < |c.allocNode| && c.PlacedForever(p, t) && c.allocNode[t] <= frontier
    && 0 < c.tensors[t].bytes <= p.allocs[t].size
  }

  /** `t` belongs in an arena, but has no bytes. */
  ghost predicate IsEmpty(c: Context, p: Plan, frontier: int, t: int) {
    && 0 <= t < |p.allocs| && t < |c.allocNode| && (c.IsRw(t) || c.IsPersistent(t))
    && c.allocNode[t] <= frontier && c.tensors[t].bytes == 0
  }

  ghost predicate IsThere(c: Context, p: Plan, frontier: int, t: int) {
    IsPlaced(c, p, frontier, t) || IsPlacedForever(c, p, frontier, t) || IsEmpty(c, p, frontier, t)
  }

  ghost function WindowIn(c: Context, p: Plan, frontier: int, t: int): Window
    requires IsThere(c, p, frontier, t)
  {
    if IsPlaced(c, p, frontier, t) then
      Window(false, Resolve(p.actual, t), p.allocs[Resolve(p.actual, t)].offset, c.tensors[t].bytes)
    else if IsPlacedForever(c, p, frontier, t) then Window(true, t, p.allocs[t].offset, c.tensors[t].bytes)
    else Window(false, t, 0, 0)
  }

  /** Where all tensors are. */
  ghost function PlacementIn(c: Context, p: Plan, frontier: int): Placement {
    Placement(map t | 0 <= t < |p.allocs| && IsThere(c, p, frontier, t) :: WindowIn(c, p, frontier, t),
              set t | 0 <= t < |c.tensors| && c.tensors[t].allocationType.Elsewhere?)
  }

  ghost predicate HasWindow(planner: ArenaPlanner, t: int)
    reads planner, planner.arena, planner.persistentArena
  {
    IsPlaced(planner.Ctx(), planner.State(), planner.frontier, t)
  }

  ghost function PlacementOf(planner: ArenaPlanner): Placement
    reads planner, planner.arena, planner.persistentArena
  {
    PlacementIn(planner.Ctx(), planner.State(), planner.frontier)
  }

  /**
   * Every tensor of the arena whose node has been reached, other than an empty one, has a
   * window, unless the tensor whose buffer it borrows comes from nowhere.
   */
  lemma ReachedTensorsHaveWindows(planner: ArenaPlanner, t: int)
    requires planner.Valid() && 0 <= t < |planner.allocs| && planner.allocNode[t] <= planner.frontier
    requires planner.Ctx().IsRw(t) && planner.tensors[t].bytes > 0
    requires var o := Resolve(planner.actualTensorId, t);
             0 <= o < |planner.allocs| && planner.allocNode[o] != NODE_NOT_ASSIGNED
    ensures HasWindow(planner, t)
  {
    hide Setting.Valid, TemporariesOk, LifetimesOk, NodesToTensorsOk, GraphOk, Graph.WellFormed, CountersExact;
    hide Context.LayoutOk, Context.PersistentOk, Context.PointersOk, FinalSharing, SharingOk;
    GraphFacts(planner.graph);
    OwnersStayOwners(planner.setting, planner.actualTensorId);
    OwnersAreOld(planner.setting, planner.temporaries, planner.Times(), planner.frontier, |planner.tensors|,
                 planner.actualTensorId);
    var c, p := planner.Ctx(), planner.State();
    var o := Resolve(p.actual, t);
    assert c.Settled(p, t) && c.Settled(p, o);
  }

  /** A placed tensor comes from outside, is computed, or is a temporary. */
  lemma PlacedComesFromSomewhere(
    p: Setting, temporaries: seq<seq<int>>, l: Lifetimes, frontier: int, t: int)
    requires p.Valid() && p.g.WellFormed() && LifetimesOk(p, temporaries, l, frontier)
    requires 0 <= t < |l.allocNode| && l.allocNode[t] < NODE_NOT_ASSIGNED
    ensures Source(p.g, t) || p.g.Computed(t) || IsTemporary(temporaries, t)
  {
    if !IsTemporary(temporaries, t) {
      assert PlannedOk(p, l, t);
      if !Source(p.g, t) {
        assert p.g.Produces(FirstProducer(p.g, t, 0), t);
      }
    }
  }

  lemma WindowIsItsOwners(c: Context, p: Plan, frontier: int, t: int)
    requires c.Shape(p) && c.LayoutOk(p, frontier, frontier) && c.AllSettled(p, frontier)
    requires forall x :: x in p.actual ==> p.actual[x] !in p.actual
    requires IsPlaced(c, p, frontier, t)
    ensures var o := Resolve(p.actual, t);
            && c.IsRw(o) && p.allocs[o].size == c.tensors[o].bytes == c.tensors[t].bytes
            && p.allocs[o].End() <= p.arena.highWater
  {
    assert c.Settled(p, t) && c.Settled(p, Resolve(p.actual, t));
  }

  /** One window: where its tensor comes from, who owns it, and how large it is. */
  lemma WindowIsSound(planner: ArenaPlanner, t: int)
    requires planner.Valid() && HasWindow(planner, t)
    ensures Source(planner.graph, t) || planner.graph.Computed(t) || IsTemporary(planner.temporaries, t)
    ensures var o := Resolve(planner.actualTensorId, t);
            && (o == t || (t in FinalSharing(planner.setting) && o == FinalSharing(planner.setting)[t]))
            && 0 <= o < |planner.allocs| && planner.Ctx().IsRw(o)
            && planner.tensors[t].bytes == planner.allocs[o].size == planner.tensors[o].bytes
            && planner.allocs[o].End() <= planner.arena.highWaterMark
  {
    hide Setting.Valid, TemporariesOk, LifetimesOk, NodesToTensorsOk, GraphOk, Graph.WellFormed, CountersExact;
    hide Context.LayoutOk, Context.PersistentOk, Context.AllSettled, Context.PointersOk;
    GraphFacts(planner.graph);
    OwnersStayOwners(planner.setting, planner.actualTensorId);
    PlacedComesFromSomewhere(planner.setting, planner.temporaries, planner.Times(), planner.frontier, t);
    WindowIsItsOwners(planner.Ctx(), planner.State(), planner.frontier, t);
  }

  /** The same for any tensor that is there: its owner's size tells how large its window is. */
  lemma AnyWindowIsSound(planner: ArenaPlanner, t: int)
    requires planner.Valid() && t in PlacementOf(planner).at
    ensures 0 <= t && (Source(planner.graph, t) || planner.graph.Computed(t) || IsTemporary(planner.temporaries, t))
    ensures var w := PlacementOf(planner).at[t];
            && (w.owner == t || (t in FinalSharing(planner.setting) && w.owner == FinalSharing(planner.setting)[t]))
            && 0 <= w.owner < |planner.allocs| && w.size == planner.tensors[w.owner].bytes
            && w.forever == (planner.Ctx().IsPersistent(w.owner) && w.size > 0)
            && w.offset == (if w.size == 0 then 0 else planner.allocs[w.owner].offset)
            && (w.size > 0 && !w.forever ==> w.End() <= planner.arena.highWaterMark)
            && (w.forever ==> w.End() <= planner.persistentArena.highWaterMark)
  {
    hide Setting.Valid, TemporariesOk, LifetimesOk, NodesToTensorsOk, GraphOk, Graph.WellFormed, CountersExact;
    hide Context.LayoutOk, Context.AllSettled, Context.PointersOk, FinalSharing;
    GraphFacts(planner.graph);
    PlacedComesFromSomewhere(planner.setting, planner.temporaries, planner.Times(), planner.frontier, t);
    if IsPlaced(planner.Ctx(), planner.State(), planner.frontier, t) {
      WindowIsSound(planner, t);
    }
  }

  /** Persistent tensors are apart for good. */
  lemma PersistentWindowsApart(c: Context, p: Plan, frontier: int, s: int, t: int)
    requires c.Shape(p) && c.PersistentOk(p) && s != t
    requires IsPlacedForever(c, p, frontier, s) && IsPlacedForever(c, p, frontier, t)
    ensures WindowIn(c, p, frontier, s).DisjointFrom(WindowIn(c, p, frontier, t))
  {
  }

  lemma WindowsApart(planner: ArenaPlanner, s: int, t: int, n: nat)
    requires planner.Valid() && n < |planner.graph.nodes|
    requires var w := PlacementOf(planner); s in w.at && t in w.at && w.at[s].owner != w.at[t].owner
    requires InUse(planner.graph, planner.temporaries, s, n) && InUse(planner.graph, planner.temporaries, t, n)
    ensures PlacementOf(planner).at[s].DisjointFrom(PlacementOf(planner).at[t])
  {
    hide Setting.Valid, TemporariesOk, LifetimesOk, NodesToTensorsOk, GraphOk, Graph.WellFormed, CountersExact;
    hide Context.LayoutOk, Context.PersistentOk, Context.AllSettled, Context.PointersOk, SharingOk, InUse;
    var c, p, frontier := planner.Ctx(), planner.State(), planner.frontier;
    if IsPlaced(c, p, frontier, s) && IsPlaced(c, p, frontier, t) {
      TensorsInUseNeverOverlap(planner, s, t, n);
    } else if IsPlacedForever(c, p, frontier, s) && IsPlacedForever(c, p, frontier, t) {
      PersistentWindowsApart(c, p, frontier, s, t);
    }
  }

  /** Every state the protocol reaches has safe windows, all below the high-water marks. */
  lemma PlannedWindowsAreSafe(planner: ArenaPlanner)
    requires planner.Valid()
    ensures SafeWindows(planner.setting, planner.temporaries, PlacementOf(planner))
    ensures forall t :: t in PlacementOf(planner).at ==>
              var w := PlacementOf(planner).at[t];
              w.End() <= if w.forever then planner.persistentArena.highWaterMark else planner.arena.highWaterMark
  {
    hide Setting.Valid, LifetimesOk, NodesToTensorsOk, GraphOk, Graph.WellFormed, CountersExact, InUse, FinalSharing;
    hide Context.LayoutOk, Context.PersistentOk, Context.AllSettled, Context.PointersOk, SharingOk, PlacementOf;
    GraphFacts(planner.graph);
    var w := PlacementOf(planner);
    forall t | t in w.at
      ensures 0 <= t && (Source(planner.graph, t) || planner.graph.Computed(t) || IsTemporary(planner.temporaries, t))
      ensures w.at[t].owner == t
              || (t in FinalSharing(planner.setting) && w.at[t].owner == FinalSharing(planner.setting)[t])
      ensures var o := w.at[t].owner;
              && 0 <= o < |planner.allocs|
              && w.at[t] == Window(planner.Ctx().IsPersistent(o) && planner.tensors[o].bytes > 0, o,
                                   if planner.tensors[o].bytes == 0 then 0 else planner.allocs[o].offset,
                                   planner.tensors[o].bytes)
      ensures w.at[t].End()
              <= if w.at[t].forever then planner.persistentArena.highWaterMark else planner.arena.highWaterMark
    {
      AnyWindowIsSound(planner, t);
    }
    forall s, t, n: nat |
      && n < |planner.graph.nodes| && s in w.at && t in w.at && w.at[s].owner != w.at[t].owner
      && InUse(planner.graph, planner.temporaries, s, n) && InUse(planner.graph, planner.temporaries, t, n)
      ensures w.at[s].DisjointFrom(w.at[t])
    {
      WindowsApart(planner, s, t, n);
    }
  }

  /* ---- Nodes that have memory for all their tensors ---- */

  /** If `t` is persistent and not empty, it borrows nothing and has not outgrown its space. */
  ghost predicate HasItsSpace(c: Context, p: Plan, t: int) {
    c.IsPersistent(t) && c.tensors[t].bytes > 0 ==>
      t !in p.actual && 0 <= t < |p.allocs| && c.tensors[t].bytes <= p.allocs[t].size
  }

  /** Node `n` reads `t`, computes it, or uses it as a temporary. */
  predicate Uses(g: Graph, temporaries: seq<seq<int>>, n: nat, t: int)
    requires n < |g.nodes| == |temporaries|
  {
    t in g.nodes[n].inputs || t in g.nodes[n].outputs || t in temporaries[n]
  }

  /** Every tensor of an arena that some node reads is a graph input, a variable, or computed. */
  ghost predicate NothingFromNowhere(planner: ArenaPlanner)
    reads planner
  {
    forall n, t :: 0 <= n < |planner.graph.nodes| && planner.graph.Reads(n, t)
                   && (planner.Ctx().IsRw(t) || planner.Ctx().IsPersistent(t)) ==>
                     Source(planner.graph, t) || planner.graph.Computed(t)
  }

  /** A tensor of the graph that node `n` uses is first needed at node `n` or before, unless it comes from nowhere. */
  lemma UsedIsReached(
    p: Setting, temporaries: seq<seq<int>>, l: Lifetimes, frontier: int, numTensors: nat, n: nat, t: int)
    requires p.Valid() && p.g.WellFormed() && TemporariesOk(p.g, temporaries, numTensors)
    requires LifetimesOk(p, temporaries, l, frontier) && n < |p.g.nodes| && 0 <= t < |l.allocNode|
    requires p.g.Reads(n, t) || p.g.Produces(n, t)
    ensures Source(p.g, t) || p.g.Computed(t) ==> l.allocNode[t] <= n
  {
    assert Mentioned(p.g, t);
    NoTemporary(p.g, temporaries, numTensors, t);
    assert PlannedOk(p, l, t);
    if !Source(p.g, t) && p.g.Computed(t) {
      var m :| 0 <= m < |p.g.nodes| && p.g.Produces(m, t);
      assert p.g.Reads(n, t) ==> m < n;
    }
  }

  /** The owner of a buffer that is borrowed has a first node. */
  lemma OwnerIsReached(planner: ArenaPlanner, t: int)
    requires planner.Valid() && NothingFromNowhere(planner) && 0 <= t < |planner.allocs|
    requires planner.Ctx().IsRw(t) && planner.tensors[t].bytes > 0 && planner.allocNode[t] <= planner.frontier
    ensures var o := Resolve(planner.actualTensorId, t);
            0 <= o < |planner.allocs| && planner.allocNode[o] != NODE_NOT_ASSIGNED
  {
    hide Setting.Valid, TemporariesOk, NodesToTensorsOk, GraphOk, CountersExact;
    hide Context.LayoutOk, Context.PersistentOk, Context.PointersOk, AllocSpec, DeallocSpec;
    GraphFacts(planner.graph);
    var c, p := planner.Ctx(), planner.State();
    if t in p.actual {
      var o := p.actual[t];
      assert c.Settled(p, t);
      var m := OwnerIsRead(planner.setting, |planner.graph.nodes|, t);
      OwnersAreOld(planner.setting, planner.temporaries, planner.Times(), planner.frontier, |planner.tensors|,
                   p.actual);
      UsedIsReached(planner.setting, planner.temporaries, planner.Times(), planner.frontier, |planner.tensors|, m, o);
    }
  }

  /** A tensor whose node has been reached has memory exactly when, being persistent, it has its space. */
  lemma ReachedIsThereIff(planner: ArenaPlanner, t: int)
    requires planner.Valid() && NothingFromNowhere(planner)
    requires 0 <= t < |planner.allocs| && planner.allocNode[t] <= planner.frontier
    ensures PlacementOf(planner).Reachable(t) <==> HasItsSpace(planner.Ctx(), planner.State(), t)
  {
    hide Setting.Valid, TemporariesOk, LifetimesOk, NodesToTensorsOk, GraphOk, Graph.WellFormed, CountersExact;
    hide Context.LayoutOk, Context.PointersOk, Context.AllSettled, FinalSharing, SharingOk, NothingFromNowhere;
    var c, p := planner.Ctx(), planner.State();
    if c.IsRw(t) && c.tensors[t].bytes > 0 {
      OwnerIsReached(planner, t);
      ReachedTensorsHaveWindows(planner, t);
    }
    assert t in PlacementOf(planner).at <==> IsThere(c, p, planner.frontier, t);
  }

  /**
   * A node up to the last one placed has memory for all its tensors exactly when all persistent
   * ones among them have their space.
   */
  lemma PlacedNodeIsCoveredIff(planner: ArenaPlanner, n: nat)
    requires planner.Valid() && NothingFromNowhere(planner)
    requires n < |planner.graph.nodes| == |planner.temporaries| && n <= planner.frontier
    ensures Covered(planner.graph, planner.temporaries, PlacementOf(planner), n) <==>
            forall t :: Uses(planner.graph, planner.temporaries, n, t) ==>
              HasItsSpace(planner.Ctx(), planner.State(), t)
  {
    hide Setting.Valid, LifetimesOk, NodesToTensorsOk, CountersExact, SharingOk, HasItsSpace;
    hide Context.LayoutOk, Context.PersistentOk, Context.PointersOk, Context.AllSettled, FinalSharing, PlacementOf;
    forall t | Uses(planner.graph, planner.temporaries, n, t)
      ensures PlacementOf(planner).Reachable(t) <==> HasItsSpace(planner.Ctx(), planner.State(), t)
    {
      UsedIsThereIff(planner, n, t);
    }
  }

  lemma UsedIsThereIff(planner: ArenaPlanner, n: nat, t: int)
    requires planner.Valid() && NothingFromNowhere(planner)
    requires n < |planner.graph.nodes| == |planner.temporaries| && n <= planner.frontier
    requires Uses(planner.graph, planner.temporaries, n, t)
    ensures PlacementOf(planner).Reachable(t) <==> HasItsSpace(planner.Ctx(), planner.State(), t)
  {
    hide Setting.Valid, LifetimesOk, NodesToTensorsOk, CountersExact, SharingOk, HasItsSpace;
    hide Context.LayoutOk, Context.PersistentOk, Context.PointersOk, Context.AllSettled, FinalSharing, PlacementOf;
    var g, c := planner.graph, planner.Ctx();
    if t in planner.temporaries[n] {
      TemporaryIsSet(planner.setting, planner.temporaries, planner.Times(), planner.frontier, n, t);
      ReachedIsThereIff(planner, t);
    } else if t == OPTIONAL_TENSOR {
      AbsentIsReachable(planner);
    } else {
      assert g.Reads(n, t) || g.Produces(n, t);
      UsedIsReached(planner.setting, planner.temporaries, planner.Times(), planner.frontier, |planner.tensors|, n, t);
      if c.IsRw(t) || c.IsPersistent(t) {
        assert Source(g, t) || g.Computed(t);
        ReachedIsThereIff(planner, t);
      } else {
        ElsewhereIsReachable(planner, t);
      }
    }
  }

  lemma AbsentIsReachable(planner: ArenaPlanner)
    ensures PlacementOf(planner).Reachable(OPTIONAL_TENSOR)
    ensures HasItsSpace(planner.Ctx(), planner.State(), OPTIONAL_TENSOR)
  {
  }

  lemma ElsewhereIsReachable(planner: ArenaPlanner, t: int)
    requires 0 <= t < |planner.tensors| && !planner.Ctx().IsRw(t) && !planner.Ctx().IsPersistent(t)
    ensures PlacementOf(planner).Reachable(t) && HasItsSpace(planner.Ctx(), planner.State(), t)
  {
  }

  /**
   * The end-to-end theorem: in any state the protocol reaches in which every node has memory for
   * its tensors, running the nodes in the arenas gives every node the input values, and the
   * caller the output values, that separate memory for every tensor would give - for all kernels
   * that hand unmodified data on, and provided no overwrite or update loses a value.
   */
  lemma GraphRunsInArena(planner: ArenaPlanner, k: Operators, memory: seq<Memory>, n: nat)
    requires planner.Valid() && n <= |planner.graph.nodes|
    requires HandsOn(planner.setting, k) && LosesNothing(planner.setting) && UpdatesLoseNothing(planner.setting, k)
    requires AllCovered(planner.graph, planner.temporaries, PlacementOf(planner))
    requires IsRun(planner.graph, k, planner.temporaries, PlacementOf(planner), memory)
    requires Faithful(planner.graph, k, PlacementOf(planner), memory[0], 0)
    ensures n < |planner.graph.nodes| ==>
              LoadInputs(planner.graph, k, planner.temporaries, PlacementOf(planner), memory[n], n)
              == InputValues(planner.graph, k, n)
    ensures n == |planner.graph.nodes| ==>
              forall t :: t in PlacementOf(planner).at && t in planner.graph.outputs ==>
                Slice(memory[n], PlacementOf(planner).at[t]) == Value(planner.graph, k, n, t)
  {
    hide Setting.Valid, TemporariesOk, LifetimesOk, NodesToTensorsOk, GraphOk, Graph.WellFormed, CountersExact;
    hide Context.LayoutOk, Context.PersistentOk, Context.AllSettled, Context.PointersOk, PlacementOf;
    GraphFacts(planner.graph);
    PlannedWindowsAreSafe(planner);
    RunIsFaithful(planner.setting, k, planner.temporaries, |planner.tensors|, PlacementOf(planner), memory, n);
  }

  /* ---- Addresses ---- */

  lemma SumOfMultiples(base: nat, offset: nat, d: nat, alignment: nat)
    requires alignment != 0 && d != 0 && base % alignment == 0 && alignment % d == 0 && offset % d == 0
    ensures (base + offset) % d == 0
  {
    var q, k, m := base / alignment, alignment / d, offset / d;
    assert base == alignment * q && alignment == d * k && offset == d * m;
    assert base + offset == d * (k * q + m) by {
      assert (d * k) * q == d * (k * q);
    }
    MultipleHasNoRemainder(d, k * q + m);
  }

  /**
   * When the tensor alignment divides the arena's, the address of every placed tensor, whether
   * it has its own space or borrows that of an owner, is a multiple of it, inside the buffer
   * once that has been committed.
   */
  lemma AddressesAreAligned(planner: ArenaPlanner, t: int)
    requires planner.Valid() && planner.arena.buffer.ptr != NULL_PTR && HasWindow(planner, t)
    requires planner.tensorAlignment != 0 && planner.arena.buffer.alignment % planner.tensorAlignment == 0
    ensures planner.tensors[t].data % planner.tensorAlignment == 0
    ensures planner.arena.highWaterMark <= planner.arena.buffer.size ==>
              var end := planner.tensors[t].data + planner.tensors[t].bytes;
              planner.arena.buffer.ptr <= planner.tensors[t].data
              && end <= planner.arena.buffer.ptr + planner.arena.buffer.size
  {
    WindowIsSound(planner, t);
    OwnerIsAligned(planner.Ctx(), planner.State(), planner.arena.buffer.ptr, planner.persistentArena.buffer.ptr,
                   planner.frontier, t);
    SumOfMultiples(
      planner.arena.buffer.ptr, planner.allocs[Resolve(planner.actualTensorId, t)].offset, planner.tensorAlignment,
      planner.arena.buffer.alignment);
  }

  lemma OwnerIsAligned(c: Context, p: Plan, base: nat, persistentBase: nat, frontier: int, t: int)
    requires c.Shape(p) && c.LayoutOk(p, frontier, frontier) && c.PointersOk(p, base, persistentBase, frontier)
    requires base != NULL_PTR && 0 <= t < |p.allocs| && c.IsRw(t) && c.allocNode[t] <= frontier
    requires c.tensors[t].bytes > 0 && c.Placed(p, Resolve(p.actual, t))
    ensures c.alignment != 0 && p.allocs[Resolve(p.actual, t)].offset % c.alignment == 0
    ensures c.tensors[t].data == base + p.allocs[Resolve(p.actual, t)].offset
  {
    assert c.PointerRight(p, base, t);
  }

  /* ---- The two planners ---- */

  /** Without in-place operators and without preserving all tensors the two planners plan the same lifetimes. */
  method BothPlanners(arena: ArenaPlanner, simple: SimplePlanner)
    requires arena.Ready() && simple.Plannable() && simple.graph == arena.graph && !arena.preserveAllTensors
    requires |arena.tensors| == arena.graph.numTensors
    requires forall n :: 0 <= n < |arena.graph.nodes| ==> arena.graph.nodes[n].inplace.IsNone()
    modifies arena, simple
    modifies arena.arena`committed, arena.arena`highWaterMark, arena.arena`activeAllocs
    modifies arena.persistentArena`committed, arena.persistentArena`highWaterMark, arena.persistentArena`activeAllocs
    ensures arena.allocNode == simple.allocNode && arena.deallocNode == simple.deallocNode
  {
    hide AllocSpec, DeallocSpec, FinalSharing;
    var arenaStatus := arena.PlanAllocations();
    var simpleStatus := simple.PlanAllocations();
    forall t | 0 <= t < |arena.tensors|
      ensures arena.deallocNode[t] == simple.deallocNode[t]
    {
      NoInPlaceSameLifetimes(arena.setting, t);
    }
  }
}
