/**
 * The placement of tensors in the two arenas, as values: what `ArenaPlanner` keeps true of
 * `allocs_`, and how one allocation, a purge and a reset preserve it.
 */
module ArenaLayout {
  import opened Common
  import opened ArenaPlacement
  import opened Liveness
  import opened InPlace

  /** `allocs_`, `actual_tensor_id_` and the states of the two arenas. */
  datatype Plan = Plan(allocs: seq<ArenaAlloc>, actual: Sharing, arena: ArenaState, persistent: ArenaState) {
    /** The larger of the two high-water marks. */
    function Mark(): nat { Max(arena.highWater, persistent.highWater) }
  }

  /** What placement does not change. */
  datatype Context = Context(tensors: seq<Tensor>, allocNode: seq<int>, deallocNode: seq<int>, alignment: SizeT) {
    predicate IsRw(t: int) {
      0 <= t < |tensors| && tensors[t].allocationType.ArenaRw?
    }

    predicate IsPersistent(t: int) {
      0 <= t < |tensors| && tensors[t].allocationType.ArenaRwPersistent?
    }

    /** What placing `t` can add to a high-water mark. */
    function Cost(t: int): nat {
      alignment + if 0 <= t < |tensors| then tensors[t].bytes else 0
    }

    predicate Shape(p: Plan) {
      && |p.allocs| == |allocNode| == |deallocNode| <= |tensors|
      && (forall t :: t in p.actual ==> 0 <= t < |tensors| && 0 <= p.actual[t] < |tensors|)
    }

    /** `t` owns bytes of the arena for tensors that need not survive a run. */
    predicate Placed(p: Plan, t: int) {
      0 <= t < |p.allocs| && IsRw(t) && p.allocs[t].size > 0
    }

    predicate PlacedForever(p: Plan, t: int) {
      0 <= t < |p.allocs| && IsPersistent(t) && p.allocs[t].size > 0
    }

    /** No record, and nothing on the arena's list, ends beyond both high-water marks. */
    ghost predicate BelowMarks(p: Plan) {
      && (forall t :: 0 <= t < |p.allocs| ==> p.allocs[t].End() <= p.Mark())
      && (forall a :: a in p.arena.active ==> a.End() <= p.Mark())
    }

    /**
     * Every owner is recorded with its lifetime, aligned and below the high-water mark, and no
     * two owners live together share a byte. Owners are placed for nodes up to `reach`; those
     * that outlive `keep` are still on the arena's list.
     */
    ghost predicate LayoutOk(p: Plan, reach: int, keep: int)
      requires Shape(p)
    {
      && SortedByOffset(p.arena.active) && BelowMarks(p)
      && (forall t :: Placed(p, t) ==>
            && p.allocs[t].tensor == t
            && p.allocs[t].firstNode == allocNode[t] && p.allocs[t].lastNode == deallocNode[t]
            && 0 <= allocNode[t] <= reach
            && alignment != 0 && p.allocs[t].offset % alignment == 0
            && p.allocs[t].End() <= p.arena.highWater)
      && (forall t :: Placed(p, t) && deallocNode[t] > keep ==> p.allocs[t] in p.arena.active)
      && (forall s, t :: Placed(p, s) && Placed(p, t) && s != t ==> p.allocs[s].CompatibleWith(p.allocs[t]))
    }

    /** Persistent tensors live forever, so they are pairwise disjoint. */
    ghost predicate PersistentOk(p: Plan)
      requires Shape(p)
    {
      && SortedByOffset(p.persistent.active)
      && (forall a :: a in p.persistent.active ==> a.End() <= p.persistent.highWater)
      && (forall t :: PlacedForever(p, t) ==>
            && t !in p.actual
            && p.allocs[t] in p.persistent.active
            && p.allocs[t].tensor == t && p.allocs[t].firstNode < NODE_NOT_ASSIGNED == p.allocs[t].lastNode
            && alignment != 0 && p.allocs[t].offset % alignment == 0
            && p.allocs[t].End() <= p.persistent.highWater)
      && (forall t :: 0 <= t < |p.allocs| && p.allocs[t].size == 0 ==> p.allocs[t].offset == 0)
      && (forall s, t :: PlacedForever(p, s) && PlacedForever(p, t) && s != t ==> p.allocs[s].DisjointFrom(p.allocs[t]))
    }

    /**
     * `t` has the bytes it needs: its own, or those of an owner of the same size. A persistent
     * tensor has some space, which it keeps even if it outgrows it.
     */
    predicate Settled(p: Plan, t: int)
      requires Shape(p) && 0 <= t < |p.allocs|
    {
      && (t in p.actual && (IsPersistent(t) || (IsRw(t) && tensors[t].bytes > 0)) ==>
            IsRw(p.actual[t]) && tensors[p.actual[t]].bytes == tensors[t].bytes)
      && (IsRw(t) ==> p.allocs[t].size == if t in p.actual then 0 else tensors[t].bytes)
      && (IsPersistent(t) && t !in p.actual && tensors[t].bytes > 0 ==> p.allocs[t].size > 0)
    }

    ghost predicate ListSettled(p: Plan, list: seq<int>)
      requires Shape(p)
    {
      forall t :: t in list ==> 0 <= t < |p.allocs| && Settled(p, t)
    }

    /** `t` needs space now; persistent tensors are looked at again later. */
    predicate Due(p: Plan, t: int) {
      0 <= t < |p.allocs| && t < |tensors| && if IsRw(t) then p.allocs[t].size < tensors[t].bytes else IsPersistent(t)
    }

    ghost predicate AllSettled(p: Plan, reach: int)
      requires Shape(p)
    {
      forall t :: 0 <= t < |p.allocs| && allocNode[t] <= reach ==> Settled(p, t)
    }

    /** The address of `t` is that of its buffer in an arena that starts at `base`. */
    predicate PointerRight(p: Plan, base: nat, t: int)
      requires Shape(p) && 0 <= t < |p.allocs|
    {
      IsRw(t) && tensors[t].bytes > 0 && Placed(p, Resolve(p.actual, t)) ==>
        tensors[t].data == base + p.allocs[Resolve(p.actual, t)].offset
    }

    predicate PersistentRight(p: Plan, base: nat, t: int)
      requires Shape(p)
    {
      PlacedForever(p, t) ==> tensors[t].data == base + p.allocs[t].offset
    }

    /** The address of `t` is that of its own record. */
    predicate PointsHome(p: Plan, base: nat, persistentBase: nat, t: int)
      requires Shape(p)
    {
      (Placed(p, t) ==> tensors[t].data == base + p.allocs[t].offset) && PersistentRight(p, persistentBase, t)
    }

    /** Addresses are right as long as the arena has memory. */
    ghost predicate PointersOk(p: Plan, base: nat, persistentBase: nat, reach: int)
      requires Shape(p)
    {
      && (base != NULL_PTR ==> forall t :: 0 <= t < |p.allocs| && allocNode[t] <= reach ==> PointerRight(p, base, t))
      && (persistentBase != NULL_PTR ==> forall t :: 0 <= t < |p.allocs| ==> PersistentRight(p, persistentBase, t))
    }

    /** The same, apart from the tensors in `todo`. */
    ghost predicate PointersOkBut(p: Plan, base: nat, persistentBase: nat, reach: int, todo: set<int>)
      requires Shape(p)
    {
      && (base != NULL_PTR ==>
            forall t :: 0 <= t < |p.allocs| && allocNode[t] <= reach && t !in todo ==> PointerRight(p, base, t))
      && (persistentBase != NULL_PTR ==>
            forall t :: 0 <= t < |p.allocs| && t !in todo ==> PersistentRight(p, persistentBase, t))
    }

    /** `t` is waiting for its node: it owns nothing yet. */
    predicate Pending(p: Plan, t: int, keep: int)
      requires Shape(p) && 0 <= t < |p.allocs|
    {
      (IsRw(t) ==> p.allocs[t].size == 0) && keep < allocNode[t] < NODE_NOT_ASSIGNED
    }
  }

  /* ---- One allocation ---- */

  function RwRequest(c: Context, t: int): Request
    requires 0 <= t < |c.allocNode| == |c.deallocNode| <= |c.tensors|
  {
    Request(c.alignment, c.tensors[t].bytes, t, c.allocNode[t], c.deallocNode[t])
  }

  function PersistentRequest(c: Context, t: int): Request
    requires 0 <= t < |c.allocNode| <= |c.tensors|
  {
    Request(c.alignment, c.tensors[t].bytes, t, c.allocNode[t], NODE_NOT_ASSIGNED)
  }

  /** Placing one pending tensor in the arena keeps all owners apart. */
  lemma PlacingKeepsLayout(c: Context, p: Plan, o: Outcome, bufferAlignment: SizeT, t: int, reach: int, keep: int)
    requires c.Shape(p) && c.LayoutOk(p, reach, keep)
    requires 0 <= t < |p.allocs| && c.IsRw(t) && c.Pending(p, t, keep) && 0 <= c.allocNode[t] <= reach
    requires c.tensors[t].bytes > 0
    requires o == Allocate(p.arena, bufferAlignment, RwRequest(c, t), p.allocs[t]) && o.status.Ok?
    ensures var q := p.(allocs := p.allocs[t := o.alloc], arena := o.state);
            c.LayoutOk(q, reach, keep) && o.alloc.size == c.tensors[t].bytes
  {
    hide Allocate, Insert;
    AllocateIsSafe(p.arena, bufferAlignment, RwRequest(c, t), p.allocs[t]);
    AllocateEffect(p.arena, bufferAlignment, RwRequest(c, t), p.allocs[t]);
    InsertHas(p.arena.active, o.alloc);
    InsertKeepsSorted(p.arena.active, o.alloc);
    var q := p.(allocs := p.allocs[t := o.alloc], arena := o.state);
    forall s | c.Placed(q, s) && s != t
      ensures q.allocs[s].CompatibleWith(o.alloc)
    {
      assert c.Placed(p, s);
      if c.deallocNode[s] > keep {
        assert o.alloc.CompatibleWith(p.allocs[s]);
      }
    }
  }

  lemma PlacingForeverKeepsLayout(c: Context, p: Plan, o: Outcome, bufferAlignment: SizeT, t: int)
    requires c.Shape(p) && c.PersistentOk(p)
    requires 0 <= t < |p.allocs| && c.IsPersistent(t) && t !in p.actual && p.allocs[t].size == 0
    requires c.allocNode[t] < NODE_NOT_ASSIGNED
    requires c.tensors[t].bytes > 0
    requires o == Allocate(p.persistent, bufferAlignment, PersistentRequest(c, t), p.allocs[t]) && o.status.Ok?
    ensures c.PersistentOk(p.(allocs := p.allocs[t := o.alloc], persistent := o.state))
  {
    hide Allocate, Insert;
    AllocateIsSafe(p.persistent, bufferAlignment, PersistentRequest(c, t), p.allocs[t]);
    AllocateEffect(p.persistent, bufferAlignment, PersistentRequest(c, t), p.allocs[t]);
    InsertHas(p.persistent.active, o.alloc);
    InsertKeepsSorted(p.persistent.active, o.alloc);
    var q := p.(allocs := p.allocs[t := o.alloc], persistent := o.state);
    forall s | c.PlacedForever(q, s) && s != t
      ensures q.allocs[s].DisjointFrom(o.alloc)
    {
      assert c.PlacedForever(p, s);
      assert o.alloc.CompatibleWith(p.allocs[s]);
    }
  }

  /** The same, with what it means for the other arena and for the tensor itself. */
  lemma PlacingSettles(c: Context, p: Plan, o: Outcome, bufferAlignment: SizeT, t: int, reach: int, keep: int)
    requires c.Shape(p) && c.LayoutOk(p, reach, keep) && c.PersistentOk(p)
    requires 0 <= t < |p.allocs| && c.IsRw(t) && c.Pending(p, t, keep) && 0 <= c.allocNode[t] <= reach
    requires c.tensors[t].bytes > 0 && t !in p.actual
    requires o == Allocate(p.arena, bufferAlignment, RwRequest(c, t), p.allocs[t]) && o.status.Ok?
    ensures var q := p.(allocs := p.allocs[t := o.alloc], arena := o.state);
            c.LayoutOk(q, reach, keep) && c.PersistentOk(q) && c.Settled(q, t)
  {
    PlacingKeepsLayout(c, p, o, bufferAlignment, t, reach, keep);
    var q := p.(allocs := p.allocs[t := o.alloc], arena := o.state);
    assert forall s :: c.PlacedForever(q, s) <==> c.PlacedForever(p, s);
  }

  lemma PlacingForeverSettles(
    c: Context, p: Plan, o: Outcome, bufferAlignment: SizeT, t: int, reach: int, keep: int)
    requires c.Shape(p) && c.LayoutOk(p, reach, keep) && c.PersistentOk(p)
    requires 0 <= t < |p.allocs| && c.IsPersistent(t) && c.Pending(p, t, keep) && p.allocs[t].size == 0
    requires c.tensors[t].bytes > 0 && t !in p.actual
    requires o == Allocate(p.persistent, bufferAlignment, PersistentRequest(c, t), p.allocs[t]) && o.status.Ok?
    ensures var q := p.(allocs := p.allocs[t := o.alloc], persistent := o.state);
            c.LayoutOk(q, reach, keep) && c.PersistentOk(q) && c.Settled(q, t)
  {
    PlacingForeverKeepsLayout(c, p, o, bufferAlignment, t);
    var q := p.(allocs := p.allocs[t := o.alloc], persistent := o.state);
    assert forall s :: c.Placed(q, s) <==> c.Placed(p, s);
  }

  /** Placement does not depend on what else is shared. */
  lemma LessSharingKeepsLayout(c: Context, p: Plan, q: Plan, reach: int, keep: int)
    requires c.Shape(p) && q == p.(actual := q.actual)
    requires forall t :: t in q.actual ==> t in p.actual && q.actual[t] == p.actual[t]
    ensures c.Shape(q)
    ensures c.LayoutOk(p, reach, keep) ==> c.LayoutOk(q, reach, keep)
    ensures c.PersistentOk(p) ==> c.PersistentOk(q)
  {
    assert forall t :: c.Placed(q, t) <==> c.Placed(p, t);
    assert forall t :: c.PlacedForever(q, t) <==> c.PlacedForever(p, t);
  }

  /** Records and sharing are as they were, except for the listed tensors first needed after `frontier`. */
  ghost predicate OnlyChanges(c: Context, p: Plan, q: Plan, list: seq<int>, frontier: int) {
    && |q.allocs| == |p.allocs| == |c.allocNode|
    && (forall t :: 0 <= t < |p.allocs| && (t !in list || c.allocNode[t] <= frontier) ==> q.allocs[t] == p.allocs[t])
    && (forall t :: t in q.actual ==> t in p.actual && q.actual[t] == p.actual[t])
    && (forall t :: t in p.actual && (t !in list || (0 <= t < |c.allocNode| && c.allocNode[t] <= frontier)) ==>
          t in q.actual)
  }

  /**
   * What placing makes of a persistent tensor: it goes on borrowing only from a tensor of its size
   * in the other arena; otherwise it keeps the space it has, whatever its size now is, and gets
   * space of its size only if it has none.
   */
  ghost predicate PersistentPlaced(c: Context, p: Plan, q: Plan, t: int)
    requires c.Shape(p) && c.Shape(q) && 0 <= t < |c.allocNode|
  {
    && (t in q.actual <==>
          t in p.actual && c.IsRw(p.actual[t]) && c.tensors[p.actual[t]].bytes == c.tensors[t].bytes)
    && if t in q.actual || p.allocs[t].size > 0 then q.allocs[t] == p.allocs[t]
       else q.allocs[t].size == c.tensors[t].bytes
  }

  ghost predicate PersistentsPlaced(c: Context, p: Plan, q: Plan, list: seq<int>)
    requires c.Shape(p) && c.Shape(q)
  {
    forall t :: t in list && 0 <= t < |c.allocNode| && c.IsPersistent(t) ==> PersistentPlaced(c, p, q, t)
  }

  /** The same for every persistent tensor of the nodes from `first` to `last`. */
  ghost predicate PersistentsDone(c: Context, p: Plan, q: Plan, first: int, last: int)
    requires c.Shape(p) && c.Shape(q)
  {
    forall t :: 0 <= t < |c.allocNode| && c.IsPersistent(t) && first <= c.allocNode[t] <= last ==>
      PersistentPlaced(c, p, q, t)
  }

  /** All persistent tensors of the interval are on the list of those due. */
  lemma PersistentsWereDue(c: Context, p: Plan, q: Plan, list: seq<int>, first: int, last: int)
    requires c.Shape(p) && c.Shape(q) && DueList(c, p, list, first, last) && PersistentsPlaced(c, p, q, list)
    ensures PersistentsDone(c, p, q, first, last)
  {
    hide PersistentPlaced;
  }

  /** What placing the listed tensors among the first `n` can add to a high-water mark. */
  function Demand(c: Context, list: seq<int>, n: nat): nat {
    if n == 0 then 0 else Demand(c, list, n - 1) + if n - 1 in list then c.Cost(n - 1) else 0
  }

  lemma {:induction false} DemandGrows(c: Context, list: seq<int>, t: int, n: nat)
    requires t !in list
    ensures Demand(c, list + [t], n) == Demand(c, list, n) + if 0 <= t < n then c.Cost(t) else 0
  {
    if n > 0 {
      DemandGrows(c, list, t, n - 1);
      assert n - 1 in list + [t] <==> n - 1 in list || n - 1 == t;
    }
  }

  lemma {:induction false} DemandAtMost(c: Context, d: Context, a: seq<int>, b: seq<int>, n: nat)
    requires d.tensors == c.tensors && d.alignment == c.alignment
    requires forall t :: t in a && 0 <= t < n ==> t in b
    ensures Demand(c, a, n) <= Demand(d, b, n)
  {
    if n > 0 {
      DemandAtMost(c, d, a, b, n - 1);
    }
  }

  /** The list holds exactly the tensors of the nodes from `first` to `last` that are due. */
  ghost predicate DueList(c: Context, p: Plan, list: seq<int>, first: int, last: int)
    requires c.Shape(p)
  {
    forall t :: t in list <==> 0 <= t < |p.allocs| && first <= c.allocNode[t] <= last && c.Due(p, t)
  }

  /** `t` is due, and is waiting for its node, up to `last`, or has what it needs and is only looked at again. */
  ghost predicate Placeable(c: Context, p: Plan, t: int, frontier: int, last: int)
    requires c.Shape(p)
  {
    && c.Due(p, t)
    && if c.allocNode[t] <= frontier then c.Settled(p, t) else c.Pending(p, t, frontier) && c.allocNode[t] <= last
  }

  ghost predicate ListPlaceable(c: Context, p: Plan, list: seq<int>, frontier: int, last: int)
    requires c.Shape(p)
  {
    forall t :: t in list ==> Placeable(c, p, t, frontier, last)
  }

  /** Once the due tensors are settled, everything up to `last` is, and only their addresses are missing. */
  lemma DueWereAll(
    c: Context, p: Plan, q: Plan, list: seq<int>, base: nat, persistentBase: nat, first: int, frontier: int, last: int)
    requires c.Shape(p) && c.Shape(q) && OnlyChanges(c, p, q, list, frontier) && DueList(c, p, list, first, last)
    requires first <= frontier + 1
    requires c.LayoutOk(p, frontier, frontier) && c.AllSettled(p, frontier)
    requires c.PointersOk(p, base, persistentBase, frontier)
    requires forall s :: s in p.actual && 0 <= s < |p.allocs| && c.allocNode[s] <= frontier ==>
               var o := p.actual[s]; 0 <= o < |p.allocs| ==> !(frontier < c.allocNode[o] <= last)
    requires c.ListSettled(q, list)
    ensures c.AllSettled(q, last)
    ensures c.PointersOkBut(q, base, persistentBase, last, set t | t in list)
  {
    forall t | 0 <= t < |q.allocs| && c.allocNode[t] <= last
      ensures c.Settled(q, t)
    {
      if t !in list {
        assert c.allocNode[t] <= frontier ==> c.Settled(p, t);
        assert c.allocNode[t] > frontier ==> !c.Placed(p, t);
      }
    }
    forall t | 0 <= t < |q.allocs| && c.allocNode[t] <= last && t !in list && base != NULL_PTR
      ensures c.PointerRight(q, base, t)
    {
      if c.IsRw(t) && c.tensors[t].bytes > 0 {
        assert c.allocNode[t] > frontier ==> !c.Placed(p, t) && c.Due(p, t);
        assert c.PointerRight(p, base, t);
      }
    }
    forall t | 0 <= t < |q.allocs| && t !in list && persistentBase != NULL_PTR
      ensures c.PersistentRight(q, persistentBase, t)
    {
      assert c.PersistentRight(p, persistentBase, t);
    }
  }

  /* ---- Purges and resets ---- */

  /** Dropping what has ended before node `first` loses no owner that is still needed after the one before it. */
  lemma PurgingKeepsLayout(c: Context, p: Plan, keep: int, first: int)
    requires c.Shape(p) && c.LayoutOk(p, keep, keep) && first <= keep + 1
    ensures c.LayoutOk(p.(arena := p.arena.(active := DropEndedBefore(p.arena.active, first))), keep, keep)
  {
    DropEndedKeepsSorted(p.arena.active, first);
    var q := p.(arena := p.arena.(active := DropEndedBefore(p.arena.active, first)));
    assert forall t :: c.Placed(q, t) <==> c.Placed(p, t);
  }

  /** Forgetting everything loses nothing either when nothing outlives `keep`. */
  lemma ForgettingKeepsLayout(c: Context, p: Plan, keep: int)
    requires c.Shape(p) && c.LayoutOk(p, keep, keep) && NothingOutlives(c, p, keep)
    ensures c.LayoutOk(p.(arena := p.arena.(active := [])), keep, keep)
  {
    var q := p.(arena := p.arena.(active := []));
    assert forall t :: c.Placed(q, t) <==> c.Placed(p, t);
  }

  /** No tensor placed in the arena is needed after `keep`. */
  ghost predicate NothingOutlives(c: Context, p: Plan, keep: int)
    requires c.Shape(p)
  {
    forall t :: c.Placed(p, t) ==> c.deallocNode[t] <= keep
  }

  /** With the arena's list emptied, a block for a node after `keep` misses everything placed that is still alive. */
  ghost predicate MissesPlaced(c: Context, p: Plan, keep: int, bufferAlignment: SizeT, r: Request, record: ArenaAlloc)
    requires c.Shape(p)
  {
    var o := Allocate(p.arena.(active := []), bufferAlignment, r, record);
    r.firstNode > keep && r.size > 0 && o.status.Ok? ==>
      forall t :: c.Placed(p, t) ==> o.alloc.CompatibleWith(p.allocs[t])
  }

  /**
   * Emptying the list, as the planner does when it is told to start at an earlier node than the
   * last one it placed, is safe exactly when nothing placed outlives that node.
   */
  lemma ForgettingIsSafeIff(c: Context, p: Plan, keep: int, bufferAlignment: SizeT, record: ArenaAlloc)
    requires c.Shape(p) && c.LayoutOk(p, keep, keep) && bufferAlignment > 0
    ensures (forall r: Request :: MissesPlaced(c, p, keep, bufferAlignment, r, record))
            <==> NothingOutlives(c, p, keep)
  {
    if t :| c.Placed(p, t) && c.deallocNode[t] > keep {
      var r := Request(1, p.allocs[t].End(), t, keep + 1, keep + 1);
      assert ChooseOffset(r, []) == Some(0);
      assert !MissesPlaced(c, p, keep, bufferAlignment, r, record);
    }
  }

  lemma KeepingLess(c: Context, p: Plan, reach: int, keep: int)
    requires c.Shape(p) && c.LayoutOk(p, reach, keep) && keep <= reach
    ensures c.LayoutOk(p, reach, reach)
  {
  }

  lemma NothingDue(c: Context, p: Plan, frontier: int, last: int)
    requires c.Shape(p) && c.LayoutOk(p, frontier, frontier) && frontier <= last
    ensures c.LayoutOk(p, last, last) && OnlyChanges(c, p, p, [], frontier) && c.ListSettled(p, [])
  {
  }

  /** With the list of active allocations purged, or emptied when nothing outlives the frontier, placing may start. */
  lemma PlacingMayStart(c: Context, p: Plan, q: Plan, list: seq<int>, first: int, frontier: int, last: int)
    requires c.Shape(p) && c.LayoutOk(p, frontier, frontier) && c.PersistentOk(p) && c.AllSettled(p, frontier)
    requires first - 1 <= frontier <= last < NODE_NOT_ASSIGNED
    requires q == p.(arena := p.arena.(active := q.arena.active))
    requires q.arena.active == DropEndedBefore(p.arena.active, first)
             || (NothingOutlives(c, p, frontier) && q.arena.active == [])
    requires DueList(c, p, list, first, last)
    ensures c.Shape(q) && c.LayoutOk(q, last, frontier) && c.PersistentOk(q)
    ensures ListPlaceable(c, q, list, frontier, last)
  {
    if q.arena.active == DropEndedBefore(p.arena.active, first) {
      PurgingKeepsLayout(c, p, frontier, first);
    } else {
      ForgettingKeepsLayout(c, p, frontier);
    }
    assert c.LayoutOk(q, frontier, frontier);
    assert forall t :: c.PlacedForever(q, t) <==> c.PlacedForever(p, t);
    forall t | t in list
      ensures Placeable(c, q, t, frontier, last)
    {
      if c.allocNode[t] <= frontier {
        assert c.Settled(p, t);
      } else {
        assert !c.Placed(p, t);
      }
    }
  }

  /** The records after `ResetAllocationsAfter(node)`. */
  function ResetAfter(c: Context, p: Plan, node: int): seq<ArenaAlloc>
    requires c.Shape(p)
  {
    seq(|p.allocs|, t requires 0 <= t < |p.allocs| =>
      if p.allocs[t].firstNode > node && c.Placed(p, t) then UNALLOCATED else p.allocs[t])
  }

  /** Rebuilding the active list from the records is safe. */
  lemma RebuildingKeepsLayout(c: Context, p: Plan, q: Plan, reach: int, node: int)
    requires c.Shape(p) && c.LayoutOk(p, reach, reach) && -1 <= node && -1 <= reach && (node <= reach || reach == -1)
    requires q.allocs == ResetAfter(c, p, node) && q == p.(allocs := q.allocs, arena := q.arena)
    requires q.arena.highWater == p.arena.highWater
    requires SortedByOffset(q.arena.active)
    requires forall a :: a in q.arena.active <==> a in q.allocs && a.firstNode <= node && a.lastNode >= node
    ensures c.Shape(q) && c.LayoutOk(q, Min(node, reach), Min(node, reach))
  {
    forall t | c.Placed(q, t)
      ensures c.Placed(p, t) && q.allocs[t] == p.allocs[t] && p.allocs[t].firstNode <= node
    {
    }
  }

  /** When nothing was allocated past `node`, dropping later entries changes nothing that matters. */
  lemma PurgingAfterKeepsLayout(c: Context, p: Plan, reach: int, node: int)
    requires c.Shape(p) && c.LayoutOk(p, reach, reach) && reach <= node
    ensures ResetAfter(c, p, node) == p.allocs
    ensures c.LayoutOk(p.(arena := p.arena.(active := DropStartedAfter(p.arena.active, node))), reach, reach)
  {
    DropStartedKeepsSorted(p.arena.active, node);
    var q := p.(arena := p.arena.(active := DropStartedAfter(p.arena.active, node)));
    assert forall t :: c.Placed(q, t) <==> c.Placed(p, t);
  }

  /* ---- Addresses ---- */

  /** The same tensors, except for their addresses. */
  predicate SameTensors(before: seq<Tensor>, after: seq<Tensor>) {
    |before| == |after| && forall t :: 0 <= t < |before| ==> after[t] == before[t].(data := after[t].data)
  }

  /** Tensors of other kinds are left alone. */
  predicate OthersKept(before: seq<Tensor>, after: seq<Tensor>) {
    && |before| == |after|
    && forall t :: 0 <= t < |before| && before[t].allocationType.Elsewhere? ==> after[t] == before[t]
  }

  /** Placement does not depend on addresses. */
  lemma AddressesDoNotMatter(c: Context, d: Context, p: Plan, reach: int, keep: int)
    requires d == c.(tensors := d.tensors) && SameTensors(c.tensors, d.tensors) && c.Shape(p)
    ensures d.Shape(p)
    ensures c.LayoutOk(p, reach, keep) ==> d.LayoutOk(p, reach, keep)
    ensures c.PersistentOk(p) ==> d.PersistentOk(p)
    ensures c.AllSettled(p, reach) ==> d.AllSettled(p, reach)
  {
    assert forall t :: c.Placed(p, t) <==> d.Placed(p, t);
    assert forall t :: c.PlacedForever(p, t) <==> d.PlacedForever(p, t);
    if c.AllSettled(p, reach) {
      forall t | 0 <= t < |p.allocs| && d.allocNode[t] <= reach
        ensures d.Settled(p, t)
      {
        assert c.Settled(p, t);
      }
    }
  }

  /** Apart from `t`, only owners got new addresses, and the right ones. */
  ghost predicate OnlyResolves(c: Context, d: Context, p: Plan, base: nat, persistentBase: nat, t: int)
    requires c.Shape(p) && d.Shape(p)
  {
    && d == c.(tensors := d.tensors) && SameTensors(c.tensors, d.tensors) && OthersKept(c.tensors, d.tensors)
    && forall s :: 0 <= s < |c.tensors| && s != t ==>
         d.tensors[s] == c.tensors[s] || (s !in p.actual && d.PointsHome(p, base, persistentBase, s))
  }

  /** A tensor that does not borrow a buffer of its own arena gets the address of its own record. */
  lemma OwnAddress(c: Context, d: Context, p: Plan, base: nat, persistentBase: nat, t: int, reach: int)
    requires c.Shape(p) && 0 <= t < |p.allocs| && |p.allocs| == |c.tensors|
    requires |d.tensors| == |c.tensors| && d == c.(tensors := c.tensors[t := c.tensors[t].(data := d.tensors[t].data)])
    requires d.Shape(p) && d.PointsHome(p, base, persistentBase, t) && OthersKept(c.tensors, d.tensors)
    requires t in p.actual && c.IsRw(t) ==> !c.IsRw(p.actual[t])
    ensures OnlyResolves(c, d, p, base, persistentBase, t)
    ensures d.PointerRight(p, base, t) && d.PersistentRight(p, persistentBase, t)
    ensures c.LayoutOk(p, reach, reach) ==> d.LayoutOk(p, reach, reach)
    ensures c.PersistentOk(p) ==> d.PersistentOk(p)
  {
    AddressesDoNotMatter(c, d, p, reach, reach);
  }

  /** A tensor that does gets the address its owner was given just before. */
  lemma BorrowedAddress(c: Context, d: Context, e: Context, p: Plan, base: nat, persistentBase: nat, t: int, reach: int)
    requires c.Shape(p) && 0 <= t < |p.allocs| && |p.allocs| == |c.tensors| && t in p.actual && p.actual[t] !in p.actual
    requires d.Shape(p) && OnlyResolves(c, d, p, base, persistentBase, p.actual[t])
    requires d.PointsHome(p, base, persistentBase, p.actual[t])
    requires e == d.(tensors := d.tensors[t := d.tensors[t].(data := d.tensors[p.actual[t]].data)])
    requires d.PersistentOk(p) && (c.IsRw(t) || c.IsPersistent(t))
    ensures e.Shape(p) && OnlyResolves(c, e, p, base, persistentBase, t)
    ensures e.PointerRight(p, base, t) && e.PersistentRight(p, persistentBase, t)
    ensures d.LayoutOk(p, reach, reach) ==> e.LayoutOk(p, reach, reach)
    ensures e.PersistentOk(p)
  {
    AddressesDoNotMatter(d, e, p, reach, reach);
  }

  lemma NothingToDo(c: Context, p: Plan, base: nat, persistentBase: nat, reach: int, todo: set<int>)
    requires c.Shape(p) && c.PointersOkBut(p, base, persistentBase, reach, todo) && forall t :: t !in todo
    ensures c.PointersOk(p, base, persistentBase, reach)
  {
  }

  /** When only the tensors of the arena are to be resolved, the persistent ones are right already. */
  lemma OnlyRwToDo(
    c: Context, p: Plan, oldBase: nat, base: nat, persistentBase: nat, reach: int, list: seq<int>)
    requires c.Shape(p) && c.PointersOk(p, oldBase, persistentBase, reach)
    requires forall t :: t in list <==> c.IsRw(t)
    ensures c.PointersOkBut(p, base, persistentBase, reach, set t | t in list)
    ensures forall t :: t in list ==> 0 <= t < |c.tensors| && !c.IsPersistent(t)
  {
  }

  /** The tensors of the arena lose their addresses. */
  function WithoutAddresses(tensors: seq<Tensor>): (r: seq<Tensor>)
    ensures |r| == |tensors| && SameTensors(tensors, r)
  {
    seq(|tensors|, t requires 0 <= t < |tensors| =>
      if tensors[t].allocationType.ArenaRw? then tensors[t].(data := NULL_PTR) else tensors[t])
  }

  /** Without memory the tensors of the arena have no address, and the persistent ones keep theirs. */
  lemma WithoutMemory(c: Context, d: Context, p: Plan, base: nat, persistentBase: nat, reach: int)
    requires c.Shape(p) && d.Shape(p) && c.PointersOk(p, base, persistentBase, reach)
    requires d == c.(tensors := WithoutAddresses(c.tensors))
    ensures d.PointersOk(p, NULL_PTR, persistentBase, reach)
  {
    forall t | 0 <= t < |p.allocs| && persistentBase != NULL_PTR
      ensures d.PersistentRight(p, persistentBase, t)
    {
      assert c.PersistentRight(p, persistentBase, t);
    }
  }

  /** Resolving one tensor leaves one less to do. */
  lemma ResolvingMakesProgress(
    c: Context, d: Context, p: Plan, base: nat, persistentBase: nat, reach: int, todo: set<int>, t: int)
    requires c.Shape(p) && c.PointersOkBut(p, base, persistentBase, reach, todo) && |p.allocs| == |c.tensors|
    requires d.Shape(p) && OnlyResolves(c, d, p, base, persistentBase, t)
    requires 0 <= t < |p.allocs| && d.PointerRight(p, base, t) && d.PersistentRight(p, persistentBase, t)
    ensures d.PointersOkBut(p, base, persistentBase, reach, todo - {t})
  {
    forall s | 0 <= s < |p.allocs| && s !in todo - {t} && s != t
      ensures base != NULL_PTR && d.allocNode[s] <= reach ==> d.PointerRight(p, base, s)
      ensures persistentBase != NULL_PTR ==> d.PersistentRight(p, persistentBase, s)
    {
      if d.tensors[s] == c.tensors[s] {
        assert base != NULL_PTR && c.allocNode[s] <= reach ==> c.PointerRight(p, base, s);
        assert persistentBase != NULL_PTR ==> c.PersistentRight(p, persistentBase, s);
      }
    }
  }

  /** The tensors after `ResetAllocationsAfter(node)`. */
  function ResetTensors(c: Context, p: Plan, node: int): (r: seq<Tensor>)
    requires c.Shape(p)
    ensures |r| == |c.tensors| && SameTensors(c.tensors, r)
  {
    seq(|c.tensors|, t requires 0 <= t < |c.tensors| =>
      if t < |p.allocs| && p.allocs[t].firstNode > node && c.Placed(p, t)
      then c.tensors[t].(data := NULL_PTR) else c.tensors[t])
  }

  /**
   * Exactly the arena tensors placed after `node` have lost their records, which are as they were
   * before anything was placed, and their addresses.
   */
  ghost predicate FreedAfter(
    allocs: seq<ArenaAlloc>, tensors: seq<Tensor>, newAllocs: seq<ArenaAlloc>, newTensors: seq<Tensor>, node: int)
  {
    && |newAllocs| == |allocs| <= |tensors| == |newTensors|
    && (forall t :: 0 <= t < |allocs| ==>
          if allocs[t].firstNode > node && allocs[t].size > 0 && tensors[t].allocationType == ArenaRw
          then newAllocs[t] == ArenaAlloc(0, 0, -1, -1, -1) && newTensors[t] == tensors[t].(data := NULL_PTR)
          else newAllocs[t] == allocs[t] && newTensors[t] == tensors[t])
    && (forall t :: |allocs| <= t < |tensors| ==> newTensors[t] == tensors[t])
  }

  /** `q` and `d` are what is left of `p` and `c` after `ResetAllocationsAfter(node)`. */
  ghost predicate IsReset(c: Context, d: Context, p: Plan, q: Plan, node: int)
    requires c.Shape(p)
  {
    && q == p.(allocs := ResetAfter(c, p, node), arena := q.arena)
    && d == c.(tensors := ResetTensors(c, p, node))
  }

  /** The records and addresses of tensors of earlier nodes, and of all persistent ones, are as they were. */
  lemma ResetSparesTheRest(c: Context, d: Context, p: Plan, q: Plan, reach: int, node: int)
    requires c.Shape(p) && c.LayoutOk(p, reach, reach) && IsReset(c, d, p, q, node)
    ensures d.Shape(q)
    ensures forall t :: 0 <= t < |p.allocs| && (c.allocNode[t] <= node || !c.IsRw(t)) ==>
              q.allocs[t] == p.allocs[t] && d.tensors[t] == c.tensors[t]
  {
  }

  lemma ResettingKeepsPersistent(c: Context, d: Context, p: Plan, q: Plan, reach: int, node: int)
    requires c.Shape(p) && c.LayoutOk(p, reach, reach) && IsReset(c, d, p, q, node)
    requires d.Shape(q) && c.PersistentOk(p)
    ensures d.PersistentOk(q)
  {
    ResetSparesTheRest(c, d, p, q, reach, node);
    hide Context.LayoutOk, ResetAfter, ResetTensors;
    assert forall t :: d.PlacedForever(q, t) <==> c.PlacedForever(p, t);
  }

  lemma ResettingKeepsSettled(c: Context, d: Context, p: Plan, q: Plan, reach: int, node: int)
    requires c.Shape(p) && c.LayoutOk(p, reach, reach) && IsReset(c, d, p, q, node)
    requires d.Shape(q) && c.AllSettled(p, reach)
    ensures d.AllSettled(q, Min(node, reach))
  {
    ResetSparesTheRest(c, d, p, q, reach, node);
    forall t | 0 <= t < |q.allocs| && d.allocNode[t] <= Min(node, reach)
      ensures d.Settled(q, t)
    {
      assert c.Settled(p, t);
    }
  }

  lemma ResettingKeepsPointers(
    c: Context, d: Context, p: Plan, q: Plan, base: nat, persistentBase: nat, reach: int, node: int)
    requires c.Shape(p) && c.LayoutOk(p, reach, reach) && IsReset(c, d, p, q, node)
    requires d.Shape(q) && c.PointersOk(p, base, persistentBase, reach)
    ensures d.PointersOk(q, base, persistentBase, Min(node, reach))
  {
    ResetSparesTheRest(c, d, p, q, reach, node);
    hide Context.LayoutOk;
    forall t | 0 <= t < |q.allocs| && d.allocNode[t] <= Min(node, reach) && base != NULL_PTR
      ensures d.PointerRight(q, base, t)
    {
      assert c.PointerRight(p, base, t);
    }
    forall t | 0 <= t < |q.allocs| && persistentBase != NULL_PTR
      ensures d.PersistentRight(q, persistentBase, t)
    {
      assert c.PersistentRight(p, persistentBase, t);
    }
  }

  /** What is settled and addressed up to `node` stays so. */
  lemma ResettingKeepsTheRest(
    c: Context, d: Context, p: Plan, q: Plan, base: nat, persistentBase: nat, reach: int, node: int)
    requires c.Shape(p) && c.LayoutOk(p, reach, reach) && c.PersistentOk(p) && c.AllSettled(p, reach)
    requires c.PointersOk(p, base, persistentBase, reach) && IsReset(c, d, p, q, node)
    ensures d.Shape(q) && d.PersistentOk(q) && d.AllSettled(q, Min(node, reach))
    ensures d.PointersOk(q, base, persistentBase, Min(node, reach))
  {
    ResetSparesTheRest(c, d, p, q, reach, node);
    hide Context.LayoutOk, Context.PersistentOk, Context.AllSettled, Context.PointersOk, IsReset;
    ResettingKeepsPersistent(c, d, p, q, reach, node);
    ResettingKeepsSettled(c, d, p, q, reach, node);
    ResettingKeepsPointers(c, d, p, q, base, persistentBase, reach, node);
  }

  /* ---- Changes to tensors of later nodes ---- */

  /**
   * The two contexts agree on everything placed up to `reach`; they may differ in the sizes
   * and lifetimes of later tensors, in their kinds if they have no space, and in how many
   * tensors there are.
   */
  ghost predicate AgreeUpTo(c: Context, d: Context, p: Plan, q: Plan, reach: int)
    requires c.Shape(p) && d.Shape(q)
  {
    && d.alignment == c.alignment && q == p.(allocs := q.allocs) && |p.allocs| <= |q.allocs|
    && (forall t :: 0 <= t < |p.allocs| ==>
          && q.allocs[t] == p.allocs[t]
          && d.tensors[t].data == c.tensors[t].data
          && (c.allocNode[t] <= reach || p.allocs[t].size > 0 ==>
                d.tensors[t].allocationType == c.tensors[t].allocationType)
          && (if c.allocNode[t] <= reach
              then d.allocNode[t] == c.allocNode[t] && d.deallocNode[t] == c.deallocNode[t]
                   && d.tensors[t].bytes == c.tensors[t].bytes
                   && (t in p.actual ==> d.tensors[p.actual[t]] == c.tensors[p.actual[t]])
              else d.allocNode[t] > reach))
    && (forall t :: |p.allocs| <= t < |q.allocs| ==> q.allocs[t] == UNALLOCATED && d.allocNode[t] > reach)
  }

  lemma LaterChangesKeepLayout(c: Context, d: Context, p: Plan, q: Plan, reach: int)
    requires c.Shape(p) && c.LayoutOk(p, reach, reach) && c.PersistentOk(p)
    requires d.Shape(q) && AgreeUpTo(c, d, p, q, reach)
    ensures d.LayoutOk(q, reach, reach) && d.PersistentOk(q)
  {
    assert forall t :: d.Placed(q, t) <==> c.Placed(p, t);
    assert forall t :: d.PlacedForever(q, t) <==> c.PlacedForever(p, t);
  }

  lemma LaterChangesKeepSettled(c: Context, d: Context, p: Plan, q: Plan, base: nat, persistentBase: nat, reach: int)
    requires c.Shape(p) && c.AllSettled(p, reach) && c.PointersOk(p, base, persistentBase, reach)
    requires d.Shape(q) && AgreeUpTo(c, d, p, q, reach)
    ensures d.AllSettled(q, reach) && d.PointersOk(q, base, persistentBase, reach)
  {
    forall t | 0 <= t < |q.allocs| && d.allocNode[t] <= reach
      ensures d.Settled(q, t) && (base != NULL_PTR ==> d.PointerRight(q, base, t))
    {
      assert c.Settled(p, t);
      assert base != NULL_PTR ==> c.PointerRight(p, base, t);
    }
    forall t | 0 <= t < |q.allocs| && persistentBase != NULL_PTR
      ensures d.PersistentRight(q, persistentBase, t)
    {
      assert t < |p.allocs| ==> c.PersistentRight(p, persistentBase, t);
    }
  }

  /** What happens to later tensors does not concern those already placed. */
  lemma LaterChangesKeepPlan(c: Context, d: Context, p: Plan, q: Plan, base: nat, persistentBase: nat, reach: int)
    requires c.Shape(p) && c.LayoutOk(p, reach, reach) && c.PersistentOk(p) && c.AllSettled(p, reach)
    requires c.PointersOk(p, base, persistentBase, reach)
    requires d.Shape(q) && AgreeUpTo(c, d, p, q, reach)
    ensures d.LayoutOk(q, reach, reach) && d.PersistentOk(q) && d.AllSettled(q, reach)
    ensures d.PointersOk(q, base, persistentBase, reach)
  {
    hide AgreeUpTo, Context.LayoutOk, Context.PersistentOk, Context.AllSettled, Context.PointersOk;
    LaterChangesKeepLayout(c, d, p, q, reach);
    LaterChangesKeepSettled(c, d, p, q, base, persistentBase, reach);
  }

  /** The plan with room for `n` tensors. */
  function Grown(p: Plan, n: nat): Plan {
    p.(allocs := p.allocs + seq(if |p.allocs| < n then n - |p.allocs| else 0, _ => UNALLOCATED))
  }

  /* ---- What later steps leave alone ---- */

  /** Tensors first needed up to `node` keep lifetimes, records, sharing, sizes and kinds, and no others join them. */
  ghost predicate KeptUpTo(c: Context, p: Plan, d: Context, q: Plan, node: int) {
    && c.Shape(p) && d.Shape(q) && |p.allocs| <= |q.allocs|
    && (forall t :: |p.allocs| <= t < |q.allocs| ==> d.allocNode[t] > node)
    && (forall t :: 0 <= t < |p.allocs| ==>
          if c.allocNode[t] <= node then
            && d.allocNode[t] == c.allocNode[t] && d.deallocNode[t] == c.deallocNode[t] && q.allocs[t] == p.allocs[t]
            && (t in q.actual <==> t in p.actual) && (t in p.actual ==> q.actual[t] == p.actual[t])
            && d.tensors[t].bytes == c.tensors[t].bytes
            && d.tensors[t].allocationType == c.tensors[t].allocationType
          else d.allocNode[t] > node)
  }

  /** Room for new tensors and lifetimes of temporaries of later nodes change nothing up to `node`. */
  lemma GrowingKeepsEarlier(c: Context, p: Plan, d: Context, q: Plan, node: int)
    requires c.Shape(p) && d.Shape(q) && d.tensors == c.tensors && q.actual == p.actual && |p.allocs| <= |q.allocs|
    requires q.allocs[..|p.allocs|] == p.allocs && node < NODE_NOT_ASSIGNED
    requires forall t :: 0 <= t < |q.allocs| ==>
               var before := if t < |p.allocs| then c.allocNode[t] else NODE_NOT_ASSIGNED;
               d.allocNode[t] == before || (before == NODE_NOT_ASSIGNED && d.allocNode[t] > node)
    requires forall t :: 0 <= t < |p.allocs| && c.allocNode[t] <= node ==> d.deallocNode[t] == c.deallocNode[t]
    ensures KeptUpTo(c, p, d, q, node)
  {
    assert forall t :: 0 <= t < |p.allocs| ==> q.allocs[..|p.allocs|][t] == p.allocs[t];
  }

  /** Placing the tensors due changes nothing up to the frontier. */
  lemma PlacingKeepsEarlier(
    c: Context, p: Plan, d: Context, q: Plan, placed: Plan, list: seq<int>, first: int, frontier: int, last: int)
    requires KeptUpTo(c, p, d, q, frontier) && d.Shape(placed)
    requires OnlyChanges(d, q, placed, list, frontier) && DueList(d, q, list, first, last)
    ensures forall t :: t in list ==> 0 <= t < |q.allocs|
    ensures KeptUpTo(c, p, d, placed, frontier)
  {
  }

  lemma OutlivesNoMore(c: Context, p: Plan, d: Context, q: Plan, frontier: int)
    requires KeptUpTo(c, p, d, q, frontier) && d.LayoutOk(q, frontier, frontier) && NothingOutlives(c, p, frontier)
    ensures NothingOutlives(d, q, frontier)
  {
    assert forall t :: d.Placed(q, t) ==> c.Placed(p, t);
  }

  lemma AddressingKeepsEarlier(c: Context, p: Plan, d: Context, e: Context, q: Plan, node: int)
    requires KeptUpTo(c, p, d, q, node) && e == d.(tensors := e.tensors) && SameTensors(d.tensors, e.tensors)
    ensures KeptUpTo(c, p, e, q, node)
  {
  }

  lemma AddressingKeepsPersistents(c: Context, d: Context, p: Plan, q: Plan, first: int, last: int)
    requires c.Shape(p) && c.Shape(q) && PersistentsDone(c, p, q, first, last)
    requires d == c.(tensors := d.tensors) && SameTensors(c.tensors, d.tensors) && d.Shape(p) && d.Shape(q)
    ensures PersistentsDone(d, p, q, first, last)
  {
    forall t | 0 <= t < |d.allocNode| && d.IsPersistent(t) && first <= d.allocNode[t] <= last
      ensures PersistentPlaced(d, p, q, t)
    {
      assert PersistentPlaced(c, p, q, t);
    }
  }

  lemma ResettingKeepsEarlier(c: Context, d: Context, p: Plan, q: Plan, reach: int, node: int)
    requires c.Shape(p) && c.LayoutOk(p, reach, reach) && IsReset(c, d, p, q, node)
    ensures KeptUpTo(c, p, d, q, node)
  {
    ResetSparesTheRest(c, d, p, q, reach, node);
  }
}
