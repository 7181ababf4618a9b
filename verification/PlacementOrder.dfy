/**
 * The order in which the planner places tensors, and what it achieves: tensors that live for
 * the whole run lie back to back at the start of the arena, and all others behind them.
 */
module PlacementOrder {
  import opened Common
  import opened ArenaPlacement
  import opened ArenaLayout

  /** `t` is needed from the first node on and never released. */
  predicate WholeRun(c: Context, t: int) {
    && 0 <= t < |c.allocNode| && t < |c.deallocNode|
    && c.allocNode[t] == 0 && c.deallocNode[t] == NODE_NOT_ASSIGNED
  }

  /**
   * Tensors that live for the whole run come first, by index; the others by decreasing size, and
   * at equal size by the node they are first needed at.
   */
  ghost predicate InPlacementOrder(c: Context, list: seq<int>) {
    && |c.allocNode| == |c.deallocNode| <= |c.tensors|
    && (forall i :: 0 <= i < |list| ==> 0 <= list[i] < |c.allocNode|)
    && (forall i, j :: 0 <= i < j < |list| && WholeRun(c, list[j]) ==> WholeRun(c, list[i]) && list[i] <= list[j])
    && (forall i, j :: 0 <= i < j < |list| && !WholeRun(c, list[i]) && !WholeRun(c, list[j]) ==>
          || c.tensors[list[i]].bytes > c.tensors[list[j]].bytes
          || (c.tensors[list[i]].bytes == c.tensors[list[j]].bytes && c.allocNode[list[i]] <= c.allocNode[list[j]]))
  }

  /* ---- Placing one tensor after the other ---- */

  /** `t` goes on borrowing the buffer it was planned to borrow. */
  ghost predicate StillBorrows(c: Context, p: Plan, t: int)
    requires c.Shape(p) && 0 <= t < |p.allocs|
  {
    t in p.actual && c.IsRw(p.actual[t]) && c.tensors[p.actual[t]].bytes == c.tensors[t].bytes
  }

  /** The plan with `t` placed on its own; `a` and `b` are the alignments of the two buffers. */
  ghost function PlaceOwn(c: Context, p: Plan, a: SizeT, b: SizeT, t: int): (q: Option<Plan>)
    requires c.Shape(p) && 0 <= t < |p.allocs|
    ensures q.Some? ==> c.Shape(q.value)
  {
    if c.IsRw(t) then
      var o := Allocate(p.arena, a, RwRequest(c, t), p.allocs[t]);
      if o.status.Error? then None else Some(p.(allocs := p.allocs[t := o.alloc], arena := o.state))
    else if c.IsPersistent(t) && p.allocs[t].size == 0 && c.tensors[t].bytes > 0 then
      var o := Allocate(p.persistent, b, PersistentRequest(c, t), p.allocs[t]);
      if o.status.Error? then None else Some(p.(allocs := p.allocs[t := o.alloc], persistent := o.state))
    else Some(p)
  }

  ghost function PlaceOne(c: Context, p: Plan, a: SizeT, b: SizeT, t: int): (q: Option<Plan>)
    requires c.Shape(p) && 0 <= t < |p.allocs|
    ensures q.Some? ==> c.Shape(q.value)
  {
    if StillBorrows(c, p, t) then Some(p) else PlaceOwn(c, p.(actual := p.actual - {t}), a, b, t)
  }

  /** The plan with the listed tensors placed in turn; None when one of them does not fit. */
  ghost function PlaceAll(c: Context, p: Plan, a: SizeT, b: SizeT, list: seq<int>): (q: Option<Plan>)
    requires c.Shape(p) && forall i :: 0 <= i < |list| ==> 0 <= list[i] < |c.allocNode|
    ensures q.Some? ==> c.Shape(q.value)
  {
    if list == [] then Some(p)
    else
      var q := PlaceAll(c, p, a, b, list[..|list| - 1]);
      if q.None? then None else PlaceOne(c, q.value, a, b, list[|list| - 1])
  }

  /** The plan from which placement at node `first` starts: the arena's list is emptied or purged. */
  ghost function Cleared(p: Plan, first: int, lastActive: int): Plan {
    p.(arena := p.arena.(active := if first < lastActive then [] else DropEndedBefore(p.arena.active, first)))
  }

  /** Placing may start from there. */
  lemma ClearedIsPlaceable(c: Context, p: Plan, list: seq<int>, first: int, lastActive: int, frontier: int, last: int)
    requires c.Shape(p) && c.LayoutOk(p, frontier, frontier) && c.PersistentOk(p) && c.AllSettled(p, frontier)
    requires first - 1 <= frontier <= last < NODE_NOT_ASSIGNED
    requires first < lastActive ==> NothingOutlives(c, p, frontier)
    requires DueList(c, p, list, first, last)
    ensures var q := Cleared(p, first, lastActive);
            && c.Shape(q) && c.LayoutOk(q, last, frontier) && c.PersistentOk(q)
            && ListPlaceable(c, q, list, frontier, last)
    ensures forall t :: t in list ==> 0 <= t < |c.allocNode|
  {
    PlacingMayStart(c, p, Cleared(p, first, lastActive), list, first, frontier, last);
  }

  lemma ClearingChangesNoRecord(
    c: Context, p: Plan, q: Plan, list: seq<int>, first: int, lastActive: int, frontier: int)
    requires c.Shape(p) && c.Shape(q)
    requires OnlyChanges(c, Cleared(p, first, lastActive), q, list, frontier)
    ensures OnlyChanges(c, p, q, list, frontier)
    ensures PersistentsPlaced(c, Cleared(p, first, lastActive), q, list) ==> PersistentsPlaced(c, p, q, list)
  {
    forall t | 0 <= t < |c.allocNode| && PersistentPlaced(c, Cleared(p, first, lastActive), q, t)
      ensures PersistentPlaced(c, p, q, t)
    {
    }
  }

  /** Placing the tensors due in the interval, in the order of `list`, turns `p` into `q`. */
  ghost predicate PlacedAs(
    c: Context, p: Plan, q: Plan, lastActive: int, first: int, last: int, a: SizeT, b: SizeT, list: seq<int>)
    requires c.Shape(p)
  {
    && DueList(c, p, list, first, last) && (forall i, j :: 0 <= i < j < |list| ==> list[i] != list[j])
    && InPlacementOrder(c, list)
    && if list == [] then q == p else PlaceAll(c, Cleared(p, first, lastActive), a, b, list) == Some(q)
  }

  /** With nothing due nothing is placed. */
  lemma NothingPlacedAs(
    c: Context, p: Plan, lastActive: int, first: int, last: int, a: SizeT, b: SizeT)
    requires c.Shape(p) && DueList(c, p, [], first, last)
    ensures PlacedAs(c, p, p, lastActive, first, last, a, b, [])
  {
    hide DueList;
  }

  /** Placing is determined by the order alone. */
  ghost predicate PlacedInOrder(
    c: Context, p: Plan, q: Plan, lastActive: int, first: int, last: int, a: SizeT, b: SizeT)
    requires c.Shape(p)
  {
    exists list :: PlacedAs(c, p, q, lastActive, first, last, a, b, list)
  }

  /* ---- Whole-run tensors ---- */

  /** The least multiple of `a` that is not below `x`. */
  ghost function AlignUp(x: nat, a: nat): nat
    requires a != 0
  {
    (x + a - 1) / a * a
  }

  /** `t` lives for the whole run and owns bytes of the arena. */
  predicate PlacedForRun(c: Context, p: Plan, t: int) {
    WholeRun(c, t) && c.Placed(p, t)
  }

  /** Where the whole-run tensors among the first `n` end if each starts at the aligned end of the one before. */
  ghost function PackedEnd(c: Context, p: Plan, n: nat): nat
    requires c.alignment != 0
  {
    if n == 0 then 0
    else if PlacedForRun(c, p, n - 1) then AlignUp(PackedEnd(c, p, n - 1), c.alignment) + p.allocs[n - 1].size
    else PackedEnd(c, p, n - 1)
  }

  /** Every whole-run tensor starts at the aligned end of the one before it, the first at 0. */
  ghost predicate Packed(c: Context, p: Plan) {
    forall t :: PlacedForRun(c, p, t) ==>
      c.alignment != 0 && p.allocs[t].offset == AlignUp(PackedEnd(c, p, t), c.alignment)
  }

  lemma AlignUpIsAligned(x: nat, a: nat)
    requires a != 0
    ensures x <= AlignUp(x, a) < x + a && AlignUp(x, a) % a == 0
  {
    var q := (x + a - 1) / a;
    assert x + a - 1 == a * q + (x + a - 1) % a;
    MultipleHasNoRemainder(a, q);
  }

  lemma AlignUpIsLeast(x: nat, a: nat, multiple: nat)
    requires a != 0 && x <= multiple && multiple % a == 0
    ensures AlignUp(x, a) <= multiple
  {
    var q, k := (x + a - 1) / a, multiple / a;
    assert x + a - 1 == a * q + (x + a - 1) % a;
    assert multiple == a * k;
    if k < q {
      MulMonotonic(a, k, q - 1);
      assert false;
    }
    MulMonotonic(a, q, k);
  }

  lemma CheckedAlignIsAlignUp(a: SizeT, x: SizeT)
    requires CheckedAlignTo(a, x).Some?
    ensures CheckedAlignTo(a, x).value == AlignUp(x, a)
  {
    AlignUpIsAligned(x, a);
    AlignToIsLeast(a, x, AlignUp(x, a));
    AlignUpIsLeast(x, a, CheckedAlignTo(a, x).value);
  }

  /** The records of the whole-run tensors among the first `n`. */
  ghost function Records(c: Context, p: Plan, n: nat): seq<ArenaAlloc> {
    if n == 0 then []
    else if PlacedForRun(c, p, n - 1) then Records(c, p, n - 1) + [p.allocs[n - 1]]
    else Records(c, p, n - 1)
  }

  lemma {:induction false} SamePacking(c: Context, p: Plan, q: Plan, n: nat)
    requires c.alignment != 0 && |p.allocs| == |q.allocs|
    requires forall t :: 0 <= t < n ==> (PlacedForRun(c, p, t) <==> PlacedForRun(c, q, t))
    requires forall t :: 0 <= t < n && PlacedForRun(c, p, t) ==> q.allocs[t] == p.allocs[t]
    ensures PackedEnd(c, q, n) == PackedEnd(c, p, n) && Records(c, q, n) == Records(c, p, n)
  {
    if n > 0 {
      SamePacking(c, p, q, n - 1);
    }
  }

  /** Tensors that are no placed whole-run tensors do not count. */
  lemma {:induction false} NoneFrom(c: Context, p: Plan, t: nat, n: nat)
    requires c.alignment != 0 && t <= n && forall s :: t <= s < n ==> !PlacedForRun(c, p, s)
    ensures PackedEnd(c, p, n) == PackedEnd(c, p, t) && Records(c, p, n) == Records(c, p, t)
  {
    if t < n {
      NoneFrom(c, p, t, n - 1);
    }
  }

  lemma {:induction false} ScanAppend(r: Request, active: seq<ArenaAlloc>, a: ArenaAlloc, s: Scan)
    ensures ScanAllGaps(r, active + [a], s) ==
            var before := ScanAllGaps(r, active, s);
            if before.None? || !a.LiveIn(r.firstNode, r.lastNode) then before else Visit(r, a, before.value)
  {
    hide Visit;
    if active == [] {
      assert ([] + [a])[1..] == [] && ([] + [a])[0] == a;
    } else {
      assert (active + [a])[1..] == active[1..] + [a] && (active + [a])[0] == active[0];
      if !active[0].LiveIn(r.firstNode, r.lastNode) {
        ScanAppend(r, active[1..], a, s);
      } else if Visit(r, active[0], s).Some? {
        ScanAppend(r, active[1..], a, Visit(r, active[0], s).value);
      }
    }
  }

  /** Records of whole-run tensors say that they live for the whole run. */
  ghost predicate RecordsForRun(c: Context, p: Plan) {
    forall t :: PlacedForRun(c, p, t) ==> p.allocs[t].firstNode == 0 && p.allocs[t].lastNode == NODE_NOT_ASSIGNED
  }

  /** Between packed records no gap fits anything. */
  lemma {:induction false} NoGapBetween(c: Context, p: Plan, n: nat, r: Request)
    requires Packed(c, p) && RecordsForRun(c, p)
    requires c.alignment == r.alignment != 0 && r.size > 0 && r.firstNode == 0 && r.lastNode == NODE_NOT_ASSIGNED
    ensures var s := ScanAllGaps(r, Records(c, p, n), SCAN_START);
            s.Some? ==> s.value.current == PackedEnd(c, p, n) && s.value.best == s.value.fit == SIZE_MAX
  {
    hide Visit, AlignUp;
    if n > 0 {
      NoGapBetween(c, p, n - 1, r);
      if PlacedForRun(c, p, n - 1) {
        ScanAppend(r, Records(c, p, n - 1), p.allocs[n - 1], SCAN_START);
        var before := ScanAllGaps(r, Records(c, p, n - 1), SCAN_START);
        if before.Some? && Visit(r, p.allocs[n - 1], before.value).Some? {
          VisitPacked(r, p.allocs[n - 1], before.value);
        }
      }
    }
  }

  lemma VisitPacked(r: Request, a: ArenaAlloc, s: Scan)
    requires r.alignment != 0 && r.size > 0 && a.offset == AlignUp(s.current, r.alignment)
    requires Visit(r, a, s).Some?
    ensures Visit(r, a, s).value == s.(current := a.End())
  {
    CheckedAlignIsAlignUp(r.alignment, s.current);
    AlignUpIsAligned(s.current, r.alignment);
  }

  /** A further whole-run block goes to the aligned end of the packed ones, and to the end of the list. */
  lemma PackedAllocation(c: Context, p: Plan, n: nat, bufferAlignment: SizeT, r: Request, record: ArenaAlloc)
    requires Packed(c, p) && RecordsForRun(c, p) && p.arena.active == Records(c, p, n)
    requires c.alignment == r.alignment && r.size > 0 && r.firstNode == 0 && r.lastNode == NODE_NOT_ASSIGNED
    requires Allocate(p.arena, bufferAlignment, r, record).status.Ok?
    ensures r.alignment != 0
    ensures var o := Allocate(p.arena, bufferAlignment, r, record);
            && o.alloc.offset == AlignUp(PackedEnd(c, p, n), c.alignment) && o.alloc.size == r.size
            && o.alloc.firstNode == 0 && o.alloc.lastNode == NODE_NOT_ASSIGNED
            && o.state.active == p.arena.active + [o.alloc]
  {
    hide ScanGaps, ScanAllGaps, AlignUp, CheckedAlignTo, CheckedAdd, Insert, ChooseOffset;
    AllocateEffect(p.arena, bufferAlignment, r, record);
    PackedOffset(c, p, n, r);
    AlignUpIsAligned(PackedEnd(c, p, n), c.alignment);
    EndsBefore(c, p, n);
    InsertLast(p.arena.active, Allocate(p.arena, bufferAlignment, r, record).alloc);
  }

  lemma PackedOffset(c: Context, p: Plan, n: nat, r: Request)
    requires Packed(c, p) && RecordsForRun(c, p) && p.arena.active == Records(c, p, n)
    requires c.alignment == r.alignment != 0 && r.size > 0 && r.firstNode == 0 && r.lastNode == NODE_NOT_ASSIGNED
    requires ChooseOffset(r, p.arena.active).Some?
    ensures ChooseOffset(r, p.arena.active).value == AlignUp(PackedEnd(c, p, n), c.alignment)
  {
    hide ScanGaps, ScanAllGaps, AlignUp, CheckedAlignTo;
    EarlyExitIsUnreachable(r, p.arena.active, SCAN_START);
    NoGapBetween(c, p, n, r);
    CheckedAlignIsAlignUp(r.alignment, PackedEnd(c, p, n));
  }

  /** A block that starts behind all others goes to the end of the list. */
  lemma InsertLast(active: seq<ArenaAlloc>, a: ArenaAlloc)
    requires forall i :: 0 <= i < |active| ==> active[i].offset <= a.offset
    ensures Insert(active, a) == active + [a]
  {
    assert UpperBound(active, a.offset) == |active|;
  }

  /** Packed records start before the end of the last one. */
  lemma {:induction false} EndsBefore(c: Context, p: Plan, n: nat)
    requires Packed(c, p) && c.alignment != 0
    ensures forall i :: 0 <= i < |Records(c, p, n)| ==> Records(c, p, n)[i].offset <= PackedEnd(c, p, n)
  {
    if n > 0 {
      EndsBefore(c, p, n - 1);
      AlignUpIsAligned(PackedEnd(c, p, n - 1), c.alignment);
    }
  }

  /* ---- Placing in order packs the whole-run tensors ---- */

  /** What is so after the tensors of `list` have been placed, nothing having been placed before. */
  ghost predicate PackedSoFar(c: Context, q: Plan, list: seq<int>)
    requires c.Shape(q)
  {
    && (forall t :: c.Placed(q, t) ==> t in list)
    && RecordsForRun(c, q) && Packed(c, q)
    && ((forall t :: t in list ==> WholeRun(c, t)) ==>
          q.arena.active == if c.alignment == 0 then [] else Records(c, q, |c.allocNode|))
  }

  /** Nothing changes for the whole-run tensors when another one is placed. */
  lemma OtherTensorPlaced(c: Context, p: Plan, q: Plan, list: seq<int>, t: int)
    requires c.Shape(p) && c.Shape(q) && PackedSoFar(c, p, list) && 0 <= t < |p.allocs|
    requires q.allocs == p.allocs[t := q.allocs[t]]
    requires !PlacedForRun(c, p, t) && !PlacedForRun(c, q, t)
    requires WholeRun(c, t) ==> q.arena == p.arena
    ensures PackedSoFar(c, q, list + [t])
  {
    forall n: nat | c.alignment != 0
      ensures PackedEnd(c, q, n) == PackedEnd(c, p, n) && Records(c, q, n) == Records(c, p, n)
    {
      SamePacking(c, p, q, n);
    }
    assert t in list + [t] && forall s :: s in list ==> s in list + [t];
    forall s | PlacedForRun(c, q, s)
      ensures c.alignment != 0 && q.allocs[s].offset == AlignUp(PackedEnd(c, q, s), c.alignment)
    {
      assert PlacedForRun(c, p, s);
    }
  }

  /** A whole-run tensor with a higher index than all of them joins the placed ones. */
  lemma RunTensorPlaced(c: Context, p: Plan, q: Plan, a: SizeT, list: seq<int>, t: int)
    requires c.Shape(p) && c.Shape(q) && PackedSoFar(c, p, list) && 0 <= t < |p.allocs|
    requires forall s :: s in list ==> WholeRun(c, s) && s < t
    requires WholeRun(c, t) && c.IsRw(t) && c.tensors[t].bytes > 0
    requires var o := Allocate(p.arena, a, RwRequest(c, t), p.allocs[t]);
             o.status.Ok? && q == p.(allocs := p.allocs[t := o.alloc], actual := q.actual, arena := o.state)
    ensures PackedSoFar(c, q, list + [t])
  {
    hide Allocate, AlignUp, PackedEnd, Records, Packed;
    var r, n := RwRequest(c, t), |c.allocNode|;
    AllocateEffect(p.arena, a, r, p.allocs[t]);
    PackedAllocation(c, p, n, a, r, p.allocs[t]);
    OneMoreRecord(c, p, q, t);
    assert t in list + [t] && forall s :: s in list ==> s in list + [t];
    StaysPacked(c, p, q, t);
  }

  /** `t` is the last of the placed whole-run tensors of `q`, and the others are as in `p`. */
  ghost predicate JoinsLast(c: Context, p: Plan, q: Plan, t: nat) {
    && |p.allocs| == |q.allocs| == |c.allocNode| && PlacedForRun(c, q, t) && c.alignment != 0
    && q.allocs == p.allocs[t := q.allocs[t]]
    && forall s :: PlacedForRun(c, p, s) ==> s < t
  }

  lemma OneMoreRecord(c: Context, p: Plan, q: Plan, t: nat)
    requires JoinsLast(c, p, q, t)
    ensures PackedEnd(c, p, |c.allocNode|) == PackedEnd(c, p, t)
    ensures forall s: nat :: s <= t ==> PackedEnd(c, q, s) == PackedEnd(c, p, s)
    ensures Records(c, q, |c.allocNode|) == Records(c, p, |c.allocNode|) + [q.allocs[t]]
  {
    NoneFrom(c, p, t, |c.allocNode|);
    assert forall s :: s > t && PlacedForRun(c, q, s) ==> PlacedForRun(c, p, s);
    NoneFrom(c, q, t + 1, |c.allocNode|);
    forall s: nat | s <= t
      ensures PackedEnd(c, q, s) == PackedEnd(c, p, s) && Records(c, q, s) == Records(c, p, s)
    {
      SamePacking(c, p, q, s);
    }
  }

  lemma StaysPacked(c: Context, p: Plan, q: Plan, t: nat)
    requires JoinsLast(c, p, q, t) && Packed(c, p)
    requires q.allocs[t].offset == AlignUp(PackedEnd(c, q, t), c.alignment)
    ensures Packed(c, q)
  {
    hide AlignUp;
    OneMoreRecord(c, p, q, t);
    forall s | PlacedForRun(c, q, s) && s != t
      ensures q.allocs[s].offset == AlignUp(PackedEnd(c, q, s), c.alignment)
    {
      assert PlacedForRun(c, p, s);
    }
  }

  lemma OnePlaced(c: Context, p: Plan, q: Plan, a: SizeT, b: SizeT, list: seq<int>, t: int)
    requires c.Shape(p) && PackedSoFar(c, p, list) && 0 <= t < |p.allocs| && t !in list
    requires WholeRun(c, t) ==> forall s :: s in list ==> WholeRun(c, s) && s < t
    requires PlaceOne(c, p, a, b, t) == Some(q)
    ensures PackedSoFar(c, q, list + [t])
  {
    assert !c.Placed(p, t);
    hide PackedSoFar, Allocate;
    if WholeRun(c, t) && !StillBorrows(c, p, t) && c.IsRw(t) && c.tensors[t].bytes > 0 {
      RunTensorPlaced(c, p, q, a, list, t);
    } else {
      if c.tensors[t].bytes == 0 {
        AllocateNothing(p.arena, a, RwRequest(c, t), p.allocs[t]);
      }
      OtherTensorPlaced(c, p, q, list, t);
    }
  }

  lemma AllocateNothing(state: ArenaState, bufferAlignment: SizeT, r: Request, record: ArenaAlloc)
    requires r.size == 0
    ensures var o := Allocate(state, bufferAlignment, r, record);
            o.status.Ok? ==> o.state == state && o.alloc.size == 0 && o.alloc.offset == 0
  {
  }

  /**
   * Placing tensors in this order into an empty arena puts those that live for the whole run
   * back to back at its start.
   */
  lemma {:induction false} WholeRunTensorsArePacked(c: Context, p: Plan, q: Plan, a: SizeT, b: SizeT, list: seq<int>)
    requires c.Shape(p) && p.arena.active == [] && forall t :: !c.Placed(p, t)
    requires InPlacementOrder(c, list) && forall i, j :: 0 <= i < j < |list| ==> list[i] != list[j]
    requires PlaceAll(c, p, a, b, list) == Some(q)
    ensures PackedSoFar(c, q, list)
    decreases |list|
  {
    hide PlaceOne, PackedSoFar, InPlacementOrder;
    if list == [] {
      NonePlaced(c, p);
    } else {
      var k := |list| - 1;
      AllButLast(c, list);
      var before := PlaceAll(c, p, a, b, list[..k]);
      WholeRunTensorsArePacked(c, p, before.value, a, b, list[..k]);
      OnePlaced(c, before.value, q, a, b, list[..k], list[k]);
      assert list == list[..k] + [list[k]];
    }
  }

  lemma NonePlaced(c: Context, p: Plan)
    requires c.Shape(p) && p.arena.active == [] && forall t :: !c.Placed(p, t)
    ensures PackedSoFar(c, p, [])
  {
    if c.alignment != 0 {
      NoneFrom(c, p, 0, |c.allocNode|);
    }
  }

  /** What the order says about the last tensor and those before it. */
  lemma AllButLast(c: Context, list: seq<int>)
    requires list != [] && InPlacementOrder(c, list) && forall i, j :: 0 <= i < j < |list| ==> list[i] != list[j]
    ensures var rest, t := list[..|list| - 1], list[|list| - 1];
            && InPlacementOrder(c, rest) && (forall i, j :: 0 <= i < j < |rest| ==> rest[i] != rest[j])
            && 0 <= t < |c.allocNode| && t !in rest
            && (WholeRun(c, t) ==> forall s :: s in rest ==> WholeRun(c, s) && s < t)
  {
    var rest, t := list[..|list| - 1], list[|list| - 1];
    forall s | s in rest
      ensures s != t && (WholeRun(c, t) ==> WholeRun(c, s) && s < t)
    {
      var i :| 0 <= i < |rest| && rest[i] == s;
      assert list[i] == s;
    }
  }

  /** All other tensors in the arena lie behind them. */
  lemma OthersLieBehind(c: Context, p: Plan, reach: int, t: int, n: nat)
    requires c.Shape(p) && c.LayoutOk(p, reach, reach) && Packed(c, p)
    requires c.Placed(p, t) && !WholeRun(c, t) && c.deallocNode[t] >= 0 && n <= |c.allocNode|
    requires reach < NODE_NOT_ASSIGNED
    ensures c.alignment != 0 && PackedEnd(c, p, n) <= p.allocs[t].offset
  {
    if n > 0 {
      OthersLieBehind(c, p, reach, t, n - 1);
      if PlacedForRun(c, p, n - 1) {
        AlignUpIsLeast(PackedEnd(c, p, n - 1), c.alignment, p.allocs[t].offset);
        assert p.allocs[n - 1].DisjointFrom(p.allocs[t]);
        assert PackedEnd(c, p, n) == p.allocs[n - 1].End();
      }
    }
  }

  /** The first placement after planning or after a reset packs the whole-run tensors. */
  lemma FirstPlacementIsPacked(
    c: Context, p: Plan, d: Context, grown: Plan, q: Plan, first: int, last: int, a: SizeT, b: SizeT)
    requires c.Shape(p) && c.LayoutOk(p, -1, -1) && SameTensors(c.tensors, d.tensors)
    requires grown == Grown(p, |c.tensors|) && d.Shape(grown) && d.Shape(q)
    requires PlacedInOrder(d, grown, q, NODE_NOT_ASSIGNED, first, last, a, b) && first < NODE_NOT_ASSIGNED
    ensures Packed(d, q)
  {
    hide DueList, InPlacementOrder, Packed, PackedEnd, Records, PlaceAll, AlignUp;
    var list :| PlacedAs(d, grown, q, NODE_NOT_ASSIGNED, first, last, a, b, list);
    assert forall t :: d.Placed(grown, t) ==> c.Placed(p, t);
    if list == [] {
      NothingPacked(d, q);
    } else {
      WholeRunTensorsArePacked(d, Cleared(grown, first, NODE_NOT_ASSIGNED), q, a, b, list);
    }
  }

  lemma NothingPacked(c: Context, p: Plan)
    requires forall t :: !c.Placed(p, t)
    ensures Packed(c, p)
  {
  }

  /* ---- Addresses do not matter ---- */

  lemma {:induction false} PlacingIgnoresAddresses(c: Context, d: Context, p: Plan, a: SizeT, b: SizeT, list: seq<int>)
    requires d == c.(tensors := d.tensors) && SameTensors(c.tensors, d.tensors) && c.Shape(p) && d.Shape(p)
    requires forall i :: 0 <= i < |list| ==> 0 <= list[i] < |c.allocNode|
    ensures PlaceAll(d, p, a, b, list) == PlaceAll(c, p, a, b, list)
  {
    hide Allocate;
    if list != [] {
      PlacingIgnoresAddresses(c, d, p, a, b, list[..|list| - 1]);
    }
  }

  lemma OrderIgnoresAddresses(
    c: Context, d: Context, p: Plan, q: Plan, lastActive: int, first: int, last: int, a: SizeT, b: SizeT)
    requires d == c.(tensors := d.tensors) && SameTensors(c.tensors, d.tensors) && c.Shape(p) && d.Shape(p)
    requires PlacedInOrder(c, p, q, lastActive, first, last, a, b)
    ensures PlacedInOrder(d, p, q, lastActive, first, last, a, b)
  {
    hide PlaceAll;
    var list :| PlacedAs(c, p, q, lastActive, first, last, a, b, list);
    PlacingIgnoresAddresses(c, d, Cleared(p, first, lastActive), a, b, list);
    assert forall t :: 0 <= t < |p.allocs| ==> (c.Due(p, t) <==> d.Due(p, t));
    assert PlacedAs(d, p, q, lastActive, first, last, a, b, list);
  }
}
