/** Whole runs of the arena: the invariant, the utilization bound, and what purging changes. */
module ArenaRuns {
  import opened Common
  import opened ArenaPlacement

  datatype ArenaOp =
    | OpAllocate(request: Request, record: ArenaAlloc)
    | OpPurgeActiveAllocs(node: int)
    | OpPurgeAfter(node: int)
    | OpResetAllocs
    | OpCalculateActiveAllocs(allocs: seq<ArenaAlloc>, node: int, sorted: seq<ArenaAlloc>)
    | OpClearPlan

  /** `sorted` is what the sort in `CalculateActiveAllocs` comes up with: ties may be in any order. */
  ghost predicate ProperSort(op: ArenaOp) {
    op.OpCalculateActiveAllocs? ==>
      SortedByOffset(op.sorted) && multiset(op.sorted) == multiset(ActiveAt(op.allocs, op.node))
  }

  /** What the caller sees of one operation. */
  datatype Reply = NoReply | Allocated(status: Status, alloc: ArenaAlloc)

  const EMPTY_ARENA := ArenaState([], 0)

  function Step(s: ArenaState, bufferAlignment: SizeT, op: ArenaOp): (ArenaState, Reply) {
    match op
    case OpAllocate(r, record) =>
      var o := Allocate(s, bufferAlignment, r, record);
      (o.state, Allocated(o.status, o.alloc))
    case OpPurgeActiveAllocs(node) => (s.(active := DropEndedBefore(s.active, node)), NoReply)
    case OpPurgeAfter(node) => (s.(active := DropStartedAfter(s.active, node)), NoReply)
    case OpResetAllocs => (s.(active := []), NoReply)
    case OpCalculateActiveAllocs(_, _, sorted) => (s.(active := sorted), NoReply)
    case OpClearPlan => (EMPTY_ARENA, NoReply)
  }

  function Run(s: ArenaState, bufferAlignment: SizeT, ops: seq<ArenaOp>): ArenaState
    decreases |ops|
  {
    if ops == [] then s else Run(Step(s, bufferAlignment, ops[0]).0, bufferAlignment, ops[1..])
  }

  function Replies(s: ArenaState, bufferAlignment: SizeT, ops: seq<ArenaOp>): seq<Reply>
    decreases |ops|
  {
    if ops == [] then []
    else
      var next := Step(s, bufferAlignment, ops[0]);
      [next.1] + Replies(next.0, bufferAlignment, ops[1..])
  }

  /* ---- The invariant ---- */

  ghost predicate PairwiseCompatible(active: seq<ArenaAlloc>) {
    forall i, j :: 0 <= i < j < |active| ==> active[i].CompatibleWith(active[j])
  }

  ghost predicate ArenaInvariant(s: ArenaState) {
    && SortedByOffset(s.active)
    && PairwiseCompatible(s.active)
    && forall a :: a in s.active ==> a.size > 0 && a.End() <= s.highWater
  }

  lemma InsertKeepsCompatible(active: seq<ArenaAlloc>, a: ArenaAlloc)
    requires PairwiseCompatible(active)
    requires forall b :: b in active ==> a.CompatibleWith(b)
    ensures PairwiseCompatible(Insert(active, a))
  {
    var n, i := Insert(active, a), UpperBound(active, a.offset);
    forall p, q | 0 <= p < q < |n| ensures n[p].CompatibleWith(n[q]) {
      var p' := if p <= i then p else p - 1;
      var q' := if q <= i then q else q - 1;
      assert n[p] == (if p == i then a else active[p']);
      assert n[q] == (if q == i then a else active[q']);
      assert p != i ==> a.CompatibleWith(active[p']);
      assert q != i ==> a.CompatibleWith(active[q']);
    }
  }

  lemma {:induction false} DropEndedKeepsCompatible(active: seq<ArenaAlloc>, node: int)
    requires PairwiseCompatible(active)
    ensures PairwiseCompatible(DropEndedBefore(active, node))
  {
    if active != [] {
      DropEndedKeepsCompatible(active[1..], node);
      var rest := DropEndedBefore(active[1..], node);
      assert forall i :: 0 <= i < |rest| ==> rest[i] in rest && rest[i] in active[1..];
    }
  }

  lemma {:induction false} DropStartedKeepsCompatible(active: seq<ArenaAlloc>, node: int)
    requires PairwiseCompatible(active)
    ensures PairwiseCompatible(DropStartedAfter(active, node))
  {
    if active != [] {
      DropStartedKeepsCompatible(active[1..], node);
      var rest := DropStartedAfter(active[1..], node);
      assert forall i :: 0 <= i < |rest| ==> rest[i] in rest && rest[i] in active[1..];
    }
  }

  lemma {:induction false} OccursTwice(s: seq<ArenaAlloc>, x: ArenaAlloc) returns (i: nat, j: nat)
    requires multiset(s)[x] >= 2
    ensures i < j < |s| && s[i] == s[j] == x
  {
    var last := |s| - 1;
    assert s == s[..last] + [s[last]];
    if s[last] == x {
      assert x in multiset(s[..last]);
      i :| 0 <= i < last && s[..last][i] == x;
      j := last;
    } else {
      i, j := OccursTwice(s[..last], x);
    }
  }

  /** Conflicts do not depend on the order of the list. */
  lemma PermutationKeepsCompatible(a: seq<ArenaAlloc>, b: seq<ArenaAlloc>)
    requires multiset(a) == multiset(b) && PairwiseCompatible(a)
    ensures PairwiseCompatible(b)
  {
    forall i, j | 0 <= i < j < |b|
      ensures b[i].CompatibleWith(b[j])
    {
      var x, y := b[i], b[j];
      assert x in multiset(b) && y in multiset(b);
      if x == y {
        assert b == b[..i] + [x] + b[i + 1..j] + [y] + b[j + 1..];
        var p, q := OccursTwice(a, x);
        assert a[p].CompatibleWith(a[q]);
      } else {
        var p :| 0 <= p < |a| && a[p] == x;
        var q :| 0 <= q < |a| && a[q] == y;
        assert a[if p < q then p else q].CompatibleWith(a[if p < q then q else p]);
      }
    }
  }

  lemma PermutationKeepsMembers(a: seq<ArenaAlloc>, b: seq<ArenaAlloc>)
    requires multiset(a) == multiset(b)
    ensures forall x :: x in a <==> x in b
  {
    assert forall x :: x in a <==> x in multiset(a);
    assert forall x :: x in b <==> x in multiset(b);
  }

  /** Records that could all be on the list: nonempty, below the mark, and free of conflicts. */
  ghost predicate RecordsFit(records: seq<ArenaAlloc>, highWater: SizeT) {
    PairwiseCompatible(records) && forall a :: a in records ==> a.size > 0 && a.End() <= highWater
  }

  /** An operation fits: all do, except a recalculation from records that could not all be on the list. */
  ghost predicate OpFits(s: ArenaState, op: ArenaOp) {
    op.OpCalculateActiveAllocs? ==> RecordsFit(ActiveAt(op.allocs, op.node), s.highWater)
  }

  lemma RecalculationKeepsInvariantIff(s: ArenaState, bufferAlignment: SizeT, op: ArenaOp)
    requires op.OpCalculateActiveAllocs? && ProperSort(op)
    ensures ArenaInvariant(Step(s, bufferAlignment, op).0) <==> OpFits(s, op)
  {
    hide PairwiseCompatible, SortedByOffset, ActiveAt;
    var records := ActiveAt(op.allocs, op.node);
    PermutationKeepsMembers(records, op.sorted);
    if PairwiseCompatible(records) {
      PermutationKeepsCompatible(records, op.sorted);
    }
    if PairwiseCompatible(op.sorted) {
      PermutationKeepsCompatible(op.sorted, records);
    }
  }

  lemma AllocationKeepsInvariant(s: ArenaState, bufferAlignment: SizeT, r: Request, record: ArenaAlloc)
    requires ArenaInvariant(s)
    ensures var o := Allocate(s, bufferAlignment, r, record);
            && ArenaInvariant(o.state)
            && if o.status.Ok? then o.alloc.offset % r.alignment == 0 else o.state == s
  {
    hide Insert, ChooseOffset;
    AllocateIsSafe(s, bufferAlignment, r, record);
    var o := Allocate(s, bufferAlignment, r, record);
    if o.status.Ok? && r.size > 0 {
      InsertHas(s.active, o.alloc);
      InsertKeepsSorted(s.active, o.alloc);
      InsertKeepsCompatible(s.active, o.alloc);
    }
  }

  /**
   * Every operation keeps the invariant exactly when it fits; an allocation lands on a multiple
   * of its alignment or changes nothing.
   */
  lemma StepKeepsInvariant(s: ArenaState, bufferAlignment: SizeT, op: ArenaOp)
    requires ArenaInvariant(s) && ProperSort(op)
    ensures ArenaInvariant(Step(s, bufferAlignment, op).0) <==> OpFits(s, op)
    ensures var reply := Step(s, bufferAlignment, op).1;
            reply.Allocated? ==>
              if reply.status.Ok? then reply.alloc.offset % op.request.alignment == 0
              else Step(s, bufferAlignment, op).0 == s
  {
    hide Allocate;
    match op {
      case OpAllocate(r, record) =>
        AllocationKeepsInvariant(s, bufferAlignment, r, record);
      case OpPurgeActiveAllocs(node) =>
        DropEndedKeepsSorted(s.active, node);
        DropEndedKeepsCompatible(s.active, node);
      case OpPurgeAfter(node) =>
        DropStartedKeepsSorted(s.active, node);
        DropStartedKeepsCompatible(s.active, node);
      case OpResetAllocs =>
      case OpCalculateActiveAllocs(_, _, _) =>
        RecalculationKeepsInvariantIff(s, bufferAlignment, op);
      case OpClearPlan =>
    }
  }

  /** The invariant holds now and after every operation of the run. */
  ghost predicate AlwaysInvariant(s: ArenaState, bufferAlignment: SizeT, ops: seq<ArenaOp>)
    decreases |ops|
  {
    ArenaInvariant(s) && (ops != [] ==> AlwaysInvariant(Step(s, bufferAlignment, ops[0]).0, bufferAlignment, ops[1..]))
  }

  /** Every operation of the run fits the state it meets. */
  ghost predicate AllFit(s: ArenaState, bufferAlignment: SizeT, ops: seq<ArenaOp>)
    decreases |ops|
  {
    ops != [] ==>
      && ProperSort(ops[0]) && OpFits(s, ops[0])
      && AllFit(Step(s, bufferAlignment, ops[0]).0, bufferAlignment, ops[1..])
  }

  /**
   * Throughout a run the arena is sorted, free of conflicts and below its high-water mark, if
   * and only if every recalculation starts from records that could all be on the list.
   */
  lemma {:induction false} RunKeepsInvariant(s: ArenaState, bufferAlignment: SizeT, ops: seq<ArenaOp>)
    requires ArenaInvariant(s) && forall op :: op in ops ==> ProperSort(op)
    ensures AlwaysInvariant(s, bufferAlignment, ops) <==> AllFit(s, bufferAlignment, ops)
    ensures AllFit(s, bufferAlignment, ops) ==> ArenaInvariant(Run(s, bufferAlignment, ops))
    decreases |ops|
  {
    if ops != [] {
      StepKeepsInvariant(s, bufferAlignment, ops[0]);
      var next := Step(s, bufferAlignment, ops[0]).0;
      assert ops[0] in ops && forall op :: op in ops[1..] ==> op in ops;
      if ArenaInvariant(next) {
        RunKeepsInvariant(next, bufferAlignment, ops[1..]);
      }
    }
  }

  /** Runs without recalculations always fit. */
  lemma {:induction false} WithoutRecalculationAllFit(s: ArenaState, bufferAlignment: SizeT, ops: seq<ArenaOp>)
    requires forall op :: op in ops ==> !op.OpCalculateActiveAllocs?
    ensures AllFit(s, bufferAlignment, ops)
    decreases |ops|
  {
    if ops != [] {
      assert ops[0] in ops && forall op :: op in ops[1..] ==> op in ops;
      WithoutRecalculationAllFit(Step(s, bufferAlignment, ops[0]).0, bufferAlignment, ops[1..]);
    }
  }

  /* ---- Utilization ---- */

  /** Bytes of all the allocations live at `node`. */
  function LiveBytes(active: seq<ArenaAlloc>, node: int): nat {
    if active == [] then 0
    else (if LiveAt(active[0], node) then active[0].size else 0) + LiveBytes(active[1..], node)
  }

  lemma {:induction false} LiveBytesAbove(s: ArenaState, k: nat, node: int, floor: nat)
    requires ArenaInvariant(s) && k <= |s.active| && floor <= s.highWater
    requires forall i :: k <= i < |s.active| && LiveAt(s.active[i], node) ==> floor <= s.active[i].offset
    ensures floor + LiveBytes(s.active[k..], node) <= s.highWater
    decreases |s.active| - k
  {
    if k < |s.active| {
      assert s.active[k..][1..] == s.active[k + 1..];
      var a := s.active[k];
      assert a in s.active;
      if LiveAt(a, node) {
        forall i | k + 1 <= i < |s.active| && LiveAt(s.active[i], node) ensures a.End() <= s.active[i].offset {
          assert a.CompatibleWith(s.active[i]);
          assert s.active[i] in s.active;
        }
        LiveBytesAbove(s, k + 1, node, a.End());
      } else {
        LiveBytesAbove(s, k + 1, node, floor);
      }
    }
  }

  lemma InvariantBoundsUtilization(s: ArenaState, node: int)
    requires ArenaInvariant(s)
    ensures LiveBytes(s.active, node) <= s.highWater
  {
    assert s.active[0..] == s.active;
    LiveBytesAbove(s, 0, node, 0);
  }

  lemma {:induction false} FittingRunsAreProper(s: ArenaState, bufferAlignment: SizeT, ops: seq<ArenaOp>)
    requires AllFit(s, bufferAlignment, ops)
    ensures forall op :: op in ops ==> ProperSort(op)
    decreases |ops|
  {
    if ops != [] {
      FittingRunsAreProper(Step(s, bufferAlignment, ops[0]).0, bufferAlignment, ops[1..]);
      assert ops == [ops[0]] + ops[1..];
    }
  }

  /** Whatever fitting operations led to it, what is live at any one node fits below the high-water mark. */
  lemma UtilizationBound(bufferAlignment: SizeT, ops: seq<ArenaOp>, node: int)
    requires AllFit(EMPTY_ARENA, bufferAlignment, ops)
    ensures var s := Run(EMPTY_ARENA, bufferAlignment, ops);
            LiveBytes(s.active, node) <= s.highWater
  {
    FittingRunsAreProper(EMPTY_ARENA, bufferAlignment, ops);
    RunKeepsInvariant(EMPTY_ARENA, bufferAlignment, ops);
    InvariantBoundsUtilization(Run(EMPTY_ARENA, bufferAlignment, ops), node);
  }

  lemma TwoRecords(a: ArenaAlloc, b: ArenaAlloc, node: int)
    requires LiveAt(a, node) && LiveAt(b, node)
    ensures ActiveAt([a, b], node) == [a, b] && LiveBytes([a, b], node) == a.size + b.size
  {
    assert [a, b][..1] == [a] && [a][..0] == [] && [a, b][1..] == [b] && [b][1..] == [];
    assert ActiveAt([a], node) == [a];
    assert LiveBytes([b], node) == b.size;
  }

  const MINE := ArenaAlloc(0, 4, 0, 0, 9)
  const OTHERS := ArenaAlloc(0, 4, 1, 0, 9)

  /**
   * Without that the bound fails: the planner hands the records of both arenas to a
   * recalculation, and here one of them is in the other arena, at the same offset.
   */
  lemma RecalculationCanExceedTheMark(s: ArenaState, op: ArenaOp)
    requires s == ArenaState([MINE], 4) && op == OpCalculateActiveAllocs([MINE, OTHERS], 0, [MINE, OTHERS])
    ensures ArenaInvariant(s) && ProperSort(op) && !OpFits(s, op)
    ensures var after := Step(s, 64, op).0; LiveBytes(after.active, 0) == 8 > after.highWater
  {
    TwoRecords(MINE, OTHERS, 0);
    assert !op.sorted[0].CompatibleWith(op.sorted[1]);
  }

  /* ---- Purging is a pure speed-up ---- */

  /** `thin` is `full` without some entries that end before `floor`; with no floor they are equal. */
  ghost predicate Thinned(full: seq<ArenaAlloc>, thin: seq<ArenaAlloc>, floor: Option<int>) {
    if full == [] then thin == []
    else
      || (thin != [] && full[0] == thin[0] && Thinned(full[1..], thin[1..], floor))
      || (floor.Some? && full[0].lastNode < floor.value && Thinned(full[1..], thin, floor))
  }

  lemma {:induction false} ThinnedRefl(full: seq<ArenaAlloc>, floor: Option<int>)
    ensures Thinned(full, full, floor)
  {
    if full != [] {
      ThinnedRefl(full[1..], floor);
    }
  }

  lemma {:induction false} ThinnedHas(full: seq<ArenaAlloc>, thin: seq<ArenaAlloc>, floor: Option<int>)
    requires Thinned(full, thin, floor)
    ensures forall a :: a in thin ==> a in full
  {
    if full != [] {
      if thin != [] && full[0] == thin[0] && Thinned(full[1..], thin[1..], floor) {
        ThinnedHas(full[1..], thin[1..], floor);
        assert thin == [full[0]] + thin[1..];
      } else {
        ThinnedHas(full[1..], thin, floor);
      }
    }
  }

  lemma {:induction false} ThinnedScan(
    r: Request, full: seq<ArenaAlloc>, thin: seq<ArenaAlloc>, floor: Option<int>, s: Scan)
    requires Thinned(full, thin, floor) && (floor.Some? ==> r.firstNode >= floor.value)
    ensures ScanGaps(r, full, s) == ScanGaps(r, thin, s)
    decreases |full|
  {
    if full != [] {
      if thin != [] && full[0] == thin[0] && Thinned(full[1..], thin[1..], floor) {
        if !full[0].LiveIn(r.firstNode, r.lastNode) {
          ThinnedScan(r, full[1..], thin[1..], floor, s);
        } else if Visit(r, full[0], s).Some? {
          ThinnedScan(r, full[1..], thin[1..], floor, Visit(r, full[0], s).value);
        }
      } else {
        ThinnedScan(r, full[1..], thin, floor, s);
      }
    }
  }

  lemma InsertUnfolds(active: seq<ArenaAlloc>, a: ArenaAlloc)
    ensures Insert(active, a) ==
            if active == [] || a.offset < active[0].offset then [a] + active
            else [active[0]] + Insert(active[1..], a)
  {
    if active != [] && active[0].offset <= a.offset {
      var i := UpperBound(active[1..], a.offset);
      assert UpperBound(active, a.offset) == i + 1;
      assert active[..i + 1] == [active[0]] + active[1..][..i];
      assert active[i + 1..] == active[1..][i..];
    }
  }

  lemma {:induction false} ThinnedInsert(
    full: seq<ArenaAlloc>, thin: seq<ArenaAlloc>, floor: Option<int>, a: ArenaAlloc)
    requires Thinned(full, thin, floor) && SortedByOffset(full)
    ensures Thinned(Insert(full, a), Insert(thin, a), floor)
    decreases |full|
  {
    hide Insert;
    InsertUnfolds(full, a);
    InsertUnfolds(thin, a);
    if full == [] {
    } else if a.offset < full[0].offset {
      ThinnedHas(full, thin, floor);
      assert thin != [] ==> thin[0] in full;
      assert ([a] + full)[1..] == full && ([a] + thin)[1..] == thin;
    } else if thin != [] && full[0] == thin[0] && Thinned(full[1..], thin[1..], floor) {
      ThinnedInsert(full[1..], thin[1..], floor, a);
      assert ([full[0]] + Insert(full[1..], a))[1..] == Insert(full[1..], a);
      assert ([thin[0]] + Insert(thin[1..], a))[1..] == Insert(thin[1..], a);
    } else {
      ThinnedInsert(full[1..], thin, floor, a);
      assert ([full[0]] + Insert(full[1..], a))[1..] == Insert(full[1..], a);
    }
  }

  ghost function Raise(floor: Option<int>, node: int): Option<int> {
    if floor.Some? && floor.value > node then floor else Some(node)
  }

  /** Tensor -1 marks an entry for deletion, so a real allocation carries a real tensor index. */
  ghost predicate Unmarked(active: seq<ArenaAlloc>) {
    forall a :: a in active ==> a.tensor != -1
  }

  lemma {:induction false} ThinnedByPurge(full: seq<ArenaAlloc>, thin: seq<ArenaAlloc>, floor: Option<int>, node: int)
    requires Thinned(full, thin, floor) && Unmarked(full)
    ensures Thinned(full, DropEndedBefore(thin, node), Raise(floor, node))
    decreases |full|
  {
    if full != [] {
      assert full[0] in full && Unmarked(full[1..]);
      if thin != [] && full[0] == thin[0] && Thinned(full[1..], thin[1..], floor) {
        ThinnedByPurge(full[1..], thin[1..], floor, node);
        var t := DropEndedBefore(thin[1..], node);
        assert [] + t == t && ([thin[0]] + t)[1..] == t;
      } else {
        ThinnedByPurge(full[1..], thin, floor, node);
      }
    }
  }

  lemma {:induction false} ThinnedDropStarted(
    full: seq<ArenaAlloc>, thin: seq<ArenaAlloc>, floor: Option<int>, node: int)
    requires Thinned(full, thin, floor)
    ensures Thinned(DropStartedAfter(full, node), DropStartedAfter(thin, node), floor)
    decreases |full|
  {
    if full != [] {
      var f := DropStartedAfter(full[1..], node);
      if thin != [] && full[0] == thin[0] && Thinned(full[1..], thin[1..], floor) {
        ThinnedDropStarted(full[1..], thin[1..], floor, node);
        var t := DropStartedAfter(thin[1..], node);
        assert ([full[0]] + f)[1..] == f && ([thin[0]] + t)[1..] == t;
        assert [] + f == f && [] + t == t;
      } else {
        ThinnedDropStarted(full[1..], thin, floor, node);
        assert ([full[0]] + f)[1..] == f && [] + f == f;
      }
    }
  }

  /** The latest node purged since the list was last made anew. */
  ghost function NextFloor(op: ArenaOp, floor: Option<int>): Option<int> {
    match op
    case OpPurgeActiveAllocs(node) => Raise(floor, node)
    case OpAllocate(_, _) => floor
    case OpPurgeAfter(_) => floor
    case _ => None
  }

  ghost function FloorAfter(ops: seq<ArenaOp>, floor: Option<int>): Option<int> {
    if ops == [] then floor else FloorAfter(ops[1..], NextFloor(ops[0], floor))
  }

  /**
   * The pace the planner keeps: until the list is made anew no allocation starts before a node
   * that has been purged, and no listed record is marked for deletion.
   */
  ghost predicate Paced(ops: seq<ArenaOp>, floor: Option<int>) {
    ops != [] ==>
      && ProperSort(ops[0]) && Paced(ops[1..], NextFloor(ops[0], floor))
      && match ops[0]
         case OpAllocate(r, _) => r.tensor != -1 && (floor.Some? ==> r.firstNode >= floor.value)
         case OpCalculateActiveAllocs(_, _, sorted) => Unmarked(sorted)
         case _ => true
  }

  /** The same run with every `PurgeActiveAllocs` left out. */
  function WithoutPurges(ops: seq<ArenaOp>): seq<ArenaOp> {
    if ops == [] then []
    else (if ops[0].OpPurgeActiveAllocs? then [] else [ops[0]]) + WithoutPurges(ops[1..])
  }

  function Answers(replies: seq<Reply>): seq<Reply> {
    if replies == [] then []
    else (if replies[0].NoReply? then [] else [replies[0]]) + Answers(replies[1..])
  }

  lemma ThinnedAllocate(
    full: ArenaState, thin: ArenaState, floor: Option<int>, bufferAlignment: SizeT, r: Request, record: ArenaAlloc)
    requires SortedByOffset(full.active) && Unmarked(full.active) && r.tensor != -1
    requires Thinned(full.active, thin.active, floor) && full.highWater == thin.highWater
    requires floor.Some? ==> r.firstNode >= floor.value
    ensures var f, t := Allocate(full, bufferAlignment, r, record), Allocate(thin, bufferAlignment, r, record);
            && f.status == t.status && f.alloc == t.alloc && f.state.highWater == t.state.highWater
            && Thinned(f.state.active, t.state.active, floor)
            && Unmarked(f.state.active)
  {
    hide Insert, ScanGaps, Thinned, CheckedAlignTo, CheckedAdd;
    ThinnedScan(r, full.active, thin.active, floor, SCAN_START);
    var f := Allocate(full, bufferAlignment, r, record);
    ThinnedInsert(full.active, thin.active, floor, f.alloc);
    InsertHas(full.active, f.alloc);
  }

  /** One operation, done on both lists unless it is a purge. */
  lemma StepStaysThinned(full: ArenaState, thin: ArenaState, floor: Option<int>, bufferAlignment: SizeT, op: ArenaOp)
    requires SortedByOffset(full.active) && Unmarked(full.active) && Paced([op], floor)
    requires Thinned(full.active, thin.active, floor) && full.highWater == thin.highWater
    ensures var f := if op.OpPurgeActiveAllocs? then (full, NoReply) else Step(full, bufferAlignment, op);
            var t := Step(thin, bufferAlignment, op);
            && SortedByOffset(f.0.active) && Unmarked(f.0.active)
            && Thinned(f.0.active, t.0.active, NextFloor(op, floor))
            && f.0.highWater == t.0.highWater && f.1 == t.1
  {
    hide Thinned, Allocate, Insert;
    match op {
      case OpAllocate(r, record) =>
        ThinnedAllocate(full, thin, floor, bufferAlignment, r, record);
        AllocationStaysSorted(full, bufferAlignment, r, record);
      case OpPurgeActiveAllocs(node) =>
        ThinnedByPurge(full.active, thin.active, floor, node);
      case OpPurgeAfter(node) =>
        ThinnedDropStarted(full.active, thin.active, floor, node);
        DropStartedKeepsSorted(full.active, node);
      case OpResetAllocs =>
        ThinnedRefl([], None);
      case OpCalculateActiveAllocs(_, _, sorted) =>
        ThinnedRefl(sorted, None);
      case OpClearPlan =>
        ThinnedRefl([], None);
    }
  }

  lemma AllocationStaysSorted(s: ArenaState, bufferAlignment: SizeT, r: Request, record: ArenaAlloc)
    requires SortedByOffset(s.active)
    ensures SortedByOffset(Allocate(s, bufferAlignment, r, record).state.active)
  {
    hide Insert;
    InsertKeepsSorted(s.active, Allocate(s, bufferAlignment, r, record).alloc);
  }

  /**
   * Purging is a pure speed-up: a paced run answers every allocation request in the same way
   * and ends with the same high-water mark when all its purges are left out, and the purged
   * list is the unpurged one minus entries that end before the latest purged node.
   */
  lemma {:induction false} PurgingChangesNoAnswer(
    full: ArenaState, thin: ArenaState, floor: Option<int>, bufferAlignment: SizeT, ops: seq<ArenaOp>)
    requires SortedByOffset(full.active) && Unmarked(full.active) && Paced(ops, floor)
    requires Thinned(full.active, thin.active, floor) && full.highWater == thin.highWater
    ensures Answers(Replies(full, bufferAlignment, WithoutPurges(ops))) == Answers(Replies(thin, bufferAlignment, ops))
    ensures Run(full, bufferAlignment, WithoutPurges(ops)).highWater == Run(thin, bufferAlignment, ops).highWater
    ensures Thinned(Run(full, bufferAlignment, WithoutPurges(ops)).active, Run(thin, bufferAlignment, ops).active,
                    FloorAfter(ops, floor))
    decreases |ops|
  {
    if ops != [] {
      hide Thinned, Step, Answers;
      var op, rest := ops[0], WithoutPurges(ops[1..]);
      assert [op][1..] == [];
      StepStaysThinned(full, thin, floor, bufferAlignment, op);
      assert [op] + ops[1..] == ops && ([op] + rest)[1..] == rest && [] + rest == rest;
      var next := if op.OpPurgeActiveAllocs? then full else Step(full, bufferAlignment, op).0;
      PurgingChangesNoAnswer(next, Step(thin, bufferAlignment, op).0, NextFloor(op, floor), bufferAlignment, ops[1..]);
      AnswersUnfold(full, bufferAlignment, op, rest);
      AnswersUnfold(thin, bufferAlignment, op, ops[1..]);
    }
  }

  /** The case a caller sees: two arenas that start alike, one of which is never purged. */
  lemma PurgesCanBeLeftOut(s: ArenaState, bufferAlignment: SizeT, ops: seq<ArenaOp>)
    requires SortedByOffset(s.active) && Unmarked(s.active) && Paced(ops, None)
    ensures Answers(Replies(s, bufferAlignment, WithoutPurges(ops))) == Answers(Replies(s, bufferAlignment, ops))
    ensures Run(s, bufferAlignment, WithoutPurges(ops)).highWater == Run(s, bufferAlignment, ops).highWater
  {
    ThinnedRefl(s.active, None);
    PurgingChangesNoAnswer(s, s, None, bufferAlignment, ops);
  }

  lemma AnswersUnfold(s: ArenaState, bufferAlignment: SizeT, op: ArenaOp, rest: seq<ArenaOp>)
    ensures var next := Step(s, bufferAlignment, op);
            Answers(Replies(s, bufferAlignment, [op] + rest)) ==
            (if next.1.NoReply? then [] else [next.1]) + Answers(Replies(next.0, bufferAlignment, rest))
  {
    var next := Step(s, bufferAlignment, op);
    assert ([op] + rest)[1..] == rest;
    assert ([next.1] + Replies(next.0, bufferAlignment, rest))[1..] == Replies(next.0, bufferAlignment, rest);
  }
}
