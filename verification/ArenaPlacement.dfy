/**
 * The placement policy of the arena as functions on values: which offset `Allocate` picks,
 * what it does to the list of active allocations, and what that guarantees.
 * `SimpleMemoryArena` is proved equal to these functions.
 */
module ArenaPlacement {
  import opened Common

  /** An allocation: bytes `[offset, offset + size)` for the nodes `[firstNode, lastNode]`. */
  datatype ArenaAlloc = ArenaAlloc(offset: SizeT, size: SizeT, tensor: int, firstNode: int, lastNode: int) {
    function End(): nat { offset + size }

    /** Whether the usage interval meets `[first, last]`. */
    predicate LiveIn(first: int, last: int) {
      !(lastNode < first || firstNode > last)
    }

    predicate LiveTogether(other: ArenaAlloc) {
      LiveIn(other.firstNode, other.lastNode)
    }

    predicate DisjointFrom(other: ArenaAlloc) {
      End() <= other.offset || other.End() <= offset
    }

    /** No two allocations may be live together and share a byte. */
    predicate CompatibleWith(other: ArenaAlloc) {
      LiveTogether(other) ==> DisjointFrom(other)
    }
  }

  predicate LiveAt(a: ArenaAlloc, node: int) {
    node >= a.firstNode && node <= a.lastNode
  }

  /** Being live in an interval means being live at one of its nodes. */
  lemma LiveInMeans(a: ArenaAlloc, first: int, last: int)
    requires a.firstNode <= a.lastNode && first <= last
    ensures a.LiveIn(first, last) <==> exists n :: first <= n <= last && LiveAt(a, n)
  {
    if a.LiveIn(first, last) {
      assert LiveAt(a, if a.firstNode <= first then first else a.firstNode);
    }
  }

  /** The value every allocation record starts from and is reset to. */
  const UNALLOCATED := ArenaAlloc(0, 0, -1, -1, -1)

  /** What `Allocate` is asked for. */
  datatype Request = Request(alignment: SizeT, size: SizeT, tensor: int, firstNode: int, lastNode: int)

  ghost predicate SortedByOffset(active: seq<ArenaAlloc>) {
    forall i, j :: 0 <= i < j < |active| ==> active[i].offset <= active[j].offset
  }

  /* ---- The scan over the gaps ---- */

  /** Loop state: end of the occupied prefix, offset chosen so far, length of the gap it is in. */
  datatype Scan = Scan(current: SizeT, best: SizeT, fit: SizeT)

  /** `SIZE_MAX` stands for "no offset chosen yet". */
  const SCAN_START := Scan(0, SIZE_MAX, SIZE_MAX)

  /** One allocation that is live with the request; fails if an address computation would wrap. */
  function Visit(r: Request, a: ArenaAlloc, s: Scan): Option<Scan> {
    var aligned := CheckedAlignTo(r.alignment, s.current);
    if aligned.None? then None else
    var end := CheckedAdd(aligned.value, r.size);
    if end.None? then None else
    var chosen :=
      if end.value <= a.offset && a.offset - aligned.value < s.fit
      then Scan(s.current, aligned.value, a.offset - s.current) else s;
    var allocEnd := CheckedAdd(a.offset, a.size);
    if allocEnd.None? then None else
    Some(chosen.(current := Max(chosen.current, allocEnd.value)))
  }

  function ScanGaps(r: Request, active: seq<ArenaAlloc>, s: Scan): Option<Scan> {
    if active == [] then Some(s)
    else if !active[0].LiveIn(r.firstNode, r.lastNode) then ScanGaps(r, active[1..], s)
    else
      var next := Visit(r, active[0], s);
      if next.None? then None
      else if next.value.fit == 0 then next
      else ScanGaps(r, active[1..], next.value)
  }

  /** The offset of a nonempty request, or None when some address computation would wrap. */
  function ChooseOffset(r: Request, active: seq<ArenaAlloc>): Option<SizeT> {
    var s := ScanGaps(r, active, SCAN_START);
    if s.None? then None
    else
      var best := if s.value.best == SIZE_MAX then CheckedAlignTo(r.alignment, s.value.current) else Some(s.value.best);
      if best.None? || CheckedAdd(best.value, r.size).None? then None else best
  }

  /* ---- The state change ---- */

  datatype ArenaState = ArenaState(active: seq<ArenaAlloc>, highWater: SizeT)

  datatype Outcome = Outcome(status: Status, alloc: ArenaAlloc, state: ArenaState)

  /** First position whose offset is above `offset`. */
  function UpperBound(active: seq<ArenaAlloc>, offset: SizeT): (i: nat)
    ensures i <= |active|
    ensures forall j :: 0 <= j < i ==> active[j].offset <= offset
    ensures i < |active| ==> offset < active[i].offset
  {
    if active == [] || offset < active[0].offset then 0 else 1 + UpperBound(active[1..], offset)
  }

  function Insert(active: seq<ArenaAlloc>, a: ArenaAlloc): seq<ArenaAlloc> {
    var i := UpperBound(active, a.offset);
    active[..i] + [a] + active[i..]
  }

  /** `record` is the caller's allocation record, which is partly overwritten even on failure. */
  function Allocate(state: ArenaState, bufferAlignment: SizeT, r: Request, record: ArenaAlloc): Outcome {
    if r.alignment == 0 || r.alignment > bufferAlignment then Outcome(Error, record, state)
    else
      var pending := ArenaAlloc(record.offset, r.size, r.tensor, r.firstNode, r.lastNode);
      if r.size == 0 then Outcome(Ok, pending.(offset := 0), state)
      else
        var offset := ChooseOffset(r, state.active);
        if offset.None? then Outcome(Error, pending, state)
        else
          var placed := pending.(offset := offset.value);
          Outcome(Ok, placed,
                  ArenaState(Insert(state.active, placed), Max(state.highWater, offset.value + r.size)))
  }

  /** Keeps the entries that are not yet over at `node` (entries marked -1 are dropped). */
  function DropEndedBefore(active: seq<ArenaAlloc>, node: int): (r: seq<ArenaAlloc>)
    ensures forall a :: a in r <==> a in active && a.tensor != -1 && a.lastNode >= node
  {
    if active == [] then []
    else (if active[0].lastNode < node || active[0].tensor == -1 then [] else [active[0]])
         + DropEndedBefore(active[1..], node)
  }

  /** Keeps the entries that have started at `node` (entries marked -1 are dropped). */
  function DropStartedAfter(active: seq<ArenaAlloc>, node: int): (r: seq<ArenaAlloc>)
    ensures forall a :: a in r <==> a in active && a.tensor != -1 && a.firstNode <= node
  {
    if active == [] then []
    else (if active[0].firstNode > node || active[0].tensor == -1 then [] else [active[0]])
         + DropStartedAfter(active[1..], node)
  }

  /** The records whose usage interval contains `node`. */
  function ActiveAt(allocs: seq<ArenaAlloc>, node: int): (r: seq<ArenaAlloc>)
    ensures forall a :: a in r <==> a in allocs && a.firstNode <= node && a.lastNode >= node
  {
    if allocs == [] then []
    else
      var last := |allocs| - 1;
      assert allocs == allocs[..last] + [allocs[last]];
      ActiveAt(allocs[..last], node)
      + if allocs[last].firstNode <= node && allocs[last].lastNode >= node then [allocs[last]] else []
  }

  /** The purges keep or drop every copy of an entry, and the recalculation takes every copy. */
  lemma {:induction false} PurgesCount(active: seq<ArenaAlloc>, node: int, a: ArenaAlloc)
    ensures multiset(DropEndedBefore(active, node))[a] ==
            if a.tensor != -1 && a.lastNode >= node then multiset(active)[a] else 0
    ensures multiset(DropStartedAfter(active, node))[a] ==
            if a.tensor != -1 && a.firstNode <= node then multiset(active)[a] else 0
  {
    if active != [] {
      PurgesCount(active[1..], node, a);
      assert active == [active[0]] + active[1..];
    }
  }

  lemma {:induction false} RecalculationCounts(allocs: seq<ArenaAlloc>, node: int, a: ArenaAlloc)
    ensures multiset(ActiveAt(allocs, node))[a] ==
            if a.firstNode <= node <= a.lastNode then multiset(allocs)[a] else 0
  {
    if allocs != [] {
      var last := |allocs| - 1;
      RecalculationCounts(allocs[..last], node, a);
      assert allocs == allocs[..last] + [allocs[last]];
      assert multiset(allocs) == multiset(allocs[..last]) + multiset{allocs[last]};
    }
  }

  /* ---- Placement is safe ---- */

  /**
   * What the scan knows after `k` entries: `current` bounds every entry live with the
   * request, and a chosen offset is aligned and its bytes miss all of them and all later ones.
   */
  ghost predicate ScanInvariant(r: Request, active: seq<ArenaAlloc>, k: nat, s: Scan)
    requires k <= |active|
  {
    && (forall i :: 0 <= i < k && active[i].LiveIn(r.firstNode, r.lastNode) ==> active[i].End() <= s.current)
    && 0 < s.fit
    && (s.best != SIZE_MAX ==>
          && r.alignment != 0 && s.best % r.alignment == 0
          && (forall i :: 0 <= i < k && active[i].LiveIn(r.firstNode, r.lastNode) ==>
                active[i].End() <= s.best || s.best + r.size <= active[i].offset)
          && (forall i :: k <= i < |active| ==> s.best + r.size <= active[i].offset))
  }

  lemma VisitKeepsInvariant(r: Request, active: seq<ArenaAlloc>, k: nat, s: Scan)
    requires SortedByOffset(active) && r.size > 0
    requires k < |active| && active[k].LiveIn(r.firstNode, r.lastNode)
    requires ScanInvariant(r, active, k, s)
    requires Visit(r, active[k], s).Some?
    ensures ScanInvariant(r, active, k + 1, Visit(r, active[k], s).value)
  {
  }

  lemma {:induction false} ScanIsSafe(r: Request, active: seq<ArenaAlloc>, k: nat, s: Scan)
    requires SortedByOffset(active) && r.size > 0
    requires k <= |active| && ScanInvariant(r, active, k, s)
    requires ScanGaps(r, active[k..], s).Some?
    ensures ScanInvariant(r, active, |active|, ScanGaps(r, active[k..], s).value)
    decreases |active| - k
  {
    if k < |active| {
      assert active[k..][0] == active[k] && active[k..][1..] == active[k + 1..];
      if !active[k].LiveIn(r.firstNode, r.lastNode) {
        ScanIsSafe(r, active, k + 1, s);
      } else {
        VisitKeepsInvariant(r, active, k, s);
        ScanIsSafe(r, active, k + 1, Visit(r, active[k], s).value);
      }
    }
  }

  /**
   * A successful nonempty allocation is aligned, ends below the high-water mark, and shares
   * no byte with any active allocation whose usage interval meets its own.
   */
  lemma AllocateIsSafe(state: ArenaState, bufferAlignment: SizeT, r: Request, record: ArenaAlloc)
    requires SortedByOffset(state.active)
    ensures var o := Allocate(state, bufferAlignment, r, record);
            o.status.Ok? && r.size > 0 ==>
              && o.alloc.size == r.size && o.alloc.tensor == r.tensor
              && o.alloc.firstNode == r.firstNode && o.alloc.lastNode == r.lastNode
              && o.alloc.offset % r.alignment == 0
              && o.alloc.End() <= o.state.highWater
              && state.highWater <= o.state.highWater
              && (forall a :: a in state.active ==> o.alloc.CompatibleWith(a))
  {
    var o := Allocate(state, bufferAlignment, r, record);
    if o.status.Ok? && r.size > 0 {
      assert state.active[0..] == state.active;
      ScanIsSafe(r, state.active, 0, SCAN_START);
    }
  }

  lemma AllocateEffect(state: ArenaState, bufferAlignment: SizeT, r: Request, record: ArenaAlloc)
    requires Allocate(state, bufferAlignment, r, record).status.Ok? && r.size > 0
    ensures var o := Allocate(state, bufferAlignment, r, record);
            && o.state.active == Insert(state.active, o.alloc)
            && o.state.highWater == Max(state.highWater, o.alloc.End())
            && r.alignment != 0
  {
  }

  /* ---- When an allocation succeeds ---- */

  /** What the scan has seen ends below `bound`, and so does the request in the gap chosen so far. */
  ghost predicate Below(r: Request, s: Scan, bound: nat) {
    s.current <= bound && (s.best != SIZE_MAX ==> s.best + r.size <= bound)
  }

  lemma {:induction false} ScanSucceeds(r: Request, active: seq<ArenaAlloc>, s: Scan, bound: nat)
    requires r.alignment != 0 && bound + r.alignment + r.size <= SIZE_MAX && Below(r, s, bound)
    requires forall a :: a in active ==> a.End() <= bound
    ensures ScanGaps(r, active, s).Some? && Below(r, ScanGaps(r, active, s).value, bound)
  {
    if active != [] {
      assert active[0] in active && forall a :: a in active[1..] ==> a in active;
      if !active[0].LiveIn(r.firstNode, r.lastNode) {
        ScanSucceeds(r, active[1..], s, bound);
      } else {
        AlignToFits(r.alignment, s.current);
        var next := Visit(r, active[0], s);
        if next.value.fit != 0 {
          ScanSucceeds(r, active[1..], next.value, bound);
        }
      }
    }
  }

  lemma AlignToFits(alignment: SizeT, offset: SizeT)
    requires alignment != 0 && offset + alignment <= SIZE_MAX
    ensures CheckedAlignTo(alignment, offset).Some?
  {
  }

  /** With a usable alignment an allocation can only fail because addresses run out; it needs little more room. */
  lemma AllocateSucceeds(state: ArenaState, bufferAlignment: SizeT, r: Request, record: ArenaAlloc, bound: nat)
    requires 0 < r.alignment <= bufferAlignment && bound + r.alignment + r.size <= SIZE_MAX
    requires forall a :: a in state.active ==> a.End() <= bound
    ensures Allocate(state, bufferAlignment, r, record).status.Ok?
    ensures Allocate(state, bufferAlignment, r, record).state.highWater
            <= Max(state.highWater, bound + r.alignment + r.size)
  {
    if r.size > 0 {
      ScanSucceeds(r, state.active, SCAN_START, bound);
      var s := ScanGaps(r, state.active, SCAN_START).value;
      AlignToFits(r.alignment, s.current);
    }
  }

  /* ---- The early exit ---- */

  /** The scan without its early exit. */
  function ScanAllGaps(r: Request, active: seq<ArenaAlloc>, s: Scan): Option<Scan> {
    if active == [] then Some(s)
    else if !active[0].LiveIn(r.firstNode, r.lastNode) then ScanAllGaps(r, active[1..], s)
    else
      var next := Visit(r, active[0], s);
      if next.None? then None else ScanAllGaps(r, active[1..], next.value)
  }

  /**
   * The early exit of the scan is dead code, whatever the list: a gap that fits has at least
   * `size > 0` bytes, so the scan of a nonempty request does the same without it.
   */
  lemma {:induction false} EarlyExitIsUnreachable(r: Request, active: seq<ArenaAlloc>, s: Scan)
    requires r.size > 0 && (s == SCAN_START || 0 < s.fit)
    ensures ScanGaps(r, active, s) == ScanAllGaps(r, active, s)
  {
    if active != [] {
      if !active[0].LiveIn(r.firstNode, r.lastNode) {
        EarlyExitIsUnreachable(r, active[1..], s);
      } else if Visit(r, active[0], s).Some? {
        EarlyExitIsUnreachable(r, active[1..], Visit(r, active[0], s).value);
      }
    }
  }

  /* ---- The list stays sorted ---- */

  lemma InsertHas(active: seq<ArenaAlloc>, a: ArenaAlloc)
    ensures forall b :: b in Insert(active, a) <==> b in active || b == a
  {
    var i := UpperBound(active, a.offset);
    assert active == active[..i] + active[i..];
  }

  lemma InsertKeepsSorted(active: seq<ArenaAlloc>, a: ArenaAlloc)
    requires SortedByOffset(active)
    ensures SortedByOffset(Insert(active, a))
  {
    var n, i := Insert(active, a), UpperBound(active, a.offset);
    forall p, q | 0 <= p < q < |n| ensures n[p].offset <= n[q].offset {
      var p' := if p <= i then p else p - 1;
      var q' := if q <= i then q else q - 1;
      assert n[p] == (if p == i then a else active[p']);
      assert n[q] == (if q == i then a else active[q']);
    }
  }

  lemma {:induction false} DropEndedKeepsSorted(active: seq<ArenaAlloc>, node: int)
    requires SortedByOffset(active)
    ensures SortedByOffset(DropEndedBefore(active, node))
  {
    if active != [] {
      DropEndedKeepsSorted(active[1..], node);
      var rest := DropEndedBefore(active[1..], node);
      assert forall i :: 0 <= i < |rest| ==> rest[i] in rest && rest[i] in active[1..];
    }
  }

  lemma {:induction false} DropStartedKeepsSorted(active: seq<ArenaAlloc>, node: int)
    requires SortedByOffset(active)
    ensures SortedByOffset(DropStartedAfter(active, node))
  {
    if active != [] {
      DropStartedKeepsSorted(active[1..], node);
      var rest := DropStartedAfter(active[1..], node);
      assert forall i :: 0 <= i < |rest| ==> rest[i] in rest && rest[i] in active[1..];
    }
  }
}
