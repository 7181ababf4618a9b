/** The arena: an aligned buffer, the list of active allocations, and the methods that update them. */
module MemoryArena {
  import opened Common
  import opened ArenaPlacement
  import opened Sorting

  type Byte = bv8

  class ResizableAlignedBuffer {
    /** Address of the aligned block, or `NULL_PTR`. */
    var ptr: nat
    /** Contents of the block. */
    var data: array<Byte>
    var size: SizeT
    const alignment: SizeT

    ghost predicate Valid()
      reads this
    {
      && data.Length == size
      && (ptr == NULL_PTR <==> size == 0)
      && (size > 0 ==> alignment != 0 && ptr % alignment == 0)
    }

    constructor (alignment: SizeT)
      ensures Valid() && this.alignment == alignment && size == 0 && fresh(data)
    {
      this.alignment := alignment;
      ptr, size := NULL_PTR, 0;
      data := new Byte[0];
    }

    /** What the system allocator may answer: failure, or an aligned block that is not the one in use. */
    predicate PossibleBlock(block: Option<nat>)
      reads this
    {
      block.Some? ==> block.value != NULL_PTR && block.value != ptr && (alignment != 0 ==> block.value % alignment == 0)
    }

    /** The padded size the block is requested with; None when it is no `size_t`. */
    function AllocationSize(newSize: SizeT): Option<SizeT> {
      if alignment == 0 then None
      else
        var padded := CheckedAdd(newSize, alignment - 1);
        if padded.None? then None else CheckedAlignTo(alignment, padded.value)
    }

    /** A buffer of `size` bytes suffices for `newSize`, or can grow when the allocator answers `block`. */
    predicate CanHold(size: SizeT, newSize: SizeT, block: Option<nat>) {
      alignment != 0 && (newSize <= size || (AllocationSize(newSize).Some? && block.Some?))
    }

    /** The buffer is too small for `newSize` and cannot grow, `block` being what the system would offer. */
    predicate Stuck(newSize: SizeT, block: Option<nat>)
      reads this
    {
      !CanHold(size, newSize, if PossibleBlock(block) then block else None)
    }

    /**
     * Grows the buffer to `newSize` bytes; `block` is the system allocator's answer. On failure
     * nothing changes; growth moves the buffer and keeps every old byte.
     */
    method Resize(newSize: SizeT, block: Option<nat>) returns (status: Status, reallocated: bool)
      requires Valid() && PossibleBlock(block)
      modifies this
      ensures Valid()
      ensures status.Ok? <==> CanHold(old(size), newSize, block)
      ensures status.Error? ==> ptr == old(ptr) && data == old(data) && size == old(size) && !reallocated
      ensures status.Ok? ==> size == Max(old(size), newSize)
      ensures reallocated <==> ptr != old(ptr)
      ensures status.Ok? && newSize > old(size) ==> Some(ptr) == block && fresh(data)
      ensures newSize <= old(size) ==> ptr == old(ptr) && data == old(data)
      ensures data.Length >= old(data.Length) && data[..old(data.Length)] == old(data[..])
    {
      reallocated := false;
      if alignment == 0 {
        return Error, false;
      }
      if newSize <= size {
        return Ok, false;
      }
      if AllocationSize(newSize).None? || block.None? {
        return Error, false;
      }
      var newData := new Byte[newSize];
      forall i | 0 <= i < size {
        newData[i] := data[i];
      }
      reallocated := block.value != ptr;
      ptr, data, size := block.value, newData, newSize;
      return Ok, reallocated;
    }

    method Release()
      requires Valid()
      modifies this
      ensures Valid() && size == 0 && ptr == NULL_PTR
      ensures fresh(data) || data == old(data)
    {
      if ptr == NULL_PTR {
        return;
      }
      ptr, size := NULL_PTR, 0;
      data := new Byte[0];
    }
  }

  /** The block asked for is the least multiple of the alignment that has room for any start of the data in it. */
  lemma AllocationSizeIsLeast(buffer: ResizableAlignedBuffer, newSize: SizeT, multiple: nat)
    requires buffer.alignment != 0
    ensures var size := buffer.AllocationSize(newSize);
            && (size.Some? ==> size.value % buffer.alignment == 0 && newSize + buffer.alignment - 1 <= size.value)
            && (multiple % buffer.alignment == 0 && newSize + buffer.alignment - 1 <= multiple ==>
                  if size.Some? then size.value <= multiple else SIZE_MAX < multiple)
  {
    var padded := newSize + buffer.alignment - 1;
    if padded <= SIZE_MAX && multiple % buffer.alignment == 0 && padded <= multiple {
      AlignToIsLeast(buffer.alignment, padded, multiple);
    }
  }

  /* ---- List surgery used by the purges ---- */

  function EraseMarked(active: seq<ArenaAlloc>): seq<ArenaAlloc> {
    if active == [] then []
    else (if active[0].tensor == -1 then [] else [active[0]]) + EraseMarked(active[1..])
  }

  lemma {:induction false} EraseIsDropEnded(before: seq<ArenaAlloc>, marked: seq<ArenaAlloc>, node: int)
    requires |before| == |marked|
    requires forall i :: 0 <= i < |before| ==>
               marked[i] == if before[i].lastNode < node then before[i].(tensor := -1) else before[i]
    ensures EraseMarked(marked) == DropEndedBefore(before, node)
  {
    if before != [] {
      EraseIsDropEnded(before[1..], marked[1..], node);
    }
  }

  lemma {:induction false} EraseIsDropStarted(before: seq<ArenaAlloc>, marked: seq<ArenaAlloc>, node: int)
    requires |before| == |marked|
    requires forall i :: 0 <= i < |before| ==>
               marked[i] == if before[i].firstNode > node then before[i].(tensor := -1) else before[i]
    ensures EraseMarked(marked) == DropStartedAfter(before, node)
  {
    if before != [] {
      EraseIsDropStarted(before[1..], marked[1..], node);
    }
  }

  /** `a` is inserted at position `i`, behind all entries that do not start behind it. */
  ghost predicate InsertedAt(before: seq<ArenaAlloc>, i: nat, a: ArenaAlloc, after: seq<ArenaAlloc>)
    requires i <= |before|
  {
    && after == before[..i] + [a] + before[i..]
    && (forall j :: 0 <= j < i ==> before[j].offset <= a.offset)
    && (i < |before| ==> a.offset < before[i].offset)
  }

  class SimpleMemoryArena {
    var committed: bool
    var highWaterMark: SizeT
    const buffer: ResizableAlignedBuffer
    var activeAllocs: seq<ArenaAlloc>

    ghost predicate Valid()
      reads this, buffer
    {
      buffer.Valid()
    }

    ghost function State(): ArenaState
      reads this
    {
      ArenaState(activeAllocs, highWaterMark)
    }

    constructor (alignment: SizeT)
      ensures Valid() && fresh(buffer) && fresh(buffer.data) && buffer.alignment == alignment
      ensures State() == ArenaState([], 0) && !committed && buffer.size == 0
    {
      committed, highWaterMark, activeAllocs := false, 0, [];
      buffer := new ResizableAlignedBuffer(alignment);
    }

    method PurgeAfter(node: int)
      modifies this`activeAllocs
      ensures State() == old(State()).(active := DropStartedAfter(old(activeAllocs), node))
    {
      ghost var before := activeAllocs;
      var i := 0;
      while i < |activeAllocs|
        invariant 0 <= i <= |activeAllocs| == |before|
        invariant forall j :: 0 <= j < |before| ==>
                    activeAllocs[j] == if j < i && before[j].firstNode > node then before[j].(tensor := -1)
                                       else before[j]
      {
        if activeAllocs[i].firstNode > node {
          activeAllocs := activeAllocs[i := activeAllocs[i].(tensor := -1)];
        }
        i := i + 1;
      }
      EraseIsDropStarted(before, activeAllocs, node);
      activeAllocs := EraseMarked(activeAllocs);
    }

    method PurgeActiveAllocs(node: int)
      modifies this`activeAllocs
      ensures State() == old(State()).(active := DropEndedBefore(old(activeAllocs), node))
    {
      ghost var before := activeAllocs;
      var i := 0;
      while i < |activeAllocs|
        invariant 0 <= i <= |activeAllocs| == |before|
        invariant forall j :: 0 <= j < |before| ==>
                    activeAllocs[j] == if j < i && before[j].lastNode < node then before[j].(tensor := -1)
                                       else before[j]
      {
        if activeAllocs[i].lastNode < node {
          activeAllocs := activeAllocs[i := activeAllocs[i].(tensor := -1)];
        }
        i := i + 1;
      }
      EraseIsDropEnded(before, activeAllocs, node);
      activeAllocs := EraseMarked(activeAllocs);
    }

    method CalculateActiveAllocs(allocs: seq<ArenaAlloc>, node: int)
      modifies this`activeAllocs
      ensures SortedByOffset(activeAllocs)
      ensures multiset(activeAllocs) == multiset(ActiveAt(allocs, node))
      ensures forall a :: a in activeAllocs <==> a in allocs && a.firstNode <= node && a.lastNode >= node
    {
      activeAllocs := [];
      var i := 0;
      while i < |allocs|
        invariant 0 <= i <= |allocs|
        invariant activeAllocs == ActiveAt(allocs[..i], node)
      {
        assert allocs[..i + 1][..i] == allocs[..i];
        if allocs[i].firstNode <= node && allocs[i].lastNode >= node {
          activeAllocs := activeAllocs + [allocs[i]];
        }
        i := i + 1;
      }
      assert allocs[..i] == allocs;
      ghost var found := activeAllocs;
      var earlier := (a: ArenaAlloc, b: ArenaAlloc) => a.offset < b.offset;
      activeAllocs := Sort(activeAllocs, earlier);
      assert forall p, q :: 0 <= p < q < |activeAllocs| ==> !earlier(activeAllocs[q], activeAllocs[p]);
      assert forall a :: a in activeAllocs <==> a in multiset(activeAllocs);
      assert forall a :: a in found <==> a in multiset(found);
    }

    method ResetAllocs()
      modifies this`activeAllocs
      ensures activeAllocs == []
    {
      activeAllocs := [];
    }

    /** The walk over the gaps between the active allocations; None if some address would wrap. */
    method FindOffset(r: Request) returns (offset: Option<SizeT>)
      ensures offset == ChooseOffset(r, activeAllocs)
    {
      var bestOffset: SizeT, bestOffsetFit: SizeT, currentOffset: SizeT := SIZE_MAX, SIZE_MAX, 0;
      var i := 0;
      assert activeAllocs[0..] == activeAllocs;
      while i < |activeAllocs|
        invariant 0 <= i <= |activeAllocs|
        invariant ScanGaps(r, activeAllocs, SCAN_START) ==
                  ScanGaps(r, activeAllocs[i..], Scan(currentOffset, bestOffset, bestOffsetFit))
      {
        var alloc := activeAllocs[i];
        assert activeAllocs[i..][0] == alloc && activeAllocs[i..][1..] == activeAllocs[i + 1..];
        i := i + 1;
        if alloc.lastNode < r.firstNode || alloc.firstNode > r.lastNode {
          continue;
        }
        var alignedStart := CheckedAlignTo(r.alignment, currentOffset);
        if alignedStart.None? {
          return None;
        }
        var alignedEnd := CheckedAdd(alignedStart.value, r.size);
        if alignedEnd.None? {
          return None;
        }
        if alignedEnd.value <= alloc.offset && alloc.offset - alignedStart.value < bestOffsetFit {
          bestOffset := alignedStart.value;
          bestOffsetFit := alloc.offset - currentOffset;
        }
        var allocEnd := CheckedAdd(alloc.offset, alloc.size);
        if allocEnd.None? {
          return None;
        }
        currentOffset := Max(currentOffset, allocEnd.value);
        if bestOffsetFit == 0 {
          break;
        }
      }
      if bestOffset == SIZE_MAX {
        var end := CheckedAlignTo(r.alignment, currentOffset);
        if end.None? {
          return None;
        }
        bestOffset := end.value;
      }
      var required := CheckedAdd(bestOffset, r.size);
      return if required.None? then None else Some(bestOffset);
    }

    /** Aligned best-fit allocation; `record` is the caller's record, updated in the result. */
    method Allocate(r: Request, record: ArenaAlloc) returns (status: Status, newAlloc: ArenaAlloc)
      modifies this`activeAllocs, this`highWaterMark
      ensures Outcome(status, newAlloc, State()) == ArenaPlacement.Allocate(old(State()), buffer.alignment, r, record)
      ensures status.Ok? ==> 0 < r.alignment <= buffer.alignment
      ensures status.Error? || r.size == 0 ==>
                activeAllocs == old(activeAllocs) && highWaterMark == old(highWaterMark)
      ensures status.Ok? ==>
                && newAlloc.size == r.size && newAlloc.tensor == r.tensor
                && newAlloc.firstNode == r.firstNode && newAlloc.lastNode == r.lastNode
      ensures status.Ok? && r.size == 0 ==> newAlloc.offset == 0
      ensures status.Ok? && r.size > 0 ==>
                && highWaterMark == Max(old(highWaterMark), newAlloc.offset + r.size)
                && exists i :: 0 <= i <= |old(activeAllocs)| && InsertedAt(old(activeAllocs), i, newAlloc, activeAllocs)
    {
      newAlloc := record;
      if r.alignment == 0 || r.alignment > buffer.alignment {
        return Error, newAlloc;
      }
      newAlloc := ArenaAlloc(record.offset, r.size, r.tensor, r.firstNode, r.lastNode);
      if r.size == 0 {
        return Ok, newAlloc.(offset := 0);
      }
      var bestOffset := FindOffset(r);
      if bestOffset.None? {
        return Error, newAlloc;
      }
      highWaterMark := Max(highWaterMark, bestOffset.value + r.size);
      newAlloc := newAlloc.(offset := bestOffset.value);
      var at := UpperBound(activeAllocs, newAlloc.offset);
      activeAllocs := activeAllocs[..at] + [newAlloc] + activeAllocs[at..];
      assert InsertedAt(old(activeAllocs), at, newAlloc, activeAllocs);
      return Ok, newAlloc;
    }

    /** Makes the buffer at least as large as the high-water mark, if that is possible. */
    method Commit(block: Option<nat>) returns (status: Status, reallocated: bool)
      requires Valid() && buffer.PossibleBlock(block)
      modifies this`committed, buffer
      ensures Valid()
      ensures status.Ok? <==> buffer.CanHold(old(buffer.size), highWaterMark, block)
      ensures committed <==> status.Ok?
      ensures status.Ok? ==> buffer.size == Max(old(buffer.size), highWaterMark)
      ensures reallocated <==> buffer.ptr != old(buffer.ptr)
      ensures status.Error? ==> buffer.ptr == old(buffer.ptr) && buffer.size == old(buffer.size)
      ensures buffer.data == old(buffer.data) || fresh(buffer.data)
      ensures buffer.data.Length >= old(buffer.data.Length)
      ensures buffer.data[..old(buffer.data.Length)] == old(buffer.data[..])
    {
      committed := false;
      status, reallocated := buffer.Resize(highWaterMark, block);
      committed := status.Ok?;
    }

    /** The address of an allocation: base plus offset, null for empty ones. */
    method ResolveAlloc(alloc: ArenaAlloc) returns (status: Status, ptr: nat)
      ensures status.Ok? <==> committed && alloc.End() <= buffer.size
      ensures status.Ok? ==> ptr == if alloc.size == 0 then NULL_PTR else buffer.ptr + alloc.offset
    {
      ptr := NULL_PTR;
      if !committed {
        return Error, ptr;
      }
      var allocEnd := CheckedAdd(alloc.offset, alloc.size);
      if allocEnd.None? || buffer.size < allocEnd.value {
        return Error, ptr;
      }
      if alloc.size == 0 {
        return Ok, NULL_PTR;
      }
      return Ok, buffer.ptr + alloc.offset;
    }

    method ClearPlan()
      modifies this`committed, this`highWaterMark, this`activeAllocs
      ensures State() == ArenaState([], 0) && !committed
    {
      committed, highWaterMark, activeAllocs := false, 0, [];
    }

    method ReleaseBuffer()
      requires Valid()
      modifies this`committed, buffer
      ensures Valid() && !committed && buffer.size == 0 && buffer.ptr == NULL_PTR
      ensures fresh(buffer.data) || buffer.data == old(buffer.data)
    {
      committed := false;
      buffer.Release();
    }
  }
}
