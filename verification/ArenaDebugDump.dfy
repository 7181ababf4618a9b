/** The usage report of an arena: bytes live at each node and the nodes that use most. */
module ArenaDebugDump {
  import opened Common
  import opened ArenaPlacement
  import opened ArenaRuns
  import Sorting

  /** The tensors of the allocations live at `node`, in list order. */
  function LiveTensors(allocs: seq<ArenaAlloc>, node: int): seq<int> {
    if allocs == [] then []
    else (if LiveAt(allocs[0], node) then [allocs[0].tensor] else []) + LiveTensors(allocs[1..], node)
  }

  /** An entry counts at every node of its usage interval, both ends included. */
  lemma {:induction false} LiveAppend(allocs: seq<ArenaAlloc>, a: ArenaAlloc, node: int)
    ensures LiveBytes([], node) == 0 && LiveTensors([], node) == []
    ensures LiveBytes(allocs + [a], node) ==
            LiveBytes(allocs, node) + if a.firstNode <= node <= a.lastNode then a.size else 0
    ensures LiveTensors(allocs + [a], node) ==
            LiveTensors(allocs, node) + if a.firstNode <= node <= a.lastNode then [a.tensor] else []
  {
    if allocs != [] {
      LiveAppend(allocs[1..], a, node);
      assert (allocs + [a])[1..] == allocs[1..] + [a];
    } else {
      assert (allocs + [a])[1..] == [];
    }
  }

  /** `size_t` addition. */
  function WrapAdd(a: SizeT, b: SizeT): SizeT {
    if a + b > SIZE_MAX then a + b - (SIZE_MAX + 1) else a + b
  }

  lemma WrapAddIsModular(x: nat, b: SizeT)
    ensures WrapAdd(x % (SIZE_MAX + 1), b) == (x + b) % (SIZE_MAX + 1)
  {
    var m, q := SIZE_MAX + 1, x / (SIZE_MAX + 1);
    var r := x % m;
    assert x == m * q + r;
    if r + b > SIZE_MAX {
      DivModUnique(x + b, m, q + 1, r + b - m);
    } else {
      DivModUnique(x + b, m, q, r + b);
    }
  }

  predicate Less(a: int, b: int) { a < b }

  lemma LessIsOrder()
    ensures Sorting.StrictWeakOrder(Less)
  {
  }

  method SortTensors(tensors: seq<int>) returns (r: seq<int>)
    ensures multiset(r) == multiset(tensors) && forall i, j :: 0 <= i < j < |r| ==> r[i] <= r[j]
  {
    LessIsOrder();
    r := Sorting.Sort(tensors, Less);
    assert forall i, j :: 0 <= i < j < |r| ==> !Less(r[j], r[i]);
  }

  /** One row of the report; the running total is a `size_t` and wraps. */
  method LayerUsage(allocs: seq<ArenaAlloc>, node: int) returns (totalBytes: SizeT, liveTensors: seq<int>)
    ensures totalBytes == LiveBytes(allocs, node) % (SIZE_MAX + 1)
    ensures multiset(liveTensors) == multiset(LiveTensors(allocs, node))
    ensures forall i, j :: 0 <= i < j < |liveTensors| ==> liveTensors[i] <= liveTensors[j]
  {
    totalBytes, liveTensors := 0, [];
    var i := 0;
    while i < |allocs|
      invariant 0 <= i <= |allocs|
      invariant totalBytes == LiveBytes(allocs[..i], node) % (SIZE_MAX + 1)
      invariant liveTensors == LiveTensors(allocs[..i], node)
    {
      assert allocs[..i + 1] == allocs[..i] + [allocs[i]];
      LiveAppend(allocs[..i], allocs[i], node);
      if node >= allocs[i].firstNode && node <= allocs[i].lastNode {
        WrapAddIsModular(LiveBytes(allocs[..i], node), allocs[i].size);
        totalBytes := WrapAdd(totalBytes, allocs[i].size);
        liveTensors := liveTensors + [allocs[i].tensor];
      }
      i := i + 1;
    }
    assert allocs[..i] == allocs;
    liveTensors := SortTensors(liveTensors);
  }

  /** The tensors of the entries with this size, in list order. */
  function TensorsOfSize(allocs: seq<ArenaAlloc>, size: SizeT): seq<int> {
    if allocs == [] then []
    else
      var last := |allocs| - 1;
      TensorsOfSize(allocs[..last], size) + if allocs[last].size == size then [allocs[last].tensor] else []
  }

  lemma {:induction false} NoneOfSize(allocs: seq<ArenaAlloc>, size: SizeT)
    requires forall a :: a in allocs ==> a.size < size
    ensures TensorsOfSize(allocs, size) == []
  {
    if allocs != [] {
      assert allocs[|allocs| - 1] in allocs;
      NoneOfSize(allocs[..|allocs| - 1], size);
    }
  }

  /** The largest size and all tensors that have it. */
  method LargestTensors(allocs: seq<ArenaAlloc>) returns (maxSize: SizeT, tensors: seq<int>)
    ensures forall a :: a in allocs ==> a.size <= maxSize
    ensures maxSize == 0 || exists a :: a in allocs && a.size == maxSize
    ensures multiset(tensors) == multiset(TensorsOfSize(allocs, maxSize))
    ensures forall i, j :: 0 <= i < j < |tensors| ==> tensors[i] <= tensors[j]
  {
    maxSize, tensors := 0, [];
    var i := 0;
    while i < |allocs|
      invariant 0 <= i <= |allocs|
      invariant forall a :: a in allocs[..i] ==> a.size <= maxSize
      invariant maxSize == 0 || exists a :: a in allocs[..i] && a.size == maxSize
      invariant tensors == TensorsOfSize(allocs[..i], maxSize)
    {
      assert allocs[..i + 1] == allocs[..i] + [allocs[i]];
      assert allocs[i] in allocs[..i + 1];
      if allocs[i].size > maxSize {
        NoneOfSize(allocs[..i], allocs[i].size);
        tensors, maxSize := [allocs[i].tensor], allocs[i].size;
      } else if allocs[i].size == maxSize {
        tensors := tensors + [allocs[i].tensor];
      }
      i := i + 1;
    }
    assert allocs[..i] == allocs;
    tensors := SortTensors(tensors);
  }

  lemma SmallRemainder(x: nat)
    requires x <= SIZE_MAX
    ensures x % (SIZE_MAX + 1) == x
  {
  }

  /** The report of an arena that fitting operations led to: no total wraps, and none exceeds the arena's size. */
  method PerNodeBytes(
    s: ArenaState, ghost ops: seq<ArenaOp>, ghost bufferAlignment: SizeT, executionPlan: seq<int>, arenaSize: SizeT)
    returns (perNode: seq<SizeT>)
    requires AllFit(EMPTY_ARENA, bufferAlignment, ops) && s == Run(EMPTY_ARENA, bufferAlignment, ops)
    requires s.highWater <= arenaSize
    ensures |perNode| == |executionPlan|
    ensures forall i :: 0 <= i < |perNode| ==> perNode[i] == LiveBytes(s.active, executionPlan[i]) <= arenaSize
  {
    perNode := [];
    var i := 0;
    while i < |executionPlan|
      invariant 0 <= i <= |executionPlan| && |perNode| == i
      invariant forall j :: 0 <= j < i ==> perNode[j] == LiveBytes(s.active, executionPlan[j]) <= arenaSize
    {
      hide LiveBytes, LiveTensors, AllFit, Run;
      var total, _ := LayerUsage(s.active, executionPlan[i]);
      UtilizationBound(bufferAlignment, ops, executionPlan[i]);
      SmallRemainder(LiveBytes(s.active, executionPlan[i]));
      perNode := perNode + [total];
      i := i + 1;
    }
  }

  /* ---- The layers that use most memory ---- */

  datatype PerLayerInfo = PerLayerInfo(nodeId: int, totalBytes: SizeT, liveTensors: seq<int>)

  ghost predicate LeastFirst(s: seq<nat>) {
    forall i, j :: 0 <= i < j < |s| ==> s[i] <= s[j]
  }

  function InsertTotal(s: seq<nat>, t: nat): seq<nat> {
    if s == [] || t < s[0] then [t] + s else [s[0]] + InsertTotal(s[1..], t)
  }

  /** All totals, smallest first. */
  function SortTotals(totals: seq<nat>): seq<nat> {
    if totals == [] then [] else InsertTotal(SortTotals(totals[..|totals| - 1]), totals[|totals| - 1])
  }

  /** The last `k` entries. */
  function Tail(s: seq<nat>, k: nat): (r: seq<nat>)
    ensures |r| == if |s| <= k then |s| else k
  {
    if |s| <= k then s else Tail(s[1..], k)
  }

  /** The `k` largest totals, smallest first. */
  function Largest(totals: seq<nat>, k: nat): seq<nat> {
    Tail(SortTotals(totals), k)
  }

  lemma {:induction false} InsertTotalHas(s: seq<nat>, t: nat)
    ensures |InsertTotal(s, t)| == |s| + 1
    ensures multiset(InsertTotal(s, t)) == multiset(s) + multiset{t}
  {
    if s != [] && s[0] <= t {
      InsertTotalHas(s[1..], t);
      assert s == [s[0]] + s[1..];
    }
  }

  lemma {:induction false} InsertTotalShape(s: seq<nat>, t: nat)
    requires LeastFirst(s)
    ensures |InsertTotal(s, t)| == |s| + 1 && LeastFirst(InsertTotal(s, t))
  {
    if s != [] && s[0] <= t {
      InsertTotalShape(s[1..], t);
      var rest := InsertTotal(s[1..], t);
      forall i | 0 <= i < |rest| ensures s[0] <= rest[i] {
        InsertTotalHas(s[1..], t);
        assert rest[i] in multiset(rest);
        assert rest[i] == t || rest[i] in multiset(s[1..]);
      }
    }
  }

  lemma {:induction false} SortTotalsShape(totals: seq<nat>)
    ensures |SortTotals(totals)| == |totals| && LeastFirst(SortTotals(totals))
    ensures multiset(SortTotals(totals)) == multiset(totals)
  {
    if totals != [] {
      var last := |totals| - 1;
      var rest := SortTotals(totals[..last]);
      SortTotalsShape(totals[..last]);
      hide LeastFirst, InsertTotal;
      InsertTotalShape(rest, totals[last]);
      InsertTotalHas(rest, totals[last]);
      assert totals == totals[..last] + [totals[last]];
      assert multiset(totals) == multiset(totals[..last]) + multiset{totals[last]};
    }
  }

  /** What is left of a list with a new total when its first entry is dropped. */
  lemma DropHead(s: seq<nat>, t: nat)
    requires s != []
    ensures InsertTotal(s, t)[1..] == if t < s[0] then s else InsertTotal(s[1..], t)
  {
    if t < s[0] {
      assert InsertTotal(s, t) == [t] + s;
    } else {
      assert InsertTotal(s, t) == [s[0]] + InsertTotal(s[1..], t);
    }
  }

  lemma {:induction false} HeadIsLeast(s: seq<nat>, k: nat)
    requires LeastFirst(s) && 0 < k <= |s|
    ensures s[0] <= Tail(s, k)[0]
  {
    if |s| > k {
      HeadIsLeast(s[1..], k);
    }
  }

  lemma {:induction false} TailIsLargest(s: seq<nat>, k: nat)
    requires LeastFirst(s)
    ensures multiset(Tail(s, k)) <= multiset(s)
    ensures forall x, y :: x in multiset(s) - multiset(Tail(s, k)) && y in Tail(s, k) ==> x <= y
  {
    if |s| > k {
      TailIsLargest(s[1..], k);
      assert s == [s[0]] + s[1..];
      assert multiset(s) == multiset{s[0]} + multiset(s[1..]);
      forall x, y | x in multiset(s) - multiset(Tail(s, k)) && y in Tail(s, k)
        ensures x <= y
      {
        assert y in multiset(s[1..]) && y in s[1..];
        assert x == s[0] || x in multiset(s[1..]) - multiset(Tail(s[1..], k));
      }
    } else {
      assert multiset(s) - multiset(Tail(s, k)) == multiset{};
    }
  }

  /** The kept totals are as many as possible, are among those added, and no other one is larger than one of them. */
  lemma LargestAreLargest(totals: seq<nat>, k: nat)
    ensures |Largest(totals, k)| == if |totals| <= k then |totals| else k
    ensures multiset(Largest(totals, k)) <= multiset(totals)
    ensures forall x, y :: x in multiset(totals) - multiset(Largest(totals, k)) && y in Largest(totals, k) ==> x <= y
  {
    SortTotalsShape(totals);
    TailIsLargest(SortTotals(totals), k);
  }

  /** Inserting into the whole list moves a tail of it just as inserting into the tail and dropping its least. */
  lemma {:induction false} InsertIntoTail(s: seq<nat>, k: nat, t: nat)
    requires LeastFirst(s) && 0 < k <= |s|
    ensures var tail := Tail(s, k);
            Tail(InsertTotal(s, t), k) == if t < tail[0] then tail else InsertTotal(tail[1..], t)
  {
    InsertTotalHas(s, t);
    DropHead(s, t);
    HeadIsLeast(s, k);
    hide InsertTotal;
    assert Tail(InsertTotal(s, t), k) == Tail(InsertTotal(s, t)[1..], k);
    if |s| > k && t >= s[0] {
      InsertIntoTail(s[1..], k, t);
    } else if |s| == k {
      InsertTotalHas(s[1..], t);
    }
  }

  /** The `k` largest totals are kept up to date by one comparison with the least of them. */
  lemma LargestStep(totals: seq<nat>, k: nat, t: nat)
    requires k > 0
    ensures |Largest(totals, k)| == if |totals| <= k then |totals| else k
    ensures var kept := Largest(totals, k);
            Largest(totals + [t], k) ==
            if |totals| < k then InsertTotal(kept, t) else if t < kept[0] then kept else InsertTotal(kept[1..], t)
  {
    var s := SortTotals(totals);
    SortTotalsShape(totals);
    assert (totals + [t])[..|totals|] == totals;
    TailStep(s, k, t);
  }

  lemma TailStep(s: seq<nat>, k: nat, t: nat)
    requires k > 0 && LeastFirst(s)
    ensures var kept := Tail(s, k);
            Tail(InsertTotal(s, t), k) ==
            if |s| < k then InsertTotal(kept, t) else if t < kept[0] then kept else InsertTotal(kept[1..], t)
  {
    if |s| < k {
      InsertTotalHas(s, t);
    } else {
      InsertIntoTail(s, k, t);
    }
  }

  function Totals(layers: seq<PerLayerInfo>): (r: seq<nat>)
    ensures |r| == |layers|
    ensures forall i :: 0 <= i < |r| ==> r[i] == layers[i].totalBytes
  {
    seq(|layers|, i requires 0 <= i < |layers| => layers[i].totalBytes)
  }

  function InsertLayer(layers: seq<PerLayerInfo>, l: PerLayerInfo): (r: seq<PerLayerInfo>)
    ensures Totals(r) == InsertTotal(Totals(layers), l.totalBytes)
  {
    if layers == [] || l.totalBytes < layers[0].totalBytes then
      assert Totals([l] + layers) == [l.totalBytes] + Totals(layers);
      [l] + layers
    else
      var rest := InsertLayer(layers[1..], l);
      assert Totals(layers)[1..] == Totals(layers[1..]);
      assert Totals([layers[0]] + rest) == [layers[0].totalBytes] + Totals(rest);
      [layers[0]] + rest
  }

  /** Keeps the `topK` layers with the largest totals; the priority queue is a list, least first. */
  class TopKLayers {
    const topK: nat
    var usage: seq<PerLayerInfo>
    /** The totals of all layers added so far. */
    ghost var added: seq<nat>

    ghost predicate Valid()
      reads this
    {
      topK > 0 && Totals(usage) == Largest(added, topK)
    }

    lemma LeastIsFirst()
      requires Valid()
      ensures forall i :: 0 <= i < |usage| ==> usage[0].totalBytes <= usage[i].totalBytes
    {
      SortTotalsShape(added);
      TailAscends(SortTotals(added), topK);
      forall i | 0 <= i < |usage|
        ensures usage[0].totalBytes <= usage[i].totalBytes
      {
        assert i > 0 ==> Totals(usage)[0] <= Totals(usage)[i];
      }
    }

    constructor (topK: nat)
      requires topK > 0
      ensures Valid() && added == [] && this.topK == topK
    {
      this.topK := topK;
      usage, added := [], [];
    }

    method Add(nodeId: int, totalBytes: SizeT, liveTensors: seq<int>)
      requires Valid()
      modifies this
      ensures Valid() && added == old(added) + [totalBytes]
      ensures var layer := PerLayerInfo(nodeId, totalBytes, liveTensors);
              if |old(usage)| < topK then multiset(usage) == multiset(old(usage)) + multiset{layer}
              else if totalBytes < old(usage)[0].totalBytes then usage == old(usage)
              else multiset(usage) == multiset(old(usage)[1..]) + multiset{layer}
      ensures forall i :: 0 <= i < |old(usage)| ==> old(usage)[0].totalBytes <= old(usage)[i].totalBytes
    {
      LeastIsFirst();
      LargestStep(added, topK, totalBytes);
      added := added + [totalBytes];
      var layer := PerLayerInfo(nodeId, totalBytes, liveTensors);
      if |usage| < topK {
        InsertLayerHas(usage, layer);
        usage := InsertLayer(usage, layer);
        return;
      }
      if totalBytes < usage[0].totalBytes {
        return;
      }
      assert Totals(usage)[1..] == Totals(usage[1..]);
      InsertLayerHas(usage[1..], layer);
      usage := InsertLayer(usage[1..], layer);
    }
  }

  lemma {:induction false} InsertLayerHas(layers: seq<PerLayerInfo>, l: PerLayerInfo)
    ensures multiset(InsertLayer(layers, l)) == multiset(layers) + multiset{l}
  {
    if layers != [] {
      InsertLayerHas(layers[1..], l);
      assert layers == [layers[0]] + layers[1..];
    }
  }

  lemma {:induction false} TailAscends(s: seq<nat>, k: nat)
    requires LeastFirst(s)
    ensures LeastFirst(Tail(s, k))
  {
    if |s| > k {
      TailAscends(s[1..], k);
    }
  }

  /* ---- The whole report ---- */

  /** The number of layers that the report singles out. */
  const TOP_LAYERS: nat := 5

  /** What the report says about one node. */
  ghost predicate RowIs(allocs: seq<ArenaAlloc>, node: int, row: PerLayerInfo) {
    && row.nodeId == node && row.totalBytes == LiveBytes(allocs, node) % (SIZE_MAX + 1)
    && multiset(row.liveTensors) == multiset(LiveTensors(allocs, node))
    && forall i, j :: 0 <= i < j < |row.liveTensors| ==> row.liveTensors[i] <= row.liveTensors[j]
  }

  lemma NothingIsLargest()
    ensures Totals([]) == Largest(Totals([]), 5)
  {
    assert Totals([]) == [] && SortTotals([]) == [];
  }

  /** A layer that is kept is one of the rows. */
  lemma KeptAreRows(
    before: seq<PerLayerInfo>, after: seq<PerLayerInfo>, rows: seq<PerLayerInfo>, layer: PerLayerInfo, topK: nat)
    requires topK > 0 && multiset(before) <= multiset(rows)
    requires if |before| < topK then multiset(after) == multiset(before) + multiset{layer}
             else after == before || multiset(after) == multiset(before[1..]) + multiset{layer}
    ensures multiset(after) <= multiset(rows + [layer])
    ensures Totals(rows + [layer]) == Totals(rows) + [layer.totalBytes]
  {
    assert before != [] ==> before == [before[0]] + before[1..];
  }

  /** One row for each node of the plan. */
  ghost predicate RowsAre(allocs: seq<ArenaAlloc>, executionPlan: seq<int>, rows: seq<PerLayerInfo>) {
    |rows| == |executionPlan| && forall i :: 0 <= i < |rows| ==> RowIs(allocs, executionPlan[i], rows[i])
  }

  lemma OneMoreRow(
    allocs: seq<ArenaAlloc>, executionPlan: seq<int>, i: nat, rows: seq<PerLayerInfo>, row: PerLayerInfo)
    requires i < |executionPlan| && RowsAre(allocs, executionPlan[..i], rows) && RowIs(allocs, executionPlan[i], row)
    ensures RowsAre(allocs, executionPlan[..i + 1], rows + [row])
  {
    hide RowIs;
  }

  /**
   * The rows of the report, one for each node of the plan, and the layers that use most. An
   * arena without entries and an empty plan are not reported on.
   */
  method DumpArenaInfo(executionPlan: seq<int>, allocs: seq<ArenaAlloc>)
    returns (rows: seq<PerLayerInfo>, top: seq<PerLayerInfo>)
    ensures if allocs == [] || executionPlan == [] then rows == [] else RowsAre(allocs, executionPlan, rows)
    ensures multiset(top) <= multiset(rows) && Totals(top) == Largest(Totals(rows), 5)
  {
    rows, top := [], [];
    NothingIsLargest();
    if allocs == [] || executionPlan == [] {
      return;
    }
    hide Largest, LiveBytes, LiveTensors, RowsAre;
    assert RowsAre(allocs, executionPlan[..0], rows) by { NoRows(allocs, executionPlan); }
    var topUsage := new TopKLayers(TOP_LAYERS);
    var i := 0;
    while i < |executionPlan|
      invariant 0 <= i <= |executionPlan| && fresh(topUsage)
      invariant RowsAre(allocs, executionPlan[..i], rows)
      invariant topUsage.Valid() && topUsage.added == Totals(rows) && multiset(topUsage.usage) <= multiset(rows)
      invariant topUsage.topK == 5
    {
      var totalBytes, liveTensors := LayerUsage(allocs, executionPlan[i]);
      ghost var before, layer := topUsage.usage, PerLayerInfo(executionPlan[i], totalBytes, liveTensors);
      OneMoreRow(allocs, executionPlan, i, rows, layer);
      topUsage.Add(executionPlan[i], totalBytes, liveTensors);
      KeptAreRows(before, topUsage.usage, rows, layer, 5);
      rows := rows + [PerLayerInfo(executionPlan[i], totalBytes, liveTensors)];
      i := i + 1;
    }
    assert executionPlan[..i] == executionPlan;
    top := topUsage.usage;
  }

  lemma NoRows(allocs: seq<ArenaAlloc>, executionPlan: seq<int>)
    ensures RowsAre(allocs, executionPlan[..0], [])
  {
  }
}
