/**
 * Lifetimes of tensors: which node first needs a tensor, and which node is the last to read
 * it or a tensor that shares its buffer. Both planners are proved to compute these.
 */
module Liveness {
  import opened Common
  import opened GraphInfo

  /** Tensors that borrow another tensor's buffer, and the owner of that buffer. */
  type Sharing = map<int, int>

  function Resolve(share: Sharing, t: int): int {
    if t in share then share[t] else t
  }

  /* ---- Counting references ---- */

  /** The references that keep a tensor alive for the whole run. */
  function PinCount(g: Graph, t: int): nat {
    multiset(g.outputs)[t] + multiset(g.variables)[t] + multiset(g.inputs)[t]
  }

  /** A graph input, output or variable. */
  predicate Pinned(g: Graph, t: int) {
    t in g.outputs || t in g.variables || t in g.inputs
  }

  /** How many of the inputs of node `n` from position `j` on resolve to `r`. */
  function ReadsAt(g: Graph, share: Sharing, n: nat, r: int, j: nat): nat
    requires n < |g.nodes| && j <= |g.nodes[n].inputs|
    decreases |g.nodes[n].inputs| - j
  {
    if j == |g.nodes[n].inputs| then 0
    else
      (if g.nodes[n].inputs[j] != OPTIONAL_TENSOR && Resolve(share, g.nodes[n].inputs[j]) == r then 1 else 0)
      + ReadsAt(g, share, n, r, j + 1)
  }

  /** How many node inputs resolve to `r`, from node `n` on. */
  function ReadsFrom(g: Graph, share: Sharing, r: int, n: nat): nat
    requires n <= |g.nodes|
    decreases |g.nodes| - n
  {
    if n == |g.nodes| then 0 else ReadsAt(g, share, n, r, 0) + ReadsFrom(g, share, r, n + 1)
  }

  /** Node `n` reads a tensor that resolves to `r`. */
  ghost predicate ReadsRoot(g: Graph, share: Sharing, n: nat, r: int)
    requires n < |g.nodes|
  {
    exists t :: g.Reads(n, t) && Resolve(share, t) == r
  }

  lemma {:induction false} ReadsAtMeans(g: Graph, share: Sharing, n: nat, r: int, j: nat)
    requires n < |g.nodes| && j <= |g.nodes[n].inputs|
    ensures ReadsAt(g, share, n, r, j) > 0 <==>
            exists t :: t in g.nodes[n].inputs[j..] && t != OPTIONAL_TENSOR && Resolve(share, t) == r
    decreases |g.nodes[n].inputs| - j
  {
    var ins := g.nodes[n].inputs;
    if j < |ins| {
      ReadsAtMeans(g, share, n, r, j + 1);
      assert ins[j..] == [ins[j]] + ins[j + 1..];
    }
  }

  lemma ReadsRootMeans(g: Graph, share: Sharing, n: nat, r: int)
    requires n < |g.nodes|
    ensures ReadsRoot(g, share, n, r) <==> ReadsAt(g, share, n, r, 0) > 0
  {
    ReadsAtMeans(g, share, n, r, 0);
    assert g.nodes[n].inputs[0..] == g.nodes[n].inputs;
  }

  /* ---- First and last use ---- */

  /** The first node from `n` on that computes `t`. */
  function FirstProducer(g: Graph, t: int, n: nat): (r: int)
    requires n <= |g.nodes| < NODE_NOT_ASSIGNED
    ensures r == NODE_NOT_ASSIGNED || (n <= r < |g.nodes| && g.Produces(r, t))
    ensures forall m :: n <= m < |g.nodes| && g.Produces(m, t) ==> r <= m
    decreases |g.nodes| - n
  {
    if n == |g.nodes| then NODE_NOT_ASSIGNED
    else if g.Produces(n, t) then n
    else FirstProducer(g, t, n + 1)
  }

  /** The node before which `t` must have its buffer. */
  function AllocSpec(g: Graph, t: int): (r: int)
    requires |g.nodes| < NODE_NOT_ASSIGNED
    ensures 0 <= r <= NODE_NOT_ASSIGNED
  {
    if t != OPTIONAL_TENSOR && (t in g.variables || t in g.inputs) then 0 else FirstProducer(g, t, 0)
  }

  /** The last node that reads a tensor resolving to `r`, or -1. */
  function LastReader(g: Graph, share: Sharing, r: int): (l: int)
    ensures -1 <= l < |g.nodes|
    ensures l >= 0 ==> ReadsAt(g, share, l, r, 0) > 0
    ensures forall m :: l < m < |g.nodes| ==> ReadsAt(g, share, m, r, 0) == 0
  {
    LastReaderBefore(g, share, r, |g.nodes|)
  }

  function LastReaderBefore(g: Graph, share: Sharing, r: int, n: nat): (l: int)
    requires n <= |g.nodes|
    ensures -1 <= l < n
    ensures l >= 0 ==> ReadsAt(g, share, l, r, 0) > 0
    ensures forall m :: l < m < n ==> ReadsAt(g, share, m, r, 0) == 0
  {
    if n == 0 then -1
    else if ReadsAt(g, share, n - 1, r, 0) > 0 then n - 1
    else LastReaderBefore(g, share, r, n - 1)
  }

  /** The node after which the buffer of `t` is free; never, when pinned, unread or not allocated by then. */
  function DeallocSpec(g: Graph, share: Sharing, preserve: bool, t: int): int
    requires |g.nodes| < NODE_NOT_ASSIGNED
  {
    var l := LastReader(g, share, t);
    if preserve || Pinned(g, t) || l < 0 || l < AllocSpec(g, t) then NODE_NOT_ASSIGNED else l
  }

  /* ---- Counters at a point of the traversal ---- */

  lemma {:induction false} NoMoreReads(g: Graph, share: Sharing, r: int, n: nat)
    requires n <= |g.nodes|
    ensures ReadsFrom(g, share, r, n) == 0 <==> LastReader(g, share, r) < n
    decreases |g.nodes| - n
  {
    if n < |g.nodes| {
      NoMoreReads(g, share, r, n + 1);
    }
  }

  lemma {:induction false} ReadsAtShrinks(g: Graph, share: Sharing, n: nat, r: int, j: nat)
    requires n < |g.nodes| && j <= |g.nodes[n].inputs|
    ensures ReadsAt(g, share, n, r, j) <= ReadsAt(g, share, n, r, 0)
    decreases j
  {
    if j > 0 {
      ReadsAtShrinks(g, share, n, r, j - 1);
    }
  }

  lemma PinCountMeans(g: Graph, t: int)
    ensures PinCount(g, t) > 0 <==> Pinned(g, t)
  {
  }

  /** The counter of references still to come when the inputs of node `n` before position `j` have been handled. */
  function Remaining(g: Graph, share: Sharing, t: int, n: nat, j: nat): nat
    requires n < |g.nodes| && j <= |g.nodes[n].inputs|
  {
    PinCount(g, t) + ReadsAt(g, share, n, t, j) + ReadsFrom(g, share, t, n + 1)
  }

  /** The value of `dealloc_node_` at the same point. */
  function DeallocAt(g: Graph, share: Sharing, preserve: bool, t: int, n: nat, j: nat): int
    requires n < |g.nodes| < NODE_NOT_ASSIGNED && j <= |g.nodes[n].inputs|
  {
    var d := DeallocSpec(g, share, preserve, t);
    if d < n || (d == n && ReadsAt(g, share, n, t, j) == 0) then d else NODE_NOT_ASSIGNED
  }

  /** The value of `dealloc_node_` before node `n`. */
  function DeallocBefore(g: Graph, share: Sharing, preserve: bool, t: int, n: nat): int
    requires n <= |g.nodes| < NODE_NOT_ASSIGNED
  {
    var d := DeallocSpec(g, share, preserve, t);
    if d < n then d else NODE_NOT_ASSIGNED
  }

  /** The value of `alloc_node_` before node `n`. */
  function AllocBefore(g: Graph, t: int, n: nat): int
    requires n <= |g.nodes| < NODE_NOT_ASSIGNED
  {
    if t in g.variables || t in g.inputs || AllocSpec(g, t) < n then AllocSpec(g, t) else NODE_NOT_ASSIGNED
  }

  /**
   * Handling input `j` of node `n`: the counter of its root drops by one, and it reaches zero
   * exactly when this read is the last one and nothing pins the root.
   */
  lemma HandleInput(g: Graph, share: Sharing, n: nat, j: nat, r: int)
    requires n < |g.nodes| < NODE_NOT_ASSIGNED && j < |g.nodes[n].inputs|
    requires g.nodes[n].inputs[j] != OPTIONAL_TENSOR && Resolve(share, g.nodes[n].inputs[j]) == r
    ensures Remaining(g, share, r, n, j + 1) == Remaining(g, share, r, n, j) - 1
    ensures ReadsAt(g, share, n, r, j) > 0
    ensures Remaining(g, share, r, n, j + 1) == 0 <==>
            !Pinned(g, r) && LastReader(g, share, r) == n && ReadsAt(g, share, n, r, j + 1) == 0
  {
    PinCountMeans(g, r);
    NoMoreReads(g, share, r, n + 1);
    ReadsAtShrinks(g, share, n, r, j);
  }

  /* ---- The planners' arrays at a point of the traversal ---- */

  ghost predicate CountsAre(g: Graph, share: Sharing, counts: seq<int>, n: nat, j: nat)
    requires n < |g.nodes| && j <= |g.nodes[n].inputs|
  {
    forall t :: 0 <= t < |counts| ==> counts[t] == Remaining(g, share, t, n, j)
  }

  ghost predicate CountsBefore(g: Graph, share: Sharing, counts: seq<int>, n: nat)
    requires n <= |g.nodes|
  {
    forall t :: 0 <= t < |counts| ==> counts[t] == PinCount(g, t) + ReadsFrom(g, share, t, n)
  }

  ghost predicate DeallocsAre(g: Graph, share: Sharing, deallocNode: seq<int>, n: nat, j: nat)
    requires n < |g.nodes| < NODE_NOT_ASSIGNED && j <= |g.nodes[n].inputs|
  {
    forall t :: 0 <= t < |deallocNode| ==> deallocNode[t] == DeallocAt(g, share, false, t, n, j)
  }

  ghost predicate DeallocsBefore(g: Graph, share: Sharing, preserve: bool, deallocNode: seq<int>, n: nat)
    requires n <= |g.nodes| < NODE_NOT_ASSIGNED
  {
    forall t :: 0 <= t < |deallocNode| ==> deallocNode[t] == DeallocBefore(g, share, preserve, t, n)
  }

  ghost predicate AllocsBefore(g: Graph, allocNode: seq<int>, n: nat)
    requires n <= |g.nodes| < NODE_NOT_ASSIGNED
  {
    forall t :: 0 <= t < |allocNode| ==> allocNode[t] == AllocBefore(g, t, n)
  }

  /** When the outputs of node `n` before position `j` have been queued. */
  ghost predicate AllocsAre(g: Graph, allocNode: seq<int>, n: nat, j: nat)
    requires n < |g.nodes| < NODE_NOT_ASSIGNED && j <= |g.nodes[n].outputs|
  {
    forall t :: 0 <= t < |allocNode| ==>
      allocNode[t] == if AllocBefore(g, t, n) == NODE_NOT_ASSIGNED && t in g.nodes[n].outputs[..j] then n
                      else AllocBefore(g, t, n)
  }

  lemma OutputsStart(g: Graph, allocNode: seq<int>, n: nat)
    requires n < |g.nodes| < NODE_NOT_ASSIGNED
    ensures AllocsAre(g, allocNode, n, 0) <==> AllocsBefore(g, allocNode, n)
  {
  }

  lemma OutputsDone(g: Graph, allocNode: seq<int>, n: nat)
    requires n < |g.nodes| < NODE_NOT_ASSIGNED
    requires AllocsAre(g, allocNode, n, |g.nodes[n].outputs|)
    ensures AllocsBefore(g, allocNode, n + 1)
  {
    var outs := g.nodes[n].outputs;
    assert outs[..|outs|] == outs;
    forall t | 0 <= t < |allocNode|
      ensures allocNode[t] == AllocBefore(g, t, n + 1)
    {
      assert g.Produces(n, t) <==> t in outs;
    }
  }

  /** A tensor that is not allocated yet is not deallocated. */
  lemma NotYetAllocated(g: Graph, share: Sharing, preserve: bool, t: int, n: nat)
    requires n <= |g.nodes| < NODE_NOT_ASSIGNED
    requires AllocBefore(g, t, n) == NODE_NOT_ASSIGNED
    ensures DeallocBefore(g, share, preserve, t, n) == NODE_NOT_ASSIGNED
  {
  }

  lemma InputsStart(g: Graph, share: Sharing, counts: seq<int>, deallocNode: seq<int>, n: nat)
    requires n < |g.nodes| < NODE_NOT_ASSIGNED
    requires CountsBefore(g, share, counts, n) && DeallocsBefore(g, share, false, deallocNode, n)
    ensures CountsAre(g, share, counts, n, 0) && DeallocsAre(g, share, deallocNode, n, 0)
  {
  }

  lemma InputsDone(g: Graph, share: Sharing, counts: seq<int>, deallocNode: seq<int>, n: nat)
    requires n < |g.nodes| < NODE_NOT_ASSIGNED
    requires var m := |g.nodes[n].inputs|; CountsAre(g, share, counts, n, m) && DeallocsAre(g, share, deallocNode, n, m)
    ensures CountsBefore(g, share, counts, n + 1) && DeallocsBefore(g, share, false, deallocNode, n + 1)
  {
  }

  lemma SkipInput(g: Graph, share: Sharing, counts: seq<int>, deallocNode: seq<int>, n: nat, j: nat)
    requires n < |g.nodes| < NODE_NOT_ASSIGNED && j < |g.nodes[n].inputs|
    requires g.nodes[n].inputs[j] == OPTIONAL_TENSOR
    requires CountsAre(g, share, counts, n, j) && DeallocsAre(g, share, deallocNode, n, j)
    ensures CountsAre(g, share, counts, n, j + 1) && DeallocsAre(g, share, deallocNode, n, j + 1)
  {
    forall t: int
      ensures ReadsAt(g, share, n, t, j + 1) == ReadsAt(g, share, n, t, j)
    {
    }
  }

  /** One input is handled: the counter of its root drops, and at zero an allocated root is released. */
  lemma ReleaseInput(
    g: Graph, share: Sharing, counts: seq<int>, allocNode: seq<int>, deallocNode: seq<int>, n: nat, j: nat, r: int)
    requires n < |g.nodes| < NODE_NOT_ASSIGNED && j < |g.nodes[n].inputs|
    requires g.nodes[n].inputs[j] != OPTIONAL_TENSOR && Resolve(share, g.nodes[n].inputs[j]) == r
    requires |counts| == |allocNode| == |deallocNode| && 0 <= r < |counts|
    requires CountsAre(g, share, counts, n, j) && DeallocsAre(g, share, deallocNode, n, j)
    requires AllocsBefore(g, allocNode, n + 1)
    ensures CountsAre(g, share, counts[r := counts[r] - 1], n, j + 1)
    ensures deallocNode[r] == NODE_NOT_ASSIGNED
    ensures DeallocsAre(
              g, share,
              if counts[r] == 1 && allocNode[r] != NODE_NOT_ASSIGNED then deallocNode[r := n]
              else deallocNode, n, j + 1)
  {
    hide LastReader;
    forall t: int | t != r
      ensures ReadsAt(g, share, n, t, j + 1) == ReadsAt(g, share, n, t, j)
    {
    }
    HandleInput(g, share, n, j, r);
    ReadSince(g, share, n, r, j);
    assert allocNode[r] == AllocBefore(g, r, n + 1);
    assert deallocNode[r] == DeallocAt(g, share, false, r, n, j);
  }

  /** A tensor read at `n` is not released before `n`. */
  lemma ReadSince(g: Graph, share: Sharing, n: nat, r: int, j: nat)
    requires n < |g.nodes| < NODE_NOT_ASSIGNED && j <= |g.nodes[n].inputs| && ReadsAt(g, share, n, r, j) > 0
    ensures LastReader(g, share, r) >= n
    ensures DeallocSpec(g, share, false, r) >= n
  {
    ReadsAtShrinks(g, share, n, r, j);
  }

  /** After the last node both arrays are final. */
  lemma TraversalDone(g: Graph, share: Sharing, preserve: bool, t: int)
    requires |g.nodes| < NODE_NOT_ASSIGNED
    ensures AllocBefore(g, t, |g.nodes|) == AllocSpec(g, t) || t == OPTIONAL_TENSOR
    ensures DeallocBefore(g, share, preserve, t, |g.nodes|) == DeallocSpec(g, share, preserve, t)
  {
  }

  /* ---- Counting, as both planners do it ---- */

  ghost predicate NoneOrTensors(g: Graph, list: seq<int>) {
    forall t :: t in list ==> t == OPTIONAL_TENSOR || g.IsTensor(t)
  }

  /** Adds one reference for every present tensor of the list. */
  method CountPins(g: Graph, list: seq<int>, counts: seq<int>) returns (r: seq<int>)
    requires NoneOrTensors(g, list) && g.numTensors <= |counts|
    ensures |r| == |counts|
    ensures forall t :: 0 <= t < |counts| ==> r[t] == counts[t] + multiset(list)[t]
  {
    r := counts;
    var i := 0;
    while i < |list|
      invariant 0 <= i <= |list| && |r| == |counts|
      invariant forall t :: 0 <= t < |counts| ==> r[t] == counts[t] + multiset(list[..i])[t]
    {
      assert list[..i + 1] == list[..i] + [list[i]];
      assert list[i] in list;
      if list[i] != OPTIONAL_TENSOR {
        r := r[list[i] := r[list[i]] + 1];
      }
      i := i + 1;
    }
    assert list[..i] == list;
  }

  /** Adds one reference for every node input, at the owner of the buffer it lives in. */
  method CountInputs(g: Graph, share: Sharing, counts: seq<int>) returns (r: seq<int>)
    requires g.IndicesInRange() && g.numTensors <= |counts|
    requires forall t :: t in share ==> 0 <= share[t] < |counts|
    ensures |r| == |counts|
    ensures forall t :: 0 <= t < |counts| ==> r[t] == counts[t] + ReadsFrom(g, share, t, 0)
  {
    r := counts;
    var i := 0;
    while i < |g.nodes|
      invariant 0 <= i <= |g.nodes| && |r| == |counts|
      invariant forall t :: 0 <= t < |counts| ==>
                  r[t] + ReadsFrom(g, share, t, i) == counts[t] + ReadsFrom(g, share, t, 0)
    {
      NodeTensors(g, i);
      var inputs := g.nodes[i].inputs;
      var j := 0;
      while j < |inputs|
        invariant 0 <= j <= |inputs| && |r| == |counts|
        invariant forall t :: 0 <= t < |counts| ==>
                    r[t] + ReadsAt(g, share, i, t, j) + ReadsFrom(g, share, t, i + 1)
                    == counts[t] + ReadsFrom(g, share, t, 0)
      {
        if inputs[j] != OPTIONAL_TENSOR {
          var root := Resolve(share, inputs[j]);
          r := r[root := r[root] + 1];
        }
        j := j + 1;
      }
      i := i + 1;
    }
  }
}
