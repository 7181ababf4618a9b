/**
 * That no overwrite may lose a value is needed: otherwise some kernels, in every run, make a node
 * read a wrong value. And runs exist, for all kernels whose results have the sizes of their tensors.
 */
module LostValues {
  import opened Common
  import opened GraphInfo
  import opened Liveness
  import opened InPlace
  import opened InPlaceSafety
  import opened LivenessTheorems
  import opened ArenaLifetimes
  import opened MemoryArena
  import opened ArenaExecution

  /* ---- Runs exist ---- */

  /** What a node leaves in the tensors it writes has their sizes. */
  ghost predicate RightSizes(g: Graph, k: Operators, w: Placement) {
    forall n, inputs, t :: 0 <= n < |g.nodes| && Changes(g, k.updates, n, t) && t in w.at ==>
      |k.compute(n, inputs, t)| == w.at[t].size
  }

  /** Different tensors that a node writes are in different places. */
  ghost predicate WritesApart(g: Graph, k: Operators, w: Placement, n: nat)
    requires n < |g.nodes|
  {
    forall s, t :: Changes(g, k.updates, n, s) && Changes(g, k.updates, n, t) && s in w.at && t in w.at && s != t ==>
      w.at[s].DisjointFrom(w.at[t])
  }

  /** One byte after node `n`. */
  ghost function ByteAfter(
    g: Graph, k: Operators, w: Placement, n: nat, inputs: seq<Bytes>, forever: bool, x: int, old': Byte): Byte
    requires n < |g.nodes|
  {
    if t :| Changes(g, k.updates, n, t) && t in w.at && w.at[t].Contains(forever, x)
            && |k.compute(n, inputs, t)| == w.at[t].size
    then k.compute(n, inputs, t)[x - w.at[t].offset]
    else old'
  }

  ghost function MemoryAfter(
    g: Graph, k: Operators, w: Placement, n: nat, inputs: seq<Bytes>, before: Memory): (after: Memory)
    requires n < |g.nodes|
    ensures |after.arena| == |before.arena| && |after.persistent| == |before.persistent|
    ensures forall forever, x :: 0 <= x < |before.Of(forever)| ==>
              after.Of(forever)[x] == ByteAfter(g, k, w, n, inputs, forever, x, before.Of(forever)[x])
  {
    Memory(
      seq(|before.arena|, x requires 0 <= x < |before.arena| =>
        ByteAfter(g, k, w, n, inputs, false, x, before.arena[x])),
      seq(|before.persistent|, x requires 0 <= x < |before.persistent| =>
        ByteAfter(g, k, w, n, inputs, true, x, before.persistent[x])))
  }

  /** A node whose tensors are apart can run. */
  lemma NodeRuns(g: Graph, k: Operators, temporaries: seq<seq<int>>, w: Placement, n: nat, before: Memory)
    returns (after: Memory)
    requires n < |g.nodes| == |temporaries| && RightSizes(g, k, w) && WritesApart(g, k, w, n)
    requires FitsMemory(w, before) && Covered(g, temporaries, w, n)
    ensures RunsNode(g, k, temporaries, w, before, after, n) && FitsMemory(w, after)
  {
    var inputs := LoadInputs(g, k, temporaries, w, before, n);
    after := MemoryAfter(g, k, w, n, inputs, before);
    hide LoadInputs, Covered, Changes, FitsMemory;
    assert FitsMemory(w, after) by { SameSizesFit(w, before, after); }
    forall t | Changes(g, k.updates, n, t) && t in w.at
      ensures Slice(after, w.at[t]) == k.compute(n, inputs, t)
    {
      WindowAfter(g, k, w, n, inputs, before, after, t);
    }
  }

  lemma SameSizesFit(w: Placement, before: Memory, after: Memory)
    requires FitsMemory(w, before)
    requires |after.arena| == |before.arena| && |after.persistent| == |before.persistent|
    ensures FitsMemory(w, after)
  {
  }

  lemma WindowAfter(
    g: Graph, k: Operators, w: Placement, n: nat, inputs: seq<Bytes>, before: Memory, after: Memory, t: int)
    requires n < |g.nodes| && RightSizes(g, k, w) && WritesApart(g, k, w, n)
    requires FitsMemory(w, before) && FitsMemory(w, after)
    requires after == MemoryAfter(g, k, w, n, inputs, before) && Changes(g, k.updates, n, t) && t in w.at
    ensures Slice(after, w.at[t]) == k.compute(n, inputs, t)
  {
    var window, result := w.at[t], k.compute(n, inputs, t);
    forall i | 0 <= i < window.size
      ensures Slice(after, window)[i] == result[i]
    {
      var x := window.offset + i;
      assert window.Contains(window.forever, x);
      forall u | Changes(g, k.updates, n, u) && u in w.at && w.at[u].Contains(window.forever, x)
        ensures u == t
      {
        assert u != t ==> w.at[u].DisjointFrom(window);
      }
    }
  }

  /** From any memory large enough there is a run, whatever the kernels compute. */
  lemma {:induction false} RunExists(
    g: Graph, k: Operators, temporaries: seq<seq<int>>, w: Placement, start: Memory, n: nat)
    returns (memory: seq<Memory>)
    requires |temporaries| == |g.nodes| && n <= |g.nodes| && AllCovered(g, temporaries, w) && FitsMemory(w, start)
    requires RightSizes(g, k, w) && forall m :: 0 <= m < |g.nodes| ==> WritesApart(g, k, w, m)
    ensures |memory| == n + 1 && memory[0] == start && forall m :: 0 <= m <= n ==> FitsMemory(w, memory[m])
    ensures forall m :: 0 <= m < n ==> RunsNode(g, k, temporaries, w, memory[m], memory[m + 1], m)
    ensures n == |g.nodes| ==> IsRun(g, k, temporaries, w, memory)
  {
    hide RunsNode, FitsMemory, Covered, RightSizes, WritesApart;
    if n == 0 {
      memory := [start];
    } else {
      var earlier := RunExists(g, k, temporaries, w, start, n - 1);
      var last := NodeRuns(g, k, temporaries, w, n - 1, earlier[n - 1]);
      memory := earlier + [last];
    }
  }

  /** Planned outputs of one node are apart. */
  lemma OutputsAreApart(p: Setting, k: Operators, temporaries: seq<seq<int>>, w: Placement, n: nat)
    requires p.Valid() && p.g.WellFormed() && |temporaries| == |p.g.nodes| && SafeWindows(p, temporaries, w)
    requires n < |p.g.nodes| && forall m, t :: !k.updates(m, t)
    ensures WritesApart(p.g, k, w, n)
  {
    forall s, t | p.g.Produces(n, s) && p.g.Produces(n, t) && s in w.at && t in w.at && s != t
      ensures w.at[s].DisjointFrom(w.at[t])
    {
      OutputsHaveTheirOwn(p, temporaries, w, n, s, t);
      assert InUse(p.g, temporaries, s, n) && InUse(p.g, temporaries, t, n);
    }
  }

  lemma OutputsHaveTheirOwn(p: Setting, temporaries: seq<seq<int>>, w: Placement, n: nat, s: int, t: int)
    requires p.Valid() && p.g.WellFormed() && |temporaries| == |p.g.nodes| && SafeWindows(p, temporaries, w)
    requires n < |p.g.nodes| && p.g.Produces(n, s) && p.g.Produces(n, t) && s in w.at && t in w.at && s != t
    ensures w.at[s].owner != w.at[t].owner
  {
    hide p.Valid, p.ShareMap, p.SharedInput, p.PickInput;
    var last := |p.g.nodes|;
    SharingIsStable(p, n + 1, last, s);
    SharingIsStable(p, n + 1, last, t);
    OwnerIsNoSibling(p, n, s, t);
    OwnerIsNoSibling(p, n, t, s);
    if w.at[s].owner == w.at[t].owner {
      assert SameBuffer(p, n + 1, s, t);
      OutputsApart(p, n, s, t);
    }
  }

  /** No output of a node borrows from another output of it. */
  lemma OwnerIsNoSibling(p: Setting, n: nat, s: int, t: int)
    requires p.Valid() && p.g.WellFormed() && n < |p.g.nodes| && p.g.Produces(n, s) && p.g.Produces(n, t)
    ensures s in FinalSharing(p) ==> FinalSharing(p)[s] != t
  {
    if s in FinalSharing(p) && FinalSharing(p)[s] == t {
      var m := SharedAreOutputs(p, |p.g.nodes|, s);
      OwnerIsOlder(p, |p.g.nodes|, s, n, m);
    }
  }

  /* ---- Kernels that give a lost value away ---- */

  /** Every tensor is in the buffer it was planned to be in, and none is elsewhere or empty. */
  ghost predicate AsPlanned(p: Setting, w: Placement)
    requires p.Valid()
  {
    && w.elsewhere == {}
    && forall t :: t in w.at ==> w.at[t].owner == Resolve(FinalSharing(p), t) && w.at[t].size > 0
  }

  function Fill(size: nat, b: Byte): Bytes {
    seq(size, _ => b)
  }

  lemma FillIsAll(size: nat, b: Byte)
    ensures AllAre(Fill(size, b), b)
  {
  }

  predicate AllAre(bytes: Bytes, b: Byte) {
    forall i :: 0 <= i < |bytes| ==> bytes[i] == b
  }

  /** The input whose data node `m` hands on to `t`. */
  ghost function HandedOn(p: Setting, m: int, t: int): (r: Option<int>)
    requires p.Valid()
    ensures r.Some? ==> 0 <= m < |p.g.nodes| && r.value in p.g.nodes[m].inputs
  {
    if 0 <= m < |p.g.nodes| && p.SharedInput(m, p.ShareMap(m)).Some? && !TensorChanged(p.g, m)
       && t == p.g.nodes[m].outputs[0]
    then p.SharedInput(m, p.ShareMap(m)) else None
  }

  ghost function SizeIn(w: Placement, t: int): nat {
    if t in w.at then w.at[t].size else 0
  }

  /** What a node computes: the data it hands on, or zeros, or, from node `n` on, ones. */
  ghost function Result(p: Setting, w: Placement, n: nat, m: int, inputs: seq<Bytes>, t: int): (r: Bytes)
    requires p.Valid()
    ensures |r| == SizeIn(w, t)
  {
    var x := HandedOn(p, m, t);
    if x.Some? && |inputs| == |p.g.nodes[m].inputs|
       && |inputs[FirstAt(p.g.nodes[m].inputs, x.value)]| == SizeIn(w, t)
    then inputs[FirstAt(p.g.nodes[m].inputs, x.value)]
    else Fill(SizeIn(w, t), if m >= n then 1 else 0)
  }

  ghost function Telltale(p: Setting, w: Placement, n: nat): Operators
    requires p.Valid()
  {
    Operators((m, inputs, t) => Result(p, w, n, m, inputs, t), t => Fill(SizeIn(w, t), 0), (m, t) => false)
  }

  /** What a node reads has a place. */
  lemma InputHasPlace(p: Setting, temporaries: seq<seq<int>>, w: Placement, n: nat, t: int)
    requires p.Valid() && |temporaries| == |p.g.nodes| && AllCovered(p.g, temporaries, w) && AsPlanned(p, w)
    requires n < |p.g.nodes| && (p.g.Reads(n, t) || p.g.Produces(n, t))
    ensures t in w.at
  {
    assert Covered(p.g, temporaries, w, n);
  }

  /** What a node computes before node `n` from zeros is zeros. */
  lemma ResultIsZeros(p: Setting, w: Placement, n: nat, m: nat, inputs: seq<Bytes>, t: int)
    requires p.Valid()
    requires var x := HandedOn(p, m, t);
             x.Some? && |inputs| == |p.g.nodes[m].inputs| ==>
               AllAre(inputs[FirstAt(p.g.nodes[m].inputs, x.value)], 0)
    ensures |Result(p, w, n, m, inputs, t)| == SizeIn(w, t)
    ensures m < n ==> AllAre(Result(p, w, n, m, inputs, t), 0)
  {
    hide p.Valid, HandedOn;
  }

  lemma TelltaleStart(p: Setting, w: Placement, n: nat, t: int)
    requires p.Valid()
    ensures var v := Value(p.g, Telltale(p, w, n), 0, t); |v| == SizeIn(w, t) && AllAre(v, 0)
  {
    hide p.Valid, Result;
    FillIsAll(SizeIn(w, t), 0);
  }

  /** How the values come about. */
  lemma TelltaleStep(p: Setting, w: Placement, n: nat, m: nat, t: int)
    requires p.Valid() && 0 < m <= |p.g.nodes|
    ensures var k := Telltale(p, w, n);
            Value(p.g, k, m, t) == if p.g.Produces(m - 1, t) then Result(p, w, n, m - 1, InputValues(p.g, k, m - 1), t)
                                   else Value(p.g, k, m - 1, t)
  {
    hide p.Valid, Result;
  }

  /** Values have the sizes of their tensors, and up to node `n` they are zeros. */
  lemma {:induction false} ValuesAreZeros(p: Setting, temporaries: seq<seq<int>>, w: Placement, n: nat, m: nat, t: int)
    requires p.Valid() && |temporaries| == |p.g.nodes| && AllCovered(p.g, temporaries, w) && AsPlanned(p, w)
    requires m <= |p.g.nodes|
    ensures |Value(p.g, Telltale(p, w, n), m, t)| == SizeIn(w, t)
    ensures m <= n ==> AllAre(Value(p.g, Telltale(p, w, n), m, t), 0)
    decreases m
  {
    var k := Telltale(p, w, n);
    hide *;
    if m == 0 {
      TelltaleStart(p, w, n, t);
    } else {
      TelltaleStep(p, w, n, m, t);
      if p.g.Produces(m - 1, t) {
        var inputs, x := InputValues(p.g, k, m - 1), HandedOn(p, m - 1, t);
        if x.Some? {
          ValuesAreZeros(p, temporaries, w, n, m - 1, x.value);
          assert inputs[FirstAt(p.g.nodes[m - 1].inputs, x.value)] == Value(p.g, k, m - 1, x.value);
        }
        if m <= n {
          ResultIsZeros(p, w, n, m - 1, inputs, t);
        }
      } else {
        ValuesAreZeros(p, temporaries, w, n, m - 1, t);
      }
    }
  }

  /** A node that takes over a buffer has its output where its input is. */
  lemma TakenOverInPlace(p: Setting, temporaries: seq<seq<int>>, w: Placement, m: nat, x: int)
    requires p.Valid() && p.g.WellFormed() && |temporaries| == |p.g.nodes| && SafeWindows(p, temporaries, w)
    requires AllCovered(p.g, temporaries, w) && AsPlanned(p, w)
    requires m < |p.g.nodes| && p.SharedInput(m, p.ShareMap(m)) == Some(x)
    ensures var o := p.g.nodes[m].outputs[0];
            && p.g.Produces(m, o) && p.g.Reads(m, x) && x in w.at && o in w.at && w.at[o] == w.at[x]
            && w.at[x].owner == Resolve(p.ShareMap(m), x)
  {
    var o := p.g.nodes[m].outputs[0];
    InputHasPlace(p, temporaries, w, m, x);
    InputHasPlace(p, temporaries, w, m, o);
    OwnerOfShared(p, m, x);
    SameOwnerSameWindow(p, temporaries, w, o, x);
  }

  lemma OwnerOfShared(p: Setting, m: nat, x: int)
    requires p.Valid() && p.g.WellFormed() && m < |p.g.nodes| && p.SharedInput(m, p.ShareMap(m)) == Some(x)
    ensures var o := p.g.nodes[m].outputs[0];
            Resolve(FinalSharing(p), o) == Resolve(p.ShareMap(m), x) == Resolve(FinalSharing(p), x)
  {
    hide p.Valid, p.PickInput;
    var o := p.g.nodes[m].outputs[0];
    SharingIsStable(p, m + 1, |p.g.nodes|, o);
    SharingIsStable(p, m, |p.g.nodes|, x);
  }

  lemma TelltaleHandsOn(p: Setting, temporaries: seq<seq<int>>, w: Placement, n: nat)
    requires p.Valid() && p.g.WellFormed() && |temporaries| == |p.g.nodes| && SafeWindows(p, temporaries, w)
    requires AllCovered(p.g, temporaries, w) && AsPlanned(p, w)
    ensures HandsOn(p, Telltale(p, w, n))
  {
    var k := Telltale(p, w, n);
    hide p.Valid, p.ShareMap, p.SharedInput, p.PickInput, AllCovered, AsPlanned, SafeWindows, Graph.WellFormed;
    forall m, x | 0 <= m < |p.g.nodes| && p.SharedInput(m, p.ShareMap(m)) == Some(x) && !TensorChanged(p.g, m)
      ensures k.compute(m, InputValues(p.g, k, m), p.g.nodes[m].outputs[0]) == Value(p.g, k, m, x)
    {
      TakenOverInPlace(p, temporaries, w, m, x);
      ValuesAreZeros(p, temporaries, w, n, m, x);
      assert InputValues(p.g, k, m)[FirstAt(p.g.nodes[m].inputs, x)] == Value(p.g, k, m, x);
    }
  }

  /** Node `n` overwrites the buffer that `t` shares, and `t` is read by a later node `b`. */
  ghost predicate Loses(p: Setting, n: nat, t: int, b: nat)
    requires p.Valid()
  {
    && n < b < |p.g.nodes| && p.g.Reads(b, t) && t in p.ShareMap(n) && Available(p.g, t, n)
    && p.SharedInput(n, p.ShareMap(n)).Some? && TensorChanged(p.g, n)
    && SameBuffer(p, n, t, p.SharedInput(n, p.ShareMap(n)).value)
  }

  /** A lost value has a reader that comes too late. */
  lemma LostValueHasReader(p: Setting) returns (n: nat, t: int, b: nat)
    requires p.Valid() && CountersExact(p) && p.g.WellFormed() && !LosesNothing(p)
    ensures Loses(p, n, t, b)
  {
    var m, x, u :| 0 <= m < |p.g.nodes| && Overwrites(p, m, x) && SameBuffer(p, m, u, x) && !DeadAfter(p.g, u, m);
    n, t := m, u;
    AliasIsNotPinned(p, n, x, t);
    InputAndOwnerAreDead(p, n, x);
    b :| n < b < |p.g.nodes| && p.g.Reads(b, t);
    SharerIsAvailable(p, n, t);
  }

  lemma SharerIsAvailable(p: Setting, n: nat, t: int)
    requires p.Valid() && p.g.WellFormed() && n < |p.g.nodes|
    ensures t in p.ShareMap(n) ==> Available(p.g, t, n)
  {
    if t in p.ShareMap(n) {
      var a := SharedAreOutputs(p, n, t);
    }
  }

  /** The window of `t` holds nothing but ones. */
  predicate HoldsOnes(w: Placement, memory: Memory, t: int) {
    t in w.at && FitsMemory(w, memory) && AllAre(Slice(memory, w.at[t]), 1)
  }

  /** After the overwrite everything that is written into the buffer is ones. */
  lemma {:induction false} BufferHoldsOnes(
    p: Setting, temporaries: seq<seq<int>>, numTensors: nat, w: Placement, memory: seq<Memory>, n: nat, t: int, b: nat,
    j: nat)
    requires |memory| == |p.g.nodes| + 1 == |temporaries| + 1 && n < j <= b < |p.g.nodes|
    requires p.Valid() && p.g.WellFormed() && TemporariesOk(p.g, temporaries, numTensors)
    requires SafeWindows(p, temporaries, w) && AllCovered(p.g, temporaries, w) && AsPlanned(p, w)
    requires Loses(p, n, t, b) && t in w.at && IsRun(p.g, Telltale(p, w, n), temporaries, w, memory)
    ensures HoldsOnes(w, memory[j], t)
  {
    hide p.Valid, p.ShareMap, p.SharedInput, p.PickInput, TemporariesOk, SafeWindows, AllCovered, AsPlanned;
    hide Graph.WellFormed, IsRun, Loses, Telltale, HoldsOnes;
    if j == n + 1 {
      OverwriteLeavesOnes(p, temporaries, w, memory, n, t, b);
    } else {
      BufferHoldsOnes(p, temporaries, numTensors, w, memory, n, t, b, j - 1);
      NextLeavesOnes(p, temporaries, numTensors, w, memory, n, t, b, j - 1);
    }
  }

  /** The window of the lost tensor is that of its owner. */
  lemma LostWindow(p: Setting, temporaries: seq<seq<int>>, w: Placement, n: nat, t: int, b: nat)
    requires p.Valid() && p.g.WellFormed() && |temporaries| == |p.g.nodes| && SafeWindows(p, temporaries, w)
    requires AllCovered(p.g, temporaries, w) && AsPlanned(p, w) && Loses(p, n, t, b)
    ensures t in w.at && w.at[t].size > 0 && t in FinalSharing(p)
    ensures w.at[t].owner == FinalSharing(p)[t] == p.ShareMap(n)[t]
  {
    hide p.Valid, p.ShareMap, p.SharedInput, p.PickInput;
    InputHasPlace(p, temporaries, w, b, t);
    SharingIsStable(p, n, |p.g.nodes|, t);
  }

  lemma OverwriteLeavesOnes(
    p: Setting, temporaries: seq<seq<int>>, w: Placement, memory: seq<Memory>, n: nat, t: int, b: nat)
    requires p.Valid() && p.g.WellFormed() && |temporaries| == |p.g.nodes| && SafeWindows(p, temporaries, w)
    requires AllCovered(p.g, temporaries, w) && AsPlanned(p, w) && Loses(p, n, t, b) && t in w.at
    requires IsRun(p.g, Telltale(p, w, n), temporaries, w, memory)
    ensures HoldsOnes(w, memory[n + 1], t)
  {
    var x := p.SharedInput(n, p.ShareMap(n)).value;
    var o := p.g.nodes[n].outputs[0];
    TakenOverInPlace(p, temporaries, w, n, x);
    LostWindow(p, temporaries, w, n, t, b);
    SameOwnerSameWindow(p, temporaries, w, o, t);
    hide p.Valid, p.ShareMap, p.SharedInput, p.PickInput, SafeWindows, AllCovered, AsPlanned, Graph.WellFormed;
    hide LoadInputs;
    assert RunsNode(p.g, Telltale(p, w, n), temporaries, w, memory[n], memory[n + 1], n);
  }

  /** A later node leaves ones, too: it writes ones, or hands on what it found in the buffer. */
  lemma NextLeavesOnes(
    p: Setting, temporaries: seq<seq<int>>, numTensors: nat, w: Placement, memory: seq<Memory>, n: nat, t: int, b: nat,
    j: nat)
    requires p.Valid() && p.g.WellFormed() && TemporariesOk(p.g, temporaries, numTensors)
    requires SafeWindows(p, temporaries, w) && AllCovered(p.g, temporaries, w) && AsPlanned(p, w)
    requires Loses(p, n, t, b) && n < j < b && t in w.at
    requires IsRun(p.g, Telltale(p, w, n), temporaries, w, memory) && HoldsOnes(w, memory[j], t)
    ensures HoldsOnes(w, memory[j + 1], t)
  {
    var k := Telltale(p, w, n);
    assert RunsNode(p.g, k, temporaries, w, memory[j], memory[j + 1], j) && Covered(p.g, temporaries, w, j);
    assert Available(p.g, t, j) && Needed(p.g, t, j + 1);
    hide p.Valid, p.ShareMap, p.SharedInput, p.PickInput, TemporariesOk, SafeWindows, AllCovered, AsPlanned;
    hide Graph.WellFormed, SameBuffer, Loses, LoadInputs, Covered;
    if o :| o in w.at && Changes(p.g, k.updates, j, o) && w.at[o].owner == w.at[t].owner {
      SameOwnerSameWindow(p, temporaries, w, o, t);
      var inputs := LoadInputs(p.g, k, temporaries, w, memory[j], j);
      var x := HandedOn(p, j, o);
      if x.Some? {
        HandedOnInPlace(p, temporaries, w, j, o, x.value);
        InputLoaded(p.g, k, temporaries, w, memory[j], j, x.value);
      }
    } else {
      UntouchedStays(p, k, temporaries, numTensors, w, memory[j], memory[j + 1], j, t);
    }
  }

  lemma HandedOnInPlace(p: Setting, temporaries: seq<seq<int>>, w: Placement, m: nat, o: int, x: int)
    requires p.Valid() && p.g.WellFormed() && |temporaries| == |p.g.nodes| && SafeWindows(p, temporaries, w)
    requires AllCovered(p.g, temporaries, w) && AsPlanned(p, w) && m < |p.g.nodes| && HandedOn(p, m, o) == Some(x)
    ensures x in w.at && o in w.at && w.at[o] == w.at[x]
  {
    TakenOverInPlace(p, temporaries, w, m, x);
  }

  lemma InputLoaded(
    g: Graph, k: Operators, temporaries: seq<seq<int>>, w: Placement, memory: Memory, n: nat, x: int)
    requires n < |g.nodes| == |temporaries| && FitsMemory(w, memory) && Covered(g, temporaries, w, n)
    requires x in g.nodes[n].inputs && x in w.at
    ensures var inputs := LoadInputs(g, k, temporaries, w, memory, n);
            |inputs| == |g.nodes[n].inputs| && inputs[FirstAt(g.nodes[n].inputs, x)] == Slice(memory, w.at[x])
  {
  }

  /** The value of the lost tensor stays zero. */
  lemma {:induction false} LostValueIsZero(
    p: Setting, temporaries: seq<seq<int>>, w: Placement, n: nat, t: int, m: nat)
    requires p.Valid() && |temporaries| == |p.g.nodes| && AllCovered(p.g, temporaries, w) && AsPlanned(p, w)
    requires n <= m <= |p.g.nodes| && Available(p.g, t, n)
    ensures AllAre(Value(p.g, Telltale(p, w, n), m, t), 0)
  {
    if m == n {
      ValuesAreZeros(p, temporaries, w, n, n, t);
    } else {
      LostValueIsZero(p, temporaries, w, n, t, m - 1);
    }
  }

  /**
   * If some overwrite loses a value, there are kernels that hand unmodified data on and update no
   * variable, and a node that in every run with them reads a wrong value, in any safe placement that
   * is as planned. So the hypothesis of the execution theorem cannot be weakened.
   */
  lemma LostValueIsRead(p: Setting, temporaries: seq<seq<int>>, numTensors: nat, w: Placement)
    returns (k: Operators, b: nat)
    requires p.Valid() && CountersExact(p) && p.g.WellFormed() && TemporariesOk(p.g, temporaries, numTensors)
    requires SafeWindows(p, temporaries, w) && AllCovered(p.g, temporaries, w) && AsPlanned(p, w)
    requires !LosesNothing(p)
    ensures HandsOn(p, k) && UpdatesLoseNothing(p, k) && RightSizes(p.g, k, w) && b < |p.g.nodes|
    ensures forall m :: 0 <= m < |p.g.nodes| ==> WritesApart(p.g, k, w, m)
    ensures forall memory :: IsRun(p.g, k, temporaries, w, memory) ==>
              LoadInputs(p.g, k, temporaries, w, memory[b], b) != InputValues(p.g, k, b)
  {
    var n, t;
    n, t, b := LostValueHasReader(p);
    k := Telltale(p, w, n);
    TelltaleHandsOn(p, temporaries, w, n);
    forall m | 0 <= m < |p.g.nodes|
      ensures WritesApart(p.g, k, w, m)
    {
      OutputsAreApart(p, k, temporaries, w, m);
    }
    LostWindow(p, temporaries, w, n, t, b);
    LostValueIsZero(p, temporaries, w, n, t, b);
    hide p.Valid, p.ShareMap, p.SharedInput, p.PickInput, HandsOn, SafeWindows, AllCovered, AsPlanned, TemporariesOk;
    hide Graph.WellFormed, WritesApart, CountersExact, LoadInputs;
    forall memory | IsRun(p.g, k, temporaries, w, memory)
      ensures LoadInputs(p.g, k, temporaries, w, memory[b], b) != InputValues(p.g, k, b)
    {
      BufferHoldsOnes(p, temporaries, numTensors, w, memory, n, t, b, b);
      WrongInput(p, k, temporaries, w, memory, t, b);
    }
  }

  lemma WrongInput(
    p: Setting, k: Operators, temporaries: seq<seq<int>>, w: Placement, memory: seq<Memory>, t: int, b: nat)
    requires p.Valid() && |temporaries| == |p.g.nodes| && b < |p.g.nodes| && p.g.Reads(b, t) && t in w.at
    requires AllCovered(p.g, temporaries, w) && IsRun(p.g, k, temporaries, w, memory) && w.at[t].size > 0
    requires HoldsOnes(w, memory[b], t) && AllAre(Value(p.g, k, b, t), 0)
    ensures LoadInputs(p.g, k, temporaries, w, memory[b], b) != InputValues(p.g, k, b)
  {
    assert Covered(p.g, temporaries, w, b);
    InputLoaded(p.g, k, temporaries, w, memory[b], b, t);
    var i := FirstAt(p.g.nodes[b].inputs, t);
    assert InputValues(p.g, k, b)[i] == Value(p.g, k, b, t);
    assert Slice(memory[b], w.at[t])[0] == 1;
  }
}
