/**
 * Running the graph in the arena: with the planned placement every node reads the values it
 * would read if each tensor had memory of its own.
 */
module ArenaExecution {
  import opened Common
  import opened GraphInfo
  import opened Liveness
  import opened InPlace
  import opened InPlaceSafety
  import opened LivenessTheorems
  import opened ArenaLifetimes
  import opened MemoryArena

  type Bytes = seq<Byte>

  /**
   * What node `n` computes for a tensor `t` it writes, what is there before the first node, and
   * which of its variable inputs a node updates; all uninterpreted.
   */
  datatype Operators = Operators(
    compute: (int, seq<Bytes>, int) -> Bytes, initial: int -> Bytes, updates: (nat, int) -> bool)

  /* ---- Every tensor in memory of its own ---- */

  /** The value of `t` after the first `n` nodes. */
  function Value(g: Graph, k: Operators, n: nat, t: int): Bytes
    requires n <= |g.nodes|
    decreases n, 0
  {
    if n == 0 then k.initial(t)
    else if Changes(g, k.updates, n - 1, t) then k.compute(n - 1, InputValues(g, k, n - 1), t)
    else Value(g, k, n - 1, t)
  }

  function InputValues(g: Graph, k: Operators, n: nat): seq<Bytes>
    requires n < |g.nodes|
    decreases n, 1
  {
    seq(|g.nodes[n].inputs|, i requires 0 <= i < |g.nodes[n].inputs| => Value(g, k, n, g.nodes[n].inputs[i]))
  }

  /** No node from `n` on computes `t`. */
  ghost predicate Available(g: Graph, t: int, n: nat) {
    forall m :: n <= m < |g.nodes| ==> !g.Produces(m, t)
  }

  /** `t` is read by a node from `n` on, or kept for the caller. */
  ghost predicate Needed(g: Graph, t: int, n: nat) {
    Pinned(g, t) || exists b :: n <= b < |g.nodes| && g.Reads(b, t)
  }

  /** An operator that does not change the data hands its shared input on. */
  ghost predicate HandsOn(p: Setting, k: Operators)
    requires p.Valid()
  {
    forall n, x :: 0 <= n < |p.g.nodes| && p.SharedInput(n, p.ShareMap(n)) == Some(x) && !TensorChanged(p.g, n) ==>
      k.compute(n, InputValues(p.g, k, n), p.g.nodes[n].outputs[0]) == Value(p.g, k, n, x)
  }

  /** No node that overwrites a shared buffer loses a value that is still needed. */
  ghost predicate LosesNothing(p: Setting)
    requires p.Valid()
  {
    forall n, x, t :: 0 <= n < |p.g.nodes| && Overwrites(p, n, x) && SameBuffer(p, n, t, x) ==> DeadAfter(p.g, t, n)
  }

  /** No node that updates a variable tensor loses the value of a tensor that borrows its buffer. */
  ghost predicate UpdatesLoseNothing(p: Setting, k: Operators)
    requires p.Valid()
  {
    forall n, v, t :: 0 <= n < |p.g.nodes| && Updates(p.g, k.updates, n, v) && SameBuffer(p, n + 1, t, v) && t != v ==>
      DeadAfter(p.g, t, n)
  }

  /** Exactly when updates lose nothing: the counters of all tensors that borrow from the variable are spent. */
  lemma UpdatesLoseNothingIff(p: Setting, k: Operators)
    requires p.Valid() && CountersExact(p) && p.g.WellFormed()
    ensures UpdatesLoseNothing(p, k) <==>
            forall n, v, t ::
              && 0 <= n < |p.g.nodes| && Updates(p.g, k.updates, n, v)
              && t in p.ShareMap(n + 1) && SameBuffer(p, n + 1, t, v) ==>
                SpentBy(p, t, n)
  {
    hide p.Valid, p.SharedInput, p.PickInput, p.ShareMap, CountersExact;
    forall n, v, t {:trigger DeadAfter(p.g, t, n), Updates(p.g, k.updates, n, v)}
                   {:trigger SpentBy(p, t, n), Updates(p.g, k.updates, n, v)} |
      0 <= n < |p.g.nodes| && Updates(p.g, k.updates, n, v) && SameBuffer(p, n + 1, t, v)
      ensures t == v <==> t !in p.ShareMap(n + 1)
      ensures t != v ==> (DeadAfter(p.g, t, n) <==> SpentBy(p, t, n))
    {
      VariablesBorrowNothing(p, n + 1, v);
      if t in p.ShareMap(n + 1) {
        SharerIsSpent(p, n, t);
      }
    }
  }

  /** A tensor that shares is dead after node `n` exactly when its counter is spent. */
  lemma SharerIsSpent(p: Setting, n: nat, t: int)
    requires p.Valid() && CountersExact(p) && p.g.WellFormed() && n < |p.g.nodes| && t in p.ShareMap(n + 1)
    ensures DeadAfter(p.g, t, n) <==> SpentBy(p, t, n)
  {
    hide p.ShareMap, p.SharedInput, p.PickInput;
    var m := SharedAreOutputs(p, n + 1, t);
    assert p.g.Computed(t);
    PinCountMeans(p.g, t);
    NoReadsCounted(p.g, t, n + 1);
  }

  /** Who borrows from a tensor outside the arena is of its kind. */
  lemma {:induction false} BorrowersAreAlike(p: Setting, n: nat, t: int)
    requires p.Valid() && n <= |p.g.nodes| && t in p.ShareMap(n)
    requires !p.tensors[p.ShareMap(n)[t]].allocationType.ArenaRw?
    ensures p.tensors[t].allocationType == p.tensors[p.ShareMap(n)[t]].allocationType
  {
    hide p.PickInput, p.SharedInput;
    var before := p.ShareMap(n - 1);
    var input := p.SharedInput(n - 1, before);
    if input.None? || t != p.g.nodes[n - 1].outputs[0] {
      BorrowersAreAlike(p, n - 1, t);
    } else if input.value in before {
      BorrowersAreAlike(p, n - 1, input.value);
    }
  }

  /**
   * With variables outside the arena, where the interpreter puts them, and the outputs of
   * in-place operators in it, updates lose nothing, whichever variables are updated.
   */
  lemma PersistentVariablesLoseNothing(p: Setting, k: Operators)
    requires p.Valid() && p.g.WellFormed()
    requires forall v :: v in p.g.variables ==> 0 <= v < |p.tensors| && !p.tensors[v].allocationType.ArenaRw?
    requires forall n :: 0 <= n < |p.g.nodes| && Eligible(p.g, n) ==>
               p.tensors[p.g.nodes[n].outputs[0]].allocationType.ArenaRw?
    ensures UpdatesLoseNothing(p, k)
  {
    hide p.Valid, p.ShareMap, p.SharedInput, p.PickInput;
    forall n, v, t {:trigger DeadAfter(p.g, t, n), Updates(p.g, k.updates, n, v)} |
      0 <= n < |p.g.nodes| && Updates(p.g, k.updates, n, v) && SameBuffer(p, n + 1, t, v)
      ensures t == v
    {
      VariablesBorrowNothing(p, n + 1, v);
      if t in p.ShareMap(n + 1) {
        var m := SharedAreOutputs(p, n + 1, t);
        BorrowersAreAlike(p, n + 1, t);
      }
    }
  }

  lemma VariablesBorrowNothing(p: Setting, n: nat, v: int)
    requires p.Valid() && p.g.SourcesNotComputed() && n <= |p.g.nodes| && v in p.g.variables
    ensures v !in p.ShareMap(n) && Available(p.g, v, 0)
  {
    if v in p.ShareMap(n) {
      var m := SharedAreOutputs(p, n, v);
    }
    forall m | 0 <= m < |p.g.nodes|
      ensures !p.g.Produces(m, v)
    {
      assert !p.g.Computed(v);
    }
  }

  /** Exactly when no value is lost: at each overwrite the counters of all sharing tensors are spent. */
  lemma LosesNothingIff(p: Setting)
    requires p.Valid() && CountersExact(p) && p.g.WellFormed()
    ensures LosesNothing(p) <==>
            forall n, x, t ::
              && 0 <= n < |p.g.nodes| && Overwrites(p, n, x)
              && t in p.ShareMap(n) && t != x && SameBuffer(p, n, t, x) ==>
                SpentBy(p, t, n)
  {
    hide p.Valid, p.ShareMap, Overwrites, DeadAfter, SameBuffer, SpentBy;
    forall n, x | 0 <= n < |p.g.nodes| && Overwrites(p, n, x)
      ensures (forall t :: SameBuffer(p, n, t, x) ==> DeadAfter(p.g, t, n))
              <==> forall t :: t in p.ShareMap(n) && t != x && SameBuffer(p, n, t, x) ==> SpentBy(p, t, n)
    {
      OverwritingLosesNothingIff(p, n, x);
    }
  }

  /** Tensors that share a buffer and are both still needed have the same value. */
  ghost predicate AliasesAgree(p: Setting, k: Operators, n: nat)
    requires p.Valid() && n <= |p.g.nodes|
  {
    forall s, t ::
      && Available(p.g, s, n) && Needed(p.g, s, n) && Available(p.g, t, n) && Needed(p.g, t, n)
      && SameBuffer(p, n, s, t) ==>
        Value(p.g, k, n, s) == Value(p.g, k, n, t)
  }

  /** What else is in the buffer of an output of node `n`: tensors in the buffer of the input it took over. */
  lemma WhatIsOverwritten(p: Setting, n: nat, o: int, t: int) returns (x: int)
    requires p.Valid() && p.g.DependencyOrdered() && p.g.UniqueProducers() && n < |p.g.nodes|
    requires p.g.Produces(n, o) && Available(p.g, t, n) && SameBuffer(p, n + 1, o, t)
    ensures p.SharedInput(n, p.ShareMap(n)) == Some(x) && p.g.nodes[n].outputs[0] == o
    ensures p.g.Reads(n, x) && SameBuffer(p, n, t, x)
  {
    hide p.Valid, p.PickInput, p.SharedInput;
    var before := p.ShareMap(n);
    var input := p.SharedInput(n, before);
    if o in before {
      var m := SharedAreOutputs(p, n, o);
    }
    if t in before {
      OwnersShareNothing(p, n, t);
    }
    x := if input.Some? then input.value else t;
    assert input.Some? ==> p.g.Produces(n, p.g.nodes[n].outputs[0]);
  }

  /** The new value in a shared buffer is the old one wherever the old one is still needed. */
  lemma OutputAgrees(p: Setting, k: Operators, n: nat, o: int, t: int)
    requires p.Valid() && p.g.DependencyOrdered() && p.g.UniqueProducers() && n < |p.g.nodes|
    requires HandsOn(p, k) && LosesNothing(p) && AliasesAgree(p, k, n)
    requires p.g.Produces(n, o) && Available(p.g, t, n) && Needed(p.g, t, n + 1) && SameBuffer(p, n + 1, o, t)
    ensures Value(p.g, k, n + 1, o) == Value(p.g, k, n, t)
  {
    var x := WhatIsOverwritten(p, n, o, t);
    hide p.Valid, p.ShareMap, p.SharedInput;
    assert Overwrites(p, n, x) <==> TensorChanged(p.g, n);
    if !TensorChanged(p.g, n) {
      assert Available(p.g, x, n) && Needed(p.g, x, n) && Needed(p.g, t, n);
    }
  }

  lemma {:induction false} AllAliasesAgree(p: Setting, k: Operators, n: nat)
    requires p.Valid() && p.g.DependencyOrdered() && p.g.UniqueProducers() && n <= |p.g.nodes|
    requires HandsOn(p, k) && LosesNothing(p) && UpdatesLoseNothing(p, k) && p.g.SourcesNotComputed()
    ensures AliasesAgree(p, k, n)
  {
    if n == 0 {
      NothingShared(p, k);
    } else {
      AllAliasesAgree(p, k, n - 1);
      forall s, t |
        && Available(p.g, s, n) && Needed(p.g, s, n) && Available(p.g, t, n) && Needed(p.g, t, n)
        && SameBuffer(p, n, s, t)
        ensures Value(p.g, k, n, s) == Value(p.g, k, n, t)
      {
        AgreeOneMore(p, k, n - 1, s, t);
      }
    }
  }

  lemma NothingShared(p: Setting, k: Operators)
    requires p.Valid()
    ensures AliasesAgree(p, k, 0)
  {
  }

  lemma AgreeOneMore(p: Setting, k: Operators, n: nat, s: int, t: int)
    requires p.Valid() && p.g.DependencyOrdered() && p.g.UniqueProducers() && n < |p.g.nodes|
    requires HandsOn(p, k) && LosesNothing(p) && UpdatesLoseNothing(p, k) && AliasesAgree(p, k, n)
    requires p.g.SourcesNotComputed()
    requires Available(p.g, s, n + 1) && Needed(p.g, s, n + 1) && Available(p.g, t, n + 1) && Needed(p.g, t, n + 1)
    requires SameBuffer(p, n + 1, s, t)
    ensures Value(p.g, k, n + 1, s) == Value(p.g, k, n + 1, t)
  {
    hide p.Valid, p.ShareMap, p.PickInput, p.SharedInput, HandsOn, LosesNothing;
    if s == t {
    } else if Updates(p.g, k.updates, n, s) || Updates(p.g, k.updates, n, t) {
      UpdatedIsAlone(p, k, n, s, t);
    } else if p.g.Produces(n, s) && p.g.Produces(n, t) {
      OutputsApart(p, n, s, t);
    } else if p.g.Produces(n, s) {
      OutputAgrees(p, k, n, s, t);
    } else if p.g.Produces(n, t) {
      OutputAgrees(p, k, n, t, s);
    } else {
      SharingIsStable(p, n, n + 1, s);
      SharingIsStable(p, n, n + 1, t);
      assert SameBuffer(p, n, s, t);
    }
  }

  /** No other tensor in the buffer of an updated variable is still needed. */
  lemma UpdatedIsAlone(p: Setting, k: Operators, n: nat, s: int, t: int)
    requires p.Valid() && UpdatesLoseNothing(p, k) && n < |p.g.nodes|
    requires Updates(p.g, k.updates, n, s) || Updates(p.g, k.updates, n, t)
    requires Needed(p.g, s, n + 1) && Needed(p.g, t, n + 1) && SameBuffer(p, n + 1, s, t)
    ensures s == t
  {
    assert SameBuffer(p, n + 1, t, s);
    assert s != t ==> DeadAfter(p.g, s, n) || DeadAfter(p.g, t, n);
  }

  /** Two outputs of one node never share a buffer. */
  lemma OutputsApart(p: Setting, n: nat, s: int, t: int)
    requires p.Valid() && p.g.DependencyOrdered() && p.g.UniqueProducers() && n < |p.g.nodes|
    requires p.g.Produces(n, s) && p.g.Produces(n, t) && SameBuffer(p, n + 1, s, t)
    ensures s == t
  {
    hide p.Valid, p.PickInput, p.SharedInput;
    var before := p.ShareMap(n);
    var input := p.SharedInput(n, before);
    if s in before {
      var m := SharedAreOutputs(p, n, s);
    }
    if t in before {
      var m := SharedAreOutputs(p, n, t);
    }
    if input.Some? && input.value in before {
      OwnersShareNothing(p, n, input.value);
    }
  }

  /* ---- Tensors in shared memory ---- */

  /** The contents of the two arenas. */
  datatype Memory = Memory(arena: Bytes, persistent: Bytes) {
    function Of(forever: bool): Bytes { if forever then persistent else arena }
  }

  /** The bytes of a tensor in one of the two arenas, and the tensor that owns the buffer they are in. */
  datatype Window = Window(forever: bool, owner: int, offset: nat, size: nat) {
    function End(): nat { offset + size }

    predicate Contains(inForever: bool, x: int) { forever == inForever && offset <= x < End() }

    predicate DisjointFrom(other: Window) {
      forever != other.forever || End() <= other.offset || other.End() <= offset
    }
  }

  /** Where tensors are: in an arena, or elsewhere, with memory of their own. */
  datatype Placement = Placement(at: map<int, Window>, elsewhere: set<int>) {
    /** There is memory for `t`, or `t` is an absent input and needs none. */
    predicate Reachable(t: int) { t in at || t in elsewhere || t == OPTIONAL_TENSOR }
  }

  /** `t` comes from outside the graph. */
  predicate Source(g: Graph, t: int) {
    t in g.inputs || t in g.variables
  }

  /** What placement guarantees: owners as planned, and windows of different owners apart while in use. */
  ghost predicate SafeWindows(p: Setting, temporaries: seq<seq<int>>, w: Placement)
    requires p.Valid() && |temporaries| == |p.g.nodes|
  {
    && (forall t :: t in w.at ==> 0 <= t && (Source(p.g, t) || p.g.Computed(t) || IsTemporary(temporaries, t)))
    && (forall t :: t in w.at ==> w.at[t].owner == t || (t in FinalSharing(p) && w.at[t].owner == FinalSharing(p)[t]))
    && (forall s, t :: s in w.at && t in w.at && w.at[s].owner == w.at[t].owner ==> w.at[s] == w.at[t])
    && (forall s, t, n: nat {:trigger InUse(p.g, temporaries, s, n), InUse(p.g, temporaries, t, n)} ::
          && n < |p.g.nodes| && s in w.at && t in w.at && w.at[s].owner != w.at[t].owner
          && InUse(p.g, temporaries, s, n) && InUse(p.g, temporaries, t, n) ==>
            w.at[s].DisjointFrom(w.at[t]))
  }

  predicate FitsMemory(w: Placement, memory: Memory) {
    forall t :: t in w.at ==> w.at[t].End() <= |memory.Of(w.at[t].forever)|
  }

  function Slice(memory: Memory, window: Window): Bytes
    requires window.End() <= |memory.Of(window.forever)|
  {
    memory.Of(window.forever)[window.offset..window.End()]
  }

  /** There is memory for everything node `n` reads, writes or uses as a temporary. */
  ghost predicate Covered(g: Graph, temporaries: seq<seq<int>>, w: Placement, n: nat)
    requires n < |g.nodes| == |temporaries|
  {
    && (forall t :: t in g.nodes[n].inputs ==> w.Reachable(t))
    && (forall t :: t in g.nodes[n].outputs ==> w.Reachable(t))
    && (forall t :: t in temporaries[n] ==> w.Reachable(t))
  }

  /** What node `n` finds in `t`: tensors elsewhere hold their value, and what is in an arena is what its bytes are. */
  function Load(g: Graph, k: Operators, w: Placement, memory: Memory, n: nat, t: int): Bytes
    requires n < |g.nodes| && FitsMemory(w, memory) && w.Reachable(t)
  {
    if t in w.at then Slice(memory, w.at[t]) else Value(g, k, n, t)
  }

  ghost function LoadInputs(
    g: Graph, k: Operators, temporaries: seq<seq<int>>, w: Placement, memory: Memory, n: nat): seq<Bytes>
    requires n < |g.nodes| == |temporaries| && FitsMemory(w, memory) && Covered(g, temporaries, w, n)
  {
    var inputs := g.nodes[n].inputs;
    assert forall i :: 0 <= i < |inputs| ==> inputs[i] in inputs;
    seq(|inputs|, i requires 0 <= i < |inputs| => Load(g, k, w, memory, n, inputs[i]))
  }

  /** Node `n` may write into byte `x` of that arena: it belongs to a tensor it writes or to one of its temporaries. */
  ghost predicate Touches(
    g: Graph, k: Operators, temporaries: seq<seq<int>>, w: Placement, n: nat, forever: bool, x: int)
    requires n < |g.nodes| == |temporaries|
  {
    exists t :: t in w.at && w.at[t].Contains(forever, x) && (Changes(g, k.updates, n, t) || t in temporaries[n])
  }

  /**
   * Node `n` runs: its outputs and the variables it updates get their values, its temporaries
   * anything, and all other bytes stay.
   */
  ghost predicate RunsNode(
    g: Graph, k: Operators, temporaries: seq<seq<int>>, w: Placement, before: Memory, after: Memory, n: nat)
    requires n < |g.nodes| == |temporaries| && FitsMemory(w, before) && Covered(g, temporaries, w, n)
  {
    && |after.arena| == |before.arena| && |after.persistent| == |before.persistent|
    && (forall t :: Changes(g, k.updates, n, t) && t in w.at ==>
          Slice(after, w.at[t]) == k.compute(n, LoadInputs(g, k, temporaries, w, before, n), t))
    && (forall x :: 0 <= x < |before.arena| && !Touches(g, k, temporaries, w, n, false, x) ==>
          after.arena[x] == before.arena[x])
    && (forall x :: 0 <= x < |before.persistent| && !Touches(g, k, temporaries, w, n, true, x) ==>
          after.persistent[x] == before.persistent[x])
  }

  /** Every tensor in the arena that is still needed holds its value. */
  ghost predicate Faithful(g: Graph, k: Operators, w: Placement, memory: Memory, n: nat)
    requires n <= |g.nodes| && FitsMemory(w, memory)
  {
    forall t :: t in w.at && Available(g, t, n) && Needed(g, t, n) ==> Slice(memory, w.at[t]) == Value(g, k, n, t)
  }

  /** A node that finds its inputs in faithful memory reads their values. */
  lemma ReadsValues(g: Graph, k: Operators, temporaries: seq<seq<int>>, w: Placement, memory: Memory, n: nat)
    requires n < |g.nodes| == |temporaries| && g.DependencyOrdered() && FitsMemory(w, memory)
    requires Faithful(g, k, w, memory, n) && Covered(g, temporaries, w, n)
    requires forall t :: t in w.at ==> 0 <= t
    ensures LoadInputs(g, k, temporaries, w, memory, n) == InputValues(g, k, n)
  {
    var inputs := g.nodes[n].inputs;
    forall i | 0 <= i < |inputs|
      ensures LoadInputs(g, k, temporaries, w, memory, n)[i] == InputValues(g, k, n)[i]
    {
      var t := inputs[i];
      if t in w.at {
        assert g.Reads(n, t);
        assert Available(g, t, n) && Needed(g, t, n);
      }
    }
  }

  /** Owners tell which tensors share a buffer by the time node `n` has run. */
  lemma SameOwnerSameBuffer(p: Setting, temporaries: seq<seq<int>>, w: Placement, n: nat, o: int, t: int)
    requires p.Valid() && p.g.DependencyOrdered() && p.g.UniqueProducers()
    requires |temporaries| == |p.g.nodes| && SafeWindows(p, temporaries, w)
    requires n < |p.g.nodes| && p.g.Produces(n, o) && Available(p.g, t, n)
    requires o in w.at && t in w.at && w.at[o].owner == w.at[t].owner
    ensures SameBuffer(p, n + 1, o, t)
  {
    hide p.Valid, p.ShareMap, p.SharedInput, p.PickInput;
    var last := |p.g.nodes|;
    var share := FinalSharing(p);
    SharingIsStable(p, n + 1, last, o);
    SharingIsStable(p, n + 1, last, t);
    assert o != t;
    if t in share {
      var m := SharedAreOutputs(p, last, t);
      if w.at[t].owner == o {
        OwnerIsOlder(p, last, t, n, m);
      }
    }
    if o in share {
      OwnersShareNothing(p, last, o);
    }
  }

  /** The same for a variable. */
  lemma SameOwnerAsVariable(p: Setting, temporaries: seq<seq<int>>, w: Placement, n: nat, v: int, t: int)
    requires p.Valid() && p.g.WellFormed()
    requires |temporaries| == |p.g.nodes| && SafeWindows(p, temporaries, w)
    requires n < |p.g.nodes| && v in p.g.variables && Available(p.g, t, n)
    requires v in w.at && t in w.at && w.at[v].owner == w.at[t].owner
    ensures SameBuffer(p, n + 1, v, t)
  {
    hide p.Valid;
    VariablesBorrowNothing(p, |p.g.nodes|, v);
    VariablesBorrowNothing(p, n + 1, v);
    SharingIsStable(p, n + 1, |p.g.nodes|, t);
  }

  /** A tensor that stays needed is in use while node `n` runs. */
  lemma StillNeededIsInUse(p: Setting, temporaries: seq<seq<int>>, numTensors: nat, w: Placement, n: nat, t: int)
    requires p.Valid() && TemporariesOk(p.g, temporaries, numTensors) && SafeWindows(p, temporaries, w)
    requires n < |p.g.nodes| && t in w.at && Available(p.g, t, n) && Needed(p.g, t, n + 1)
    ensures InUse(p.g, temporaries, t, n) && !IsTemporary(temporaries, t)
  {
    assert Mentioned(p.g, t);
    NoTemporary(p.g, temporaries, numTensors, t);
    if p.g.Computed(t) {
      var m :| 0 <= m < |p.g.nodes| && p.g.Produces(m, t);
      assert m < n;
    }
  }

  /** Node `n` touches no byte of a needed tensor unless a tensor it writes is in the same buffer. */
  lemma NotTouched(
    p: Setting, k: Operators, temporaries: seq<seq<int>>, numTensors: nat, w: Placement, n: nat, t: int, forever: bool,
    x: int)
    requires p.Valid() && TemporariesOk(p.g, temporaries, numTensors) && SafeWindows(p, temporaries, w)
    requires |p.g.nodes| < NODE_NOT_ASSIGNED
    requires n < |p.g.nodes| && t in w.at && Available(p.g, t, n) && Needed(p.g, t, n + 1)
    requires w.at[t].Contains(forever, x)
    requires forall o :: o in w.at && Changes(p.g, k.updates, n, o) ==> w.at[o].owner != w.at[t].owner
    ensures !Touches(p.g, k, temporaries, w, n, forever, x)
  {
    StillNeededIsInUse(p, temporaries, numTensors, w, n, t);
    forall u | u in w.at && (Changes(p.g, k.updates, n, u) || u in temporaries[n])
      ensures !w.at[u].Contains(forever, x)
    {
      assert InUse(p.g, temporaries, u, n);
      if u in temporaries[n] {
        assert IsTemporary(temporaries, u);
        NoOwnerIsTemporary(p, temporaries, numTensors, u);
      }
      assert w.at[u].owner != w.at[t].owner;
    }
  }

  lemma NoOwnerIsTemporary(p: Setting, temporaries: seq<seq<int>>, numTensors: nat, u: int)
    requires p.Valid() && TemporariesOk(p.g, temporaries, numTensors) && IsTemporary(temporaries, u)
    requires |p.g.nodes| < NODE_NOT_ASSIGNED
    ensures u !in FinalSharing(p) && forall s :: s in FinalSharing(p) ==> FinalSharing(p)[s] != u
  {
    var n :| 0 <= n < |temporaries| && u in temporaries[n];
    NotMentioned(p, u);
    forall s | s in FinalSharing(p)
      ensures FinalSharing(p)[s] != u
    {
      var m := OwnerIsRead(p, |p.g.nodes|, s);
      assert Mentioned(p.g, FinalSharing(p)[s]);
    }
  }

  /** The hypotheses of the execution theorem. */
  ghost predicate Executable(p: Setting, k: Operators, temporaries: seq<seq<int>>, numTensors: nat, w: Placement)
    requires p.Valid()
  {
    && p.g.WellFormed() && TemporariesOk(p.g, temporaries, numTensors)
    && HandsOn(p, k) && LosesNothing(p) && UpdatesLoseNothing(p, k) && SafeWindows(p, temporaries, w)
  }

  /** One tensor after one node. */
  lemma TensorStaysFaithful(
    p: Setting, k: Operators, temporaries: seq<seq<int>>, numTensors: nat, w: Placement, before: Memory, after: Memory,
    n: nat, t: int)
    requires p.Valid() && n < |p.g.nodes| && Executable(p, k, temporaries, numTensors, w)
    requires FitsMemory(w, before) && Faithful(p.g, k, w, before, n) && Covered(p.g, temporaries, w, n)
    requires RunsNode(p.g, k, temporaries, w, before, after, n)
    requires t in w.at && Available(p.g, t, n + 1) && Needed(p.g, t, n + 1)
    ensures Slice(after, w.at[t]) == Value(p.g, k, n + 1, t)
  {
    hide p.Valid, FinalSharing, HandsOn, LosesNothing, UpdatesLoseNothing, SafeWindows, Covered;
    NamesAreTensors(p, temporaries, w);
    ReadsValues(p.g, k, temporaries, w, before, n);
    if !Changes(p.g, k.updates, n, t) {
      assert Available(p.g, t, n) && Needed(p.g, t, n);
      if o :| o in w.at && Changes(p.g, k.updates, n, o) && w.at[o].owner == w.at[t].owner {
        if p.g.Produces(n, o) {
          SameOwnerSameBuffer(p, temporaries, w, n, o, t);
          SameOwnerSameWindow(p, temporaries, w, o, t);
          AllAliasesAgree(p, k, n);
          OutputAgrees(p, k, n, o, t);
        } else {
          SameOwnerAsVariable(p, temporaries, w, n, o, t);
          UpdatedIsAlone(p, k, n, o, t);
        }
      } else {
        UntouchedStays(p, k, temporaries, numTensors, w, before, after, n, t);
      }
    }
  }

  /** A needed tensor keeps its bytes if node `n` writes no tensor in the same buffer. */
  lemma UntouchedStays(
    p: Setting, k: Operators, temporaries: seq<seq<int>>, numTensors: nat, w: Placement, before: Memory, after: Memory,
    n: nat, t: int)
    requires p.Valid() && TemporariesOk(p.g, temporaries, numTensors) && SafeWindows(p, temporaries, w)
    requires n < |p.g.nodes| < NODE_NOT_ASSIGNED && FitsMemory(w, before) && Covered(p.g, temporaries, w, n)
    requires RunsNode(p.g, k, temporaries, w, before, after, n)
    requires t in w.at && Available(p.g, t, n) && Needed(p.g, t, n + 1)
    requires forall o :: o in w.at && Changes(p.g, k.updates, n, o) ==> w.at[o].owner != w.at[t].owner
    ensures Slice(after, w.at[t]) == Slice(before, w.at[t])
  {
    hide p.Valid, SafeWindows, TemporariesOk, Covered, Touches, Changes, Available, Needed;
    var window := w.at[t];
    forall x | window.Contains(window.forever, x)
      ensures after.Of(window.forever)[x] == before.Of(window.forever)[x]
    {
      NotTouched(p, k, temporaries, numTensors, w, n, t, window.forever, x);
    }
  }

  lemma NamesAreTensors(p: Setting, temporaries: seq<seq<int>>, w: Placement)
    requires p.Valid() && |temporaries| == |p.g.nodes| && SafeWindows(p, temporaries, w)
    ensures forall t :: t in w.at ==> 0 <= t
  {
  }

  lemma SameOwnerSameWindow(p: Setting, temporaries: seq<seq<int>>, w: Placement, s: int, t: int)
    requires p.Valid() && |temporaries| == |p.g.nodes| && SafeWindows(p, temporaries, w)
    requires s in w.at && t in w.at && w.at[s].owner == w.at[t].owner
    ensures w.at[s] == w.at[t]
  {
  }

  lemma MemoryStaysFaithful(
    p: Setting, k: Operators, temporaries: seq<seq<int>>, numTensors: nat, w: Placement, before: Memory, after: Memory,
    n: nat)
    requires p.Valid() && n < |p.g.nodes| && Executable(p, k, temporaries, numTensors, w)
    requires FitsMemory(w, before) && Faithful(p.g, k, w, before, n) && Covered(p.g, temporaries, w, n)
    requires RunsNode(p.g, k, temporaries, w, before, after, n)
    ensures Faithful(p.g, k, w, after, n + 1)
  {
    hide p.Valid, Executable, LoadInputs;
    forall t | t in w.at && Available(p.g, t, n + 1) && Needed(p.g, t, n + 1)
      ensures Slice(after, w.at[t]) == Value(p.g, k, n + 1, t)
    {
      TensorStaysFaithful(p, k, temporaries, numTensors, w, before, after, n, t);
    }
  }

  lemma InputsAreRead(
    p: Setting, k: Operators, temporaries: seq<seq<int>>, numTensors: nat, w: Placement, memory: Memory, n: nat)
    requires p.Valid() && n < |p.g.nodes| && Executable(p, k, temporaries, numTensors, w)
    requires FitsMemory(w, memory) && Faithful(p.g, k, w, memory, n) && Covered(p.g, temporaries, w, n)
    ensures LoadInputs(p.g, k, temporaries, w, memory, n) == InputValues(p.g, k, n)
  {
    ReadsValues(p.g, k, temporaries, w, memory, n);
  }

  /** Every node has memory for all its tensors. */
  ghost predicate AllCovered(g: Graph, temporaries: seq<seq<int>>, w: Placement)
    requires |temporaries| == |g.nodes|
  {
    forall n :: 0 <= n < |g.nodes| ==> Covered(g, temporaries, w, n)
  }

  /** A run of the whole graph: `memory[n]` is what the arenas hold before node `n`. */
  ghost predicate IsRun(g: Graph, k: Operators, temporaries: seq<seq<int>>, w: Placement, memory: seq<Memory>)
    requires |temporaries| == |g.nodes| && AllCovered(g, temporaries, w)
  {
    && |memory| == |g.nodes| + 1
    && (forall n :: 0 <= n <= |g.nodes| ==> FitsMemory(w, memory[n]))
    && (forall n :: 0 <= n < |g.nodes| ==> RunsNode(g, k, temporaries, w, memory[n], memory[n + 1], n))
  }

  /**
   * Execution in the arenas is faithful if every node has memory for its tensors: whatever the
   * nodes compute, and whatever they leave in their temporaries, every node finds the values of
   * its inputs, and the graph outputs hold theirs in the end.
   */
  lemma {:induction false} RunIsFaithful(
    p: Setting, k: Operators, temporaries: seq<seq<int>>, numTensors: nat, w: Placement, memory: seq<Memory>, n: nat)
    requires p.Valid() && n <= |p.g.nodes| && Executable(p, k, temporaries, numTensors, w)
    requires AllCovered(p.g, temporaries, w)
    requires IsRun(p.g, k, temporaries, w, memory) && Faithful(p.g, k, w, memory[0], 0)
    ensures Faithful(p.g, k, w, memory[n], n)
    ensures n < |p.g.nodes| ==> LoadInputs(p.g, k, temporaries, w, memory[n], n) == InputValues(p.g, k, n)
    ensures n == |p.g.nodes| ==>
              forall t :: t in w.at && t in p.g.outputs ==> Slice(memory[n], w.at[t]) == Value(p.g, k, n, t)
  {
    hide p.Valid, Executable, RunsNode, Load, LoadInputs, InputValues, Value, Covered;
    if n > 0 {
      RunIsFaithful(p, k, temporaries, numTensors, w, memory, n - 1);
      MemoryStaysFaithful(p, k, temporaries, numTensors, w, memory[n - 1], memory[n], n - 1);
    }
    if n < |p.g.nodes| {
      InputsAreRead(p, k, temporaries, numTensors, w, memory[n], n);
    }
  }
}
