/** In-place operators: which output tensors borrow the buffer of an input. */
module InPlace {
  import opened Common
  import opened GraphInfo
  import opened Liveness

  datatype AllocationType = ArenaRw | ArenaRwPersistent | Elsewhere(kind: nat)

  /** A tensor as the planner sees it; `data` is its buffer's address. */
  datatype Tensor = Tensor(bytes: SizeT, allocationType: AllocationType, data: nat)

  /** The largest size that is not worth sharing for an operator that changes the data. */
  const SCALAR_TENSOR_BYTES: nat := 4
  /** Only this many leading inputs can be shared. */
  const MAX_SHARABLE_INPUTS: nat := 3

  /** All references to `t`: pins and reads by nodes. */
  function References(g: Graph, t: int): nat {
    PinCount(g, t) + ReadsFrom(g, map[], t, 0)
  }

  /** The inputs of all nodes from `n` on, in a row. */
  function InputsFrom(g: Graph, n: nat): seq<int>
    requires n <= |g.nodes|
    decreases |g.nodes| - n
  {
    if n == |g.nodes| then [] else g.nodes[n].inputs + InputsFrom(g, n + 1)
  }

  lemma {:induction false} ReadsAtCounts(g: Graph, t: int, n: nat, j: nat)
    requires n < |g.nodes| && j <= |g.nodes[n].inputs| && t != OPTIONAL_TENSOR
    ensures ReadsAt(g, map[], n, t, j) == multiset(g.nodes[n].inputs[j..])[t]
    decreases |g.nodes[n].inputs| - j
  {
    var ins := g.nodes[n].inputs;
    if j < |ins| {
      ReadsAtCounts(g, t, n, j + 1);
      assert ins[j..] == [ins[j]] + ins[j + 1..];
    }
  }

  lemma {:induction false} ReadsFromCounts(g: Graph, t: int, n: nat)
    requires n <= |g.nodes| && t != OPTIONAL_TENSOR
    ensures ReadsFrom(g, map[], t, n) == multiset(InputsFrom(g, n))[t]
    decreases |g.nodes| - n
  {
    if n < |g.nodes| {
      ReadsAtCounts(g, t, n, 0);
      assert g.nodes[n].inputs[0..] == g.nodes[n].inputs;
      ReadsFromCounts(g, t, n + 1);
    }
  }

  /** The counter of a tensor is how often it occurs among graph outputs, variables and inputs and node inputs. */
  lemma ReferencesCount(g: Graph, t: int)
    requires t != OPTIONAL_TENSOR
    ensures References(g, t) == multiset(g.outputs + g.variables + g.inputs + InputsFrom(g, 0))[t]
  {
    ReadsFromCounts(g, t, 0);
  }

  function TensorChanged(g: Graph, n: nat): bool
    requires n < |g.nodes|
  {
    !g.nodes[n].inplace.dataUnmodified
  }

  /** Node `n` can be looked at for sharing: it has an output, and it is in-place. */
  predicate Eligible(g: Graph, n: nat)
    requires n < |g.nodes|
  {
    g.nodes[n].outputs != [] && !g.nodes[n].inplace.IsNone()
  }

  /** Every tensor that shares, and every owner, is a tensor. */
  ghost predicate SharingInRange(g: Graph, share: Sharing) {
    forall t :: t in share ==> g.IsTensor(t) && g.IsTensor(share[t])
  }

  /** What the sharing decisions are made from. */
  datatype Setting = Setting(g: Graph, tensors: seq<Tensor>, refcounts: seq<int>, preserve: bool) {
    ghost predicate Valid() {
      && |tensors| == |refcounts| && g.numTensors <= |tensors|
      && g.IndicesInRange()
      && forall n :: 0 <= n < |g.nodes| && Eligible(g, n) ==> g.IsTensor(g.nodes[n].outputs[0])
    }

    predicate InputTensorCanBeShared(inputId: int, outputId: int, changed: bool)
      requires |tensors| == |refcounts| && 0 <= inputId < |tensors| && 0 <= outputId < |tensors|
    {
      var input, output := tensors[inputId], tensors[outputId];
      && (changed ==> input.bytes == output.bytes && input.bytes > SCALAR_TENSOR_BYTES && refcounts[inputId] <= 1)
      && inputId !in g.inputs
      && outputId !in g.outputs
      && (input.allocationType == output.allocationType || input.allocationType == ArenaRw)
      && !preserve
    }

    /** The first input from position `i` on that node `n` may share, if any. */
    ghost function PickInput(n: nat, i: nat): (r: Option<int>)
      requires Valid() && n < |g.nodes| && Eligible(g, n)
      ensures r.Some? ==> g.Reads(n, r.value) && g.IsTensor(r.value)
                          && InputTensorCanBeShared(r.value, g.nodes[n].outputs[0], TensorChanged(g, n))
      decreases MAX_SHARABLE_INPUTS - i
    {
      var ins := g.nodes[n].inputs;
      if i >= MAX_SHARABLE_INPUTS || i >= |ins| then None
      else
        assert ins[i] in ins;
        if ins[i] != OPTIONAL_TENSOR && g.nodes[n].inplace.Shareable(i)
           && InputTensorCanBeShared(ins[i], g.nodes[n].outputs[0], TensorChanged(g, n))
        then Some(ins[i])
        else PickInput(n, i + 1)
    }

    /** The input whose buffer node `n` reuses, given the sharing decided so far. */
    ghost function SharedInput(n: nat, share: Sharing): (r: Option<int>)
      requires Valid() && n < |g.nodes| && SharingInRange(g, share)
      ensures r.Some? ==>
                && Eligible(g, n) && g.Reads(n, r.value) && g.Produces(n, g.nodes[n].outputs[0])
                && g.IsTensor(r.value) && g.IsTensor(Resolve(share, r.value))
                && InputTensorCanBeShared(r.value, g.nodes[n].outputs[0], TensorChanged(g, n))
                && (TensorChanged(g, n) ==> refcounts[Resolve(share, r.value)] <= 1)
    {
      if !Eligible(g, n) then None
      else
        var pick := PickInput(n, 0);
        assert g.nodes[n].outputs[0] in g.nodes[n].outputs;
        assert pick.Some? ==> g.IsTensor(Resolve(share, pick.value));
        if pick.None? || (TensorChanged(g, n) && refcounts[Resolve(share, pick.value)] > 1) then None else pick
    }

    /** The sharing decided by the first `n` nodes. */
    ghost function ShareMap(n: nat): (share: Sharing)
      requires Valid() && n <= |g.nodes|
      ensures SharingInRange(g, share)
    {
      if n == 0 then map[]
      else
        var share := ShareMap(n - 1);
        var input := SharedInput(n - 1, share);
        if input.None? then share else share[g.nodes[n - 1].outputs[0] := Resolve(share, input.value)]
    }
  }

  /* ---- Chains have depth one ---- */

  /** A key of the map is the first output of one of the nodes looked at. */
  lemma {:induction false} SharedAreOutputs(p: Setting, n: nat, t: int) returns (m: nat)
    requires p.Valid() && n <= |p.g.nodes| && t in p.ShareMap(n)
    ensures m < n && Eligible(p.g, m) && p.g.nodes[m].outputs[0] == t && p.g.Produces(m, t) && t !in p.g.outputs
  {
    if t in p.ShareMap(n - 1) {
      m := SharedAreOutputs(p, n - 1, t);
    } else {
      m := n - 1;
    }
  }

  /**
   * Sharing has depth one: on dependency-ordered graphs with unique producers the owner of a
   * shared buffer shares with nobody, so resolving twice is resolving once. The owner is no
   * graph input, and no node from `n` on computes it.
   */
  lemma {:induction false} OwnersShareNothing(p: Setting, n: nat, t: int)
    requires p.Valid() && n <= |p.g.nodes| && p.g.DependencyOrdered() && p.g.UniqueProducers()
    requires t in p.ShareMap(n)
    ensures var share := p.ShareMap(n);
            && share[t] !in share && Resolve(share, Resolve(share, t)) == Resolve(share, t)
            && share[t] !in p.g.inputs
            && forall m :: n <= m < |p.g.nodes| ==> !p.g.Produces(m, share[t])
  {
    hide p.Valid, p.PickInput, p.SharedInput;
    var before, share := p.ShareMap(n - 1), p.ShareMap(n);
    var input := p.SharedInput(n - 1, before);
    if t in before && (input.None? || t != p.g.nodes[n - 1].outputs[0]) {
      OwnersShareNothing(p, n - 1, t);
    } else if input.value in before {
      OwnersShareNothing(p, n - 1, input.value);
    }
  }

  /** Without in-place operators nothing is shared. */
  lemma {:induction false} NoInPlaceNoSharing(p: Setting, n: nat)
    requires p.Valid() && n <= |p.g.nodes|
    requires forall m :: 0 <= m < |p.g.nodes| ==> p.g.nodes[m].inplace.IsNone()
    ensures p.ShareMap(n) == map[]
  {
    if n > 0 {
      NoInPlaceNoSharing(p, n - 1);
      assert !Eligible(p.g, n - 1);
    }
  }

  /** With `preserve_all_tensors` nothing is shared. */
  lemma {:induction false} PreserveNoSharing(p: Setting, n: nat)
    requires p.Valid() && n <= |p.g.nodes| && p.preserve
    ensures p.ShareMap(n) == map[]
  {
    if n > 0 {
      PreserveNoSharing(p, n - 1);
    }
  }
}
