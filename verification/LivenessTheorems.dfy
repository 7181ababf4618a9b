/** What the planned lifetimes mean for the tensors of a well-formed graph. */
module LivenessTheorems {
  import opened Common
  import opened GraphInfo
  import opened Liveness
  import opened InPlace

  /** The sharing once all nodes have been looked at. */
  ghost function FinalSharing(p: Setting): Sharing
    requires p.Valid()
  {
    p.ShareMap(|p.g.nodes|)
  }

  /** The node that made `t` share, and the input whose buffer it took over. */
  lemma {:induction false} TakenOver(p: Setting, n: nat, t: int) returns (m: nat, x: int)
    requires p.Valid() && n <= |p.g.nodes| && p.g.DependencyOrdered() && p.g.UniqueProducers()
    requires t in p.ShareMap(n)
    ensures m < n && p.g.Produces(m, t) && p.g.Reads(m, x)
    ensures p.SharedInput(m, p.ShareMap(m)) == Some(x) && p.g.nodes[m].outputs[0] == t
    ensures Resolve(p.ShareMap(n), x) == p.ShareMap(n)[t]
  {
    hide p.Valid, p.PickInput, p.SharedInput;
    var before := p.ShareMap(n - 1);
    var input := p.SharedInput(n - 1, before);
    if input.Some? && t == p.g.nodes[n - 1].outputs[0] {
      m, x := n - 1, input.value;
    } else {
      m, x := TakenOver(p, n - 1, t);
    }
  }

  /** Sharing decisions are never changed, and only the node that computes a tensor makes it share. */
  lemma {:induction false} SharingIsStable(p: Setting, k: nat, n: nat, t: int)
    requires p.Valid() && k <= n <= |p.g.nodes| && p.g.UniqueProducers()
    ensures t in p.ShareMap(k) ==> t in p.ShareMap(n) && p.ShareMap(n)[t] == p.ShareMap(k)[t]
    ensures (forall m :: k <= m < n ==> !p.g.Produces(m, t)) ==> (t in p.ShareMap(n) <==> t in p.ShareMap(k))
    decreases n - k
  {
    hide p.Valid, p.PickInput, p.SharedInput;
    if k < n {
      SharingIsStable(p, k, n - 1, t);
      var input := p.SharedInput(n - 1, p.ShareMap(n - 1));
      if t in p.ShareMap(k) && input.Some? && t == p.g.nodes[n - 1].outputs[0] {
        var m := SharedAreOutputs(p, k, t);
      }
    }
  }

  /** The owner of a shared buffer is an input of some node. */
  lemma {:induction false} OwnerIsRead(p: Setting, n: nat, t: int) returns (m: nat)
    requires p.Valid() && n <= |p.g.nodes| && t in p.ShareMap(n)
    ensures m < n && p.g.Reads(m, p.ShareMap(n)[t])
  {
    hide p.Valid, p.PickInput, p.SharedInput;
    var before := p.ShareMap(n - 1);
    var input := p.SharedInput(n - 1, before);
    if input.Some? && t == p.g.nodes[n - 1].outputs[0] {
      m := n - 1;
      if input.value in before {
        m := OwnerIsRead(p, n - 1, input.value);
      }
    } else {
      m := OwnerIsRead(p, n - 1, t);
    }
  }

  /** The owner of a buffer is computed before every tensor that takes it over. */
  lemma {:induction false} OwnerIsOlder(p: Setting, n: nat, t: int, k: nat, m: nat)
    requires p.Valid() && n <= |p.g.nodes| && p.g.DependencyOrdered() && p.g.UniqueProducers()
    requires t in p.ShareMap(n) && k < |p.g.nodes| && m < |p.g.nodes|
    requires p.g.Produces(k, p.ShareMap(n)[t]) && p.g.Produces(m, t)
    ensures k < m
  {
    hide p.Valid, p.PickInput, p.SharedInput;
    var before := p.ShareMap(n - 1);
    var input := p.SharedInput(n - 1, before);
    if input.Some? && t == p.g.nodes[n - 1].outputs[0] {
      if input.value in before {
        var l := SharedAreOutputs(p, n - 1, input.value);
        OwnerIsOlder(p, n - 1, input.value, k, l);
      }
    } else {
      OwnerIsOlder(p, n - 1, t, k, m);
    }
  }

  /** A tensor is read only once the buffer it lives in is allocated. */
  lemma OwnerAllocatedFirst(p: Setting, t: int, n: nat)
    requires p.Valid() && p.g.WellFormed() && n < |p.g.nodes| && p.g.Reads(n, t)
    requires AllocSpec(p.g, Resolve(FinalSharing(p), t)) != NODE_NOT_ASSIGNED
    ensures AllocSpec(p.g, Resolve(FinalSharing(p), t)) <= n
  {
    var share := FinalSharing(p);
    if t in share {
      var owner := share[t];
      if !(owner in p.g.variables || owner in p.g.inputs) {
        var k := FirstProducer(p.g, owner, 0);
        var m := SharedAreOutputs(p, |p.g.nodes|, t);
        OwnerIsOlder(p, |p.g.nodes|, t, k, m);
      }
    }
  }

  lemma ReadIsCounted(g: Graph, share: Sharing, n: nat, t: int)
    requires n < |g.nodes| && g.Reads(n, t)
    ensures n <= LastReader(g, share, Resolve(share, t))
  {
    ReadsRootMeans(g, share, n, Resolve(share, t));
  }

  /**
   * Lifetimes cover all uses: from the node that computes a tensor to every node that reads it,
   * the owner of the buffer it lives in is allocated and not yet released.
   */
  lemma LifetimeCoversUses(p: Setting, t: int, n: nat)
    requires p.Valid() && p.g.WellFormed() && n < |p.g.nodes|
    requires p.g.Reads(n, t) || p.g.Produces(n, t)
    requires AllocSpec(p.g, Resolve(FinalSharing(p), t)) != NODE_NOT_ASSIGNED
    ensures var owner := Resolve(FinalSharing(p), t);
            AllocSpec(p.g, owner) <= n <= DeallocSpec(p.g, FinalSharing(p), p.preserve, owner)
  {
    var share := FinalSharing(p);
    if p.g.Reads(n, t) {
      OwnerAllocatedFirst(p, t, n);
      ReadIsCounted(p.g, share, n, t);
    } else if t in share {
      var m, x := TakenOver(p, |p.g.nodes|, t);
      OwnerAllocatedFirst(p, x, n);
      ReadIsCounted(p.g, share, n, x);
    } else {
      assert p.g.Computed(t);
    }
  }

  /** Tensors that share are nobody's owner, so no read resolves to them. */
  lemma SharedIsNotRead(p: Setting, t: int)
    requires p.Valid() && p.g.WellFormed() && t in FinalSharing(p)
    ensures LastReader(p.g, FinalSharing(p), t) == -1
  {
    var share := FinalSharing(p);
    var l := LastReader(p.g, share, t);
    if l >= 0 {
      ReadsRootMeans(p.g, share, l, t);
      var x :| p.g.Reads(l, x) && Resolve(share, x) == t;
      OwnersShareNothing(p, |p.g.nodes|, x);
    }
  }

  /**
   * The first use is exact: graph inputs and variables are there from the start, other tensors
   * from the first node that computes them, and what no node computes is never allocated.
   */
  lemma FirstUseIsExact(g: Graph, t: int)
    requires |g.nodes| < NODE_NOT_ASSIGNED && t != -1
    ensures var a := AllocSpec(g, t);
            if t in g.inputs || t in g.variables then a == 0
            else if exists n :: 0 <= n < |g.nodes| && t in g.nodes[n].outputs
            then 0 <= a < |g.nodes| && t in g.nodes[a].outputs && forall n :: 0 <= n < a ==> t !in g.nodes[n].outputs
            else a == 0x7FFF_FFFF
  {
    assert forall n :: 0 <= n < |g.nodes| ==> (g.Produces(n, t) <==> t in g.nodes[n].outputs);
  }

  /**
   * The release node is exact: for an allocated owner that is read and is no graph input,
   * output or variable it is the last node with an input resolving to it; graph inputs,
   * outputs, variables and tensors that share are never released, and nothing is when all
   * tensors are preserved.
   */
  lemma ReleaseIsExact(p: Setting, t: int)
    requires p.Valid() && p.g.WellFormed()
    ensures var share := FinalSharing(p);
            var d := DeallocSpec(p.g, share, p.preserve, t);
            if p.preserve || t in p.g.inputs || t in p.g.outputs || t in p.g.variables
               || t in share || AllocSpec(p.g, t) == NODE_NOT_ASSIGNED
               || (forall n :: 0 <= n < |p.g.nodes| ==> !ReadsRoot(p.g, share, n, t))
            then d == 0x7FFF_FFFF
            else 0 <= d < |p.g.nodes| && ReadsRoot(p.g, share, d, t)
                 && forall n :: d < n < |p.g.nodes| ==> !ReadsRoot(p.g, share, n, t)
  {
    var share := FinalSharing(p);
    forall n | 0 <= n < |p.g.nodes|
      ensures ReadsRoot(p.g, share, n, t) <==> ReadsAt(p.g, share, n, t, 0) > 0
    {
      ReadsRootMeans(p.g, share, n, t);
    }
    if t in share {
      SharedIsNotRead(p, t);
    } else {
      var l := LastReader(p.g, share, t);
      if l >= 0 && AllocSpec(p.g, t) != NODE_NOT_ASSIGNED {
        var x :| p.g.Reads(l, x) && Resolve(share, x) == t;
        OwnerAllocatedFirst(p, x, l);
      }
    }
  }

  /** Without in-place operators the lifetimes are those of the unshared graph. */
  lemma NoInPlaceSameLifetimes(p: Setting, t: int)
    requires p.Valid() && !p.preserve && |p.g.nodes| < NODE_NOT_ASSIGNED
    requires forall m :: 0 <= m < |p.g.nodes| ==> p.g.nodes[m].inplace.IsNone()
    ensures DeallocSpec(p.g, FinalSharing(p), p.preserve, t) == DeallocSpec(p.g, map[], false, t)
  {
    NoInPlaceNoSharing(p, |p.g.nodes|);
  }
}
