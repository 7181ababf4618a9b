/** When overwriting a shared buffer in place loses no value that is still needed. */
module InPlaceSafety {
  import opened Common
  import opened GraphInfo
  import opened Liveness
  import opened InPlace

  /** The tensors whose buffer `t` took over: its in-place input, that one's in-place input, up to the owner. */
  ghost function Ancestors(p: Setting, n: nat, t: int): set<int>
    requires p.Valid() && n <= |p.g.nodes|
  {
    if n == 0 then {}
    else
      var input := p.SharedInput(n - 1, p.ShareMap(n - 1));
      if input.Some? && p.g.nodes[n - 1].outputs[0] == t
      then {input.value} + Ancestors(p, n - 1, input.value)
      else Ancestors(p, n - 1, t)
  }

  /** The counters are the numbers of references, as they are when sharing is decided. */
  ghost predicate CountersExact(p: Setting) {
    && |p.refcounts| >= p.g.numTensors
    && forall t :: p.g.IsTensor(t) ==> p.refcounts[t] == References(p.g, t)
  }

  /* ---- Counting reads ---- */

  lemma {:induction false} ReadsAtLeast(g: Graph, t: int, k: nat, n: nat)
    requires k <= n < |g.nodes| && g.Reads(n, t)
    ensures ReadsFrom(g, map[], t, k) >= 1
    decreases n - k
  {
    if k == n {
      ReadsRootMeans(g, map[], n, t);
      assert Resolve(map[], t) == t;
    } else {
      ReadsAtLeast(g, t, k + 1, n);
    }
  }

  /** A tensor two nodes read, or one that is pinned and read, has two references. */
  lemma {:induction false} TwoReads(g: Graph, t: int, k: nat, m: nat, n: nat)
    requires k <= m < n < |g.nodes| && g.Reads(m, t) && g.Reads(n, t)
    ensures ReadsFrom(g, map[], t, k) >= 2
    decreases m - k
  {
    if k == m {
      ReadsRootMeans(g, map[], m, t);
      assert Resolve(map[], t) == t;
      ReadsAtLeast(g, t, k + 1, n);
    } else {
      TwoReads(g, t, k + 1, m, n);
    }
  }

  /** With a single reference, one read is the only one, and nothing pins the tensor. */
  lemma SingleReference(p: Setting, t: int, n: nat)
    requires CountersExact(p) && p.g.IsTensor(t) && p.refcounts[t] <= 1
    requires n < |p.g.nodes| && p.g.Reads(n, t)
    ensures !Pinned(p.g, t)
    ensures forall m :: 0 <= m < |p.g.nodes| && p.g.Reads(m, t) ==> m == n
  {
    ReadsAtLeast(p.g, t, 0, n);
    PinCountMeans(p.g, t);
    forall m | 0 <= m < |p.g.nodes| && p.g.Reads(m, t)
      ensures m == n
    {
      if m < n {
        TwoReads(p.g, t, 0, m, n);
      } else if n < m {
        TwoReads(p.g, t, 0, n, m);
      }
    }
  }

  /* ---- The tensors in one buffer ---- */

  lemma {:induction false} AncestorsAreRead(p: Setting, n: nat, t: int, a: int)
    requires p.Valid() && n <= |p.g.nodes| && a in Ancestors(p, n, t)
    ensures p.g.IsTensor(a) && exists m :: 0 <= m < n && p.g.Reads(m, a)
  {
    var input := p.SharedInput(n - 1, p.ShareMap(n - 1));
    if input.Some? && p.g.nodes[n - 1].outputs[0] == t {
      if a == input.value {
        assert p.g.Reads(n - 1, a);
      } else {
        AncestorsAreRead(p, n - 1, input.value, a);
      }
    } else {
      AncestorsAreRead(p, n - 1, t, a);
    }
  }

  /** The owner is the oldest ancestor. */
  lemma {:induction false} OwnerIsAncestor(p: Setting, n: nat, t: int)
    requires p.Valid() && n <= |p.g.nodes|
    requires p.g.DependencyOrdered() && p.g.UniqueProducers()
    requires t in p.ShareMap(n)
    ensures p.ShareMap(n)[t] in Ancestors(p, n, t)
  {
    var before := p.ShareMap(n - 1);
    var input := p.SharedInput(n - 1, before);
    if input.Some? && p.g.nodes[n - 1].outputs[0] == t {
      if input.value in before {
        OwnerIsAncestor(p, n - 1, input.value);
      }
    } else {
      OwnerIsAncestor(p, n - 1, t);
    }
  }

  /** `t` lives in the same buffer as `x` after the sharing decided by the first `n` nodes. */
  ghost predicate SameBuffer(p: Setting, n: nat, t: int, x: int)
    requires p.Valid() && n <= |p.g.nodes|
  {
    Resolve(p.ShareMap(n), t) == Resolve(p.ShareMap(n), x)
  }

  /** The ancestors of `x` have one reference each. */
  ghost predicate SingleAncestors(p: Setting, k: nat, x: int)
    requires p.Valid() && k <= |p.g.nodes|
  {
    forall a :: a in Ancestors(p, k, x) ==> 0 <= a < |p.refcounts| && p.refcounts[a] <= 1
  }

  /** The buffer of `x` holds only `x` and its ancestors. */
  ghost predicate OneChain(p: Setting, k: nat, x: int)
    requires p.Valid() && k <= |p.g.nodes|
  {
    forall t :: SameBuffer(p, k, t, x) ==> t == x || t in Ancestors(p, k, x)
  }

  /**
   * If the ancestors of `x` have one reference each and `x` itself is read by a node that is
   * still to come and by no other, then the buffer of `x` holds only `x` and its ancestors.
   */
  lemma {:induction false} BufferIsOneChain(p: Setting, k: nat, x: int, n: nat)
    requires p.Valid() && CountersExact(p) && k <= n < |p.g.nodes|
    requires p.g.DependencyOrdered() && p.g.UniqueProducers()
    requires p.g.IsTensor(x) && p.g.Reads(n, x) && p.refcounts[x] <= 1
    requires SingleAncestors(p, k, x)
    ensures OneChain(p, k, x)
  {
    hide p.Valid, CountersExact, p.ShareMap, p.SharedInput;
    hide SameBuffer;
    if k == 0 {
      NothingSharedYet(p, x);
    } else {
      AncestorsStep(p, k, x);
      var input := p.SharedInput(k - 1, p.ShareMap(k - 1));
      if input.Some? && p.g.nodes[k - 1].outputs[0] == x {
        BufferIsOneChain(p, k - 1, input.value, k - 1);
        NewInBuffer(p, k, x, input.value);
      } else {
        BufferIsOneChain(p, k - 1, x, n);
        if input.Some? && SameBuffer(p, k - 1, input.value, x) {
          NotReadTwice(p, k - 1, x, input.value, n);
        }
        OthersInBuffer(p, k, x);
      }
    }
  }

  lemma NothingSharedYet(p: Setting, x: int)
    requires p.Valid()
    ensures OneChain(p, 0, x)
  {
  }

  /** How the ancestors change with one more node. */
  lemma AncestorsStep(p: Setting, k: nat, x: int)
    requires p.Valid() && 0 < k <= |p.g.nodes| && CountersExact(p) && SingleAncestors(p, k, x)
    ensures var input := p.SharedInput(k - 1, p.ShareMap(k - 1));
            if input.Some? && p.g.nodes[k - 1].outputs[0] == x then
              && p.g.IsTensor(input.value) && p.g.Reads(k - 1, input.value) && p.refcounts[input.value] <= 1
              && SingleAncestors(p, k - 1, input.value)
              && Ancestors(p, k, x) == {input.value} + Ancestors(p, k - 1, input.value)
            else SingleAncestors(p, k - 1, x) && Ancestors(p, k, x) == Ancestors(p, k - 1, x)
  {
    var input := p.SharedInput(k - 1, p.ShareMap(k - 1));
    if input.Some? && p.g.nodes[k - 1].outputs[0] == x {
      assert input.value in Ancestors(p, k, x);
    }
  }

  /** A tensor of the chain has its only reader elsewhere. */
  lemma NotReadTwice(p: Setting, k: nat, x: int, y: int, n: nat)
    requires p.Valid() && CountersExact(p) && k < n < |p.g.nodes|
    requires p.g.IsTensor(x) && p.g.Reads(n, x) && p.refcounts[x] <= 1
    requires SingleAncestors(p, k, x) && (y == x || y in Ancestors(p, k, x))
    ensures !p.g.Reads(k, y)
  {
    if y == x {
      SingleReference(p, x, n);
    } else {
      AncestorsAreRead(p, k, x, y);
      var m :| 0 <= m < k && p.g.Reads(m, y);
      SingleReference(p, y, m);
    }
  }

  /** A tensor that joins the buffer of `y` brings no others along. */
  lemma NewInBuffer(p: Setting, k: nat, x: int, y: int)
    requires p.Valid() && 0 < k <= |p.g.nodes| && p.g.DependencyOrdered() && p.g.UniqueProducers()
    requires p.SharedInput(k - 1, p.ShareMap(k - 1)) == Some(y) && p.g.nodes[k - 1].outputs[0] == x
    ensures forall t :: SameBuffer(p, k, t, x) ==> t == x || SameBuffer(p, k - 1, t, y)
  {
    var before := p.ShareMap(k - 1);
    if y in before {
      OwnersShareNothing(p, k - 1, y);
    }
    OwnersShareNothing(p, k, x);
  }

  /** The buffer of `x` stays as it is unless the node shares it. */
  lemma OthersInBuffer(p: Setting, k: nat, x: int)
    requires p.Valid() && 0 < k <= |p.g.nodes|
    requires var input := p.SharedInput(k - 1, p.ShareMap(k - 1));
             input.Some? ==> p.g.nodes[k - 1].outputs[0] != x && !SameBuffer(p, k - 1, input.value, x)
    ensures forall t :: SameBuffer(p, k, t, x) ==> SameBuffer(p, k - 1, t, x)
  {
  }

  /* ---- Overwriting ---- */

  /** Node `n` overwrites the buffer of `x` with different data. */
  ghost predicate Overwrites(p: Setting, n: nat, x: int)
    requires p.Valid() && n < |p.g.nodes|
  {
    p.SharedInput(n, p.ShareMap(n)) == Some(x) && TensorChanged(p.g, n)
  }

  /** `t` is not needed after node `n`. */
  ghost predicate DeadAfter(g: Graph, t: int, n: nat) {
    !Pinned(g, t) && forall m :: n < m < |g.nodes| ==> !g.Reads(m, t)
  }

  /** What the two counter checks buy without more: the input and the owner are dead once overwritten. */
  lemma InputAndOwnerAreDead(p: Setting, n: nat, x: int)
    requires p.Valid() && CountersExact(p) && n < |p.g.nodes|
    requires p.g.DependencyOrdered() && p.g.UniqueProducers()
    requires Overwrites(p, n, x)
    ensures DeadAfter(p.g, x, n) && DeadAfter(p.g, Resolve(p.ShareMap(n), x), n)
  {
    SingleReference(p, x, n);
    var share := p.ShareMap(n);
    if x in share {
      OwnerIsAncestor(p, n, x);
      AncestorsAreRead(p, n, x, share[x]);
      var m :| 0 <= m < n && p.g.Reads(m, share[x]);
      SingleReference(p, share[x], m);
    }
  }

  /**
   * If every tensor strictly between the owner and the in-place input has a single reference,
   * then nothing that was in the buffer is needed after the node that overwrites it.
   */
  lemma OverwritingLosesNothing(p: Setting, n: nat, x: int)
    requires p.Valid() && CountersExact(p) && n < |p.g.nodes|
    requires p.g.DependencyOrdered() && p.g.UniqueProducers()
    requires Overwrites(p, n, x)
    requires forall a :: a in Ancestors(p, n, x) && a != Resolve(p.ShareMap(n), x) ==>
               0 <= a < |p.refcounts| && p.refcounts[a] <= 1
    ensures forall t :: SameBuffer(p, n, t, x) ==> DeadAfter(p.g, t, n)
  {
    BufferIsOneChain(p, n, x, n);
    InputAndOwnerAreDead(p, n, x);
    forall t | SameBuffer(p, n, t, x)
      ensures DeadAfter(p.g, t, n)
    {
      if t in Ancestors(p, n, x) && t != Resolve(p.ShareMap(n), x) {
        AncestorsAreRead(p, n, x, t);
        var m :| 0 <= m < n && p.g.Reads(m, t);
        SingleReference(p, t, m);
      }
    }
  }

  /** All references to `t` that its counter holds are reads by nodes up to `n`. */
  ghost predicate SpentBy(p: Setting, t: int, n: nat)
    requires n < |p.g.nodes|
  {
    0 <= t < |p.refcounts| && p.refcounts[t] == ReadsFrom(p.g, map[], t, 0) - ReadsFrom(p.g, map[], t, n + 1)
  }

  /**
   * Exactly when overwriting loses nothing: the counter of every other tensor that shares the
   * buffer so far is spent by then. This is the check the planner makes for the input and for
   * the owner, but not for the tensors in between.
   */
  lemma OverwritingLosesNothingIff(p: Setting, n: nat, x: int)
    requires p.Valid() && CountersExact(p) && n < |p.g.nodes| && p.g.WellFormed()
    requires Overwrites(p, n, x)
    ensures (forall t :: SameBuffer(p, n, t, x) ==> DeadAfter(p.g, t, n))
            <==> forall t :: t in p.ShareMap(n) && t != x && SameBuffer(p, n, t, x) ==> SpentBy(p, t, n)
  {
    hide p.Valid, p.ShareMap, p.SharedInput, p.PickInput;
    InputAndOwnerAreDead(p, n, x);
    if x in p.ShareMap(n) {
      OwnersShareNothing(p, n, x);
    }
    forall t | t in p.ShareMap(n) && SameBuffer(p, n, t, x)
      ensures DeadAfter(p.g, t, n) <==> SpentBy(p, t, n)
    {
      AliasIsNotPinned(p, n, x, t);
      PinCountMeans(p.g, t);
      NoReadsCounted(p.g, t, n + 1);
    }
  }

  /** A count of reads is zero exactly when nothing reads. */
  lemma {:induction false} NoReadsCounted(g: Graph, t: int, k: nat)
    requires k <= |g.nodes|
    ensures ReadsFrom(g, map[], t, k) == 0 <==> forall m :: k <= m < |g.nodes| ==> !g.Reads(m, t)
    decreases |g.nodes| - k
  {
    if k < |g.nodes| {
      NoReadsCounted(g, t, k + 1);
      if g.Reads(k, t) {
        ReadsAtLeast(g, t, k, k);
      } else {
        ReadsRootMeans(g, map[], k, t);
      }
    }
  }

  lemma AliasIsNotPinned(p: Setting, n: nat, x: int, t: int)
    requires p.Valid() && CountersExact(p) && n < |p.g.nodes| && p.g.WellFormed()
    requires Overwrites(p, n, x) && SameBuffer(p, n, t, x)
    ensures !Pinned(p.g, t)
  {
    InputAndOwnerAreDead(p, n, x);
    if t in p.ShareMap(n) {
      var m := SharedAreOutputs(p, n, t);
      assert p.g.Computed(t);
    }
  }

  /* ---- The hypothesis is needed ---- */

  const NONE := Inplace(false, false, false, false, false)
  const RESHAPE := Inplace(true, false, true, false, false)
  const RELU := Inplace(false, false, true, false, false)

  /** 0 -> 1, reshaped to 2, reshaped to 3, overwritten in place by 4; then 2 is read together with 4. */
  const LOSSY_GRAPH: Graph := Graph(
    6,
    [Node([0], [1], false, NONE), Node([1], [2], false, RESHAPE), Node([2], [3], false, RESHAPE),
     Node([3], [4], false, RELU), Node([2, 4], [5], false, NONE)],
    [0, 1, 2, 3, 4], 5, [0], [5], [])

  const LOSSY: Setting := Setting(LOSSY_GRAPH, seq(6, _ => Tensor(24, ArenaRw, 0)), [2, 1, 2, 1, 1, 1], false)

  lemma OneInput(g: Graph, t: int, n: nat, i: int)
    requires n < |g.nodes| && g.nodes[n].inputs == [i] && i != OPTIONAL_TENSOR
    ensures ReadsAt(g, map[], n, t, 0) == if t == i then 1 else 0
  {
    assert ReadsAt(g, map[], n, t, 1) == 0;
  }

  lemma LossyCounters()
    ensures CountersExact(LOSSY)
  {
    var g := LOSSY_GRAPH;
    forall t | 0 <= t < 6
      ensures LOSSY.refcounts[t] == References(g, t)
    {
      OneInput(g, t, 0, 0);
      OneInput(g, t, 1, 1);
      OneInput(g, t, 2, 2);
      OneInput(g, t, 3, 3);
      assert ReadsAt(g, map[], 4, t, 1) == if t == 4 then 1 else 0;
      assert ReadsFrom(g, map[], t, 4) == if t == 2 || t == 4 then 1 else 0;
      assert ReadsFrom(g, map[], t, 3) == if t == 2 || t == 4 || t == 3 then 1 else 0;
      assert ReadsFrom(g, map[], t, 2) == if t == 2 then 2 else if t == 4 || t == 3 then 1 else 0;
      assert ReadsFrom(g, map[], t, 1) == if t == 2 then 2 else if t == 4 || t == 3 || t == 1 then 1 else 0;
      assert ReadsFrom(g, map[], t, 0) == if t == 2 then 2 else if t < 5 then 1 else 0;
    }
  }

  lemma LossyEdges(n: nat)
    requires n < 5
    ensures LOSSY_GRAPH.nodes[n].outputs == [n + 1]
    ensures LOSSY_GRAPH.nodes[n].inputs == if n == 4 then [2, 4] else [n]
  {
  }

  lemma LossyIsWellFormed()
    ensures LOSSY.Valid() && LOSSY_GRAPH.WellFormed()
  {
    var g := LOSSY_GRAPH;
    forall n, t | 0 <= n < 5
      ensures g.Produces(n, t) <==> t == n + 1
      ensures g.Reads(n, t) <==> if n == 4 then t == 2 || t == 4 else t == n
    {
      LossyEdges(n);
      assert t in [2, 4] <==> t == 2 || t == 4;
    }
    hide g.Produces, g.Reads;
    assert g.UniqueProducers() && g.DependencyOrdered() && g.SourcesNotComputed();
    forall n | 0 <= n < 5
      ensures forall t :: t in g.nodes[n].inputs ==> g.IsTensor(t)
      ensures forall t :: t in g.nodes[n].outputs ==> g.IsTensor(t)
    {
      LossyEdges(n);
    }
  }

  /** One more node: its in-place input, or none. */
  lemma LossyStep(n: nat, share: Sharing, input: Option<int>)
    requires LOSSY.Valid() && n < 4 && LOSSY.ShareMap(n) == share
    requires LOSSY.SharedInput(n, share) == input
    ensures LOSSY.ShareMap(n + 1) ==
            if input.None? then share else share[LOSSY_GRAPH.nodes[n].outputs[0] := Resolve(share, input.value)]
  {
  }

  lemma LossyPick(n: nat)
    requires LOSSY.Valid() && 1 <= n < 4
    ensures Eligible(LOSSY_GRAPH, n) && LOSSY.PickInput(n, 0) == Some(n)
  {
    var node := LOSSY_GRAPH.nodes[n];
    assert node.inputs == [n] && node.outputs == [n + 1];
    assert LOSSY.InputTensorCanBeShared(n, n + 1, TensorChanged(LOSSY_GRAPH, n));
  }

  lemma LossyStart()
    requires LOSSY.Valid()
    ensures LOSSY.ShareMap(0) == map[]
  {
  }

  lemma LossySharing()
    requires LOSSY.Valid()
    ensures LOSSY.ShareMap(3) == map[2 := 1, 3 := 1]
  {
    hide LOSSY.ShareMap, LOSSY.PickInput;
    LossyPick(1);
    LossyPick(2);
    LossyStart();
    LossyStep(0, map[], None);
    LossyStep(1, map[], Some(1));
    LossyStep(2, map[2 := 1], Some(2));
  }

  /** On this well-formed graph a tensor whose buffer is overwritten by node 3 is still read by node 4. */
  lemma OverwritingCanLoseAValue()
    ensures LOSSY.Valid() && LOSSY_GRAPH.WellFormed() && CountersExact(LOSSY)
    ensures Overwrites(LOSSY, 3, 3) && SameBuffer(LOSSY, 3, 2, 3) && LOSSY_GRAPH.Reads(4, 2)
  {
    LossyIsWellFormed();
    LossyCounters();
    LossySharing();
    LossyPick(3);
  }
}
