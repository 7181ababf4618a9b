/** What the in-place flags of an operator permit, and when the planner stays within it. */
module InPlaceFlags {
  import opened Common
  import opened GraphInfo
  import opened Liveness
  import opened InPlace

  /** The flags let input `i` share its buffer with output `j`. */
  predicate Permits(flags: Inplace, i: nat, j: nat) {
    flags.Shareable(i) && j == if flags.withCorrespondingOutput then i else 0
  }

  /** If node `n` hands a buffer on to its first output, the flags permit that for an input with this tensor. */
  ghost predicate SharesAsPermitted(p: Setting, n: nat)
    requires p.Valid() && n < |p.g.nodes|
  {
    var node := p.g.nodes[n];
    var input := p.SharedInput(n, p.ShareMap(n));
    input.Some? ==> exists i: nat :: i < |node.inputs| && node.inputs[i] == input.value && Permits(node.inplace, i, 0)
  }

  /** The operator of node `n` is in-place and lets its input `i` share. */
  predicate Flagged(flags: Inplace, i: nat) {
    (i == 0 && flags.shared0) || (i == 1 && flags.shared1) || (i == 2 && flags.shared2)
  }

  /**
   * Input `i` of node `n` may hand its buffer to the first output: one of the first three inputs,
   * with its flag, no graph input, for an output that is no graph output; in the same arena or in
   * the one for tensors that need not survive; and if the operator changes the data, of the same
   * size, more than 4 bytes, and referenced once.
   */
  ghost predicate CanTake(p: Setting, n: nat, i: nat)
    requires p.Valid() && n < |p.g.nodes|
  {
    var node := p.g.nodes[n];
    && i < 3 && i < |node.inputs| && node.inputs[i] != -1 && node.outputs != [] && Flagged(node.inplace, i)
    && 0 <= node.inputs[i] < |p.tensors| && 0 <= node.outputs[0] < |p.tensors|
    && node.inputs[i] !in p.g.inputs && node.outputs[0] !in p.g.outputs && !p.preserve
    && var input, output := p.tensors[node.inputs[i]], p.tensors[node.outputs[0]];
       && (input.allocationType == output.allocationType || input.allocationType == ArenaRw)
       && (node.inplace.dataUnmodified
           || (input.bytes == output.bytes && input.bytes > 4 && p.refcounts[node.inputs[i]] <= 1))
  }

  /** The test the planner makes is that one. */
  lemma CanTakeMeans(p: Setting, n: nat, i: nat)
    requires p.Valid() && n < |p.g.nodes|
    ensures CanTake(p, n, i) <==>
            var node := p.g.nodes[n];
            && Eligible(p.g, n) && i < |node.inputs| && node.inputs[i] in node.inputs
            && node.inputs[i] != OPTIONAL_TENSOR && node.inplace.Shareable(i)
            && p.InputTensorCanBeShared(node.inputs[i], node.outputs[0], TensorChanged(p.g, n))
  {
    assert forall x :: x in p.g.nodes[n].inputs ==> x == OPTIONAL_TENSOR || p.g.IsTensor(x);
  }

  /** The position the planner settles on when the first one is not sharable. */
  ghost function LaterPosition(p: Setting, n: nat): nat
    requires p.Valid() && n < |p.g.nodes|
  {
    if CanTake(p, n, 1) then 1 else 2
  }

  /** The planner takes the first sharable position. */
  lemma PicksFirst(p: Setting, n: nat)
    requires p.Valid() && n < |p.g.nodes| && Eligible(p.g, n)
    ensures var ins := p.g.nodes[n].inputs;
            p.PickInput(n, 0) ==
            if CanTake(p, n, 0) then Some(ins[0])
            else if CanTake(p, n, LaterPosition(p, n)) then Some(ins[LaterPosition(p, n)])
            else None
  {
    CanTakeMeans(p, n, 0);
    CanTakeMeans(p, n, 1);
    CanTakeMeans(p, n, 2);
    hide p.InputTensorCanBeShared, CanTake;
    var ins := p.g.nodes[n].inputs;
    assert forall i :: 0 <= i < |ins| ==> ins[i] in ins;
    assert p.PickInput(n, 3) == None;
    assert p.PickInput(n, 2) == if CanTake(p, n, 2) then Some(ins[2]) else None;
    assert p.PickInput(n, 1) == if CanTake(p, n, 1) then Some(ins[1]) else p.PickInput(n, 2);
  }

  /**
   * Exactly when node `n` shares, and with whom: its first sharable input hands on the buffer it
   * lives in, unless the operator changes the data and the owner of that buffer is referenced
   * more than once.
   */
  lemma SharesIff(p: Setting, n: nat)
    requires p.Valid() && n < |p.g.nodes|
    ensures (forall i: nat :: !CanTake(p, n, i)) ==> p.ShareMap(n + 1) == p.ShareMap(n)
    ensures forall i: nat :: CanTake(p, n, i) && (forall j: nat :: j < i ==> !CanTake(p, n, j)) ==>
              var node, share := p.g.nodes[n], p.ShareMap(n);
              var owner := if node.inputs[i] in share then share[node.inputs[i]] else node.inputs[i];
              && 0 <= owner < |p.refcounts|
              && p.ShareMap(n + 1) == if node.inplace.dataUnmodified || p.refcounts[owner] <= 1
                                      then share[node.outputs[0] := owner] else share
  {
    forall i: nat
      ensures CanTake(p, n, i) ==> Eligible(p.g, n)
    {
      CanTakeMeans(p, n, i);
    }
    if Eligible(p.g, n) {
      PicksFirst(p, n);
    }
  }

  /**
   * The planner shares with the first output only, whatever the flag for corresponding outputs
   * says. So it oversteps the flags of a node exactly when the node has that flag, its first input
   * is not sharable, a later one is, and the counter of that one's owner does not stop it.
   */
  lemma SharesAsPermittedIff(p: Setting, n: nat)
    requires p.Valid() && n < |p.g.nodes|
    ensures !SharesAsPermitted(p, n) <==>
            && p.g.nodes[n].inplace.withCorrespondingOutput
            && !CanTake(p, n, 0) && CanTake(p, n, LaterPosition(p, n))
            && var x := p.g.nodes[n].inputs[LaterPosition(p, n)];
               && 0 <= Resolve(p.ShareMap(n), x) < |p.refcounts|
               && (TensorChanged(p.g, n) ==> p.refcounts[Resolve(p.ShareMap(n), x)] <= 1)
  {
    if Eligible(p.g, n) {
      PicksFirst(p, n);
    }
  }

  /* ---- The flag is overstepped ---- */

  /** Two inputs and two outputs; the second input may share the second output. */
  const CORRESPONDING := Inplace(false, true, false, true, false)

  /** Node 0 computes 1 and 2 from 0, and node 1 computes 3 and 4 from them. */
  const TWO_BY_TWO: Graph := Graph(
    5,
    [Node([0], [1, 2], false, Inplace(false, false, false, false, false)),
     Node([1, 2], [3, 4], false, CORRESPONDING)],
    [0, 1], 2, [0], [], [])

  const OVERSTEPPED: Setting := Setting(TWO_BY_TWO, seq(5, _ => Tensor(24, ArenaRw, 0)), [2, 1, 1, 0, 0], false)

  lemma OversteppedIsWellFormed()
    ensures OVERSTEPPED.Valid() && TWO_BY_TWO.WellFormed()
  {
    var g := TWO_BY_TWO;
    assert g.nodes[0].outputs == [1, 2] && g.nodes[0].inputs == [0];
    assert g.nodes[1].outputs == [3, 4] && g.nodes[1].inputs == [1, 2];
    forall t
      ensures g.Produces(0, t) <==> t == 1 || t == 2
      ensures g.Produces(1, t) <==> t == 3 || t == 4
      ensures g.Reads(0, t) <==> t == 0
      ensures g.Reads(1, t) <==> t == 1 || t == 2
    {
    }
  }

  /** The second input shares with the first output although only the second output is permitted. */
  lemma CorrespondingOutputIsIgnored()
    ensures OVERSTEPPED.Valid() && TWO_BY_TWO.WellFormed()
    ensures OVERSTEPPED.ShareMap(2) == map[3 := 2]
    ensures !SharesAsPermitted(OVERSTEPPED, 1)
    ensures Permits(CORRESPONDING, 1, 1) && !Permits(CORRESPONDING, 1, 0)
  {
    OversteppedIsWellFormed();
    assert TWO_BY_TWO.nodes[1].inputs == [1, 2] && TWO_BY_TWO.nodes[1].outputs == [3, 4];
    assert OVERSTEPPED.ShareMap(0) == map[];
    assert !Eligible(TWO_BY_TWO, 0);
    assert OVERSTEPPED.ShareMap(1) == map[];
    assert OVERSTEPPED.InputTensorCanBeShared(2, 3, true);
    assert CanTake(OVERSTEPPED, 1, 1);
    PicksFirst(OVERSTEPPED, 1);
    SharesAsPermittedIff(OVERSTEPPED, 1);
  }
}
