/** Greedy partitioning switches between the two kinds of nodes as rarely as any schedule can. */
module GreedyOptimality {
  import opened Common
  import opened Schedule

  /* ---- A greedy subset takes all it can ---- */

  /** Nothing can join `current` after `done`. */
  ghost predicate Closed(p: Problem, done: seq<nat>, current: seq<nat>)
    requires p.Valid()
  {
    forall n :: 0 <= n < p.Size() ==> !CanJoin(p, done, current, n)
  }

  lemma {:induction false} GreedySweepRunsThrough(p: Problem, done: seq<nat>, current: seq<nat>, n: nat, did: bool)
    requires p.Valid() && n <= p.Size()
    ensures !Sweep(p, true, done, current, n, did).stopped
    decreases p.Size() - n
  {
    if n < p.Size() {
      if CanJoin(p, done, current, n) {
        GreedySweepRunsThrough(p, done, current + [n], n + 1, true);
      } else {
        GreedySweepRunsThrough(p, done, current, n + 1, did);
      }
    }
  }

  lemma {:induction false} GreedySubsetIsClosed(p: Problem, done: seq<nat>, current: seq<nat>)
    requires p.Valid() && Growing(p, done, current)
    ensures Closed(p, done, BuildSubset(p, true, done, current))
    decreases Unscheduled(p, done + current)
  {
    var s := Sweep(p, true, done, current, 0, false);
    GreedySweepRunsThrough(p, done, current, 0, false);
    SweepKeepsGrowing(p, true, done, current, 0, false);
    if s.did {
      GreedySubsetIsClosed(p, done, s.current);
    } else {
      IdleSweep(p, true, done, current, 0);
    }
  }

  /** Each subset is closed where it stands in the sequence. */
  ghost predicate AllClosed(p: Problem, done: seq<nat>, subsets: seq<seq<nat>>)
    requires p.Valid()
    decreases |subsets|
  {
    subsets != [] ==> Closed(p, done, subsets[0]) && AllClosed(p, done + subsets[0], subsets[1..])
  }

  lemma {:induction false} GreedyIsClosed(p: Problem, done: seq<nat>)
    requires p.Valid() && InDependencyOrder(p, done)
    ensures AllClosed(p, done, Partition(p, true, done))
    decreases Unscheduled(p, done)
  {
    EmptyIsGrowing(p, done);
    var s := BuildSubset(p, true, done, []);
    PartitionUnfolds(p, true, done, s);
    if s != [] {
      GreedySubsetIsClosed(p, done, []);
      GreedyIsClosed(p, done + s);
      assert ([s] + Partition(p, true, done + s))[1..] == Partition(p, true, done + s);
    }
  }

  lemma {:induction false} ClosedAt(p: Problem, done: seq<nat>, subsets: seq<seq<nat>>, k: nat)
    requires p.Valid() && AllClosed(p, done, subsets) && k < |subsets|
    ensures Closed(p, done + Flatten(subsets[..k]), subsets[k])
    decreases k
  {
    if k == 0 {
      assert done + Flatten(subsets[..0]) == done;
    } else {
      ClosedAt(p, done + subsets[0], subsets[1..], k - 1);
      assert subsets[..k][1..] == subsets[1..][..k - 1];
      assert done + (subsets[0] + Flatten(subsets[1..][..k - 1])) == done + subsets[0] + Flatten(subsets[1..][..k - 1]);
    }
  }

  /* ---- Nodes of the first subsets ---- */

  /** Node `n` is in one of the first `k` subsets. */
  ghost predicate InFirst(subsets: seq<seq<nat>>, k: nat, n: nat) {
    exists j :: 0 <= j < k && j < |subsets| && n in subsets[j]
  }

  lemma InFirstIsPrefix(subsets: seq<seq<nat>>, k: nat, n: nat)
    requires k <= |subsets|
    ensures InFirst(subsets, k, n) <==> n in Flatten(subsets[..k])
  {
    InFlatten(subsets[..k], n);
    if InFirst(subsets, k, n) {
      var j :| 0 <= j < k && n in subsets[j];
      assert n in subsets[..k][j];
    }
  }

  /**
   * The heart of the argument: a node whose dependencies are all in the first `k + 1` greedy
   * subsets is there itself, provided that subset `k` has its kind or there is no such subset.
   */
  lemma GreedyHasIt(p: Problem, greedy: seq<seq<nat>>, k: nat, n: nat)
    requires p.Valid() && p.fuse && n < p.Size()
    requires AllClosed(p, [], greedy) && Sound(p, greedy)
    requires forall m :: 0 <= m < p.Size() ==> !Ready(p, Flatten(greedy), m)
    requires k < |greedy| ==> greedy[k] != [] && greedy[k][0] < p.Size() && p.kinds[greedy[k][0]] == p.kinds[n]
    requires forall d :: d in p.deps[n] ==> InFirst(greedy, k + 1, d)
    ensures InFirst(greedy, k + 1, n)
  {
    if k < |greedy| {
      ClosedAt(p, [], greedy, k);
      var done := Flatten(greedy[..k]);
      assert [] + done == done;
      assert greedy[..k + 1] == greedy[..k] + [greedy[k]];
      FlattenAppend(greedy[..k], greedy[k]);
      assert !CanJoin(p, done, greedy[k], n);
      forall d | d in p.deps[n] ensures d in done + greedy[k] {
        InFirstIsPrefix(greedy, k + 1, d);
      }
      InFirstIsPrefix(greedy, k + 1, n);
    } else {
      assert greedy[..|greedy|] == greedy;
      forall d | d in p.deps[n] ensures d in Flatten(greedy) {
        assert InFirst(greedy, |greedy|, d);
        InFirstIsPrefix(greedy, |greedy|, d);
      }
      assert !Ready(p, Flatten(greedy), n);
      InFirstIsPrefix(greedy, |greedy|, n);
    }
  }

  /* ---- Kinds alternate ---- */

  function Other(k: Kind): Kind {
    if k.Delegated? then NotDelegated else Delegated
  }

  /** The kind of the `k`-th subset of an alternating sequence that starts with `first`. */
  function KindAt(first: Kind, k: nat): Kind {
    if k % 2 == 0 then first else Other(first)
  }

  ghost function KindOf(p: Problem, s: seq<nat>): Kind
    requires p.Valid() && s != [] && s[0] < p.Size()
  {
    p.kinds[s[0]]
  }

  ghost predicate Proper(p: Problem, subsets: seq<seq<nat>>)
    requires p.Valid()
  {
    forall k :: 0 <= k < |subsets| ==> subsets[k] != [] && OneKind(p, subsets[k])
  }

  lemma {:induction false} FirstNodeIsReady(p: Problem, subsets: seq<seq<nat>>, k: nat)
    requires p.Valid() && Sound(p, subsets) && k < |subsets|
    ensures subsets[k][0] < p.Size() && Ready(p, Flatten(subsets[..k]), subsets[k][0])
  {
    FlattenSplit(subsets, k);
    var done := Flatten(subsets[..k]);
    var order := Flatten(subsets);
    assert order[|done|] == subsets[k][0] && order[..|done|] == done;
  }

  lemma {:induction false} FlattenSplit(subsets: seq<seq<nat>>, k: nat)
    requires k < |subsets|
    ensures Flatten(subsets) == Flatten(subsets[..k]) + subsets[k] + Flatten(subsets[k + 1..])
  {
    if k > 0 {
      FlattenSplit(subsets[1..], k - 1);
      assert subsets[..k][1..] == subsets[1..][..k - 1] && subsets[1..][k..] == subsets[k + 1..];
      assert Flatten(subsets[..k]) == subsets[0] + Flatten(subsets[1..][..k - 1]);
    }
  }

  /** Adjacent greedy subsets are of different kinds. */
  lemma GreedyAlternates(p: Problem, greedy: seq<seq<nat>>, k: nat)
    requires p.Valid() && p.fuse && Sound(p, greedy) && AllClosed(p, [], greedy)
    requires k + 1 < |greedy|
    ensures greedy[k][0] < p.Size() && greedy[k + 1][0] < p.Size()
    ensures KindOf(p, greedy[k]) != KindOf(p, greedy[k + 1])
  {
    FirstNodeIsReady(p, greedy, k);
    FirstNodeIsReady(p, greedy, k + 1);
    ClosedAt(p, [], greedy, k);
    var done := Flatten(greedy[..k]);
    assert [] + done == done;
    assert greedy[..k + 1] == greedy[..k] + [greedy[k]];
    FlattenAppend(greedy[..k], greedy[k]);
    assert !CanJoin(p, done, greedy[k], greedy[k + 1][0]);
  }

  /** Greedy partitioning with fusion returns subsets of strictly alternating kinds. */
  lemma GreedyPartitionAlternates(p: Problem, k: nat)
    requires p.Valid() && p.fuse && k + 1 < |Partition(p, true, [])|
    ensures var greedy := Partition(p, true, []);
            && greedy[k] != [] && greedy[k + 1] != []
            && greedy[k][0] < p.Size() && greedy[k + 1][0] < p.Size()
            && KindOf(p, greedy[k]) != KindOf(p, greedy[k + 1])
  {
    PartitionIsSound(p, true);
    GreedyIsClosed(p, []);
    GreedyAlternates(p, Partition(p, true, []), k);
  }

  lemma {:induction false} GreedyKindAt(p: Problem, greedy: seq<seq<nat>>, k: nat)
    requires p.Valid() && p.fuse && Sound(p, greedy) && AllClosed(p, [], greedy)
    requires k < |greedy|
    ensures greedy[0][0] < p.Size() && greedy[k][0] < p.Size()
    ensures KindOf(p, greedy[k]) == KindAt(KindOf(p, greedy[0]), k)
  {
    FirstNodeIsReady(p, greedy, 0);
    if k > 0 {
      GreedyKindAt(p, greedy, k - 1);
      GreedyAlternates(p, greedy, k - 1);
    }
  }

  /* ---- Rivals ---- */

  /** Any other way to run all nodes in subsets of one kind each. */
  ghost predicate Rival(p: Problem, r: seq<seq<nat>>)
    requires p.Valid()
  {
    Sound(p, r) && Complete(p, Flatten(r))
  }

  /** The number of kind changes up to rival subset `q`, counting a first subset of the other kind as one. */
  ghost function Phase(p: Problem, first: Kind, r: seq<seq<nat>>, q: nat): (k: nat)
    requires p.Valid() && Proper(p, r) && q < |r|
    ensures k <= q + 1
    ensures KindOf(p, r[0]) == first ==> k <= q
    ensures KindAt(first, k) == KindOf(p, r[q])
  {
    assert forall j :: 0 <= j < |r| ==> r[j][0] < p.Size();
    if q == 0 then (if KindOf(p, r[0]) == first then 0 else 1)
    else Phase(p, first, r, q - 1) + (if KindOf(p, r[q]) == KindOf(p, r[q - 1]) then 0 else 1)
  }

  /** After as many alternations as the rival has made, greedy has scheduled all that the rival has. */
  lemma {:induction false} GreedyStaysAhead(p: Problem, greedy: seq<seq<nat>>, r: seq<seq<nat>>, q: nat, i: nat)
    requires p.Valid() && p.fuse && Sound(p, r) && q < |r| && i < |r[q]|
    requires greedy != [] && Sound(p, greedy) && AllClosed(p, [], greedy) && greedy[0][0] < p.Size()
    requires forall m :: 0 <= m < p.Size() ==> !Ready(p, Flatten(greedy), m)
    ensures InFirst(greedy, Phase(p, KindOf(p, greedy[0]), r, q) + 1, r[q][i])
    decreases q, i
  {
    var first := KindOf(p, greedy[0]);
    var k, n := Phase(p, first, r, q), r[q][i];
    FlattenSplit(r, q);
    var before := Flatten(r[..q]);
    assert Flatten(r)[|before| + i] == n && Flatten(r)[..|before| + i] == before + r[q][..i];
    assert Ready(p, before + r[q][..i], n);
    forall d | d in p.deps[n] ensures InFirst(greedy, k + 1, d) {
      if d in before {
        InFlatten(r[..q], d);
        var j :| 0 <= j < q && d in r[..q][j];
        var e :| 0 <= e < |r[j]| && r[j][e] == d;
        GreedyStaysAhead(p, greedy, r, j, e);
        PhaseGrows(p, first, r, j, q);
      } else {
        var e :| 0 <= e < i && r[q][e] == d;
        GreedyStaysAhead(p, greedy, r, q, e);
      }
    }
    if k < |greedy| {
      GreedyKindAt(p, greedy, k);
    }
    GreedyHasIt(p, greedy, k, n);
  }

  lemma {:induction false} PhaseGrows(p: Problem, first: Kind, r: seq<seq<nat>>, j: nat, q: nat)
    requires p.Valid() && Proper(p, r) && j <= q < |r|
    ensures Phase(p, first, r, j) <= Phase(p, first, r, q)
  {
    if j < q {
      PhaseGrows(p, first, r, j, q - 1);
    }
  }

  lemma LastIsNew(p: Problem, greedy: seq<seq<nat>>, k: nat)
    requires p.Valid() && Sound(p, greedy) && k < |greedy|
    ensures !InFirst(greedy, k, greedy[k][0])
  {
    FirstNodeIsReady(p, greedy, k);
    InFirstIsPrefix(greedy, k, greedy[k][0]);
  }

  /**
   * Greedy partitioning needs no more subsets than any schedule that starts with the same
   * kind, and at most one more than any schedule at all.
   */
  lemma GreedyIsOptimal(p: Problem, r: seq<seq<nat>>)
    requires p.Valid() && p.fuse && Rival(p, r)
    ensures var greedy := Partition(p, true, []);
            && |greedy| <= |r| + 1
            && (greedy != [] && r != [] && KindOfFirst(p, greedy) == KindOfFirst(p, r) ==> |greedy| <= |r|)
  {
    var greedy := Partition(p, true, []);
    PartitionIsSound(p, true);
    GreedyIsClosed(p, []);
    if greedy != [] {
      var last := |greedy| - 1;
      FirstNodeIsReady(p, greedy, 0);
      FirstNodeIsReady(p, greedy, last);
      var n := greedy[last][0];
      InFlatten(r, n);
      var q :| 0 <= q < |r| && n in r[q];
      var i :| 0 <= i < |r[q]| && r[q][i] == n;
      FirstNodeIsReady(p, r, 0);
      GreedyStaysAhead(p, greedy, r, q, i);
      LastIsNew(p, greedy, last);
    }
  }

  /** The kind a schedule starts with. */
  ghost function KindOfFirst(p: Problem, subsets: seq<seq<nat>>): Option<Kind>
    requires p.Valid()
  {
    if subsets != [] && subsets[0] != [] && subsets[0][0] < p.Size() then Some(p.kinds[subsets[0][0]]) else None
  }

  /* ---- Greedy against non-greedy ---- */

  lemma {:induction false} SameStart(p: Problem, done: seq<nat>, n: nat)
    requires p.Valid() && n <= p.Size()
    ensures var g, s := Sweep(p, true, done, [], n, false), Sweep(p, false, done, [], n, false);
            g.did == s.did && (g.did ==> g.current[0] == s.current[0])
    decreases p.Size() - n
  {
    if n < p.Size() {
      if CanJoin(p, done, [], n) {
        var g, s := Sweep(p, true, done, [n], n + 1, true), Sweep(p, false, done, [n], n + 1, true);
        assert g.current[..1] == [n] && s.current[..1] == [n] && [] + [n] == [n];
        assert g.current[0] == g.current[..1][0] && s.current[0] == s.current[..1][0];
      } else {
        SameStart(p, done, n + 1);
      }
    }
  }

  lemma SubsetStart(p: Problem, greedy: bool)
    requires p.Valid() && Growing(p, [], [])
    ensures var s, b := Sweep(p, greedy, [], [], 0, false), BuildSubset(p, greedy, [], []);
            (b != [] <==> s.did) && (s.did ==> b[0] == s.current[0])
  {
    var s := Sweep(p, greedy, [], [], 0, false);
    SweepKeepsGrowing(p, greedy, [], [], 0, false);
    var b := BuildSubset(p, greedy, [], []);
    if s.did {
      assert s.stopped ==> b == s.current;
      assert b[..|s.current|] == s.current;
      assert b[0] == b[..|s.current|][0];
    } else {
      IdleSweep(p, greedy, [], [], 0);
    }
  }

  /** Greedy never returns more subsets than non-greedy on the same dependencies, when all nodes can be scheduled. */
  lemma GreedyBeatsNonGreedy(p: Problem)
    requires p.Valid() && p.fuse && Complete(p, Flatten(Partition(p, false, [])))
    ensures |Partition(p, true, [])| <= |Partition(p, false, [])|
  {
    PartitionIsSound(p, true);
    PartitionIsSound(p, false);
    var g, s := Partition(p, true, []), Partition(p, false, []);
    GreedyIsOptimal(p, s);
    EmptyIsGrowing(p, []);
    SameStart(p, [], 0);
    SubsetStart(p, true);
    SubsetStart(p, false);
    PartitionUnfolds(p, true, [], BuildSubset(p, true, [], []));
    PartitionUnfolds(p, false, [], BuildSubset(p, false, [], []));
    if g != [] {
      FirstNodeIsReady(p, g, 0);
      FirstNodeIsReady(p, s, 0);
    }
  }
}
