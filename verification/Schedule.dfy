/**
 * The partitioning algorithm on dependencies alone: sweeps over the nodes that grow one
 * subset at a time. `Partitioner` is proved to follow these functions; what they achieve is
 * proved here and in the modules that import this one.
 */
module Schedule {

  datatype Kind = Delegated | NotDelegated

  /** Node `n` must run after the nodes in `deps[n]`; with `fuse` off every subset is one node. */
  datatype Problem = Problem(deps: seq<set<nat>>, kinds: seq<Kind>, fuse: bool) {
    ghost predicate Valid() {
      |deps| == |kinds| && forall n :: 0 <= n < |deps| ==> forall d :: d in deps[n] ==> d < |deps|
    }

    function Size(): nat { |deps| }
  }

  /** All dependencies of the unscheduled node `n` have been scheduled. */
  predicate Ready(p: Problem, scheduled: seq<nat>, n: nat)
    requires n < p.Size()
  {
    n !in scheduled && forall d :: d in p.deps[n] ==> d in scheduled
  }

  /** Node `n` may be added to the subset `current`, which follows the nodes `done`. */
  predicate CanJoin(p: Problem, done: seq<nat>, current: seq<nat>, n: nat)
    requires p.Valid() && n < p.Size()
  {
    && (p.fuse || current == [])
    && Ready(p, done + current, n)
    && (current != [] && current[0] < p.Size() ==> p.kinds[n] == p.kinds[current[0]])
  }

  datatype SweepResult = SweepResult(current: seq<nat>, did: bool, stopped: bool)

  /** One pass over the nodes from `n` on; non-greedy passes stop at the first miss after a hit. */
  function Sweep(p: Problem, greedy: bool, done: seq<nat>, current: seq<nat>, n: nat, did: bool): (r: SweepResult)
    requires p.Valid() && n <= p.Size()
    ensures did ==> r.did
    ensures |current| <= |r.current| && r.current[..|current|] == current
    ensures r.did && !did ==> |current| < |r.current|
    decreases p.Size() - n
  {
    if n == p.Size() then SweepResult(current, did, false)
    else if CanJoin(p, done, current, n) then
      var r := Sweep(p, greedy, done, current + [n], n + 1, true);
      assert r.current[..|current|] == r.current[..|current| + 1][..|current|];
      r
    else if did && !greedy then SweepResult(current, did, true)
    else Sweep(p, greedy, done, current, n + 1, did)
  }

  ghost function Unscheduled(p: Problem, scheduled: seq<nat>): set<nat> {
    set n: nat | n < p.Size() && n !in scheduled
  }

  /** Every node occurs once, after all its dependencies. */
  ghost predicate InDependencyOrder(p: Problem, order: seq<nat>)
    requires p.Valid()
  {
    forall i :: 0 <= i < |order| ==> order[i] < p.Size() && Ready(p, order[..i], order[i])
  }

  ghost predicate OneKind(p: Problem, nodes: seq<nat>)
    requires p.Valid()
  {
    forall i, j :: 0 <= i < |nodes| && 0 <= j < |nodes| ==>
      nodes[i] < p.Size() && nodes[j] < p.Size() && p.kinds[nodes[i]] == p.kinds[nodes[j]]
  }

  /** What holds between sweeps. */
  ghost predicate Growing(p: Problem, done: seq<nat>, current: seq<nat>)
    requires p.Valid()
  {
    InDependencyOrder(p, done + current) && OneKind(p, current)
  }

  lemma AppendKeepsOrder(p: Problem, order: seq<nat>, n: nat)
    requires p.Valid() && InDependencyOrder(p, order) && n < p.Size() && Ready(p, order, n)
    ensures InDependencyOrder(p, order + [n])
  {
    hide Ready;
    var longer := order + [n];
    forall i | 0 <= i < |longer|
      ensures longer[i] < p.Size() && Ready(p, longer[..i], longer[i])
    {
      if i < |order| {
        assert longer[..i] == order[..i] && longer[i] == order[i];
      } else {
        assert longer[..i] == order && longer[i] == n;
      }
    }
  }

  lemma AppendShrinksUnscheduled(p: Problem, order: seq<nat>, n: nat)
    requires n < p.Size() && n !in order
    ensures Unscheduled(p, order + [n]) < Unscheduled(p, order)
  {
    var longer := order + [n];
    assert n in longer by { assert longer[|order|] == n; }
    assert forall m :: m in order ==> m in longer;
    assert n in Unscheduled(p, order) && n !in Unscheduled(p, longer);
  }

  lemma JoinKeepsGrowing(p: Problem, done: seq<nat>, current: seq<nat>, n: nat)
    requires p.Valid() && Growing(p, done, current) && n < p.Size() && CanJoin(p, done, current, n)
    ensures Growing(p, done, current + [n])
    ensures Unscheduled(p, done + (current + [n])) < Unscheduled(p, done + current)
  {
    hide InDependencyOrder, Unscheduled;
    assert done + (current + [n]) == (done + current) + [n];
    AppendKeepsOrder(p, done + current, n);
    AppendShrinksUnscheduled(p, done + current, n);
  }

  lemma {:induction false} SweepKeepsGrowing(
    p: Problem, greedy: bool, done: seq<nat>, current: seq<nat>, n: nat, did: bool)
    requires p.Valid() && n <= p.Size() && Growing(p, done, current)
    ensures var r := Sweep(p, greedy, done, current, n, did);
            && Growing(p, done, r.current)
            && Unscheduled(p, done + r.current) <= Unscheduled(p, done + current)
            && (r.did && !did ==> Unscheduled(p, done + r.current) < Unscheduled(p, done + current))
    decreases p.Size() - n
  {
    if n < p.Size() {
      if CanJoin(p, done, current, n) {
        JoinKeepsGrowing(p, done, current, n);
        SweepKeepsGrowing(p, greedy, done, current + [n], n + 1, true);
      } else if !(did && !greedy) {
        SweepKeepsGrowing(p, greedy, done, current, n + 1, did);
      }
    }
  }

  /** A sweep that found nothing has looked at every node and left the subset alone. */
  lemma {:induction false} IdleSweep(p: Problem, greedy: bool, done: seq<nat>, current: seq<nat>, n: nat)
    requires p.Valid() && n <= p.Size() && !Sweep(p, greedy, done, current, n, false).did
    ensures Sweep(p, greedy, done, current, n, false) == SweepResult(current, false, false)
    ensures forall m :: n <= m < p.Size() ==> !CanJoin(p, done, current, m)
    decreases p.Size() - n
  {
    if n < p.Size() {
      IdleSweep(p, greedy, done, current, n + 1);
    }
  }

  /** Sweeps until nothing joins any more, or until a non-greedy sweep stops. */
  ghost function BuildSubset(p: Problem, greedy: bool, done: seq<nat>, current: seq<nat>): (r: seq<nat>)
    requires p.Valid() && Growing(p, done, current)
    ensures Growing(p, done, r)
    ensures |current| <= |r| && r[..|current|] == current
    ensures r == current || Unscheduled(p, done + r) < Unscheduled(p, done + current)
    decreases Unscheduled(p, done + current)
  {
    SweepKeepsGrowing(p, greedy, done, current, 0, false);
    var s := Sweep(p, greedy, done, current, 0, false);
    if s.stopped || !s.did then
      assert !s.did ==> s.current == current by { if !s.did { IdleSweep(p, greedy, done, current, 0); } }
      s.current
    else
      var r := BuildSubset(p, greedy, done, s.current);
      assert r[..|current|] == r[..|s.current|][..|current|];
      r
  }

  /** One round of the inner loop. */
  lemma BuildSubsetUnfolds(p: Problem, greedy: bool, done: seq<nat>, current: seq<nat>, s: SweepResult)
    requires p.Valid() && Growing(p, done, current) && s == Sweep(p, greedy, done, current, 0, false)
    ensures Growing(p, done, s.current)
    ensures BuildSubset(p, greedy, done, current) ==
            if s.stopped || !s.did then s.current else BuildSubset(p, greedy, done, s.current)
  {
    SweepKeepsGrowing(p, greedy, done, current, 0, false);
  }

  lemma EmptyIsGrowing(p: Problem, done: seq<nat>)
    requires p.Valid() && InDependencyOrder(p, done)
    ensures Growing(p, done, [])
  {
    assert done + [] == done;
  }

  /** The subsets that follow `done`. */
  ghost function Partition(p: Problem, greedy: bool, done: seq<nat>): seq<seq<nat>>
    requires p.Valid() && InDependencyOrder(p, done)
    decreases Unscheduled(p, done)
  {
    EmptyIsGrowing(p, done);
    assert done + [] == done;
    var s := BuildSubset(p, greedy, done, []);
    if s == [] then [] else [s] + Partition(p, greedy, done + s)
  }

  function Flatten(subsets: seq<seq<nat>>): seq<nat> {
    if subsets == [] then [] else subsets[0] + Flatten(subsets[1..])
  }

  lemma {:induction false} FlattenAppend(a: seq<seq<nat>>, s: seq<nat>)
    ensures Flatten(a + [s]) == Flatten(a) + s
  {
    if a != [] {
      FlattenAppend(a[1..], s);
      assert (a + [s])[1..] == a[1..] + [s];
      assert a[0] + (Flatten(a[1..]) + s) == a[0] + Flatten(a[1..]) + s;
    } else {
      assert Flatten([s]) == s + [];
    }
  }

  lemma {:induction false} InFlatten(subsets: seq<seq<nat>>, n: nat)
    ensures n in Flatten(subsets) <==> exists k :: 0 <= k < |subsets| && n in subsets[k]
  {
    if subsets != [] {
      InFlatten(subsets[1..], n);
      if n in Flatten(subsets[1..]) {
        var k :| 0 <= k < |subsets[1..]| && n in subsets[1..][k];
        assert n in subsets[k + 1];
      }
      if k :| 0 <= k < |subsets| && n in subsets[k] {
        if k > 0 {
          assert n in subsets[1..][k - 1];
        }
      }
    }
  }

  /* ---- Soundness ---- */

  ghost predicate Sound(p: Problem, subsets: seq<seq<nat>>)
    requires p.Valid()
  {
    && InDependencyOrder(p, Flatten(subsets))
    && forall k :: 0 <= k < |subsets| ==> subsets[k] != [] && OneKind(p, subsets[k])
  }

  /** One step of the outer loop. */
  lemma PartitionUnfolds(p: Problem, greedy: bool, done: seq<nat>, s: seq<nat>)
    requires p.Valid() && InDependencyOrder(p, done) && Growing(p, done, [])
    requires s == BuildSubset(p, greedy, done, [])
    ensures InDependencyOrder(p, done + s) && OneKind(p, s)
    ensures Partition(p, greedy, done) == if s == [] then [] else [s] + Partition(p, greedy, done + s)
    ensures s != [] ==> Unscheduled(p, done + s) < Unscheduled(p, done)
  {
    assert done + [] == done;
  }

  ghost predicate SoundFrom(p: Problem, done: seq<nat>, rest: seq<seq<nat>>)
    requires p.Valid()
  {
    && InDependencyOrder(p, done + Flatten(rest))
    && (forall k :: 0 <= k < |rest| ==> rest[k] != [] && OneKind(p, rest[k]))
    && (forall n :: 0 <= n < p.Size() ==> !Ready(p, done + Flatten(rest), n))
  }

  lemma SoundCons(p: Problem, done: seq<nat>, s: seq<nat>, rest: seq<seq<nat>>)
    requires p.Valid() && SoundFrom(p, done + s, rest) && s != [] && OneKind(p, s)
    ensures SoundFrom(p, done, [s] + rest)
  {
    assert ([s] + rest)[1..] == rest;
    assert done + (s + Flatten(rest)) == done + s + Flatten(rest);
  }

  lemma {:induction false} PartitionFrom(p: Problem, greedy: bool, done: seq<nat>)
    requires p.Valid() && InDependencyOrder(p, done)
    ensures SoundFrom(p, done, Partition(p, greedy, done))
    decreases Unscheduled(p, done)
  {
    EmptyIsGrowing(p, done);
    var s := BuildSubset(p, greedy, done, []);
    PartitionUnfolds(p, greedy, done, s);
    if s == [] {
      EmptySubsetMeansStuck(p, greedy, done);
      assert done + Flatten([]) == done;
    } else {
      PartitionFrom(p, greedy, done + s);
      SoundCons(p, done, s, Partition(p, greedy, done + s));
    }
  }

  lemma EmptySubsetMeansStuck(p: Problem, greedy: bool, done: seq<nat>)
    requires p.Valid() && Growing(p, done, []) && BuildSubset(p, greedy, done, []) == []
    ensures forall n :: 0 <= n < p.Size() ==> !Ready(p, done, n)
  {
    assert done + [] == done;
    var s := Sweep(p, greedy, done, [], 0, false);
    if s.did {
      SweepKeepsGrowing(p, greedy, done, [], 0, false);
    } else {
      IdleSweep(p, greedy, done, [], 0);
      forall n | 0 <= n < p.Size() ensures !Ready(p, done, n) {
        assert !CanJoin(p, done, [], n);
      }
    }
  }

  /** Each node at most once, one kind per subset, every dependency before its dependent; and what is left is stuck. */
  lemma PartitionIsSound(p: Problem, greedy: bool)
    requires p.Valid()
    ensures var subsets := Partition(p, greedy, []);
            && Sound(p, subsets)
            && (forall n :: 0 <= n < p.Size() ==> !Ready(p, Flatten(subsets), n))
  {
    PartitionFrom(p, greedy, []);
    assert [] + Flatten(Partition(p, greedy, [])) == Flatten(Partition(p, greedy, []));
  }

  ghost predicate Complete(p: Problem, order: seq<nat>) {
    forall n :: 0 <= n < p.Size() ==> n in order
  }
}
