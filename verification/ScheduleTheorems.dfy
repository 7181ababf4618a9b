/** Completeness, order preservation and optimality of the partitioning algorithm. */
module ScheduleTheorems {
  import opened Schedule

  /* ---- Completeness: everything is scheduled exactly when there is no cycle ---- */

  /** Each node on the path is a dependency of the next one. */
  ghost predicate IsPath(p: Problem, c: seq<nat>) {
    && (forall i :: 0 <= i < |c| ==> c[i] < p.Size())
    && (forall i :: 0 <= i < |c| - 1 ==> c[i] in p.deps[c[i + 1]])
  }

  ghost predicate IsCycle(p: Problem, c: seq<nat>) {
    |c| >= 2 && IsPath(p, c) && c[0] == c[|c| - 1]
  }

  function Position(order: seq<nat>, n: nat): (i: nat)
    requires n in order
    ensures i < |order| && order[i] == n && n !in order[..i]
  {
    if order[0] == n then 0 else 1 + Position(order[1..], n)
  }

  lemma {:induction false} PositionIsLeast(order: seq<nat>, n: nat, j: nat)
    requires j < |order| && order[j] == n
    ensures Position(order, n) <= j
  {
    if order[0] != n {
      PositionIsLeast(order[1..], n, j - 1);
    }
  }

  /** Along a path the positions grow, so a complete order leaves no room for a cycle. */
  lemma {:induction false} PathGoesForward(p: Problem, order: seq<nat>, c: seq<nat>)
    requires p.Valid() && InDependencyOrder(p, order) && Complete(p, order)
    requires |c| >= 2 && IsPath(p, c)
    ensures Position(order, c[0]) < Position(order, c[|c| - 1])
    decreases |c|
  {
    var x, y := c[|c| - 2], c[|c| - 1];
    assert x in p.deps[y];
    var i := Position(order, y);
    assert Ready(p, order[..i], order[i]);
    assert x in order[..i];
    var j :| 0 <= j < i && order[j] == x;
    PositionIsLeast(order, x, j);
    if |c| > 2 {
      PathGoesForward(p, order, c[..|c| - 1]);
    }
  }

  lemma {:induction false} Pigeonhole(w: seq<nat>, s: set<nat>)
    requires forall i :: 0 <= i < |w| ==> w[i] in s
    requires forall i, j :: 0 <= i < j < |w| ==> w[i] != w[j]
    ensures |w| <= |s|
  {
    if w != [] {
      var last := w[|w| - 1];
      Pigeonhole(w[..|w| - 1], s - {last});
    }
  }

  lemma PrependToPath(p: Problem, d: nat, rest: seq<nat>)
    requires p.Valid() && IsPath(p, rest) && rest != [] && d in p.deps[rest[0]]
    ensures IsPath(p, [d] + rest)
  {
    var w := [d] + rest;
    forall i | 0 <= i < |w| - 1 ensures w[i] in p.deps[w[i + 1]] {
      assert w[i + 1] == rest[i];
      assert i > 0 ==> w[i] == rest[i - 1];
    }
  }

  /** `back` leads from every node of a stuck set to a dependency in the set. */
  ghost predicate LeadsBack(p: Problem, stuck: set<nat>, back: seq<nat>)
    requires p.Valid()
  {
    && |back| == p.Size()
    && (forall n :: n in stuck ==> n < p.Size())
    && forall n {:trigger back[n]} :: 0 <= n < |back| && n in stuck ==> back[n] in p.deps[n] && back[n] in stuck
  }

  /** Walking backwards inside a stuck set. */
  lemma {:induction false} WalkBack(p: Problem, stuck: set<nat>, back: seq<nat>, start: nat, steps: nat)
    returns (w: seq<nat>)
    requires p.Valid() && start in stuck && LeadsBack(p, stuck, back)
    ensures |w| == steps + 1 && IsPath(p, w)
    ensures forall i :: 0 <= i < |w| ==> w[i] in stuck
  {
    if steps == 0 {
      w := [start];
    } else {
      var rest := WalkBack(p, stuck, back, start, steps - 1);
      var d := back[rest[0]];
      PrependToPath(p, d, rest);
      w := [d] + rest;
    }
  }

  lemma SubpathIsCycle(p: Problem, w: seq<nat>, i: nat, j: nat)
    requires IsPath(p, w) && i < j < |w| && w[i] == w[j]
    ensures IsCycle(p, w[i..j + 1])
  {
    var c := w[i..j + 1];
    forall k | 0 <= k < |c| - 1 ensures c[k] in p.deps[c[k + 1]] {
      assert w[i + k] in p.deps[w[i + k + 1]];
    }
  }

  lemma StuckMeansCycle(p: Problem, order: seq<nat>) returns (c: seq<nat>)
    requires p.Valid() && !Complete(p, order)
    requires forall n :: 0 <= n < p.Size() ==> !Ready(p, order, n)
    ensures IsCycle(p, c)
  {
    var stuck := Unscheduled(p, order);
    var start :| 0 <= start < p.Size() && start !in order;
    var back: seq<nat> := [];
    while |back| < p.Size()
      invariant |back| <= p.Size()
      invariant forall n {:trigger back[n]} :: 0 <= n < |back| && n in stuck ==>
                  back[n] in p.deps[n] && back[n] in stuck
    {
      var d: nat := 0;
      if |back| in stuck {
        assert !Ready(p, order, |back|);
        d :| d in p.deps[|back|] && d !in order;
      }
      back := back + [d];
    }
    var w := WalkBack(p, stuck, back, start, |stuck|);
    if forall i, j :: 0 <= i < j < |w| ==> w[i] != w[j] {
      Pigeonhole(w, stuck);
      assert false;
    }
    var i, j :| 0 <= i < j < |w| && w[i] == w[j];
    SubpathIsCycle(p, w, i, j);
    c := w[i..j + 1];
  }

  /** In either mode every node is scheduled exactly when the dependencies have no cycle. */
  lemma CompleteIffAcyclic(p: Problem, greedy: bool)
    requires p.Valid()
    ensures Complete(p, Flatten(Partition(p, greedy, []))) <==> !exists c :: IsCycle(p, c)
  {
    PartitionIsSound(p, greedy);
    var order := Flatten(Partition(p, greedy, []));
    if Complete(p, order) {
      if c :| IsCycle(p, c) {
        PathGoesForward(p, order, c);
      }
    } else {
      var c := StuckMeansCycle(p, order);
    }
  }

  /* ---- Order preservation on dependency-ordered input ---- */

  /** Dependencies point backwards, so the given order is already executable. */
  ghost predicate Forward(p: Problem) {
    forall n :: 0 <= n < p.Size() ==> forall d :: d in p.deps[n] ==> d < n
  }

  function Range(lo: nat, hi: nat): (r: seq<nat>)
    requires lo <= hi
    ensures |r| == hi - lo && forall i :: 0 <= i < |r| ==> r[i] == lo + i
    decreases hi
  {
    if lo == hi then [] else Range(lo, hi - 1) + [hi - 1]
  }

  lemma InRange(lo: nat, hi: nat, x: nat)
    requires lo <= hi
    ensures x in Range(lo, hi) <==> lo <= x < hi
  {
    if lo <= x < hi {
      assert Range(lo, hi)[x - lo] == x;
    }
  }

  /** End of the maximal run of one kind that starts at `k`. */
  function RunEnd(p: Problem, k: nat, n: nat): (e: nat)
    requires p.Valid() && k < n <= p.Size()
    ensures n <= e <= p.Size()
    ensures forall i :: n <= i < e ==> p.kinds[i] == p.kinds[k]
    ensures e < p.Size() ==> p.kinds[e] != p.kinds[k]
    decreases p.Size() - n
  {
    if n < p.Size() && p.kinds[n] == p.kinds[k] then RunEnd(p, k, n + 1) else n
  }

  /** The maximal runs of one kind from `k` on, in the given order. */
  function Runs(p: Problem, k: nat): seq<seq<nat>>
    requires p.Valid() && k <= p.Size()
    decreases p.Size() - k
  {
    if k == p.Size() then [] else [Range(k, RunEnd(p, k, k + 1))] + Runs(p, RunEnd(p, k, k + 1))
  }

  function Singletons(p: Problem, k: nat): seq<seq<nat>>
    requires k <= p.Size()
    decreases p.Size() - k
  {
    if k == p.Size() then [] else [[k]] + Singletons(p, k + 1)
  }

  lemma RangesMeet(k: nat, e: nat, n: nat)
    requires k <= e <= n
    ensures Range(k, e) + Range(e, n) == Range(k, n)
  {
    var whole := Range(k, e) + Range(e, n);
    forall i | 0 <= i < n - k
      ensures whole[i] == Range(k, n)[i]
    {
      assert whole[i] == if i < e - k then Range(k, e)[i] else Range(e, n)[i - (e - k)];
    }
  }

  lemma PrefixReadiness(p: Problem, k: nat, n: nat, m: nat)
    requires p.Valid() && Forward(p) && k <= n <= p.Size() && m < p.Size()
    ensures Range(0, k) + Range(k, n) == Range(0, n)
    ensures m < n ==> !Ready(p, Range(0, n), m)
    ensures m == n ==> Ready(p, Range(0, n), m)
  {
    hide Range;
    RangesMeet(0, k, n);
    InRange(0, n, m);
    forall d | d in p.deps[m]
      ensures m == n ==> d in Range(0, n)
    {
      InRange(0, n, d);
    }
  }

  /** A sweep over nodes that are done does nothing. */
  lemma {:induction false} SweepSkipsDone(p: Problem, greedy: bool, k: nat, n: nat, m: nat)
    requires p.Valid() && Forward(p) && k <= n <= p.Size() && m <= n
    requires greedy || k == n
    ensures Sweep(p, greedy, Range(0, k), Range(k, n), m, false) == Sweep(p, greedy, Range(0, k), Range(k, n), n, false)
    decreases n - m
  {
    if m < n {
      PrefixReadiness(p, k, n, m);
      SweepSkipsDone(p, greedy, k, n, m + 1);
    }
  }

  /** From the first hit on, a non-greedy sweep takes the rest of the run and stops. */
  lemma {:induction false} SweepTakesRun(p: Problem, k: nat, n: nat)
    requires p.Valid() && Forward(p) && p.fuse && k < n <= p.Size()
    requires forall i :: k <= i < n ==> p.kinds[i] == p.kinds[k]
    ensures var e := RunEnd(p, k, n);
            Sweep(p, false, Range(0, k), Range(k, n), n, true) == SweepResult(Range(k, e), true, e < p.Size())
    decreases p.Size() - n
  {
    if n < p.Size() {
      PrefixReadiness(p, k, n, n);
      if p.kinds[n] == p.kinds[k] {
        assert Range(k, n) + [n] == Range(k, n + 1);
        SweepTakesRun(p, k, n + 1);
      }
    }
  }

  /** After a sweep that reached the last node nothing is left. */
  lemma {:induction false} SweepAfterAll(p: Problem, greedy: bool, k: nat, m: nat)
    requires p.Valid() && Forward(p) && k <= p.Size() && m <= p.Size()
    ensures Sweep(p, greedy, Range(0, k), Range(k, p.Size()), m, false) == SweepResult(Range(k, p.Size()), false, false)
    decreases p.Size() - m
  {
    if m < p.Size() {
      PrefixReadiness(p, k, p.Size(), m);
      SweepAfterAll(p, greedy, k, m + 1);
    }
  }

  lemma SweepFindsRun(p: Problem, k: nat)
    requires p.Valid() && Forward(p) && p.fuse && k < p.Size()
    ensures var e := RunEnd(p, k, k + 1);
            Sweep(p, false, Range(0, k), [], 0, false) == SweepResult(Range(k, e), true, e < p.Size())
  {
    var empty := Range(k, k);
    SweepSkipsDone(p, false, k, k, 0);
    PrefixReadiness(p, k, k, k);
    assert CanJoin(p, Range(0, k), empty, k);
    assert empty + [k] == Range(k, k + 1);
    SweepTakesRun(p, k, k + 1);
  }

  lemma RunIsOneSubset(p: Problem, k: nat)
    requires p.Valid() && Forward(p) && p.fuse && k < p.Size()
    requires Growing(p, Range(0, k), [])
    ensures BuildSubset(p, false, Range(0, k), []) == Range(k, RunEnd(p, k, k + 1))
  {
    var done, e := Range(0, k), RunEnd(p, k, k + 1);
    var run := Range(k, e);
    SweepFindsRun(p, k);
    BuildSubsetUnfolds(p, false, done, [], SweepResult(run, true, e < p.Size()));
    if e == p.Size() {
      SweepAfterAll(p, false, k, 0);
      BuildSubsetUnfolds(p, false, done, run, SweepResult(run, false, false));
    }
  }

  lemma RunStep(p: Problem, k: nat)
    requires p.Valid() && Forward(p) && p.fuse && k < p.Size()
    requires InDependencyOrder(p, Range(0, k))
    ensures var e := RunEnd(p, k, k + 1);
            && InDependencyOrder(p, Range(0, e))
            && Partition(p, false, Range(0, k)) == [Range(k, e)] + Partition(p, false, Range(0, e))
  {
    var e := RunEnd(p, k, k + 1);
    EmptyIsGrowing(p, Range(0, k));
    RunIsOneSubset(p, k);
    PartitionUnfolds(p, false, Range(0, k), Range(k, e));
    RangesMeet(0, k, e);
  }

  lemma NothingLeft(p: Problem, greedy: bool)
    requires p.Valid() && Forward(p) && InDependencyOrder(p, Range(0, p.Size()))
    ensures Partition(p, greedy, Range(0, p.Size())) == []
  {
    var done, empty := Range(0, p.Size()), Range(p.Size(), p.Size());
    EmptyIsGrowing(p, done);
    SweepAfterAll(p, greedy, p.Size(), 0);
    BuildSubsetUnfolds(p, greedy, done, empty, SweepResult(empty, false, false));
    PartitionUnfolds(p, greedy, done, []);
  }

  /** Non-greedy partitioning of dependency-ordered input returns its maximal runs of one kind. */
  lemma {:induction false} NonGreedyKeepsOrder(p: Problem, k: nat)
    requires p.Valid() && Forward(p) && p.fuse && k <= p.Size()
    requires InDependencyOrder(p, Range(0, k))
    ensures Partition(p, false, Range(0, k)) == Runs(p, k)
    decreases p.Size() - k
  {
    if k == p.Size() {
      NothingLeft(p, false);
    } else {
      RunStep(p, k);
      NonGreedyKeepsOrder(p, RunEnd(p, k, k + 1));
    }
  }

  lemma {:induction false} SweepUnfusedIdle(p: Problem, greedy: bool, k: nat, m: nat)
    requires p.Valid() && !p.fuse && k < p.Size() && m <= p.Size()
    ensures Sweep(p, greedy, Range(0, k), [k], m, true) == SweepResult([k], true, m < p.Size() && !greedy)
    ensures Sweep(p, greedy, Range(0, k), [k], m, false) == SweepResult([k], false, false)
    decreases p.Size() - m
  {
    if m < p.Size() {
      SweepUnfusedIdle(p, greedy, k, m + 1);
    }
  }

  lemma NodeIsOneSubset(p: Problem, greedy: bool, k: nat)
    requires p.Valid() && Forward(p) && !p.fuse && k < p.Size()
    requires Growing(p, Range(0, k), [])
    ensures BuildSubset(p, greedy, Range(0, k), []) == [k]
  {
    var done, empty := Range(0, k), Range(k, k);
    SweepSkipsDone(p, greedy, k, k, 0);
    PrefixReadiness(p, k, k, k);
    assert CanJoin(p, done, empty, k) && empty + [k] == [k];
    SweepUnfusedIdle(p, greedy, k, k + 1);
    SweepUnfusedIdle(p, greedy, k, 0);
    BuildSubsetUnfolds(p, greedy, done, [], Sweep(p, greedy, done, [], 0, false));
    BuildSubsetUnfolds(p, greedy, done, [k], SweepResult([k], false, false));
  }

  lemma NodeStep(p: Problem, greedy: bool, k: nat)
    requires p.Valid() && Forward(p) && !p.fuse && k < p.Size()
    requires InDependencyOrder(p, Range(0, k))
    ensures InDependencyOrder(p, Range(0, k + 1))
    ensures Partition(p, greedy, Range(0, k)) == [[k]] + Partition(p, greedy, Range(0, k + 1))
  {
    EmptyIsGrowing(p, Range(0, k));
    NodeIsOneSubset(p, greedy, k);
    PartitionUnfolds(p, greedy, Range(0, k), [k]);
    assert Range(0, k) + [k] == Range(0, k + 1);
  }

  /** Without fusion dependency-ordered input comes back node by node, in either mode. */
  lemma {:induction false} UnfusedKeepsOrder(p: Problem, greedy: bool, k: nat)
    requires p.Valid() && Forward(p) && !p.fuse && k <= p.Size()
    requires InDependencyOrder(p, Range(0, k))
    ensures Partition(p, greedy, Range(0, k)) == Singletons(p, k)
    decreases p.Size() - k
  {
    if k == p.Size() {
      NothingLeft(p, greedy);
    } else {
      NodeStep(p, greedy, k);
      UnfusedKeepsOrder(p, greedy, k + 1);
    }
  }

  lemma FlattenCons(s: seq<nat>, rest: seq<seq<nat>>)
    ensures Flatten([s] + rest) == s + Flatten(rest)
  {
    assert ([s] + rest)[1..] == rest;
  }

  /** The runs list the nodes in the given order. */
  lemma {:induction false} RunsFlatten(p: Problem, k: nat)
    requires p.Valid() && k <= p.Size()
    ensures Flatten(Runs(p, k)) == Range(k, p.Size())
    decreases p.Size() - k
  {
    if k < p.Size() {
      var e := RunEnd(p, k, k + 1);
      RunsFlatten(p, e);
      FlattenCons(Range(k, e), Runs(p, e));
      RangesMeet(k, e, p.Size());
    }
  }

  lemma {:induction false} SingletonsFlatten(p: Problem, k: nat)
    requires k <= p.Size()
    ensures Flatten(Singletons(p, k)) == Range(k, p.Size())
    decreases p.Size() - k
  {
    if k < p.Size() {
      SingletonsFlatten(p, k + 1);
      FlattenCons([k], Singletons(p, k + 1));
      RangesMeet(k, k + 1, p.Size());
      assert Range(k, k + 1) == [k];
    }
  }
}
