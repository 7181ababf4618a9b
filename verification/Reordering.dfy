/**
 * What running a graph means, for arbitrary node functions, and why two orders that keep every
 * two nodes that depend on each other in sequence mean the same.
 */
module Reordering {
  import opened Common
  import opened GraphInfo

  /**
   * Node functions: `compute(n, inputs, world, j)` is output `j` of node `n`, `affect(n, inputs,
   * world)` is the state of the world after it, and if `updates(n, t)`, node `n` leaves
   * `update(n, inputs, world, t)` in the variable tensor `t` among its inputs. Only nodes that may
   * have side effects see the world and change it.
   */
  datatype Kernels<!V, !W> = Kernels(
    compute: (nat, seq<Option<V>>, Option<W>, nat) -> V,
    affect: (nat, seq<Option<V>>, W) -> W,
    updates: (nat, int) -> bool,
    update: (nat, seq<Option<V>>, Option<W>, int) -> V)

  /** A side effect: the node and the values it was given. */
  datatype Event<V> = Event(node: nat, inputs: seq<Option<V>>)

  datatype Machine<V, W> = Machine(tensors: seq<V>, world: W, trace: seq<Event<V>>)

  function ReadInputs<V>(inputs: seq<int>, tensors: seq<V>): (r: seq<Option<V>>)
    ensures |r| == |inputs|
  {
    seq(|inputs|, j requires 0 <= j < |inputs| =>
      if 0 <= inputs[j] < |tensors| then Some(tensors[inputs[j]]) else None)
  }

  /** Stores the outputs from position `j` on. */
  function WriteOutputs<V>(outputs: seq<int>, j: nat, value: nat -> V, tensors: seq<V>): (r: seq<V>)
    requires j <= |outputs|
    ensures |r| == |tensors|
    decreases |outputs| - j
  {
    if j == |outputs| then tensors
    else if 0 <= outputs[j] < |tensors| then WriteOutputs(outputs, j + 1, value, tensors[outputs[j] := value(j)])
    else WriteOutputs(outputs, j + 1, value, tensors)
  }

  /** The tensors after node `n`: its outputs, and the variables it updates, are new. */
  function Written<V, W>(
    g: Graph, k: Kernels<V, W>, n: nat, world: Option<W>, inputs: seq<Option<V>>, tensors: seq<V>): (r: seq<V>)
    requires n < |g.nodes|
    ensures |r| == |tensors|
  {
    var outputs := WriteOutputs(g.nodes[n].outputs, 0, j => k.compute(n, inputs, world, j), tensors);
    seq(|tensors|, t requires 0 <= t < |tensors| =>
      if Updates(g, k.updates, n, t) then k.update(n, inputs, world, t) else outputs[t])
  }

  function InputsOf<V>(g: Graph, n: nat, tensors: seq<V>): seq<Option<V>>
    requires n < |g.nodes|
  {
    ReadInputs(g.nodes[n].inputs, tensors)
  }

  /** Runs one node. */
  function Execute<V, W>(g: Graph, k: Kernels<V, W>, n: nat, m: Machine<V, W>): Machine<V, W>
    requires n < |g.nodes|
  {
    var inputs := InputsOf(g, n, m.tensors);
    if g.nodes[n].mightHaveSideEffect then
      Machine(Written(g, k, n, Some(m.world), inputs, m.tensors), k.affect(n, inputs, m.world),
              m.trace + [Event(n, inputs)])
    else
      m.(tensors := Written(g, k, n, None, inputs, m.tensors))
  }

  ghost predicate InPlan(g: Graph, order: seq<nat>) {
    forall i :: 0 <= i < |order| ==> order[i] < |g.nodes|
  }

  /** Runs the nodes of `order` one after the other. */
  ghost function RunAll<V, W>(g: Graph, k: Kernels<V, W>, order: seq<nat>, m: Machine<V, W>): Machine<V, W>
    requires InPlan(g, order)
  {
    if order == [] then m
    else Execute(g, k, order[|order| - 1], RunAll(g, k, order[..|order| - 1], m))
  }

  /** The nodes with side effects, in the order they run. */
  ghost function Effects(g: Graph, order: seq<nat>): seq<nat>
    requires InPlan(g, order)
  {
    if order == [] then []
    else
      var last := order[|order| - 1];
      Effects(g, order[..|order| - 1]) + if g.nodes[last].mightHaveSideEffect then [last] else []
  }

  /* ---- Writing ---- */

  lemma {:induction false} WriteFrame<V>(outputs: seq<int>, j: nat, value: nat -> V, tensors: seq<V>, t: nat)
    requires j <= |outputs| && t < |tensors| && t !in outputs[j..]
    ensures WriteOutputs(outputs, j, value, tensors)[t] == tensors[t]
    decreases |outputs| - j
  {
    if j < |outputs| {
      assert outputs[j] == outputs[j..][0] && outputs[j + 1..] == outputs[j..][1..];
      var next := if 0 <= outputs[j] < |tensors| then tensors[outputs[j] := value(j)] else tensors;
      WriteFrame(outputs, j + 1, value, next, t);
    }
  }

  /** What is written does not depend on what was there. */
  lemma {:induction false} WriteAgrees<V>(outputs: seq<int>, j: nat, value: nat -> V, a: seq<V>, b: seq<V>, t: nat)
    requires j <= |outputs| && |a| == |b| && t < |a| && (t in outputs[j..] || a[t] == b[t])
    ensures WriteOutputs(outputs, j, value, a)[t] == WriteOutputs(outputs, j, value, b)[t]
    decreases |outputs| - j
  {
    if j < |outputs| {
      assert outputs[j..] == [outputs[j]] + outputs[j + 1..];
      var a' := if 0 <= outputs[j] < |a| then a[outputs[j] := value(j)] else a;
      var b' := if 0 <= outputs[j] < |b| then b[outputs[j] := value(j)] else b;
      WriteAgrees(outputs, j + 1, value, a', b', t);
    }
  }

  /** A node leaves what it does not change alone, and what it writes does not depend on what was there. */
  lemma WrittenAt<V, W>(
    g: Graph, k: Kernels<V, W>, n: nat, world: Option<W>, inputs: seq<Option<V>>, a: seq<V>, b: seq<V>, t: nat)
    requires n < |g.nodes| && |a| == |b| && t < |a|
    ensures if Changes(g, k.updates, n, t)
            then Written(g, k, n, world, inputs, a)[t] == Written(g, k, n, world, inputs, b)[t]
            else Written(g, k, n, world, inputs, a)[t] == a[t]
  {
    var outputs := g.nodes[n].outputs;
    assert outputs[0..] == outputs;
    var value := (j: nat) => k.compute(n, inputs, world, j);
    if g.Produces(n, t) {
      WriteAgrees(outputs, 0, value, a, b, t);
    } else {
      WriteFrame(outputs, 0, value, a, t);
    }
  }

  /* ---- Nodes that depend on each other ---- */

  /** Running node `n` makes a difference to anything. */
  ghost predicate Visible(g: Graph, updates: (nat, int) -> bool, n: nat)
    requires n < |g.nodes|
  {
    g.nodes[n].mightHaveSideEffect || exists t :: Changes(g, updates, n, t)
  }

  /** Node `m` updates a variable that the visible node `n` reads. */
  ghost predicate Clash(g: Graph, updates: (nat, int) -> bool, m: nat, n: nat)
    requires m < |g.nodes| && n < |g.nodes|
  {
    m != n && Visible(g, updates, n) && exists v :: Updates(g, updates, m, v) && g.Reads(n, v)
  }

  ghost predicate Conflict(g: Graph, updates: (nat, int) -> bool, m: nat, n: nat)
    requires m < |g.nodes| && n < |g.nodes|
  {
    Clash(g, updates, m, n) || Clash(g, updates, n, m)
  }

  ghost predicate Independent(g: Graph, updates: (nat, int) -> bool, m: nat, n: nat)
    requires m < |g.nodes| && n < |g.nodes|
  {
    && m != n && !g.Feeds(m, n) && !g.Feeds(n, m) && !Conflict(g, updates, m, n)
    && !(g.nodes[m].mightHaveSideEffect && g.nodes[n].mightHaveSideEffect)
  }

  /** An invisible node does nothing. */
  lemma InvisibleDoesNothing<V, W>(g: Graph, k: Kernels<V, W>, n: nat, s: Machine<V, W>)
    requires n < |g.nodes| && !Visible(g, k.updates, n)
    ensures Execute(g, k, n, s) == s
  {
    var inputs := InputsOf(g, n, s.tensors);
    forall t: nat | t < |s.tensors|
      ensures Written(g, k, n, None, inputs, s.tensors)[t] == s.tensors[t]
    {
      WrittenAt(g, k, n, None, inputs, s.tensors, s.tensors, t);
    }
  }

  /** A node does not see what an independent one has done. */
  lemma InputsUnchanged<V, W>(g: Graph, k: Kernels<V, W>, m: nat, n: nat, s: Machine<V, W>)
    requires m < |g.nodes| && n < |g.nodes| && Independent(g, k.updates, m, n) && Visible(g, k.updates, n)
    ensures InputsOf(g, n, Execute(g, k, m, s).tensors) == InputsOf(g, n, s.tensors)
  {
    var after := Execute(g, k, m, s).tensors;
    var inputs := g.nodes[n].inputs;
    forall i | 0 <= i < |inputs|
      ensures InputsOf(g, n, after)[i] == InputsOf(g, n, s.tensors)[i]
    {
      if 0 <= inputs[i] < |s.tensors| {
        assert inputs[i] in inputs;
        assert g.Reads(n, inputs[i]);
        assert !Changes(g, k.updates, m, inputs[i]);
        WrittenAt(g, k, m, if g.nodes[m].mightHaveSideEffect then Some(s.world) else None, InputsOf(g, m, s.tensors),
                  s.tensors, s.tensors, inputs[i]);
      }
    }
  }

  /** Independent nodes can change places. */
  lemma Commute<V, W>(g: Graph, k: Kernels<V, W>, m: nat, n: nat, s: Machine<V, W>)
    requires g.UniqueProducers() && m < |g.nodes| && n < |g.nodes| && Independent(g, k.updates, m, n)
    ensures Execute(g, k, m, Execute(g, k, n, s)) == Execute(g, k, n, Execute(g, k, m, s))
  {
    if !Visible(g, k.updates, m) {
      InvisibleDoesNothing(g, k, m, s);
      InvisibleDoesNothing(g, k, m, Execute(g, k, n, s));
    } else if !Visible(g, k.updates, n) {
      InvisibleDoesNothing(g, k, n, s);
      InvisibleDoesNothing(g, k, n, Execute(g, k, m, s));
    } else {
      InputsUnchanged(g, k, m, n, s);
      InputsUnchanged(g, k, n, m, s);
      ChangesApart(g, k.updates, m, n);
      var world := if g.nodes[m].mightHaveSideEffect then Some(s.world) else None;
      var world' := if g.nodes[n].mightHaveSideEffect then Some(s.world) else None;
      WritesCommute(g, k, m, n, world, world', InputsOf(g, m, s.tensors), InputsOf(g, n, s.tensors), s.tensors);
    }
  }

  /** Independent visible nodes change different tensors. */
  lemma ChangesApart(g: Graph, updates: (nat, int) -> bool, m: nat, n: nat)
    requires g.UniqueProducers() && m < |g.nodes| && n < |g.nodes| && Independent(g, updates, m, n)
    requires Visible(g, updates, m) && Visible(g, updates, n)
    ensures forall t :: !(Changes(g, updates, m, t) && Changes(g, updates, n, t))
  {
    forall t | Changes(g, updates, m, t)
      ensures !Changes(g, updates, n, t)
    {
    }
  }

  lemma WritesCommute<V, W>(
    g: Graph, k: Kernels<V, W>, m: nat, n: nat, world: Option<W>, world': Option<W>, ins: seq<Option<V>>,
    ins': seq<Option<V>>, tensors: seq<V>)
    requires m < |g.nodes| && n < |g.nodes|
    requires forall t :: !(Changes(g, k.updates, m, t) && Changes(g, k.updates, n, t))
    ensures Written(g, k, m, world, ins, Written(g, k, n, world', ins', tensors))
            == Written(g, k, n, world', ins', Written(g, k, m, world, ins, tensors))
  {
    hide Written;
    var first, second := Written(g, k, m, world, ins, tensors), Written(g, k, n, world', ins', tensors);
    forall t: nat | t < |tensors|
      ensures Written(g, k, m, world, ins, second)[t] == Written(g, k, n, world', ins', first)[t]
    {
      WrittenAt(g, k, m, world, ins, second, tensors, t);
      WrittenAt(g, k, m, world, ins, tensors, tensors, t);
      WrittenAt(g, k, n, world', ins', first, tensors, t);
      WrittenAt(g, k, n, world', ins', tensors, tensors, t);
    }
  }

  /* ---- Orders that agree on dependent nodes ---- */

  ghost predicate Distinct(s: seq<nat>) {
    forall i, j :: 0 <= i < j < |s| ==> s[i] != s[j]
  }

  /** Two nodes that the orders run in opposite sequence are independent. */
  ghost predicate Agree(g: Graph, updates: (nat, int) -> bool, a: seq<nat>, b: seq<nat>)
    requires InPlan(g, a) && InPlan(g, b)
  {
    forall i, j, p, q :: 0 <= i < j < |a| && 0 <= p < q < |b| && a[i] == b[q] && a[j] == b[p] ==>
      Independent(g, updates, a[i], a[j])
  }

  lemma RunAppend<V, W>(g: Graph, k: Kernels<V, W>, order: seq<nat>, x: nat, start: Machine<V, W>)
    requires InPlan(g, order) && x < |g.nodes|
    ensures InPlan(g, order + [x]) && RunAll(g, k, order + [x], start) == Execute(g, k, x, RunAll(g, k, order, start))
  {
    assert (order + [x])[..|order|] == order;
  }

  /** A node that all later ones are independent of can run last. */
  lemma {:induction false} MoveToEnd<V, W>(
    g: Graph, k: Kernels<V, W>, before: seq<nat>, x: nat, later: seq<nat>, start: Machine<V, W>)
    requires g.UniqueProducers() && InPlan(g, before) && InPlan(g, later) && x < |g.nodes|
    requires forall i :: 0 <= i < |later| ==> Independent(g, k.updates, x, later[i])
    ensures InPlan(g, before + [x] + later) && InPlan(g, before + later)
    ensures RunAll(g, k, before + [x] + later, start) == Execute(g, k, x, RunAll(g, k, before + later, start))
  {
    hide RunAll, Execute, Independent;
    if later == [] {
      assert before + [x] + later == before + [x] && before + later == before;
      RunAppend(g, k, before, x, start);
    } else {
      var y, rest := later[|later| - 1], later[..|later| - 1];
      MoveToEnd(g, k, before, x, rest, start);
      assert before + [x] + later == (before + [x] + rest) + [y];
      assert before + later == (before + rest) + [y];
      RunAppend(g, k, before + [x] + rest, y, start);
      RunAppend(g, k, before + rest, y, start);
      IndependentBothWays(g, k.updates, x, y);
      Commute(g, k, y, x, RunAll(g, k, before + rest, start));
    }
  }

  /** Orders of the same nodes that agree on dependent ones mean the same. */
  lemma {:induction false} SameOrderSameRun<V, W>(
    g: Graph, k: Kernels<V, W>, a: seq<nat>, b: seq<nat>, start: Machine<V, W>)
    requires g.UniqueProducers() && InPlan(g, a) && InPlan(g, b) && Distinct(a) && Distinct(b)
    requires (forall n :: n in a <==> n in b) && Agree(g, k.updates, a, b)
    ensures RunAll(g, k, a, start) == RunAll(g, k, b, start)
  {
    hide Independent, Execute, RunAll, Agree, Distinct;
    if b != [] {
      assert b[0] in b;
    }
    if a != [] {
      var last := |a| - 1;
      assert a[last] in b;
      var p :| 0 <= p < |b| && b[p] == a[last];
      var first, later := a[..last], b[p + 1..];
      var rest := b[..p] + later;
      LastTakenOut(g, k.updates, a, b, p);
      LaterIsIndependent(g, k.updates, a, b, p, later);
      SameOrderSameRun(g, k, first, rest, start);
      LastPutBack(g, k, first, b[..p], a[last], later, start);
      assert b == b[..p] + [a[last]] + later && a == first + [a[last]];
    }
  }

  lemma LastPutBack<V, W>(
    g: Graph, k: Kernels<V, W>, first: seq<nat>, before: seq<nat>, x: nat, later: seq<nat>, start: Machine<V, W>)
    requires g.UniqueProducers() && InPlan(g, first) && InPlan(g, before) && InPlan(g, later) && x < |g.nodes|
    requires InPlan(g, before + later) && RunAll(g, k, first, start) == RunAll(g, k, before + later, start)
    requires forall i :: 0 <= i < |later| ==> Independent(g, k.updates, x, later[i])
    ensures InPlan(g, first + [x]) && InPlan(g, before + [x] + later)
    ensures RunAll(g, k, first + [x], start) == RunAll(g, k, before + [x] + later, start)
  {
    hide Independent, Execute, RunAll;
    MoveToEnd(g, k, before, x, later, start);
    RunAppend(g, k, first, x, start);
  }

  /** What `b` runs after the last node of `a` is independent of it. */
  lemma LaterIsIndependent(
    g: Graph, updates: (nat, int) -> bool, a: seq<nat>, b: seq<nat>, p: nat, later: seq<nat>)
    requires InPlan(g, a) && InPlan(g, b) && Distinct(b) && (forall n :: n in a <==> n in b)
    requires Agree(g, updates, a, b) && a != [] && p < |b| && b[p] == a[|a| - 1] && later == b[p + 1..]
    ensures forall i :: 0 <= i < |later| ==>
              later[i] < |g.nodes| && Independent(g, updates, a[|a| - 1], later[i])
  {
    hide Independent;
    var last := |a| - 1;
    forall i | 0 <= i < |later|
      ensures later[i] < |g.nodes| && Independent(g, updates, a[last], later[i])
    {
      var q := p + 1 + i;
      assert b[q] in a;
      var j :| 0 <= j < |a| && a[j] == b[q];
      IndependentBothWays(g, updates, a[j], a[last]);
    }
  }

  lemma IndependentBothWays(g: Graph, updates: (nat, int) -> bool, m: nat, n: nat)
    requires m < |g.nodes| && n < |g.nodes|
    ensures Independent(g, updates, m, n) <==> Independent(g, updates, n, m)
  {
  }

  lemma TakenOut(b: seq<nat>, p: nat)
    requires p < |b|
    ensures var rest := b[..p] + b[p + 1..];
            |rest| == |b| - 1 && forall i :: 0 <= i < |rest| ==> rest[i] == b[if i < p then i else i + 1]
  {
  }

  lemma SameRest(a: seq<nat>, b: seq<nat>, p: nat, first: seq<nat>, rest: seq<nat>)
    requires Distinct(a) && Distinct(b) && (forall n :: n in a <==> n in b)
    requires a != [] && p < |b| && b[p] == a[|a| - 1]
    requires first == a[..|a| - 1] && rest == b[..p] + b[p + 1..]
    ensures forall n :: n in first <==> n in rest
  {
    var last := |a| - 1;
    TakenOut(b, p);
    forall n
      ensures n in first <==> n in rest
    {
      if n in first {
        var j :| 0 <= j < last && a[j] == n;
        assert n in b;
        var q :| 0 <= q < |b| && b[q] == n;
        assert rest[if q < p then q else q - 1] == n;
      }
      if n in rest {
        var i :| 0 <= i < |rest| && rest[i] == n;
        assert b[if i < p then i else i + 1] in a;
        var j :| 0 <= j < |a| && a[j] == n;
        assert first[j] == n;
      }
    }
  }

  lemma LastTakenOut(g: Graph, updates: (nat, int) -> bool, a: seq<nat>, b: seq<nat>, p: nat)
    requires InPlan(g, a) && InPlan(g, b) && Distinct(a) && Distinct(b) && (forall n :: n in a <==> n in b)
    requires Agree(g, updates, a, b) && a != [] && p < |b| && b[p] == a[|a| - 1]
    ensures var first, rest := a[..|a| - 1], b[..p] + b[p + 1..];
            && InPlan(g, first) && InPlan(g, rest) && Distinct(first) && Distinct(rest)
            && (forall n :: n in first <==> n in rest) && Agree(g, updates, first, rest)
  {
    hide Independent;
    var first, rest := a[..|a| - 1], b[..p] + b[p + 1..];
    TakenOut(b, p);
    SameRest(a, b, p, first, rest);
    forall i, j, q, r | 0 <= i < j < |first| && 0 <= q < r < |rest| && first[i] == rest[r] && first[j] == rest[q]
      ensures Independent(g, updates, first[i], first[j])
    {
      var q', r' := if q < p then q else q + 1, if r < p then r else r + 1;
      assert a[i] == b[r'] && a[j] == b[q'];
    }
  }

  /* ---- Data dependencies and side effects ---- */

  /** Every node occurs once, after all nodes that compute its inputs. */
  ghost predicate RespectsData(g: Graph, order: seq<nat>) {
    forall i :: 0 <= i < |order| ==>
      && order[i] < |g.nodes| && order[i] !in order[..i]
      && forall m :: 0 <= m < |g.nodes| && g.Feeds(m, order[i]) ==> m in order[..i]
  }

  /** Every node of the plan occurs. */
  ghost predicate Covers(g: Graph, order: seq<nat>) {
    forall n :: 0 <= n < |g.nodes| ==> n in order
  }

  lemma RespectsIsDistinct(g: Graph, order: seq<nat>)
    requires RespectsData(g, order)
    ensures Distinct(order)
  {
    forall i, j | 0 <= i < j < |order|
      ensures order[i] != order[j]
    {
      assert order[..j][i] == order[i];
    }
  }

  lemma PrefixRespectsData(g: Graph, order: seq<nat>)
    requires RespectsData(g, order) && order != []
    ensures RespectsData(g, order[..|order| - 1])
  {
    var p := order[..|order| - 1];
    forall i | 0 <= i < |p|
      ensures p[i] < |g.nodes| && p[i] !in p[..i]
      ensures forall m :: 0 <= m < |g.nodes| && g.Feeds(m, p[i]) ==> m in p[..i]
    {
      assert p[..i] == order[..i];
    }
  }

  lemma {:induction false} EffectsHas(g: Graph, order: seq<nat>, n: nat)
    requires InPlan(g, order)
    ensures n in Effects(g, order) <==> n in order && n < |g.nodes| && g.nodes[n].mightHaveSideEffect
  {
    if order != [] {
      assert order == order[..|order| - 1] + [order[|order| - 1]];
      EffectsHas(g, order[..|order| - 1], n);
    }
  }

  lemma EffectsInPlan(g: Graph, order: seq<nat>)
    requires InPlan(g, order)
    ensures InPlan(g, Effects(g, order))
  {
    forall i | 0 <= i < |Effects(g, order)|
      ensures Effects(g, order)[i] < |g.nodes|
    {
      EffectsHas(g, order, Effects(g, order)[i]);
    }
  }

  lemma {:induction false} EffectsDistinct(g: Graph, order: seq<nat>)
    requires RespectsData(g, order)
    ensures Distinct(Effects(g, order))
  {
    if order != [] {
      PrefixRespectsData(g, order);
      EffectsDistinct(g, order[..|order| - 1]);
      EffectsHas(g, order[..|order| - 1], order[|order| - 1]);
    }
  }

  /** The effects of the first nodes come first. */
  lemma {:induction false} EffectsPrefix(g: Graph, order: seq<nat>, j: nat)
    requires InPlan(g, order) && j <= |order|
    ensures Effects(g, order[..j]) <= Effects(g, order)
  {
    if j < |order| {
      EffectsPrefix(g, order[..|order| - 1], j);
      assert order[..|order| - 1][..j] == order[..j];
    } else {
      assert order[..j] == order;
    }
  }

  /** Two nodes with side effects stand in the sequence of effects as they do in the order. */
  lemma EffectsInOrder(g: Graph, order: seq<nat>, i: nat, j: nat) returns (e: nat, f: nat)
    requires RespectsData(g, order) && i < j < |order|
    requires g.nodes[order[i]].mightHaveSideEffect && g.nodes[order[j]].mightHaveSideEffect
    ensures e < f < |Effects(g, order)| && Effects(g, order)[e] == order[i] && Effects(g, order)[f] == order[j]
  {
    RespectsIsDistinct(g, order);
    EffectsPrefix(g, order, j);
    EffectsHas(g, order[..j], order[i]);
    EffectsHas(g, order[..j], order[j]);
    EffectsHas(g, order, order[j]);
    assert order[..j][i] == order[i];
    e :| 0 <= e < |Effects(g, order[..j])| && Effects(g, order[..j])[e] == order[i];
    f :| 0 <= f < |Effects(g, order)| && Effects(g, order)[f] == order[j];
  }

  /** Two nodes that the orders run in opposite sequence are in no conflict over a variable. */
  ghost predicate ConflictsAgree(g: Graph, updates: (nat, int) -> bool, a: seq<nat>, b: seq<nat>)
    requires InPlan(g, a) && InPlan(g, b)
  {
    forall i, j, p, q :: 0 <= i < j < |a| && 0 <= p < q < |b| && a[i] == b[q] && a[j] == b[p] ==>
      !Conflict(g, updates, a[i], a[j])
  }

  /**
   * Meaning preservation: two orders that run every node once after its inputs, with the same
   * sequence of side-effect nodes, and with the same sequence of any two nodes one of which updates
   * a variable the other reads, give every tensor the same value and cause the same effects with
   * the same values, for arbitrary node functions and any start.
   */
  lemma SameMeaning<V, W>(g: Graph, k: Kernels<V, W>, a: seq<nat>, b: seq<nat>, start: Machine<V, W>)
    requires g.UniqueProducers()
    requires RespectsData(g, a) && Covers(g, a) && RespectsData(g, b) && Covers(g, b)
    requires Effects(g, a) == Effects(g, b) && ConflictsAgree(g, k.updates, a, b)
    ensures RunAll(g, k, a, start) == RunAll(g, k, b, start)
  {
    RespectsIsDistinct(g, a);
    RespectsIsDistinct(g, b);
    EffectsDistinct(g, a);
    forall i, j, p, q | 0 <= i < j < |a| && 0 <= p < q < |b| && a[i] == b[q] && a[j] == b[p]
      ensures Independent(g, k.updates, a[i], a[j])
    {
      DataInOrder(g, a, i, j);
      DataInOrder(g, b, p, q);
      if g.nodes[a[i]].mightHaveSideEffect && g.nodes[a[j]].mightHaveSideEffect {
        var e, f := EffectsInOrder(g, a, i, j);
        var e', f' := EffectsInOrder(g, b, p, q);
      }
    }
    SameOrderSameRun(g, k, a, b, start);
  }

  /** A later node computes no input of an earlier one. */
  lemma DataInOrder(g: Graph, order: seq<nat>, i: nat, j: nat)
    requires RespectsData(g, order) && i < j < |order|
    ensures !g.Feeds(order[j], order[i])
  {
    RespectsIsDistinct(g, order);
    assert order[j] !in order[..i];
  }

  /* ---- Kernels that do not look at the world ---- */

  /** Nothing in the tensors depends on the world. */
  ghost predicate IgnoresWorld<V(!new), W(!new)>(k: Kernels<V, W>) {
    && (forall n, inputs, world, j :: k.compute(n, inputs, Some(world), j) == k.compute(n, inputs, None, j))
    && (forall n, inputs, world, t :: k.update(n, inputs, Some(world), t) == k.update(n, inputs, None, t))
  }

  /** The graph with no node marked as having side effects. */
  function WithoutEffects(g: Graph): Graph {
    g.(nodes := seq(|g.nodes|, n requires 0 <= n < |g.nodes| => g.nodes[n].(mightHaveSideEffect := false)))
  }

  lemma SameConnections(g: Graph)
    ensures |WithoutEffects(g).nodes| == |g.nodes|
    ensures forall n, t :: 0 <= n < |g.nodes| ==> (WithoutEffects(g).Produces(n, t) <==> g.Produces(n, t))
    ensures forall m, n :: 0 <= m < |g.nodes| && 0 <= n < |g.nodes| ==>
              (WithoutEffects(g).Feeds(m, n) <==> g.Feeds(m, n))
  {
  }

  /** Such kernels compute the same tensors when no node is marked. */
  lemma {:induction false} MarksDoNotMatter<V(!new), W(!new)>(
    g: Graph, k: Kernels<V, W>, order: seq<nat>, start: Machine<V, W>)
    requires IgnoresWorld(k) && InPlan(g, order)
    ensures InPlan(WithoutEffects(g), order) && Effects(WithoutEffects(g), order) == []
    ensures RunAll(g, k, order, start).tensors == RunAll(WithoutEffects(g), k, order, start).tensors
  {
    if order != [] {
      var before, n := order[..|order| - 1], order[|order| - 1];
      MarksDoNotMatter(g, k, before, start);
      var m := RunAll(g, k, before, start);
      var inputs := InputsOf(g, n, m.tensors);
      WrittenSame(g, k, n, Some(m.world), inputs, m.tensors);
      WrittenSame(g, k, n, None, inputs, m.tensors);
    }
  }

  lemma WrittenSame<V(!new), W(!new)>(
    g: Graph, k: Kernels<V, W>, n: nat, world: Option<W>, inputs: seq<Option<V>>, tensors: seq<V>)
    requires IgnoresWorld(k) && n < |g.nodes|
    ensures |WithoutEffects(g).nodes| == |g.nodes|
    ensures Written(g, k, n, world, inputs, tensors) == Written(WithoutEffects(g), k, n, None, inputs, tensors)
  {
    WriteSame(g.nodes[n].outputs, 0, j => k.compute(n, inputs, world, j), j => k.compute(n, inputs, None, j), tensors);
    forall t
      ensures Updates(WithoutEffects(g), k.updates, n, t) <==> Updates(g, k.updates, n, t)
    {
      assert WithoutEffects(g).Reads(n, t) <==> g.Reads(n, t);
    }
  }

  lemma {:induction false} WriteSame<V>(outputs: seq<int>, j: nat, a: nat -> V, b: nat -> V, tensors: seq<V>)
    requires j <= |outputs| && forall i :: a(i) == b(i)
    ensures WriteOutputs(outputs, j, a, tensors) == WriteOutputs(outputs, j, b, tensors)
    decreases |outputs| - j
  {
    if j < |outputs| {
      WriteSame(outputs, j + 1, a, b, if 0 <= outputs[j] < |tensors| then tensors[outputs[j] := a(j)] else tensors);
    }
  }

  /**
   * Kernels that ignore the world give every tensor its value even if the side effects change
   * places, as long as nodes in conflict over a variable do not.
   */
  lemma SameValues<V(!new), W(!new)>(g: Graph, k: Kernels<V, W>, a: seq<nat>, b: seq<nat>, start: Machine<V, W>)
    requires g.UniqueProducers() && IgnoresWorld(k)
    requires RespectsData(g, a) && Covers(g, a) && RespectsData(g, b) && Covers(g, b)
    requires ConflictsAgree(g, k.updates, a, b)
    ensures RunAll(g, k, a, start).tensors == RunAll(g, k, b, start).tensors
  {
    SameConnections(g);
    MarksDoNotMatter(g, k, a, start);
    MarksDoNotMatter(g, k, b, start);
    FewerConflicts(g, k.updates, a, b);
    RespectsSame(g, a);
    RespectsSame(g, b);
    hide RunAll, Effects, WithoutEffects, ConflictsAgree, RespectsData;
    SameMeaning(WithoutEffects(g), k, a, b, start);
  }

  lemma RespectsSame(g: Graph, order: seq<nat>)
    requires RespectsData(g, order) && Covers(g, order)
    ensures RespectsData(WithoutEffects(g), order) && Covers(WithoutEffects(g), order)
  {
    SameConnections(g);
    hide WithoutEffects, Graph.Feeds;
  }

  lemma FewerConflicts(g: Graph, updates: (nat, int) -> bool, a: seq<nat>, b: seq<nat>)
    requires InPlan(g, a) && InPlan(g, b) && ConflictsAgree(g, updates, a, b)
    ensures InPlan(WithoutEffects(g), a) && InPlan(WithoutEffects(g), b)
    ensures ConflictsAgree(WithoutEffects(g), updates, a, b)
  {
    forall n, t | 0 <= n < |g.nodes|
      ensures Changes(WithoutEffects(g), updates, n, t) <==> Changes(g, updates, n, t)
      ensures Updates(WithoutEffects(g), updates, n, t) <==> Updates(g, updates, n, t)
      ensures WithoutEffects(g).Reads(n, t) <==> g.Reads(n, t)
    {
    }
    forall m, n | 0 <= m < |g.nodes| && 0 <= n < |g.nodes| && Conflict(WithoutEffects(g), updates, m, n)
      ensures Conflict(g, updates, m, n)
    {
    }
    hide Conflict;
  }
}
