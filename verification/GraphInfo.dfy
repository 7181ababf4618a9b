/** The inference graph: nodes of an execution plan connected through tensors. */
module GraphInfo {
  import opened Common
  import opened Schedule

  /** `inplace_operator` flags: the output equals the input; inputs 0 to 2 that may share the first output's buffer. */
  datatype Inplace = Inplace(
    dataUnmodified: bool, withCorrespondingOutput: bool, shared0: bool, shared1: bool, shared2: bool)
  {
    predicate IsNone() {
      !dataUnmodified && !withCorrespondingOutput && !shared0 && !shared1 && !shared2
    }

    predicate Shareable(i: nat) {
      (i == 0 && shared0) || (i == 1 && shared1) || (i == 2 && shared2)
    }
  }

  datatype Node = Node(
    inputs: seq<int>, outputs: seq<int>, mightHaveSideEffect: bool, inplace: Inplace)

  /** `nodeIndex` maps positions in the execution plan to indices among all `numTotalNodes` nodes. */
  datatype Graph = Graph(
    numTensors: nat, nodes: seq<Node>, nodeIndex: seq<nat>, numTotalNodes: nat,
    inputs: seq<int>, outputs: seq<int>, variables: seq<int>)
  {
    predicate IsTensor(t: int) { 0 <= t < numTensors }

    predicate Reads(n: nat, t: int)
      requires n < |nodes|
    {
      t != OPTIONAL_TENSOR && t in nodes[n].inputs
    }

    predicate Produces(n: nat, t: int)
      requires n < |nodes|
    {
      t != OPTIONAL_TENSOR && t in nodes[n].outputs
    }

    /** Some node of the plan computes `t`. */
    ghost predicate Computed(t: int) {
      exists n :: 0 <= n < |nodes| && Produces(n, t)
    }

    /** Tensor indices are in range or absent. */
    ghost predicate IndicesInRange() {
      && (forall n :: 0 <= n < |nodes| ==>
            && (forall t :: t in nodes[n].inputs ==> t == OPTIONAL_TENSOR || IsTensor(t))
            && (forall t :: t in nodes[n].outputs ==> t == OPTIONAL_TENSOR || IsTensor(t)))
      && (forall t :: t in inputs || t in outputs ==> t == OPTIONAL_TENSOR || IsTensor(t))
      && (forall t :: t in variables ==> t == OPTIONAL_TENSOR || IsTensor(t))
    }

    ghost predicate UniqueProducers() {
      forall m, n, t :: 0 <= m < |nodes| && 0 <= n < |nodes| && Produces(m, t) && Produces(n, t) ==> m == n
    }

    /** Every tensor a node reads is computed by an earlier node or by none. */
    ghost predicate DependencyOrdered() {
      forall m, n, t :: 0 <= m < |nodes| && 0 <= n < |nodes| && Produces(m, t) && Reads(n, t) ==> m < n
    }

    /** Graph inputs and variables come from outside; no variable is absent. */
    ghost predicate SourcesNotComputed() {
      && OPTIONAL_TENSOR !in variables
      && forall t :: t in inputs || t in variables ==> !Computed(t)
    }

    /** The graphs the memory planners are meant for. */
    ghost predicate WellFormed() {
      && IndicesInRange() && UniqueProducers() && DependencyOrdered() && SourcesNotComputed()
      && |nodes| < NODE_NOT_ASSIGNED
    }

    /** Node `m` computes an input of node `n`. */
    ghost predicate Feeds(m: nat, n: nat)
      requires m < |nodes| && n < |nodes|
    {
      exists t :: Produces(m, t) && Reads(n, t)
    }
  }

  /** Node `n` reads the variable tensor `t` and leaves a new value in it. */
  predicate Updates(g: Graph, updates: (nat, int) -> bool, n: nat, t: int)
    requires n < |g.nodes|
  {
    t in g.variables && g.Reads(n, t) && updates(n, t)
  }

  /** Node `n` computes or updates `t`. */
  predicate Changes(g: Graph, updates: (nat, int) -> bool, n: nat, t: int)
    requires n < |g.nodes|
  {
    g.Produces(n, t) || Updates(g, updates, n, t)
  }

  lemma NodeTensors(g: Graph, n: nat)
    requires g.IndicesInRange() && n < |g.nodes|
    ensures forall i :: 0 <= i < |g.nodes[n].inputs| ==>
              g.nodes[n].inputs[i] == OPTIONAL_TENSOR || g.IsTensor(g.nodes[n].inputs[i])
    ensures forall i :: 0 <= i < |g.nodes[n].outputs| ==>
              g.nodes[n].outputs[i] == OPTIONAL_TENSOR || g.IsTensor(g.nodes[n].outputs[i])
  {
    assert forall i :: 0 <= i < |g.nodes[n].inputs| ==> g.nodes[n].inputs[i] in g.nodes[n].inputs;
    assert forall i :: 0 <= i < |g.nodes[n].outputs| ==> g.nodes[n].outputs[i] in g.nodes[n].outputs;
  }

  type ControlEdge = (int, int)

  ghost function DepsOf(g: Graph, edges: seq<ControlEdge>, n: nat): set<nat>
    requires n < |g.nodes|
  {
    set m: nat | m < |g.nodes| && (g.Feeds(m, n) || (m, n) in edges)
  }

  /** The scheduling problem of a graph with control edges; `delegated` holds indices among all nodes. */
  ghost function ProblemOf(g: Graph, edges: seq<ControlEdge>, delegated: seq<int>, fuse: bool): Problem
    requires |g.nodeIndex| == |g.nodes|
  {
    Problem(seq(|g.nodes|, n requires 0 <= n < |g.nodes| => DepsOf(g, edges, n)),
            seq(|g.nodes|, n requires 0 <= n < |g.nodes| =>
              if g.nodeIndex[n] in delegated then Delegated else NotDelegated),
            fuse)
  }

  lemma ProblemIsValid(g: Graph, edges: seq<ControlEdge>, delegated: seq<int>, fuse: bool)
    requires |g.nodeIndex| == |g.nodes|
    ensures ProblemOf(g, edges, delegated, fuse).Valid()
  {
  }
}
