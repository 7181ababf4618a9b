/** The simple planner: lifetimes by one round of reference counting, without sharing. */
module SimplePlanner {
  import opened Common
  import opened GraphInfo
  import opened Liveness

  class SimplePlanner {
    const graph: Graph
    var allocNode: seq<int>
    var deallocNode: seq<int>

    /** The graphs this planner can take: indices in range and every output present. */
    ghost predicate Plannable() {
      && graph.IndicesInRange() && |graph.nodes| < NODE_NOT_ASSIGNED
      && OPTIONAL_TENSOR !in graph.variables
      && forall n :: 0 <= n < |graph.nodes| ==> OPTIONAL_TENSOR !in graph.nodes[n].outputs
    }

    ghost predicate Sized()
      reads this
    {
      |allocNode| == |deallocNode| == graph.numTensors
    }

    constructor (graph: Graph)
      ensures this.graph == graph
    {
      this.graph := graph;
      allocNode, deallocNode := [], [];
    }

    method Allocate(node: int, tensor: int) returns (status: Status)
      requires Sized() && graph.IsTensor(tensor)
      modifies this`allocNode
      ensures status.Ok? <==> old(allocNode)[tensor] != NODE_NOT_ASSIGNED || deallocNode[tensor] == NODE_NOT_ASSIGNED
      ensures allocNode == if status.Ok? && old(allocNode)[tensor] == NODE_NOT_ASSIGNED
                           then old(allocNode)[tensor := node] else old(allocNode)
    {
      if allocNode[tensor] != NODE_NOT_ASSIGNED {
        return Ok;
      }
      if deallocNode[tensor] != NODE_NOT_ASSIGNED {
        return Error;
      }
      allocNode := allocNode[tensor := node];
      return Ok;
    }

    method Deallocate(node: int, tensor: int) returns (status: Status)
      requires Sized() && graph.IsTensor(tensor)
      modifies this`deallocNode
      ensures status.Ok? <==> allocNode[tensor] == NODE_NOT_ASSIGNED || old(deallocNode)[tensor] == NODE_NOT_ASSIGNED
      ensures deallocNode == if status.Ok? && allocNode[tensor] != NODE_NOT_ASSIGNED
                             then old(deallocNode)[tensor := node] else old(deallocNode)
    {
      if allocNode[tensor] == NODE_NOT_ASSIGNED {
        return Ok;
      }
      if deallocNode[tensor] != NODE_NOT_ASSIGNED {
        return Error;
      }
      deallocNode := deallocNode[tensor := node];
      return Ok;
    }

    /** Allocates the present tensors of the list before the first node. */
    method QueueSources(list: seq<int>)
      requires NoneOrTensors(graph, list) && Sized()
      requires forall t :: graph.IsTensor(t) ==> deallocNode[t] == NODE_NOT_ASSIGNED
      modifies this`allocNode
      ensures Sized()
      ensures forall t :: graph.IsTensor(t) ==>
                allocNode[t] == if t in list && old(allocNode)[t] == NODE_NOT_ASSIGNED then 0 else old(allocNode)[t]
    {
      ghost var before := allocNode;
      var i := 0;
      while i < |list|
        invariant 0 <= i <= |list| && Sized()
        invariant forall t :: graph.IsTensor(t) ==>
                    allocNode[t] == if t in list[..i] && before[t] == NODE_NOT_ASSIGNED then 0 else before[t]
      {
        var t := list[i];
        assert list[..i + 1] == list[..i] + [t];
        assert t in list;
        if t != OPTIONAL_TENSOR {
          var status := Allocate(0, t);
          assert status.Ok?;
        }
        i := i + 1;
      }
      assert list[..i] == list;
    }

    /** Pins graph outputs, variables and inputs, and allocates the latter two at the start. */
    method PinTensors() returns (refcounts: seq<int>)
      requires Plannable() && Sized()
      requires forall t :: graph.IsTensor(t) ==> allocNode[t] == deallocNode[t] == NODE_NOT_ASSIGNED
      modifies this`allocNode
      ensures Sized() && |refcounts| == graph.numTensors
      ensures forall t :: graph.IsTensor(t) ==> refcounts[t] == PinCount(graph, t)
      ensures AllocsBefore(graph, allocNode, 0)
    {
      refcounts := seq(graph.numTensors, _ => 0);
      refcounts := CountPins(graph, graph.outputs, refcounts);
      refcounts := CountPins(graph, graph.variables, refcounts);
      QueueSources(graph.variables);
      refcounts := CountPins(graph, graph.inputs, refcounts);
      QueueSources(graph.inputs);
    }

    method QueueOutputs(i: nat)
      requires Plannable() && Sized() && i < |graph.nodes|
      requires AllocsBefore(graph, allocNode, i) && DeallocsBefore(graph, map[], false, deallocNode, i)
      modifies this`allocNode
      ensures Sized() && AllocsBefore(graph, allocNode, i + 1)
    {
      hide AllocBefore, DeallocBefore;
      NodeTensors(graph, i);
      var outputs := graph.nodes[i].outputs;
      OutputsStart(graph, allocNode, i);
      var j := 0;
      while j < |outputs|
        invariant 0 <= j <= |outputs| && Sized() && AllocsAre(graph, allocNode, i, j)
      {
        var t := outputs[j];
        assert t in outputs;
        assert outputs[..j + 1] == outputs[..j] + [t];
        if AllocBefore(graph, t, i) == NODE_NOT_ASSIGNED {
          NotYetAllocated(graph, map[], false, t, i);
        }
        var status := Allocate(i, t);
        assert status.Ok?;
        j := j + 1;
      }
      OutputsDone(graph, allocNode, i);
    }

    method ReleaseInputs(i: nat, counts: seq<int>) returns (refcounts: seq<int>)
      requires Plannable() && Sized() && i < |graph.nodes| && |counts| == graph.numTensors
      requires AllocsBefore(graph, allocNode, i + 1) && DeallocsBefore(graph, map[], false, deallocNode, i)
      requires CountsBefore(graph, map[], counts, i)
      modifies this`deallocNode
      ensures Sized() && |refcounts| == graph.numTensors
      ensures DeallocsBefore(graph, map[], false, deallocNode, i + 1) && CountsBefore(graph, map[], refcounts, i + 1)
    {
      hide AllocsBefore, CountsAre, DeallocsAre;
      NodeTensors(graph, i);
      refcounts := counts;
      InputsStart(graph, map[], refcounts, deallocNode, i);
      var inputs := graph.nodes[i].inputs;
      var j := 0;
      while j < |inputs|
        invariant 0 <= j <= |inputs| && Sized() && |refcounts| == graph.numTensors
        invariant CountsAre(graph, map[], refcounts, i, j) && DeallocsAre(graph, map[], deallocNode, i, j)
      {
        var t := inputs[j];
        if t != OPTIONAL_TENSOR {
          ReleaseInput(graph, map[], refcounts, allocNode, deallocNode, i, j, t);
          refcounts := refcounts[t := refcounts[t] - 1];
          if refcounts[t] == 0 {
            var status := Deallocate(i, t);
            assert status.Ok?;
          }
        } else {
          SkipInput(graph, map[], refcounts, deallocNode, i, j);
        }
        j := j + 1;
      }
      InputsDone(graph, map[], refcounts, deallocNode, i);
    }

    /** Never fails, and computes the first and the last use of every tensor. */
    method PlanAllocations() returns (status: Status)
      requires Plannable()
      modifies this
      ensures status.Ok? && Sized()
      ensures forall t :: graph.IsTensor(t) ==>
                allocNode[t] == AllocSpec(graph, t) && deallocNode[t] == DeallocSpec(graph, map[], false, t)
    {
      hide AllocBefore;
      allocNode := seq(graph.numTensors, _ => NODE_NOT_ASSIGNED);
      deallocNode := seq(graph.numTensors, _ => NODE_NOT_ASSIGNED);
      var refcounts := PinTensors();
      refcounts := CountInputs(graph, map[], refcounts);
      var i := 0;
      while i < |graph.nodes|
        invariant 0 <= i <= |graph.nodes| && Sized() && |refcounts| == graph.numTensors
        invariant AllocsBefore(graph, allocNode, i) && DeallocsBefore(graph, map[], false, deallocNode, i)
        invariant CountsBefore(graph, map[], refcounts, i)
      {
        QueueOutputs(i);
        refcounts := ReleaseInputs(i, refcounts);
        i := i + 1;
      }
      forall t | graph.IsTensor(t)
        ensures allocNode[t] == AllocSpec(graph, t) && deallocNode[t] == DeallocSpec(graph, map[], false, t)
      {
        TraversalDone(graph, map[], false, t);
      }
      status := Ok;
    }
  }
}
