/** `simulateWorkflow`: the simulator runs only on a graph the validator
    accepts. On such a graph no walk from a node runs into a cycle, so a
    budget of one loop iteration per node is enough and the bounded run
    gives the result of the unbounded loop. */
module Workflow {
  import opened Graph
  import opened Validation
  import opened ValidationFacts
  import opened Simulation

  /** The response: whether the graph passed validation, the texts of its
      defects, and the steps and completion flag of the run (none when it
      did not pass). */
  datatype Response = Response(ok: bool, structureErrors: seq<string>, steps: seq<Step>, completed: bool)

  method SimulateWorkflow(nodes: seq<Node>, edges: seq<Edge>, context: map<string, string>)
    returns (response: Response)
    ensures response.ok <==> ExpectedErrors(nodes, edges) == []
    ensures response.structureErrors == Messages(ExpectedErrors(nodes, edges))
    ensures !response.ok ==> response.steps == [] && !response.completed
    ensures response.ok ==>
              forall fuel: nat :: fuel >= |nodes| ==>
                Simulate(nodes, edges, fuel) == Some(SimResult(response.steps, response.completed))
  {
    var errors := ValidateGraph(nodes, edges);
    if |errors| > 0 {
      return Response(false, Messages(errors), [], false);
    }
    NoErrorsIffWellFormed(nodes, edges);
    var budget := |nodes|;
    SimulationTerminatesWhenAcyclic(nodes, edges, budget, budget);
    var result := RunSimulation(nodes, edges, context, budget);
    response := Response(true, [], result.value.steps, result.value.completed);
    forall fuel: nat | fuel >= budget
      ensures Simulate(nodes, edges, fuel) == Some(SimResult(response.steps, response.completed))
    {
      SimulationTerminatesWhenAcyclic(nodes, edges, budget, fuel);
    }
  }

  /** A walk from a node stops at an End node when every other node has an
      outgoing edge and every edge leads to a node. */
  lemma {:induction false} WalkReachesEnd(nodes: seq<Node>, edges: seq<Edge>, n: Node, fuel: nat)
    requires n in nodes && Walk(nodes, edges, n, fuel).Some?
    requires forall m :: m in nodes && m.kind != End ==> exists e :: e in edges && e.source == m.id
    requires forall e :: e in edges ==> e.target in NodeIds(nodes)
    ensures Walk(nodes, edges, n, fuel).value.ending == ReachedEnd
    decreases fuel
  {
    if n.kind != End {
      var e :| e in edges && e.source == n.id;
      var outs := EdgesFrom(edges, n.id);
      assert e in outs;
      assert outs[0] in edges;
      var m :| m in nodes && m.id == outs[0].target;
      var next := Lookup(nodes, outs[0].target);
      var rest: nat := fuel - 1;
      AdvanceWalk(nodes, edges, [], n, fuel, rest, next);
      WalkReachesEnd(nodes, edges, next.value, rest);
    }
  }

  /** A graph the validator accepts, in which every edge leads to a node,
      runs from its Start node to an End node: the run is completed, its
      first step is the Start step and its last step the End step. */
  lemma AcceptedWorkflowCompletes(nodes: seq<Node>, edges: seq<Edge>, fuel: nat)
    requires ExpectedErrors(nodes, edges) == []
    requires forall e :: e in edges ==> e.target in NodeIds(nodes)
    requires fuel >= |nodes|
    ensures var r := Simulate(nodes, edges, fuel);
            && r.Some? && r.value.completed && |r.value.steps| > 0
            && r.value.steps[0].nodeType == "start" && Last(r.value.steps).nodeType == "end"
  {
    NoErrorsIffWellFormed(nodes, edges);
    var starts := NodesOfKind(nodes, Start);
    assert starts[0] in starts;
    var start := FindStart(nodes).value;
    WalkTerminatesWhenAcyclic(nodes, edges, start, fuel);
    WalkReachesEnd(nodes, edges, start, fuel);
    FirstStepIsStart(nodes, edges, fuel);
    CompletedIffLastStepIsEnd(nodes, edges, fuel);
  }
}
