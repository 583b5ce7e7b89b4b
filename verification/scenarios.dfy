/** Two small graphs that show the edges of the guarantees: a graph the
    validator accepts on which the run still does not complete, and a loop
    through the Start node on which the simulator loop never stops. */
module Scenarios {
  import opened Graph
  import opened CycleSearch
  import opened Validation
  import opened ValidationFacts
  import opened Simulation

  const Blank := Config(None, None, None, None, None, None, false)

  // ---------------------------------------------------------------------
  // Start node "s" whose first edge leads to "z", which is no node, and whose
  // second edge leads to the End node "e".

  const DanglingNodes := [Node("s", Start, Blank), Node("e", End, Blank)]
  const DanglingEdges := [Edge("s", "z"), Edge("s", "e")]

  lemma DanglingGraphCounts()
    ensures NodesOfKind(DanglingNodes, Start) == [DanglingNodes[0]]
    ensures DanglingNodes[1] in NodesOfKind(DanglingNodes, End)
  {
    var nodes := DanglingNodes;
    assert nodes[..1] == [nodes[0]] && [nodes[0]][..0] == [];
  }

  lemma DanglingGraphReachable()
    ensures forall n :: n in DanglingNodes ==> Reaches(DanglingEdges, "s", n.id)
  {
    ReachesRefl(DanglingEdges, "s");
    ReachesStep(DanglingEdges, "s", "s", "e");
  }

  lemma DanglingGraphAcyclic()
    ensures !CycleReachableFrom(DanglingEdges, NodeIds(DanglingNodes))
  {
    var nodes := DanglingNodes;
    forall x | x in NodeIds(nodes) ensures x == "s" || x == "e" {
      var n :| n in nodes && n.id == x;
    }
    NoCycleFromRanked(DanglingEdges, map["s" := 1, "e" := 0, "z" := 0], NodeIds(nodes));
  }

  /** The validator accepts the graph: only the first edge is dangling, and
      the second one makes the End node reachable. */
  lemma DanglingGraphIsAccepted()
    ensures ExpectedErrors(DanglingNodes, DanglingEdges) == []
  {
    var nodes, edges := DanglingNodes, DanglingEdges;
    DanglingGraphCounts();
    DanglingGraphReachable();
    DanglingGraphAcyclic();
    assert edges[0] in edges;
    assert WellFormed(nodes, edges);
    NoErrorsIffWellFormed(nodes, edges);
  }

  /** The run records the Start step and stops without completing: the
      first edge is followed, and it leads nowhere. */
  lemma DanglingGraphDoesNotComplete(fuel: nat)
    requires fuel > 0
    ensures Simulate(DanglingNodes, DanglingEdges, fuel) == Some(SimResult([Describe(DanglingNodes[0])], false))
  {
    var nodes, edges := DanglingNodes, DanglingEdges;
    var s := nodes[0];
    assert FindStart(nodes) == Some(s);
    assert EdgesFrom(edges, "s")[0] == Edge("s", "z");
    assert Lookup(nodes, "z") == None;
    assert Walk(nodes, edges, s, fuel) == Some(Route([s], MissingTarget));
    assert Describes([s]) == [Describe(s)];
  }

  // ---------------------------------------------------------------------
  // Start node "s" and task "a" with edges s -> a and a -> s, and no End node.

  const LoopNodes := [Node("s", Start, Blank), Node("a", Task, Blank)]
  const LoopEdges := [Edge("s", "a"), Edge("a", "s")]

  lemma LoopGraphNoDeadEnd()
    ensures DeadEndErrors(LoopNodes, LoopEdges) == []
  {
    assert LoopEdges[0] in LoopEdges && LoopEdges[1] in LoopEdges;
    DeadEndErrorsShape(LoopNodes, LoopEdges);
  }

  lemma LoopGraphAllReachable()
    ensures UnreachableErrors(LoopNodes, LoopEdges, "s") == []
  {
    ReachesRefl(LoopEdges, "s");
    ReachesStep(LoopEdges, "s", "s", "a");
    UnreachableErrorsShape(LoopNodes, LoopEdges, "s");
  }

  lemma LoopGraphCounts()
    ensures NodesOfKind(LoopNodes, Start) == [LoopNodes[0]]
    ensures NodesOfKind(LoopNodes, End) == []
  {
    var nodes := LoopNodes;
    assert nodes[..1] == [nodes[0]] && [nodes[0]][..0] == [];
  }

  lemma LoopGraphCycle()
    ensures CycleReachableFrom(LoopEdges, NodeIds(LoopNodes))
  {
    var lasso := ["s", "a", "s"];
    assert Edge(lasso[0], lasso[1]) in LoopEdges && Edge(lasso[1], lasso[2]) in LoopEdges;
    assert IsPath(LoopEdges, lasso);
    assert lasso[0] == Last(lasso);
    assert IsLasso(LoopEdges, lasso);
  }

  lemma LoopGraphOutcomes()
    ensures ExpectedErrors(LoopNodes, LoopEdges) == ErrorList(1, 0, true, [], [], true)
  {
    var nodes, edges := LoopNodes, LoopEdges;
    LoopGraphCounts();
    LoopGraphNoDeadEnd();
    LoopGraphAllReachable();
    LoopGraphCycle();
    assert TheStart(nodes).id == "s";
    assert HasIncoming(edges, "s") by {
      assert edges[1] in edges && edges[1].target == "s";
    }
  }

  /** The validator reports the missing End node, the edge into the Start
      node, and the cycle, in this order. */
  lemma LoopGraphErrors()
    ensures ExpectedErrors(LoopNodes, LoopEdges) == [MissingEnd, StartHasIncoming, HasCycle]
  {
    LoopGraphOutcomes();
    LoopErrorList();
  }

  lemma LoopErrorList()
    ensures ErrorList(1, 0, true, [], [], true) == [MissingEnd, StartHasIncoming, HasCycle]
  {
    assert Opt(true, MissingEnd) == [MissingEnd];
  }

  lemma {:induction false} LoopWalkNeverStops(fuel: nat)
    ensures Walk(LoopNodes, LoopEdges, LoopNodes[0], fuel).None?
    ensures Walk(LoopNodes, LoopEdges, LoopNodes[1], fuel).None?
  {
    var nodes, edges := LoopNodes, LoopEdges;
    if fuel > 0 {
      var rest: nat := fuel - 1;
      LoopWalkNeverStops(rest);
      assert EdgesFrom(edges, "s")[0] == Edge("s", "a");
      assert EdgesFrom(edges, "a")[0] == Edge("a", "s");
      assert Lookup(nodes, "a") == Some(nodes[1]);
      assert Lookup(nodes, "s") == Some(nodes[0]);
      AdvanceWalk(nodes, edges, [], nodes[0], fuel, rest, Lookup(nodes, "a"));
      AdvanceWalk(nodes, edges, [], nodes[1], fuel, rest, Lookup(nodes, "s"));
    }
  }

  /** Whatever the iteration budget, the simulator does not stop on this
      graph: the source loop runs forever when the simulator is called
      without the validator in front of it. */
  lemma LoopGraphNeverStops(fuel: nat)
    ensures Simulate(LoopNodes, LoopEdges, fuel).None?
  {
    assert FindStart(LoopNodes) == Some(LoopNodes[0]);
    LoopWalkNeverStops(fuel);
  }
}
