/** The simulator `runSimulation`: a deterministic walk from the first Start
    node that records one step per node, always leaves a node by its first
    outgoing edge, and reports completion only on reaching an End node.

    The walk is specified in two layers: Walk computes the route (the nodes
    visited and how the walk stops) and Render turns a route into the steps
    the source records.

    The source loop has no iteration cap. Here every walk carries `fuel`, the
    number of loop iterations it may still run, and a walk that exhausts it
    yields None. FuelIsMonotone and SimulationTerminatesWhenAcyclic show that
    this changes nothing on a graph without a cycle reachable from a node. */
module Simulation {
  import opened Graph

  datatype Step = Step(nodeId: string, nodeType: string, message: string)

  datatype SimResult = SimResult(steps: seq<Step>, completed: bool)

  /** The name shown in step messages: `config.name || id`. */
  function DisplayName(n: Node): string {
    OrElse(n.config.name, n.id)
  }

  /** The concatenation of the pieces of a message template, in order. */
  function Concat(pieces: seq<string>): string {
    if |pieces| == 0 then "" else pieces[0] + Concat(pieces[1..])
  }

  /** The step recorded when the walk arrives at n. */
  function Describe(n: Node): (s: Step)
    ensures s.nodeId == n.id && s.nodeType == KindName(n.kind)
  {
    var name := DisplayName(n);
    var c := n.config;
    var pieces :=
      match n.kind
      case Task =>
        ["Task: \"", name, "\" assigned to ", OrElse(c.assignee, "N/A"),
         " (due: ", OrElse(c.dueDate, "N/A"), ")"]
      case Approval =>
        ["Approval: \"", name, "\" by ", OrElse(c.approverRole, "Unknown"),
         " (auto-threshold: ",
         if c.autoApproveThreshold.Some? then c.autoApproveThreshold.value else "none", ")"]
      case Automated =>
        ["Automated step: \"", name, "\" using action \"", OrElse(c.actionId, "none"), "\""]
      case Condition => ["Evaluating condition \"", name, "\""]
      case End => ["Reached end: \"", name, "\". Summary flag: ", if c.summaryFlag then "ON" else "OFF"]
      case Start => ["Starting workflow at \"", name, "\"."];
    Step(n.id, KindName(n.kind), Concat(pieces))
  }

  /** The dead-end message exactly as the source spells it: an en dash that
      was saved as the three characters U+00E2 U+20AC U+201C. */
  const DeadEndMessage: string := "No outgoing edge \U{e2}\U{20ac}\U{201c} stopping."

  const NoStartStep: Step := Step("-", "-", "No start node defined.")

  /** The extra step recorded when a node other than a Condition has no
      outgoing edge. */
  function DeadEndStep(n: Node): (s: Step)
    ensures s.nodeId == n.id && s.nodeType == KindName(n.kind) && s.message == DeadEndMessage
  {
    Step(n.id, KindName(n.kind), DeadEndMessage)
  }

  /** `nodes.find(...)`: the first Start node. */
  function FindStart(nodes: seq<Node>): (r: Option<Node>)
    ensures r.None? <==> forall n :: n in nodes ==> n.kind != Start
    ensures r.Some? ==> r.value.kind == Start
    ensures r.Some? ==>
              exists j :: 0 <= j < |nodes| && nodes[j] == r.value &&
                          forall k :: 0 <= k < j ==> nodes[k].kind != Start
  {
    if |nodes| == 0 then None
    else if nodes[0].kind == Start then Some(nodes[0])
    else
      var r := FindStart(nodes[1..]);
      assert forall n :: n in nodes ==> n == nodes[0] || n in nodes[1..];
      if r.Some? then
        var j :| 0 <= j < |nodes| - 1 && nodes[1..][j] == r.value &&
                 forall k :: 0 <= k < j ==> nodes[1..][k].kind != Start;
        assert nodes[j + 1] == r.value;
        assert forall k :: 1 <= k < j + 1 ==> nodes[k] == nodes[1..][k - 1];
        r
      else r
  }

  /** How a walk stops. */
  datatype Ending =
    | ReachedEnd        // at an End node: the run is completed
    | DeadEnd           // at a node other than a Condition with no outgoing edge
    | ConditionDeadEnd  // at a Condition with no outgoing edge: the loop breaks
    | MissingTarget     // the first outgoing edge leads to an id no node carries

  /** The nodes a walk visits, in order, and how it stops. */
  datatype Route = Route(visits: seq<Node>, ending: Ending)

  /** Puts `visits` in front of the route of the rest of a walk, if the rest
      did not run out of fuel. */
  function Follow(visits: seq<Node>, rest: Option<Route>): Option<Route> {
    match rest
    case None => None
    case Some(r) => Some(Route(visits + r.visits, r.ending))
  }

  lemma FollowFollow(first: seq<Node>, second: seq<Node>, rest: Option<Route>)
    ensures Follow(first, Follow(second, rest)) == Follow(first + second, rest)
  {
    if rest.Some? {
      assert first + (second + rest.value.visits) == (first + second) + rest.value.visits;
    }
  }

  /** The route of the walk from n with at most `fuel` loop iterations: each
      iteration visits one node and leaves it by its first outgoing edge. */
  function Walk(nodes: seq<Node>, edges: seq<Edge>, n: Node, fuel: nat): (r: Option<Route>)
    ensures r.Some? ==> |r.value.visits| > 0 && r.value.visits[0] == n
    decreases fuel
  {
    if fuel == 0 then None
    else if n.kind == End then Some(Route([n], ReachedEnd))
    else
      var outs := EdgesFrom(edges, n.id);
      if |outs| == 0 then Some(Route([n], if n.kind == Condition then ConditionDeadEnd else DeadEnd))
      else
        match Lookup(nodes, outs[0].target)
        case None => Some(Route([n], MissingTarget))
        case Some(next) => Follow([n], Walk(nodes, edges, next, fuel - 1))
  }

  /** One step per visited node, in order. */
  function Describes(visits: seq<Node>): seq<Step> {
    seq(|visits|, i requires 0 <= i < |visits| => Describe(visits[i]))
  }

  lemma DescribesAppend(visits: seq<Node>, n: Node)
    ensures Describes(visits + [n]) == Describes(visits) + [Describe(n)]
  {
    assert forall i :: 0 <= i < |visits| ==> (visits + [n])[i] == visits[i];
  }

  /** The steps and the completion flag the source reports for a route. */
  function Render(route: Route): SimResult
    requires |route.visits| > 0
  {
    var steps := Describes(route.visits);
    SimResult(
      if route.ending == DeadEnd then steps + [DeadEndStep(Last(route.visits))] else steps,
      route.ending == ReachedEnd)
  }

  function Rendered(walk: Option<Route>): Option<SimResult>
    requires walk.Some? ==> |walk.value.visits| > 0
  {
    match walk
    case None => None
    case Some(route) => Some(Render(route))
  }

  /** The whole simulation with at most `fuel` loop iterations. */
  function Simulate(nodes: seq<Node>, edges: seq<Edge>, fuel: nat): Option<SimResult> {
    match FindStart(nodes)
    case None => Some(SimResult([NoStartStep], false))
    case Some(start) => Rendered(Walk(nodes, edges, start, fuel))
  }

  /** One loop iteration at a node that is not an End node and has an
      outgoing edge: the walk moves to the node its first edge leads to, or
      stops if no node carries that id. */
  lemma AdvanceWalk(nodes: seq<Node>, edges: seq<Edge>, before: seq<Node>, n: Node,
                    fuel: nat, rest: nat, next: Option<Node>)
    requires rest + 1 == fuel && n.kind != End && |EdgesFrom(edges, n.id)| > 0
    requires next == Lookup(nodes, EdgesFrom(edges, n.id)[0].target)
    ensures next.Some? ==>
              Follow(before, Walk(nodes, edges, n, fuel)) == Follow(before + [n], Walk(nodes, edges, next.value, rest))
    ensures next.None? ==>
              Follow(before, Walk(nodes, edges, n, fuel)) == Some(Route(before + [n], MissingTarget))
  {
    if next.Some? {
      FollowFollow(before, [n], Walk(nodes, edges, next.value, rest));
    }
  }

  /** One loop iteration that ends the walk at n. */
  lemma StopWalk(nodes: seq<Node>, edges: seq<Edge>, before: seq<Node>, n: Node, fuel: nat)
    requires fuel > 0 && (n.kind == End || |EdgesFrom(edges, n.id)| == 0)
    ensures Follow(before, Walk(nodes, edges, n, fuel)) ==
              Some(Route(before + [n],
                         if n.kind == End then ReachedEnd
                         else if n.kind == Condition then ConditionDeadEnd
                         else DeadEnd))
  {
  }

  /** `runSimulation`, with at most `maxSteps` iterations of its loop. The
      context is accepted and never read. */
  method RunSimulation(nodes: seq<Node>, edges: seq<Edge>, context: map<string, string>, maxSteps: nat)
    returns (result: Option<SimResult>)
    ensures result == Simulate(nodes, edges, maxSteps)
  {
    var byId := BuildById(nodes);
    var outgoing := BuildOutgoing(edges);
    var start := FindStart(nodes);
    if start.None? {
      return Some(SimResult([NoStartStep], false));
    }
    result := RunFrom(nodes, edges, byId, outgoing, start.value, maxSteps);
  }

  /** The loop of `runSimulation`, from the start node on. */
  method RunFrom(ghost nodes: seq<Node>, ghost edges: seq<Edge>, byId: map<Id, Node>,
                 outgoing: map<Id, seq<Edge>>, start: Node, maxSteps: nat)
    returns (result: Option<SimResult>)
    requires forall id :: (if id in byId then Some(byId[id]) else None) == Lookup(nodes, id)
    requires IsOutgoingTable(outgoing, edges)
    ensures result == Rendered(Walk(nodes, edges, start, maxSteps))
  {
    ghost var whole := Walk(nodes, edges, start, maxSteps);
    if whole.Some? {
      assert [] + whole.value.visits == whole.value.visits;
    }
    var steps: seq<Step> := [];
    ghost var visited: seq<Node> := [];
    var current := Some(start);
    var fuel := maxSteps;
    while current.Some?
      invariant steps == Describes(visited)
      invariant current.Some? ==> whole == Follow(visited, Walk(nodes, edges, current.value, fuel))
      invariant current.None? ==> |visited| > 0 && whole == Some(Route(visited, MissingTarget))
      decreases fuel
    {
      if fuel == 0 {
        return None;
      }
      var n := current.value;
      ghost var before := visited;
      ghost var budget := fuel;
      fuel := fuel - 1;
      visited := visited + [n];
      DescribesAppend(before, n);
      if n.kind == Condition {
        steps := steps + [Describe(n)];
        var condEdges := Get(outgoing, n.id);
        if |condEdges| == 0 {
          StopWalk(nodes, edges, before, n, budget);
          break;
        }
        // the first edge is taken; nothing is evaluated
        var nextId := condEdges[0].target;
        current := if nextId in byId then Some(byId[nextId]) else None;
        assert current == Lookup(nodes, nextId);
        AdvanceWalk(nodes, edges, before, n, budget, fuel, current);
        continue;
      } else if n.kind == End {
        steps := steps + [Describe(n)];
        StopWalk(nodes, edges, before, n, budget);
        return Some(SimResult(steps, true));
      } else {
        steps := steps + [Describe(n)];
      }
      var outEdges := Get(outgoing, n.id);
      if |outEdges| == 0 {
        StopWalk(nodes, edges, before, n, budget);
        steps := steps + [DeadEndStep(n)];
        return Some(SimResult(steps, false));
      }
      var nextId := outEdges[0].target;
      current := if nextId in byId then Some(byId[nextId]) else None;
      assert current == Lookup(nodes, nextId);
      AdvanceWalk(nodes, edges, before, n, budget, fuel, current);
    }
    return Some(SimResult(steps, false));
  }

  // ---------------------------------------------------------------------
  // Properties of routes

  /** Leaving `from`, the walk takes the first edge listed with that source,
      and that edge leads to `to`. */
  predicate FollowsFirstEdge(edges: seq<Edge>, from: Id, to: Id) {
    var outs := EdgesFrom(edges, from);
    |outs| > 0 && outs[0].target == to
  }

  /** One move of the walk: from a node that is not an End node along its
      first outgoing edge, to the node the target id looks up to. */
  predicate Hop(nodes: seq<Node>, edges: seq<Edge>, from: Node, to: Node) {
    from.kind != End && FollowsFirstEdge(edges, from.id, to.id) && Lookup(nodes, to.id) == Some(to)
  }

  /** Consecutive visits are joined by hops. */
  predicate Hops(nodes: seq<Node>, edges: seq<Edge>, v: seq<Node>) {
    |v| <= 1 || (Hop(nodes, edges, v[0], v[1]) && Hops(nodes, edges, v[1..]))
  }

  lemma {:induction false} HopAt(nodes: seq<Node>, edges: seq<Edge>, v: seq<Node>, i: nat)
    requires Hops(nodes, edges, v) && i + 1 < |v|
    ensures Hop(nodes, edges, v[i], v[i + 1])
  {
    if i > 0 {
      HopAt(nodes, edges, v[1..], i - 1);
      assert v[1..][i - 1] == v[i] && v[1..][i] == v[i + 1];
    }
  }

  /** Every visit but the last is at a node that is not an End node, and the
      walk leaves it by its first outgoing edge for the node the target id
      looks up to. */
  lemma {:induction false} RouteFollowsFirstEdges(nodes: seq<Node>, edges: seq<Edge>, n: Node, fuel: nat)
    requires Walk(nodes, edges, n, fuel).Some?
    ensures Hops(nodes, edges, Walk(nodes, edges, n, fuel).value.visits)
    decreases fuel
  {
    var outs := EdgesFrom(edges, n.id);
    if n.kind != End && |outs| > 0 && Lookup(nodes, outs[0].target).Some? {
      var m := Lookup(nodes, outs[0].target).value;
      RouteFollowsFirstEdges(nodes, edges, m, fuel - 1);
      var rest := Walk(nodes, edges, m, fuel - 1).value.visits;
      var v := [n] + rest;
      assert v[1..] == rest;
    }
  }

  /** How a route stops is decided by its last node: completion at an End
      node, a silent stop at a Condition without outgoing edges, the dead
      end at any other node without outgoing edges, and a stop when the first
      outgoing edge leads to an id that no node carries. */
  lemma {:induction false} RouteEnding(nodes: seq<Node>, edges: seq<Edge>, n: Node, fuel: nat)
    requires Walk(nodes, edges, n, fuel).Some?
    ensures var r := Walk(nodes, edges, n, fuel).value;
            var last := Last(r.visits);
            var outs := EdgesFrom(edges, last.id);
            && (r.ending == ReachedEnd <==> last.kind == End)
            && (r.ending == ConditionDeadEnd <==> last.kind == Condition && |outs| == 0)
            && (r.ending == DeadEnd <==> last.kind != End && last.kind != Condition && |outs| == 0)
            && (r.ending == MissingTarget <==>
                  last.kind != End && |outs| > 0 && Lookup(nodes, outs[0].target).None?)
    decreases fuel
  {
    var outs := EdgesFrom(edges, n.id);
    if n.kind != End && |outs| > 0 && Lookup(nodes, outs[0].target).Some? {
      var m := Lookup(nodes, outs[0].target).value;
      RouteEnding(nodes, edges, m, fuel - 1);
      var rest := Walk(nodes, edges, m, fuel - 1).value.visits;
      assert Last([n] + rest) == Last(rest);
    }
  }

  /** A walk started at one of the nodes visits only nodes of the graph. */
  lemma RouteStaysInNodes(nodes: seq<Node>, edges: seq<Edge>, n: Node, fuel: nat)
    requires n in nodes && Walk(nodes, edges, n, fuel).Some?
    ensures forall x :: x in Walk(nodes, edges, n, fuel).value.visits ==> x in nodes
  {
    RouteFollowsFirstEdges(nodes, edges, n, fuel);
    var v := Walk(nodes, edges, n, fuel).value.visits;
    forall k | 0 < k < |v| ensures v[k] in nodes {
      HopAt(nodes, edges, v, k - 1);
    }
  }

  /** More fuel does not change a walk that finished within less. */
  lemma {:induction false} FuelIsMonotone(nodes: seq<Node>, edges: seq<Edge>, n: Node, fuel: nat, more: nat)
    requires Walk(nodes, edges, n, fuel).Some? && fuel <= more
    ensures Walk(nodes, edges, n, more) == Walk(nodes, edges, n, fuel)
    decreases fuel
  {
    var outs := EdgesFrom(edges, n.id);
    if n.kind != End && |outs| > 0 && Lookup(nodes, outs[0].target).Some? {
      FuelIsMonotone(nodes, edges, Lookup(nodes, outs[0].target).value, fuel - 1, more - 1);
    }
  }

  /** A walk from one of the nodes that runs out of fuel has gone along
      `fuel + 1` nodes joined by edges. */
  lemma {:induction false} OutOfFuelFollowsEdges(nodes: seq<Node>, edges: seq<Edge>, n: Node, fuel: nat)
    returns (v: seq<Node>)
    requires n in nodes && Walk(nodes, edges, n, fuel).None?
    ensures |v| == fuel + 1 && v[0] == n
    ensures forall i :: 0 <= i < |v| ==> v[i] in nodes
    ensures forall i :: 0 <= i < |v| - 1 ==> Edge(v[i].id, v[i + 1].id) in edges
    decreases fuel
  {
    if fuel == 0 {
      v := [n];
    } else {
      var outs := EdgesFrom(edges, n.id);
      var m := Lookup(nodes, outs[0].target).value;
      var w := OutOfFuelFollowsEdges(nodes, edges, m, fuel - 1);
      assert outs[0] in outs;
      v := [n] + w;
      forall i | 0 <= i < |v| - 1 ensures Edge(v[i].id, v[i + 1].id) in edges {
        if i > 0 {
          assert v[i] == w[i - 1] && v[i + 1] == w[i];
        }
      }
      assert forall i :: 0 < i < |v| ==> v[i] == w[i - 1];
    }
  }

  /** The ids of a sequence of nodes joined by edges form a walk. */
  lemma IdsFormPath(nodes: seq<Node>, edges: seq<Edge>, v: seq<Node>) returns (p: seq<Id>)
    requires |v| > 0
    requires forall i :: 0 <= i < |v| ==> v[i] in nodes
    requires forall i :: 0 <= i < |v| - 1 ==> Edge(v[i].id, v[i + 1].id) in edges
    ensures IsPath(edges, p) && |p| == |v| && p[0] == v[0].id
    ensures forall i :: 0 <= i < |p| ==> p[i] in NodeIds(nodes)
  {
    p := seq(|v|, i requires 0 <= i < |v| => v[i].id);
    forall i, j | 0 <= i && j == i + 1 && j < |p| ensures Edge(p[i], p[j]) in edges {
      assert p[i] == v[i].id && p[j] == v[i + 1].id;
    }
  }

  /** With no cycle reachable from a node, a walk from a node stops within
      as many iterations as there are nodes. */
  lemma WalkTerminatesWhenAcyclic(nodes: seq<Node>, edges: seq<Edge>, n: Node, fuel: nat)
    requires n in nodes && fuel >= |nodes|
    requires !CycleReachableFrom(edges, NodeIds(nodes))
    ensures Walk(nodes, edges, n, fuel).Some?
  {
    if Walk(nodes, edges, n, fuel).None? {
      var v := OutOfFuelFollowsEdges(nodes, edges, n, fuel);
      var p := IdsFormPath(nodes, edges, v);
      LongWalkRunsIntoCycle(edges, NodeIds(nodes), p, NodeIds(nodes));
    }
  }

  /** With no cycle reachable from a node, a simulation given at least as
      many iterations as there are nodes finishes, and a larger budget gives
      the same result. */
  lemma SimulationTerminatesWhenAcyclic(nodes: seq<Node>, edges: seq<Edge>, fuel: nat, more: nat)
    requires |nodes| <= fuel <= more
    requires !CycleReachableFrom(edges, NodeIds(nodes))
    ensures Simulate(nodes, edges, fuel).Some?
    ensures Simulate(nodes, edges, more) == Simulate(nodes, edges, fuel)
  {
    match FindStart(nodes)
    case None =>
    case Some(start) =>
      WalkTerminatesWhenAcyclic(nodes, edges, start, fuel);
      FuelIsMonotone(nodes, edges, start, fuel, more);
  }

  // ---------------------------------------------------------------------
  // Properties of the recorded steps

  lemma KindNameIsEnd(k: Kind)
    ensures KindName(k) == "end" <==> k == End
  {
    if k != End {
      assert KindName(k)[0] != 'e' || |KindName(k)| != 3;
    }
  }

  /** Without a Start node the result is the single "No start node defined."
      step and the run is not completed. */
  lemma NoStartNode(nodes: seq<Node>, edges: seq<Edge>, fuel: nat)
    requires forall n :: n in nodes ==> n.kind != Start
    ensures Simulate(nodes, edges, fuel) == Some(SimResult([NoStartStep], false))
  {
  }

  /** A run with a Start node begins with the step of the first Start node. */
  lemma FirstStepIsStart(nodes: seq<Node>, edges: seq<Edge>, fuel: nat)
    requires Simulate(nodes, edges, fuel).Some? && FindStart(nodes).Some?
    ensures var r := Simulate(nodes, edges, fuel).value;
            |r.steps| > 0 && r.steps[0] == Describe(FindStart(nodes).value)
    ensures Simulate(nodes, edges, fuel).value.steps[0].nodeType == "start"
  {
  }

  /** Only the last visit of a route can be at an End node, and the route
      completes exactly when it is. */
  lemma RouteCompletion(nodes: seq<Node>, edges: seq<Edge>, n: Node, fuel: nat)
    requires Walk(nodes, edges, n, fuel).Some?
    ensures var r := Walk(nodes, edges, n, fuel).value;
            && (r.ending == ReachedEnd <==> Last(r.visits).kind == End)
            && (forall i :: 0 <= i < |r.visits| - 1 ==> r.visits[i].kind != End)
  {
    RouteFollowsFirstEdges(nodes, edges, n, fuel);
    RouteEnding(nodes, edges, n, fuel);
    var v := Walk(nodes, edges, n, fuel).value.visits;
    forall i | 0 <= i < |v| - 1 ensures v[i].kind != End {
      HopAt(nodes, edges, v, i);
    }
  }

  /** Rendering keeps that shape: only the last step can be an End step, and
      the result is completed exactly when it is. */
  lemma RenderedCompletion(route: Route)
    requires |route.visits| > 0
    requires route.ending == ReachedEnd <==> Last(route.visits).kind == End
    requires forall i :: 0 <= i < |route.visits| - 1 ==> route.visits[i].kind != End
    ensures var r := Render(route);
            |r.steps| > 0 && (r.completed <==> Last(r.steps).nodeType == "end")
    ensures var r := Render(route);
            forall i :: 0 <= i < |r.steps| - 1 ==> r.steps[i].nodeType != "end"
  {
    var v := route.visits;
    var steps := Render(route).steps;
    forall i | 0 <= i < |steps| - 1 ensures steps[i].nodeType != "end" {
      assert steps[i] == Describe(v[i]);
      KindNameIsEnd(v[i].kind);
    }
    KindNameIsEnd(Last(v).kind);
  }

  /** A run is completed exactly when its last step is an End step, and no
      earlier step is one: the run stops right after reaching an End node. */
  lemma CompletedIffLastStepIsEnd(nodes: seq<Node>, edges: seq<Edge>, fuel: nat)
    requires Simulate(nodes, edges, fuel).Some?
    ensures var r := Simulate(nodes, edges, fuel).value;
            |r.steps| > 0 && (r.completed <==> Last(r.steps).nodeType == "end")
    ensures var r := Simulate(nodes, edges, fuel).value;
            forall i :: 0 <= i < |r.steps| - 1 ==> r.steps[i].nodeType != "end"
  {
    match FindStart(nodes)
    case None =>
    case Some(start) =>
      RouteCompletion(nodes, edges, start, fuel);
      RenderedCompletion(Walk(nodes, edges, start, fuel).value);
  }

}
