/** The structural validator `validateGraph`: a reference description of the
    error list it must return (ExpectedErrors, stated with walks and cycles),
    the imperative validator with its breadth-first reachability pass, and
    lemmas that read each check back out of the error list. */
module Validation {
  import opened Graph
  import opened CycleSearch

  datatype ValidationError =
    | WorkflowEmpty
    | MissingStart
    | MultipleStarts
    | MissingEnd
    | StartHasIncoming
    | NoOutgoing(nodeLabel: string)
    | Unreachable(nodeLabel: string)
    | HasCycle

  /** The text pushed onto the error list for each kind of defect. */
  function Message(e: ValidationError): string {
    match e
    case WorkflowEmpty => "Workflow is empty."
    case MissingStart => "Workflow must have a Start node."
    case MultipleStarts => "Workflow can only have one Start node."
    case MissingEnd => "Workflow should have at least one End node."
    case StartHasIncoming => "Start node cannot have incoming connections."
    case NoOutgoing(l) => "Node \"" + l + "\" has no outgoing connections."
    case Unreachable(l) => "Node \"" + l + "\" is unreachable from the Start node."
    case HasCycle => "Workflow contains at least one cycle."
  }

  /** The texts of an error list, in order: the strings the source returns. */
  function Messages(errs: seq<ValidationError>): (texts: seq<string>)
    ensures |texts| == |errs|
    ensures forall i :: 0 <= i < |errs| ==> texts[i] == Message(errs[i])
  {
    seq(|errs|, i requires 0 <= i < |errs| => Message(errs[i]))
  }

  /** `nodes.filter(n => type(n) === k)`. */
  function NodesOfKind(nodes: seq<Node>, k: Kind): (r: seq<Node>)
    ensures |r| <= |nodes|
    ensures forall n :: n in r <==> n in nodes && n.kind == k
  {
    if |nodes| == 0 then []
    else
      var rest := NodesOfKind(nodes[..|nodes| - 1], k);
      assert forall n :: n in nodes <==> n in nodes[..|nodes| - 1] || n == Last(nodes);
      if Last(nodes).kind == k then rest + [Last(nodes)] else rest
  }

  /** `edges.filter(e => e.target === id)`. */
  function EdgesInto(edges: seq<Edge>, id: Id): (r: seq<Edge>)
    ensures forall e :: e in r <==> e in edges && e.target == id
  {
    if |edges| == 0 then []
    else
      var rest := EdgesInto(edges[..|edges| - 1], id);
      assert forall e :: e in edges <==> e in edges[..|edges| - 1] || e == Last(edges);
      if Last(edges).target == id then rest + [Last(edges)] else rest
  }

  // ---------------------------------------------------------------------
  // What the validator must report

  function StartCount(nodes: seq<Node>): nat {
    |NodesOfKind(nodes, Start)|
  }

  /** The Start node, when there is exactly one. */
  function TheStart(nodes: seq<Node>): Node
    requires StartCount(nodes) == 1
  {
    NodesOfKind(nodes, Start)[0]
  }

  ghost predicate HasIncoming(edges: seq<Edge>, id: Id) {
    exists e :: e in edges && e.target == id
  }

  /** A node other than End that no edge leaves. */
  ghost predicate IsDeadEnd(n: Node, edges: seq<Edge>) {
    n.kind != End && forall e :: e in edges ==> e.source != n.id
  }

  /** One NoOutgoing error per dead-end node, in node order. */
  ghost function DeadEndErrors(nodes: seq<Node>, edges: seq<Edge>): seq<ValidationError> {
    if |nodes| == 0 then []
    else DeadEndErrors(nodes[..|nodes| - 1], edges) +
         (if IsDeadEnd(Last(nodes), edges) then [NoOutgoing(LabelForNode(Last(nodes)))] else [])
  }

  /** One Unreachable error per node that no walk from `from` reaches, in
      node order. */
  ghost function UnreachableErrors(nodes: seq<Node>, edges: seq<Edge>, from: Id): seq<ValidationError> {
    if |nodes| == 0 then []
    else UnreachableErrors(nodes[..|nodes| - 1], edges, from) +
         (if !Reaches(edges, from, Last(nodes).id) then [Unreachable(LabelForNode(Last(nodes)))] else [])
  }

  ghost function ReachabilityErrors(nodes: seq<Node>, edges: seq<Edge>): seq<ValidationError> {
    if StartCount(nodes) == 1 then UnreachableErrors(nodes, edges, TheStart(nodes).id) else []
  }

  /** The error e if the check reports it, else nothing. */
  function Opt(reported: bool, e: ValidationError): seq<ValidationError> {
    if reported then [e] else []
  }

  /** The error list of a non-empty graph, in the order the checks run,
      from the outcomes of the individual checks: the number of Start and of
      End nodes, whether an edge enters the (single) Start node, the
      per-node reports, and whether a cycle was found. */
  function ErrorList(starts: nat, ends: nat, startEntered: bool, deadEnds: seq<ValidationError>,
                     unreachable: seq<ValidationError>, cyclic: bool): seq<ValidationError>
  {
    Opt(starts == 0, MissingStart) + Opt(starts > 1, MultipleStarts) + Opt(ends == 0, MissingEnd) +
    Opt(startEntered, StartHasIncoming) + deadEnds + unreachable + Opt(cyclic, HasCycle)
  }

  lemma ErrorListParts(starts: nat, ends: nat, startEntered: bool, deadEnds: seq<ValidationError>,
                       unreachable: seq<ValidationError>, cyclic: bool)
    ensures ErrorList(starts, ends, startEntered, deadEnds, unreachable, cyclic) ==
              ErrorList(starts, ends, startEntered, [], [], false) + deadEnds + unreachable +
              Opt(cyclic, HasCycle)
  {
  }

  /** The complete error list. */
  ghost function ExpectedErrors(nodes: seq<Node>, edges: seq<Edge>): seq<ValidationError> {
    if |nodes| == 0 then [WorkflowEmpty]
    else ErrorList(StartCount(nodes), |NodesOfKind(nodes, End)|,
                   StartCount(nodes) == 1 && HasIncoming(edges, TheStart(nodes).id),
                   DeadEndErrors(nodes, edges), ReachabilityErrors(nodes, edges),
                   CycleReachableFrom(edges, NodeIds(nodes)))
  }

  // ---------------------------------------------------------------------
  // The validator

  /** The position of the first edge of `outs` that leads to x, or `|outs|`
      when none does. */
  ghost function FirstEdgeTo(outs: seq<Edge>, x: Id): (k: nat)
    ensures k <= |outs|
    ensures k < |outs| ==> outs[k].target == x
    ensures forall j :: 0 <= j < k ==> outs[j].target != x
  {
    if |outs| == 0 || outs[0].target == x then 0
    else
      var k := 1 + FirstEdgeTo(outs[1..], x);
      assert forall j :: 1 <= j < k ==> outs[j] == outs[1..][j - 1];
      k
  }

  /** The ids are listed once each, in the order of their first edges. */
  ghost predicate InFirstEdgeOrder(outs: seq<Edge>, ids: seq<Id>) {
    forall i, j :: 0 <= i < j < |ids| ==> FirstEdgeTo(outs, ids[i]) < FirstEdgeTo(outs, ids[j])
  }

  /** An edge whose target no earlier edge leads to is that target's first edge. */
  lemma FirstEdgeAt(outs: seq<Edge>, k: nat)
    requires k < |outs| && outs[k].target !in Targets(outs[..k])
    ensures FirstEdgeTo(outs, outs[k].target) == k
  {
    forall j | 0 <= j < k ensures outs[j].target != outs[k].target {
      assert outs[..k][j] == outs[j];
    }
  }

  lemma AppendInFirstEdgeOrder(outs: seq<Edge>, ids: seq<Id>, x: Id, k: nat)
    requires InFirstEdgeOrder(outs, ids)
    requires forall i :: 0 <= i < |ids| ==> FirstEdgeTo(outs, ids[i]) < k
    requires FirstEdgeTo(outs, x) == k
    ensures InFirstEdgeOrder(outs, ids + [x])
    ensures forall i :: 0 <= i < |ids + [x]| ==> FirstEdgeTo(outs, (ids + [x])[i]) < k + 1
  {
    assert forall i :: 0 <= i < |ids| ==> (ids + [x])[i] == ids[i];
  }

  /** The `outs.forEach` step of the breadth-first pass: every target not yet
      marked is marked and appended to the queue, once, in the order of its
      first edge. */
  method EnqueueTargets(outs: seq<Edge>, visited: set<Id>, queue: seq<Id>)
    returns (visited': set<Id>, queue': seq<Id>)
    ensures visited' == visited + Targets(outs)
    ensures |queue'| >= |queue| && queue'[..|queue|] == queue
    ensures forall x :: x in queue'[|queue|..] <==> x in visited' - visited
    ensures InFirstEdgeOrder(outs, queue'[|queue|..])
    ensures visited' == visited ==> queue' == queue
  {
    visited', queue' := visited, queue;
    ghost var added: seq<Id> := [];
    for k := 0 to |outs|
      invariant visited' == visited + Targets(outs[..k])
      invariant queue' == queue + added
      invariant forall x :: x in added <==> x in visited' - visited
      invariant forall i :: 0 <= i < |added| ==> FirstEdgeTo(outs, added[i]) < k
      invariant InFirstEdgeOrder(outs, added)
    {
      var target := outs[k].target;
      assert outs[..k + 1][..k] == outs[..k];
      if target !in visited' {
        FirstEdgeAt(outs, k);
        AppendInFirstEdgeOrder(outs, added, target, k);
        visited' := visited' + {target};
        queue' := queue' + [target];
        added := added + [target];
      }
    }
    assert outs[..|outs|] == outs;
    assert queue'[|queue|..] == added;
    if added != [] {
      assert added[0] in added;
    }
  }

  /** The breadth-first pass: a queue seeded with `start`, each id marked
      when first pushed. The marked set is exactly what `start` reaches. */
  method ReachableFrom(outgoing: map<Id, seq<Edge>>, ghost edges: seq<Edge>, start: Id)
    returns (visited: set<Id>)
    requires IsOutgoingTable(outgoing, edges)
    ensures forall x :: x in visited <==> Reaches(edges, start, x)
  {
    ghost var universe := {start} + Targets(edges);
    visited := {start};
    var queue := [start];
    ReachesRefl(edges, start);
    while |queue| > 0
      invariant start in visited && visited <= universe
      invariant forall x :: x in queue ==> x in visited
      invariant forall x :: x in visited ==> Reaches(edges, start, x)
      invariant forall i :: 0 <= i < |edges| && edges[i].source in visited ==>
                  edges[i].target in visited || edges[i].source in queue
      decreases universe - visited, |queue|
    {
      var current := queue[0];
      var outs := Get(outgoing, current);
      ghost var visited0, rest := visited, queue[1..];
      visited, queue := EnqueueTargets(outs, visited, queue[1..]);
      forall e | e in outs ensures e in edges && e.source == current {
        assert e in EdgesFrom(edges, current);
      }
      forall x | x in visited - visited0 ensures Reaches(edges, start, x) && x in universe {
        var e :| e in outs && e.target == x;
        assert e.target in Targets(edges);
        ReachesStep(edges, start, current, x);
      }
      forall i | 0 <= i < |edges| && edges[i].source in visited
        ensures edges[i].target in visited || edges[i].source in queue
      {
        if edges[i].source == current {
          assert edges[i] in outs;
        } else if edges[i].source in rest {
          assert queue[..|rest|] == rest;
          var j :| 0 <= j < |rest| && rest[j] == edges[i].source;
          assert queue[j] == rest[j];
        } else if edges[i].source in visited - visited0 {
          assert edges[i].source in queue[|rest|..];
        }
      }
      forall x | x in queue ensures x in visited {
        if x !in queue[|rest|..] {
          var j :| 0 <= j < |queue| && queue[j] == x;
          assert queue[..|rest|] == rest;
          assert x == rest[j];
        }
      }
    }
    forall x | Reaches(edges, start, x) ensures x in visited {
      ClosedSetContainsReachable(edges, visited, start, x);
    }
  }

  /** The pass over the nodes that flags every non-End node without an
      outgoing edge. */
  method CheckDeadEnds(nodes: seq<Node>, outgoing: map<Id, seq<Edge>>, ghost edges: seq<Edge>)
    returns (errors: seq<ValidationError>)
    requires IsOutgoingTable(outgoing, edges)
    ensures errors == DeadEndErrors(nodes, edges)
  {
    errors := [];
    for i := 0 to |nodes|
      invariant errors == DeadEndErrors(nodes[..i], edges)
    {
      var n := nodes[i];
      var outs := Get(outgoing, n.id);
      assert nodes[..i + 1][..i] == nodes[..i];
      if n.kind != End && |outs| == 0 {
        errors := errors + [NoOutgoing(LabelForNode(n))];
      } else if n.kind != End {
        assert outs[0] in EdgesFrom(edges, n.id);
      }
    }
    assert nodes[..|nodes|] == nodes;
  }

  /** The reachability check: a breadth-first pass from the Start node, then
      one error per node it did not mark, in node order. */
  method CheckReachability(nodes: seq<Node>, outgoing: map<Id, seq<Edge>>, ghost edges: seq<Edge>, startId: Id)
    returns (errors: seq<ValidationError>)
    requires IsOutgoingTable(outgoing, edges)
    ensures errors == UnreachableErrors(nodes, edges, startId)
  {
    errors := [];
    var visited := ReachableFrom(outgoing, edges, startId);
    for i := 0 to |nodes|
      invariant errors == UnreachableErrors(nodes[..i], edges, startId)
    {
      assert nodes[..i + 1][..i] == nodes[..i];
      if nodes[i].id !in visited {
        errors := errors + [Unreachable(LabelForNode(nodes[i]))];
      }
    }
    assert nodes[..|nodes|] == nodes;
  }

  /** The cycle check: a depth-first search started from every node not yet
      visited, in node order, sharing one visited set; the first cycle found
      adds the error and ends the check. */
  method CheckCycles(nodes: seq<Node>, outgoing: map<Id, seq<Edge>>, ghost edges: seq<Edge>)
    returns (errors: seq<ValidationError>)
    requires IsOutgoingTable(outgoing, edges)
    ensures errors == if CycleReachableFrom(edges, NodeIds(nodes)) then [HasCycle] else []
  {
    errors := [];
    var search := new DepthFirstSearch(outgoing, edges, NodeIds(nodes));
    var hasCycle := search.SearchAll(nodes);
    if hasCycle {
      errors := errors + [HasCycle];
    } else {
      forall x | x in NodeIds(nodes) ensures x in search.rank {
        var n :| n in nodes && n.id == x;
        var j :| 0 <= j < |nodes| && nodes[j] == n;
      }
      NoCycleFromRanked(edges, search.rank, NodeIds(nodes));
    }
  }


  /** `validateGraph`: runs every check and returns all defects found, in
      the order the checks run. */
  method ValidateGraph(nodes: seq<Node>, edges: seq<Edge>) returns (errors: seq<ValidationError>)
    ensures errors == ExpectedErrors(nodes, edges)
  {
    errors := [];
    if |nodes| == 0 {
      errors := errors + [WorkflowEmpty];
      return;
    }
    var outgoing := BuildOutgoing(edges);
    var startNodes := NodesOfKind(nodes, Start);
    var endNodes := NodesOfKind(nodes, End);

    if |startNodes| == 0 {
      errors := errors + [MissingStart];
    } else if |startNodes| > 1 {
      errors := errors + [MultipleStarts];
    }
    if |endNodes| == 0 {
      errors := errors + [MissingEnd];
    }

    // the Start node must not have incoming edges
    if |startNodes| == 1 {
      var incomingToStart := EdgesInto(edges, startNodes[0].id);
      if |incomingToStart| > 0 {
        assert incomingToStart[0] in incomingToStart;
        errors := errors + [StartHasIncoming];
      } else {
        assert !HasIncoming(edges, startNodes[0].id);
      }
    }
    ghost var startEntered := |startNodes| == 1 && HasIncoming(edges, startNodes[0].id);
    ghost var counts := errors;
    assert counts == ErrorList(|startNodes|, |endNodes|, startEntered, [], [], false);

    var deadEnds := CheckDeadEnds(nodes, outgoing, edges);
    errors := errors + deadEnds;

    if |startNodes| == 1 {
      var unreachable := CheckReachability(nodes, outgoing, edges, startNodes[0].id);
      errors := errors + unreachable;
    }

    assert errors == counts + DeadEndErrors(nodes, edges) + ReachabilityErrors(nodes, edges);
    var cycles := CheckCycles(nodes, outgoing, edges);
    errors := errors + cycles;
    ErrorListParts(|startNodes|, |endNodes|, startEntered, DeadEndErrors(nodes, edges),
                   ReachabilityErrors(nodes, edges), CycleReachableFrom(edges, NodeIds(nodes)));
  }
}
