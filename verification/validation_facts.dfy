/** What the error list of the validator says about the graph: each check
    contributes its own errors, at most once for the graph-wide checks and
    once per offending node for the per-node checks, and an empty list means
    exactly that the graph is well formed. */
module ValidationFacts {
  import opened Graph
  import opened Validation

  /** The errors of the list that `keep` accepts, in order. */
  function Select(errs: seq<ValidationError>, keep: ValidationError -> bool): (r: seq<ValidationError>)
    ensures |r| <= |errs|
    ensures forall e :: e in r <==> e in errs && keep(e)
  {
    if |errs| == 0 then []
    else
      assert forall e :: e in errs <==> e == errs[0] || e in errs[1..];
      (if keep(errs[0]) then [errs[0]] else []) + Select(errs[1..], keep)
  }

  lemma {:induction false} SelectAppend(a: seq<ValidationError>, b: seq<ValidationError>, keep: ValidationError -> bool)
    ensures Select(a + b, keep) == Select(a, keep) + Select(b, keep)
  {
    if |a| == 0 {
      assert a + b == b;
    } else {
      assert (a + b)[1..] == a[1..] + b;
      SelectAppend(a[1..], b, keep);
    }
  }

  lemma {:induction false} SelectAll(a: seq<ValidationError>, keep: ValidationError -> bool)
    requires forall e :: e in a ==> keep(e)
    ensures Select(a, keep) == a
  {
    if |a| > 0 {
      assert forall e :: e in a[1..] ==> e in a;
      SelectAll(a[1..], keep);
      assert [a[0]] + a[1..] == a;
    }
  }

  lemma {:induction false} SelectNone(a: seq<ValidationError>, keep: ValidationError -> bool)
    requires forall e :: e in a ==> !keep(e)
    ensures Select(a, keep) == []
  {
    if |a| > 0 {
      assert forall e :: e in a[1..] ==> e in a;
      SelectNone(a[1..], keep);
    }
  }

  /** Selecting from a list whose middle part is all kept and whose other
      parts are all dropped yields the middle part. */
  lemma SelectMiddle(before: seq<ValidationError>, mid: seq<ValidationError>, after: seq<ValidationError>,
                     keep: ValidationError -> bool)
    requires forall e :: e in before ==> !keep(e)
    requires forall e :: e in mid ==> keep(e)
    requires forall e :: e in after ==> !keep(e)
    ensures Select(before + mid + after, keep) == mid
  {
    SelectAppend(before + mid, after, keep);
    SelectAppend(before, mid, keep);
    SelectNone(before, keep);
    SelectAll(mid, keep);
    SelectNone(after, keep);
  }

  /** How many times x occurs in the list. */
  function Occurrences(errs: seq<ValidationError>, x: ValidationError): (r: nat)
    ensures r <= |errs|
    ensures r > 0 <==> x in errs
  {
    if |errs| == 0 then 0
    else
      assert forall e :: e in errs <==> e == errs[0] || e in errs[1..];
      (if errs[0] == x then 1 else 0) + Occurrences(errs[1..], x)
  }

  lemma OccurrencesOpt(reported: bool, e: ValidationError, x: ValidationError)
    ensures Occurrences(Opt(reported, e), x) == if reported && e == x then 1 else 0
  {
    if reported {
      assert [e][1..] == [];
    }
  }

  lemma {:induction false} OccurrencesAppend(a: seq<ValidationError>, b: seq<ValidationError>, x: ValidationError)
    ensures Occurrences(a + b, x) == Occurrences(a, x) + Occurrences(b, x)
  {
    if |a| == 0 {
      assert a + b == b;
    } else {
      assert (a + b)[1..] == a[1..] + b;
      OccurrencesAppend(a[1..], b, x);
    }
  }

  /** The nodes of kind k are listed at exactly their positions in the node
      list, in increasing position order, so the list is as long as the
      number of such positions. */
  lemma {:induction false} NodesOfKindPositions(nodes: seq<Node>, k: Kind) returns (pos: seq<int>)
    ensures ListsKeptPositions(nodes, (n: Node) => n.kind == k, NodesOfKind(nodes, k), pos)
    decreases |nodes|
  {
    if |nodes| == 0 {
      pos := [];
    } else {
      var init := nodes[..|nodes| - 1];
      var before := NodesOfKindPositions(init, k);
      assert nodes == init + [Last(nodes)];
      SnocKeptPositions(init, (n: Node) => n.kind == k, NodesOfKind(init, k), before, Last(nodes));
      pos := if Last(nodes).kind == k then before + [|init|] else before;
    }
  }

  /** What the Start-count checks read from the filtered list: it is empty
      exactly when no node has the kind, longer than one exactly when two
      positions have it, and its head is the first node of the kind. */
  lemma KindCount(nodes: seq<Node>, k: Kind)
    ensures |NodesOfKind(nodes, k)| == 0 <==> forall j :: 0 <= j < |nodes| ==> nodes[j].kind != k
    ensures |NodesOfKind(nodes, k)| > 1 <==>
              exists i, j :: 0 <= i < j < |nodes| && nodes[i].kind == k && nodes[j].kind == k
    ensures |NodesOfKind(nodes, k)| > 0 ==>
              exists j :: 0 <= j < |nodes| && nodes[j] == NodesOfKind(nodes, k)[0] &&
                          forall i :: 0 <= i < j ==> nodes[i].kind != k
  {
    var r := NodesOfKind(nodes, k);
    if |r| > 0 {
      assert r[0] in r;
    }
    KindCountMany(nodes, k);
    FirstOfKind(nodes, k);
  }

  lemma KindCountMany(nodes: seq<Node>, k: Kind)
    ensures |NodesOfKind(nodes, k)| > 1 <==>
              exists i, j :: 0 <= i < j < |nodes| && nodes[i].kind == k && nodes[j].kind == k
  {
    if |NodesOfKind(nodes, k)| > 1 {
      TwoOfKind(nodes, k);
    }
    if exists i, j :: 0 <= i < j < |nodes| && nodes[i].kind == k && nodes[j].kind == k {
      var i, j :| 0 <= i < j < |nodes| && nodes[i].kind == k && nodes[j].kind == k;
      TwoPositionsOfKind(nodes, k, i, j);
    }
  }

  lemma TwoOfKind(nodes: seq<Node>, k: Kind)
    requires |NodesOfKind(nodes, k)| > 1
    ensures exists i, j :: 0 <= i < j < |nodes| && nodes[i].kind == k && nodes[j].kind == k
  {
    var r := NodesOfKind(nodes, k);
    var pos := NodesOfKindPositions(nodes, k);
    assert r[0] in r && r[1] in r;
    assert nodes[pos[0]] == r[0] && nodes[pos[1]] == r[1] && pos[0] < pos[1];
  }

  lemma TwoPositionsOfKind(nodes: seq<Node>, k: Kind, i: nat, j: nat)
    requires i < j < |nodes| && nodes[i].kind == k && nodes[j].kind == k
    ensures |NodesOfKind(nodes, k)| > 1
  {
    var pos := NodesOfKindPositions(nodes, k);
    var keep := (n: Node) => n.kind == k;
    assert keep(nodes[i]) && keep(nodes[j]);
    assert i in pos && j in pos;
    var a :| 0 <= a < |pos| && pos[a] == i;
    var b :| 0 <= b < |pos| && pos[b] == j;
    assert a != b;
  }

  lemma FirstOfKind(nodes: seq<Node>, k: Kind)
    ensures |NodesOfKind(nodes, k)| > 0 ==>
              exists j :: 0 <= j < |nodes| && nodes[j] == NodesOfKind(nodes, k)[0] &&
                          forall i :: 0 <= i < j ==> nodes[i].kind != k
  {
    var pos := NodesOfKindPositions(nodes, k);
    if |pos| > 0 {
      assert forall i :: 0 <= i < |pos| ==> pos[0] <= pos[i];
      assert forall j :: 0 <= j < pos[0] ==> j !in pos;
    }
  }

  predicate IsDeadEndReport(e: ValidationError) {
    e.NoOutgoing?
  }

  predicate IsUnreachableReport(e: ValidationError) {
    e.Unreachable?
  }

  /** The dead-end check contributes NoOutgoing errors only. */
  lemma {:induction false} DeadEndErrorsKind(nodes: seq<Node>, edges: seq<Edge>)
    ensures forall e :: e in DeadEndErrors(nodes, edges) ==> e.NoOutgoing?
  {
    if |nodes| > 0 {
      DeadEndErrorsKind(nodes[..|nodes| - 1], edges);
    }
  }

  /** The reachability check contributes Unreachable errors only. */
  lemma {:induction false} UnreachableErrorsKind(nodes: seq<Node>, edges: seq<Edge>, from: Id)
    ensures forall e :: e in UnreachableErrors(nodes, edges, from) ==> e.Unreachable?
  {
    if |nodes| > 0 {
      UnreachableErrorsKind(nodes[..|nodes| - 1], edges, from);
    }
  }

  /** The dead-end check reports only dead ends, reports every dead-end
      node, and is silent exactly when no node is a dead end. */
  lemma {:induction false} DeadEndErrorsShape(nodes: seq<Node>, edges: seq<Edge>)
    ensures |DeadEndErrors(nodes, edges)| <= |nodes|
    ensures forall n :: n in nodes && IsDeadEnd(n, edges) ==>
              NoOutgoing(LabelForNode(n)) in DeadEndErrors(nodes, edges)
    ensures forall l :: NoOutgoing(l) in DeadEndErrors(nodes, edges) ==>
              exists n :: n in nodes && IsDeadEnd(n, edges) && LabelForNode(n) == l
    ensures DeadEndErrors(nodes, edges) == [] <==> forall n :: n in nodes ==> !IsDeadEnd(n, edges)
  {
    if |nodes| > 0 {
      var init := nodes[..|nodes| - 1];
      DeadEndErrorsShape(init, edges);
      assert forall n :: n in nodes <==> n in init || n == Last(nodes);
    }
  }

  /** The reachability report lists only nodes the walk from `from` misses,
      lists all of them, and never lists a node carrying the id `from`. */
  lemma {:induction false} UnreachableErrorsShape(nodes: seq<Node>, edges: seq<Edge>, from: Id)
    ensures |UnreachableErrors(nodes, edges, from)| <= |nodes|
    ensures forall n :: n in nodes && !Reaches(edges, from, n.id) ==>
              Unreachable(LabelForNode(n)) in UnreachableErrors(nodes, edges, from)
    ensures forall l :: Unreachable(l) in UnreachableErrors(nodes, edges, from) ==>
              exists n :: n in nodes && !Reaches(edges, from, n.id) && LabelForNode(n) == l
    ensures UnreachableErrors(nodes, edges, from) == [] <==>
              forall n :: n in nodes ==> Reaches(edges, from, n.id)
    ensures (exists n :: n in nodes && n.id == from) ==> |UnreachableErrors(nodes, edges, from)| < |nodes|
  {
    ReachesRefl(edges, from);
    if |nodes| > 0 {
      var init := nodes[..|nodes| - 1];
      UnreachableErrorsShape(init, edges, from);
      assert forall n :: n in nodes <==> n in init || n == Last(nodes);
    }
  }

  // ---------------------------------------------------------------------
  // The error list, whatever the outcomes of the checks

  lemma {:induction false} OccurrencesAppend4(a: seq<ValidationError>, b: seq<ValidationError>,
                                              c: seq<ValidationError>, d: seq<ValidationError>, x: ValidationError)
    ensures Occurrences(a + b + c + d, x) ==
              Occurrences(a, x) + Occurrences(b, x) + Occurrences(c, x) + Occurrences(d, x)
  {
    OccurrencesAppend(a, b, x);
    OccurrencesAppend(a + b, c, x);
    OccurrencesAppend(a + b + c, d, x);
  }

  /** A graph-wide error occurs in the list once for each check whose
      outcome reports it. */
  lemma ErrorListCount(starts: nat, ends: nat, startEntered: bool, deadEnds: seq<ValidationError>,
                       unreachable: seq<ValidationError>, cyclic: bool, x: ValidationError)
    requires x !in deadEnds && x !in unreachable
    ensures Occurrences(ErrorList(starts, ends, startEntered, deadEnds, unreachable, cyclic), x) ==
              (if starts == 0 && x == MissingStart then 1 else 0) +
              (if starts > 1 && x == MultipleStarts then 1 else 0) +
              (if ends == 0 && x == MissingEnd then 1 else 0) +
              (if startEntered && x == StartHasIncoming then 1 else 0) +
              (if cyclic && x == HasCycle then 1 else 0)
  {
    var head := ErrorList(starts, ends, startEntered, [], [], false);
    OccurrencesOpt(starts == 0, MissingStart, x);
    OccurrencesOpt(starts > 1, MultipleStarts, x);
    OccurrencesOpt(ends == 0, MissingEnd, x);
    OccurrencesOpt(startEntered, StartHasIncoming, x);
    OccurrencesOpt(cyclic, HasCycle, x);
    assert head == Opt(starts == 0, MissingStart) + Opt(starts > 1, MultipleStarts) +
                   Opt(ends == 0, MissingEnd) + Opt(startEntered, StartHasIncoming);
    OccurrencesAppend4(Opt(starts == 0, MissingStart), Opt(starts > 1, MultipleStarts),
                       Opt(ends == 0, MissingEnd), Opt(startEntered, StartHasIncoming), x);
    ErrorListParts(starts, ends, startEntered, deadEnds, unreachable, cyclic);
    OccurrencesAppend4(head, deadEnds, unreachable, Opt(cyclic, HasCycle), x);
  }

  /** Each graph-wide error occurs at most once, as the outcome of its own
      check says, and the list never holds the empty-graph report. */
  lemma ErrorListCounts(starts: nat, ends: nat, startEntered: bool, deadEnds: seq<ValidationError>,
                        unreachable: seq<ValidationError>, cyclic: bool)
    requires forall e :: e in deadEnds ==> e.NoOutgoing?
    requires forall e :: e in unreachable ==> e.Unreachable?
    ensures var errs := ErrorList(starts, ends, startEntered, deadEnds, unreachable, cyclic);
            && Occurrences(errs, WorkflowEmpty) == 0
            && Occurrences(errs, MissingStart) == (if starts == 0 then 1 else 0)
            && Occurrences(errs, MultipleStarts) == (if starts > 1 then 1 else 0)
            && Occurrences(errs, MissingEnd) == (if ends == 0 then 1 else 0)
            && Occurrences(errs, StartHasIncoming) == (if startEntered then 1 else 0)
            && Occurrences(errs, HasCycle) == (if cyclic then 1 else 0)
  {
    ErrorListCount(starts, ends, startEntered, deadEnds, unreachable, cyclic, WorkflowEmpty);
    ErrorListCount(starts, ends, startEntered, deadEnds, unreachable, cyclic, MissingStart);
    ErrorListCount(starts, ends, startEntered, deadEnds, unreachable, cyclic, MultipleStarts);
    ErrorListCount(starts, ends, startEntered, deadEnds, unreachable, cyclic, MissingEnd);
    ErrorListCount(starts, ends, startEntered, deadEnds, unreachable, cyclic, StartHasIncoming);
    ErrorListCount(starts, ends, startEntered, deadEnds, unreachable, cyclic, HasCycle);
  }

  /** The per-node reports are the only NoOutgoing and Unreachable errors of
      the list, each kept in its own order. */
  lemma ErrorListReports(starts: nat, ends: nat, startEntered: bool, deadEnds: seq<ValidationError>,
                         unreachable: seq<ValidationError>, cyclic: bool)
    requires forall e :: e in deadEnds ==> e.NoOutgoing?
    requires forall e :: e in unreachable ==> e.Unreachable?
    ensures Select(ErrorList(starts, ends, startEntered, deadEnds, unreachable, cyclic), IsDeadEndReport) == deadEnds
    ensures Select(ErrorList(starts, ends, startEntered, deadEnds, unreachable, cyclic), IsUnreachableReport) == unreachable
  {
    var head := ErrorList(starts, ends, startEntered, [], [], false);
    var tail := Opt(cyclic, HasCycle);
    ErrorListParts(starts, ends, startEntered, deadEnds, unreachable, cyclic);
    assert head + deadEnds + unreachable + tail == head + deadEnds + (unreachable + tail);
    SelectMiddle(head, deadEnds, unreachable + tail, IsDeadEndReport);
    SelectMiddle(head + deadEnds, unreachable, tail, IsUnreachableReport);
  }

  lemma ErrorListEmpty(starts: nat, ends: nat, startEntered: bool, deadEnds: seq<ValidationError>,
                       unreachable: seq<ValidationError>, cyclic: bool)
    ensures ErrorList(starts, ends, startEntered, deadEnds, unreachable, cyclic) == [] <==>
              starts == 1 && ends > 0 && !startEntered && deadEnds == [] && unreachable == [] && !cyclic
  {
    ErrorListParts(starts, ends, startEntered, deadEnds, unreachable, cyclic);
  }

  // ---------------------------------------------------------------------
  // The error list of a graph

  /** The reachability report contributes Unreachable errors only. */
  lemma ReachabilityErrorsKind(nodes: seq<Node>, edges: seq<Edge>)
    ensures forall e :: e in ReachabilityErrors(nodes, edges) ==> e.Unreachable?
  {
    if StartCount(nodes) == 1 {
      UnreachableErrorsKind(nodes, edges, TheStart(nodes).id);
    }
  }

  /** An empty node list is reported as empty and as nothing else; any
      other list never is. */
  lemma EmptyWorkflow(nodes: seq<Node>, edges: seq<Edge>)
    ensures |nodes| == 0 <==> ExpectedErrors(nodes, edges) == [WorkflowEmpty]
    ensures WorkflowEmpty in ExpectedErrors(nodes, edges) <==> |nodes| == 0
  {
    if |nodes| > 0 {
      DeadEndErrorsKind(nodes, edges);
      ReachabilityErrorsKind(nodes, edges);
      ErrorListCounts(StartCount(nodes), |NodesOfKind(nodes, End)|,
                      StartCount(nodes) == 1 && HasIncoming(edges, TheStart(nodes).id),
                      DeadEndErrors(nodes, edges), ReachabilityErrors(nodes, edges),
                      CycleReachableFrom(edges, NodeIds(nodes)));
    }
  }

  /** How often each graph-wide error occurs in the list of a non-empty
      graph: the two Start-count errors exclude each other, the End check is
      independent of them, the incoming-edge check needs exactly one Start,
      and the cycle error appears at most once, for a cycle reachable from
      any node, not only from the Start node. */
  lemma GraphWideErrorCounts(nodes: seq<Node>, edges: seq<Edge>)
    requires |nodes| > 0
    ensures var errs := ExpectedErrors(nodes, edges);
            && Occurrences(errs, MissingStart) == (if forall n :: n in nodes ==> n.kind != Start then 1 else 0)
            && Occurrences(errs, MultipleStarts) == (if |NodesOfKind(nodes, Start)| > 1 then 1 else 0)
            && Occurrences(errs, MissingEnd) == (if forall n :: n in nodes ==> n.kind != End then 1 else 0)
            && Occurrences(errs, StartHasIncoming) ==
                 (if |NodesOfKind(nodes, Start)| == 1 && exists e :: e in edges && e.target == TheStart(nodes).id
                  then 1 else 0)
            && Occurrences(errs, HasCycle) == (if CycleReachableFrom(edges, NodeIds(nodes)) then 1 else 0)
  {
    DeadEndErrorsKind(nodes, edges);
    ReachabilityErrorsKind(nodes, edges);
    var starts := NodesOfKind(nodes, Start);
    var ends := NodesOfKind(nodes, End);
    ErrorListCounts(|starts|, |ends|, |starts| == 1 && HasIncoming(edges, TheStart(nodes).id),
                    DeadEndErrors(nodes, edges), ReachabilityErrors(nodes, edges),
                    CycleReachableFrom(edges, NodeIds(nodes)));
    if |starts| > 0 {
      assert starts[0] in starts;
    }
    if |ends| > 0 {
      assert ends[0] in ends;
    }
  }

  /** The NoOutgoing errors of the list are exactly the dead-end report, and
      the Unreachable errors exactly the reachability report, each in node
      order. */
  lemma PerNodeErrors(nodes: seq<Node>, edges: seq<Edge>)
    requires |nodes| > 0
    ensures Select(ExpectedErrors(nodes, edges), IsDeadEndReport) == DeadEndErrors(nodes, edges)
    ensures Select(ExpectedErrors(nodes, edges), IsUnreachableReport) == ReachabilityErrors(nodes, edges)
  {
    DeadEndErrorsKind(nodes, edges);
    ReachabilityErrorsKind(nodes, edges);
    ErrorListReports(StartCount(nodes), |NodesOfKind(nodes, End)|,
                     StartCount(nodes) == 1 && HasIncoming(edges, TheStart(nodes).id),
                     DeadEndErrors(nodes, edges), ReachabilityErrors(nodes, edges),
                     CycleReachableFrom(edges, NodeIds(nodes)));
  }

  /** A graph the validator accepts: exactly one Start node, which no edge
      enters and from which every node is reachable, at least one End node,
      an outgoing edge at every other node, and no walk from a node that
      runs into a cycle. */
  ghost predicate WellFormed(nodes: seq<Node>, edges: seq<Edge>) {
    && |NodesOfKind(nodes, Start)| == 1
    && (exists n :: n in nodes && n.kind == End)
    && (forall e :: e in edges ==> e.target != TheStart(nodes).id)
    && (forall n :: n in nodes && n.kind != End ==> exists e :: e in edges && e.source == n.id)
    && (forall n :: n in nodes ==> Reaches(edges, TheStart(nodes).id, n.id))
    && !CycleReachableFrom(edges, NodeIds(nodes))
  }

  /** The validator returns no error exactly for well-formed graphs. */
  lemma NoErrorsIffWellFormed(nodes: seq<Node>, edges: seq<Edge>)
    ensures ExpectedErrors(nodes, edges) == [] <==> WellFormed(nodes, edges)
  {
    if |nodes| > 0 {
      var starts := NodesOfKind(nodes, Start);
      var ends := NodesOfKind(nodes, End);
      ErrorListEmpty(|starts|, |ends|, |starts| == 1 && HasIncoming(edges, TheStart(nodes).id),
                     DeadEndErrors(nodes, edges), ReachabilityErrors(nodes, edges),
                     CycleReachableFrom(edges, NodeIds(nodes)));
      DeadEndErrorsShape(nodes, edges);
      if |starts| == 1 {
        UnreachableErrorsShape(nodes, edges, TheStart(nodes).id);
      }
      if |ends| > 0 {
        assert ends[0] in ends;
      }
    } else {
      assert |NodesOfKind(nodes, Start)| == 0;
    }
  }


  /** When every edge leads to a node, the cycle error is reported exactly
      when the edges among the nodes form a cycle. */
  lemma CycleErrorIffCycle(nodes: seq<Node>, edges: seq<Edge>)
    requires |nodes| > 0
    requires forall e :: e in edges ==> e.target in NodeIds(nodes)
    ensures HasCycle in ExpectedErrors(nodes, edges) <==>
              exists c :: IsCycle(edges, c) && c[0] in NodeIds(nodes)
  {
    GraphWideErrorCounts(nodes, edges);
    LassoIffCycle(edges, NodeIds(nodes));
  }
}
