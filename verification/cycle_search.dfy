/** The validator's depth-first cycle search. The recursive `dfs` closure of
    the source shares two mutable sets, `visited` and `inStack`, across all of
    its calls and across the roots it is started from; here they are the fields
    of one object. Ghost fields record what the proof needs: the recursion
    stack as a walk, and the order in which vertices were finished. */
module CycleSearch {
  import opened Graph

  /** Every edge that leaves a ranked vertex ends in a ranked vertex of
      strictly smaller rank. */
  ghost predicate RankedClosed(edges: seq<Edge>, rank: map<Id, nat>) {
    forall i :: 0 <= i < |edges| && edges[i].source in rank ==>
      edges[i].target in rank && rank[edges[i].target] < rank[edges[i].source]
  }

  lemma {:induction false} RankedPathDescends(edges: seq<Edge>, rank: map<Id, nat>, p: seq<Id>)
    requires IsPath(edges, p) && p[0] in rank && RankedClosed(edges, rank)
    ensures forall i :: 0 <= i < |p| ==> p[i] in rank
    ensures forall i, j :: 0 <= i < j < |p| ==> rank[p[j]] < rank[p[i]]
  {
    if |p| > 1 {
      assert Edge(p[0], p[1]) in edges;
      var k :| 0 <= k < |edges| && edges[k] == Edge(p[0], p[1]);
      PathSlice(edges, p, 1, |p|);
      var q := p[1..];
      RankedPathDescends(edges, rank, q);
      forall i | 0 <= i < |p| ensures p[i] in rank {
        if i > 0 { assert p[i] == q[i - 1]; }
      }
      forall i, j | 0 <= i < j < |p| ensures rank[p[j]] < rank[p[i]] {
        assert p[j] == q[j - 1];
        if i > 0 {
          assert p[i] == q[i - 1];
        } else if j > 1 {
          assert p[1] == q[0];
        }
      }
    }
  }

  /** Finishing a vertex whose successors are all ranked below the clock
      keeps the ranking closed. */
  lemma FinishKeepsRanking(edges: seq<Edge>, rank: map<Id, nat>, u: Id, clock: nat)
    requires RankedClosed(edges, rank) && u !in rank
    requires forall x :: x in rank ==> rank[x] < clock
    requires forall i :: 0 <= i < |edges| && edges[i].source == u ==> edges[i].target in rank
    ensures RankedClosed(edges, rank[u := clock])
  {
  }

  /** An edge from the top of the stack back onto the stack closes a cycle
      that a root reaches. */
  lemma BackEdgeClosesCycle(edges: seq<Edge>, roots: set<Id>, stack: seq<Id>, target: Id)
    requires IsPath(edges, stack) && stack[0] in roots
    requires Edge(Last(stack), target) in edges && target in stack
    ensures CycleReachableFrom(edges, roots)
  {
    PathExtend(edges, stack, target);
    var i :| 0 <= i < |stack| && stack[i] == target;
    assert (stack + [target])[i] == target;
    assert IsLasso(edges, stack + [target]);
  }

  /** A ranking of every root rules out any walk from a root into a cycle. */
  lemma NoCycleFromRanked(edges: seq<Edge>, rank: map<Id, nat>, roots: set<Id>)
    requires RankedClosed(edges, rank) && roots <= rank.Keys
    ensures !CycleReachableFrom(edges, roots)
  {
    if CycleReachableFrom(edges, roots) {
      var p :| IsLasso(edges, p) && p[0] in roots;
      RankedPathDescends(edges, rank, p);
    }
  }

  class DepthFirstSearch {
    const outgoing: map<Id, seq<Edge>>
    ghost const edges: seq<Edge>
    /** The ids the search may be started from (the node ids). */
    ghost const roots: set<Id>
    /** Every id the search can ever mark: the roots and all edge targets. */
    ghost const universe: set<Id>

    var visited: set<Id>
    var inStack: set<Id>
    /** The recursion stack, outermost call first. */
    ghost var stack: seq<Id>
    /** Finishing order of the vertices that are visited and off the stack. */
    ghost var rank: map<Id, nat>
    ghost var clock: nat

    /** The fixed inputs: the outgoing table agrees with the edges, and the
        universe is the roots and the edge targets. */
    ghost predicate Tables() {
      IsOutgoingTable(outgoing, edges) && universe == roots + Targets(edges)
    }

    ghost predicate Valid()
      reads this
    {
      && Tables()
      && visited <= universe
      && inStack <= visited
      && (forall x :: x in inStack <==> x in stack)
      && (stack != [] ==> IsPath(edges, stack) && stack[0] in roots)
      && rank.Keys == visited - inStack
      && (forall x :: x in rank ==> rank[x] < clock)
      && RankedClosed(edges, rank)
    }

    constructor (outgoing: map<Id, seq<Edge>>, ghost edges: seq<Edge>, ghost roots: set<Id>)
      requires IsOutgoingTable(outgoing, edges)
      ensures Valid()
      ensures this.outgoing == outgoing && this.edges == edges && this.roots == roots
      ensures visited == {} && inStack == {} && stack == []
    {
      this.outgoing := outgoing;
      this.edges := edges;
      this.roots := roots;
      this.universe := roots + Targets(edges);
      visited := {};
      inStack := {};
      stack := [];
      rank := map[];
      clock := 0;
    }

    /** Marks u as visited and pushes it on the stack (the first two
        statements of `dfs`). */
    method Enter(u: Id)
      requires Valid()
      requires u in universe && u !in visited
      requires if stack == [] then u in roots else Edge(Last(stack), u) in edges
      modifies this
      ensures Valid()
      ensures visited == old(visited) + {u} && inStack == old(inStack) + {u}
      ensures stack == old(stack) + [u] && rank == old(rank) && clock == old(clock)
    {
      visited := visited + {u};
      inStack := inStack + {u};
      if stack == [] {
        assert IsPath(edges, [u]);
      } else {
        PathExtend(edges, stack, u);
      }
      stack := stack + [u];
    }

    /** Pops u, whose successors are all finished, and finishes it (the
        `inStack.delete` at the end of `dfs`). */
    method Leave(u: Id)
      requires Valid()
      requires stack != [] && Last(stack) == u && u !in stack[..|stack| - 1]
      requires forall i :: 0 <= i < |edges| && edges[i].source == u ==> edges[i].target in rank
      modifies this
      ensures Valid()
      ensures visited == old(visited) && inStack == old(inStack) - {u}
      ensures stack == old(stack)[..|old(stack)| - 1]
    {
      ghost var s := stack[..|stack| - 1];
      inStack := inStack - {u};
      if s != [] {
        PathSlice(edges, stack, 0, |s|);
      }
      assert forall x :: x in stack <==> x in s || x == u;
      stack := s;
      FinishKeepsRanking(edges, rank, u, clock);
      rank := rank[u := clock];
      clock := clock + 1;
    }

    lemma OutgoingEdgesLeave(u: Id, outs: seq<Edge>)
      requires Tables() && outs == Get(outgoing, u)
      ensures forall j :: 0 <= j < |outs| ==> outs[j] == Edge(u, outs[j].target) && outs[j].target in universe
    {
      assert forall j :: 0 <= j < |outs| ==> outs[j] in EdgesFrom(edges, u);
    }

    lemma OutgoingEdgesListed(u: Id, outs: seq<Edge>)
      requires Tables() && outs == Get(outgoing, u)
      ensures forall i :: 0 <= i < |edges| && edges[i].source == u ==> edges[i] in outs
    {
    }

    /** Visits u and everything it reaches that is not yet visited. Reports
        true as soon as an edge leads back onto the stack; otherwise u is
        finished and the stack is as before. */
    method Dfs(u: Id) returns (found: bool)
      requires Valid()
      requires u in universe && u !in visited
      requires if stack == [] then u in roots else Edge(Last(stack), u) in edges
      modifies this
      decreases universe - visited, 0
      ensures found ==> CycleReachableFrom(edges, roots)
      ensures !found ==> Valid() && u in visited && old(visited) <= visited
      ensures !found ==> stack == old(stack) && inStack == old(inStack)
    {
      Enter(u);
      assert stack[..|stack| - 1] == old(stack);
      found := FollowEdges(u);
      if !found {
        Leave(u);
      }
    }

    /** The loop of `dfs` over the edges leaving u, with u on top of the
        stack: an unvisited target is searched, a target on the stack is a
        cycle, a finished target is skipped. */
    method FollowEdges(u: Id) returns (found: bool)
      requires Valid()
      requires stack != [] && Last(stack) == u && u !in stack[..|stack| - 1]
      modifies this
      decreases universe - visited, 1
      ensures found ==> CycleReachableFrom(edges, roots)
      ensures !found ==> Valid() && old(visited) <= visited
      ensures !found ==> stack == old(stack) && inStack == old(inStack)
      ensures !found ==> forall i :: 0 <= i < |edges| && edges[i].source == u ==> edges[i].target in rank
    {
      found := false;
      ghost var finished: set<Id> := {};
      var outs := Get(outgoing, u);
      OutgoingEdgesLeave(u, outs);
      for k := 0 to |outs|
        invariant Valid()
        invariant stack == old(stack) && inStack == old(inStack) && old(visited) <= visited
        invariant finished <= visited - inStack
        invariant forall j :: 0 <= j < k ==> outs[j].target in finished
      {
        var target := outs[k].target;
        if target !in visited {
          found := Dfs(target);
          if found {
            return;
          }
        } else if target in inStack {
          BackEdgeClosesCycle(edges, roots, stack, target);
          found := true;
          return;
        }
        finished := finished + {target};
      }
      OutgoingEdgesListed(u, outs);
    }

    /** The outer loop of the cycle check: a search from every node not yet
        visited, in node order, sharing one visited set, until a search finds
        a cycle. Without a cycle every node ends up visited. */
    method SearchAll(nodes: seq<Node>) returns (found: bool)
      requires Valid() && stack == [] && inStack == {}
      requires NodeIds(nodes) <= roots
      modifies this
      ensures found ==> CycleReachableFrom(edges, roots)
      ensures !found ==> Valid() && stack == [] && inStack == {}
      ensures !found ==> forall j :: 0 <= j < |nodes| ==> nodes[j].id in visited
    {
      found := false;
      for i := 0 to |nodes|
        invariant Valid() && stack == [] && inStack == {}
        invariant forall j :: 0 <= j < i ==> nodes[j].id in visited
      {
        if nodes[i].id !in visited {
          found := Dfs(nodes[i].id);
          if found {
            return;
          }
        }
      }
    }
  }
}
