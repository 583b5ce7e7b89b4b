/** The graph snapshot shared by the validator and the simulator: nodes with a
    kind and a configuration, an insertion-ordered edge list, walks along edges,
    and the two lookup tables both operations build once per call
    (node by id, outgoing edges by source id). */
module Graph {

  datatype Option<T> = None | Some(value: T)

  type Id = string

  datatype Kind = Start | Task | Approval | Automated | Condition | End

  /** The node-configuration fields that the core reads. An absent text field
      is None; the source treats an absent field and "" alike (both are falsy).
      The approval threshold is kept as its rendered text. */
  datatype Config = Config(
    name: Option<string>,
    assignee: Option<string>,
    dueDate: Option<string>,
    approverRole: Option<string>,
    autoApproveThreshold: Option<string>,
    actionId: Option<string>,
    summaryFlag: bool)

  datatype Node = Node(id: Id, kind: Kind, config: Config)

  datatype Edge = Edge(source: Id, target: Id)

  /** The `type` string of a kind. */
  function KindName(k: Kind): string {
    match k
    case Start => "start"
    case Task => "task"
    case Approval => "approval"
    case Automated => "automated"
    case Condition => "condition"
    case End => "end"
  }

  /** JavaScript's `text || fallback` on an optional string. */
  function OrElse(text: Option<string>, fallback: string): (r: string)
    ensures text.Some? && text.value != "" ==> r == text.value
    ensures text.None? || text.value == "" ==> r == fallback
  {
    if text.Some? && text.value != "" then text.value else fallback
  }

  /** The label used in validation messages: the configured name, or
      "<type> (<id>)" when the node has none. */
  function LabelForNode(n: Node): (r: string)
    ensures |r| > 0
    ensures n.config.name.Some? && n.config.name.value != "" ==> r == n.config.name.value
    ensures n.config.name.None? || n.config.name.value == "" ==>
      |r| == |KindName(n.kind)| + |n.id| + 3 &&
      r[..|KindName(n.kind)|] == KindName(n.kind) &&
      r[|KindName(n.kind)|..|KindName(n.kind)| + 2] == " (" &&
      r[|KindName(n.kind)| + 2..|r| - 1] == n.id && r[|r| - 1] == ')'
  {
    OrElse(n.config.name, KindName(n.kind) + " (" + n.id + ")")
  }

  function Last<T>(s: seq<T>): T
    requires |s| > 0
  {
    s[|s| - 1]
  }

  /** The ids of the nodes, as a set. */
  function NodeIds(nodes: seq<Node>): (ids: set<Id>)
    ensures |ids| <= |nodes|
    ensures forall n :: n in nodes ==> n.id in ids
    ensures forall x :: x in ids ==> exists n :: n in nodes && n.id == x
  {
    if |nodes| == 0 then {} else NodeIds(nodes[..|nodes| - 1]) + {Last(nodes).id}
  }

  /** Every id an edge points to. */
  function Targets(edges: seq<Edge>): (ts: set<Id>)
    ensures forall e :: e in edges ==> e.target in ts
    ensures forall x :: x in ts ==> exists e :: e in edges && e.target == x
  {
    if |edges| == 0 then {}
    else
      assert forall e :: e in edges <==> e in edges[..|edges| - 1] || e == Last(edges);
      Targets(edges[..|edges| - 1]) + {Last(edges).target}
  }

  // ---------------------------------------------------------------------
  // Walks along edges

  /** p is a walk: every consecutive pair of ids is joined by an edge. */
  ghost predicate IsPath(edges: seq<Edge>, p: seq<Id>) {
    |p| > 0 && forall i, j :: 0 <= i && j == i + 1 && j < |p| ==> Edge(p[i], p[j]) in edges
  }

  /** b can be reached from a by following zero or more edges. */
  ghost predicate Reaches(edges: seq<Edge>, a: Id, b: Id) {
    exists p :: IsPath(edges, p) && p[0] == a && Last(p) == b
  }

  /** A walk that comes back to a vertex it has already visited. */
  ghost predicate IsLasso(edges: seq<Edge>, p: seq<Id>) {
    IsPath(edges, p) && exists i :: 0 <= i < |p| - 1 && p[i] == Last(p)
  }

  /** Some walk that starts at one of the roots runs into a cycle. */
  ghost predicate CycleReachableFrom(edges: seq<Edge>, roots: set<Id>) {
    exists p :: IsLasso(edges, p) && p[0] in roots
  }

  /** A closed walk of at least one edge. */
  ghost predicate IsCycle(edges: seq<Edge>, p: seq<Id>) {
    IsPath(edges, p) && |p| >= 2 && p[0] == Last(p)
  }

  lemma PathExtend(edges: seq<Edge>, p: seq<Id>, x: Id)
    requires IsPath(edges, p) && Edge(Last(p), x) in edges
    ensures IsPath(edges, p + [x])
  {
    var q := p + [x];
    forall i | 0 <= i < |q| - 1 ensures Edge(q[i], q[i + 1]) in edges {
      if i < |p| - 1 {
        assert q[i] == p[i] && q[i + 1] == p[i + 1];
      }
    }
  }

  lemma PathSlice(edges: seq<Edge>, p: seq<Id>, i: nat, j: nat)
    requires IsPath(edges, p) && i < j <= |p|
    ensures IsPath(edges, p[i..j])
  {
    var q := p[i..j];
    forall k | 0 <= k < |q| - 1 ensures Edge(q[k], q[k + 1]) in edges {
      assert q[k] == p[i + k] && q[k + 1] == p[i + k + 1];
    }
  }

  lemma ReachesRefl(edges: seq<Edge>, a: Id)
    ensures Reaches(edges, a, a)
  {
    assert IsPath(edges, [a]);
  }

  lemma ReachesStep(edges: seq<Edge>, a: Id, b: Id, c: Id)
    requires Reaches(edges, a, b) && Edge(b, c) in edges
    ensures Reaches(edges, a, c)
  {
    var p :| IsPath(edges, p) && p[0] == a && Last(p) == b;
    PathExtend(edges, p, c);
    assert (p + [c])[0] == a;
  }

  /** If a set contains a and every edge leaving the set ends inside it, it
      contains everything a reaches. */
  lemma {:induction false} ClosedSetContainsPath(edges: seq<Edge>, s: set<Id>, p: seq<Id>)
    requires IsPath(edges, p) && p[0] in s
    requires forall i :: 0 <= i < |edges| && edges[i].source in s ==> edges[i].target in s
    ensures Last(p) in s
  {
    if |p| > 1 {
      var e := Edge(p[0], p[1]);
      assert e in edges;
      var k :| 0 <= k < |edges| && edges[k] == e;
      PathSlice(edges, p, 1, |p|);
      ClosedSetContainsPath(edges, s, p[1..]);
    }
  }

  lemma ClosedSetContainsReachable(edges: seq<Edge>, s: set<Id>, a: Id, b: Id)
    requires a in s && Reaches(edges, a, b)
    requires forall i :: 0 <= i < |edges| && edges[i].source in s ==> edges[i].target in s
    ensures b in s
  {
    var p :| IsPath(edges, p) && p[0] == a && Last(p) == b;
    ClosedSetContainsPath(edges, s, p);
  }

  /** When every edge ends at a root (for instance, no edge leads outside the
      node ids), a walk from a root that runs into a cycle and a cycle through
      a root are the same thing. */
  lemma LassoIffCycle(edges: seq<Edge>, roots: set<Id>)
    requires forall e :: e in edges ==> e.target in roots
    ensures CycleReachableFrom(edges, roots) <==> exists c :: IsCycle(edges, c) && c[0] in roots
  {
    if CycleReachableFrom(edges, roots) {
      var p :| IsLasso(edges, p) && p[0] in roots;
      var i :| 0 <= i < |p| - 1 && p[i] == Last(p);
      PathSlice(edges, p, i, |p|);
      var c := p[i..];
      assert Edge(p[|p| - 2], p[|p| - 1]) in edges;
      assert IsCycle(edges, c) && c[0] in roots;
    }
    if exists c :: IsCycle(edges, c) && c[0] in roots {
      var c :| IsCycle(edges, c) && c[0] in roots;
      assert IsLasso(edges, c);
    }
  }

  /** Pigeonhole: a walk longer than the set of ids it stays in repeats one. */
  lemma {:induction false} Pigeonhole(p: seq<Id>, s: set<Id>)
    requires forall i :: 0 <= i < |p| ==> p[i] in s
    requires |p| > |s|
    ensures exists i, j :: 0 <= i < j < |p| && p[i] == p[j]
  {
    if p[0] in p[1..] {
      var j :| 1 <= j < |p| && p[j] == p[0];
    } else {
      forall i | 0 <= i < |p| - 1 ensures p[1..][i] in s - {p[0]} {
        assert p[1..][i] == p[i + 1];
      }
      Pigeonhole(p[1..], s - {p[0]});
      var i, j :| 0 <= i < j < |p| - 1 && p[1..][i] == p[1..][j];
      assert p[i + 1] == p[j + 1];
    }
  }

  /** A walk from a root that stays inside a set of ids and is longer than
      that set runs into a cycle. */
  lemma LongWalkRunsIntoCycle(edges: seq<Edge>, roots: set<Id>, p: seq<Id>, s: set<Id>)
    requires IsPath(edges, p) && p[0] in roots
    requires forall i :: 0 <= i < |p| ==> p[i] in s
    requires |p| > |s|
    ensures CycleReachableFrom(edges, roots)
  {
    Pigeonhole(p, s);
    var i, j :| 0 <= i < j < |p| && p[i] == p[j];
    PathSlice(edges, p, 0, j + 1);
    var lasso := p[..j + 1];
    assert lasso[i] == Last(lasso);
    assert IsLasso(edges, lasso);
  }

  // ---------------------------------------------------------------------
  // Lookup tables

  /** The node the id maps to in `new Map(nodes.map(n => [n.id, n]))`:
      the LAST node carrying that id. */
  function Lookup(nodes: seq<Node>, id: Id): (r: Option<Node>)
    ensures r.None? <==> forall n :: n in nodes ==> n.id != id
    ensures r.Some? ==> r.value.id == id && r.value in nodes
    ensures r.Some? ==>
              exists j :: 0 <= j < |nodes| && nodes[j] == r.value &&
                          forall k :: j < k < |nodes| ==> nodes[k].id != id
  {
    if |nodes| == 0 then None
    else if Last(nodes).id == id then Some(Last(nodes))
    else
      var r := Lookup(nodes[..|nodes| - 1], id);
      assert forall n :: n in nodes ==> n in nodes[..|nodes| - 1] || n == Last(nodes);
      r
  }

  /** The edges leaving `id`, in insertion order. */
  function EdgesFrom(edges: seq<Edge>, id: Id): (r: seq<Edge>)
    ensures |r| <= |edges|
    ensures forall e :: e in r <==> e in edges && e.source == id
  {
    if |edges| == 0 then []
    else
      var rest := EdgesFrom(edges[..|edges| - 1], id);
      assert forall e :: e in edges <==> e in edges[..|edges| - 1] || e == Last(edges);
      if Last(edges).source == id then rest + [Last(edges)] else rest
  }

  /** `pos` lists, in increasing order, exactly the positions of `xs` whose
      element `keep` accepts, and `r` holds those elements in that order. */
  ghost predicate ListsKeptPositions<T>(xs: seq<T>, keep: T -> bool, r: seq<T>, pos: seq<int>) {
    && |pos| == |r|
    && (forall i :: 0 <= i < |pos| ==> 0 <= pos[i] < |xs| && xs[pos[i]] == r[i])
    && (forall i, j :: 0 <= i < j < |pos| ==> pos[i] < pos[j])
    && (forall k :: 0 <= k < |xs| && keep(xs[k]) ==> k in pos)
  }

  /** Filtering one more element onto the end keeps the positions listed. */
  lemma SnocKeptPositions<T>(xs: seq<T>, keep: T -> bool, r: seq<T>, pos: seq<int>, x: T)
    requires ListsKeptPositions(xs, keep, r, pos)
    ensures keep(x) ==> ListsKeptPositions(xs + [x], keep, r + [x], pos + [|xs|])
    ensures !keep(x) ==> ListsKeptPositions(xs + [x], keep, r, pos)
  {
    var ys := xs + [x];
    assert forall k :: 0 <= k < |xs| ==> ys[k] == xs[k];
    if keep(x) {
      var pos', r' := pos + [|xs|], r + [x];
      assert forall i :: 0 <= i < |pos| ==> pos'[i] == pos[i] && r'[i] == r[i];
      forall k | 0 <= k < |ys| && keep(ys[k]) ensures k in pos' {
        if k < |xs| {
          var i :| 0 <= i < |pos| && pos[i] == k;
          assert pos'[i] == k;
        } else {
          assert pos'[|pos|] == k;
        }
      }
    }
  }

  /** The edges leaving `id` are listed at exactly their positions in the
      edge list, in increasing position order: `pos[i]` is the position of
      the i-th listed edge. */
  lemma {:induction false} EdgesFromPositions(edges: seq<Edge>, id: Id) returns (pos: seq<int>)
    ensures ListsKeptPositions(edges, (e: Edge) => e.source == id, EdgesFrom(edges, id), pos)
    decreases |edges|
  {
    if |edges| == 0 {
      pos := [];
    } else {
      var init := edges[..|edges| - 1];
      var before := EdgesFromPositions(init, id);
      assert edges == init + [Last(edges)];
      SnocKeptPositions(init, (e: Edge) => e.source == id, EdgesFrom(init, id), before, Last(edges));
      pos := if Last(edges).source == id then before + [|init|] else before;
    }
  }

  /** The first listed edge of `id` is the earliest edge of the whole list
      that leaves `id`. */
  lemma FirstOutgoingEdge(edges: seq<Edge>, id: Id)
    ensures |EdgesFrom(edges, id)| > 0 ==>
              exists k :: 0 <= k < |edges| && edges[k] == EdgesFrom(edges, id)[0] &&
                          forall j :: 0 <= j < k ==> edges[j].source != id
  {
    var pos := EdgesFromPositions(edges, id);
    if |pos| > 0 {
      assert forall i :: 0 <= i < |pos| ==> pos[0] <= pos[i];
      assert forall j :: 0 <= j < pos[0] ==> j !in pos;
    }
  }

  function Get<K, V>(m: map<K, seq<V>>, k: K): seq<V> {
    if k in m then m[k] else []
  }

  /** The map from source id to outgoing edges agrees with the edge list. */
  ghost predicate IsOutgoingTable(outgoing: map<Id, seq<Edge>>, edges: seq<Edge>) {
    forall id :: Get(outgoing, id) == EdgesFrom(edges, id)
  }

  /** Builds the outgoing-edge table with one pass over the edges, appending
      each edge to its source's list. */
  method BuildOutgoing(edges: seq<Edge>) returns (outgoing: map<Id, seq<Edge>>)
    ensures IsOutgoingTable(outgoing, edges)
  {
    outgoing := map[];
    for i := 0 to |edges|
      invariant IsOutgoingTable(outgoing, edges[..i])
    {
      var e := edges[i];
      assert edges[..i + 1][..i] == edges[..i];
      outgoing := outgoing[e.source := Get(outgoing, e.source) + [e]];
    }
    assert edges[..|edges|] == edges;
  }

  /** Builds the id-to-node table with one pass over the nodes; a later node
      with the same id replaces an earlier one. */
  method BuildById(nodes: seq<Node>) returns (byId: map<Id, Node>)
    ensures forall id :: (if id in byId then Some(byId[id]) else None) == Lookup(nodes, id)
  {
    byId := map[];
    for i := 0 to |nodes|
      invariant forall id :: (if id in byId then Some(byId[id]) else None) == Lookup(nodes[..i], id)
    {
      assert nodes[..i + 1][..i] == nodes[..i];
      byId := byId[nodes[i].id := nodes[i]];
    }
    assert nodes[..|nodes|] == nodes;
  }
}
