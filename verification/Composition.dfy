/** The console's in-process check of a composition before execution (src/pi_console/services.py). */
module Composition {
  import opened Graphs

  datatype Edge = Edge(source: Id, target: Id)

  /** bounds is the request's global_bounds dictionary; missing keys take the defaults 64 and 8. */
  datatype Request = Request(nodes: seq<Id>, edges: seq<Edge>, bounds: map<string, int>) {
    function MaxTotalNodes(): int {
      if "max_total_nodes" in bounds then bounds["max_total_nodes"] else 64
    }
    function MaxDepth(): int {
      if "max_depth" in bounds then bounds["max_depth"] else 8
    }
    ghost function Relation(): Edges {
      set e | e in edges :: (e.source, e.target)
    }
  }

  datatype DagError = UnknownSource(id: Id) | UnknownTarget(id: Id) | CycleDetected
  datatype BoundsViolation = NodeCount(count: nat) | Depth(depth: nat)
  datatype RiskLevel = NONE | LOW | MEDIUM | HIGH | CRITICAL
  datatype Outcome =
    | KeyError(source: Id)
    | Report(dagErrors: seq<DagError>, boundsViolations: seq<BoundsViolation>,
             executionPlan: seq<Id>, riskLevel: RiskLevel, canExecute: bool)

  ghost function Vertices(adj: Adjacency): set<Id> {
    adj.Keys + set u, v | u in adj && v in adj[u] :: v
  }

  // ----- cycle detection

  ghost function Elems(p: seq<Id>): set<Id> {
    set x | x in p
  }

  /** No cycle starts in c. */
  ghost predicate CycleFree(g: Edges, c: set<Id>) {
    forall p :: IsCycle(g, p) ==> p[0] !in c
  }

  /** If v's successors all lie in a closed, cycle-free set without v, adding v keeps both properties. */
  lemma FinishVertex(g: Edges, black: set<Id>, v: Id)
    requires Closed(g, black) && CycleFree(g, black) && v !in black
    requires forall w :: (v, w) in g ==> w in black
    ensures Closed(g, black + {v}) && CycleFree(g, black + {v})
  {
    forall p | IsCycle(g, p) ensures p[0] !in black + {v} {
      if p[0] == v {
        assert (p[0], p[1]) in g;
        assert IsWalk(g, p[1..]);
        ClosedHoldsWalk(g, black, p[1..], |p| - 2);
      }
    }
  }

  /** An edge back to a vertex of the current path closes a cycle. */
  lemma BackEdge(g: Edges, path: seq<Id>, w: Id)
    requires IsWalk(g, path) && w in path && (path[|path| - 1], w) in g
    ensures Cyclic(g)
  {
    var i :| 0 <= i < |path| && path[i] == w;
    assert IsCycle(g, path[i..] + [w]);
  }

  /** The two sets that the nested recursive search shares between its activations. */
  class CycleSearch {
    const adj: Adjacency
    var visited: set<Id>
    var recStack: set<Id>

    constructor (adj: Adjacency)
      ensures this.adj == adj && visited == {} && recStack == {}
    {
      this.adj := adj;
      visited, recStack := {}, {};
    }

    /** recStack is the current path; everything visited off the path is finished: closed and cycle-free. */
    ghost predicate Valid(path: seq<Id>)
      reads this
    {
      && recStack == Elems(path)
      && recStack <= visited <= Vertices(adj)
      && Closed(Relation(adj), visited - recStack)
      && CycleFree(Relation(adj), visited - recStack)
    }

    method HasCycle(v: Id, ghost path: seq<Id>) returns (found: bool)
      requires Valid(path) && v in Vertices(adj) && v !in visited
      requires IsWalk(Relation(adj), path + [v])
      modifies this
      ensures old(visited) < visited && v in visited
      ensures found ==> Cyclic(Relation(adj))
      ensures !found ==> Valid(path)
      decreases Vertices(adj) - visited
    {
      ghost var g, here := Relation(adj), path + [v];
      ghost var black := visited - recStack;
      visited, recStack := visited + {v}, recStack + {v};
      assert Elems(here) == recStack;
      assert visited - recStack == black;
      var next := Neighbours(adj, v);
      for i := 0 to |next|
        invariant Valid(here) && old(visited) + {v} <= visited
        invariant forall k :: 0 <= k < i ==> next[k] in visited - recStack
      {
        var neighbour := next[i];
        assert (v, neighbour) in g;
        if neighbour !in visited {
          assert IsWalk(g, here + [neighbour]);
          var inner := HasCycle(neighbour, here);
          if inner {
            return true;
          }
        } else if neighbour in recStack {
          BackEdge(g, here, neighbour);
          return true;
        }
      }
      FinishVertex(g, visited - recStack, v);
      assert visited - (recStack - {v}) == visited - recStack + {v};
      recStack := recStack - {v};
      found := false;
    }
  }

  lemma CycleStartsAtSource(adj: Adjacency, p: seq<Id>)
    requires IsCycle(Relation(adj), p)
    ensures p[0] in adj
  {
    assert (p[0], p[1]) in Relation(adj);
  }

  /** Every cycle starts at an edge source, so a cycle-free set of all sources leaves no cycle. */
  lemma AllFinished(adj: Adjacency, c: set<Id>)
    requires CycleFree(Relation(adj), c) && adj.Keys <= c
    ensures !Cyclic(Relation(adj))
  {
    if p :| IsCycle(Relation(adj), p) {
      CycleStartsAtSource(adj, p);
    }
  }

  method DetectCycle(nodes: seq<Id>, adj: Adjacency) returns (found: bool)
    requires forall n :: n in nodes <==> n in adj
    ensures found <==> Cyclic(Relation(adj))
  {
    var search := new CycleSearch(adj);
    for i := 0 to |nodes|
      invariant fresh(search) && search.adj == adj && search.Valid([])
      invariant forall k :: 0 <= k < i ==> nodes[k] in search.visited
    {
      if nodes[i] !in search.visited {
        assert IsWalk(Relation(adj), [] + [nodes[i]]);
        found := search.HasCycle(nodes[i], []);
        if found {
          return true;
        }
      }
    }
    assert search.visited - search.recStack == search.visited;
    AllFinished(adj, search.visited);
    found := false;
  }

  // ----- the adjacency dictionary

  /** Targets of u's edges in request order. */
  function Targets(edges: seq<Edge>, u: Id): seq<Id> {
    if edges == [] then [] else
      var e := edges[|edges| - 1];
      Targets(edges[..|edges| - 1], u) + if e.source == u then [e.target] else []
  }

  lemma {:induction false} TargetsAreEdges(edges: seq<Edge>, u: Id, v: Id)
    ensures v in Targets(edges, u) <==> Edge(u, v) in edges
  {
    if edges != [] {
      TargetsAreEdges(edges[..|edges| - 1], u, v);
      assert edges == edges[..|edges| - 1] + [edges[|edges| - 1]];
    }
  }

  function AdjacencyOf(nodes: seq<Id>, edges: seq<Edge>): Adjacency {
    map u | u in nodes :: Targets(edges, u)
  }

  lemma TargetsSnoc(edges: seq<Edge>, e: Edge, u: Id)
    ensures Targets(edges + [e], u) == Targets(edges, u) + if e.source == u then [e.target] else []
  {
    assert (edges + [e])[..|edges|] == edges;
  }

  lemma AppendTarget(nodes: seq<Id>, edges: seq<Edge>, e: Edge)
    requires e.source in nodes
    ensures var adj := AdjacencyOf(nodes, edges);
            AdjacencyOf(nodes, edges + [e]) == adj[e.source := adj[e.source] + [e.target]]
  {
    forall u ensures Targets(edges + [e], u) == Targets(edges, u) + if e.source == u then [e.target] else [] {
      TargetsSnoc(edges, e, u);
    }
    assert forall u :: Targets(edges, u) + [] == Targets(edges, u);
  }

  ghost predicate SourcesKnown(r: Request) {
    forall e :: e in r.edges ==> e.source in r.nodes
  }

  ghost predicate TargetsKnown(r: Request) {
    forall e :: e in r.edges ==> e.target in r.nodes
  }

  lemma AdjacencyRelation(r: Request)
    requires SourcesKnown(r)
    ensures Relation(AdjacencyOf(r.nodes, r.edges)) == r.Relation()
  {
    var adj := AdjacencyOf(r.nodes, r.edges);
    forall u, v ensures (u, v) in Relation(adj) <==> (u, v) in r.Relation() {
      TargetsAreEdges(r.edges, u, v);
      if (u, v) in r.Relation() {
        assert Edge(u, v) in r.edges;
      }
    }
  }

  /** The first edge whose source is not a listed node ends the construction with KeyError. */
  method BuildAdjacency(r: Request) returns (adj: Adjacency, unknown: seq<Id>)
    ensures unknown == [] ==> SourcesKnown(r) && adj == AdjacencyOf(r.nodes, r.edges)
    ensures unknown != [] ==> exists i ::
      && 0 <= i < |r.edges| && unknown == [r.edges[i].source] && r.edges[i].source !in r.nodes
      && forall k :: 0 <= k < i ==> r.edges[k].source in r.nodes
  {
    adj := map u | u in r.nodes :: [];
    unknown := [];
    for i := 0 to |r.edges|
      invariant forall k :: 0 <= k < i ==> r.edges[k].source in r.nodes
      invariant adj == AdjacencyOf(r.nodes, r.edges[..i])
    {
      var e := r.edges[i];
      if e.source !in adj {
        unknown := [e.source];
        return;
      }
      AppendTarget(r.nodes, r.edges[..i], e);
      assert r.edges[..i + 1] == r.edges[..i] + [e];
      adj := adj[e.source := adj[e.source] + [e.target]];
    }
    assert r.edges[..|r.edges|] == r.edges;
  }

  // ----- the depth walk

  /** Length of the walk that always follows the first successor, stopped at a sink or a repeat. */
  function Chain(adj: Adjacency, v: Id, seen: set<Id>): nat
    decreases adj.Keys - seen
  {
    if v in adj && adj[v] != [] && v !in seen then 1 + Chain(adj, adj[v][0], seen + {v}) else 0
  }

  method WalkDepth(adj: Adjacency, v: Id) returns (depth: nat)
    ensures depth == Chain(adj, v, {})
  {
    depth := 0;
    var current, seen := v, {};
    while current in adj && adj[current] != []
      invariant seen <= adj.Keys
      invariant depth + Chain(adj, current, seen) == Chain(adj, v, {})
      decreases adj.Keys - seen
    {
      if current in seen {
        break;
      }
      seen := seen + {current};
      current := adj[current][0];
      depth := depth + 1;
    }
  }

  /** m is the largest chain of a listed node, 0 when there is none. */
  ghost predicate IsDepthFigure(nodes: seq<Id>, adj: Adjacency, m: nat) {
    && (forall n :: n in nodes ==> Chain(adj, n, {}) <= m)
    && (m > 0 ==> exists n :: n in nodes && Chain(adj, n, {}) == m)
  }

  method MaxWalkDepth(nodes: seq<Id>, adj: Adjacency) returns (m: nat)
    ensures IsDepthFigure(nodes, adj, m)
  {
    m := 0;
    for i := 0 to |nodes|
      invariant IsDepthFigure(nodes[..i], adj, m)
    {
      var d := WalkDepth(adj, nodes[i]);
      assert nodes[..i + 1] == nodes[..i] + [nodes[i]];
      m := if d > m then d else m;
    }
    assert nodes[..|nodes|] == nodes;
  }

  /** The edges the depth walk can take: from each vertex to its first neighbour. */
  ghost function FirstEdges(adj: Adjacency): Edges {
    set u | u in adj && adj[u] != [] :: (u, adj[u][0])
  }

  /** The chain is a trail of first edges ... */
  lemma {:induction false} ChainIsTrail(adj: Adjacency, v: Id, seen: set<Id>) returns (p: seq<Id>)
    ensures IsTrail(FirstEdges(adj), v, seen, p) && |p| == Chain(adj, v, seen) + 1
    decreases adj.Keys - seen
  {
    p := [v];
    if v in adj && adj[v] != [] && v !in seen {
      var q := ChainIsTrail(adj, adj[v][0], seen + {v});
      TrailCons(FirstEdges(adj), v, adj[v][0], seen, q);
      p := [v] + q;
    }
  }

  /** ... and no such trail is longer. */
  lemma {:induction false} ChainBoundsTrail(adj: Adjacency, v: Id, seen: set<Id>, p: seq<Id>)
    requires IsTrail(FirstEdges(adj), v, seen, p)
    ensures |p| - 1 <= Chain(adj, v, seen)
    decreases |p|
  {
    if |p| >= 2 {
      var q := p[1..];
      assert (p[0], p[1]) in FirstEdges(adj);
      forall i | 0 <= i < |q| - 1 ensures q[i] !in seen + {v} {
        assert p[..|p| - 1][0] != p[..|p| - 1][i + 1];
      }
      assert q[..|q| - 1] == p[..|p| - 1][1..];
      ChainBoundsTrail(adj, p[1], seen + {v}, q);
    }
  }

  // ----- what the depth figure measures

  /** Edge i is the first one listed for its source. */
  ghost predicate ListedFirst(edges: seq<Edge>, i: nat)
    requires i < |edges|
  {
    forall j :: 0 <= j < i ==> edges[j].source != edges[i].source
  }

  /** The first-listed edge of every source, read off the request. */
  ghost function FirstListed(edges: seq<Edge>): Edges {
    set i | 0 <= i < |edges| && ListedFirst(edges, i) :: (edges[i].source, edges[i].target)
  }

  lemma ListedFirstSnoc(edges: seq<Edge>, e: Edge, i: nat)
    requires i <= |edges|
    ensures i < |edges| ==> (ListedFirst(edges + [e], i) <==> ListedFirst(edges, i))
    ensures i == |edges| ==> (ListedFirst(edges + [e], i) <==> forall f :: f in edges ==> f.source != e.source)
  {
    var all := edges + [e];
    assert forall j :: 0 <= j < |edges| ==> all[j] == edges[j] && all[j] in edges;
    assert all[|edges|] == e;
    if i == |edges| && ListedFirst(all, i) {
      forall f | f in edges ensures f.source != e.source {
        var j :| 0 <= j < |edges| && edges[j] == f;
        assert all[j].source != all[i].source;
      }
    }
  }

  lemma FirstListedSnoc(edges: seq<Edge>, e: Edge)
    ensures FirstListed(edges + [e])
      == FirstListed(edges) + if forall f :: f in edges ==> f.source != e.source then {(e.source, e.target)} else {}
  {
    var all, n := edges + [e], |edges|;
    forall i | 0 <= i < n ensures ListedFirst(all, i) <==> ListedFirst(edges, i) {
      ListedFirstSnoc(edges, e, i);
    }
    ListedFirstSnoc(edges, e, n);
    forall x ensures x in FirstListed(all) <==>
        x in FirstListed(edges) || (ListedFirst(all, n) && x == (e.source, e.target)) {
      if x in FirstListed(edges) {
        var i :| 0 <= i < n && ListedFirst(edges, i) && (edges[i].source, edges[i].target) == x;
        assert ListedFirst(all, i) && all[i] == edges[i];
      }
      if x == (e.source, e.target) && ListedFirst(all, n) {
        assert (all[n].source, all[n].target) == x;
      }
    }
  }

  lemma {:induction false} FirstTarget(edges: seq<Edge>, u: Id, v: Id)
    ensures (u, v) in FirstListed(edges) <==> Targets(edges, u) != [] && Targets(edges, u)[0] == v
    ensures Targets(edges, u) == [] <==> forall e :: e in edges ==> e.source != u
  {
    if edges != [] {
      var pre, e := edges[..|edges| - 1], edges[|edges| - 1];
      assert edges == pre + [e];
      FirstTarget(pre, u, v);
      FirstListedSnoc(pre, e);
      TargetsSnoc(pre, e, u);
    }
  }

  lemma FirstEdgesAreListed(r: Request)
    requires SourcesKnown(r)
    ensures FirstEdges(AdjacencyOf(r.nodes, r.edges)) == FirstListed(r.edges)
    ensures FirstListed(r.edges) <= r.Relation()
  {
    var adj := AdjacencyOf(r.nodes, r.edges);
    forall u, v ensures (u, v) in FirstEdges(adj) <==> (u, v) in FirstListed(r.edges) {
      FirstTarget(r.edges, u, v);
      if (u, v) in FirstListed(r.edges) {
        assert u in adj && v == adj[u][0];
      }
    }
  }

  /** On every composition the figure is the length of a longest trail over first-listed edges. */
  lemma DepthFigureMeaning(r: Request, m: nat)
    requires SourcesKnown(r) && IsDepthFigure(r.nodes, AdjacencyOf(r.nodes, r.edges), m)
    ensures exists n, p :: IsTrail(FirstListed(r.edges), n, {}, p) && |p| == m + 1
    ensures forall n, p :: IsTrail(FirstListed(r.edges), n, {}, p) ==> |p| <= m + 1
  {
    var adj, g := AdjacencyOf(r.nodes, r.edges), FirstListed(r.edges);
    FirstEdgesAreListed(r);
    if m == 0 {
      assert IsTrail(g, "", {}, [""]);
    } else {
      var n :| n in r.nodes && Chain(adj, n, {}) == m;
      var p := ChainIsTrail(adj, n, {});
    }
    forall n, p | IsTrail(g, n, {}, p) ensures |p| <= m + 1 {
      ChainBoundsTrail(adj, n, {}, p);
      assert |p| >= 2 ==> (p[0], p[1]) in FirstEdges(adj);
    }
  }

  /** Without a cycle every walk is a trail, so the figure is the longest walk over first-listed edges. */
  lemma DepthFigureOverFirst(r: Request, m: nat)
    requires SourcesKnown(r) && IsDepthFigure(r.nodes, AdjacencyOf(r.nodes, r.edges), m)
    requires !Cyclic(FirstListed(r.edges))
    ensures IsLongest(FirstListed(r.edges), m)
  {
    DepthFigureMeaning(r, m);
    forall p | IsWalk(FirstListed(r.edges), p) ensures |p| <= m + 1 {
      AcyclicWalkDistinct(FirstListed(r.edges), p);
      assert IsTrail(FirstListed(r.edges), p[0], {}, p);
    }
  }

  lemma FirstListedAcyclic(r: Request)
    requires SourcesKnown(r) && !Cyclic(r.Relation())
    ensures !Cyclic(FirstListed(r.edges))
  {
    FirstEdgesAreListed(r);
    if p :| IsCycle(FirstListed(r.edges), p) {
      assert IsCycle(r.Relation(), p);
    }
  }

  /** The figure never exceeds the longest walk of the composition. */
  lemma DepthFigureIsAttained(r: Request, m: nat)
    requires SourcesKnown(r) && IsDepthFigure(r.nodes, AdjacencyOf(r.nodes, r.edges), m)
    ensures exists p :: IsWalk(r.Relation(), p) && |p| == m + 1
  {
    DepthFigureMeaning(r, m);
    FirstEdgesAreListed(r);
    var n, p :| IsTrail(FirstListed(r.edges), n, {}, p) && |p| == m + 1;
    assert IsWalk(r.Relation(), p);
  }

  /** On an acyclic composition it is the longest path exactly when first-listed edges alone make one as long. */
  lemma DepthFigureIsLongestIff(r: Request, m: nat)
    requires SourcesKnown(r) && IsDepthFigure(r.nodes, AdjacencyOf(r.nodes, r.edges), m) && !Cyclic(r.Relation())
    ensures IsLongest(r.Relation(), m) <==>
      exists p :: IsWalk(FirstListed(r.edges), p) && forall q :: IsWalk(r.Relation(), q) ==> |q| <= |p|
  {
    FirstListedAcyclic(r);
    DepthFigureOverFirst(r, m);
    DepthFigureIsAttained(r, m);
  }

  ghost predicate SingleSuccessor(g: Edges) {
    forall u, v, w :: (u, v) in g && (u, w) in g ==> v == w
  }

  /** In particular with at most one successor per node. */
  lemma DepthFigureIsLongest(r: Request, m: nat)
    requires SourcesKnown(r) && IsDepthFigure(r.nodes, AdjacencyOf(r.nodes, r.edges), m)
    requires !Cyclic(r.Relation()) && SingleSuccessor(r.Relation())
    ensures IsLongest(r.Relation(), m)
  {
    FirstListedAcyclic(r);
    DepthFigureOverFirst(r, m);
    assert FirstListed(r.edges) == r.Relation() by {
      FirstEdgesAreListed(r);
      forall u, v | (u, v) in r.Relation() ensures (u, v) in FirstListed(r.edges) {
        FirstTarget(r.edges, u, v);
        assert Edge(u, v) in r.edges;
        FirstTarget(r.edges, u, Targets(r.edges, u)[0]);
      }
    }
  }

  /** What acceptance requires, read off the request. */
  ghost predicate Acceptable(r: Request) {
    && SourcesKnown(r) && TargetsKnown(r) && !Cyclic(r.Relation())
    && |r.nodes| <= (if "max_total_nodes" in r.bounds then r.bounds["max_total_nodes"] else 64)
    && forall p :: IsWalk(FirstListed(r.edges), p) ==>
         |p| - 1 <= if "max_depth" in r.bounds then r.bounds["max_depth"] else 8
  }

  /** A composition is accepted exactly when its first-listed edges stay within max_depth, besides the other checks. */
  lemma AcceptedIff(r: Request, m: nat)
    requires SourcesKnown(r) && IsDepthFigure(r.nodes, AdjacencyOf(r.nodes, r.edges), m)
    ensures MayExecute(r, m) <==> Acceptable(r)
  {
    if !Cyclic(r.Relation()) {
      FirstListedAcyclic(r);
      DepthFigureOverFirst(r, m);
    }
  }

  /** Three nodes with a direct edge listed before a detour. */
  function Shortcut(a: Id, b: Id, c: Id, bounds: map<string, int>): Request {
    Request([a, b, c], [Edge(a, b), Edge(a, c), Edge(c, b)], bounds)
  }

  lemma ThreeTargets(e: Edge, f: Edge, g: Edge, u: Id)
    ensures Targets([e, f, g], u) == Targets([e, f], u) + Targets([g], u)
    ensures Targets([e, f], u) == Targets([e], u) + Targets([f], u)
  {
    SingleTarget(f, u);
    SingleTarget(g, u);
    TargetsSnoc([e], f, u);
    TargetsSnoc([e, f], g, u);
    assert [e] + [f] == [e, f] && [e, f] + [g] == [e, f, g];
  }

  lemma SingleTarget(e: Edge, u: Id)
    ensures Targets([e], u) == if e.source == u then [e.target] else []
  {
    TargetsSnoc([], e, u);
    assert [] + [e] == [e];
  }

  lemma ShortcutTargets(a: Id, b: Id, c: Id, u: Id)
    requires a != b && b != c && a != c
    ensures Targets([Edge(a, b), Edge(a, c), Edge(c, b)], u) == if u == a then [b, c] else if u == c then [b] else []
  {
    ThreeTargets(Edge(a, b), Edge(a, c), Edge(c, b), u);
    SingleTarget(Edge(a, b), u);
    SingleTarget(Edge(a, c), u);
    SingleTarget(Edge(c, b), u);
  }

  lemma ThreeNodeAdjacency(a: Id, b: Id, c: Id, edges: seq<Edge>)
    requires a != b && b != c && a != c
    ensures AdjacencyOf([a, b, c], edges) == map[a := Targets(edges, a), b := Targets(edges, b), c := Targets(edges, c)]
  {
  }

  lemma ShortcutAdjacency(a: Id, b: Id, c: Id)
    requires a != b && b != c && a != c
    ensures AdjacencyOf([a, b, c], [Edge(a, b), Edge(a, c), Edge(c, b)]) == map[a := [b, c], b := [], c := [b]]
  {
    ThreeNodeAdjacency(a, b, c, [Edge(a, b), Edge(a, c), Edge(c, b)]);
    ShortcutTargets(a, b, c, a);
    ShortcutTargets(a, b, c, b);
    ShortcutTargets(a, b, c, c);
  }

  lemma ShortcutAcyclic(r: Request, a: Id, b: Id, c: Id)
    requires a != b && b != c && a != c && r == Shortcut(a, b, c, r.bounds)
    ensures !Cyclic(r.Relation())
  {
    var rank := map[a := 0, c := 1, b := 2];
    if p :| IsCycle(r.Relation(), p) {
      RankedWalk(r.Relation(), rank, p, |p| - 1);
    }
  }

  lemma ShortcutFigure(adj: Adjacency, a: Id, b: Id, c: Id)
    requires a != b && b != c && a != c && adj == map[a := [b, c], b := [], c := [b]]
    ensures IsDepthFigure([a, b, c], adj, 1)
  {
    assert Chain(adj, a, {}) == 1 + Chain(adj, b, {} + {a}) == 1;
    assert Chain(adj, c, {}) == 1 + Chain(adj, b, {} + {c}) == 1;
    assert a in [a, b, c];
  }

  /** Without bounds in the request the limits are 64 nodes and depth 8, and each key sets its own limit alone. */
  lemma DefaultBounds(r: Request, key: string, value: int)
    ensures r.bounds == map[] ==> r.MaxTotalNodes() == 64 && r.MaxDepth() == 8
    ensures var s := r.(bounds := r.bounds[key := value]);
            && s.MaxTotalNodes() == (if key == "max_total_nodes" then value else r.MaxTotalNodes())
            && s.MaxDepth() == (if key == "max_depth" then value else r.MaxDepth())
  {
  }

  /** With branching it can fall short: max_depth = 1 is judged respected by a graph with a path of two edges. */
  lemma DepthFigureCanFallShort(r: Request, a: Id, b: Id, c: Id)
    requires a != b && b != c && a != c && r == Shortcut(a, b, c, r.bounds)
    requires "max_depth" in r.bounds && r.bounds["max_depth"] == 1
    requires "max_total_nodes" in r.bounds ==> r.bounds["max_total_nodes"] >= 3
    ensures IsDepthFigure(r.nodes, AdjacencyOf(r.nodes, r.edges), 1) && MayExecute(r, 1)
    ensures IsWalk(r.Relation(), [a, c, b])
  {
    assert MayExecute(r, 1) by {
      ShortcutAcyclic(r, a, b, c);
    }
    assert IsDepthFigure(r.nodes, AdjacencyOf(r.nodes, r.edges), 1) by {
      ShortcutAdjacency(a, b, c);
      ShortcutFigure(AdjacencyOf(r.nodes, r.edges), a, b, c);
    }
    assert IsWalk(r.Relation(), [a, c, b]) by {
      assert r.edges[1] == Edge(a, c) && r.edges[2] == Edge(c, b);
    }
  }

  lemma {:induction false} RankedWalk(g: Edges, rank: map<Id, nat>, p: seq<Id>, i: nat)
    requires forall u, v :: (u, v) in g ==> u in rank && v in rank && rank[u] < rank[v]
    requires IsWalk(g, p) && 1 <= i < |p|
    ensures p[0] in rank && p[i] in rank && rank[p[0]] < rank[p[i]]
  {
    assert (p[i - 1], p[i]) in g;
    if i > 1 {
      RankedWalk(g, rank, p, i - 1);
    }
  }

  // ----- the verdict

  /** What a caller is told when can_execute is true, given the depth figure. */
  ghost predicate MayExecute(r: Request, figure: nat) {
    && SourcesKnown(r) && TargetsKnown(r)
    && !Cyclic(r.Relation())
    && |r.nodes| <= r.MaxTotalNodes()
    && figure <= r.MaxDepth()
  }

  /** The errors list exactly the unknown edge ends. */
  ghost predicate ListsEndpoints(r: Request, errors: seq<DagError>) {
    && (forall s :: UnknownSource(s) in errors <==> exists e :: e in r.edges && e.source == s && s !in r.nodes)
    && (forall t :: UnknownTarget(t) in errors <==> exists e :: e in r.edges && e.target == t && t !in r.nodes)
  }

  /** The errors of one edge: an unknown source before an unknown target. */
  function EdgeErrors(e: Edge, nodes: seq<Id>): seq<DagError> {
    (if e.source !in nodes then [UnknownSource(e.source)] else [])
    + (if e.target !in nodes then [UnknownTarget(e.target)] else [])
  }

  function EndpointErrors(edges: seq<Edge>, nodes: seq<Id>): seq<DagError> {
    if edges == [] then [] else
      EndpointErrors(edges[..|edges| - 1], nodes) + EdgeErrors(edges[|edges| - 1], nodes)
  }

  /** An edge gives rise to this error. */
  ghost predicate Causes(e: Edge, nodes: seq<Id>, x: DagError) {
    || (x == UnknownSource(e.source) && e.source !in nodes)
    || (x == UnknownTarget(e.target) && e.target !in nodes)
  }

  lemma {:induction false} EndpointErrorsMembers(edges: seq<Edge>, nodes: seq<Id>, x: DagError)
    ensures x in EndpointErrors(edges, nodes) <==> exists e :: e in edges && Causes(e, nodes, x)
  {
    if edges != [] {
      var pre, last := edges[..|edges| - 1], edges[|edges| - 1];
      EndpointErrorsMembers(pre, nodes, x);
      assert edges == pre + [last];
      assert x in EdgeErrors(last, nodes) <==> Causes(last, nodes, x);
    }
  }

  lemma EndpointErrorsListed(r: Request, errors: seq<DagError>)
    requires errors == EndpointErrors(r.edges, r.nodes)
    ensures ListsEndpoints(r, errors) && CycleDetected !in errors
  {
    forall s ensures UnknownSource(s) in errors <==> exists e :: e in r.edges && e.source == s && s !in r.nodes {
      EndpointErrorsMembers(r.edges, r.nodes, UnknownSource(s));
    }
    forall t ensures UnknownTarget(t) in errors <==> exists e :: e in r.edges && e.target == t && t !in r.nodes {
      EndpointErrorsMembers(r.edges, r.nodes, UnknownTarget(t));
    }
    EndpointErrorsMembers(r.edges, r.nodes, CycleDetected);
  }

  method ValidateEndpoints(r: Request) returns (errors: seq<DagError>)
    ensures errors == EndpointErrors(r.edges, r.nodes)
    ensures ListsEndpoints(r, errors) && CycleDetected !in errors
  {
    errors := [];
    for i := 0 to |r.edges|
      invariant errors == EndpointErrors(r.edges[..i], r.nodes)
    {
      var e := r.edges[i];
      assert r.edges[..i + 1][..i] == r.edges[..i];
      if e.source !in r.nodes {
        errors := errors + [UnknownSource(e.source)];
      }
      if e.target !in r.nodes {
        errors := errors + [UnknownTarget(e.target)];
      }
    }
    assert r.edges[..|r.edges|] == r.edges;
    EndpointErrorsListed(r, errors);
  }

  lemma NoErrorsIff(r: Request, errors: seq<DagError>)
    requires ListsEndpoints(r, errors) && SourcesKnown(r)
    ensures errors == [] <==> TargetsKnown(r) && CycleDetected !in errors
    ensures forall s :: UnknownSource(s) !in errors
  {
    if e :| e in r.edges && e.target !in r.nodes {
      assert UnknownTarget(e.target) in errors;
    }
    if errors != [] {
      assert errors[0] in errors;
      assert errors[0] == CycleDetected || errors[0] == UnknownTarget(errors[0].id);
    }
  }

  /** Adds the cycle error to the endpoint errors. */
  method CheckCycles(r: Request, adj: Adjacency, endpoints: seq<DagError>) returns (errors: seq<DagError>)
    requires SourcesKnown(r) && adj == AdjacencyOf(r.nodes, r.edges)
    requires ListsEndpoints(r, endpoints) && CycleDetected !in endpoints
    ensures ListsEndpoints(r, errors) && (CycleDetected in errors <==> Cyclic(r.Relation()))
    ensures errors == endpoints + if Cyclic(r.Relation()) then [CycleDetected] else []
  {
    AdjacencyRelation(r);
    errors := endpoints;
    var cyclic := DetectCycle(r.nodes, adj);
    if cyclic {
      errors := errors + [CycleDetected];
    }
  }

  method CheckBounds(r: Request, adj: Adjacency) returns (violations: seq<BoundsViolation>, figure: nat)
    ensures IsDepthFigure(r.nodes, adj, figure)
    ensures violations == (if |r.nodes| > r.MaxTotalNodes() then [NodeCount(|r.nodes|)] else [])
                        + (if figure > r.MaxDepth() then [Depth(figure)] else [])
  {
    violations := [];
    if |r.nodes| > r.MaxTotalNodes() {
      violations := violations + [NodeCount(|r.nodes|)];
    }
    figure := MaxWalkDepth(r.nodes, adj);
    if figure > r.MaxDepth() {
      violations := violations + [Depth(figure)];
    }
  }

  /**
   * The whole check. An unknown edge source ends it with KeyError (so no report ever lists one);
   * otherwise the report says "cycle" exactly for cyclic edge relations.
   */
  method Simulate(r: Request) returns (o: Outcome, ghost figure: nat)
    ensures o.KeyError? <==> !SourcesKnown(r)
    ensures o.KeyError? ==> o.source !in r.nodes && exists e :: e in r.edges && e.source == o.source
    ensures o.Report? ==> IsDepthFigure(r.nodes, AdjacencyOf(r.nodes, r.edges), figure)
    ensures o.Report? ==> ListsEndpoints(r, o.dagErrors) && forall s :: UnknownSource(s) !in o.dagErrors
    ensures o.Report? ==> (CycleDetected in o.dagErrors <==> Cyclic(r.Relation()))
    ensures o.Report? ==>
      o.dagErrors == EndpointErrors(r.edges, r.nodes) + if Cyclic(r.Relation()) then [CycleDetected] else []
    ensures o.Report? ==> o.boundsViolations == (if |r.nodes| > r.MaxTotalNodes() then [NodeCount(|r.nodes|)] else [])
                                              + (if figure > r.MaxDepth() then [Depth(figure)] else [])
    ensures o.Report? ==> (o.canExecute <==> Acceptable(r))
    ensures o.Report? ==> (o.riskLevel == CRITICAL <==> Cyclic(r.Relation()) || !TargetsKnown(r))
    ensures o.Report? ==> (o.riskLevel == MEDIUM <==> o.canExecute && |r.nodes| > 32)
    ensures o.Report? ==> (o.riskLevel == NONE <==> o.canExecute && |r.nodes| <= 32)
    ensures o.Report? ==> o.executionPlan == r.nodes && o.riskLevel != LOW
  {
    figure := 0;
    var endpoints := ValidateEndpoints(r);
    var adj, unknown := BuildAdjacency(r);
    if unknown != [] {
      return KeyError(unknown[0]), 0;
    }
    var dagErrors := CheckCycles(r, adj, endpoints);
    NoErrorsIff(r, dagErrors);
    var violations, depth := CheckBounds(r, adj);
    figure := depth;
    AcceptedIff(r, figure);
    var risk :=
      if dagErrors != [] then CRITICAL
      else if violations != [] then HIGH
      else if |r.nodes| > 32 then MEDIUM
      else NONE;
    o := Report(dagErrors, violations, r.nodes, risk, dagErrors == [] && violations == []);
  }
}
