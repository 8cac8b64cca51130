/** Topology graphs and the blast-radius score of a change (src/pi_interoperability_layer/blast_radius.py). */
module Topology {
  import opened Graphs

  datatype TopologyNode = TopologyNode(nodeType: string, authFields: seq<string>, sideEffectBound: bool)
  datatype TopologyEdge =
    TopologyEdge(edgeId: string, upstream: Id, downstream: Id, carriesAuth: bool, carriesState: bool)
  datatype TopologyGraph = TopologyGraph(nodes: map<Id, TopologyNode>, edges: seq<TopologyEdge>)

  ghost function Relation(edges: seq<TopologyEdge>): Edges {
    set e | e in edges :: (e.upstream, e.downstream)
  }

  ghost function Sources(edges: seq<TopologyEdge>): set<Id> {
    set e | e in edges :: e.upstream
  }

  ghost function Endpoints(edges: seq<TopologyEdge>): set<Id> {
    Sources(edges) + set e | e in edges :: e.downstream
  }

  // ----- reachable_nodes

  ghost predicate IsReachableSet(edges: seq<TopologyEdge>, n: Id, r: set<Id>) {
    forall v :: v in r <==> v != n && Reaches(Relation(edges), n, v)
  }

  method ReachableNodes(edges: seq<TopologyEdge>, n: Id) returns (r: set<Id>)
    ensures IsReachableSet(edges, n, r)
  {
    ghost var g := Relation(edges);
    var visited: set<Id>, frontier := {}, [n];
    ReachesSelf(g, n);
    while frontier != []
      invariant visited <= Endpoints(edges) + {n}
      invariant forall v :: v in visited || v in frontier ==> v in Endpoints(edges) + {n} && Reaches(g, n, v)
      invariant n in visited || n in frontier
      invariant forall u, v :: u in visited && (u, v) in g ==> v in visited || v in frontier
      decreases Endpoints(edges) + {n} - visited, |frontier|
    {
      var current := frontier[|frontier| - 1];
      ghost var before := frontier;
      frontier := frontier[..|frontier| - 1];
      assert before == frontier + [current];
      if current in visited {
        continue;
      }
      visited := visited + {current};
      forall v | (current, v) in g ensures Reaches(g, n, v) {
        ReachesStep(g, n, current, v);
      }
      frontier := PushChildren(edges, current, visited, frontier);
    }
    forall v | Reaches(g, n, v) ensures v in visited {
      ReachesStaysIn(g, visited, n, v);
    }
    r := visited - {n};
  }

  /** The inner loop: push the unvisited downstream ends of current's edges, keeping duplicates. */
  method PushChildren(edges: seq<TopologyEdge>, current: Id, visited: set<Id>, frontier: seq<Id>)
    returns (r: seq<Id>)
    ensures frontier <= r
    ensures forall v :: v in r ==> v in frontier || (v in Endpoints(edges) && (current, v) in Relation(edges))
    ensures forall v :: (current, v) in Relation(edges) ==> v in visited || v in r
  {
    r := frontier;
    for i := 0 to |edges|
      invariant frontier <= r
      invariant forall v :: v in r ==> v in frontier || (v in Endpoints(edges) && (current, v) in Relation(edges))
      invariant forall k :: 0 <= k < i && edges[k].upstream == current ==>
                  edges[k].downstream in visited || edges[k].downstream in r
    {
      var e := edges[i];
      if e.upstream == current && e.downstream !in visited {
        r := r + [e.downstream];
      }
    }
  }

  // ----- depth_from

  function Children(edges: seq<TopologyEdge>, n: Id): seq<Id> {
    if edges == [] then []
    else (if edges[0].upstream == n then [edges[0].downstream] else []) + Children(edges[1..], n)
  }

  lemma {:induction false} ChildrenAreEdges(edges: seq<TopologyEdge>, n: Id, v: Id)
    ensures v in Children(edges, n) <==> (n, v) in Relation(edges)
  {
    if edges != [] {
      ChildrenAreEdges(edges[1..], n, v);
      assert edges == [edges[0]] + edges[1..];
      assert Relation(edges) == {(edges[0].upstream, edges[0].downstream)} + Relation(edges[1..]);
    }
  }

  /** Each recursive call works on its own copy of visited. */
  function DepthFrom(edges: seq<TopologyEdge>, n: Id, visited: set<Id>): nat
    decreases Sources(edges) - visited, 0
  {
    if n in visited then 0 else
      var children := Children(edges, n);
      if children == [] then 0 else
        ChildrenAreEdges(edges, n, children[0]);
        1 + MaxDepthFrom(edges, children, visited + {n})
  }

  function MaxDepthFrom(edges: seq<TopologyEdge>, ns: seq<Id>, visited: set<Id>): nat
    requires ns != []
    decreases Sources(edges) - visited, |ns|
  {
    var d := DepthFrom(edges, ns[0], visited);
    if |ns| == 1 then d else
      var rest := MaxDepthFrom(edges, ns[1..], visited);
      if rest > d then rest else d
  }

  lemma {:induction false} MaxDepthFromIsMax(edges: seq<TopologyEdge>, ns: seq<Id>, visited: set<Id>)
    requires ns != []
    ensures forall n :: n in ns ==> DepthFrom(edges, n, visited) <= MaxDepthFrom(edges, ns, visited)
    ensures exists n :: n in ns && DepthFrom(edges, n, visited) == MaxDepthFrom(edges, ns, visited)
    decreases |ns|
  {
    assert ns[0] in ns;
    if |ns| > 1 {
      MaxDepthFromIsMax(edges, ns[1..], visited);
      assert ns == [ns[0]] + ns[1..];
    }
  }

  lemma {:induction false} DepthFromAttained(edges: seq<TopologyEdge>, n: Id, visited: set<Id>) returns (p: seq<Id>)
    ensures IsTrail(Relation(edges), n, visited, p) && |p| - 1 == DepthFrom(edges, n, visited)
    decreases Sources(edges) - visited
  {
    var children := Children(edges, n);
    p := [n];
    if n !in visited && children != [] {
      ChildrenAreEdges(edges, n, children[0]);
      MaxDepthFromIsMax(edges, children, visited + {n});
      var c :| c in children && DepthFrom(edges, c, visited + {n}) == MaxDepthFrom(edges, children, visited + {n});
      ChildrenAreEdges(edges, n, c);
      var q := DepthFromAttained(edges, c, visited + {n});
      TrailCons(Relation(edges), n, c, visited, q);
      p := [n] + q;
    }
  }

  lemma {:induction false} DepthFromBounds(edges: seq<TopologyEdge>, n: Id, visited: set<Id>, p: seq<Id>)
    requires IsTrail(Relation(edges), n, visited, p)
    ensures |p| - 1 <= DepthFrom(edges, n, visited)
    decreases |p|
  {
    if |p| >= 2 {
      var children, q := Children(edges, n), p[1..];
      assert (p[0], p[1]) in Relation(edges);
      ChildrenAreEdges(edges, n, p[1]);
      forall i | 0 <= i < |q| - 1 ensures q[i] !in visited + {n} {
        assert p[..|p| - 1][0] != p[..|p| - 1][i + 1];
      }
      assert q[..|q| - 1] == p[..|p| - 1][1..];
      DepthFromBounds(edges, p[1], visited + {n}, q);
      MaxDepthFromIsMax(edges, children, visited + {n});
    }
  }

  /** On acyclic graphs every walk is a trail, so depth_from is the longest path. */
  lemma DepthFromIsLongestPath(edges: seq<TopologyEdge>, n: Id, p: seq<Id>)
    requires !Cyclic(Relation(edges)) && IsWalk(Relation(edges), p) && p[0] == n
    ensures |p| - 1 <= DepthFrom(edges, n, {})
    ensures exists q :: IsWalk(Relation(edges), q) && q[0] == n && Distinct(q) && |q| - 1 == DepthFrom(edges, n, {})
  {
    AcyclicWalkDistinct(Relation(edges), p);
    DepthFromBounds(edges, n, {}, p);
    var q := DepthFromAttained(edges, n, {});
    AcyclicWalkDistinct(Relation(edges), q);
  }

  lemma DepthFromMonotone(a: seq<TopologyEdge>, b: seq<TopologyEdge>, n: Id)
    requires Relation(a) <= Relation(b)
    ensures DepthFrom(a, n, {}) <= DepthFrom(b, n, {})
  {
    var p := DepthFromAttained(a, n, {});
    DepthFromBounds(b, n, {}, p);
  }

  // ----- fanout

  function Fanout(edges: seq<TopologyEdge>, n: Id): nat {
    if edges == [] then 0 else (if edges[0].upstream == n then 1 else 0) + Fanout(edges[1..], n)
  }

  lemma {:induction false} FanoutConcat(a: seq<TopologyEdge>, b: seq<TopologyEdge>, n: Id)
    ensures Fanout(a + b, n) == Fanout(a, n) + Fanout(b, n)
  {
    if a == [] {
      assert a + b == b;
    } else {
      FanoutConcat(a[1..], b, n);
      assert (a + b)[1..] == a[1..] + b;
    }
  }

  lemma FanoutRemove(b: seq<TopologyEdge>, i: nat, n: Id)
    requires i < |b|
    ensures Fanout(b, n) == Fanout(b[..i] + b[i + 1..], n) + if b[i].upstream == n then 1 else 0
  {
    FanoutConcat(b[..i], b[i + 1..], n);
    FanoutConcat(b[..i], b[i..], n);
    assert b == b[..i] + b[i..] && b[i..][1..] == b[i + 1..];
  }

  lemma MultisetRemove(b: seq<TopologyEdge>, i: nat)
    requires i < |b|
    ensures multiset(b[..i] + b[i + 1..]) == multiset(b) - multiset{b[i]}
  {
    assert b == b[..i] + [b[i]] + b[i + 1..];
  }

  lemma PickSame(a: seq<TopologyEdge>, b: seq<TopologyEdge>) returns (i: nat)
    requires a != [] && multiset(a) <= multiset(b)
    ensures i < |b| && b[i] == a[0] && multiset(a[1..]) <= multiset(b[..i] + b[i + 1..])
  {
    assert a[0] in multiset(a);
    assert a[0] in multiset(b);
    i :| 0 <= i < |b| && b[i] == a[0];
    TailMultiset(a);
    MultisetRemove(b, i);
  }

  lemma TailMultiset(a: seq<TopologyEdge>)
    requires a != []
    ensures multiset(a[1..]) == multiset(a) - multiset{a[0]}
  {
    assert a == [a[0]] + a[1..];
  }

  lemma {:induction false} FanoutMonotone(a: seq<TopologyEdge>, b: seq<TopologyEdge>, n: Id)
    requires multiset(a) <= multiset(b)
    ensures Fanout(a, n) <= Fanout(b, n) && |a| <= |b|
  {
    if a != [] {
      var i := PickSame(a, b);
      FanoutMonotone(a[1..], b[..i] + b[i + 1..], n);
      FanoutRemove(b, i, n);
    }
  }

  ghost function Leaving(edges: seq<TopologyEdge>, n: Id): set<nat> {
    set i: nat | i < |edges| && edges[i].upstream == n
  }

  /** Fanout counts the listed edges that leave the node. */
  lemma {:induction false} FanoutCounts(edges: seq<TopologyEdge>, n: Id)
    ensures Fanout(edges, n) == |Leaving(edges, n)|
  {
    if edges == [] {
      assert Leaving(edges, n) == {};
    } else {
      var m := |edges| - 1;
      var pre := edges[..m];
      FanoutCounts(pre, n);
      assert edges == pre + [edges[m]];
      FanoutConcat(pre, [edges[m]], n);
      assert Leaving(edges, n) == Leaving(pre, n) + if edges[m].upstream == n then {m} else {};
    }
  }

  // ----- compute_score

  ghost predicate IsMaxFanout(t: TopologyGraph, keys: set<Id>, m: nat) {
    && (forall n :: n in keys ==> Fanout(t.edges, n) <= m)
    && (m > 0 ==> exists n :: n in keys && Fanout(t.edges, n) == m)
  }

  ghost predicate IsMaxDepth(t: TopologyGraph, keys: set<Id>, m: nat) {
    && (forall n :: n in keys ==> DepthFrom(t.edges, n, {}) <= m)
    && (m > 0 ==> exists n :: n in keys && DepthFrom(t.edges, n, {}) == m)
  }

  method MaxFanout(t: TopologyGraph) returns (m: nat)
    ensures IsMaxFanout(t, t.nodes.Keys, m)
  {
    m := 0;
    var todo := t.nodes.Keys;
    while todo != {}
      invariant todo <= t.nodes.Keys && IsMaxFanout(t, t.nodes.Keys - todo, m)
    {
      var n :| n in todo;
      todo := todo - {n};
      var f := Fanout(t.edges, n);
      m := if f > m then f else m;
    }
    assert t.nodes.Keys - todo == t.nodes.Keys;
  }

  method MaxDepth(t: TopologyGraph) returns (m: nat)
    ensures IsMaxDepth(t, t.nodes.Keys, m)
  {
    m := 0;
    var todo := t.nodes.Keys;
    while todo != {}
      invariant todo <= t.nodes.Keys && IsMaxDepth(t, t.nodes.Keys - todo, m)
    {
      var n :| n in todo;
      todo := todo - {n};
      var d := DepthFrom(t.edges, n, {});
      m := if d > m then d else m;
    }
    assert t.nodes.Keys - todo == t.nodes.Keys;
  }

  ghost function AuthCount(nodes: map<Id, TopologyNode>, keys: set<Id>): nat
    requires keys <= nodes.Keys
  {
    if keys == {} then 0 else
      var n :| n in keys;
      |nodes[n].authFields| + AuthCount(nodes, keys - {n})
  }

  lemma {:induction false} AuthCountAdd(nodes: map<Id, TopologyNode>, keys: set<Id>, n: Id)
    requires keys <= nodes.Keys && n in nodes && n !in keys
    ensures AuthCount(nodes, keys + {n}) == AuthCount(nodes, keys) + |nodes[n].authFields|
  {
    var all := keys + {n};
    var k :| k in all && AuthCount(nodes, all) == |nodes[k].authFields| + AuthCount(nodes, all - {k});
    if k == n {
      assert all - {k} == keys;
    } else {
      AuthCountAdd(nodes, keys - {k}, n);
      AuthCountAdd(nodes, keys - {k}, k);
      assert all - {k} == keys - {k} + {n} && keys == keys - {k} + {k};
    }
  }

  /** One for every auth field of every node. */
  ghost function AuthFields(nodes: map<Id, TopologyNode>, keys: set<Id>): set<(Id, nat)>
    requires keys <= nodes.Keys
  {
    set n, i: nat | n in keys && i < |nodes[n].authFields| :: (n, i)
  }

  lemma {:induction false} PairsSize(n: Id, k: nat)
    ensures |set i: nat | i < k :: (n, i)| == k
  {
    var pairs := set i: nat | i < k :: (n, i);
    if k == 0 {
      assert pairs == {};
    } else {
      PairsSize(n, k - 1);
      assert pairs == (set i: nat | i < k - 1 :: (n, i)) + {(n, k - 1)};
    }
  }

  lemma {:induction false} AuthCountIsSize(nodes: map<Id, TopologyNode>, keys: set<Id>)
    requires keys <= nodes.Keys
    ensures AuthCount(nodes, keys) == |AuthFields(nodes, keys)|
  {
    if keys == {} {
      assert AuthFields(nodes, keys) == {};
    } else {
      var n :| n in keys;
      var rest, own := keys - {n}, set i: nat | i < |nodes[n].authFields| :: (n, i);
      AuthCountIsSize(nodes, rest);
      AuthCountAdd(nodes, rest, n);
      assert keys == rest + {n};
      PairsSize(n, |nodes[n].authFields|);
      assert AuthFields(nodes, keys) == AuthFields(nodes, rest) + own;
      assert AuthFields(nodes, rest) !! own;
    }
  }

  lemma {:induction false} AuthCountMonotone(a: map<Id, TopologyNode>, b: map<Id, TopologyNode>, keys: set<Id>)
    requires a.Keys <= b.Keys && (forall n :: n in a ==> a[n] == b[n]) && a.Keys <= keys <= b.Keys
    ensures AuthCount(a, a.Keys) <= AuthCount(b, keys)
    decreases keys
  {
    if keys == a.Keys {
      AuthCountSame(a, b, keys);
    } else {
      var n :| n in keys && n !in a;
      AuthCountMonotone(a, b, keys - {n});
      AuthCountAdd(b, keys - {n}, n);
      assert keys == keys - {n} + {n};
    }
  }

  lemma {:induction false} AuthCountSame(a: map<Id, TopologyNode>, b: map<Id, TopologyNode>, keys: set<Id>)
    requires keys <= a.Keys && keys <= b.Keys && forall n :: n in keys ==> a[n] == b[n]
    ensures AuthCount(a, keys) == AuthCount(b, keys)
  {
    if keys != {} {
      var n :| n in keys;
      AuthCountSame(a, b, keys - {n});
      AuthCountAdd(a, keys - {n}, n);
      AuthCountAdd(b, keys - {n}, n);
      assert keys == keys - {n} + {n};
    }
  }

  function SideEffectBound(nodes: map<Id, TopologyNode>): set<Id> {
    set n | n in nodes && nodes[n].sideEffectBound
  }

  /** The metrics of one graph: maximal fanout and depth over its nodes (0 if none) and the complexity score. */
  datatype Metrics = Metrics(maxFanout: nat, maxDepth: nat, complexity: nat, authFields: nat, sideEffects: nat)

  function Complexity(t: TopologyGraph, fanout: nat, depth: nat): nat {
    |t.nodes| + |t.edges| + fanout * fanout + depth * depth
  }

  ghost predicate IsMetrics(t: TopologyGraph, m: Metrics) {
    && IsMaxFanout(t, t.nodes.Keys, m.maxFanout)
    && IsMaxDepth(t, t.nodes.Keys, m.maxDepth)
    && m.complexity == Complexity(t, m.maxFanout, m.maxDepth)
    && m.authFields == AuthCount(t.nodes, t.nodes.Keys)
    && m.sideEffects == |SideEffectBound(t.nodes)|
  }

  method CountAuthFields(nodes: map<Id, TopologyNode>) returns (auth: nat)
    ensures auth == AuthCount(nodes, nodes.Keys)
  {
    auth := 0;
    var todo := nodes.Keys;
    while todo != {}
      invariant todo <= nodes.Keys && auth == AuthCount(nodes, nodes.Keys - todo)
    {
      var n :| n in todo;
      AuthCountAdd(nodes, nodes.Keys - todo, n);
      assert nodes.Keys - (todo - {n}) == nodes.Keys - todo + {n};
      auth := auth + |nodes[n].authFields|;
      todo := todo - {n};
    }
    assert nodes.Keys - todo == nodes.Keys;
  }

  method ComputeMetrics(t: TopologyGraph) returns (m: Metrics)
    ensures IsMetrics(t, m)
  {
    var fanout := MaxFanout(t);
    var depth := MaxDepth(t);
    var auth := CountAuthFields(t.nodes);
    m := Metrics(fanout, depth, Complexity(t, fanout, depth), auth, |SideEffectBound(t.nodes)|);
  }

  datatype Score = Score(
    dependencyExpansion: nat, complexityDelta: int, fanoutDelta: int, depthDelta: int,
    authSurfaceExpansion: int, replayScopeExpansion: nat, replayPropagationDepth: nat, sideEffectBoundDelta: int)

  function ScoreOf(m: Metrics, k: Metrics, ra: set<Id>, rb: set<Id>): Score {
    Score(|rb - ra|, k.complexity - m.complexity, k.maxFanout - m.maxFanout, k.maxDepth - m.maxDepth,
          k.authFields - m.authFields, |rb - ra|, k.maxDepth, k.sideEffects - m.sideEffects)
  }

  ghost predicate Measured(t: TopologyGraph, target: Id, m: Metrics, r: set<Id>) {
    IsMetrics(t, m) && IsReachableSet(t.edges, target, r)
  }

  ghost predicate IsScore(a: TopologyGraph, b: TopologyGraph, target: Id, s: Score) {
    exists m, ra, k, rb :: Measured(a, target, m, ra) && Measured(b, target, k, rb) && s == ScoreOf(m, k, ra, rb)
  }

  method ComputeScore(a: TopologyGraph, b: TopologyGraph, target: Id) returns (s: Score)
    ensures IsScore(a, b, target, s)
  {
    var ra := ReachableNodes(a.edges, target);
    var rb := ReachableNodes(b.edges, target);
    var m := ComputeMetrics(a);
    var k := ComputeMetrics(b);
    assert Measured(a, target, m, ra) && Measured(b, target, k, rb);
    s := ScoreOf(m, k, ra, rb);
  }

  lemma MaxUnique(t: TopologyGraph, m: nat, k: nat)
    ensures IsMaxFanout(t, t.nodes.Keys, m) && IsMaxFanout(t, t.nodes.Keys, k) ==> m == k
    ensures IsMaxDepth(t, t.nodes.Keys, m) && IsMaxDepth(t, t.nodes.Keys, k) ==> m == k
  {
  }

  /** f and d are the greatest fanout and depth of the graph. */
  ghost predicate Maxima(t: TopologyGraph, f: nat, d: nat) {
    IsMaxFanout(t, t.nodes.Keys, f) && IsMaxDepth(t, t.nodes.Keys, d)
  }

  lemma MetricsMean(t: TopologyGraph, m: Metrics, f: nat, d: nat)
    requires IsMetrics(t, m) && Maxima(t, f, d)
    ensures m.maxFanout == f && m.maxDepth == d && m.complexity == |t.nodes| + |t.edges| + f * f + d * d
    ensures m.authFields == AuthCount(t.nodes, t.nodes.Keys)
    ensures m.sideEffects == |set n | n in t.nodes && t.nodes[n].sideEffectBound|
  {
    MaxUnique(t, m.maxFanout, f);
    MaxUnique(t, m.maxDepth, d);
  }

  /**
   * The score, read off the two graphs: nodes, edges and the squares of greatest fanout and depth make up the
   * complexity, the propagation depth is that of the modified graph.
   */
  lemma ScoreMeaning(a: TopologyGraph, b: TopologyGraph, target: Id, s: Score, fa: nat, da: nat, fb: nat, db: nat)
    requires IsScore(a, b, target, s) && Maxima(a, fa, da) && Maxima(b, fb, db)
    ensures s.fanoutDelta == fb - fa && s.depthDelta == db - da && s.replayPropagationDepth == db
    ensures s.complexityDelta
      == (|b.nodes| + |b.edges| + fb * fb + db * db) - (|a.nodes| + |a.edges| + fa * fa + da * da)
    ensures s.authSurfaceExpansion == AuthCount(b.nodes, b.nodes.Keys) - AuthCount(a.nodes, a.nodes.Keys)
    ensures s.sideEffectBoundDelta
      == |set n | n in b.nodes && b.nodes[n].sideEffectBound| - |set n | n in a.nodes && a.nodes[n].sideEffectBound|
  {
    var m, ra, k, rb :| Measured(a, target, m, ra) && Measured(b, target, k, rb) && s == ScoreOf(m, k, ra, rb);
    MetricsMean(a, m, fa, da);
    MetricsMean(b, k, fb, db);
  }

  /** The expansions count the nodes reachable in the modified graph alone. */
  lemma ExpansionMeaning(a: TopologyGraph, b: TopologyGraph, target: Id, s: Score, ra: set<Id>, rb: set<Id>)
    requires IsScore(a, b, target, s) && IsReachableSet(a.edges, target, ra) && IsReachableSet(b.edges, target, rb)
    ensures s.dependencyExpansion == s.replayScopeExpansion == |rb - ra|
  {
    var m, xa, k, xb :| Measured(a, target, m, xa) && Measured(b, target, k, xb) && s == ScoreOf(m, k, xa, xb);
    ReachableUnique(a.edges, target, ra, xa);
    ReachableUnique(b.edges, target, rb, xb);
  }

  /** b keeps every node of a unchanged and every edge of a, counted with multiplicity. */
  ghost predicate Extends(a: TopologyGraph, b: TopologyGraph) {
    a.nodes.Keys <= b.nodes.Keys && (forall n :: n in a.nodes ==> a.nodes[n] == b.nodes[n])
    && multiset(a.edges) <= multiset(b.edges)
  }

  lemma RelationMonotone(a: seq<TopologyEdge>, b: seq<TopologyEdge>)
    requires multiset(a) <= multiset(b)
    ensures Relation(a) <= Relation(b)
  {
    forall e | e in a ensures e in b {
      assert e in multiset(a);
      assert e in multiset(b);
    }
  }

  lemma MaximaMonotone(a: TopologyGraph, m: Metrics, b: TopologyGraph, k: Metrics)
    requires Extends(a, b) && IsMetrics(a, m) && IsMetrics(b, k)
    ensures m.maxFanout <= k.maxFanout && m.maxDepth <= k.maxDepth
  {
    RelationMonotone(a.edges, b.edges);
    if m.maxFanout > 0 {
      var n :| n in a.nodes && Fanout(a.edges, n) == m.maxFanout;
      FanoutMonotone(a.edges, b.edges, n);
    }
    if m.maxDepth > 0 {
      var n :| n in a.nodes && DepthFrom(a.edges, n, {}) == m.maxDepth;
      DepthFromMonotone(a.edges, b.edges, n);
    }
  }

  lemma MetricsMonotone(a: TopologyGraph, m: Metrics, b: TopologyGraph, k: Metrics)
    requires Extends(a, b) && IsMetrics(a, m) && IsMetrics(b, k)
    ensures m.maxFanout <= k.maxFanout && m.maxDepth <= k.maxDepth && m.complexity <= k.complexity
    ensures m.authFields <= k.authFields && m.sideEffects <= k.sideEffects
  {
    MaximaMonotone(a, m, b, k);
    assert |a.edges| <= |b.edges| by { FanoutMonotone(a.edges, b.edges, ""); }
    SubsetSize(a.nodes.Keys, b.nodes.Keys);
    SubsetSize(SideEffectBound(a.nodes), SideEffectBound(b.nodes));
    AuthCountMonotone(a.nodes, b.nodes, b.nodes.Keys);
    SquareMonotone(m.maxFanout, k.maxFanout);
    SquareMonotone(m.maxDepth, k.maxDepth);
  }

  lemma {:induction false} SubsetSize(a: set<Id>, b: set<Id>)
    requires a <= b
    ensures |a| <= |b|
  {
    assert b == a + (b - a);
  }

  lemma SquareMonotone(x: nat, y: nat)
    requires x <= y
    ensures x * x <= y * y
  {
  }

  lemma ReachableUnique(edges: seq<TopologyEdge>, n: Id, r: set<Id>, q: set<Id>)
    requires IsReachableSet(edges, n, r) && IsReachableSet(edges, n, q)
    ensures r == q
  {
  }

  lemma ReachableGrows(a: seq<TopologyEdge>, b: seq<TopologyEdge>, n: Id, ra: set<Id>, rb: set<Id>)
    requires multiset(a) <= multiset(b) && IsReachableSet(a, n, ra) && IsReachableSet(b, n, rb)
    ensures ra <= rb
  {
    RelationMonotone(a, b);
    forall v | v in ra ensures v in rb {
      ReachesMonotone(Relation(a), Relation(b), n, v);
    }
  }

  /** Growing a topology never lowers any delta; the reachable set grows and dependency_expansion is its growth. */
  lemma GrowthNeverNegative(a: TopologyGraph, b: TopologyGraph, target: Id, s: Score, ra: set<Id>, rb: set<Id>)
    requires Extends(a, b) && IsScore(a, b, target, s)
    requires IsReachableSet(a.edges, target, ra) && IsReachableSet(b.edges, target, rb)
    ensures s.complexityDelta >= 0 && s.fanoutDelta >= 0 && s.depthDelta >= 0
    ensures s.authSurfaceExpansion >= 0 && s.sideEffectBoundDelta >= 0
    ensures ra <= rb && s.dependencyExpansion == s.replayScopeExpansion == |rb| - |ra|
  {
    var m, xa, k, xb :| Measured(a, target, m, xa) && Measured(b, target, k, xb) && s == ScoreOf(m, k, xa, xb);
    MetricsMonotone(a, m, b, k);
    ReachableUnique(a.edges, target, ra, xa);
    ReachableUnique(b.edges, target, rb, xb);
    ReachableGrows(a.edges, b.edges, target, ra, rb);
    assert rb == ra + (rb - ra);
  }

  lemma SameMetrics(a: TopologyGraph, m: Metrics, b: TopologyGraph, k: Metrics)
    requires Extends(a, b) && Extends(b, a) && IsMetrics(a, m) && IsMetrics(b, k)
    ensures m == k
  {
    MetricsMonotone(a, m, b, k);
    MetricsMonotone(b, k, a, m);
  }

  lemma ZeroScore(m: Metrics, ra: set<Id>, rb: set<Id>)
    requires rb <= ra
    ensures ScoreOf(m, m, ra, rb) == Score(0, 0, 0, 0, 0, 0, m.maxDepth, 0)
  {
    assert rb - ra == {};
  }

  /** Two listings of the same topology (edges in any order) score zero against each other. */
  lemma SameTopologyScoresZero(a: TopologyGraph, b: TopologyGraph, target: Id, s: Score)
    requires a.nodes == b.nodes && multiset(a.edges) == multiset(b.edges) && IsScore(a, b, target, s)
    ensures s == Score(0, 0, 0, 0, 0, 0, s.replayPropagationDepth, 0)
    ensures IsMaxDepth(a, a.nodes.Keys, s.replayPropagationDepth)
  {
    var m, ra, k, rb :| Measured(a, target, m, ra) && Measured(b, target, k, rb) && s == ScoreOf(m, k, ra, rb);
    SameMetrics(a, m, b, k);
    ReachableGrows(b.edges, a.edges, target, rb, ra);
    ZeroScore(m, ra, rb);
  }
}
