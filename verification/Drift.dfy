/** Propagation of drift through a topology, layer by layer (src/pi_interoperability_layer/drift_propagation.py). */
module Drift {
  import opened Graphs
  import opened Splitting
  import opened Topology

  datatype Level = NONE | INFO | LOW | MEDIUM | HIGH | CRITICAL

  function Rank(l: Level): nat {
    match l
    case NONE => 0 case INFO => 1 case LOW => 2 case MEDIUM => 3 case HIGH => 4 case CRITICAL => 5
  }

  function LevelOfRank(r: int): Level {
    if r == 0 then NONE else if r == 2 then LOW else if r == 3 then MEDIUM
    else if r == 4 then HIGH else if r == 5 then CRITICAL else INFO
  }

  /** Ranks number the levels in order of severity, and LevelOfRank reads them back. */
  lemma RankLaws(l: Level)
    ensures Rank(NONE) == 0 && Rank(INFO) == 1 && Rank(CRITICAL) == 5
    ensures Rank(INFO) < Rank(LOW) < Rank(MEDIUM) < Rank(HIGH) < Rank(CRITICAL)
    ensures LevelOfRank(Rank(l)) == l
  {
  }

  datatype DeltaType = TopologyExpanded | TopologyContracted | TopologyRewired | OtherDelta
  datatype Delta = Delta(id: string, deltaType: DeltaType, path: string, severity: Level)

  datatype Engine = Engine(maxPropagationDepth: int, authMultiplier: int, stateMultiplier: int)

  datatype RiskNode = RiskNode(
    directDeltas: seq<string>, propagatedDeltas: seq<string>,
    riskLevel: Level, propagationDepth: nat, inDirectBlastRadius: bool)

  datatype RiskEdge = RiskEdge(edge: TopologyEdge, carriesDrift: bool)

  /** One call of simulate: the engine's settings, the topology and the report's deltas. */
  datatype Scenario = Scenario(engine: Engine, topology: TopologyGraph, deltas: seq<Delta>) {
    /** Severities are INFO..CRITICAL, as the diff worker assigns them. */
    ghost predicate Valid() {
      forall d :: d in deltas ==> d.severity != NONE
    }

    /** Edges between known nodes; the others never carry risk. */
    ghost function Relation(): Edges {
      set e | e in topology.edges && e.upstream in topology.nodes && e.downstream in topology.nodes
            :: (e.upstream, e.downstream)
    }

    /** Direct delta ids per directly hit node. */
    ghost function Direct(): map<Id, seq<string>> {
      map n | n in topology.nodes && DirectIds(deltas, n, topology.nodes.Keys) != []
            :: DirectIds(deltas, n, topology.nodes.Keys)
    }
  }

  // ----- direct hits

  predicate IsSection(head: string) {
    head == "nodes" || head == "trust_zones" || head == "capabilities"
  }

  predicate TopologyWide(t: DeltaType) {
    t != OtherDelta
  }

  /** Whether a delta is booked on node n: by its path, or by being topology-wide with another kind of path. */
  predicate Hits(d: Delta, n: Id, nodes: set<Id>) {
    var parts := Split(d.path, '.');
    n in nodes && if |parts| >= 2 && IsSection(parts[0]) then parts[1] == n else TopologyWide(d.deltaType)
  }

  function DirectIds(deltas: seq<Delta>, n: Id, nodes: set<Id>): seq<string> {
    if deltas == [] then [] else
      var last := deltas[|deltas| - 1];
      DirectIds(deltas[..|deltas| - 1], n, nodes) + if Hits(last, n, nodes) then [last.id] else []
  }

  ghost predicate IsMapping(mapping: map<Id, seq<string>>, deltas: seq<Delta>, nodes: set<Id>) {
    && mapping.Keys <= nodes
    && (forall n :: n in nodes ==> DirectIds(deltas, n, nodes) == Booked(mapping, n))
    && (forall n :: n in mapping ==> mapping[n] != [])
  }

  function Booked(mapping: map<Id, seq<string>>, n: Id): seq<string> {
    if n in mapping then mapping[n] else []
  }

  /** Adds id to the list of n, which may be new. */
  function Book(mapping: map<Id, seq<string>>, n: Id, id: string): map<Id, seq<string>> {
    mapping[n := Booked(mapping, n) + [id]]
  }

  /** after holds what before holds, and d on every node that d hits. */
  ghost predicate BookedDelta(before: map<Id, seq<string>>, after: map<Id, seq<string>>, d: Delta, nodes: set<Id>) {
    && after.Keys <= before.Keys + nodes && (forall n :: n in before ==> n in after)
    && (forall n :: n in after ==> n in before || after[n] != [])
    && forall n :: n in nodes ==> Booked(after, n) == Booked(before, n) + if Hits(d, n, nodes) then [d.id] else []
  }

  method BookDelta(mapping: map<Id, seq<string>>, d: Delta, nodes: set<Id>) returns (r: map<Id, seq<string>>)
    ensures BookedDelta(mapping, r, d, nodes)
  {
    r := mapping;
    var parts := Split(d.path, '.');
    if |parts| >= 2 && IsSection(parts[0]) {
      if parts[1] in nodes {
        r := Book(mapping, parts[1], d.id);
      }
    } else if TopologyWide(d.deltaType) {
      r := BookAll(mapping, nodes, d.id);
    }
  }

  lemma DirectIdsSnoc(deltas: seq<Delta>, d: Delta, n: Id, nodes: set<Id>)
    ensures DirectIds(deltas + [d], n, nodes) == DirectIds(deltas, n, nodes) + if Hits(d, n, nodes) then [d.id] else []
  {
    assert (deltas + [d])[..|deltas|] == deltas;
  }

  lemma SplitPath(d: Delta, parts: seq<string>)
    requires parts != [] && d.path == Join(parts, '.') && forall k :: 0 <= k < |parts| ==> '.' !in parts[k]
    ensures Split(d.path, '.') == parts
  {
    SplitInvertsJoin(parts, '.');
  }

  /** A path of the form section.node or section.node.more books the delta on that node alone, if it exists. */
  lemma SectionPathHits(d: Delta, parts: seq<string>, n: Id, nodes: set<Id>)
    requires |parts| >= 2 && d.path == Join(parts, '.') && forall k :: 0 <= k < |parts| ==> '.' !in parts[k]
    requires parts[0] == "nodes" || parts[0] == "trust_zones" || parts[0] == "capabilities"
    ensures Hits(d, n, nodes) <==> n in nodes && n == parts[1]
  {
    SplitPath(d, parts);
  }

  /** Any other path books the delta on every node, if it is topology-wide, and on none otherwise. */
  lemma OtherPathHits(d: Delta, parts: seq<string>, n: Id, nodes: set<Id>)
    requires parts != [] && d.path == Join(parts, '.') && forall k :: 0 <= k < |parts| ==> '.' !in parts[k]
    requires |parts| == 1 || (parts[0] != "nodes" && parts[0] != "trust_zones" && parts[0] != "capabilities")
    ensures var t := d.deltaType;
            Hits(d, n, nodes) <==> n in nodes && (t.TopologyExpanded? || t.TopologyContracted? || t.TopologyRewired?)
  {
    SplitPath(d, parts);
  }

  /** A node lists an id exactly when a delta with that id hits it. */
  lemma {:induction false} DirectIdsMembers(deltas: seq<Delta>, n: Id, nodes: set<Id>, x: string)
    ensures x in DirectIds(deltas, n, nodes) <==> exists d :: d in deltas && d.id == x && Hits(d, n, nodes)
  {
    if deltas != [] {
      var pre, last := deltas[..|deltas| - 1], deltas[|deltas| - 1];
      DirectIdsMembers(pre, n, nodes, x);
      assert deltas == pre + [last];
    }
  }

  /** They stand in report order: what the first part of a report books comes first. */
  lemma {:induction false} DirectIdsConcat(a: seq<Delta>, b: seq<Delta>, n: Id, nodes: set<Id>)
    ensures DirectIds(a + b, n, nodes) == DirectIds(a, n, nodes) + DirectIds(b, n, nodes)
  {
    if b == [] {
      assert a + b == a;
    } else {
      var pre, last := b[..|b| - 1], b[|b| - 1];
      DirectIdsConcat(a, pre, n, nodes);
      assert b == pre + [last] && a + b == (a + pre) + [last];
      DirectIdsSnoc(pre, last, n, nodes);
      DirectIdsSnoc(a + pre, last, n, nodes);
    }
  }

  lemma MappingStep(before: map<Id, seq<string>>, after: map<Id, seq<string>>, deltas: seq<Delta>, i: nat,
                    nodes: set<Id>)
    requires i < |deltas| && IsMapping(before, deltas[..i], nodes) && BookedDelta(before, after, deltas[i], nodes)
    ensures IsMapping(after, deltas[..i + 1], nodes)
  {
    assert deltas[..i + 1] == deltas[..i] + [deltas[i]];
    forall n | n in nodes ensures DirectIds(deltas[..i + 1], n, nodes) == Booked(after, n) {
      DirectIdsSnoc(deltas[..i], deltas[i], n, nodes);
    }
    forall n | n in after ensures after[n] != [] {
      assert n in before ==> before[n] != [] && Booked(after, n) == after[n];
    }
  }

  method BookDeltas(deltas: seq<Delta>, nodes: set<Id>) returns (mapping: map<Id, seq<string>>)
    ensures IsMapping(mapping, deltas, nodes)
  {
    mapping := map[];
    for i := 0 to |deltas|
      invariant IsMapping(mapping, deltas[..i], nodes)
    {
      var next := BookDelta(mapping, deltas[i], nodes);
      MappingStep(mapping, next, deltas, i, nodes);
      mapping := next;
    }
    assert deltas[..|deltas|] == deltas;
  }

  lemma MappingIsDirect(mapping: map<Id, seq<string>>, sc: Scenario)
    requires IsMapping(mapping, sc.deltas, sc.topology.nodes.Keys)
    ensures mapping == sc.Direct()
  {
  }

  method MapDeltasToNodes(sc: Scenario) returns (mapping: map<Id, seq<string>>)
    ensures mapping == sc.Direct()
  {
    mapping := BookDeltas(sc.deltas, sc.topology.nodes.Keys);
    MappingIsDirect(mapping, sc);
  }

  method BookAll(mapping: map<Id, seq<string>>, nodes: set<Id>, id: string) returns (r: map<Id, seq<string>>)
    ensures r.Keys == mapping.Keys + nodes
    ensures forall n :: n in r ==> r[n] == Booked(mapping, n) + if n in nodes then [id] else []
  {
    r := mapping;
    var todo := nodes;
    while todo != {}
      invariant todo <= nodes && r.Keys == mapping.Keys + (nodes - todo)
      invariant forall n :: n in r ==> r[n] == Booked(mapping, n) + if n in nodes - todo then [id] else []
    {
      var n :| n in todo;
      r := Book(r, n, id);
      todo := todo - {n};
    }
  }

  // ----- risk levels

  function DeltaRiskLevel(id: string, deltas: seq<Delta>): Level {
    if deltas == [] then INFO else if deltas[0].id == id then deltas[0].severity else DeltaRiskLevel(id, deltas[1..])
  }

  /** d is the first delta of the report with its id. */
  ghost predicate IsFirst(deltas: seq<Delta>, d: Delta) {
    exists i :: 0 <= i < |deltas| && deltas[i] == d && forall j :: 0 <= j < i ==> deltas[j].id != d.id
  }

  /** An id stands for the severity of the first delta that carries it. */
  lemma {:induction false} DeltaRiskLevelIsFirst(id: string, deltas: seq<Delta>)
    ensures forall d :: IsFirst(deltas, d) && d.id == id ==> DeltaRiskLevel(id, deltas) == d.severity
    ensures (exists d :: d in deltas && d.id == id) ==> exists d :: IsFirst(deltas, d) && d.id == id
    ensures (forall d :: d in deltas ==> d.id != id) ==> DeltaRiskLevel(id, deltas) == INFO
  {
    if deltas != [] {
      var rest := deltas[1..];
      DeltaRiskLevelIsFirst(id, rest);
      assert deltas == [deltas[0]] + rest;
      if deltas[0].id == id {
        assert IsFirst(deltas, deltas[0]);
      } else {
        forall d: Delta | d.id == id ensures IsFirst(deltas, d) <==> IsFirst(rest, d) {
          FirstInRest(deltas, d);
        }
      }
    }
  }

  lemma FirstInRest(deltas: seq<Delta>, d: Delta)
    requires deltas != [] && deltas[0].id != d.id
    ensures IsFirst(deltas, d) <==> IsFirst(deltas[1..], d)
  {
    var rest := deltas[1..];
    if IsFirst(deltas, d) {
      var i :| 0 <= i < |deltas| && deltas[i] == d && forall j :: 0 <= j < i ==> deltas[j].id != d.id;
      assert rest[i - 1] == d && forall j :: 0 <= j < i - 1 ==> rest[j] == deltas[j + 1];
    }
    if IsFirst(rest, d) {
      var i :| 0 <= i < |rest| && rest[i] == d && forall j :: 0 <= j < i ==> rest[j].id != d.id;
      assert deltas[i + 1] == d;
      forall j | 0 <= j < i + 1 ensures deltas[j].id != d.id {
        assert j > 0 ==> deltas[j] == rest[j - 1];
      }
    }
  }

  lemma {:induction false} DeltaRiskLevelNotNone(id: string, deltas: seq<Delta>)
    requires forall d :: d in deltas ==> d.severity != NONE
    ensures DeltaRiskLevel(id, deltas) != NONE
  {
    if deltas != [] {
      assert deltas[0] in deltas;
      DeltaRiskLevelNotNone(id, deltas[1..]);
    }
  }

  function MaxRiskLevel(levels: seq<Level>): (r: Level)
    requires levels != []
    ensures r in levels && forall l :: l in levels ==> Rank(l) <= Rank(r)
  {
    if |levels| == 1 then levels[0] else
      var rest := MaxRiskLevel(levels[1..]);
      assert levels == [levels[0]] + levels[1..];
      if Rank(levels[0]) >= Rank(rest) then levels[0] else rest
  }

  function Levels(ids: seq<string>, deltas: seq<Delta>): seq<Level> {
    seq(|ids|, i requires 0 <= i < |ids| => DeltaRiskLevel(ids[i], deltas))
  }

  /** Decay by depth, slowed by carrier flags, never below INFO and never above the base level. */
  function Decayed(engine: Engine, base: Level, depth: nat, edge: TopologyEdge): (r: Level)
    requires base != NONE
    ensures r != NONE && Rank(r) <= Rank(base)
  {
    var d1 := if edge.carriesAuth then depth - engine.authMultiplier else depth;
    var d2 := if edge.carriesState then d1 - engine.stateMultiplier else d1;
    var score := Rank(base) - (if d2 > 0 then d2 else 0);
    LevelOfRank(if score > 1 then score else 1)
  }

  ghost predicate Plain(e: TopologyEdge) {
    !e.carriesAuth && !e.carriesState
  }

  /** Over a plain edge the level starts at the base level and drops one rank per step of depth, down to INFO. */
  lemma PlainDecay(engine: Engine, base: Level, depth: nat, e: TopologyEdge)
    requires base != NONE && Plain(e)
    ensures Decayed(engine, base, 0, e) == base
    ensures var r := Rank(Decayed(engine, base, depth, e));
            Rank(Decayed(engine, base, depth + 1, e)) == if r > 1 then r - 1 else 1
  {
  }

  /** How many steps of depth the flags of an edge make up for. */
  function Relief(engine: Engine, e: TopologyEdge): int {
    (if e.carriesAuth then engine.authMultiplier else 0) + (if e.carriesState then engine.stateMultiplier else 0)
  }

  /** A carrier edge decays like a plain one at a depth lessened by its multipliers. */
  lemma CarrierDecay(engine: Engine, base: Level, depth: nat, e: TopologyEdge, plain: TopologyEdge)
    requires base != NONE && Plain(plain)
    ensures e.carriesAuth && !e.carriesState ==>
      Decayed(engine, base, depth, e) == Decayed(engine, base, Positive(depth - engine.authMultiplier), plain)
    ensures !e.carriesAuth && e.carriesState ==>
      Decayed(engine, base, depth, e) == Decayed(engine, base, Positive(depth - engine.stateMultiplier), plain)
    ensures e.carriesAuth && e.carriesState ==>
      Decayed(engine, base, depth, e)
      == Decayed(engine, base, Positive(depth - engine.authMultiplier - engine.stateMultiplier), plain)
    ensures Plain(e) ==> Decayed(engine, base, depth, e) == Decayed(engine, base, depth, plain)
  {
  }

  function Positive(x: int): nat {
    if x > 0 then x else 0
  }

  /** The rank that a severity of rank r has after the given loss. */
  function Faded(r: nat, loss: int): int {
    if r - Positive(loss) > 1 then r - Positive(loss) else 1
  }

  lemma DecayedRank(engine: Engine, base: Level, depth: nat, e: TopologyEdge)
    requires base != NONE
    ensures Rank(Decayed(engine, base, depth, e)) == Faded(Rank(base), depth - Relief(engine, e))
  {
  }

  lemma FadedMonotone(r: nat, s: nat, loss: int)
    requires r <= s
    ensures Faded(r, loss) <= Faded(s, loss)
  {
  }

  /** One entry of the propagation frontier. */
  datatype Arrival = Arrival(node: Id, deltas: seq<string>, edge: TopologyEdge)

  function ArrivalRisk(sc: Scenario, a: Arrival, depth: nat): Level {
    if a.deltas == [] then NONE else
      var base := MaxRiskLevel(Levels(a.deltas, sc.deltas));
      if base == NONE then NONE else Decayed(sc.engine, base, depth, a.edge)
  }

  // ----- what the annotations mean

  /** Delta x arrives at n over a walk of exactly k edges from a node it hits directly. */
  ghost predicate Carries(g: Edges, direct: map<Id, seq<string>>, n: Id, k: nat, x: string)
    decreases k
  {
    if k == 0 then n in direct && x in direct[n]
    else exists u :: (u, n) in g && Carries(g, direct, u, k - 1, x)
  }

  /** The carried deltas are the direct deltas of the sources that lie k steps upstream. */
  lemma {:induction false} CarriedFromSources(g: Edges, direct: map<Id, seq<string>>, n: Id, k: nat, x: string)
    ensures Carries(g, direct, n, k, x) <==> exists s :: s in direct && x in direct[s] && Hop(g, {s}, n, k)
    decreases k
  {
    if k > 0 {
      if Carries(g, direct, n, k, x) {
        var u :| (u, n) in g && Carries(g, direct, u, k - 1, x);
        CarriedFromSources(g, direct, u, k - 1, x);
        var s :| s in direct && x in direct[s] && Hop(g, {s}, u, k - 1);
        assert Hop(g, {s}, n, k);
      }
      forall s | s in direct && x in direct[s] && Hop(g, {s}, n, k) ensures Carries(g, direct, n, k, x) {
        var u :| (u, n) in g && Hop(g, {s}, u, k - 1);
        CarriedFromSources(g, direct, u, k - 1, x);
      }
    } else if n in direct && x in direct[n] {
      assert Hop(g, {n}, n, 0);
    }
  }

  lemma {:induction false} CarriesSome(g: Edges, direct: map<Id, seq<string>>, n: Id, k: nat) returns (x: string)
    requires Hop(g, direct.Keys, n, k) && forall s :: s in direct ==> direct[s] != []
    ensures Carries(g, direct, n, k, x)
    decreases k
  {
    if k == 0 {
      x := direct[n][0];
    } else {
      var u :| (u, n) in g && Hop(g, direct.Keys, u, k - 1);
      x := CarriesSome(g, direct, u, k - 1);
    }
  }

  ghost predicate ArrivesAt(sc: Scenario, n: Id, k: nat, x: string) {
    Carries(sc.Relation(), sc.Direct(), n, k, x)
  }

  /** b is the worst level among the deltas that arrive at n after k steps. */
  ghost predicate IsWorst(sc: Scenario, n: Id, k: nat, b: Level) {
    && (exists x :: ArrivesAt(sc, n, k, x) && DeltaRiskLevel(x, sc.deltas) == b)
    && (forall x :: ArrivesAt(sc, n, k, x) ==> Rank(DeltaRiskLevel(x, sc.deltas)) <= Rank(b))
  }

  lemma MaxOfLevelsIsWorst(sc: Scenario, ids: seq<string>, n: Id, k: nat)
    requires ids != [] && forall x :: x in ids <==> ArrivesAt(sc, n, k, x)
    ensures IsWorst(sc, n, k, MaxRiskLevel(Levels(ids, sc.deltas)))
  {
    var levels := Levels(ids, sc.deltas);
    var b := MaxRiskLevel(levels);
    var i :| 0 <= i < |levels| && levels[i] == b;
    assert ids[i] in ids;
    forall x | ArrivesAt(sc, n, k, x) ensures Rank(DeltaRiskLevel(x, sc.deltas)) <= Rank(b) {
      var j :| 0 <= j < |ids| && ids[j] == x;
      assert levels[j] in levels;
    }
  }

  /** Edge e brings risk l to n at depth k from a node one layer upstream. */
  ghost predicate Brings(sc: Scenario, n: Id, k: nat, e: TopologyEdge, l: Level)
    requires k >= 1
  {
    && e in sc.topology.edges && e.downstream == n && e.upstream in sc.topology.nodes
    && IsDistance(sc.Relation(), sc.Direct().Keys, e.upstream, k - 1)
    && exists b :: b != NONE && IsWorst(sc, e.upstream, k - 1, b) && l == Decayed(sc.engine, b, k, e)
  }

  ghost predicate IsArrivedRisk(sc: Scenario, n: Id, k: nat, r: Level)
    requires k >= 1
  {
    && (exists e :: Brings(sc, n, k, e, r))
    && (forall e, l :: Brings(sc, n, k, e, l) ==> Rank(l) <= Rank(r))
  }

  /** A directly hit node. */
  ghost predicate IsDirect(sc: Scenario, n: Id, a: RiskNode) {
    var d := sc.Direct();
    && n in d && a.directDeltas == d[n] && a.inDirectBlastRadius && a.propagationDepth == 0
    && a.propagatedDeltas == [] && a.riskLevel == MaxRiskLevel(Levels(d[n], sc.deltas))
  }

  /** A node first reached after k >= 1 steps. */
  ghost predicate IsReached(sc: Scenario, n: Id, a: RiskNode, k: nat) {
    k >= 1 && IsDistance(sc.Relation(), sc.Direct().Keys, n, k) && Carrying(sc, n, a, k)
  }

  /** n carries what arrives over k steps. */
  ghost predicate Carrying(sc: Scenario, n: Id, a: RiskNode, k: nat)
    requires k >= 1
  {
    && a.directDeltas == [] && !a.inDirectBlastRadius && a.propagationDepth == k
    && Distinct(a.propagatedDeltas) && (forall x :: x in a.propagatedDeltas <==> ArrivesAt(sc, n, k, x))
    && IsArrivedRisk(sc, n, k, a.riskLevel)
  }

  ghost predicate IsUntouched(a: RiskNode) {
    a.directDeltas == [] && a.propagatedDeltas == [] && a.riskLevel == NONE && a.propagationDepth == 0
    && !a.inDirectBlastRadius
  }

  /** The annotation of n once layers 1..k have been propagated. */
  ghost predicate Annotated(sc: Scenario, n: Id, a: RiskNode, k: nat) {
    if n in sc.Direct() then IsDirect(sc, n, a)
    else if Within(sc.Relation(), sc.Direct().Keys, n, k)
    then a.propagationDepth <= k && IsReached(sc, n, a, a.propagationDepth)
    else IsUntouched(a)
  }

  ghost predicate AllAnnotated(sc: Scenario, nodes: map<Id, RiskNode>, k: nat) {
    nodes.Keys == sc.topology.nodes.Keys && forall n :: n in nodes ==> Annotated(sc, n, nodes[n], k)
  }

  // ----- one layer

  function Deltas(a: RiskNode): seq<string> {
    a.directDeltas + a.propagatedDeltas
  }

  /** An annotated node is at risk exactly within distance k, and then lists the deltas that arrive there. */
  lemma AtRiskMeaning(sc: Scenario, n: Id, a: RiskNode, k: nat)
    requires sc.Valid() && Annotated(sc, n, a, k)
    ensures a.riskLevel != NONE <==> Within(sc.Relation(), sc.Direct().Keys, n, k)
    ensures a.riskLevel != NONE ==>
      && a.propagationDepth <= k && IsDistance(sc.Relation(), sc.Direct().Keys, n, a.propagationDepth)
      && Deltas(a) != [] && forall x :: x in Deltas(a) <==> ArrivesAt(sc, n, a.propagationDepth, x)
  {
    var g, direct := sc.Relation(), sc.Direct();
    if n in direct {
      var levels := Levels(direct[n], sc.deltas);
      var i :| 0 <= i < |levels| && levels[i] == a.riskLevel;
      DeltaRiskLevelNotNone(direct[n][i], sc.deltas);
      assert Hop(g, direct.Keys, n, 0);
    } else if Within(g, direct.Keys, n, k) {
      var x := CarriesSome(g, direct, n, a.propagationDepth);
      assert ArrivesAt(sc, n, a.propagationDepth, x);
    }
  }

  ghost predicate IsAtRisk(nodes: map<Id, RiskNode>, n: Id, depth: nat) {
    n in nodes && nodes[n].riskLevel != NONE && nodes[n].propagationDepth < depth
  }

  ghost predicate IsArrival(nodes: map<Id, RiskNode>, edges: seq<TopologyEdge>, depth: nat, a: Arrival) {
    && a.edge in edges && IsAtRisk(nodes, a.edge.upstream, depth) && !IsAtRisk(nodes, a.edge.downstream, depth)
    && a.node == a.edge.downstream && a.deltas == Deltas(nodes[a.edge.upstream])
  }

  method PropagationFrontier(nodes: map<Id, RiskNode>, edges: seq<TopologyEdge>, depth: nat)
    returns (frontier: seq<Arrival>)
    ensures forall a :: a in frontier <==> IsArrival(nodes, edges, depth, a)
  {
    var prev := set n | n in nodes && nodes[n].riskLevel != NONE && nodes[n].propagationDepth < depth;
    frontier := [];
    for i := 0 to |edges|
      invariant forall a :: a in frontier <==> IsArrival(nodes, edges[..i], depth, a)
    {
      var e := edges[i];
      assert edges[..i + 1] == edges[..i] + [e];
      if e.upstream in prev && e.downstream !in prev {
        frontier := frontier + [Arrival(e.downstream, Deltas(nodes[e.upstream]), e)];
      }
    }
    assert edges[..|edges|] == edges;
  }

  /** The elements of a set once each, in an order the source leaves open. */
  method ListOfSet(s: set<string>) returns (l: seq<string>)
    ensures Distinct(l) && forall x :: x in l <==> x in s
  {
    l := [];
    var todo := s;
    while todo != {}
      invariant todo <= s && Distinct(l) && forall x :: x in l <==> x in s - todo
    {
      var x :| x in todo;
      assert forall i :: 0 <= i < |l| ==> l[i] in l && l[i] != x;
      l, todo := l + [x], todo - {x};
    }
  }

  ghost predicate KeepsDirect(a: RiskNode) {
    a.inDirectBlastRadius && a.propagationDepth == 0
  }

  /** Node n after the arrivals fs (all at the same depth) have been merged into its annotation was. */
  ghost predicate IsMerged(sc: Scenario, fs: seq<Arrival>, n: Id, depth: nat, was: RiskNode, a: RiskNode) {
    if KeepsDirect(was) || forall f :: f in fs ==> f.node != n then a == was
    else
      && a.directDeltas == [] && !a.inDirectBlastRadius && a.propagationDepth == depth && Distinct(a.propagatedDeltas)
      && (forall x :: x in a.propagatedDeltas <==> exists f :: f in fs && f.node == n && x in f.deltas)
      && (exists f :: f in fs && f.node == n && a.riskLevel == ArrivalRisk(sc, f, depth))
      && (forall f :: f in fs && f.node == n ==> Rank(ArrivalRisk(sc, f, depth)) <= Rank(a.riskLevel))
  }

  ghost predicate Targeted(fs: seq<Arrival>, n: Id) {
    exists f :: f in fs && f.node == n
  }

  method MergeArrival(sc: Scenario, f: Arrival, depth: nat, a: RiskNode) returns (r: RiskNode)
    requires depth >= 1
    ensures r.directDeltas == a.directDeltas && r.inDirectBlastRadius == a.inDirectBlastRadius
    ensures Distinct(r.propagatedDeltas)
    ensures forall x :: x in r.propagatedDeltas <==> x in a.propagatedDeltas || x in f.deltas
    ensures r.riskLevel == MaxRiskLevel([a.riskLevel, ArrivalRisk(sc, f, depth)])
    ensures r.propagationDepth == if 0 < a.propagationDepth < depth then a.propagationDepth else depth
  {
    var merged := ListOfSet((set x | x in a.propagatedDeltas) + set x | x in f.deltas);
    r := a.(propagatedDeltas := merged,
            riskLevel := MaxRiskLevel([a.riskLevel, ArrivalRisk(sc, f, depth)]),
            propagationDepth := if a.propagationDepth > 0
              then (if a.propagationDepth < depth then a.propagationDepth else depth) else depth);
  }

  lemma MergeStep(sc: Scenario, fs: seq<Arrival>, f: Arrival, depth: nat, was: RiskNode, a: RiskNode, r: RiskNode)
    requires depth >= 1 && IsUntouched(was) && IsMerged(sc, fs, f.node, depth, was, a)
    requires r.directDeltas == a.directDeltas && r.inDirectBlastRadius == a.inDirectBlastRadius
    requires Distinct(r.propagatedDeltas)
    requires forall x :: x in r.propagatedDeltas <==> x in a.propagatedDeltas || x in f.deltas
    requires r.riskLevel == MaxRiskLevel([a.riskLevel, ArrivalRisk(sc, f, depth)])
    requires r.propagationDepth == if 0 < a.propagationDepth < depth then a.propagationDepth else depth
    ensures IsMerged(sc, fs + [f], f.node, depth, was, r)
  {
    var all := fs + [f];
    assert f in all;
    assert ArrivalRisk(sc, f, depth) in [a.riskLevel, ArrivalRisk(sc, f, depth)];
    assert a.riskLevel in [a.riskLevel, ArrivalRisk(sc, f, depth)];
    if forall e :: e in fs ==> e.node != f.node {
      assert r.riskLevel == ArrivalRisk(sc, f, depth);
    }
  }

  lemma MergeElsewhere(sc: Scenario, fs: seq<Arrival>, f: Arrival, n: Id, depth: nat, was: RiskNode, a: RiskNode)
    requires IsMerged(sc, fs, n, depth, was, a) && (n != f.node || KeepsDirect(was))
    ensures IsMerged(sc, fs + [f], n, depth, was, a)
  {
  }

  lemma MergeOthers(sc: Scenario, nodes: map<Id, RiskNode>, r: map<Id, RiskNode>, fs: seq<Arrival>, f: Arrival,
                    depth: nat)
    requires r.Keys == nodes.Keys && forall n :: n in nodes ==> IsMerged(sc, fs, n, depth, nodes[n], r[n])
    ensures forall n :: n in nodes && (n != f.node || KeepsDirect(nodes[n])) ==>
      IsMerged(sc, fs + [f], n, depth, nodes[n], r[n])
  {
    forall n | n in nodes && (n != f.node || KeepsDirect(nodes[n]))
      ensures IsMerged(sc, fs + [f], n, depth, nodes[n], r[n]) {
      MergeElsewhere(sc, fs, f, n, depth, nodes[n], r[n]);
    }
  }

  /** The inner loop of one depth. Arrivals concern nodes not annotated so far, or direct ones, which are skipped. */
  method ApplyFrontier(sc: Scenario, nodes: map<Id, RiskNode>, frontier: seq<Arrival>, depth: nat)
    returns (r: map<Id, RiskNode>)
    requires depth >= 1
    requires forall n :: n in nodes && Targeted(frontier, n) ==> IsUntouched(nodes[n]) || KeepsDirect(nodes[n])
    ensures r.Keys == nodes.Keys
    ensures forall n :: n in nodes ==> IsMerged(sc, frontier, n, depth, nodes[n], r[n])
  {
    r := nodes;
    for i := 0 to |frontier|
      invariant r.Keys == nodes.Keys
      invariant forall n :: n in nodes ==> IsMerged(sc, frontier[..i], n, depth, nodes[n], r[n])
    {
      var f := frontier[i];
      assert frontier[..i + 1] == frontier[..i] + [f];
      MergeOthers(sc, nodes, r, frontier[..i], f, depth);
      if f.node !in r {
        continue;
      }
      var existing := r[f.node];
      if existing.inDirectBlastRadius && existing.propagationDepth == 0 {
        assert KeepsDirect(nodes[f.node]);
        continue;
      }
      assert Targeted(frontier, f.node) && !KeepsDirect(nodes[f.node]);
      var merged := MergeArrival(sc, f, depth, existing);
      MergeStep(sc, frontier[..i], f, depth, nodes[f.node], existing, merged);
      r := r[f.node := merged];
    }
    assert frontier[..|frontier|] == frontier;
  }

  // ----- the layer invariant

  /** The arrival that edge e contributes. */
  ghost function ArrivalOver(nodes: map<Id, RiskNode>, e: TopologyEdge): Arrival
    requires e.upstream in nodes
  {
    Arrival(e.downstream, Deltas(nodes[e.upstream]), e)
  }

  /** An arrival at a known node comes over an edge from layer k to a node at distance k + 1. */
  lemma ArrivalDistance(sc: Scenario, nodes: map<Id, RiskNode>, k: nat, f: Arrival)
    requires sc.Valid() && AllAnnotated(sc, nodes, k)
    requires IsArrival(nodes, sc.topology.edges, k + 1, f) && f.node in nodes
    ensures (f.edge.upstream, f.node) in sc.Relation()
    ensures IsDistance(sc.Relation(), sc.Direct().Keys, f.edge.upstream, k)
    ensures IsDistance(sc.Relation(), sc.Direct().Keys, f.node, k + 1)
    ensures f.deltas != [] && forall x :: x in f.deltas <==> ArrivesAt(sc, f.edge.upstream, k, x)
  {
    var g, s, u := sc.Relation(), sc.Direct().Keys, f.edge.upstream;
    AtRiskMeaning(sc, u, nodes[u], k);
    AtRiskMeaning(sc, f.node, nodes[f.node], k);
    NextLayer(g, s, u, f.node, nodes[u].propagationDepth, k);
  }

  lemma WorstIsNotNone(sc: Scenario, n: Id, k: nat, b: Level)
    requires sc.Valid() && IsWorst(sc, n, k, b)
    ensures b != NONE
  {
    var x :| ArrivesAt(sc, n, k, x) && DeltaRiskLevel(x, sc.deltas) == b;
    DeltaRiskLevelNotNone(x, sc.deltas);
  }

  /** Its risk is the one its edge brings. */
  lemma ArrivalBrings(sc: Scenario, nodes: map<Id, RiskNode>, k: nat, f: Arrival)
    requires sc.Valid() && AllAnnotated(sc, nodes, k)
    requires IsArrival(nodes, sc.topology.edges, k + 1, f) && f.node in nodes
    ensures Brings(sc, f.node, k + 1, f.edge, ArrivalRisk(sc, f, k + 1))
  {
    ArrivalDistance(sc, nodes, k, f);
    MaxOfLevelsIsWorst(sc, f.deltas, f.edge.upstream, k);
    WorstIsNotNone(sc, f.edge.upstream, k, MaxRiskLevel(Levels(f.deltas, sc.deltas)));
  }

  /** Every edge from a node reachable in k steps to a node not within k gives an arrival. */
  lemma EdgeArrives(sc: Scenario, nodes: map<Id, RiskNode>, k: nat, e: TopologyEdge)
    requires sc.Valid() && AllAnnotated(sc, nodes, k)
    requires e in sc.topology.edges && e.upstream in nodes && e.downstream in nodes
    requires Hop(sc.Relation(), sc.Direct().Keys, e.upstream, k)
    requires !Within(sc.Relation(), sc.Direct().Keys, e.downstream, k)
    ensures IsArrival(nodes, sc.topology.edges, k + 1, ArrivalOver(nodes, e))
  {
    AtRiskMeaning(sc, e.upstream, nodes[e.upstream], k);
    AtRiskMeaning(sc, e.downstream, nodes[e.downstream], k);
  }

  lemma {:induction false} CarriesHop(g: Edges, direct: map<Id, seq<string>>, n: Id, k: nat, x: string)
    requires Carries(g, direct, n, k, x)
    ensures Hop(g, direct.Keys, n, k)
    decreases k
  {
    if k > 0 {
      var u :| (u, n) in g && Carries(g, direct, u, k - 1, x);
      CarriesHop(g, direct, u, k - 1, x);
    }
  }

  ghost predicate IsFrontier(sc: Scenario, nodes: map<Id, RiskNode>, k: nat, frontier: seq<Arrival>) {
    forall a :: a in frontier <==> IsArrival(nodes, sc.topology.edges, k + 1, a)
  }

  /** The arrivals at n bring exactly the deltas that reach n after k + 1 steps. */
  lemma ArrivedDeltas(sc: Scenario, nodes: map<Id, RiskNode>, k: nat, frontier: seq<Arrival>, n: Id, x: string)
    requires sc.Valid() && AllAnnotated(sc, nodes, k) && IsFrontier(sc, nodes, k, frontier)
    requires n in nodes && !Within(sc.Relation(), sc.Direct().Keys, n, k)
    ensures ArrivesAt(sc, n, k + 1, x) <==> exists f :: f in frontier && f.node == n && x in f.deltas
  {
    var g, direct := sc.Relation(), sc.Direct();
    forall f | f in frontier && f.node == n && x in f.deltas ensures ArrivesAt(sc, n, k + 1, x) {
      ArrivalDistance(sc, nodes, k, f);
    }
    if ArrivesAt(sc, n, k + 1, x) {
      var u :| (u, n) in g && Carries(g, direct, u, k, x);
      CarriesHop(g, direct, u, k, x);
      var e :| e in sc.topology.edges && e.upstream == u && e.downstream == n;
      EdgeArrives(sc, nodes, k, e);
      var f := ArrivalOver(nodes, e);
      ArrivalDistance(sc, nodes, k, f);
      assert ArrivesAt(sc, u, k, x);
    }
  }

  /** They bring exactly the risks of the edges from layer k. */
  lemma ArrivedRisks(sc: Scenario, nodes: map<Id, RiskNode>, k: nat, frontier: seq<Arrival>, n: Id,
                     e: TopologyEdge, l: Level)
    requires sc.Valid() && AllAnnotated(sc, nodes, k) && IsFrontier(sc, nodes, k, frontier)
    requires n in nodes && !Within(sc.Relation(), sc.Direct().Keys, n, k) && Brings(sc, n, k + 1, e, l)
    ensures ArrivalOver(nodes, e) in frontier && ArrivalRisk(sc, ArrivalOver(nodes, e), k + 1) == l
  {
    EdgeArrives(sc, nodes, k, e);
    var f := ArrivalOver(nodes, e);
    ArrivalDistance(sc, nodes, k, f);
    assert f in frontier;
    var b :| b != NONE && IsWorst(sc, e.upstream, k, b) && l == Decayed(sc.engine, b, k + 1, e);
    MaxOfLevelsIsWorst(sc, f.deltas, e.upstream, k);
    WorstUnique(sc, e.upstream, k, b, MaxRiskLevel(Levels(f.deltas, sc.deltas)));
  }

  lemma WorstUnique(sc: Scenario, n: Id, k: nat, b: Level, c: Level)
    requires IsWorst(sc, n, k, b) && IsWorst(sc, n, k, c)
    ensures b == c
  {
    RankInjective(b, c);
  }

  lemma RankInjective(b: Level, c: Level)
    ensures Rank(b) == Rank(c) ==> b == c
  {
  }

  lemma RiskOfMerge(sc: Scenario, nodes: map<Id, RiskNode>, k: nat, d: nat, frontier: seq<Arrival>, n: Id, a: RiskNode)
    requires sc.Valid() && AllAnnotated(sc, nodes, k) && IsFrontier(sc, nodes, k, frontier) && d == k + 1
    requires n in nodes && !Within(sc.Relation(), sc.Direct().Keys, n, k) && Targeted(frontier, n)
    requires IsMerged(sc, frontier, n, d, nodes[n], a) && !KeepsDirect(nodes[n])
    ensures IsArrivedRisk(sc, n, d, a.riskLevel)
  {
    var f :| f in frontier && f.node == n && a.riskLevel == ArrivalRisk(sc, f, d);
    ArrivalBrings(sc, nodes, k, f);
    forall e, l | Brings(sc, n, d, e, l) ensures Rank(l) <= Rank(a.riskLevel) {
      ArrivedRisks(sc, nodes, k, frontier, n, e, l);
    }
  }

  lemma DeltasOfMerge(sc: Scenario, nodes: map<Id, RiskNode>, k: nat, d: nat, frontier: seq<Arrival>, n: Id,
                      a: RiskNode)
    requires sc.Valid() && AllAnnotated(sc, nodes, k) && IsFrontier(sc, nodes, k, frontier) && d == k + 1
    requires n in nodes && !Within(sc.Relation(), sc.Direct().Keys, n, k) && Targeted(frontier, n)
    requires IsMerged(sc, frontier, n, d, nodes[n], a) && !KeepsDirect(nodes[n])
    ensures forall x :: x in a.propagatedDeltas <==> ArrivesAt(sc, n, d, x)
  {
    forall x ensures x in a.propagatedDeltas <==> ArrivesAt(sc, n, d, x) {
      ArrivedDeltas(sc, nodes, k, frontier, n, x);
    }
  }

  lemma DirectIsWithin(sc: Scenario, n: Id, k: nat)
    requires n in sc.Direct()
    ensures Within(sc.Relation(), sc.Direct().Keys, n, k)
  {
    assert Hop(sc.Relation(), sc.Direct().Keys, n, 0);
  }

  lemma OutsideIsNotDirect(sc: Scenario, n: Id, a: RiskNode, k: nat)
    requires Annotated(sc, n, a, k) && !Within(sc.Relation(), sc.Direct().Keys, n, k)
    ensures !KeepsDirect(a) && n !in sc.Direct()
  {
    if n in sc.Direct() {
      DirectIsWithin(sc, n, k);
    }
  }

  lemma DistanceOfMerge(sc: Scenario, nodes: map<Id, RiskNode>, k: nat, frontier: seq<Arrival>, n: Id)
    requires sc.Valid() && AllAnnotated(sc, nodes, k) && IsFrontier(sc, nodes, k, frontier)
    requires n in nodes && Targeted(frontier, n)
    ensures IsDistance(sc.Relation(), sc.Direct().Keys, n, k + 1)
  {
    var f :| f in frontier && f.node == n;
    ArrivalDistance(sc, nodes, k, f);
  }

  lemma CarryingByMerge(sc: Scenario, nodes: map<Id, RiskNode>, k: nat, d: nat, frontier: seq<Arrival>, n: Id,
                        a: RiskNode)
    requires sc.Valid() && AllAnnotated(sc, nodes, k) && IsFrontier(sc, nodes, k, frontier) && d == k + 1
    requires n in nodes && !Within(sc.Relation(), sc.Direct().Keys, n, k) && Targeted(frontier, n)
    requires IsMerged(sc, frontier, n, d, nodes[n], a) && !KeepsDirect(nodes[n])
    ensures Carrying(sc, n, a, d)
  {
    RiskOfMerge(sc, nodes, k, d, frontier, n, a);
    DeltasOfMerge(sc, nodes, k, d, frontier, n, a);
  }

  lemma NotReachedWithoutArrival(sc: Scenario, nodes: map<Id, RiskNode>, k: nat, frontier: seq<Arrival>, n: Id)
    requires sc.Valid() && AllAnnotated(sc, nodes, k) && IsFrontier(sc, nodes, k, frontier)
    requires n in nodes && !Within(sc.Relation(), sc.Direct().Keys, n, k) && !Targeted(frontier, n)
    ensures !Within(sc.Relation(), sc.Direct().Keys, n, k + 1)
  {
    WithinNext(sc.Relation(), sc.Direct().Keys, n, k);
    if Hop(sc.Relation(), sc.Direct().Keys, n, k + 1) {
      HopGivesArrival(sc, nodes, k, frontier, n);
    }
  }

  lemma HopGivesArrival(sc: Scenario, nodes: map<Id, RiskNode>, k: nat, frontier: seq<Arrival>, n: Id)
    requires sc.Valid() && AllAnnotated(sc, nodes, k) && IsFrontier(sc, nodes, k, frontier)
    requires n in nodes && !Within(sc.Relation(), sc.Direct().Keys, n, k)
    requires Hop(sc.Relation(), sc.Direct().Keys, n, k + 1)
    ensures Targeted(frontier, n)
  {
    var u :| (u, n) in sc.Relation() && Hop(sc.Relation(), sc.Direct().Keys, u, k);
    var e :| e in sc.topology.edges && e.upstream == u && e.downstream == n;
    EdgeArrives(sc, nodes, k, e);
    assert ArrivalOver(nodes, e) in frontier;
  }

  /** One round of the outer loop carries the meaning of the annotations from depth k to depth k + 1. */
  lemma LayerStep(sc: Scenario, nodes: map<Id, RiskNode>, k: nat, frontier: seq<Arrival>, n: Id, a: RiskNode)
    requires sc.Valid() && AllAnnotated(sc, nodes, k) && IsFrontier(sc, nodes, k, frontier)
    requires n in nodes && IsMerged(sc, frontier, n, k + 1, nodes[n], a)
    ensures Annotated(sc, n, a, k + 1)
  {
    var g, s := sc.Relation(), sc.Direct().Keys;
    AtRiskMeaning(sc, n, nodes[n], k);
    if n in sc.Direct() {
    } else if Within(g, s, n, k) {
      assert Within(g, s, n, k + 1);
      assert IsAtRisk(nodes, n, k + 1);
      assert forall f :: f in frontier ==> f.node != n;
    } else if Targeted(frontier, n) {
      OutsideIsNotDirect(sc, n, nodes[n], k);
      DistanceOfMerge(sc, nodes, k, frontier, n);
      CarryingByMerge(sc, nodes, k, k + 1, frontier, n, a);
      assert Within(g, s, n, k + 1);
    } else {
      NotReachedWithoutArrival(sc, nodes, k, frontier, n);
    }
  }

  // ----- simulate

  const BLANK := RiskNode([], [], NONE, 0, false)

  method MarkDirect(sc: Scenario) returns (nodes: map<Id, RiskNode>)
    requires sc.Valid()
    ensures AllAnnotated(sc, nodes, 0)
  {
    nodes := map n | n in sc.topology.nodes :: BLANK;
    var direct := MapDeltasToNodes(sc);
    var todo := direct.Keys;
    while todo != {}
      invariant todo <= direct.Keys && nodes.Keys == sc.topology.nodes.Keys
      invariant forall n :: n in nodes ==>
        if n in direct && n !in todo then IsDirect(sc, n, nodes[n]) else nodes[n] == BLANK
    {
      var n :| n in todo;
      nodes := nodes[n := nodes[n].(directDeltas := direct[n], inDirectBlastRadius := true,
                                   riskLevel := MaxRiskLevel(Levels(direct[n], sc.deltas)), propagationDepth := 0)];
      todo := todo - {n};
    }
    forall n | n in nodes && n !in direct ensures Annotated(sc, n, nodes[n], 0) {
      assert !Hop(sc.Relation(), direct.Keys, n, 0);
    }
  }

  method Propagate(sc: Scenario, start: map<Id, RiskNode>) returns (nodes: map<Id, RiskNode>)
    requires sc.Valid() && AllAnnotated(sc, start, 0)
    ensures AllAnnotated(sc, nodes, Positive(sc.engine.maxPropagationDepth))
  {
    nodes := start;
    var k := 0;
    while k < sc.engine.maxPropagationDepth
      invariant k <= Positive(sc.engine.maxPropagationDepth) && AllAnnotated(sc, nodes, k)
    {
      nodes := PropagateLayer(sc, nodes, k);
      k := k + 1;
    }
  }

  method PropagateLayer(sc: Scenario, nodes: map<Id, RiskNode>, k: nat) returns (r: map<Id, RiskNode>)
    requires sc.Valid() && AllAnnotated(sc, nodes, k)
    ensures AllAnnotated(sc, r, k + 1)
  {
    var d := k + 1;
    var frontier := PropagationFrontier(nodes, sc.topology.edges, d);
    assert forall n :: n in nodes && Targeted(frontier, n) ==> IsUntouched(nodes[n]) by {
      TargetsAreUntouched(sc, nodes, k, frontier);
    }
    r := ApplyFrontier(sc, nodes, frontier, d);
    assert AllAnnotated(sc, r, d) by {
      LayerDone(sc, nodes, k, d, frontier, r);
    }
  }

  lemma TargetsAreUntouched(sc: Scenario, nodes: map<Id, RiskNode>, k: nat, frontier: seq<Arrival>)
    requires sc.Valid() && AllAnnotated(sc, nodes, k) && IsFrontier(sc, nodes, k, frontier)
    ensures forall n :: n in nodes && Targeted(frontier, n) ==> IsUntouched(nodes[n])
  {
    forall n | n in nodes && Targeted(frontier, n) ensures IsUntouched(nodes[n]) {
      TargetIsUntouched(sc, nodes, k, frontier, n);
    }
  }

  lemma LayerDone(sc: Scenario, nodes: map<Id, RiskNode>, k: nat, d: nat, frontier: seq<Arrival>, r: map<Id, RiskNode>)
    requires sc.Valid() && AllAnnotated(sc, nodes, k) && IsFrontier(sc, nodes, k, frontier)
    requires d == k + 1 && r.Keys == nodes.Keys
    requires forall n :: n in nodes ==> IsMerged(sc, frontier, n, d, nodes[n], r[n])
    ensures AllAnnotated(sc, r, d)
  {
    forall n | n in r ensures Annotated(sc, n, r[n], d) {
      LayerStep(sc, nodes, k, frontier, n, r[n]);
    }
  }

  lemma TargetIsUntouched(sc: Scenario, nodes: map<Id, RiskNode>, k: nat, frontier: seq<Arrival>, n: Id)
    requires sc.Valid() && AllAnnotated(sc, nodes, k) && IsFrontier(sc, nodes, k, frontier)
    requires n in nodes && Targeted(frontier, n)
    ensures IsUntouched(nodes[n])
  {
    DistanceOfMerge(sc, nodes, k, frontier, n);
    if n in sc.Direct() {
      DirectIsWithin(sc, n, k);
    }
  }

  /** Hit directly, or at the end of a walk of at most max_propagation_depth edges from a node hit directly. */
  ghost predicate AtRisk(sc: Scenario, n: Id) {
    n in sc.Direct()
    || exists k: nat :: k <= sc.engine.maxPropagationDepth && Hop(sc.Relation(), sc.Direct().Keys, n, k)
  }

  lemma AtRiskIsWithin(sc: Scenario, n: Id)
    ensures AtRisk(sc, n) <==> Within(sc.Relation(), sc.Direct().Keys, n, Positive(sc.engine.maxPropagationDepth))
  {
    var g, s := sc.Relation(), sc.Direct().Keys;
    if n in sc.Direct() {
      assert Hop(g, s, n, 0);
    }
  }

  ghost function NodesAtRisk(sc: Scenario): set<Id> {
    set n | n in sc.topology.nodes && AtRisk(sc, n)
  }

  /**
   * The whole simulation: a node is at risk exactly when it lies within the radius of a directly hit node,
   * its propagation_depth is its distance, and its deltas and level are those that arrive over shortest walks.
   * An edge is marked by its downstream end alone.
   */
  method Simulate(sc: Scenario) returns (nodes: map<Id, RiskNode>, edges: seq<RiskEdge>, totalAtRisk: nat)
    requires sc.Valid()
    ensures AllAnnotated(sc, nodes, Positive(sc.engine.maxPropagationDepth))
    ensures forall n :: n in nodes ==> (nodes[n].riskLevel != NONE <==> AtRisk(sc, n))
    ensures forall n :: n in nodes && AtRisk(sc, n) ==>
              IsDistance(sc.Relation(), sc.Direct().Keys, n, nodes[n].propagationDepth)
    ensures |edges| == |sc.topology.edges|
    ensures forall i :: 0 <= i < |edges| ==>
              && edges[i].edge == sc.topology.edges[i]
              && (edges[i].carriesDrift <==> edges[i].edge.downstream in nodes && AtRisk(sc, edges[i].edge.downstream))
    ensures totalAtRisk == |NodesAtRisk(sc)|
  {
    nodes := MarkDirect(sc);
    nodes := Propagate(sc, nodes);
    forall n | n in nodes
      ensures nodes[n].riskLevel != NONE <==> AtRisk(sc, n)
      ensures AtRisk(sc, n) ==> IsDistance(sc.Relation(), sc.Direct().Keys, n, nodes[n].propagationDepth)
    {
      AtRiskIsWithin(sc, n);
      AtRiskMeaning(sc, n, nodes[n], Positive(sc.engine.maxPropagationDepth));
    }
    edges := MarkEdges(nodes, sc.topology.edges);
    var atRisk := set n | n in nodes && nodes[n].riskLevel != NONE;
    assert atRisk == NodesAtRisk(sc);
    totalAtRisk := |atRisk|;
  }

  method MarkEdges(nodes: map<Id, RiskNode>, edges: seq<TopologyEdge>) returns (r: seq<RiskEdge>)
    ensures |r| == |edges|
    ensures forall i :: 0 <= i < |r| ==> r[i].edge == edges[i]
    ensures forall i :: 0 <= i < |r| ==>
              (r[i].carriesDrift <==> edges[i].downstream in nodes && nodes[edges[i].downstream].riskLevel != NONE)
  {
    r := [];
    for i := 0 to |edges|
      invariant |r| == i
      invariant forall k :: 0 <= k < i ==> r[k].edge == edges[k]
      invariant forall k :: 0 <= k < i ==>
                  (r[k].carriesDrift <==> edges[k].downstream in nodes && nodes[edges[k].downstream].riskLevel != NONE)
    {
      var d := edges[i].downstream;
      r := r + [RiskEdge(edges[i], d in nodes && nodes[d].riskLevel != NONE)];
    }
  }

  // ----- consequences

  /** What a reached node lists is exactly the direct deltas of its nearest sources. */
  lemma PropagatedFromNearest(sc: Scenario, n: Id, a: RiskNode, k: nat, x: string)
    requires IsReached(sc, n, a, k)
    ensures x in a.propagatedDeltas <==>
              exists s :: s in sc.Direct() && x in sc.Direct()[s] && Hop(sc.Relation(), {s}, n, a.propagationDepth)
  {
    CarriedFromSources(sc.Relation(), sc.Direct(), n, k, x);
    assert ArrivesAt(sc, n, k, x) <==> Carries(sc.Relation(), sc.Direct(), n, k, x);
  }

  /** Its level lies between INFO and the worst severity it lists. */
  lemma PropagatedRiskBounds(sc: Scenario, n: Id, a: RiskNode, k: nat, worst: Level)
    requires IsReached(sc, n, a, k) && n in sc.topology.nodes && IsWorst(sc, n, k, worst)
    ensures 1 <= Rank(a.riskLevel) <= Rank(worst)
  {
    var e :| Brings(sc, n, k, e, a.riskLevel);
    var b :| b != NONE && IsWorst(sc, e.upstream, k - 1, b) && a.riskLevel == Decayed(sc.engine, b, k, e);
    var x :| ArrivesAt(sc, e.upstream, k - 1, x) && DeltaRiskLevel(x, sc.deltas) == b;
    ArrivesOverEdge(sc, e, n, k, x);
  }

  lemma ArrivesOverEdge(sc: Scenario, e: TopologyEdge, n: Id, k: nat, x: string)
    requires k >= 1 && e in sc.topology.edges && e.downstream == n && n in sc.topology.nodes
    requires e.upstream in sc.topology.nodes && ArrivesAt(sc, e.upstream, k - 1, x)
    ensures ArrivesAt(sc, n, k, x)
  {
    assert (e.upstream, n) in sc.Relation();
  }

  /** first is the first delta of the report with the id of some delta that hits s. */
  ghost predicate Strikes(sc: Scenario, s: Id, first: Delta) {
    IsFirst(sc.deltas, first)
    && exists d :: d in sc.deltas && d.id == first.id && Hits(d, s, sc.topology.nodes.Keys)
  }

  lemma DirectMeans(sc: Scenario, s: Id, x: string)
    ensures s in sc.Direct() && x in sc.Direct()[s] <==> exists first :: Strikes(sc, s, first) && first.id == x
  {
    DirectIdsMembers(sc.deltas, s, sc.topology.nodes.Keys, x);
    DeltaRiskLevelIsFirst(x, sc.deltas);
    if s in sc.Direct() && x in sc.Direct()[s] {
      var d :| d in sc.deltas && d.id == x && Hits(d, s, sc.topology.nodes.Keys);
      var first :| IsFirst(sc.deltas, first) && first.id == x;
      assert Strikes(sc, s, first);
    }
  }

  /** The level of a directly hit node is the worst severity that strikes it. */
  lemma DirectRank(sc: Scenario, n: Id, a: RiskNode)
    requires IsDirect(sc, n, a)
    ensures exists first :: Strikes(sc, n, first) && a.riskLevel == first.severity
    ensures forall first :: Strikes(sc, n, first) ==> Rank(first.severity) <= Rank(a.riskLevel)
  {
    var ids := sc.Direct()[n];
    var levels := Levels(ids, sc.deltas);
    var i :| 0 <= i < |levels| && levels[i] == a.riskLevel;
    DirectMeans(sc, n, ids[i]);
    DeltaRiskLevelIsFirst(ids[i], sc.deltas);
    forall first | Strikes(sc, n, first) ensures Rank(first.severity) <= Rank(a.riskLevel) {
      DirectMeans(sc, n, first.id);
      var j :| 0 <= j < |ids| && ids[j] == first.id;
      DeltaRiskLevelIsFirst(ids[j], sc.deltas);
      assert levels[j] in levels;
    }
  }

  /** first strikes a node k - 1 steps upstream of edge e, which leads to n. */
  ghost predicate Feeds(sc: Scenario, n: Id, k: nat, e: TopologyEdge, first: Delta)
    requires k >= 1
  {
    && e in sc.topology.edges && e.downstream == n && e.upstream in sc.topology.nodes
    && exists s :: Strikes(sc, s, first) && Hop(sc.Relation(), {s}, e.upstream, k - 1)
  }

  lemma FeedsArrives(sc: Scenario, n: Id, k: nat, e: TopologyEdge, x: string)
    requires k >= 1 && e in sc.topology.edges && e.downstream == n && e.upstream in sc.topology.nodes
    ensures ArrivesAt(sc, e.upstream, k - 1, x) <==> exists first :: Feeds(sc, n, k, e, first) && first.id == x
  {
    var g, direct := sc.Relation(), sc.Direct();
    CarriedFromSources(g, direct, e.upstream, k - 1, x);
    if ArrivesAt(sc, e.upstream, k - 1, x) {
      var s :| s in direct && x in direct[s] && Hop(g, {s}, e.upstream, k - 1);
      DirectMeans(sc, s, x);
      var first :| Strikes(sc, s, first) && first.id == x;
      assert Feeds(sc, n, k, e, first);
    }
    forall first | Feeds(sc, n, k, e, first) && first.id == x ensures ArrivesAt(sc, e.upstream, k - 1, x) {
      var s :| Strikes(sc, s, first) && Hop(g, {s}, e.upstream, k - 1);
      DirectMeans(sc, s, x);
    }
  }

  /**
   * The rank of a node reached at distance k, from severities, distance and edge flags alone: the greatest value of
   * severity minus distance plus relief of the last edge, kept between INFO and the severity, over all deltas that
   * strike a node k - 1 steps before a last edge.
   */
  lemma ReachedRank(sc: Scenario, n: Id, a: RiskNode, k: nat)
    requires sc.Valid() && IsReached(sc, n, a, k) && n in sc.topology.nodes
    ensures exists e, first ::
      Feeds(sc, n, k, e, first) && Rank(a.riskLevel) == Faded(Rank(first.severity), k - Relief(sc.engine, e))
    ensures forall e, first :: Feeds(sc, n, k, e, first) ==>
      Rank(a.riskLevel) >= Faded(Rank(first.severity), k - Relief(sc.engine, e))
  {
    var e :| Brings(sc, n, k, e, a.riskLevel);
    RankAttained(sc, n, k, e, a.riskLevel);
    forall e, first | Feeds(sc, n, k, e, first)
      ensures Rank(a.riskLevel) >= Faded(Rank(first.severity), k - Relief(sc.engine, e)) {
      var l := RankBrought(sc, n, k, e, first);
    }
  }

  lemma RankAttained(sc: Scenario, n: Id, k: nat, e: TopologyEdge, l: Level)
    requires k >= 1 && Brings(sc, n, k, e, l)
    ensures exists first ::
      Feeds(sc, n, k, e, first) && Rank(l) == Faded(Rank(first.severity), k - Relief(sc.engine, e))
  {
    var b :| b != NONE && IsWorst(sc, e.upstream, k - 1, b) && l == Decayed(sc.engine, b, k, e);
    var first := WorstFeeder(sc, n, k, e, b);
    DecayedRank(sc.engine, b, k, e);
  }

  lemma WorstFeeder(sc: Scenario, n: Id, k: nat, e: TopologyEdge, b: Level) returns (first: Delta)
    requires k >= 1 && e in sc.topology.edges && e.downstream == n && e.upstream in sc.topology.nodes
    requires IsWorst(sc, e.upstream, k - 1, b)
    ensures Feeds(sc, n, k, e, first) && first.severity == b
  {
    var x :| ArrivesAt(sc, e.upstream, k - 1, x) && DeltaRiskLevel(x, sc.deltas) == b;
    FeedsArrives(sc, n, k, e, x);
    first :| Feeds(sc, n, k, e, first) && first.id == x;
    FeederIsFirst(sc, n, k, e, first);
  }

  lemma FeederIsFirst(sc: Scenario, n: Id, k: nat, e: TopologyEdge, first: Delta)
    requires k >= 1 && Feeds(sc, n, k, e, first)
    ensures DeltaRiskLevel(first.id, sc.deltas) == first.severity
  {
    DeltaRiskLevelIsFirst(first.id, sc.deltas);
  }

  lemma RankBrought(sc: Scenario, n: Id, k: nat, e: TopologyEdge, first: Delta) returns (l: Level)
    requires sc.Valid() && k >= 1 && Feeds(sc, n, k, e, first) && n in sc.topology.nodes
    requires IsDistance(sc.Relation(), sc.Direct().Keys, n, k)
    ensures Brings(sc, n, k, e, l) && Rank(l) >= Faded(Rank(first.severity), k - Relief(sc.engine, e))
  {
    var x := first.id;
    FeedsArrives(sc, n, k, e, x);
    assert ArrivesAt(sc, e.upstream, k - 1, x);
    FeederDistance(sc, n, k, e, x);
    var b := WorstExists(sc, e.upstream, k - 1, x);
    l := Decayed(sc.engine, b, k, e);
    DeltaRiskLevelIsFirst(x, sc.deltas);
    DecayedRank(sc.engine, b, k, e);
    FadedMonotone(Rank(first.severity), Rank(b), k - Relief(sc.engine, e));
  }

  /** The node before a last edge lies one step nearer. */
  lemma FeederDistance(sc: Scenario, n: Id, k: nat, e: TopologyEdge, x: string)
    requires k >= 1 && e in sc.topology.edges && e.downstream == n && e.upstream in sc.topology.nodes
    requires n in sc.topology.nodes && ArrivesAt(sc, e.upstream, k - 1, x)
    requires IsDistance(sc.Relation(), sc.Direct().Keys, n, k)
    ensures IsDistance(sc.Relation(), sc.Direct().Keys, e.upstream, k - 1)
  {
    var g, s := sc.Relation(), sc.Direct().Keys;
    CarriesHop(g, sc.Direct(), e.upstream, k - 1, x);
    assert (e.upstream, n) in g;
    forall j: nat | j < k - 1 ensures !Hop(g, s, e.upstream, j) {
      NotNearer(g, s, e.upstream, n, j);
    }
  }

  /** Levels are few, so among those that arrive there is a worst one. */
  lemma WorstExists(sc: Scenario, n: Id, k: nat, x: string) returns (b: Level)
    requires sc.Valid() && ArrivesAt(sc, n, k, x)
    ensures b != NONE && IsWorst(sc, n, k, b) && Rank(DeltaRiskLevel(x, sc.deltas)) <= Rank(b)
  {
    b := WorstFrom(sc, n, k, x);
    WorstIsNotNone(sc, n, k, b);
  }

  lemma {:induction false} WorstFrom(sc: Scenario, n: Id, k: nat, x: string) returns (b: Level)
    requires ArrivesAt(sc, n, k, x)
    ensures IsWorst(sc, n, k, b) && Rank(DeltaRiskLevel(x, sc.deltas)) <= Rank(b)
    decreases 5 - Rank(DeltaRiskLevel(x, sc.deltas))
  {
    b := DeltaRiskLevel(x, sc.deltas);
    if y :| ArrivesAt(sc, n, k, y) && Rank(DeltaRiskLevel(y, sc.deltas)) > Rank(b) {
      b := WorstFrom(sc, n, k, y);
    }
  }

  ghost predicate SameUpToEdgeOrder(sc: Scenario, sd: Scenario) {
    && sc.engine == sd.engine && sc.deltas == sd.deltas && sc.topology.nodes == sd.topology.nodes
    && forall e :: e in sc.topology.edges <==> e in sd.topology.edges
  }

  lemma SameArrivals(sc: Scenario, sd: Scenario, n: Id, k: nat)
    requires SameUpToEdgeOrder(sc, sd)
    ensures sc.Relation() == sd.Relation() && sc.Direct() == sd.Direct()
    ensures forall x :: ArrivesAt(sc, n, k, x) <==> ArrivesAt(sd, n, k, x)
  {
  }

  lemma SameBrings(sc: Scenario, sd: Scenario, n: Id, k: nat, e: TopologyEdge, l: Level)
    requires SameUpToEdgeOrder(sc, sd) && k >= 1 && Brings(sc, n, k, e, l)
    ensures Brings(sd, n, k, e, l)
  {
    SameArrivals(sc, sd, e.upstream, k - 1);
    var b :| b != NONE && IsWorst(sc, e.upstream, k - 1, b) && l == Decayed(sc.engine, b, k, e);
    assert IsWorst(sd, e.upstream, k - 1, b);
  }

  lemma ArrivedRiskUnique(sc: Scenario, sd: Scenario, n: Id, k: nat, r: Level, q: Level)
    requires SameUpToEdgeOrder(sc, sd) && k >= 1 && IsArrivedRisk(sc, n, k, r) && IsArrivedRisk(sd, n, k, q)
    ensures r == q
  {
    var e :| Brings(sc, n, k, e, r);
    var f :| Brings(sd, n, k, f, q);
    SameBrings(sc, sd, n, k, e, r);
    SameBrings(sd, sc, n, k, f, q);
    RankInjective(r, q);
  }

  /** Annotations depend on the edges only as a set: listing them in another order, or twice, changes nothing. */
  lemma EdgeOrderIrrelevant(sc: Scenario, sd: Scenario, n: Id, a: RiskNode, b: RiskNode, k: nat)
    requires SameUpToEdgeOrder(sc, sd) && Annotated(sc, n, a, k) && Annotated(sd, n, b, k)
    ensures a.riskLevel == b.riskLevel && a.propagationDepth == b.propagationDepth
    ensures a.directDeltas == b.directDeltas && a.inDirectBlastRadius == b.inDirectBlastRadius
    ensures forall x :: x in a.propagatedDeltas <==> x in b.propagatedDeltas
  {
    assert sc.Relation() == sd.Relation() && sc.Direct() == sd.Direct();
    if n !in sc.Direct() && Within(sc.Relation(), sc.Direct().Keys, n, k) {
      var d := a.propagationDepth;
      DistanceUnique(sc.Relation(), sc.Direct().Keys, n, d, b.propagationDepth);
      ArrivedRiskUnique(sc, sd, n, d, a.riskLevel, b.riskLevel);
      assert forall x :: ArrivesAt(sc, n, d, x) <==> ArrivesAt(sd, n, d, x);
    }
  }
}
