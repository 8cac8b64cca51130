/** Queue BFS behind the blast-radius frames (src/pi_connector_fabric/hyperframes_infra.py). */
module HopReveal {
  import opened Graphs

  /** Hop limit actually applied: with max_hops <= 0 only the origin is shown. */
  function Limit(maxHops: int): nat {
    if maxHops > 0 then maxHops else 0
  }

  /** Nodes of the queue at hop h, in queue order: what hop_revealed[h] lists. */
  ghost function AtHop(queue: seq<Id>, visited: map<Id, nat>, h: nat): seq<Id> {
    if queue == [] then [] else
      var last := queue[|queue| - 1];
      AtHop(queue[..|queue| - 1], visited, h) + if last in visited && visited[last] == h then [last] else []
  }

  function Revealed(hops: map<nat, seq<Id>>, h: nat): seq<Id> {
    if h in hops then hops[h] else []
  }

  datatype Search = Search(visited: map<Id, nat>, queue: seq<Id>, hops: map<nat, seq<Id>>) {
    /** The queue lists the visited nodes once each, starting with the origin. */
    ghost predicate Queued(origin: Id) {
      |queue| > 0 && queue[0] == origin && Distinct(queue) && forall v :: v in queue <==> v in visited
    }

    /** Recorded hops are lengths of walks, within the limit, and never decrease along the queue. */
    ghost predicate Sound(adj: Adjacency, origin: Id, limit: nat) {
      && origin in visited && visited[origin] == 0
      && forall v :: v in visited ==> visited[v] <= limit && Hop(Relation(adj), {origin}, v, visited[v])
    }

    ghost predicate Ordered() {
      forall i, j :: 0 <= i < j < |queue| && queue[i] in visited && queue[j] in visited ==>
        visited[queue[i]] <= visited[queue[j]]
    }

    /** The hop lists cut the queue by hop. */
    ghost predicate Listed() {
      (forall v :: v in queue <==> v in visited) && forall h: nat :: Revealed(hops, h) == AtHop(queue, visited, h)
    }

    ghost predicate Consistent(adj: Adjacency, origin: Id, limit: nat) {
      Queued(origin) && Sound(adj, origin, limit) && Ordered()
    }

    /** The search after v has been seen at hop d for the first time. */
    function Discover(v: Id, d: nat): Search {
      Search(visited[v := d], queue + [v], hops[d := Revealed(hops, d) + [v]])
    }
  }

  /** Every neighbour of u has been seen at most one hop later. */
  ghost predicate Expanded(adj: Adjacency, visited: map<Id, nat>, u: Id)
    requires u in visited
  {
    forall v :: (u, v) in Relation(adj) ==> v in visited && visited[v] <= visited[u] + 1
  }

  lemma {:induction false} AtHopUnchanged(queue: seq<Id>, visited: map<Id, nat>, v: Id, d: nat, h: nat)
    requires v !in queue
    ensures AtHop(queue, visited[v := d], h) == AtHop(queue, visited, h)
  {
    if queue != [] {
      assert queue[|queue| - 1] in queue;
      AtHopUnchanged(queue[..|queue| - 1], visited, v, d, h);
    }
  }

  lemma {:induction false} AtHopMembers(queue: seq<Id>, visited: map<Id, nat>, h: nat)
    requires Distinct(queue)
    ensures Distinct(AtHop(queue, visited, h))
    ensures forall v :: v in AtHop(queue, visited, h) <==> v in queue && v in visited && visited[v] == h
  {
    if queue != [] {
      var rest, last := queue[..|queue| - 1], queue[|queue| - 1];
      AtHopMembers(rest, visited, h);
      assert queue == rest + [last];
      assert last !in rest;
    }
  }

  lemma DiscoverAtHop(s: Search, v: Id, d: nat, h: nat)
    requires v !in s.queue && Revealed(s.hops, h) == AtHop(s.queue, s.visited, h)
    ensures Revealed(s.Discover(v, d).hops, h) == AtHop(s.Discover(v, d).queue, s.Discover(v, d).visited, h)
  {
    var t := s.Discover(v, d);
    assert t.queue[..|t.queue| - 1] == s.queue;
    AtHopUnchanged(s.queue, s.visited, v, d, h);
  }

  lemma DiscoverListed(s: Search, v: Id, d: nat)
    requires s.Listed() && v !in s.visited
    ensures s.Discover(v, d).Listed()
  {
    var t := s.Discover(v, d);
    forall h: nat ensures Revealed(t.hops, h) == AtHop(t.queue, t.visited, h) {
      DiscoverAtHop(s, v, d, h);
    }
  }

  lemma DiscoverOrdered(s: Search, v: Id, d: nat)
    requires s.Ordered() && v !in s.queue && forall w :: w in s.visited ==> s.visited[w] <= d
    ensures s.Discover(v, d).Ordered()
  {
  }

  lemma DiscoverConsistent(adj: Adjacency, origin: Id, limit: nat, s: Search, u: Id, v: Id, d: nat)
    requires s.Consistent(adj, origin, limit)
    requires u in s.visited && v !in s.visited && (u, v) in Relation(adj) && s.visited[u] < limit
    requires d == s.visited[u] + 1 && forall w :: w in s.visited ==> s.visited[w] <= d
    ensures s.Discover(v, d).Consistent(adj, origin, limit)
  {
    DiscoverOrdered(s, v, d);
    assert Hop(Relation(adj), {origin}, v, d);
  }

  /** When everything below the limit is expanded, the recorded hops are the exact distances. */
  lemma {:induction false} NearIsVisited(adj: Adjacency, origin: Id, limit: nat, visited: map<Id, nat>, v: Id, k: nat)
    requires origin in visited && visited[origin] == 0
    requires forall u :: u in visited && visited[u] < limit ==> Expanded(adj, visited, u)
    requires k <= limit && Hop(Relation(adj), {origin}, v, k)
    ensures v in visited && visited[v] <= k
    decreases k
  {
    if k > 0 {
      var u :| (u, v) in Relation(adj) && Hop(Relation(adj), {origin}, u, k - 1);
      NearIsVisited(adj, origin, limit, visited, u, k - 1);
    }
  }

  ghost predicate ExactHops(adj: Adjacency, origin: Id, limit: nat, visited: map<Id, nat>) {
    && (forall v :: v in visited <==> Within(Relation(adj), {origin}, v, limit))
    && (forall v :: v in visited ==> IsDistance(Relation(adj), {origin}, v, visited[v]))
  }

  lemma HopsAreExact(adj: Adjacency, origin: Id, limit: nat, visited: map<Id, nat>)
    requires Search(visited, [], map[]).Sound(adj, origin, limit)
    requires forall u :: u in visited && visited[u] < limit ==> Expanded(adj, visited, u)
    ensures ExactHops(adj, origin, limit, visited)
  {
    var g := Relation(adj);
    forall v | Within(g, {origin}, v, limit) ensures v in visited {
      var k: nat :| k <= limit && Hop(g, {origin}, v, k);
      NearIsVisited(adj, origin, limit, visited, v, k);
    }
    forall v, j: nat | v in visited && j < visited[v] ensures !Hop(g, {origin}, v, j) {
      if Hop(g, {origin}, v, j) {
        NearIsVisited(adj, origin, limit, visited, v, j);
      }
    }
  }

  ghost function Targets(adj: Adjacency): set<Id> {
    set u, v | u in adj && v in adj[u] :: v
  }

  /** t is s with further nodes discovered at hop d. */
  ghost predicate Grown(adj: Adjacency, s: Search, t: Search, d: nat) {
    && s.queue <= t.queue && s.visited.Keys <= t.visited.Keys <= s.visited.Keys + Targets(adj)
    && (forall w :: w in s.visited ==> t.visited[w] == s.visited[w])
    && (forall w :: w in t.visited && w !in s.visited ==> t.visited[w] == d)
    && (t.visited.Keys == s.visited.Keys ==> t == s)
  }

  lemma GrowOne(adj: Adjacency, s: Search, t: Search, u: Id, v: Id, d: nat)
    requires Grown(adj, s, t, d) && (u, v) in Relation(adj) && v !in t.visited
    ensures Grown(adj, s, t.Discover(v, d), d)
  {
    assert v in t.Discover(v, d).visited.Keys;
  }

  /** State of the inner loop that expands current, started in s. */
  ghost predicate Expanding(adj: Adjacency, origin: Id, limit: nat, s: Search, t: Search, current: Id, d: nat) {
    && t.Consistent(adj, origin, limit) && Grown(adj, s, t, d)
    && current in s.visited && d == s.visited[current] + 1 <= limit && forall w :: w in s.visited ==> s.visited[w] <= d
  }

  lemma ExpandOne(adj: Adjacency, origin: Id, limit: nat, s: Search, t: Search, current: Id, d: nat, v: Id)
    requires Expanding(adj, origin, limit, s, t, current, d) && (current, v) in Relation(adj) && v !in t.visited
    ensures Expanding(adj, origin, limit, s, t.Discover(v, d), current, d)
  {
    GrowOne(adj, s, t, current, v, d);
    assert forall w :: w in t.visited ==> t.visited[w] <= d;
    DiscoverConsistent(adj, origin, limit, t, current, v, d);
  }

  /** What the inner loop computes: discover, in list order, the nodes of ns not visited yet. */
  function DiscoverAll(s: Search, ns: seq<Id>, d: nat): Search
    decreases |ns|
  {
    if ns == [] then s
    else DiscoverAll(if ns[0] in s.visited then s else s.Discover(ns[0], d), ns[1..], d)
  }

  lemma {:induction false} ExpandAll(adj: Adjacency, origin: Id, limit: nat, s: Search, t: Search, current: Id, d: nat,
                                     ns: seq<Id>)
    requires Expanding(adj, origin, limit, s, t, current, d) && forall v :: v in ns ==> (current, v) in Relation(adj)
    ensures Expanding(adj, origin, limit, s, DiscoverAll(t, ns, d), current, d)
    ensures t.visited.Keys <= DiscoverAll(t, ns, d).visited.Keys
    ensures forall v :: v in ns ==> v in DiscoverAll(t, ns, d).visited
    decreases |ns|
  {
    if ns != [] {
      assert ns[0] in ns;
      if ns[0] in t.visited {
        ExpandAll(adj, origin, limit, s, t, current, d, ns[1..]);
      } else {
        ExpandOne(adj, origin, limit, s, t, current, d, ns[0]);
        ExpandAll(adj, origin, limit, s, t.Discover(ns[0], d), current, d, ns[1..]);
        assert ns[0] in t.Discover(ns[0], d).visited.Keys;
      }
    }
  }

  lemma {:induction false} ListedAll(s: Search, ns: seq<Id>, d: nat)
    requires s.Listed()
    ensures DiscoverAll(s, ns, d).Listed()
    decreases |ns|
  {
    if ns != [] {
      if ns[0] in s.visited {
        ListedAll(s, ns[1..], d);
      } else {
        DiscoverListed(s, ns[0], d);
        ListedAll(s.Discover(ns[0], d), ns[1..], d);
      }
    }
  }

  lemma ExpandNeighbours(adj: Adjacency, origin: Id, limit: nat, s: Search, t: Search, current: Id, d: nat)
    requires Expanding(adj, origin, limit, s, s, current, d) && t == DiscoverAll(s, Neighbours(adj, current), d)
    ensures Expanding(adj, origin, limit, s, t, current, d)
    ensures current in t.visited && Expanded(adj, t.visited, current)
  {
    var ns := Neighbours(adj, current);
    ExpandAll(adj, origin, limit, s, s, current, d, ns);
    forall v | (current, v) in Relation(adj) ensures v in t.visited && t.visited[v] <= d {
      assert v in ns;
    }
  }

  method ExpandNode(adj: Adjacency, s: Search, current: Id) returns (t: Search)
    requires current in s.visited
    ensures t == DiscoverAll(s, Neighbours(adj, current), s.visited[current] + 1)
  {
    var d := s.visited[current] + 1;
    var ns := Neighbours(adj, current);
    t := s;
    assert ns[0..] == ns;
    for i := 0 to |ns|
      invariant DiscoverAll(t, ns[i..], d) == DiscoverAll(s, ns, d)
    {
      assert ns[i..][1..] == ns[i + 1..];
      if ns[i] !in t.visited {
        t := t.Discover(ns[i], d);
      }
    }
  }

  /** State of the outer loop: what lies before head and below the limit is expanded, the rest at most a hop ahead. */
  ghost predicate Progress(adj: Adjacency, origin: Id, limit: nat, s: Search, head: nat) {
    && head <= |s.queue| && s.Consistent(adj, origin, limit) && s.visited.Keys <= {origin} + Targets(adj)
    && (forall i :: 0 <= i < head && s.visited[s.queue[i]] < limit ==> Expanded(adj, s.visited, s.queue[i]))
    && (head < |s.queue| ==> forall w :: w in s.visited ==> s.visited[w] <= s.visited[s.queue[head]] + 1)
  }

  lemma StillExpanded(adj: Adjacency, s: map<Id, nat>, t: map<Id, nat>, u: Id)
    requires u in s && s.Keys <= t.Keys && (forall w :: w in s ==> t[w] == s[w]) && Expanded(adj, s, u)
    ensures Expanded(adj, t, u)
  {
  }

  lemma NextIsNear(origin: Id, s: Search, head: nat, bound: nat)
    requires s.Queued(origin) && s.Ordered() && head + 1 < |s.queue|
    requires bound == s.visited[s.queue[head]] + 1 && forall w :: w in s.visited ==> s.visited[w] <= bound
    ensures forall w :: w in s.visited ==> s.visited[w] <= s.visited[s.queue[head + 1]] + 1
  {
    assert s.queue[head] in s.queue && s.queue[head + 1] in s.queue;
  }

  lemma Skip(adj: Adjacency, origin: Id, limit: nat, s: Search, head: nat)
    requires Progress(adj, origin, limit, s, head) && head < |s.queue| && s.visited[s.queue[head]] == limit
    ensures Progress(adj, origin, limit, s, head + 1)
  {
    if head + 1 < |s.queue| {
      NextIsNear(origin, s, head, limit + 1);
    }
  }

  lemma ProcessedStaysExpanded(adj: Adjacency, origin: Id, limit: nat, s: Search, t: Search, head: nat, d: nat, i: nat)
    requires Progress(adj, origin, limit, s, head) && Grown(adj, s, t, d) && i < head <= |s.queue|
    ensures t.queue[i] in s.visited && t.queue[i] in t.visited
    ensures t.visited[t.queue[i]] < limit ==> Expanded(adj, t.visited, t.queue[i])
  {
    assert t.queue[i] == s.queue[i];
    assert s.queue[i] in s.queue;
    if s.visited[s.queue[i]] < limit {
      StillExpanded(adj, s.visited, t.visited, s.queue[i]);
    }
  }

  lemma EarlierStayExpanded(adj: Adjacency, origin: Id, limit: nat, s: Search, t: Search, head: nat, d: nat)
    requires Progress(adj, origin, limit, s, head) && Grown(adj, s, t, d)
    ensures forall i :: 0 <= i < head ==> t.queue[i] in t.visited
    ensures forall i :: 0 <= i < head && t.visited[t.queue[i]] < limit ==> Expanded(adj, t.visited, t.queue[i])
  {
    forall i | 0 <= i < head
      ensures t.queue[i] in t.visited && (t.visited[t.queue[i]] < limit ==> Expanded(adj, t.visited, t.queue[i])) {
      ProcessedStaysExpanded(adj, origin, limit, s, t, head, d, i);
    }
  }

  lemma Advance(adj: Adjacency, origin: Id, limit: nat, s: Search, t: Search, head: nat, current: Id, d: nat)
    requires Progress(adj, origin, limit, s, head) && head < |s.queue| && current == s.queue[head]
    requires current in s.visited && s.visited[current] < limit && d == s.visited[current] + 1
    requires t == DiscoverAll(s, Neighbours(adj, current), d)
    ensures Progress(adj, origin, limit, t, head + 1)
    ensures s.visited.Keys < t.visited.Keys || t == s
  {
    ExpandHead(adj, origin, limit, s, t, head, current, d);
    EarlierStayExpanded(adj, origin, limit, s, t, head, d);
    Advanced(adj, origin, limit, s, t, head, current, d);
  }

  lemma Advanced(adj: Adjacency, origin: Id, limit: nat, s: Search, t: Search, head: nat, current: Id, d: nat)
    requires Expanding(adj, origin, limit, s, t, current, d) && head < |s.queue| && current == s.queue[head]
    requires current in t.visited && Expanded(adj, t.visited, current) && d == t.visited[current] + 1
    requires s.visited.Keys <= {origin} + Targets(adj)
    requires forall i :: 0 <= i < head ==> t.queue[i] in t.visited
    requires forall i :: 0 <= i < head && t.visited[t.queue[i]] < limit ==> Expanded(adj, t.visited, t.queue[i])
    ensures Progress(adj, origin, limit, t, head + 1)
  {
    assert t.queue[head] == current;
    if head + 1 < |t.queue| {
      NextIsNear(origin, t, head, d);
    }
  }

  /** One round of the outer loop, as the search it leaves. */
  function Round(adj: Adjacency, s: Search, head: nat, maxHops: int): Search
    requires head < |s.queue| && s.queue[head] in s.visited
  {
    var hops := s.visited[s.queue[head]];
    if hops >= maxHops then s else DiscoverAll(s, Neighbours(adj, s.queue[head]), hops + 1)
  }

  lemma RoundListed(adj: Adjacency, s: Search, head: nat, maxHops: int)
    requires s.Listed() && head < |s.queue| && s.queue[head] in s.visited
    ensures Round(adj, s, head, maxHops).Listed()
  {
    ListedAll(s, Neighbours(adj, s.queue[head]), s.visited[s.queue[head]] + 1);
  }

  lemma RoundProgress(adj: Adjacency, origin: Id, maxHops: int, s: Search, head: nat)
    requires Progress(adj, origin, Limit(maxHops), s, head) && head < |s.queue|
    ensures s.queue[head] in s.visited
    ensures Progress(adj, origin, Limit(maxHops), Round(adj, s, head, maxHops), head + 1)
    ensures s.visited.Keys < Round(adj, s, head, maxHops).visited.Keys || Round(adj, s, head, maxHops) == s
  {
    assert s.queue[head] in s.queue;
    if s.visited[s.queue[head]] >= maxHops {
      Skip(adj, origin, Limit(maxHops), s, head);
    } else {
      var current := s.queue[head];
      Advance(adj, origin, Limit(maxHops), s, Round(adj, s, head, maxHops), head, current, s.visited[current] + 1);
    }
  }

  lemma ExpandHead(adj: Adjacency, origin: Id, limit: nat, s: Search, t: Search, head: nat, current: Id, d: nat)
    requires Progress(adj, origin, limit, s, head) && head < |s.queue| && current == s.queue[head]
    requires current in s.visited && s.visited[current] < limit && d == s.visited[current] + 1
    requires t == DiscoverAll(s, Neighbours(adj, current), d)
    ensures Expanding(adj, origin, limit, s, t, current, d)
    ensures current in t.visited && Expanded(adj, t.visited, current)
  {
    ExpandStart(adj, origin, limit, s, head, current, d);
    ExpandNeighbours(adj, origin, limit, s, t, current, d);
  }

  lemma ExpandStart(adj: Adjacency, origin: Id, limit: nat, s: Search, head: nat, current: Id, d: nat)
    requires Progress(adj, origin, limit, s, head) && head < |s.queue| && current == s.queue[head]
    requires current in s.visited && s.visited[current] < limit && d == s.visited[current] + 1
    ensures Expanding(adj, origin, limit, s, s, current, d)
  {
  }

  /** The loop body: take the node at head, move head on, expand unless the hop limit is reached. */
  method NextRound(adj: Adjacency, s: Search, head: nat, maxHops: int) returns (t: Search, next: nat)
    requires head < |s.queue| && s.queue[head] in s.visited
    ensures t == Round(adj, s, head, maxHops) && next == head + 1
  {
    t := s;
    var current := s.queue[head];
    next := head + 1;
    if s.visited[current] >= maxHops {
      return;
    }
    t := ExpandNode(adj, s, current);
  }

  /** Within the hop limit: the origin itself, or the end of a walk of at most max_hops edges from it. */
  ghost predicate InRange(adj: Adjacency, origin: Id, maxHops: int, v: Id) {
    v == origin || exists k: nat :: k <= maxHops && Hop(Relation(adj), {origin}, v, k)
  }

  lemma InRangeIsWithin(adj: Adjacency, origin: Id, maxHops: int, v: Id)
    ensures InRange(adj, origin, maxHops, v) <==> Within(Relation(adj), {origin}, v, Limit(maxHops))
  {
    assert Hop(Relation(adj), {origin}, origin, 0);
    if Within(Relation(adj), {origin}, v, Limit(maxHops)) {
      var k: nat :| k <= Limit(maxHops) && Hop(Relation(adj), {origin}, v, k);
      assert k > 0 ==> k <= maxHops;
    }
  }

  method Reveal(adj: Adjacency, origin: Id, maxHops: int) returns (s: Search)
    ensures forall v :: v in s.visited <==> InRange(adj, origin, maxHops, v)
    ensures forall v :: v in s.visited ==> IsDistance(Relation(adj), {origin}, v, s.visited[v])
    ensures ExactHops(adj, origin, Limit(maxHops), s.visited)
    ensures s.Consistent(adj, origin, Limit(maxHops)) && s.Listed()
  {
    s := Search(map[origin := 0], [origin], map[0 := [origin]]);
    Start(adj, origin, Limit(maxHops), s);
    var head := 0;
    while head < |s.queue|
      invariant Progress(adj, origin, Limit(maxHops), s, head) && s.Listed()
      decreases {origin} + Targets(adj) - s.visited.Keys, |s.queue| - head
    {
      RoundProgress(adj, origin, maxHops, s, head);
      RoundListed(adj, s, head, maxHops);
      s, head := NextRound(adj, s, head, maxHops);
    }
    Finish(adj, origin, Limit(maxHops), s);
    VisitedInRange(adj, origin, maxHops, s.visited);
  }

  lemma VisitedInRange(adj: Adjacency, origin: Id, maxHops: int, visited: map<Id, nat>)
    requires ExactHops(adj, origin, Limit(maxHops), visited)
    ensures forall v :: v in visited <==> InRange(adj, origin, maxHops, v)
  {
    forall v ensures v in visited <==> InRange(adj, origin, maxHops, v) {
      InRangeIsWithin(adj, origin, maxHops, v);
    }
  }

  lemma Start(adj: Adjacency, origin: Id, limit: nat, s: Search)
    requires s == Search(map[origin := 0], [origin], map[0 := [origin]])
    ensures Progress(adj, origin, limit, s, 0) && s.Listed()
  {
    assert [origin][..0] == [];
  }

  lemma Finish(adj: Adjacency, origin: Id, limit: nat, s: Search)
    requires Progress(adj, origin, limit, s, |s.queue|)
    ensures ExactHops(adj, origin, limit, s.visited)
  {
    forall u | u in s.visited && s.visited[u] < limit ensures Expanded(adj, s.visited, u) {
      assert u in s.queue;
    }
    HopsAreExact(adj, origin, limit, s.visited);
  }

  // ----- what the frames show

  /** Nodes at distance exactly h. */
  ghost predicate ShowsHop(adj: Adjacency, origin: Id, h: nat, nodes: seq<Id>) {
    Distinct(nodes) && forall v :: v in nodes <==> IsDistance(Relation(adj), {origin}, v, h)
  }

  /** Each hop list within the limit holds exactly the nodes at that distance, once each. */
  lemma HopListsAreLayers(adj: Adjacency, origin: Id, limit: nat, s: Search, h: nat)
    requires s.Consistent(adj, origin, limit) && s.Listed() && ExactHops(adj, origin, limit, s.visited)
    ensures h <= limit ==> ShowsHop(adj, origin, h, Revealed(s.hops, h))
    ensures h > limit ==> Revealed(s.hops, h) == []
  {
    AtHopMembers(s.queue, s.visited, h);
    var r := Revealed(s.hops, h);
    if h <= limit {
      forall v ensures v in r <==> IsDistance(Relation(adj), {origin}, v, h) {
        if IsDistance(Relation(adj), {origin}, v, h) {
          assert Within(Relation(adj), {origin}, v, limit);
          DistanceUnique(Relation(adj), {origin}, v, h, s.visited[v]);
        }
      }
    } else {
      DistinctSize(r, {});
    }
  }

  /** The lengths of the hop lists up to hop, added up. */
  function Cumulative(hops: map<nat, seq<Id>>, hop: nat): nat {
    |Revealed(hops, hop)| + if hop == 0 then 0 else Cumulative(hops, hop - 1)
  }

  ghost function Ball(visited: map<Id, nat>, hop: nat): set<Id> {
    set v | v in visited && visited[v] <= hop
  }

  lemma {:induction false} DistinctSize(p: seq<Id>, c: set<Id>)
    requires Distinct(p) && forall v :: v in p <==> v in c
    ensures |p| == |c|
    decreases |p|
  {
    if p == [] {
      assert c == {};
    } else {
      var rest, last := p[..|p| - 1], p[|p| - 1];
      assert p == rest + [last];
      assert last !in rest;
      DistinctSize(rest, c - {last});
    }
  }

  ghost function Layer(visited: map<Id, nat>, hop: nat): set<Id> {
    set v | v in visited && visited[v] == hop
  }

  lemma LayerSize(s: Search, origin: Id, hop: nat)
    requires s.Queued(origin) && s.Listed()
    ensures |Revealed(s.hops, hop)| == |Layer(s.visited, hop)|
  {
    AtHopMembers(s.queue, s.visited, hop);
    DistinctSize(AtHop(s.queue, s.visited, hop), Layer(s.visited, hop));
  }

  lemma BallGrows(visited: map<Id, nat>, hop: nat)
    ensures |Ball(visited, hop)| == |Layer(visited, hop)| + if hop == 0 then 0 else |Ball(visited, hop - 1)|
  {
    if hop == 0 {
      assert Ball(visited, 0) == Layer(visited, 0);
    } else {
      assert Ball(visited, hop) == Ball(visited, hop - 1) + Layer(visited, hop);
      assert Ball(visited, hop - 1) !! Layer(visited, hop);
    }
  }

  lemma {:induction false} CumulativeIsBall(hops: map<nat, seq<Id>>, visited: map<Id, nat>, hop: nat)
    requires forall h: nat :: |Revealed(hops, h)| == |Layer(visited, h)|
    ensures Cumulative(hops, hop) == |Ball(visited, hop)|
  {
    BallGrows(visited, hop);
    if hop > 0 {
      CumulativeIsBall(hops, visited, hop - 1);
    }
  }

  lemma BallWithoutOrigin(adj: Adjacency, origin: Id, limit: nat, s: Search, hop: nat, ball: set<Id>)
    requires s.Sound(adj, origin, limit) && ExactHops(adj, origin, limit, s.visited) && hop <= limit
    requires forall v :: v in ball <==> v != origin && Within(Relation(adj), {origin}, v, hop)
    ensures |ball| == |Ball(s.visited, hop)| - 1
  {
    forall v ensures v in ball + {origin} <==> v in Ball(s.visited, hop) {
      BallIsWithin(adj, origin, limit, s, hop, v);
    }
    assert ball + {origin} == Ball(s.visited, hop);
  }

  /**
   * The figure "Cumulative reached" on the frame of a hop within the limit counts the nodes within that many hops
   * other than the origin; on the last frame it counts all visited nodes but the origin.
   */
  lemma CumulativeReached(adj: Adjacency, origin: Id, limit: nat, s: Search, hop: nat, ball: set<Id>)
    requires s.Consistent(adj, origin, limit) && s.Listed() && ExactHops(adj, origin, limit, s.visited) && hop <= limit
    requires forall v :: v in ball <==> v != origin && Within(Relation(adj), {origin}, v, hop)
    ensures Cumulative(s.hops, hop) - 1 == |ball|
    ensures hop == limit ==> |ball| == |s.visited| - 1
  {
    BallWithoutOrigin(adj, origin, limit, s, hop, ball);
    forall h: nat ensures |Revealed(s.hops, h)| == |Layer(s.visited, h)| {
      LayerSize(s, origin, h);
    }
    CumulativeIsBall(s.hops, s.visited, hop);
    if hop == limit {
      assert Ball(s.visited, limit) == s.visited.Keys;
    }
  }

  lemma BallIsWithin(adj: Adjacency, origin: Id, limit: nat, s: Search, hop: nat, v: Id)
    requires s.Sound(adj, origin, limit) && ExactHops(adj, origin, limit, s.visited) && hop <= limit
    ensures v in Ball(s.visited, hop) <==> Within(Relation(adj), {origin}, v, hop)
    ensures origin in Ball(s.visited, hop)
  {
    if Within(Relation(adj), {origin}, v, hop) {
      var d := WithinHasDistance(Relation(adj), {origin}, v, hop);
      assert Within(Relation(adj), {origin}, v, limit);
      DistanceUnique(Relation(adj), {origin}, v, d, s.visited[v]);
    }
  }
}
