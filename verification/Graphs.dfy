/** Directed graphs as finite edge sets, with the path-based notions every analysis is judged against. */
module Graphs {

  type Id = string
  type Edges = set<(Id, Id)>

  /** A nonempty vertex sequence whose consecutive vertices are joined by edges. */
  ghost predicate IsWalk(g: Edges, p: seq<Id>) {
    |p| >= 1 && forall i, j :: 0 <= i && j == i + 1 < |p| ==> (p[i], p[j]) in g
  }

  ghost predicate IsWalkFromTo(g: Edges, p: seq<Id>, u: Id, v: Id) {
    IsWalk(g, p) && p[0] == u && p[|p| - 1] == v
  }

  ghost predicate Reaches(g: Edges, u: Id, v: Id) {
    exists p :: IsWalkFromTo(g, p, u, v)
  }

  ghost predicate IsCycle(g: Edges, p: seq<Id>) {
    IsWalk(g, p) && |p| >= 2 && p[0] == p[|p| - 1]
  }

  ghost predicate Cyclic(g: Edges) {
    exists p :: IsCycle(g, p)
  }

  ghost predicate Distinct(p: seq<Id>) {
    forall i, j :: 0 <= i < j < |p| ==> p[i] != p[j]
  }

  ghost predicate Closed(g: Edges, c: set<Id>) {
    forall u, v :: u in c && (u, v) in g ==> v in c
  }

  /** Adjacency lists; a vertex without an entry has no neighbours. */
  type Adjacency = map<Id, seq<Id>>

  function Neighbours(adj: Adjacency, v: Id): seq<Id> {
    if v in adj then adj[v] else []
  }

  ghost function Relation(adj: Adjacency): Edges {
    set u, v | u in adj && v in adj[u] :: (u, v)
  }

  /** A walk from n whose vertices before the last are distinct and outside avoid. */
  ghost predicate IsTrail(g: Edges, n: Id, avoid: set<Id>, p: seq<Id>) {
    IsWalk(g, p) && p[0] == n && Distinct(p[..|p| - 1]) && forall i :: 0 <= i < |p| - 1 ==> p[i] !in avoid
  }

  /** m is the number of edges of a longest walk. */
  ghost predicate IsLongest(g: Edges, m: nat) {
    (exists p :: IsWalk(g, p) && |p| == m + 1) && forall p :: IsWalk(g, p) ==> |p| <= m + 1
  }

  /** A walk never leaves a set that contains its start and is closed under edges. */
  lemma {:induction false} ClosedHoldsWalk(g: Edges, c: set<Id>, p: seq<Id>, i: nat)
    requires Closed(g, c) && IsWalk(g, p) && p[0] in c && i < |p|
    ensures p[i] in c
  {
    if i > 0 {
      ClosedHoldsWalk(g, c, p, i - 1);
      assert (p[i - 1], p[i]) in g;
    }
  }

  lemma ReachesSelf(g: Edges, u: Id)
    ensures Reaches(g, u, u)
  {
    assert IsWalkFromTo(g, [u], u, u);
  }

  lemma ReachesStep(g: Edges, u: Id, v: Id, w: Id)
    requires Reaches(g, u, v) && (v, w) in g
    ensures Reaches(g, u, w)
  {
    var p :| IsWalkFromTo(g, p, u, v);
    assert IsWalkFromTo(g, p + [w], u, w);
  }

  lemma ReachesStaysIn(g: Edges, c: set<Id>, u: Id, v: Id)
    requires Closed(g, c) && u in c && Reaches(g, u, v)
    ensures v in c
  {
    var p :| IsWalkFromTo(g, p, u, v);
    ClosedHoldsWalk(g, c, p, |p| - 1);
  }

  lemma ReachesMonotone(g: Edges, h: Edges, u: Id, v: Id)
    requires g <= h && Reaches(g, u, v)
    ensures Reaches(h, u, v)
  {
    var p :| IsWalkFromTo(g, p, u, v);
    assert IsWalkFromTo(h, p, u, v);
  }

  /** Repeating a vertex closes a cycle, so on an acyclic graph every walk is a path. */
  lemma AcyclicWalkDistinct(g: Edges, p: seq<Id>)
    requires !Cyclic(g) && IsWalk(g, p)
    ensures Distinct(p)
  {
    forall i, j | 0 <= i < j < |p| ensures p[i] != p[j] {
      if p[i] == p[j] {
        assert IsCycle(g, p[i..j + 1]);
      }
    }
  }

  /** Stepping from an unvisited vertex onto a trail that avoids it gives a trail. */
  lemma TrailCons(g: Edges, n: Id, c: Id, avoid: set<Id>, q: seq<Id>)
    requires (n, c) in g && n !in avoid && IsTrail(g, c, avoid + {n}, q)
    ensures IsTrail(g, n, avoid, [n] + q)
  {
    var p := [n] + q;
    assert p[..|p| - 1] == [n] + q[..|q| - 1];
  }

  // ----- distances from a set of sources

  /** v ends a walk of exactly k edges that starts in s. */
  ghost predicate Hop(g: Edges, s: set<Id>, v: Id, k: nat)
    decreases k
  {
    if k == 0 then v in s else exists u :: (u, v) in g && Hop(g, s, u, k - 1)
  }

  /** k is the length of a shortest walk from s to v. */
  ghost predicate IsDistance(g: Edges, s: set<Id>, v: Id, k: nat) {
    Hop(g, s, v, k) && forall j: nat :: j < k ==> !Hop(g, s, v, j)
  }

  /** Some walk of at most k edges leads from s to v. */
  ghost predicate Within(g: Edges, s: set<Id>, v: Id, k: nat) {
    exists j: nat :: j <= k && Hop(g, s, v, j)
  }

  ghost predicate HopWalk(g: Edges, s: set<Id>, v: Id, k: nat, p: seq<Id>) {
    IsWalk(g, p) && |p| == k + 1 && p[0] in s && p[k] == v
  }

  /** Hop, which the proofs unfold, is exactly the existence of a walk of that length. */
  lemma {:induction false} HopIsWalk(g: Edges, s: set<Id>, v: Id, k: nat)
    ensures Hop(g, s, v, k) <==> exists p :: HopWalk(g, s, v, k, p)
    decreases k
  {
    if k == 0 {
      if v in s {
        assert HopWalk(g, s, v, 0, [v]);
      }
    } else {
      if Hop(g, s, v, k) {
        var u :| (u, v) in g && Hop(g, s, u, k - 1);
        HopIsWalk(g, s, u, k - 1);
        var p :| HopWalk(g, s, u, k - 1, p);
        assert HopWalk(g, s, v, k, p + [v]);
      }
      forall p | HopWalk(g, s, v, k, p) ensures Hop(g, s, v, k) {
        HopIsWalk(g, s, p[k - 1], k - 1);
        assert HopWalk(g, s, p[k - 1], k - 1, p[..k]);
        assert (p[k - 1], p[k]) in g;
      }
    }
  }

  lemma {:induction false} WithinHasDistance(g: Edges, s: set<Id>, v: Id, k: nat) returns (d: nat)
    requires Within(g, s, v, k)
    ensures d <= k && IsDistance(g, s, v, d)
    decreases k
  {
    var j: nat :| j <= k && Hop(g, s, v, j);
    if i: nat :| i < j && Hop(g, s, v, i) {
      assert Within(g, s, v, j - 1);
      d := WithinHasDistance(g, s, v, j - 1);
    } else {
      d := j;
    }
  }

  /** An edge out of the ball of radius k starts on its rim and leads to distance k + 1. */
  lemma NextLayer(g: Edges, s: set<Id>, u: Id, v: Id, j: nat, k: nat)
    requires (u, v) in g && IsDistance(g, s, u, j) && j <= k && !Within(g, s, v, k)
    ensures j == k && IsDistance(g, s, v, k + 1)
  {
    assert Hop(g, s, v, j + 1);
  }

  lemma NotNearer(g: Edges, s: set<Id>, u: Id, v: Id, j: nat)
    requires (u, v) in g && !Hop(g, s, v, j + 1)
    ensures !Hop(g, s, u, j)
  {
  }

  lemma WithinNext(g: Edges, s: set<Id>, v: Id, k: nat)
    ensures Within(g, s, v, k + 1) <==> Within(g, s, v, k) || Hop(g, s, v, k + 1)
  {
  }

  lemma DistanceUnique(g: Edges, s: set<Id>, v: Id, j: nat, k: nat)
    requires IsDistance(g, s, v, j) && IsDistance(g, s, v, k)
    ensures j == k
  {
  }
}
