/**
  Walks, reachability and walk weights over the abstract shape of a directed
  graph: every vertex identifier mapped to its outbound adjacency, which maps
  a neighbour identifier to an optional edge weight.
*/
module Walks {
  import opened Wrappers

  type Id = string

  type Adjacency = map<Id, map<Id, Option<int>>>

  ghost predicate IsEdge(g: Adjacency, u: Id, v: Id)
  {
    u in g && v in g[u]
  }

  /** A non-empty sequence of vertices of `g`, each joined to the next by an edge. */
  ghost predicate IsWalk(g: Adjacency, p: seq<Id>)
  {
    && |p| >= 1
    && (forall i :: 0 <= i < |p| ==> p[i] in g)
    && (forall i :: 0 <= i < |p| - 1 ==> IsEdge(g, p[i], p[i + 1]))
  }

  ghost predicate WalkFromTo(g: Adjacency, p: seq<Id>, s: Id, t: Id)
  {
    IsWalk(g, p) && p[0] == s && p[|p| - 1] == t
  }

  /** There is a directed path (possibly of length zero) from `s` to `t`. */
  ghost predicate Reachable(g: Adjacency, s: Id, t: Id)
  {
    exists p :: WalkFromTo(g, p, s, t)
  }

  /** The weight an edge contributes; an edge without a weight contributes nothing. */
  function Cost(g: Adjacency, u: Id, v: Id): (c: int)
    requires IsEdge(g, u, v)
  {
    if g[u][v].Some? then g[u][v].value else 0
  }

  /** The sum of the weights of the edges along a walk. */
  ghost function Weight(g: Adjacency, p: seq<Id>): (w: int)
    requires IsWalk(g, p)
    decreases |p|
  {
    if |p| == 1 then 0
    else
      assert IsWalk(g, p[..|p| - 1]);
      Weight(g, p[..|p| - 1]) + Cost(g, p[|p| - 2], p[|p| - 1])
  }

  ghost predicate NonNegativeWeights(g: Adjacency)
  {
    forall u, v :: IsEdge(g, u, v) ==> Cost(g, u, v) >= 0
  }

  /** `d` is the weight of some walk from `s` to `t`. */
  ghost predicate HasWalkOfWeight(g: Adjacency, s: Id, t: Id, d: int)
  {
    exists p :: WalkFromTo(g, p, s, t) && Weight(g, p) == d
  }

  /** No walk from `s` to `t` weighs less than `d`. */
  ghost predicate IsLowerBound(g: Adjacency, s: Id, t: Id, d: int)
  {
    forall p :: WalkFromTo(g, p, s, t) ==> d <= Weight(g, p)
  }

  /**
    Every edge leaving a vertex of `done` ends in `done` or in `frontier`:
    the state a search keeps between two steps.
  */
  ghost predicate Closed(g: Adjacency, done: set<Id>, frontier: seq<Id>)
  {
    forall v, w :: v in done && IsEdge(g, v, w) ==> w in done || w in frontier
  }

  /**
    Every edge leaving a finalized vertex ends in a finalized vertex or has a
    pending entry carrying the distance through that edge.
  */
  ghost predicate Relaxed(g: Adjacency, dist: map<Id, int>, pending: multiset<(int, Id)>)
  {
    forall v, w :: v in dist && IsEdge(g, v, w) ==> w in dist || (dist[v] + Cost(g, v, w), w) in pending
  }

  lemma ReachableFromItself(g: Adjacency, s: Id)
    requires s in g
    ensures Reachable(g, s, s)
  {
    assert WalkFromTo(g, [s], s, s);
  }

  /** Appending an edge to a walk gives a walk whose weight grows by that edge's weight. */
  lemma WalkExtend(g: Adjacency, p: seq<Id>, s: Id, t: Id, w: Id)
    requires WalkFromTo(g, p, s, t)
    requires IsEdge(g, t, w) && w in g
    ensures WalkFromTo(g, p + [w], s, w)
    ensures Weight(g, p + [w]) == Weight(g, p) + Cost(g, t, w)
  {
    var q := p + [w];
    assert forall i :: 0 <= i < |p| ==> q[i] == p[i];
    assert IsWalk(g, q);
    assert q[..|q| - 1] == p;
  }

  lemma ReachableStep(g: Adjacency, s: Id, t: Id, w: Id)
    requires Reachable(g, s, t)
    requires IsEdge(g, t, w) && w in g
    ensures Reachable(g, s, w)
  {
    var p :| WalkFromTo(g, p, s, t);
    WalkExtend(g, p, s, t, w);
  }

  /** Every vertex of a walk that starts inside a closed set stays inside it. */
  lemma {:induction false} WalkStaysInside(g: Adjacency, p: seq<Id>, done: set<Id>, i: nat)
    requires IsWalk(g, p) && p[0] in done && Closed(g, done, [])
    requires i < |p|
    ensures p[i] in done
  {
    if i > 0 {
      WalkStaysInside(g, p, done, i - 1);
      assert IsEdge(g, p[i - 1], p[i]);
    }
  }

  /** A set closed under the edges that holds `s` holds everything reachable from `s`. */
  lemma ClosedHoldsReachable(g: Adjacency, done: set<Id>, s: Id, t: Id)
    requires Closed(g, done, []) && s in done
    requires Reachable(g, s, t)
    ensures t in done
  {
    var p :| WalkFromTo(g, p, s, t);
    WalkStaysInside(g, p, done, |p| - 1);
  }

  /** With no negative weights, a walk weighs at least as much as any of its prefixes. */
  lemma {:induction false} PrefixWeightBound(g: Adjacency, p: seq<Id>, j: nat)
    requires NonNegativeWeights(g) && IsWalk(g, p) && j < |p|
    ensures IsWalk(g, p[..j + 1]) && Weight(g, p[..j + 1]) <= Weight(g, p)
    decreases |p|
  {
    if j == |p| - 1 {
      assert p[..j + 1] == p;
    } else {
      var q := p[..|p| - 1];
      assert IsWalk(g, q);
      PrefixWeightBound(g, q, j);
      assert q[..j + 1] == p[..j + 1];
      assert IsEdge(g, p[|p| - 2], p[|p| - 1]);
    }
  }

  /**
    A potential no edge can undercut: crossing an edge never lowers the
    potential by more than the edge's weight.
  */
  ghost predicate Feasible(g: Adjacency, pot: map<Id, int>)
  {
    && (forall u :: u in g ==> u in pot)
    && (forall u, v :: IsEdge(g, u, v) ==> v in pot && pot[v] <= pot[u] + Cost(g, u, v))
  }

  /** Under a feasible potential, a walk weighs at least the potential gained along it. */
  lemma {:induction false} PotentialBound(g: Adjacency, pot: map<Id, int>, p: seq<Id>)
    requires Feasible(g, pot) && IsWalk(g, p)
    ensures p[0] in pot && p[|p| - 1] in pot && pot[p[|p| - 1]] - pot[p[0]] <= Weight(g, p)
    decreases |p|
  {
    if |p| > 1 {
      var q := p[..|p| - 1];
      assert IsWalk(g, q);
      PotentialBound(g, pot, q);
      assert IsEdge(g, p[|p| - 2], p[|p| - 1]);
    }
  }

  lemma {:induction false} WeightNonNegative(g: Adjacency, p: seq<Id>)
    requires NonNegativeWeights(g) && IsWalk(g, p)
    ensures Weight(g, p) >= 0
    decreases |p|
  {
    if |p| > 1 {
      assert IsWalk(g, p[..|p| - 1]);
      WeightNonNegative(g, p[..|p| - 1]);
      assert IsEdge(g, p[|p| - 2], p[|p| - 1]);
    }
  }

  /** A sequence that starts inside `inside` and ends outside it leaves it at some step. */
  lemma {:induction false} ExitStep(p: seq<Id>, inside: set<Id>) returns (i: nat)
    requires |p| >= 1 && p[0] in inside && p[|p| - 1] !in inside
    ensures i < |p| - 1 && p[i] in inside && p[i + 1] !in inside
  {
    if p[1] !in inside {
      i := 0;
    } else {
      var j := ExitStep(p[1..], inside);
      i := j + 1;
    }
  }

  /**
    The step of a lazy-deletion shortest-path search that finalizes `u` at `d`
    is sound: if `d` is no larger than any pending entry, the finalized
    distances are lower bounds, and every edge out of the finalized set is
    pending, then no walk from `s` to `u` weighs less than `d`.
  */
  lemma FinalizeIsShortest(g: Adjacency, s: Id, dist: map<Id, int>, pending: multiset<(int, Id)>, d: int, u: Id)
    requires NonNegativeWeights(g)
    requires s in dist && u !in dist
    requires Relaxed(g, dist, pending)
    requires forall v :: v in dist ==> IsLowerBound(g, s, v, dist[v])
    requires forall e :: e in pending ==> d <= e.0
    ensures IsLowerBound(g, s, u, d)
  {
    forall p | WalkFromTo(g, p, s, u)
      ensures d <= Weight(g, p)
    {
      var i := ExitStep(p, dist.Keys);
      var x, y := p[i], p[i + 1];
      assert IsEdge(g, x, y);
      assert (dist[x] + Cost(g, x, y), y) in pending;
      PrefixWeightBound(g, p, i + 1);
      var pre := p[..i + 2];
      assert pre[..i + 1] == p[..i + 1];
      assert WalkFromTo(g, p[..i + 1], s, x);
      assert Weight(g, pre) == Weight(g, p[..i + 1]) + Cost(g, x, y);
    }
  }
}
