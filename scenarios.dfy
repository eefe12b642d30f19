/**
  Worked examples as lemmas over small abstract graphs: a weighted triangle,
  on which the shortest-path contract determines the result, and an
  unweighted chain, on which reachability holds one way and not the other.
*/
module Scenarios {
  import opened Wrappers
  import opened Walks
  import opened Searches
  import opened DirectedGraphs

  /** The weighted graph a -> b (1), b -> c (2), a -> c (5). */
  ghost function Triangle(a: Id, b: Id, c: Id): (g: Adjacency)
  {
    map[a := map[b := Some(1), c := Some(5)], b := map[c := Some(2)], c := map[]]
  }

  /**
    Every walk of the triangle from `a` ends at one of its three vertices
    and weighs at least that vertex's potential: a at 0, b at 1, c at 3.
  */
  lemma TriangleBound(a: Id, b: Id, c: Id, p: seq<Id>, v: Id)
    requires a != b && b != c && a != c
    requires WalkFromTo(Triangle(a, b, c), p, a, v)
    ensures v == a || v == b || v == c
    ensures (if v == a then 0 else if v == b then 1 else 3) <= Weight(Triangle(a, b, c), p)
  {
    var pot := map[a := 0, b := 1, c := 3];
    assert Feasible(Triangle(a, b, c), pot);
    PotentialBound(Triangle(a, b, c), pot, p);
  }

  /** The walks [a], [a, b] and [a, b, c] of the triangle weigh 0, 1 and 3. */
  lemma TriangleWalks(a: Id, b: Id, c: Id)
    requires a != b && b != c && a != c
    ensures WalkFromTo(Triangle(a, b, c), [a], a, a) && Weight(Triangle(a, b, c), [a]) == 0
    ensures WalkFromTo(Triangle(a, b, c), [a, b], a, b) && Weight(Triangle(a, b, c), [a, b]) == 1
    ensures WalkFromTo(Triangle(a, b, c), [a, b, c], a, c) && Weight(Triangle(a, b, c), [a, b, c]) == 3
  {
    var g := Triangle(a, b, c);
    assert WalkFromTo(g, [a], a, a);
    WalkExtend(g, [a], a, a, b);
    assert [a] + [b] == [a, b];
    WalkExtend(g, [a, b], a, b, c);
    assert [a, b] + [c] == [a, b, c];
  }

  /**
    On the triangle, distances that are weights of walks from `a` and lower
    bounds on all such walks, one per reachable vertex, are a at 0, b at 1
    and c at 3.
  */
  lemma TriangleDistances(a: Id, b: Id, c: Id, d: map<Id, int>)
    requires a != b && b != c && a != c
    requires forall v :: v in d <==> Reachable(Triangle(a, b, c), a, v)
    requires forall v :: v in d ==> HasWalkOfWeight(Triangle(a, b, c), a, v, d[v])
    requires forall v :: v in d ==> IsLowerBound(Triangle(a, b, c), a, v, d[v])
    ensures forall v :: v in d <==> v == a || v == b || v == c
    ensures a in d && b in d && c in d && d[a] == 0 && d[b] == 1 && d[c] == 3
  {
    TriangleWalks(a, b, c);
    assert a in d && b in d && c in d;
    assert d[a] <= 0 && d[b] <= 1 && d[c] <= 3;
    forall v | v in d ensures (v == a || v == b || v == c) && (if v == a then 0 else if v == b then 1 else 3) <= d[v] {
      var p :| WalkFromTo(Triangle(a, b, c), p, a, v) && Weight(Triangle(a, b, c), p) == d[v];
      TriangleBound(a, b, c, p, v);
    }
  }

  /**
    A duplicate-free sequence of exactly `a`, `b` and `c` that is ordered by
    their strictly increasing distances is `[a, b, c]`.
  */
  lemma OrderedThree(o: seq<Id>, d: map<Id, int>, a: Id, b: Id, c: Id)
    requires Distinct(o) && forall v :: v in o <==> v == a || v == b || v == c
    requires a in d && b in d && c in d && d[a] < d[b] < d[c]
    requires forall i, j :: 0 <= i <= j < |o| ==> o[i] in d && o[j] in d && d[o[i]] <= d[o[j]]
    ensures o == [a, b, c]
  {
    assert a in o && b in o && c in o;
    var i :| 0 <= i < |o| && o[i] == a;
    assert o[0] in o && d[o[0]] <= d[o[i]];
    assert o[0] == a;
    var j :| 0 <= j < |o| && o[j] == b;
    assert o[1] in o && 1 <= j && d[o[1]] <= d[o[j]];
    assert o[1] == b;
    var k :| 0 <= k < |o| && o[k] == c;
    assert o[2] in o && 2 <= k && d[o[2]] <= d[o[k]];
    assert o[2] == c;
    ElementAt(o, 3);
  }

  /** Every in-range entry of a sequence is a member of it; used to rule out a fourth entry. */
  lemma ElementAt(o: seq<Id>, i: nat)
    ensures i < |o| ==> o[i] in o
  {
  }

  /**
    On the triangle, every result that meets the shortest-path contract from
    `a` has a at 0, b at 1 and c at 3, finalized in the order a, b, c.
  */
  lemma TriangleShortestPaths(a: Id, b: Id, c: Id, sp: ShortestPaths)
    requires a != b && b != c && a != c
    requires forall v :: v in sp.distance <==> Reachable(Triangle(a, b, c), a, v)
    requires forall v :: v in sp.distance ==> HasWalkOfWeight(Triangle(a, b, c), a, v, sp.distance[v])
    requires Distinct(sp.order) && forall v :: v in sp.order <==> v in sp.distance
    requires NonNegativeWeights(Triangle(a, b, c)) ==>
      forall v :: v in sp.distance ==> IsLowerBound(Triangle(a, b, c), a, v, sp.distance[v])
    requires NonNegativeWeights(Triangle(a, b, c)) ==>
      forall i, j :: 0 <= i <= j < |sp.order| ==>
        sp.order[i] in sp.distance && sp.order[j] in sp.distance &&
        sp.distance[sp.order[i]] <= sp.distance[sp.order[j]]
    ensures forall v :: v in sp.distance <==> v == a || v == b || v == c
    ensures a in sp.distance && b in sp.distance && c in sp.distance
    ensures sp.distance[a] == 0 && sp.distance[b] == 1 && sp.distance[c] == 3
    ensures sp.order == [a, b, c]
  {
    assert NonNegativeWeights(Triangle(a, b, c));
    TriangleDistances(a, b, c, sp.distance);
    OrderedThree(sp.order, sp.distance, a, b, c);
  }

  /** The unweighted chain a -> b -> c. */
  ghost function Chain(a: Id, b: Id, c: Id): (g: Adjacency)
  {
    map[a := map[b := None], b := map[c := None], c := map[]]
  }

  /** On the chain, c is reachable from a but a is not reachable from c. */
  lemma ChainReachability(a: Id, b: Id, c: Id)
    requires a != b && b != c && a != c
    ensures Reachable(Chain(a, b, c), a, c)
    ensures !Reachable(Chain(a, b, c), c, a)
  {
    var g := Chain(a, b, c);
    ReachableFromItself(g, a);
    ReachableStep(g, a, a, b);
    ReachableStep(g, a, b, c);
    assert Closed(g, {c}, []);
    if Reachable(g, c, a) {
      ClosedHoldsReachable(g, {c}, c, a);
    }
  }
}
