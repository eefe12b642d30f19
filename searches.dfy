/**
  The pieces the three graph searches are built from: the stack, queue and
  priority-queue operations they use, the state each search keeps between
  two steps of its loop, and the lemmas that one step preserves that state.
*/
module Searches {
  import opened Wrappers
  import opened Walks

  predicate Distinct(s: seq<Id>)
  {
    forall i, j :: 0 <= i < j < |s| ==> s[i] != s[j]
  }

  /** Every edge of the graph ends at a vertex of the graph. */
  ghost predicate NoDanglingEdges(g: Adjacency)
  {
    forall u, w :: IsEdge(g, u, w) ==> w in g
  }

  /** Every edge of the graph carries a weight. */
  ghost predicate AllWeighted(g: Adjacency)
  {
    forall u, w :: IsEdge(g, u, w) ==> g[u][w].Some?
  }

  /**
    Appends to `s`, one at a time and in no particular order, every member of
    `keys` that is not in `skip`: pushing onto a stack or enqueuing while
    iterating over an adjacency map, and listing the members of a set.
  */
  method AppendKeys(s: seq<Id>, keys: set<Id>, skip: set<Id>) returns (r: seq<Id>)
    ensures |s| <= |r| && r[..|s|] == s
    ensures forall i :: |s| <= i < |r| ==> r[i] in keys && r[i] !in skip
    ensures forall k :: k in keys && k !in skip ==> k in r[|s|..]
    ensures Distinct(r[|s|..])
  {
    r := s;
    var pending := keys;
    while pending != {}
      invariant pending <= keys
      invariant |s| <= |r| && r[..|s|] == s
      invariant forall i :: |s| <= i < |r| ==> r[i] in keys - pending && r[i] !in skip
      invariant forall k :: k in keys - pending && k !in skip ==> k in r[|s|..]
      invariant Distinct(r[|s|..])
      decreases pending
    {
      var k :| k in pending;
      if k !in skip {
        assert (r + [k])[|s|..] == r[|s|..] + [k];
        r := r + [k];
      }
      pending := pending - {k};
    }
  }

  /** The minimum-first dequeue of the priority queue; ties are broken arbitrarily. */
  method DequeueMin(pq: multiset<(int, Id)>) returns (e: (int, Id), rest: multiset<(int, Id)>)
    requires pq != multiset{}
    ensures e in pq && rest == pq - multiset{e}
    ensures forall f :: f in pq ==> e.0 <= f.0
  {
    MinimumExists(pq);
    e :| e in pq && forall f :: f in pq ==> e.0 <= f.0;
    rest := pq - multiset{e};
  }

  lemma {:induction false} MinimumExists(pq: multiset<(int, Id)>)
    requires pq != multiset{}
    ensures exists e :: e in pq && forall f :: f in pq ==> e.0 <= f.0
    decreases |pq|
  {
    var x :| x in pq;
    var rest := pq - multiset{x};
    assert forall f :: f in pq ==> f == x || f in rest by {
      forall f | f in pq && f != x ensures f in rest {
        assert rest[f] == pq[f];
      }
    }
    if rest != multiset{} {
      MinimumExists(rest);
      var m :| m in rest && forall f :: f in rest ==> m.0 <= f.0;
      assert m in pq;
      if x.0 < m.0 {
        assert forall f :: f in pq ==> x.0 <= f.0;
      }
    }
  }

  /** Enqueues, for every neighbour in `adj`, the entry (distance + edge weight, neighbour). */
  method EnqueueNeighbours(pq: multiset<(int, Id)>, adj: map<Id, Option<int>>, distance: int)
    returns (r: multiset<(int, Id)>)
    requires forall k :: k in adj ==> adj[k].Some?
    ensures pq <= r && |r| == |pq| + |adj.Keys|
    ensures forall k :: k in adj ==> (distance + adj[k].value, k) in r
    ensures forall e :: e in r ==> e in pq || (e.1 in adj && e.0 == distance + adj[e.1].value)
    ensures forall f :: r[f] == pq[f] + (if f.1 in adj && f.0 == distance + adj[f.1].value then 1 else 0)
  {
    r := pq;
    var pending := adj.Keys;
    while pending != {}
      invariant pending <= adj.Keys
      invariant |r| == |pq| + |adj.Keys - pending|
      invariant forall f :: r[f] == pq[f] + (if f.1 in adj.Keys - pending && f.0 == distance + adj[f.1].value then 1 else 0)
      decreases pending
    {
      var k :| k in pending;
      assert adj.Keys - (pending - {k}) == (adj.Keys - pending) + {k};
      r := r + multiset{(distance + adj[k].value, k)};
      pending := pending - {k};
    }
    EnqueuedEntries(pq, adj, distance, r);
  }

  /** The per-entry counts of an enqueue determine which entries the queue holds. */
  lemma EnqueuedEntries(pq: multiset<(int, Id)>, adj: map<Id, Option<int>>, distance: int, r: multiset<(int, Id)>)
    requires forall k :: k in adj ==> adj[k].Some?
    requires forall f :: r[f] == pq[f] + (if f.1 in adj && f.0 == distance + adj[f.1].value then 1 else 0)
    ensures pq <= r
    ensures forall k :: k in adj ==> (distance + adj[k].value, k) in r
    ensures forall e :: e in r ==> e in pq || (e.1 in adj && e.0 == distance + adj[e.1].value)
  {
    forall k | k in adj ensures (distance + adj[k].value, k) in r {
      assert r[(distance + adj[k].value, k)] >= 1;
    }
  }

  // ---------------------------------------------------------------------
  // Depth-first and breadth-first search

  /**
    The state of a reachability search from `s`: everything visited or still
    to be expanded is reachable from `s`, `s` itself is one or the other, and
    every edge out of a visited vertex ends at a visited vertex or at one
    still to be expanded.
  */
  ghost predicate Exploring(g: Adjacency, s: Id, visited: set<Id>, frontier: seq<Id>)
  {
    && visited <= g.Keys
    && (forall i :: 0 <= i < |frontier| ==> frontier[i] in g)
    && (forall v :: v in visited ==> Reachable(g, s, v))
    && (forall i :: 0 <= i < |frontier| ==> Reachable(g, s, frontier[i]))
    && (s in visited || s in frontier)
    && Closed(g, visited, frontier)
  }

  lemma StartExploring(g: Adjacency, s: Id)
    requires s in g
    ensures Exploring(g, s, {}, [s])
  {
    ReachableFromItself(g, s);
  }

  /** `rest` is `frontier` with its entry at index `k` taken out, the others kept in order. */
  ghost predicate RemovedAt(frontier: seq<Id>, k: nat, rest: seq<Id>)
  {
    && k < |frontier| && |rest| == |frontier| - 1
    && (forall i :: 0 <= i < k ==> rest[i] == frontier[i])
    && (forall i :: k <= i < |rest| ==> rest[i] == frontier[i + 1])
  }

  /** Dropping a frontier entry that was already visited keeps the search state. */
  lemma Discard(g: Adjacency, s: Id, visited: set<Id>, frontier: seq<Id>, k: nat, rest: seq<Id>)
    requires Exploring(g, s, visited, frontier)
    requires RemovedAt(frontier, k, rest) && frontier[k] in visited
    ensures Exploring(g, s, visited, rest)
  {
    forall w | w in frontier && w != frontier[k] ensures w in rest {
      var i :| 0 <= i < |frontier| && frontier[i] == w;
      if i < k {
        assert rest[i] == w;
      } else if i > k {
        assert rest[i - 1] == w;
      }
    }
  }

  /**
    Visiting frontier entry `k` and adding at the end of the rest of the
    frontier neighbours of it that cover every neighbour not yet visited
    keeps the search state.
  */
  lemma Expand(g: Adjacency, s: Id, visited: set<Id>, frontier: seq<Id>, k: nat, rest: seq<Id>,
                keys: set<Id>, skip: set<Id>, r: seq<Id>)
    requires NoDanglingEdges(g)
    requires Exploring(g, s, visited, frontier)
    requires RemovedAt(frontier, k, rest)
    requires keys == g[frontier[k]].Keys && skip <= visited + {frontier[k]}
    requires |rest| <= |r| && r[..|rest|] == rest
    requires forall i :: |rest| <= i < |r| ==> r[i] in keys
    requires forall w :: w in keys && w !in skip ==> w in r[|rest|..]
    ensures Exploring(g, s, visited + {frontier[k]}, r)
  {
    var v := frontier[k];
    assert forall i :: 0 <= i < |rest| ==> r[i] == rest[i];
    forall w | w in frontier && w != v ensures w in r {
      var i :| 0 <= i < |frontier| && frontier[i] == w;
      if i < k {
        assert r[i] == w;
      } else {
        assert r[i - 1] == w;
      }
    }
    forall i | 0 <= i < |r| ensures r[i] in g && Reachable(g, s, r[i]) {
      if i < |rest| {
        assert r[i] == if i < k then frontier[i] else frontier[i + 1];
      } else {
        ReachableStep(g, s, v, r[i]);
      }
    }
    forall w | IsEdge(g, v, w) && w !in visited + {v} ensures w in r {
      var j :| 0 <= j < |r[|rest|..]| && r[|rest|..][j] == w;
      assert r[|rest| + j] == w;
    }
    if s !in visited && s != v {
      assert s in frontier;
    }
  }

  /**
    One step of a depth-first search that pops an unvisited vertex: visiting
    it and pushing all its neighbours keeps the search state and visits a new
    vertex reachable from `s`.
  */
  lemma VisitTop(g: Adjacency, s: Id, visited: set<Id>, stack: seq<Id>, keys: set<Id>, r: seq<Id>)
    requires NoDanglingEdges(g)
    requires Exploring(g, s, visited, stack) && stack != [] && stack[|stack| - 1] !in visited
    requires keys == g[stack[|stack| - 1]].Keys
    requires |stack| - 1 <= |r| && r[..|stack| - 1] == stack[..|stack| - 1]
    requires forall i :: |stack| - 1 <= i < |r| ==> r[i] in keys
    requires forall w :: w in keys ==> w in r[|stack| - 1..]
    ensures Exploring(g, s, visited + {stack[|stack| - 1]}, r)
    ensures Reachable(g, s, stack[|stack| - 1])
    ensures |g.Keys - (visited + {stack[|stack| - 1]})| < |g.Keys - visited|
  {
    var top := |stack| - 1;
    Expand(g, s, visited, stack, top, stack[..top], keys, {}, r);
    FewerLeft(g.Keys, visited, stack[top]);
  }

  /** One step of a depth-first search that pops a visited vertex keeps the search state. */
  lemma DropTop(g: Adjacency, s: Id, visited: set<Id>, stack: seq<Id>)
    requires Exploring(g, s, visited, stack) && stack != [] && stack[|stack| - 1] in visited
    ensures Exploring(g, s, visited, stack[..|stack| - 1])
  {
    Discard(g, s, visited, stack, |stack| - 1, stack[..|stack| - 1]);
  }

  /**
    One step of a breadth-first search: visiting the front of the queue and
    enqueuing its neighbours not yet visited keeps the search state, and
    either visits a new vertex or lowers the number of queued entries already
    visited.
  */
  lemma VisitFront(g: Adjacency, s: Id, visited: set<Id>, queue: seq<Id>, keys: set<Id>, r: seq<Id>)
    requires NoDanglingEdges(g)
    requires Exploring(g, s, visited, queue) && queue != []
    requires keys == g[queue[0]].Keys
    requires |queue[1..]| <= |r| && r[..|queue[1..]|] == queue[1..]
    requires forall i :: |queue[1..]| <= i < |r| ==> r[i] in keys && r[i] !in visited + {queue[0]}
    requires forall w :: w in keys && w !in visited + {queue[0]} ==> w in r[|queue[1..]|..]
    ensures Exploring(g, s, visited + {queue[0]}, r)
    ensures if queue[0] in visited
            then visited + {queue[0]} == visited && CountIn(r, visited) < CountIn(queue, visited)
            else |g.Keys - (visited + {queue[0]})| < |g.Keys - visited|
  {
    var v, rest := queue[0], queue[1..];
    Expand(g, s, visited, queue, 0, rest, keys, visited + {v}, r);
    FewerLeft(g.Keys, visited, v);
    if v in visited {
      assert CountIn(queue, visited) == 1 + CountIn(rest, visited);
      CountInExtend(rest, r, visited);
    }
  }

  /** When nothing is left to expand, the visited set is exactly what `s` reaches. */
  lemma FinishExploring(g: Adjacency, s: Id, visited: set<Id>)
    requires Exploring(g, s, visited, [])
    ensures forall t :: t in visited <==> Reachable(g, s, t)
  {
    forall t | Reachable(g, s, t) ensures t in visited {
      ClosedHoldsReachable(g, visited, s, t);
    }
  }

  /** Number of entries of a queue that are already members of `done`. */
  ghost function CountIn(q: seq<Id>, done: set<Id>): (n: nat)
  {
    if q == [] then 0 else (if q[0] in done then 1 else 0) + CountIn(q[1..], done)
  }

  /** Adding entries outside `done` at the end of a queue leaves the count of entries inside it unchanged. */
  lemma {:induction false} CountInExtend(a: seq<Id>, r: seq<Id>, done: set<Id>)
    requires |a| <= |r| && r[..|a|] == a
    requires forall i :: |a| <= i < |r| ==> r[i] !in done
    ensures CountIn(r, done) == CountIn(a, done)
    decreases |a|
  {
    if a == [] {
      CountInOutside(r, done);
    } else {
      assert r[1..][..|a| - 1] == a[1..];
      CountInExtend(a[1..], r[1..], done);
    }
  }

  lemma {:induction false} CountInOutside(b: seq<Id>, done: set<Id>)
    requires forall i :: 0 <= i < |b| ==> b[i] !in done
    ensures CountIn(b, done) == 0
    decreases |b|
  {
    if b != [] {
      CountInOutside(b[1..], done);
    }
  }

  /** Marking a vertex of `all` as done shrinks what is left to do, unless it was done already. */
  lemma FewerLeft(all: set<Id>, done: set<Id>, u: Id)
    requires u in all
    ensures if u in done then done + {u} == done else |all - (done + {u})| < |all - done|
  {
    if u !in done {
      assert all - (done + {u}) == (all - done) - {u};
    }
  }

  // ---------------------------------------------------------------------
  // Shortest paths with lazy deletion

  /** `p` is a walk from `s` to `t` of weight `d`. */
  ghost predicate IsWalkOfWeight(g: Adjacency, p: seq<Id>, s: Id, t: Id, d: int)
  {
    WalkFromTo(g, p, s, t) && Weight(g, p) == d
  }

  /**
    The state of the shortest-path search from `s` between two dequeues:
    `dist` holds the finalized vertices, `order` lists them in the order they
    were finalized, `pending` holds the priority-queue entries and `last` is
    the most recently finalized distance. Before anything is finalized the
    queue holds just (0, s); afterwards `s` is finalized at 0. Every
    finalized distance and every pending priority is the weight of a walk
    from `s` (the ghost maps `walkTo` and `walkOf` hold one such walk each),
    and every edge out of the finalized set has its entry pending. When no
    weight is negative, finalized distances are also lower bounds,
    finalization order never goes down, and nothing pending is below `last`.
  */
  ghost predicate Finalizing(g: Adjacency, s: Id, dist: map<Id, int>, order: seq<Id>,
                             pending: multiset<(int, Id)>, last: int,
                             walkTo: map<Id, seq<Id>>, walkOf: map<(int, Id), seq<Id>>)
  {
    && (forall e :: e in pending ==> e.1 in g)
    && dist.Keys <= g.Keys
    && (dist == map[] ==> pending == multiset{(0, s)})
    && (dist != map[] ==> s in dist && dist[s] == 0)
    && (forall v :: v in dist ==> v in walkTo && IsWalkOfWeight(g, walkTo[v], s, v, dist[v]))
    && (forall e :: e in pending ==> e in walkOf && IsWalkOfWeight(g, walkOf[e], s, e.1, e.0))
    && Relaxed(g, dist, pending)
    && Distinct(order) && (forall v :: v in order <==> v in dist)
    && (NonNegativeWeights(g) ==>
          && (forall v :: v in dist ==> IsLowerBound(g, s, v, dist[v]))
          && (forall v :: v in dist ==> dist[v] <= last)
          && (forall e :: e in pending ==> last <= e.0)
          && (forall i, j :: 0 <= i <= j < |order| ==> dist[order[i]] <= dist[order[j]]))
  }

  lemma StartFinalizing(g: Adjacency, s: Id)
    requires s in g
    ensures Finalizing(g, s, map[], [], multiset{(0, s)}, 0, map[], map[(0, s) := [s]])
  {
    assert IsWalkOfWeight(g, [s], s, s, 0);
  }

  ghost predicate IsMinimum(e: (int, Id), pending: multiset<(int, Id)>)
  {
    e in pending && forall f :: f in pending ==> e.0 <= f.0
  }

  /**
    Settles the vertex of a minimum entry that is not yet finalized: records
    its distance, appends it to the finalization order and enqueues one entry
    per outbound edge, priced at the entry's distance plus the edge weight.
  */
  method Settle(dist: map<Id, int>, order: seq<Id>, rest: multiset<(int, Id)>,
                e: (int, Id), adj: map<Id, Option<int>>)
    returns (dist': map<Id, int>, order': seq<Id>, r: multiset<(int, Id)>)
    requires forall k :: k in adj ==> adj[k].Some?
    ensures dist' == dist[e.1 := e.0] && order' == order + [e.1] && dist'.Keys == dist.Keys + {e.1}
    ensures rest <= r && |r| == |rest| + |adj.Keys|
    ensures forall k :: k in adj ==> (e.0 + adj[k].value, k) in r
    ensures forall f :: f in r ==> f in rest || (f.1 in adj && f.0 == e.0 + adj[f.1].value)
    ensures forall f :: r[f] == rest[f] + (if f.1 in adj && f.0 == e.0 + adj[f.1].value then 1 else 0)
  {
    dist' := dist[e.1 := e.0];
    order' := order + [e.1];
    r := EnqueueNeighbours(rest, adj, e.0);
  }

  /** Dropping a minimum entry for a vertex already finalized keeps the state. */
  lemma DiscardStale(g: Adjacency, s: Id, dist: map<Id, int>, order: seq<Id>,
                     pending: multiset<(int, Id)>, last: int,
                     walkTo: map<Id, seq<Id>>, walkOf: map<(int, Id), seq<Id>>, e: (int, Id))
    requires Finalizing(g, s, dist, order, pending, last, walkTo, walkOf)
    requires IsMinimum(e, pending) && e.1 in dist
    ensures Finalizing(g, s, dist, order, pending - multiset{e}, last, walkTo, walkOf)
  {
    var rest := pending - multiset{e};
    forall f | f in pending && f != e ensures f in rest {
      assert rest[f] == pending[f];
    }
  }

  /** The entries of the next queue are vertices of the graph with witness walks of their priority. */
  lemma FinalizeEntries(g: Adjacency, s: Id, pending: multiset<(int, Id)>, walkOf: map<(int, Id), seq<Id>>,
                        e: (int, Id), adj: map<Id, Option<int>>, r: multiset<(int, Id)>)
    returns (walkOf': map<(int, Id), seq<Id>>)
    requires NoDanglingEdges(g) && AllWeighted(g)
    requires forall f :: f in pending ==> f.1 in g && f in walkOf && IsWalkOfWeight(g, walkOf[f], s, f.1, f.0)
    requires e in pending && adj == g[e.1]
    requires forall f :: f in r ==> f in pending - multiset{e} || (f.1 in adj && f.0 == e.0 + adj[f.1].value)
    ensures forall f :: f in r ==> f.1 in g && f in walkOf' && IsWalkOfWeight(g, walkOf'[f], s, f.1, f.0)
  {
    var rest := pending - multiset{e};
    walkOf' := map f | f in r :: if f in rest then walkOf[f] else walkOf[e] + [f.1];
    forall f | f in r ensures f.1 in g && f in walkOf' && IsWalkOfWeight(g, walkOf'[f], s, f.1, f.0) {
      if f !in rest {
        assert IsEdge(g, e.1, f.1);
        WalkExtend(g, walkOf[e], s, e.1, f.1);
      }
    }
  }

  /** Finalizing the vertex of `e` and enqueuing its edges keeps every edge out of the finalized set pending. */
  lemma FinalizeRelaxed(g: Adjacency, dist: map<Id, int>, pending: multiset<(int, Id)>,
                        e: (int, Id), adj: map<Id, Option<int>>, r: multiset<(int, Id)>)
    requires AllWeighted(g)
    requires Relaxed(g, dist, pending)
    requires e in pending && e.1 in g && adj == g[e.1]
    requires pending - multiset{e} <= r
    requires forall k :: k in adj ==> (e.0 + adj[k].value, k) in r
    ensures Relaxed(g, dist[e.1 := e.0], r)
  {
    var rest := pending - multiset{e};
    var dist' := dist[e.1 := e.0];
    forall v, w | v in dist' && IsEdge(g, v, w) && w !in dist'
      ensures (dist'[v] + Cost(g, v, w), w) in r
    {
      if v == e.1 {
        assert (e.0 + g[v][w].value, w) in r;
      } else {
        var f := (dist[v] + Cost(g, v, w), w);
        assert f in pending && f != e;
        assert rest[f] == pending[f];
      }
    }
  }

  /** With no negative weight, finalizing at the minimum priority keeps the distances lower bounds and ordered. */
  lemma FinalizeOrdered(g: Adjacency, s: Id, dist: map<Id, int>, order: seq<Id>,
                        pending: multiset<(int, Id)>, last: int,
                        walkTo: map<Id, seq<Id>>, walkOf: map<(int, Id), seq<Id>>,
                        e: (int, Id), adj: map<Id, Option<int>>, r: multiset<(int, Id)>,
                        dist': map<Id, int>, order': seq<Id>)
    requires NonNegativeWeights(g) && AllWeighted(g)
    requires Finalizing(g, s, dist, order, pending, last, walkTo, walkOf)
    requires IsMinimum(e, pending) && e.1 !in dist && e.1 in g && adj == g[e.1]
    requires forall f :: f in r ==> f in pending - multiset{e} || (f.1 in adj && f.0 == e.0 + adj[f.1].value)
    requires dist' == dist[e.1 := e.0] && order' == order + [e.1]
    ensures forall v :: v in dist' ==> IsLowerBound(g, s, v, dist'[v])
    ensures forall v :: v in dist' ==> dist'[v] <= e.0
    ensures forall f :: f in r ==> e.0 <= f.0
    ensures forall i, j :: 0 <= i <= j < |order'| ==> dist'[order'[i]] <= dist'[order'[j]]
  {
    var (d, u) := e;
    assert IsLowerBound(g, s, u, d) by {
      if dist == map[] {
        assert e == (0, s);
        forall p | WalkFromTo(g, p, s, u) ensures d <= Weight(g, p) {
          WeightNonNegative(g, p);
        }
      } else {
        FinalizeIsShortest(g, s, dist, pending, d, u);
      }
    }
    forall v | v in dist' ensures IsLowerBound(g, s, v, dist'[v]) && dist'[v] <= d {
      if v != u {
        assert dist'[v] == dist[v];
      }
    }
    forall f | f in r ensures d <= f.0 {
      if f !in pending - multiset{e} {
        assert IsEdge(g, u, f.1);
      }
    }
    forall i, j | 0 <= i <= j < |order'| ensures dist'[order'[i]] <= dist'[order'[j]] {
      if j < |order| {
        assert order'[i] == order[i] && order'[j] == order[j];
      } else {
        assert order'[i] in dist';
      }
    }
  }

  /**
    Finalizing the vertex of a minimum entry at its priority and enqueuing an
    entry for each of its edges keeps the state; the lemma also gives the
    witness walks of the new state.
  */
  lemma Finalize(g: Adjacency, s: Id, dist: map<Id, int>, order: seq<Id>,
                 pending: multiset<(int, Id)>, last: int,
                 walkTo: map<Id, seq<Id>>, walkOf: map<(int, Id), seq<Id>>,
                 e: (int, Id), adj: map<Id, Option<int>>, r: multiset<(int, Id)>,
                 dist': map<Id, int>, order': seq<Id>)
    returns (walkTo': map<Id, seq<Id>>, walkOf': map<(int, Id), seq<Id>>)
    requires NoDanglingEdges(g) && AllWeighted(g)
    requires Finalizing(g, s, dist, order, pending, last, walkTo, walkOf)
    requires IsMinimum(e, pending) && e.1 !in dist
    requires e.1 in g && adj == g[e.1]
    requires pending - multiset{e} <= r
    requires forall k :: k in adj ==> (e.0 + adj[k].value, k) in r
    requires forall f :: f in r ==> f in pending - multiset{e} || (f.1 in adj && f.0 == e.0 + adj[f.1].value)
    requires dist' == dist[e.1 := e.0] && order' == order + [e.1]
    ensures Finalizing(g, s, dist', order', r, e.0, walkTo', walkOf')
  {
    var (d, u) := e;
    walkTo' := walkTo[u := walkOf[e]];
    assert dist != map[] ==> s in dist && dist[s] == 0;
    assert dist == map[] ==> e == (0, s);
    walkOf' := FinalizeEntries(g, s, pending, walkOf, e, adj, r);
    FinalizeRelaxed(g, dist, pending, e, adj, r);
    forall v | v in dist' ensures v in walkTo' && IsWalkOfWeight(g, walkTo'[v], s, v, dist'[v]) {
      if v != u {
        assert dist'[v] == dist[v] && walkTo'[v] == walkTo[v];
      }
    }
    AppendFinalized(dist, order, u, d);
    if NonNegativeWeights(g) {
      FinalizeOrdered(g, s, dist, order, pending, last, walkTo, walkOf, e, adj, r, dist', order');
    }
    assert dist' != map[] by {
      assert u in dist';
    }
  }

  /** Appending a newly finalized vertex keeps the finalization order a duplicate-free list of the finalized vertices. */
  lemma AppendFinalized(dist: map<Id, int>, order: seq<Id>, u: Id, d: int)
    requires Distinct(order) && (forall v :: v in order <==> v in dist)
    requires u !in dist
    ensures Distinct(order + [u]) && (forall v :: v in order + [u] <==> v in dist[u := d])
  {
  }

  /**
    When the priority queue is empty, exactly the vertices `s` reaches are
    finalized, each at the weight of some walk to it.
  */
  lemma FinishFinalizing(g: Adjacency, s: Id, dist: map<Id, int>, order: seq<Id>, last: int,
                         walkTo: map<Id, seq<Id>>, walkOf: map<(int, Id), seq<Id>>)
    requires s in g
    requires Finalizing(g, s, dist, order, multiset{}, last, walkTo, walkOf)
    ensures s in dist && dist[s] == 0
    ensures forall v :: v in dist <==> Reachable(g, s, v)
    ensures forall v :: v in dist ==> HasWalkOfWeight(g, s, v, dist[v])
    ensures Distinct(order) && forall v :: v in order <==> v in dist
    ensures NonNegativeWeights(g) ==> forall v :: v in dist ==> IsLowerBound(g, s, v, dist[v])
    ensures NonNegativeWeights(g) ==>
      forall i, j :: 0 <= i <= j < |order| ==>
        order[i] in dist && order[j] in dist && dist[order[i]] <= dist[order[j]]
  {
    forall v | v in dist ensures HasWalkOfWeight(g, s, v, dist[v]) && Reachable(g, s, v) {
      assert IsWalkOfWeight(g, walkTo[v], s, v, dist[v]);
    }
    forall v | Reachable(g, s, v) ensures v in dist {
      ClosedHoldsReachable(g, dist.Keys, s, v);
    }
  }
}
