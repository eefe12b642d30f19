/**
  A mutable directed graph: a map from identifier to vertex, each vertex
  holding a value and an adjacency map from neighbour identifier to an
  optional weight, a vertex count kept alongside, and a weighted flag fixed
  at construction. The three searches drive a stack, a queue and a
  minimum-first priority queue, modelled as a sequence popped at the end, a
  sequence dequeued at the front and a multiset of (priority, identifier)
  entries.
*/
module DirectedGraphs {
  import opened Wrappers
  import opened Walks
  import opened Searches

  datatype Vertex<V> = Vertex(id: Id, value: V, adj: map<Id, Option<int>>)

  /** One constructor per distinct error message, so that the order of each method's checks is observable. */
  datatype GraphError =
    | NoSuchVertex
    | NoSuchSource
    | NoSuchDestination
    | NoSuchTarget
    | NoSuchEdge
    | WeightRequired
    | UnweightedGraph

  datatype Outcome = Pass | Fail(error: GraphError)

  datatype Result<T> = Ok(value: T) | Err(error: GraphError)

  /** What a breadth-first search returns: the reachable vertices, with the target flag when a target was given. */
  datatype Reach = Reached(reached: seq<Id>) | ReachedWithTarget(found: bool, reached: seq<Id>)

  /** What a shortest-path search returns: finalized vertices in finalization order and their distances. */
  datatype ShortestPaths = ShortestPaths(order: seq<Id>, distance: map<Id, int>)

  /** A weight argument counts as absent when it is missing or zero. */
  predicate IsFalsy(weight: Option<int>)
  {
    weight == None || weight == Some(0)
  }

  /** A search target counts as supplied when it is present and is not the empty identifier. */
  predicate TargetGiven(target: Option<Id>)
  {
    target.Some? && target.value != ""
  }

  /** Deleting a present key from a map lowers its size by one. */
  lemma FewerVertices<V>(m: map<Id, Vertex<V>>, k: Id)
    requires k in m
    ensures |m - {k}| == |m| - 1
  {
    assert (m - {k}).Keys == m.Keys - {k};
  }

  class DirectedGraph<V> {
    var vertices: map<Id, Vertex<V>>
    var size: int
    const weighted: bool

    /**
      The object invariant: the count equals the number of vertices, every
      vertex is stored under its own identifier, every edge ends at a vertex
      of the graph, and every edge carries a non-zero weight exactly when the
      graph is weighted.
    */
    ghost predicate Valid()
      reads this
    {
      && size == |vertices|
      && (forall u :: u in vertices ==> vertices[u].id == u)
      && (forall u, w :: u in vertices && w in vertices[u].adj ==> w in vertices)
      && (forall u, w :: u in vertices && w in vertices[u].adj ==>
            if weighted then vertices[u].adj[w].Some? && vertices[u].adj[w].value != 0
            else vertices[u].adj[w] == None)
    }

    /** The abstract shape of the graph: each identifier's outbound adjacency. */
    ghost function Edges(): (g: Adjacency)
      reads this
      ensures g.Keys == vertices.Keys
      ensures forall u :: u in vertices ==> g[u] == vertices[u].adj
    {
      map u | u in vertices :: vertices[u].adj
    }

    constructor (weighted: bool)
      ensures Valid()
      ensures vertices == map[] && size == 0 && this.weighted == weighted
    {
      vertices := map[];
      size := 0;
      this.weighted := weighted;
    }

    method AddVertex(identifier: Id, value: V)
      requires Valid()
      modifies this
      ensures Valid()
      ensures identifier in old(vertices) ==>
        vertices == old(vertices)[identifier := Vertex(identifier, value, old(vertices)[identifier].adj)]
      ensures identifier !in old(vertices) ==>
        vertices == old(vertices)[identifier := Vertex(identifier, value, map[])]
      ensures size == old(size) + (if identifier in old(vertices) then 0 else 1)
      ensures VertexExists(identifier)
    {
      if identifier in vertices {
        var oldVertex := vertices[identifier];
        vertices := vertices[identifier := Vertex(identifier, value, oldVertex.adj)];
        return;
      }
      vertices := vertices[identifier := Vertex(identifier, value, map[])];
      size := size + 1;
    }

    method RemoveVertex(identifier: Id) returns (r: Outcome)
      requires Valid()
      modifies this
      ensures Valid()
      ensures identifier !in old(vertices) ==>
        r == Fail(NoSuchVertex) && vertices == old(vertices) && size == old(size)
      ensures identifier in old(vertices) ==>
        && r == Pass
        && vertices.Keys == old(vertices).Keys - {identifier}
        && (forall u :: u in vertices ==>
              vertices[u] == old(vertices)[u].(adj := old(vertices)[u].adj - {identifier}))
        && size == old(size) - 1
      ensures !VertexExists(identifier)
      ensures forall u :: !EdgeExists(u, identifier)
    {
      if identifier !in vertices {
        return Fail(NoSuchVertex);
      }
      var pending := vertices.Keys;
      var remaining := vertices;
      while pending != {}
        invariant pending <= remaining.Keys && remaining.Keys == vertices.Keys
        invariant forall u :: u in pending ==> remaining[u] == vertices[u]
        invariant forall u :: u in remaining && u !in pending ==>
          remaining[u] == vertices[u].(adj := vertices[u].adj - {identifier})
        decreases pending
      {
        var u :| u in pending;
        var vertex := remaining[u];
        if identifier in vertex.adj {
          remaining := remaining[u := vertex.(adj := vertex.adj - {identifier})];
        } else {
          assert vertex.adj - {identifier} == vertex.adj;
        }
        pending := pending - {u};
      }
      FewerVertices(remaining, identifier);
      vertices := remaining - {identifier};
      size := size - 1;
      return Pass;
    }

    method AddEdge(source: Id, dest: Id, weight: Option<int>) returns (r: Outcome)
      requires Valid()
      modifies this
      ensures Valid() && size == old(size)
      ensures source !in old(vertices) ==> r == Fail(NoSuchSource)
      ensures source in old(vertices) && dest !in old(vertices) ==> r == Fail(NoSuchDestination)
      ensures source in old(vertices) && dest in old(vertices) && dest in old(vertices)[source].adj ==> r == Pass
      ensures source in old(vertices) && dest in old(vertices) && dest !in old(vertices)[source].adj ==>
        r == if weighted && IsFalsy(weight) then Fail(WeightRequired) else Pass
      ensures r.Fail? || old(EdgeExists(source, dest)) ==> vertices == old(vertices)
      ensures r.Pass? && !old(EdgeExists(source, dest)) ==>
        vertices == old(vertices)[source :=
          old(vertices)[source].(adj := old(vertices)[source].adj[dest := if weighted then weight else None])]
      ensures r.Pass? ==> EdgeExists(source, dest)
    {
      if source !in vertices {
        return Fail(NoSuchSource);
      } else if dest !in vertices {
        return Fail(NoSuchDestination);
      }
      var sourceVertex := vertices[source];
      if dest !in sourceVertex.adj {
        if weighted && IsFalsy(weight) {
          return Fail(WeightRequired);
        }
        vertices := vertices[source := sourceVertex.(adj := sourceVertex.adj[dest := if weighted then weight else None])];
      }
      return Pass;
    }

    method RemoveEdge(source: Id, dest: Id) returns (r: Outcome)
      requires Valid()
      modifies this
      ensures Valid() && size == old(size)
      ensures r == if old(EdgeExists(source, dest)) then Pass else Fail(NoSuchEdge)
      ensures r.Fail? ==> vertices == old(vertices)
      ensures r.Pass? ==>
        vertices == old(vertices)[source := old(vertices)[source].(adj := old(vertices)[source].adj - {dest})]
      ensures !EdgeExists(source, dest)
    {
      if source in vertices {
        var sourceAdj := vertices[source].adj;
        if dest in sourceAdj {
          vertices := vertices[source := vertices[source].(adj := sourceAdj - {dest})];
          return Pass;
        }
      }
      return Fail(NoSuchEdge);
    }

    function EdgeExists(source: Id, dest: Id): (r: bool)
      reads this
      ensures r <==> IsEdge(Edges(), source, dest)
    {
      source in vertices && dest in vertices[source].adj
    }

    function VertexExists(identifier: Id): (r: bool)
      reads this
      ensures r <==> identifier in Edges()
    {
      identifier in vertices
    }

    method GetAdjacentVertices(identifier: Id) returns (r: Result<Option<seq<Id>>>)
      ensures identifier !in vertices ==> r == Err(NoSuchVertex)
      ensures identifier in vertices && vertices[identifier].adj == map[] ==> r == Ok(None)
      ensures identifier in vertices && vertices[identifier].adj != map[] ==>
        && r.Ok? && r.value.Some?
        && Distinct(r.value.value)
        && (forall w :: w in r.value.value <==> IsEdge(Edges(), identifier, w))
    {
      if identifier !in vertices {
        return Err(NoSuchVertex);
      }
      var adj := vertices[identifier].adj;
      if |adj| == 0 {
        return Ok(None);
      }
      var neighbours := AppendKeys([], adj.Keys, {});
      return Ok(Some(neighbours));
    }

    method DepthFirstSearch(source: Id, target: Id) returns (r: Result<bool>)
      requires Valid()
      ensures source !in vertices ==> r == Err(NoSuchSource)
      ensures source in vertices && target !in vertices ==> r == Err(NoSuchTarget)
      ensures source in vertices && target in vertices ==> r == Ok(Reachable(Edges(), source, target))
    {
      if source !in vertices {
        return Err(NoSuchSource);
      } else if target !in vertices {
        return Err(NoSuchTarget);
      }
      var found := DepthFirstFrom(Edges(), vertices, source, target);
      return Ok(found);
    }

    method BreadthFirstSearch(source: Id, target: Option<Id>) returns (r: Result<Reach>)
      requires Valid()
      ensures source !in vertices ==> r == Err(NoSuchSource)
      ensures source in vertices && TargetGiven(target) && target.value !in vertices ==> r == Err(NoSuchTarget)
      ensures source in vertices && (TargetGiven(target) ==> target.value in vertices) ==>
        && r.Ok?
        && (r.value.ReachedWithTarget? <==> TargetGiven(target))
        && Distinct(r.value.reached)
        && (forall v :: v in r.value.reached <==> Reachable(Edges(), source, v))
        && (r.value.ReachedWithTarget? ==> (r.value.found <==> Reachable(Edges(), source, target.value)))
    {
      if source !in vertices {
        return Err(NoSuchSource);
      } else if TargetGiven(target) && target.value !in vertices {
        return Err(NoSuchTarget);
      }
      ghost var g := Edges();
      var visited, found := BreadthFirstFrom(g, vertices, source, target);
      FinishExploring(g, source, visited);
      var reached := AppendKeys([], visited, {});
      if TargetGiven(target) {
        return Ok(ReachedWithTarget(found, reached));
      }
      return Ok(Reached(reached));
    }

    method MinPath(source: Id) returns (r: Result<ShortestPaths>)
      requires Valid()
      ensures !weighted ==> r == Err(UnweightedGraph)
      ensures weighted && source !in vertices ==> r == Err(NoSuchVertex)
      ensures weighted && source in vertices ==> r.Ok?
      ensures r.Ok? ==> source in r.value.distance && r.value.distance[source] == 0
      ensures r.Ok? ==> forall v :: v in r.value.distance <==> Reachable(Edges(), source, v)
      ensures r.Ok? ==> forall v :: v in r.value.distance ==> HasWalkOfWeight(Edges(), source, v, r.value.distance[v])
      ensures r.Ok? ==> Distinct(r.value.order) && forall v :: v in r.value.order <==> v in r.value.distance
      ensures r.Ok? && NonNegativeWeights(Edges()) ==>
        forall v :: v in r.value.distance ==> IsLowerBound(Edges(), source, v, r.value.distance[v])
      ensures r.Ok? && NonNegativeWeights(Edges()) ==>
        forall i, j :: 0 <= i <= j < |r.value.order| ==>
          r.value.order[i] in r.value.distance && r.value.order[j] in r.value.distance &&
          r.value.distance[r.value.order[i]] <= r.value.distance[r.value.order[j]]
    {
      if !weighted {
        return Err(UnweightedGraph);
      } else if source !in vertices {
        return Err(NoSuchVertex);
      }
      ghost var g := Edges();
      var order, dist, last, walkTo, walkOf := ShortestFrom(g, vertices, source);
      FinishFinalizing(g, source, dist, order, last, walkTo, walkOf);
      return Ok(ShortestPaths(order, dist));
    }
  }

  /**
    The priority-queue loop of a shortest-path search over a snapshot of the
    vertex map: entries are dequeued minimum first, and an entry whose vertex
    is not yet finalized settles it.
  */
  method ShortestFrom<V>(ghost g: Adjacency, vertices: map<Id, Vertex<V>>, source: Id)
    returns (order: seq<Id>, dist: map<Id, int>, ghost last: int,
             ghost walkTo: map<Id, seq<Id>>, ghost walkOf: map<(int, Id), seq<Id>>)
    requires NoDanglingEdges(g) && AllWeighted(g)
    requires source in g && g.Keys == vertices.Keys
    requires forall u :: u in vertices ==> g[u] == vertices[u].adj
    ensures Finalizing(g, source, dist, order, multiset{}, last, walkTo, walkOf)
  {
    dist := map[];
    order := [];
    var pq := multiset{(0, source)};
    last := 0;
    walkTo := map[];
    walkOf := map[(0, source) := [source]];
    StartFinalizing(g, source);
    while pq != multiset{}
      invariant Finalizing(g, source, dist, order, pq, last, walkTo, walkOf)
      decreases |g.Keys - dist.Keys|, |pq|
    {
      var entry, rest := DequeueMin(pq);
      var u := entry.1;
      if u !in dist {
        var adj := vertices[u].adj;
        FewerLeft(g.Keys, dist.Keys, u);
        ghost var (dist0, order0, pq0) := (dist, order, pq);
        dist, order, pq := Settle(dist, order, rest, entry, adj);
        walkTo, walkOf := Finalize(g, source, dist0, order0, pq0, last, walkTo, walkOf, entry, adj, pq, dist, order);
        last := entry.0;
      } else {
        DiscardStale(g, source, dist, order, pq, last, walkTo, walkOf, entry);
        pq := rest;
      }
    }
  }


  /**
    The stack loop of a depth-first search over a snapshot of the vertex
    map: pop the top identifier and, unless it was visited already, mark it
    visited, stop if it is the target, and push its neighbours.
  */
  method DepthFirstFrom<V>(ghost g: Adjacency, vertices: map<Id, Vertex<V>>, source: Id, target: Id)
    returns (found: bool)
    requires NoDanglingEdges(g) && g.Keys == vertices.Keys
    requires forall u :: u in vertices ==> g[u] == vertices[u].adj
    requires source in g && target in g
    ensures found <==> Reachable(g, source, target)
  {
    var visited: set<Id> := {};
    var stack := [source];
    StartExploring(g, source);
    while stack != []
      invariant Exploring(g, source, visited, stack)
      invariant target !in visited
      decreases |g.Keys - visited|, |stack|
    {
      var top := |stack| - 1;
      var v := stack[top];
      assert v in vertices;
      if v in visited {
        DropTop(g, source, visited, stack);
        stack := stack[..top];
      } else {
        var keys := vertices[v].adj.Keys;
        var next := AppendKeys(stack[..top], keys, {});
        VisitTop(g, source, visited, stack, keys, next);
        visited := visited + {v};
        if v == target {
          return true;
        }
        stack := next;
      }
    }
    FinishExploring(g, source, visited);
    return false;
  }

  /**
    The queue loop of a breadth-first search over a snapshot of the vertex
    map: dequeue the front identifier, note whether it is the target, mark it
    visited, and enqueue those of its neighbours not yet visited.
  */
  method BreadthFirstFrom<V>(ghost g: Adjacency, vertices: map<Id, Vertex<V>>, source: Id, target: Option<Id>)
    returns (visited: set<Id>, found: bool)
    requires NoDanglingEdges(g) && g.Keys == vertices.Keys
    requires forall u :: u in vertices ==> g[u] == vertices[u].adj
    requires source in g
    ensures Exploring(g, source, visited, [])
    ensures found <==> TargetGiven(target) && target.value in visited
  {
    visited := {};
    var queue := [source];
    found := false;
    StartExploring(g, source);
    while queue != []
      invariant Exploring(g, source, visited, queue)
      invariant found <==> TargetGiven(target) && target.value in visited
      decreases |g.Keys - visited|, CountIn(queue, visited)
    {
      var v := queue[0];
      assert v in vertices;
      if TargetGiven(target) && v == target.value {
        found := true;
      }
      var keys := vertices[v].adj.Keys;
      var next := AppendKeys(queue[1..], keys, visited + {v});
      VisitFront(g, source, visited, queue, keys, next);
      visited := visited + {v};
      queue := next;
    }
  }
}
