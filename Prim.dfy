/**
 * `Graph::prim`: Prim's algorithm from vertex 0 over the implicit complete
 * graph.  Whenever an extracted vertex has no edge to another vertex, one is
 * added in both directions, weighted by the haversine distance of the two
 * vertices' coordinates; if the extracted vertex has no coordinates (a
 * coordinate equal to the maximum double) the run is aborted instead.
 *
 * An abort is the `ok == false` result; the haversine formula is a function
 * parameter.
 */
module Prim {
  import opened Graph
  import opened MutablePriorityQueue

  /** The haversine distance, called with (lat1, lon1, lat2, lon2). */
  type Haversine = (real, real, real, real) -> real

  /** The vertices whose key is known but which are not in the tree yet. */
  ghost function Frontier(vs: map<int, Vertex>, visited: map<int, bool>, dist: map<int, real>): set<int>
  {
    set x | x in vs && x in visited && x in dist && !visited[x] && dist[x] != DoubleMax
  }

  /** The heap holds exactly the frontier, ordered by the current keys. */
  ghost predicate HeapMatches(g: Graph, q: MinHeap)
    reads g, q
  {
    && q.Valid() && Keyed(q.H, g.dist) && HeapOrdered(q.H, g.dist)
    && q.Elements() == multiset(Frontier(g.vertices, g.visited, g.dist))
  }

  /** Edge e enters x from a tree vertex and weighs d, a finite key. */
  ghost predicate TreeEdge(es: seq<Edge>, visited: map<int, bool>, e: nat, x: int, d: real)
  {
    && e < |es| && es[e].dest == x && es[e].orig in visited && visited[es[e].orig]
    && es[e].weight == d && d < DoubleMax
  }

  /**
   * The tree invariant: keys are at most the maximum, tree vertices have a
   * finite key, every other vertex with a finite key has a path edge, every
   * path edge enters its vertex from the tree with the vertex's key, and
   * vertex 0 is in the tree or on the frontier.
   */
  ghost predicate TreeInv(vs: map<int, Vertex>, es: seq<Edge>, visited: map<int, bool>, dist: map<int, real>, path: map<int, Option<nat>>)
    requires visited.Keys == vs.Keys && dist.Keys == vs.Keys && path.Keys == vs.Keys
  {
    && (forall x :: x in vs ==> dist[x] <= DoubleMax)
    && (forall x :: x in vs && visited[x] ==> dist[x] != DoubleMax)
    && (forall x :: x in vs && x != 0 && dist[x] != DoubleMax ==> path[x].Some?)
    && (forall x :: x in vs && path[x].Some? ==> TreeEdge(es, visited, path[x].value, x, dist[x]))
    && (0 in vs ==> visited[0] || dist[0] != DoubleMax)
  }

  ghost predicate Tree(g: Graph)
    reads g
    requires g.Valid()
  {
    TreeInv(g.vertices, g.edges, g.visited, g.dist, g.path)
  }

  /** Lowering the key of u outside the tree along an edge from the tree keeps the tree invariant. */
  lemma TreeLower(vs: map<int, Vertex>, es: seq<Edge>, visited: map<int, bool>, dist: map<int, real>, path: map<int, Option<nat>>, v: int, u: int, e: nat)
    requires visited.Keys == vs.Keys && dist.Keys == vs.Keys && path.Keys == vs.Keys
    requires TreeInv(vs, es, visited, dist, path)
    requires v in vs && u in vs && visited[v] && !visited[u] && EdgeFromTo(es, e, v, u) && es[e].weight < dist[u]
    ensures TreeInv(vs, es, visited, dist[u := es[e].weight], path[u := Some(e)])
  {
  }

  /** Growing the edge table keeps the tree invariant. */
  lemma TreeExtend(vs: map<int, Vertex>, es: seq<Edge>, vs': map<int, Vertex>, es': seq<Edge>, visited: map<int, bool>, dist: map<int, real>, path: map<int, Option<nat>>)
    requires visited.Keys == vs.Keys && dist.Keys == vs.Keys && path.Keys == vs.Keys
    requires TreeInv(vs, es, visited, dist, path) && Extends(vs, es, vs', es')
    ensures TreeInv(vs', es', visited, dist, path)
  {
    forall x | x in vs' && path[x].Some?
      ensures TreeEdge(es', visited, path[x].value, x, dist[x])
    {
      assert TreeEdge(es, visited, path[x].value, x, dist[x]);
      assert es'[path[x].value] == es'[..|es|][path[x].value];
    }
  }

  /** Moving a frontier vertex into the tree keeps the tree invariant. */
  lemma TreeVisit(vs: map<int, Vertex>, es: seq<Edge>, visited: map<int, bool>, dist: map<int, real>, path: map<int, Option<nat>>, v: int)
    requires visited.Keys == vs.Keys && dist.Keys == vs.Keys && path.Keys == vs.Keys
    requires TreeInv(vs, es, visited, dist, path) && v in Frontier(vs, visited, dist)
    ensures TreeInv(vs, es, visited[v := true], dist, path)
  {
    forall x | x in vs && path[x].Some?
      ensures TreeEdge(es, visited[v := true], path[x].value, x, dist[x])
    {
      assert TreeEdge(es, visited, path[x].value, x, dist[x]);
    }
  }

  /**
   * Tree vertex v has an edge to every vertex of P but itself, and the key of
   * every such vertex outside the tree is at most that edge's weight.
   */
  ghost predicate Covered(vs: map<int, Vertex>, es: seq<Edge>, visited: map<int, bool>, dist: map<int, real>, v: int, P: set<int>)
  {
    v in vs &&
    forall u :: u in P && u in vs && u != v ==>
      && u in vs[v].adj && vs[v].adj[u] < |es|
      && (u in visited && u in dist && !visited[u] ==> dist[u] <= es[vs[v].adj[u]].weight)
  }

  /** Every tree vertex but w is covered towards all vertices. */
  ghost predicate CoveredExcept(vs: map<int, Vertex>, es: seq<Edge>, visited: map<int, bool>, dist: map<int, real>, w: int)
  {
    forall v :: v in vs && v in visited && visited[v] && v != w ==> Covered(vs, es, visited, dist, v, vs.Keys)
  }

  /** Every tree vertex is covered towards all vertices. */
  ghost predicate AllCovered(vs: map<int, Vertex>, es: seq<Edge>, visited: map<int, bool>, dist: map<int, real>)
  {
    forall v :: v in vs && v in visited && visited[v] ==> Covered(vs, es, visited, dist, v, vs.Keys)
  }

  /**
   * (vs', es') grows (vs, es): same vertices with the same coordinates, old
   * edges kept in place, old adjacency entries kept.
   */
  ghost predicate Extends(vs: map<int, Vertex>, es: seq<Edge>, vs': map<int, Vertex>, es': seq<Edge>)
  {
    && vs'.Keys == vs.Keys
    && |es| <= |es'| && es'[..|es|] == es
    && (forall id, d {:trigger vs[id].adj[d]} :: id in vs && d in vs[id].adj ==>
          d in vs'[id].adj && vs'[id].adj[d] == vs[id].adj[d])
    && (forall id :: id in vs ==>
          vs'[id].id == vs[id].id && vs'[id].longitude == vs[id].longitude && vs'[id].latitude == vs[id].latitude)
  }

  lemma ExtendsTrans(vs1: map<int, Vertex>, es1: seq<Edge>, vs2: map<int, Vertex>, es2: seq<Edge>, vs3: map<int, Vertex>, es3: seq<Edge>)
    requires Extends(vs1, es1, vs2, es2) && Extends(vs2, es2, vs3, es3)
    ensures Extends(vs1, es1, vs3, es3)
  {
    assert es3[..|es1|] == es3[..|es2|][..|es1|];
  }

  /**
   * Coverage survives growing the graph, growing the tree and lowering the
   * keys of the vertices outside the tree.
   */
  lemma CoveredMono(vs: map<int, Vertex>, es: seq<Edge>, visited: map<int, bool>, dist: map<int, real>,
                    vs': map<int, Vertex>, es': seq<Edge>, visited': map<int, bool>, dist': map<int, real>,
                    v: int, P: set<int>)
    requires Covered(vs, es, visited, dist, v, P) && Extends(vs, es, vs', es')
    requires forall u :: u in visited' && u in dist' && !visited'[u] ==>
               u in visited && u in dist && !visited[u] && dist'[u] <= dist[u]
    ensures Covered(vs', es', visited', dist', v, P)
  {
    forall u | u in P && u in vs' && u != v
      ensures u in vs'[v].adj && vs'[v].adj[u] < |es'|
      ensures u in visited' && u in dist' && !visited'[u] ==> dist'[u] <= es'[vs'[v].adj[u]].weight
    {
      assert vs[v].adj[u] == vs'[v].adj[u];
      assert es'[vs[v].adj[u]] == es'[..|es|][vs[v].adj[u]];
    }
  }

  /** CoveredMono for every tree vertex but w. */
  lemma CoveredExceptMono(vs: map<int, Vertex>, es: seq<Edge>, visited: map<int, bool>, dist: map<int, real>,
                          vs': map<int, Vertex>, es': seq<Edge>, visited': map<int, bool>, dist': map<int, real>, w: int)
    requires CoveredExcept(vs, es, visited, dist, w) && Extends(vs, es, vs', es')
    requires forall u :: u in visited' && u in dist' && !visited'[u] ==>
               u in visited && u in dist && !visited[u] && dist'[u] <= dist[u]
    requires forall v :: v in visited' && visited'[v] && v != w ==> v in visited && visited[v]
    ensures CoveredExcept(vs', es', visited', dist', w)
  {
    forall v | v in vs' && v in visited' && visited'[v] && v != w
      ensures Covered(vs', es', visited', dist', v, vs'.Keys)
    {
      CoveredMono(vs, es, visited, dist, vs', es', visited', dist', v, vs.Keys);
    }
  }

  /** No key of d' is greater than in d. */
  ghost predicate Lowered(d: map<int, real>, d': map<int, real>)
  {
    forall x :: x in d' ==> x in d && d'[x] <= d[x]
  }

  /** Moving one element from the to-do part of a split to the done part. */
  lemma MoveOne(done: set<int>, todo: set<int>, all: set<int>, u: int)
    requires done + todo == all && u in todo
    ensures (done + {u}) + (todo - {u}) == all
  {
  }

  lemma LoweredTrans(d1: map<int, real>, d2: map<int, real>, d3: map<int, real>)
    requires Lowered(d1, d2) && Lowered(d2, d3)
    ensures Lowered(d1, d3)
  {
  }

  /**
   * One step of the inner loop on values: after the graph grew, keys were
   * lowered and u got an edge from v bounding its key, v is covered towards
   * one vertex more and every other tree vertex stays covered.
   */
  lemma VisitStep(vs0: map<int, Vertex>, es0: seq<Edge>, vs1: map<int, Vertex>, es1: seq<Edge>,
                  visited: map<int, bool>, dist0: map<int, real>, dist1: map<int, real>, v: int, u: int, P: set<int>)
    requires CoveredExcept(vs0, es0, visited, dist0, v) && Covered(vs0, es0, visited, dist0, v, P)
    requires Extends(vs0, es0, vs1, es1) && Lowered(dist0, dist1)
    requires v in vs1 && u in vs1[v].adj && vs1[v].adj[u] < |es1|
    requires u in visited && u in dist1 && !visited[u] ==> dist1[u] <= es1[vs1[v].adj[u]].weight
    ensures CoveredExcept(vs1, es1, visited, dist1, v) && Covered(vs1, es1, visited, dist1, v, P + {u})
  {
    CoveredExceptMono(vs0, es0, visited, dist0, vs1, es1, visited, dist1, v);
    CoveredMono(vs0, es0, visited, dist0, vs1, es1, visited, dist1, v, P);
  }

  lemma FrontierAdd(vs: map<int, Vertex>, visited: map<int, bool>, dist: map<int, real>, u: int, w: real)
    requires u in vs && u in visited && !visited[u] && u in dist && dist[u] == DoubleMax && w != DoubleMax
    ensures Frontier(vs, visited, dist[u := w]) == Frontier(vs, visited, dist) + {u}
    ensures multiset(Frontier(vs, visited, dist[u := w])) == multiset(Frontier(vs, visited, dist)) + multiset{u}
  {
    var F := Frontier(vs, visited, dist);
    assert Frontier(vs, visited, dist[u := w]) == F + {u};
    assert u !in F;
  }

  lemma FrontierLower(vs: map<int, Vertex>, visited: map<int, bool>, dist: map<int, real>, u: int, w: real)
    requires u in dist && dist[u] != DoubleMax && w != DoubleMax
    ensures Frontier(vs, visited, dist[u := w]) == Frontier(vs, visited, dist)
  {
  }

  lemma FrontierVisit(vs: map<int, Vertex>, visited: map<int, bool>, dist: map<int, real>, v: int)
    requires v in Frontier(vs, visited, dist)
    ensures Frontier(vs, visited[v := true], dist) == Frontier(vs, visited, dist) - {v}
    ensures multiset(Frontier(vs, visited[v := true], dist)) == multiset(Frontier(vs, visited, dist)) - multiset{v}
  {
    assert Frontier(vs, visited[v := true], dist) == Frontier(vs, visited, dist) - {v};
  }

  /**
   * The reset loop of prim: every vertex gets `dist` = maximum, no path and
   * `visited` = false; nothing else changes.
   */
  method ResetRunFields(g: Graph)
    requires g.Valid()
    modifies g
    ensures g.Valid() && g.vertices == old(g.vertices) && g.edges == old(g.edges)
    ensures forall x :: x in g.vertices ==> g.dist[x] == DoubleMax && g.path[x] == None && !g.visited[x]
  {
    var todo := g.vertices.Keys;
    while todo != {}
      invariant todo <= g.vertices.Keys
      invariant g.Valid() && g.vertices == old(g.vertices) && g.edges == old(g.edges)
      invariant forall x :: x in g.vertices && x !in todo ==> g.dist[x] == DoubleMax && g.path[x] == None && !g.visited[x]
      decreases |todo|
    {
      var id := Choose(todo);
      ResetVertex(g, id);
      todo := todo - {id};
    }
  }

  /** One pass of the reset loop: vertex id gets the maximum key, no path and visited false. */
  method ResetVertex(g: Graph, id: int)
    requires g.Valid() && id in g.vertices
    modifies g
    ensures g.Valid() && g.vertices == old(g.vertices) && g.edges == old(g.edges)
    ensures g.dist == old(g.dist)[id := DoubleMax] && g.path == old(g.path)[id := None]
    ensures g.visited == old(g.visited)[id := false]
  {
    g.dist := g.dist[id := DoubleMax];
    g.path := g.path[id := None];
    g.visited := g.visited[id := false];
  }

  /** The frontier depends only on the vertex ids, not on their edges. */
  lemma FrontierKeys(vs: map<int, Vertex>, vs': map<int, Vertex>, visited: map<int, bool>, dist: map<int, real>)
    requires vs'.Keys == vs.Keys
    ensures Frontier(vs', visited, dist) == Frontier(vs, visited, dist)
  {
  }

  /**
   * The first half of prim's inner loop for tree vertex v and vertex u != v:
   * the edge v -> u, added in both directions with the haversine weight if
   * missing; an abort, changing nothing, if it is missing and v has no
   * coordinates.
   */
  method EnsureEdge(g: Graph, v: int, u: int, haversine: Haversine) returns (ok: bool, e: nat)
    requires g.Valid() && Tree(g) && v in g.vertices && u in g.vertices
    modifies g
    ensures g.Valid() && Tree(g)
    ensures g.visited == old(g.visited) && g.dist == old(g.dist) && g.path == old(g.path)
    ensures Extends(old(g.vertices), old(g.edges), g.vertices, g.edges)
    ensures !ok <==> u !in old(g.vertices)[v].adj &&
                     (old(g.vertices)[v].longitude == DoubleMax || old(g.vertices)[v].latitude == DoubleMax)
    ensures !ok ==> g.vertices == old(g.vertices) && g.edges == old(g.edges)
    ensures ok && u in old(g.vertices)[v].adj ==> g.vertices == old(g.vertices) && g.edges == old(g.edges)
    ensures ok && u !in old(g.vertices)[v].adj ==>
      var vv, uu := old(g.vertices)[v], old(g.vertices)[u];
      (g.vertices, g.edges) == LinkBidirectional(old(g.vertices), old(g.edges), v, u,
                                                 haversine(vv.latitude, vv.longitude, uu.latitude, uu.longitude), 0.0, 0.0)
    ensures ok ==> u in g.vertices[v].adj && e == g.vertices[v].adj[u] && EdgeFromTo(g.edges, e, v, u)
  {
    var found := FindEdge(g.vertices[v], u);
    if found.None? {
      var vv := g.vertices[v];
      if vv.longitude == DoubleMax || vv.latitude == DoubleMax {
        return false, 0;
      }
      var uu := g.vertices[u];
      var weight := haversine(vv.latitude, vv.longitude, uu.latitude, uu.longitude);
      LinkBidirectionalEffect(g.vertices, g.edges, v, u, weight, 0.0, 0.0);
      ghost var vs0, es0 := g.vertices, g.edges;
      var added := g.AddBidirectionalEdge(v, u, weight, 0.0, 0.0);
      TreeExtend(vs0, es0, g.vertices, g.edges, g.visited, g.dist, g.path);
      found := FindEdge(g.vertices[v], u);
    }
    FindEdgeEndpoints(g.vertices, g.edges, v, u);
    return true, found.value;
  }

  /**
   * The second half of prim's inner loop: if u is outside the tree and edge
   * e is lighter than u's key, the key becomes e's weight and the path e;
   * u is inserted in the queue if its key was the maximum, and its key is
   * decreased in place otherwise.
   */
  method LowerKey(g: Graph, q: MinHeap, v: int, u: int, e: nat)
    requires g.Valid() && HeapMatches(g, q) && Tree(g)
    requires v in g.vertices && u in g.vertices && g.visited[v] && EdgeFromTo(g.edges, e, v, u)
    modifies g, q
    ensures g.Valid() && HeapMatches(g, q) && Tree(g)
    ensures g.vertices == old(g.vertices) && g.edges == old(g.edges) && g.visited == old(g.visited)
    ensures Lowered(old(g.dist), g.dist) && (!g.visited[u] ==> g.dist[u] <= g.edges[e].weight)
    ensures PathsKept(g.visited, old(g.path), g.path) && DistKept(g.visited, old(g.dist), g.dist)
    ensures
      var w := g.edges[e].weight;
      if !g.visited[u] && w < old(g.dist)[u]
      then g.dist == old(g.dist)[u := w] && g.path == old(g.path)[u := Some(e)]
      else g.dist == old(g.dist) && g.path == old(g.path)
  {
    if !g.visited[u] {
      var oldDist := g.dist[u];
      var w := g.edges[e].weight;
      if w < oldDist {
        ghost var before := g.dist;
        KeptOutside(g.visited, g.dist, g.path, u, w, e);
        SetKey(g, v, u, e);
        if oldDist == DoubleMax {
          FrontierAdd(g.vertices, g.visited, before, u, w);
          KeyOutside(q.H, before, u, w);
          q.Insert(u, g.dist);
        } else {
          FrontierLower(g.vertices, g.visited, before, u, w);
          q.DecreaseKey(u, g.dist, before);
        }
      }
    }
  }

  /** `u->setDist(...)` and `u->setPath(e)`: u's key becomes the weight of edge e from tree vertex v. */
  method SetKey(g: Graph, v: int, u: int, e: nat)
    requires g.Valid() && Tree(g)
    requires v in g.vertices && u in g.vertices && g.visited[v] && !g.visited[u] && EdgeFromTo(g.edges, e, v, u)
    requires g.edges[e].weight < g.dist[u]
    modifies g
    ensures g.Valid() && Tree(g)
    ensures g.vertices == old(g.vertices) && g.edges == old(g.edges) && g.visited == old(g.visited)
    ensures g.dist == old(g.dist)[u := g.edges[e].weight] && g.path == old(g.path)[u := Some(e)]
  {
    TreeLower(g.vertices, g.edges, g.visited, g.dist, g.path, v, u, e);
    g.dist := g.dist[u := g.edges[e].weight];
    g.path := g.path[u := Some(e)];
  }

  /**
   * One pass of prim's inner loop, for tree vertex v and vertex u != v:
   * EnsureEdge, then LowerKey.  Afterwards v is covered towards u as well,
   * and every other tree vertex stays covered.
   */
  method Relax(g: Graph, q: MinHeap, v: int, u: int, haversine: Haversine, ghost done: set<int>) returns (ok: bool)
    requires g.Valid() && HeapMatches(g, q) && Tree(g)
    requires v in g.vertices && g.visited[v] && u in g.vertices && u != v
    requires CoveredExcept(g.vertices, g.edges, g.visited, g.dist, v) && Covered(g.vertices, g.edges, g.visited, g.dist, v, done)
    modifies g, q
    ensures g.Valid() && HeapMatches(g, q) && Tree(g) && g.visited == old(g.visited)
    ensures Extends(old(g.vertices), old(g.edges), g.vertices, g.edges) && Lowered(old(g.dist), g.dist)
    ensures ok ==> CoveredExcept(g.vertices, g.edges, g.visited, g.dist, v)
    ensures ok ==> Covered(g.vertices, g.edges, g.visited, g.dist, v, done + {u})
    ensures PathsKept(g.visited, old(g.path), g.path) && DistKept(g.visited, old(g.dist), g.dist)
    ensures !ok ==> g.vertices[v].longitude == DoubleMax || g.vertices[v].latitude == DoubleMax
  {
    var e;
    ok, e := EnsureEdge(g, v, u, haversine);
    if !ok {
      return;
    }
    FrontierKeys(old(g.vertices), g.vertices, g.visited, g.dist);
    LowerAndCover(g, q, v, u, e, done, old(g.vertices), old(g.edges));
  }

  /**
   * The second half of Relax, once edge e from v to u exists in a graph that
   * grew from (vs0, es0): LowerKey, after which v is covered towards u too.
   */
  method LowerAndCover(g: Graph, q: MinHeap, v: int, u: int, e: nat, ghost done: set<int>,
                       ghost vs0: map<int, Vertex>, ghost es0: seq<Edge>)
    requires g.Valid() && HeapMatches(g, q) && Tree(g)
    requires v in g.vertices && g.visited[v] && u in g.vertices && u != v
    requires u in g.vertices[v].adj && e == g.vertices[v].adj[u] && EdgeFromTo(g.edges, e, v, u)
    requires Extends(vs0, es0, g.vertices, g.edges)
    requires CoveredExcept(vs0, es0, g.visited, g.dist, v) && Covered(vs0, es0, g.visited, g.dist, v, done)
    modifies g, q
    ensures g.Valid() && HeapMatches(g, q) && Tree(g) && g.visited == old(g.visited)
    ensures Extends(vs0, es0, g.vertices, g.edges) && Lowered(old(g.dist), g.dist)
    ensures g.vertices == old(g.vertices) && g.edges == old(g.edges)
    ensures CoveredExcept(g.vertices, g.edges, g.visited, g.dist, v)
    ensures Covered(g.vertices, g.edges, g.visited, g.dist, v, done + {u})
    ensures PathsKept(g.visited, old(g.path), g.path) && DistKept(g.visited, old(g.dist), g.dist)
  {
    LowerKey(g, q, v, u, e);
    VisitStep(vs0, es0, g.vertices, g.edges, g.visited, old(g.dist), g.dist, v, u, done);
  }

  /**
   * Prim's inner loop for the vertex v just taken into the tree: every other
   * vertex u gets an edge from v (existing or added) and, if it is outside
   * the tree, a key no greater than that edge's weight.  Aborts when an edge
   * is missing and v has no coordinates.
   */
  method Visit(g: Graph, q: MinHeap, v: int, haversine: Haversine) returns (ok: bool)
    requires g.Valid() && HeapMatches(g, q) && Tree(g) && v in g.vertices && g.visited[v]
    requires CoveredExcept(g.vertices, g.edges, g.visited, g.dist, v)
    modifies g, q
    ensures g.Valid() && HeapMatches(g, q) && Tree(g)
    ensures g.visited == old(g.visited)
    ensures Extends(old(g.vertices), old(g.edges), g.vertices, g.edges)
    ensures Lowered(old(g.dist), g.dist)
    ensures ok ==> AllCovered(g.vertices, g.edges, g.visited, g.dist)
    ensures PathsKept(g.visited, old(g.path), g.path) && DistKept(g.visited, old(g.dist), g.dist)
    ensures !ok ==> g.vertices[v].longitude == DoubleMax || g.vertices[v].latitude == DoubleMax
  {
    var todo := g.vertices.Keys;
    ghost var done: set<int> := {};
    while todo != {}
      invariant done + todo == old(g.vertices).Keys
      invariant g.Valid() && HeapMatches(g, q) && Tree(g) && g.visited == old(g.visited)
      invariant Extends(old(g.vertices), old(g.edges), g.vertices, g.edges)
      invariant Lowered(old(g.dist), g.dist)
      invariant CoveredExcept(g.vertices, g.edges, g.visited, g.dist, v)
      invariant Covered(g.vertices, g.edges, g.visited, g.dist, v, done)
      invariant PathsKept(g.visited, old(g.path), g.path) && DistKept(g.visited, old(g.dist), g.dist)
      decreases |todo|
    {
      var u := Choose(todo);
      MoveOne(done, todo, old(g.vertices).Keys, u);
      todo := todo - {u};
      if u == v {
        done := done + {u};
        continue;
      }
      ghost var vs0, es0, dist0, path0 := g.vertices, g.edges, g.dist, g.path;
      ok := Relax(g, q, v, u, haversine, done);
      ExtendsTrans(old(g.vertices), old(g.edges), vs0, es0, g.vertices, g.edges);
      LoweredTrans(old(g.dist), dist0, g.dist);
      PathsKeptTrans(g.visited, old(g.path), path0, g.path);
      DistKeptTrans(g.visited, old(g.dist), dist0, g.dist);
      if !ok {
        return;
      }
      done := done + {u};
    }
    ok := true;
  }

  /** Vertices outside the tree. */
  ghost function Unvisited(g: Graph): set<int>
    reads g
  {
    Outside(g.vertices, g.visited)
  }

  /** The vertices of vs that are not marked visited. */
  ghost function Outside(vs: map<int, Vertex>, visited: map<int, bool>): set<int>
  {
    set x | x in vs && x in visited && !visited[x]
  }

  /** Marking an unvisited vertex removes exactly it from the vertices outside the tree. */
  lemma OutsideVisit(vs: map<int, Vertex>, visited: map<int, bool>, vs': map<int, Vertex>, v: int)
    requires v in vs && v in visited && !visited[v] && vs'.Keys == vs.Keys
    ensures Outside(vs', visited[v := true]) == Outside(vs, visited) - {v}
    ensures |Outside(vs', visited[v := true])| < |Outside(vs, visited)|
  {
    assert v in Outside(vs, visited);
  }

  /**
   * Tree vertex x other than 0 is entered by its path edge from a tree
   * vertex of smaller rank.
   */
  ghost predicate ParentEdge(vs: map<int, Vertex>, es: seq<Edge>, visited: map<int, bool>, path: map<int, Option<nat>>,
                             rank: map<int, nat>, x: int)
  {
    && x in path && path[x].Some? && path[x].value < |es| && es[path[x].value].dest == x
    && var p := es[path[x].value].orig;
       p in vs && p in visited && visited[p] && p in rank && x in rank && rank[p] < rank[x]
  }

  /**
   * The path edges form a tree rooted at 0: every tree vertex has a rank
   * (the order in which it entered the tree), and every tree vertex but 0
   * has a path edge from a tree vertex that entered before it.
   */
  ghost predicate ParentRanked(vs: map<int, Vertex>, es: seq<Edge>, visited: map<int, bool>, path: map<int, Option<nat>>,
                               rank: map<int, nat>)
  {
    forall x :: x in vs && x in visited && visited[x] ==>
      x in rank && (x != 0 ==> ParentEdge(vs, es, visited, path, rank, x))
  }

  /** ParentRanked, with every rank handed out so far below next. */
  ghost predicate Ranked(vs: map<int, Vertex>, es: seq<Edge>, visited: map<int, bool>, path: map<int, Option<nat>>,
                         rank: map<int, nat>, next: nat)
  {
    ParentRanked(vs, es, visited, path, rank) && forall x :: x in rank ==> rank[x] < next
  }

  /** The path of every tree vertex is left as it was. */
  ghost predicate PathsKept(visited: map<int, bool>, path: map<int, Option<nat>>, path': map<int, Option<nat>>)
  {
    forall x :: x in visited && visited[x] ==> x in path && x in path' && path'[x] == path[x]
  }

  lemma PathsKeptTrans(visited: map<int, bool>, p1: map<int, Option<nat>>, p2: map<int, Option<nat>>, p3: map<int, Option<nat>>)
    requires PathsKept(visited, p1, p2) && PathsKept(visited, p2, p3)
    ensures PathsKept(visited, p1, p3)
  {
  }

  /** The key of every tree vertex is left as it was. */
  ghost predicate DistKept(visited: map<int, bool>, dist: map<int, real>, dist': map<int, real>)
  {
    forall x :: x in visited && visited[x] ==> x in dist && x in dist' && dist'[x] == dist[x]
  }

  /** Changing the key and path of a vertex outside the tree keeps those of every tree vertex. */
  lemma KeptOutside(visited: map<int, bool>, dist: map<int, real>, path: map<int, Option<nat>>, u: int, w: real, e: nat)
    requires u in visited && !visited[u] && visited.Keys <= dist.Keys && visited.Keys <= path.Keys
    ensures DistKept(visited, dist, dist[u := w]) && PathsKept(visited, path, path[u := Some(e)])
  {
  }

  lemma DistKeptTrans(visited: map<int, bool>, d1: map<int, real>, d2: map<int, real>, d3: map<int, real>)
    requires DistKept(visited, d1, d2) && DistKept(visited, d2, d3)
    ensures DistKept(visited, d1, d3)
  {
  }

  /**
   * Following path edges backwards from tree vertex x: the vertices met,
   * x first and 0 last, each (but 0) entered by its path edge from the next,
   * with strictly falling ranks, so no vertex repeats.
   */
  ghost function RootPath(vs: map<int, Vertex>, es: seq<Edge>, visited: map<int, bool>, path: map<int, Option<nat>>,
                          rank: map<int, nat>, x: int): (r: seq<int>)
    requires ParentRanked(vs, es, visited, path, rank) && x in vs && x in visited && visited[x]
    ensures |r| >= 1 && r[0] == x && r[|r| - 1] == 0
    ensures forall i :: 0 <= i < |r| ==> r[i] in vs && r[i] in visited && visited[r[i]] && r[i] in rank
    ensures forall i :: 0 <= i < |r| - 1 ==>
      r[i] != 0 && ParentEdge(vs, es, visited, path, rank, r[i]) && es[path[r[i]].value].orig == r[i + 1]
    ensures forall i, j :: 0 <= i < j < |r| ==> rank[r[j]] < rank[r[i]]
    decreases rank[x]
  {
    if x == 0 then [0]
    else
      var p := es[path[x].value].orig;
      [x] + RootPath(vs, es, visited, path, rank, p)
  }

  /**
   * Taking v, which has a finite key, into the tree with the next rank keeps
   * the ranking: v's path edge comes from a vertex already in the tree.
   */
  lemma RankedEnter(vs: map<int, Vertex>, es: seq<Edge>, visited: map<int, bool>, dist: map<int, real>,
                    path: map<int, Option<nat>>, rank: map<int, nat>, next: nat, v: int)
    requires visited.Keys == vs.Keys && dist.Keys == vs.Keys && path.Keys == vs.Keys
    requires TreeInv(vs, es, visited, dist, path) && Ranked(vs, es, visited, path, rank, next)
    requires v in vs && !visited[v] && dist[v] != DoubleMax
    ensures Ranked(vs, es, visited[v := true], path, rank[v := next], next + 1)
  {
    var visited', rank' := visited[v := true], rank[v := next];
    forall x | x in vs && x in visited' && visited'[x]
      ensures x in rank' && (x != 0 ==> ParentEdge(vs, es, visited', path, rank', x))
    {
      if x != 0 {
        if x == v {
          assert TreeEdge(es, visited, path[v].value, v, dist[v]);
        } else {
          assert ParentEdge(vs, es, visited, path, rank, x);
        }
      }
    }
  }

  /** Growing the graph while tree vertices keep their paths keeps the ranking. */
  lemma RankedKeep(vs: map<int, Vertex>, es: seq<Edge>, visited: map<int, bool>, path: map<int, Option<nat>>,
                   vs': map<int, Vertex>, es': seq<Edge>, path': map<int, Option<nat>>, rank: map<int, nat>, next: nat)
    requires Ranked(vs, es, visited, path, rank, next) && Extends(vs, es, vs', es') && PathsKept(visited, path, path')
    ensures Ranked(vs', es', visited, path', rank, next)
  {
    forall x | x in vs' && x in visited && visited[x] && x != 0
      ensures ParentEdge(vs', es', visited, path', rank, x)
    {
      assert ParentEdge(vs, es, visited, path, rank, x);
      assert es'[path[x].value] == es'[..|es|][path[x].value];
    }
  }

  /**
   * The start of prim on a graph with vertex 0: the reset, then vertex 0
   * with key 0 as the only element of a new queue.
   */
  method Start(g: Graph) returns (q: MinHeap)
    requires g.Valid() && 0 in g.vertices
    modifies g
    ensures fresh(q)
    ensures g.Valid() && HeapMatches(g, q) && Tree(g) && AllCovered(g.vertices, g.edges, g.visited, g.dist)
    ensures g.vertices == old(g.vertices) && g.edges == old(g.edges)
    ensures g.dist[0] == 0.0 && forall x :: x in g.vertices && x != 0 ==> g.dist[x] == DoubleMax
    ensures forall x :: x in g.vertices ==> g.path[x] == None && !g.visited[x]
    ensures q.Elements() == multiset{0}
  {
    ResetRunFields(g);
    g.dist := g.dist[0 := 0.0];
    q := new MinHeap();
    assert Frontier(g.vertices, g.visited, g.dist) == {0} by {
      assert forall x :: x in Frontier(g.vertices, g.visited, g.dist) <==> x == 0;
    }
    q.Insert(0, g.dist);
  }

  /** Prim's extraction: the vertex of least key leaves the queue and enters the tree. */
  method Enter(g: Graph, q: MinHeap) returns (v: int)
    requires g.Valid() && HeapMatches(g, q) && Tree(g) && AllCovered(g.vertices, g.edges, g.visited, g.dist)
    requires q.Elements() != multiset{}
    modifies g, q
    ensures g.Valid() && HeapMatches(g, q) && Tree(g)
    ensures v in g.vertices && g.visited[v] && v in old(Unvisited(g)) && v in old(q.Elements())
    ensures forall y :: y in old(q.Elements()) ==> y in g.dist && g.dist[v] <= g.dist[y]
    ensures CoveredExcept(g.vertices, g.edges, g.visited, g.dist, v)
    ensures g.vertices == old(g.vertices) && g.edges == old(g.edges) && g.dist == old(g.dist) && g.path == old(g.path)
    ensures g.visited == old(g.visited)[v := true]
  {
    v := q.ExtractMin(g.dist);
    assert v in Frontier(g.vertices, g.visited, g.dist);
    FrontierVisit(g.vertices, g.visited, g.dist, v);
    TreeVisit(g.vertices, g.edges, g.visited, g.dist, g.path, v);
    ghost var visited0 := g.visited;
    g.visited := g.visited[v := true];
    CoveredExceptMono(g.vertices, g.edges, visited0, g.dist, g.vertices, g.edges, g.visited, g.dist, v);
    assert Extends(g.vertices, g.edges, g.vertices, g.edges) by {
      assert g.edges[..|g.edges|] == g.edges;
    }
  }

  /**
   * One pass of prim's outer loop: extract the vertex of least key, take it
   * into the tree and run the inner loop for it.
   */
  method Grow(g: Graph, q: MinHeap, haversine: Haversine, ghost rank: map<int, nat>, ghost next: nat)
    returns (ok: bool, ghost rank': map<int, nat>)
    requires g.Valid() && HeapMatches(g, q) && Tree(g) && AllCovered(g.vertices, g.edges, g.visited, g.dist)
    requires Ranked(g.vertices, g.edges, g.visited, g.path, rank, next)
    requires q.Elements() != multiset{}
    modifies g, q
    ensures g.Valid() && HeapMatches(g, q) && Tree(g)
    ensures ok ==> AllCovered(g.vertices, g.edges, g.visited, g.dist)
    ensures Ranked(g.vertices, g.edges, g.visited, g.path, rank', next + 1)
    ensures Extends(old(g.vertices), old(g.edges), g.vertices, g.edges)
    ensures |Unvisited(g)| < old(|Unvisited(g)|)
    ensures (0 in old(g.vertices) && old(g.dist)[0] == 0.0 && old(g.path)[0] == None
             && (old(g.visited)[0] || old(q.Elements()) == multiset{0}))
            ==> 0 in g.vertices && g.visited[0] && g.dist[0] == 0.0 && g.path[0] == None
    ensures !ok ==> exists v :: v in g.vertices && (g.vertices[v].longitude == DoubleMax || g.vertices[v].latitude == DoubleMax)
  {
    ghost var vs0, es0, visited0, dist0, path0 := g.vertices, g.edges, g.visited, g.dist, g.path;
    assert TreeInv(vs0, es0, visited0, dist0, path0);
    var v := Enter(g, q);
    assert g.dist[v] != DoubleMax;
    RankedEnter(vs0, es0, visited0, dist0, path0, rank, next, v);
    rank' := rank[v := next];
    ghost var vs1, es1, path1 := g.vertices, g.edges, g.path;
    ok := Visit(g, q, v, haversine);
    RankedKeep(vs1, es1, g.visited, path1, g.vertices, g.edges, g.path, rank', next + 1);
    OutsideVisit(vs0, visited0, g.vertices, v);
  }

  /** What the invariants say once the frontier is empty. */
  lemma Finished(vs: map<int, Vertex>, es: seq<Edge>, visited: map<int, bool>, dist: map<int, real>, path: map<int, Option<nat>>)
    requires visited.Keys == vs.Keys && dist.Keys == vs.Keys && path.Keys == vs.Keys
    requires TreeInv(vs, es, visited, dist, path) && AllCovered(vs, es, visited, dist)
    requires Frontier(vs, visited, dist) == {}
    ensures forall v, u :: v in vs && visited[v] && u in vs && u != v ==> u in vs[v].adj
    ensures 0 in vs ==> visited[0]
    ensures forall x :: x in vs && visited[x] && x != 0 ==> path[x].Some? && TreeEdge(es, visited, path[x].value, x, dist[x])
    ensures forall x :: x in vs && !visited[x] ==> dist[x] == DoubleMax && path[x] == None
    ensures forall v, u :: v in vs && visited[v] && u in vs && !visited[u] ==>
      vs[v].adj[u] < |es| && DoubleMax <= es[vs[v].adj[u]].weight
  {
    forall x | x in vs && !visited[x]
      ensures dist[x] == DoubleMax && path[x] == None
    {
      assert x !in Frontier(vs, visited, dist);
    }
    forall v, u | v in vs && visited[v] && u in vs && u != v
      ensures u in vs[v].adj && vs[v].adj[u] < |es| && (!visited[u] ==> DoubleMax <= es[vs[v].adj[u]].weight)
    {
      assert Covered(vs, es, visited, dist, v, vs.Keys);
      assert !visited[u] ==> u !in Frontier(vs, visited, dist);
    }
    if 0 in vs {
      assert 0 !in Frontier(vs, visited, dist);
    }
  }

  /**
   * `Graph::prim`.  On an empty graph nothing happens.  Otherwise, when it
   * does not abort, every tree vertex has an edge to every other vertex;
   * vertex 0 is in the tree with key 0 and no path edge, the root; every other tree vertex has a path edge from
   * the tree weighing its key; the path edges form a tree rooted at 0 (they
   * are ranked by entry order, so RootPath leads from any tree vertex to 0);
   * and every vertex left outside the tree has
   * the maximum key, no path, and at least the maximum weight on every edge
   * from the tree.  It aborts only when some vertex has no coordinates.  It
   * only ever adds edges and adjacency entries.
   */
  method Prim(g: Graph, haversine: Haversine) returns (ok: bool)
    requires g.Valid() && (g.vertices == map[] || 0 in g.vertices)
    modifies g
    ensures g.Valid()
    ensures Extends(old(g.vertices), old(g.edges), g.vertices, g.edges)
    ensures old(g.vertices) == map[] ==>
      ok && g.vertices == old(g.vertices) && g.edges == old(g.edges) && g.visited == old(g.visited)
      && g.dist == old(g.dist) && g.path == old(g.path)
    ensures ok ==> forall v, u :: v in g.vertices && g.visited[v] && u in g.vertices && u != v ==> u in g.vertices[v].adj
    ensures ok && 0 in g.vertices ==> g.visited[0] && g.dist[0] == 0.0 && g.path[0] == None
    ensures ok ==> forall x :: x in g.vertices && g.visited[x] && x != 0 ==>
      g.path[x].Some? && TreeEdge(g.edges, g.visited, g.path[x].value, x, g.dist[x])
    ensures ok ==> forall x :: x in g.vertices && !g.visited[x] ==> g.dist[x] == DoubleMax && g.path[x] == None
    ensures ok ==> forall v, u :: v in g.vertices && g.visited[v] && u in g.vertices && !g.visited[u] ==>
      u in g.vertices[v].adj && g.vertices[v].adj[u] < |g.edges| && DoubleMax <= g.edges[g.vertices[v].adj[u]].weight
    ensures ok ==> exists rank :: ParentRanked(g.vertices, g.edges, g.visited, g.path, rank)
    ensures !ok ==> exists v :: v in g.vertices && (g.vertices[v].longitude == DoubleMax || g.vertices[v].latitude == DoubleMax)
  {
    if g.vertices == map[] {
      assert ParentRanked(g.vertices, g.edges, g.visited, g.path, map[]);
      return true;
    }
    var q := Start(g);
    assert Extends(old(g.vertices), old(g.edges), g.vertices, g.edges) by {
      assert g.edges[..|g.edges|] == g.edges;
    }
    ghost var rank: map<int, nat> := map[];
    ghost var next: nat := 0;
    while !q.IsEmpty()
      invariant fresh(q)
      invariant g.Valid() && HeapMatches(g, q) && Tree(g)
      invariant AllCovered(g.vertices, g.edges, g.visited, g.dist)
      invariant Extends(old(g.vertices), old(g.edges), g.vertices, g.edges)
      invariant Ranked(g.vertices, g.edges, g.visited, g.path, rank, next)
      invariant 0 in g.vertices && g.dist[0] == 0.0 && g.path[0] == None && (g.visited[0] || q.Elements() == multiset{0})
      decreases |Unvisited(g)|
    {
      ghost var vs0, es0 := g.vertices, g.edges;
      ok, rank := Grow(g, q, haversine, rank, next);
      next := next + 1;
      ExtendsTrans(old(g.vertices), old(g.edges), vs0, es0, g.vertices, g.edges);
      if !ok {
        return;
      }
    }
    Finished(g.vertices, g.edges, g.visited, g.dist, g.path);
    assert ParentRanked(g.vertices, g.edges, g.visited, g.path, rank);
    ok := true;
  }
}
