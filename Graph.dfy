/**
 * The graph the TSP routines work on.
 *
 * Vertices are keyed by their int id.  Each vertex maps a destination id to
 * the edge that leads there; edges live in one edge table and are named by
 * their position in it, so an edge's `reverse` link is the index of its twin.
 * The per-run fields of a vertex (`visited`, `dist`, `path`) are kept in side
 * tables of the graph keyed by vertex id.
 */
module Graph {

  datatype Option<T> = None | Some(value: T)

  /** `numeric_limits<double>::max()`, the "no distance yet" and "no coordinate" marker. */
  const DoubleMax: real := 1.7976931348623157e308

  /**
   * A vertex: its id, its coordinates, its outgoing edges by destination id
   * and the edges that point at it.  A vertex made without coordinates has
   * longitude and latitude 0.0: the fields are value-initialised.
   */
  datatype Vertex = Vertex(id: int, longitude: real, latitude: real, adj: map<int, nat>, incoming: seq<nat>)

  /** A directed edge, its weight, the index of its twin (if linked) and its flow. */
  datatype Edge = Edge(orig: int, dest: int, weight: real, reverse: Option<nat>, flow: real)

  /** Some element of a non-empty set: the next entry an unordered iteration visits. */
  method Choose(s: set<int>) returns (x: int)
    requires s != {}
    ensures x in s
  {
    NoElementEmpty(s);
    x :| x in s;
  }

  /** A set without elements is the empty set. */
  lemma NoElementEmpty(s: set<int>)
    ensures (forall x :: x !in s) ==> s == {}
  {
    if forall x :: x !in s {
      assert forall x :: x in s <==> x in {};
    }
  }

  /** A vertex as its constructor leaves it: no edges in or out. */
  function NewVertex(id: int, longitude: real, latitude: real): Vertex
  {
    Vertex(id, longitude, latitude, map[], [])
  }

  /** Edge e of the table runs from a to b. */
  ghost predicate EdgeFromTo(es: seq<Edge>, e: nat, a: int, b: int)
  {
    e < |es| && es[e].orig == a && es[e].dest == b
  }

  /** Every vertex is stored under its own id. */
  ghost predicate IdsMatch(vs: map<int, Vertex>)
  {
    forall id :: id in vs ==> vs[id].id == id
  }

  /** Every adjacency entry d of a vertex names an edge from that vertex to d. */
  ghost predicate AdjSound(vs: map<int, Vertex>, es: seq<Edge>)
  {
    forall id, d {:trigger vs[id].adj[d]} :: id in vs && d in vs[id].adj ==> d in vs && EdgeFromTo(es, vs[id].adj[d], id, d)
  }

  /** Every incoming entry of a vertex names an edge into that vertex. */
  ghost predicate IncomingSound(vs: map<int, Vertex>, es: seq<Edge>)
  {
    forall id, k :: id in vs && 0 <= k < |vs[id].incoming| ==>
      vs[id].incoming[k] < |es| && es[vs[id].incoming[k]].dest == id
  }

  /** Every edge joins two vertices of the graph. */
  ghost predicate EdgesInGraph(vs: map<int, Vertex>, es: seq<Edge>)
  {
    forall i :: 0 <= i < |es| ==> es[i].orig in vs && es[i].dest in vs
  }

  /** Every reverse link names an edge that runs the other way. */
  ghost predicate ReversesSound(es: seq<Edge>)
  {
    forall i :: 0 <= i < |es| && es[i].reverse.Some? ==> EdgeFromTo(es, es[i].reverse.value, es[i].dest, es[i].orig)
  }

  /** The structural invariant of the graph. */
  ghost predicate WellFormed(vs: map<int, Vertex>, es: seq<Edge>)
  {
    IdsMatch(vs) && AdjSound(vs, es) && IncomingSound(vs, es) && EdgesInGraph(vs, es) && ReversesSound(es)
  }

  /** `Vertex::findEdge`: the edge from v to destId, if v has one. */
  function FindEdge(v: Vertex, destId: int): (r: Option<nat>)
    ensures r.Some? <==> destId in v.adj
    ensures r.Some? ==> r.value == v.adj[destId]
  {
    if destId in v.adj then Some(v.adj[destId]) else None
  }

  /** In a well-formed graph, the edge FindEdge finds runs from the vertex to the destination. */
  lemma FindEdgeEndpoints(vs: map<int, Vertex>, es: seq<Edge>, id: int, destId: int)
    requires WellFormed(vs, es) && id in vs
    ensures FindEdge(vs[id], destId).Some? ==>
              destId in vs && EdgeFromTo(es, FindEdge(vs[id], destId).value, id, destId)
  {
    if destId in vs[id].adj {
      assert AdjSound(vs, es);
    }
  }

  /**
   * `Vertex::addEdge` on values: a new edge from -> to is appended to the
   * edge table; it becomes from's edge to `to` only if from has none yet, and
   * it is always appended to to's incoming edges.  Nothing else changes.
   */
  function LinkEdge(vs: map<int, Vertex>, es: seq<Edge>, from: int, to: int, w: real, f: real): (r: (map<int, Vertex>, seq<Edge>))
    requires from in vs && to in vs
    ensures r.0.Keys == vs.Keys && r.1 == es + [Edge(from, to, w, None, f)]
    ensures to in r.0[from].adj
    ensures r.0[from].adj == (if to in vs[from].adj then vs[from].adj else vs[from].adj[to := |es|])
    ensures r.0[to].incoming == vs[to].incoming + [|es|]
    ensures forall id :: id in vs && id != from ==> r.0[id].adj == vs[id].adj
    ensures forall id :: id in vs && id != to ==> r.0[id].incoming == vs[id].incoming
    ensures forall id :: id in vs ==>
              r.0[id].id == vs[id].id && r.0[id].longitude == vs[id].longitude && r.0[id].latitude == vs[id].latitude
  {
    var e := |es|;
    var v := vs[from];
    var vs1 := if to in v.adj then vs else vs[from := v.(adj := v.adj[to := e])];
    var d := vs1[to];
    (vs1[to := d.(incoming := d.incoming + [e])], es + [Edge(from, to, w, None, f)])
  }

  /** Appending to the edge table keeps every old edge where it was. */
  lemma ExtendEdges(es: seq<Edge>, es': seq<Edge>, e: nat, a: int, b: int)
    requires |es| <= |es'| && es'[..|es|] == es && EdgeFromTo(es, e, a, b)
    ensures EdgeFromTo(es', e, a, b)
  {
    assert es'[e] == es'[..|es|][e];
  }

  /** LinkEdge keeps the graph well formed. */
  lemma LinkEdgeWellFormed(vs: map<int, Vertex>, es: seq<Edge>, from: int, to: int, w: real, f: real)
    requires WellFormed(vs, es) && from in vs && to in vs
    ensures WellFormed(LinkEdge(vs, es, from, to, w, f).0, LinkEdge(vs, es, from, to, w, f).1)
  {
    var r := LinkEdge(vs, es, from, to, w, f);
    var vs', es' := r.0, r.1;
    assert es'[..|es|] == es;
    forall id, d | id in vs' && d in vs'[id].adj
      ensures d in vs' && EdgeFromTo(es', vs'[id].adj[d], id, d)
    {
      if id == from && d == to && to !in vs[from].adj {
      } else {
        assert id in vs && d in vs[id].adj && vs'[id].adj[d] == vs[id].adj[d];
        assert AdjSound(vs, es);
        assert EdgeFromTo(es, vs[id].adj[d], id, d);
        ExtendEdges(es, es', vs[id].adj[d], id, d);
      }
    }
    assert AdjSound(vs', es');
    forall id, k | id in vs' && 0 <= k < |vs'[id].incoming|
      ensures vs'[id].incoming[k] < |es'| && es'[vs'[id].incoming[k]].dest == id
    {
      if id == to && k == |vs[to].incoming| {
      } else {
        assert vs'[id].incoming[k] == vs[id].incoming[k];
      }
    }
    assert IncomingSound(vs', es');
    forall i | 0 <= i < |es'| && es'[i].reverse.Some?
      ensures EdgeFromTo(es', es'[i].reverse.value, es'[i].dest, es'[i].orig)
    {
      ExtendEdges(es, es', es[i].reverse.value, es[i].dest, es[i].orig);
    }
  }

  /** A new vertex without edges keeps the graph well formed. */
  lemma NewVertexWellFormed(vs: map<int, Vertex>, es: seq<Edge>, id: int, longitude: real, latitude: real)
    requires WellFormed(vs, es) && id !in vs
    ensures WellFormed(vs[id := NewVertex(id, longitude, latitude)], es)
  {
    var vs' := vs[id := NewVertex(id, longitude, latitude)];
    forall x, d | x in vs' && d in vs'[x].adj
      ensures d in vs' && EdgeFromTo(es, vs'[x].adj[d], x, d)
    {
      assert AdjSound(vs, es);
    }
    forall x, k | x in vs' && 0 <= k < |vs'[x].incoming|
      ensures vs'[x].incoming[k] < |es| && es[vs'[x].incoming[k]].dest == x
    {
      assert IncomingSound(vs, es);
    }
  }

  /** Sets the reverse link of edge i to r. */
  function SetReverse(es: seq<Edge>, i: nat, r: nat): (es': seq<Edge>)
    requires i < |es|
    ensures |es'| == |es| && es'[i].reverse == Some(r)
    ensures forall k :: 0 <= k < |es| ==> es'[k].orig == es[k].orig && es'[k].dest == es[k].dest && es'[k].weight == es[k].weight
    ensures forall k :: 0 <= k < |es| && k != i ==> es'[k] == es[k]
  {
    es[i := es[i].(reverse := Some(r))]
  }

  /** Linking two opposite edges to each other keeps the graph well formed. */
  lemma LinkTwinsWellFormed(vs: map<int, Vertex>, es: seq<Edge>, a: nat, b: nat)
    requires WellFormed(vs, es) && a < |es| && b < |es|
    requires es[a].orig == es[b].dest && es[a].dest == es[b].orig
    ensures WellFormed(vs, SetReverse(SetReverse(es, a, b), b, a))
  {
    var es' := SetReverse(SetReverse(es, a, b), b, a);
    forall id, d | id in vs && d in vs[id].adj
      ensures d in vs && EdgeFromTo(es', vs[id].adj[d], id, d)
    {
      assert AdjSound(vs, es);
    }
    forall i | 0 <= i < |es'| && es'[i].reverse.Some?
      ensures EdgeFromTo(es', es'[i].reverse.value, es'[i].dest, es'[i].orig)
    {
      if i != a && i != b {
        assert ReversesSound(es);
      }
    }
  }

  /**
   * `Graph::addEdge` on values, once both endpoints are known to exist: link
   * source -> dest, then, if dest already has an edge back to source of the
   * same weight, make the two edges each other's reverse.
   */
  function LinkOneWay(vs: map<int, Vertex>, es: seq<Edge>, source: int, dest: int, w: real, f: real): (r: (map<int, Vertex>, seq<Edge>))
    requires source in vs && dest in vs
  {
    var r1 := LinkEdge(vs, es, source, dest, w, f);
    var e1 := |es|;
    match FindEdge(r1.0[dest], source)
    case None => r1
    case Some(e2) =>
      if e2 < |r1.1| && r1.1[e1].weight == r1.1[e2].weight then (r1.0, SetReverse(SetReverse(r1.1, e1, e2), e2, e1))
      else r1
  }

  /**
   * `Graph::addBidirectionalEdge` on values: link source -> dest and
   * dest -> source with the same weight and make the two new edges each
   * other's reverse.
   */
  function LinkBidirectional(vs: map<int, Vertex>, es: seq<Edge>, source: int, dest: int, w: real, flow: real, reverseFlow: real): (r: (map<int, Vertex>, seq<Edge>))
    requires source in vs && dest in vs
  {
    var r1 := LinkEdge(vs, es, source, dest, w, flow);
    var r2 := LinkEdge(r1.0, r1.1, dest, source, w, reverseFlow);
    var e1 := |es|;
    (r2.0, SetReverse(SetReverse(r2.1, e1, e1 + 1), e1 + 1, e1))
  }

  /**
   * The edge from dest back to source that LinkOneWay pairs with: dest's
   * existing one, or the new edge itself when it is a first self-loop.
   */
  function BackEdge(vs: map<int, Vertex>, es: seq<Edge>, source: int, dest: int): Option<nat>
    requires dest in vs
  {
    if dest == source && source !in vs[source].adj then Some(|es|) else FindEdge(vs[dest], source)
  }

  /**
   * LinkOneWay keeps the graph well formed, adds exactly one edge, of weight
   * w from source to dest, and gives it a reverse link exactly when dest
   * already had an edge back to source of the same weight; then the two are
   * each other's reverse, and no other edge changes.
   */
  lemma LinkOneWayReverse(vs: map<int, Vertex>, es: seq<Edge>, source: int, dest: int, w: real, f: real)
    requires WellFormed(vs, es) && source in vs && dest in vs
    ensures WellFormed(LinkOneWay(vs, es, source, dest, w, f).0, LinkOneWay(vs, es, source, dest, w, f).1)
    ensures var es' := LinkOneWay(vs, es, source, dest, w, f).1;
            var back := BackEdge(vs, es, source, dest);
            && |es'| == |es| + 1
            && es'[|es|].orig == source && es'[|es|].dest == dest && es'[|es|].weight == w
            && (es'[|es|].reverse.Some? <==> back.Some? && (back.value == |es| || es[back.value].weight == w))
            && (es'[|es|].reverse.Some? ==> es'[|es|].reverse == back && es'[back.value].reverse == Some(|es|))
            && (forall i :: 0 <= i < |es| && (back.None? || i != back.value) ==> es'[i] == es[i])
  {
    LinkEdgeWellFormed(vs, es, source, dest, w, f);
    var r1 := LinkEdge(vs, es, source, dest, w, f);
    var back := FindEdge(r1.0[dest], source);
    assert back == BackEdge(vs, es, source, dest);
    if back.Some? {
      FindEdgeEndpoints(r1.0, r1.1, dest, source);
      if back.value < |es| {
        FindEdgeEndpoints(vs, es, dest, source);
        assert r1.1[back.value] == es[back.value];
      }
      if r1.1[|es|].weight == r1.1[back.value].weight {
        LinkTwinsWellFormed(r1.0, r1.1, |es|, back.value);
      }
    }
  }

  /**
   * LinkBidirectional keeps the graph well formed and adds exactly two
   * edges of weight w, source -> dest and dest -> source, each the other's
   * reverse; older edges and adjacency entries are untouched.
   */
  lemma LinkBidirectionalEffect(vs: map<int, Vertex>, es: seq<Edge>, source: int, dest: int, w: real, flow: real, reverseFlow: real)
    requires WellFormed(vs, es) && source in vs && dest in vs
    ensures WellFormed(LinkBidirectional(vs, es, source, dest, w, flow, reverseFlow).0,
                       LinkBidirectional(vs, es, source, dest, w, flow, reverseFlow).1)
    ensures var r := LinkBidirectional(vs, es, source, dest, w, flow, reverseFlow);
            && r.0.Keys == vs.Keys
            && |r.1| == |es| + 2 && r.1[..|es|] == es
            && r.1[|es|] == Edge(source, dest, w, Some(|es| + 1), flow)
            && r.1[|es| + 1] == Edge(dest, source, w, Some(|es|), reverseFlow)
            && dest in r.0[source].adj && source in r.0[dest].adj
            && (forall id, d :: id in vs && d in vs[id].adj ==> d in r.0[id].adj && r.0[id].adj[d] == vs[id].adj[d])
            && (forall id :: id in vs ==>
                  r.0[id].id == vs[id].id && r.0[id].longitude == vs[id].longitude && r.0[id].latitude == vs[id].latitude)
  {
    LinkEdgeWellFormed(vs, es, source, dest, w, flow);
    var r1 := LinkEdge(vs, es, source, dest, w, flow);
    LinkEdgeWellFormed(r1.0, r1.1, dest, source, w, reverseFlow);
    var r2 := LinkEdge(r1.0, r1.1, dest, source, w, reverseFlow);
    LinkTwinsWellFormed(r2.0, r2.1, |es|, |es| + 1);
    var r := LinkBidirectional(vs, es, source, dest, w, flow, reverseFlow);
    assert r.1[..|es|] == es by {
      forall k | 0 <= k < |es| ensures r.1[k] == es[k] {
        assert r2.1[k] == r1.1[k] == es[k];
      }
    }
  }


  /**
   * The graph: its vertex map, the edge table, and the per-run side tables
   * `visited`, `dist` (Prim's key) and `path` (the edge that reached the vertex).
   */
  class Graph {
    var vertices: map<int, Vertex>
    var edges: seq<Edge>
    var visited: map<int, bool>
    var dist: map<int, real>
    var path: map<int, Option<nat>>

    ghost predicate Valid()
      reads this
    {
      && WellFormed(vertices, edges)
      && visited.Keys == vertices.Keys && dist.Keys == vertices.Keys && path.Keys == vertices.Keys
      && (forall id :: id in path && path[id].Some? ==> path[id].value < |edges|)
    }

    constructor ()
      ensures Valid() && vertices == map[] && edges == []
      ensures visited == map[] && dist == map[] && path == map[]
    {
      vertices, edges := map[], [];
      visited, dist, path := map[], map[], map[];
    }

    /** `Graph::findVertex`: the vertex stored under id, or None. */
    function FindVertex(id: int): (r: Option<Vertex>)
      reads this
      requires Valid()
      ensures r.Some? <==> id in vertices
      ensures r.Some? ==> r.value == vertices[id] && r.value.id == id
    {
      if id in vertices then Some(vertices[id]) else None
    }

    /** `Graph::getVertexSet`: a copy of the vertex map; the graph is left as it is. */
    function GetVertexSet(): (r: map<int, Vertex>)
      reads this
      requires Valid()
      ensures forall id :: id in r ==> r[id].id == id && FindVertex(id) == Some(r[id])
      ensures forall id :: FindVertex(id).Some? ==> id in r
    {
      vertices
    }

    /** Adds a new vertex under id with the given coordinates, its run fields at their defaults. */
    method Insert(id: int, longitude: real, latitude: real)
      requires Valid() && id !in vertices
      modifies this
      ensures Valid()
      ensures vertices == old(vertices)[id := NewVertex(id, longitude, latitude)] && edges == old(edges)
      ensures visited == old(visited)[id := false] && dist == old(dist)[id := 0.0] && path == old(path)[id := None]
    {
      NewVertexWellFormed(vertices, edges, id, longitude, latitude);
      vertices := vertices[id := NewVertex(id, longitude, latitude)];
      visited := visited[id := false];
      dist := dist[id := 0.0];
      path := path[id := None];
    }

    /** `Graph::addVertex(id)`: true and a new coordinate-less vertex exactly when id was free. */
    method AddVertex(id: int) returns (added: bool)
      requires Valid()
      modifies this
      ensures Valid()
      ensures added <==> id !in old(vertices)
      ensures added ==> vertices == old(vertices)[id := NewVertex(id, 0.0, 0.0)]
      ensures added ==> visited == old(visited)[id := false] && dist == old(dist)[id := 0.0] && path == old(path)[id := None]
      ensures !added ==> vertices == old(vertices) && visited == old(visited) && dist == old(dist) && path == old(path)
      ensures edges == old(edges)
    {
      if FindVertex(id).None? {
        Insert(id, 0.0, 0.0);
        return true;
      }
      return false;
    }

    /** `Graph::addVertex(id, longitude, latitude)`: as AddVertex, with coordinates. */
    method AddVertexAt(id: int, longitude: real, latitude: real) returns (added: bool)
      requires Valid()
      modifies this
      ensures Valid()
      ensures added <==> id !in old(vertices)
      ensures added ==> vertices == old(vertices)[id := NewVertex(id, longitude, latitude)]
      ensures added ==> visited == old(visited)[id := false] && dist == old(dist)[id := 0.0] && path == old(path)[id := None]
      ensures !added ==> vertices == old(vertices) && visited == old(visited) && dist == old(dist) && path == old(path)
      ensures edges == old(edges)
    {
      if FindVertex(id).None? {
        Insert(id, longitude, latitude);
        return true;
      }
      return false;
    }

    /** `Vertex::addEdge` called on vertex `from`: returns the new edge's index. */
    method VertexAddEdge(from: int, to: int, w: real, f: real) returns (e: nat)
      requires Valid() && from in vertices && to in vertices
      modifies this
      ensures Valid()
      ensures (vertices, edges) == LinkEdge(old(vertices), old(edges), from, to, w, f)
      ensures e == old(|edges|) && visited == old(visited) && dist == old(dist) && path == old(path)
    {
      LinkEdgeWellFormed(vertices, edges, from, to, w, f);
      e := |edges|;
      edges := edges + [Edge(from, to, w, None, f)];
      var v := vertices[from];
      if to !in v.adj {
        vertices := vertices[from := v.(adj := v.adj[to := e])];
      }
      var d := vertices[to];
      vertices := vertices[to := d.(incoming := d.incoming + [e])];
    }

    /** Sets edge i's reverse link to r. */
    method SetEdgeReverse(i: nat, r: nat)
      requires i < |edges|
      modifies this
      ensures edges == SetReverse(old(edges), i, r)
      ensures vertices == old(vertices) && visited == old(visited) && dist == old(dist) && path == old(path)
    {
      edges := edges[i := edges[i].(reverse := Some(r))];
    }

    /**
     * `Graph::addEdge`: false and no change if either endpoint is missing;
     * otherwise the edge is added and linked to an equal-weight edge back.
     */
    method AddEdge(source: int, dest: int, w: real, f: real) returns (ok: bool)
      requires Valid()
      modifies this
      ensures Valid()
      ensures ok <==> source in old(vertices) && dest in old(vertices)
      ensures ok ==> (vertices, edges) == LinkOneWay(old(vertices), old(edges), source, dest, w, f)
      ensures !ok ==> vertices == old(vertices) && edges == old(edges)
      ensures visited == old(visited) && dist == old(dist) && path == old(path)
    {
      var originVertex := FindVertex(source);
      var destVertex := FindVertex(dest);
      if originVertex.Some? && destVertex.Some? {
        LinkOneWayReverse(vertices, edges, source, dest, w, f);
        var e1 := VertexAddEdge(source, dest, w, f);
        var e2 := FindEdge(vertices[dest], source);
        if e2.Some? {
          FindEdgeEndpoints(vertices, edges, dest, source);
          if edges[e1].weight == edges[e2.value].weight {
            SetEdgeReverse(e1, e2.value);
            SetEdgeReverse(e2.value, e1);
          }
        }
        return true;
      }
      return false;
    }

    /**
     * `Graph::addBidirectionalEdge`: false and no change if either endpoint is
     * missing; otherwise two edges of weight w, each the other's reverse.
     */
    method AddBidirectionalEdge(source: int, dest: int, w: real, flow: real, reverseFlow: real) returns (ok: bool)
      requires Valid()
      modifies this
      ensures Valid()
      ensures ok <==> source in old(vertices) && dest in old(vertices)
      ensures ok ==> (vertices, edges) == LinkBidirectional(old(vertices), old(edges), source, dest, w, flow, reverseFlow)
      ensures !ok ==> vertices == old(vertices) && edges == old(edges)
      ensures visited == old(visited) && dist == old(dist) && path == old(path)
    {
      var v1 := FindVertex(source);
      var v2 := FindVertex(dest);
      if v1.None? || v2.None? {
        return false;
      }
      LinkBidirectionalEffect(vertices, edges, source, dest, w, flow, reverseFlow);
      var e1 := VertexAddEdge(source, dest, w, flow);
      var e2 := VertexAddEdge(dest, source, w, reverseFlow);
      SetEdgeReverse(e1, e2);
      SetEdgeReverse(e2, e1);
      return true;
    }
  }
}
