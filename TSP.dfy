/**
 * The tour routines of the graph: the exact backtracking search over the
 * explicit edges, and the triangular approximation that sums edge weights
 * along a preorder of prim's tree.
 */
module TSP {
  import opened Graph
  import Prim

  /** p is a walk from cur along explicit edges. */
  ghost predicate IsWalk(vs: map<int, Vertex>, cur: int, p: seq<int>)
    decreases |p|
  {
    |p| == 0 || (cur in vs && p[0] in vs[cur].adj && IsWalk(vs, p[0], p[1..]))
  }

  /** The vertex a walk from cur along p ends at. */
  function Last(cur: int, p: seq<int>): int
  {
    if |p| == 0 then cur else p[|p| - 1]
  }

  /** In a well-formed graph a walk stays among the vertices. */
  lemma {:induction false} WalkInGraph(vs: map<int, Vertex>, es: seq<Edge>, cur: int, p: seq<int>)
    requires WellFormed(vs, es) && cur in vs && IsWalk(vs, cur, p)
    ensures forall i :: 0 <= i < |p| ==> p[i] in vs
    ensures Last(cur, p) in vs
    decreases |p|
  {
    if |p| > 0 {
      FindEdgeEndpoints(vs, es, cur, p[0]);
      WalkInGraph(vs, es, p[0], p[1..]);
      assert forall i :: 1 <= i < |p| ==> p[i] == p[1..][i - 1];
      assert Last(cur, p) == Last(p[0], p[1..]);
    }
  }

  /** The summed weight of the edges of a walk. */
  ghost function WalkCost(vs: map<int, Vertex>, es: seq<Edge>, cur: int, p: seq<int>): real
    requires WellFormed(vs, es) && cur in vs && IsWalk(vs, cur, p)
    decreases |p|
  {
    if |p| == 0 then 0.0
    else
      FindEdgeEndpoints(vs, es, cur, p[0]);
      es[vs[cur].adj[p[0]]].weight + WalkCost(vs, es, p[0], p[1..])
  }

  /**
   * The ways the search from cur can finish: a walk p from cur through
   * distinct unvisited vertices that brings the count to the number of
   * vertices and ends at a vertex with an edge to destId.
   */
  ghost predicate Completes(vs: map<int, Vertex>, es: seq<Edge>, visited: map<int, bool>, cur: int, destId: int, count: int, p: seq<int>)
  {
    && WellFormed(vs, es) && cur in vs && IsWalk(vs, cur, p)
    && (forall i :: 0 <= i < |p| ==> p[i] in visited && !visited[p[i]])
    && (forall i, j :: 0 <= i < j < |p| ==> p[i] != p[j])
    && count + |p| == |vs|
    && Last(cur, p) in vs && destId in vs[Last(cur, p)].adj
  }

  /** The cost of a completion: the cost so far, the walk, and the closing edge. */
  ghost function CompletionCost(vs: map<int, Vertex>, es: seq<Edge>, visited: map<int, bool>, cur: int, destId: int, count: int, cost: real, p: seq<int>): real
    requires Completes(vs, es, visited, cur, destId, count, p)
  {
    FindEdgeEndpoints(vs, es, Last(cur, p), destId);
    cost + WalkCost(vs, es, cur, p) + es[vs[Last(cur, p)].adj[destId]].weight
  }

  /** `std::min`: the second argument only when it is strictly smaller. */
  function Min(a: real, b: real): (m: real)
    ensures m <= a && m <= b && (m == a || m == b)
  {
    if b < a then b else a
  }

  /** With every vertex counted, the only completion is the closing edge itself. */
  lemma CompletesAtEnd(vs: map<int, Vertex>, es: seq<Edge>, visited: map<int, bool>, cur: int, destId: int, count: int, p: seq<int>)
    requires WellFormed(vs, es) && cur in vs && count == |vs|
    ensures Completes(vs, es, visited, cur, destId, count, p) <==> p == [] && destId in vs[cur].adj
  {
  }

  /**
   * A completion that is not empty starts with an unvisited neighbour v of
   * cur and continues as a completion from v with v visited, at the same
   * total cost.
   */
  lemma CompletesFirst(vs: map<int, Vertex>, es: seq<Edge>, visited: map<int, bool>, cur: int, destId: int, count: int, cost: real, p: seq<int>)
    requires Completes(vs, es, visited, cur, destId, count, p) && |p| > 0
    ensures p[0] in vs[cur].adj && p[0] in visited && !visited[p[0]]
    ensures FindEdge(vs[cur], p[0]).Some? && vs[cur].adj[p[0]] < |es|
    ensures Completes(vs, es, visited[p[0] := true], p[0], destId, count + 1, p[1..])
    ensures CompletionCost(vs, es, visited, cur, destId, count, cost, p)
         == CompletionCost(vs, es, visited[p[0] := true], p[0], destId, count + 1, cost + es[vs[cur].adj[p[0]]].weight, p[1..])
  {
    FindEdgeEndpoints(vs, es, cur, p[0]);
    var v := p[0];
    var q := p[1..];
    assert forall i :: 0 <= i < |q| ==> q[i] == p[i + 1];
    assert Last(cur, p) == Last(v, q);
    forall i | 0 <= i < |q| ensures q[i] in visited[v := true] && !visited[v := true][q[i]] {
      assert p[0] != p[i + 1];
    }
  }

  /** Conversely, an unvisited neighbour followed by a completion from it is a completion. */
  lemma CompletesPrepend(vs: map<int, Vertex>, es: seq<Edge>, visited: map<int, bool>, cur: int, destId: int, count: int, cost: real, v: int, q: seq<int>)
    requires WellFormed(vs, es) && cur in vs && v in vs[cur].adj && v in visited && !visited[v]
    requires Completes(vs, es, visited[v := true], v, destId, count + 1, q)
    ensures vs[cur].adj[v] < |es|
    ensures Completes(vs, es, visited, cur, destId, count, [v] + q)
    ensures CompletionCost(vs, es, visited, cur, destId, count, cost, [v] + q)
         == CompletionCost(vs, es, visited[v := true], v, destId, count + 1, cost + es[vs[cur].adj[v]].weight, q)
  {
    FindEdgeEndpoints(vs, es, cur, v);
    var p := [v] + q;
    assert p[0] == v && p[1..] == q;
    assert IsWalk(vs, cur, p);
    assert Last(cur, p) == Last(v, q);
    forall i | 0 <= i < |p| ensures p[i] in visited && !visited[p[i]] {
      if i > 0 {
        assert p[i] == q[i - 1];
      }
    }
    forall i, j | 0 <= i < j < |p| ensures p[i] != p[j] {
      assert p[j] == q[j - 1];
      if i > 0 {
        assert p[i] == q[i - 1];
      }
    }
    assert Completes(vs, es, visited, cur, destId, count, p);
    assert WalkCost(vs, es, cur, p) == es[vs[cur].adj[v]].weight + WalkCost(vs, es, v, q);
  }

  /** The search's own result: the bound so far, lowered to the cheapest completion if that is cheaper. */
  ghost predicate SearchResult(vs: map<int, Vertex>, es: seq<Edge>, visited: map<int, bool>, cur: int, destId: int, count: int, cost: real, res: real, r: real)
  {
    && r <= res
    && (forall p :: Completes(vs, es, visited, cur, destId, count, p) ==>
          r <= CompletionCost(vs, es, visited, cur, destId, count, cost, p))
    && (r == res || Achieved(vs, es, visited, cur, destId, count, cost, r))
  }

  /** Some completion costs exactly r. */
  ghost predicate Achieved(vs: map<int, Vertex>, es: seq<Edge>, visited: map<int, bool>, cur: int, destId: int, count: int, cost: real, r: real)
  {
    exists p :: Completes(vs, es, visited, cur, destId, count, p) && r == CompletionCost(vs, es, visited, cur, destId, count, cost, p)
  }

  /** r bounds every completion whose first step is to a vertex of done. */
  ghost predicate BoundFrom(vs: map<int, Vertex>, es: seq<Edge>, visited: map<int, bool>, cur: int, destId: int, count: int, cost: real, done: set<int>, r: real)
  {
    forall p :: Completes(vs, es, visited, cur, destId, count, p) && |p| > 0 && p[0] in done ==>
      r <= CompletionCost(vs, es, visited, cur, destId, count, cost, p)
  }

  /** The loop's bookkeeping at cur: r is below res and bounds the completions through done. */
  ghost predicate LoopInv(vs: map<int, Vertex>, es: seq<Edge>, visited: map<int, bool>, cur: int, destId: int, count: int, cost: real, res: real, done: set<int>, r: real)
  {
    r <= res && BoundFrom(vs, es, visited, cur, destId, count, cost, done, r)
    && (r == res || Achieved(vs, es, visited, cur, destId, count, cost, r))
  }

  /** A visited neighbour starts no completion, so passing over it keeps the bookkeeping. */
  lemma SkipStep(vs: map<int, Vertex>, es: seq<Edge>, visited: map<int, bool>, cur: int, destId: int, count: int, cost: real, res: real, done: set<int>, d: int, r: real)
    requires d in visited && visited[d]
    requires LoopInv(vs, es, visited, cur, destId, count, cost, res, done, r)
    ensures LoopInv(vs, es, visited, cur, destId, count, cost, res, done + {d}, r)
  {
    forall p | Completes(vs, es, visited, cur, destId, count, p) && |p| > 0 && p[0] in done + {d}
      ensures r <= CompletionCost(vs, es, visited, cur, destId, count, cost, p)
    {
      CompletesFirst(vs, es, visited, cur, destId, count, cost, p);
    }
  }

  /**
   * Searching on from the unvisited neighbour d with the edge's weight
   * added, and taking that search's result, keeps the bookkeeping.
   */
  lemma ExploreStep(vs: map<int, Vertex>, es: seq<Edge>, visited: map<int, bool>, cur: int, destId: int, count: int, cost: real, res: real, done: set<int>, d: int, r: real, rv: real)
    requires WellFormed(vs, es) && cur in vs && d in vs[cur].adj && d in visited && !visited[d]
    requires LoopInv(vs, es, visited, cur, destId, count, cost, res, done, r)
    requires vs[cur].adj[d] < |es|
    requires SearchResult(vs, es, visited[d := true], d, destId, count + 1, cost + es[vs[cur].adj[d]].weight, r, rv)
    ensures rv <= r
    ensures LoopInv(vs, es, visited, cur, destId, count, cost, res, done + {d}, rv)
  {
    forall p | Completes(vs, es, visited, cur, destId, count, p) && |p| > 0 && p[0] in done + {d}
      ensures rv <= CompletionCost(vs, es, visited, cur, destId, count, cost, p)
    {
      CompletesFirst(vs, es, visited, cur, destId, count, cost, p);
    }
    if rv != r {
      var w := es[vs[cur].adj[d]].weight;
      var q :| Completes(vs, es, visited[d := true], d, destId, count + 1, q) &&
               rv == CompletionCost(vs, es, visited[d := true], d, destId, count + 1, cost + w, q);
      CompletesPrepend(vs, es, visited, cur, destId, count, cost, d, q);
    }
  }

  /** Once every neighbour is done, the bookkeeping is the search's result. */
  lemma LoopDone(vs: map<int, Vertex>, es: seq<Edge>, visited: map<int, bool>, cur: int, destId: int, count: int, cost: real, res: real, r: real)
    requires WellFormed(vs, es) && cur in vs && count != |vs|
    requires LoopInv(vs, es, visited, cur, destId, count, cost, res, vs[cur].adj.Keys, r)
    ensures SearchResult(vs, es, visited, cur, destId, count, cost, res, r)
  {
    forall p | Completes(vs, es, visited, cur, destId, count, p)
      ensures r <= CompletionCost(vs, es, visited, cur, destId, count, cost, p)
    {
      CompletesFirst(vs, es, visited, cur, destId, count, cost, p);
    }
  }

  /** With every vertex counted the search's result is the closing edge's cost, if cheaper. */
  lemma AtEndResult(vs: map<int, Vertex>, es: seq<Edge>, visited: map<int, bool>, cur: int, destId: int, count: int, cost: real, res: real)
    requires WellFormed(vs, es) && cur in vs && count == |vs|
    ensures FindEdge(vs[cur], destId).Some? ==>
      vs[cur].adj[destId] < |es| && SearchResult(vs, es, visited, cur, destId, count, cost, res, Min(res, cost + es[vs[cur].adj[destId]].weight))
    ensures FindEdge(vs[cur], destId).None? ==> SearchResult(vs, es, visited, cur, destId, count, cost, res, res)
  {
    FindEdgeEndpoints(vs, es, cur, destId);
    forall p ensures Completes(vs, es, visited, cur, destId, count, p) <==> p == [] && destId in vs[cur].adj {
      CompletesAtEnd(vs, es, visited, cur, destId, count, p);
    }
    if destId in vs[cur].adj {
      assert CompletionCost(vs, es, visited, cur, destId, count, cost, []) == cost + es[vs[cur].adj[destId]].weight;
    }
  }

  /**
   * `Graph::TSPBacktracking`: the depth-first search over explicit edges
   * from cur, visiting each unvisited neighbour in turn.  The result never
   * exceeds res; it is no greater than the cost of any completion and is
   * either res or the cost of one; the visited flags are restored.
   */
  method Backtracking(g: Graph, cur: int, destId: int, count: int, cost: real, res: real) returns (r: real)
    requires g.Valid() && cur in g.vertices
    modifies g
    ensures g.vertices == old(g.vertices) && g.edges == old(g.edges) && g.visited == old(g.visited)
    ensures g.dist == old(g.dist) && g.path == old(g.path)
    ensures SearchResult(g.vertices, g.edges, g.visited, cur, destId, count, cost, res, r)
    decreases |Prim.Unvisited(g)|
  {
    r := res;
    if count == |g.vertices| {
      AtEndResult(g.vertices, g.edges, g.visited, cur, destId, count, cost, res);
      var finalEdge := FindEdge(g.vertices[cur], destId);
      if finalEdge.Some? {
        r := Min(res, cost + g.edges[finalEdge.value].weight);
      }
      return;
    }
    var todo := g.vertices[cur].adj.Keys;
    ghost var done: set<int> := {};
    while todo != {}
      invariant g.vertices == old(g.vertices) && g.edges == old(g.edges) && g.visited == old(g.visited)
      invariant g.dist == old(g.dist) && g.path == old(g.path)
      invariant done + todo == g.vertices[cur].adj.Keys
      invariant LoopInv(g.vertices, g.edges, g.visited, cur, destId, count, cost, res, done, r)
      decreases |todo|
    {
      var d := Choose(todo);
      Prim.MoveOne(done, todo, g.vertices[cur].adj.Keys, d);
      todo := todo - {d};
      r := Explore(g, cur, d, destId, count, cost, r, res, done);
      done := done + {d};
    }
    LoopDone(g.vertices, g.edges, g.visited, cur, destId, count, cost, res, r);
  }

  /**
   * One pass of the search loop at cur, for the edge to d: if d is
   * unvisited, mark it, search on from it with the edge's weight added, and
   * unmark it.
   */
  method Explore(g: Graph, cur: int, d: int, destId: int, count: int, cost: real, r0: real, ghost res: real, ghost done: set<int>) returns (r: real)
    requires g.Valid() && cur in g.vertices && d in g.vertices[cur].adj
    requires LoopInv(g.vertices, g.edges, g.visited, cur, destId, count, cost, res, done, r0)
    modifies g
    ensures g.vertices == old(g.vertices) && g.edges == old(g.edges) && g.visited == old(g.visited)
    ensures g.dist == old(g.dist) && g.path == old(g.path)
    ensures r <= r0
    ensures LoopInv(g.vertices, g.edges, g.visited, cur, destId, count, cost, res, done + {d}, r)
    decreases |Prim.Unvisited(g)|, 2
  {
    r := r0;
    FindEdgeEndpoints(g.vertices, g.edges, cur, d);
    var e := g.vertices[cur].adj[d];
    var v := g.edges[e].dest;
    if g.visited[v] {
      SkipStep(g.vertices, g.edges, g.visited, cur, destId, count, cost, res, done, d, r);
    } else {
      r := Descend(g, v, destId, count + 1, cost + g.edges[e].weight, r);
      ExploreStep(g.vertices, g.edges, g.visited, cur, destId, count, cost, res, done, d, r0, r);
    }
  }

  /** Marks the unvisited vertex v, searches on from it, and unmarks it again. */
  method Descend(g: Graph, v: int, destId: int, count: int, cost: real, res: real) returns (r: real)
    requires g.Valid() && v in g.vertices && !g.visited[v]
    modifies g
    ensures g.vertices == old(g.vertices) && g.edges == old(g.edges) && g.visited == old(g.visited)
    ensures g.dist == old(g.dist) && g.path == old(g.path)
    ensures SearchResult(g.vertices, g.edges, g.visited[v := true], v, destId, count, cost, res, r)
    decreases |Prim.Unvisited(g)|, 1
  {
    ghost var visited := g.visited;
    g.visited := g.visited[v := true];
    assert Prim.Unvisited(g) == old(Prim.Unvisited(g)) - {v};
    r := Backtracking(g, v, destId, count, cost, res);
    g.visited := g.visited[v := false];
    assert g.visited == visited;
  }

  /**
   * A tour from vertex 0 as the search from the start state sees it: p
   * lists every other vertex exactly once, each step follows an explicit
   * edge, and the last vertex has an edge back to 0.
   */
  ghost predicate Cycle(vs: map<int, Vertex>, p: seq<int>)
  {
    && 0 in vs && IsWalk(vs, 0, p)
    && (forall i :: 0 <= i < |p| ==> p[i] in vs && p[i] != 0)
    && (forall i, j :: 0 <= i < j < |p| ==> p[i] != p[j])
    && |p| + 1 == |vs|
    && Last(0, p) in vs && 0 in vs[Last(0, p)].adj
  }

  /** The weight of such a tour, closing edge included. */
  ghost function CycleCost(vs: map<int, Vertex>, es: seq<Edge>, p: seq<int>): real
    requires WellFormed(vs, es) && Cycle(vs, p)
  {
    FindEdgeEndpoints(vs, es, Last(0, p), 0);
    WalkCost(vs, es, 0, p) + es[vs[Last(0, p)].adj[0]].weight
  }

  /** The state the search is started in: only vertex 0 is visited. */
  ghost predicate StartState(vs: map<int, Vertex>, visited: map<int, bool>)
  {
    0 in vs && visited.Keys == vs.Keys && forall x :: x in visited ==> (visited[x] <==> x == 0)
  }

  /**
   * From the start state (at vertex 0, count 1, cost 0, back to 0) the
   * completions of the search are exactly the tours, at their weights.
   */
  lemma StartCompletes(vs: map<int, Vertex>, es: seq<Edge>, visited: map<int, bool>, p: seq<int>)
    requires WellFormed(vs, es) && StartState(vs, visited)
    ensures Completes(vs, es, visited, 0, 0, 1, p) <==> Cycle(vs, p)
    ensures Cycle(vs, p) ==> CompletionCost(vs, es, visited, 0, 0, 1, 0.0, p) == CycleCost(vs, es, p)
  {
    if Cycle(vs, p) {
      WalkInGraph(vs, es, 0, p);
    }
  }

  /**
   * Started from the start state with the bound DoubleMax, the search
   * returns at most the weight of every tour, and either DoubleMax or the
   * weight of some tour.
   */
  lemma SearchFindsCheapestCycle(vs: map<int, Vertex>, es: seq<Edge>, visited: map<int, bool>, r: real)
    requires WellFormed(vs, es) && StartState(vs, visited)
    requires SearchResult(vs, es, visited, 0, 0, 1, 0.0, DoubleMax, r)
    ensures r <= DoubleMax
    ensures forall p :: Cycle(vs, p) ==> r <= CycleCost(vs, es, p)
    ensures r == DoubleMax || exists p :: Cycle(vs, p) && r == CycleCost(vs, es, p)
  {
    forall p | Cycle(vs, p) ensures r <= CycleCost(vs, es, p) {
      StartCompletes(vs, es, visited, p);
    }
    if r != DoubleMax {
      var p :| Completes(vs, es, visited, 0, 0, 1, p) && r == CompletionCost(vs, es, visited, 0, 0, 1, 0.0, p);
      StartCompletes(vs, es, visited, p);
    }
  }

  // ---------------------------------------------------------------------
  // The triangular approximation
  // ---------------------------------------------------------------------

  /**
   * `Graph::preorderTraversal`, whose body is not part of this model: given
   * the vertices, the edges, the path table prim left, the root id and the
   * vertex count, the vertex ids in the order the walk of the tree meets them.
   * As a pure function of these it neither changes the graph nor reads its
   * visited or selected flags.
   */
  type Preorder = (map<int, Vertex>, seq<Edge>, map<int, Option<nat>>, int, int) -> seq<int>

  /**
   * How `Graph::TSPTriangular` ends: with a tour cost, with prim's
   * "Edge not found" exception, or by dereferencing a missing vertex or
   * edge (or indexing an empty preorder), which the source leaves undefined.
   */
  datatype TourOutcome = Tour(cost: real) | Aborted | Undefined

  /** Adds two optional weights; None if either is missing. */
  function Plus(a: Option<real>, b: Option<real>): Option<real>
  {
    if a.Some? && b.Some? then Some(a.value + b.value) else None
  }

  /** The weight of the edge from vertex a to b, or None when a is no vertex or has no such edge. */
  function StepWeight(vs: map<int, Vertex>, es: seq<Edge>, a: int, b: int): (w: Option<real>)
    requires WellFormed(vs, es)
    ensures w.Some? <==> a in vs && b in vs[a].adj
    ensures w.Some? ==> EdgeFromTo(es, vs[a].adj[b], a, b) && w.value == es[vs[a].adj[b]].weight
  {
    if a in vs && FindEdge(vs[a], b).Some? then
      FindEdgeEndpoints(vs, es, a, b);
      Some(es[FindEdge(vs[a], b).value].weight)
    else None
  }

  /** The summed weight of the edges between consecutive ids of order. */
  function PathCost(vs: map<int, Vertex>, es: seq<Edge>, order: seq<int>): Option<real>
    requires WellFormed(vs, es)
    decreases |order|
  {
    if |order| < 2 then Some(0.0)
    else Plus(StepWeight(vs, es, order[0], order[1]), PathCost(vs, es, order[1..]))
  }

  /** The weight of the tour that follows order and closes back to vertex 0. */
  function TourCost(vs: map<int, Vertex>, es: seq<Edge>, order: seq<int>): Option<real>
    requires WellFormed(vs, es)
  {
    if |order| == 0 then None
    else Plus(PathCost(vs, es, order), StepWeight(vs, es, order[|order| - 1], 0))
  }

  /** The outcome of summing, from the starting value res, the tour of cost c. */
  function Outcome(res: real, c: Option<real>): TourOutcome
  {
    if c.Some? then Tour(res + c.value) else Undefined
  }

  /** A path's weight is defined exactly when every consecutive pair is joined by an edge. */
  lemma {:induction false} PathDefined(vs: map<int, Vertex>, es: seq<Edge>, order: seq<int>)
    requires WellFormed(vs, es)
    ensures PathCost(vs, es, order).Some? <==>
      forall i :: 0 <= i < |order| - 1 ==> order[i] in vs && order[i + 1] in vs[order[i]].adj
    decreases |order|
  {
    if |order| >= 2 {
      var rest := order[1..];
      PathDefined(vs, es, rest);
      assert forall i :: 0 <= i < |rest| ==> rest[i] == order[i + 1];
      if forall i :: 1 <= i < |order| - 1 ==> order[i] in vs && order[i + 1] in vs[order[i]].adj {
        assert forall i :: 0 <= i < |rest| - 1 ==> rest[i] in vs && rest[i + 1] in vs[rest[i]].adj;
      }
      if PathCost(vs, es, rest).Some? {
        forall i | 1 <= i < |order| - 1 ensures order[i] in vs && order[i + 1] in vs[order[i]].adj {
          assert order[i] == rest[i - 1] && order[i + 1] == rest[i];
        }
      }
    }
  }

  /** A tour's weight is defined exactly when the path is, and its last vertex has an edge back to 0. */
  lemma TourDefined(vs: map<int, Vertex>, es: seq<Edge>, order: seq<int>)
    requires WellFormed(vs, es)
    ensures TourCost(vs, es, order).Some? <==>
      && |order| > 0
      && (forall i :: 0 <= i < |order| - 1 ==> order[i] in vs && order[i + 1] in vs[order[i]].adj)
      && order[|order| - 1] in vs && 0 in vs[order[|order| - 1]].adj
  {
    PathDefined(vs, es, order);
  }

  /** Extending a path by one id adds the weight of the new last step. */
  lemma {:induction false} PathSnoc(vs: map<int, Vertex>, es: seq<Edge>, order: seq<int>, x: int)
    requires WellFormed(vs, es) && |order| >= 1
    ensures PathCost(vs, es, order + [x]) == Plus(PathCost(vs, es, order), StepWeight(vs, es, order[|order| - 1], x))
    decreases |order|
  {
    var ox := order + [x];
    if |order| >= 2 {
      assert ox[0] == order[0] && ox[1] == order[1];
      assert ox[1..] == order[1..] + [x];
      PathSnoc(vs, es, order[1..], x);
    } else {
      assert ox[1..] == [x];
    }
  }

  /** A walk's weight is the path weight of the walk with its start in front. */
  lemma {:induction false} WalkIsPath(vs: map<int, Vertex>, es: seq<Edge>, cur: int, p: seq<int>)
    requires WellFormed(vs, es) && cur in vs && IsWalk(vs, cur, p)
    ensures PathCost(vs, es, [cur] + p) == Some(WalkCost(vs, es, cur, p))
    decreases |p|
  {
    if |p| > 0 {
      FindEdgeEndpoints(vs, es, cur, p[0]);
      WalkIsPath(vs, es, p[0], p[1..]);
      assert ([cur] + p)[1..] == [p[0]] + p[1..];
    }
  }

  /** A tour as the search sees it, with 0 put in front, weighs the same as a tour summed along an order. */
  lemma TourOfCycle(vs: map<int, Vertex>, es: seq<Edge>, p: seq<int>)
    requires WellFormed(vs, es) && Cycle(vs, p)
    ensures TourCost(vs, es, [0] + p) == Some(CycleCost(vs, es, p))
  {
    WalkIsPath(vs, es, 0, p);
    assert ([0] + p)[|p|] == Last(0, p);
  }

  /**
   * After a successful prim every pair of tree vertices is joined by an
   * edge, so an order of at least two distinct tree vertices that starts at
   * vertex 0 has a defined tour weight.
   */
  lemma TreeOrderHasTour(vs: map<int, Vertex>, es: seq<Edge>, visited: map<int, bool>, order: seq<int>)
    requires WellFormed(vs, es)
    requires forall v, u :: v in vs && v in visited && visited[v] && u in vs && u != v ==> u in vs[v].adj
    requires |order| >= 2 && order[0] == 0
    requires forall i :: 0 <= i < |order| ==> order[i] in vs && order[i] in visited && visited[order[i]]
    requires forall i, j :: 0 <= i < j < |order| ==> order[i] != order[j]
    ensures TourCost(vs, es, order).Some?
  {
    TourDefined(vs, es, order);
    assert order[|order| - 1] != order[0];
  }

  /**
   * The exact search is never worse than a tour summed along an order: for
   * an order that starts at 0 and lists every other vertex once along
   * explicit edges and back, the search's result is at most its weight.
   */
  lemma ExactAtMostTour(vs: map<int, Vertex>, es: seq<Edge>, visited: map<int, bool>, r: real, order: seq<int>)
    requires WellFormed(vs, es) && StartState(vs, visited)
    requires SearchResult(vs, es, visited, 0, 0, 1, 0.0, DoubleMax, r)
    requires |order| > 0 && order[0] == 0 && Cycle(vs, order[1..])
    ensures TourCost(vs, es, order).Some? && r <= TourCost(vs, es, order).value
  {
    SearchFindsCheapestCycle(vs, es, visited, r);
    TourOfCycle(vs, es, order[1..]);
    assert [0] + order[1..] == order;
  }

  /** The summing loop of `Graph::TSPTriangular` over the preorder, from the starting value res. */
  method Tally(g: Graph, order: seq<int>, res: real) returns (out: TourOutcome)
    requires g.Valid()
    ensures out == Outcome(res, TourCost(g.vertices, g.edges, order))
  {
    if |order| == 0 {
      return Undefined;
    }
    var acc := res;
    var i := 0;
    while i < |order| - 1
      invariant 0 <= i <= |order| - 1
      invariant PathCost(g.vertices, g.edges, order[..i + 1]).Some?
      invariant acc == res + PathCost(g.vertices, g.edges, order[..i + 1]).value
    {
      var v := g.FindVertex(order[i]);
      var e := if v.Some? then FindEdge(v.value, order[i + 1]) else None;
      PathSnoc(g.vertices, g.edges, order[..i + 1], order[i + 1]);
      assert order[..i + 1] + [order[i + 1]] == order[..i + 2];
      if e.None? {
        PathDefined(g.vertices, g.edges, order[..i + 2]);
        PathDefined(g.vertices, g.edges, order);
        return Undefined;
      }
      FindEdgeEndpoints(g.vertices, g.edges, order[i], order[i + 1]);
      acc := acc + g.edges[e.value].weight;
      i := i + 1;
    }
    assert order[..i + 1] == order;
    var last := g.FindVertex(order[|order| - 1]);
    var closing := if last.Some? then FindEdge(last.value, 0) else None;
    if closing.None? {
      return Undefined;
    }
    FindEdgeEndpoints(g.vertices, g.edges, order[|order| - 1], 0);
    out := Tour(acc + g.edges[closing.value].weight);
  }

  /**
   * `Graph::TSPTriangular`: runs prim, takes the preorder of its tree from
   * vertex 0, and adds to res the weights along that order and back to 0.
   * Marking the tree edges `selected` is not modelled.
   */
  method Triangular(g: Graph, haversine: Prim.Haversine, preorder: Preorder, res: real) returns (out: TourOutcome)
    requires g.Valid() && (g.vertices == map[] || 0 in g.vertices)
    modifies g
    ensures g.Valid() && Prim.Extends(old(g.vertices), old(g.edges), g.vertices, g.edges)
    ensures out.Aborted? ==> exists v :: v in g.vertices && (g.vertices[v].longitude == DoubleMax || g.vertices[v].latitude == DoubleMax)
    ensures !out.Aborted? ==> out == Outcome(res, TourCost(g.vertices, g.edges, preorder(g.vertices, g.edges, g.path, 0, |g.vertices|)))
    ensures !out.Aborted? ==> forall v, u :: v in g.vertices && g.visited[v] && u in g.vertices && u != v ==> u in g.vertices[v].adj
    ensures !out.Aborted? && 0 in g.vertices ==> g.visited[0]
  {
    var ok := Prim.Prim(g, haversine);
    if !ok {
      return Aborted;
    }
    var order := preorder(g.vertices, g.edges, g.path, 0, |g.vertices|);
    out := Tally(g, order, res);
  }
}
