# TSP graph core in Dafny

This project models the core of a command-line tool for the travelling
salesman problem. The tool loads a graph from CSV files (an edges file and an
optional nodes file with coordinates). It then computes a tour cost in one of
two ways:

- **Exact backtracking.** A depth-first search over the explicit edges, which
  keeps the cheapest closed tour it finds.
- **Triangular approximation.** Runs Prim's algorithm from vertex 0. Where a
  pair of vertices has no edge, it first adds one, weighted by the haversine
  distance between their coordinates. It then sums the edge weights along a
  preorder walk of the spanning tree and back to 0.

Prim's algorithm uses an indexed binary min-heap whose elements know their
own slot.

## Modules

- `Heap.dfy`, module `MutablePriorityQueue`: the heap over `seq<int>`.
  - Slot 0 is a placeholder, as in the source.
  - Every element's slot number (the `queueIndex` the source keeps on each
    vertex) lives in a side table `queueIndex` owned by the heap.
  - Keys are the vertices' `dist`, a map the caller passes in.
  - Every public operation (constructor, `Insert`, `ExtractMin`,
    `DecreaseKey`, and the two sift methods) is proved to keep heap order and
    the slot back-index. The slot write `Set` alone breaks them by design.
  - `ExtractMin` is proved to return a least element.
- `Graph.dfy`, module `Graph`: the graph data.
  - `Vertex` and `Edge` are datatypes.
  - Edges live in a single edge table. An edge's `reverse` is the index of
    its twin, and a vertex's `adj` maps a destination id to an edge index.
  - The class `Graph` holds the vertex map, the edge table and the per-run
    fields `visited`, `dist` and `path`, stored as maps keyed by vertex id.
  - `WellFormed` is the structural invariant: ids match, and every
    adjacency, incoming and reverse entry names an edge with the right
    endpoints.
  - Every public operation keeps `WellFormed`, and each one's effect is
    stated as a function on values. The single edge-table write behind
    `setReverse` (`SetEdgeReverse`) is only used in pairs that restore it.
- `Prim.dfy`, module `Prim`: prim, split at its loops into small methods.
  When it succeeds it guarantees:
  - Every two tree vertices are joined by an edge.
  - Each tree vertex other than 0 has a path edge from the tree whose weight
    is its key.
  - Vertex 0 keeps key 0 and no path edge.
  - The path edges form a tree rooted at 0. A ghost visit rank falls
    strictly along every path edge, so following path edges back from any
    tree vertex reaches 0 (`RootPath`).
  - Vertices left outside the tree keep key DoubleMax and have no path.
  - The run aborts only when a vertex's coordinate is DoubleMax.
- `TSP.dfy`, module `TSP`:
  - `Backtracking` returns at most the cost of every completion of the
    search, and either the incoming bound or the cost of one completion.
  - Started the way the data layer starts it, the completions are exactly
    the tours through all vertices from 0 and back (`StartCompletes`).
  - `Triangular` sums along a preorder, and its result is tied to the
    function `TourCost`.
  - `ExactAtMostTour` relates the two: the exact result is at most the
    summed weight of any order from 0 through all vertices whose steps,
    including the closing one, are all explicit edges of the graph the
    search ran on. The triangular run happens later on a graph that prim
    may have grown with haversine edges, so this bound does not cover tours
    that use those edges.
- `Data.dfy`, module `Data`:
  - The per-line rules of the two readers: carriage-return removal, three
    `getline` fields, skipping empty or unconvertible fields.
  - The readers, as loops proved against folds over the accepted records.
  - `readFiles` with its three errors.
  - `isGraphLoaded` and `vertexExists`.
  - The facades that start the two TSP routines.

## Modelling choices

- The source's hash-map iteration order is unspecified. Each
  `for (auto pair : ...)` loop picks the next key with `Graph.Choose`, so
  every proof holds for any iteration order.
- `numeric_limits<double>::max()` is the constant `DoubleMax`. Weights and
  coordinates are `real`.
- These become function parameters:
  - the haversine formula (`Prim.Haversine`);
  - `preorderTraversal` (`TSP.Preorder`);
  - `std::stoi` and `std::stod` (`Data.Stoi` and `Data.Stod`, which return
    `None` where the real function throws);
  - opening a file (`Data.Files`, which maps a path to its lines, or `None`
    when the file cannot be opened).
- Graph.h and Graph.cpp are out of step, and the model follows Graph.cpp:
  - Graph.h declares `adj` as `vector<Edge *>` and `findEdge(Vertex *)`.
    Graph.cpp uses `adj` as a map from destination id to edge, with
    `findEdge(int)`.
  - Graph.h has no declarations for `queueIndex`, `TSPBacktracking`,
    `TSPTriangular` or `prim`.

  The field defaults are taken from Graph.h:24-33. A vertex made with
  `Vertex(int id)` has longitude and latitude 0.0, and `dist` is 0.
- `Vertex::addEdge` uses `unordered_map::insert`. That call does not replace
  an existing entry, so a second edge to the same destination is stored in
  the edge table and the destination's incoming list, but not in `adj`.
- Several source paths dereference a null pointer. Each of these is a
  precondition or an explicit outcome:
  - `prim` dereferences `findVertex(0)` without checking it, so `Prim.Prim`
    requires vertex 0 to exist when the graph is not empty.
  - `Data::TSPBacktracking` does the same, so its model requires vertex 0.
  - In `TSPTriangular`, a missing edge, a preorder id that is not a vertex,
    or an empty preorder (`preorder.size() - 1` wraps around) yields the
    outcome `Undefined`.
  - prim's "Edge not found" exception is the outcome `Aborted`.

## Model

| member | source | states |
|---|---|---|
| MutablePriorityQueue.Less | Graph.cpp:10-12 | the vertex order compares `dist` only; it is strict and asymmetric |
| MutablePriorityQueue.MinHeap.constructor | MutablePriorityQueue.h:33-38 | the heap starts with only the placeholder slot and no elements |
| MutablePriorityQueue.MinHeap.IsEmpty | MutablePriorityQueue.h:45-48 | empty exactly when no element is queued |
| MutablePriorityQueue.MinHeap.Set | MutablePriorityQueue.h:129-133 | slot i holds x and x's back-index is i; nothing else changes |
| MutablePriorityQueue.MinHeap.HeapifyUp | MutablePriorityQueue.h:91-99 | from a heap broken only above slot i, restores heap order and every back-index, with the same elements |
| MutablePriorityQueue.MinHeap.HeapifyDown | MutablePriorityQueue.h:106-121 | from a heap broken only below slot i, restores heap order and every back-index, with the same elements |
| MutablePriorityQueue.MinHeap.Insert | MutablePriorityQueue.h:70-74 | adds exactly x to the elements and keeps heap order and back-indices |
| MutablePriorityQueue.MinHeap.RemoveRoot | MutablePriorityQueue.h:57-60 | the last leaf takes the root slot and sifts down: exactly the root leaves, and heap order and back-indices hold |
| MutablePriorityQueue.MinHeap.ExtractMin | MutablePriorityQueue.h:55-63 | removes and returns an element whose key is least among all queued, sets its back-index to 0, keeps heap order |
| MutablePriorityQueue.MinHeap.DecreaseKey | MutablePriorityQueue.h:81-84 | after the caller lowers x's key, heap order is restored with the same elements |
| MutablePriorityQueue.RootIsMinimum | MutablePriorityQueue.h:26-28 | in a heap-ordered slot sequence, slot 1's key is at most every slot's key |
| MutablePriorityQueue.RootIsLeast | MutablePriorityQueue.h:55-63 | the root's key is least among all elements |
| MutablePriorityQueue.LowerKeyOrderedExceptUp | MutablePriorityQueue.h:81-84 | lowering one element's key breaks heap order only above that slot |
| MutablePriorityQueue.SiftUpStep | MutablePriorityQueue.h:94-96 | swapping a slot with its greater parent moves the only order break one level up |
| MutablePriorityQueue.SiftDownStep | MutablePriorityQueue.h:110-118 | swapping a slot with its least, smaller child moves the only order break one level down |
| MutablePriorityQueue.MinChild | MutablePriorityQueue.h:110-114 | the child chosen is the one with the smaller key (the left one on a tie) |
| MutablePriorityQueue.RemoveRootElements | MutablePriorityQueue.h:57-59 | moving the last leaf to the root and popping removes exactly the root element |
| MutablePriorityQueue.RemoveRootMultiset | MutablePriorityQueue.h:57-59 | the slots after the move hold the old elements minus the root |
| MutablePriorityQueue.RemoveRootAbsent | MutablePriorityQueue.h:57-59 | the root occurs in no other slot, so it is gone after the move |
| MutablePriorityQueue.RemoveRootShape | MutablePriorityQueue.h:57-60 | after that move the heap is broken only below the root |
| MutablePriorityQueue.KeyOutside | Graph.cpp:297-301 | changing the key of a vertex not in the queue keeps the heap ordered |
| Graph.FindEdge | Graph.cpp:100-106 | an edge is found exactly when the vertex has an adjacency entry for the destination |
| Graph.FindEdgeEndpoints | Graph.cpp:100-106 | in a well-formed graph the edge found runs from the vertex to the destination, which is a vertex |
| Graph.LinkEdge | Graph.cpp:92-98 | appends the edge, adds the adjacency entry only if the destination had none, appends it to the destination's incoming list, changes nothing else |
| Graph.LinkEdgeWellFormed | Graph.cpp:92-98 | adding an edge keeps the graph well formed |
| Graph.NewVertexWellFormed | Graph.cpp:159-175 | a new vertex with no edges keeps the graph well formed |
| Graph.SetReverse | Graph.cpp:132-134 | only edge i's reverse link changes |
| Graph.LinkTwinsWellFormed | Graph.cpp:185-189 | linking two opposite edges as reverses keeps the graph well formed |
| Graph.LinkOneWay | Graph.cpp:177-195 | definition of addEdge once both endpoints exist: append the edge, then pair it as reverse with dest's edge back to source when the weights agree; its properties are LinkOneWayReverse |
| Graph.LinkOneWayReverse | Graph.cpp:177-195 | addEdge adds one edge and links it as a reverse exactly when the destination has an equal-weight edge back; well-formedness is kept |
| Graph.LinkBidirectional | Graph.cpp:197-207 | definition of addBidirectionalEdge once both endpoints exist: append both directions with one weight and pair the two new edges; its properties are LinkBidirectionalEffect |
| Graph.LinkBidirectionalEffect | Graph.cpp:197-207 | addBidirectionalEdge adds exactly two opposite edges, each the other's reverse, and keeps old edges, adjacency entries and coordinates |
| Graph.Graph.constructor | Graph.h:266 | the graph starts with no vertices and no edges |
| Graph.Graph.FindVertex | Graph.cpp:151-157 | a vertex is found exactly when its id is present, and it is stored under its own id |
| Graph.Graph.GetVertexSet | Graph.cpp:209-211 | the vertex set holds exactly the vertices FindVertex finds |
| Graph.Graph.Insert | Graph.cpp:159-175 | the vertex built by either addVertex is stored under a free id with its run fields at their defaults (not visited, dist 0, no path); edges are unchanged and well-formedness is kept |
| Graph.Graph.AddVertex | Graph.cpp:159-166 | true exactly when the id was free; then a vertex without coordinates is added; otherwise nothing changes |
| Graph.Graph.AddVertexAt | Graph.cpp:168-175 | as AddVertex, with the given coordinates |
| Graph.Graph.VertexAddEdge | Graph.cpp:92-98 | the graph becomes LinkEdge of the old graph, and the new edge's index is returned |
| Graph.Graph.SetEdgeReverse | Graph.cpp:132-134 | the edge table becomes SetReverse of the old one |
| Graph.Graph.AddEdge | Graph.cpp:177-195 | true exactly when both endpoints exist; then the graph is the one-way link; otherwise nothing changes |
| Graph.Graph.AddBidirectionalEdge | Graph.cpp:197-207 | true exactly when both endpoints exist; then the graph is the two-way link; otherwise nothing changes |
| Prim.ResetRunFields | Graph.cpp:261-266 | every vertex gets key DoubleMax, no path and visited false |
| Prim.ResetVertex | Graph.cpp:262-265 | one vertex gets key DoubleMax, no path and visited false; nothing else changes |
| Prim.Start | Graph.cpp:268-272 | vertex 0 has key 0 and is the only queued vertex; the tree invariant holds |
| Prim.Enter | Graph.cpp:275-276 | the extracted vertex was queued, has the least key of the queue and becomes visited |
| Prim.EnsureEdge | Graph.cpp:282-292 | fails exactly when the edge is missing and the vertex's coordinate is DoubleMax; otherwise adds the haversine-weighted twin edges if missing and returns the edge |
| Prim.LowerKey | Graph.cpp:294-304 | an unvisited vertex's key and path are lowered to the edge exactly when the edge is cheaper; the queue follows; tree vertices keep their keys and paths |
| Prim.SetKey | Graph.cpp:297-299 | the key becomes the edge weight and the path the edge, keeping the tree invariant |
| Prim.Relax | Graph.cpp:279-304 | one inner-loop pass keeps the queue, the tree invariant and coverage, and fails only on a missing coordinate |
| Prim.LowerAndCover | Graph.cpp:294-304 | after the key update, the tree vertex is covered towards one vertex more and all others stay covered |
| Prim.Visit | Graph.cpp:278-305 | after the inner loop every unvisited vertex's key is at most its edge from every tree vertex; no tree vertex's key or path changes |
| Prim.Grow | Graph.cpp:274-306 | one outer-loop pass shrinks the unvisited set and keeps the invariants; vertex 0, queued alone or already in the tree, ends in the tree with key 0 and no path |
| Prim.OutsideVisit | Graph.cpp:276 | taking an unvisited vertex into the tree removes exactly it from the vertices outside, so the outer loop terminates |
| Prim.RootPath | Graph.cpp:274-304 | from any tree vertex, following path edges backwards gives distinct tree vertices with strictly falling visit rank that end at 0; each step is the path edge of the vertex before it |
| Prim.RankedEnter | Graph.cpp:275-276 | the vertex extracted next gets a rank above all earlier ones, and its path edge comes from a vertex extracted before it |
| Prim.RankedKeep | Graph.cpp:278-305 | the inner loop changes no tree vertex's path edge and only adds edges, so the ranks stay valid |
| Prim.TreeLower | Graph.cpp:297-299 | lowering a key through a tree edge keeps the tree invariant |
| Prim.TreeVisit | Graph.cpp:276 | visiting a queued vertex keeps the tree invariant |
| Prim.TreeExtend | Graph.cpp:290 | adding edges keeps the tree invariant |
| Prim.FrontierAdd | Graph.cpp:301 | a first finite key adds the vertex to the frontier exactly once |
| Prim.FrontierLower | Graph.cpp:302 | lowering a finite key leaves the frontier unchanged |
| Prim.FrontierVisit | Graph.cpp:275-276 | visiting removes the vertex from the frontier |
| Prim.VisitStep | Graph.cpp:294-304 | after relaxing u, u's key is covered by the edge from the current vertex |
| Prim.Finished | Graph.cpp:274 | with an empty queue: every two tree vertices are joined; tree vertices have tree path edges; the rest keep key DoubleMax |
| Prim.Prim | Graph.cpp:258-307 | on success: every two tree vertices are joined; 0 is in the tree with key 0 and no path edge; every path edge leaves the tree with the vertex's key; the path edges form a tree rooted at 0 (ranks fall along them); unreached vertices keep DoubleMax and no path; it aborts only on a DoubleMax coordinate and only ever adds edges |
| TSP.Min | Graph.cpp:217 | the minimum of two values is one of them and at most both |
| TSP.WalkInGraph | Graph.cpp:221-223 | a walk along explicit edges stays among the vertices |
| TSP.CompletesAtEnd | Graph.cpp:215-219 | when every vertex is counted, the only completion is the closing edge itself |
| TSP.CompletesFirst | Graph.cpp:221-229 | a completion begins with an unvisited neighbour and continues as a completion from it, at the same cost |
| TSP.CompletesPrepend | Graph.cpp:221-229 | an unvisited neighbour followed by a completion from it is a completion, at the same cost |
| TSP.SkipStep | Graph.cpp:224 | skipping a visited neighbour keeps the loop's bound |
| TSP.ExploreStep | Graph.cpp:224-228 | searching from an unvisited neighbour keeps the loop's bound and lowers the result |
| TSP.LoopDone | Graph.cpp:221-229 | after all neighbours the result bounds every completion |
| TSP.AtEndResult | Graph.cpp:215-219 | the base case lowers the bound to the closing cost exactly when the closing edge exists |
| TSP.Backtracking | Graph.cpp:213-230 | the result is at most the bound and every completion's cost, is the bound or one completion's cost, and visited flags are restored |
| TSP.Explore | Graph.cpp:222-228 | one loop pass keeps the loop's bookkeeping and restores the graph |
| TSP.Descend | Graph.cpp:225-227 | marks, searches and unmarks a vertex, leaving the graph as it was |
| TSP.StartCompletes | Data.cpp:128-136 | from the facade's start state the completions are exactly the tours from 0, at their weights |
| TSP.SearchFindsCheapestCycle | Data.cpp:132-136 | started with DoubleMax, the search returns at most every tour's weight, and DoubleMax or some tour's weight |
| TSP.StepWeight | Graph.cpp:251 | a step's weight is defined exactly when the edge exists, and it is that edge's weight |
| TSP.PathCost | Graph.cpp:247-252 | definition of the summing loop's total over consecutive pairs; PathDefined, PathSnoc and WalkIsPath state its properties |
| TSP.TourCost | Graph.cpp:247-255 | definition of that total plus the closing edge back to 0, undefined for an empty order; TourDefined and TourOfCycle state its properties |
| TSP.PathDefined | Graph.cpp:247-252 | the loop's sum is defined exactly when every consecutive pair has an edge |
| TSP.TourDefined | Graph.cpp:247-255 | the tour sum is defined exactly when the path is and the last vertex has an edge to 0 |
| TSP.PathSnoc | Graph.cpp:247-252 | one more loop step adds exactly that step's weight |
| TSP.WalkIsPath | Graph.cpp:247-252 | summing along an order equals the search's walk cost |
| TSP.TourOfCycle | Graph.cpp:247-255 | a tour found by the search, with 0 in front, weighs the same as a summed tour |
| TSP.TreeOrderHasTour | Graph.cpp:245-255 | after prim succeeds, an order of two or more distinct tree vertices from 0 has a defined tour weight |
| TSP.ExactAtMostTour | Graph.cpp:213-255 | the exact search's result is at most the summed weight of any order from 0 through all vertices whose steps are explicit edges of the searched graph |
| TSP.Tally | Graph.cpp:247-255 | the summing loop yields res plus TourCost, or Undefined exactly when TourCost is undefined |
| TSP.Triangular | Graph.cpp:232-256 | prim runs first; on success the outcome is res plus the tour weight along the preorder, or Undefined; it aborts only on a DoubleMax coordinate |
| Data.RemoveCR | Data.cpp:50 | no carriage return is left and every other character stays |
| Data.RemoveCRAppend | Data.cpp:50 | removal works piecewise, so the order of the other characters is kept |
| Data.RemoveCRAll | Data.cpp:50 | a run of carriage returns disappears |
| Data.RemoveCRNone | Data.cpp:50 | a line without carriage returns is unchanged |
| Data.NextField | Data.cpp:55-57 | the field has no comma; the line is field, comma, rest; or, with no comma, all of it |
| Data.NextFieldJoin | Data.cpp:55-57 | splitting a joined field off gives back that field and the rest |
| Data.Fields3 | Data.cpp:55-57 | the three leading fields contain no comma and together are no longer than the line; Fields3Join gives them back for a joined line |
| Data.Fields3Join | Data.cpp:52-57 | a joined line splits back into its three fields whatever follows |
| Data.ParseEdgeLine | Data.cpp:48-72 | definition of one edges line: carriage returns removed, three fields, skipped when a field is empty or does not convert; ParseEdgeJoin and ParseEmptyFirstField state its cases |
| Data.ParseNodeLine | Data.cpp:88-112 | definition of one nodes line, with an id and two coordinates; ParseNodeJoin and ParseEmptyFirstField state its cases |
| Data.ParseEdgeJoin | Data.cpp:48-72 | a three-field edges line with any trailing fields and carriage returns is accepted exactly when the fields convert, with their values |
| Data.ParseNodeJoin | Data.cpp:88-112 | the same for a nodes line |
| Data.ParseEmptyFirstField | Data.cpp:59-60 | a line with an empty first field is skipped by both readers |
| Data.ParseEmptyField | Data.cpp:59-60 | a three-field line with an empty first, second or third field is skipped by both readers, whatever fields follow |
| Data.ParseShortLine | Data.cpp:55-60 | a line with only one or two fields is skipped by both readers, since the missing fields read as empty |
| Data.EdgeRecords | Data.cpp:45-72 | the accepted records of an edges file, in file order, at most one per line; EdgeRecordsFromLines ties them to the accepted lines |
| Data.NodeRecords | Data.cpp:85-112 | the accepted records of a nodes file, in file order, at most one per line |
| Data.EdgeRecordsFromLines | Data.cpp:48-72 | every accepted line gives a record and every record comes from an accepted line |
| Data.WithVertexEffect | Data.cpp:74-78 | ensuring a vertex adds only that id, as a vertex without coordinates, keeping well-formedness |
| Data.AddEdgeRecord | Data.cpp:74-80 | definition of one accepted edges record: each missing endpoint added without coordinates, then the two joined both ways; AddEdgeRecordGraph, AddEdgeRecordKeeps and AddEdgeRecordTable state its effect |
| Data.LoadEdges | Data.cpp:45-82 | definition of the edges reader on values, a fold of AddEdgeRecord over the records; LoadEdgesGraph, LoadEdgesTable and LoadEdgesLinks state its effect |
| Data.AddEdgeRecordGraph | Data.cpp:74-80 | one record keeps well-formedness, adds its endpoints and joins them both ways |
| Data.AddEdgeRecordKeeps | Data.cpp:74-80 | one record keeps old adjacency entries and coordinates; vertices it creates have none |
| Data.AddEdgeRecordTable | Data.cpp:80 | one record appends exactly its two twin edges |
| Data.LoadEdgesGraph | Data.cpp:45-82 | loading keeps well-formedness; vertices become the old ones plus every endpoint named; new vertices have no coordinates |
| Data.LoadEdgesTable | Data.cpp:45-82 | loading keeps the old edges in front and record i adds edges 2i and 2i+1 past them, twins of each other |
| Data.LoadEdgesLinks | Data.cpp:74-80 | every record's endpoints end up joined both ways |
| Data.LoadNodes | Data.cpp:85-116 | definition of the nodes reader on values: a record with a new id adds a vertex with its coordinates, a taken id changes nothing; LoadNodesEffect states its effect |
| Data.LoadNodesEffect | Data.cpp:85-116 | loading keeps well-formedness; vertices become the old ones plus every id named; old vertices are unchanged; a new id takes its first record's coordinates |
| Data.LoadNodesAt | Data.cpp:88-115 | one reader step matches one step of the fold |
| Data.Data.constructor | Data.cpp:5 | the graph is empty and both paths are empty |
| Data.Data.IsGraphLoaded | Data.cpp:8-10 | true exactly when some vertex exists |
| Data.Data.VertexExists | Data.cpp:119-123 | true exactly when the id is a vertex |
| Data.Data.SetEdgesFilePath | Data.cpp:13-15 | sets only the edges path |
| Data.Data.SetNodesFilePath | Data.cpp:18-20 | sets only the nodes path |
| Data.Data.ReadEdgesFile | Data.cpp:45-82 | the graph becomes LoadEdges over the accepted records; old run fields are kept |
| Data.Data.AddEndpoint | Data.cpp:74-78 | adds the vertex without coordinates only if it is missing |
| Data.Data.AddRecord | Data.cpp:74-80 | the graph becomes AddEdgeRecord of the old graph |
| Data.Data.AddNode | Data.cpp:114 | adds the vertex with coordinates only if the id is free |
| Data.Data.ReadNodesFile | Data.cpp:85-116 | the graph becomes LoadNodes over the accepted records, edges unchanged |
| Data.Data.ReadFiles | Data.cpp:23-42 | fails with no edges path, or when the nodes file cannot be opened, changing nothing; fails when the edges file cannot be opened, after loading the nodes; otherwise loads the nodes, then the edges |
| Data.Data.ClearVisited | Data.cpp:128-130 | every visited flag becomes false and nothing else changes |
| Data.Data.TSPBacktracking | Data.cpp:126-140 | returns at most the weight of every tour from 0 through all vertices, and DoubleMax or one tour's weight; only vertex 0 is left visited |
| Data.Data.TSPTriangular | Data.cpp:143-150 | the triangular outcome started from 0 |

## Left out

- Console output (`cout` of the results) and the program's menus and states
  are not part of this model.
- `preorderTraversal` is a function parameter, because its body is not part
  of this model. Nothing is assumed about the order it returns. The
  parameter's type does assume two things: the traversal changes nothing in
  the graph (no vertex field, no `visited` or `selected` flag, no edge), and
  its result depends only on the vertices, the edges, prim's path table, the
  root and the count. In particular it does not read the `visited` flags
  that `TSPTriangular` sets just before the call. `TSP.Triangular`'s
  guarantees about the graph after the traversal rest on this. Lemma
  `TSP.TreeOrderHasTour` states what holds when the order lists distinct
  tree vertices starting at 0.
- The haversine formula is a function parameter; floating-point
  trigonometry is not modelled.
- `TSPNearestNeighbor` and `TSPRealWorldNearestNeighbor`, and the facades
  that call them, are not part of this model.
- Edge `selected` marking in `TSPTriangular` (Graph.cpp:237-243) is not
  modelled: nothing in the modelled core reads it.
- Flow is kept as a field of `Edge`. `Vertex::hasFlow`, `Vertex::updateFlow`
  and the vertex `flow` field are not modelled.
- Weights are exact reals. Floating-point rounding, infinities and NaN,
  including rounding in `cost + weight` and in the sums, are not modelled.
- `std::stoi` and `std::stod` are parameters; their real parsing rules are
  not modelled. Likewise opening a file and `getline` over it: a file is the
  sequence of its lines, and `Data.Files` gives them.
- Prim.Prim: minimality of the spanning tree is not stated. The contract
  states the tree, key and cover invariants that prim maintains; the cut
  property of minimum spanning trees is not proved.
- MutablePriorityQueue.MinHeap.ExtractMin: the back-index of the extracted
  element is stated (0), but the back-indices of the other elements are held
  only as the invariant `Valid`.
- The source's `queueIndex` vertex field is a side table of the heap.
  Aliasing between the heap and the vertex objects is therefore not
  modelled.
- Unordered-map iteration order is not modelled. Each loop picks an arbitrary
  next key, so the proofs cover every order, but the model does not say which
  order the standard library uses.
- `int` is unbounded. The source's `int` for ids, and the `size_t`
  comparison `count == vertices.size()` in `TSPBacktracking`, are treated as
  mathematical integers. The one wrap-around that matters,
  `preorder.size() - 1` on an empty preorder, is the outcome `Undefined`.
