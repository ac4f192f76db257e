# Directed weighted adjacency-map graph

A Dafny model of the graph in `Graph-Tutorial/graph.py` of the Graph
Tutorial: a `Vertex` class that keeps an id and a dictionary from
neighbour to edge weight, and a `Graph` class that keeps a dictionary
`vert_list` from key to `Vertex` and a counter `num_vertices`.

The model has two modules.

- `AdjacencyMaps` (`adjacency.dfy`) gives the value-level meaning of the
  graph. A neighbour dictionary is a `map<K, int>` from neighbour id to
  weight. A graph is a `map<K, map<K, int>>` from key to neighbour map. The
  operations are functions on these values: `WithNeighbor` for
  `add_neighbor`, `NewVertex` for `add_vertex`, `WithEdge` for `add_edge`.
  The lemmas state the properties the source and its tests promise. `Run`
  replays any sequence of `add_vertex`/`add_edge` calls on a fresh graph,
  and `RunKeys`, `RunCounter` and `RunClosed` prove that the vertices are then
  exactly the keys those calls named, that the counter equals their number,
  and that every neighbour is a vertex.
- `GraphTutorial` (`graph.dfy`) holds the classes. `Vertex` has a
  constant `id` and a mutable `neighbors` field. `Graph` has the fields
  `vertList` and `numVertices`, plus two ghost fields: `Model` (the abstract
  key-to-neighbour-map value) and `Repr` (the vertex objects it owns).
  `Valid()` ties the real fields to `Model`:
  - every vertex is stored under its own id;
  - `numVertices == |Model|`;
  - every neighbour is itself a vertex of the graph.

  Each mutating method states its new `Model` as the matching
  `AdjacencyMaps` function of the old one.

Identity. Python vertices compare and hash by `id` alone, so a neighbour
dictionary keyed by `Vertex` objects is in effect keyed by id. The model keys
it by id directly. `Vertex.AddNeighbor` takes a vertex object and records
its id.

Stubs. In the source, `Graph.add_vertex`, `get_vertex` and `add_edge` are
TODO stubs. The model gives them the behaviour their docstrings state and
`Graph-Tutorial/graph_test.py` checks. The tests also query `size`,
`has_vertex(key)` and `get_neighbors(key)` on the graph, so those are
modelled as `Size`, `HasVertex` and `GetNeighbors`. Where the inline comment
of `add_edge` says `key1` becomes a neighbour of `key2`, the docstring and
the tests say the opposite: `key2` becomes a neighbour of `key1`. The model
follows the docstring and the tests. Missing endpoints are created, as the
tests require. `get_vertex` on an absent key returns nothing (`None`)
rather than raising: its docstring says "Return the vertex if it exists".

Vertex objects stay in place. Adding a vertex or an edge never replaces
the `Vertex` stored under an existing key. `add_edge` updates the stored
vertex of `key1` in place. A caller that holds that vertex therefore sees
the new neighbour.

`add_neighbor` ignores a neighbour that is already present and keeps its
old weight (graph.py:41-43). A duplicate `add_edge` is therefore ignored
too, as graph_test.py:122-128 checks. The graph has no directed or
weighted flags and is always directed.

Weights are integers with default 1.

## Model

| member | source | states |
|---|---|---|
| `GraphTutorial.Vertex.constructor` | Graph-Tutorial/graph.py:7-16 | a new vertex has the given id and no neighbours |
| `GraphTutorial.Vertex.Equals` | Graph-Tutorial/graph.py:30-36 | two vertices are equal exactly when their ids are equal (`!=` is the negation) |
| `GraphTutorial.Vertex.AddNeighbor` | Graph-Tutorial/graph.py:38-43 | the new neighbour map is `WithNeighbor` of the old one: the id is recorded with the weight only if absent; the id field cannot change |
| `GraphTutorial.Vertex.GetNeighbors` | Graph-Tutorial/graph.py:45-48 | the result is the set of neighbour ids |
| `GraphTutorial.Vertex.GetId` | Graph-Tutorial/graph.py:50-53 | the result is the id the vertex was created with |
| `GraphTutorial.Vertex.GetEdgeWeight` | Graph-Tutorial/graph.py:55-58 | a non-neighbour is a KeyError, so membership is the precondition; the result is the recorded weight |
| `AdjacencyMaps.WithNeighbor` | Graph-Tutorial/graph.py:38-43 | the neighbour set gains exactly the given id; an absent id gets the given weight; every existing weight is kept |
| `AdjacencyMaps.WithNeighborAbsent` | Graph-Tutorial/graph.py:38-58 | adding an absent neighbour grows the map by one, and the edge weight read back is the given weight |
| `AdjacencyMaps.WithNeighborPresent` | Graph-Tutorial/graph.py:41-43 | adding a present neighbour leaves the whole map unchanged, old weight included |
| `AdjacencyMaps.WithNeighborIdempotent` | Graph-Tutorial/graph.py:41-43 | a second add for the same id, with any weight, is ignored |
| `AdjacencyMaps.WithNeighborGrowth` | Graph-Tutorial/graph.py:38-43 | the neighbour set grows by at most one |
| `GraphTutorial.Graph.constructor` | Graph-Tutorial/graph.py:64-67 | a new graph is valid, has no vertices and a counter of 0 |
| `GraphTutorial.Graph.Size` | Graph-Tutorial/graph_test.py:27-29 | the counter equals the number of vertices |
| `GraphTutorial.Graph.HasVertex` | Graph-Tutorial/graph_test.py:64-77 | true exactly when the key is a vertex |
| `AdjacencyMaps.NewVertex` | Graph-Tutorial/graph.py:76-84 | add_vertex succeeds exactly when the key is absent; it then adds that key with no neighbours, grows the graph by exactly one and keeps every other vertex; a present key is a KeyError |
| `AdjacencyMaps.NewVertexClosed` | Graph-Tutorial/graph.py:76-84 | a successful add_vertex inserts an isolated vertex and keeps every neighbour inside the graph |
| `AdjacencyMaps.NewVertexEdges` | Graph-Tutorial/graph.py:76-84 | a successful add_vertex adds no edge |
| `GraphTutorial.Graph.AddVertex` | Graph-Tutorial/graph.py:76-84 | for an absent key: returns a fresh vertex with that id, stores it under the key, the counter goes up by one, and the new model is `NewVertex` of the old; for a present key: KeyError, and model and counter are unchanged; every vertex already stored keeps its key and object |
| `GraphTutorial.Graph.GetVertex` | Graph-Tutorial/graph.py:86-88 | returns the stored vertex exactly when the key is present; that vertex has the key as id and the key's neighbour map |
| `AdjacencyMaps.WithVertex` | Graph-Tutorial/graph.py:95-96 | a missing key is added with no neighbours; existing vertices are kept |
| `AdjacencyMaps.Missing` | Graph-Tutorial/graph_test.py:43-53 | the number of endpoints add_edge must create is at most 2, and 0 exactly when both are present |
| `AdjacencyMaps.MissingCount` | Graph-Tutorial/graph_test.py:43-53 | that number is exactly how many of the two keys are not yet vertices |
| `AdjacencyMaps.WithEdge` | Graph-Tutorial/graph.py:90-101 | the vertices become the old ones plus both endpoints; `key1`'s neighbours become `WithNeighbor` of the old ones with `key2`; every other vertex keeps its neighbours (a created one has none) |
| `AdjacencyMaps.WithEdgeGrowth` | Graph-Tutorial/graph_test.py:43-53 | add_edge grows the vertex count by exactly the number of missing endpoints |
| `AdjacencyMaps.WithEdgeEdges` | Graph-Tutorial/graph.py:90-101 | the edge set after add_edge is the old edge set plus the single pair (key1, key2) |
| `AdjacencyMaps.WithEdgeDirected` | Graph-Tutorial/graph_test.py:102-111 | for distinct endpoints, `key1` is a neighbour of `key2` afterwards only if it already was |
| `AdjacencyMaps.WithEdgeClosed` | Graph-Tutorial/graph.py:95-99 | add_edge keeps every neighbour inside the graph |
| `AdjacencyMaps.WithEdgeDuplicate` | Graph-Tutorial/graph_test.py:122-128 | adding an edge that already exists leaves the graph, weights included, unchanged |
| `AdjacencyMaps.WithEdgeIdempotent` | Graph-Tutorial/graph_test.py:122-128 | repeating add_edge for the same ordered pair, with any weight, changes nothing |
| `GraphTutorial.Graph.EnsureVertices` | Graph-Tutorial/graph.py:95-96 | each missing endpoint is added as a vertex; the counter grows by the number of missing endpoints; every vertex already stored keeps its key and object |
| `GraphTutorial.Graph.Connect` | Graph-Tutorial/graph.py:97-101 | `key2` becomes a neighbour of `key1` via add_neighbor on the vertex stored under `key1`, updated in place; the key-to-vertex dictionary itself is unchanged and no other vertex changes |
| `GraphTutorial.Graph.AddEdge` | Graph-Tutorial/graph.py:90-101 | the new model is `WithEdge` of the old; the counter grows by the number of missing endpoints; every vertex already stored keeps its key and object, so the vertex of `key1` itself gains the neighbour; the graph stays valid |
| `GraphTutorial.Graph.GetVertices` | Graph-Tutorial/graph.py:103-105 | the result is the set of vertex keys, and its size equals the counter |
| `GraphTutorial.Graph.GetNeighbors` | Graph-Tutorial/graph_test.py:102-120 | the result is the key's set of neighbour ids, all of them vertices of the graph |
| `AdjacencyMaps.RunKeys` | Graph-Tutorial/graph_test.py:130-148 | after any sequence of add_vertex/add_edge calls on a fresh graph, the vertices are exactly the keys the calls named |
| `AdjacencyMaps.RunCounter` | Graph-Tutorial/graph_test.py:31-62 | after any sequence of add_vertex/add_edge calls on a fresh graph (failed add_vertex calls included), the counter equals the number of vertices |
| `AdjacencyMaps.RunClosed` | Graph-Tutorial/graph.py:90-101 | after any sequence of add_vertex/add_edge calls on a fresh graph, every neighbour is a vertex |

## Left out

- The driver block at the end of `graph.py` only builds a sample graph and prints it.
- `__repr__`/`__str__` are display formatting only.
- `Graph.__iter__` is the Python iteration protocol. "All vertices" is `GetVertices` and the `Model` domain.
- `__hash__` is Python hashing. Identity by id is modelled by keying neighbour maps on the id.
- `GraphTutorial.Vertex.GetNeighbors` returns neighbour ids, not neighbour `Vertex` objects. Since equality is by id, the two carry the same information.
- `GraphTutorial.Graph.GetNeighbors` requires the key to be present. The source has no such method, and a dictionary lookup of a missing key would raise KeyError.
- Weights are integers. Python would accept any value, including floats.
- The test harness shims and the empty `Vertex` test stubs of `graph_test.py` assert nothing.
