/**
 * Value-level meaning of the adjacency-map graph of Graph-Tutorial/graph.py.
 *
 * A vertex's `neighbors` dictionary is a map from neighbour id to edge weight
 * (vertices compare and hash by id alone, so the dictionary is keyed by id),
 * and a graph is a map from vertex key to that vertex's neighbour map. The
 * classes in module GraphTutorial are proved against the functions here.
 */
module AdjacencyMaps {

  /** The one failure the graph signals: Python's KeyError. */
  datatype Error = KeyError

  datatype Result<T> = Ok(value: T) | Err(error: Error)

  datatype Option<T> = None | Some(value: T)

  /** Edge weight used when the caller gives none. */
  const DefaultWeight: int := 1

  /** Neighbour id to edge weight: one vertex's outgoing edges. */
  type Neighbors<K> = map<K, int>

  /** Vertex key to that vertex's outgoing edges. */
  type Adj<K> = map<K, Neighbors<K>>

  /** Every neighbour named in an adjacency is itself a vertex of the graph. */
  ghost predicate Closed<K>(g: Adj<K>)
  {
    forall u, v :: u in g && v in g[u] ==> v in g
  }

  /** The directed edges of a graph, as (from, to) pairs. */
  ghost function Edges<K>(g: Adj<K>): set<(K, K)>
  {
    set u, v | u in g && v in g[u] :: (u, v)
  }

  // ---------------------------------------------------------------------------
  // Vertex.add_neighbor

  /**
   * The neighbour map after adding neighbour `v` with weight `w`: the
   * neighbour is recorded only when absent; an existing weight is never
   * overwritten, and nothing else changes.
   */
  function WithNeighbor<K(==)>(nbrs: Neighbors<K>, v: K, w: int): (r: Neighbors<K>)
    ensures r.Keys == nbrs.Keys + {v}
    ensures v !in nbrs ==> r[v] == w
    ensures forall u :: u in nbrs ==> r[u] == nbrs[u]
  {
    if v in nbrs then nbrs else nbrs[v := w]
  }

  /** Adding an absent neighbour records it with exactly the given weight and grows the map by one. */
  lemma WithNeighborAbsent<K>(nbrs: Neighbors<K>, v: K, w: int)
    requires v !in nbrs
    ensures |WithNeighbor(nbrs, v, w)| == |nbrs| + 1
    ensures WithNeighbor(nbrs, v, w)[v] == w
  {
  }

  /** Adding a neighbour that is already present leaves the whole map as it was. */
  lemma WithNeighborPresent<K>(nbrs: Neighbors<K>, v: K, w: int)
    requires v in nbrs
    ensures WithNeighbor(nbrs, v, w) == nbrs
  {
  }

  /** A second add_neighbor for the same id, with any weight, is ignored. */
  lemma WithNeighborIdempotent<K>(nbrs: Neighbors<K>, v: K, w1: int, w2: int)
    ensures WithNeighbor(WithNeighbor(nbrs, v, w1), v, w2) == WithNeighbor(nbrs, v, w1)
  {
  }

  /** The neighbour set grows by at most one. */
  lemma WithNeighborGrowth<K>(nbrs: Neighbors<K>, v: K, w: int)
    ensures |nbrs| <= |WithNeighbor(nbrs, v, w)| <= |nbrs| + 1
  {
    if v !in nbrs {
      WithNeighborAbsent(nbrs, v, w);
    }
  }

  // ---------------------------------------------------------------------------
  // Graph.add_vertex

  /**
   * add_vertex: a new key gets an empty neighbour map and the graph grows by
   * exactly one vertex; a key already present is a KeyError.
   */
  function NewVertex<K(==)>(g: Adj<K>, k: K): (r: Result<Adj<K>>)
    ensures r.Ok? <==> k !in g
    ensures r.Ok? ==> r.value.Keys == g.Keys + {k} && |r.value| == |g| + 1
    ensures r.Ok? ==> r.value[k] == map[] && forall u :: u in g ==> r.value[u] == g[u]
  {
    if k in g then Err(KeyError) else Ok(g[k := map[]])
  }

  /** A successful add_vertex inserts an isolated vertex and keeps every neighbour inside the graph. */
  lemma NewVertexClosed<K>(g: Adj<K>, k: K)
    requires Closed(g) && k !in g
    ensures NewVertex(g, k) == Ok(g[k := map[]])
    ensures Closed(g[k := map[]])
  {
    var h := g[k := map[]];
    forall u, v | u in h && v in h[u] ensures v in h {
      assert u != k && u in g && v in g[u];
    }
  }

  /** A successful add_vertex adds no edge. */
  lemma NewVertexEdges<K>(g: Adj<K>, k: K)
    requires k !in g
    ensures Edges(NewVertex(g, k).value) == Edges(g)
  {
    var h := NewVertex(g, k).value;
    forall e | e in Edges(h) ensures e in Edges(g) {
      assert e.0 in h && e.1 in h[e.0];
      assert e.0 != k;
    }
    forall e | e in Edges(g) ensures e in Edges(h) {
      assert e.0 in g && e.1 in g[e.0];
    }
  }

  // ---------------------------------------------------------------------------
  // Graph.add_edge

  /** A key is made a vertex with no neighbours unless it is one already. */
  function WithVertex<K(==)>(g: Adj<K>, k: K): (r: Adj<K>)
    ensures r.Keys == g.Keys + {k}
    ensures forall u :: u in g ==> r[u] == g[u]
    ensures k !in g ==> r[k] == map[]
  {
    if k in g then g else g[k := map[]]
  }

  /** How many of the two endpoints add_edge has to create: 0, 1 or 2. */
  function Missing<K(==)>(g: Adj<K>, a: K, b: K): (n: nat)
    ensures n <= 2
    ensures n == 0 <==> a in g && b in g
  {
    (if a in g then 0 else 1) + (if b in g || b == a then 0 else 1)
  }

  /** Missing counts exactly the endpoints that are not yet vertices. */
  lemma MissingCount<K>(g: Adj<K>, a: K, b: K)
    ensures Missing(g, a, b) == |{a, b} - g.Keys|
  {
    if a in g && b in g {
      assert {a, b} - g.Keys == {};
    } else if a in g {
      assert {a, b} - g.Keys == {b};
    } else if b in g || b == a {
      assert {a, b} - g.Keys == {a};
    } else {
      assert {a, b} - g.Keys == {a, b};
    }
  }

  /**
   * add_edge(a, b, w): create each missing endpoint, then make `b` a
   * neighbour of `a` (and not the reverse) with weight `w` unless it is one
   * already. Every other vertex keeps its neighbour map.
   */
  function WithEdge<K(==)>(g: Adj<K>, a: K, b: K, w: int): (r: Adj<K>)
    ensures r.Keys == g.Keys + {a, b}
    ensures r[a] == WithNeighbor(if a in g then g[a] else map[], b, w)
    ensures forall u :: u in r && u != a ==> r[u] == (if u in g then g[u] else map[])
  {
    var h := WithVertex(WithVertex(g, a), b);
    h[a := WithNeighbor(h[a], b, w)]
  }

  /** add_edge grows the vertex count by exactly the number of missing endpoints. */
  lemma WithEdgeGrowth<K>(g: Adj<K>, a: K, b: K, w: int)
    ensures |WithEdge(g, a, b, w)| == |g| + Missing(g, a, b)
  {
    var g1 := WithVertex(g, a);
    var g2 := WithVertex(g1, b);
    assert |g1| == |g| + (if a in g then 0 else 1);
    assert |g2| == |g1| + (if b in g1 then 0 else 1);
    assert |g2[a := WithNeighbor(g2[a], b, w)]| == |g2|;
  }

  /** add_edge adds the single directed edge (a, b) and no other. */
  lemma WithEdgeEdges<K>(g: Adj<K>, a: K, b: K, w: int)
    ensures Edges(WithEdge(g, a, b, w)) == Edges(g) + {(a, b)}
  {
    var r := WithEdge(g, a, b, w);
    forall e | e in Edges(r) ensures e in Edges(g) + {(a, b)} {
      assert e.0 in r && e.1 in r[e.0];
      if e != (a, b) {
        assert e.0 in g && e.1 in g[e.0];
      }
    }
    forall e | e in Edges(g) + {(a, b)} ensures e in Edges(r) {
      if e == (a, b) {
        assert a in r && b in r[a];
      } else {
        assert e.0 in g && e.1 in g[e.0];
        assert e.0 in r && e.1 in r[e.0];
      }
    }
  }

  /** The graph is directed: add_edge(a, b) makes `a` a neighbour of `b` only if it already was. */
  lemma WithEdgeDirected<K>(g: Adj<K>, a: K, b: K, w: int)
    requires a != b
    ensures a in WithEdge(g, a, b, w)[b] <==> b in g && a in g[b]
  {
  }

  /** add_edge keeps every neighbour inside the graph. */
  lemma WithEdgeClosed<K>(g: Adj<K>, a: K, b: K, w: int)
    requires Closed(g)
    ensures Closed(WithEdge(g, a, b, w))
  {
    var r := WithEdge(g, a, b, w);
    forall u, v | u in r && v in r[u] ensures v in r {
      if u != a {
        assert u in g && v in g[u];
      } else if v != b {
        assert u in g && v in g[u];
      }
    }
  }

  /** A duplicate edge is ignored: the graph, weights included, is unchanged. */
  lemma WithEdgeDuplicate<K>(g: Adj<K>, a: K, b: K, w: int)
    requires Closed(g) && a in g && b in g[a]
    ensures WithEdge(g, a, b, w) == g
  {
    var r := WithEdge(g, a, b, w);
    assert r.Keys == g.Keys;
    forall u | u in g ensures r[u] == g[u] {
      if u == a {
        WithNeighborPresent(g[a], b, w);
      }
    }
  }

  /** Repeating add_edge for the same ordered pair, with any weight, changes nothing. */
  lemma WithEdgeIdempotent<K>(g: Adj<K>, a: K, b: K, w1: int, w2: int)
    ensures WithEdge(WithEdge(g, a, b, w1), a, b, w2) == WithEdge(g, a, b, w1)
  {
    var r := WithEdge(g, a, b, w1);
    var r2 := WithEdge(r, a, b, w2);
    assert r2.Keys == r.Keys;
    forall u | u in r ensures r2[u] == r[u] {
      if u == a {
        WithNeighborPresent(r[a], b, w2);
      }
    }
  }

  // ---------------------------------------------------------------------------
  // Sequences of calls on a fresh graph

  /** One mutating call on the graph. */
  datatype Op<K> = AddVertexOp(key: K) | AddEdgeOp(from: K, to: K, weight: int)

  /** The graph after one call; a failing add_vertex leaves it unchanged. */
  function Apply<K(==)>(g: Adj<K>, op: Op<K>): Adj<K>
  {
    match op
    case AddVertexOp(k) =>
      (match NewVertex(g, k)
       case Ok(h) => h
       case Err(_) => g)
    case AddEdgeOp(a, b, w) => WithEdge(g, a, b, w)
  }

  /** How much the source's `num_vertices` counter goes up for one call. */
  function Increment<K(==)>(g: Adj<K>, op: Op<K>): nat
  {
    match op
    case AddVertexOp(k) => if k in g then 0 else 1
    case AddEdgeOp(a, b, _) => Missing(g, a, b)
  }

  /** The graph after running `ops` on a fresh graph. */
  function Run<K(==)>(ops: seq<Op<K>>): Adj<K>
  {
    if ops == [] then map[] else Apply(Run(ops[..|ops| - 1]), ops[|ops| - 1])
  }

  /** The counter after running `ops` on a fresh graph (which starts at 0). */
  function Counter<K(==)>(ops: seq<Op<K>>): nat
  {
    if ops == [] then 0
    else Counter(ops[..|ops| - 1]) + Increment(Run(ops[..|ops| - 1]), ops[|ops| - 1])
  }

  /** Every key named by `ops`, whether by add_vertex or by add_edge. */
  function KeysOf<K(==)>(ops: seq<Op<K>>): set<K>
  {
    if ops == [] then {}
    else
      KeysOf(ops[..|ops| - 1]) +
      match ops[|ops| - 1]
      case AddVertexOp(k) => {k}
      case AddEdgeOp(a, b, _) => {a, b}
  }

  /** After any sequence of calls on a fresh graph, the vertices are exactly the keys those calls named. */
  lemma {:induction false} RunKeys<K>(ops: seq<Op<K>>)
    ensures Run(ops).Keys == KeysOf(ops)
  {
    if ops != [] {
      var prefix, op := ops[..|ops| - 1], ops[|ops| - 1];
      RunKeys(prefix);
    }
  }

  /** After any sequence of calls on a fresh graph, the counter equals the number of vertices. */
  lemma {:induction false} RunCounter<K>(ops: seq<Op<K>>)
    ensures Counter(ops) == |Run(ops)|
  {
    if ops != [] {
      var prefix, op := ops[..|ops| - 1], ops[|ops| - 1];
      RunCounter(prefix);
      var g := Run(prefix);
      match op
      case AddVertexOp(k) =>
      case AddEdgeOp(a, b, w) =>
        WithEdgeGrowth(g, a, b, w);
    }
  }

  /** After any sequence of calls on a fresh graph, every neighbour is a vertex. */
  lemma {:induction false} RunClosed<K>(ops: seq<Op<K>>)
    ensures Closed(Run(ops))
  {
    if ops != [] {
      var prefix, op := ops[..|ops| - 1], ops[|ops| - 1];
      RunClosed(prefix);
      var g := Run(prefix);
      match op
      case AddVertexOp(k) =>
        if k !in g {
          NewVertexClosed(g, k);
          assert Run(ops) == g[k := map[]];
        }
      case AddEdgeOp(a, b, w) =>
        WithEdgeClosed(g, a, b, w);
    }
  }
}
