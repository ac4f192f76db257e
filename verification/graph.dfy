/**
 * The two classes of Graph-Tutorial/graph.py: a Vertex holding its
 * neighbour dictionary, and a Graph holding a dictionary from key to Vertex
 * and a vertex counter. Each mutating method is proved against the
 * value-level functions of module AdjacencyMaps.
 */
module GraphTutorial {
  import opened AdjacencyMaps

  /**
   * A vertex: an immutable id and a mutable neighbour dictionary. Because
   * vertices compare and hash by id alone, the dictionary is keyed by the
   * neighbour's id.
   */
  class Vertex<K(==)> {
    const id: K
    var neighbors: Neighbors<K>

    constructor (vertexId: K)
      ensures id == vertexId
      ensures neighbors == map[]
    {
      id := vertexId;
      neighbors := map[];
    }

    /** Vertices are equal exactly when their ids are; `!=` between vertices is the negation. */
    predicate Equals(other: Vertex<K>)
      ensures Equals(other) <==> id == other.id
    {
      id == other.id
    }

    /** Records `vertex` as a neighbour with `weight` unless it is one already. */
    method AddNeighbor(vertex: Vertex<K>, weight: int := DefaultWeight)
      modifies this`neighbors
      ensures neighbors == WithNeighbor(old(neighbors), vertex.id, weight)
    {
      if vertex.id !in neighbors {
        neighbors := neighbors[vertex.id := weight];
      }
    }

    /** The ids of this vertex's neighbours. */
    function GetNeighbors(): (r: set<K>)
      reads this
      ensures r == neighbors.Keys
    {
      neighbors.Keys
    }

    /** The id this vertex was created with. */
    function GetId(): (r: K)
      ensures r == id
    {
      id
    }

    /** The weight of the edge to `vertex`; a non-neighbour is a KeyError, so membership is required. */
    function GetEdgeWeight(vertex: Vertex<K>): (r: int)
      reads this
      requires vertex.id in neighbors
      ensures r == neighbors[vertex.id]
    {
      neighbors[vertex.id]
    }
  }

  /**
   * A graph: the dictionary `vertList` from key to Vertex and the counter
   * `numVertices`. The ghost field `Model` is the graph's abstract value
   * (key to neighbour map) and `Repr` the set of Vertex objects it owns.
   */
  class Graph<K(==)> {
    var vertList: map<K, Vertex<K>>
    var numVertices: int
    ghost var Model: Adj<K>
    ghost var Repr: set<Vertex<K>>

    /**
     * Each vertex is owned and stored under its own id (so distinct keys
     * hold distinct objects) and holds the neighbours `Model` gives it; the
     * counter equals the number of vertices, and every neighbour is a
     * vertex of this graph.
     */
    ghost predicate Valid()
      reads this, Repr
    {
      && vertList.Keys == Model.Keys
      && (forall k :: k in vertList ==>
            vertList[k] in Repr && vertList[k].id == k && vertList[k].neighbors == Model[k])
      && numVertices == |Model|
      && Closed(Model)
    }

    constructor ()
      ensures Valid() && fresh(Repr)
      ensures Model == map[] && numVertices == 0
    {
      vertList := map[];
      numVertices := 0;
      Model := map[];
      Repr := {};
    }

    /** The number of vertices, read from the counter. */
    function Size(): (r: int)
      reads this, Repr
      requires Valid()
      ensures r == |Model|
    {
      numVertices
    }

    /** Whether `key` names a vertex. */
    function HasVertex(key: K): (r: bool)
      reads this, Repr
      requires Valid()
      ensures r <==> key in Model
    {
      key in vertList
    }

    /**
     * Adds a vertex with no neighbours under a new `key` and returns it; a
     * key already present is a KeyError and changes nothing.
     */
    method AddVertex(key: K) returns (r: Result<Vertex<K>>)
      requires Valid()
      modifies this
      ensures Valid() && fresh(Repr - old(Repr))
      ensures r.Err? <==> key in old(Model)
      ensures r.Err? ==> Model == old(Model) && numVertices == old(numVertices)
      ensures r.Ok? ==> NewVertex(old(Model), key) == Ok(Model) && numVertices == old(numVertices) + 1
      ensures r.Ok? ==> fresh(r.value) && r.value.id == key && vertList[key] == r.value
      ensures forall k :: k in old(vertList) ==> k in vertList && vertList[k] == old(vertList)[k]
    {
      if key in vertList {
        return Err(KeyError);
      }
      NewVertexClosed(Model, key);
      var v := new Vertex(key);
      ghost var oldList, oldModel := vertList, Model;
      vertList := vertList[key := v];
      numVertices := numVertices + 1;
      Model := Model[key := map[]];
      Repr := Repr + {v};
      forall k | k in vertList
        ensures vertList[k] in Repr && vertList[k].id == k && vertList[k].neighbors == Model[k]
      {
        if k != key {
          assert k in oldList && vertList[k] == oldList[k] && Model[k] == oldModel[k];
        }
      }
      r := Ok(v);
    }

    /** The vertex stored under `key`, if there is one. */
    function GetVertex(key: K): (r: Option<Vertex<K>>)
      reads this, Repr
      requires Valid()
      ensures r.Some? <==> key in Model
      ensures r.Some? ==> r.value == vertList[key] && r.value.id == key && r.value.neighbors == Model[key]
    {
      if key in vertList then Some(vertList[key]) else None
    }

    /** Adds each of `key1` and `key2` as a vertex unless it is one already (add_edge's auto-creation). */
    method EnsureVertices(key1: K, key2: K)
      requires Valid()
      modifies this
      ensures Valid() && fresh(Repr - old(Repr))
      ensures Model == WithVertex(WithVertex(old(Model), key1), key2)
      ensures numVertices == old(numVertices) + Missing(old(Model), key1, key2)
      ensures forall k :: k in old(vertList) ==> k in vertList && vertList[k] == old(vertList)[k]
    {
      if key1 !in vertList {
        var created := AddVertex(key1);
      }
      if key2 !in vertList {
        var created := AddVertex(key2);
      }
    }

    /** Makes `key2` a neighbour of the vertex stored under `key1` (add_edge's last step). */
    method Connect(key1: K, key2: K, weight: int)
      requires Valid() && key1 in Model && key2 in Model
      modifies this, vertList[key1]
      ensures Valid() && Repr == old(Repr) && numVertices == old(numVertices)
      ensures vertList == old(vertList)
      ensures Model == old(Model)[key1 := WithNeighbor(old(Model)[key1], key2, weight)]
    {
      var from := vertList[key1];
      from.AddNeighbor(vertList[key2], weight);
      Model := Model[key1 := from.neighbors];
      assert forall k :: k in vertList && k != key1 ==> vertList[k] != from;
    }

    /**
     * Adds the directed edge from `key1` to `key2` with `weight`: each
     * missing endpoint is first added as a vertex, then `key2` becomes a
     * neighbour of `key1` unless it is one already.
     */
    method AddEdge(key1: K, key2: K, weight: int := DefaultWeight)
      requires Valid()
      modifies this, Repr
      ensures Valid() && fresh(Repr - old(Repr))
      ensures Model == WithEdge(old(Model), key1, key2, weight)
      ensures numVertices == old(numVertices) + Missing(old(Model), key1, key2)
      ensures forall k :: k in old(vertList) ==> k in vertList && vertList[k] == old(vertList)[k]
    {
      WithEdgeClosed(Model, key1, key2, weight);
      EnsureVertices(key1, key2);
      Connect(key1, key2, weight);
    }

    /** The keys of all vertices. */
    function GetVertices(): (r: set<K>)
      reads this, Repr
      requires Valid()
      ensures r == Model.Keys
      ensures |r| == numVertices
    {
      vertList.Keys
    }

    /** The keys of the neighbours of the vertex stored under `key`. */
    function GetNeighbors(key: K): (r: set<K>)
      reads this, Repr
      requires Valid() && key in Model
      ensures r == Model[key].Keys
      ensures r <= Model.Keys
    {
      vertList[key].GetNeighbors()
    }
  }
}
