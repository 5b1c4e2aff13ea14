/** The compressed-sparse-row (CSR) store of an undirected weighted graph and
    its read-only query surface (src/graphix.rs, `GraphRep<K>`).

    The store keeps three tables:
    - `v`, the vertex offsets: the half-edges of vertex `u` are `e[v[u]..v[u+1]]`;
    - `e`, the half-edges `(neighbor, weight, edge id)`, two per undirected edge;
    - `id`, the original edge list, indexed by edge id.
    The weight type `K` is only ever copied, never compared. */
module Csr {

  datatype Option<T> = None | Some(value: T)

  /** An input edge `(u, v, weight)`; its position in the input list is its edge id. */
  datatype Edge<K> = Edge(src: nat, dst: nat, weight: K)

  /** One direction of an undirected edge, stored in the range of the vertex it leaves. */
  datatype HalfEdge<K> = HalfEdge(neighbor: nat, weight: K, edgeId: nat)

  datatype GraphRep<K> = GraphRep(v: seq<nat>, e: seq<HalfEdge<K>>, id: seq<Edge<K>>)
  {
    /** The layout invariant every store built by `from_list` keeps: the offsets
        start at 0, never decrease, and end at the length of the half-edge table,
        so every vertex range is a well-formed slice of `e`. */
    ghost predicate Valid()
    {
      |v| >= 1 && v[0] == 0 && v[|v| - 1] == |e| &&
      forall a, b :: 0 <= a <= b < |v| ==> v[a] <= v[b]
    }

    /** The half-edges of `u`. A vertex outside `[0, NumVertices())` is a fatal
        bounds violation in the source, hence a precondition here. */
    function EdgesFrom(u: nat): (r: seq<HalfEdge<K>>)
      requires Valid() && u < NumVertices()
      ensures |r| == v[u + 1] - v[u]
      ensures forall k :: 0 <= k < |r| ==> r[k] == e[v[u] + k]
    {
      e[v[u]..v[u + 1]]
    }

    /** The recorded input triple with this edge id, or `None` past the end. */
    function OriginalEdge(i: nat): (r: Option<Edge<K>>)
      ensures r.Some? <==> i < |id|
      ensures r.Some? ==> r.value == id[i]
    {
      if i < |id| then Some(id[i]) else None
    }

    /** One less than the number of offsets; the offset table is never empty.
        The last vertex range ends at the last offset, which on a well-formed
        store is the end of the half-edge table. */
    function NumVertices(): (r: nat)
      requires |v| >= 1
      ensures r < |v|
      ensures Valid() ==> v[r] == |e|
    {
      |v| - 1
    }

    /** Half the number of half-edges, rounded down. */
    function NumEdges(): (r: nat)
      ensures 2 * r <= |e| <= 2 * r + 1
    {
      |e| / 2
    }
  }
}
