/** What the queries of src/graphix.rs:18-35 return on a store built by
    `from_list`, stated on the reference store `Build(edges)` (which the
    method `CsrBuild.FromList` is proved to produce). */
module CsrProperties {
  import opened Csr
  import opened CsrSpec

  /** The vertex count is one more than the largest endpoint: every endpoint
      lies below it, some endpoint reaches it, and no edges means no vertices. */
  lemma VertexCountIsMaxPlusOne<K>(edges: seq<Edge<K>>)
    ensures edges == [] ==> VertexCount(edges) == 0
    ensures forall i :: 0 <= i < |edges| ==>
              edges[i].src < VertexCount(edges) && edges[i].dst < VertexCount(edges)
    ensures edges != [] ==>
              (exists i :: 0 <= i < |edges| &&
                 (edges[i].src == VertexCount(edges) - 1 || edges[i].dst == VertexCount(edges) - 1))
  {
    forall i | 0 <= i < |edges|
      ensures edges[i].src < VertexCount(edges) && edges[i].dst < VertexCount(edges)
    {
      EndpointsBelowVertexCount(edges, i);
    }
    if edges != [] {
      var i := VertexCountInAttained(edges, |edges|);
      assert edges[i].src == VertexCount(edges) - 1 || edges[i].dst == VertexCount(edges) - 1;
    }
  }

  /** The offset table of the built store: it has one entry per vertex plus
      one, starts at 0, never decreases, ends at 2m, and the range of every
      vertex is as long as its number of endpoint occurrences. */
  lemma BuildOffsets<K>(edges: seq<Edge<K>>)
    ensures |Build(edges).v| == VertexCount(edges) + 1
    ensures Build(edges).v[0] == 0
    ensures forall a, b :: 0 <= a <= b < |Build(edges).v| ==> Build(edges).v[a] <= Build(edges).v[b]
    ensures Build(edges).v[VertexCount(edges)] == 2 * |edges|
    ensures forall u :: 0 <= u < VertexCount(edges) ==>
              Build(edges).v[u + 1] - Build(edges).v[u] == Degree(edges, u)
  {
    var n := VertexCount(edges);
    var v := Build(edges).v;
    forall a, b | 0 <= a <= b < |v|
      ensures v[a] <= v[b]
    {
      OffsetMonotone(edges, a, b);
    }
    VertexCountIsMaxPlusOne(edges);
    OffsetIsTwiceEdges(edges, n);
  }

  /** The built store satisfies the layout invariant; it has exactly
      `VertexCount(edges)` vertices and 2m half-edges, so `num_edges` is m. */
  lemma BuildIsValid<K>(edges: seq<Edge<K>>)
    ensures Build(edges).Valid()
    ensures |Build(edges).e| == 2 * |edges|
    ensures Build(edges).NumVertices() == VertexCount(edges)
    ensures Build(edges).NumEdges() == |edges|
  {
    BuildOffsets(edges);
    LayoutLength(edges, VertexCount(edges));
  }

  /** An empty edge list gives the single offset 0 and empty tables: zero
      vertices and zero edges. */
  lemma BuildEmpty<K>(edges: seq<Edge<K>>)
    requires edges == []
    ensures Build(edges) == GraphRep([0], [], [])
    ensures Build(edges).NumVertices() == 0 && Build(edges).NumEdges() == 0
  {
    assert Build(edges).v == [0];
  }

  /** The edge table is the input list unchanged: `original_edge(i)` gives the
      `i`-th input triple below m and `None` from m on. */
  lemma BuildOriginalEdge<K>(edges: seq<Edge<K>>, i: nat)
    ensures Build(edges).id == edges
    ensures i < |edges| ==> Build(edges).OriginalEdge(i) == Some(edges[i])
    ensures i >= |edges| ==> Build(edges).OriginalEdge(i) == None
  {
  }

  /** The half-edges of a vertex in the built store are exactly the ones its
      incident edges contribute, in input order. */
  lemma EdgesFromBuild<K>(edges: seq<Edge<K>>, u: nat)
    requires u < VertexCount(edges)
    ensures Build(edges).Valid() && u < Build(edges).NumVertices()
    ensures Build(edges).EdgesFrom(u) == Incident(edges, u)
  {
    var g := Build(edges);
    var n := VertexCount(edges);
    BuildIsValid(edges);
    IncidentLength(edges, u);
    var r := g.EdgesFrom(u);
    forall j | 0 <= j < |r|
      ensures r[j] == Incident(edges, u)[j]
    {
      LayoutAt(edges, n, u, j);
    }
  }

  /** The range of every vertex is as long as its degree, a self-loop
      counting twice. */
  lemma EdgesFromDegree<K>(edges: seq<Edge<K>>, u: nat)
    requires u < VertexCount(edges)
    ensures Build(edges).Valid() && u < Build(edges).NumVertices()
    ensures |Build(edges).EdgesFrom(u)| == Degree(edges, u)
  {
    EdgesFromBuild(edges, u);
    IncidentLength(edges, u);
  }

  /** Symmetry: input edge `i = (s, d, w)` is stored as `(d, w, i)` at `s` and
      as `(s, w, i)` at `d`. */
  lemma EdgeStoredBothWays<K>(edges: seq<Edge<K>>, i: nat)
    requires i < |edges|
    ensures edges[i].src < Build(edges).NumVertices() && edges[i].dst < Build(edges).NumVertices()
    ensures Build(edges).Valid()
    ensures HalfEdge(edges[i].dst, edges[i].weight, i) in Build(edges).EdgesFrom(edges[i].src)
    ensures HalfEdge(edges[i].src, edges[i].weight, i) in Build(edges).EdgesFrom(edges[i].dst)
  {
    EndpointsBelowVertexCount(edges, i);
    EdgesFromBuild(edges, edges[i].src);
    EdgesFromBuild(edges, edges[i].dst);
    IncidentInContains(edges, |edges|, i);
  }

  /** Provenance: every half-edge at `u` carries the id of an input edge that
      joins `u` to the stored neighbor, and that edge's weight. */
  lemma HalfEdgeFromInput<K>(edges: seq<Edge<K>>, u: nat, h: HalfEdge<K>)
    requires u < VertexCount(edges)
    requires Build(edges).Valid() && h in Build(edges).EdgesFrom(u)
    ensures h.edgeId < |edges|
    ensures h.weight == edges[h.edgeId].weight
    ensures (edges[h.edgeId].src == u && edges[h.edgeId].dst == h.neighbor) ||
            (edges[h.edgeId].dst == u && edges[h.edgeId].src == h.neighbor)
  {
    EdgesFromBuild(edges, u);
    IncidentInFromInput(edges, |edges|, u, h);
  }

  /** The reverse half-edge exists: if `(x, w, i)` is stored at `u`, then
      `(u, w, i)` is stored at `x`, with the same weight and id. */
  lemma ReverseHalfEdge<K>(edges: seq<Edge<K>>, u: nat, h: HalfEdge<K>)
    requires u < VertexCount(edges)
    requires Build(edges).Valid() && h in Build(edges).EdgesFrom(u)
    ensures h.neighbor < Build(edges).NumVertices()
    ensures HalfEdge(u, h.weight, h.edgeId) in Build(edges).EdgesFrom(h.neighbor)
  {
    HalfEdgeFromInput(edges, u, h);
    EdgeStoredBothWays(edges, h.edgeId);
  }

  /** Stable scatter: within the range of a vertex, half-edges appear in input
      order, so edge ids never decrease (they repeat only for a self-loop). */
  lemma EdgesFromInInputOrder<K>(edges: seq<Edge<K>>, u: nat, a: nat, b: nat)
    requires u < VertexCount(edges)
    requires Build(edges).Valid() && a <= b < |Build(edges).EdgesFrom(u)|
    ensures Build(edges).EdgesFrom(u)[a].edgeId <= Build(edges).EdgesFrom(u)[b].edgeId
  {
    EdgesFromBuild(edges, u);
    IncidentInInInputOrder(edges, |edges|, u, a, b);
  }

  /** Provenance: every slot of the half-edge table holds a half-edge of some
      input edge, with that edge's weight and one of its endpoints as the
      neighbor. */
  lemma EverySlotFromInput<K>(edges: seq<Edge<K>>, p: nat)
    requires p < |Build(edges).e|
    ensures Build(edges).e[p].edgeId < |edges|
    ensures Build(edges).e[p].weight == edges[Build(edges).e[p].edgeId].weight
    ensures Build(edges).e[p].neighbor == edges[Build(edges).e[p].edgeId].src ||
            Build(edges).e[p].neighbor == edges[Build(edges).e[p].edgeId].dst
  {
    var h := Build(edges).e[p];
    var u := LayoutMember(edges, VertexCount(edges), h);
    IncidentInFromInput(edges, |edges|, u, h);
  }

  /** A half-edge in the ranges below `k` belongs to the range of one of them. */
  lemma {:induction false} LayoutMember<K>(edges: seq<Edge<K>>, k: nat, h: HalfEdge<K>) returns (u: nat)
    requires h in LayoutUpTo(edges, k)
    ensures u < k && h in Incident(edges, u)
    decreases k
  {
    if h in LayoutUpTo(edges, k - 1) {
      u := LayoutMember(edges, k - 1, h);
    } else {
      u := k - 1;
    }
  }

  /** The triangle 0-1-2 with weights 1, 2, 3, on the reference functions:
      three vertices, each of degree 2, with vertex 0 receiving `(1, 1, 0)`
      from edge 0 and `(2, 3, 2)` from edge 2. */
  lemma TriangleLayout()
    ensures var edges := [Edge(0, 1, 1), Edge(1, 2, 2), Edge(2, 0, 3)];
      VertexCount(edges) == 3 &&
      Degree(edges, 0) == 2 && Degree(edges, 1) == 2 && Degree(edges, 2) == 2 &&
      Incident(edges, 0) == [HalfEdge(1, 1, 0), HalfEdge(2, 3, 2)]
  {
    var edges := [Edge(0, 1, 1), Edge(1, 2, 2), Edge(2, 0, 3)];
    assert VertexCountIn(edges, 1) == 2 && VertexCountIn(edges, 2) == 3;
    assert IncidentIn(edges, 2, 0) == [HalfEdge(1, 1, 0)];
    assert DegreeIn(edges, 2, 0) == 1 && DegreeIn(edges, 2, 1) == 2 && DegreeIn(edges, 2, 2) == 1;
  }

  /** The same triangle on the built store: `num_vertices` and `num_edges`
      are 3, every range has two half-edges, and `edges_from(0)` is
      `[(1, 1, 0), (2, 3, 2)]`. */
  lemma Triangle()
    ensures var g := Build([Edge(0, 1, 1), Edge(1, 2, 2), Edge(2, 0, 3)]);
      g.Valid() && g.NumVertices() == 3 && g.NumEdges() == 3 &&
      |g.EdgesFrom(0)| == 2 && |g.EdgesFrom(1)| == 2 && |g.EdgesFrom(2)| == 2 &&
      g.EdgesFrom(0) == [HalfEdge(1, 1, 0), HalfEdge(2, 3, 2)]
  {
    var edges := [Edge(0, 1, 1), Edge(1, 2, 2), Edge(2, 0, 3)];
    TriangleLayout();
    BuildIsValid(edges);
    EdgesFromBuild(edges, 0);
    EdgesFromDegree(edges, 1);
    EdgesFromDegree(edges, 2);
  }
}
