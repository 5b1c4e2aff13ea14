# CSR graph store of graphix, in Dafny

This project models `GraphRep<K>` from `src/graphix.rs`. It is the
compressed-sparse-row (CSR) store of an undirected weighted graph, with three
tables:

- `v` holds the vertex offsets. It has one entry per vertex plus one, and the
  half-edges of vertex `u` are `e[v[u]..v[u+1]]`.
- `e` holds the half-edges `(neighbor, weight, edge id)`. Every undirected edge
  is stored twice, once at each endpoint.
- `id` is the original edge list. The edge id of an edge is its position in it.

The model has four modules:

- `Csr` (`graphrep.dfy`) holds the entities and the read-only queries:
  `EdgesFrom`, `OriginalEdge`, `NumVertices` and `NumEdges`. The store is a
  datatype value, because nothing updates it once `from_list` has returned it.
- `CsrSpec` (`layout.dfy`) is the reference definition of the layout, written
  as functions of the input list.
  - `VertexCount` is one more than the largest endpoint.
  - `Degree` counts the endpoint occurrences of a vertex. A self-loop counts
    twice.
  - `Incident` lists the half-edges a vertex receives, in input order.
  - `Offset` sums the degrees of the lower vertices.
  - `LayoutUpTo` puts the vertex ranges one after the other.
  - `Build` assembles the store that `from_list` is meant to return.
  The module also proves the facts about these functions that the build needs,
  such as the handshake lemma: the degrees sum to twice the number of edges.
- `CsrBuild` (`build.dfy`) is `from_list` as imperative code over arrays,
  following the source's phases.
  - `CountDegrees` is the degree count.
  - `PrefixSums` fuses the prefix sum with the initialisation of the write cursor.
  - `Scatter` allocates the half-edge table and runs the scatter loop
    `ScatterEdges`. The loop body is `ScatterEdge`, one edge per round.
    `Place` is the "write at the cursor, then advance it" step, which the
    source does twice per edge.
  - `FromList` composes the phases and is proved to return exactly
    `Build(edges)`.
- `CsrProperties` (`properties.dfy`) proves what the queries return on a built
  store. It covers vertex and edge counts, the shape of the offsets, symmetry,
  provenance (every slot holds a half-edge of an input edge) and stable order.
  It also has the triangle example from the source's tests. That every vertex
  range is filled to its end is proved on the build itself, by `Scatter` and
  `ScatterEdges`.

Two points where the model reads the code closely:

- The weight type `K` is generic and is only copied. The `PartialOrd` bound on
  `K` (src/graphix.rs:17) is never used: no weight is compared anywhere.
- The empty store is `v = [0]` (src/graphix.rs:43). The comment on that line
  says this keeps `edges_from(u)` in bounds. It does not: on the empty store
  every `edges_from` call panics. For vertex 0 the panic is at
  src/graphix.rs:20, which reads `v[1]`; for any vertex `u >= 1` it comes
  earlier, at src/graphix.rs:19, which reads `v[u]`.
  `EdgesFrom` requires `u < NumVertices()`, and no vertex meets that on the
  empty store.

## Model

| member | source | states |
|---|---|---|
| `Csr.GraphRep.EdgesFrom` | src/graphix.rs:18-23 | defined only for a vertex below the vertex count of a well-formed store; returns the `v[u+1] - v[u]` half-edges stored from `v[u]` on |
| `Csr.GraphRep.NumVertices` | src/graphix.rs:29-31 | `|v| - 1`, defined for a non-empty offset table; it indexes the last offset, which on a well-formed store is the end of `e`; on a built store it equals `VertexCount(edges)` (`BuildIsValid`) and is 0 for no edges (`BuildEmpty`) |
| `Csr.GraphRep.NumEdges` | src/graphix.rs:33-35 | half the number of half-edges, rounded down; on a built store it equals m (`BuildIsValid`) and is 0 for no edges (`BuildEmpty`) |
| `Csr.GraphRep.OriginalEdge` | src/graphix.rs:25-27 | `Some` exactly when the id is below the length of the edge table, and then the recorded triple; `None` otherwise, never a failure |
| `CsrBuild.FromList` | src/graphix.rs:38-88 | the store built from any edge list is exactly the reference store `Build(edges)`; an empty list gives `v = [0]`, empty `e`, empty `id` |
| `CsrSpec.VertexCount` | src/graphix.rs:49-53 | the `n` that `from_list` computes: 0 exactly when there are no edges; every endpoint lies below it and some endpoint equals it minus one (`VertexCountIsMaxPlusOne`) |
| `CsrBuild.CountDegrees` | src/graphix.rs:55-60 | a fresh table of `n + 1` counters in which every vertex holds its number of endpoint occurrences, a self-loop counting twice |
| `CsrBuild.PrefixSums` | src/graphix.rs:62-70 | every slot of `v` becomes the sum of the degrees of the vertices before it, and the write cursor is a fresh copy of these offsets |
| `CsrBuild.Scatter` | src/graphix.rs:72-85 | given the offsets and a cursor equal to them, fills a fresh table of exactly 2m half-edges with the reference layout; afterwards `write_cursor[u] == v[u+1]` for every vertex, so every range was filled to its end, and the last cursor slot `write_cursor[n]` still holds `v[n]` |
| `CsrBuild.ScatterEdges` | src/graphix.rs:75-85 | starting from empty ranges, every edge in input order is placed at both endpoints, so each vertex ends up holding exactly the half-edges it receives; the scatter invariant, including the untouched last cursor slot, is kept |
| `CsrBuild.ScatterEdge` | src/graphix.rs:75-84 | edge `i` appends `(dst, w, i)` to the range of its source and `(src, w, i)` to the range of its destination, so each vertex holds the half-edges of the first `i + 1` edges; a self-loop appends both to one range; the scatter invariant is kept |
| `CsrBuild.Place` | src/graphix.rs:77-79 | writes the half-edge at the vertex's cursor, advances that cursor, and leaves every other range and cursor as it was, the last cursor slot included |
| `CsrSpec.OffsetIsTwiceEdges` | src/graphix.rs:63-70 | once every endpoint lies below `k`, the offset of `k` is twice the number of edges: the last offset equals the length of `e` |
| `CsrProperties.VertexCountIsMaxPlusOne` | src/graphix.rs:49-53 | the vertex count is 0 for no edges; otherwise every endpoint lies below it and some endpoint equals it minus one |
| `CsrProperties.BuildOffsets` | src/graphix.rs:56-70 | `v` has `n + 1` entries, `v[0] == 0`, the entries never decrease, `v[n] == 2m`, and `v[u+1] - v[u]` is the number of endpoint occurrences of `u` |
| `CsrProperties.BuildIsValid` | src/graphix.rs:29-35 | the built store keeps the layout invariant, has 2m half-edges, `num_vertices()` equal to the vertex count and `num_edges()` equal to m |
| `CsrProperties.BuildEmpty` | src/graphix.rs:40-47 | the empty list builds `v = [0]` with empty tables, so `num_vertices() == 0` and `num_edges() == 0` |
| `CsrProperties.BuildOriginalEdge` | src/graphix.rs:48 | the edge table is the input unchanged, so `original_edge(i)` is the `i`-th input triple below m and `None` from m on |
| `CsrProperties.EdgesFromBuild` | src/graphix.rs:73-85 | `edges_from(u)` is exactly the list of half-edges that the edges incident to `u` contribute, in input order |
| `CsrProperties.EdgesFromDegree` | src/graphix.rs:56-60 | `edges_from(u)` has as many half-edges as `u` has endpoint occurrences |
| `CsrProperties.EdgeStoredBothWays` | src/graphix.rs:75-85 | input edge `i = (s, d, w)` appears as `(d, w, i)` in `edges_from(s)` and as `(s, w, i)` in `edges_from(d)` |
| `CsrProperties.HalfEdgeFromInput` | src/graphix.rs:75-85 | every half-edge at `u` carries the id of an input edge that joins `u` to the stored neighbour, and that edge's weight |
| `CsrProperties.ReverseHalfEdge` | src/graphix.rs:75-85 | if `(x, w, i)` is in `edges_from(u)`, then `x` is a vertex and `(u, w, i)` is in `edges_from(x)` |
| `CsrProperties.EdgesFromInInputOrder` | src/graphix.rs:75-85 | within `edges_from(u)` edge ids never decrease: the scatter is stable |
| `CsrProperties.EverySlotFromInput` | src/graphix.rs:72-85 | every slot of `e` holds a half-edge of a real input edge, with that edge's id and weight and one of its endpoints as neighbour; that every slot was written is `Scatter`'s cursor postcondition |
| `CsrProperties.TriangleLayout` | src/graphix.rs:104-118 | for the triangle `[(0,1,1), (1,2,2), (2,0,3)]`: 3 vertices, each of degree 2, and vertex 0 receives `(1,1,0)` then `(2,3,2)` |
| `CsrProperties.Triangle` | src/graphix.rs:104-118 | the built triangle has `num_vertices() == 3`, `num_edges() == 3`, every range has two half-edges, and `edges_from(0) == [(1,1,0), (2,3,2)]` |

## Left out

- Contraction, full rebuild and the canonical "all edges" and "current edges" listings are not modelled. `src/graphix.rs` has no code for them.
- `Vec::with_capacity` and borrowed-slice lifetimes are not modelled. `EdgesFrom` returns a sequence value instead of a borrowed slice.
- No lemma states that an unwritten slot could be told apart from a written one. The placeholder `(0, weight of edge 0, 0)` (src/graphix.rs:73-74) is the source's own value, and it can coincide with a real half-edge (for `[(1, 0, w)]` it does). That every slot is overwritten is shown by `Scatter`: every cursor ends at the next offset and `e` equals the reference layout.
- CsrBuild.FromList: accepts any endpoint and always returns a store. The source does not. `mx + 1` (src/graphix.rs:53) overflows when an endpoint is `usize::MAX`, and `n + 1` (src/graphix.rs:56) overflows when it is `usize::MAX - 1`. A debug build panics at the overflowing sum; a release build wraps it and panics at the first `v[u]` or `v[vtx]` it indexes out of range (src/graphix.rs:58-59). For a smaller but still huge endpoint, `vec![0; n + 1]` (src/graphix.rs:56) panics with a capacity overflow when the offsets would exceed `isize::MAX` bytes, and aborts when the allocator cannot provide them. The model uses unbounded naturals for `usize` and has no allocation failure.
- The model also does not bound `2 * m` or the running sum. Unlike `mx + 1` and `n + 1`, both are bounded by memory the source has already allocated, so they cannot overflow.
- The `PartialOrd` bound on `K` is not modelled, because no weight is ever compared.
- The panic and its message for an out-of-range `edges_from` are not modelled. The model states this case as a precondition.
- Csr.GraphRep.EdgesFrom: also requires the layout invariant `Valid()`. The store's `v` and `e` are private and only `from_list` creates them, so every store keeps the invariant (`BuildIsValid`).
- `id` is a public field, so a caller could replace it. The model assumes it still holds what `from_list` stored.
- The contracts of `NumVertices` and `NumEdges` describe them on any store. Their values on a built store are proved in `BuildIsValid` and `BuildEmpty`.
- The test sorts `edges_from(0)` by `(to, eid)` before comparing (src/graphix.rs:117). That sort is test scaffolding and is not modelled. `Triangle` states the unsorted order, which is already sorted.
