/** `GraphRep::from_list` (src/graphix.rs:38-88): the two-pass counting sort
    that turns an edge list into the CSR store, over mutable arrays as the
    source does it: count degrees, prefix-sum them into offsets and a write
    cursor, then scatter every edge as two half-edges. */
module CsrBuild {
  import opened Csr
  import opened CsrSpec

  /** The state of the scatter part-way through: vertex `u` has received the
      half-edges `placed[u]`, stored from its offset `v[u]` on, and its write
      cursor points just past them, still inside its own range. The last
      cursor slot, which belongs to no vertex, keeps the final offset. */
  ghost predicate Scattered<K>(e: array<HalfEdge<K>>, cursor: array<nat>, v: seq<nat>,
                               placed: seq<seq<HalfEdge<K>>>)
    reads e, cursor
  {
    |v| == |placed| + 1 == cursor.Length && e.Length == v[|placed|] &&
    cursor[|placed|] == v[|placed|] &&
    (forall a, b :: 0 <= a <= b < |v| ==> v[a] <= v[b]) &&
    (forall u {:trigger placed[u]} :: 0 <= u < |placed| ==>
       cursor[u] == v[u] + |placed[u]| && v[u] + |placed[u]| <= v[u + 1] && v[u + 1] <= e.Length) &&
    (forall u, k :: 0 <= u < |placed| && 0 <= k < |placed[u]| ==> e[v[u] + k] == placed[u][k])
  }

  /** One write of the scatter (src/graphix.rs:77-79 and 82-84): store `h` at
      the write cursor of `u` and advance that cursor. */
  method Place<K>(e: array<HalfEdge<K>>, cursor: array<nat>, ghost v: seq<nat>,
                  ghost placed: seq<seq<HalfEdge<K>>>, u: nat, h: HalfEdge<K>)
    returns (ghost placed': seq<seq<HalfEdge<K>>>)
    requires Scattered(e, cursor, v, placed)
    requires u < |placed| && |placed[u]| < v[u + 1] - v[u]
    modifies e, cursor
    ensures placed' == placed[u := placed[u] + [h]]
    ensures Scattered(e, cursor, v, placed')
  {
    var pos := cursor[u];
    e[pos] := h;
    cursor[u] := cursor[u] + 1;
    placed' := placed[u := placed[u] + [h]];
    forall w, k | 0 <= w < |placed'| && 0 <= k < |placed'[w]|
      ensures v[w] + k < e.Length && e[v[w] + k] == placed'[w][k]
    {
      if w < u {
        assert v[w + 1] <= v[u];
      } else if w > u {
        assert v[u + 1] <= v[w];
      }
    }
  }

  /** One round of the scatter (src/graphix.rs:75-84): edge `i` goes to the
      range of its source as `(dst, weight, i)` and then to the range of its
      destination as `(src, weight, i)`; a self-loop puts both into the same
      range, one after the other. Afterwards every vertex holds the half-edges
      of the first `i + 1` edges. */
  method ScatterEdge<K>(edges: seq<Edge<K>>, i: nat, e: array<HalfEdge<K>>, cursor: array<nat>,
                        ghost v: seq<nat>, ghost placed: seq<seq<HalfEdge<K>>>)
    returns (ghost placed': seq<seq<HalfEdge<K>>>)
    requires i < |edges| && edges[i].src < |placed| && edges[i].dst < |placed|
    requires Scattered(e, cursor, v, placed)
    requires v[edges[i].src + 1] - v[edges[i].src] == Degree(edges, edges[i].src)
    requires v[edges[i].dst + 1] - v[edges[i].dst] == Degree(edges, edges[i].dst)
    requires forall u :: 0 <= u < |placed| ==> placed[u] == IncidentIn(edges, i, u)
    modifies e, cursor
    ensures Scattered(e, cursor, v, placed')
    ensures |placed'| == |placed|
    ensures forall u :: 0 <= u < |placed| ==> placed'[u] == IncidentIn(edges, i + 1, u)
  {
    var x := edges[i];
    var fwd, back := HalfEdge(x.dst, x.weight, i), HalfEdge(x.src, x.weight, i);
    IncidentInStep(edges, i, x.src);
    IncidentInStep(edges, i, x.dst);
    placed' := Place(e, cursor, v, placed, x.src, fwd);
    placed' := Place(e, cursor, v, placed', x.dst, back);
    forall u | 0 <= u < |placed|
      ensures placed'[u] == IncidentIn(edges, i + 1, u)
    {
      assert IncidentIn(edges, i + 1, u) == placed[u] + HalfEdgesAt(x, i, u);
      if u == x.src && u == x.dst {
        assert HalfEdgesAt(x, i, u) == [fwd, back];
      } else if u == x.src {
        assert HalfEdgesAt(x, i, u) == [fwd];
      } else if u == x.dst {
        assert HalfEdgesAt(x, i, u) == [back];
      } else {
        assert HalfEdgesAt(x, i, u) == [];
      }
    }
  }

  /** What the scatter relies on about the offsets: they cover every endpoint,
      never decrease and end at 2m. */
  lemma OffsetsShape<K>(edges: seq<Edge<K>>, v: seq<nat>)
    requires |v| == VertexCount(edges) + 1
    requires forall u {:trigger v[u]} :: 0 <= u < |v| ==> v[u] == Offset(edges, u)
    ensures forall i :: 0 <= i < |edges| ==> edges[i].src < |v| - 1 && edges[i].dst < |v| - 1
    ensures forall a, b :: 0 <= a <= b < |v| ==> v[a] <= v[b]
    ensures v[|v| - 1] == 2 * |edges|
  {
    forall i | 0 <= i < |edges|
      ensures edges[i].src < |v| - 1 && edges[i].dst < |v| - 1
    {
      EndpointsBelowVertexCount(edges, i);
    }
    OffsetIsTwiceEdges(edges, |v| - 1);
    forall a, b | 0 <= a <= b < |v|
      ensures v[a] <= v[b]
    {
      OffsetMonotone(edges, a, b);
    }
  }

  /** Before the scatter no vertex has received anything: each cursor sits at
      its offset. */
  lemma ScatterStart<K>(e: array<HalfEdge<K>>, cursor: array<nat>, v: seq<nat>,
                        placed: seq<seq<HalfEdge<K>>>)
    requires |v| == |placed| + 1 == cursor.Length && e.Length == v[|placed|]
    requires forall a, b :: 0 <= a <= b < |v| ==> v[a] <= v[b]
    requires forall u {:trigger v[u]} :: 0 <= u < |v| ==> cursor[u] == v[u]
    requires forall u :: 0 <= u < |placed| ==> placed[u] == []
    ensures Scattered(e, cursor, v, placed)
  {
    forall u {:trigger placed[u]} | 0 <= u < |placed|
      ensures cursor[u] == v[u] + |placed[u]| && v[u] + |placed[u]| <= v[u + 1] && v[u + 1] <= e.Length
    {
      assert v[u] <= v[u + 1] <= v[|placed|];
    }
  }

  /** Once every vertex has received all of its half-edges, each cursor has
      reached the next offset and the table is the reference layout. */
  lemma ScatterComplete<K>(edges: seq<Edge<K>>, v: seq<nat>, e: seq<HalfEdge<K>>, cursor: seq<nat>,
                           placed: seq<seq<HalfEdge<K>>>)
    requires |v| == |placed| + 1 == |cursor| && |e| == v[|placed|] == Offset(edges, |placed|)
    requires forall u {:trigger v[u]} :: 0 <= u < |v| ==> v[u] == Offset(edges, u)
    requires forall u :: 0 <= u < |placed| ==> placed[u] == Incident(edges, u)
    requires forall u :: 0 <= u < |placed| ==> cursor[u] == v[u] + |placed[u]|
    requires forall u, k :: 0 <= u < |placed| && 0 <= k < |placed[u]| && v[u] + k < |e| ==>
               e[v[u] + k] == placed[u][k]
    ensures forall u :: 0 <= u < |v| - 1 ==> cursor[u] == v[u + 1]
    ensures e == LayoutUpTo(edges, |v| - 1)
  {
    forall u | 0 <= u < |placed|
      ensures cursor[u] == v[u + 1]
    {
      IncidentLength(edges, u);
    }
    LayoutUnique(edges, |placed|, e);
  }

  /** The scatter loop (src/graphix.rs:75-85): every edge, in input order,
      is placed at both of its endpoints, so afterwards every vertex holds
      all of the half-edges it receives. */
  method ScatterEdges<K>(edges: seq<Edge<K>>, e: array<HalfEdge<K>>, cursor: array<nat>,
                         ghost v: seq<nat>, ghost placed0: seq<seq<HalfEdge<K>>>)
    returns (ghost placed: seq<seq<HalfEdge<K>>>)
    requires forall i :: 0 <= i < |edges| ==> edges[i].src < |placed0| && edges[i].dst < |placed0|
    requires Scattered(e, cursor, v, placed0)
    requires forall u {:trigger v[u]} :: 0 <= u < |v| ==> v[u] == Offset(edges, u)
    requires forall u :: 0 <= u < |placed0| ==> placed0[u] == []
    modifies e, cursor
    ensures Scattered(e, cursor, v, placed) && |placed| == |placed0|
    ensures forall u :: 0 <= u < |placed| ==> placed[u] == Incident(edges, u)
  {
    placed := placed0;
    for i := 0 to |edges|
      invariant Scattered(e, cursor, v, placed) && |placed| == |placed0|
      invariant forall u :: 0 <= u < |placed| ==> placed[u] == IncidentIn(edges, i, u)
    {
      placed := ScatterEdge(edges, i, e, cursor, v, placed);
    }
  }

  /** The scatter (src/graphix.rs:72-85). Given the offsets of `edges` and a
      write cursor equal to them, it fills a fresh half-edge table of length
      2m with the reference layout, and leaves each vertex's cursor at the
      start of the next vertex's range: every slot was written. The last
      cursor slot is never written. */
  method Scatter<K>(edges: seq<Edge<K>>, v: seq<nat>, cursor: array<nat>) returns (e: array<HalfEdge<K>>)
    requires edges != []
    requires |v| == VertexCount(edges) + 1 == cursor.Length
    requires forall u {:trigger v[u]} :: 0 <= u < |v| ==> v[u] == Offset(edges, u) && cursor[u] == v[u]
    modifies cursor
    ensures fresh(e)
    ensures e.Length == 2 * |edges|
    ensures e[..] == LayoutUpTo(edges, |v| - 1)
    ensures forall u :: 0 <= u < |v| - 1 ==> cursor[u] == v[u + 1]
    ensures cursor[|v| - 1] == v[|v| - 1]
  {
    var n := |v| - 1;
    OffsetsShape(edges, v);
    var dummy := HalfEdge(0, edges[0].weight, 0);
    e := new HalfEdge<K>[2 * |edges|](_ => dummy);
    ghost var placed: seq<seq<HalfEdge<K>>> := seq(n, _ => []);
    ScatterStart(e, cursor, v, placed);
    placed := ScatterEdges(edges, e, cursor, v, placed);
    ScatterComplete(edges, v, e[..], cursor[..], placed);
  }

  /** The degree count (src/graphix.rs:55-60): one slot per vertex plus one,
      and each edge bumps both of its endpoints, so a self-loop counts twice. */
  method CountDegrees<K>(edges: seq<Edge<K>>, n: nat) returns (v: array<nat>)
    requires n == VertexCount(edges)
    ensures fresh(v) && v.Length == n + 1
    ensures forall u :: 0 <= u <= n ==> v[u] == Degree(edges, u)
  {
    v := new nat[n + 1](_ => 0);
    for i := 0 to |edges|
      invariant forall u :: 0 <= u <= n ==> v[u] == DegreeIn(edges, i, u)
    {
      var x := edges[i];
      EndpointsBelowVertexCount(edges, i);
      v[x.src] := v[x.src] + 1;
      v[x.dst] := v[x.dst] + 1;
    }
  }

  /** The fused prefix sum (src/graphix.rs:62-70): every slot of `v` is
      replaced by the sum of the degrees before it, and the write cursor
      starts as a copy of those offsets. */
  method PrefixSums<K>(edges: seq<Edge<K>>, v: array<nat>) returns (cursor: array<nat>)
    requires v.Length == VertexCount(edges) + 1
    requires forall u :: 0 <= u < v.Length ==> v[u] == Degree(edges, u)
    modifies v
    ensures fresh(cursor) && cursor.Length == v.Length
    ensures forall u {:trigger v[u]} :: 0 <= u < v.Length ==> v[u] == Offset(edges, u) && cursor[u] == v[u]
  {
    cursor := new nat[v.Length](_ => 0);
    var runningSum := 0;
    for j := 0 to v.Length
      invariant runningSum == Offset(edges, j)
      invariant forall u {:trigger v[u]} :: 0 <= u < j ==> v[u] == Offset(edges, u) && cursor[u] == v[u]
      invariant forall u :: j <= u < v.Length ==> v[u] == Degree(edges, u)
    {
      var deg := v[j];
      cursor[j] := runningSum;
      v[j] := runningSum;
      runningSum := runningSum + deg;
    }
  }

  /** `from_list` (src/graphix.rs:38-88): builds the store from an edge list.
      The result is exactly the reference store `Build(edges)`; in particular
      an empty list gives the single offset 0 and empty half-edge and edge
      tables, and the edge table is the input unchanged. */
  method FromList<K>(edges: seq<Edge<K>>) returns (g: GraphRep<K>)
    ensures g == Build(edges)
    ensures edges == [] ==> g.v == [0] && g.e == [] && g.id == []
  {
    if |edges| == 0 {
      g := GraphRep([0], [], []);
      assert Build(edges).v == [0];
      return;
    }
    var n := VertexCount(edges);
    var v := CountDegrees(edges, n);
    var cursor := PrefixSums(edges, v);
    var offsets := v[..];
    var e := Scatter(edges, offsets, cursor);
    g := GraphRep(offsets, e[..], edges);
    assert offsets == Build(edges).v;
  }
}
