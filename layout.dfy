/** The reference definition of the CSR layout that `from_list` builds
    (src/graphix.rs:38-88), written as functions of the input edge list, and
    the facts about it that the build and the queries rely on. */
module CsrSpec {
  import opened Csr

  function Max(a: nat, b: nat): nat { if a < b then b else a }

  /** One more than the largest endpoint among the first `i` edges, or 0. */
  function VertexCountIn<K>(edges: seq<Edge<K>>, i: nat): nat
    requires i <= |edges|
  {
    if i == 0 then 0
    else Max(VertexCountIn(edges, i - 1), Max(edges[i - 1].src, edges[i - 1].dst) + 1)
  }

  /** The vertex count of the store built from `edges` (src/graphix.rs:49-53):
      0 exactly when there are no edges. */
  function VertexCount<K>(edges: seq<Edge<K>>): (r: nat)
    ensures r == 0 <==> edges == []
  {
    VertexCountIn(edges, |edges|)
  }

  /** How often `u` is an endpoint of `x`: a self-loop at `u` counts twice. */
  function Hits<K>(x: Edge<K>, u: nat): nat
  {
    (if x.src == u then 1 else 0) + (if x.dst == u then 1 else 0)
  }

  /** The number of endpoint occurrences of `u` among the first `i` edges. */
  function DegreeIn<K>(edges: seq<Edge<K>>, i: nat, u: nat): nat
    requires i <= |edges|
  {
    if i == 0 then 0 else DegreeIn(edges, i - 1, u) + Hits(edges[i - 1], u)
  }

  /** The number of endpoint occurrences of `u` in the whole edge list. */
  function Degree<K>(edges: seq<Edge<K>>, u: nat): nat
  {
    DegreeIn(edges, |edges|, u)
  }

  /** The half-edges that edge `x`, with id `i`, contributes to the range of `u`:
      first the forward one (written at the source), then the backward one. */
  function HalfEdgesAt<K>(x: Edge<K>, i: nat, u: nat): seq<HalfEdge<K>>
  {
    (if x.src == u then [HalfEdge(x.dst, x.weight, i)] else []) +
    (if x.dst == u then [HalfEdge(x.src, x.weight, i)] else [])
  }

  /** The half-edges the first `i` edges contribute to `u`, in input order. */
  function IncidentIn<K>(edges: seq<Edge<K>>, i: nat, u: nat): seq<HalfEdge<K>>
    requires i <= |edges|
  {
    if i == 0 then [] else IncidentIn(edges, i - 1, u) + HalfEdgesAt(edges[i - 1], i - 1, u)
  }

  /** The half-edges of `u` in the built store, in input order. */
  function Incident<K>(edges: seq<Edge<K>>, u: nat): seq<HalfEdge<K>>
  {
    IncidentIn(edges, |edges|, u)
  }

  /** Where the range of `u` starts: the degrees of all lower vertices summed. */
  function Offset<K>(edges: seq<Edge<K>>, u: nat): nat
  {
    if u == 0 then 0 else Offset(edges, u - 1) + Degree(edges, u - 1)
  }

  /** The ranges of the vertices below `k`, one after the other. */
  function LayoutUpTo<K>(edges: seq<Edge<K>>, k: nat): seq<HalfEdge<K>>
  {
    if k == 0 then [] else LayoutUpTo(edges, k - 1) + Incident(edges, k - 1)
  }

  /** The store `from_list` is meant to build from `edges`. */
  function Build<K>(edges: seq<Edge<K>>): GraphRep<K>
  {
    var n := VertexCount(edges);
    GraphRep(seq(n + 1, u requires 0 <= u => Offset(edges, u)), LayoutUpTo(edges, n), edges)
  }

  /** Every endpoint among the first `i` edges lies below their vertex count. */
  lemma {:induction false} EndpointsBelowVertexCountIn<K>(edges: seq<Edge<K>>, i: nat, j: nat)
    requires j < i <= |edges|
    ensures edges[j].src < VertexCountIn(edges, i) && edges[j].dst < VertexCountIn(edges, i)
    decreases i
  {
    if j < i - 1 {
      EndpointsBelowVertexCountIn(edges, i - 1, j);
    }
  }

  /** Every endpoint lies below the vertex count. */
  lemma EndpointsBelowVertexCount<K>(edges: seq<Edge<K>>, j: nat)
    requires j < |edges|
    ensures edges[j].src < VertexCount(edges) && edges[j].dst < VertexCount(edges)
  {
    EndpointsBelowVertexCountIn(edges, |edges|, j);
  }

  /** The vertex count of a non-empty prefix is attained: some endpoint in it
      is the largest vertex. */
  lemma {:induction false} VertexCountInAttained<K>(edges: seq<Edge<K>>, i: nat) returns (j: nat)
    requires 0 < i <= |edges|
    ensures j < i
    ensures edges[j].src + 1 == VertexCountIn(edges, i) || edges[j].dst + 1 == VertexCountIn(edges, i)
    decreases i
  {
    var x := edges[i - 1];
    if i > 1 && VertexCountIn(edges, i - 1) > Max(x.src, x.dst) + 1 {
      j := VertexCountInAttained(edges, i - 1);
    } else {
      j := i - 1;
    }
  }

  /** The half-edges the first `i` edges give `u` number its degree among them. */
  lemma {:induction false} IncidentInLength<K>(edges: seq<Edge<K>>, i: nat, u: nat)
    requires i <= |edges|
    ensures |IncidentIn(edges, i, u)| == DegreeIn(edges, i, u)
    decreases i
  {
    if i > 0 {
      IncidentInLength(edges, i - 1, u);
    }
  }

  /** The half-edges of `u` number exactly its degree. */
  lemma IncidentLength<K>(edges: seq<Edge<K>>, u: nat)
    ensures |Incident(edges, u)| == Degree(edges, u)
  {
    IncidentInLength(edges, |edges|, u);
  }

  /** Degrees only grow as edges are added. */
  lemma {:induction false} DegreeInMonotone<K>(edges: seq<Edge<K>>, i: nat, j: nat, u: nat)
    requires i <= j <= |edges|
    ensures DegreeIn(edges, i, u) <= DegreeIn(edges, j, u)
    decreases j
  {
    if i < j {
      DegreeInMonotone(edges, i, j - 1, u);
    }
  }

  /** Edge `i` appends its half-edges to the range of `u`, which never
      outgrows the degree of `u` in the whole list. */
  lemma IncidentInStep<K>(edges: seq<Edge<K>>, i: nat, u: nat)
    requires i < |edges|
    ensures IncidentIn(edges, i + 1, u) == IncidentIn(edges, i, u) + HalfEdgesAt(edges[i], i, u)
    ensures |IncidentIn(edges, i, u)| + Hits(edges[i], u) <= Degree(edges, u)
  {
    DegreeInMonotone(edges, i + 1, |edges|, u);
    IncidentInLength(edges, i, u);
  }

  /** The offsets never decrease. */
  lemma {:induction false} OffsetMonotone<K>(edges: seq<Edge<K>>, a: nat, b: nat)
    requires a <= b
    ensures Offset(edges, a) <= Offset(edges, b)
    decreases b
  {
    if a < b {
      OffsetMonotone(edges, a, b - 1);
    }
  }

  /** How many endpoints of `x` lie below `k`. */
  function Below<K>(x: Edge<K>, k: nat): nat
  {
    (if x.src < k then 1 else 0) + (if x.dst < k then 1 else 0)
  }

  /** The degrees among the first `i` edges of the vertices below `k`, summed. */
  function OffsetIn<K>(edges: seq<Edge<K>>, i: nat, k: nat): nat
    requires i <= |edges|
  {
    if k == 0 then 0 else OffsetIn(edges, i, k - 1) + DegreeIn(edges, i, k - 1)
  }

  /** Edge `i` moves every partial offset by its endpoints below `k`. */
  lemma {:induction false} OffsetInStep<K>(edges: seq<Edge<K>>, i: nat, k: nat)
    requires i < |edges|
    ensures OffsetIn(edges, i + 1, k) == OffsetIn(edges, i, k) + Below(edges[i], k)
    decreases k
  {
    if k > 0 {
      OffsetInStep(edges, i, k - 1);
    }
  }

  /** The handshake lemma for the first `i` edges: once all their endpoints lie
      below `k`, their degrees below `k` sum to twice their number. */
  lemma {:induction false} OffsetInIsTwiceEdges<K>(edges: seq<Edge<K>>, i: nat, k: nat)
    requires i <= |edges|
    requires forall j :: 0 <= j < i ==> edges[j].src < k && edges[j].dst < k
    ensures OffsetIn(edges, i, k) == 2 * i
    decreases i
  {
    if i == 0 {
      OffsetInOfNoEdges(edges, k);
    } else {
      OffsetInIsTwiceEdges(edges, i - 1, k);
      OffsetInStep(edges, i - 1, k);
    }
  }

  lemma {:induction false} OffsetInOfNoEdges<K>(edges: seq<Edge<K>>, k: nat)
    ensures OffsetIn(edges, 0, k) == 0
    decreases k
  {
    if k > 0 {
      OffsetInOfNoEdges(edges, k - 1);
    }
  }

  lemma {:induction false} OffsetIsOffsetIn<K>(edges: seq<Edge<K>>, k: nat)
    ensures Offset(edges, k) == OffsetIn(edges, |edges|, k)
    decreases k
  {
    if k > 0 {
      OffsetIsOffsetIn(edges, k - 1);
    }
  }

  /** The handshake lemma: once every endpoint lies below `k`, the offset of `k`
      is twice the number of edges. */
  lemma OffsetIsTwiceEdges<K>(edges: seq<Edge<K>>, k: nat)
    requires forall i :: 0 <= i < |edges| ==> edges[i].src < k && edges[i].dst < k
    ensures Offset(edges, k) == 2 * |edges|
  {
    OffsetIsOffsetIn(edges, k);
    OffsetInIsTwiceEdges(edges, |edges|, k);
  }

  /** The ranges below `k` fill exactly the first `Offset(k)` slots. */
  lemma {:induction false} LayoutLength<K>(edges: seq<Edge<K>>, k: nat)
    ensures |LayoutUpTo(edges, k)| == Offset(edges, k)
    decreases k
  {
    if k > 0 {
      LayoutLength(edges, k - 1);
      IncidentLength(edges, k - 1);
    }
  }

  /** The `j`-th half-edge of `u` sits at `Offset(u) + j` in the layout. */
  lemma {:induction false} LayoutAt<K>(edges: seq<Edge<K>>, k: nat, u: nat, j: nat)
    requires u < k && j < |Incident(edges, u)|
    ensures Offset(edges, u) + j < |LayoutUpTo(edges, k)|
    ensures LayoutUpTo(edges, k)[Offset(edges, u) + j] == Incident(edges, u)[j]
    decreases k
  {
    var pre := LayoutUpTo(edges, k - 1);
    assert LayoutUpTo(edges, k) == pre + Incident(edges, k - 1);
    LayoutLength(edges, k - 1);
    if u < k - 1 {
      LayoutAt(edges, k - 1, u, j);
    } else {
      assert |pre| == Offset(edges, u);
    }
  }

  /** Conversely, a table of the right length that holds every vertex's
      half-edges at its offsets is the layout. */
  lemma {:induction false} LayoutUnique<K>(edges: seq<Edge<K>>, k: nat, s: seq<HalfEdge<K>>)
    requires |s| == Offset(edges, k)
    requires forall u, j :: 0 <= u < k && 0 <= j < |Incident(edges, u)| && Offset(edges, u) + j < |s| ==>
               s[Offset(edges, u) + j] == Incident(edges, u)[j]
    ensures s == LayoutUpTo(edges, k)
    decreases k
  {
    if k > 0 {
      var o := Offset(edges, k - 1);
      IncidentLength(edges, k - 1);
      forall u, j | 0 <= u < k - 1 && 0 <= j < |Incident(edges, u)| && Offset(edges, u) + j < o
        ensures s[..o][Offset(edges, u) + j] == Incident(edges, u)[j]
      {
      }
      LayoutUnique(edges, k - 1, s[..o]);
      forall j | 0 <= j < |Incident(edges, k - 1)|
        ensures s[o..][j] == Incident(edges, k - 1)[j]
      {
        assert s[o + j] == Incident(edges, k - 1)[j];
      }
      assert s[o..] == Incident(edges, k - 1);
      assert s == s[..o] + s[o..];
    }
  }

  /** Edge `j` contributes its half-edges to both of its endpoints. */
  lemma {:induction false} IncidentInContains<K>(edges: seq<Edge<K>>, i: nat, j: nat)
    requires j < i <= |edges|
    ensures HalfEdge(edges[j].dst, edges[j].weight, j) in IncidentIn(edges, i, edges[j].src)
    ensures HalfEdge(edges[j].src, edges[j].weight, j) in IncidentIn(edges, i, edges[j].dst)
    decreases i
  {
    if j < i - 1 {
      IncidentInContains(edges, i - 1, j);
    }
  }

  /** Every half-edge the first `i` edges give `u` comes from one of them, with
      `u` as one endpoint, the stored neighbor as the other, and its weight. */
  lemma {:induction false} IncidentInFromInput<K>(edges: seq<Edge<K>>, i: nat, u: nat, h: HalfEdge<K>)
    requires i <= |edges| && h in IncidentIn(edges, i, u)
    ensures h.edgeId < i
    ensures h.weight == edges[h.edgeId].weight
    ensures (edges[h.edgeId].src == u && edges[h.edgeId].dst == h.neighbor) ||
            (edges[h.edgeId].dst == u && edges[h.edgeId].src == h.neighbor)
    decreases i
  {
    if h in IncidentIn(edges, i - 1, u) {
      IncidentInFromInput(edges, i - 1, u, h);
    }
  }

  /** The half-edges the first `i` edges give `u` appear in input order: edge
      ids never decrease. */
  lemma {:induction false} IncidentInInInputOrder<K>(edges: seq<Edge<K>>, i: nat, u: nat, a: nat, b: nat)
    requires i <= |edges| && a <= b < |IncidentIn(edges, i, u)|
    ensures IncidentIn(edges, i, u)[a].edgeId <= IncidentIn(edges, i, u)[b].edgeId
    decreases i
  {
    var pre, tail := IncidentIn(edges, i - 1, u), HalfEdgesAt(edges[i - 1], i - 1, u);
    var all := IncidentIn(edges, i, u);
    assert all == pre + tail;
    assert forall t :: 0 <= t < |tail| ==> tail[t].edgeId == i - 1;
    if b < |pre| {
      assert all[a] == pre[a] && all[b] == pre[b];
      IncidentInInInputOrder(edges, i - 1, u, a, b);
    } else if a < |pre| {
      assert all[a] == pre[a] && all[b] == tail[b - |pre|];
      IncidentInFromInput(edges, i - 1, u, pre[a]);
    } else {
      assert all[a] == tail[a - |pre|] && all[b] == tail[b - |pre|];
    }
  }
}
