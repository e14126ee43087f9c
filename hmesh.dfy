/** The index bookkeeping of `HedgeMesh` in hmesh.js: fan triangulation of faces into a flat
    index buffer, the flat list of edge ends, the dual graph with one node per face and one edge
    per pair of adjacent faces, and the matching of that dual graph read back from the engine's
    flat output. Faces are given by their vertex ids in the order `getVertices` walks them,
    adjacency by the face index each boundary half-edge's pair lies on (`None` for a null face). */
module HalfEdgeMesh {
  import opened Wrappers
  import opened Faults
  import Driver

  /** A thrown JavaScript exception, or a fault of the wasm engine. */
  datatype MeshFault = TypeError(line: int) | RangeError(line: int) | AssertionError(line: int) | WasmAbort(fault: Fault)

  /** Storing into a `Uint32Array` keeps the value modulo 2^32. */
  function ToUint32(x: nat): (r: nat)
    ensures r < 0x1_0000_0000 && (x < 0x1_0000_0000 ==> r == x)
  {
    x % 0x1_0000_0000
  }

  // ---------------------------------------------------------------------------------------
  // getTriangleIndices, lines 286-311
  // ---------------------------------------------------------------------------------------

  /** `NumTris`: the sum of `|face| - 2` over the faces, negative for faces with fewer than two
      vertices. */
  function NumTris(faces: seq<seq<nat>>): int
    decreases |faces|
  {
    if faces == [] then 0 else NumTris(faces[..|faces| - 1]) + |faces[|faces| - 1]| - 2
  }

  /** The number of fan triangles a face really has. */
  function FaceTris(face: seq<nat>): nat {
    if |face| < 3 then 0 else |face| - 2
  }

  /** The number of fan triangles of all faces. */
  function TriCount(faces: seq<seq<nat>>): nat
    decreases |faces|
  {
    if faces == [] then 0 else TriCount(faces[..|faces| - 1]) + FaceTris(faces[|faces| - 1])
  }

  /** The first `n` fan triangles of a face `v0 .. v(k-1)`: `(v0, v(t+1), v(t+2))` for
      `t = 0 .. n-1`, three ids each. */
  function FanUpTo(face: seq<nat>, n: nat): (r: seq<nat>)
    requires n <= FaceTris(face)
    ensures |r| == 3 * n
  {
    if n == 0 then [] else FanUpTo(face, n - 1) + [face[0], face[n], face[n + 1]]
  }

  /** All fan triangles of a face. */
  function FaceFan(face: seq<nat>): (r: seq<nat>)
    ensures |r| == 3 * FaceTris(face)
  {
    FanUpTo(face, FaceTris(face))
  }

  /** The fans of all faces, face by face. */
  function Fans(faces: seq<seq<nat>>): (r: seq<nat>)
    ensures |r| == 3 * TriCount(faces)
    decreases |faces|
  {
    if faces == [] then [] else Fans(faces[..|faces| - 1]) + FaceFan(faces[|faces| - 1])
  }

  /** Triangle `t` of the first `n` is `(v0, v(t+1), v(t+2))`. */
  lemma {:induction false} FanUpToAt(face: seq<nat>, n: nat, t: nat)
    requires t < n <= FaceTris(face)
    ensures FanUpTo(face, n)[3 * t] == face[0]
    ensures FanUpTo(face, n)[3 * t + 1] == face[t + 1]
    ensures FanUpTo(face, n)[3 * t + 2] == face[t + 2]
  {
    if t < n - 1 {
      FanUpToAt(face, n - 1, t);
    }
  }

  /** Triangle `t` of a face is `(v0, v(t+1), v(t+2))`. */
  lemma FaceFanAt(face: seq<nat>, t: nat)
    requires t < FaceTris(face)
    ensures FaceFan(face)[3 * t] == face[0]
    ensures FaceFan(face)[3 * t + 1] == face[t + 1]
    ensures FaceFan(face)[3 * t + 2] == face[t + 2]
  {
    FanUpToAt(face, FaceTris(face), t);
  }

  /** The fans of the first faces are a prefix of the fans of all of them. */
  lemma {:induction false} FansPrefix(faces: seq<seq<nat>>, n: nat)
    requires n <= |faces|
    ensures TriCount(faces[..n]) <= TriCount(faces)
    ensures Fans(faces[..n]) == Fans(faces)[..3 * TriCount(faces[..n])]
    decreases |faces| - n
  {
    if n < |faces| {
      FansPrefix(faces, n + 1);
      var p := faces[..n + 1];
      assert p[..|p| - 1] == faces[..n];
    } else {
      assert faces[..n] == faces;
    }
  }

  /** The three ids stored from position `o` on. */
  function TriAt(ids: seq<nat>, o: nat): (nat, nat, nat)
    requires o + 2 < |ids|
  {
    (ids[o], ids[o + 1], ids[o + 2])
  }

  /** The triangles of face `i` sit behind the triangles of the faces before it, each face
      contributing its fan in order: triangle `t` of face `i` is `(v0, v(t+1), v(t+2))`. */
  lemma FanOfFace(faces: seq<seq<nat>>, i: nat, t: nat)
    requires i < |faces| && t < FaceTris(faces[i])
    ensures 3 * (TriCount(faces[..i]) + t) + 2 < |Fans(faces)|
    ensures TriAt(Fans(faces), 3 * (TriCount(faces[..i]) + t)) == (faces[i][0], faces[i][t + 1], faces[i][t + 2])
  {
    var pre, p := faces[..i], faces[..i + 1];
    FansPrefix(faces, i + 1);
    assert p[..|p| - 1] == pre && p[|p| - 1] == faces[i];
    var fan := FaceFan(faces[i]);
    var whole, front := Fans(faces), Fans(p);
    assert front == Fans(pre) + fan;
    var o := 3 * (TriCount(pre) + t);
    assert o == |Fans(pre)| + 3 * t;
    assert o + 2 < |front| <= |whole|;
    FaceFanAt(faces[i], t);
    TriAfter(Fans(pre), fan, 3 * t);
    assert TriAt(fan, 3 * t) == (faces[i][0], faces[i][t + 1], faces[i][t + 2]);
    assert TriAt(whole, o) == TriAt(front, o);
  }

  /** The ids at position `k` of a sequence stay the same behind a prefix. */
  lemma TriAfter(a: seq<nat>, b: seq<nat>, k: nat)
    requires k + 2 < |b|
    ensures TriAt(a + b, |a| + k) == TriAt(b, k)
  {
  }

  /** `NumTris` never exceeds the true count, and equals it when no face has fewer than two
      vertices. */
  lemma {:induction false} NumTrisBound(faces: seq<seq<nat>>)
    ensures NumTris(faces) <= TriCount(faces)
    ensures (forall i | 0 <= i < |faces| :: |faces[i]| >= 2) ==> NumTris(faces) == TriCount(faces)
    decreases |faces|
  {
    if faces != [] {
      var front := faces[..|faces| - 1];
      assert forall i | 0 <= i < |front| :: front[i] == faces[i];
      NumTrisBound(front);
    }
  }

  /** The first loop of `getTriangleIndices`: `NumTris += vsi.length - 2` per face. */
  method CountTris(faces: seq<seq<nat>>) returns (numTris: int)
    ensures numTris == NumTris(faces)
  {
    numTris := 0;
    var i := 0;
    while i < |faces|
      invariant i <= |faces| && numTris == NumTris(faces[..i])
    {
      assert faces[..i + 1][..i] == faces[..i];
      numTris := numTris + |faces[i]| - 2;
      i := i + 1;
    }
    assert faces[..i] == faces;
  }

  /** `getTriangleIndices()`: a `Uint32Array` of `3 * NumTris` entries, or a RangeError when
      `NumTris` is negative. Every entry is the matching id of the fan triangulation, face by
      face (stores past the end of a typed array are dropped); when every face has at least two
      vertices, the buffer holds the whole triangulation. */
  method GetTriangleIndices(faces: seq<seq<nat>>) returns (r: Result<array<nat>, MeshFault>)
    ensures r.Err? <==> NumTris(faces) < 0
    ensures r.Err? ==> r.error == RangeError(296)
    ensures r.Ok? ==> fresh(r.value) && r.value.Length == 3 * NumTris(faces) <= |Fans(faces)|
    ensures r.Ok? ==> forall k | 0 <= k < r.value.Length :: r.value[k] == ToUint32(Fans(faces)[k])
    ensures r.Ok? && (forall i | 0 <= i < |faces| :: |faces[i]| >= 2) ==> r.value.Length == |Fans(faces)|
  {
    var numTris := CountTris(faces);
    NumTrisBound(faces);
    if numTris < 0 {
      return Err(RangeError(296));
    }
    var buf := new nat[numTris * 3](_ => 0);
    var i: nat := 0;
    var faceIdx := 0;
    while i < numTris
      invariant faceIdx <= |faces| && i == TriCount(faces[..faceIdx])
      invariant faceIdx == |faces| ==> i == TriCount(faces)
      invariant Copied(buf[..], Fans(faces[..faceIdx]), 3 * i)
      decreases |faces| - faceIdx
    {
      var verts := faces[faceIdx];
      i := FillFan(buf, verts, i, Fans(faces[..faceIdx]));
      assert faces[..faceIdx + 1][..faceIdx] == faces[..faceIdx];
      assert faces[..faceIdx + 1][faceIdx] == verts;
      faceIdx := faceIdx + 1;
      if faceIdx == |faces| {
        assert faces[..faceIdx] == faces;
      }
    }
    FansPrefix(faces, faceIdx);
    CopiedAll(buf[..], Fans(faces), 3 * i);
    return Ok(buf);
  }

  /** A buffer no longer than the stored prefix holds the converted ids throughout. */
  lemma CopiedAll(buf: seq<nat>, src: seq<nat>, n: nat)
    requires n <= |src| && Copied(buf, src[..n], n) && |buf| <= n
    ensures forall k | 0 <= k < |buf| :: buf[k] == ToUint32(src[k])
  {
    assert forall k | 0 <= k < |buf| :: src[..n][k] == src[k];
  }

  /** The inner loop of `getTriangleIndices`: the fan of one face stored from triangle `i0`
      on, each store past the end of the buffer dropped. */
  method FillFan(buf: array<nat>, verts: seq<nat>, i0: nat, ghost before: seq<nat>) returns (i: nat)
    requires |before| == 3 * i0 && Copied(buf[..], before, 3 * i0)
    modifies buf
    ensures i == i0 + FaceTris(verts) && Copied(buf[..], before + FaceFan(verts), 3 * i)
  {
    ghost var src := before + FaceFan(verts);
    i := i0;
    var t := 0;
    while t < |verts| - 2
      invariant t <= FaceTris(verts) && i == i0 + t
      invariant Copied(buf[..], src, 3 * i)
    {
      FaceFanAt(verts, t);
      assert src[3 * i] == verts[0] && src[3 * i + 1] == verts[t + 1] && src[3 * i + 2] == verts[t + 2];
      ghost var b0 := buf[..];
      if i * 3 < buf.Length {
        buf[i * 3] := ToUint32(verts[0]);
      }
      if i * 3 + 1 < buf.Length {
        buf[i * 3 + 1] := ToUint32(verts[t + 1]);
      }
      if i * 3 + 2 < buf.Length {
        buf[i * 3 + 2] := ToUint32(verts[t + 2]);
      }
      CopyTriangle(b0, buf[..], src, i);
      i := i + 1;
      t := t + 1;
    }
  }

  /** The buffer holds the converted ids of `src` at every position below `n` it has. */
  ghost predicate Copied(buf: seq<nat>, src: seq<nat>, n: nat) {
    n <= |src| && forall k | 0 <= k < |buf| && k < n :: buf[k] == ToUint32(src[k])
  }

  /** Storing triangle `i` (the three ids at `3 * i`) keeps `Copied` one triangle further. */
  lemma CopyTriangle(b0: seq<nat>, b1: seq<nat>, src: seq<nat>, i: nat)
    requires Copied(b0, src, 3 * i) && 3 * i + 3 <= |src| && |b1| == |b0|
    requires forall k | 0 <= k < |b0| && (k < 3 * i || k >= 3 * i + 3) :: b1[k] == b0[k]
    requires forall k | 3 * i <= k < 3 * i + 3 && k < |b0| :: b1[k] == ToUint32(src[k])
    ensures Copied(b1, src, 3 * (i + 1))
  {
  }

  // ---------------------------------------------------------------------------------------
  // getVertices and getEdgeIndices, lines 27-35 and 316-325
  // ---------------------------------------------------------------------------------------

  /** What `getVertices` reads of a half-edge: the id of its head (`None` for a null head), and
      whether it has a previous half-edge together with that one's head id. */
  datatype HalfEdge = HalfEdge(head: Option<nat>, prev: Option<Option<nat>>)

  /** The half-edge has a head, a previous half-edge, and that one has a head. */
  predicate Complete(e: HalfEdge) {
    e.head.Some? && e.prev.Some? && e.prev.value.Some?
  }

  /** `getVertices()`: the head and the previous head, or nothing if either is missing. */
  function GetVertices(e: HalfEdge): (r: seq<nat>)
    ensures Complete(e) ==> r == [e.head.value, e.prev.value.value]
    ensures !Complete(e) ==> r == []
  {
    if e.head.Some? && e.prev.Some? then
      if e.prev.value.Some? then [e.head.value, e.prev.value.value] else []
    else []
  }

  /** The ids `getEdgeIndices` pushes: both vertices of each complete edge, in order. */
  function EdgeIds(edges: seq<HalfEdge>): (r: seq<nat>)
    ensures |r| == 2 * CompleteCount(edges)
    decreases |edges|
  {
    if edges == [] then [] else EdgeIds(edges[..|edges| - 1]) + GetVertices(edges[|edges| - 1])
  }

  /** The number of complete half-edges. */
  function CompleteCount(edges: seq<HalfEdge>): nat
    decreases |edges|
  {
    if edges == [] then 0 else CompleteCount(edges[..|edges| - 1]) + (if Complete(edges[|edges| - 1]) then 1 else 0)
  }

  /** Two ids per complete half-edge and none otherwise: the ids of edge `i` sit right after
      those of the complete edges before it. */
  lemma EdgeIdsAt(edges: seq<HalfEdge>, i: nat)
    requires i < |edges| && Complete(edges[i])
    ensures 2 * CompleteCount(edges[..i]) + 1 < |EdgeIds(edges)|
    ensures EdgeIds(edges)[2 * CompleteCount(edges[..i])] == edges[i].head.value
    ensures EdgeIds(edges)[2 * CompleteCount(edges[..i]) + 1] == edges[i].prev.value.value
  {
    EdgeIdsPrefix(edges, i + 1);
    var p := edges[..i + 1];
    assert p[..|p| - 1] == edges[..i] && p[|p| - 1] == edges[i];
  }

  /** The ids of the first edges are a prefix of the ids of all of them. */
  lemma {:induction false} EdgeIdsPrefix(edges: seq<HalfEdge>, n: nat)
    requires n <= |edges|
    ensures CompleteCount(edges[..n]) <= CompleteCount(edges)
    ensures EdgeIds(edges[..n]) == EdgeIds(edges)[..2 * CompleteCount(edges[..n])]
    decreases |edges| - n
  {
    if n < |edges| {
      EdgeIdsPrefix(edges, n + 1);
      var p := edges[..n + 1];
      assert p[..|p| - 1] == edges[..n];
      var c := 2 * CompleteCount(edges[..n]);
      var whole, front := EdgeIds(edges), EdgeIds(p);
      assert front == EdgeIds(edges[..n]) + GetVertices(edges[n]);
      assert EdgeIds(edges[..n]) == front[..c];
      assert front == whole[..|front|];
      assert whole[..|front|][..c] == whole[..c];
    } else {
      assert edges[..n] == edges;
    }
  }

  /** `getEdgeIndices()`: the pushed ids, converted by the `Uint32Array` constructor. */
  method GetEdgeIndices(edges: seq<HalfEdge>) returns (r: seq<nat>)
    ensures |r| == |EdgeIds(edges)| && forall k | 0 <= k < |r| :: r[k] == ToUint32(EdgeIds(edges)[k])
  {
    var ids := [];
    var i := 0;
    while i < |edges|
      invariant i <= |edges| && ids == EdgeIds(edges[..i])
    {
      var vs := GetVertices(edges[i]);
      var k := 0;
      while k < |vs|
        invariant k <= |vs| && ids == EdgeIds(edges[..i]) + vs[..k]
      {
        ids := ids + [vs[k]];
        assert vs[..k + 1] == vs[..k] + [vs[k]];
        k := k + 1;
      }
      assert vs[..k] == vs;
      assert edges[..i + 1][..i] == edges[..i];
      i := i + 1;
    }
    assert edges[..i] == edges;
    r := seq(|ids|, k requires 0 <= k < |ids| => ToUint32(ids[k]));
  }

  // ---------------------------------------------------------------------------------------
  // getDualGraph, lines 620-649
  // ---------------------------------------------------------------------------------------

  /** The dual graph: each node's `index`, each node's `neighbors` as indices, and each
      `Edge` as the indices of its two nodes. */
  datatype DualGraph = DualGraph(nodes: seq<nat>, neighbors: seq<seq<nat>>, edges: seq<(nat, nat)>)

  /** The `edgeSet` key of a face pair: `Math.min(i, j) + "_" + Math.max(i, j)`, one key per
      unordered pair. */
  function Key(i: nat, j: nat): (nat, nat) {
    if i <= j then (i, j) else (j, i)
  }

  /** Every attached face is a face of the mesh. */
  ghost predicate InMesh(adjacent: seq<seq<Option<nat>>>) {
    forall i, k | 0 <= i < |adjacent| && 0 <= k < |adjacent[i]| :: adjacent[i][k].Some? ==> adjacent[i][k].value < |adjacent|
  }

  /** No half-edge's pair lies on a null face. */
  ghost predicate Closed(adjacent: seq<seq<Option<nat>>>) {
    forall i, k | 0 <= i < |adjacent| && 0 <= k < |adjacent[i]| :: adjacent[i][k].Some?
  }

  /** The keys of all adjacencies of the faces before `i`. */
  ghost function KeysBefore(adjacent: seq<seq<Option<nat>>>, i: nat): set<(nat, nat)>
    requires i <= |adjacent|
  {
    set f, k | 0 <= f < i && 0 <= k < |adjacent[f]| && adjacent[f][k].Some? :: Key(f, adjacent[f][k].value)
  }

  /** The keys of the first `k` adjacencies of face `i`. */
  ghost function RowKeys(adjacent: seq<seq<Option<nat>>>, i: nat, k: nat): set<(nat, nat)>
    requires i < |adjacent|
  {
    set l | 0 <= l < k && l < |adjacent[i]| && adjacent[i][l].Some? :: Key(i, adjacent[i][l].value)
  }

  /** The keys of a list of edges. */
  ghost function EdgeKeys(edges: seq<(nat, nat)>): set<(nat, nat)> {
    set a | 0 <= a < |edges| :: Key(edges[a].0, edges[a].1)
  }

  /** The edges so far: their keys are `edgeSet`, once each; every edge joins a face to a face
      attached to it; and the neighbour lists are the two ends of the edges. */
  ghost predicate DualEdges(adjacent: seq<seq<Option<nat>>>,
                            edgeSet: set<(nat, nat)>, neighbors: seq<seq<nat>>, edges: seq<(nat, nat)>) {
    && |neighbors| == |adjacent|
    && edgeSet == EdgeKeys(edges)
    && (forall a, b | 0 <= a < b < |edges| :: Key(edges[a].0, edges[a].1) != Key(edges[b].0, edges[b].1))
    && (forall a | 0 <= a < |edges| ::
          edges[a].0 < |adjacent| && edges[a].1 < |adjacent| && Some(edges[a].1) in adjacent[edges[a].0])
    && (forall u, v | 0 <= u < |adjacent| :: v in neighbors[u] <==> (u, v) in edges || (v, u) in edges)
  }

  /** The state of the second loop of `getDualGraph` after `k` neighbours of face `i`: the
      keys seen are those of the faces before `i` and of the first `k` attached faces of `i`. */
  ghost predicate Pairing(adjacent: seq<seq<Option<nat>>>, i: nat, k: nat,
                          edgeSet: set<(nat, nat)>, neighbors: seq<seq<nat>>, edges: seq<(nat, nat)>) {
    && i < |adjacent| && k <= |adjacent[i]|
    && edgeSet == KeysBefore(adjacent, i) + RowKeys(adjacent, i, k)
    && DualEdges(adjacent, edgeSet, neighbors, edges)
  }

  /** One more attached face `j` of face `i`: a new key adds the edge `(i, j)` and the two
      neighbour entries; a known key changes nothing. */
  lemma PairStep(adjacent: seq<seq<Option<nat>>>, i: nat, k: nat,
                 edgeSet: set<(nat, nat)>, neighbors: seq<seq<nat>>, edges: seq<(nat, nat)>,
                 edgeSet': set<(nat, nat)>, neighbors': seq<seq<nat>>, edges': seq<(nat, nat)>)
    requires InMesh(adjacent)
    requires Pairing(adjacent, i, k, edgeSet, neighbors, edges) && k < |adjacent[i]| && adjacent[i][k].Some?
    requires var j := adjacent[i][k].value;
      var n1 := neighbors[i := neighbors[i] + [j]];
      if Key(i, j) in edgeSet then edgeSet' == edgeSet && neighbors' == neighbors && edges' == edges
      else edgeSet' == edgeSet + {Key(i, j)} && neighbors' == n1[j := n1[j] + [i]] && edges' == edges + [(i, j)]
    ensures Pairing(adjacent, i, k + 1, edgeSet', neighbors', edges')
  {
    var j := adjacent[i][k].value;
    assert j < |adjacent|;
    assert RowKeys(adjacent, i, k + 1) == RowKeys(adjacent, i, k) + {Key(i, j)};
    var s := Key(i, j);
    if s !in edgeSet {
      var e' := edges + [(i, j)];
      KeysPush(edges, (i, j));
      DistinctPush(edges, (i, j));
      forall a | 0 <= a < |e'| ensures e'[a].0 < |adjacent| && e'[a].1 < |adjacent| && Some(e'[a].1) in adjacent[e'[a].0] {
        if a < |edges| {
          assert e'[a] == edges[a];
        } else {
          assert adjacent[i][k] == Some(j);
        }
      }
      NeighborsPush(|adjacent|, neighbors, edges, i, j);
    }
  }

  /** Appending an edge adds its key. */
  lemma KeysPush(edges: seq<(nat, nat)>, e: (nat, nat))
    ensures EdgeKeys(edges + [e]) == EdgeKeys(edges) + {Key(e.0, e.1)}
  {
    var e' := edges + [e];
    forall x | x in EdgeKeys(e') ensures x in EdgeKeys(edges) + {Key(e.0, e.1)} {
      var a :| 0 <= a < |e'| && x == Key(e'[a].0, e'[a].1);
      if a < |edges| {
        assert e'[a] == edges[a];
      }
    }
    forall x | x in EdgeKeys(edges) ensures x in EdgeKeys(e') {
      var a :| 0 <= a < |edges| && x == Key(edges[a].0, edges[a].1);
      assert e'[a] == edges[a];
    }
    assert e'[|edges|] == e;
  }

  /** Appending an edge with a new key keeps the keys distinct. */
  lemma DistinctPush(edges: seq<(nat, nat)>, e: (nat, nat))
    requires forall a, b | 0 <= a < b < |edges| :: Key(edges[a].0, edges[a].1) != Key(edges[b].0, edges[b].1)
    requires Key(e.0, e.1) !in EdgeKeys(edges)
    ensures var e' := edges + [e];
      forall a, b | 0 <= a < b < |e'| :: Key(e'[a].0, e'[a].1) != Key(e'[b].0, e'[b].1)
  {
    var e' := edges + [e];
    forall a, b | 0 <= a < b < |e'| ensures Key(e'[a].0, e'[a].1) != Key(e'[b].0, e'[b].1) {
      if b == |edges| {
        assert e'[a] == edges[a];
        assert Key(edges[a].0, edges[a].1) in EdgeKeys(edges);
      } else {
        assert e'[a] == edges[a] && e'[b] == edges[b];
      }
    }
  }

  /** Pushing `j` on the list of `i` and `i` on the list of `j` keeps the neighbour lists the
      two ends of the edges, with `(i, j)` appended. */
  lemma NeighborsPush(n: nat, neighbors: seq<seq<nat>>, edges: seq<(nat, nat)>, i: nat, j: nat)
    requires |neighbors| == n && i < n && j < n
    requires forall u, v | 0 <= u < n :: v in neighbors[u] <==> (u, v) in edges || (v, u) in edges
    ensures var n1 := neighbors[i := neighbors[i] + [j]];
      var n2 := n1[j := n1[j] + [i]];
      forall u, v | 0 <= u < n :: v in n2[u] <==> (u, v) in edges + [(i, j)] || (v, u) in edges + [(i, j)]
  {
    var e' := edges + [(i, j)];
    var n1 := neighbors[i := neighbors[i] + [j]];
    var n2 := n1[j := n1[j] + [i]];
    forall u, v | 0 <= u < n ensures v in n2[u] <==> (u, v) in e' || (v, u) in e' {
      assert (u, v) in e' <==> (u, v) in edges || (u, v) == (i, j);
      assert (v, u) in e' <==> (v, u) in edges || (v, u) == (i, j);
    }
  }

  /** Starting on face `i`, with the keys of the faces before it seen. */
  lemma StartFace(adjacent: seq<seq<Option<nat>>>, i: nat,
                  edgeSet: set<(nat, nat)>, neighbors: seq<seq<nat>>, edges: seq<(nat, nat)>)
    requires i < |adjacent| && edgeSet == KeysBefore(adjacent, i) && DualEdges(adjacent, edgeSet, neighbors, edges)
    ensures Pairing(adjacent, i, 0, edgeSet, neighbors, edges)
  {
    assert RowKeys(adjacent, i, 0) == {};
  }

  /** Done with face `i`: the keys seen are those of the faces up to `i`. */
  lemma NextFace(adjacent: seq<seq<Option<nat>>>, i: nat,
                 edgeSet: set<(nat, nat)>, neighbors: seq<seq<nat>>, edges: seq<(nat, nat)>)
    requires i < |adjacent| && Pairing(adjacent, i, |adjacent[i]|, edgeSet, neighbors, edges)
    ensures edgeSet == KeysBefore(adjacent, i + 1)
  {
    forall x | x in KeysBefore(adjacent, i + 1)
      ensures x in KeysBefore(adjacent, i) + RowKeys(adjacent, i, |adjacent[i]|)
    {
      var f, k :| 0 <= f < i + 1 && 0 <= k < |adjacent[f]| && adjacent[f][k].Some? && x == Key(f, adjacent[f][k].value);
      if f == i {
        assert x in RowKeys(adjacent, i, |adjacent[i]|);
      }
    }
  }

  /** The first loop of `getDualGraph`: `new Node(i, center)` for face `i`. */
  method MakeNodes(numFaces: nat) returns (nodes: seq<nat>)
    ensures |nodes| == numFaces && forall i | 0 <= i < numFaces :: nodes[i] == i
  {
    nodes := [];
    var i := 0;
    while i < numFaces
      invariant i <= numFaces && |nodes| == i && forall f | 0 <= f < i :: nodes[f] == f
    {
      nodes := nodes + [i];
      i := i + 1;
    }
  }

  /** The inner loop of `getDualGraph` for face `i`: each attached face `j` whose key is new
      adds the edge `(i, j)` and the two neighbour entries. `closed` is false when some attached
      face is null, where the loop throws. */
  method LinkFace(adjacent: seq<seq<Option<nat>>>, i: nat,
                  edgeSet0: set<(nat, nat)>, neighbors0: seq<seq<nat>>, edges0: seq<(nat, nat)>)
    returns (closed: bool, edgeSet: set<(nat, nat)>, neighbors: seq<seq<nat>>, edges: seq<(nat, nat)>)
    requires InMesh(adjacent) && Pairing(adjacent, i, 0, edgeSet0, neighbors0, edges0)
    ensures closed <==> forall l | 0 <= l < |adjacent[i]| :: adjacent[i][l].Some?
    ensures closed ==> Pairing(adjacent, i, |adjacent[i]|, edgeSet, neighbors, edges)
  {
    edgeSet, neighbors, edges := edgeSet0, neighbors0, edges0;
    var attached := adjacent[i];
    var k := 0;
    while k < |attached|
      invariant Pairing(adjacent, i, k, edgeSet, neighbors, edges)
      invariant attached == adjacent[i] && NoNull(attached, k)
    {
      if attached[k].None? {
        return false, edgeSet, neighbors, edges;
      }
      var j := attached[k].value;
      var s := Key(i, j);
      ghost var s0, n0, e0 := edgeSet, neighbors, edges;
      if s !in edgeSet {
        edgeSet := edgeSet + {s};
        neighbors := neighbors[i := neighbors[i] + [j]];
        neighbors := neighbors[j := neighbors[j] + [i]];
        edges := edges + [(i, j)];
      }
      PairStep(adjacent, i, k, s0, n0, e0, edgeSet, neighbors, edges);
      NoNullStep(attached, k);
      k := k + 1;
    }
    closed := true;
  }

  /** None of the first `k` attached faces is null. */
  predicate NoNull(attached: seq<Option<nat>>, k: nat) {
    forall l | 0 <= l < k && l < |attached| :: attached[l].Some?
  }

  /** One more attached face that is not null. */
  lemma NoNullStep(attached: seq<Option<nat>>, k: nat)
    requires NoNull(attached, k) && k < |attached| && attached[k].Some?
    ensures NoNull(attached, k + 1)
  {
  }

  /** `getDualGraph()`: node `i` has index `i`; there is exactly one edge per unordered pair of
      adjacent faces, directed from the first face that reaches it; the neighbour lists hold
      the other end of every edge at a node, so they are symmetric. A half-edge whose pair has
      no face makes the loop throw. */
  method GetDualGraph(adjacent: seq<seq<Option<nat>>>) returns (r: Result<DualGraph, MeshFault>)
    requires InMesh(adjacent)
    ensures r.Ok? <==> Closed(adjacent)
    ensures r.Err? ==> r.error == TypeError(636)
    ensures r.Ok? ==> |r.value.nodes| == |adjacent| && forall i | 0 <= i < |adjacent| :: r.value.nodes[i] == i
    ensures r.Ok? ==> EdgeKeys(r.value.edges) == KeysBefore(adjacent, |adjacent|)
    ensures r.Ok? ==> forall a, b | 0 <= a < b < |r.value.edges| ::
      Key(r.value.edges[a].0, r.value.edges[a].1) != Key(r.value.edges[b].0, r.value.edges[b].1)
    ensures r.Ok? ==> forall a | 0 <= a < |r.value.edges| ::
      r.value.edges[a].0 < |adjacent| && r.value.edges[a].1 < |adjacent| && Some(r.value.edges[a].1) in adjacent[r.value.edges[a].0]
    ensures r.Ok? ==> |r.value.neighbors| == |adjacent| && forall u, v | 0 <= u < |adjacent| ::
      v in r.value.neighbors[u] <==> (u, v) in r.value.edges || (v, u) in r.value.edges
  {
    var nodes := MakeNodes(|adjacent|);
    var edgeSet: set<(nat, nat)> := {};
    var edges: seq<(nat, nat)> := [];
    var neighbors: seq<seq<nat>> := seq(|adjacent|, _ => []);
    var i := 0;
    assert KeysBefore(adjacent, 0) == {};
    while i < |adjacent|
      invariant i <= |adjacent| && edgeSet == KeysBefore(adjacent, i)
      invariant DualEdges(adjacent, edgeSet, neighbors, edges)
      invariant forall f, k | 0 <= f < i && 0 <= k < |adjacent[f]| :: adjacent[f][k].Some?
    {
      StartFace(adjacent, i, edgeSet, neighbors, edges);
      var closed;
      closed, edgeSet, neighbors, edges := LinkFace(adjacent, i, edgeSet, neighbors, edges);
      if !closed {
        return Err(TypeError(636));
      }
      NextFace(adjacent, i, edgeSet, neighbors, edges);
      i := i + 1;
    }
    r := Ok(DualGraph(nodes, neighbors, edges));
  }

  // ---------------------------------------------------------------------------------------
  // getDualMatching, lines 654-678
  // ---------------------------------------------------------------------------------------

  /** The flat list of the dual edges' node indices. */
  function Flat(edges: seq<(nat, nat)>): (r: seq<nat>)
    ensures |r| == 2 * |edges|
    decreases |edges|
  {
    if edges == [] then [] else Flat(edges[..|edges| - 1]) + [edges[|edges| - 1].0, edges[|edges| - 1].1]
  }

  /** Entry `2 * a` and `2 * a + 1` of the flat list are the ends of edge `a`. */
  lemma {:induction false} FlatAt(edges: seq<(nat, nat)>, a: nat)
    requires a < |edges|
    ensures Flat(edges)[2 * a] == edges[a].0 && Flat(edges)[2 * a + 1] == edges[a].1
    decreases |edges|
  {
    var front := edges[..|edges| - 1];
    if a < |front| {
      FlatAt(front, a);
      assert front[a] == edges[a];
    }
  }

  /** Lines 657-660: each dual edge pushes its two node indices. */
  method FlattenEdges(edges: seq<(nat, nat)>) returns (flat: seq<nat>)
    ensures flat == Flat(edges)
  {
    flat := [];
    var a := 0;
    while a < |edges|
      invariant a <= |edges| && flat == Flat(edges[..a])
    {
      assert edges[..a + 1][..a] == edges[..a];
      flat := flat + [edges[a].0, edges[a].1];
      a := a + 1;
    }
    assert edges[..a] == edges;
  }

  /** `res.nodes[v]`: the index of node `v`, or `undefined` past the end of the node list. */
  function NodeAt(nodes: seq<nat>, v: nat): Option<nat> {
    if v < |nodes| then Some(nodes[v]) else None
  }

  /** The edges read back from a flat list: entries `2 * i` and `2 * i + 1` become edge `i`. */
  function Decoded(flat: seq<nat>, nodes: seq<nat>): (r: seq<(Option<nat>, Option<nat>)>)
    requires |flat| % 2 == 0
    ensures |r| == |flat| / 2
  {
    seq(|flat| / 2, i requires 0 <= i < |flat| / 2 => (NodeAt(nodes, flat[2 * i]), NodeAt(nodes, flat[2 * i + 1])))
  }

  /** Lines 664-670: the assertion on an odd-length result, then one edge per pair. */
  method DecodePairs(flat: seq<nat>, nodes: seq<nat>) returns (r: Result<seq<(Option<nat>, Option<nat>)>, MeshFault>)
    ensures r.Err? <==> |flat| % 2 != 0
    ensures r.Err? ==> r.error == AssertionError(664)
    ensures r.Ok? ==> r.value == Decoded(flat, nodes)
  {
    if |flat| % 2 != 0 {
      return Err(AssertionError(664));
    }
    var edges := [];
    var i := 0;
    while i < |flat|
      invariant i <= |flat| && i % 2 == 0 && |edges| == i / 2
      invariant forall a | 0 <= a < i / 2 :: edges[a] == (NodeAt(nodes, flat[2 * a]), NodeAt(nodes, flat[2 * a + 1]))
    {
      var v := flat[i];
      var w := flat[i + 1];
      edges := edges + [(NodeAt(nodes, v), NodeAt(nodes, w))];
      i := i + 2;
    }
    return Ok(edges);
  }

  /** Reading back the flat list of a graph's own edges gives those edges, when every end is a
      node. */
  lemma DecodeFlat(edges: seq<(nat, nat)>, nodes: seq<nat>)
    requires forall i | 0 <= i < |nodes| :: nodes[i] == i
    requires forall a | 0 <= a < |edges| :: edges[a].0 < |nodes| && edges[a].1 < |nodes|
    ensures |Decoded(Flat(edges), nodes)| == |edges|
    ensures forall a | 0 <= a < |edges| :: Decoded(Flat(edges), nodes)[a] == (Some(edges[a].0), Some(edges[a].1))
  {
    forall a | 0 <= a < |edges| ensures Decoded(Flat(edges), nodes)[a] == (Some(edges[a].0), Some(edges[a].1)) {
      FlatAt(edges, a);
    }
  }

  /** `getDualMatching()`: the dual graph's edges go flat to the engine's `blossom` (run for at
      most `fuel` augmentations), and its output comes back as edges between dual nodes. The
      incomplete-edge assertion never fires, every matched edge joins two adjacent faces, and no
      pair of faces is matched twice. */
  method GetDualMatching(adjacent: seq<seq<Option<nat>>>, fuel: nat) returns (r: Result<DualGraphMatching, MeshFault>)
    requires InMesh(adjacent)
    ensures r.Err? ==> r.error != AssertionError(664)
    ensures r.Err? && r.error.TypeError? ==> !Closed(adjacent)
    ensures r.Ok? ==> |r.value.nodes| == |adjacent| && forall e | e in r.value.edges ::
      && e.0.Some? && e.1.Some? && e.0.value < |adjacent| && e.1.value < |adjacent|
      && (Some(e.1.value) in adjacent[e.0.value] || Some(e.0.value) in adjacent[e.1.value])
    ensures r.Ok? ==> forall a, b | 0 <= a < b < |r.value.edges| ::
      {r.value.edges[a].0, r.value.edges[a].1} != {r.value.edges[b].0, r.value.edges[b].1}
  {
    var res := GetDualGraph(adjacent);
    if res.Err? {
      return Err(res.error);
    }
    var flat := FlattenEdges(res.value.edges);
    var matching := Driver.Blossom(flat, fuel);
    if matching.Err? {
      return Err(WasmAbort(matching.error));
    }
    var out := matching.value;
    var decoded := DecodePairs(out, res.value.nodes);
    if decoded.Err? {
      assert false;
      return Err(AssertionError(664));
    }
    MatchedAdjacent(res.value, adjacent, flat, out);
    r := Ok(DualGraphMatching(res.value.nodes, decoded.value));
  }

  /** The nodes of the dual graph with the matched edges. */
  datatype DualGraphMatching = DualGraphMatching(nodes: seq<nat>, edges: seq<(Option<nat>, Option<nat>)>)

  /** The engine's output pairs are input pairs, so they decode to edges between adjacent
      faces, and distinct pairs decode to distinct edges. */
  lemma MatchedAdjacent(g: DualGraph, adjacent: seq<seq<Option<nat>>>, flat: seq<nat>, out: seq<nat>)
    requires |g.nodes| == |adjacent| && forall i | 0 <= i < |adjacent| :: g.nodes[i] == i
    requires forall a | 0 <= a < |g.edges| ::
      g.edges[a].0 < |adjacent| && g.edges[a].1 < |adjacent| && Some(g.edges[a].1) in adjacent[g.edges[a].0]
    requires flat == Flat(g.edges) && |out| % 2 == 0
    requires forall i | 0 <= i < |out| / 2 :: Driver.PairAt(out, i) in Driver.FlatPairs(flat, |flat| / 2)
    requires forall i, j | 0 <= i < j < |out| / 2 :: Driver.PairAt(out, i) != Driver.PairAt(out, j)
    ensures forall e | e in Decoded(out, g.nodes) ::
      && e.0.Some? && e.1.Some? && e.0.value < |adjacent| && e.1.value < |adjacent|
      && (Some(e.1.value) in adjacent[e.0.value] || Some(e.0.value) in adjacent[e.1.value])
    ensures forall a, b | 0 <= a < b < |out| / 2 ::
      {Decoded(out, g.nodes)[a].0, Decoded(out, g.nodes)[a].1} != {Decoded(out, g.nodes)[b].0, Decoded(out, g.nodes)[b].1}
  {
    var d := Decoded(out, g.nodes);
    forall e | e in d
      ensures && e.0.Some? && e.1.Some? && e.0.value < |adjacent| && e.1.value < |adjacent|
              && (Some(e.1.value) in adjacent[e.0.value] || Some(e.0.value) in adjacent[e.1.value])
    {
      var i :| 0 <= i < |d| && d[i] == e;
      MatchedPair(g, adjacent, flat, out, i);
    }
    forall a, b | 0 <= a < b < |out| / 2 ensures {d[a].0, d[a].1} != {d[b].0, d[b].1} {
      MatchedPair(g, adjacent, flat, out, a);
      MatchedPair(g, adjacent, flat, out, b);
      assert Driver.PairAt(out, a) != Driver.PairAt(out, b);
      if {d[a].0, d[a].1} == {d[b].0, d[b].1} {
        SomePairs(out[2 * a], out[2 * a + 1], out[2 * b], out[2 * b + 1]);
      }
    }
  }

  /** Output pair `i` is the pair of some dual edge, so it decodes to two adjacent faces. */
  lemma MatchedPair(g: DualGraph, adjacent: seq<seq<Option<nat>>>, flat: seq<nat>, out: seq<nat>, i: nat)
    requires |g.nodes| == |adjacent| && forall i | 0 <= i < |adjacent| :: g.nodes[i] == i
    requires forall a | 0 <= a < |g.edges| ::
      g.edges[a].0 < |adjacent| && g.edges[a].1 < |adjacent| && Some(g.edges[a].1) in adjacent[g.edges[a].0]
    requires flat == Flat(g.edges) && |out| % 2 == 0 && i < |out| / 2
    requires Driver.PairAt(out, i) in Driver.FlatPairs(flat, |flat| / 2)
    ensures out[2 * i] < |adjacent| && out[2 * i + 1] < |adjacent|
    ensures Some(out[2 * i + 1]) in adjacent[out[2 * i]] || Some(out[2 * i]) in adjacent[out[2 * i + 1]]
    ensures Decoded(out, g.nodes)[i] == (Some(out[2 * i]), Some(out[2 * i + 1]))
  {
    var j: nat :| j < |flat| / 2 && Driver.PairAt(out, i) == Driver.PairAt(flat, j);
    FlatAt(g.edges, j);
    PairEnds(out[2 * i], out[2 * i + 1], flat[2 * j], flat[2 * j + 1]);
  }

  /** Two equal unordered pairs have the same ends, in one order or the other. */
  lemma PairEnds(a: nat, b: nat, c: nat, d: nat)
    requires {a, b} == {c, d}
    ensures (a == c && b == d) || (a == d && b == c)
  {
    assert a in {c, d} && b in {c, d} && c in {a, b} && d in {a, b};
  }

  /** Wrapping both ends in `Some` keeps unordered pairs apart. */
  lemma SomePairs(a: nat, b: nat, c: nat, d: nat)
    requires {Some(a), Some(b)} == {Some(c), Some(d)}
    ensures {a, b} == {c, d}
  {
    assert Some(a) in {Some(c), Some(d)} && Some(b) in {Some(c), Some(d)};
    assert Some(c) in {Some(a), Some(b)} && Some(d) in {Some(a), Some(b)};
  }
}
