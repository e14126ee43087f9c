/** The driver of wasm/blossom.cpp: `augmentMatching`, and the non-Emscripten `blossom`, which
    reads a flat list of edge ends, grows a matching by augmenting paths until the search
    reports none, and writes the matching back as a flat list of edge ends. */
module Driver {
  import opened Wrappers
  import opened ParentChains
  import opened Adjacency
  import opened Graphs
  import opened Matchings
  import opened Faults
  import opened Search

  // ---------------------------------------------------------------------------------------
  // augmentMatching, lines 281-290
  // ---------------------------------------------------------------------------------------

  /** `augmentMatching(matching, path)`: the matching becomes the symmetric difference of its
      edges and the path's, and its node set is rebuilt from those edges alone, so every node
      of the new matching has a partner. `Matchings.AugmentGrows` states what this gives for
      an augmenting path. */
  method AugmentMatching(matching: Graph<nat>, path: Graph<nat>)
    requires matching.Valid() && path.Valid() && matching != path
    modifies matching
    ensures matching.Valid()
    ensures UEdges(matching.data) == SymDiff(old(UEdges(matching.data)), UEdges(path.data))
    ensures matching.nodeSet == Members(UEdges(matching.data))
  {
    ghost var m0, p0 := UEdges(matching.data), UEdges(path.data);
    var matchingWithoutPath := Without(matching, path);
    var pathWithoutMatching := Without(path, matching);
    Rebuild(matching, matchingWithoutPath, pathWithoutMatching);
    SymDiffOf(m0, p0, UEdges(matchingWithoutPath.data), UEdges(pathWithoutMatching.data), UEdges(matching.data));
  }

  /** A copy of `g` on which `remove_edges_from(other)` has been called. */
  method Without(g: Graph<nat>, other: Graph<nat>) returns (r: Graph<nat>)
    requires g.Valid() && other.Valid()
    ensures fresh(r) && r.Valid()
    ensures UEdges(r.data) == UEdges(g.data) - UEdges(other.data)
  {
    r := new Graph.Copy(g);
    var _ := r.RemoveEdgesFrom(other);
  }

  /** The two differences together are the symmetric difference. */
  lemma SymDiffOf(x: set<set<nat>>, y: set<set<nat>>, a: set<set<nat>>, b: set<set<nat>>, e: set<set<nat>>)
    requires a == x - y && b == y - x && e == a + b
    ensures e == SymDiff(x, y)
  {
  }

  /** The last three lines of `augmentMatching`: the matching is cleared and refilled with the
      edges of two graphs. */
  method Rebuild(matching: Graph<nat>, a: Graph<nat>, b: Graph<nat>)
    requires a.Valid() && b.Valid() && matching != a && matching != b
    modifies matching
    ensures matching.Valid()
    ensures UEdges(matching.data) == UEdges(a.data) + UEdges(b.data)
    ensures matching.nodeSet == Members(UEdges(matching.data))
  {
    ghost var ad, bd := a.data, b.data;
    matching.Clear();
    NoEdges(matching.data);
    ghost var e0, n0 := UEdges(matching.data), matching.nodeSet;
    var _ := matching.AddEdgesFrom(a);
    ghost var e1, n1 := UEdges(matching.data), matching.nodeSet;
    var _ := matching.AddEdgesFrom(b);
    Rebuilt(ad, bd);
    Refilled(e0, e1, UEdges(matching.data), UEdges(ad), UEdges(bd),
             n0, n1, matching.nodeSet, Touched(ad), Touched(bd));
  }

  /** Adding two edge sets, one after the other, to no edges gives their union, and the nodes
      they touch are the ends of that union. */
  lemma Refilled(e0: set<set<nat>>, e1: set<set<nat>>, e2: set<set<nat>>, x: set<set<nat>>, y: set<set<nat>>,
                 n0: set<nat>, n1: set<nat>, n2: set<nat>, tx: set<nat>, ty: set<nat>)
    requires e0 == {} && e1 == e0 + x && e2 == e1 + y
    requires n0 == {} && n1 == n0 + tx && n2 == n1 + ty && tx + ty == Members(x + y)
    ensures e2 == x + y && n2 == Members(e2)
  {
  }

  /** The empty adjacency has no edges. */
  lemma NoEdges(d: map<nat, set<nat>>)
    requires d == map[]
    ensures UEdges(d) == {}
  {
  }

  /** The nodes touched by two symmetric adjacencies are the ends of their edges together. */
  lemma Rebuilt(a: map<nat, set<nat>>, b: map<nat, set<nat>>)
    requires Symmetric(a) && Symmetric(b)
    ensures Touched(a) + Touched(b) == Members(UEdges(a) + UEdges(b))
  {
    TouchedMembers(a);
    TouchedMembers(b);
    MembersUnion(UEdges(a), UEdges(b));
  }

  /** The nodes of two edge sets together are the nodes of their union. */
  lemma MembersUnion(a: set<set<nat>>, b: set<set<nat>>)
    ensures Members(a + b) == Members(a) + Members(b)
  {
  }

  /** A graph whose node set is the set of edge ends has no node without a neighbour. */
  lemma NoLonely(d: map<nat, set<nat>>, nodes: set<nat>)
    requires Symmetric(d) && nodes == Members(UEdges(d))
    ensures forall u | u in nodes :: Neighbours(d, u) != {}
  {
    TouchedMembers(d);
  }

  /** The edges of a symmetric sub-adjacency are edges of the larger one. */
  lemma EdgesOfSub(d1: map<nat, set<nat>>, d2: map<nat, set<nat>>)
    requires SubAdj(d1, d2)
    ensures UEdges(d1) <= UEdges(d2)
  {
    forall e | e in UEdges(d1) ensures e in UEdges(d2) {
      var u, v :| u in d1 && v in d1[u] && e == {u, v};
      assert Adjacent(d2, u, v);
    }
  }

  /** Augmenting a matching of the graph by a path of the graph gives a matching of the graph. */
  lemma AugmentInside(m: map<nat, set<nat>>, p: map<nat, set<nat>>, g: map<nat, set<nat>>, m': map<nat, set<nat>>)
    requires Symmetric(m) && Symmetric(p) && Symmetric(g) && Symmetric(m')
    requires SubAdj(m, g) && SubAdj(p, g) && UEdges(m') == SymDiff(UEdges(m), UEdges(p))
    ensures SubAdj(m', g)
  {
    EdgesOfSub(m, g);
    EdgesOfSub(p, g);
    SubAdjByEdges(m', g);
  }

  // ---------------------------------------------------------------------------------------
  // Flat lists of edge ends
  // ---------------------------------------------------------------------------------------

  /** The `j`-th edge of a flat list: the entries at `2 * j` and `2 * j + 1`. */
  function PairAt(s: seq<nat>, j: nat): set<nat>
    requires 2 * j + 1 < |s|
  {
    {s[2 * j], s[2 * j + 1]}
  }

  /** The first `n` edges of a flat list, as unordered pairs. */
  ghost function FlatPairs(s: seq<nat>, n: nat): set<set<nat>>
    requires 2 * n <= |s|
  {
    set j: nat | j < n :: PairAt(s, j)
  }

  /** Lines 300-304: one `add_edge` per pair of consecutive entries. */
  method ReadEdges(edgeNums: seq<nat>) returns (edges: Graph<nat>)
    requires |edgeNums| % 2 == 0
    ensures fresh(edges) && edges.Valid()
    ensures UEdges(edges.data) == FlatPairs(edgeNums, |edgeNums| / 2)
    ensures edges.nodeSet == Elements(edgeNums)
  {
    edges := new Graph();
    ghost var n := |edgeNums| / 2;
    var i := 0;
    ghost var k := 0;
    while i < |edgeNums|
      invariant i == 2 * k && k <= n && |edgeNums| == 2 * n
      invariant edges.Valid()
      invariant UEdges(edges.data) == FlatPairs(edgeNums, k)
      invariant edges.nodeSet == Elements(edgeNums[..i])
    {
      ghost var before := edges.data;
      var _ := edges.AddEdge(edgeNums[i], edgeNums[i + 1]);
      ReadStep(before, edgeNums, k);
      i, k := i + 2, k + 1;
    }
    assert edgeNums[..i] == edgeNums;
  }

  /** One pair more: its edge is inserted and its two entries are read. */
  lemma ReadStep(before: map<nat, set<nat>>, s: seq<nat>, k: nat)
    requires 2 * k + 1 < |s| && UEdges(before) == FlatPairs(s, k)
    ensures UEdges(InsertEdge(before, s[2 * k], s[2 * k + 1])) == FlatPairs(s, k + 1)
    ensures Elements(s[..2 * k + 2]) == Elements(s[..2 * k]) + {s[2 * k], s[2 * k + 1]}
  {
    InsertEdgeEdges(before, s[2 * k], s[2 * k + 1]);
    assert FlatPairs(s, k + 1) == FlatPairs(s, k) + {PairAt(s, k)};
    assert s[..2 * k + 2] == s[..2 * k] + [s[2 * k], s[2 * k + 1]];
  }

  /** Lines 314-319: the matching's edges, each pushed as its two ends. */
  method WriteEdges(matching: Graph<nat>) returns (out: seq<nat>)
    requires matching.Valid()
    ensures |out| % 2 == 0 && FlatPairs(out, |out| / 2) == UEdges(matching.data)
    ensures forall i, j | 0 <= i < j < |out| / 2 :: PairAt(out, i) != PairAt(out, j)
    ensures |out| == 2 * |UEdges(matching.data)|
  {
    var es := matching.Edges();
    out := [];
    var rest := es;
    ghost var done: seq<Edge<nat>> := [];
    while rest != {}
      invariant Writing(es, rest, done, out)
      decreases rest
    {
      var e :| e in rest;
      WriteStep(es, rest, done, out, e);
      out, done, rest := out + [e.v1, e.v2], done + [e], rest - {e};
    }
    Written(es, done, out);
  }

  /** The state of the output loop: the edges `done` of `es` are written, in order, and
      `rest` is still to write. */
  ghost predicate Writing(es: set<Edge<nat>>, rest: set<Edge<nat>>, done: seq<Edge<nat>>, out: seq<nat>)
  {
    && NoTwins(es) && rest <= es && (forall e | e in es :: e in rest || e in done)
    && (forall k | 0 <= k < |done| :: done[k] in es && done[k] !in rest)
    && TwinFree(done) && |out| == 2 * |done|
    && (forall k | 0 <= k < |done| :: PairAt(out, k) == Ends(done[k]))
  }

  /** Writing one more edge keeps `Writing`. */
  lemma WriteStep(es: set<Edge<nat>>, rest: set<Edge<nat>>, done: seq<Edge<nat>>, out: seq<nat>, e: Edge<nat>)
    requires Writing(es, rest, done, out) && e in rest
    ensures Writing(es, rest - {e}, done + [e], out + [e.v1, e.v2])
  {
    TwinFreeAdd(es, done, e);
    var out' := out + [e.v1, e.v2];
    forall k | 0 <= k < |done| + 1 ensures PairAt(out', k) == Ends((done + [e])[k]) {
      if k < |done| {
        assert out'[2 * k] == out[2 * k] && out'[2 * k + 1] == out[2 * k + 1];
      }
    }
  }

  /** Once every edge is written, the output names exactly the edge set's pairs, once each. */
  lemma Written(es: set<Edge<nat>>, done: seq<Edge<nat>>, out: seq<nat>)
    requires Writing(es, {}, done, out)
    ensures FlatPairs(out, |out| / 2) == EndsOf(es)
    ensures forall i, j | 0 <= i < j < |out| / 2 :: PairAt(out, i) != PairAt(out, j)
    ensures |out| == 2 * |EndsOf(es)|
  {
    EndsSeqOfSet(es, done);
    forall x | x in FlatPairs(out, |done|) ensures x in EndsSeq(done) {
      var j: nat :| j < |done| && x == PairAt(out, j);
    }
    forall x | x in EndsSeq(done) ensures x in FlatPairs(out, |done|) {
      var j :| 0 <= j < |done| && x == Ends(done[j]);
      assert x == PairAt(out, j);
    }
    TwinFreeCount(done);
  }

  /** A twin-free sequence has as many unordered pairs as elements. */
  lemma {:induction false} TwinFreeCount(es: seq<Edge<nat>>)
    requires TwinFree(es)
    ensures |EndsSeq(es)| == |es|
    decreases |es|
  {
    if es != [] {
      var front := es[..|es| - 1];
      TwinFreeFront(es);
      TwinFreeCount(front);
      EndsSeqAdd(front, es[|es| - 1]);
      assert front + [es[|es| - 1]] == es;
    } else {
      assert EndsSeq(es) == {};
    }
  }

  // ---------------------------------------------------------------------------------------
  // blossom, lines 297-322
  // ---------------------------------------------------------------------------------------

  /** `blossom(edgeNums)`: the assertion at line 299 on an odd-length input, then augmenting
      rounds until the search finds no path, then the matching as pairs of entries. The loop of
      lines 308-312 runs at most `fuel` augmentations. The output names input edges, each once,
      and the search's assertion about a node without a partner never fires here, because the
      driver's matching has no such node; a self-loop failure points at an input pair that
      names one node twice. */
  method Blossom(edgeNums: seq<nat>, fuel: nat) returns (r: Result<seq<nat>, Fault>)
    ensures |edgeNums| % 2 != 0 <==> r == Err(AssertFails(299))
    ensures r.Ok? ==> |r.value| % 2 == 0
    ensures r.Ok? ==> forall i | 0 <= i < |r.value| / 2 :: PairAt(r.value, i) in FlatPairs(edgeNums, |edgeNums| / 2)
    ensures r.Ok? ==> forall i, j | 0 <= i < j < |r.value| / 2 :: PairAt(r.value, i) != PairAt(r.value, j)
    ensures r.Err? ==> r.error in {AssertFails(299), AssertFails(259), ForestCycle, Undefined(79),
                                   AssertFails(100), AssertFails(125), OutOfFuel}
    ensures r == Err(AssertFails(259)) ==> exists i | 0 <= i < |edgeNums| / 2 :: |PairAt(edgeNums, i)| == 1
  {
    if |edgeNums| % 2 != 0 {
      return Err(AssertFails(299));
    }
    var edges := ReadEdges(edgeNums);
    var matching := new Graph();
    var left := fuel;
    while true
      invariant edges.Valid() && matching.Valid() && matching != edges
      invariant UEdges(edges.data) == FlatPairs(edgeNums, |edgeNums| / 2)
      invariant SubAdj(matching.data, edges.data) && matching.nodeSet == Members(UEdges(matching.data))
      decreases left
    {
      var path := AugmentingPath(edges, matching);
      if path.Err? {
        NoLonely(matching.data, matching.nodeSet);
        SelfLoopPair(edges.data, edgeNums, path.error == AssertFails(259));
        return Err(path.error);
      }
      var none := path.value.Empty();
      if none {
        break;
      }
      if left == 0 {
        return Err(OutOfFuel);
      }
      ghost var m0 := matching.data;
      AugmentMatching(matching, path.value);
      AugmentInside(m0, path.value.data, edges.data, matching.data);
      left := left - 1;
    }
    var out := WriteEdges(matching);
    EdgesOfSub(matching.data, edges.data);
    forall i | 0 <= i < |out| / 2 ensures PairAt(out, i) in FlatPairs(edgeNums, |edgeNums| / 2) {
      assert PairAt(out, i) in FlatPairs(out, |out| / 2);
    }
    r := Ok(out);
  }

  /** A self-loop of the input graph comes from a pair that names one node twice. */
  lemma SelfLoopPair(d: map<nat, set<nat>>, s: seq<nat>, loop: bool)
    requires |s| % 2 == 0 && UEdges(d) == FlatPairs(s, |s| / 2)
    requires loop ==> exists u :: Adjacent(d, u, u)
    ensures loop ==> exists i | 0 <= i < |s| / 2 :: |PairAt(s, i)| == 1
  {
    if loop {
      var u: nat :| Adjacent(d, u, u);
      assert {u, u} in UEdges(d) by { assert u in d && u in d[u]; }
      var j: nat :| j < |s| / 2 && {u, u} == PairAt(s, j);
      assert {u, u} == {u};
    }
  }
}
