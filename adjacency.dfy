/** The adjacency maps behind the C++ `graph<T>` of wasm/graph.h: each node maps to the set of
    its neighbours. The functions and lemmas here give the meaning of the container's updates:
    the unordered edges they produce, how `num_edges` counts them, and what a sequence of
    `add_edge`/`remove_edge` calls does. */
module Adjacency {

  /** Adjacency is symmetric: `v` lists `u` whenever `u` lists `v`. */
  ghost predicate Symmetric<T>(data: map<T, set<T>>)
  {
    forall u, v | u in data && v in data[u] :: v in data && u in data[v]
  }

  /** No node lists itself. */
  ghost predicate Loopless<T>(data: map<T, set<T>>)
  {
    forall u | u in data :: u !in data[u]
  }

  /** `u` lists `v` as a neighbour. */
  predicate Adjacent<T>(data: map<T, set<T>>, u: T, v: T)
  {
    u in data && v in data[u]
  }

  /** The neighbours of `v`, empty for a node without an entry. */
  function Neighbours<T>(data: map<T, set<T>>, v: T): set<T>
  {
    if v in data then data[v] else {}
  }

  /** Nodes with at least one neighbour: exactly the endpoints of edges. */
  ghost function Touched<T>(data: map<T, set<T>>): set<T>
  {
    set u | u in data && data[u] != {}
  }

  /** The edges as unordered pairs `{u, v}` (a self-loop is the singleton `{u}`). */
  ghost function UEdges<T>(data: map<T, set<T>>): set<set<T>>
  {
    set u, v | u in data && v in data[u] :: {u, v}
  }

  /** Every adjacency entry as an ordered pair. */
  ghost function Pairs<T>(data: map<T, set<T>>): set<(T, T)>
  {
    set u, v | u in data && v in data[u] :: (u, v)
  }

  /** The sum of all neighbour-set sizes. */
  ghost function AdjTotal<T>(data: map<T, set<T>>): nat
    decreases |data.Keys|
  {
    if data == map[] then 0
    else
      var k :| k in data;
      |data[k]| + AdjTotal(data - {k})
  }

  /** Two unordered pairs coincide only when their elements match up in some order. */
  lemma PairSetEq<T>(a: T, b: T, c: T, d: T)
    requires {a, b} == {c, d}
    ensures (a == c && b == d) || (a == d && b == c)
  {
    assert a in {c, d} && b in {c, d} && c in {a, b} && d in {a, b};
  }

  /** `PairSetEq` without its premise, for use inside expressions. */
  lemma PairSetMatch<T>(a: T, b: T, c: T, d: T)
    ensures {a, b} == {c, d} ==> (a == c && b == d) || (a == d && b == c)
  {
    if {a, b} == {c, d} {
      PairSetEq(a, b, c, d);
    }
  }

  /** For symmetric adjacency, `u` and `v` are adjacent exactly when `{u, v}` is an edge. */
  lemma AdjacentIffEdge<T>(data: map<T, set<T>>, u: T, v: T)
    requires Symmetric(data)
    ensures Adjacent(data, u, v) <==> {u, v} in UEdges(data)
  {
    if {u, v} in UEdges(data) {
      var a, b :| a in data && b in data[a] && {a, b} == {u, v};
      PairSetEq(a, b, u, v);
    }
  }

  /** The ordered pairs of one row. */
  lemma RowSize<T>(k: T, s: set<T>)
    ensures |set v | v in s :: (k, v)| == |s|
    decreases |s|
  {
    if s != {} {
      var x :| x in s;
      var rest := s - {x};
      RowSize(k, rest);
      assert (set v | v in s :: (k, v)) == (set v | v in rest :: (k, v)) + {(k, x)};
    }
  }

  /** Splitting off one key splits the pairs into that key's row and the rest. */
  lemma PairsSplit<T>(data: map<T, set<T>>, k: T)
    requires k in data
    ensures |Pairs(data)| == |data[k]| + |Pairs(data - {k})|
  {
    var row := set v | v in data[k] :: (k, v);
    assert Pairs(data) == row + Pairs(data - {k});
    assert row !! Pairs(data - {k});
    RowSize(k, data[k]);
  }

  /** The total adjacency count is the number of ordered adjacency pairs, whatever key the
      definition happens to pick first. */
  lemma {:induction false} AdjTotalPairs<T>(data: map<T, set<T>>)
    ensures AdjTotal(data) == |Pairs(data)|
    decreases |data.Keys|
  {
    if data != map[] {
      var k :| k in data && AdjTotal(data) == |data[k]| + AdjTotal(data - {k});
      assert |(data - {k}).Keys| < |data.Keys| by {
        assert data.Keys == (data - {k}).Keys + {k};
      }
      AdjTotalPairs(data - {k});
      PairsSplit(data, k);
    } else {
      assert Pairs(data) == {};
    }
  }

  /** Dropping any one key takes that key's row size off the total. */
  lemma AdjTotalRemove<T>(data: map<T, set<T>>, k: T)
    requires k in data
    ensures AdjTotal(data) == |data[k]| + AdjTotal(data - {k})
  {
    AdjTotalPairs(data);
    AdjTotalPairs(data - {k});
    PairsSplit(data, k);
  }

  /** Unordered version of a set of ordered pairs. */
  ghost function Unordered<T>(pairs: set<(T, T)>): set<set<T>>
  {
    set p | p in pairs :: {p.0, p.1}
  }

  /** A symmetric, irreflexive set of ordered pairs has two pairs per unordered pair. */
  lemma {:induction false} PairsTwice<T>(pairs: set<(T, T)>)
    requires forall p | p in pairs :: (p.1, p.0) in pairs && p.0 != p.1
    ensures |pairs| == 2 * |Unordered(pairs)|
    decreases |pairs|
  {
    if pairs != {} {
      var p :| p in pairs;
      var q := (p.1, p.0);
      var rest := pairs - {p, q};
      var e := {p.0, p.1};
      forall x | x in rest ensures (x.1, x.0) in rest && x.0 != x.1 {
        assert x != p && x != q;
      }
      forall y | y in Unordered(rest) ensures y in Unordered(pairs) - {e} {
        var x :| x in rest && y == {x.0, x.1};
        if y == e {
          PairSetEq(x.0, x.1, p.0, p.1);
        }
      }
      forall y | y in Unordered(pairs) - {e} ensures y in Unordered(rest) {
        var x :| x in pairs && y == {x.0, x.1};
        assert {p.1, p.0} == e;
        assert x != p && x != q;
      }
      assert Unordered(rest) == Unordered(pairs) - {e};
      assert e in Unordered(pairs);
      PairsTwice(rest);
    }
  }

  /** Without self-loops, the total adjacency count is twice the number of edges; this is
      why `num_edges` halves the sum of the neighbour-set sizes. */
  lemma EdgeCount<T>(data: map<T, set<T>>)
    requires Symmetric(data) && Loopless(data)
    ensures AdjTotal(data) == 2 * |UEdges(data)|
  {
    AdjTotalPairs(data);
    PairsTwice(Pairs(data));
    forall x | x in UEdges(data) ensures x in Unordered(Pairs(data)) {
      var a, b :| a in data && b in data[a] && x == {a, b};
      assert (a, b) in Pairs(data);
    }
    forall x | x in Unordered(Pairs(data)) ensures x in UEdges(data) {
      var p :| p in Pairs(data) && x == {p.0, p.1};
    }
    assert Unordered(Pairs(data)) == UEdges(data);
  }

  /** `graph::edge`: two endpoints in the order they were given. */
  datatype Edge<T> = Edge(v1: T, v2: T)

  /** The endpoints of an edge as an unordered pair. */
  function Ends<T>(e: Edge<T>): set<T>
  {
    {e.v1, e.v2}
  }

  /** `edge::operator==` and the free `operator==`: equality that ignores orientation. */
  function SameEdge<T(==)>(e: Edge<T>, f: Edge<T>): (r: bool)
    ensures r <==> Ends(e) == Ends(f)
  {
    PairSetMatch(e.v1, e.v2, f.v1, f.v2);
    (e.v1 == f.v1 && e.v2 == f.v2) || (e.v1 == f.v2 && e.v2 == f.v1)
  }

  /** No two elements of an edge set are equal under `SameEdge`, which holds for an
      `unordered_set<edge, edge_hash>` because `edge_hash` is symmetric in the endpoints. */
  ghost predicate NoTwins<T>(es: set<Edge<T>>)
  {
    forall e, f | e in es && f in es && SameEdge(e, f) :: e == f
  }

  /** All unordered pairs of an edge set. */
  ghost function EndsOf<T>(es: set<Edge<T>>): set<set<T>>
  {
    set e | e in es :: Ends(e)
  }

  /** In a twin-free edge set, distinct elements have distinct unordered pairs. */
  lemma NoTwinsEnds<T>(es: set<Edge<T>>, done: set<Edge<T>>, e: Edge<T>)
    requires NoTwins(es) && done <= es && e in es && e !in done
    ensures Ends(e) !in EndsOf(done)
  {
    forall f | f in done ensures Ends(f) != Ends(e) {
      assert f != e && !SameEdge(e, f);
    }
  }

  /** The adjacency after `add_edge(v1, v2)`: `data[v1]` gains `v2`, then `data[v2]` gains
      `v1`, creating entries as `operator[]` does. */
  ghost function InsertEdge<T>(data: map<T, set<T>>, v1: T, v2: T): map<T, set<T>>
  {
    var d1 := data[v1 := Neighbours(data, v1) + {v2}];
    d1[v2 := Neighbours(d1, v2) + {v1}]
  }

  /** The adjacency after a successful `remove_edge(v1, v2)`; without the edge, none. */
  ghost function EraseEdge<T>(data: map<T, set<T>>, v1: T, v2: T): map<T, set<T>>
  {
    if Adjacent(data, v1, v2) then
      var d1 := data[v1 := data[v1] - {v2}];
      d1[v2 := Neighbours(d1, v2) - {v1}]
    else data
  }

  /** Inserting an edge adds exactly its two orientations and keeps adjacency symmetric. */
  lemma InsertEdgeAdjacent<T>(data: map<T, set<T>>, v1: T, v2: T)
    ensures InsertEdge(data, v1, v2).Keys == data.Keys + {v1, v2}
    ensures forall a, b :: Adjacent(InsertEdge(data, v1, v2), a, b) <==>
      Adjacent(data, a, b) || (a == v1 && b == v2) || (a == v2 && b == v1)
    ensures Symmetric(data) ==> Symmetric(InsertEdge(data, v1, v2))
  {
  }

  /** Inserting an edge adds its unordered pair to the edges. */
  lemma InsertEdgeEdges<T>(data: map<T, set<T>>, v1: T, v2: T)
    ensures UEdges(InsertEdge(data, v1, v2)) == UEdges(data) + {{v1, v2}}
  {
    InsertEdgeAdjacent(data, v1, v2);
    UEdgesInsert(data, InsertEdge(data, v1, v2), v1, v2);
  }

  /** Erasing an edge removes exactly its two orientations, keeps every entry and keeps
      adjacency symmetric. */
  lemma EraseEdgeAdjacent<T>(data: map<T, set<T>>, v1: T, v2: T)
    requires Symmetric(data)
    ensures EraseEdge(data, v1, v2).Keys == data.Keys
    ensures forall a, b :: Adjacent(EraseEdge(data, v1, v2), a, b) <==>
      Adjacent(data, a, b) && !(a == v1 && b == v2) && !(a == v2 && b == v1)
    ensures Symmetric(EraseEdge(data, v1, v2))
  {
  }

  /** Erasing an edge removes its unordered pair from the edges. */
  lemma EraseEdgeEdges<T>(data: map<T, set<T>>, v1: T, v2: T)
    requires Symmetric(data)
    ensures UEdges(EraseEdge(data, v1, v2)) == UEdges(data) - {{v1, v2}}
  {
    EraseEdgeAdjacent(data, v1, v2);
    if Adjacent(data, v1, v2) {
      UEdgesErase(data, EraseEdge(data, v1, v2), v1, v2);
    } else {
      AdjacentIffEdge(data, v1, v2);
    }
  }

  /** The edge sets after inserting `{v1, v2}`. */
  lemma UEdgesInsert<T>(d0: map<T, set<T>>, d1: map<T, set<T>>, v1: T, v2: T)
    requires forall a, b :: Adjacent(d1, a, b) <==> Adjacent(d0, a, b) || (a == v1 && b == v2) || (a == v2 && b == v1)
    ensures UEdges(d1) == UEdges(d0) + {{v1, v2}}
  {
    assert Adjacent(d1, v1, v2);
    assert {v2, v1} == {v1, v2};
    forall e | e in UEdges(d1) ensures e in UEdges(d0) + {{v1, v2}} {
      var a, b :| a in d1 && b in d1[a] && e == {a, b};
      assert Adjacent(d1, a, b);
      if Adjacent(d0, a, b) {
        assert e in UEdges(d0);
      }
    }
    forall e | e in UEdges(d0) ensures e in UEdges(d1) {
      var a, b :| a in d0 && b in d0[a] && e == {a, b};
      assert Adjacent(d0, a, b);
    }
  }

  /** The edge sets after erasing `{v1, v2}`. */
  lemma UEdgesErase<T>(d0: map<T, set<T>>, d1: map<T, set<T>>, v1: T, v2: T)
    requires Symmetric(d0)
    requires forall a, b :: Adjacent(d1, a, b) <==> Adjacent(d0, a, b) && !(a == v1 && b == v2) && !(a == v2 && b == v1)
    ensures UEdges(d1) == UEdges(d0) - {{v1, v2}}
  {
    assert {v2, v1} == {v1, v2};
    forall e | e in UEdges(d1) ensures e in UEdges(d0) - {{v1, v2}} {
      var a, b :| a in d1 && b in d1[a] && e == {a, b};
      assert Adjacent(d1, a, b);
      if e == {v1, v2} {
        PairSetEq(a, b, v1, v2);
      }
    }
    forall e | e in UEdges(d0) - {{v1, v2}} ensures e in UEdges(d1) {
      var a, b :| a in d0 && b in d0[a] && e == {a, b};
      assert Adjacent(d0, a, b);
      assert Adjacent(d1, a, b);
    }
  }

  /** The adjacency after `remove_node(v)`: `v`'s entry goes and every row forgets `v`. */
  ghost function DropNode<T>(data: map<T, set<T>>, v: T): map<T, set<T>>
  {
    map u | u in data && u != v :: data[u] - {v}
  }

  /** A map that agrees with `DropNode` entry by entry is `DropNode`. */
  lemma DropNodeEq<T>(d0: map<T, set<T>>, d: map<T, set<T>>, v: T)
    requires forall u :: u in d <==> u in d0 && u != v
    requires forall u | u in d :: d[u] == d0[u] - {v}
    ensures d == DropNode(d0, v)
  {
  }

  /** Dropping a node keeps adjacency symmetric and removes exactly the adjacencies touching it. */
  lemma DropNodeAdjacent<T>(d0: map<T, set<T>>, v: T)
    requires Symmetric(d0)
    ensures Symmetric(DropNode(d0, v))
    ensures forall u :: u in DropNode(d0, v) <==> u in d0 && u != v
    ensures forall a, b :: Adjacent(DropNode(d0, v), a, b) <==> Adjacent(d0, a, b) && a != v && b != v
  {
  }

  /** The edges of `edges` that do not touch `v`. */
  ghost function Untouched<T>(edges: set<set<T>>, v: T): set<set<T>>
  {
    set e | e in edges && v !in e
  }

  /** Dropping a node removes exactly the edges touching it. */
  lemma DropNodeEdges<T>(d0: map<T, set<T>>, v: T)
    requires Symmetric(d0)
    ensures UEdges(DropNode(d0, v)) == Untouched(UEdges(d0), v)
  {
    var d1 := DropNode(d0, v);
    forall e | e in UEdges(d0) && v !in e ensures e in UEdges(d1) {
      var a, b :| a in d0 && b in d0[a] && e == {a, b};
      assert a != v && b != v;
      assert a in d1 && b in d1[a];
    }
  }

  /** The unordered pairs of a sequence of edges. */
  ghost function EndsSeq<T>(es: seq<Edge<T>>): set<set<T>>
  {
    set k | 0 <= k < |es| :: Ends(es[k])
  }

  /** No two positions of the sequence hold the same unordered pair. */
  ghost predicate TwinFree<T>(es: seq<Edge<T>>)
  {
    forall i, j | 0 <= i < j < |es| :: Ends(es[i]) != Ends(es[j])
  }

  lemma EndsSeqAdd<T>(es: seq<Edge<T>>, e: Edge<T>)
    ensures EndsSeq(es + [e]) == EndsSeq(es) + {Ends(e)}
  {
    assert forall k | 0 <= k < |es| :: (es + [e])[k] == es[k];
    assert (es + [e])[|es|] == e;
  }

  /** Drawing a fresh element of a twin-free edge set keeps the drawn sequence twin-free. */
  lemma TwinFreeAdd<T>(es: set<Edge<T>>, done: seq<Edge<T>>, e: Edge<T>)
    requires NoTwins(es) && TwinFree(done) && e in es
    requires forall k | 0 <= k < |done| :: done[k] in es && done[k] != e
    ensures TwinFree(done + [e])
  {
    forall k | 0 <= k < |done| ensures Ends(done[k]) != Ends(e) {
      assert !SameEdge(done[k], e);
    }
    forall i, j | 0 <= i < j < |done| + 1 ensures Ends((done + [e])[i]) != Ends((done + [e])[j]) {
      assert (done + [e])[i] == done[i];
    }
  }

  /** The front of a twin-free sequence is twin-free and misses the last pair. */
  lemma TwinFreeFront<T>(es: seq<Edge<T>>)
    requires TwinFree(es) && es != []
    ensures TwinFree(es[..|es| - 1])
    ensures Ends(es[|es| - 1]) !in EndsSeq(es[..|es| - 1])
  {
    var p := es[..|es| - 1];
    forall i, j | 0 <= i < j < |p| ensures Ends(p[i]) != Ends(p[j]) {
      assert p[i] == es[i] && p[j] == es[j];
    }
    forall k | 0 <= k < |p| ensures Ends(p[k]) != Ends(es[|es| - 1]) {
      assert p[k] == es[k];
    }
  }

  /** A sequence drawn from an edge set, covering it, has the set's unordered pairs. */
  lemma EndsSeqOfSet<T>(es: set<Edge<T>>, done: seq<Edge<T>>)
    requires forall k | 0 <= k < |done| :: done[k] in es
    requires forall e | e in es :: e in done
    ensures EndsSeq(done) == EndsOf(es)
  {
    forall x | x in EndsOf(es) ensures x in EndsSeq(done) {
      var e :| e in es && x == Ends(e);
      var k :| 0 <= k < |done| && done[k] == e;
    }
  }

  /** The adjacency after `add_edge` on each edge of `es`, in order. */
  ghost function InsertAll<T>(data: map<T, set<T>>, es: seq<Edge<T>>): map<T, set<T>>
    decreases |es|
  {
    if es == [] then data
    else
      var e := es[|es| - 1];
      InsertEdge(InsertAll(data, es[..|es| - 1]), e.v1, e.v2)
  }

  /** How many of those `add_edge` calls report a new edge. */
  ghost function NewEdges<T>(data: map<T, set<T>>, es: seq<Edge<T>>): nat
    decreases |es|
  {
    if es == [] then 0
    else
      var e := es[|es| - 1];
      NewEdges(data, es[..|es| - 1]) + if Adjacent(InsertAll(data, es[..|es| - 1]), e.v1, e.v2) then 0 else 1
  }

  /** The node set after those `add_edge` calls. */
  ghost function AddAllNodes<T>(nodes: set<T>, es: seq<Edge<T>>): set<T>
    decreases |es|
  {
    if es == [] then nodes
    else
      var e := es[|es| - 1];
      AddAllNodes(nodes, es[..|es| - 1]) + {e.v1, e.v2}
  }

  /** The state of the loop of `add_edges_from` after copying the edges `done` of `es` into
      `data`, with `todo` still to copy and `count` of them new. */
  ghost predicate Copying<T>(d0: map<T, set<T>>, n0: set<T>, es: set<Edge<T>>, todo: set<Edge<T>>, done: seq<Edge<T>>,
                             data: map<T, set<T>>, nodes: set<T>, count: nat)
  {
    && NoTwins(es) && todo <= es && (forall e | e in es :: e in todo || e in done)
    && (forall k | 0 <= k < |done| :: done[k] in es && done[k] !in todo)
    && TwinFree(done)
    && data == InsertAll(d0, done) && count == NewEdges(d0, done)
    && nodes == AddAllNodes(n0, done)
  }

  /** Copying one more edge keeps `Copying`. */
  lemma CopyStep<T>(d0: map<T, set<T>>, n0: set<T>, es: set<Edge<T>>, todo: set<Edge<T>>, done: seq<Edge<T>>,
                    data: map<T, set<T>>, nodes: set<T>, count: nat, e: Edge<T>, added: bool)
    requires Copying(d0, n0, es, todo, done, data, nodes, count) && e in todo
    requires added == !Adjacent(data, e.v1, e.v2)
    ensures Copying(d0, n0, es, todo - {e}, done + [e], InsertEdge(data, e.v1, e.v2), nodes + {e.v1, e.v2},
                    if added then count + 1 else count)
  {
    TwinFreeAdd(es, done, e);
    assert (done + [e])[..|done|] == done;
  }

  /** Inserting a sequence of edges keeps adjacency symmetric. */
  lemma {:induction false} InsertAllSymmetric<T>(data: map<T, set<T>>, es: seq<Edge<T>>)
    requires Symmetric(data)
    ensures Symmetric(InsertAll(data, es))
    decreases |es|
  {
    if es != [] {
      var p, e := es[..|es| - 1], es[|es| - 1];
      InsertAllSymmetric(data, p);
      InsertEdgeAdjacent(InsertAll(data, p), e.v1, e.v2);
    }
  }

  /** Inserting a sequence of edges adds their unordered pairs. */
  lemma {:induction false} InsertAllEdges<T>(data: map<T, set<T>>, es: seq<Edge<T>>)
    ensures UEdges(InsertAll(data, es)) == UEdges(data) + EndsSeq(es)
    decreases |es|
  {
    if es == [] {
      assert EndsSeq(es) == {};
    } else {
      var p, e := es[..|es| - 1], es[|es| - 1];
      assert es == p + [e];
      InsertAllEdges(data, p);
      InsertEdgeEdges(InsertAll(data, p), e.v1, e.v2);
      EndsSeqAdd(p, e);
    }
  }

  /** Those `add_edge` calls add exactly the endpoints of the inserted edges. */
  lemma {:induction false} AddAllNodesMembers<T>(nodes: set<T>, es: seq<Edge<T>>)
    ensures AddAllNodes(nodes, es) == nodes + Members(EndsSeq(es))
    decreases |es|
  {
    if es == [] {
      assert EndsSeq(es) == {};
    } else {
      var p, e := es[..|es| - 1], es[|es| - 1];
      assert es == p + [e];
      AddAllNodesMembers(nodes, p);
      EndsSeqAdd(p, e);
      MembersAdd(EndsSeq(p), Ends(e));
    }
  }

  /** On a twin-free sequence, the `add_edge` results count the pairs not already present. */
  lemma {:induction false} NewEdgesCount<T>(data: map<T, set<T>>, es: seq<Edge<T>>)
    requires Symmetric(data) && TwinFree(es)
    ensures NewEdges(data, es) == |EndsSeq(es) - UEdges(data)|
    decreases |es|
  {
    if es == [] {
      assert EndsSeq(es) == {};
    } else {
      var p, e := es[..|es| - 1], es[|es| - 1];
      assert es == p + [e];
      TwinFreeFront(es);
      NewEdgesCount(data, p);
      NewEdgesStep(data, p, e);
    }
  }

  lemma NewEdgesStep<T>(data: map<T, set<T>>, p: seq<Edge<T>>, e: Edge<T>)
    requires Symmetric(data) && Ends(e) !in EndsSeq(p)
    ensures (if Adjacent(InsertAll(data, p), e.v1, e.v2) then 0 else 1) ==
      |EndsSeq(p + [e]) - UEdges(data)| - |EndsSeq(p) - UEdges(data)|
  {
    InsertAllSymmetric(data, p);
    InsertAllEdges(data, p);
    AdjacentIffEdge(InsertAll(data, p), e.v1, e.v2);
    EndsSeqAdd(p, e);
    CountStep(EndsSeq(p), UEdges(data), Ends(e));
  }

  /** The adjacency after `remove_edge` on each edge of `es`, in order. */
  ghost function EraseAll<T>(data: map<T, set<T>>, es: seq<Edge<T>>): map<T, set<T>>
    decreases |es|
  {
    if es == [] then data
    else
      var e := es[|es| - 1];
      EraseEdge(EraseAll(data, es[..|es| - 1]), e.v1, e.v2)
  }

  /** How many of those `remove_edge` calls report a removal. */
  ghost function GoneEdges<T>(data: map<T, set<T>>, es: seq<Edge<T>>): nat
    decreases |es|
  {
    if es == [] then 0
    else
      var e := es[|es| - 1];
      GoneEdges(data, es[..|es| - 1]) + if Adjacent(EraseAll(data, es[..|es| - 1]), e.v1, e.v2) then 1 else 0
  }

  /** Erasing a sequence of edges keeps adjacency symmetric and keeps every entry. */
  lemma {:induction false} EraseAllSymmetric<T>(data: map<T, set<T>>, es: seq<Edge<T>>)
    requires Symmetric(data)
    ensures Symmetric(EraseAll(data, es)) && EraseAll(data, es).Keys == data.Keys
    decreases |es|
  {
    if es != [] {
      var p, e := es[..|es| - 1], es[|es| - 1];
      EraseAllSymmetric(data, p);
      EraseEdgeAdjacent(EraseAll(data, p), e.v1, e.v2);
    }
  }

  /** Erasing a sequence of edges removes their unordered pairs. */
  lemma {:induction false} EraseAllEdges<T>(data: map<T, set<T>>, es: seq<Edge<T>>)
    requires Symmetric(data)
    ensures UEdges(EraseAll(data, es)) == UEdges(data) - EndsSeq(es)
    decreases |es|
  {
    if es == [] {
      assert EndsSeq(es) == {};
    } else {
      var p, e := es[..|es| - 1], es[|es| - 1];
      assert es == p + [e];
      EraseAllEdges(data, p);
      EraseAllSymmetric(data, p);
      EraseEdgeEdges(EraseAll(data, p), e.v1, e.v2);
      EndsSeqAdd(p, e);
    }
  }

  /** On a twin-free sequence, the `remove_edge` results count the pairs that were present. */
  lemma {:induction false} GoneEdgesCount<T>(data: map<T, set<T>>, es: seq<Edge<T>>)
    requires Symmetric(data) && TwinFree(es)
    ensures GoneEdges(data, es) == |UEdges(data) * EndsSeq(es)|
    decreases |es|
  {
    if es == [] {
      assert EndsSeq(es) == {};
    } else {
      var p, e := es[..|es| - 1], es[|es| - 1];
      assert es == p + [e];
      TwinFreeFront(es);
      GoneEdgesCount(data, p);
      GoneEdgesStep(data, p, e);
    }
  }

  lemma GoneEdgesStep<T>(data: map<T, set<T>>, p: seq<Edge<T>>, e: Edge<T>)
    requires Symmetric(data) && Ends(e) !in EndsSeq(p)
    ensures (if Adjacent(EraseAll(data, p), e.v1, e.v2) then 1 else 0) ==
      |UEdges(data) * EndsSeq(p + [e])| - |UEdges(data) * EndsSeq(p)|
  {
    EraseAllSymmetric(data, p);
    EraseAllEdges(data, p);
    AdjacentIffEdge(EraseAll(data, p), e.v1, e.v2);
    EndsSeqAdd(p, e);
    CountStepMeet(EndsSeq(p), UEdges(data), Ends(e));
  }

  /** The nodes occurring in a set of unordered pairs. */
  ghost function Members<T>(pairs: set<set<T>>): set<T>
  {
    set p, x | p in pairs && x in p :: x
  }

  lemma MembersAdd<T>(pairs: set<set<T>>, p: set<T>)
    ensures Members(pairs + {p}) == Members(pairs) + p
  {
  }

  /** For symmetric adjacency, the nodes on edges are the nodes with neighbours. */
  lemma TouchedMembers<T>(data: map<T, set<T>>)
    requires Symmetric(data)
    ensures Members(UEdges(data)) == Touched(data)
  {
    forall x | x in Touched(data) ensures x in Members(UEdges(data)) {
      var y :| y in data[x];
      assert x in {x, y} && {x, y} in UEdges(data);
    }
    forall x | x in Members(UEdges(data)) ensures x in Touched(data) {
      var p :| p in UEdges(data) && x in p;
      var a, b :| a in data && b in data[a] && p == {a, b};
      assert x == a || x == b;
    }
  }

  /** One step of the `add_edges_from` count. */
  lemma CountStep<T>(done: set<T>, base: set<T>, x: T)
    requires x !in done
    ensures |(done + {x}) - base| == |done - base| + (if x in base then 0 else 1)
  {
    if x in base {
      assert (done + {x}) - base == done - base;
    } else {
      assert (done + {x}) - base == (done - base) + {x};
    }
  }

  /** One step of the `remove_edges_from` count. */
  lemma CountStepMeet<T>(done: set<T>, base: set<T>, x: T)
    requires x !in done
    ensures |base * (done + {x})| == |base * done| + (if x in base then 1 else 0)
  {
    if x in base {
      assert base * (done + {x}) == (base * done) + {x};
    } else {
      assert base * (done + {x}) == base * done;
    }
  }

  /** Read back on the adjacency, an edge set with the unordered edges of a symmetric
      adjacency holds only adjacent pairs and one orientation of every adjacent pair. */
  lemma EdgesOrientation<T>(data: map<T, set<T>>, es: set<Edge<T>>)
    requires Symmetric(data) && EndsOf(es) == UEdges(data)
    ensures forall e | e in es :: Adjacent(data, e.v1, e.v2)
    ensures forall u, v | Adjacent(data, u, v) :: Edge(u, v) in es || Edge(v, u) in es
  {
    forall e | e in es ensures Adjacent(data, e.v1, e.v2) {
      assert Ends(e) in EndsOf(es);
      AdjacentIffEdge(data, e.v1, e.v2);
    }
    forall u, v | Adjacent(data, u, v) ensures Edge(u, v) in es || Edge(v, u) in es {
      assert {u, v} in UEdges(data);
      var e :| e in es && Ends(e) == {u, v};
      PairSetEq(e.v1, e.v2, u, v);
    }
  }

  /** An edge set produced by `edges` has exactly the unordered edges of the adjacency. */
  lemma EdgesCover<T>(data: map<T, set<T>>, es: set<Edge<T>>)
    requires forall e | e in es :: Adjacent(data, e.v1, e.v2)
    requires forall u, v | Adjacent(data, u, v) :: Edge(u, v) in es || Edge(v, u) in es
    ensures EndsOf(es) == UEdges(data)
  {
    forall x | x in UEdges(data) ensures x in EndsOf(es) {
      var a, b :| a in data && b in data[a] && x == {a, b};
      assert Adjacent(data, a, b);
      if Edge(a, b) in es {
        assert Ends(Edge(a, b)) == x;
      } else {
        assert Ends(Edge(b, a)) == x;
      }
    }
    forall x | x in EndsOf(es) ensures x in UEdges(data) {
      var e :| e in es && x == Ends(e);
      assert Adjacent(data, e.v1, e.v2);
    }
  }

  /** Inserting, in any order once each, the edges read from another symmetric adjacency adds
      its edges and its nodes, and the count of new edges is the number of its edges that were
      missing. */
  lemma InsertAllFrom<T>(d0: map<T, set<T>>, n0: set<T>, od: map<T, set<T>>, es: set<Edge<T>>, done: seq<Edge<T>>)
    requires Symmetric(d0) && Symmetric(od) && EndsOf(es) == UEdges(od)
    requires TwinFree(done) && (forall k | 0 <= k < |done| :: done[k] in es) && (forall e | e in es :: e in done)
    ensures UEdges(InsertAll(d0, done)) == UEdges(d0) + UEdges(od)
    ensures NewEdges(d0, done) == |UEdges(od) - UEdges(d0)|
    ensures AddAllNodes(n0, done) == n0 + Touched(od)
  {
    EndsSeqOfSet(es, done);
    InsertAllEdges(d0, done);
    NewEdgesCount(d0, done);
    AddAllNodesMembers(n0, done);
    TouchedMembers(od);
  }

  /** Erasing, in any order once each, the edges read from another symmetric adjacency removes
      its edges, and the count of removals is the number of edges the two had in common. */
  lemma EraseAllFrom<T>(d0: map<T, set<T>>, od: map<T, set<T>>, es: set<Edge<T>>, done: seq<Edge<T>>)
    requires Symmetric(d0) && EndsOf(es) == UEdges(od)
    requires TwinFree(done) && (forall k | 0 <= k < |done| :: done[k] in es) && (forall e | e in es :: e in done)
    ensures UEdges(EraseAll(d0, done)) == UEdges(d0) - UEdges(od)
    ensures GoneEdges(d0, done) == |UEdges(d0) * UEdges(od)|
  {
    EndsSeqOfSet(es, done);
    EraseAllEdges(d0, done);
    GoneEdgesCount(d0, done);
  }

  /** The edges named by a list of node pairs. */
  function PairEdges<T>(list: seq<(T, T)>): (es: seq<Edge<T>>)
    ensures |es| == |list| && forall k | 0 <= k < |list| :: es[k] == Edge(list[k].0, list[k].1)
  {
    if list == [] then [] else PairEdges(list[..|list| - 1]) + [Edge(list[|list| - 1].0, list[|list| - 1].1)]
  }

  /** Every adjacency of `d1` is one of `d2`. */
  ghost predicate SubAdj<T>(d1: map<T, set<T>>, d2: map<T, set<T>>)
  {
    forall u, v | u in d1 && v in d1[u] :: Adjacent(d2, u, v)
  }
}
