/** The C++ `graph<T>` of wasm/graph.h: an undirected graph stored as a map from each node to
    the set of its neighbours, plus a separate node set that may also hold isolated nodes. */
module Graphs {
  import opened Adjacency

  class Graph<T(==)> {
    var data: map<T, set<T>>
    var nodeSet: set<T>

    /** Adjacency is symmetric and every node with an entry is in the node set. */
    ghost predicate Valid()
      reads this
    {
      Symmetric(data) && data.Keys <= nodeSet
    }

    /** The empty graph. */
    constructor ()
      ensures Valid() && data == map[] && nodeSet == {}
    {
      data, nodeSet := map[], {};
    }

    /** The initializer-list constructor: one `add_edge` per listed pair, in order. */
    constructor FromPairs(list: seq<(T, T)>)
      ensures Valid()
      ensures data == InsertAll(map[], PairEdges(list)) && nodeSet == AddAllNodes({}, PairEdges(list))
      ensures UEdges(data) == EndsSeq(PairEdges(list))
    {
      data, nodeSet := map[], {};
      new;
      ghost var es := PairEdges(list);
      var k := 0;
      while k < |list|
        invariant k <= |list| && Valid()
        invariant data == InsertAll(map[], es[..k]) && nodeSet == AddAllNodes({}, es[..k])
      {
        var _ := AddEdge(list[k].0, list[k].1);
        assert es[..k + 1][..k] == es[..k];
        k := k + 1;
      }
      assert es[..k] == es;
      InsertAllEdges(map[], es);
    }

    /** The copy constructor (and the storage of the move constructor). */
    constructor Copy(other: Graph<T>)
      ensures data == other.data && nodeSet == other.nodeSet
    {
      data, nodeSet := other.data, other.nodeSet;
    }

    /** Copy assignment; assigning a graph to itself changes nothing. */
    method Assign(other: Graph<T>)
      modifies this
      ensures data == old(other.data) && nodeSet == old(other.nodeSet)
    {
      if other != this {
        data, nodeSet := other.data, other.nodeSet;
      }
    }

    /** `add_edge`: link `v1` and `v2` both ways and register both as nodes; the result says
        whether `v2` was new among `v1`'s neighbours. */
    method AddEdge(v1: T, v2: T) returns (inserted: bool)
      requires Valid()
      modifies this
      ensures Valid()
      ensures inserted == !Adjacent(old(data), v1, v2)
      ensures Adjacent(data, v1, v2) && Adjacent(data, v2, v1)
      ensures data == InsertEdge(old(data), v1, v2)
      ensures nodeSet == old(nodeSet) + {v1, v2}
    {
      ghost var d0 := data;
      inserted := v2 !in Neighbours(data, v1);
      data := data[v1 := Neighbours(data, v1) + {v2}];
      data := data[v2 := Neighbours(data, v2) + {v1}];
      nodeSet := nodeSet + {v1, v2};
      InsertEdgeAdjacent(d0, v1, v2);
    }

    /** `add_edges_from`: add every edge of `other.edges()`, counting those that were new. Only
        nodes that have edges in `other` are added. */
    method AddEdgesFrom(other: Graph<T>) returns (count: nat)
      requires Valid() && other.Valid()
      modifies this
      ensures Valid()
      ensures count == |old(UEdges(other.data)) - old(UEdges(data))|
      ensures UEdges(data) == old(UEdges(data)) + old(UEdges(other.data))
      ensures nodeSet == old(nodeSet) + old(Touched(other.data))
    {
      ghost var d0, n0, od := data, nodeSet, other.data;
      var es := other.Edges();
      var todo := es;
      ghost var done: seq<Edge<T>> := [];
      count := 0;
      while todo != {}
        invariant Valid()
        invariant Copying(d0, n0, es, todo, done, data, nodeSet, count)
        decreases todo
      {
        var e :| e in todo;
        ghost var before, nodes0, count0 := data, nodeSet, count;
        var added := AddEdge(e.v1, e.v2);
        if added {
          count := count + 1;
        }
        CopyStep(d0, n0, es, todo, done, before, nodes0, count0, e, added);
        done := done + [e];
        todo := todo - {e};
      }
      InsertAllFrom(d0, n0, od, es, done);
    }

    /** `remove_edge`: unlink `v1` and `v2` if they are adjacent; nodes stay. */
    method RemoveEdge(v1: T, v2: T) returns (removed: bool)
      requires Valid()
      modifies this
      ensures Valid()
      ensures removed == Adjacent(old(data), v1, v2)
      ensures !Adjacent(data, v1, v2) && !Adjacent(data, v2, v1)
      ensures data == EraseEdge(old(data), v1, v2) && nodeSet == old(nodeSet)
    {
      ghost var d0 := data;
      EraseEdgeAdjacent(d0, v1, v2);
      if v1 in data {
        if v2 in data[v1] {
          data := data[v1 := data[v1] - {v2}];
          data := data[v2 := Neighbours(data, v2) - {v1}];
          return true;
        }
      }
      return false;
    }

    /** `remove_edges_from`: remove every edge of `other.edges()`, counting those present. */
    method RemoveEdgesFrom(other: Graph<T>) returns (count: nat)
      requires Valid() && other.Valid()
      modifies this
      ensures Valid()
      ensures count == |old(UEdges(data)) * old(UEdges(other.data))|
      ensures UEdges(data) == old(UEdges(data)) - old(UEdges(other.data))
      ensures data.Keys == old(data.Keys) && nodeSet == old(nodeSet)
    {
      ghost var d0, od := data, other.data;
      var es := other.Edges();
      var todo := es;
      ghost var done: seq<Edge<T>> := [];
      count := 0;
      while todo != {}
        invariant Valid()
        invariant todo <= es && (forall e | e in es :: e in todo || e in done)
        invariant forall k | 0 <= k < |done| :: done[k] in es && done[k] !in todo
        invariant TwinFree(done)
        invariant data == EraseAll(d0, done) && count == GoneEdges(d0, done)
        invariant nodeSet == old(nodeSet)
        decreases |todo|
      {
        var e :| e in todo;
        var removed := RemoveEdge(e.v1, e.v2);
        if removed {
          count := count + 1;
        }
        TwinFreeAdd(es, done, e);
        assert (done + [e])[..|done|] == done;
        done := done + [e];
        todo := todo - {e};
      }
      EraseAllFrom(d0, od, es, done);
      EraseAllSymmetric(d0, done);
    }

    /** `add_node`: register `v`, possibly as an isolated node. */
    method AddNode(v: T)
      requires Valid()
      modifies this
      ensures Valid() && data == old(data) && nodeSet == old(nodeSet) + {v}
    {
      nodeSet := nodeSet + {v};
    }

    /** `remove_node`: when `v` is a node, drop it, its entry and every edge touching it. */
    method RemoveNode(v: T) returns (removed: bool)
      requires Valid()
      modifies this
      ensures Valid()
      ensures removed == (v in old(nodeSet))
      ensures !removed ==> data == old(data) && nodeSet == old(nodeSet)
      ensures removed ==> data == DropNode(old(data), v) && nodeSet == old(nodeSet) - {v}
    {
      if v !in nodeSet {
        return false;
      }
      ghost var d0 := data;
      var d := ForgetNode(data, v);
      DropNodeAdjacent(d0, v);
      data, nodeSet := d, nodeSet - {v};
      return true;
    }

    /** The loops of `remove_node`: erase `v`'s entry, then erase `v` from every other row. */
    static method ForgetNode(d0: map<T, set<T>>, v: T) returns (d: map<T, set<T>>)
      ensures d == DropNode(d0, v)
    {
      d := d0 - {v};
      var keys := d.Keys;
      while keys != {}
        invariant keys <= d.Keys
        invariant forall u :: u in d <==> u in d0 && u != v
        invariant forall u | u in d :: d[u] == if u in keys then d0[u] else d0[u] - {v}
        decreases keys
      {
        var k :| k in keys;
        ghost var before := d;
        d := d[k := d[k] - {v}];
        assert forall u | u in d && u != k :: d[u] == before[u];
        keys := keys - {k};
      }
      DropNodeEq(d0, d, v);
    }

    /** `has_node`. */
    method HasNode(v: T) returns (b: bool)
      ensures b == (v in nodeSet)
    {
      return v in nodeSet;
    }

    /** `empty`: no nodes at all (isolated nodes count). */
    method Empty() returns (b: bool)
      ensures b == (nodeSet == {})
    {
      return |nodeSet| == 0;
    }

    /** `edgeless`: every neighbour set is empty. */
    method Edgeless() returns (b: bool)
      ensures b == (UEdges(data) == {})
      ensures b == forall u | u in data :: data[u] == {}
    {
      var keys := data.Keys;
      while keys != {}
        invariant keys <= data.Keys
        invariant forall u | u in data && u !in keys :: data[u] == {}
        decreases |keys|
      {
        var k :| k in keys;
        if data[k] != {} {
          var w :| w in data[k];
          assert {k, w} in UEdges(data);
          return false;
        }
        keys := keys - {k};
      }
      return true;
    }

    /** `has_edge`: `v2` is among `v1`'s neighbours. */
    method HasEdge(v1: T, v2: T) returns (b: bool)
      requires Valid()
      ensures b == Adjacent(data, v1, v2) && b == Adjacent(data, v2, v1)
      ensures b <==> {v1, v2} in UEdges(data)
    {
      AdjacentIffEdge(data, v1, v2);
      return v1 in data && v2 in data[v1];
    }

    /** `nodes`: the node set (the source returns an iterator pair over it). */
    method Nodes() returns (s: set<T>)
      ensures s == nodeSet
    {
      return nodeSet;
    }

    /** `edges`: one orientation of every adjacency, deduplicated under `SameEdge`. Which
        orientation survives depends on the hash table's iteration order, so the contract only
        fixes that the pairs are exactly the unordered edges and none is listed twice. */
    method Edges() returns (es: set<Edge<T>>)
      requires Valid()
      ensures NoTwins(es)
      ensures EndsOf(es) == UEdges(data)
    {
      es := {};
      var keys := data.Keys;
      while keys != {}
        invariant keys <= data.Keys
        invariant NoTwins(es)
        invariant forall e | e in es :: Adjacent(data, e.v1, e.v2)
        invariant forall u, v | u in data && u !in keys && v in data[u] :: Edge(u, v) in es || Edge(v, u) in es
        decreases |keys|
      {
        var k :| k in keys;
        es := EmplaceRow(es, k, data[k]);
        keys := keys - {k};
      }
      EdgesCover(data, es);
    }

    /** The inner loop of `edges`: `emplace(k, v)` for every neighbour `v` of `k`, skipped when
        an equal edge (either orientation) is already there. */
    static method EmplaceRow(es0: set<Edge<T>>, k: T, row: set<T>) returns (es: set<Edge<T>>)
      requires NoTwins(es0)
      ensures NoTwins(es) && es0 <= es
      ensures forall e | e in es - es0 :: e.v1 == k && e.v2 in row
      ensures forall v | v in row :: Edge(k, v) in es || Edge(v, k) in es
    {
      es := es0;
      var todo := row;
      while todo != {}
        invariant todo <= row && NoTwins(es) && es0 <= es
        invariant forall e | e in es - es0 :: e.v1 == k && e.v2 in row
        invariant forall v | v in row && v !in todo :: Edge(k, v) in es || Edge(v, k) in es
        decreases |todo|
      {
        var v :| v in todo;
        if !(exists e | e in es :: SameEdge(e, Edge(k, v))) {
          es := es + {Edge(k, v)};
        } else {
          var e :| e in es && SameEdge(e, Edge(k, v));
          assert e == Edge(k, v) || e == Edge(v, k);
        }
        todo := todo - {v};
      }
    }

    /** `edges_of_node`: a copy of `v`'s neighbours, empty when `v` has no entry. */
    method EdgesOfNode(v: T) returns (s: set<T>)
      ensures v in data ==> s == data[v]
      ensures v !in data ==> s == {}
    {
      s := {};
      if v in data {
        var todo := data[v];
        while todo != {}
          invariant todo <= data[v] && s == data[v] - todo
          decreases |todo|
        {
          var w :| w in todo;
          s := s + {w};
          todo := todo - {w};
        }
      }
    }

    /** `clear`. */
    method Clear()
      modifies this
      ensures Valid() && data == map[] && nodeSet == {}
    {
      data, nodeSet := map[], {};
    }

    /** `num_nodes`. */
    method NumNodes() returns (n: nat)
      ensures n == |nodeSet|
    {
      return |nodeSet|;
    }

    /** `num_edges`: half the total of the neighbour-set sizes (integer division; a self-loop
        has one entry). Without self-loops this is the number of edges. */
    method NumEdges() returns (n: nat)
      requires Valid()
      ensures n == AdjTotal(data) / 2
      ensures Loopless(data) ==> n == |UEdges(data)|
    {
      var ret := 0;
      var rest := data;
      while rest != map[]
        invariant ret + AdjTotal(rest) == AdjTotal(data)
        decreases |rest.Keys|
      {
        var k :| k in rest;
        AdjTotalRemove(rest, k);
        ret := ret + |rest[k]|;
        assert rest.Keys == (rest - {k}).Keys + {k};
        rest := rest - {k};
      }
      n := ret / 2;
      if Loopless(data) {
        EdgeCount(data);
      }
    }
  }
}
