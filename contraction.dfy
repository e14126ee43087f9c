/** `contracted` of wasm/blossom.cpp: collapsing the nodes of a blossom into one fresh node.
    Every blossom node is removed with its edges, and the new node is joined to each node
    outside the blossom that was a neighbour of some blossom node. */
module Contraction {
  import opened Adjacency
  import opened Graphs

  /** The neighbours, outside `b`, of the nodes of `from`. */
  ghost function OutsideOf(d: map<nat, set<nat>>, from: set<nat>, b: set<nat>): set<nat>
  {
    set u, x | u in from && u in d && x in d[u] && x !in b :: x
  }

  /** The nodes outside the blossom `b` that the contracted node must be joined to. */
  ghost function Outside(d: map<nat, set<nat>>, b: set<nat>): set<nat>
  {
    OutsideOf(d, b, b)
  }

  /** `d` is the adjacency of `d0` with the blossom `b` contracted into `c`: the edges between
      nodes outside `b` are kept, `c` is joined to exactly the outside neighbours of `b`, and
      nodes of `b` keep no entry. */
  ghost predicate IsContraction(d0: map<nat, set<nat>>, b: set<nat>, c: nat, d: map<nat, set<nat>>)
  {
    && (forall u, x :: Adjacent(d, u, x) <==>
          (Adjacent(d0, u, x) && u !in b && x !in b)
          || (u == c && x in Outside(d0, b))
          || (x == c && u in Outside(d0, b)))
    && (forall u :: u in d <==> (u in d0 && u !in b) || (u == c && Outside(d0, b) != {}))
  }

  /** `contracted(graph, blossom, contractNode)`: a copy of `graph` in which every node of
      `blossom` is removed and `contractNode` is joined to their outside neighbours. */
  method Contracted(graph: Graph<nat>, blossom: Graph<nat>, contractNode: nat) returns (ret: Graph<nat>)
    requires graph.Valid() && blossom.Valid()
    ensures fresh(ret) && ret.Valid()
    ensures IsContraction(graph.data, blossom.nodeSet, contractNode, ret.data)
    ensures ret.nodeSet == (graph.nodeSet - blossom.nodeSet)
                           + (if Outside(graph.data, blossom.nodeSet) == {} then {} else {contractNode})
  {
    ret := new Graph.Copy(graph);
    var needConnection := DropBlossom(ret, blossom);
    OutsideKept(graph.data, graph.nodeSet, blossom.nodeSet);
    Connect(ret, contractNode, needConnection);
  }

  /** The outside neighbours of a symmetric adjacency are nodes outside the blossom. */
  lemma OutsideKept(d: map<nat, set<nat>>, nodes: set<nat>, b: set<nat>)
    requires Symmetric(d) && d.Keys <= nodes
    ensures forall x | x in Outside(d, b) :: x in d && x in nodes && x !in b
  {
  }

  /** The first loop of `contracted`: each blossom node's outside neighbours are collected,
      then the node is removed. */
  method DropBlossom(ret: Graph<nat>, blossom: Graph<nat>) returns (needConnection: set<nat>)
    requires ret.Valid() && blossom.Valid() && ret != blossom
    modifies ret
    ensures ret.Valid()
    ensures forall u, x :: Adjacent(ret.data, u, x) <==>
      Adjacent(old(ret.data), u, x) && u !in blossom.nodeSet && x !in blossom.nodeSet
    ensures forall u :: u in ret.data <==> u in old(ret.data) && u !in blossom.nodeSet
    ensures ret.nodeSet == old(ret.nodeSet) - blossom.nodeSet
    ensures needConnection == Outside(old(ret.data), blossom.nodeSet)
  {
    ghost var d0, n0 := ret.data, ret.nodeSet;
    var nodes := blossom.Nodes();
    ghost var done: set<nat> := {};
    needConnection := {};
    while nodes != {}
      invariant nodes + done == blossom.nodeSet && nodes * done == {}
      invariant ret.Valid()
      invariant forall u, x :: Adjacent(ret.data, u, x) <==> Adjacent(d0, u, x) && u !in done && x !in done
      invariant forall u :: u in ret.data <==> u in d0 && u !in done
      invariant ret.nodeSet == n0 - done
      invariant needConnection == OutsideOf(d0, done, blossom.nodeSet)
      decreases nodes
    {
      var v2 :| v2 in nodes;
      var neighbours := ret.EdgesOfNode(v2);
      assert neighbours == Neighbours(d0, v2) - done by {
        forall x ensures x in neighbours <==> x in Neighbours(d0, v2) - done {
          assert x in neighbours <==> Adjacent(ret.data, v2, x);
        }
      }
      needConnection := CollectOutside(needConnection, neighbours, blossom);
      OutsideStep(d0, done, v2, blossom.nodeSet);
      ghost var before := ret.data;
      var _ := ret.RemoveNode(v2);
      DropNodeAdjacent(before, v2);
      nodes, done := nodes - {v2}, done + {v2};
    }
  }

  /** Collecting one more blossom node's outside neighbours. */
  lemma OutsideStep(d0: map<nat, set<nat>>, done: set<nat>, v: nat, b: set<nat>)
    requires done <= b
    ensures OutsideOf(d0, done + {v}, b) ==
      OutsideOf(d0, done, b) + (set x | x in Neighbours(d0, v) - done && x !in b)
  {
  }

  /** The inner loop of the first loop: the neighbours not in the blossom are inserted. */
  method CollectOutside(need0: set<nat>, neighbours: set<nat>, blossom: Graph<nat>) returns (need: set<nat>)
    ensures need == need0 + (set x | x in neighbours && x !in blossom.nodeSet)
  {
    need := need0;
    var rest := neighbours;
    while rest != {}
      invariant rest <= neighbours
      invariant need == need0 + (set x | x in neighbours - rest && x !in blossom.nodeSet)
      decreases rest
    {
      var otherV :| otherV in rest;
      var inBlossom := blossom.HasNode(otherV);
      if !inBlossom {
        need := need + {otherV};
      }
      rest := rest - {otherV};
    }
  }

  /** The second loop of `contracted`: `contractNode` is joined to every collected node. */
  method Connect(ret: Graph<nat>, contractNode: nat, needConnection: set<nat>)
    requires ret.Valid()
    modifies ret
    ensures ret.Valid()
    ensures forall u, x :: Adjacent(ret.data, u, x) <==>
      Adjacent(old(ret.data), u, x) || (u == contractNode && x in needConnection) || (x == contractNode && u in needConnection)
    ensures forall u :: u in ret.data <==> u in old(ret.data) || u in needConnection || (u == contractNode && needConnection != {})
    ensures ret.nodeSet == old(ret.nodeSet) + needConnection + (if needConnection == {} then {} else {contractNode})
  {
    ghost var d0, n0 := ret.data, ret.nodeSet;
    var rest := needConnection;
    ghost var done: set<nat> := {};
    while rest != {}
      invariant rest + done == needConnection && rest * done == {}
      invariant ret.Valid()
      invariant Joined(d0, n0, contractNode, done, ret.data, ret.nodeSet)
      decreases rest
    {
      var otherV :| otherV in rest;
      ghost var before := ret.data;
      var _ := ret.AddEdge(contractNode, otherV);
      JoinStep(d0, n0, contractNode, done, before, otherV);
      rest, done := rest - {otherV}, done + {otherV};
    }
  }

  /** The adjacency `d` and nodes `n` after joining `c` to the nodes `done` of `d0` and `n0`. */
  ghost predicate Joined(d0: map<nat, set<nat>>, n0: set<nat>, c: nat, done: set<nat>, d: map<nat, set<nat>>, n: set<nat>)
  {
    && (forall u, x :: Adjacent(d, u, x) <==> Adjacent(d0, u, x) || (u == c && x in done) || (x == c && u in done))
    && (forall u :: u in d <==> u in d0 || u in done || (u == c && done != {}))
    && n == n0 + done + (if done == {} then {} else {c})
  }

  /** Joining `c` to one more node `x`. */
  lemma JoinStep(d0: map<nat, set<nat>>, n0: set<nat>, c: nat, done: set<nat>, d: map<nat, set<nat>>, x: nat)
    requires Joined(d0, n0, c, done, d, n0 + done + (if done == {} then {} else {c}))
    ensures Joined(d0, n0, c, done + {x}, InsertEdge(d, c, x), n0 + done + (if done == {} then {} else {c}) + {c, x})
  {
    InsertEdgeAdjacent(d, c, x);
  }

  /** Contracting a sub-graph and the graph itself at the same blossom keeps it a sub-graph. */
  lemma ContractionSubgraph(m0: map<nat, set<nat>>, g0: map<nat, set<nat>>, b: set<nat>, c: nat,
                            m: map<nat, set<nat>>, g: map<nat, set<nat>>)
    requires SubAdj(m0, g0)
    requires IsContraction(m0, b, c, m) && IsContraction(g0, b, c, g)
    ensures SubAdj(m, g)
  {
    forall u, x | Adjacent(m, u, x) ensures Adjacent(g, u, x) {
      if u == c && x in Outside(m0, b) {
        var y :| y in b && y in m0 && x in m0[y] && x !in b;
        assert Adjacent(g0, y, x);
      } else if x == c && u in Outside(m0, b) {
        var y :| y in b && y in m0 && u in m0[y] && u !in b;
        assert Adjacent(g0, y, u);
      }
    }
  }
}
