/** The JS `UnionFind` of blossom.js: a parent array over the indices `0 .. N - 1`. `root`
    follows parent links, `getPath` lists them, `distance` counts them, and `union` re-points
    the second node (not its root) below the first one when their roots differ. */
module UnionFinds {
  import opened ParentChains

  class UnionFind {
    var parents: seq<nat>
    /** Proof-only ranking that witnesses acyclic parent links (see ParentChains). */
    ghost var rank: seq<nat>

    /** Parent links stay in range and contain no cycle, so every query loop terminates. */
    ghost predicate Valid()
      reads this
    {
      Ranked(parents, rank)
    }

    /** The index at the root of `i`'s tree. */
    ghost function RootIndex(i: nat): nat
      reads this
      requires Valid() && i < |parents|
    {
      RootOf(parents, rank, i)
    }

    /** The number of parent links from `i` to its root. */
    ghost function Dist(i: nat): nat
      reads this
      requires Valid() && i < |parents|
    {
      DistOf(parents, rank, i)
    }

    /** The indices from `i` up to its root. */
    ghost function Chain(i: nat): seq<nat>
      reads this
      requires Valid() && i < |parents|
    {
      ChainOf(parents, rank, i)
    }

    /** `new UnionFind(N)`: every index is its own parent, so its own root at distance 0. */
    constructor (n: nat)
      ensures Valid() && |parents| == n
      ensures forall i | 0 <= i < n :: parents[i] == i
      ensures forall i | 0 <= i < n :: RootIndex(i) == i && Dist(i) == 0
    {
      parents := seq(n, i => i);
      rank := seq(n, i => 0);
    }

    /** `root(start)`: follow parent links to a self-parented index. */
    method Root(start: nat) returns (node: nat)
      requires Valid() && start < |parents|
      ensures node == RootIndex(start) && parents[node] == node
    {
      node := start;
      while parents[node] != node
        invariant node < |parents| && RootOf(parents, rank, node) == RootIndex(start)
        decreases rank[node]
      {
        node := parents[node];
      }
    }

    /** `getPath(start)`: the indices from `start` to its root, one parent link per step. */
    method GetPath(start: nat) returns (ret: seq<nat>)
      requires Valid() && start < |parents|
      ensures ret == Chain(start)
      ensures |ret| == Dist(start) + 1 && ret[0] == start && ret[|ret| - 1] == RootIndex(start)
      ensures forall k | 0 <= k < |ret| - 1 :: ret[k] < |parents| && ret[k + 1] == parents[ret[k]] != ret[k]
    {
      var node: nat := start;
      ret := [node];
      ChainTail(parents, rank, start);
      while parents[node] != node
        invariant node < |parents| && |ret| >= 1
        invariant ret + ChainOf(parents, rank, node)[1..] == Chain(start)
        decreases rank[node]
      {
        ChainTail(parents, rank, node);
        ghost var before := ret;
        node := parents[node];
        ret := ret + [node];
        ChainTail(parents, rank, node);
        assert before + ChainOf(parents, rank, node) == ret + ChainOf(parents, rank, node)[1..];
      }
      ChainTail(parents, rank, node);
      assert ret == Chain(start);
      ChainShape(parents, rank, start);
    }

    /** `distance(start)`: the number of parent links from `start` to its root. */
    method Distance(start: nat) returns (dist: nat)
      requires Valid() && start < |parents|
      ensures dist == Dist(start)
    {
      dist := 0;
      var node: nat := start;
      while parents[node] != node
        invariant node < |parents| && dist + DistOf(parents, rank, node) == Dist(start)
        decreases rank[node]
      {
        dist := dist + 1;
        node := parents[node];
      }
    }

    /** `getSetLabel(toFind)`: the set label is the root. */
    method GetSetLabel(toFind: nat) returns (setLabel: nat)
      requires Valid() && toFind < |parents|
      ensures setLabel == RootIndex(toFind)
    {
      setLabel := Root(toFind);
    }

    /** `find(node1, node2)`: whether both share a root; so reflexive and symmetric. */
    method Find(node1: nat, node2: nat) returns (same: bool)
      requires Valid() && node1 < |parents| && node2 < |parents|
      ensures same == (RootIndex(node1) == RootIndex(node2))
      ensures node1 == node2 ==> same
    {
      var root1 := Root(node1);
      var root2 := Root(node2);
      same := root1 == root2;
    }

    /** `union(node1, node2)`: nothing changes when the two share a root; otherwise only the
        parent of `node2` changes, to `node1`. Every index whose chain passed through `node2`
        (with `node2` itself) then has `node1`'s root, and every other index keeps its root. */
    method Union(node1: nat, node2: nat)
      requires Valid() && node1 < |parents| && node2 < |parents|
      modifies this
      ensures Valid()
      ensures old(RootIndex(node1) == RootIndex(node2)) ==> parents == old(parents)
      ensures old(RootIndex(node1) != RootIndex(node2)) ==> parents == old(parents)[node2 := node1]
      ensures RootIndex(node1) == RootIndex(node2) == old(RootIndex(node1))
      ensures forall k | 0 <= k < |parents| ::
        RootIndex(k) == if node2 in old(Chain(k)) then old(RootIndex(node1)) else old(RootIndex(k))
    {
      var root1 := Root(node1);
      var root2 := Root(node2);
      if root1 != root2 {
        ghost var p0, r0 := parents, rank;
        NotOnChain(p0, r0, node1, node2);
        AttachRanked(p0, r0, node1, node2);
        parents := parents[node2 := node1];
        rank := Reattached(p0, r0, node1, node2);
        forall k | 0 <= k < |parents|
          ensures RootOf(parents, rank, k) ==
            if node2 in ChainOf(p0, r0, k) then RootOf(p0, r0, node1) else RootOf(p0, r0, k)
        {
          AttachRoot(p0, r0, rank, node1, node2, k);
        }
        AttachRoot(p0, r0, rank, node1, node2, node2);
        AttachRoot(p0, r0, rank, node1, node2, node1);
        assert node2 in ChainOf(p0, r0, node2);
      } else {
        forall k | 0 <= k < |parents| && node2 in Chain(k) ensures RootIndex(k) == RootIndex(node1) {
          InChainSameRoot(parents, rank, k, node2);
        }
      }
    }
  }

  /** A chain is its first index followed by the parent's chain, or by nothing at a root. */
  lemma ChainTail(parents: seq<nat>, rank: seq<nat>, i: nat)
    requires Ranked(parents, rank) && i < |parents|
    ensures parents[i] < |parents|
    ensures ChainOf(parents, rank, i) == [i] + ChainOf(parents, rank, i)[1..]
    ensures ChainOf(parents, rank, i)[1..] == if parents[i] == i then [] else ChainOf(parents, rank, parents[i])
  {
  }

  /** Two indices with different roots are not on each other's chain. */
  lemma NotOnChain(parents: seq<nat>, rank: seq<nat>, a: nat, b: nat)
    requires Ranked(parents, rank) && a < |parents| && b < |parents|
    requires RootOf(parents, rank, a) != RootOf(parents, rank, b)
    ensures b !in ChainOf(parents, rank, a)
  {
    if b in ChainOf(parents, rank, a) {
      InChainSameRoot(parents, rank, a, b);
    }
  }

  /** After re-pointing `b` to `a`, an index whose chain passed through `b` has `a`'s root,
      and any other index keeps its root. */
  lemma {:induction false} AttachRoot(parents: seq<nat>, rank: seq<nat>, rank': seq<nat>, a: nat, b: nat, k: nat)
    requires Ranked(parents, rank) && a < |parents| && b < |parents| && k < |parents|
    requires b !in ChainOf(parents, rank, a)
    requires Ranked(parents[b := a], rank')
    ensures RootOf(parents[b := a], rank', k) ==
      if b in ChainOf(parents, rank, k) then RootOf(parents, rank, a) else RootOf(parents, rank, k)
    decreases rank[k]
  {
    var p' := parents[b := a];
    if b !in ChainOf(parents, rank, k) {
      AttachAvoiding(parents, rank, rank', a, b, k);
      ChainShape(parents, rank, k);
      ChainShape(p', rank', k);
    } else if k == b {
      AttachHead(parents, rank, rank', a, b);
      ChainShape(parents, rank, a);
      ChainShape(p', rank', b);
    } else {
      assert parents[k] != k;
      ChainThrough(parents, rank, k, b);
      AttachRoot(parents, rank, rank', a, b, parents[k]);
      assert p'[k] == parents[k];
    }
  }
}
