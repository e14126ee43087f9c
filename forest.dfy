/** The C++ `forest<T>` of wasm/forest.h: a parent-pointer forest over node ids. Each node gets
    an index on first registration; `parents` holds one parent index per index, `lookup` maps a
    node to its index and `reverseLookup` maps back. The augmenting-path search uses it to track
    alternating trees: `distance` parity gives even/odd status and `path` rebuilds tree paths. */
module Forests {
  import opened Wrappers
  import opened ParentChains

  class Forest<T(==)> {
    var parents: seq<nat>
    var lookup: map<T, nat>
    var reverseLookup: map<nat, T>
    /** Proof-only ranking that witnesses acyclic parent links (see ParentChains). */
    ghost var rank: seq<nat>

    /** Index bookkeeping: parent links stay in range, every index names a node, and every
        registered node's index names that node. */
    ghost predicate Valid()
      reads this
    {
      && InRange(parents)
      && (forall i: nat :: i in reverseLookup <==> i < |parents|)
      && (forall x | x in lookup :: lookup[x] < |parents| && reverseLookup[lookup[x]] == x)
    }

    /** `lookup` and `reverseLookup` are mutually inverse. */
    ghost predicate Bijective()
      reads this
    {
      Valid() && forall i | i in reverseLookup :: reverseLookup[i] in lookup && lookup[reverseLookup[i]] == i
    }

    /** The parent links contain no cycle, so `root`, `distance` and `path` terminate. */
    ghost predicate Acyclic()
      reads this
    {
      Valid() && Ranked(parents, rank)
    }

    /** The node that is the root of the tree holding `x`. */
    ghost function RootNode(x: T): T
      reads this
      requires Acyclic() && x in lookup
    {
      reverseLookup[RootOf(parents, rank, lookup[x])]
    }

    /** The number of parent links from `x` to its root. */
    ghost function Depth(x: T): nat
      reads this
      requires Acyclic() && x in lookup
    {
      DistOf(parents, rank, lookup[x])
    }

    /** The node whose index is the parent index of `x`. */
    ghost function ParentNode(x: T): T
      reads this
      requires Valid() && x in lookup
    {
      reverseLookup[parents[lookup[x]]]
    }

    /** Every known node with its parent node. */
    ghost function ParentMap(): (m: map<T, T>)
      reads this
      requires Valid()
      ensures m.Keys == lookup.Keys && forall x | x in lookup :: m[x] == ParentNode(x)
    {
      map x | x in lookup :: ParentNode(x)
    }

    /** The nodes named by a sequence of indices. */
    ghost function NodesOf(c: seq<nat>): (r: seq<T>)
      reads this
      requires Valid() && forall k | 0 <= k < |c| :: c[k] < |parents|
      ensures |r| == |c| && forall k | 0 <= k < |c| :: r[k] == reverseLookup[c[k]]
    {
      var rl := reverseLookup;
      seq(|c|, k requires 0 <= k < |c| && c[k] in rl => rl[c[k]])
    }

    /** The nodes on the chain from index `i` to its root. */
    ghost function ChainNodes(i: nat): seq<T>
      reads this
      requires Acyclic() && i < |parents|
    {
      ChainShape(parents, rank, i);
      NodesOf(ChainOf(parents, rank, i))
    }

    /** The nodes from `x` to its root. */
    ghost function PathNodes(x: T): seq<T>
      reads this
      requires Acyclic() && x in lookup
    {
      ChainNodes(lookup[x])
    }

    /** A chain of nodes starts at the node of `i` and continues with the parent's chain. */
    lemma ChainNodesHead(i: nat)
      requires Acyclic() && i < |parents|
      ensures ChainNodes(i) == [reverseLookup[i]] + ChainNodes(i)[1..]
      ensures parents[i] == i ==> ChainNodes(i)[1..] == []
      ensures parents[i] != i ==> ChainNodes(i)[1..] == ChainNodes(parents[i])
    {
      ChainShape(parents, rank, i);
      if parents[i] != i {
        ChainNodesStep(i);
      }
    }

    /** One step up the chain drops the first node. */
    lemma ChainNodesStep(i: nat)
      requires Acyclic() && i < |parents| && parents[i] != i
      ensures ChainNodes(i) == [reverseLookup[i]] + ChainNodes(parents[i])
    {
      ChainShape(parents, rank, i);
      ChainShape(parents, rank, parents[i]);
      assert ChainOf(parents, rank, i) == [i] + ChainOf(parents, rank, parents[i]);
    }

    /** `path(x)` starts at `x`, ends at `x`'s root, has `distance(x) + 1` nodes, and (with the
        two lookups inverse) climbs one parent link per step. */
    lemma PathShape(x: T)
      requires Acyclic() && x in lookup
      ensures |PathNodes(x)| == Depth(x) + 1
      ensures PathNodes(x)[0] == x && PathNodes(x)[Depth(x)] == RootNode(x)
      ensures Bijective() ==> forall k | 0 <= k < Depth(x) ::
        PathNodes(x)[k] in lookup && PathNodes(x)[k + 1] == ParentNode(PathNodes(x)[k])
    {
      var c := ChainOf(parents, rank, lookup[x]);
      ChainShape(parents, rank, lookup[x]);
      if Bijective() {
        forall k | 0 <= k < Depth(x)
          ensures PathNodes(x)[k] in lookup && PathNodes(x)[k + 1] == ParentNode(PathNodes(x)[k])
        {
          assert PathNodes(x)[k] == reverseLookup[c[k]];
          assert lookup[reverseLookup[c[k]]] == c[k];
        }
      }
    }

    /** With the two lookups inverse, the path from `x` continues from its `k`-th node exactly
        as that node's own path does. */
    lemma PathSuffix(x: T, k: nat)
      requires Acyclic() && Bijective() && x in lookup && k < |PathNodes(x)|
      ensures PathNodes(x)[k] in lookup && PathNodes(x)[k..] == PathNodes(PathNodes(x)[k])
    {
      var c := ChainOf(parents, rank, lookup[x]);
      ChainShape(parents, rank, lookup[x]);
      ChainSuffix(parents, rank, lookup[x], k);
      var y := PathNodes(x)[k];
      assert y == reverseLookup[c[k]] && lookup[y] == c[k];
      ChainShape(parents, rank, c[k]);
      assert NodesOf(c)[k..] == NodesOf(c[k..]);
    }

    /** With the two lookups inverse, two known nodes share a tree exactly when their root
        indices coincide. (A range constructed from repeated items breaks the inverse: two
        root indices then name the same node.) */
    lemma SameTreeByIndex(x: T, y: T)
      requires Acyclic() && Bijective() && x in lookup && y in lookup
      ensures RootNode(x) == RootNode(y) <==> RootOf(parents, rank, lookup[x]) == RootOf(parents, rank, lookup[y])
    {
      var rx, ry := RootOf(parents, rank, lookup[x]), RootOf(parents, rank, lookup[y]);
      RootOfIsRoot(x);
      RootOfIsRoot(y);
      if reverseLookup[rx] == reverseLookup[ry] {
        assert lookup[reverseLookup[rx]] == rx && lookup[reverseLookup[ry]] == ry;
      }
    }

    /** The root index of a known node is a valid index. */
    lemma RootOfIsRoot(x: T)
      requires Acyclic() && x in lookup
      ensures RootOf(parents, rank, lookup[x]) in reverseLookup
    {
    }

    /** With the two lookups inverse, a path visits each node once, and a known node lies on
        the path from `x` exactly when its index lies on `x`'s chain. */
    lemma PathMembers(x: T)
      requires Acyclic() && Bijective() && x in lookup
      ensures Distinct(PathNodes(x))
      ensures forall y | y in lookup :: y in PathNodes(x) <==> lookup[y] in ChainOf(parents, rank, lookup[x])
    {
      var c := ChainOf(parents, rank, lookup[x]);
      ChainShape(parents, rank, lookup[x]);
      ChainDistinct(parents, rank, lookup[x]);
      var p := PathNodes(x);
      forall k, l | 0 <= k < l < |p| ensures p[k] != p[l] {
        assert lookup[p[k]] == c[k] && lookup[p[l]] == c[l];
      }
      forall y | y in lookup ensures y in p <==> lookup[y] in c {
        if y in p {
          var k :| 0 <= k < |p| && p[k] == y;
          assert lookup[y] == c[k];
        }
        if lookup[y] in c {
          var k :| 0 <= k < |c| && c[k] == lookup[y];
          assert p[k] == y;
        }
      }
    }

    /** Every node on the path from `x` is known and shares `x`'s root. */
    lemma PathRoots(x: T)
      requires Acyclic() && Bijective() && x in lookup
      ensures forall z | z in PathNodes(x) :: z in lookup && RootNode(z) == RootNode(x)
    {
      var p := PathNodes(x);
      PathShape(x);
      forall z | z in p ensures z in lookup && RootNode(z) == RootNode(x) {
        var k :| 0 <= k < |p| && p[k] == z;
        PathSuffix(x, k);
        PathShape(z);
        assert p[k..][|p| - 1 - k] == p[|p| - 1];
      }
    }

    /** A root is its own parent. */
    lemma RootIsOwnParent(x: T)
      requires Acyclic() && Bijective() && x in lookup
      ensures RootNode(x) in lookup && ParentNode(RootNode(x)) == RootNode(x)
    {
      RootOfIsRoot(x);
    }

    /** `set_edge(parent, child)` may move `child` below `parent` without closing a cycle. */
    ghost predicate MayAttach(parent: T, child: T)
      reads this
      requires Acyclic()
    {
      || parent == child
      || child !in lookup
      || parent !in lookup
      || lookup[child] !in ChainOf(parents, rank, lookup[parent])
    }

    /** The empty forest. */
    constructor ()
      ensures Acyclic() && Bijective()
      ensures parents == [] && lookup == map[] && reverseLookup == map[]
    {
      parents, lookup, reverseLookup, rank := [], map[], map[], [];
    }

    /** The range constructor: index `k` goes to the `k`-th item, as its own parent. An item
        that repeats keeps its first index in `lookup` (`emplace` does not overwrite). */
    constructor FromSeq(items: seq<T>)
      ensures Acyclic()
      ensures |parents| == |items| && forall k | 0 <= k < |items| :: parents[k] == k
      ensures forall k: nat :: k in reverseLookup <==> k < |items|
      ensures forall k | k in reverseLookup :: reverseLookup[k] == items[k]
      ensures forall x :: x in lookup <==> x in items
      ensures forall x | x in lookup :: lookup[x] == IndexIn(items, x)
      ensures forall x | x in lookup :: RootNode(x) == x && Depth(x) == 0
      ensures Distinct(items) ==> Bijective()
    {
      var ps, lk, rl := BuildLookups(items);
      parents, lookup, reverseLookup, rank := ps, lk, rl, seq(|items|, k => 0);
      new;
      forall x | x in lookup ensures RootNode(x) == x && Depth(x) == 0 {
        assert parents[lookup[x]] == lookup[x];
      }
      if Distinct(items) {
        DistinctInverse(items, lk, rl);
      }
    }

    /** The loop of the range constructor: index `k` is its own parent and names the `k`-th
        item; `lookup` keeps the first index of each item. */
    static method BuildLookups(items: seq<T>) returns (ps: seq<nat>, lk: map<T, nat>, rl: map<nat, T>)
      ensures |ps| == |items| && forall k | 0 <= k < |items| :: ps[k] == k
      ensures forall k: nat :: k in rl <==> k < |items|
      ensures forall k | k in rl :: rl[k] == items[k]
      ensures forall x :: x in lk <==> x in items
      ensures forall x | x in lk :: lk[x] < |items| && lk[x] == IndexIn(items, x)
    {
      ps, lk, rl := [], map[], map[];
      var index := 0;
      while index < |items|
        invariant index <= |items| && |ps| == index
        invariant forall k | 0 <= k < index :: ps[k] == k
        invariant forall k: nat :: k in rl <==> k < index
        invariant forall k | k in rl :: rl[k] == items[k]
        invariant forall x :: x in lk <==> x in items[..index]
        invariant forall x | x in lk :: lk[x] < index && lk[x] == IndexIn(items, x)
      {
        assert items[..index + 1] == items[..index] + [items[index]];
        if items[index] !in lk {
          IndexInFirst(items, index);
          lk := lk[items[index] := index];
        }
        ps := ps + [index];
        rl := rl[index := items[index]];
        index := index + 1;
      }
      assert items[..|items|] == items;
    }

    /** Distinct items make the two lookups built by the range constructor inverse. */
    static lemma DistinctInverse(items: seq<T>, lk: map<T, nat>, rl: map<nat, T>)
      requires Distinct(items)
      requires forall k: nat :: k in rl <==> k < |items|
      requires forall k | k in rl :: rl[k] == items[k]
      requires forall x :: x in lk <==> x in items
      requires forall x | x in lk :: lk[x] == IndexIn(items, x)
      ensures forall i | i in rl :: rl[i] in lk && lk[rl[i]] == i
    {
      forall i | i in rl ensures rl[i] in lk && lk[rl[i]] == i {
        assert rl[i] == items[i] && items[i] in items;
        DistinctIndexIn(items, i);
      }
    }

    /** `rootInternal`: follow parent links to a self-parented index. */
    method RootInternal(node: nat) returns (r: nat)
      requires Acyclic() && node < |parents|
      ensures r == RootOf(parents, rank, node)
    {
      r := node;
      while parents[r] != r
        invariant r < |parents| && RootOf(parents, rank, r) == RootOf(parents, rank, node)
        decreases rank[r]
      {
        r := parents[r];
      }
    }

    /** `internalOrCreate`: the index of `start`, registering it as a fresh root first if it
        is unknown. */
    method InternalOrCreate(start: T) returns (idx: nat)
      requires Valid()
      modifies this
      ensures Valid() && start in lookup && idx == lookup[start]
      ensures start in old(lookup) ==>
        parents == old(parents) && lookup == old(lookup) && reverseLookup == old(reverseLookup) && rank == old(rank)
      ensures start !in old(lookup) ==>
        && idx == old(|parents|)
        && parents == old(parents) + [idx]
        && lookup == old(lookup)[start := idx]
        && reverseLookup == old(reverseLookup)[idx := start]
        && rank == old(rank) + [0]
      ensures old(Bijective()) ==> Bijective()
      ensures old(Acyclic()) ==> Acyclic() && DistOf(parents, rank, idx) == old(if start in lookup then Depth(start) else 0)
      ensures old(Acyclic()) ==> forall i | 0 <= i < old(|parents|) ::
        ChainOf(parents, rank, i) == old(ChainOf(parents, rank, i))
    {
      if start in lookup {
        return lookup[start];
      }
      idx := |parents|;
      ghost var p0, r0 := parents, rank;
      parents := parents + [idx];
      lookup := lookup[start := idx];
      reverseLookup := reverseLookup[idx := start];
      rank := rank + [0];
      if Ranked(p0, r0) {
        ExtendRanked(p0, r0);
        forall i | 0 <= i < |p0| ensures ChainOf(parents, rank, i) == ChainOf(p0, r0, i) {
          ExtendChain(p0, r0, i);
        }
      }
    }

    /** `root`: the node at the root of `start`'s tree; `None` when `lookup.at` throws
        `std::out_of_range` because `start` is unknown. */
    method Root(start: T) returns (r: Option<T>)
      requires Acyclic()
      ensures r == if start in lookup then Some(RootNode(start)) else None
    {
      if start !in lookup {
        return None;
      }
      var idx := RootInternal(lookup[start]);
      return Some(reverseLookup[idx]);
    }

    /** `distance`: the number of parent links from `start` to its root. */
    method Distance(start: T) returns (r: Option<nat>)
      requires Acyclic()
      ensures r == if start in lookup then Some(Depth(start)) else None
    {
      if start !in lookup {
        return None;
      }
      var dist := 0;
      var node: nat := lookup[start];
      while parents[node] != node
        invariant node < |parents|
        invariant dist + DistOf(parents, rank, node) == Depth(start)
        decreases rank[node]
      {
        node := parents[node];
        dist := dist + 1;
      }
      return Some(dist);
    }

    /** `path`: the nodes from `start` up to its root. */
    method Path(start: T) returns (r: Option<seq<T>>)
      requires Acyclic()
      ensures r == if start in lookup then Some(PathNodes(start)) else None
    {
      if start !in lookup {
        return None;
      }
      var ret := [start];
      var node: nat := lookup[start];
      ChainNodesHead(node);
      while parents[node] != node
        invariant node < |parents| && |ret| >= 1
        invariant ret + ChainNodes(node)[1..] == PathNodes(start)
        decreases rank[node]
      {
        var up: nat := parents[node];
        ChainNodesHead(node);
        ChainNodesHead(up);
        assert (ret + [reverseLookup[up]]) + ChainNodes(up)[1..] == ret + ChainNodes(node)[1..];
        ret, node := ret + [reverseLookup[up]], up;
      }
      ChainNodesHead(node);
      assert ret + ChainNodes(node)[1..] == ret;
      return Some(ret);
    }

    /** `has`: whether `v` is registered. */
    method Has(v: T) returns (b: bool)
      ensures b == (v in lookup)
    {
      return v in lookup;
    }

    /** `same_tree`: whether both nodes have the same root; `None` when either is unknown. */
    method SameTree(v1: T, v2: T) returns (r: Option<bool>)
      requires Acyclic()
      ensures r == if v1 in lookup && v2 in lookup then Some(RootNode(v1) == RootNode(v2)) else None
      ensures v1 in lookup ==> (v1 == v2 ==> r == Some(true))
    {
      var root1 := Root(v1);
      var root2 := Root(v2);
      if root1.None? || root2.None? {
        return None;
      }
      return Some(root1.value == root2.value);
    }

    /** `add_node`: register `node` as a fresh root unless it is already known. */
    method AddNode(node: T)
      requires Valid()
      modifies this
      ensures Valid() && node in lookup
      ensures old(lookup).Keys <= lookup.Keys
      ensures node in old(lookup) ==>
        parents == old(parents) && lookup == old(lookup) && reverseLookup == old(reverseLookup)
      ensures node !in old(lookup) ==>
        && parents == old(parents) + [old(|parents|)]
        && lookup == old(lookup)[node := old(|parents|)]
        && reverseLookup == old(reverseLookup)[old(|parents|) := node]
      ensures old(Bijective()) ==> Bijective()
      ensures old(Acyclic()) ==> Acyclic()
      ensures old(Acyclic()) && node !in old(lookup) ==> RootNode(node) == node && Depth(node) == 0
      ensures forall x | x in old(lookup) :: ParentNode(x) == old(ParentNode(x))
      ensures node !in old(lookup) ==> ParentNode(node) == node
      ensures old(Acyclic()) ==> forall i | 0 <= i < old(|parents|) ::
        ChainOf(parents, rank, i) == old(ChainOf(parents, rank, i))
    {
      if node !in lookup {
        var nextNode := |parents|;
        ghost var p0, r0 := parents, rank;
        parents := parents + [nextNode];
        lookup := lookup[node := nextNode];
        reverseLookup := reverseLookup[nextNode := node];
        rank := rank + [0];
        if Ranked(p0, r0) {
          ExtendRanked(p0, r0);
          forall i | 0 <= i < |p0| ensures ChainOf(parents, rank, i) == ChainOf(p0, r0, i) {
            ExtendChain(p0, r0, i);
          }
        }
      }
    }

    /** `set_edge`: register both nodes, then make `parent`'s index the parent of `child`'s
        index unless the two indices coincide. The indices themselves are compared, not their
        roots, so moving a node below one of its own descendants closes a cycle; `MayAttach`
        rules that out. */
    method SetEdge(parent: T, child: T)
      requires Valid()
      modifies this
      ensures Valid() && parent in lookup && child in lookup
      ensures lookup.Keys == old(lookup).Keys + {parent, child}
      ensures forall x | x in old(lookup) :: lookup[x] == old(lookup)[x]
      ensures forall x | x in lookup && x !in old(lookup) :: lookup[x] >= old(|parents|)
      ensures |parents| == old(|parents|) + (if parent in old(lookup) then 0 else 1)
                                          + (if child in old(lookup) || child == parent then 0 else 1)
      ensures parent !in old(lookup) ==> lookup[parent] == old(|parents|)
      ensures child !in old(lookup) && child != parent ==> lookup[child] == |parents| - 1
      ensures forall i | 0 <= i < |parents| ::
        parents[i] == (if i == lookup[child] && parent != child then lookup[parent]
                       else if i < old(|parents|) then old(parents)[i]
                       else i)
      ensures old(Bijective()) ==> Bijective()
      ensures forall i | i in old(reverseLookup) :: reverseLookup[i] == old(reverseLookup)[i]
      ensures forall x | x in old(lookup) && x != child :: ParentNode(x) == old(ParentNode(x))
      ensures ParentNode(child) == if parent != child then parent else old(if child in lookup then ParentNode(child) else child)
      ensures old(Acyclic()) && old(MayAttach(parent, child)) ==> Acyclic()
      ensures old(Acyclic()) && old(MayAttach(parent, child)) && parent != child ==>
        ChainOf(parents, rank, lookup[child]) == [lookup[child]] + ChainOf(parents, rank, lookup[parent])
      ensures old(Acyclic()) && old(MayAttach(parent, child)) ==>
        forall i | 0 <= i < old(|parents|) && (child in old(lookup) ==> old(lookup[child] !in ChainOf(parents, rank, i))) ::
          ChainOf(parents, rank, i) == old(ChainOf(parents, rank, i))
    {
      var r1, r2 := Register(parent, child);
      if r1 != r2 {
        Relink(r1, r2);
      }
    }

    /** The two `internalOrCreate` calls that open `set_edge`. */
    method Register(parent: T, child: T) returns (r1: nat, r2: nat)
      requires Valid()
      modifies this
      ensures Valid() && parent in lookup && child in lookup
      ensures r1 == lookup[parent] && r2 == lookup[child] && (r1 == r2 <==> parent == child)
      ensures lookup.Keys == old(lookup).Keys + {parent, child}
      ensures forall x | x in old(lookup) :: lookup[x] == old(lookup)[x]
      ensures forall x | x in lookup && x !in old(lookup) :: lookup[x] >= old(|parents|)
      ensures |parents| == old(|parents|) + (if parent in old(lookup) then 0 else 1)
                                          + (if child in old(lookup) || child == parent then 0 else 1)
      ensures parent !in old(lookup) ==> lookup[parent] == old(|parents|)
      ensures child !in old(lookup) && child != parent ==> lookup[child] == |parents| - 1
      ensures forall i | 0 <= i < |parents| :: parents[i] == if i < old(|parents|) then old(parents)[i] else i
      ensures forall i | i in old(reverseLookup) :: reverseLookup[i] == old(reverseLookup)[i]
      ensures old(Bijective()) ==> Bijective()
      ensures old(Acyclic()) ==> Acyclic() && forall i | 0 <= i < old(|parents|) ::
        ChainOf(parents, rank, i) == old(ChainOf(parents, rank, i))
      ensures old(Acyclic()) && old(MayAttach(parent, child)) && r1 != r2 ==> r2 !in ChainOf(parents, rank, r1)
      ensures old(Acyclic()) ==>
        forall i | 0 <= i < old(|parents|) && (child in old(lookup) ==> old(lookup[child] !in ChainOf(parents, rank, i))) ::
          r2 !in ChainOf(parents, rank, i)
    {
      ghost var attach0 := Acyclic() && MayAttach(parent, child);
      ghost var acyclic0 := Acyclic();
      ghost var p0, r0, l0 := parents, rank, lookup;
      r1 := InternalOrCreate(parent);
      ghost var p1, rk1 := parents, rank;
      r2 := InternalOrCreate(child);
      if attach0 && r1 != r2 {
        ParentChainsAfterCreate(p0, r0, p1, rk1, parents, rank, l0, parent, child, r1, r2);
      }
      if acyclic0 {
        forall i | 0 <= i < |p0| && (child in l0 ==> l0[child] !in ChainOf(p0, r0, i))
          ensures r2 !in ChainOf(parents, rank, i)
        {
          ChainShape(p0, r0, i);
        }
      }
    }

    /** The index-level step of `set_edge`: `parents[childIdx] = parentIdx`. The forest stays
        acyclic when `childIdx` is not on `parentIdx`'s chain to the root. */
    method Relink(parentIdx: nat, childIdx: nat)
      requires Valid() && parentIdx < |parents| && childIdx < |parents| && parentIdx != childIdx
      modifies this
      ensures Valid() && lookup == old(lookup) && reverseLookup == old(reverseLookup)
      ensures parents == old(parents)[childIdx := parentIdx]
      ensures old(Acyclic()) && old(childIdx !in ChainOf(parents, rank, parentIdx)) ==>
        && Acyclic()
        && ChainOf(parents, rank, childIdx) == [childIdx] + ChainOf(parents, rank, parentIdx)
        && forall i | 0 <= i < |parents| && old(childIdx !in ChainOf(parents, rank, i)) ::
             ChainOf(parents, rank, i) == old(ChainOf(parents, rank, i))
    {
      ghost var p2, rk2 := parents, rank;
      ghost var ok := Ranked(parents, rank) && childIdx !in ChainOf(parents, rank, parentIdx);
      rank := if ok then Reattached(parents, rank, parentIdx, childIdx) else rank;
      parents := parents[childIdx := parentIdx];
      if ok {
        AttachRanked(p2, rk2, parentIdx, childIdx);
        AttachHead(p2, rk2, rank, parentIdx, childIdx);
        ChainShape(p2, rk2, childIdx);
        AttachAvoiding(p2, rk2, rank, parentIdx, childIdx, parentIdx);
        forall i | 0 <= i < |parents| && childIdx !in ChainOf(p2, rk2, i)
          ensures ChainOf(parents, rank, i) == ChainOf(p2, rk2, i)
        {
          AttachAvoiding(p2, rk2, rank, parentIdx, childIdx, i);
        }
      }
    }

    /** Facts about the two `internalOrCreate` calls of `set_edge`, phrased on the saved states. */
    static lemma ParentChainsAfterCreate(p0: seq<nat>, r0: seq<nat>, p1: seq<nat>, rk1: seq<nat>,
                                         p2: seq<nat>, rk2: seq<nat>, l0: map<T, nat>,
                                         parent: T, child: T, r1: nat, r2: nat)
      requires Ranked(p0, r0) && Ranked(p1, rk1) && Ranked(p2, rk2)
      requires |p0| <= |p1| <= |p2| && r1 < |p1| && r2 < |p2| && r1 != r2
      requires forall i | 0 <= i < |p0| :: ChainOf(p1, rk1, i) == ChainOf(p0, r0, i)
      requires forall i | 0 <= i < |p1| :: ChainOf(p2, rk2, i) == ChainOf(p1, rk1, i)
      requires parent in l0 ==> r1 == l0[parent]
      requires parent !in l0 ==> r1 == |p0| && ChainOf(p1, rk1, r1) == [r1]
      requires child in l0 ==> r2 == l0[child]
      requires child !in l0 ==> r2 >= |p1|
      requires forall x | x in l0 :: l0[x] < |p0|
      requires child !in l0 || parent !in l0 || l0[child] !in ChainOf(p0, r0, l0[parent])
      ensures r2 !in ChainOf(p2, rk2, r1)
      ensures forall i | 0 <= i < |p0| :: ChainOf(p2, rk2, i) == ChainOf(p0, r0, i)
    {
      ChainShape(p1, rk1, r1);
      if child !in l0 {
        assert forall k | 0 <= k < |ChainOf(p1, rk1, r1)| :: ChainOf(p1, rk1, r1)[k] < |p1|;
      }
    }
  }

  /** The first index of the item at `index` is `index` when it does not occur earlier. */
  lemma IndexInFirst<X>(items: seq<X>, index: nat)
    requires index < |items| && items[index] !in items[..index]
    ensures IndexIn(items, items[index]) == index
  {
    var k := IndexIn(items, items[index]);
    assert forall j | 0 <= j < index :: items[..index][j] == items[j];
    assert forall j | 0 <= j < k :: items[..k][j] == items[j];
  }

  /** In a sequence without repeats, the first index of `items[i]` is `i`. */
  lemma DistinctIndexIn<X>(items: seq<X>, i: nat)
    requires Distinct(items) && i < |items|
    ensures IndexIn(items, items[i]) == i
  {
  }
}
