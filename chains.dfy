/** Parent-index chains: the representation shared by the C++ `forest` and the JavaScript
    `UnionFind`. Index `i`'s parent is `parents[i]`; an index that is its own parent is a root.
    A ranking that strictly decreases along every parent link witnesses that the links are
    acyclic, so that walking towards the root terminates. */
module ParentChains {

  /** Every parent link points inside the index space. */
  ghost predicate InRange(parents: seq<nat>) {
    forall i | 0 <= i < |parents| :: parents[i] < |parents|
  }

  /** `rank` strictly decreases along every non-trivial parent link. */
  ghost predicate Ranked(parents: seq<nat>, rank: seq<nat>) {
    && InRange(parents)
    && |rank| == |parents|
    && forall i | 0 <= i < |parents| && parents[i] != i :: rank[parents[i]] < rank[i]
  }

  /** The root reached from `i` by following parent links. */
  ghost function RootOf(parents: seq<nat>, rank: seq<nat>, i: nat): (r: nat)
    requires Ranked(parents, rank) && i < |parents|
    ensures r < |parents| && parents[r] == r
    decreases rank[i]
  {
    if parents[i] == i then i else RootOf(parents, rank, parents[i])
  }

  /** The number of parent links from `i` to its root. */
  ghost function DistOf(parents: seq<nat>, rank: seq<nat>, i: nat): nat
    requires Ranked(parents, rank) && i < |parents|
    decreases rank[i]
  {
    if parents[i] == i then 0 else 1 + DistOf(parents, rank, parents[i])
  }

  /** The indices visited from `i` to its root, both included. */
  ghost function ChainOf(parents: seq<nat>, rank: seq<nat>, i: nat): seq<nat>
    requires Ranked(parents, rank) && i < |parents|
    decreases rank[i]
  {
    if parents[i] == i then [i] else [i] + ChainOf(parents, rank, parents[i])
  }

  /** Elements of a sequence are pairwise distinct. */
  ghost predicate Distinct<X>(s: seq<X>) {
    forall k, l | 0 <= k < l < |s| :: s[k] != s[l]
  }

  /** A chain starts at `i`, ends at the root, follows parent links and has `DistOf + 1`
      elements. */
  lemma {:induction false} ChainShape(parents: seq<nat>, rank: seq<nat>, i: nat)
    requires Ranked(parents, rank) && i < |parents|
    ensures var c := ChainOf(parents, rank, i);
      && |c| == DistOf(parents, rank, i) + 1
      && c[0] == i
      && c[|c| - 1] == RootOf(parents, rank, i)
      && (forall k | 0 <= k < |c| :: c[k] < |parents|)
      && (forall k | 0 <= k < |c| - 1 :: parents[c[k]] != c[k] && c[k + 1] == parents[c[k]])
    decreases rank[i]
  {
    if parents[i] != i {
      var t := ChainOf(parents, rank, parents[i]);
      ChainShape(parents, rank, parents[i]);
      var c := ChainOf(parents, rank, i);
      assert c == [i] + t;
      assert forall k | 1 <= k < |c| :: c[k] == t[k - 1];
    }
  }

  /** Ranks strictly decrease along a chain. */
  lemma {:induction false} ChainRanks(parents: seq<nat>, rank: seq<nat>, i: nat)
    requires Ranked(parents, rank) && i < |parents|
    ensures forall x | x in ChainOf(parents, rank, i) :: x < |parents| && (x == i || rank[x] < rank[i])
    decreases rank[i]
  {
    if parents[i] != i {
      var t := ChainOf(parents, rank, parents[i]);
      ChainRanks(parents, rank, parents[i]);
      assert ChainOf(parents, rank, i) == [i] + t;
      assert rank[parents[i]] < rank[i];
    }
  }

  /** A chain visits no index twice. */
  lemma {:induction false} ChainDistinct(parents: seq<nat>, rank: seq<nat>, i: nat)
    requires Ranked(parents, rank) && i < |parents|
    ensures Distinct(ChainOf(parents, rank, i))
    decreases rank[i]
  {
    if parents[i] != i {
      var t := ChainOf(parents, rank, parents[i]);
      ChainDistinct(parents, rank, parents[i]);
      ChainRanks(parents, rank, parents[i]);
      assert rank[parents[i]] < rank[i];
      assert i !in t;
      var c := ChainOf(parents, rank, i);
      assert c == [i] + t;
      forall k, l | 0 <= k < l < |c| ensures c[k] != c[l] {
        assert c[l] == t[l - 1];
        if k > 0 {
          assert c[k] == t[k - 1];
        }
      }
    }
  }

  /** Every index on the chain from `i` has the root of `i`, and its own chain is the
      remaining suffix. */
  lemma {:induction false} ChainSuffix(parents: seq<nat>, rank: seq<nat>, i: nat, k: nat)
    requires Ranked(parents, rank) && i < |parents|
    requires k < |ChainOf(parents, rank, i)|
    ensures ChainOf(parents, rank, i)[k] < |parents|
    ensures ChainOf(parents, rank, i)[k..] == ChainOf(parents, rank, ChainOf(parents, rank, i)[k])
    ensures RootOf(parents, rank, ChainOf(parents, rank, i)[k]) == RootOf(parents, rank, i)
    ensures DistOf(parents, rank, ChainOf(parents, rank, i)[k]) + k == DistOf(parents, rank, i)
    decreases rank[i]
  {
    if k > 0 {
      ChainSuffix(parents, rank, parents[i], k - 1);
    }
  }

  /** Membership form of `ChainSuffix`: an index on the chain from `i` shares its root. */
  lemma InChainSameRoot(parents: seq<nat>, rank: seq<nat>, i: nat, x: nat)
    requires Ranked(parents, rank) && i < |parents|
    requires x in ChainOf(parents, rank, i)
    ensures x < |parents| && RootOf(parents, rank, x) == RootOf(parents, rank, i)
  {
    var c := ChainOf(parents, rank, i);
    var k :| 0 <= k < |c| && c[k] == x;
    ChainSuffix(parents, rank, i, k);
  }

  /** The root and distance of the parent of a non-root. */
  lemma ParentStep(parents: seq<nat>, rank: seq<nat>, i: nat)
    requires Ranked(parents, rank) && i < |parents| && parents[i] != i
    ensures RootOf(parents, rank, parents[i]) == RootOf(parents, rank, i)
    ensures DistOf(parents, rank, i) == DistOf(parents, rank, parents[i]) + 1
  {
  }

  /** Two rankings of the same links give the same chains. */
  lemma {:induction false} RankIrrelevant(parents: seq<nat>, rank1: seq<nat>, rank2: seq<nat>, i: nat)
    requires Ranked(parents, rank1) && Ranked(parents, rank2) && i < |parents|
    ensures ChainOf(parents, rank1, i) == ChainOf(parents, rank2, i)
    ensures RootOf(parents, rank1, i) == RootOf(parents, rank2, i)
    ensures DistOf(parents, rank1, i) == DistOf(parents, rank2, i)
    decreases rank1[i]
  {
    if parents[i] != i {
      RankIrrelevant(parents, rank1, rank2, parents[i]);
    }
  }

  // ---------------------------------------------------------------------------------------
  // Growing the index space by one fresh root

  /** Appending a fresh self-parented index keeps the links acyclic and leaves every old
      chain as it was. */
  lemma {:induction false} ExtendChain(parents: seq<nat>, rank: seq<nat>, i: nat)
    requires Ranked(parents, rank) && i < |parents|
    ensures Ranked(parents + [|parents|], rank + [0])
    ensures ChainOf(parents + [|parents|], rank + [0], i) == ChainOf(parents, rank, i)
    ensures RootOf(parents + [|parents|], rank + [0], i) == RootOf(parents, rank, i)
    ensures DistOf(parents + [|parents|], rank + [0], i) == DistOf(parents, rank, i)
    decreases rank[i]
  {
    ExtendRanked(parents, rank);
    if parents[i] != i {
      ExtendChain(parents, rank, parents[i]);
    }
  }

  lemma ExtendRanked(parents: seq<nat>, rank: seq<nat>)
    requires Ranked(parents, rank)
    ensures Ranked(parents + [|parents|], rank + [0])
    ensures RootOf(parents + [|parents|], rank + [0], |parents|) == |parents|
    ensures DistOf(parents + [|parents|], rank + [0], |parents|) == 0
    ensures ChainOf(parents + [|parents|], rank + [0], |parents|) == [|parents|]
  {
    var p', r' := parents + [|parents|], rank + [0];
    forall i | 0 <= i < |p'| && p'[i] != i
      ensures rank[p'[i]] < r'[i] && r'[p'[i]] == rank[p'[i]]
    {
      assert i < |parents| && p'[i] == parents[i];
    }
  }

  // ---------------------------------------------------------------------------------------
  // Re-pointing one parent link

  /** The ranking after `parents[b] := a`: every index whose chain passes through `b` moves
      below `a`. */
  ghost function Reattached(parents: seq<nat>, rank: seq<nat>, a: nat, b: nat): (r: seq<nat>)
    requires Ranked(parents, rank) && a < |parents|
    ensures |r| == |parents|
  {
    seq(|parents|, k requires 0 <= k < |parents| =>
      if b in ChainOf(parents, rank, k) then rank[k] + rank[a] + 1 else rank[k])
  }

  /** A chain passes through `b` exactly when its first index is `b` or its tail does. */
  lemma ChainThrough(parents: seq<nat>, rank: seq<nat>, k: nat, b: nat)
    requires Ranked(parents, rank) && k < |parents| && parents[k] != k
    ensures (b in ChainOf(parents, rank, k)) <==> (b == k || b in ChainOf(parents, rank, parents[k]))
  {
  }

  /** Re-pointing `b` to `a` keeps the links acyclic whenever `b` is not on the chain of `a`
      (in particular whenever the two are in different trees). */
  lemma AttachRanked(parents: seq<nat>, rank: seq<nat>, a: nat, b: nat)
    requires Ranked(parents, rank) && a < |parents| && b < |parents|
    requires b !in ChainOf(parents, rank, a)
    ensures Ranked(parents[b := a], Reattached(parents, rank, a, b))
  {
    var p', r' := parents[b := a], Reattached(parents, rank, a, b);
    ChainShape(parents, rank, a);
    ChainShape(parents, rank, b);
    forall k | 0 <= k < |p'| && p'[k] != k
      ensures r'[p'[k]] < r'[k]
    {
      if k == b {
        assert b in ChainOf(parents, rank, b);
      } else {
        ChainThrough(parents, rank, k, b);
      }
    }
  }

  /** After re-pointing `b` to `a` (under any ranking `rank'` of the new links), the chain of
      `b` is `b` followed by the old chain of `a`. */
  lemma AttachHead(parents: seq<nat>, rank: seq<nat>, rank': seq<nat>, a: nat, b: nat)
    requires Ranked(parents, rank) && a < |parents| && b < |parents|
    requires b !in ChainOf(parents, rank, a)
    requires Ranked(parents[b := a], rank')
    ensures ChainOf(parents[b := a], rank', b) == [b] + ChainOf(parents, rank, a)
  {
    ChainShape(parents, rank, a);
    AttachAvoiding(parents, rank, rank', a, b, a);
  }

  /** Chains that avoid `b` survive re-pointing `b`. */
  lemma {:induction false} AttachAvoiding(parents: seq<nat>, rank: seq<nat>, rank': seq<nat>, a: nat, b: nat, k: nat)
    requires Ranked(parents, rank) && a < |parents| && b < |parents| && k < |parents|
    requires b !in ChainOf(parents, rank, k)
    requires Ranked(parents[b := a], rank')
    ensures ChainOf(parents[b := a], rank', k) == ChainOf(parents, rank, k)
    decreases rank[k]
  {
    if parents[k] != k {
      AttachAvoiding(parents, rank, rank', a, b, parents[k]);
    }
  }

  /** The set of elements of a sequence. */
  ghost function Elements<X>(s: seq<X>): set<X> {
    set x | x in s
  }

  /** A sequence without repeats has as many elements as its element set, so no more than
      any set that holds all of them. */
  lemma {:induction false} DistinctSize<X>(s: seq<X>, u: set<X>)
    requires Distinct(s) && forall k | 0 <= k < |s| :: s[k] in u
    ensures |Elements(s)| == |s| && |s| <= |u|
    decreases |s|
  {
    if s != [] {
      var t := s[..|s| - 1];
      DistinctSize(t, u);
      assert s == t + [s[|s| - 1]];
      assert Elements(s) == Elements(t) + {s[|s| - 1]};
      assert s[|s| - 1] !in Elements(t);
      var e := Elements(s);
      assert e <= u && u == e + (u - e) && e * (u - e) == {};
    } else {
      assert Elements(s) == {};
    }
  }

  /** Position of the first occurrence of `x` in `s`. */
  function IndexIn<X(==)>(s: seq<X>, x: X): (k: nat)
    requires x in s
    ensures k < |s| && s[k] == x && x !in s[..k]
  {
    if s[0] == x then 0 else 1 + IndexIn(s[1..], x)
  }

  /** A subset is no larger than its superset. */
  lemma SubsetSize<X>(a: set<X>, b: set<X>)
    requires a <= b
    ensures |a| <= |b|
  {
    assert b == a + (b - a) && a * (b - a) == {};
  }
}
