/** Matchings on unordered edges, and the augmentation step both engines rely on: taking the
    symmetric difference of a matching with an augmenting path gives a matching with one more
    edge. Edges are two-element node sets, as `UEdges` produces them from an adjacency map. */
module Matchings {
  import opened ParentChains

  /** Every edge has two distinct ends and no two edges share a node. */
  ghost predicate IsMatching<T>(m: set<set<T>>) {
    && (forall e | e in m :: |e| == 2)
    && (forall e, f | e in m && f in m && e != f :: e * f == {})
  }

  /** The edges in exactly one of `a` and `b`. */
  ghost function SymDiff<T>(a: set<set<T>>, b: set<set<T>>): set<set<T>> {
    (a - b) + (b - a)
  }

  /** The link between positions `i` and `i + 1` of a node sequence. */
  function Link<T>(s: seq<T>, i: nat): set<T>
    requires i + 1 < |s|
  {
    {s[i], s[i + 1]}
  }

  /** The links at a set of positions. */
  ghost function Links<T>(s: seq<T>, d: set<nat>): set<set<T>>
    requires forall i | i in d :: i + 1 < |s|
  {
    set i | i in d :: Link(s, i)
  }

  /** The edges of the path visiting `s` in order. */
  ghost function PathEdges<T>(s: seq<T>): set<set<T>> {
    set i | 0 <= i < |s| - 1 :: Link(s, i)
  }

  /** The naturals below `n`. */
  ghost function Below(n: int): (r: set<nat>)
    ensures forall i: nat :: i in r <==> i < n
    ensures n >= 0 ==> |r| == n
    decreases n
  {
    if n <= 0 then {} else Below(n - 1) + {n - 1}
  }

  /** A simple path on `|s|` nodes has `|s| - 1` edges. */
  lemma PathEdgesSize<T>(s: seq<T>)
    requires Distinct(s) && |s| >= 1
    ensures |PathEdges(s)| == |s| - 1
  {
    LinkImageSize(s, Below(|s| - 1));
    assert PathEdges(s) == Links(s, Below(|s| - 1));
  }

  /** `s` is an augmenting path for `m`: a simple path with an odd number of links, whose odd
      links (counting from 0) are exactly its matched links, and whose ends are unmatched. */
  ghost predicate Augmenting<T>(m: set<set<T>>, s: seq<T>) {
    && |s| >= 2 && |s| % 2 == 0 && Distinct(s)
    && (forall i | 0 <= i < |s| - 1 :: (Link(s, i) in m <==> i % 2 == 1))
    && (forall e | e in m :: s[0] !in e && s[|s| - 1] !in e)
  }

  /** Flipping an augmenting path yields a matching with exactly one more edge. */
  lemma AugmentGrows<T>(m: set<set<T>>, s: seq<T>)
    requires IsMatching(m) && Augmenting(m, s)
    ensures IsMatching(SymDiff(m, PathEdges(s)))
    ensures |SymDiff(m, PathEdges(s))| == |m| + 1
  {
    FlipIsMatching(m, s);
    FlipSize(m, s);
  }

  /** The flip removes `|s| / 2 - 1` edges and adds `|s| / 2`. */
  lemma FlipSize<T>(m: set<set<T>>, s: seq<T>)
    requires Augmenting(m, s)
    ensures |SymDiff(m, PathEdges(s))| == |m| + 1
  {
    var p := PathEdges(s);
    var add, keep, drop := p - m, m - p, m * p;
    FlipSplit(m, s);
    LinkImageSize(s, EvenBelow(|s| - 1));
    LinkImageSize(s, OddBelow(|s| - 1));
    ParitySizes(|s| - 1);
    assert (|s| - 1) / 2 == |s| / 2 - 1 && |s| / 2 == (|s| - 1 + 1) / 2;
    assert |add| == |s| / 2 && |drop| == |s| / 2 - 1;
    assert |keep| == |m| - |drop|;
    assert keep * add == {};
    assert SymDiff(m, p) == keep + add;
  }

  /** The links the flip adds are those at even positions; those it removes, at odd ones. */
  lemma FlipSplit<T>(m: set<set<T>>, s: seq<T>)
    requires Augmenting(m, s)
    ensures PathEdges(s) - m == Links(s, EvenBelow(|s| - 1))
    ensures m * PathEdges(s) == Links(s, OddBelow(|s| - 1))
  {
    var p := PathEdges(s);
    forall e | e in p - m ensures e in Links(s, EvenBelow(|s| - 1)) {
      var i :| 0 <= i < |s| - 1 && e == Link(s, i);
      assert i in EvenBelow(|s| - 1);
    }
    forall e | e in m * p ensures e in Links(s, OddBelow(|s| - 1)) {
      var i :| 0 <= i < |s| - 1 && e == Link(s, i);
      assert i in OddBelow(|s| - 1);
    }
  }

  /** The flipped edge set is a matching. */
  lemma FlipIsMatching<T>(m: set<set<T>>, s: seq<T>)
    requires IsMatching(m) && Augmenting(m, s)
    ensures IsMatching(SymDiff(m, PathEdges(s)))
  {
    var p := PathEdges(s);
    FlipSplit(m, s);
    forall e, f | e in SymDiff(m, p) && f in SymDiff(m, p) && e != f ensures e * f == {} {
      if e in p - m && f in p - m {
        var i :| i in EvenBelow(|s| - 1) && e == Link(s, i);
        var j :| j in EvenBelow(|s| - 1) && f == Link(s, j);
        EvenApart(i, j);
        LinksApart(s, i, j);
      } else if e in m - p && f in p - m {
        MatchedAvoidsFlip(m, s, e, f);
      } else if e in p - m && f in m - p {
        MatchedAvoidsFlip(m, s, f, e);
      }
    }
    forall e | e in SymDiff(m, p) ensures |e| == 2 {
      if e in p - m {
        var i :| 0 <= i < |s| - 1 && e == Link(s, i);
        assert s[i] != s[i + 1];
      }
    }
  }

  /** A matched edge off the path shares no node with any link of the path. */
  lemma MatchedAvoidsFlip<T>(m: set<set<T>>, s: seq<T>, e: set<T>, f: set<T>)
    requires IsMatching(m) && Augmenting(m, s)
    requires e in m - PathEdges(s) && f in PathEdges(s)
    ensures e * f == {}
  {
    forall k | 0 <= k < |s| ensures s[k] !in e {
      if 0 < k < |s| - 1 {
        var o := if k % 2 == 1 then Link(s, k) else Link(s, k - 1);
        assert o in m && o in PathEdges(s);
        assert e != o && s[k] in o;
      }
    }
    var j :| 0 <= j < |s| - 1 && f == Link(s, j);
    assert s[j] !in e && s[j + 1] !in e;
  }

  /** Distinct positions of a simple path carry different links, and links two or more apart
      share no node. */
  lemma LinksApart<T>(s: seq<T>, i: nat, j: nat)
    requires Distinct(s) && i + 1 < |s| && j + 1 < |s| && (i + 2 <= j || j + 2 <= i)
    ensures Link(s, i) * Link(s, j) == {}
  {
  }

  /** Two different even numbers lie at least two apart. */
  lemma EvenApart(i: nat, j: nat)
    requires i % 2 == 0 && j % 2 == 0 && i != j
    ensures i + 2 <= j || j + 2 <= i
  {
  }

  /** Links at distinct positions of a simple path are distinct. */
  lemma LinkInjective<T>(s: seq<T>, i: nat, j: nat)
    requires Distinct(s) && i + 1 < |s| && j + 1 < |s| && i != j
    ensures Link(s, i) != Link(s, j)
  {
    assert s[i] in Link(s, i);
    if s[i] in Link(s, j) {
      assert i == j + 1;
      assert s[i + 1] in Link(s, i) && s[i + 1] !in Link(s, j);
    }
  }

  /** The links at a set of positions of a simple path are as many as the positions. */
  lemma {:induction false} LinkImageSize<T>(s: seq<T>, d: set<nat>)
    requires Distinct(s) && forall i | i in d :: i + 1 < |s|
    ensures |Links(s, d)| == |d|
    decreases |d|
  {
    if d != {} {
      var x :| x in d;
      var d' := d - {x};
      LinkImageSize(s, d');
      assert Links(s, d) == Links(s, d') + {Link(s, x)};
      forall i | i in d' ensures Link(s, i) != Link(s, x) {
        LinkInjective(s, i, x);
      }
    }
  }

  /** The even naturals below `n`. */
  ghost function EvenBelow(n: nat): set<nat> {
    set i: nat | i < n && i % 2 == 0
  }

  /** The odd naturals below `n`. */
  ghost function OddBelow(n: nat): set<nat> {
    set i: nat | i < n && i % 2 == 1
  }

  lemma {:induction false} ParitySizes(n: nat)
    ensures |EvenBelow(n)| == (n + 1) / 2 && |OddBelow(n)| == n / 2
  {
    if n > 0 {
      var m := n - 1;
      ParitySizes(m);
      ParityStep(m);
      CountStep(EvenBelow(m), OddBelow(m), EvenBelow(m + 1), OddBelow(m + 1), m);
    } else {
      assert EvenBelow(n) == {} && OddBelow(n) == {};
    }
  }

  /** The counting step of `ParitySizes`, over plain sets. */
  lemma CountStep(e0: set<nat>, o0: set<nat>, e1: set<nat>, o1: set<nat>, m: nat)
    requires |e0| == (m + 1) / 2 && |o0| == m / 2 && m !in e0 && m !in o0
    requires e1 == e0 + (if m % 2 == 0 then {m} else {})
    requires o1 == o0 + (if m % 2 == 1 then {m} else {})
    ensures |e1| == (m + 2) / 2 && |o1| == (m + 1) / 2
  {
  }

  /** Going from `n` to `n + 1` adds `n` to exactly one of the two sets. */
  lemma ParityStep(n: nat)
    ensures EvenBelow(n + 1) == EvenBelow(n) + (if n % 2 == 0 then {n} else {})
    ensures OddBelow(n + 1) == OddBelow(n) + (if n % 2 == 1 then {n} else {})
    ensures n !in EvenBelow(n) && n !in OddBelow(n)
  {
  }
}
