/** The odd cycle that `augmentingPath` (wasm/blossom.cpp) builds when an unmarked edge joins
    two even nodes `v` and `w` of one alternating tree. `pathV` and `pathW` are the tree paths
    from `v` and from `w` to the shared root; the cycle is meant to be the edge `v`-`w` plus
    both paths up to their lowest common ancestor.

    The code as written keeps the common node of least depth, which is the root, and discards
    the others with `std::remove` but never erases the tail that `std::remove` leaves behind.
    The first half of this module models those steps literally and exhibits the stray cycle
    they produce; the second half defines the intended cycle and proves that it is odd, which
    is the property the code asserts and that the contraction relies on. */
module BlossomCycle {
  import opened ParentChains
  import opened Matchings

  /** `std::numeric_limits<std::uint32_t>::max()`, the starting distance of the search. */
  const U32Max: nat := 0xFFFF_FFFF

  // ---------------------------------------------------------------------------------------
  // As written

  /** The elements of `s` other than `x`, in order. */
  function Keep(s: seq<nat>, x: nat): (r: seq<nat>)
    ensures |r| <= |s|
    decreases |s|
  {
    if s == [] then [] else Keep(s[..|s| - 1], x) + (if s[|s| - 1] == x then [] else [s[|s| - 1]])
  }

  /** `Keep` drops exactly the copies of `x`. */
  lemma {:induction false} KeepMembers(s: seq<nat>, x: nat)
    ensures forall y :: y in Keep(s, x) <==> y in s && y != x
    decreases |s|
  {
    if s != [] {
      KeepMembers(s[..|s| - 1], x);
      assert s == s[..|s| - 1] + [s[|s| - 1]];
    }
  }

  /** The contents after `std::remove(s.begin(), s.end(), x)` whose result is discarded: the
      kept elements move to the front in order; from their end on, every position keeps the
      value it held before the call, because the algorithm writes only below that end. */
  function Removed(s: seq<nat>, x: nat): (r: seq<nat>)
    ensures |r| == |s|
  {
    Keep(s, x) + s[|Keep(s, x)|..]
  }

  /** libc++'s `std::remove`: find the first `x`, then copy every later element other than `x`
      down to the next free position. */
  method StdRemove(a: array<nat>, x: nat) returns (newEnd: nat)
    modifies a
    ensures newEnd == |Keep(old(a[..]), x)|
    ensures a[..] == Removed(old(a[..]), x)
  {
    var first := FindFirst(a, x);
    if first < a.Length {
      newEnd := Compact(a, x, first);
    } else {
      assert a[..first] == a[..];
      newEnd := first;
    }
  }

  /** `std::find`: the position of the first `x`, or the length when there is none. */
  method FindFirst(a: array<nat>, x: nat) returns (first: nat)
    ensures first <= a.Length && (first < a.Length ==> a[first] == x)
    ensures Keep(a[..first], x) == a[..first]
  {
    first := 0;
    while first < a.Length && a[first] != x
      invariant first <= a.Length
      invariant Keep(a[..first], x) == a[..first]
    {
      assert a[..first + 1] == a[..first] + [a[first]];
      first := first + 1;
    }
  }

  /** The copying loop of `std::remove`, started at the first `x`. */
  method Compact(a: array<nat>, x: nat, start: nat) returns (newEnd: nat)
    requires start < a.Length && a[start] == x && Keep(a[..start], x) == a[..start]
    modifies a
    ensures newEnd == |Keep(old(a[..]), x)|
    ensures a[..] == Removed(old(a[..]), x)
  {
    ghost var s := a[..];
    var first, i := start, start + 1;
    assert s[..i] == s[..first] + [x];
    while i < a.Length
      invariant first < i <= a.Length
      invariant |Keep(s[..i], x)| == first
      invariant forall t | 0 <= t < first :: a[t] == Keep(s[..i], x)[t]
      invariant forall t | first <= t < a.Length :: a[t] == s[t]
    {
      assert s[..i + 1] == s[..i] + [s[i]];
      if a[i] != x {
        a[first] := a[i];
        first := first + 1;
      }
      i := i + 1;
    }
    assert s[..i] == s;
    assert a[..] == Keep(s, x) + s[first..];
    newEnd := first;
  }

  /** The contents after removing (as above) each element of `xs` in turn. */
  function RemoveEach(s: seq<nat>, xs: seq<nat>): (r: seq<nat>)
    ensures |r| == |s|
    decreases |xs|
  {
    if xs == [] then s else Removed(RemoveEach(s, xs[..|xs| - 1]), xs[|xs| - 1])
  }

  /** The loop over `toRemove` (an unordered set, so in some order): both paths lose each node
      in turn, in place. `order` is the order the set happened to be visited in. */
  method RemoveCommon(pathV: array<nat>, pathW: array<nat>, toRemove: set<nat>) returns (ghost order: seq<nat>)
    requires pathV != pathW
    modifies pathV, pathW
    ensures Distinct(order) && forall n :: n in order <==> n in toRemove
    ensures pathV[..] == RemoveEach(old(pathV[..]), order)
    ensures pathW[..] == RemoveEach(old(pathW[..]), order)
  {
    var todo := toRemove;
    order := [];
    while todo != {}
      invariant todo <= toRemove && Distinct(order)
      invariant forall n :: n in order <==> n in toRemove - todo
      invariant pathV[..] == RemoveEach(old(pathV[..]), order)
      invariant pathW[..] == RemoveEach(old(pathW[..]), order)
      decreases |todo|
    {
      var n :| n in todo;
      assert n !in order;
      assert Distinct(order + [n]) by {
        forall k, l | 0 <= k < l < |order| + 1 ensures (order + [n])[k] != (order + [n])[l] {
          if l == |order| {
            assert order[k] in order;
          }
        }
      }
      var _ := StdRemove(pathV, n);
      var _ := StdRemove(pathW, n);
      assert (order + [n])[..|order|] == order;
      order := order + [n];
      todo := todo - {n};
    }
  }

  /** The result of the `minCommon` loop started from `best` at distance `bestDist`: the first
      node of `xs` strictly nearer than everything before it. */
  function NearestFrom(xs: seq<nat>, depth: map<nat, nat>, best: nat, bestDist: nat): (r: nat)
    requires forall n | n in xs :: n in depth
    ensures || (r == best && forall n | n in xs :: bestDist <= depth[n])
            || (r in xs && depth[r] < bestDist && forall n | n in xs :: depth[r] <= depth[n])
    decreases |xs|
  {
    if xs == [] then best
    else if depth[xs[0]] < bestDist then NearestFrom(xs[1..], depth, xs[0], depth[xs[0]])
    else NearestFrom(xs[1..], depth, best, bestDist)
  }

  /** The node `minCommon` that the code keeps: of least depth, 0 when there is none. */
  function Nearest(xs: seq<nat>, depth: map<nat, nat>): nat
    requires forall n | n in xs :: n in depth
  {
    NearestFrom(xs, depth, 0, U32Max)
  }

  /** No element of `s` is smaller than one before it. */
  ghost predicate Ascending(s: seq<nat>)
  {
    forall i, j | 0 <= i < j < |s| :: s[i] <= s[j]
  }

  /** An element no larger than any of an ascending sequence may go in front of it. */
  lemma AscendingCons(x: nat, t: seq<nat>)
    requires Ascending(t) && forall y | y in t :: x <= y
    ensures Ascending([x] + t)
  {
    var r := [x] + t;
    forall i, j | 0 <= i < j < |r| ensures r[i] <= r[j] {
      assert r[j] == t[j - 1] && t[j - 1] in t;
      if i > 0 {
        assert r[i] == t[i - 1];
      }
    }
  }

  /** `x` placed before the first element of `s` that is not smaller than it. */
  function Insert(x: nat, s: seq<nat>): (r: seq<nat>)
    ensures multiset(r) == multiset(s) + multiset{x}
    ensures forall y :: y in r <==> y in s || y == x
    decreases |s|
  {
    if s == [] || x <= s[0] then [x] + s
    else
      assert s == [s[0]] + s[1..];
      [s[0]] + Insert(x, s[1..])
  }

  /** Inserting into an ascending sequence keeps it ascending. */
  lemma {:induction false} InsertAscending(x: nat, s: seq<nat>)
    requires Ascending(s)
    ensures Ascending(Insert(x, s))
    decreases |s|
  {
    if s == [] || x <= s[0] {
      AscendingCons(x, s);
    } else {
      var t := Insert(x, s[1..]);
      InsertAscending(x, s[1..]);
      assert forall y | y in s[1..] :: s[0] <= y;
      AscendingCons(s[0], t);
    }
  }

  /** What `std::sort` leaves of `s` (lines 222-225): its elements in ascending order. */
  function SortSeq(s: seq<nat>): (r: seq<nat>)
    ensures multiset(r) == multiset(s) && Ascending(r)
    decreases |s|
  {
    if s == [] then []
    else
      assert s == [s[0]] + s[1..];
      InsertAscending(s[0], SortSeq(s[1..]));
      Insert(s[0], SortSeq(s[1..]))
  }

  /** What `std::set_intersection` writes for two ascending ranges (lines 226-229): the
      elements common to both, in ascending order. */
  function SetIntersection(a: seq<nat>, b: seq<nat>): (r: seq<nat>)
    requires Ascending(a) && Ascending(b)
    ensures Ascending(r)
    ensures forall x :: x in r <==> x in a && x in b
    decreases |a| + |b|
  {
    if a == [] || b == [] then []
    else if a[0] < b[0] then SetIntersection(a[1..], b)
    else if b[0] < a[0] then SetIntersection(a, b[1..])
    else
      var t := SetIntersection(a[1..], b[1..]);
      assert forall x | x in t :: x in a[1..];
      AscendingCons(a[0], t);
      [a[0]] + t
  }

  /** Every element of `s` is smaller than the next. */
  ghost predicate Strict(s: seq<nat>)
  {
    forall i, j | 0 <= i < j < |s| :: s[i] < s[j]
  }

  /** An element smaller than every element of a strictly ascending sequence may go in front
      of it. */
  lemma StrictCons(x: nat, t: seq<nat>)
    requires Strict(t) && forall y | y in t :: x < y
    ensures Strict([x] + t)
  {
    var r := [x] + t;
    forall i, j | 0 <= i < j < |r| ensures r[i] < r[j] {
      assert r[j] == t[j - 1] && t[j - 1] in t;
      if i > 0 {
        assert r[i] == t[i - 1];
      }
    }
  }

  /** Inserting a new element into a strictly ascending sequence keeps it strictly ascending. */
  lemma {:induction false} InsertStrict(x: nat, s: seq<nat>)
    requires Strict(s) && x !in s
    ensures Strict(Insert(x, s))
    decreases |s|
  {
    if s == [] || x <= s[0] {
      forall y | y in s ensures x < y {
        var i :| 0 <= i < |s| && s[i] == y;
        assert s[0] <= s[i];
      }
      StrictCons(x, s);
    } else {
      var t := Insert(x, s[1..]);
      assert s == [s[0]] + s[1..];
      InsertStrict(x, s[1..]);
      assert forall y | y in s[1..] :: s[0] < y;
      StrictCons(s[0], t);
    }
  }

  /** Sorting a sequence without repeats gives a strictly ascending one. */
  lemma {:induction false} SortStrict(s: seq<nat>)
    requires Distinct(s)
    ensures Strict(SortSeq(s))
    decreases |s|
  {
    if s != [] {
      var t := SortSeq(s[1..]);
      assert s == [s[0]] + s[1..];
      SortStrict(s[1..]);
      assert s[0] !in multiset(s[1..]);
      assert s[0] !in t by {
        assert multiset(t) == multiset(s[1..]);
      }
      InsertStrict(s[0], t);
    }
  }

  /** The intersection of strictly ascending sequences is strictly ascending. */
  lemma {:induction false} IntersectionStrict(a: seq<nat>, b: seq<nat>)
    requires Ascending(a) && Ascending(b) && Strict(a) && Strict(b)
    ensures Strict(SetIntersection(a, b))
    decreases |a| + |b|
  {
    if a == [] || b == [] {
    } else if a[0] < b[0] {
      IntersectionStrict(a[1..], b);
    } else if b[0] < a[0] {
      IntersectionStrict(a, b[1..]);
    } else {
      var t := SetIntersection(a[1..], b[1..]);
      IntersectionStrict(a[1..], b[1..]);
      forall y | y in t ensures a[0] < y {
        var i :| 0 <= i < |a[1..]| && a[1..][i] == y;
        assert a[0] < a[i + 1];
      }
      StrictCons(a[0], t);
    }
  }

  /** The `intersection` of lines 222-229: the nodes on both paths, in ascending order, each
      once when neither path repeats a node (tree paths never do). */
  function Common(pathV: seq<nat>, pathW: seq<nat>): (r: seq<nat>)
    ensures Ascending(r)
    ensures forall x :: x in r <==> x in pathV && x in pathW
  {
    var sv, sw := SortSeq(pathV), SortSeq(pathW);
    assert forall x :: x in sv <==> x in multiset(pathV);
    assert forall x :: x in sw <==> x in multiset(pathW);
    SetIntersection(sv, sw)
  }

  /** Without repeats on either path, each common node appears once. */
  lemma CommonStrict(pathV: seq<nat>, pathW: seq<nat>)
    requires Distinct(pathV) && Distinct(pathW)
    ensures Strict(Common(pathV, pathW))
  {
    SortStrict(pathV);
    SortStrict(pathW);
    IntersectionStrict(SortSeq(pathV), SortSeq(pathW));
  }

  /** The `minCommon` loop over the sorted intersection; `depth` stands for `trees.distance`. */
  method MinCommon(intersection: seq<nat>, depth: map<nat, nat>) returns (minCommon: nat)
    requires forall n | n in intersection :: n in depth
    ensures minCommon == Nearest(intersection, depth)
  {
    minCommon := 0;
    var minCommonDist := U32Max;
    var i := 0;
    while i < |intersection|
      invariant i <= |intersection|
      invariant NearestFrom(intersection[i..], depth, minCommon, minCommonDist) == Nearest(intersection, depth)
    {
      assert intersection[i..][1..] == intersection[i + 1..];
      var dist := depth[intersection[i]];
      if dist < minCommonDist {
        minCommon := intersection[i];
        minCommonDist := dist;
      }
      i := i + 1;
    }
  }

  /** `order` visits every common node except the kept one, each once. */
  ghost predicate RemovalOrder(intersection: seq<nat>, depth: map<nat, nat>, order: seq<nat>)
    requires forall n | n in intersection :: n in depth
  {
    Distinct(order) && forall n :: n in order <==> n in intersection && n != Nearest(intersection, depth)
  }

  /** The two node sequences whose consecutive pairs the code adds to the blossom, as written
      (lines 222-247): the sorted intersection of the paths, the kept common node, then every
      other common node removed from both paths in place. */
  method AsWrittenArcs(pathV: seq<nat>, pathW: seq<nat>, depth: map<nat, nat>)
    returns (intersection: seq<nat>, arcV: seq<nat>, arcW: seq<nat>, ghost order: seq<nat>)
    requires forall n | n in pathV && n in pathW :: n in depth
    ensures Ascending(intersection) && forall x :: x in intersection <==> x in pathV && x in pathW
    ensures Distinct(pathV) && Distinct(pathW) ==> Strict(intersection)
    ensures RemovalOrder(intersection, depth, order)
    ensures arcV == RemoveEach(pathV, order) && arcW == RemoveEach(pathW, order)
  {
    intersection := Common(pathV, pathW);
    if Distinct(pathV) && Distinct(pathW) {
      CommonStrict(pathV, pathW);
    }
    arcV, arcW, order := RemoveOthers(pathV, pathW, intersection, depth);
  }

  /** Lines 230-247: the common node of least depth is kept and every other one is removed
      from both paths in place. */
  method RemoveOthers(pathV: seq<nat>, pathW: seq<nat>, intersection: seq<nat>, depth: map<nat, nat>)
    returns (arcV: seq<nat>, arcW: seq<nat>, ghost order: seq<nat>)
    requires forall n | n in intersection :: n in depth
    ensures RemovalOrder(intersection, depth, order)
    ensures arcV == RemoveEach(pathV, order) && arcW == RemoveEach(pathW, order)
  {
    var minCommon := MinCommon(intersection, depth);
    var toRemove := set n | n in intersection && n != minCommon;
    var av := new nat[|pathV|](i requires 0 <= i < |pathV| => pathV[i]);
    var aw := new nat[|pathW|](i requires 0 <= i < |pathW| => pathW[i]);
    assert av[..] == pathV && aw[..] == pathW;
    order := RemoveCommon(av, aw, toRemove);
    arcV, arcW := av[..], aw[..];
    assert forall n :: n in toRemove <==> n in intersection && n != Nearest(intersection, depth);
  }

  /** The depths in the example tree 0 - 1 - 2, where 2 has the two children 3 and 5, and 3
      and 5 have the children 4 and 6. */
  function ExampleDepth(): map<nat, nat> {
    map[0 := 0, 1 := 1, 2 := 2]
  }

  /** With `pathV = [4, 3, 2, 1, 0]` and `pathW = [6, 5, 2, 1, 0]` (nodes 4 and 6 are the two
      even ends of the unmarked edge, their lowest common ancestor is 2), the code keeps the
      root 0 and, whatever order it removes 1 and 2 in, leaves both paths ending in three
      copies of 0. The blossom then holds the edges 3 - 0 and 5 - 0, which are no tree links (3's
      parent is 2), and the self-loop at 0; its nodes are 0, 3, 4, 5 and 6 instead of the real
      cycle 2, 3, 4, 6, 5. The code's neighbour-set total of 11 halves to 5, so its
      odd-count assertion still passes. */
  lemma AsWrittenArcsStray(intersection: seq<nat>, order: seq<nat>)
    requires Strict(intersection)
    requires forall x :: x in intersection <==> x in [4, 3, 2, 1, 0] && x in [6, 5, 2, 1, 0]
    requires RemovalOrder(intersection, ExampleDepth(), order)
    ensures RemoveEach([4, 3, 2, 1, 0], order) == [4, 3, 0, 0, 0]
    ensures RemoveEach([6, 5, 2, 1, 0], order) == [6, 5, 0, 0, 0]
    ensures Link([4, 3, 0, 0, 0], 1) == {3, 0} && {3, 0} !in PathEdges([4, 3, 2, 1, 0])
    ensures Link([4, 3, 0, 0, 0], 2) == {0}
  {
    ExampleCommon(intersection);
    ExampleOrders(order);
    TwoRemovals([4, 3, 2, 1, 0], order[0], order[1]);
    TwoRemovals([6, 5, 2, 1, 0], order[0], order[1]);
    assert order == [order[0], order[1]];
    ExampleRemovals();
    ExampleLinks();
  }

  /** The sorted intersection of the example paths, each common node once, is `[0, 1, 2]`. */
  lemma ExampleCommon(r: seq<nat>)
    requires Strict(r)
    requires forall x :: x in r <==> x in [4, 3, 2, 1, 0] && x in [6, 5, 2, 1, 0]
    ensures r == [0, 1, 2]
  {
    assert forall x :: x in r <==> x in {0, 1, 2};
    assert 0 in r && 1 in r && 2 in r;
    assert |r| >= 3;
    assert r[0] < r[1] < r[2] && r[2] in r && r[|r| - 1] in r;
    assert |r| == 3;
  }

  /** The kept node of the example is the root 0, so 1 and 2 are removed, in either order. */
  lemma ExampleOrders(order: seq<nat>)
    requires RemovalOrder([0, 1, 2], ExampleDepth(), order)
    ensures order == [1, 2] || order == [2, 1]
  {
    var depth := ExampleDepth();
    assert NearestFrom([2], depth, 0, 0) == 0;
    assert [1, 2][1..] == [2];
    assert NearestFrom([1, 2], depth, 0, 0) == 0;
    assert [0, 1, 2][1..] == [1, 2];
    assert Nearest([0, 1, 2], depth) == 0;
    assert 1 in order && 2 in order && 0 !in order;
    assert Elements(order) == {1, 2};
    DistinctSize(order, {1, 2});
  }

  lemma TwoRemovals(s: seq<nat>, p: nat, q: nat)
    ensures RemoveEach(s, [p, q]) == Removed(Removed(s, p), q)
  {
    assert [p][..0] == [];
    assert RemoveEach(s, [p]) == Removed(s, p);
    assert [p, q][..1] == [p];
  }

  /** Both removal orders leave the same contents in the example. */
  lemma ExampleRemovals()
    ensures Removed(Removed([4, 3, 2, 1, 0], 1), 2) == [4, 3, 0, 0, 0]
    ensures Removed(Removed([4, 3, 2, 1, 0], 2), 1) == [4, 3, 0, 0, 0]
    ensures Removed(Removed([6, 5, 2, 1, 0], 1), 2) == [6, 5, 0, 0, 0]
    ensures Removed(Removed([6, 5, 2, 1, 0], 2), 1) == [6, 5, 0, 0, 0]
  {
    RemovedTwice(4, 3);
    RemovedTwice(6, 5);
  }

  lemma RemovedTwice(a: nat, b: nat)
    requires a > 2 && b > 2
    ensures Removed(Removed([a, b, 2, 1, 0], 1), 2) == [a, b, 0, 0, 0]
    ensures Removed(Removed([a, b, 2, 1, 0], 2), 1) == [a, b, 0, 0, 0]
  {
    RemovedOnce(a, b, 2, 1, 0, 1, [a, b, 2, 0]);
    assert [a, b, 2, 1, 0][4..] == [0];
    assert Removed([a, b, 2, 1, 0], 1) == [a, b, 2, 0, 0];
    RemovedOnce(a, b, 2, 0, 0, 2, [a, b, 0, 0]);
    assert [a, b, 2, 0, 0][4..] == [0];
    assert Removed([a, b, 2, 0, 0], 2) == [a, b, 0, 0, 0];
    RemovedOnce(a, b, 2, 1, 0, 2, [a, b, 1, 0]);
    assert Removed([a, b, 2, 1, 0], 2) == [a, b, 1, 0, 0];
    RemovedOnce(a, b, 1, 0, 0, 1, [a, b, 0, 0]);
    assert [a, b, 1, 0, 0][4..] == [0];
    assert Removed([a, b, 1, 0, 0], 1) == [a, b, 0, 0, 0];
  }

  /** One removal from five elements of which the first two stay; `k` is what is kept. */
  lemma RemovedOnce(a: nat, b: nat, c: nat, d: nat, e: nat, x: nat, k: seq<nat>)
    requires a != x && b != x
    requires k == [a, b] + (if c == x then [] else [c]) + (if d == x then [] else [d]) + (if e == x then [] else [e])
    ensures Removed([a, b, c, d, e], x) == k + [a, b, c, d, e][|k|..]
  {
    Keep5(a, b, c, d, e, x);
    assert [a] + [b] == [a, b];
  }

  /** The link 3 - 0 is not a link of the tree path `[4, 3, 2, 1, 0]`. */
  lemma ExampleLinks()
    ensures Link([4, 3, 0, 0, 0], 1) == {3, 0} && {3, 0} !in PathEdges([4, 3, 2, 1, 0])
    ensures Link([4, 3, 0, 0, 0], 2) == {0}
  {
    var s := [4, 3, 2, 1, 0];
    forall i | 0 <= i < 4 ensures Link(s, i) != {3, 0} {
      assert 0 in Link(s, i) ==> i == 3;
      assert 4 !in {3, 0} && 2 !in {3, 0} && 1 !in {3, 0};
    }
  }

  /** One more element on the right adds at most that element to the kept ones. */
  lemma KeepSnoc(s: seq<nat>, y: nat, x: nat)
    ensures Keep(s + [y], x) == Keep(s, x) + (if y == x then [] else [y])
  {
    assert (s + [y])[..|s|] == s;
  }

  /** `Keep` on five elements, one position at a time. */
  lemma Keep5(a: nat, b: nat, c: nat, d: nat, e: nat, x: nat)
    ensures Keep([a, b, c, d, e], x) == Keep([a, b, c, d], x) + (if e == x then [] else [e])
    ensures Keep([a, b, c, d], x) == Keep([a, b, c], x) + (if d == x then [] else [d])
    ensures Keep([a, b, c], x) == Keep([a, b], x) + (if c == x then [] else [c])
    ensures Keep([a, b], x) == Keep([a], x) + (if b == x then [] else [b])
    ensures Keep([a], x) == (if a == x then [] else [a])
  {
    KeepSnoc([], a, x);
    assert [a] == [] + [a];
    KeepSnoc([a], b, x);
    assert [a, b] == [a] + [b];
    KeepSnoc([a, b], c, x);
    assert [a, b, c] == [a, b] + [c];
    KeepSnoc([a, b, c], d, x);
    assert [a, b, c, d] == [a, b, c] + [d];
    KeepSnoc([a, b, c, d], e, x);
    assert [a, b, c, d, e] == [a, b, c, d] + [e];
  }

  // ---------------------------------------------------------------------------------------
  // Intended

  /** Two paths from tree nodes to one root: simple, ending at the same node, and continuing
      identically from the first node of `pathV` that lies on `pathW`. (Tree paths meet this
      since each node has one parent.) */
  ghost predicate TreePaths(pathV: seq<nat>, pathW: seq<nat>) {
    && |pathV| >= 1 && |pathW| >= 1 && Distinct(pathV) && Distinct(pathW)
    && pathV[|pathV| - 1] == pathW[|pathW| - 1]
    && var i := FirstShared(pathV, pathW); pathV[i..] == pathW[IndexIn(pathW, pathV[i])..]
  }

  /** The position of the first node of `s` that lies on `t`. */
  function FirstShared(s: seq<nat>, t: seq<nat>): (k: nat)
    requires |s| >= 1 && s[|s| - 1] in t
    ensures k < |s| && s[k] in t
    ensures forall l | 0 <= l < k :: s[l] !in t
  {
    if s[0] in t then 0 else 1 + FirstShared(s[1..], t)
  }

  /** The corrected arcs: each path cut just after the lowest common ancestor, that is after
      the first node of `pathV` on `pathW`. The scan replaces the sort, the intersection and
      the removals. */
  method CommonArcs(pathV: seq<nat>, pathW: seq<nat>) returns (arcV: seq<nat>, arcW: seq<nat>)
    requires TreePaths(pathV, pathW)
    ensures |arcV| == FirstShared(pathV, pathW) + 1 && arcV == pathV[..|arcV|]
    ensures 1 <= |arcW| <= |pathW| && arcW == pathW[..|arcW|]
    ensures arcW[|arcW| - 1] == arcV[|arcV| - 1]
  {
    var i := 0;
    while pathV[i] !in pathW
      invariant i < |pathV| && forall l | 0 <= l < i :: pathV[l] !in pathW
      decreases |pathV| - i
    {
      i := i + 1;
    }
    assert i == FirstShared(pathV, pathW);
    var j := 0;
    while pathW[j] != pathV[i]
      invariant j < |pathW| && pathV[i] in pathW[j..]
      decreases |pathW| - j
    {
      j := j + 1;
    }
    arcV, arcW := pathV[..i + 1], pathW[..j + 1];
  }

  /** The blossom's edge set: the edge `v`-`w` (the arcs' first nodes) and the links of both
      arcs. */
  ghost function CycleEdges(arcV: seq<nat>, arcW: seq<nat>): set<set<nat>>
    requires |arcV| >= 1 && |arcW| >= 1
  {
    {{arcV[0], arcW[0]}} + PathEdges(arcV) + PathEdges(arcW)
  }

  /** The arcs meet only in their common last node, and cut off equally long path tails. */
  lemma ArcsMeetOnce(pathV: seq<nat>, pathW: seq<nat>, arcV: seq<nat>, arcW: seq<nat>)
    requires TreePaths(pathV, pathW)
    requires |arcV| == FirstShared(pathV, pathW) + 1 && arcV == pathV[..|arcV|]
    requires 1 <= |arcW| <= |pathW| && arcW == pathW[..|arcW|]
    requires arcW[|arcW| - 1] == arcV[|arcV| - 1]
    ensures Distinct(arcV) && Distinct(arcW)
    ensures forall x | x in arcV && x in arcW :: x == arcV[|arcV| - 1]
    ensures |pathV| - |arcV| == |pathW| - |arcW|
  {
    PrefixDistinct(pathV, |arcV|);
    PrefixDistinct(pathW, |arcW|);
    var i, j := |arcV| - 1, |arcW| - 1;
    assert pathW[j] == pathV[i];
    assert j == IndexIn(pathW, pathV[i]);
    assert pathV[i..] == pathW[j..];
    forall x | x in arcV && x in arcW ensures x == arcV[i] {
      var k :| 0 <= k < |arcV| && arcV[k] == x;
      assert pathV[k] == x && x in pathW;
      assert k == i;
    }
  }

  /** Two simple arcs with different first nodes, meeting only in their common last node and
      with `2 * h` nodes between them (an even total, as `EqualTails` provides when `v` and
      `w` both lie at even depth), close an odd cycle: `2 * h - 1` distinct edges with two
      ends each. */
  lemma CycleOdd(arcV: seq<nat>, arcW: seq<nat>, h: int)
    requires |arcV| >= 1 && |arcW| >= 1 && Distinct(arcV) && Distinct(arcW) && arcV[0] != arcW[0]
    requires arcV[|arcV| - 1] == arcW[|arcW| - 1]
    requires forall x | x in arcV && x in arcW :: x == arcV[|arcV| - 1]
    requires |arcV| + |arcW| == 2 * h
    ensures |CycleEdges(arcV, arcW)| == 2 * h - 1
    ensures forall e | e in CycleEdges(arcV, arcW) :: |e| == 2
  {
    var pa, pb := PathEdges(arcV), PathEdges(arcW);
    PathEdgesSize(arcV);
    PathEdgesSize(arcW);
    ArcLinksApart(arcV, arcW);
    assert |pa + pb| == |pa| + |pb|;
    var vw := {arcV[0], arcW[0]};
    LinkNotArc(arcV, arcW);
    LinkNotArc(arcW, arcV);
    assert {arcW[0], arcV[0]} == vw;
    assert vw !in pa + pb;
    assert CycleEdges(arcV, arcW) == {vw} + (pa + pb);
    LinksOfSimple(arcV);
    LinksOfSimple(arcW);
  }

  /** Cutting equally long tails off the odd lengths `2 * dv + 1` and `2 * dw + 1` leaves
      an even total. */
  lemma EqualTails(lv: int, av: int, lw: int, aw: int, dv: int, dw: int)
    requires lv - av == lw - aw && lv == 2 * dv + 1 && lw == 2 * dw + 1
    ensures av + aw == 2 * (av + dw - dv)
  {
  }

  lemma PrefixDistinct(s: seq<nat>, n: nat)
    requires Distinct(s) && n <= |s|
    ensures Distinct(s[..n])
  {
    assert forall k | 0 <= k < n :: s[..n][k] == s[k];
  }

  /** The links of a prefix are links of the whole sequence. */
  lemma PrefixLinks(s: seq<nat>, n: nat)
    requires n <= |s|
    ensures PathEdges(s[..n]) <= PathEdges(s)
  {
    forall e | e in PathEdges(s[..n]) ensures e in PathEdges(s) {
      var k :| 0 <= k < n - 1 && e == Link(s[..n], k);
      assert e == Link(s, k);
    }
  }

  /** Every link of a simple sequence has two ends. */
  lemma LinksOfSimple(s: seq<nat>)
    requires Distinct(s)
    ensures forall e | e in PathEdges(s) :: |e| == 2
  {
    forall e | e in PathEdges(s) ensures |e| == 2 {
      var k :| 0 <= k < |s| - 1 && e == Link(s, k);
      assert s[k] != s[k + 1];
    }
  }

  /** Two simple arcs meeting only in their last node share no link. */
  lemma ArcLinksApart(a: seq<nat>, b: seq<nat>)
    requires |a| >= 1 && |b| >= 1 && Distinct(a) && Distinct(b)
    requires forall x | x in a && x in b :: x == a[|a| - 1]
    ensures PathEdges(a) * PathEdges(b) == {}
  {
    forall k | 0 <= k < |a| - 1 ensures Link(a, k) !in PathEdges(b) {
      assert a[k] != a[|a| - 1];
      assert a[k] !in b;
      forall l | 0 <= l < |b| - 1 ensures Link(a, k) != Link(b, l) {
        assert a[k] !in Link(b, l);
      }
    }
  }

  /** The edge between the arcs' first nodes is no link of arc `a`, given that the two arcs
      meet only at their ends, the first nodes differ and the link counts have equal parity. */
  lemma LinkNotArc(a: seq<nat>, b: seq<nat>)
    requires |a| >= 1 && |b| >= 1 && Distinct(a) && Distinct(b) && a[0] != b[0]
    requires a[|a| - 1] == b[|b| - 1]
    requires forall x | x in a && x in b :: x == a[|a| - 1]
    requires (|a| + |b|) % 2 == 0
    ensures {a[0], b[0]} !in PathEdges(a)
  {
    forall k | 0 <= k < |a| - 1 ensures Link(a, k) != {a[0], b[0]} {
      if |b| > 1 {
        assert b[0] != b[|b| - 1];
        assert b[0] !in a;
        assert b[0] !in Link(a, k);
      } else {
        assert b[0] == a[|a| - 1] && |a| % 2 == 1;
        if k + 1 != |a| - 1 {
          assert a[|a| - 1] !in Link(a, k);
        } else {
          assert a[0] !in Link(a, k);
        }
      }
    }
  }
}
