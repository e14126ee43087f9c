/** `findAlternatingPath` and `liftPath` of wasm/blossom.cpp. Once the search in the contracted
    graph returns a path through the contracted node, that node is replaced by an arc of the
    blossom: the breadth-first search enumerates the simple paths inside the blossom from one
    end `v` and returns the first that reaches the other end `w` over an even number of edges. */
module Alternating {
  import opened Wrappers
  import opened ParentChains
  import opened Adjacency
  import opened Graphs
  import opened Matchings
  import opened Faults

  /** Consecutive nodes of `p` are adjacent in `d`. */
  ghost predicate Walk(d: map<nat, set<nat>>, p: seq<nat>)
  {
    forall i | 0 <= i < |p| - 1 :: Adjacent(d, p[i], p[i + 1])
  }

  /** A queue entry of the search: a simple walk in `d` starting at `v`. */
  ghost predicate Entry(d: map<nat, set<nat>>, v: nat, p: seq<nat>)
  {
    |p| >= 1 && p[0] == v && Distinct(p) && Walk(d, p)
  }

  /** What the search looks for: a simple path from `v` to `w` in `d` with an even number of
      edges, that is an odd number of nodes. */
  ghost predicate EvenArc(d: map<nat, set<nat>>, v: nat, w: nat, p: seq<nat>)
  {
    Entry(d, v, p) && p[|p| - 1] == w && |p| % 2 == 1
  }

  /** All nodes of `p` lie in `u`. */
  ghost predicate Within(p: seq<nat>, u: set<nat>)
  {
    forall i | 0 <= i < |p| :: p[i] in u
  }

  /** The edges of a walk are edges of the graph it walks in. */
  lemma WalkEdges(d: map<nat, set<nat>>, p: seq<nat>)
    requires Symmetric(d) && Walk(d, p)
    ensures PathEdges(p) <= UEdges(d)
  {
    forall e | e in PathEdges(p) ensures e in UEdges(d) {
      var i :| 0 <= i < |p| - 1 && e == Link(p, i);
      assert Adjacent(d, p[i], p[i + 1]);
    }
  }

  /** The loop `for i < s.size() - 1: g.add_edge(s[i], s[i + 1])`, used for lifted arcs,
      joined tree paths and blossom cycles: it adds the edges of the path visiting `s`. The
      bound wraps around for an empty `s`, which no caller passes. */
  method AddPathEdges(g: Graph<nat>, s: seq<nat>)
    requires g.Valid() && |s| >= 1
    modifies g
    ensures g.Valid()
    ensures UEdges(g.data) == old(UEdges(g.data)) + PathEdges(s)
    ensures g.nodeSet == old(g.nodeSet) + (if |s| >= 2 then Elements(s) else {})
  {
    ghost var e0, n0 := UEdges(g.data), g.nodeSet;
    var i := 0;
    while i < |s| - 1
      invariant i <= |s| - 1
      invariant g.Valid()
      invariant UEdges(g.data) == e0 + PathEdges(s[..i + 1])
      invariant g.nodeSet == n0 + PrefixNodes(s, i)
    {
      ghost var before := g.data;
      var _ := g.AddEdge(s[i], s[i + 1]);
      PathStep(before, g.data, e0, s, i);
      i := i + 1;
    }
    assert s[..|s|] == s;
  }

  /** The nodes the first `i` links of `s` touch. */
  ghost function PrefixNodes(s: seq<nat>, i: nat): set<nat>
    requires i < |s|
  {
    if i >= 1 then Elements(s[..i + 1]) else {}
  }

  /** One iteration of the loop of `AddPathEdges`: inserting the edge `s[i]`-`s[i + 1]` adds
      the next link and its two ends. */
  lemma PathStep(before: map<nat, set<nat>>, after: map<nat, set<nat>>, e0: set<set<nat>>, s: seq<nat>, i: nat)
    requires i + 1 < |s| && after == InsertEdge(before, s[i], s[i + 1])
    requires UEdges(before) == e0 + PathEdges(s[..i + 1])
    ensures UEdges(after) == e0 + PathEdges(s[..i + 2])
    ensures PrefixNodes(s, i + 1) == PrefixNodes(s, i) + {s[i], s[i + 1]}
  {
    var j := i + 1;
    InsertEdgeEdges(before, s[i], s[j]);
    PathEdgesSnoc(s, j);
    assert s[..j + 1] == s[..j] + [s[j]];
    assert Elements(s[..j + 1]) == Elements(s[..j]) + {s[j]};
    assert s[i] in s[..j];
  }

  /** Extending a prefix by one node adds the link to that node. */
  lemma PathEdgesSnoc(s: seq<nat>, n: nat)
    requires 1 <= n < |s|
    ensures PathEdges(s[..n + 1]) == PathEdges(s[..n]) + {Link(s, n - 1)}
  {
    var t, u := s[..n + 1], s[..n];
    forall e | e in PathEdges(t) ensures e in PathEdges(u) + {Link(s, n - 1)} {
      var i :| 0 <= i < |t| - 1 && e == Link(t, i);
      if i < n - 1 {
        assert Link(t, i) == Link(u, i);
      }
    }
    forall e | e in PathEdges(u) ensures e in PathEdges(t) {
      var i :| 0 <= i < |u| - 1 && e == Link(u, i);
      assert Link(t, i) == Link(u, i);
    }
    assert Link(t, n - 1) == Link(s, n - 1);
  }

  // ---------------------------------------------------------------------------------------
  // The breadth-first search of lines 101-125 and its termination measure
  // ---------------------------------------------------------------------------------------

  /** `q` is a prefix of `p`. */
  ghost predicate Prefix(q: seq<nat>, p: seq<nat>)
  {
    |q| <= |p| && q == p[..|q|]
  }

  /** Some entry of the queue is a prefix of `p`. */
  ghost predicate Covered(queue: seq<seq<nat>>, p: seq<nat>)
  {
    exists k | 0 <= k < |queue| :: Prefix(queue[k], p)
  }

  /** The entries the search appends for the nodes `xs`, in that order. */
  ghost function Kids(entry: seq<nat>, xs: seq<nat>): (r: seq<seq<nat>>)
    ensures |r| == |xs| && forall i | 0 <= i < |xs| :: r[i] == entry + [xs[i]]
  {
    if xs == [] then [] else Kids(entry, xs[..|xs| - 1]) + [entry + [xs[|xs| - 1]]]
  }

  /** One more node appends one more entry. */
  lemma KidsSnoc(entry: seq<nat>, xs: seq<nat>, x: nat)
    ensures Kids(entry, xs + [x]) == Kids(entry, xs) + [entry + [x]]
  {
    assert (xs + [x])[..|xs|] == xs;
  }

  ghost function Pow(b: nat, e: nat): (r: nat)
    ensures b >= 1 ==> r >= 1
  {
    if e == 0 then 1 else b * Pow(b, e - 1)
  }

  /** The weight of an entry of `len` nodes when no entry has more than `k` nodes and no node
      more than `b - 1` neighbours: replacing an entry by its extensions lowers the total. */
  ghost function Cost(len: nat, b: nat, k: nat): nat
  {
    if len <= k then Pow(b, k - len) else 0
  }

  ghost function Weight(q: seq<seq<nat>>, b: nat, k: nat): nat
  {
    if q == [] then 0 else Weight(q[..|q| - 1], b, k) + Cost(|q[|q| - 1]|, b, k)
  }

  lemma {:induction false} WeightAppend(q: seq<seq<nat>>, r: seq<seq<nat>>, b: nat, k: nat)
    ensures Weight(q + r, b, k) == Weight(q, b, k) + Weight(r, b, k)
    decreases |r|
  {
    if r != [] {
      var r' := r[..|r| - 1];
      WeightAppend(q, r', b, k);
      assert (q + r)[..|q + r| - 1] == q + r';
    } else {
      assert q + r == q;
    }
  }

  lemma {:induction false} WeightFront(q: seq<seq<nat>>, b: nat, k: nat)
    requires q != []
    ensures Weight(q, b, k) == Cost(|q[0]|, b, k) + Weight(q[1..], b, k)
  {
    var one: seq<seq<nat>> := [q[0]];
    assert q == one + q[1..];
    WeightAppend(one, q[1..], b, k);
    assert one[..0] == [];
  }

  lemma {:induction false} WeightKids(entry: seq<nat>, xs: seq<nat>, b: nat, k: nat)
    ensures Weight(Kids(entry, xs), b, k) == |xs| * Cost(|entry| + 1, b, k)
    decreases |xs|
  {
    if xs != [] {
      var xs' := xs[..|xs| - 1];
      WeightKids(entry, xs', b, k);
      var kids := Kids(entry, xs);
      assert kids[..|xs| - 1] == Kids(entry, xs');
      assert Weight(kids, b, k) == Weight(Kids(entry, xs'), b, k) + Cost(|entry| + 1, b, k);
      MulSucc(|xs'|, Cost(|entry| + 1, b, k));
    }
  }

  /** Popping an entry and appending its extensions lowers the weight of the queue. */
  lemma WeightDrop(q: seq<seq<nat>>, xs: seq<nat>, b: nat, k: nat)
    requires q != [] && |q[0]| <= k && b >= 1
    requires xs != [] ==> |q[0]| + 1 <= k && |xs| < b
    ensures Weight(q[1..] + Kids(q[0], xs), b, k) < Weight(q, b, k)
  {
    WeightFront(q, b, k);
    WeightAppend(q[1..], Kids(q[0], xs), b, k);
    WeightKids(q[0], xs, b, k);
    if xs != [] {
      var c := Cost(|q[0]| + 1, b, k);
      assert Cost(|q[0]|, b, k) == b * c;
      MulLess(|xs|, b, c);
    }
  }

  lemma MulSucc(n: nat, c: nat)
    ensures (n + 1) * c == n * c + c
  {
  }

  lemma MulLess(a: nat, b: nat, c: nat)
    requires a < b && c >= 1
    ensures a * c < b * c
  {
  }

  /** The pop of the search keeps every even arc covered by a queue entry: an entry that is a
      proper prefix of the arc does not end at `w`, so its extension along the arc is appended. */
  lemma CoverAfterPop(d: map<nat, set<nat>>, v: nat, w: nat, q: seq<seq<nat>>, xs: seq<nat>, p: seq<nat>)
    requires q != [] && |q[0]| >= 1 && Covered(q, p) && EvenArc(d, v, w, p)
    requires !(q[0][|q[0]| - 1] == w && |q[0]| % 2 == 1)
    requires q[0][|q[0]| - 1] != w ==> forall x | x in Neighbours(d, q[0][|q[0]| - 1]) && x !in q[0] :: x in xs
    ensures Covered(q[1..] + Kids(q[0], xs), p)
  {
    var k :| 0 <= k < |q| && Prefix(q[k], p);
    var r := q[1..] + Kids(q[0], xs);
    if k > 0 {
      assert r[k - 1] == q[k];
    } else {
      var e := q[0];
      assert e[|e| - 1] == p[|e| - 1];
      assert |e| < |p|;
      {
        var last := e[|e| - 1];
        assert last == p[|e| - 1];
        assert last != w by {
          assert p[|p| - 1] == w && |e| - 1 < |p| - 1;
        }
        var x := p[|e|];
        assert Adjacent(d, p[|e| - 1], p[|e|]);
        assert x !in e by {
          forall j | 0 <= j < |e| ensures e[j] != x {
            assert e[j] == p[j];
          }
        }
        assert x in xs;
        var i :| 0 <= i < |xs| && xs[i] == x;
        assert r[|q| - 1 + i] == e + [x];
        assert e + [x] == p[..|e| + 1];
      }
    }
  }

  /** The extensions that line 113-121 appends for one popped entry: `entry + [v2]` for each
      neighbour `v2` of its last node that it does not contain (the `std::find` test). */
  method Extend(queue: seq<seq<nat>>, entry: seq<nat>, neighbours: set<nat>) returns (queue': seq<seq<nat>>, ghost xs: seq<nat>)
    ensures queue' == queue + Kids(entry, xs)
    ensures forall i | 0 <= i < |xs| :: xs[i] in neighbours && xs[i] !in entry
    ensures forall x | x in neighbours && x !in entry :: x in xs
    ensures |xs| <= |neighbours|
  {
    queue', xs := queue, [];
    var rest := neighbours;
    ghost var done: set<nat> := {};
    while rest != {}
      invariant Extending(queue, entry, neighbours, rest, done, queue', xs)
      decreases rest
    {
      var v2 :| v2 in rest;
      ExtendStep(queue, entry, neighbours, rest, done, queue', xs, v2);
      if v2 !in entry {
        queue', xs := queue' + [entry + [v2]], xs + [v2];
      }
      rest, done := rest - {v2}, done + {v2};
    }
    SubsetSize(done, neighbours);
  }

  /** The state of the loop of `Extend` after the neighbours `done` were looked at. */
  ghost predicate Extending(queue: seq<seq<nat>>, entry: seq<nat>, neighbours: set<nat>, rest: set<nat>, done: set<nat>,
                            queue': seq<seq<nat>>, xs: seq<nat>)
  {
    && rest + done == neighbours && rest * done == {}
    && queue' == queue + Kids(entry, xs)
    && (forall i | 0 <= i < |xs| :: xs[i] in done && xs[i] !in entry)
    && (forall x | x in done && x !in entry :: x in xs)
    && |xs| <= |done|
  }

  /** One neighbour more: it is appended exactly when the entry does not contain it. */
  lemma ExtendStep(queue: seq<seq<nat>>, entry: seq<nat>, neighbours: set<nat>, rest: set<nat>, done: set<nat>,
                   queue': seq<seq<nat>>, xs: seq<nat>, x: nat)
    requires Extending(queue, entry, neighbours, rest, done, queue', xs) && x in rest
    ensures x !in entry ==>
      Extending(queue, entry, neighbours, rest - {x}, done + {x}, queue' + [entry + [x]], xs + [x])
    ensures x in entry ==> Extending(queue, entry, neighbours, rest - {x}, done + {x}, queue', xs)
  {
    KidsSnoc(entry, xs, x);
    assert |done + {x}| == |done| + 1;
  }

  /** The search of lines 101-125 from `v` to `w` inside `blossom`. It returns the first entry
      that reaches `w` with an even number of edges, and it comes back empty only when no such
      simple path exists. */
  method SearchArc(blossom: Graph<nat>, v: nat, w: nat) returns (found: Option<seq<nat>>)
    requires blossom.Valid()
    ensures found.Some? ==> EvenArc(blossom.data, v, w, found.value)
    ensures found.None? ==> forall p :: !EvenArc(blossom.data, v, w, p)
  {
    ghost var d := blossom.data;
    ghost var u := blossom.nodeSet + {v};
    ghost var k, b := |u|, |blossom.nodeSet| + 1;
    var queue := [[v]];
    forall p | EvenArc(d, v, w, p) ensures Covered(queue, p) {
      assert Prefix(queue[0], p);
    }
    while queue != []
      invariant Searching(d, v, w, u, queue)
      decreases Weight(queue, b, k)
    {
      ghost var q := queue;
      var entry := queue[0];
      queue := queue[1..];
      var last := entry[|entry| - 1];
      if last == w && (|entry| - 1) % 2 == 0 {
        assert Entry(d, v, q[0]);
        return Some(entry);
      }
      ghost var xs: seq<nat> := [];
      if last != w {
        var neighbours := blossom.EdgesOfNode(last);
        assert neighbours == Neighbours(d, last);
        queue, xs := Extend(queue, entry, neighbours);
      }
      assert queue == q[1..] + Kids(q[0], xs);
      PopStep(d, blossom.nodeSet, v, w, q, xs);
    }
    Exhausted(d, v, w, u);
    return None;
  }

  /** An empty queue that still covers every even arc leaves none. */
  lemma Exhausted(d: map<nat, set<nat>>, v: nat, w: nat, u: set<nat>)
    requires Searching(d, v, w, u, [])
    ensures forall p :: !EvenArc(d, v, w, p)
  {
  }

  /** The invariant of the search: every queued entry is a simple walk from `v` through `u`,
      and every wanted path extends some queued entry. */
  ghost predicate Searching(d: map<nat, set<nat>>, v: nat, w: nat, u: set<nat>, queue: seq<seq<nat>>)
  {
    && (forall i | 0 <= i < |queue| :: Entry(d, v, queue[i]) && Within(queue[i], u) && |queue[i]| <= |u|)
    && (forall p | EvenArc(d, v, w, p) :: Covered(queue, p))
  }

  /** What one turn of the search loop knows about the popped entry `q[0]` and the nodes
      `xs` whose extensions it appended. */
  ghost predicate Popped(d: map<nat, set<nat>>, nodes: set<nat>, v: nat, w: nat, q: seq<seq<nat>>, xs: seq<nat>)
  {
    && Symmetric(d) && d.Keys <= nodes
    && q != [] && Searching(d, v, w, nodes + {v}, q)
    && !(q[0][|q[0]| - 1] == w && (|q[0]| - 1) % 2 == 0)
    && (q[0][|q[0]| - 1] == w ==> xs == [])
    && (q[0][|q[0]| - 1] != w ==>
      && (forall i | 0 <= i < |xs| :: xs[i] in Neighbours(d, q[0][|q[0]| - 1]) && xs[i] !in q[0])
      && (forall x | x in Neighbours(d, q[0][|q[0]| - 1]) && x !in q[0] :: x in xs)
      && |xs| <= |Neighbours(d, q[0][|q[0]| - 1])|)
  }

  /** One turn of the search loop keeps its invariant and lowers the weight of the queue. */
  lemma PopStep(d: map<nat, set<nat>>, nodes: set<nat>, v: nat, w: nat, q: seq<seq<nat>>, xs: seq<nat>)
    requires Popped(d, nodes, v, w, q, xs)
    ensures Searching(d, v, w, nodes + {v}, q[1..] + Kids(q[0], xs))
    ensures Weight(q[1..] + Kids(q[0], xs), |nodes| + 1, |nodes + {v}|) < Weight(q, |nodes| + 1, |nodes + {v}|)
  {
    var u, entry := nodes + {v}, q[0];
    assert Entry(d, v, entry) && Within(entry, u) && |entry| <= |u|;
    if entry[|entry| - 1] != w {
      KidEntries(d, nodes, v, entry, xs);
    }
    PopKeeps(d, v, w, u, q, xs);
    PopWeight(d, nodes, v, w, q, xs);
  }

  /** The invariant after one turn: the kept entries and the new ones are walks, and the
      popped entry's cover passes to its extensions. */
  lemma PopKeeps(d: map<nat, set<nat>>, v: nat, w: nat, u: set<nat>, q: seq<seq<nat>>, xs: seq<nat>)
    requires q != [] && Searching(d, v, w, u, q)
    requires !(q[0][|q[0]| - 1] == w && (|q[0]| - 1) % 2 == 0)
    requires forall i | 0 <= i < |xs| :: Entry(d, v, q[0] + [xs[i]]) && Within(q[0] + [xs[i]], u) && |q[0] + [xs[i]]| <= |u|
    requires q[0][|q[0]| - 1] != w ==> forall x | x in Neighbours(d, q[0][|q[0]| - 1]) && x !in q[0] :: x in xs
    ensures Searching(d, v, w, u, q[1..] + Kids(q[0], xs))
  {
    var r := q[1..] + Kids(q[0], xs);
    forall i | 0 <= i < |r| ensures Entry(d, v, r[i]) && Within(r[i], u) && |r[i]| <= |u| {
      if i < |q| - 1 {
        assert r[i] == q[i + 1];
      } else {
        assert r[i] == q[0] + [xs[i - (|q| - 1)]];
      }
    }
    forall p | EvenArc(d, v, w, p) ensures Covered(r, p) {
      CoverAfterPop(d, v, w, q, xs, p);
    }
  }

  /** One turn lowers the weight: the popped entry is replaced by fewer than `|nodes| + 1`
      entries one node longer, all of them within the size bound. */
  lemma PopWeight(d: map<nat, set<nat>>, nodes: set<nat>, v: nat, w: nat, q: seq<seq<nat>>, xs: seq<nat>)
    requires Popped(d, nodes, v, w, q, xs)
    requires forall i | 0 <= i < |xs| :: |q[0] + [xs[i]]| <= |nodes + {v}|
    ensures Weight(q[1..] + Kids(q[0], xs), |nodes| + 1, |nodes + {v}|) < Weight(q, |nodes| + 1, |nodes + {v}|)
  {
    var entry := q[0];
    assert |entry| <= |nodes + {v}|;
    if xs != [] {
      assert |entry + [xs[0]]| <= |nodes + {v}|;
      SubsetSize(Neighbours(d, entry[|entry| - 1]), nodes);
    }
    WeightDrop(q, xs, |nodes| + 1, |nodes + {v}|);
  }

  /** The entries appended for neighbours of the last node that the entry does not contain are
      again simple walks through the nodes. */
  lemma KidEntries(d: map<nat, set<nat>>, nodes: set<nat>, v: nat, entry: seq<nat>, xs: seq<nat>)
    requires Symmetric(d) && d.Keys <= nodes
    requires Entry(d, v, entry) && Within(entry, nodes + {v})
    requires forall i | 0 <= i < |xs| :: xs[i] in Neighbours(d, entry[|entry| - 1]) && xs[i] !in entry
    ensures forall i | 0 <= i < |xs| ::
      Entry(d, v, entry + [xs[i]]) && Within(entry + [xs[i]], nodes + {v}) && |entry + [xs[i]]| <= |nodes + {v}|
  {
    var u, last := nodes + {v}, entry[|entry| - 1];
    forall i | 0 <= i < |xs| ensures Entry(d, v, entry + [xs[i]]) && Within(entry + [xs[i]], u) && |entry + [xs[i]]| <= |u| {
      var e := entry + [xs[i]];
      assert Adjacent(d, last, xs[i]);
      assert Walk(d, e) by {
        forall j | 0 <= j < |e| - 1 ensures Adjacent(d, e[j], e[j + 1]) {
          if j < |entry| - 1 {
            assert e[j] == entry[j] && e[j + 1] == entry[j + 1];
          }
        }
      }
      DistinctSize(e, u);
    }
  }

  /** A walk of two or more nodes stays inside the node set of the graph it walks in. */
  lemma WalkNodes(d: map<nat, set<nat>>, nodes: set<nat>, p: seq<nat>)
    requires Symmetric(d) && d.Keys <= nodes && Walk(d, p) && |p| >= 2
    ensures Elements(p) <= nodes
  {
    forall i | 0 <= i < |p| ensures p[i] in nodes {
      if i < |p| - 1 {
        assert Adjacent(d, p[i], p[i + 1]);
      } else {
        assert Adjacent(d, p[i - 1], p[i]);
      }
    }
  }

  // ---------------------------------------------------------------------------------------
  // findAlternatingPath, lines 60-127
  // ---------------------------------------------------------------------------------------

  /** The ends that lines 62-98 pick. With one stem edge, `w` is its blossom end and `v` any
      blossom node outside the matching (the last one the loop meets). With two or more, `v`
      is the blossom end of the first stem edge whose matched neighbours are at most its outer
      end, and otherwise of the second; `w` is the other of the two. */
  ghost predicate Chosen(mdata: map<nat, set<nat>>, mnodes: set<nat>, bnodes: set<nat>,
                         pathEnds: seq<(nat, nat)>, v: nat, w: nat)
  {
    if |pathEnds| == 1 then w == pathEnds[0].1 && v in bnodes && v !in mnodes
    else
      && |pathEnds| >= 2
      && if Neighbours(mdata, pathEnds[0].1) <= {pathEnds[0].0}
         then v == pathEnds[0].1 && w == pathEnds[1].1
         else v == pathEnds[1].1 && w == pathEnds[0].1
  }

  /** `findAlternatingPath(matching, blossom, pathEnds)`. An empty `pathEnds` reads
      `pathEnds[0]` out of range; line 100 fails when the single-stem case finds no unmatched
      blossom node; line 125 fails when the search finds no even arc between the chosen ends. */
  method FindAlternatingPath(matching: Graph<nat>, blossom: Graph<nat>, pathEnds: seq<(nat, nat)>)
    returns (r: Result<seq<nat>, Fault>)
    requires matching.Valid() && blossom.Valid()
    ensures |pathEnds| == 0 ==> r == Err(Undefined(79))
    ensures |pathEnds| == 1 ==> (r == Err(AssertFails(100)) <==> blossom.nodeSet <= matching.nodeSet)
    ensures r.Err? ==> r.error in {Undefined(79), AssertFails(100), AssertFails(125)}
    ensures r.Ok? ==>
      && |r.value| >= 1
      && Chosen(matching.data, matching.nodeSet, blossom.nodeSet, pathEnds, r.value[0], r.value[|r.value| - 1])
      && EvenArc(blossom.data, r.value[0], r.value[|r.value| - 1], r.value)
    ensures r == Err(AssertFails(125)) ==> exists v, w ::
      Chosen(matching.data, matching.nodeSet, blossom.nodeSet, pathEnds, v, w) && forall p :: !EvenArc(blossom.data, v, w, p)
  {
    if |pathEnds| == 0 {
      return Err(Undefined(79));
    }
    var v: nat, w: nat;
    if |pathEnds| == 1 {
      w := pathEnds[0].1;
      var unmatched := LastUnmatched(blossom, matching);
      if unmatched.None? {
        return Err(AssertFails(100));
      }
      v := unmatched.value;
    } else {
      var firstIsV := OnlyMate(matching, pathEnds[0].1, pathEnds[0].0);
      if firstIsV {
        v, w := pathEnds[0].1, pathEnds[1].1;
      } else {
        v, w := pathEnds[1].1, pathEnds[0].1;
      }
    }
    assert Chosen(matching.data, matching.nodeSet, blossom.nodeSet, pathEnds, v, w);
    var arc := SearchArc(blossom, v, w);
    if arc.None? {
      return Err(AssertFails(125));
    }
    return Ok(arc.value);
  }

  /** The loop of lines 67-74: some blossom node outside the matching, if there is one. */
  method LastUnmatched(blossom: Graph<nat>, matching: Graph<nat>) returns (v: Option<nat>)
    ensures v.None? <==> blossom.nodeSet <= matching.nodeSet
    ensures v.Some? ==> v.value in blossom.nodeSet && v.value !in matching.nodeSet
  {
    var nodes := blossom.Nodes();
    ghost var done: set<nat> := {};
    v := None;
    while nodes != {}
      invariant nodes + done == blossom.nodeSet && nodes * done == {}
      invariant v.None? <==> done <= matching.nodeSet
      invariant v.Some? ==> v.value in done && v.value !in matching.nodeSet
      decreases nodes
    {
      var i :| i in nodes;
      var matched := matching.HasNode(i);
      if !matched {
        v := Some(i);
      }
      nodes, done := nodes - {i}, done + {i};
    }
  }

  /** The loop of lines 78-86: `firstIsV` stays true exactly when every matched neighbour of
      `u` is `x`. */
  method OnlyMate(matching: Graph<nat>, u: nat, x: nat) returns (firstIsV: bool)
    ensures firstIsV == (Neighbours(matching.data, u) <= {x})
  {
    var neighbours := matching.EdgesOfNode(u);
    var rest := neighbours;
    firstIsV := true;
    while rest != {}
      invariant rest <= neighbours && neighbours - rest <= {x}
      decreases rest
    {
      var n :| n in rest;
      if n != x {
        firstIsV := false;
        break;
      }
      rest := rest - {n};
    }
  }

  // ---------------------------------------------------------------------------------------
  // liftPath, lines 129-154
  // ---------------------------------------------------------------------------------------

  /** The unordered edges of recorded stems. */
  ghost function StemEdges(stems: seq<(nat, nat)>): set<set<nat>>
  {
    set k | 0 <= k < |stems| :: {stems[k].0, stems[k].1}
  }

  /** The outer ends of recorded stems. */
  ghost function Firsts(stems: seq<(nat, nat)>): set<nat>
  {
    set k | 0 <= k < |stems| :: stems[k].0
  }

  lemma StemsSnoc(stems: seq<(nat, nat)>, a: nat, b: nat)
    ensures StemEdges(stems + [(a, b)]) == StemEdges(stems) + {{a, b}}
    ensures Firsts(stems + [(a, b)]) == Firsts(stems) + {a}
  {
    var s := stems + [(a, b)];
    assert s[|stems|] == (a, b);
    assert forall k | 0 <= k < |stems| :: s[k] == stems[k];
    forall e | e in StemEdges(s) ensures e in StemEdges(stems) + {{a, b}} {
      var k :| 0 <= k < |s| && e == {s[k].0, s[k].1};
    }
    forall e | e in StemEdges(stems) + {{a, b}} ensures e in StemEdges(s) {
      if e != {a, b} {
        var k :| 0 <= k < |stems| && e == {stems[k].0, stems[k].1};
        assert e == {s[k].0, s[k].1};
      }
    }
    forall x | x in Firsts(s) ensures x in Firsts(stems) + {a} {
      var k :| 0 <= k < |s| && x == s[k].0;
    }
    forall x | x in Firsts(stems) + {a} ensures x in Firsts(s) {
      if x != a {
        var k :| 0 <= k < |stems| && x == stems[k].0;
        assert x == s[k].0;
      }
    }
  }

  /** None of `n`'s neighbours in `gdata` is a blossom node. */
  ghost predicate OffBlossom(gdata: map<nat, set<nat>>, bnodes: set<nat>, n: nat)
  {
    forall y | y in Neighbours(gdata, n) :: y !in bnodes
  }

  /** What lines 133-145 record for the neighbours `ends` of the contracted node: every stem
      joins a distinct one of them to a blossom node adjacent to it in `gdata`, and each of
      them without a stem has no blossom node among its `gdata` neighbours. */
  ghost predicate Stems(gdata: map<nat, set<nat>>, bnodes: set<nat>, ends: set<nat>, stems: seq<(nat, nat)>)
  {
    && (forall k | 0 <= k < |stems| ::
         && stems[k].0 in ends
         && stems[k].1 in bnodes
         && Adjacent(gdata, stems[k].0, stems[k].1))
    && (forall k, l | 0 <= k < l < |stems| :: stems[k].0 != stems[l].0)
    && (forall n | n in ends :: n in Firsts(stems) || OffBlossom(gdata, bnodes, n))
  }

  /** One pass of the loop of lines 133-145 keeps `Stems` for one more neighbour `n`. */
  lemma StemsStep(gdata: map<nat, set<nat>>, bnodes: set<nat>, ends: set<nat>, stems: seq<(nat, nat)>,
                  n: nat, n2: Option<nat>)
    requires Stems(gdata, bnodes, ends, stems) && n !in ends
    requires n2.Some? ==> Adjacent(gdata, n, n2.value) && n2.value in bnodes
    requires n2.None? ==> OffBlossom(gdata, bnodes, n)
    ensures Stems(gdata, bnodes, ends + {n}, if n2.Some? then stems + [(n, n2.value)] else stems)
  {
    if n2.Some? {
      StemsSnoc(stems, n, n2.value);
      var s := stems + [(n, n2.value)];
      assert forall k | 0 <= k < |stems| :: s[k] == stems[k];
      assert s[|stems|] == (n, n2.value);
    }
  }

  /** The path `pdata` over `pnodes` is `d0` over `n0` with the edges of `stems` added, each
      of them a `gdata` edge. */
  ghost predicate Grown(gdata: map<nat, set<nat>>, d0: map<nat, set<nat>>, n0: set<nat>,
                        pdata: map<nat, set<nat>>, pnodes: set<nat>, stems: seq<(nat, nat)>)
  {
    && UEdges(pdata) == UEdges(d0) + StemEdges(stems)
    && pnodes == n0 + Members(StemEdges(stems))
    && forall u, x | Adjacent(pdata, u, x) :: Adjacent(d0, u, x) || Adjacent(gdata, u, x)
  }

  /** Adding the stem `(a, b)` keeps `Grown`. */
  lemma GrownStep(gdata: map<nat, set<nat>>, d0: map<nat, set<nat>>, n0: set<nat>,
                  pdata: map<nat, set<nat>>, pnodes: set<nat>, stems: seq<(nat, nat)>, a: nat, b: nat)
    requires Grown(gdata, d0, n0, pdata, pnodes, stems)
    requires Adjacent(gdata, a, b) && Adjacent(gdata, b, a)
    ensures Grown(gdata, d0, n0, InsertEdge(pdata, a, b), pnodes + {a, b}, stems + [(a, b)])
  {
    StemEdgesStep(UEdges(d0), n0, pdata, pnodes, stems, a, b);
    InsertEdgeAdjacent(pdata, a, b);
  }

  lemma StemEdgesStep(e0: set<set<nat>>, n0: set<nat>, pdata: map<nat, set<nat>>, pnodes: set<nat>,
                      stems: seq<(nat, nat)>, a: nat, b: nat)
    requires UEdges(pdata) == e0 + StemEdges(stems) && pnodes == n0 + Members(StemEdges(stems))
    ensures UEdges(InsertEdge(pdata, a, b)) == e0 + StemEdges(stems + [(a, b)])
    ensures pnodes + {a, b} == n0 + Members(StemEdges(stems + [(a, b)]))
  {
    InsertEdgeEdges(pdata, a, b);
    StemsSnoc(stems, a, b);
    MembersAdd(StemEdges(stems), {a, b});
  }

  /** `liftPath(graph, matching, blossom, path, contractNode)`. When the path holds the
      contracted node, each of its neighbours there is joined to one blossom node it is adjacent
      to in `graph` (the ghost `stems`), the contracted node is removed with every edge touching
      it, and an even arc of the blossom between the ends chosen from the stems is spliced in.
      Without the contracted node the path is left as it is. */
  method LiftPath(graph: Graph<nat>, matching: Graph<nat>, blossom: Graph<nat>, path: Graph<nat>, contractNode: nat)
    returns (failure: Option<Fault>, ghost stems: seq<(nat, nat)>, ghost arc: seq<nat>)
    requires graph.Valid() && matching.Valid() && blossom.Valid() && path.Valid()
    requires path != graph && path != matching && path != blossom
    modifies path
    ensures path.Valid()
    ensures contractNode !in old(path.nodeSet) ==>
      failure == None && path.data == old(path.data) && path.nodeSet == old(path.nodeSet)
    ensures failure == None && contractNode !in blossom.nodeSet ==> contractNode !in path.nodeSet
    ensures failure == None ==> forall u, x | Adjacent(path.data, u, x) ::
      (Adjacent(old(path.data), u, x) && u != contractNode && x != contractNode)
      || Adjacent(graph.data, u, x) || Adjacent(blossom.data, u, x)
    ensures failure == None && contractNode in old(path.nodeSet) ==>
      && Stems(graph.data, blossom.nodeSet, old(Neighbours(path.data, contractNode)), stems)
      && |arc| >= 1
      && EvenArc(blossom.data, arc[0], arc[|arc| - 1], arc)
      && UEdges(path.data) == Untouched(old(UEdges(path.data)) + StemEdges(stems), contractNode) + PathEdges(arc)
      && path.nodeSet ==
           (old(path.nodeSet) + Members(StemEdges(stems)) - {contractNode})
           + (if |arc| >= 2 then Elements(arc) else {})
    ensures failure.Some? ==> failure.value in {Undefined(79), AssertFails(100), AssertFails(125)}
  {
    ghost var d0, n0 := path.data, path.nodeSet;
    stems, arc := [], [];
    var has := path.HasNode(contractNode);
    if !has {
      forall u, x | Adjacent(path.data, u, x) ensures u != contractNode && x != contractNode {
        assert u in path.data && x in path.data;
      }
      return None, stems, arc;
    }
    var pathEnds := AttachEnds(graph, blossom, path, contractNode);
    stems := pathEnds;
    ghost var d1, n1 := path.data, path.nodeSet;
    var _ := path.RemoveNode(contractNode);
    var lifted := FindAlternatingPath(matching, blossom, pathEnds);
    if lifted.Err? {
      return Some(lifted.error), stems, arc;
    }
    arc := lifted.value;
    ghost var d2, n2 := path.data, path.nodeSet;
    AddPathEdges(path, lifted.value);
    Lifted(graph.data, blossom.data, blossom.nodeSet, d0, n0, stems, d1, n1, d2, n2, path.data, path.nodeSet,
           contractNode, arc);
    failure := None;
  }

  /** What lines 133-152 leave of the path `d0` over `n0`: `d1` over `n1` is it with the stems
      added, `d2` over `n2` is that without the contracted node `c`, and `d3` over `n3` is that
      with an arc of the blossom spliced in. The stems go in, `c` goes with every edge touching
      it, and the arc's edges and nodes come in; every adjacency left is one of the old path
      away from `c`, of `gdata` or of the blossom. */
  lemma Lifted(gdata: map<nat, set<nat>>, bdata: map<nat, set<nat>>, bnodes: set<nat>,
               d0: map<nat, set<nat>>, n0: set<nat>, stems: seq<(nat, nat)>,
               d1: map<nat, set<nat>>, n1: set<nat>, d2: map<nat, set<nat>>, n2: set<nat>,
               d3: map<nat, set<nat>>, n3: set<nat>, c: nat, arc: seq<nat>)
    requires Symmetric(bdata) && bdata.Keys <= bnodes && Walk(bdata, arc)
    requires Grown(gdata, d0, n0, d1, n1, stems) && Symmetric(d1)
    requires d2 == DropNode(d1, c) && n2 == n1 - {c}
    requires Symmetric(d3)
    requires UEdges(d3) == UEdges(d2) + PathEdges(arc) && n3 == n2 + (if |arc| >= 2 then Elements(arc) else {})
    ensures UEdges(d3) == Untouched(UEdges(d0) + StemEdges(stems), c) + PathEdges(arc)
    ensures n3 == (n0 + Members(StemEdges(stems)) - {c}) + (if |arc| >= 2 then Elements(arc) else {})
    ensures c !in bnodes ==> c !in n3
    ensures forall u, x | Adjacent(d3, u, x) ::
      (Adjacent(d0, u, x) && u != c && x != c) || Adjacent(gdata, u, x) || Adjacent(bdata, u, x)
  {
    DropNodeEdges(d1, c);
    DropNodeAdjacent(d1, c);
    WalkEdges(bdata, arc);
    if |arc| >= 2 {
      WalkNodes(bdata, bnodes, arc);
    }
    forall u, x | Adjacent(d3, u, x)
      ensures (Adjacent(d0, u, x) && u != c && x != c) || Adjacent(gdata, u, x) || Adjacent(bdata, u, x)
    {
      AdjacentIffEdge(d3, u, x);
      AdjacentIffEdge(d2, u, x);
      AdjacentIffEdge(bdata, u, x);
    }
  }

  /** The loop of lines 133-145: each neighbour `n` of the contracted node on the path is joined
      to the first blossom node among its `graph` neighbours, recorded as the stem `(n, n2)`;
      those edges, and their end nodes, are all the loop adds to the path. */
  method AttachEnds(graph: Graph<nat>, blossom: Graph<nat>, path: Graph<nat>, contractNode: nat)
    returns (pathEnds: seq<(nat, nat)>)
    requires graph.Valid() && blossom.Valid() && path.Valid() && path != graph && path != blossom
    modifies path
    ensures path.Valid()
    ensures Stems(graph.data, blossom.nodeSet, old(Neighbours(path.data, contractNode)), pathEnds)
    ensures Grown(graph.data, old(path.data), old(path.nodeSet), path.data, path.nodeSet, pathEnds)
  {
    ghost var d0, n0 := path.data, path.nodeSet;
    var neighbours := path.EdgesOfNode(contractNode);
    var rest := neighbours;
    pathEnds := [];
    while rest != {}
      invariant rest <= neighbours && neighbours == Neighbours(d0, contractNode)
      invariant path.Valid()
      invariant Grown(graph.data, d0, n0, path.data, path.nodeSet, pathEnds)
      invariant Stems(graph.data, blossom.nodeSet, neighbours - rest, pathEnds)
      decreases rest
    {
      var n :| n in rest;
      var n2 := FirstInBlossom(graph, blossom, n);
      StemsStep(graph.data, blossom.nodeSet, neighbours - rest, pathEnds, n, n2);
      assert neighbours - (rest - {n}) == neighbours - rest + {n};
      if n2.Some? {
        GrownStep(graph.data, d0, n0, path.data, path.nodeSet, pathEnds, n, n2.value);
        var _ := path.AddEdge(n, n2.value);
        pathEnds := pathEnds + [(n, n2.value)];
      }
      rest := rest - {n};
    }
  }

  /** The inner loop of lines 136-144: a `graph` neighbour of `n` in the blossom, if any. */
  method FirstInBlossom(graph: Graph<nat>, blossom: Graph<nat>, n: nat) returns (n2: Option<nat>)
    requires graph.Valid()
    ensures n2.Some? ==> Adjacent(graph.data, n, n2.value) && Adjacent(graph.data, n2.value, n)
                         && n2.value in blossom.nodeSet
    ensures n2.None? ==> forall x | x in Neighbours(graph.data, n) :: x !in blossom.nodeSet
  {
    var neighbours := graph.EdgesOfNode(n);
    var rest := neighbours;
    while rest != {}
      invariant rest <= neighbours && neighbours == Neighbours(graph.data, n)
      invariant forall x | x in neighbours - rest :: x !in blossom.nodeSet
      decreases rest
    {
      var x :| x in rest;
      var inBlossom := blossom.HasNode(x);
      if inBlossom {
        return Some(x);
      }
      rest := rest - {x};
    }
    return None;
  }
}
