/** `augmentingPath` of wasm/blossom.cpp (lines 156-279): the search for an augmenting path.
    Every unmatched endpoint of an edge is planted as the root of an alternating tree; even
    tree nodes are then taken from a queue and their unused edges examined. An edge to a new
    node grows the tree by that node and its mate, an edge between even nodes of two trees
    closes an augmenting path, and an edge between even nodes of one tree closes a blossom,
    which is contracted before the search recurses and then lifted back out of the result. */
module Search {
  import opened Wrappers
  import opened ParentChains
  import opened Adjacency
  import opened Graphs
  import opened Forests
  import opened Matchings
  import opened Faults
  import opened BlossomCycle
  import opened Contraction
  import opened Alternating

  // ---------------------------------------------------------------------------------------
  // The search state
  // ---------------------------------------------------------------------------------------

  /** The alternating forest: acyclic with inverse lookups, and every node with a good link
      to its parent. */
  ghost predicate Grown(graph: Graph<nat>, matching: Graph<nat>, trees: Forest<nat>)
    reads graph, matching, trees
  {
    && trees.Acyclic() && trees.Bijective()
    && forall x | x in trees.lookup :: GoodLink(graph.nodeSet, graph.data, matching.nodeSet, x, trees.ParentNode(x))
  }

  /** A forest node is a graph node; its link to a parent is a graph edge, and a root is an
      unmatched node. */
  ghost predicate GoodLink(gnodes: set<nat>, gdata: map<nat, set<nat>>, mnodes: set<nat>, x: nat, p: nat)
  {
    && x in gnodes
    && (p != x ==> Adjacent(gdata, x, p))
    && (p == x ==> x !in mnodes)
  }

  /** Everything the search loop keeps: both inputs well formed with the matching inside the
      graph, the forest grown as above, the unused edges a part of the graph, and every node
      with an edge either matched or planted in the forest. */
  ghost predicate State(graph: Graph<nat>, matching: Graph<nat>, trees: Forest<nat>, unmarked: Graph<nat>)
    reads graph, matching, trees, unmarked
  {
    && graph.Valid() && matching.Valid() && SubAdj(matching.data, graph.data)
    && Grown(graph, matching, trees)
    && unmarked.Valid() && SubAdj(unmarked.data, graph.data)
    && (forall u | u in Touched(graph.data) :: u in matching.nodeSet || u in trees.lookup)
  }

  /** What a search result promises: a found path is a well-formed sub-graph of the graph, an
      error is one of the program's failed assertions, undefined steps or the cycle deviation,
      and the two assertions of the search itself fail only on inputs that explain them. */
  ghost predicate Outcome(graph: Graph<nat>, matching: Graph<nat>, r: Result<Graph<nat>, Fault>)
    reads graph, matching, if r.Ok? then {r.value} else {}
  {
    && (r.Ok? ==> r.value.Valid() && SubAdj(r.value.data, graph.data))
    && (r.Err? ==> r.error in {AssertFails(194), AssertFails(259), ForestCycle,
                               Undefined(79), AssertFails(100), AssertFails(125)})
    && (r == Err(AssertFails(194)) ==> exists u :: u in matching.nodeSet && Neighbours(matching.data, u) == {})
    && (r == Err(AssertFails(259)) ==> exists u :: Adjacent(graph.data, u, u))
  }

  // ---------------------------------------------------------------------------------------
  // augmentingPath, lines 156-279
  // ---------------------------------------------------------------------------------------

  /** `augmentingPath(graph, matching)`. The empty graph means that no augmenting path was
      found. The matching must lie inside the graph, as it does for every matching the
      driver builds. */
  method AugmentingPath(graph: Graph<nat>, matching: Graph<nat>) returns (r: Result<Graph<nat>, Fault>)
    requires graph.Valid() && matching.Valid() && SubAdj(matching.data, graph.data)
    ensures r.Ok? ==> fresh(r.value)
    ensures Outcome(graph, matching, r)
    decreases |graph.nodeSet|, 6
  {
    var trees, unmarked, queue := Seed(graph, matching);
    while queue != []
      invariant fresh(trees) && fresh(unmarked)
      invariant State(graph, matching, trees, unmarked)
      decreases graph.nodeSet - trees.lookup.Keys, |queue|
    {
      var v := queue[0];
      queue := queue[1..];
      var pushed, stop := Visit(graph, matching, trees, unmarked, v);
      if stop.Some? {
        return stop.value;
      }
      queue := queue + pushed;
    }
    var empty := new Graph();
    r := Ok(empty);
  }

  /** The first loop, lines 161-179: the unmatched endpoints of every edge become trees of
      their own and are queued, and every edge outside the matching is marked unused. */
  method Seed(graph: Graph<nat>, matching: Graph<nat>) returns (trees: Forest<nat>, unmarked: Graph<nat>, queue: seq<nat>)
    requires graph.Valid() && matching.Valid() && SubAdj(matching.data, graph.data)
    ensures fresh(trees) && fresh(unmarked)
    ensures State(graph, matching, trees, unmarked)
    ensures forall x :: x in trees.lookup <==> x in Touched(graph.data) && x !in matching.nodeSet
    ensures forall x | x in trees.lookup :: trees.ParentNode(x) == x
    ensures forall a: nat, b: nat :: Adjacent(unmarked.data, a, b) <==> Adjacent(graph.data, a, b) && !Adjacent(matching.data, a, b)
    ensures forall x :: x in queue <==> x in trees.lookup
  {
    var es := graph.Edges();
    ghost var ends;
    trees, unmarked, queue, ends := SeedAll(matching, es);
    Seeded(graph, matching, trees, unmarked, queue, es, ends);
  }

  /** The loop itself, over the edge set `es`. */
  method SeedAll(matching: Graph<nat>, es: set<Edge<nat>>)
    returns (trees: Forest<nat>, unmarked: Graph<nat>, queue: seq<nat>, ghost ends: set<nat>)
    requires matching.Valid()
    ensures fresh(trees) && fresh(unmarked)
    ensures Seeding(matching, trees, unmarked, queue, es, ends)
  {
    trees := new Forest();
    unmarked := new Graph();
    queue := [];
    ghost var done: set<Edge<nat>> := {};
    ends := {};
    var rest := es;
    while rest != {}
      invariant rest + done == es && rest * done == {}
      invariant fresh(trees) && fresh(unmarked)
      invariant Seeding(matching, trees, unmarked, queue, done, ends)
      decreases rest
    {
      var e :| e in rest;
      queue := SeedEdge(matching, trees, unmarked, queue, e, done, ends);
      rest, done, ends := rest - {e}, done + {e}, ends + {e.v1} + {e.v2};
    }
  }

  /** What the first loop keeps after the edges `done`, whose endpoints are `ends`: the
      unmatched ones are single-node trees, all of them queued, and the unused edges are
      those of `done` outside the matching. */
  ghost predicate Seeding(matching: Graph<nat>, trees: Forest<nat>, unmarked: Graph<nat>, queue: seq<nat>,
                          done: set<Edge<nat>>, ends: set<nat>)
    reads matching, trees, unmarked
  {
    && trees.Acyclic() && trees.Bijective() && unmarked.Valid()
    && ends == Members(EndsOf(done))
    && (forall x :: x in trees.lookup <==> x in ends && x !in matching.nodeSet)
    && (forall x | x in trees.lookup :: trees.ParentNode(x) == x)
    && UnusedSoFar(unmarked.data, matching.data, done)
    && (forall x :: x in queue <==> x in trees.lookup)
  }

  /** One round of the first loop, for the edge `e`. */
  method SeedEdge(matching: Graph<nat>, trees: Forest<nat>, unmarked: Graph<nat>, queue0: seq<nat>, e: Edge<nat>,
                  ghost done: set<Edge<nat>>, ghost ends: set<nat>) returns (queue: seq<nat>)
    requires matching.Valid() && unmarked != matching
    requires Seeding(matching, trees, unmarked, queue0, done, ends)
    modifies trees, unmarked
    ensures Seeding(matching, trees, unmarked, queue, done + {e}, ends + {e.v1} + {e.v2})
  {
    queue := Plant(matching, trees, queue0, e.v1, ends);
    queue := Plant(matching, trees, queue, e.v2, ends + {e.v1});
    MarkUnused(matching, unmarked, e, done);
    EndsStep(done, e);
  }

  /** Lines 165-168 (and 169-172): an unmatched endpoint becomes a tree of its own and is
      queued. */
  method Plant(matching: Graph<nat>, trees: Forest<nat>, queue0: seq<nat>, x: nat, ghost ends: set<nat>)
    returns (queue: seq<nat>)
    requires trees.Acyclic() && trees.Bijective()
    requires forall y :: y in trees.lookup <==> y in ends && y !in matching.nodeSet
    requires forall y | y in trees.lookup :: trees.ParentNode(y) == y
    requires forall y :: y in queue0 <==> y in trees.lookup
    modifies trees
    ensures trees.Acyclic() && trees.Bijective()
    ensures forall y :: y in trees.lookup <==> y in ends + {x} && y !in matching.nodeSet
    ensures forall y | y in trees.lookup :: trees.ParentNode(y) == y
    ensures forall y :: y in queue <==> y in trees.lookup
  {
    queue := queue0;
    var has := matching.HasNode(x);
    if !has {
      trees.AddNode(x);
      queue := queue + [x];
    }
  }

  /** The unused edges are exactly the edges of `done` outside the matching, both ways. */
  ghost predicate UnusedSoFar(unmarked: map<nat, set<nat>>, matching: map<nat, set<nat>>, done: set<Edge<nat>>)
  {
    forall a: nat, b: nat :: Adjacent(unmarked, a, b) <==>
      (Edge(a, b) in done || Edge(b, a) in done) && !Adjacent(matching, a, b)
  }

  /** Lines 173-176: an edge outside the matching is marked unused, in both directions. */
  method MarkUnused(matching: Graph<nat>, unmarked: Graph<nat>, e: Edge<nat>, ghost done: set<Edge<nat>>)
    requires matching.Valid() && unmarked.Valid() && unmarked != matching
    requires UnusedSoFar(unmarked.data, matching.data, done)
    modifies unmarked
    ensures unmarked.Valid()
    ensures UnusedSoFar(unmarked.data, matching.data, done + {e})
  {
    var matched := matching.HasEdge(e.v1, e.v2);
    if !matched {
      ghost var before := unmarked.data;
      var _ := unmarked.AddEdge(e.v1, e.v2);
      InsertEdgeAdjacent(before, e.v1, e.v2);
    }
  }

  /** The endpoints of one more edge. */
  lemma EndsStep(done: set<Edge<nat>>, e: Edge<nat>)
    ensures Members(EndsOf(done + {e})) == Members(EndsOf(done)) + {e.v1} + {e.v2}
  {
    assert EndsOf(done + {e}) == EndsOf(done) + {Ends(e)};
    MembersAdd(EndsOf(done), Ends(e));
  }

  /** After the first loop, over all the graph's edges, the search state holds: the unused
      edges are the graph's edges outside the matching, and the trees are the unmatched nodes
      that have an edge. */
  lemma Seeded(graph: Graph<nat>, matching: Graph<nat>, trees: Forest<nat>, unmarked: Graph<nat>, queue: seq<nat>,
               es: set<Edge<nat>>, ends: set<nat>)
    requires graph.Valid() && matching.Valid() && SubAdj(matching.data, graph.data)
    requires EndsOf(es) == UEdges(graph.data)
    requires Seeding(matching, trees, unmarked, queue, es, ends)
    ensures State(graph, matching, trees, unmarked)
    ensures forall x :: x in trees.lookup <==> x in Touched(graph.data) && x !in matching.nodeSet
    ensures forall x | x in trees.lookup :: trees.ParentNode(x) == x
    ensures forall a: nat, b: nat :: Adjacent(unmarked.data, a, b) <==> Adjacent(graph.data, a, b) && !Adjacent(matching.data, a, b)
    ensures forall x :: x in queue <==> x in trees.lookup
  {
    UnusedAll(graph.data, matching.data, unmarked.data, es);
    EndsAll(graph.data, es, ends);
  }

  /** With every edge of the graph done, the unused edges are the graph's edges outside the
      matching. */
  lemma UnusedAll(g: map<nat, set<nat>>, m: map<nat, set<nat>>, u: map<nat, set<nat>>, es: set<Edge<nat>>)
    requires Symmetric(g) && EndsOf(es) == UEdges(g) && UnusedSoFar(u, m, es)
    ensures forall a: nat, b: nat :: Adjacent(u, a, b) <==> Adjacent(g, a, b) && !Adjacent(m, a, b)
  {
    EdgesOrientation(g, es);
  }

  /** With every edge of the graph done, the endpoints seen are the nodes with an edge. */
  lemma EndsAll(g: map<nat, set<nat>>, es: set<Edge<nat>>, ends: set<nat>)
    requires Symmetric(g) && EndsOf(es) == UEdges(g) && ends == Members(EndsOf(es))
    ensures ends == Touched(g)
  {
    TouchedMembers(g);
  }

  /** One round of the main loop, lines 183-277, for the queued node `v`: only a forest
      node at an even distance from its root is grown from. */
  method Visit(graph: Graph<nat>, matching: Graph<nat>, trees: Forest<nat>, unmarked: Graph<nat>, v: nat)
    returns (pushed: seq<nat>, stop: Option<Result<Graph<nat>, Fault>>)
    requires State(graph, matching, trees, unmarked) && unmarked != graph && unmarked != matching
    modifies trees, unmarked
    decreases |graph.nodeSet|, 5
    ensures stop.None? ==> State(graph, matching, trees, unmarked)
    ensures stop.None? ==> graph.nodeSet - trees.lookup.Keys <= old(graph.nodeSet - trees.lookup.Keys)
    ensures stop.None? && pushed != [] ==>
      graph.nodeSet - trees.lookup.Keys < old(graph.nodeSet - trees.lookup.Keys)
    ensures stop.Some? ==> (stop.value.Ok? ==> fresh(stop.value.value)) && Outcome(graph, matching, stop.value)
  {
    pushed, stop := [], None;
    var known := trees.Has(v);
    if known {
      var d := trees.Distance(v);
      if d.value % 2 == 0 {
        pushed, stop := Grow(graph, matching, trees, unmarked, v, d.value / 2);
      }
    }
  }

  /** The inner loop, lines 186-273, over a copy of the unused neighbours of the even node
      `v`. Each edge is marked used; the loop stops with a result when it closes a path or a
      blossom. Otherwise the forest only grows, and each queued node is one more forest
      node. */
  method Grow(graph: Graph<nat>, matching: Graph<nat>, trees: Forest<nat>, unmarked: Graph<nat>, v: nat, ghost hv: nat)
    returns (pushed: seq<nat>, stop: Option<Result<Graph<nat>, Fault>>)
    requires State(graph, matching, trees, unmarked) && unmarked != graph && unmarked != matching
    requires v in trees.lookup && trees.Depth(v) == 2 * hv
    modifies trees, unmarked
    decreases |graph.nodeSet|, 4
    ensures stop.None? ==> State(graph, matching, trees, unmarked)
    ensures old(trees.lookup.Keys) <= trees.lookup.Keys
    ensures stop.None? && pushed != [] ==>
      graph.nodeSet - trees.lookup.Keys < old(graph.nodeSet - trees.lookup.Keys)
    ensures stop.Some? ==> (stop.value.Ok? ==> fresh(stop.value.value)) && Outcome(graph, matching, stop.value)
  {
    ghost var keys0 := trees.lookup.Keys;
    var ws := unmarked.EdgesOfNode(v);
    pushed, stop := [], None;
    while ws != {}
      invariant stop.None? && State(graph, matching, trees, unmarked)
      invariant forall x | x in ws :: Adjacent(graph.data, v, x)
      invariant v in trees.lookup && trees.Depth(v) == 2 * hv
      invariant keys0 <= trees.lookup.Keys
      invariant pushed != [] ==> graph.nodeSet - trees.lookup.Keys < graph.nodeSet - keys0
      decreases ws
    {
      var w :| w in ws;
      ws := ws - {w};
      var mate;
      mate, stop := GrowEdge(graph, matching, trees, unmarked, v, w, hv);
      if stop.Some? {
        return;
      }
      if mate.Some? {
        pushed := pushed + [mate.value];
        assert w in (graph.nodeSet - keys0) - (graph.nodeSet - trees.lookup.Keys);
      }
    }
  }

  /** One round of the inner loop, for the unused edge from `v` to `w`: the edge is marked
      used, then `w` either joins the forest with its mate, which is to be queued, or closes
      a path or a blossom. */
  method GrowEdge(graph: Graph<nat>, matching: Graph<nat>, trees: Forest<nat>, unmarked: Graph<nat>,
                  v: nat, w: nat, ghost hv: nat)
    returns (mate: Option<nat>, stop: Option<Result<Graph<nat>, Fault>>)
    requires State(graph, matching, trees, unmarked) && unmarked != graph && unmarked != matching
    requires v in trees.lookup && trees.Depth(v) == 2 * hv && Adjacent(graph.data, v, w)
    modifies trees, unmarked
    decreases |graph.nodeSet|, 3
    ensures stop.None? ==> State(graph, matching, trees, unmarked) && v in trees.lookup && trees.Depth(v) == 2 * hv
    ensures old(trees.lookup.Keys) <= trees.lookup.Keys
    ensures stop.None? && mate.Some? ==> w in graph.nodeSet && w !in old(trees.lookup) && w in trees.lookup
    ensures stop.Some? ==> (stop.value.Ok? ==> fresh(stop.value.value)) && Outcome(graph, matching, stop.value)
  {
    ghost var lookup0 := trees.lookup;
    MarkUsed(graph, matching, trees, unmarked, v, w);
    assert trees.lookup == lookup0;
    var known := trees.Has(w);
    mate := None;
    if !known {
      var m;
      m, stop := Extend(graph, matching, trees, unmarked, v, w, hv);
      if stop.None? {
        mate := Some(m);
      }
    } else {
      stop := Close(graph, matching, trees, v, w, hv);
    }
  }

  /** `unmarkedEdges.remove_edge(v, w)` (line 189): the unused edges stay graph edges. */
  method MarkUsed(graph: Graph<nat>, matching: Graph<nat>, trees: Forest<nat>, unmarked: Graph<nat>, v: nat, w: nat)
    requires State(graph, matching, trees, unmarked) && unmarked != graph && unmarked != matching
    modifies unmarked
    ensures State(graph, matching, trees, unmarked)
    ensures !Adjacent(unmarked.data, v, w)
    ensures forall a, b :: Adjacent(unmarked.data, a, b) ==> Adjacent(old(unmarked.data), a, b)
  {
    ghost var before := unmarked.data;
    var _ := unmarked.RemoveEdge(v, w);
    EraseEdgeAdjacent(before, v, w);
  }

  /** Lines 191-199, for a neighbour `w` not yet in the forest: `w` must be matched
      (otherwise the assertion at line 194 fails); `w` hangs below `v` and its mate below
      `w`, and the mate is queued. */
  method Extend(graph: Graph<nat>, matching: Graph<nat>, trees: Forest<nat>, unmarked: Graph<nat>,
                v: nat, w: nat, ghost hv: nat)
    returns (mate: nat, stop: Option<Result<Graph<nat>, Fault>>)
    requires State(graph, matching, trees, unmarked)
    requires v in trees.lookup && trees.Depth(v) == 2 * hv
    requires w !in trees.lookup && Adjacent(graph.data, v, w)
    modifies trees
    ensures stop.None? ==> && State(graph, matching, trees, unmarked)
                           && trees.lookup.Keys == old(trees.lookup.Keys) + {w, mate}
                           && v in trees.lookup && trees.Depth(v) == 2 * hv
                           && w in graph.nodeSet
    ensures old(trees.lookup.Keys) <= trees.lookup.Keys
    ensures stop.Some? ==> stop.value.Err? && Outcome(graph, matching, stop.value)
  {
    mate := w;
    var wEdges := matching.EdgesOfNode(w);
    if wEdges == {} {
      MatchedNeighbour(graph.data, matching.nodeSet, trees.lookup.Keys, v, w);
      return mate, Some(Err(AssertFails(194)));
    }
    mate :| mate in wEdges;
    var cycle := HangPair(graph, matching, trees, v, w, mate);
    if cycle {
      return mate, Some(Err(ForestCycle));
    }
    stop := None;
  }

  /** A neighbour outside the forest of a forest node is matched, as every node with an edge
      is matched or planted. */
  lemma MatchedNeighbour(g: map<nat, set<nat>>, mnodes: set<nat>, keys: set<nat>, v: nat, w: nat)
    requires Symmetric(g) && Adjacent(g, v, w) && w !in keys
    requires forall u | u in Touched(g) :: u in mnodes || u in keys
    ensures w in mnodes && w in g
  {
    assert Adjacent(g, w, v);
  }

  /** Lines 196-197: `w` below `v`, then the mate `m` below `w`. */
  method HangPair(graph: Graph<nat>, matching: Graph<nat>, trees: Forest<nat>, v: nat, w: nat, m: nat)
    returns (cycle: bool)
    requires graph.Valid() && matching.Valid() && SubAdj(matching.data, graph.data)
    requires Grown(graph, matching, trees)
    requires v in trees.lookup && w !in trees.lookup && Adjacent(graph.data, v, w)
    requires Adjacent(matching.data, w, m)
    modifies trees
    ensures trees.lookup.Keys == old(trees.lookup.Keys) + {w} + (if cycle then {} else {m})
    ensures !cycle ==> Grown(graph, matching, trees) && v in trees.lookup && trees.Depth(v) == old(trees.Depth(v))
  {
    AttachChild(graph, matching, trees, v, w);
    cycle := AttachMate(graph, matching, trees, v, w, m);
  }

  /** Lines 200-276, for a neighbour `w` already in the forest: at an even distance, two
      trees joined by the edge give an augmenting path, and one tree closes a blossom. An odd
      `w` is passed over. */
  method Close(graph: Graph<nat>, matching: Graph<nat>, trees: Forest<nat>, v: nat, w: nat, ghost hv: nat)
    returns (stop: Option<Result<Graph<nat>, Fault>>)
    requires graph.Valid() && matching.Valid() && SubAdj(matching.data, graph.data)
    requires Grown(graph, matching, trees)
    requires v in trees.lookup && trees.Depth(v) == 2 * hv
    requires w in trees.lookup && Adjacent(graph.data, v, w)
    decreases |graph.nodeSet|, 2
    ensures stop.Some? ==> (stop.value.Ok? ==> fresh(stop.value.value)) && Outcome(graph, matching, stop.value)
  {
    stop := None;
    var dw := trees.Distance(w);
    if dw.value % 2 == 0 {
      var same := trees.SameTree(v, w);
      if !same.value {
        var r;
        ghost var walk;
        r, walk := Join(graph, matching, trees, v, w, hv, dw.value / 2);
        stop := Some(r);
      } else {
        var r := BlossomStep(graph, matching, trees, v, w, hv, dw.value / 2);
        stop := Some(r);
      }
    }
  }

  /** `trees.set_edge(v, w)` for a node `w` new to the forest (line 196): `w` hangs below
      the even node `v`, whose own path is not disturbed. */
  method AttachChild(graph: Graph<nat>, matching: Graph<nat>, trees: Forest<nat>, v: nat, w: nat)
    requires graph.Valid() && Grown(graph, matching, trees)
    requires v in trees.lookup && w !in trees.lookup && Adjacent(graph.data, v, w)
    modifies trees
    ensures Grown(graph, matching, trees)
    ensures trees.lookup.Keys == old(trees.lookup.Keys) + {w}
    ensures trees.Depth(v) == old(trees.Depth(v))
    ensures trees.PathNodes(w) == [w] + trees.PathNodes(v)
  {
    ghost var p0, r0, iv := trees.parents, trees.rank, trees.lookup[v];
    assert GoodLink(graph.nodeSet, graph.data, matching.nodeSet, w, v) by {
      assert w in graph.nodeSet && Adjacent(graph.data, w, v);
    }
    ChainShape(p0, r0, iv);
    trees.SetEdge(v, w);
    ChainShape(trees.parents, trees.rank, iv);
    trees.ChainNodesStep(trees.lookup[w]);
    forall x | x in trees.lookup ensures GoodLink(graph.nodeSet, graph.data, matching.nodeSet, x, trees.ParentNode(x)) {
      if x != w {
        assert x in old(trees.lookup) && trees.ParentNode(x) == old(trees.ParentNode(x));
      }
    }
  }

  /** `trees.set_edge(w, matchedNode)` (line 197) after `w` was hung below `v`. When the mate
      lies on the path from `w` (only possible for a matching that is not one), the call
      would close a cycle. The model stops there; the source would go on with a cyclic forest,
      possibly still finding a path between two other trees, and otherwise loop in the first
      `root`, `distance` or `path` query that reaches the cycle. */
  method AttachMate(graph: Graph<nat>, matching: Graph<nat>, trees: Forest<nat>, v: nat, w: nat, m: nat)
    returns (cycle: bool)
    requires graph.Valid() && matching.Valid() && SubAdj(matching.data, graph.data)
    requires Grown(graph, matching, trees) && v in trees.lookup && w in trees.lookup
    requires trees.PathNodes(w) == [w] + trees.PathNodes(v) && Adjacent(matching.data, w, m)
    modifies trees
    ensures cycle == (m != w && m in old(trees.PathNodes(w)))
    ensures !cycle ==> Grown(graph, matching, trees)
    ensures trees.lookup.Keys == old(trees.lookup.Keys) + (if cycle then {} else {m})
    ensures !cycle ==> v in trees.lookup && trees.Depth(v) == old(trees.Depth(v))
  {
    var pw := trees.Path(w);
    cycle := m != w && m in pw.value;
    if cycle {
      return;
    }
    MateOffPath(trees, v, w, m);
    ghost var p0, r0, iv := trees.parents, trees.rank, trees.lookup[v];
    ChainShape(p0, r0, iv);
    if m != w {
      assert Adjacent(graph.data, w, m);
      assert GoodLink(graph.nodeSet, graph.data, matching.nodeSet, m, w);
    }
    HangMate(graph, matching, trees, w, m);
    ChainShape(trees.parents, trees.rank, iv);
  }

  /** The `set_edge(w, matchedNode)` call itself, for a mate that closes no cycle: the mate
      is linked to `w` by a graph edge, so the forest stays grown, and every chain that
      avoided the mate is unchanged. */
  method HangMate(graph: Graph<nat>, matching: Graph<nat>, trees: Forest<nat>, w: nat, m: nat)
    requires Grown(graph, matching, trees) && w in trees.lookup && trees.MayAttach(w, m)
    requires m != w ==> GoodLink(graph.nodeSet, graph.data, matching.nodeSet, m, w)
    modifies trees
    ensures Grown(graph, matching, trees)
    ensures trees.lookup.Keys == old(trees.lookup.Keys) + {m}
    ensures forall x | x in old(trees.lookup) :: trees.lookup[x] == old(trees.lookup[x])
    ensures forall i | 0 <= i < old(|trees.parents|) &&
                       (m in old(trees.lookup) ==> old(trees.lookup[m] !in ChainOf(trees.parents, trees.rank, i))) ::
      i < |trees.parents| && ChainOf(trees.parents, trees.rank, i) == old(ChainOf(trees.parents, trees.rank, i))
  {
    trees.SetEdge(w, m);
    forall x | x in trees.lookup ensures GoodLink(graph.nodeSet, graph.data, matching.nodeSet, x, trees.ParentNode(x)) {
      if x != m {
        assert x in old(trees.lookup) && trees.ParentNode(x) == old(trees.ParentNode(x));
      } else if m == w {
        assert trees.ParentNode(x) == old(trees.ParentNode(x));
      }
    }
  }

  /** The mate `m` of `w`, when it is not on the path from `w`, is not on the path from `w`'s
      parent `v` either, so hanging it below `w` closes no cycle and leaves `v`'s chain as is. */
  lemma MateOffPath(trees: Forest<nat>, v: nat, w: nat, m: nat)
    requires trees.Acyclic() && trees.Bijective() && v in trees.lookup && w in trees.lookup
    requires trees.PathNodes(w) == [w] + trees.PathNodes(v)
    requires m == w || m !in trees.PathNodes(w)
    ensures trees.MayAttach(w, m)
    ensures m in trees.lookup ==> trees.lookup[m] !in ChainOf(trees.parents, trees.rank, trees.lookup[v])
  {
    trees.PathMembers(w);
    assert m !in trees.PathNodes(v) by {
      if m == w {
        assert trees.PathNodes(w)[0] == w;
        assert forall k | 1 <= k < |trees.PathNodes(w)| :: trees.PathNodes(w)[k] != w;
        assert forall k | 0 <= k < |trees.PathNodes(v)| :: trees.PathNodes(v)[k] == trees.PathNodes(w)[k + 1];
      }
    }
    trees.PathMembers(v);
  }

  /** The loop at lines 260-264: the first id from `num_nodes()` on that neither graph
      uses. */
  method FreshNode(graph: Graph<nat>, matching: Graph<nat>) returns (c: nat)
    ensures c !in graph.nodeSet && c !in matching.nodeSet
    ensures |graph.nodeSet| <= c
    ensures forall x | |graph.nodeSet| <= x < c :: x in graph.nodeSet || x in matching.nodeSet
  {
    c := graph.NumNodes();
    var inGraph := graph.HasNode(c);
    var inMatching := matching.HasNode(c);
    while inGraph || inMatching
      invariant inGraph == (c in graph.nodeSet) && inMatching == (c in matching.nodeSet)
      invariant |graph.nodeSet| <= c
      invariant forall x | |graph.nodeSet| <= x < c :: x in graph.nodeSet || x in matching.nodeSet
      decreases Above(graph.nodeSet + matching.nodeSet, c)
    {
      AboveStep(graph.nodeSet + matching.nodeSet, c);
      c := c + 1;
      inGraph := graph.HasNode(c);
      inMatching := matching.HasNode(c);
    }
  }

  /** The ids of `s` from `c` on. */
  ghost function Above(s: set<nat>, c: nat): set<nat>
  {
    set x | x in s && x >= c
  }

  lemma AboveStep(s: set<nat>, c: nat)
    requires c in s
    ensures Above(s, c + 1) < Above(s, c)
  {
    assert c in Above(s, c) - Above(s, c + 1);
  }

  // ---------------------------------------------------------------------------------------
  // Two trees joined, lines 202-216
  // ---------------------------------------------------------------------------------------

  /** The path of `v` reversed, followed by the path of `w`, as a graph of its links: a simple
      path with an odd number of edges between the two (unmatched) roots. The assertion at
      line 214 therefore holds. */
  method Join(graph: Graph<nat>, matching: Graph<nat>, trees: Forest<nat>, v: nat, w: nat, ghost hv: nat, ghost hw: nat)
    returns (r: Result<Graph<nat>, Fault>, ghost walk: seq<nat>)
    requires graph.Valid() && Grown(graph, matching, trees)
    requires v in trees.lookup && w in trees.lookup && trees.RootNode(v) != trees.RootNode(w)
    requires trees.Depth(v) == 2 * hv && trees.Depth(w) == 2 * hw && Adjacent(graph.data, v, w)
    ensures r.Ok? && fresh(r.value) && r.value.Valid() && SubAdj(r.value.data, graph.data)
    ensures walk == Reversed(trees.PathNodes(v)) + trees.PathNodes(w)
    ensures UEdges(r.value.data) == PathEdges(walk) && |UEdges(r.value.data)| == 2 * (hv + hw) + 1
    ensures Distinct(walk) && Walk(graph.data, walk)
    ensures walk[0] == trees.RootNode(v) && walk[|walk| - 1] == trees.RootNode(w)
    ensures walk[0] !in matching.nodeSet && walk[|walk| - 1] !in matching.nodeSet
  {
    var pv := trees.Path(v);
    var pw := trees.Path(w);
    var concat := Reversed(pv.value) + pw.value;
    walk := concat;
    JoinWalk(graph, matching, trees, v, w, hv, hw);
    var path, n := LinkGraph(graph, concat);
    Odd(n, hv + hw);
    r := if n % 2 == 1 then Ok(path) else Err(AssertFails(214));
  }

  /** The reversed path of `v` followed by the path of `w` is a simple walk in the graph with
      `2 * (hv + hw) + 2` nodes, from the root of `v` to the root of `w`, both unmatched. */
  lemma JoinWalk(graph: Graph<nat>, matching: Graph<nat>, trees: Forest<nat>, v: nat, w: nat, hv: nat, hw: nat)
    requires graph.Valid() && Grown(graph, matching, trees)
    requires v in trees.lookup && w in trees.lookup && trees.RootNode(v) != trees.RootNode(w)
    requires trees.Depth(v) == 2 * hv && trees.Depth(w) == 2 * hw && Adjacent(graph.data, v, w)
    ensures var walk := Reversed(trees.PathNodes(v)) + trees.PathNodes(w);
      && |walk| == 2 * (hv + hw) + 2 && Distinct(walk) && Walk(graph.data, walk)
      && walk[0] == trees.RootNode(v) && walk[|walk| - 1] == trees.RootNode(w)
      && walk[0] !in matching.nodeSet && walk[|walk| - 1] !in matching.nodeSet
  {
    var pv, pw := trees.PathNodes(v), trees.PathNodes(w);
    TreeWalk(graph, matching, trees, v);
    TreeWalk(graph, matching, trees, w);
    var rv := Reversed(pv);
    ReversedWalk(graph.data, pv);
    WalkJoin(graph.data, rv, pw);
    DistinctJoin(rv, pw);
    trees.RootIsOwnParent(v);
    trees.RootIsOwnParent(w);
  }

  /** The loop at lines 209-212 (and the blossom's loops): the links of a simple walk in the
      graph, as a graph of their own. It is a part of the graph and has one edge fewer than
      the walk has nodes. */
  method LinkGraph(graph: Graph<nat>, s: seq<nat>) returns (path: Graph<nat>, n: nat)
    requires graph.Valid() && |s| >= 1 && Distinct(s) && Walk(graph.data, s)
    ensures fresh(path) && path.Valid() && SubAdj(path.data, graph.data)
    ensures UEdges(path.data) == PathEdges(s) && n == |UEdges(path.data)| && n == |s| - 1
  {
    path := new Graph();
    AddPathEdges(path, s);
    LinkFacts(graph.data, path.data, s);
    n := path.NumEdges();
  }

  /** The graph of the links of a simple walk has no self-loop, one edge per link, and lies
      inside what is walked. */
  lemma LinkFacts(gd: map<nat, set<nat>>, pd: map<nat, set<nat>>, s: seq<nat>)
    requires Symmetric(gd) && Symmetric(pd) && |s| >= 1 && Distinct(s) && Walk(gd, s)
    requires UEdges(pd) == PathEdges(s)
    ensures Loopless(pd) && |UEdges(pd)| == |s| - 1 && SubAdj(pd, gd)
  {
    WalkEdges(gd, s);
    PathEdgesSize(s);
    LinksOfSimple(s);
    LooplessByEdges(pd);
    SubAdjByEdges(pd, gd);
  }

  /** `std::reverse` applied to a copy. */
  function Reversed(s: seq<nat>): (r: seq<nat>)
    ensures |r| == |s| && forall k | 0 <= k < |s| :: r[k] == s[|s| - 1 - k]
  {
    if s == [] then [] else Reversed(s[1..]) + [s[0]]
  }

  /** Reversing keeps a walk of a symmetric adjacency a walk, keeps it simple, and keeps its
      nodes. */
  lemma ReversedWalk(d: map<nat, set<nat>>, s: seq<nat>)
    requires Symmetric(d) && Walk(d, s) && Distinct(s)
    ensures Walk(d, Reversed(s)) && Distinct(Reversed(s))
    ensures forall x :: x in Reversed(s) <==> x in s
  {
    var r := Reversed(s);
    forall i | 0 <= i < |r| - 1 ensures Adjacent(d, r[i], r[i + 1]) {
      assert Adjacent(d, s[|s| - 2 - i], s[|s| - 1 - i]);
    }
    forall x ensures x in r <==> x in s {
      if x in s {
        var k :| 0 <= k < |s| && s[k] == x;
        assert r[|s| - 1 - k] == x;
      }
    }
  }

  /** Two walks joined by an edge from the end of the first to the start of the second. */
  lemma WalkJoin(d: map<nat, set<nat>>, a: seq<nat>, b: seq<nat>)
    requires Walk(d, a) && Walk(d, b) && |a| >= 1 && |b| >= 1 && Adjacent(d, a[|a| - 1], b[0])
    ensures Walk(d, a + b)
  {
    var s := a + b;
    forall i | 0 <= i < |s| - 1 ensures Adjacent(d, s[i], s[i + 1]) {
      if i < |a| - 1 {
        assert s[i] == a[i] && s[i + 1] == a[i + 1];
      } else if i >= |a| {
        assert s[i] == b[i - |a|] && s[i + 1] == b[i - |a| + 1];
      }
    }
  }

  /** Two simple sequences with no common element join into a simple sequence. */
  lemma DistinctJoin(a: seq<nat>, b: seq<nat>)
    requires Distinct(a) && Distinct(b) && forall x | x in a :: x !in b
    ensures Distinct(a + b)
  {
    var s := a + b;
    forall k, l | 0 <= k < l < |s| ensures s[k] != s[l] {
      if k < |a| && l >= |a| {
        assert s[k] in a && s[l] == b[l - |a|];
      } else if k >= |a| {
        assert s[k] == b[k - |a|] && s[l] == b[l - |a|];
      }
    }
  }

  // ---------------------------------------------------------------------------------------
  // A blossom, lines 219-271
  // ---------------------------------------------------------------------------------------

  /** An edge between even nodes `v` and `w` of one tree. The blossom is the edge `v`-`w`
      with the two tree paths cut at their lowest common node (the corrected cut, see
      `BlossomCycle`); it is an odd cycle unless `v` is `w`, and then the assertion at line 259
      fails. Otherwise the blossom is contracted into a fresh node in both the graph and the
      matching, the search recurses on the smaller graph, and its path is lifted back. */
  method BlossomStep(graph: Graph<nat>, matching: Graph<nat>, trees: Forest<nat>, v: nat, w: nat, ghost hv: nat, ghost hw: nat)
    returns (r: Result<Graph<nat>, Fault>)
    requires graph.Valid() && matching.Valid() && SubAdj(matching.data, graph.data) && Grown(graph, matching, trees)
    requires v in trees.lookup && w in trees.lookup && trees.RootNode(v) == trees.RootNode(w)
    requires trees.Depth(v) == 2 * hv && trees.Depth(w) == 2 * hw && Adjacent(graph.data, v, w)
    decreases |graph.nodeSet|, 1
    ensures r.Ok? ==> fresh(r.value)
    ensures Outcome(graph, matching, r)
  {
    var blossom, n, arcV, arcW := MakeBlossom(graph, matching, trees, v, w, hv, hw);
    if n % 2 != 1 {
      assert Adjacent(graph.data, v, v);
      return Err(AssertFails(259));
    }
    r := ContractAndLift(graph, matching, blossom, v, w);
  }

  /** Lines 230-259: the blossom graph made of the edge `v`-`w` and the two tree paths cut at
      their lowest common node, and its edge count. It is a sub-graph of `graph` over the
      cycle's edges, and the count is odd exactly when `v` and `w` differ. */
  method MakeBlossom(graph: Graph<nat>, matching: Graph<nat>, trees: Forest<nat>, v: nat, w: nat, ghost hv: nat, ghost hw: nat)
    returns (blossom: Graph<nat>, n: nat, arcV: seq<nat>, arcW: seq<nat>)
    requires graph.Valid() && Grown(graph, matching, trees)
    requires v in trees.lookup && w in trees.lookup && trees.RootNode(v) == trees.RootNode(w)
    requires trees.Depth(v) == 2 * hv && trees.Depth(w) == 2 * hw && Adjacent(graph.data, v, w)
    ensures fresh(blossom) && blossom.Valid()
    ensures |arcV| >= 1 && |arcW| >= 1 && arcV[0] == v && arcW[0] == w
    ensures arcV <= trees.PathNodes(v) && arcW <= trees.PathNodes(w) && arcV[|arcV| - 1] == arcW[|arcW| - 1]
    ensures UEdges(blossom.data) == CycleEdges(arcV, arcW)
    ensures SubAdj(blossom.data, graph.data) && blossom.nodeSet <= graph.nodeSet
    ensures v in blossom.nodeSet && w in blossom.nodeSet
    ensures n % 2 == 1 <==> v != w
  {
    arcV, arcW := BlossomArcs(graph, matching, trees, v, w);
    blossom := CycleGraph(v, w, arcV, arcW);
    n := blossom.NumEdges();
    BlossomShape(graph.data, graph.nodeSet, trees.PathNodes(v), trees.PathNodes(w), arcV, arcW,
                 blossom.data, blossom.nodeSet, n, hv, hw);
  }

  /** The two tree paths of `v` and `w`, and the arcs the corrected cut keeps of them. */
  method BlossomArcs(graph: Graph<nat>, matching: Graph<nat>, trees: Forest<nat>, v: nat, w: nat)
    returns (arcV: seq<nat>, arcW: seq<nat>)
    requires Grown(graph, matching, trees)
    requires v in trees.lookup && w in trees.lookup && trees.RootNode(v) == trees.RootNode(w)
    ensures ArcsOf(graph.data, graph.nodeSet, trees.PathNodes(v), trees.PathNodes(w), arcV, arcW)
    ensures trees.PathNodes(v)[0] == v && trees.PathNodes(w)[0] == w
    ensures |trees.PathNodes(v)| == trees.Depth(v) + 1 && |trees.PathNodes(w)| == trees.Depth(w) + 1
  {
    var pv := trees.Path(v);
    var pw := trees.Path(w);
    TreeWalk(graph, matching, trees, v);
    TreeWalk(graph, matching, trees, w);
    TreePathsOf(trees, v, w);
    arcV, arcW := CommonArcs(pv.value, pw.value);
    ArcsMeetOnce(pv.value, pw.value, arcV, arcW);
  }

  /** Two simple walks of the graph from a common end, and prefixes of them that meet only at
      their last node, which is shared, with equally long remainders. */
  ghost predicate ArcsOf(gd: map<nat, set<nat>>, gn: set<nat>, pv: seq<nat>, pw: seq<nat>, arcV: seq<nat>, arcW: seq<nat>)
  {
    && Walk(gd, pv) && Walk(gd, pw) && Distinct(pv) && Distinct(pw)
    && (forall z | z in pv :: z in gn) && (forall z | z in pw :: z in gn)
    && 1 <= |arcV| <= |pv| && arcV == pv[..|arcV|] && 1 <= |arcW| <= |pw| && arcW == pw[..|arcW|]
    && arcV[|arcV| - 1] == arcW[|arcW| - 1] && Distinct(arcV) && Distinct(arcW)
    && (forall x | x in arcV && x in arcW :: x == arcV[|arcV| - 1])
    && |pv| - |arcV| == |pw| - |arcW|
  }

  /** The blossom built over two arcs of even-depth tree paths that are joined by a graph edge
      lies inside the graph, has exactly the cycle's edges, and its halved adjacency count is
      odd exactly when the two paths start at different nodes. */
  lemma BlossomShape(gd: map<nat, set<nat>>, gn: set<nat>, pv: seq<nat>, pw: seq<nat>, arcV: seq<nat>, arcW: seq<nat>,
                     bdata: map<nat, set<nat>>, bnodes: set<nat>, n: nat, hv: nat, hw: nat)
    requires Symmetric(gd) && ArcsOf(gd, gn, pv, pw, arcV, arcW)
    requires |pv| == 2 * hv + 1 && |pw| == 2 * hw + 1 && Adjacent(gd, pv[0], pw[0])
    requires Symmetric(bdata) && n == AdjTotal(bdata) / 2
    requires UEdges(bdata) == {{pv[0], pw[0]}} + PathEdges(arcV) + PathEdges(arcW)
    requires bnodes == {pv[0], pw[0]} + (if |arcV| >= 2 then Elements(arcV) else {})
                                      + (if |arcW| >= 2 then Elements(arcW) else {})
    ensures UEdges(bdata) == CycleEdges(arcV, arcW)
    ensures SubAdj(bdata, gd)
    ensures bnodes <= gn && pv[0] in bnodes && pw[0] in bnodes
    ensures n % 2 == 1 <==> pv[0] != pw[0]
  {
    BlossomInside(gd, gn, pv, pw, arcV, arcW, bdata, bnodes);
    if pv[0] != pw[0] {
      EqualTails(|pv|, |arcV|, |pw|, |arcW|, hv, hw);
      CycleCount(bdata, arcV, arcW, |arcV| + hw - hv);
      Odd(n, |arcV| + hw - hv - 1);
    } else {
      assert |arcV| == 1 && |arcW| == 1 by {
        assert pv[0] in arcV && pv[0] in arcW;
      }
      SelfLoopBlossom(bdata, pv[0], arcV, arcW);
    }
  }

  /** An odd cycle's blossom counts one edge per cycle edge. */
  lemma CycleCount(bdata: map<nat, set<nat>>, arcV: seq<nat>, arcW: seq<nat>, h: int)
    requires |arcV| >= 1 && |arcW| >= 1 && Distinct(arcV) && Distinct(arcW) && arcV[0] != arcW[0]
    requires arcV[|arcV| - 1] == arcW[|arcW| - 1]
    requires forall x | x in arcV && x in arcW :: x == arcV[|arcV| - 1]
    requires |arcV| + |arcW| == 2 * h
    requires Symmetric(bdata) && UEdges(bdata) == CycleEdges(arcV, arcW)
    ensures AdjTotal(bdata) == 2 * (2 * h - 1)
  {
    CycleOdd(arcV, arcW, h);
    LooplessByEdges(bdata);
    EdgeCount(bdata);
  }

  /** The blossom of an edge from `x` to itself is that one self-loop. */
  lemma SelfLoopBlossom(bdata: map<nat, set<nat>>, x: nat, arcV: seq<nat>, arcW: seq<nat>)
    requires Symmetric(bdata) && |arcV| == 1 && |arcW| == 1
    requires UEdges(bdata) == {{x, x}} + PathEdges(arcV) + PathEdges(arcW)
    ensures AdjTotal(bdata) / 2 == 0
  {
    assert PathEdges(arcV) == {} && PathEdges(arcW) == {};
    assert {x, x} == {x};
    SelfLoopCount(bdata, x);
  }

  /** The blossom graph itself: `{{v, w}}` followed by the edges along both arcs. */
  method CycleGraph(v: nat, w: nat, arcV: seq<nat>, arcW: seq<nat>) returns (blossom: Graph<nat>)
    requires |arcV| >= 1 && |arcW| >= 1
    ensures fresh(blossom) && blossom.Valid()
    ensures UEdges(blossom.data) == {{v, w}} + PathEdges(arcV) + PathEdges(arcW)
    ensures blossom.nodeSet == {v, w} + (if |arcV| >= 2 then Elements(arcV) else {})
                                      + (if |arcW| >= 2 then Elements(arcW) else {})
  {
    blossom := new Graph.FromPairs([(v, w)]);
    SinglePair(v, w);
    AddPathEdges(blossom, arcV);
    AddPathEdges(blossom, arcW);
  }

  /** A graph whose one edge is the self-loop at `v` counts a single adjacency, so
      `num_edges` reports no edge at all. */
  lemma SelfLoopCount(d: map<nat, set<nat>>, v: nat)
    requires Symmetric(d) && UEdges(d) == {{v}}
    ensures AdjTotal(d) == 1 && AdjTotal(d) / 2 == 0
  {
    AdjTotalPairs(d);
    forall p | p in Pairs(d) ensures p == (v, v) {
      assert {p.0, p.1} in UEdges(d);
      assert p.0 in {v} && p.1 in {v};
    }
    assert {v} in UEdges(d);
    var a, b :| a in d && b in d[a] && {a, b} == {v};
    assert a in {v} && b in {v};
    assert (v, v) in Pairs(d);
    assert Pairs(d) == {(v, v)};
  }

  /** Lines 260-270: the blossom is contracted into a fresh node in both the graph and the
      matching, the search recurses on the smaller graph, and the path found there is lifted
      back through the blossom. The contracted node never survives the lift. */
  method ContractAndLift(graph: Graph<nat>, matching: Graph<nat>, blossom: Graph<nat>, v: nat, w: nat)
    returns (r: Result<Graph<nat>, Fault>)
    requires graph.Valid() && matching.Valid() && SubAdj(matching.data, graph.data)
    requires blossom.Valid() && SubAdj(blossom.data, graph.data) && blossom.nodeSet <= graph.nodeSet
    requires v in blossom.nodeSet && w in blossom.nodeSet && v != w
    decreases |graph.nodeSet|, 0
    ensures r.Ok? ==> fresh(r.value)
    ensures Outcome(graph, matching, r)
  {
    var c := FreshNode(graph, matching);
    var cg := Contracted(graph, blossom, c);
    var cm := Contracted(matching, blossom, c);
    ContractionSubgraph(matching.data, graph.data, blossom.nodeSet, c, cm.data, cg.data);
    Shrinks(graph.nodeSet, blossom.nodeSet, v, w, c, cg.nodeSet);
    var sub := AugmentingPath(cg, cm);
    if sub.Err? {
      CarryErrors(graph.data, graph.nodeSet, matching.data, matching.nodeSet, blossom.nodeSet, c,
                  cg.data, cm.data, cm.nodeSet, sub.error);
      return Err(sub.error);
    }
    r := Lift(graph, matching, blossom, cg.data, c, sub.value);
  }

  /** Lines 268-270: the path of the contracted graph is lifted back through the blossom; the
      contracted node, which is not a blossom node, never survives the lift, so the assertion
      at line 270 holds and the lifted path is a sub-graph of the graph. */
  method Lift(graph: Graph<nat>, matching: Graph<nat>, blossom: Graph<nat>, ghost cgd: map<nat, set<nat>>, c: nat, path: Graph<nat>)
    returns (r: Result<Graph<nat>, Fault>)
    requires graph.Valid() && matching.Valid() && blossom.Valid() && path.Valid()
    requires path != graph && path != matching && path != blossom
    requires SubAdj(blossom.data, graph.data) && blossom.nodeSet <= graph.nodeSet && c !in graph.nodeSet
    requires IsContraction(graph.data, blossom.nodeSet, c, cgd) && SubAdj(path.data, cgd)
    modifies path
    ensures r.Ok? ==> r.value == path
    ensures Outcome(graph, matching, r)
  {
    ghost var d0 := path.data;
    var failure;
    ghost var stems, arc;
    failure, stems, arc := LiftPath(graph, matching, blossom, path, c);
    if failure.Some? {
      return Err(failure.value);
    }
    LiftedInside(graph.data, cgd, blossom.data, d0, path.data, blossom.nodeSet, c);
    var has := path.HasNode(c);
    r := if has then Err(AssertFails(270)) else Ok(path);
  }

  /** The two assertions of the recursive search explain themselves in the original graph: a
      node without a partner in the contracted matching had none before, and a self-loop of
      the contracted graph is one of the graph. */
  lemma CarryErrors(gd: map<nat, set<nat>>, gn: set<nat>, md: map<nat, set<nat>>, mn: set<nat>, b: set<nat>, c: nat,
                    cgd: map<nat, set<nat>>, cmd: map<nat, set<nat>>, cmn: set<nat>, e: Fault)
    requires Symmetric(gd) && gd.Keys <= gn && Symmetric(md) && md.Keys <= mn && c !in gn && c !in mn
    requires IsContraction(gd, b, c, cgd) && IsContraction(md, b, c, cmd)
    requires cmn == (mn - b) + (if Outside(md, b) == {} then {} else {c})
    requires e == AssertFails(194) ==> exists u :: u in cmn && Neighbours(cmd, u) == {}
    requires e == AssertFails(259) ==> exists u :: Adjacent(cgd, u, u)
    ensures e == AssertFails(194) ==> exists u :: u in mn && Neighbours(md, u) == {}
    ensures e == AssertFails(259) ==> exists u :: Adjacent(gd, u, u)
  {
    if e == AssertFails(194) {
      var u :| u in cmn && Neighbours(cmd, u) == {};
      Isolated(md, mn, b, c, cmd, cmn);
      assert u in mn && Neighbours(md, u) == {};
    }
    if e == AssertFails(259) {
      var u :| Adjacent(cgd, u, u);
      OutsideKept(gd, gn, b);
      assert Adjacent(gd, u, u);
    }
  }

  /** The lifted path is a sub-graph of the graph: its edges are blossom edges, graph edges,
      or edges of the contracted graph that avoid the contracted node. */
  lemma LiftedInside(gd: map<nat, set<nat>>, cgd: map<nat, set<nat>>, bd: map<nat, set<nat>>,
                     d0: map<nat, set<nat>>, d: map<nat, set<nat>>, b: set<nat>, c: nat)
    requires IsContraction(gd, b, c, cgd) && SubAdj(d0, cgd) && SubAdj(bd, gd)
    requires forall u, x | Adjacent(d, u, x) ::
      (Adjacent(d0, u, x) && u != c && x != c) || Adjacent(gd, u, x) || Adjacent(bd, u, x)
    ensures SubAdj(d, gd)
  {
    forall u, x | u in d && x in d[u] ensures Adjacent(gd, u, x) {
      assert Adjacent(d, u, x);
    }
  }

  /** The initializer list `{{v, w}}` is the one edge `v`-`w` over the nodes `v` and `w`. */
  lemma SinglePair(v: nat, w: nat)
    ensures EndsSeq(PairEdges([(v, w)])) == {{v, w}}
    ensures AddAllNodes({}, PairEdges([(v, w)])) == {v, w}
  {
    var es := PairEdges([(v, w)]);
    assert es == [Edge(v, w)];
    assert EndsSeq(es) == {Ends(Edge(v, w))};
    AddAllNodesMembers({}, es);
    assert Members({{v, w}}) == {v, w};
  }

  /** Two tree paths from one tree meet the shape the corrected cut expects. */
  lemma TreePathsOf(trees: Forest<nat>, v: nat, w: nat)
    requires trees.Acyclic() && trees.Bijective() && v in trees.lookup && w in trees.lookup
    requires trees.RootNode(v) == trees.RootNode(w)
    ensures TreePaths(trees.PathNodes(v), trees.PathNodes(w))
  {
    var pv, pw := trees.PathNodes(v), trees.PathNodes(w);
    trees.PathShape(v);
    trees.PathShape(w);
    trees.PathMembers(v);
    trees.PathMembers(w);
    assert pv[|pv| - 1] == pw[|pw| - 1];
    var i := FirstShared(pv, pw);
    var j := IndexIn(pw, pv[i]);
    trees.PathSuffix(v, i);
    trees.PathSuffix(w, j);
    assert pv[i..] == pw[j..];
    SharedTails(pv, pw, i, j);
  }

  /** Unfolds `TreePaths` for two paths whose tails agree from their first shared node on. */
  lemma SharedTails(pv: seq<nat>, pw: seq<nat>, i: nat, j: nat)
    requires |pv| >= 1 && |pw| >= 1 && Distinct(pv) && Distinct(pw) && pv[|pv| - 1] == pw[|pw| - 1]
    requires i == FirstShared(pv, pw) && j == IndexIn(pw, pv[i]) && pv[i..] == pw[j..]
    ensures TreePaths(pv, pw)
  {
  }

  /** The blossom built from the edge `v`-`w` and the two arcs has exactly the cycle's edges,
      all of them graph edges, over graph nodes that include `v` and `w`. */
  lemma BlossomInside(gd: map<nat, set<nat>>, gn: set<nat>, pv: seq<nat>, pw: seq<nat>, arcV: seq<nat>, arcW: seq<nat>,
                      bdata: map<nat, set<nat>>, bnodes: set<nat>)
    requires Symmetric(gd) && Walk(gd, pv) && Walk(gd, pw)
    requires forall z | z in pv :: z in gn
    requires forall z | z in pw :: z in gn
    requires |pv| >= 1 && |pw| >= 1 && Adjacent(gd, pv[0], pw[0])
    requires 1 <= |arcV| <= |pv| && arcV == pv[..|arcV|] && 1 <= |arcW| <= |pw| && arcW == pw[..|arcW|]
    requires Symmetric(bdata)
    requires UEdges(bdata) == {{pv[0], pw[0]}} + PathEdges(arcV) + PathEdges(arcW)
    requires bnodes == {pv[0], pw[0]} + (if |arcV| >= 2 then Elements(arcV) else {})
                                      + (if |arcW| >= 2 then Elements(arcW) else {})
    ensures UEdges(bdata) == CycleEdges(arcV, arcW)
    ensures SubAdj(bdata, gd)
    ensures bnodes <= gn && pv[0] in bnodes && pw[0] in bnodes
  {
    PrefixLinks(pv, |arcV|);
    PrefixLinks(pw, |arcW|);
    WalkEdges(gd, pv);
    WalkEdges(gd, pw);
    AdjacentIffEdge(gd, pv[0], pw[0]);
    SubAdjByEdges(bdata, gd);
    assert forall z | z in arcV :: z in pv;
    assert forall z | z in arcW :: z in pw;
  }

  /** Contracting a blossom of at least two graph nodes into one node leaves fewer nodes. */
  lemma Shrinks(nodes: set<nat>, b: set<nat>, v: nat, w: nat, c: nat, after: set<nat>)
    requires b <= nodes && v in b && w in b && v != w
    requires after <= (nodes - b) + {c}
    ensures |after| < |nodes|
  {
    SubsetSize({v, w}, b);
    assert nodes == (nodes - b) + b && (nodes - b) * b == {};
    SubsetSize(after, (nodes - b) + {c});
  }

  /** A node of a contracted matching without a partner was such a node before: the contracted
      node has a partner whenever it is present, and every other node keeps one. */
  lemma Isolated(m0: map<nat, set<nat>>, n0: set<nat>, b: set<nat>, c: nat, m: map<nat, set<nat>>, n: set<nat>)
    requires Symmetric(m0) && m0.Keys <= n0 && c !in n0 && IsContraction(m0, b, c, m)
    requires n == (n0 - b) + (if Outside(m0, b) == {} then {} else {c})
    ensures c in n ==> Neighbours(m, c) != {}
    ensures forall u, x | u in n && u != c && x in Neighbours(m0, u) :: Neighbours(m, u) != {}
    ensures forall u | u in n && u != c :: u in n0
  {
    if c in n {
      var x :| x in Outside(m0, b);
      assert Adjacent(m, c, x);
    }
    forall u, x | u in n && u != c && x in Neighbours(m0, u) ensures Neighbours(m, u) != {} {
      if x in b {
        assert u in Outside(m0, b) by {
          assert u in m0[x];
        }
        assert Adjacent(m, u, c);
      } else {
        assert Adjacent(m, u, x);
      }
    }
  }

  /** A tree path is a simple walk in the graph from `x` to its root, through nodes of the
      same tree. */
  lemma TreeWalk(graph: Graph<nat>, matching: Graph<nat>, trees: Forest<nat>, x: nat)
    requires Grown(graph, matching, trees) && x in trees.lookup
    ensures |trees.PathNodes(x)| == trees.Depth(x) + 1
    ensures trees.PathNodes(x)[0] == x && trees.PathNodes(x)[trees.Depth(x)] == trees.RootNode(x)
    ensures Distinct(trees.PathNodes(x)) && Walk(graph.data, trees.PathNodes(x))
    ensures forall z | z in trees.PathNodes(x) ::
      z in trees.lookup && z in graph.nodeSet && trees.RootNode(z) == trees.RootNode(x)
  {
    var p := trees.PathNodes(x);
    trees.PathShape(x);
    trees.PathMembers(x);
    trees.PathRoots(x);
    forall i | 0 <= i < |p| - 1 ensures Adjacent(graph.data, p[i], p[i + 1]) {
      assert p[i] != p[i + 1] && trees.ParentNode(p[i]) == p[i + 1];
    }
  }

  /** An adjacency without self-loops: all its unordered edges have two ends. */
  lemma LooplessByEdges(d: map<nat, set<nat>>)
    requires forall e | e in UEdges(d) :: |e| == 2
    ensures Loopless(d)
  {
    forall u | u in d ensures u !in d[u] {
      assert |{u, u}| == 1;
      assert u in d[u] ==> {u, u} in UEdges(d);
    }
  }

  /** An adjacency whose unordered edges are edges of another is a part of it. */
  lemma SubAdjByEdges(d1: map<nat, set<nat>>, d2: map<nat, set<nat>>)
    requires Symmetric(d1) && Symmetric(d2) && UEdges(d1) <= UEdges(d2)
    ensures SubAdj(d1, d2)
  {
    forall u, v | u in d1 && v in d1[u] ensures Adjacent(d2, u, v) {
      AdjacentIffEdge(d1, u, v);
      AdjacentIffEdge(d2, u, v);
    }
  }

  lemma Odd(n: int, h: int)
    requires n == 2 * h + 1
    ensures n % 2 == 1
  {
  }
}
