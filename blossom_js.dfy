/** The graph-set pieces of blossom.js: `differenceEdges`, `augmentMatching` and the recursive
    `blossom` driver. A graphlib undirected graph is modelled by its node ids and its edges as
    unordered pairs; an edge object `{v, w}` keeps the orientation graphlib reports. */
module BlossomJs {
  import opened Wrappers
  import opened Adjacency
  import opened Matchings

  /** A graphlib edge object `{v, w}`. */
  datatype LibEdge<T> = LibEdge(v: T, w: T)

  /** A graphlib undirected graph: node ids and unordered edges. */
  datatype LibGraph<T> = LibGraph(nodes: set<T>, edges: set<set<T>>)

  /** The unordered pair an edge object stands for. */
  function Pair<T>(e: LibEdge<T>): set<T> {
    {e.v, e.w}
  }

  // ---------------------------------------------------------------------------------------
  // differenceEdges, lines 74-90
  // ---------------------------------------------------------------------------------------

  /** The edge objects of `xs`, in order, that no edge object of `ys` matches in both `v` and
      `w`. */
  function Difference<T(==)>(xs: seq<LibEdge<T>>, ys: seq<LibEdge<T>>): seq<LibEdge<T>>
  {
    if xs == [] then [] else (if xs[0] in ys then [] else [xs[0]]) + Difference(xs[1..], ys)
  }

  /** The difference of a concatenation is the concatenation of the differences, so the kept
      edges appear in their original order. */
  lemma {:induction false} DifferenceAppend<T>(a: seq<LibEdge<T>>, b: seq<LibEdge<T>>, ys: seq<LibEdge<T>>)
    ensures Difference(a + b, ys) == Difference(a, ys) + Difference(b, ys)
    decreases |a|
  {
    if a != [] {
      assert (a + b)[1..] == a[1..] + b;
      DifferenceAppend(a[1..], b, ys);
    } else {
      assert a + b == b;
    }
  }

  /** An edge object is kept exactly when it is in `xs` and not in `ys`; the result is never
      longer than `xs`. */
  lemma {:induction false} DifferenceMembers<T>(xs: seq<LibEdge<T>>, ys: seq<LibEdge<T>>)
    ensures forall e :: e in Difference(xs, ys) <==> e in xs && e !in ys
    ensures |Difference(xs, ys)| <= |xs|
    decreases |xs|
  {
    if xs != [] {
      DifferenceMembers(xs[1..], ys);
      assert xs == [xs[0]] + xs[1..];
    }
  }

  /** The match compares `v` with `v` and `w` with `w`: the same edge reported the other way
      round is not removed. */
  lemma DifferenceOriented()
    ensures Difference([LibEdge(1, 2)], [LibEdge(2, 1)]) == [LibEdge(1, 2)]
  {
    assert LibEdge(1, 2) !in [LibEdge(2, 1)];
    assert Difference([LibEdge(1, 2)], [LibEdge(2, 1)]) == [LibEdge(1, 2)] + Difference([], [LibEdge(2, 1)]);
  }

  /** `differenceEdges(iterable1, iterable2)`: the outer loop pushes each edge object of the
      first list that the inner loop does not find in the second. */
  method DifferenceEdges<T(==)>(iterable1: seq<LibEdge<T>>, iterable2: seq<LibEdge<T>>) returns (ret: seq<LibEdge<T>>)
    ensures ret == Difference(iterable1, iterable2)
    ensures forall e :: e in ret <==> e in iterable1 && e !in iterable2
  {
    ret := [];
    var i := 0;
    while i < |iterable1|
      invariant i <= |iterable1| && ret == Difference(iterable1[..i], iterable2)
    {
      var v := iterable1[i];
      var found := false;
      var j := 0;
      while j < |iterable2|
        invariant j <= |iterable2|
        invariant !found && forall k | 0 <= k < j :: iterable2[k] != v
      {
        var u := iterable2[j];
        if v.v == u.v && v.w == u.w {
          found := true;
          break;
        }
        j := j + 1;
      }
      assert found <==> v in iterable2;
      if !found {
        ret := ret + [v];
      }
      assert iterable1[..i + 1] == iterable1[..i] + [v];
      DifferenceAppend(iterable1[..i], [v], iterable2);
      i := i + 1;
    }
    assert iterable1[..i] == iterable1;
    DifferenceMembers(iterable1, iterable2);
  }

  // ---------------------------------------------------------------------------------------
  // augmentMatching, lines 339-349
  // ---------------------------------------------------------------------------------------

  /** One path edge: removed when the graph has it (in either orientation), otherwise set,
      which also adds its two ends as nodes. */
  function Toggle<T>(m: LibGraph<T>, e: LibEdge<T>): LibGraph<T> {
    if Pair(e) in m.edges then LibGraph(m.nodes, m.edges - {Pair(e)})
    else LibGraph(m.nodes + {e.v, e.w}, m.edges + {Pair(e)})
  }

  /** The path edges toggled one after another, in the order `edges()` lists them. */
  function Toggled<T>(m: LibGraph<T>, es: seq<LibEdge<T>>): LibGraph<T>
    decreases |es|
  {
    if es == [] then m else Toggle(Toggled(m, es[..|es| - 1]), es[|es| - 1])
  }

  /** The unordered pairs of a list of edge objects. */
  ghost function Pairs<T>(es: seq<LibEdge<T>>): set<set<T>> {
    set i | 0 <= i < |es| :: Pair(es[i])
  }

  /** No two edge objects of the list stand for the same unordered pair, as in the edge list
      of a graphlib graph that is not a multigraph. */
  ghost predicate PairFree<T>(es: seq<LibEdge<T>>) {
    forall i, j | 0 <= i < j < |es| :: Pair(es[i]) != Pair(es[j])
  }

  /** Toggling every edge of a list without repeated pairs leaves the symmetric difference of
      the edges, adds as nodes the ends of the edges it set, and keeps every node. */
  lemma {:induction false} ToggledFlips<T>(m: LibGraph<T>, es: seq<LibEdge<T>>)
    requires PairFree(es)
    ensures Toggled(m, es).edges == SymDiff(m.edges, Pairs(es))
    ensures Toggled(m, es).nodes == m.nodes + Members(Pairs(es) - m.edges)
    decreases |es|
  {
    if es != [] {
      var front, e := es[..|es| - 1], es[|es| - 1];
      assert PairFree(front) by {
        forall i, j | 0 <= i < j < |front| ensures Pair(front[i]) != Pair(front[j]) {
          assert front[i] == es[i] && front[j] == es[j];
        }
      }
      ToggledFlips(m, front);
      assert Pairs(es) == Pairs(front) + {Pair(e)} by {
        forall x | x in Pairs(es) ensures x in Pairs(front) + {Pair(e)} {
          var i :| 0 <= i < |es| && x == Pair(es[i]);
          if i < |front| {
            assert es[i] == front[i];
          }
        }
        forall x | x in Pairs(front) ensures x in Pairs(es) {
          var i :| 0 <= i < |front| && x == Pair(front[i]);
          assert es[i] == front[i];
        }
        assert Pair(e) == Pair(es[|es| - 1]);
      }
      assert Pair(e) !in Pairs(front) by {
        forall i | 0 <= i < |front| ensures Pair(front[i]) != Pair(e) {
          assert front[i] == es[i];
        }
      }
      ToggleStep(m, Toggled(m, front), Pairs(front), e);
    }
  }

  /** Toggling one edge whose pair is new to the list keeps the two facts of `ToggledFlips`. */
  lemma ToggleStep<T>(m: LibGraph<T>, before: LibGraph<T>, done: set<set<T>>, e: LibEdge<T>)
    requires Pair(e) !in done
    requires before.edges == SymDiff(m.edges, done)
    requires before.nodes == m.nodes + Members(done - m.edges)
    ensures Toggle(before, e).edges == SymDiff(m.edges, done + {Pair(e)})
    ensures Toggle(before, e).nodes == m.nodes + Members(done + {Pair(e)} - m.edges)
  {
    var p := Pair(e);
    if p in m.edges {
      assert done + {p} - m.edges == done - m.edges;
    } else {
      assert done + {p} - m.edges == (done - m.edges) + {p};
      assert Members((done - m.edges) + {p}) == Members(done - m.edges) + {e.v, e.w};
    }
  }

  /** `augmentMatching(matching, path)`: a copy of the matching (the JSON round trip; the
      argument is a value and is not changed) with each path edge toggled in turn. For a path
      graph, whose edges are distinct pairs, the result's edges are the symmetric difference. */
  method AugmentMatching<T>(matching: LibGraph<T>, pathEdges: seq<LibEdge<T>>) returns (ret: LibGraph<T>)
    ensures ret == Toggled(matching, pathEdges)
    ensures PairFree(pathEdges) ==> ret.edges == SymDiff(matching.edges, Pairs(pathEdges))
    ensures matching.nodes <= ret.nodes
  {
    var i := 0;
    ret := matching;
    while i < |pathEdges|
      invariant i <= |pathEdges| && ret == Toggled(matching, pathEdges[..i])
      invariant matching.nodes <= ret.nodes
    {
      var e := pathEdges[i];
      var has := Pair(e) in ret.edges;
      if has {
        ret := LibGraph(ret.nodes, ret.edges - {Pair(e)});
      } else {
        ret := LibGraph(ret.nodes + {e.v, e.w}, ret.edges + {Pair(e)});
      }
      assert pathEdges[..i + 1][..i] == pathEdges[..i];
      i := i + 1;
    }
    assert pathEdges[..i] == pathEdges;
    if PairFree(pathEdges) {
      ToggledFlips(matching, pathEdges);
    }
  }

  // ---------------------------------------------------------------------------------------
  // blossom, lines 351-357
  // ---------------------------------------------------------------------------------------

  /** What one call of `augmentingPath` returned: the path graph's node count and its edge
      list in the order `edges()` gives it. */
  datatype Round<T> = Round(nodeCount: nat, pathEdges: seq<LibEdge<T>>)

  /** The matching after augmenting by each round's path in turn. */
  function Applied<T>(m: LibGraph<T>, rounds: seq<Round<T>>): LibGraph<T>
    decreases |rounds|
  {
    if rounds == [] then m else Applied(Toggled(m, rounds[0].pathEdges), rounds[1..])
  }

  /** The first round whose path graph has no nodes. */
  function FirstEmpty<T>(rounds: seq<Round<T>>): (r: Option<nat>)
    ensures r.Some? ==> r.value < |rounds| && rounds[r.value].nodeCount == 0
    ensures r.Some? ==> forall j | 0 <= j < r.value :: rounds[j].nodeCount != 0
    ensures r.None? ==> forall j | 0 <= j < |rounds| :: rounds[j].nodeCount != 0
  {
    if rounds == [] then None
    else if rounds[0].nodeCount == 0 then Some(0)
    else match FirstEmpty(rounds[1..]) {
      case None => None
      case Some(k) => Some(k + 1)
    }
  }

  /** `blossom(graph, matching)`: augment and recurse while `augmentingPath` returns a path
      graph with nodes, and return the matching once it returns an empty one. The calls of
      `augmentingPath` are the list `rounds` of their results; `None` means the list ran out. */
  method Blossom<T>(matching: LibGraph<T>, rounds: seq<Round<T>>) returns (r: Option<LibGraph<T>>)
    ensures rounds != [] && rounds[0].nodeCount == 0 ==> r == Some(matching)
    ensures r == match FirstEmpty(rounds) {
      case None => None
      case Some(k) => Some(Applied(matching, rounds[..k]))
    }
    decreases |rounds|
  {
    if rounds == [] {
      return None;
    }
    var path := rounds[0];
    if path.nodeCount != 0 {
      var augmented := AugmentMatching(matching, path.pathEdges);
      r := Blossom(augmented, rounds[1..]);
      match FirstEmpty(rounds[1..]) {
        case None =>
        case Some(k) =>
          assert rounds[..k + 1] == [rounds[0]] + rounds[1..][..k];
      }
    } else {
      assert rounds[..0] == [];
      r := Some(matching);
    }
  }

  /** The hypotheses of `DriverGrows` for the rounds after the first, starting from the
      matching the first round produces. */
  lemma DriverShift<T>(m: LibGraph<T>, rounds: seq<Round<T>>, walks: seq<seq<T>>)
    requires rounds != [] && |walks| == |rounds|
    requires forall j | 0 <= j < |rounds| ::
      && PairFree(rounds[j].pathEdges)
      && Pairs(rounds[j].pathEdges) == PathEdges(walks[j])
      && Augmenting(Applied(m, rounds[..j]).edges, walks[j])
    ensures forall j | 0 <= j < |rounds| - 1 ::
      && PairFree(rounds[1..][j].pathEdges)
      && Pairs(rounds[1..][j].pathEdges) == PathEdges(walks[1..][j])
      && Augmenting(Applied(Toggled(m, rounds[0].pathEdges), rounds[1..][..j]).edges, walks[1..][j])
  {
    forall j | 0 <= j < |rounds| - 1
      ensures Applied(Toggled(m, rounds[0].pathEdges), rounds[1..][..j]) == Applied(m, rounds[..j + 1])
    {
      assert rounds[..j + 1] == [rounds[0]] + rounds[1..][..j];
    }
  }

  /** When every round before the first empty one returns an augmenting path for the matching
      reached so far (`walks[j]` is its node sequence), the driver's result is a matching with
      one edge more per round. */
  lemma {:induction false} DriverGrows<T>(m: LibGraph<T>, rounds: seq<Round<T>>, walks: seq<seq<T>>)
    requires IsMatching(m.edges) && |walks| == |rounds|
    requires forall j | 0 <= j < |rounds| ::
      && PairFree(rounds[j].pathEdges)
      && Pairs(rounds[j].pathEdges) == PathEdges(walks[j])
      && Augmenting(Applied(m, rounds[..j]).edges, walks[j])
    ensures IsMatching(Applied(m, rounds).edges)
    ensures |Applied(m, rounds).edges| == |m.edges| + |rounds|
    decreases |rounds|
  {
    if rounds != [] {
      var m' := Toggled(m, rounds[0].pathEdges);
      assert rounds[..0] == [];
      ToggledFlips(m, rounds[0].pathEdges);
      AugmentGrows(m.edges, walks[0]);
      DriverShift(m, rounds, walks);
      DriverGrows(m', rounds[1..], walks[1..]);
    }
  }
}
