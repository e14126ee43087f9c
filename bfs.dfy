/** `bfs` of blossom.js: breadth-first search from `start` for `end`. The graph is given by the
    neighbour lists that graphlib's `neighbors` returns, in the order it returns them; a node
    the graph does not hold has no list, and iterating over its missing list throws. Each queue
    entry records its node, the entry it was reached from and its distance. */
module Bfs {
  import opened Wrappers
  import opened ParentChains

  /** A queue entry: `{node, parent, dist}`, with `parent` undefined for the start entry. */
  datatype Entry<T> = Entry(node: T, parent: Option<Entry<T>>, dist: nat)

  /** A JavaScript exception: `for ... of` over `undefined` at that line throws a TypeError. */
  datatype Thrown = TypeError(line: int)

  /** `p` is a walk in `g`: each node after the first is in the neighbour list of the one before. */
  ghost predicate Walk<T(!new)>(g: map<T, seq<T>>, p: seq<T>) {
    |p| >= 1 && forall i | 0 <= i < |p| - 1 :: p[i] in g && p[i + 1] in g[p[i]]
  }

  /** Some walk leads from `s` to `x`. */
  ghost predicate Reachable<T(!new)>(g: map<T, seq<T>>, s: T, x: T) {
    exists p :: Walk(g, p) && p[0] == s && p[|p| - 1] == x
  }

  /** Every node that appears in some neighbour list. */
  ghost function Universe<T(!new)>(g: map<T, seq<T>>): set<T> {
    set x, y | x in g && y in g[x] :: y
  }

  /** The nodes named by the entries of a queue. */
  ghost function QueueNodes<T(!new)>(q: seq<Entry<T>>): set<T> {
    set k | 0 <= k < |q| :: q[k].node
  }

  /** The nodes from the start entry down to `e`, following `parent` links backwards. */
  function Trail<T>(e: Entry<T>): seq<T> {
    match e.parent
    case None => [e.node]
    case Some(p) => Trail(p) + [e.node]
  }

  /** The number of `parent` links from `e` back to the start entry. */
  function Links<T>(e: Entry<T>): nat {
    match e.parent
    case None => 0
    case Some(p) => Links(p) + 1
  }

  /** `e` was built by the search: the start entry has `start` at distance 0, and every other
      entry extends its parent by one neighbour of the parent's node. */
  ghost predicate Linked<T(!new)>(g: map<T, seq<T>>, start: T, e: Entry<T>) {
    match e.parent
    case None => e.node == start && e.dist == 0
    case Some(p) => Linked(g, start, p) && p.node in g && e.node in g[p.node] && e.dist == p.dist + 1
  }

  /** A linked entry's trail is a walk from `start` to its node with `dist` links, and `dist`
      counts the `parent` links back to the start entry. */
  lemma {:induction false} TrailWalk<T(!new)>(g: map<T, seq<T>>, start: T, e: Entry<T>)
    requires Linked(g, start, e)
    ensures Walk(g, Trail(e)) && Trail(e)[0] == start && Trail(e)[|Trail(e)| - 1] == e.node
    ensures |Trail(e)| == e.dist + 1 && e.dist == Links(e)
    ensures Reachable(g, start, e.node)
  {
    match e.parent
    case None =>
      assert Walk(g, Trail(e));
    case Some(p) =>
      TrailWalk(g, start, p);
      var t := Trail(p);
      assert Trail(e) == t + [e.node];
      forall i | 0 <= i < |t| ensures Trail(e)[i] == t[i] { }
      assert Walk(g, Trail(e));
  }

  /** A set that holds `start`, not `end`, and every neighbour of each of its nodes, shuts
      `end` off from `start`. */
  lemma ClosedUnreachable<T(!new)>(g: map<T, seq<T>>, s: set<T>, start: T, end: T)
    requires start in s && end !in s
    requires forall x | x in s :: x in g && Elements(g[x]) <= s
    ensures !Reachable(g, start, end)
  {
    if Reachable(g, start, end) {
      var p :| Walk(g, p) && p[0] == start && p[|p| - 1] == end;
      WalkInside(g, s, p, |p| - 1);
    }
  }

  /** Each node of a walk from inside a closed set is inside it. */
  lemma {:induction false} WalkInside<T(!new)>(g: map<T, seq<T>>, s: set<T>, p: seq<T>, i: nat)
    requires Walk(g, p) && p[0] in s && i < |p|
    requires forall x | x in s :: x in g && Elements(g[x]) <= s
    ensures p[i] in s
  {
    if i > 0 {
      WalkInside(g, s, p, i - 1);
      assert p[i] in Elements(g[p[i - 1]]);
    }
  }

  /** The state of the outer loop: every queued entry is linked, every visited node is a
      neighbour, each dequeued node differs from `end` and has all its neighbours visited, and
      `start` and every visited node is dequeued or queued. */
  ghost predicate Searched<T(!new)>(g: map<T, seq<T>>, start: T, end: T, visited: set<T>, popped: set<T>, queue: seq<Entry<T>>) {
    && (forall k | 0 <= k < |queue| :: Linked(g, start, queue[k]))
    && visited <= Universe(g)
    && end !in popped
    && (forall x | x in popped :: x in g && Elements(g[x]) <= visited)
    && visited + {start} <= popped + QueueNodes(queue)
  }

  /** The state of the inner loop over the neighbours of the dequeued `entry`: the first `j`
      of them are visited. */
  ghost predicate Scanning<T(!new)>(g: map<T, seq<T>>, start: T, end: T, visited: set<T>, popped: set<T>,
                              entry: Entry<T>, queue: seq<Entry<T>>, j: nat) {
    && entry.node in g && entry.node != end && Linked(g, start, entry) && j <= |g[entry.node]|
    && (forall k | 0 <= k < |queue| :: Linked(g, start, queue[k]))
    && visited <= Universe(g)
    && end !in popped
    && (forall x | x in popped :: x in g && Elements(g[x]) <= visited)
    && visited + {start} <= popped + {entry.node} + QueueNodes(queue)
    && Elements(g[entry.node][..j]) <= visited
  }

  /** Dequeuing an entry whose node is in the graph and is not `end`. */
  lemma PopEntry<T(!new)>(g: map<T, seq<T>>, start: T, end: T, visited: set<T>, popped: set<T>, queue: seq<Entry<T>>)
    requires Searched(g, start, end, visited, popped, queue) && queue != []
    requires queue[0].node in g && queue[0].node != end
    ensures Scanning(g, start, end, visited, popped, queue[0], queue[1..], 0)
  {
    assert QueueNodes(queue) == {queue[0].node} + QueueNodes(queue[1..]) by {
      forall x | x in QueueNodes(queue) ensures x in {queue[0].node} + QueueNodes(queue[1..]) {
        var k :| 0 <= k < |queue| && queue[k].node == x;
        if k > 0 {
          assert queue[1..][k - 1] == queue[k];
        }
      }
    }
    assert g[queue[0].node][..0] == [];
  }

  /** One neighbour `n` more: it is skipped when visited, and otherwise visited and queued. */
  lemma ScanStep<T(!new)>(g: map<T, seq<T>>, start: T, end: T, visited: set<T>, popped: set<T>,
                    entry: Entry<T>, queue: seq<Entry<T>>, j: nat)
    requires Scanning(g, start, end, visited, popped, entry, queue, j) && j < |g[entry.node]|
    ensures var n := g[entry.node][j];
      if n in visited then Scanning(g, start, end, visited, popped, entry, queue, j + 1)
      else Scanning(g, start, end, visited + {n}, popped, entry, queue + [Entry(n, Some(entry), entry.dist + 1)], j + 1)
  {
    var ns := g[entry.node];
    var n := ns[j];
    assert ns[..j + 1] == ns[..j] + [n];
    assert n in Universe(g);
    var q' := queue + [Entry(n, Some(entry), entry.dist + 1)];
    assert q'[|queue|].node == n;
    assert QueueNodes(queue) + {n} <= QueueNodes(q') by {
      forall x | x in QueueNodes(queue) ensures x in QueueNodes(q') {
        var k :| 0 <= k < |queue| && queue[k].node == x;
        assert q'[k] == queue[k];
      }
    }
    assert forall k | 0 <= k < |q'| :: Linked(g, start, q'[k]) by {
      forall k | 0 <= k < |q'| ensures Linked(g, start, q'[k]) {
        if k < |queue| {
          assert q'[k] == queue[k];
        }
      }
    }
  }

  /** Once all neighbours are visited, the entry counts as dequeued. */
  lemma ScanDone<T(!new)>(g: map<T, seq<T>>, start: T, end: T, visited: set<T>, popped: set<T>,
                    entry: Entry<T>, queue: seq<Entry<T>>)
    requires entry.node in g && Scanning(g, start, end, visited, popped, entry, queue, |g[entry.node]|)
    ensures Searched(g, start, end, visited, popped + {entry.node}, queue)
  {
    assert g[entry.node][..|g[entry.node]|] == g[entry.node];
  }

  /** When the queue runs dry, the dequeued nodes are closed under neighbours. */
  lemma Exhausted<T(!new)>(g: map<T, seq<T>>, start: T, end: T, visited: set<T>, popped: set<T>)
    requires Searched(g, start, end, visited, popped, [])
    ensures !Reachable(g, start, end)
  {
    assert QueueNodes<T>([]) == {};
    ClosedUnreachable(g, popped, start, end);
  }

  /** `bfs(graph, start, end)`: `undefined` (`None`) exactly when `end` cannot be reached from
      `start`; otherwise the entry for `end`, whose parent links spell a walk from `start` with
      `dist` links. A TypeError is thrown only when the search reaches a node the graph does not
      hold. */
  method Search<T(==, !new)>(graph: map<T, seq<T>>, start: T, end: T) returns (r: Result<Option<Entry<T>>, Thrown>)
    ensures r.Ok? && r.value.Some? ==> r.value.value.node == end && Linked(graph, start, r.value.value)
    ensures r.Ok? && r.value.Some? ==> r.value.value.dist == Links(r.value.value)
    ensures r.Ok? ==> (r.value.Some? <==> Reachable(graph, start, end))
    ensures r.Err? ==> r.error == TypeError(62) && exists x :: Reachable(graph, start, x) && x !in graph
  {
    var visited: set<T> := {};
    var queue := [Entry(start, None, 0)];
    ghost var popped: set<T> := {};
    assert QueueNodes(queue) == {start} by {
      assert queue[0].node == start;
    }
    while |queue| > 0
      invariant Searched(graph, start, end, visited, popped, queue)
      decreases Universe(graph) - visited, |queue|
    {
      var entry := queue[0];
      assert Linked(graph, start, entry);
      if entry.node == end {
        TrailWalk(graph, start, entry);
        return Ok(Some(entry));
      }
      if entry.node !in graph {
        TrailWalk(graph, start, entry);
        return Err(TypeError(62));
      }
      PopEntry(graph, start, end, visited, popped, queue);
      queue := queue[1..];
      ghost var v0, q0 := visited, queue;
      var neighbours := graph[entry.node];
      var j := 0;
      while j < |neighbours|
        invariant Scanning(graph, start, end, visited, popped, entry, queue, j)
        invariant neighbours == graph[entry.node]
        invariant v0 <= visited <= Universe(graph) && (visited == v0 ==> queue == q0)
      {
        var n := neighbours[j];
        ScanStep(graph, start, end, visited, popped, entry, queue, j);
        if n !in visited {
          visited := visited + {n};
          queue := queue + [Entry(n, Some(entry), entry.dist + 1)];
        }
        j := j + 1;
      }
      ScanDone(graph, start, end, visited, popped, entry, queue);
      popped := popped + {entry.node};
    }
    Exhausted(graph, start, end, visited, popped);
    return Ok(None);
  }
}
