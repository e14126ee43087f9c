# Blossom matching on half-edge meshes: a Dafny model

The repository computes a maximum matching on the dual graph of a polygon mesh, for example to
pair up the triangles of a triangle mesh. It does this with Edmonds' blossom algorithm. There are
two implementations:

- a C++ engine compiled to WebAssembly (`wasm/forest.h`, `wasm/graph.h`, `wasm/blossom.cpp`);
- an earlier JavaScript prototype (`blossom.js`).

A half-edge mesh (`hmesh.js`) lists its triangles and edges as index buffers. It builds its dual
graph, flattens the dual edges into a list of node ids, hands the list to the engine's `blossom`,
and reads the matched pairs back.

This project models those pieces in Dafny and proves what they compute:

- `Forests` models `forest<T>`: a parent-index array with the two lookup maps between nodes and
  indices. A ghost rank witnesses that the parent links are acyclic. `ParentChains` proves the
  general chain facts (root, distance, chain, re-pointing a link).
- `Graphs` models `graph<T>`: a symmetric adjacency map plus a node set. `Adjacency` holds the
  specification functions on adjacency maps: `Adjacent`, the unordered edge set `UEdges`, and
  `InsertEdge`, `EraseEdge` and `DropNode`.
- The blossom engine is split into five modules:
  - `Contraction`: `contracted`;
  - `Alternating`: `findAlternatingPath`, `liftPath` and the path-edge loop;
  - `BlossomCycle`: the cycle cut of the blossom step, both as written and corrected;
  - `Search`: `augmentingPath` with its alternating forest;
  - `Driver`: `augmentMatching` and the `blossom` entry point.
- `Matchings` proves Berge's augmentation step: flipping an augmenting path gives a matching with
  one edge more.
- The JavaScript prototype is modelled by `UnionFinds` (the `UnionFind` class), `Bfs` (`bfs`)
  and `BlossomJs` (`differenceEdges`, `augmentMatching` and the recursive `blossom`).
- `HalfEdgeMesh` models the index bookkeeping of `hmesh.js`: `getTriangleIndices`,
  `getEdgeIndices` with `getVertices`, `getDualGraph` and `getDualMatching`.

Failures are modelled as results, not left out:

- A failed C++ `assert` or a read past the end of a vector is a `Faults.Fault` naming the line.
- A thrown `std::out_of_range` from `at()` is `None`.
- A JavaScript exception is an error value naming its line.

## Model

| member | source | states |
|---|---|---|
| Forests.Forest.constructor | wasm/forest.h:40 | the empty forest: no indices, both lookups empty, acyclic and bijective |
| Forests.Forest.FromSeq | wasm/forest.h:43-53 | index k names the k-th item and is its own parent; a repeated item keeps its first index; every item is its own root at distance 0; distinct items make the lookups inverse |
| Forests.Forest.BuildLookups | wasm/forest.h:43-53 | the loop of the range constructor: identity parents, `reverseLookup` covers exactly the indices, `lookup` maps each item to its first index |
| Forests.Forest.RootInternal | wasm/forest.h:15-23 | the returned index is the root of the chain of parent links from `node` |
| Forests.Forest.InternalOrCreate | wasm/forest.h:25-37 | the node is registered afterwards and its index is returned; a known node changes nothing; an unknown one becomes a fresh self-parented index; acyclicity, bijectivity and every old chain are kept |
| Forests.Forest.Root | wasm/forest.h:55-58 | the root node of `start`'s tree, or `None` (out_of_range) for an unknown node |
| Forests.Forest.Distance | wasm/forest.h:60-71 | the number of parent links from `start` to its root, or `None` for an unknown node |
| Forests.Forest.Path | wasm/forest.h:73-84 | the nodes from `start` up to its root, or `None` for an unknown node |
| Forests.Forest.PathShape | wasm/forest.h:60-84 | a path starts at the node, ends at its root, has `distance + 1` nodes, and with inverse lookups climbs one parent link per step |
| Forests.Forest.PathSuffix | wasm/forest.h:73-84 | the path from `x` continues from its k-th node exactly as that node's own path |
| Forests.Forest.PathMembers | wasm/forest.h:73-84 | a path visits each node once; a node lies on it exactly when its index lies on the index chain |
| Forests.Forest.PathRoots | wasm/forest.h:55-84 | every node on a path is known and has the same root |
| Forests.Forest.RootIsOwnParent | wasm/forest.h:15-23 | the root of a tree is its own parent |
| Forests.Forest.SameTreeByIndex | wasm/forest.h:91-94 | two nodes have the same root node exactly when their root indices are equal |
| Forests.Forest.Has | wasm/forest.h:86-89 | `has` is membership in `lookup` |
| Forests.Forest.SameTree | wasm/forest.h:91-94 | whether both roots agree, `None` when either node is unknown; reflexive on known nodes |
| Forests.Forest.AddNode | wasm/forest.h:96-105 | registers an unknown node as a fresh root at depth 0 and keeps every other node's parent; a known node changes nothing |
| Forests.Forest.SetEdge | wasm/forest.h:107-115 | both nodes are registered, only `child`'s parent changes (to `parent`, unless they are equal), all old indices and lookups are kept, and the forest stays acyclic when `child` is not on `parent`'s path |
| Forests.Forest.Register | wasm/forest.h:109-110 | the two `internalOrCreate` calls: both nodes are registered with equal indices only for equal nodes; the old chains are untouched |
| Forests.Forest.Relink | wasm/forest.h:111-114 | `parents[childIdx] = parentIdx` and nothing else; acyclic when `childIdx` is off `parentIdx`'s chain |
| Graphs.Graph.constructor | wasm/graph.h:52 | the empty graph |
| Graphs.Graph.FromPairs | wasm/graph.h:100-106 | one `add_edge` per listed pair: the edges are the listed pairs, the nodes their ends |
| Graphs.Graph.Copy | wasm/graph.h:55-56 | the copy has the same adjacency and node set |
| Graphs.Graph.Assign | wasm/graph.h:58-67 | after assignment both fields equal the other graph's, also under self-assignment |
| Graphs.Graph.AddEdge | wasm/graph.h:80-87 | the two ends become adjacent both ways and are registered; the result says whether the edge was new |
| Graphs.Graph.AddEdgesFrom | wasm/graph.h:89-98 | the edge set grows by the other graph's edges, the count is the number of new ones, and only the nodes with edges are added |
| Graphs.Graph.RemoveEdge | wasm/graph.h:118-131 | the two ends are no longer adjacent, nodes stay, and the result says whether the edge was there |
| Graphs.Graph.RemoveEdgesFrom | wasm/graph.h:133-142 | the other graph's edges are removed and the count is the number that were present |
| Graphs.Graph.AddNode | wasm/graph.h:144-147 | registers a node, possibly isolated; the adjacency is unchanged |
| Graphs.Graph.RemoveNode | wasm/graph.h:149-163 | for a node of the graph: the node, its entry and every edge touching it are gone; otherwise nothing changes |
| Graphs.Graph.ForgetNode | wasm/graph.h:153-158 | the two loops of `remove_node` compute `DropNode` |
| Graphs.Graph.HasNode | wasm/graph.h:165-168 | membership in the node set |
| Graphs.Graph.Empty | wasm/graph.h:170-173 | true exactly when there are no nodes |
| Graphs.Graph.Edgeless | wasm/graph.h:175-186 | true exactly when the graph has no edge |
| Graphs.Graph.HasEdge | wasm/graph.h:188-192 | adjacency, in both directions, equals membership of the unordered pair in the edge set |
| Graphs.Graph.Nodes | wasm/graph.h:194-197 | the node set |
| Graphs.Graph.Edges | wasm/graph.h:199-211 | each unordered edge appears exactly once, in one orientation |
| Graphs.Graph.EmplaceRow | wasm/graph.h:203-208 | one row of `edges`: every neighbour is covered in some orientation, and no edge appears twice |
| Graphs.Graph.EdgesOfNode | wasm/graph.h:213-225 | the neighbours of `v`, empty when `v` has no entry |
| Graphs.Graph.Clear | wasm/graph.h:227-231 | no nodes and no adjacency afterwards |
| Graphs.Graph.NumNodes | wasm/graph.h:233-236 | the size of the node set |
| Graphs.Graph.NumEdges | wasm/graph.h:238-248 | half the sum of the row sizes; for a graph without self-loops, the number of edges |
| Adjacency.AdjacentIffEdge | wasm/graph.h:188-192 | in a symmetric adjacency, adjacency is membership of the unordered pair |
| Adjacency.EdgeCount | wasm/graph.h:238-248 | without self-loops the row sizes add up to twice the number of edges |
| Adjacency.InsertEdgeEdges | wasm/graph.h:80-87 | inserting an edge adds exactly its unordered pair |
| Adjacency.EraseEdgeEdges | wasm/graph.h:118-131 | erasing an edge removes exactly its unordered pair |
| Adjacency.DropNodeEdges | wasm/graph.h:149-163 | dropping a node removes exactly the edges that touch it |
| Adjacency.EdgesOrientation | wasm/graph.h:199-211 | an edge list with exactly the unordered edges of the adjacency holds only adjacent pairs and one orientation of every adjacent pair |
| Contraction.Contracted | wasm/blossom.cpp:33-58 | the result keeps the edges between nodes outside the blossom, joins `contractNode` to exactly the outside neighbours of the blossom, and drops the blossom's nodes |
| Contraction.DropBlossom | wasm/blossom.cpp:38-50 | the first loop: collects the outside neighbours and removes every blossom node with its edges |
| Contraction.CollectOutside | wasm/blossom.cpp:42-46 | the neighbours outside the blossom are added to `needConnection` |
| Contraction.Connect | wasm/blossom.cpp:52-55 | the contracted node is joined to every collected node and to nothing else |
| Contraction.ContractionSubgraph | wasm/blossom.cpp:33-58 | contracting a sub-graph (the matching) and the graph at the same blossom keeps it a sub-graph |
| Alternating.AddPathEdges | wasm/blossom.cpp:209-212 | the loop over consecutive entries adds exactly the links of the node sequence |
| Alternating.Extend | wasm/blossom.cpp:113-121 | appends `entry + [x]` exactly for the neighbours `x` of the last node that the entry does not contain |
| Alternating.SearchArc | wasm/blossom.cpp:101-125 | a returned entry is a simple walk with an odd number of nodes from `v` to `w` inside the blossom; none is returned only when no such walk exists |
| Alternating.PopStep | wasm/blossom.cpp:103-122 | one turn of the queue loop keeps every wanted path covered by a queued prefix and lowers a weight bound, so the search terminates |
| Alternating.LastUnmatched | wasm/blossom.cpp:67-74 | a blossom node outside the matching, if there is one |
| Alternating.OnlyMate | wasm/blossom.cpp:78-86 | `firstIsV` stays true exactly when every matched neighbour of `u` is `x` |
| Alternating.FindAlternatingPath | wasm/blossom.cpp:60-127 | empty `pathEnds` reads out of range; with one stem the assertion at 100 fails exactly when every blossom node is matched; otherwise the result is an even simple walk in the blossom between the chosen ends, and line 125 fails only when none exists |
| Alternating.Lifted | wasm/blossom.cpp:133-152 | the edges and nodes left by adding the stems, removing the contracted node and splicing in the arc, and that every adjacency left is an old one away from the contracted node, a graph edge or a blossom edge |
| Alternating.FirstInBlossom | wasm/blossom.cpp:136-144 | a `graph` neighbour of `n` in the blossom, or none when no neighbour is in it |
| Alternating.AttachEnds | wasm/blossom.cpp:133-145 | each recorded stem joins a distinct path neighbour of the contracted node to a blossom node adjacent to it in the graph; every neighbour without a stem has no blossom node among its graph neighbours; the path gains exactly the stem edges and their end nodes |
| Alternating.LiftPath | wasm/blossom.cpp:129-154 | a path without the contracted node is unchanged; otherwise the new edges are exactly the old edges and the recorded stems minus every edge touching the contracted node, plus the edges of an even arc of the blossom; the new nodes likewise; every new adjacency is a graph or blossom edge; the only failures are those of `findAlternatingPath` |
| Search.AugmentingPath | wasm/blossom.cpp:156-279 | a found path is a well-formed sub-graph of the graph; an error is a failed assertion, an undefined read or the cycle deviation; line 194 fails only for a matched node without a partner, and line 259 only for a self-loop of the graph |
| Search.Seed | wasm/blossom.cpp:161-179 | the unmatched nodes with an edge become single-node trees and are queued; every edge outside the matching is marked unused |
| Search.Plant | wasm/blossom.cpp:165-172 | an unmatched endpoint becomes its own tree and is queued |
| Search.MarkUnused | wasm/blossom.cpp:173-176 | an edge outside the matching is marked unused in both directions |
| Search.Seeded | wasm/blossom.cpp:161-179 | after all edges, the unused edges are the graph's edges outside the matching and the trees are the unmatched nodes with an edge |
| Search.Visit | wasm/blossom.cpp:183-277 | only a forest node at even distance is grown from; the search state is kept and the set of unplanted graph nodes only shrinks |
| Search.Grow | wasm/blossom.cpp:186-274 | the inner loop keeps the search state and only grows the forest, or stops with an outcome as above |
| Search.GrowEdge | wasm/blossom.cpp:187-273 | one unused edge: it is marked used, then `w` joins the forest with its mate or the edge closes a path or a blossom |
| Search.MarkUsed | wasm/blossom.cpp:189 | the edge `v`-`w` leaves the unused set and no edge is added |
| Search.Extend | wasm/blossom.cpp:191-199 | a neighbour outside the forest is matched (otherwise line 194 fails); it hangs below `v` with its mate below it |
| Search.AttachChild | wasm/blossom.cpp:196 | `w` hangs below `v`; its path is `w` followed by `v`'s path |
| Search.AttachMate | wasm/blossom.cpp:197 | hanging the mate closes a cycle exactly when the mate is on `w`'s path; otherwise the forest stays grown |
| Search.Close | wasm/blossom.cpp:200-276 | at even `w`, two trees give a path and one tree a blossom; an odd `w` is passed over |
| Search.FreshNode | wasm/blossom.cpp:260-264 | the first id from `num_nodes()` on that neither graph uses |
| Search.Join | wasm/blossom.cpp:202-216 | the path is `v`'s path reversed followed by `w`'s path: a simple walk in the graph between two unmatched roots with an odd number of edges, so line 214 holds |
| Search.JoinWalk | wasm/blossom.cpp:202-216 | the joined sequence is a simple walk of `2(hv + hw) + 2` nodes between the two roots |
| Search.Reversed | wasm/blossom.cpp:205 | `std::reverse`: element k is element `n - 1 - k` of the input |
| Search.ReversedWalk | wasm/blossom.cpp:205 | reversing keeps a walk a simple walk over the same nodes |
| Search.LinkGraph | wasm/blossom.cpp:209-212 | the links of a simple walk form a sub-graph with one edge fewer than the walk has nodes |
| Search.BlossomStep | wasm/blossom.cpp:218-271 | the blossom step ends with an outcome as for `augmentingPath` |
| Search.MakeBlossom | wasm/blossom.cpp:230-259 | the blossom is the edge `v`-`w` plus both tree paths cut at their lowest common node; it lies inside the graph, and its edge count is odd exactly when `v` and `w` differ |
| Search.BlossomShape | wasm/blossom.cpp:230-259 | the built blossom has exactly the cycle's edges, lies inside the graph, and has an odd count exactly for distinct ends |
| Search.SelfLoopCount | wasm/blossom.cpp:259 | a self-loop counts one adjacency, so `num_edges` is 0 and the assertion at 259 fails |
| Search.ContractAndLift | wasm/blossom.cpp:260-270 | contraction, recursion on the smaller graph and lifting end with an outcome as for `augmentingPath` |
| Search.Lift | wasm/blossom.cpp:268-270 | the contracted node never survives the lift, so line 270 holds and the lifted path lies inside the graph |
| Search.CarryErrors | wasm/blossom.cpp:268 | the failures of the recursive search at 194 and 259 are explained by the original graph and matching |
| Search.Shrinks | wasm/blossom.cpp:266-268 | contracting a blossom of two or more nodes leaves fewer nodes, so the recursion terminates |
| Search.Isolated | wasm/blossom.cpp:266-267 | a node of the contracted matching without a partner had none before |
| Search.TreeWalk | wasm/blossom.cpp:202-216 | a tree path is a simple walk in the graph from the node to its root, of `distance + 1` nodes |
| BlossomCycle.StdRemove | wasm/blossom.cpp:241-247 | libc++ `std::remove` without `erase`: the kept elements move to the front in order, and the tail keeps its old values |
| BlossomCycle.FindFirst | wasm/blossom.cpp:241-247 | `std::find`: the first position of `x`, or the length |
| BlossomCycle.Compact | wasm/blossom.cpp:241-247 | the copying loop of `std::remove` gives the same contents as `StdRemove` |
| BlossomCycle.KeepMembers | wasm/blossom.cpp:241-247 | `Keep` drops exactly the copies of `x` |
| BlossomCycle.RemoveCommon | wasm/blossom.cpp:241-247 | both paths lose each node of the set in turn, in place, in the set's visiting order |
| BlossomCycle.SortSeq | wasm/blossom.cpp:222-225 | `std::sort`: the same elements with the same multiplicities, in ascending order |
| BlossomCycle.InsertAscending | wasm/blossom.cpp:222-225 | inserting into an ascending sequence keeps it ascending |
| BlossomCycle.SetIntersection | wasm/blossom.cpp:226-229 | `std::set_intersection` of ascending ranges: ascending, and holding exactly the elements common to both |
| BlossomCycle.CommonStrict | wasm/blossom.cpp:222-229 | for paths that repeat no node, the intersection lists each common node once |
| BlossomCycle.MinCommon | wasm/blossom.cpp:230-240 | the node of least tree distance in the intersection, 0 when it is empty |
| BlossomCycle.AsWrittenArcs | wasm/blossom.cpp:222-247 | the steps as written: the intersection is ascending and holds exactly the nodes on both paths (each once when the paths repeat none); every common node but the kept one is removed from both paths in place |
| BlossomCycle.RemoveOthers | wasm/blossom.cpp:230-247 | for a given intersection, the node of least depth is kept and every other one is removed from both paths, each once |
| BlossomCycle.ExampleCommon | wasm/blossom.cpp:222-229 | the intersection of the example paths `[4, 3, 2, 1, 0]` and `[6, 5, 2, 1, 0]` is `[0, 1, 2]` |
| BlossomCycle.AsWrittenArcsStray | wasm/blossom.cpp:222-257 | on the tree 0-1-2 with branches 3-4 and 5-6, the code keeps the root and leaves the paths `[4, 3, 0, 0, 0]` and `[6, 5, 0, 0, 0]`, whose link 3-0 is not a tree edge |
| BlossomCycle.ExampleOrders | wasm/blossom.cpp:230-247 | in that example the removal order is 1 then 2, or 2 then 1 |
| BlossomCycle.CommonArcs | wasm/blossom.cpp:222-257 | the corrected cut: each path up to the first node of `pathV` on `pathW`, both ending there |
| BlossomCycle.ArcsMeetOnce | wasm/blossom.cpp:222-257 | the cut arcs are simple, share only their last node, and cut off equally long tails |
| BlossomCycle.CycleOdd | wasm/blossom.cpp:249-259 | with different first nodes, the blossom's edges are `2h - 1` distinct two-node edges, an odd cycle |
| Matchings.PathEdgesSize | wasm/blossom.cpp:209-212 | a simple path of n nodes has n - 1 edges |
| Matchings.AugmentGrows | wasm/blossom.cpp:281-290 | flipping an augmenting path gives a matching with exactly one more edge |
| Matchings.FlipIsMatching | wasm/blossom.cpp:281-290 | the symmetric difference with an augmenting path is a matching |
| Matchings.FlipSize | wasm/blossom.cpp:281-290 | the flip removes `n/2 - 1` edges and adds `n/2` |
| Matchings.FlipSplit | wasm/blossom.cpp:281-290 | the flip adds the even links of the path and removes the odd (matched) ones |
| Driver.AugmentMatching | wasm/blossom.cpp:281-290 | the matching's edges become the symmetric difference with the path's edges, and its nodes are the ends of those edges |
| Driver.Without | wasm/blossom.cpp:283-286 | a copy with the other graph's edges removed |
| Driver.Rebuild | wasm/blossom.cpp:287-289 | clear, then refill: the edges become the union and the nodes their ends |
| Driver.SymDiffOf | wasm/blossom.cpp:283-289 | the two differences together are the symmetric difference |
| Driver.AugmentInside | wasm/blossom.cpp:306-312 | augmenting a sub-graph by a sub-graph keeps it inside the graph |
| Driver.ReadEdges | wasm/blossom.cpp:300-304 | entries `2k` and `2k + 1` become one edge each; the nodes are the listed ids |
| Driver.WriteEdges | wasm/blossom.cpp:314-319 | the output lists each edge of the matching once, as two consecutive entries |
| Driver.Written | wasm/blossom.cpp:314-319 | writing every edge of a twin-free edge set names each pair exactly once |
| Driver.Blossom | wasm/blossom.cpp:293-322 | an odd-length input fails at 299 and only then; the output has even length and lists input pairs, each once; line 194 never fails; a failure at 259 points to an input pair that names one node twice |
| Driver.SelfLoopPair | wasm/blossom.cpp:300-304 | a self-loop of the read graph comes from an input pair with one node twice |
| UnionFinds.UnionFind.constructor | blossom.js:4-6 | every index is its own parent, its own root and at distance 0 |
| UnionFinds.UnionFind.Root | blossom.js:8-14 | the root of `start`: a self-parented index at the end of its chain |
| UnionFinds.UnionFind.GetPath | blossom.js:16-25 | the chain from `start` to its root: starts at `start`, ends at the root, has `distance + 1` entries, and each next entry is the parent of the one before |
| UnionFinds.UnionFind.Distance | blossom.js:27-36 | the number of parent links from `start` to its root |
| UnionFinds.UnionFind.GetSetLabel | blossom.js:38-40 | the set label is the root |
| UnionFinds.UnionFind.Find | blossom.js:42-44 | true exactly when the two roots agree, so reflexive and symmetric |
| UnionFinds.UnionFind.Union | blossom.js:46-51 | nothing changes when the roots agree; otherwise only `parents[node2]` changes, to `node1`; both then share `node1`'s old root; indices whose chain passed through `node2` take that root; all others keep theirs |
| UnionFinds.AttachRoot | blossom.js:46-51 | after re-pointing `b` to `a`, an index takes `a`'s root exactly when its chain passed through `b` |
| Bfs.Search | blossom.js:54-72 | `undefined` exactly when `end` is unreachable; otherwise the entry for `end`, whose parent links spell a walk from `start` of `dist` links; a TypeError at 62 happens only when a reachable node is missing from the graph |
| Bfs.TrailWalk | blossom.js:54-72 | a queued entry's trail is a walk from `start` to its node with `dist + 1` nodes, and `dist` counts the parent links |
| Bfs.ClosedUnreachable | blossom.js:57-71 | a set that holds `start` but not `end` and is closed under neighbours cuts `end` off from `start` |
| Bfs.ScanStep | blossom.js:62-67 | one neighbour more: skipped when visited, otherwise visited and queued with distance one more |
| BlossomJs.DifferenceEdges | blossom.js:74-90 | the edge objects of the first list, in order, that no object of the second matches in both `v` and `w` |
| BlossomJs.DifferenceMembers | blossom.js:74-90 | an object is kept exactly when it is in the first list and not in the second |
| BlossomJs.DifferenceAppend | blossom.js:74-90 | the difference distributes over concatenation, so the order of the first list is kept |
| BlossomJs.DifferenceOriented | blossom.js:79 | the match is orientation-sensitive: `{1, 2}` is not removed by `{2, 1}` |
| BlossomJs.AugmentMatching | blossom.js:339-349 | toggles each path edge in turn on a copy (the argument is unchanged); for a path without repeated pairs, the result's edges are the symmetric difference |
| BlossomJs.ToggledFlips | blossom.js:339-349 | toggling a list without repeated pairs yields the symmetric difference, and the new nodes are the ends of the added edges |
| BlossomJs.Blossom | blossom.js:351-357 | the recursion augments by each non-empty path until `augmentingPath` returns an empty graph, then returns the matching reached |
| BlossomJs.FirstEmpty | blossom.js:351-357 | the first round with an empty path graph: all rounds before it are non-empty |
| BlossomJs.DriverGrows | blossom.js:351-357 | when every round returns an augmenting path, the result is a matching with one edge more per round |
| HalfEdgeMesh.ToUint32 | hmesh.js:296 | a `Uint32Array` entry is below 2^32 and keeps any id below 2^32 |
| HalfEdgeMesh.CountTris | hmesh.js:287-295 | the first loop sums `|face| - 2` over the faces |
| HalfEdgeMesh.NumTrisBound | hmesh.js:287-295 | that sum never exceeds the true fan count, and equals it when every face has two or more vertices |
| HalfEdgeMesh.GetTriangleIndices | hmesh.js:286-311 | a RangeError at 296 exactly when the sum is negative; otherwise `3 * NumTris` entries, each the (uint32) id of the fan triangulation at that position, the whole fan when every face has two or more vertices |
| HalfEdgeMesh.FanOfFace | hmesh.js:300-309 | triangle t of face i sits after the triangles of the earlier faces and is `(v0, v(t+1), v(t+2))` |
| HalfEdgeMesh.FillFan | hmesh.js:302-307 | the inner loop stores one face's fan from triangle `i0` on; stores past the end are dropped |
| HalfEdgeMesh.GetVertices | hmesh.js:27-35 | the head and the previous head when both exist, else nothing |
| HalfEdgeMesh.EdgeIds | hmesh.js:316-325 | two ids per complete half-edge, none otherwise |
| HalfEdgeMesh.EdgeIdsAt | hmesh.js:316-325 | the ids of edge i are its head and previous head, right after the ids of the complete edges before it |
| HalfEdgeMesh.GetEdgeIndices | hmesh.js:316-325 | the pushed ids, converted to uint32 |
| HalfEdgeMesh.MakeNodes | hmesh.js:621-628 | node i has index i |
| HalfEdgeMesh.LinkFace | hmesh.js:632-647 | the loop for face i adds the edge `(i, j)` and both neighbour entries for each attached face whose key is new; it fails exactly when some attached face is null |
| HalfEdgeMesh.PairStep | hmesh.js:636-645 | one attached face: a new key adds its edge and two neighbour entries, a known key changes nothing |
| HalfEdgeMesh.GetDualGraph | hmesh.js:620-649 | fails (TypeError at 636) exactly when some half-edge has no face on its other side; otherwise node i has index i, there is one edge per unordered pair of adjacent faces, every edge joins adjacent faces, and `v` neighbours `u` exactly when an edge joins them, so neighbour lists are symmetric |
| HalfEdgeMesh.FlattenEdges | hmesh.js:657-660 | the two node indices of each dual edge, in order |
| HalfEdgeMesh.FlatAt | hmesh.js:657-660 | entries `2a` and `2a + 1` of the flat list are the ends of edge a |
| HalfEdgeMesh.DecodePairs | hmesh.js:663-670 | the assertion at 664 fails exactly on odd length; otherwise entries `2i` and `2i + 1` become edge i |
| HalfEdgeMesh.DecodeFlat | hmesh.js:657-670 | reading back the flat list of a graph's own edges gives those edges |
| HalfEdgeMesh.GetDualMatching | hmesh.js:654-678 | the assertion at 664 never fails; a TypeError means a face has an open side; each returned edge joins two adjacent faces of the mesh, and no two returned edges are the same pair |
| HalfEdgeMesh.MatchedPair | hmesh.js:666-670 | each output pair of the engine decodes to two adjacent faces |

## Left out

- Memory management, move semantics and the Emscripten glue (`convertJSArrayToNumberVector`, `vectorFromJSArray`, the bindings at wasm/blossom.cpp:326-330): the engine is given plain sequences of ids.
- `edge_hash` and the iteration order of `std::unordered_set`/`unordered_map`: sets are `set`s, and a loop over one visits its elements in an unspecified order.
- The initializer-list `operator=` of `graph<T>` (wasm/graph.h:108-116) has no `return` statement, which C++ leaves undefined; it is not modelled. The initializer-list constructor is modelled.
- The free `operator==` of `graph<T>` is not modelled; the model compares graphs by their two fields.
- Node ids are modelled as unbounded naturals. The engine's ids and its `contractNode` counter are `node_t = std::uint32_t` (wasm/blossom.cpp:29), so a wrap-around at 2^32 is not modelled. `hmesh.js` ids are wrapped by `ToUint32` where a `Uint32Array` stores them.
- Search.AugmentingPath: requires the matching to be a sub-graph of the graph. Every call from the driver and from the recursion meets this requirement; a caller passing another matching is not modelled.
- Search.AugmentingPath: does not state that a found path is augmenting (alternating, odd, with unmatched ends) after lifting through a blossom. Only that it is a sub-graph of the graph is proved. The joined path of two trees is proved augmenting-shaped before lifting (`Search.Join`).
- Search.AttachMate: `set_edge` at wasm/blossom.cpp:197 could close a cycle of parent links when the mate lies on `w`'s path, which a real matching rules out. The source then goes on with a cyclic forest: it may still return a path found later between two other trees (lines 180-215), and otherwise loops in the first `root`, `distance` or `path` query that reaches the cycle (wasm/forest.h:15-23, 60-84), such as `same_tree` at line 201 or `distance` when the mate is popped at line 184. The model stops with `ForestCycle` at once, so on such inputs it gives an error where the source might still return a path.
- Search.MakeBlossom: uses the corrected cut (`BlossomCycle.CommonArcs`) in place of the `std::sort`, `std::set_intersection` and `std::remove` sequence of wasm/blossom.cpp:222-247. That sequence is modelled on its own as written, by `BlossomCycle.AsWrittenArcs` (see Findings).
- BlossomCycle.SortSeq: is an insertion sort on values. The in-place algorithm of `std::sort` is not modelled, only its result, which every correct sort shares.
- Alternating.LiftPath: does not state which stems the ends of the spliced arc come from; `Alternating.FindAlternatingPath` states that choice.
- Alternating.LiftPath: does not prove that its failures (lines 79, 100, 125) cannot happen on a genuine blossom; they stay possible outcomes.
- Driver.Blossom: the loop of wasm/blossom.cpp:306-312 runs for at most `fuel` augmentations and otherwise stops with `OutOfFuel`, because termination would need the lifted path to be augmenting.
- Driver.Blossom: returns a fresh sequence. Outside the Emscripten build the source takes `const std::vector<node_t>& edgeNums` and then clears and refills it (wasm/blossom.cpp:297, 314-319), which does not compile as written; the Emscripten build refills a local copy, which is what the model returns.
- Driver.Blossom: does not state that the result is a matching, let alone a maximum matching. It states that the output names input pairs, each once.
- The JavaScript `contractBlossom`, `liftPath` and `augmentingPath` (blossom.js:92-337) are not part of this model. Their results enter `BlossomJs.Blossom` as the list `rounds`, one entry per call.
- BlossomJs.Blossom: the recursion ends through the list of rounds, not through a termination proof.
- BlossomJs.AugmentMatching: the JSON round trip is modelled as value semantics. graphlib's edge labels are not modelled.
- The demo builders of blossom.js (`makeThing`, `makeTrianglesAndSquares`, `makePentagonAndLine`) and their console output are not modelled.
- UnionFinds.UnionFind: the methods require indices below `N`. An index outside that range reads `undefined` in JavaScript and is not modelled.
- Bfs.Search: does not state that the returned entry has the shortest distance; it states only that its distance is the length of its parent chain.
- The geometry of `hmesh.js` is not modelled: centroids, normals, floating-point coordinates, `loadFileFromLines`, subdivision and rendering. `getHamiltonianCycle` and halfedgecanvas.js are not part of this model either.
- HalfEdgeMesh: the mesh traversal of `HMeshFace.getVertices` and `getAdjacentFaces` (hmesh.js:77-88, 152-159) is given as its results. Faces are lists of vertex ids and adjacency is a list of optional face indices.
- HalfEdgeMesh.GetDualGraph: requires every attached face to be a face of the mesh, as the half-edge structure guarantees.
- HalfEdgeMesh.GetDualMatching: does not state that the result is a matching, for the same reason as `Driver.Blossom`.
- HalfEdgeMesh.GetDualMatching: the `assert` called at hmesh.js:664 is defined in none of the files modelled here, and browsers have no global `assert`; the model takes it to be a working assertion defined by a script that is not part of this model. Without one, line 664 throws a ReferenceError on every call.

## Findings

| source | as written | input that shows it | evidently intended | confidence | as-written member | corrected member |
|---|---|---|---|---|---|---|
| wasm/blossom.cpp:230-247 | The blossom keeps the common node of least `distance` (the tree root, not the lowest common ancestor). It then calls `std::remove` on both paths for all other common nodes, without `erase`. | Tree 0-1-2 with branches 2-3-4 and 2-5-6 and an unused edge 4-6. The paths `[4, 3, 2, 1, 0]` and `[6, 5, 2, 1, 0]` become `[4, 3, 0, 0, 0]` and `[6, 5, 0, 0, 0]`. The blossom then gets the edge 3-0, which is not a graph edge, and a self-loop at 0. | Cut both paths just after their lowest common ancestor (node 2), giving the odd cycle 4-3-2-5-6-4 | not executed | BlossomCycle.AsWrittenArcsStray | BlossomCycle.CycleOdd |
