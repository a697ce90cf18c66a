# Graph store and minimum-spanning-tree engines, in Dafny

This project models the `Graph` class of the MST-finding tool
(`models/Graph.js`): the store of nodes and edges with its id counters and its
renumbering, the weight matrix and the connectivity test, the instrumented
insertion sort that every engine uses, the union-find forest (`findParent`
with path compression, `unionSet` with union by rank), and the three
minimum-spanning-tree engines (Prim, Kruskal, Borůvka) with their step counter
`iterations`.

The class is imperative, and so is the model: `GraphStore.Graph` is a Dafny
`class` whose fields are the store's fields (`nodesArr`, `edgesArr`,
`nodeCount`, `edgeCount`, `iterations`, `mstEdges`); the sort works in place on
an `array`; `findParent` and `unionSet` write `parent`/`rank` arrays; the
engines loop over their queues and forests. Each method is proved against
specification functions and predicates on values:

- `Sorting.SortSpec`/`SortSteps`: the result and step count of the stable
  insertion sort, with lemmas that the result is a sorted, stable permutation
  and that the count is inversions plus `n - 1`.
- `UnionFind.Root`/`Compress`/`Unioned`: the representative of a node, the
  array after a compressing find, and what a union leaves behind.
- `Connectivity.Linked`/`Connected`/`Acyclic`/`SpanningForest`: reachability
  as membership in every edge-closed set, connectedness from node 0, forests,
  and spanning forests (acyclic, made of graph edges, linking the endpoints of
  every graph edge).
- `GraphSpec.StoreValid`: the invariant the mutators keep — node ids are
  positions, `nodeCount` is their number, edges join existing nodes, edge ids
  are distinct and below `edgeCount`, no pair of nodes is joined twice.

Files: `wrappers.dfy` (Option), `entities.dfy` (Node, Edge), `sorting.dfy`,
`unionfind.dfy`, `connectivity.dfy` (modules `Connectivity` and `Forest`, the
union-find view of a spanning forest), `graphspec.dfy` (store predicates,
renumbering, matrix), `growth.dfy` (Prim's growing tree), `graph.dfy` (the
class).

`addEdge(a, a, w)` only raises an alert (models/Graph.js:57-59) and then
creates the self-loop if nothing else refuses it; the model does the same
(`AddEdge`'s contract does not mention `a == b`). The weight range check
`[-1000, 1000]` lives only in the UI prompt loop, so `AddEdge` refuses only a
missing (NaN/null) weight.

## Model

| member | source | states |
|---|---|---|
| GraphStore.Graph.constructor | models/Graph.js:6-14 | the store starts with no nodes, no edges, both counters at 0 and a zero step count, and is valid |
| GraphStore.Graph.AddNode | models/Graph.js:15-25 | the new node has id `nodeCount` and the given coordinates, is appended, and `nodeCount` grows by one; a valid store stays valid and the new id is the node's position |
| GraphStore.Graph.FindNodeById | models/Graph.js:109-111 | nothing is found exactly when no node has the id; otherwise the first node with that id; on a renumbered store it is `nodesArr[id]` when `id` is in range and nothing otherwise |
| GraphStore.Graph.FindEdge | models/Graph.js:66-69 | nothing is found exactly when no edge runs from `a` to `b`; otherwise the first stored edge from `a` to `b` |
| GraphStore.Graph.AddEdge | models/Graph.js:56-90 | an edge is created exactly when both endpoints exist, no edge joins the pair in either direction and a weight is given; it is `Edge(edgeCount, a, b, w)`, appended, and `edgeCount` grows by one; a refused call changes nothing; a valid store stays valid |
| GraphStore.Graph.ReassignNodeIds | models/Graph.js:38-54 | nodes become the stable sort by id with every id set to its position; every edge endpoint found among the old ids moves to that id's position; `nodeCount` is the length; the sort's steps are charged |
| GraphStore.Graph.RelabelAll | models/Graph.js:41-43 | every node's id becomes its index, nothing else changes |
| GraphStore.Graph.RemapAll | models/Graph.js:44-52 | every edge whose two endpoints are found in the old ids moves to their positions; an edge with an endpoint not found is left alone |
| GraphStore.Graph.RemoveNode | models/Graph.js:27-36 | the node and every edge touching it are dropped and the rest renumbered; on a valid store the `m` survivors keep their order with ids `0..m-1`, the sort moves nothing (`m-1` steps: `n-2` when the node existed, `n-1` when it did not), and the store stays valid |
| GraphStore.Graph.ReassignEdgeId | models/Graph.js:102-107 | every edge id becomes its position and `edgeCount` the number of edges |
| GraphStore.Graph.RemoveEdge | models/Graph.js:92-100 | the edges with that id are dropped, the rest renumbered to their positions, `edgeCount` is their number, and a valid store stays valid |
| GraphStore.Graph.ConvertToMatrix | models/Graph.js:333-341 | an `n`-by-`n` matrix, symmetric, 0 on every pair no edge joins, and on a store without parallel edges each edge's weight in both of its cells |
| GraphStore.Graph.IsGraphConnected | models/Graph.js:178-204 | true exactly when every node is reachable from node 0 over the edges, so false on the empty graph and true on a single node |
| GraphStore.Graph.Dfs | models/Graph.js:182-194 | the search visits the start node; everything it adds is reachable from it, and no edge leaves what it added |
| Connectivity.SweepVisit | models/Graph.js:196-201 | an unvisited node starts a new component after a finished search; when it is not the first one, that node is out of node 0's reach |
| Connectivity.SweepDone | models/Graph.js:203 | after the sweep, exactly one component means connected |
| Connectivity.SearchStep | models/Graph.js:189-193 | a finished search from an unvisited neighbour keeps the search of the current node on track |
| GraphSpec.SearchDone | models/Graph.js:185-193 | once every neighbour is visited, the search of a node is finished |
| GraphSpec.NeighborsMembers | models/Graph.js:185-187 | the neighbours listed are exactly the far ends of the edges at the node |
| GraphStore.Graph.InsertionSort | models/Graph.js:343-357 | the array ends as `SortSpec` of its old contents and `iterations` grows by `SortSteps` |
| GraphStore.Graph.InsertPass | models/Graph.js:345-354 | the current element moves left past exactly the cells with a greater key, each shifted one place right, one step per shift plus one |
| Sorting.SortSpecPermutes | models/Graph.js:343-357 | the sorted sequence is a permutation of the input |
| Sorting.SortSpecSorted | models/Graph.js:343-357 | the sorted sequence is non-decreasing by the key |
| Sorting.SortSpecStable | models/Graph.js:348 | elements with equal keys keep their relative order |
| Sorting.SortStepsCountInversions | models/Graph.js:348-354 | the steps charged are the number of inversions plus one per element after the first |
| Sorting.SortSpecOfSorted | models/Graph.js:343-357 | an already sorted input is left as it is, for `n - 1` steps |
| Sorting.SortSpecFirst | models/Graph.js:412-414 | the first element of the sorted queue has the least key, and it and the rest hold exactly the queue's elements |
| Sorting.InsertRightSorted | models/Graph.js:345-353 | inserting into a sorted prefix keeps it sorted |
| UnionFind.FindParent | models/Graph.js:359-364 | returns the root of the node, a fixpoint of `parent`, and points every node on the visited path directly at it |
| UnionFind.CompressKeepsRoots | models/Graph.js:363 | path compression keeps the forest well formed and changes no node's root and no set |
| UnionFind.UnionSet | models/Graph.js:366-380 | the sets of `u` and `v` are merged and no other set changes, one set fewer unless they were one; the lower-rank root goes under the higher, and on a tie the second root goes under the first, whose rank grows by one; equal roots change no set and no rank |
| UnionFind.Link | models/Graph.js:370-379 | the three rank branches on two different roots produce exactly that union |
| UnionFind.LinkUnioned | models/Graph.js:371-378 | hanging one root under another merges exactly those two sets and removes one root |
| UnionFind.SameMerges | models/Graph.js:370 | with equal roots the union leaves every set and every rank as they were |
| UnionFind.SingletonsInv | models/Graph.js:443-447 | the initial forest is well formed with `n` sets, each node its own root |
| Forest.TryLink | models/Graph.js:452-461 | an edge is accepted exactly when its endpoints' roots differ, which is exactly when the forest does not link them yet; it is appended, the forest stays acyclic and tracked by the union-find, and one set disappears per accepted edge |
| Forest.FindBoth | models/Graph.js:453-454 | the two finds return the endpoints' roots and change no set |
| Forest.LinkedSameRoot | models/Graph.js:453-457 | two nodes are linked by the accepted edges exactly when they have the same root |
| Forest.TracksUnion | models/Graph.js:457-460 | accepting a crossing edge and uniting its roots keeps the union-find an exact picture of the forest |
| Connectivity.AcyclicSnoc | models/Graph.js:457-458 | an edge whose endpoints are not yet linked keeps the forest acyclic |
| GraphStore.Graph.KruskalMST | models/Graph.js:435-465 | `iterations` restarts at 0; the stored edges end sorted by weight and the store stays valid; the result is a spanning forest listed by non-decreasing weight, with fewer than `n` edges, `n - 1` on a connected graph, where it connects the graph; steps are the sort's plus one per node, per edge and per accepted edge |
| GraphStore.Graph.SortEdges | models/Graph.js:437 | the stored edges become their stable sort by weight and the store stays valid |
| GraphStore.Graph.KruskalForest | models/Graph.js:438-464 | on the sorted edges, the accepted edges form a spanning forest of at most `n - 1` edges, `n - 1` and connecting on a connected graph |
| GraphStore.Graph.NewForest | models/Graph.js:440-447 | every node its own set, one step per node |
| GraphStore.Graph.KruskalScan | models/Graph.js:451-462 | the accepted edges form a spanning forest of the scanned edges, in weight order, one step per edge plus one per accepted edge |
| GraphStore.Graph.KruskalStep | models/Graph.js:451-460 | one edge of the scan: it is appended exactly when accepted, the scan stays on track with it as the new last edge, and the step count grows by one, or two when it is accepted |
| Forest.ScanEdge | models/Graph.js:452-459 | offering the next sorted edge to the union-find test keeps the scan's invariant one edge further, the forest growing by that edge exactly when it is accepted |
| Forest.ScanBegins | models/Graph.js:440-448 | fresh singleton sets and an empty forest put the scan on track before the first edge |
| Forest.ScanDone | models/Graph.js:450-463 | once every edge is scanned, the forest spans the edges, is sorted by weight and is tracked with one set fewer per edge |
| Forest.ScanAccept | models/Graph.js:457-460 | an accepted edge keeps the scan's invariant, including weight order |
| Forest.ScanRefuse | models/Graph.js:453-457 | a refused edge was already linked and keeps the scan's invariant |
| Forest.ForestSize | models/Graph.js:463-464 | a spanning forest tracked by the union-find has fewer than `n` edges, `n - 1` on a connected graph, and then connects it |
| Connectivity.SpanningConnects | models/Graph.js:463-464 | a spanning forest of a connected graph connects it |
| GraphStore.Graph.PrimMST | models/Graph.js:382-433 | with fewer than two edges nothing is returned, `iterations` is 0 and the last tree stays; otherwise, on the connected graph it requires, the result is a spanning tree of `n - 1` edges that connects the graph, stored in `mstEdges`, for at least two steps per tree edge |
| GraphStore.Graph.PrimGrow | models/Graph.js:409-429 | the grown tree spans the graph with `n - 1` edges and connects it |
| GraphStore.Graph.PrimStep | models/Graph.js:412-428 | one pop: either the edge lies inside the tree and is dropped, or it leaves the tree, is appended and its outer end joins the tree; the tree stays a tree from the start node and every leaving edge stays queued |
| GraphStore.Graph.PopMin | models/Graph.js:412-415 | the popped edge has the least matrix weight in the queue, the rest is the remainder of the sorted queue, and the sort's steps plus one are charged |
| GraphStore.Graph.AddEdges | models/Graph.js:396-407 | the edges at the node that do not already lie inside the tree are queued in store order, one step each |
| Growth.GrowthBegins | models/Graph.js:389-409 | the start node alone is a tree, and the edges queued at it cover every edge leaving it |
| Growth.GrowStep | models/Graph.js:424-427 | adding an edge that leaves the tree, with its outer end, keeps an acyclic tree in which the start reaches every node |
| Growth.FrontierGrow | models/Graph.js:424-428 | after the outer end joins and its edges are queued, every edge leaving the larger tree is queued |
| Growth.FrontierSkip | models/Graph.js:420-422 | dropping an edge inside the tree keeps every leaving edge queued |
| Growth.FrontierNonEmpty | models/Graph.js:411-414 | on a connected graph the queue is not empty while the tree misses a node |
| Growth.GrownSpans | models/Graph.js:411-432 | a tree from the start holding every node is a spanning tree of `n - 1` edges that connects the graph |
| Growth.UnfinishedMembers | models/Graph.js:400-404 | the queued edges are exactly the edges at the node not inside the tree |
| Connectivity.CrossingEdgeExists | models/Graph.js:411-414 | on a connected graph some edge leaves any set of nodes that holds one node and misses another |
| GraphStore.Graph.BoruvkaMST | models/Graph.js:467-519 | on the connected graph it requires (or at most one node), the result is a spanning forest with `n - 1` edges (none on the empty graph) that connects the graph, stored in `mstEdges`; counting from 0, at least one step per node and per accepted edge |
| GraphStore.Graph.BoruvkaRound | models/Graph.js:481-514 | a round keeps the forest acyclic and tracked, one set fewer per accepted edge, and merges at least two sets |
| GraphStore.Graph.CheapestEdges | models/Graph.js:482-498 | each root's slot ends holding the lightest crossing edge at that root, the first such in store order on a tie, as `Cheapest` says; no set changes |
| GraphStore.Graph.CheapestStep | models/Graph.js:484-498 | one edge of the scan: the slots become what `Cheapest` gives for one more edge of the store, and no set changes |
| GraphStore.Graph.OfferSlot | models/Graph.js:490-497 | a slot takes the edge only when it is empty or holds a strictly heavier edge |
| Forest.Offer | models/Graph.js:490-497 | the slot ends no heavier than the offered edge nor than before, and no other slot changes |
| Forest.CheapestCovers | models/Graph.js:484-498 | every crossing edge leaves both of its roots' slots filled with an edge no heavier |
| Forest.CheapestLeaves | models/Graph.js:484-498 | every filled slot holds a graph edge leaving that slot's set |
| Forest.CrossingSlot | models/Graph.js:481-498 | while a connected graph has more than one set, some slot holds a crossing edge |
| GraphStore.Graph.AcceptCheapest | models/Graph.js:500-513 | the slots are offered in order: the forest grows from its old edges only by edges held in the slots, stays acyclic and tracked with one set fewer per added edge, and at least one set disappears |
| GraphStore.Graph.AcceptSlot | models/Graph.js:501-512 | one slot: the forest becomes the old forest plus the slot's edge exactly when the slot holds an edge joining two different sets, and stays the same otherwise; while nothing has merged this pass, a refused edge did not cross at the start |
| Forest.CrossesSame | models/Graph.js:503-506 | compressing paths does not change whether an edge crosses |
| Forest.OneSetSpans | models/Graph.js:481-518 | when one set is left, the accepted edges form a spanning tree of `n - 1` edges that connects the graph |
| Forest.OneRootWhenSpanning | models/Graph.js:481 | on a connected graph, a forest whose sets no edge crosses has a single set |
| GraphSpec.RemoveNodeRenumbers | models/Graph.js:27-54 | after a removal the node ids are `0..n-2` when the node existed (`0..n-1` otherwise) and every survivor keeps its coordinates and order |
| GraphSpec.RemoveNodeRemapsEdges | models/Graph.js:28 | the edges kept are exactly those not touching the node, each endpoint above it moved down by one |
| GraphSpec.RemoveNodeKeepsValid | models/Graph.js:27-54 | removing a node keeps the store valid, edge ids included |
| GraphSpec.RemoveNodeSortsNothing | models/Graph.js:40 | the survivors are already sorted by id, so the sort keeps them and charges one step fewer than there are survivors |
| GraphSpec.RemoveNodeResult | models/Graph.js:27-30 | the outcome of the removal on a valid store, from the pieces above |
| GraphSpec.RemoveAbsentNode | models/Graph.js:27-54 | removing an id no node has changes no node and no edge |
| GraphSpec.RemoveEdgeKeepsValid | models/Graph.js:92-107 | removing an edge keeps the store valid with edge ids `0..m-1` |
| GraphSpec.RemoveAbsentEdge | models/Graph.js:92-107 | removing an id no edge has keeps every edge, and changes no id when ids are already positions |
| GraphSpec.AppendEdgeKeepsValid | models/Graph.js:81-83 | appending a new edge between existing, unjoined nodes with id `edgeCount` keeps the store valid |
| GraphSpec.SortedEdgesKeepValid | models/Graph.js:437 | sorting the edges in place keeps the store valid, ids still distinct |
| GraphSpec.PermutationPairwise | models/Graph.js:437 | a symmetric property of every pair survives any permutation |
| GraphSpec.IndexOfFirst | models/Graph.js:45-46 | `indexOf` gives -1 for an absent id and otherwise the first position holding it |
| GraphSpec.IndexOfSurvivors | models/Graph.js:45-51 | after a removal, an old id's new position is itself below the removed id and one less above it |
| GraphSpec.FilterMembers | models/Graph.js:28-29 | a filter keeps exactly the elements that pass |
| GraphSpec.FilterNumbered | models/Graph.js:29 | on numbered nodes, filtering out an id removes exactly the node at that position |
| GraphSpec.PairWeightSymmetric | models/Graph.js:337-338 | the matrix entry for `(i, j)` equals that for `(j, i)` |
| GraphSpec.PairWeightAbsent | models/Graph.js:334-335 | a pair no edge joins keeps its 0 |
| GraphSpec.PairWeightOfEdge | models/Graph.js:336-339 | without parallel edges, an edge's cell holds its weight |

## Left out

- Rendering (`renderGraph`, `renderMST`), `generateDivMatrixWeight`, `saveToFile`, the UI dispatch (`onNodeClick`, `onEdgeClick`, `chooseMSTAlgorithm`) with its `prompt` loops and `selectedNode`/`chosenTool` state, `script.js` and `utils.js`: DOM, timers, floating-point geometry and file I/O.
- The weight-matrix refresh blocks inside the mutators and every `alert`: modelled as no-ops; a refused `addEdge` returns `None`.
- The weight prompt's acceptance rule (integer in `[-1000, 1000]`): it lives in the UI loop, not in `addEdge`.
- Weights are integers and a NaN or null weight is `None`; coordinates are opaque integers.
- GraphStore.Graph.constructor: `mstEdges` starts as `[]`; the code leaves it undefined until an engine runs.
- Aliasing: the code renumbers node and edge objects in place, shared between the old and new arrays; the model treats nodes and edges as values and reassigns the sequences.
- Minimum weight: every engine is proved to return a spanning forest (a spanning tree on a connected graph), not that its total weight is the least possible.
- GraphStore.Graph.PrimMST: requires a start index in range and a connected graph when there are two or more edges, because the code throws on a missing start node or an empty queue; its step count is stated as a lower bound (`2` per tree edge), not exactly.
- GraphStore.Graph.PrimGrow: the step count is stated as a lower bound only.
- GraphStore.Graph.BoruvkaMST: requires a connected graph (or at most one node), because the code loops forever otherwise; its step count is stated as a lower bound only.
- GraphStore.Graph.BoruvkaRound: the step count is stated as a lower bound only.
- GraphStore.Graph.CheapestEdges: the step count is stated only as not decreasing.
- GraphStore.Graph.OfferSlot: the step count is stated only as not decreasing.
- GraphStore.Graph.CheapestStep: the step count is stated only as not decreasing.
- GraphStore.Graph.IsGraphConnected: requires node ids to be positions and edges to join existing nodes, which every mutator keeps.
- GraphStore.Graph.Dfs: the depth-first search is recursive as in the code; its `visited` set is passed in and out instead of being shared by closure.
