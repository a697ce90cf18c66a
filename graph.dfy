/** The graph store and its minimum-spanning-tree engines: one mutable object
    holding the node and edge lists, the two id counters, the step counter the
    engines report and the last spanning tree they built. */
module GraphStore {
  import opened Wrappers
  import opened Entities
  import opened Sorting
  import opened UnionFind
  import opened Connectivity
  import opened Forest
  import opened GraphSpec
  import opened Growth

  /** A fresh array holding `s`. */
  method ToArray<T>(s: seq<T>) returns (a: array<T>)
    ensures fresh(a) && a[..] == s
  {
    a := new T[|s|](i requires 0 <= i < |s| => s[i]);
  }

  class Graph {
    var nodesArr: seq<Node>
    var edgesArr: seq<Edge>
    var nodeCount: int
    var edgeCount: int
    /** Steps charged by the last sort or spanning-tree run. */
    var iterations: int
    /** The spanning tree (or forest) the last engine built. */
    var mstEdges: seq<Edge>

    /** The invariant every mutator keeps. */
    ghost predicate Valid()
      reads this`nodesArr, this`edgesArr, this`nodeCount, this`edgeCount
    {
      StoreValid(nodesArr, edgesArr, nodeCount, edgeCount)
    }

    constructor ()
      ensures Valid()
      ensures nodesArr == [] && edgesArr == [] && nodeCount == 0 && edgeCount == 0
      ensures iterations == 0 && mstEdges == []
    {
      nodesArr := [];
      edgesArr := [];
      nodeCount := 0;
      edgeCount := 0;
      iterations := 0;
      mstEdges := [];
    }

    /** `addNode`: appends a node whose id is the current `nodeCount`. */
    method AddNode(x: int, y: int) returns (node: Node)
      modifies this`nodesArr, this`nodeCount
      ensures node == Node(old(nodeCount), x, y)
      ensures nodesArr == old(nodesArr) + [node] && nodeCount == old(nodeCount) + 1
      ensures old(Valid()) ==> Valid() && node.id == |old(nodesArr)|
    {
      node := Node(nodeCount, x, y);
      nodeCount := nodeCount + 1;
      nodesArr := nodesArr + [node];
    }

    /** `findNodeById`: the first node with the given id, if any. */
    method FindNodeById(nodeId: int) returns (r: Option<Node>)
      ensures r.None? <==> !HasNode(nodesArr, nodeId)
      ensures r.Some? ==> exists i :: 0 <= i < |nodesArr| && nodesArr[i] == r.value && r.value.id == nodeId &&
                                       forall k :: 0 <= k < i ==> nodesArr[k].id != nodeId
      ensures NodesNumbered(nodesArr) ==> r == if 0 <= nodeId < |nodesArr| then Some(nodesArr[nodeId]) else None
    {
      var i := 0;
      while i < |nodesArr|
        invariant 0 <= i <= |nodesArr|
        invariant forall k :: 0 <= k < i ==> nodesArr[k].id != nodeId
      {
        if nodesArr[i].id == nodeId {
          return Some(nodesArr[i]);
        }
        i := i + 1;
      }
      if 0 <= nodeId < |nodesArr| {
        assert nodesArr[nodeId].id != nodeId;
      }
      return None;
    }

    /** `edgesArr.find(...)`: the first edge running from `a` to `b`, if any. */
    method FindEdge(a: int, b: int) returns (r: Option<Edge>)
      ensures r.None? <==> forall e :: e in edgesArr ==> !(e.node1 == a && e.node2 == b)
      ensures r.Some? ==> r.value in edgesArr && r.value.node1 == a && r.value.node2 == b
      ensures r.Some? ==> exists i :: 0 <= i < |edgesArr| && edgesArr[i] == r.value &&
                                       forall k :: 0 <= k < i ==> !(edgesArr[k].node1 == a && edgesArr[k].node2 == b)
    {
      var i := 0;
      while i < |edgesArr|
        invariant 0 <= i <= |edgesArr|
        invariant forall k :: 0 <= k < i ==> !(edgesArr[k].node1 == a && edgesArr[k].node2 == b)
      {
        if edgesArr[i].node1 == a && edgesArr[i].node2 == b {
          return Some(edgesArr[i]);
        }
        i := i + 1;
      }
      return None;
    }

    /** `addEdge`: refuses a missing endpoint, an existing edge on the same pair
        (either direction) and a missing weight; otherwise appends an edge whose
        id is the current `edgeCount`. A self-loop is only reported, not refused. */
    method AddEdge(node1Id: int, node2Id: int, weight: Option<int>) returns (r: Option<Edge>)
      modifies this`edgesArr, this`edgeCount
      ensures r.Some? <==>
        && HasNode(nodesArr, node1Id) && HasNode(nodesArr, node2Id)
        && !HasEdgeBetween(old(edgesArr), node1Id, node2Id)
        && weight.Some?
      ensures r.Some? ==>
        && r.value == Edge(old(edgeCount), node1Id, node2Id, weight.value)
        && edgesArr == old(edgesArr) + [r.value] && edgeCount == old(edgeCount) + 1
      ensures r.None? ==> edgesArr == old(edgesArr) && edgeCount == old(edgeCount)
      ensures old(Valid()) ==> Valid()
    {
      // node1Id == node2Id raises an alert and carries on
      var found1 := FindNodeById(node1Id);
      if found1.None? {
        return None;
      }
      var found2 := FindNodeById(node2Id);
      if found2.None? {
        return None;
      }
      var existingEdge := FindEdge(node1Id, node2Id);
      var existingEdgeInAnotherDirection := FindEdge(node2Id, node1Id);
      if existingEdge.Some? || existingEdgeInAnotherDirection.Some? {
        assert HasEdgeBetween(edgesArr, node1Id, node2Id);
        return None;
      }
      if weight.None? {
        return None;
      }
      var edge := Edge(edgeCount, node1Id, node2Id, weight.value);
      ghost var wasValid := Valid();
      edgeCount := edgeCount + 1;
      edgesArr := edgesArr + [edge];
      r := Some(edge);
      if wasValid {
        AppendEdgeKeepsValid(nodesArr, old(edgesArr), edge);
      }
    }

    /** `reassignNodeIds`: sorts the nodes by id, renumbers them to their
        positions and moves every edge endpoint found among the old ids to
        its new id. */
    method ReassignNodeIds()
      modifies this`nodesArr, this`edgesArr, this`nodeCount, this`iterations
      ensures nodesArr == Relabel(SortSpec(old(nodesArr), Id))
      ensures edgesArr == RemapEdges(old(edgesArr), Ids(old(nodesArr)))
      ensures nodeCount == |nodesArr|
      ensures iterations == old(iterations) + SortSteps(old(nodesArr), Id)
    {
      var originalIds := Ids(nodesArr);
      var arr := ToArray(nodesArr);
      InsertionSort(arr, Id);
      RelabelAll(arr);
      nodesArr := arr[..];
      var edges := ToArray(edgesArr);
      RemapAll(edges, originalIds);
      edgesArr := edges[..];
      nodeCount := |nodesArr|;
    }

    /** The `forEach` that sets every node's id to its index. */
    static method RelabelAll(arr: array<Node>)
      modifies arr
      ensures arr[..] == Relabel(old(arr[..]))
    {
      for i := 0 to arr.Length
        invariant forall k {:trigger arr[k]} :: 0 <= k < i ==> arr[k] == old(arr[k]).(id := k)
        invariant forall k {:trigger arr[k]} :: i <= k < arr.Length ==> arr[k] == old(arr[k])
      {
        arr[i] := arr[i].(id := i);
      }
    }

    /** The `forEach` that moves each edge's endpoints to their index in
        `originalIds`, leaving an edge alone when either is not found. */
    static method RemapAll(edges: array<Edge>, originalIds: seq<int>)
      modifies edges
      ensures edges[..] == RemapEdges(old(edges[..]), originalIds)
    {
      for i := 0 to edges.Length
        invariant forall k {:trigger edges[k]} :: 0 <= k < i ==> edges[k] == RemapEdge(old(edges[k]), originalIds)
        invariant forall k {:trigger edges[k]} :: i <= k < edges.Length ==> edges[k] == old(edges[k])
      {
        var edge := edges[i];
        var newNodeId1 := IndexOf(originalIds, edge.node1);
        var newNodeId2 := IndexOf(originalIds, edge.node2);
        if newNodeId1 != -1 && newNodeId2 != -1 {
          edges[i] := edge.(node1 := newNodeId1, node2 := newNodeId2);
        }
      }
    }

    /** `removeNode`: drops the node with this id and every edge touching it,
        then renumbers. On a valid store the `m` survivors keep their order and
        get ids `0..m-1`, the sort moves nothing, and the store stays valid. */
    method RemoveNode(nodeId: int)
      modifies this`nodesArr, this`edgesArr, this`nodeCount, this`iterations
      ensures var kept := Filter(old(nodesArr), NodeIsNot, nodeId);
        && nodesArr == Relabel(SortSpec(kept, Id))
        && edgesArr == RemapEdges(Filter(old(edgesArr), AvoidsNode, nodeId), Ids(kept))
        && nodeCount == |nodesArr|
        && iterations == old(iterations) + SortSteps(kept, Id)
      ensures old(Valid()) ==> var kept := Filter(old(nodesArr), NodeIsNot, nodeId);
        && Valid()
        && nodesArr == Relabel(kept)
        && iterations == old(iterations) + (if kept == [] then 0 else |kept| - 1)
    {
      ghost var wasValid, ec := Valid(), edgeCount;
      var nodes, edges := nodesArr, edgesArr;
      edgesArr := Filter(edges, AvoidsNode, nodeId);
      nodesArr := Filter(nodes, NodeIsNot, nodeId);
      ReassignNodeIds();
      ghost var ns, es := nodesArr, edgesArr;
      if wasValid {
        RemoveNodeResult(nodes, edges, ec, nodeId, ns, es);
      }
    }

    /** `reassignEdgeId`: every edge id becomes its position, and `edgeCount` the length. */
    method ReassignEdgeId()
      modifies this`edgesArr, this`edgeCount
      ensures edgesArr == Renumber(old(edgesArr))
      ensures edgeCount == |edgesArr|
    {
      var edges := ToArray(edgesArr);
      for i := 0 to edges.Length
        invariant forall k {:trigger edges[k]} :: 0 <= k < i ==> edges[k] == old(edgesArr)[k].(id := k)
        invariant forall k {:trigger edges[k]} :: i <= k < edges.Length ==> edges[k] == old(edgesArr)[k]
      {
        edges[i] := edges[i].(id := i);
      }
      assert edges[..] == Renumber(old(edgesArr));
      edgesArr := edges[..];
      edgeCount := |edgesArr|;
    }

    /** `removeEdge`: drops the edges with this id and renumbers the rest. */
    method RemoveEdge(edgeId: int)
      modifies this`edgesArr, this`edgeCount
      ensures edgesArr == Renumber(Filter(old(edgesArr), EdgeIdIsNot, edgeId))
      ensures edgeCount == |edgesArr|
      ensures old(Valid()) ==> Valid()
    {
      ghost var wasValid := Valid();
      edgesArr := Filter(edgesArr, EdgeIdIsNot, edgeId);
      ReassignEdgeId();
      if wasValid {
        RemoveEdgeKeepsValid(nodesArr, old(edgesArr), old(edgeCount), edgeId);
      }
    }

    /** `convertToMatrix`: the `n`-by-`n` weight matrix, 0 where no edge runs;
        symmetric, and on a store without parallel edges each edge's weight
        sits in both of its cells. */
    method ConvertToMatrix() returns (m: seq<seq<int>>)
      requires EdgesWithin(edgesArr, |nodesArr|)
      ensures |m| == |nodesArr| && forall i :: 0 <= i < |m| ==> |m[i]| == |m|
      ensures forall i, j :: 0 <= i < |m| && 0 <= j < |m| ==> m[i][j] == PairWeight(edgesArr, i, j)
      ensures forall i, j :: 0 <= i < |m| && 0 <= j < |m| ==> m[i][j] == m[j][i]
      ensures forall i, j :: 0 <= i < |m| && 0 <= j < |m| && !HasEdgeBetween(edgesArr, i, j) ==> m[i][j] == 0
      ensures Pairwise(edgesArr, NotParallel) ==>
        forall e :: e in edgesArr ==> m[e.node1][e.node2] == e.weight && m[e.node2][e.node1] == e.weight
    {
      var n := |nodesArr|;
      m := seq(n, _ => seq(n, _ => 0));
      for k := 0 to |edgesArr|
        invariant |m| == n && forall i :: 0 <= i < n ==> |m[i]| == n
        invariant forall i, j :: 0 <= i < n && 0 <= j < n ==> m[i][j] == PairWeight(edgesArr[..k], i, j)
      {
        var edge := edgesArr[k];
        assert edge in edgesArr;
        assert edgesArr[..k + 1][..k] == edgesArr[..k];
        m := m[edge.node1 := m[edge.node1][edge.node2 := edge.weight]];
        m := m[edge.node2 := m[edge.node2][edge.node1 := edge.weight]];
      }
      assert edgesArr[..|edgesArr|] == edgesArr;
      forall i, j | 0 <= i < n && 0 <= j < n
        ensures m[i][j] == m[j][i]
        ensures !HasEdgeBetween(edgesArr, i, j) ==> m[i][j] == 0
      {
        PairWeightSymmetric(edgesArr, i, j);
        if !HasEdgeBetween(edgesArr, i, j) {
          PairWeightAbsent(edgesArr, i, j);
        }
      }
      if Pairwise(edgesArr, NotParallel) {
        forall e | e in edgesArr
          ensures m[e.node1][e.node2] == e.weight && m[e.node2][e.node1] == e.weight
        {
          PairWeightOfEdge(edgesArr, e.node1, e.node2);
          PairWeightOfEdge(edgesArr, e.node2, e.node1);
        }
      }
    }

    /** `isGraphConnected`: a depth-first sweep from every node not yet seen
        counts the components; the answer is whether there is exactly one. So
        the empty graph is not connected and a single node is. */
    method IsGraphConnected() returns (r: bool)
      requires NodesNumbered(nodesArr) && EdgesWithin(edgesArr, |nodesArr|)
      ensures r <==> Connected(|nodesArr|, edgesArr)
    {
      var nodes, edges, n := nodesArr, edgesArr, |nodesArr|;
      var visited: set<int> := {};
      var connectedComponents := 0;
      SweepBegins(edges, n);
      for idx := 0 to n
        invariant Sweep(edges, n, idx, visited, connectedComponents)
      {
        var node := nodes[idx];
        if node.id !in visited {
          ghost var before := visited;
          visited := Dfs(node.id, visited);
          SweepVisit(edges, n, idx, before, connectedComponents, visited);
          connectedComponents := connectedComponents + 1;
        } else {
          SweepSkip(edges, n, idx, visited, connectedComponents);
        }
      }
      SweepDone(edges, n, visited, connectedComponents);
      r := connectedComponents == 1;
    }

    /** The recursive `dfs` of `isGraphConnected`, with the shared `visited`
        set passed in and out: it visits `node`, then every neighbour not yet
        visited. Everything it adds is reachable from `node`, and every edge at
        a node it added ends in the visited set. */
    method Dfs(node: int, visited0: set<int>) returns (visited: set<int>)
      requires node !in visited0
      ensures Searched(edgesArr, node, visited0, visited)
      decreases |(Endpoints(edgesArr) + {node}) - visited0|
    {
      visited := visited0 + {node};
      SearchBegins(edgesArr, node, visited0);
      var neighbors := Neighbors(edgesArr, node);
      for i := 0 to |neighbors|
        invariant Searching(edgesArr, node, visited0, visited)
        invariant forall k :: 0 <= k < i ==> neighbors[k] in visited
      {
        var neighbor := neighbors[i];
        if neighbor !in visited {
          ghost var before := visited;
          ghost var e := NeighborEdge(edgesArr, node, neighbor);
          ghost var ends := Endpoints(edgesArr);
          SubsetSmaller((ends + {neighbor}) - before, (ends + {node}) - visited0, node);
          visited := Dfs(neighbor, visited);
          SearchStep(edgesArr, node, e, neighbor, visited0, before, visited);
          assert before + {neighbor} <= visited;
        }
        assert neighbors[i] in visited;
      }
      SearchDone(edgesArr, node, visited0, visited);
    }

    /** `primMST`: with fewer than two edges it gives up, leaving the last
        tree in place. Otherwise it grows a tree from the chosen node, each
        time taking the lightest queued edge that leaves the tree. On the
        connected graph it needs (a missing start node or a graph that is not
        connected makes the original throw), the result spans the graph with
        `n - 1` edges. */
    method PrimMST(choseNodeId: int) returns (r: Option<seq<Edge>>)
      requires Valid()
      requires |edgesArr| >= 2 ==> 0 <= choseNodeId < |nodesArr| && Connected(|nodesArr|, edgesArr)
      modifies this`iterations, this`mstEdges
      ensures |edgesArr| < 2 ==> r.None? && iterations == 0 && mstEdges == old(mstEdges)
      ensures |edgesArr| >= 2 ==> r.Some? && mstEdges == r.value
      ensures r.Some? ==> SpanningForest(edgesArr, r.value) && |r.value| == |nodesArr| - 1
      ensures r.Some? ==> Connected(|nodesArr|, r.value) && iterations >= 2 * |r.value|
    {
      iterations := 0;
      if |edgesArr| < 2 {
        return None;
      }
      var weightMatrix := ConvertToMatrix();
      var startNode := nodesArr[choseNodeId];
      var mst := PrimGrow(weightMatrix, startNode.id);
      mstEdges := mst;
      r := Some(mst);
    }

    /** The tree-growing loop of `primMST` from `start`, its queue sorted by
        `weightMatrix` before every pop. An edge popped with both ends in
        the tree is dropped; otherwise it is taken and its outer end joins the
        tree. Every edge leaving the tree stays queued, so on a connected
        graph the queue never runs dry before the tree holds every node. */
    method PrimGrow(weightMatrix: seq<seq<int>>, start: int) returns (mst: seq<Edge>)
      requires 0 <= start < |nodesArr| && EdgesWithin(edgesArr, |nodesArr|) && Connected(|nodesArr|, edgesArr)
      modifies this`iterations
      ensures SpanningForest(edgesArr, mst) && |mst| == |nodesArr| - 1 && Connected(|nodesArr|, mst)
      ensures iterations >= old(iterations) + 2 * |mst|
    {
      var n := |nodesArr|;
      var key := (e: Edge) => Cell(weightMatrix, e);
      var mstNodes: set<int> := {start};
      mst := [];
      var edgeQueue := AddEdges(mstNodes, start, []);
      GrowthBegins(edgesArr, start);
      while |mstNodes| < n
        invariant mstNodes <= Below(n)
        invariant Grown(edgesArr, start, mstNodes, mst)
        invariant Frontier(edgesArr, mstNodes, edgeQueue)
        invariant iterations >= old(iterations) + 2 * |mst| + |edgeQueue|
        decreases n - |mstNodes|, |edgeQueue|
      {
        mstNodes, mst, edgeQueue := PrimStep(key, start, mstNodes, mst, edgeQueue);
      }
      AllInside(n, mstNodes);
      GrownSpans(n, edgesArr, start, mst);
    }

    /** One turn of the `primMST` loop: pop the lightest queued edge; drop it
        when both its ends are in the tree, otherwise take it, add its outer
        end to the tree and queue that node's unfinished edges. Either the tree
        gains a node or the queue loses an edge. */
    method PrimStep(key: Edge -> int, start: int, mstNodes: set<int>, mst: seq<Edge>, edgeQueue: seq<Edge>)
      returns (nodes: set<int>, tree: seq<Edge>, queue: seq<Edge>)
      requires EdgesWithin(edgesArr, |nodesArr|) && Connected(|nodesArr|, edgesArr)
      requires mstNodes <= Below(|nodesArr|) && |mstNodes| < |nodesArr|
      requires Grown(edgesArr, start, mstNodes, mst) && Frontier(edgesArr, mstNodes, edgeQueue)
      modifies this`iterations
      ensures nodes <= Below(|nodesArr|)
      ensures Grown(edgesArr, start, nodes, tree) && Frontier(edgesArr, nodes, queue)
      ensures iterations - old(iterations) >= 2 * (|tree| - |mst|) + |queue| - |edgeQueue|
      ensures |nodes| == |mstNodes| + 1 || (nodes == mstNodes && |queue| < |edgeQueue|)
      ensures tree == mst || exists e :: e in edgeQueue && Leaving(e, mstNodes) && tree == mst + [e]
    {
      FrontierNonEmpty(|nodesArr|, edgesArr, start, mstNodes, edgeQueue);
      var minEdge, rest := PopMin(edgeQueue, key);
      var inMST1 := minEdge.node1 in mstNodes;
      var inMST2 := minEdge.node2 in mstNodes;
      if inMST1 && inMST2 {
        FrontierSkip(edgesArr, mstNodes, edgeQueue, minEdge, rest);
        return mstNodes, mst, rest;
      }
      GrowStep(edgesArr, start, mstNodes, mst, minEdge);
      FrontierGrow(edgesArr, mstNodes, edgeQueue, minEdge, rest);
      tree := mst + [minEdge];
      assert minEdge in edgeQueue && Leaving(minEdge, mstNodes);
      var newNode := if inMST1 then minEdge.node2 else minEdge.node1;
      assert Within(minEdge, |nodesArr|) && newNode in Below(|nodesArr|);
      nodes := mstNodes + {newNode};
      queue := AddEdges(nodes, newNode, rest);
    }

    /** The sort and `shift` at the top of the `primMST` loop: the queue
        sorted by `key`, split into its first edge, which is the lightest, and
        the rest; one step per shift of the sort, one per inserted element and
        one for the pop. */
    method PopMin(queue: seq<Edge>, key: Edge -> int) returns (minEdge: Edge, rest: seq<Edge>)
      requires |queue| > 0
      modifies this`iterations
      ensures [minEdge] + rest == SortSpec(queue, key)
      ensures minEdge in queue && |rest| == |queue| - 1
      ensures forall x :: x in queue <==> x == minEdge || x in rest
      ensures forall x :: x in queue ==> key(minEdge) <= key(x)
      ensures iterations == old(iterations) + SortSteps(queue, key) + 1
    {
      var arr := ToArray(queue);
      InsertionSort(arr, key);
      SortSpecFirst(queue, key);
      minEdge := arr[0];
      rest := arr[1..];
      iterations := iterations + 1;
      assert [minEdge] + rest == arr[..];
    }

    /** `addEdges`: queues, in store order, every edge at `nodeId` that does
        not already lie inside `mstNodes`, one step each. */
    method AddEdges(mstNodes: set<int>, nodeId: int, queue: seq<Edge>) returns (grown: seq<Edge>)
      modifies this`iterations
      ensures grown == queue + Unfinished(Filter(edgesArr, Touches, nodeId), mstNodes)
      ensures iterations == old(iterations) + |grown| - |queue|
    {
      var connectedEdges := Filter(edgesArr, Touches, nodeId);
      grown := queue;
      for i := 0 to |connectedEdges|
        invariant grown == queue + Unfinished(connectedEdges[..i], mstNodes)
        invariant iterations == old(iterations) + |grown| - |queue|
      {
        var edge := connectedEdges[i];
        assert connectedEdges[..i + 1][..i] == connectedEdges[..i];
        if !(edge.node1 in mstNodes && edge.node2 in mstNodes) {
          grown := grown + [edge];
          iterations := iterations + 1;
        }
      }
      assert connectedEdges[..|connectedEdges|] == connectedEdges;
    }

    /** `kruskalMST`: sorts the stored edges by weight in place, then walks
        them in that order, accepting each edge whose endpoints lie in
        different sets of a fresh union-find forest. The accepted edges form a
        spanning forest of the graph, listed by non-decreasing weight; on a
        connected graph it is a spanning tree of `n - 1` edges. */
    method KruskalMST() returns (mst: seq<Edge>)
      requires Valid()
      modifies this`iterations, this`edgesArr, this`mstEdges
      ensures edgesArr == SortSpec(old(edgesArr), Weight) && Valid()
      ensures mstEdges == mst
      ensures iterations == SortSteps(old(edgesArr), Weight) + |nodesArr| + |edgesArr| + |mst|
      ensures SpanningForest(edgesArr, mst) && SortedBy(mst, Weight)
      ensures |nodesArr| == 0 ==> mst == []
      ensures |nodesArr| > 0 ==> |mst| < |nodesArr|
      ensures Connected(|nodesArr|, edgesArr) ==> |mst| == |nodesArr| - 1 && Connected(|nodesArr|, mst)
    {
      iterations := 0;
      SortEdges();
      mst := KruskalForest();
    }

    /** `this.edgesArr = this.insertionSort(this.edgesArr, ...)` by weight. */
    method SortEdges()
      requires Valid()
      modifies this`iterations, this`edgesArr
      ensures edgesArr == SortSpec(old(edgesArr), Weight) && SortedBy(edgesArr, Weight) && Valid()
      ensures iterations == old(iterations) + SortSteps(old(edgesArr), Weight)
    {
      var arr := ToArray(edgesArr);
      InsertionSort(arr, Weight);
      SortedEdgesKeepValid(nodesArr, edgesArr, nodeCount, edgeCount);
      SortSpecSorted(edgesArr, Weight);
      edgesArr := arr[..];
    }

    /** The rest of `kruskalMST`, on the sorted edges: a fresh forest, the
        scan, and the result stored in `mstEdges`. */
    method KruskalForest() returns (mst: seq<Edge>)
      requires EdgesWithin(edgesArr, |nodesArr|) && SortedBy(edgesArr, Weight)
      modifies this`iterations, this`mstEdges
      ensures mstEdges == mst
      ensures iterations == old(iterations) + |nodesArr| + |edgesArr| + |mst|
      ensures SpanningForest(edgesArr, mst) && SortedBy(mst, Weight)
      ensures |nodesArr| == 0 ==> mst == []
      ensures |nodesArr| > 0 ==> |mst| < |nodesArr|
      ensures Connected(|nodesArr|, edgesArr) ==> |mst| == |nodesArr| - 1 && Connected(|nodesArr|, mst)
    {
      var n, edges := |nodesArr|, edgesArr;
      var parent, rank := NewForest(n);
      mst := KruskalScan(edges, parent, rank);
      mstEdges := mst;
      ForestSize(parent[..], rank[..], n, edges, mst);
    }

    /** The loop that opens `kruskalMST` and `boruvkaMST`: every node its own
        set, one iteration per node. */
    method NewForest(n: nat) returns (parent: array<int>, rank: array<int>)
      modifies this`iterations
      ensures fresh(parent) && fresh(rank) && parent != rank && parent.Length == n
      ensures Tracks(parent[..], rank[..], []) && |RootSet(parent[..])| == n
      ensures iterations == old(iterations) + n
    {
      parent := new int[n];
      rank := new int[n];
      for i := 0 to n
        invariant forall k :: 0 <= k < i ==> parent[k] == k && rank[k] == 0
        invariant iterations == old(iterations) + i
      {
        parent[i] := i;
        rank[i] := 0;
        iterations := iterations + 1;
      }
      TracksInit(n, parent[..], rank[..]);
    }

    /** The main loop of `kruskalMST` over the sorted `edges`: accepts every
        edge that joins two different sets, one iteration per edge and one
        more per accepted edge. */
    method KruskalScan(edges: seq<Edge>, parent: array<int>, rank: array<int>) returns (mst: seq<Edge>)
      requires parent != rank && Tracks(parent[..], rank[..], []) && |RootSet(parent[..])| == parent.Length
      requires forall e :: e in edges ==> Within(e, parent.Length)
      requires SortedBy(edges, Weight)
      modifies this`iterations, parent, rank
      ensures Tracks(parent[..], rank[..], mst) && |RootSet(parent[..])| + |mst| == parent.Length
      ensures SpanningForest(edges, mst) && SortedBy(mst, Weight)
      ensures iterations == old(iterations) + |edges| + |mst|
    {
      mst := [];
      ghost var last := 0;
      ScanBegins(edges, parent[..], rank[..]);
      for k := 0 to |edges|
        invariant Scanning(edges, k, parent[..], rank[..], mst, last)
        invariant iterations == old(iterations) + k + |mst|
      {
        var accepted;
        accepted, mst := KruskalStep(parent, rank, edges, k, mst, last);
        if accepted {
          last := k;
        }
      }
      ScanDone(edges, parent[..], rank[..], mst, last);
    }

    /** One pass of the loop body of `kruskalMST`: the `k`-th sorted edge is
        offered to the union-find test, counted once, and once more when it is
        accepted; the scan stays on track, with that edge as the new last one
        when it is accepted. */
    method KruskalStep(parent: array<int>, rank: array<int>, edges: seq<Edge>, k: int, mst: seq<Edge>, ghost last: int)
      returns (accepted: bool, mst': seq<Edge>)
      requires parent != rank && SortedBy(edges, Weight) && k < |edges|
      requires forall e :: e in edges ==> Within(e, parent.Length)
      requires Scanning(edges, k, parent[..], rank[..], mst, last)
      modifies this`iterations, parent, rank
      ensures mst' == if accepted then mst + [edges[k]] else mst
      ensures Scanning(edges, k + 1, parent[..], rank[..], mst', if accepted then k else last)
      ensures iterations == old(iterations) + if accepted then 2 else 1
    {
      accepted, mst' := ScanEdge(parent, rank, edges, k, mst, last);
      ghost var p2, rk2 := parent[..], rank[..];
      iterations := iterations + 1;
      if accepted {
        iterations := iterations + 1;
      }
      assert parent[..] == p2 && rank[..] == rk2;
    }

    /** `boruvkaMST`: rounds of finding, for every set of the forest, the
        cheapest edge leaving it, then accepting those edges that still join
        two sets. Each round of a connected graph merges at least two sets, so
        the loop ends (on a graph that is not connected it would never end,
        hence the precondition); the result is a spanning tree with `n - 1`
        edges. */
    method BoruvkaMST() returns (mst: seq<Edge>)
      requires Valid()
      requires |nodesArr| <= 1 || Connected(|nodesArr|, edgesArr)
      modifies this`iterations, this`mstEdges
      ensures mstEdges == mst
      ensures SpanningForest(edgesArr, mst)
      ensures |mst| == if |nodesArr| == 0 then 0 else |nodesArr| - 1
      ensures |nodesArr| > 0 ==> Connected(|nodesArr|, mst)
      ensures iterations >= |nodesArr| + |mst|
    {
      iterations := 0;
      var n := |nodesArr|;
      var parent, rank := NewForest(n);
      var numTrees := n;
      mst := [];
      while numTrees > 1
        invariant parent != rank && parent.Length == n
        invariant Tracks(parent[..], rank[..], mst) && Acyclic(mst)
        invariant forall e :: e in mst ==> e in edgesArr
        invariant numTrees == |RootSet(parent[..])| && numTrees + |mst| == n
        invariant iterations >= n + |mst|
        decreases numTrees
      {
        mst, numTrees := BoruvkaRound(parent, rank, mst, numTrees);
      }
      mstEdges := mst;
      OneSetSpans(parent[..], rank[..], n, edgesArr, mst);
    }

    /** One round of the `boruvkaMST` loop on a connected graph with more than
        one set left: the scan, then the accepting pass, which merges at
        least two sets. */
    method BoruvkaRound(parent: array<int>, rank: array<int>, mst0: seq<Edge>, numTrees0: int)
      returns (mst: seq<Edge>, numTrees: int)
      requires parent != rank && parent.Length == |nodesArr|
      requires EdgesWithin(edgesArr, |nodesArr|) && Connected(|nodesArr|, edgesArr)
      requires Tracks(parent[..], rank[..], mst0) && Acyclic(mst0) && forall e :: e in mst0 ==> e in edgesArr
      requires numTrees0 == |RootSet(parent[..])| && numTrees0 + |mst0| == parent.Length && numTrees0 > 1
      modifies this`iterations, parent, rank
      ensures Tracks(parent[..], rank[..], mst) && Acyclic(mst) && forall e :: e in mst ==> e in edgesArr
      ensures numTrees == |RootSet(parent[..])| && numTrees + |mst| == parent.Length
      ensures numTrees < numTrees0
      ensures iterations >= old(iterations) + |mst| - |mst0|
    {
      ghost var p0, rk, edges := parent[..], rank[..], edgesArr;
      var cheapest := CheapestEdges(parent, rank[..]);
      ghost var r := CrossingSlot(p0, rk, edges);
      assert cheapest[..] == Cheapest(p0, rk, edges) && rank[..] == rk;
      CrossesSame(p0, parent[..], rk, cheapest[r].value);
      TracksSameRoots(p0, rk, parent[..], mst0);
      mst, numTrees := AcceptCheapest(parent, rank, cheapest, mst0, numTrees0, r);
    }

    /** The scan of a `boruvkaMST` round: fills `cheapest`, indexed by root,
        as `Cheapest` says, counting one iteration per slot taken. Finds only
        compress paths. */
    method CheapestEdges(parent: array<int>, ghost rk: seq<int>) returns (cheapest: array<Option<Edge>>)
      requires Inv(parent[..], rk) && EdgesWithin(edgesArr, parent.Length)
      modifies this`iterations, parent
      ensures fresh(cheapest) && cheapest[..] == Cheapest(old(parent[..]), rk, edgesArr)
      ensures SameSets(old(parent[..]), parent[..], rk)
      ensures iterations >= old(iterations)
    {
      ghost var p0 := parent[..];
      var edges := edgesArr;
      cheapest := new Option<Edge>[parent.Length](_ => None);
      assert cheapest[..] == Cheapest(p0, rk, edges[..0]);
      for k := 0 to |edges|
        invariant SameSets(p0, parent[..], rk)
        invariant cheapest[..] == Cheapest(p0, rk, edges[..k])
        invariant iterations >= old(iterations)
      {
        CheapestStep(parent, rk, cheapest, edges, k, p0);
      }
      assert edges[..|edges|] == edges;
    }

    /** One edge of the scan in `boruvkaMST`: when its endpoints lie in
        different sets, it is offered to the slots of both roots. */
    method CheapestStep(parent: array<int>, ghost rk: seq<int>, cheapest: array<Option<Edge>>,
                        edges: seq<Edge>, k: int, ghost p0: seq<int>)
      requires 0 <= k < |edges| && Inv(p0, rk) && EdgesWithin(edges, |p0|)
      requires SameSets(p0, parent[..], rk)
      requires cheapest[..] == Cheapest(p0, rk, edges[..k])
      modifies this`iterations, parent, cheapest
      ensures SameSets(p0, parent[..], rk)
      ensures cheapest[..] == Cheapest(p0, rk, edges[..k + 1])
      ensures iterations >= old(iterations)
    {
      var edge := edges[k];
      ghost var p1 := parent[..];
      var root1, root2 := FindBoth(parent, rk, edge);
      ghost var p2 := parent[..];
      SameSetsTrans(p0, p1, p2, rk);
      assert root1 == Root(p0, rk, edge.node1) && root2 == Root(p0, rk, edge.node2);
      CheapestSnoc(p0, rk, edges, k);
      if root1 != root2 {
        OfferSlot(cheapest, root1, edge);
        OfferSlot(cheapest, root2, edge);
      }
      assert parent[..] == p2;
    }

    /** One update of `cheapest` in the scan of `boruvkaMST`, counting an
        iteration when the slot takes the edge. */
    method OfferSlot(cheapest: array<Option<Edge>>, r: int, edge: Edge)
      requires 0 <= r < cheapest.Length
      modifies this`iterations, cheapest
      ensures cheapest[..] == Offer(old(cheapest[..]), r, edge)
      ensures iterations >= old(iterations)
    {
      if cheapest[r].None? || cheapest[r].value.weight > edge.weight {
        cheapest[r] := Some(edge);
        iterations := iterations + 1;
      }
    }

    /** The accepting half of a `boruvkaMST` round: every chosen edge that
        still joins two sets is accepted and its sets merged. Since some chosen
        edge crosses when the round starts, at least one set disappears. */
    method AcceptCheapest(parent: array<int>, rank: array<int>, cheapest: array<Option<Edge>>,
                          mst0: seq<Edge>, numTrees0: int, ghost r: int)
      returns (mst: seq<Edge>, numTrees: int)
      requires parent != rank && cheapest.Length == parent.Length
      requires Tracks(parent[..], rank[..], mst0) && Acyclic(mst0) && forall e :: e in mst0 ==> e in edgesArr
      requires numTrees0 == |RootSet(parent[..])| && numTrees0 + |mst0| == parent.Length
      requires ChosenFrom(cheapest[..], edgesArr, parent.Length)
      requires 0 <= r < cheapest.Length && cheapest[r].Some? && Crosses(parent[..], rank[..], cheapest[r].value)
      modifies this`iterations, parent, rank
      ensures Tracks(parent[..], rank[..], mst) && Acyclic(mst) && forall e :: e in mst ==> e in edgesArr
      ensures numTrees == |RootSet(parent[..])| && numTrees + |mst| == parent.Length
      ensures numTrees < numTrees0
      ensures iterations == old(iterations) + |mst| - |mst0|
      ensures mst0 <= mst && FromSlots(mst[|mst0|..], cheapest[..], cheapest.Length)
    {
      ghost var p0, k0, c := parent[..], rank[..], cheapest[..];
      ghost var w := c[r].value;
      assert Crosses(p0, k0, w);
      mst, numTrees := mst0, numTrees0;
      for i := 0 to cheapest.Length
        invariant Tracks(parent[..], rank[..], mst) && Acyclic(mst) && forall e :: e in mst ==> e in edgesArr
        invariant numTrees == |RootSet(parent[..])| && numTrees + |mst| == parent.Length
        invariant iterations == old(iterations) + |mst| - |mst0|
        invariant numTrees <= numTrees0
        invariant numTrees == numTrees0 ==> i <= r && rank[..] == k0 && SameSets(p0, parent[..], k0)
        invariant mst0 <= mst && FromSlots(mst[|mst0|..], c, i)
      {
        assert cheapest[i] == c[i];
        ghost var before := mst;
        mst, numTrees := AcceptSlot(parent, rank, cheapest[i], mst, numTrees, p0, k0, numTrees0);
        FromSlotsNext(mst0, before, mst, c, i);
        assert i == r ==> c[i] == Some(w);
      }
    }

    /** One slot of the accepting pass: a chosen edge goes through the
        union-find test and is kept when it joined two sets. While no set has
        merged yet in this pass, a refused edge did not cross at the start. */
    method AcceptSlot(parent: array<int>, rank: array<int>, slot: Option<Edge>, mst0: seq<Edge>, numTrees0: int,
                      ghost p0: seq<int>, ghost k0: seq<int>, ghost start: int)
      returns (mst: seq<Edge>, numTrees: int)
      requires parent != rank && Inv(p0, k0) && |p0| == parent.Length
      requires Tracks(parent[..], rank[..], mst0) && Acyclic(mst0) && forall e :: e in mst0 ==> e in edgesArr
      requires numTrees0 == |RootSet(parent[..])| && numTrees0 + |mst0| == parent.Length
      requires slot.Some? ==> slot.value in edgesArr && Within(slot.value, parent.Length)
      requires numTrees0 <= start
      requires numTrees0 == start ==> rank[..] == k0 && SameSets(p0, parent[..], k0)
      modifies this`iterations, parent, rank
      ensures Tracks(parent[..], rank[..], mst) && Acyclic(mst) && forall e :: e in mst ==> e in edgesArr
      ensures numTrees == |RootSet(parent[..])| && numTrees + |mst| == parent.Length
      ensures iterations == old(iterations) + |mst| - |mst0|
      ensures numTrees <= numTrees0
      ensures numTrees == start ==> rank[..] == k0 && SameSets(p0, parent[..], k0)
      ensures numTrees == start && slot.Some? ==> !Crosses(p0, k0, slot.value)
      ensures mst == if slot.Some? && Crosses(old(parent[..]), old(rank[..]), slot.value) then mst0 + [slot.value] else mst0
    {
      mst, numTrees := mst0, numTrees0;
      if slot.Some? {
        ghost var p1 := parent[..];
        var accepted;
        accepted, mst := TryLink(parent, rank, mst, slot.value);
        ghost var p2, k2 := parent[..], rank[..];
        if accepted {
          numTrees := numTrees - 1;
          iterations := iterations + 1;
          assert parent[..] == p2 && rank[..] == k2;
        } else if numTrees == start {
          CrossesSame(p0, p1, k0, slot.value);
          SameSetsTrans(p0, p1, parent[..], k0);
        }
      }
    }

    /** Stable in-place insertion sort by `key`, charging one step per shifted
        cell and one per inserted element. */
    method InsertionSort<T>(arr: array<T>, key: T -> int)
      modifies this`iterations, arr
      ensures arr[..] == SortSpec(old(arr[..]), key)
      ensures iterations == old(iterations) + SortSteps(old(arr[..]), key)
    {
      ghost var s0 := arr[..];
      if arr.Length == 0 {
        // the outer loop does not run
        return;
      }
      var i := 1;
      ghost var sorted := s0[..1];
      while i < arr.Length
        invariant 1 <= i <= arr.Length
        invariant sorted == SortSpec(s0[..i], key) && |sorted| == i
        invariant forall k {:trigger arr[k]} :: 0 <= k < i ==> arr[k] == sorted[k]
        invariant forall k {:trigger arr[k]} :: i <= k < arr.Length ==> arr[k] == s0[k]
        invariant iterations == old(iterations) + SortSteps(s0[..i], key)
      {
        ghost var before := arr[..];
        var j := InsertPass(arr, i, key);
        forall k | j < k < i
          ensures key(sorted[k]) > key(s0[i])
        {
          assert before[k] == sorted[k];
        }
        PassDone(arr[..], sorted, s0[i], j, key);
        SortSpecSnoc(s0, i, key);
        sorted := SortSpec(s0[..i + 1], key);
        i := i + 1;
      }
      assert s0[..arr.Length] == s0;
      assert arr[..] == sorted;
    }

    /** One pass of the sort: `arr[i]` moves left past the cells before it whose
        key is greater, each of which moves one place right; returns the index
        in front of the new position. */
    method InsertPass<T>(arr: array<T>, i: int, key: T -> int) returns (j: int)
      requires 1 <= i < arr.Length
      modifies this`iterations, arr
      ensures -1 <= j <= i - 1
      ensures forall k {:trigger arr[k]} :: 0 <= k <= j ==> arr[k] == old(arr[k])
      ensures arr[j + 1] == old(arr[i])
      ensures forall k {:trigger arr[k]} :: j + 2 <= k <= i ==> arr[k] == old(arr[k - 1])
      ensures forall k {:trigger arr[k]} :: i + 1 <= k < arr.Length ==> arr[k] == old(arr[k])
      ensures j == -1 || key(old(arr[j])) <= key(old(arr[i]))
      ensures forall k :: j < k < i ==> key(old(arr[k])) > key(old(arr[i]))
      ensures iterations == old(iterations) + (i - 1 - j) + 1
    {
      ghost var s := arr[..];
      var current := arr[i];
      j := i - 1;
      while j >= 0 && key(arr[j]) - key(current) > 0
        invariant -1 <= j <= i - 1
        invariant forall k {:trigger arr[k]} :: 0 <= k <= j ==> arr[k] == s[k]
        invariant forall k {:trigger arr[k]} :: j + 2 <= k <= i ==> arr[k] == s[k - 1]
        invariant forall k {:trigger arr[k]} :: i + 1 <= k < arr.Length ==> arr[k] == s[k]
        invariant forall k :: j < k < i ==> key(s[k]) > key(current)
        invariant iterations == old(iterations) + (i - 1 - j)
        decreases j
      {
        arr[j + 1] := arr[j];
        j := j - 1;
        iterations := iterations + 1;
      }
      arr[j + 1] := current;
      iterations := iterations + 1;
    }
  }
}
