/** The tree Prim's algorithm grows from one start node: which edges it has
    taken, which nodes it holds and which edges wait in its queue. */
module Growth {
  import opened Entities
  import opened Connectivity
  import opened GraphSpec

  /** `e` has exactly one endpoint in `tree`. */
  predicate Leaving(e: Edge, tree: set<int>) {
    (e.node1 in tree) != (e.node2 in tree)
  }

  /** The edges of `es` that do not already lie inside `tree`, in order: what
      `addEdges` pushes onto the queue. */
  function Unfinished(es: seq<Edge>, tree: set<int>): seq<Edge> {
    if es == [] then []
    else
      var e := es[|es| - 1];
      Unfinished(es[..|es| - 1], tree) + (if e.node1 in tree && e.node2 in tree then [] else [e])
  }

  lemma {:induction false} UnfinishedMembers(es: seq<Edge>, tree: set<int>)
    ensures forall e :: e in Unfinished(es, tree) <==> e in es && !(e.node1 in tree && e.node2 in tree)
  {
    if es != [] {
      UnfinishedMembers(es[..|es| - 1], tree);
      assert es == es[..|es| - 1] + [es[|es| - 1]];
    }
  }

  /** `mst` is a tree of store edges spanning exactly the nodes of `tree`,
      which holds `start`: one edge fewer than nodes, no cycle, every edge
      inside `tree` and every node of `tree` reachable from `start`. */
  ghost predicate Grown(edges: seq<Edge>, start: int, tree: set<int>, mst: seq<Edge>) {
    && start in tree
    && |mst| + 1 == |tree|
    && Acyclic(mst)
    && (forall e :: e in mst ==> e in edges && e.node1 in tree && e.node2 in tree)
    && (forall v :: v in tree ==> Linked(mst, start, v))
  }

  /** Every store edge leaving `tree` is queued, and every queued edge is a
      store edge touching `tree`. */
  ghost predicate Frontier(edges: seq<Edge>, tree: set<int>, queue: seq<Edge>) {
    && (forall e :: e in edges && Leaving(e, tree) ==> e in queue)
    && (forall e :: e in queue ==> e in edges && (e.node1 in tree || e.node2 in tree))
  }

  /** The start: the tree of no edges holding `start`, with the unfinished
      edges at `start` queued. */
  lemma {:induction false} GrowthBegins(edges: seq<Edge>, start: int)
    ensures Grown(edges, start, {start}, [])
    ensures Frontier(edges, {start}, Unfinished(Filter(edges, Touches, start), {start}))
  {
    FilterMembers(edges, Touches, start);
    UnfinishedMembers(Filter(edges, Touches, start), {start});
    assert Acyclic([]);
  }

  /** The endpoint of a leaving edge that is not yet in the tree. */
  function Outer(e: Edge, tree: set<int>): int {
    if e.node1 in tree then e.node2 else e.node1
  }

  /** No path of edges inside `tree` leads out of it. */
  lemma {:induction false} NoLinkOut(mst: seq<Edge>, tree: set<int>, a: int, b: int)
    requires forall e :: e in mst ==> e.node1 in tree && e.node2 in tree
    requires a in tree && b !in tree
    ensures !Linked(mst, a, b) && !Linked(mst, b, a)
  {
    assert Closed(mst, tree);
    if Linked(mst, b, a) {
      LinkedSym(mst, b, a);
      assert false;
    }
  }

  /** Taking a leaving edge adds its outer endpoint: the tree stays a tree. */
  lemma {:induction false} GrowStep(edges: seq<Edge>, start: int, tree: set<int>, mst: seq<Edge>, e: Edge)
    requires Grown(edges, start, tree, mst) && e in edges && Leaving(e, tree)
    ensures Grown(edges, start, tree + {Outer(e, tree)}, mst + [e])
  {
    var w := Outer(e, tree);
    var u := if e.node1 in tree then e.node1 else e.node2;
    var tree', mst' := tree + {w}, mst + [e];
    NoLinkOut(mst, tree, u, w);
    AcyclicSnoc(mst, e);
    assert tree' - {w} == tree;
    forall v | v in tree'
      ensures Linked(mst', start, v)
    {
      if v in tree {
        LinkedGrows(mst, mst', start, v);
      } else {
        LinkedGrows(mst, mst', start, u);
        LinkedStep(mst', start, e);
      }
    }
  }

  /** Popping an edge inside the tree leaves the frontier queued. */
  lemma FrontierSkip(edges: seq<Edge>, tree: set<int>, queue: seq<Edge>, e: Edge, rest: seq<Edge>)
    requires Frontier(edges, tree, queue) && !Leaving(e, tree)
    requires forall x :: x in queue ==> x == e || x in rest
    requires forall x :: x in rest ==> x in queue
    ensures Frontier(edges, tree, rest)
  {
  }

  /** Popping the leaving edge `e`, adding its outer endpoint `w` and queuing
      the unfinished edges at `w` queues the new frontier. */
  lemma {:induction false} FrontierGrow(edges: seq<Edge>, tree: set<int>, queue: seq<Edge>, e: Edge, rest: seq<Edge>)
    requires Frontier(edges, tree, queue) && e in edges && Leaving(e, tree)
    requires forall x :: x in queue ==> x == e || x in rest
    requires forall x :: x in rest ==> x in queue
    ensures var w := Outer(e, tree);
      Frontier(edges, tree + {w}, rest + Unfinished(Filter(edges, Touches, w), tree + {w}))
  {
    var w := Outer(e, tree);
    var tree', added := tree + {w}, Filter(edges, Touches, w);
    var queue' := rest + Unfinished(added, tree');
    FilterMembers(edges, Touches, w);
    UnfinishedMembers(added, tree');
    forall f | f in edges && Leaving(f, tree')
      ensures f in queue'
    {
      if !Touches(f, w) {
        assert Leaving(f, tree) && f != e;
      }
    }
  }

  /** While the tree misses a node of a connected graph, some edge leaves
      it, so the queue holding the frontier is not empty. */
  lemma FrontierNonEmpty(n: nat, edges: seq<Edge>, start: int, tree: set<int>, queue: seq<Edge>)
    requires Connected(n, edges) && forall e :: e in edges ==> Within(e, n)
    requires start in tree && tree <= Below(n) && |tree| < n
    requires Frontier(edges, tree, queue)
    ensures |queue| > 0
  {
    var outside := Outside(n, tree);
    CrossingEdgeExists(n, edges, tree, start, outside);
    var e :| e in edges && Leaving(e, tree);
    assert e in queue;
  }

  /** A tree that holds every node of an `n`-node graph spans it: `n - 1`
      edges, connecting the graph and linking the ends of every edge. */
  lemma {:induction false} GrownSpans(n: int, edges: seq<Edge>, start: int, mst: seq<Edge>)
    requires Grown(edges, start, Below(n), mst)
    requires forall e :: e in edges ==> Within(e, n)
    ensures |mst| == n - 1 && Connected(n, mst) && SpanningForest(edges, mst)
  {
    LinkedSym(mst, start, 0);
    forall v | 0 <= v < n
      ensures Linked(mst, 0, v)
    {
      LinkedTrans(mst, 0, start, v);
    }
    forall f | f in edges && Within(f, n)
      ensures Linked(mst, f.node1, f.node2)
    {
      LinkedSym(mst, 0, f.node1);
      LinkedTrans(mst, f.node1, 0, f.node2);
    }
  }

  /** The node ids of an `n`-node graph that `tree` misses number `n - |tree|`. */
  lemma Missing(n: nat, tree: set<int>)
    requires tree <= Below(n)
    ensures |Below(n) - tree| == n - |tree|
  {
    var missing := Below(n) - tree;
    assert Below(n) == tree + missing;
    assert tree * missing == {};
  }

  /** A set of node ids smaller than the graph misses one of them. */
  lemma Outside(n: int, tree: set<int>) returns (v: int)
    requires tree <= Below(n) && |tree| < n
    ensures 0 <= v < n && v !in tree
  {
    Missing(n, tree);
    v :| v in Below(n) - tree;
  }

  /** A set of node ids as large as the graph holds all of them. */
  lemma AllInside(n: nat, tree: set<int>)
    requires tree <= Below(n) && |tree| >= n
    ensures tree == Below(n)
  {
    Missing(n, tree);
    assert Below(n) - tree == {};
  }
}
