/** Reachability in the undirected graph, stated without paths: a set of node
    ids is closed when no edge leaves it, and `b` is linked to `a` when every
    closed set holding `a` also holds `b` (so the component of `a` is the least
    closed set containing it). */
module Connectivity {
  import opened Entities

  /** No edge has exactly one endpoint in `s`. */
  ghost predicate Closed(edges: seq<Edge>, s: set<int>) {
    forall e :: e in edges ==> (e.node1 in s <==> e.node2 in s)
  }

  /** `b` is reachable from `a` over `edges`. */
  ghost predicate Linked(edges: seq<Edge>, a: int, b: int) {
    forall s {:trigger Closed(edges, s)} :: Closed(edges, s) && a in s ==> b in s
  }

  /** Every node of an `n`-node graph is reachable from node 0; never true of the empty graph. */
  ghost predicate Connected(n: int, edges: seq<Edge>) {
    n > 0 && forall v :: 0 <= v < n ==> Linked(edges, 0, v)
  }

  /** Every edge joins two nodes that the edges before it leave unlinked: the edges form a forest. */
  ghost predicate Acyclic(edges: seq<Edge>) {
    forall k :: 0 <= k < |edges| ==> !Linked(edges[..k], edges[k].node1, edges[k].node2)
  }

  /** Crossing an edge from a linked node reaches its other endpoint. */
  lemma LinkedStep(edges: seq<Edge>, a: int, e: Edge)
    requires e in edges && (Linked(edges, a, e.node1) || Linked(edges, a, e.node2))
    ensures Linked(edges, a, e.node1) && Linked(edges, a, e.node2)
  {
  }

  lemma LinkedTrans(edges: seq<Edge>, a: int, b: int, c: int)
    requires Linked(edges, a, b) && Linked(edges, b, c)
    ensures Linked(edges, a, c)
  {
  }

  /** More edges link at least as much. */
  lemma LinkedGrows(edges: seq<Edge>, more: seq<Edge>, a: int, b: int)
    requires forall e :: e in edges ==> e in more
    requires Linked(edges, a, b)
    ensures Linked(more, a, b)
  {
    forall s | Closed(more, s) && a in s
      ensures b in s
    {
      assert Closed(edges, s);
    }
  }

  /** A forest stays a forest when an edge joining two unlinked nodes is appended. */
  lemma {:induction false} AcyclicSnoc(edges: seq<Edge>, e: Edge)
    requires Acyclic(edges) && !Linked(edges, e.node1, e.node2)
    ensures Acyclic(edges + [e])
  {
    var es := edges + [e];
    forall k | 0 <= k < |es|
      ensures !Linked(es[..k], es[k].node1, es[k].node2)
    {
      if k < |edges| {
        assert es[..k] == edges[..k];
      } else {
        assert es[..k] == edges;
      }
    }
  }

  /** Every node of `s` is reachable from `a`. */
  ghost predicate LinkedFrom(edges: seq<Edge>, a: int, s: set<int>) {
    forall v :: v in s ==> Linked(edges, a, v)
  }

  /** Every edge touching a node of `added` has both endpoints in `visited`. */
  ghost predicate ClosedAround(edges: seq<Edge>, added: set<int>, visited: set<int>) {
    forall e :: e in edges && (e.node1 in added || e.node2 in added) ==> e.node1 in visited && e.node2 in visited
  }

  /** Midway through a depth-first search from `a` that began with the visited
      set `start`: `a` and everything added since are reachable from `a`, and
      every edge at an added node other than `a` ends inside `visited`. */
  ghost predicate Searching(edges: seq<Edge>, a: int, start: set<int>, visited: set<int>) {
    && start + {a} <= visited
    && LinkedFrom(edges, a, visited - start)
    && ClosedAround(edges, visited - start - {a}, visited)
  }

  /** A finished depth-first search from `a`: it visited `a`, and what it added
      is reachable from `a` and left by no edge. */
  ghost predicate Searched(edges: seq<Edge>, a: int, start: set<int>, visited: set<int>) {
    && start + {a} <= visited
    && LinkedFrom(edges, a, visited - start)
    && ClosedAround(edges, visited - start, visited)
  }

  lemma SearchBegins(edges: seq<Edge>, a: int, start: set<int>)
    ensures Searching(edges, a, start, start + {a})
  {
  }

  /** One recursive visit of a neighbour `b` of `a` keeps the search of `a` on track. */
  lemma {:induction false} SearchStep(edges: seq<Edge>, a: int, e: Edge, b: int,
                                      start: set<int>, before: set<int>, after: set<int>)
    requires e in edges && Joins(e, a, b)
    requires Searching(edges, a, start, before) && b !in before
    requires Searched(edges, b, before, after)
    ensures Searching(edges, a, start, after)
  {
    LinkedStep(edges, a, e);
    forall v | v in after - start
      ensures Linked(edges, a, v)
    {
      if v !in before {
        LinkedTrans(edges, a, b, v);
      }
    }
  }

  /** A closed set grows into a closed set when every edge at the new nodes stays inside. */
  lemma ClosedGrows(edges: seq<Edge>, s: set<int>, s': set<int>)
    requires Closed(edges, s) && s <= s' && ClosedAround(edges, s' - s, s')
    ensures Closed(edges, s')
  {
  }

  /** The state of the component count after the sweep has looked at nodes
      `0..idx` of an `n`-node graph: those nodes are visited, the visited set
      is closed under edges, and `count` components were found so far (the
      first one is exactly what node 0 reaches; a second one means some node
      is out of node 0's reach). */
  ghost predicate Sweep(edges: seq<Edge>, n: int, idx: int, visited: set<int>, count: int) {
    && (forall v :: 0 <= v < idx ==> v in visited)
    && Closed(edges, visited)
    && 0 <= count <= idx
    && (idx > 0 ==> count >= 1)
    && (count == 0 ==> visited == {})
    && (count >= 1 ==> 0 in visited)
    && (count == 1 ==> LinkedFrom(edges, 0, visited))
    && (count >= 2 ==> exists v :: 0 <= v < n && !Linked(edges, 0, v))
  }

  lemma SweepBegins(edges: seq<Edge>, n: int)
    ensures Sweep(edges, n, 0, {}, 0)
  {
  }

  /** A node already visited adds no component. */
  lemma SweepSkip(edges: seq<Edge>, n: int, idx: int, visited: set<int>, count: int)
    requires Sweep(edges, n, idx, visited, count) && idx in visited
    ensures Sweep(edges, n, idx + 1, visited, count)
  {
  }

  /** A node not yet visited starts a new component, found by a depth-first
      search from it; when it is not the first, that node is out of node 0's
      reach. */
  lemma {:induction false} SweepVisit(edges: seq<Edge>, n: int, idx: int, visited: set<int>, count: int, visited': set<int>)
    requires Sweep(edges, n, idx, visited, count) && 0 <= idx < n && idx !in visited
    requires Searched(edges, idx, visited, visited')
    ensures Sweep(edges, n, idx + 1, visited', count + 1)
  {
    if count >= 1 {
      assert Closed(edges, visited) && 0 in visited;
      assert !Linked(edges, 0, idx);
    } else {
      assert visited == {} && idx == 0;
      assert LinkedFrom(edges, 0, visited' - visited);
      assert visited' - visited == visited';
    }
    ClosedGrows(edges, visited, visited');
  }

  /** After the whole sweep, one component means connected. */
  lemma SweepDone(edges: seq<Edge>, n: int, visited: set<int>, count: int)
    requires Sweep(edges, n, n, visited, count)
    ensures count == 1 <==> Connected(n, edges)
  {
  }

  /** Every node some edge touches. */
  ghost function Ends(edges: seq<Edge>): set<int> {
    (set e | e in edges :: e.node1) + (set e | e in edges :: e.node2)
  }

  /** Edges are undirected: reachability is symmetric. */
  lemma {:induction false} LinkedSym(edges: seq<Edge>, a: int, b: int)
    requires Linked(edges, a, b)
    ensures Linked(edges, b, a)
  {
    forall s | Closed(edges, s) && b in s
      ensures a in s
    {
      if a !in s {
        // the finite complement of `s` holds `a` and is closed too
        var t := (Ends(edges) + {a, b}) - s;
        forall e | e in edges
          ensures e.node1 in t <==> e.node2 in t
        {
          assert e.node1 in Ends(edges) && e.node2 in Ends(edges);
        }
        assert Closed(edges, t) && a in t;
      }
    }
  }

  /** When `forest` links the endpoints of every edge, it links whatever the edges link. */
  lemma {:induction false} LinkedVia(edges: seq<Edge>, forest: seq<Edge>, a: int, b: int)
    requires forall e :: e in edges ==> Linked(forest, e.node1, e.node2)
    requires Linked(edges, a, b)
    ensures Linked(forest, a, b)
  {
    forall s | Closed(forest, s) && a in s
      ensures b in s
    {
      forall e | e in edges
        ensures e.node1 in s <==> e.node2 in s
      {
        LinkedSym(forest, e.node1, e.node2);
      }
      assert Closed(edges, s);
    }
  }

  /** `forest` links the two endpoints of every edge of `edges`. */
  ghost predicate LinksAll(forest: seq<Edge>, edges: seq<Edge>) {
    forall e :: e in edges ==> Linked(forest, e.node1, e.node2)
  }

  /** Growing the forest keeps what it linked; the next edge, whose endpoints
      it links, joins the linked prefix. */
  lemma {:induction false} LinksAllNext(before: seq<Edge>, forest: seq<Edge>, edges: seq<Edge>, k: int)
    requires 0 <= k < |edges|
    requires forall f :: f in before ==> f in forest
    requires LinksAll(before, edges[..k]) && Linked(forest, edges[k].node1, edges[k].node2)
    ensures LinksAll(forest, edges[..k + 1])
  {
    assert edges[..k + 1] == edges[..k] + [edges[k]];
    forall f | f in edges[..k + 1]
      ensures Linked(forest, f.node1, f.node2)
    {
      if f in edges[..k] {
        LinkedGrows(before, forest, f.node1, f.node2);
      }
    }
  }

  /** `forest` is a spanning forest of `edges`: made of some of them, free of
      cycles, and linking the two endpoints of every edge, hence every pair
      of nodes the edges link. */
  ghost predicate SpanningForest(edges: seq<Edge>, forest: seq<Edge>) {
    && (forall e :: e in forest ==> e in edges)
    && Acyclic(forest)
    && LinksAll(forest, edges)
  }

  /** A spanning forest of a connected graph connects it too. */
  lemma {:induction false} SpanningConnects(n: int, edges: seq<Edge>, forest: seq<Edge>)
    requires SpanningForest(edges, forest) && Connected(n, edges)
    ensures Connected(n, forest)
  {
    forall v | 0 <= v < n
      ensures Linked(forest, 0, v)
    {
      LinkedVia(edges, forest, 0, v);
    }
  }

  /** In a connected graph a non-empty set of nodes that misses some node is
      left by some edge. */
  lemma {:induction false} CrossingEdgeExists(n: int, edges: seq<Edge>, t: set<int>, inside: int, outside: int)
    requires Connected(n, edges)
    requires forall e :: e in edges ==> Within(e, n)
    requires inside in t && 0 <= inside < n
    requires outside !in t && 0 <= outside < n
    ensures exists e :: e in edges && (e.node1 in t) != (e.node2 in t)
  {
    if 0 in t {
      // `outside` is reachable from 0 yet not in `t`
      assert Linked(edges, 0, outside);
      assert !Closed(edges, t);
    } else {
      // the nodes outside `t` hold 0 but not `inside`, which 0 reaches
      var c := Below(n) - t;
      assert Linked(edges, 0, inside);
      assert !Closed(edges, c);
      var e :| e in edges && !(e.node1 in c <==> e.node2 in c);
      assert Within(e, n);
    }
  }
}

/** How the union-find forest of Kruskal and Borůvka relates to the edges
    already accepted: both partition the nodes the same way. */
module Forest {
  import opened Wrappers
  import opened Entities
  import opened Sorting
  import opened UnionFind
  import opened Connectivity

  /** The sets of the union-find forest are exactly the components of `mst`. */
  ghost predicate Tracks(p: seq<int>, rk: seq<int>, mst: seq<Edge>) {
    && Inv(p, rk)
    && (forall e :: e in mst ==> Within(e, |p|) && Root(p, rk, e.node1) == Root(p, rk, e.node2))
    && (forall i, j :: 0 <= i < |p| && 0 <= j < |p| && Root(p, rk, i) == Root(p, rk, j) ==> Linked(mst, i, j))
  }

  lemma TracksInit(n: nat, p: seq<int>, rk: seq<int>)
    requires |p| == n && |rk| == n
    requires forall i :: 0 <= i < n ==> p[i] == i && rk[i] == 0
    ensures Tracks(p, rk, []) && |RootSet(p)| == n
  {
    SingletonsInv(n, p, rk);
  }

  /** Nodes linked by the accepted edges share a root. */
  lemma {:induction false} LinkedSameRoot(p: seq<int>, rk: seq<int>, mst: seq<Edge>, i: int, j: int)
    requires Tracks(p, rk, mst) && 0 <= i < |p| && 0 <= j < |p|
    ensures Linked(mst, i, j) <==> Root(p, rk, i) == Root(p, rk, j)
  {
    if Linked(mst, i, j) {
      var s := set k | 0 <= k < |p| && Root(p, rk, k) == Root(p, rk, i);
      assert Closed(mst, s);
      assert i in s;
    }
  }

  /** Finds change no root, so the forest still tracks the same edges. */
  lemma TracksSameRoots(p: seq<int>, rk: seq<int>, p': seq<int>, mst: seq<Edge>)
    requires Tracks(p, rk, mst) && Inv(p', rk) && |p'| == |p|
    requires forall y :: 0 <= y < |p| ==> Root(p', rk, y) == Root(p, rk, y)
    ensures Tracks(p', rk, mst)
  {
  }

  /** Accepting an edge between two different sets and merging them keeps the
      forest tracking the accepted edges, and the edge closes no cycle. */
  lemma {:induction false} TracksAccept(p: seq<int>, rk: seq<int>, p': seq<int>, rk': seq<int>, mst: seq<Edge>, e: Edge)
    requires Tracks(p, rk, mst) && Within(e, |p|)
    requires Root(p, rk, e.node1) != Root(p, rk, e.node2)
    requires Inv(p', rk') && |p'| == |p|
    requires Merged(p, rk, p', rk', e.node1, e.node2)
    ensures Tracks(p', rk', mst + [e])
    ensures !Linked(mst, e.node1, e.node2)
  {
    var a, b := e.node1, e.node2;
    var ra, rb := Root(p, rk, a), Root(p, rk, b);
    var es := mst + [e];
    LinkedSameRoot(p, rk, mst, a, b);
    forall x | x in es
      ensures Within(x, |p|) && Root(p', rk', x.node1) == Root(p', rk', x.node2)
    {
      if x in mst {
        assert Root(p, rk, x.node1) == Root(p, rk, x.node2);
      }
    }
    forall i, j | 0 <= i < |p| && 0 <= j < |p| && Root(p', rk', i) == Root(p', rk', j)
      ensures Linked(es, i, j)
    {
      var ri, rj := Root(p, rk, i), Root(p, rk, j);
      if ri == rj {
        LinkedGrows(mst, es, i, j);
      } else {
        assert (ri == ra || ri == rb) && (rj == ra || rj == rb);
        // i reaches one endpoint of e, j the other
        var ei, ej := if ri == ra then a else b, if rj == ra then a else b;
        LinkedGrows(mst, es, i, ei);
        LinkedGrows(mst, es, ej, j);
        LinkedStep(es, i, e);
        LinkedTrans(es, i, ej, j);
      }
    }
  }

  /** `TracksAccept` for a union called on `a` and `b`, which share their
      roots with the endpoints of `e`; the forest then has one set fewer. */
  lemma {:induction false} TracksUnion(p: seq<int>, rk: seq<int>, p': seq<int>, rk': seq<int>,
                                       mst: seq<Edge>, e: Edge, a: int, b: int)
    requires Tracks(p, rk, mst) && Within(e, |p|) && 0 <= a < |p| && 0 <= b < |p|
    requires Root(p, rk, a) == Root(p, rk, e.node1) && Root(p, rk, b) == Root(p, rk, e.node2)
    requires Root(p, rk, a) != Root(p, rk, b)
    requires Unioned(p, rk, p', rk', a, b)
    ensures Tracks(p', rk', mst + [e]) && !Linked(mst, e.node1, e.node2)
    ensures |RootSet(p')| == |RootSet(p)| - 1
  {
    var w := Root(p', rk', a);
    assert Root(p', rk', e.node1) == w && Root(p', rk', e.node2) == w;
    assert Merged(p, rk, p', rk', e.node1, e.node2);
    TracksAccept(p, rk, p', rk', mst, e);
  }

  /** When every edge of a connected graph stays inside one set, there is a single root. */
  lemma {:induction false} OneRootWhenSpanning(p: seq<int>, rk: seq<int>, n: int, edges: seq<Edge>)
    requires Inv(p, rk) && |p| == n && Connected(n, edges)
    requires forall e :: e in edges ==> Within(e, n) && Root(p, rk, e.node1) == Root(p, rk, e.node2)
    ensures RootSet(p) == {Root(p, rk, 0)}
    ensures |RootSet(p)| == 1
  {
    var r0 := Root(p, rk, 0);
    var s := set k | 0 <= k < n && Root(p, rk, k) == r0;
    assert Closed(edges, s);
    forall r | r in RootSet(p)
      ensures r == r0
    {
      assert Linked(edges, 0, r);
      assert Root(p, rk, r) == r;
    }
  }

  /** In a connected graph, more than one root means some edge still joins two sets. */
  lemma CrossingWhileManyRoots(p: seq<int>, rk: seq<int>, n: int, edges: seq<Edge>)
    requires Inv(p, rk) && |p| == n && Connected(n, edges) && |RootSet(p)| > 1
    requires forall e :: e in edges ==> Within(e, n)
    ensures exists e :: e in edges && Within(e, n) && Root(p, rk, e.node1) != Root(p, rk, e.node2)
  {
    if forall e :: e in edges ==> Root(p, rk, e.node1) == Root(p, rk, e.node2) {
      OneRootWhenSpanning(p, rk, n, edges);
    }
  }

  /** What a union-find run that accepted a spanning forest leaves: one set
      per component, so the forest has fewer edges than nodes, none on the
      empty graph, and exactly `n - 1` on a connected graph, which it connects. */
  lemma {:induction false} ForestSize(p: seq<int>, rk: seq<int>, n: int, edges: seq<Edge>, mst: seq<Edge>)
    requires Tracks(p, rk, mst) && |p| == n && |RootSet(p)| + |mst| == n
    requires SpanningForest(edges, mst)
    requires forall e :: e in edges ==> Within(e, n)
    ensures n == 0 ==> mst == []
    ensures n > 0 ==> |mst| < n
    ensures Connected(n, edges) ==> |mst| == n - 1 && Connected(n, mst)
  {
    if n > 0 {
      assert Root(p, rk, 0) in RootSet(p);
    }
    if Connected(n, edges) {
      forall e | e in edges
        ensures Within(e, n) && Root(p, rk, e.node1) == Root(p, rk, e.node2)
      {
        LinkedSameRoot(p, rk, mst, e.node1, e.node2);
      }
      OneRootWhenSpanning(p, rk, n, edges);
      SpanningConnects(n, edges, mst);
    }
  }

  /** With at most one set left, the accepted edges link every pair of nodes. */
  lemma {:induction false} OneSetLinksAll(p: seq<int>, rk: seq<int>, mst: seq<Edge>, edges: seq<Edge>)
    requires Tracks(p, rk, mst) && |RootSet(p)| <= 1
    requires forall e :: e in edges ==> Within(e, |p|)
    ensures LinksAll(mst, edges)
  {
    forall e | e in edges
      ensures Linked(mst, e.node1, e.node2)
    {
      var r1, r2 := Root(p, rk, e.node1), Root(p, rk, e.node2);
      assert r1 in RootSet(p) && r2 in RootSet(p);
      if r1 != r2 {
        TwoMembers(RootSet(p), r1, r2);
        assert false;
      }
    }
  }

  /** When the forest is down to one set (none on the empty graph), its
      edges span the graph: a tree of `n - 1` edges that connects it. */
  lemma {:induction false} OneSetSpans(p: seq<int>, rk: seq<int>, n: int, edges: seq<Edge>, mst: seq<Edge>)
    requires Tracks(p, rk, mst) && Acyclic(mst) && forall e :: e in mst ==> e in edges
    requires |p| == n && |RootSet(p)| <= 1 && |RootSet(p)| + |mst| == n
    requires forall e :: e in edges ==> Within(e, n)
    requires n <= 1 || Connected(n, edges)
    ensures SpanningForest(edges, mst)
    ensures |mst| == if n == 0 then 0 else n - 1
    ensures n > 0 ==> Connected(n, mst)
  {
    OneSetLinksAll(p, rk, mst, edges);
    if n == 1 {
      assert Linked(edges, 0, 0);
    }
    ForestSize(p, rk, n, edges, mst);
  }

  /** The state of Kruskal's scan after the first `k` of the sorted `edges`:
      the union-find forest tracks the acyclic `mst`, one set fewer per
      accepted edge, `mst` links the endpoints of every edge scanned, holds
      only scanned edges and stays sorted by weight, its last edge being
      `edges[last]`. */
  ghost predicate Scanning(edges: seq<Edge>, k: int, p: seq<int>, rk: seq<int>, mst: seq<Edge>, last: int) {
    && 0 <= k <= |edges|
    && Tracks(p, rk, mst) && Acyclic(mst)
    && |RootSet(p)| + |mst| == |p|
    && LinksAll(mst, edges[..k])
    && (forall e :: e in mst ==> e in edges)
    && SortedBy(mst, Weight)
    && (|mst| > 0 ==> 0 <= last < k && mst[|mst| - 1] == edges[last])
  }

  /** Before the first edge the scan is on track with an empty forest. */
  lemma ScanBegins(edges: seq<Edge>, p: seq<int>, rk: seq<int>)
    requires Tracks(p, rk, []) && |RootSet(p)| == |p|
    ensures Scanning(edges, 0, p, rk, [], 0)
  {
  }

  /** After the last edge the scan has built a spanning forest of `edges`,
      sorted by weight and tracked by the union-find forest. */
  lemma ScanDone(edges: seq<Edge>, p: seq<int>, rk: seq<int>, mst: seq<Edge>, last: int)
    requires Scanning(edges, |edges|, p, rk, mst, last)
    ensures Tracks(p, rk, mst) && |RootSet(p)| + |mst| == |p|
    ensures SpanningForest(edges, mst) && SortedBy(mst, Weight)
  {
    assert edges[..|edges|] == edges;
  }

  /** An edge the union-find test accepts keeps the scan on track: it is the
      new last edge, no lighter than the one before. */
  lemma {:induction false} ScanAccept(edges: seq<Edge>, k: int, p: seq<int>, rk: seq<int>, mst: seq<Edge>, last: int,
                                      p': seq<int>, rk': seq<int>)
    requires SortedBy(edges, Weight) && Scanning(edges, k, p, rk, mst, last) && k < |edges|
    requires Tracks(p', rk', mst + [edges[k]]) && Acyclic(mst + [edges[k]]) && |p'| == |p|
    requires Linked(mst + [edges[k]], edges[k].node1, edges[k].node2)
    requires |RootSet(p')| + 1 == |RootSet(p)|
    ensures Scanning(edges, k + 1, p', rk', mst + [edges[k]], k)
  {
    var mst' := mst + [edges[k]];
    LinksAllNext(mst, mst', edges, k);
    SortedSnoc(mst, edges[k], Weight);
    assert forall e :: e in mst' ==> e in edges;
  }

  /** An edge the union-find test refuses leaves the forest's sets as they
      were, and its endpoints were already linked. */
  lemma {:induction false} ScanRefuse(edges: seq<Edge>, k: int, p: seq<int>, rk: seq<int>, mst: seq<Edge>, last: int,
                                      p': seq<int>, rk': seq<int>)
    requires Scanning(edges, k, p, rk, mst, last) && k < |edges|
    requires Tracks(p', rk', mst) && |p'| == |p| && |RootSet(p')| == |RootSet(p)|
    requires Linked(mst, edges[k].node1, edges[k].node2)
    ensures Scanning(edges, k + 1, p', rk', mst, last)
  {
    LinksAllNext(mst, mst, edges, k);
  }

  /** `e` joins two different sets of the forest. */
  ghost predicate Crosses(p: seq<int>, rk: seq<int>, e: Edge)
    requires Inv(p, rk) && Within(e, |p|)
  {
    Root(p, rk, e.node1) != Root(p, rk, e.node2)
  }

  /** The slot of root `r` offered edge `e`: it takes `e` when empty or when
      its edge is strictly heavier, so among equal weights the first stays. */
  function Offer(choice: seq<Option<Edge>>, r: int, e: Edge): (c: seq<Option<Edge>>)
    requires 0 <= r < |choice|
    ensures |c| == |choice|
    ensures c[r].Some? && c[r].value.weight <= e.weight
    ensures forall q :: 0 <= q < |c| && choice[q].Some? ==> c[q].Some? && c[q].value.weight <= choice[q].value.weight
    ensures forall q :: 0 <= q < |c| ==> c[q] == choice[q] || (q == r && c[q] == Some(e))
  {
    if choice[r].None? || choice[r].value.weight > e.weight then choice[r := Some(e)] else choice
  }

  /** What the scan of a Borůvka round leaves in `cheapest`, indexed by root:
      every edge joining two sets is offered to the slots of both roots, in
      the order of `edges`. */
  ghost function Cheapest(p: seq<int>, rk: seq<int>, edges: seq<Edge>): (c: seq<Option<Edge>>)
    requires Inv(p, rk) && forall e :: e in edges ==> Within(e, |p|)
    ensures |c| == |p|
  {
    if edges == [] then seq(|p|, _ => None)
    else
      var c := Cheapest(p, rk, edges[..|edges| - 1]);
      var e := edges[|edges| - 1];
      assert e in edges && Within(e, |p|);
      var r1, r2 := Root(p, rk, e.node1), Root(p, rk, e.node2);
      if r1 != r2 then Offer(Offer(c, r1, e), r2, e) else c
  }

  /** `c` leaves the set whose root is `r`. */
  ghost predicate Leaves(p: seq<int>, rk: seq<int>, r: int, c: Edge)
    requires Inv(p, rk) && Within(c, |p|)
  {
    Crosses(p, rk, c) && (Root(p, rk, c.node1) == r || Root(p, rk, c.node2) == r)
  }

  /** Every chosen edge is one of `edges` and leaves the set it was chosen for. */
  lemma {:induction false} CheapestLeaves(p: seq<int>, rk: seq<int>, edges: seq<Edge>)
    requires Inv(p, rk) && forall e :: e in edges ==> Within(e, |p|)
    ensures forall r :: 0 <= r < |p| && Cheapest(p, rk, edges)[r].Some? ==>
              var c := Cheapest(p, rk, edges)[r].value;
              c in edges && Within(c, |p|) && Leaves(p, rk, r, c)
    ensures ChosenFrom(Cheapest(p, rk, edges), edges, |p|)
  {
    if edges != [] {
      var prefix := edges[..|edges| - 1];
      assert forall e :: e in prefix ==> e in edges;
      CheapestLeaves(p, rk, prefix);
    }
  }

  /** Every slot of `c` that holds an edge holds one of `edges`, inside an
      `n`-node graph. */
  ghost predicate ChosenFrom(c: seq<Option<Edge>>, edges: seq<Edge>, n: int) {
    forall q :: 0 <= q < |c| && c[q].Some? ==> c[q].value in edges && Within(c[q].value, n)
  }

  /** Every edge of `added` is held by one of the first `i` slots of `c`. */
  ghost predicate FromSlots(added: seq<Edge>, c: seq<Option<Edge>>, i: int) {
    forall e :: e in added ==> exists q :: 0 <= q < i && q < |c| && c[q] == Some(e)
  }

  /** Accepting slot `i`'s edge, or nothing, keeps the added edges drawn from
      the slots seen so far. */
  lemma {:induction false} FromSlotsNext(mst0: seq<Edge>, before: seq<Edge>, mst: seq<Edge>, c: seq<Option<Edge>>, i: int)
    requires 0 <= i < |c| && mst0 <= before && FromSlots(before[|mst0|..], c, i)
    requires mst == before || (c[i].Some? && mst == before + [c[i].value])
    ensures mst0 <= mst && FromSlots(mst[|mst0|..], c, i + 1)
  {
    if mst != before {
      assert mst[|mst0|..] == before[|mst0|..] + [c[i].value];
    }
  }

  /** One more edge offers itself to the slots of its two roots when it joins two sets. */
  lemma CheapestSnoc(p: seq<int>, rk: seq<int>, edges: seq<Edge>, k: int)
    requires Inv(p, rk) && forall e :: e in edges ==> Within(e, |p|)
    requires 0 <= k < |edges| && Within(edges[k], |p|)
    ensures var c, e := Cheapest(p, rk, edges[..k]), edges[k];
            var r1, r2 := Root(p, rk, e.node1), Root(p, rk, e.node2);
            Cheapest(p, rk, edges[..k + 1]) == if r1 != r2 then Offer(Offer(c, r1, e), r2, e) else c
  {
    assert edges[..k + 1][..k] == edges[..k];
  }

  /** Every edge joining two sets is matched, in the slots of both its roots,
      by a chosen edge that weighs no more. */
  lemma {:induction false} CheapestCovers(p: seq<int>, rk: seq<int>, edges: seq<Edge>)
    requires Inv(p, rk) && forall e :: e in edges ==> Within(e, |p|)
    ensures forall e :: e in edges && Crosses(p, rk, e) ==>
              var c, r1, r2 := Cheapest(p, rk, edges), Root(p, rk, e.node1), Root(p, rk, e.node2);
              && c[r1].Some? && c[r1].value.weight <= e.weight
              && c[r2].Some? && c[r2].value.weight <= e.weight
  {
    if edges != [] {
      var prefix, last := edges[..|edges| - 1], edges[|edges| - 1];
      assert forall e :: e in prefix ==> e in edges;
      CheapestCovers(p, rk, prefix);
      var c0, c := Cheapest(p, rk, prefix), Cheapest(p, rk, edges);
      forall e | e in edges && Crosses(p, rk, e)
        ensures var r1, r2 := Root(p, rk, e.node1), Root(p, rk, e.node2);
                && c[r1].Some? && c[r1].value.weight <= e.weight
                && c[r2].Some? && c[r2].value.weight <= e.weight
      {
        if e != last {
          assert e in prefix by {
            assert edges == prefix + [last];
          }
        }
      }
    }
  }

  /** In a round of a connected graph with more than one set left, some slot
      holds an edge that joins two sets, and every slot holds one of the edges. */
  lemma CrossingSlot(p: seq<int>, rk: seq<int>, edges: seq<Edge>) returns (r: int)
    requires Inv(p, rk) && forall e :: e in edges ==> Within(e, |p|)
    requires Connected(|p|, edges) && |RootSet(p)| > 1
    ensures ChosenFrom(Cheapest(p, rk, edges), edges, |p|)
    ensures 0 <= r < |p| && Cheapest(p, rk, edges)[r].Some?
    ensures Crosses(p, rk, Cheapest(p, rk, edges)[r].value)
  {
    CrossingWhileManyRoots(p, rk, |p|, edges);
    var e :| e in edges && Within(e, |p|) && Root(p, rk, e.node1) != Root(p, rk, e.node2);
    CheapestLeaves(p, rk, edges);
    CheapestCovers(p, rk, edges);
    r := Root(p, rk, e.node1);
  }

  /** `p` differs from `p0` by path compression at most: a forest over the
      same nodes with the same roots, so the same sets. */
  ghost predicate SameSets(p0: seq<int>, p: seq<int>, rk: seq<int>)
    requires Inv(p0, rk)
  {
    && Inv(p, rk) && |p| == |p0| && RootSet(p) == RootSet(p0)
    && forall y :: 0 <= y < |p| ==> Root(p, rk, y) == Root(p0, rk, y)
  }

  lemma SameSetsTrans(p0: seq<int>, p1: seq<int>, p2: seq<int>, rk: seq<int>)
    requires Inv(p0, rk) && SameSets(p0, p1, rk) && SameSets(p1, p2, rk)
    ensures SameSets(p0, p2, rk)
  {
  }

  /** Whether an edge crosses depends only on the sets. */
  lemma CrossesSame(p0: seq<int>, p: seq<int>, rk: seq<int>, e: Edge)
    requires Inv(p0, rk) && SameSets(p0, p, rk) && Within(e, |p0|)
    ensures Crosses(p, rk, e) == Crosses(p0, rk, e)
  {
  }

  /** The two `findParent` calls on the endpoints of `e`: they return the two
      roots and only compress paths, so no root and no set changes. */
  method FindBoth(parent: array<int>, ghost rk: seq<int>, e: Edge) returns (root1: int, root2: int)
    requires Inv(parent[..], rk) && Within(e, parent.Length)
    modifies parent
    ensures root1 == Root(old(parent[..]), rk, e.node1) && root2 == Root(old(parent[..]), rk, e.node2)
    ensures SameSets(old(parent[..]), parent[..], rk)
  {
    ghost var p0 := parent[..];
    root1 := FindParent(parent, rk, e.node1);
    CompressKeepsRoots(p0, rk, e.node1);
    ghost var p1 := parent[..];
    root2 := FindParent(parent, rk, e.node2);
    CompressKeepsRoots(p1, rk, e.node2);
  }

  /** The step Kruskal and Borůvka share: find the roots of the endpoints of
      `edge` and, when they differ, accept the edge and union the two sets.
      An edge is accepted exactly when it crosses between two sets, which is
      when the accepted edges do not already link its endpoints, so they stay
      a forest; afterwards they link its endpoints either way. A rejected edge
      changes no set. */
  method TryLink(parent: array<int>, rank: array<int>, mst: seq<Edge>, edge: Edge)
    returns (accepted: bool, mst': seq<Edge>)
    requires parent != rank && Tracks(parent[..], rank[..], mst) && Within(edge, parent.Length)
    requires Acyclic(mst)
    modifies parent, rank
    ensures Tracks(parent[..], rank[..], mst') && Acyclic(mst')
    ensures accepted <==> Crosses(old(parent[..]), old(rank[..]), edge)
    ensures accepted <==> !Linked(mst, edge.node1, edge.node2)
    ensures mst' == if accepted then mst + [edge] else mst
    ensures Linked(mst', edge.node1, edge.node2)
    ensures |RootSet(parent[..])| + |mst'| == |RootSet(old(parent[..]))| + |mst|
    ensures !accepted ==> rank[..] == old(rank[..]) && SameSets(old(parent[..]), parent[..], rank[..])
  {
    ghost var p0, k0 := parent[..], rank[..];
    var root1, root2 := FindBoth(parent, rank[..], edge);
    ghost var p2 := parent[..];
    assert rank[..] == k0;
    TracksSameRoots(p0, k0, p2, mst);
    LinkedSameRoot(p2, k0, mst, edge.node1, edge.node2);
    if root1 != root2 {
      accepted, mst' := true, mst + [edge];
      assert Root(p2, k0, root1) == root1 && Root(p2, k0, root2) == root2;
      UnionSet(parent, rank, root1, root2);
      TracksUnion(p2, k0, parent[..], rank[..], mst, edge, root1, root2);
      AcyclicSnoc(mst, edge);
      LinkedSameRoot(parent[..], rank[..], mst', edge.node1, edge.node2);
    } else {
      accepted, mst' := false, mst;
    }
  }

  /** One step of Kruskal's scan: offers the `k`-th of the sorted edges to
      `TryLink`; the scan stays on track, with that edge as the new last one
      when it is accepted. */
  method ScanEdge(parent: array<int>, rank: array<int>, edges: seq<Edge>, k: int, mst: seq<Edge>, ghost last: int)
    returns (accepted: bool, mst': seq<Edge>)
    requires parent != rank && SortedBy(edges, Weight) && k < |edges|
    requires forall e :: e in edges ==> Within(e, parent.Length)
    requires Scanning(edges, k, parent[..], rank[..], mst, last)
    modifies parent, rank
    ensures mst' == if accepted then mst + [edges[k]] else mst
    ensures Scanning(edges, k + 1, parent[..], rank[..], mst', if accepted then k else last)
  {
    ghost var p, rk := parent[..], rank[..];
    accepted, mst' := TryLink(parent, rank, mst, edges[k]);
    if accepted {
      ScanAccept(edges, k, p, rk, mst, last, parent[..], rank[..]);
    } else {
      ScanRefuse(edges, k, p, rk, mst, last, parent[..], rank[..]);
    }
  }
}
