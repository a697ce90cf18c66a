/** Value-level specification of the graph store: the invariants its fields keep,
    the `filter`/`map` steps of removal and renumbering, and the weight matrix. */
module GraphSpec {
  import opened Entities
  import opened Sorting
  import opened Connectivity

  /** Node ids equal their positions. */
  predicate NodesNumbered(nodes: seq<Node>) {
    forall i :: 0 <= i < |nodes| ==> nodes[i].id == i
  }

  predicate EdgesWithin(edges: seq<Edge>, n: int) {
    forall e :: e in edges ==> Within(e, n)
  }

  predicate IdsBelow(edges: seq<Edge>, edgeCount: int) {
    forall e :: e in edges ==> 0 <= e.id < edgeCount
  }

  /** `ok` holds of every pair of elements, taken in their order. */
  predicate Pairwise<T>(s: seq<T>, ok: (T, T) -> bool) {
    forall i, j :: 0 <= i < j < |s| ==> ok(s[i], s[j])
  }

  predicate DistinctIds(a: Edge, b: Edge) { a.id != b.id }

  /** The two edges do not join the same pair of nodes. */
  predicate NotParallel(a: Edge, b: Edge) { !Joins(a, b.node1, b.node2) }

  /** What the store keeps true between calls: node ids are positions and
      `nodeCount` their number, edges join existing nodes, edge ids are distinct
      and below `edgeCount`, and no pair of nodes is joined twice. */
  predicate StoreValid(nodes: seq<Node>, edges: seq<Edge>, nodeCount: int, edgeCount: int) {
    && NodesNumbered(nodes) && nodeCount == |nodes|
    && EdgesWithin(edges, |nodes|)
    && 0 <= edgeCount && IdsBelow(edges, edgeCount) && Pairwise(edges, DistinctIds)
    && Pairwise(edges, NotParallel)
  }

  /** Some node has id `id`. */
  predicate HasNode(nodes: seq<Node>, id: int) {
    exists n :: n in nodes && n.id == id
  }

  /** Some edge joins `a` and `b`, in either direction. */
  predicate HasEdgeBetween(edges: seq<Edge>, a: int, b: int) {
    exists e :: e in edges && Joins(e, a, b)
  }

  /** The far ends of the edges at `v`, in edge order: the neighbours the
      depth-first search visits. */
  function Neighbors(edges: seq<Edge>, v: int): seq<int> {
    if edges == [] then []
    else
      var e := edges[|edges| - 1];
      Neighbors(edges[..|edges| - 1], v) +
        (if e.node1 == v || e.node2 == v then [if e.node1 == v then e.node2 else e.node1] else [])
  }

  /** Every node id some edge touches. */
  ghost function Endpoints(edges: seq<Edge>): set<int> {
    if edges == [] then {}
    else Endpoints(edges[..|edges| - 1]) + {edges[|edges| - 1].node1, edges[|edges| - 1].node2}
  }

  /** `s.filter(x => keep(x, k))`. */
  function Filter<T>(s: seq<T>, keep: (T, int) -> bool, k: int): seq<T>
  {
    if s == [] then []
    else Filter(s[..|s| - 1], keep, k) + (if keep(s[|s| - 1], k) then [s[|s| - 1]] else [])
  }

  predicate NodeIsNot(n: Node, k: int) { n.id != k }
  predicate AvoidsNode(e: Edge, k: int) { e.node1 != k && e.node2 != k }
  predicate EdgeIdIsNot(e: Edge, k: int) { e.id != k }
  predicate Touches(e: Edge, k: int) { e.node1 == k || e.node2 == k }

  /** `nodesArr.map(node => node.id)`. */
  function Ids(nodes: seq<Node>): seq<int> {
    seq(|nodes|, i requires 0 <= i < |nodes| => nodes[i].id)
  }

  /** `ids.indexOf(x)`: the first position holding `x`, or -1. */
  function IndexOf(ids: seq<int>, x: int): int {
    if ids == [] then -1
    else if ids[0] == x then 0
    else
      var r := IndexOf(ids[1..], x);
      if r == -1 then -1 else r + 1
  }

  /** Every node's id set to its position. */
  function Relabel(nodes: seq<Node>): seq<Node> {
    seq(|nodes|, i requires 0 <= i < |nodes| => nodes[i].(id := i))
  }

  /** Every edge's id set to its position. */
  function Renumber(edges: seq<Edge>): seq<Edge> {
    seq(|edges|, i requires 0 <= i < |edges| => edges[i].(id := i))
  }

  /** An edge's endpoints moved to their positions in `originalIds`, when both are found. */
  function RemapEdge(e: Edge, originalIds: seq<int>): Edge {
    var n1, n2 := IndexOf(originalIds, e.node1), IndexOf(originalIds, e.node2);
    if n1 != -1 && n2 != -1 then e.(node1 := n1, node2 := n2) else e
  }

  function RemapEdges(edges: seq<Edge>, originalIds: seq<int>): seq<Edge> {
    seq(|edges|, i requires 0 <= i < |edges| => RemapEdge(edges[i], originalIds))
  }

  /** The id a surviving node gets once node `k` is gone. */
  function Shift(x: int, k: int): int {
    if x < k then x else x - 1
  }

  /** `weightMatrix[e.node1][e.node2]`, the key Prim sorts its queue by; 0
      outside the matrix, where no edge of a valid store lies. */
  function Cell(m: seq<seq<int>>, e: Edge): int {
    if 0 <= e.node1 < |m| && 0 <= e.node2 < |m[e.node1]| then m[e.node1][e.node2] else 0
  }

  /** The weight the matrix shows for `{i, j}`: that of the last edge joining them, else 0. */
  function PairWeight(edges: seq<Edge>, i: int, j: int): int {
    if edges == [] then 0
    else if Joins(edges[|edges| - 1], i, j) then edges[|edges| - 1].weight
    else PairWeight(edges[..|edges| - 1], i, j)
  }

  // ---------------------------------------------------------------- filters

  lemma {:induction false} FilterAppend<T>(a: seq<T>, b: seq<T>, keep: (T, int) -> bool, k: int)
    ensures Filter(a + b, keep, k) == Filter(a, keep, k) + Filter(b, keep, k)
    decreases |b|
  {
    if b == [] {
      assert a + b == a;
    } else {
      assert (a + b)[..|a + b| - 1] == a + b[..|b| - 1];
      FilterAppend(a, b[..|b| - 1], keep, k);
    }
  }

  /** The filter keeps exactly the elements that pass. */
  lemma {:induction false} FilterMembers<T>(s: seq<T>, keep: (T, int) -> bool, k: int)
    ensures forall x :: x in Filter(s, keep, k) <==> x in s && keep(x, k)
    ensures |Filter(s, keep, k)| <= |s|
  {
    if s != [] {
      FilterMembers(s[..|s| - 1], keep, k);
      assert s == s[..|s| - 1] + [s[|s| - 1]];
    }
  }

  /** Where an element of the filter came from. */
  lemma {:induction false} FilterSource<T>(s: seq<T>, keep: (T, int) -> bool, k: int, i: int) returns (m: int)
    requires 0 <= i < |Filter(s, keep, k)|
    ensures 0 <= m < |s| && s[m] == Filter(s, keep, k)[i]
  {
    var p := s[..|s| - 1];
    if i < |Filter(p, keep, k)| {
      m := FilterSource(p, keep, k, i);
    } else {
      m := |s| - 1;
    }
  }

  /** A filter that drops nothing is the identity. */
  lemma {:induction false} FilterKeepsAll<T>(s: seq<T>, keep: (T, int) -> bool, k: int)
    requires forall x :: x in s ==> keep(x, k)
    ensures Filter(s, keep, k) == s
  {
    if s != [] {
      FilterKeepsAll(s[..|s| - 1], keep, k);
      assert s == s[..|s| - 1] + [s[|s| - 1]];
    }
  }

  /** A pairwise property of a sequence holds of any filter of it. */
  lemma {:induction false} FilterPairwise<T>(s: seq<T>, keep: (T, int) -> bool, k: int, ok: (T, T) -> bool)
    requires Pairwise(s, ok)
    ensures Pairwise(Filter(s, keep, k), ok)
  {
    if s != [] {
      var p, l := s[..|s| - 1], s[|s| - 1];
      assert Pairwise(p, ok);
      FilterPairwise(p, keep, k, ok);
      FilterMembers(p, keep, k);
      var f := Filter(p, keep, k);
      forall i, j | 0 <= i < j < |Filter(s, keep, k)|
        ensures ok(Filter(s, keep, k)[i], Filter(s, keep, k)[j])
      {
        if j == |f| {
          var m := FilterSource(p, keep, k, i);
          assert ok(s[m], s[|s| - 1]);
        }
      }
    }
  }

  /** A sequence holding some value twice has two positions for it. */
  lemma {:induction false} TwoPositions<T>(s: seq<T>, x: T)
    requires multiset(s)[x] >= 2
    ensures exists i, j :: 0 <= i < j < |s| && s[i] == x && s[j] == x
  {
    var p, l := s[..|s| - 1], s[|s| - 1];
    assert s == p + [l];
    if l == x {
      assert x in multiset(p);
      var i :| 0 <= i < |p| && p[i] == x;
      assert s[i] == x && s[|s| - 1] == x;
    } else {
      TwoPositions(p, x);
      var i, j :| 0 <= i < j < |p| && p[i] == x && p[j] == x;
      assert s[i] == x && s[j] == x;
    }
  }

  /** A symmetric pairwise property survives any permutation. */
  lemma {:induction false} PermutationPairwise<T>(s: seq<T>, t: seq<T>, ok: (T, T) -> bool)
    requires multiset(t) == multiset(s) && Pairwise(s, ok)
    requires forall a, b :: ok(a, b) == ok(b, a)
    ensures Pairwise(t, ok)
  {
    forall i, j | 0 <= i < j < |t|
      ensures ok(t[i], t[j])
    {
      if t[i] == t[j] {
        assert multiset(t)[t[i]] >= 2 by {
          assert t == t[..i] + [t[i]] + t[i + 1..j] + [t[j]] + t[j + 1..];
        }
        TwoPositions(s, t[i]);
        var a, b :| 0 <= a < b < |s| && s[a] == t[i] && s[b] == t[i];
        assert ok(s[a], s[b]);
      } else {
        assert t[i] in multiset(s) && t[j] in multiset(s);
        var a :| 0 <= a < |s| && s[a] == t[i];
        var b :| 0 <= b < |s| && s[b] == t[j];
        if a < b {
          assert ok(s[a], s[b]);
        } else {
          assert ok(s[b], s[a]);
        }
      }
    }
  }

  // ------------------------------------------------------------ neighbours

  /** The neighbours of `v` are exactly the far ends of the edges at `v`, and
      all of them are endpoints. */
  lemma {:induction false} NeighborsMembers(edges: seq<Edge>, v: int)
    ensures forall w :: w in Neighbors(edges, v) ==> w in Endpoints(edges) && exists e :: e in edges && Joins(e, v, w)
    ensures forall e :: e in edges && e.node1 == v ==> e.node2 in Neighbors(edges, v)
    ensures forall e :: e in edges && e.node2 == v ==> e.node1 in Neighbors(edges, v)
  {
    if edges != [] {
      var p, l := edges[..|edges| - 1], edges[|edges| - 1];
      NeighborsMembers(p, v);
      assert edges == p + [l];
      forall w | w in Neighbors(edges, v)
        ensures w in Endpoints(edges) && exists e :: e in edges && Joins(e, v, w)
      {
        if w !in Neighbors(p, v) {
          assert Joins(l, v, w);
        }
      }
    }
  }

  /** Sorting the edges by weight only reorders them, so the store stays valid. */
  lemma SortedEdgesKeepValid(nodes: seq<Node>, edges: seq<Edge>, nodeCount: int, edgeCount: int)
    requires StoreValid(nodes, edges, nodeCount, edgeCount)
    ensures StoreValid(nodes, SortSpec(edges, Weight), nodeCount, edgeCount)
  {
    var t := SortSpec(edges, Weight);
    SortSpecPermutes(edges, Weight);
    forall e | e in t
      ensures e in edges
    {
      assert e in multiset(t);
    }
    PermutationPairwise(edges, t, DistinctIds);
    PermutationPairwise(edges, t, NotParallel);
  }

  /** A neighbour of `a` is an endpoint, joined to `a` by the returned edge. */
  lemma NeighborEdge(edges: seq<Edge>, a: int, w: int) returns (e: Edge)
    requires w in Neighbors(edges, a)
    ensures e in edges && Joins(e, a, w) && w in Endpoints(edges)
  {
    NeighborsMembers(edges, a);
    e :| e in edges && Joins(e, a, w);
  }

  /** Once every neighbour of `a` is visited, every edge at a node the search
      of `a` added stays inside the visited set. */
  lemma SearchDone(edges: seq<Edge>, a: int, start: set<int>, visited: set<int>)
    requires Searching(edges, a, start, visited)
    requires forall k :: 0 <= k < |Neighbors(edges, a)| ==> Neighbors(edges, a)[k] in visited
    ensures Searched(edges, a, start, visited)
  {
    NeighborsMembers(edges, a);
  }

  // ------------------------------------------------------------ renumbering

  /** `indexOf` finds the first occurrence, or reports -1 for an absent value. */
  lemma {:induction false} IndexOfFirst(ids: seq<int>, x: int)
    ensures var r := IndexOf(ids, x);
      (r == -1 && x !in ids) || (0 <= r < |ids| && ids[r] == x && x !in ids[..r])
  {
    if ids != [] && ids[0] != x {
      IndexOfFirst(ids[1..], x);
      var r := IndexOf(ids[1..], x);
      if r != -1 {
        assert ids[..r + 1] == [ids[0]] + ids[1..][..r];
      } else {
        assert ids == [ids[0]] + ids[1..];
      }
    }
  }

  /** Filtering node `k` out of numbered nodes removes exactly position `k`. */
  lemma {:induction false} FilterNumbered(nodes: seq<Node>, k: int)
    requires NodesNumbered(nodes)
    ensures Filter(nodes, NodeIsNot, k) == if 0 <= k < |nodes| then nodes[..k] + nodes[k + 1..] else nodes
  {
    if nodes != [] {
      var p, l := nodes[..|nodes| - 1], nodes[|nodes| - 1];
      assert NodesNumbered(p);
      FilterNumbered(p, k);
      assert l.id == |p|;
      if k == |p| {
        assert nodes[..k] + nodes[k + 1..] == p;
      } else if 0 <= k < |p| {
        assert nodes[..k] + nodes[k + 1..] == p[..k] + p[k + 1..] + [l];
      } else {
        assert nodes == p + [l];
      }
    }
  }

  /** Removing node `k` from a numbered list and relabelling renumbers the
      survivors to `0..n-2` in their previous order, keeping their coordinates. */
  lemma {:induction false} RemoveNodeRenumbers(nodes: seq<Node>, k: int)
    requires NodesNumbered(nodes)
    ensures var r := Relabel(Filter(nodes, NodeIsNot, k));
      && NodesNumbered(r)
      && |r| == (if 0 <= k < |nodes| then |nodes| - 1 else |nodes|)
      && forall i :: 0 <= i < |r| ==>
           var old_i := if 0 <= k <= i then i + 1 else i;
           r[i].x == nodes[old_i].x && r[i].y == nodes[old_i].y
  {
    FilterNumbered(nodes, k);
  }

  /** The survivors of a removal from numbered nodes are still in id order, so
      sorting them by id moves nothing and charges one step per node after the first. */
  lemma RemoveNodeSortsNothing(nodes: seq<Node>, k: int)
    requires NodesNumbered(nodes)
    ensures var kept := Filter(nodes, NodeIsNot, k);
      && SortSpec(kept, Id) == kept
      && SortSteps(kept, Id) == if kept == [] then 0 else |kept| - 1
  {
    FilterNumbered(nodes, k);
    SortSpecOfSorted(Filter(nodes, NodeIsNot, k), Id);
  }

  /** What `removeNode` leaves in a valid store: the survivors in their order
      with ids `0..n-2` (the sort moves nothing and charges one step per
      survivor after the first), their edges moved to the new ids, and the
      store still valid. */
  lemma RemoveNodeResult(nodes: seq<Node>, edges: seq<Edge>, edgeCount: int, k: int, ns: seq<Node>, es: seq<Edge>)
    requires StoreValid(nodes, edges, |nodes|, edgeCount)
    requires ns == Relabel(SortSpec(Filter(nodes, NodeIsNot, k), Id))
    requires es == RemapEdges(Filter(edges, AvoidsNode, k), Ids(Filter(nodes, NodeIsNot, k)))
    ensures var kept := Filter(nodes, NodeIsNot, k);
      && ns == Relabel(kept) && StoreValid(ns, es, |ns|, edgeCount)
      && SortSteps(kept, Id) == if kept == [] then 0 else |kept| - 1
  {
    RemoveNodeSortsNothing(nodes, k);
    RemoveNodeKeepsValid(nodes, edges, edgeCount, k);
  }

  /** Appending an edge between existing nodes, with the next id, on a pair no
      edge joins yet, keeps the store valid. */
  lemma AppendEdgeKeepsValid(nodes: seq<Node>, edges: seq<Edge>, e: Edge)
    requires StoreValid(nodes, edges, |nodes|, e.id)
    requires HasNode(nodes, e.node1) && HasNode(nodes, e.node2)
    requires !HasEdgeBetween(edges, e.node1, e.node2)
    ensures StoreValid(nodes, edges + [e], |nodes|, e.id + 1)
  {
    var es := edges + [e];
    var n1 :| n1 in nodes && n1.id == e.node1;
    var n2 :| n2 in nodes && n2.id == e.node2;
    var i1 :| 0 <= i1 < |nodes| && nodes[i1] == n1;
    var i2 :| 0 <= i2 < |nodes| && nodes[i2] == n2;
    assert Within(e, |nodes|);
    forall i, j | 0 <= i < j < |es|
      ensures DistinctIds(es[i], es[j]) && NotParallel(es[i], es[j])
    {
      if j == |edges| {
        assert es[i] in edges;
      } else {
        assert es[i] == edges[i] && es[j] == edges[j];
      }
    }
  }

  /** With node `k` gone, `indexOf` over the surviving original ids maps every
      other existing id `x` to `Shift(x, k)`. */
  lemma {:induction false} IndexOfSurvivors(nodes: seq<Node>, k: int, x: int)
    requires NodesNumbered(nodes) && 0 <= x < |nodes| && x != k
    ensures IndexOf(Ids(Filter(nodes, NodeIsNot, k)), x) == if 0 <= k < |nodes| then Shift(x, k) else x
  {
    FilterNumbered(nodes, k);
    var ids := Ids(Filter(nodes, NodeIsNot, k));
    var m := if 0 <= k < |nodes| then Shift(x, k) else x;
    assert forall i :: 0 <= i < |ids| ==> ids[i] == if 0 <= k <= i then i + 1 else i;
    assert ids[m] == x;
    IndexOfFirst(ids, x);
    assert x in ids;
    assert x !in ids[..IndexOf(ids, x)];
  }

  /** After `removeNode(k)` each surviving edge's endpoints are the shifted ids
      of its old endpoints, and no surviving edge touches `k`. */
  lemma {:induction false} RemoveNodeRemapsEdges(nodes: seq<Node>, edges: seq<Edge>, k: int)
    requires NodesNumbered(nodes) && EdgesWithin(edges, |nodes|)
    ensures var kept := Filter(edges, AvoidsNode, k);
      var r := RemapEdges(kept, Ids(Filter(nodes, NodeIsNot, k)));
      && |r| == |kept|
      && (forall e :: e in kept <==> e in edges && e.node1 != k && e.node2 != k)
      && forall i :: 0 <= i < |r| ==>
           r[i] == if 0 <= k < |nodes| then kept[i].(node1 := Shift(kept[i].node1, k), node2 := Shift(kept[i].node2, k))
                   else kept[i]
  {
    var kept := Filter(edges, AvoidsNode, k);
    FilterMembers(edges, AvoidsNode, k);
    forall i | 0 <= i < |kept|
      ensures RemapEdge(kept[i], Ids(Filter(nodes, NodeIsNot, k))) ==
        if 0 <= k < |nodes| then kept[i].(node1 := Shift(kept[i].node1, k), node2 := Shift(kept[i].node2, k))
        else kept[i]
    {
      assert kept[i] in kept;
      IndexOfSurvivors(nodes, k, kept[i].node1);
      IndexOfSurvivors(nodes, k, kept[i].node2);
    }
  }

  /** `removeNode` keeps the store valid. */
  lemma {:induction false} RemoveNodeKeepsValid(nodes: seq<Node>, edges: seq<Edge>, edgeCount: int, k: int)
    requires StoreValid(nodes, edges, |nodes|, edgeCount)
    ensures var ns := Relabel(Filter(nodes, NodeIsNot, k));
      StoreValid(ns, RemapEdges(Filter(edges, AvoidsNode, k), Ids(Filter(nodes, NodeIsNot, k))), |ns|, edgeCount)
  {
    var kept := Filter(edges, AvoidsNode, k);
    var ns := Relabel(Filter(nodes, NodeIsNot, k));
    var r := RemapEdges(kept, Ids(Filter(nodes, NodeIsNot, k)));
    RemoveNodeRenumbers(nodes, k);
    RemoveNodeRemapsEdges(nodes, edges, k);
    FilterPairwise(edges, AvoidsNode, k, DistinctIds);
    FilterPairwise(edges, AvoidsNode, k, NotParallel);
    forall e | e in r
      ensures Within(e, |ns|) && 0 <= e.id < edgeCount
    {
      var i :| 0 <= i < |r| && r[i] == e;
      assert kept[i] in kept;
    }
    forall i, j | 0 <= i < j < |r|
      ensures DistinctIds(r[i], r[j]) && NotParallel(r[i], r[j])
    {
      assert kept[i] in kept && kept[j] in kept;
      assert NotParallel(kept[i], kept[j]);
    }
  }

  /** `removeEdge` keeps the store valid and leaves ids equal to positions. */
  lemma {:induction false} RemoveEdgeKeepsValid(nodes: seq<Node>, edges: seq<Edge>, edgeCount: int, k: int)
    requires StoreValid(nodes, edges, |nodes|, edgeCount)
    ensures var r := Renumber(Filter(edges, EdgeIdIsNot, k));
      && StoreValid(nodes, r, |nodes|, |r|)
      && (forall e :: e in r ==> e.id != k || k < |r|)
      && forall i :: 0 <= i < |r| ==> r[i].id == i
  {
    var f := Filter(edges, EdgeIdIsNot, k);
    FilterMembers(edges, EdgeIdIsNot, k);
    FilterPairwise(edges, EdgeIdIsNot, k, NotParallel);
    var r := Renumber(f);
    forall e | e in r
      ensures Within(e, |nodes|)
    {
      var i :| 0 <= i < |r| && r[i] == e;
      assert f[i] in f;
    }
    forall i, j | 0 <= i < j < |r|
      ensures NotParallel(r[i], r[j])
    {
      assert NotParallel(f[i], f[j]);
    }
  }

  /** Removing an id that no edge has deletes nothing, and when the ids are
      already positions the renumbering changes nothing either. */
  lemma RemoveAbsentEdge(edges: seq<Edge>, k: int)
    requires forall e :: e in edges ==> e.id != k
    ensures Filter(edges, EdgeIdIsNot, k) == edges
    ensures (forall i :: 0 <= i < |edges| ==> edges[i].id == i) ==> Renumber(Filter(edges, EdgeIdIsNot, k)) == edges
  {
    FilterKeepsAll(edges, EdgeIdIsNot, k);
  }

  /** Removing an id no node has changes nothing. */
  lemma RemoveAbsentNode(nodes: seq<Node>, edges: seq<Edge>, k: int)
    requires NodesNumbered(nodes) && EdgesWithin(edges, |nodes|)
    requires !(0 <= k < |nodes|)
    ensures Relabel(Filter(nodes, NodeIsNot, k)) == nodes
    ensures RemapEdges(Filter(edges, AvoidsNode, k), Ids(Filter(nodes, NodeIsNot, k))) == edges
  {
    FilterNumbered(nodes, k);
    FilterKeepsAll(edges, AvoidsNode, k);
    RemoveNodeRemapsEdges(nodes, edges, k);
  }

  // ----------------------------------------------------------------- matrix

  /** The matrix is symmetric: `{i, j}` and `{j, i}` name the same pair. */
  lemma {:induction false} PairWeightSymmetric(edges: seq<Edge>, i: int, j: int)
    ensures PairWeight(edges, i, j) == PairWeight(edges, j, i)
  {
    if edges != [] {
      PairWeightSymmetric(edges[..|edges| - 1], i, j);
    }
  }

  /** A pair no edge joins shows 0. */
  lemma {:induction false} PairWeightAbsent(edges: seq<Edge>, i: int, j: int)
    requires !HasEdgeBetween(edges, i, j)
    ensures PairWeight(edges, i, j) == 0
  {
    if edges != [] {
      PairWeightAbsent(edges[..|edges| - 1], i, j);
    }
  }

  /** Without parallel edges a cell holds the weight of the one edge joining its pair. */
  lemma {:induction false} PairWeightOfEdge(edges: seq<Edge>, i: int, j: int)
    requires Pairwise(edges, NotParallel)
    ensures forall e :: e in edges && Joins(e, i, j) ==> PairWeight(edges, i, j) == e.weight
  {
    if edges != [] {
      var p, l := edges[..|edges| - 1], edges[|edges| - 1];
      assert Pairwise(p, NotParallel);
      PairWeightOfEdge(p, i, j);
      assert edges == p + [l];
      forall e | e in edges && Joins(e, i, j)
        ensures PairWeight(edges, i, j) == e.weight
      {
        if e in p {
          // an earlier edge on the same pair rules out the last one
          var m :| 0 <= m < |p| && p[m] == e;
          assert NotParallel(edges[m], edges[|edges| - 1]);
        }
      }
    }
  }
}
