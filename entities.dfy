/** The two records the graph store owns. A node's coordinates are opaque
    payload (only the renderer reads them); an edge is undirected for every
    existence check but keeps its two endpoint slots as created. */
module Entities {
  datatype Node = Node(id: int, x: int, y: int)

  datatype Edge = Edge(id: int, node1: int, node2: int, weight: int)

  /** The edge joins `a` and `b`, in either direction. */
  predicate Joins(e: Edge, a: int, b: int) {
    (e.node1 == a && e.node2 == b) || (e.node1 == b && e.node2 == a)
  }

  /** Both endpoints are ids in `[0, n)`. */
  predicate Within(e: Edge, n: int) {
    0 <= e.node1 < n && 0 <= e.node2 < n
  }

  function Weight(e: Edge): int { e.weight }

  function Id(n: Node): int { n.id }

  /** The node ids of an `n`-node graph, `[0, n)`. */
  ghost function Below(n: int): (r: set<int>)
    ensures forall i :: i in r <==> 0 <= i < n
    ensures n >= 0 ==> |r| == n
    decreases n
  {
    if n <= 0 then {} else Below(n - 1) + {n - 1}
  }


  /** A proper subset is smaller. */
  lemma {:induction false} SubsetSmaller(a: set<int>, b: set<int>, x: int)
    requires a <= b && x in b && x !in a
    ensures |a| < |b|
  {
    var b' := b - {x};
    assert b == b' + {x};
    assert a <= b';
    assert |a| <= |b'| by {
      assert b' == a + (b' - a);
    }
  }

  /** A set with two different members has at least two. */
  lemma TwoMembers(s: set<int>, a: int, b: int)
    requires a in s && b in s && a != b
    ensures |s| >= 2
  {
    var rest := s - {a};
    assert b in rest;
    assert s == rest + {a};
  }
}
