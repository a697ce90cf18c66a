/** The graph's disjoint-set forest over plain `parent` and `rank` arrays
    indexed by node id: `findParent` with path compression and `unionSet` with
    union by rank. The representative of `x` is `Root(p, rk, x)`; the rank only
    serves as the termination measure, since it grows strictly toward the root. */
module UnionFind {
  import opened Entities

  /** A well-formed forest: parents in range, ranks non-negative, and every
      non-root has a strictly smaller rank than its parent. */
  ghost predicate Inv(p: seq<int>, rk: seq<int>) {
    && |p| == |rk|
    && (forall i :: 0 <= i < |p| ==> 0 <= p[i] < |p|)
    && (forall i :: 0 <= i < |rk| ==> 0 <= rk[i])
    && (forall i {:trigger p[i]} :: 0 <= i < |p| && p[i] != i ==> rk[i] < rk[p[i]])
  }

  /** An upper bound of every rank. */
  ghost function MaxRank(rk: seq<int>): (m: int)
    ensures forall i :: 0 <= i < |rk| ==> rk[i] <= m
  {
    if rk == [] then 0
    else
      var m := MaxRank(rk[..|rk| - 1]);
      if rk[|rk| - 1] > m then rk[|rk| - 1] else m
  }

  /** The representative reached by following parents from `x`: a fixpoint of `p`. */
  ghost function Root(p: seq<int>, rk: seq<int>, x: int): (r: int)
    requires Inv(p, rk) && 0 <= x < |p|
    ensures 0 <= r < |p| && p[r] == r
    ensures r == x || rk[x] < rk[r]
    decreases MaxRank(rk) - rk[x]
  {
    if p[x] == x then x else Root(p, rk, p[x])
  }

  /** The nodes visited by a find from `x`, root included; all share `x`'s root. */
  ghost function Path(p: seq<int>, rk: seq<int>, x: int): (path: set<int>)
    requires Inv(p, rk) && 0 <= x < |p|
    ensures x in path && Root(p, rk, x) in path
    ensures forall y :: y in path ==> 0 <= y < |p| && Root(p, rk, y) == Root(p, rk, x)
    decreases MaxRank(rk) - rk[x]
  {
    if p[x] == x then {x} else {x} + Path(p, rk, p[x])
  }

  /** The parent array after a find from `x`: every node on the path points at the root. */
  ghost function Compress(p: seq<int>, rk: seq<int>, x: int): seq<int>
    requires Inv(p, rk) && 0 <= x < |p|
  {
    seq(|p|, i requires 0 <= i < |p| => if i in Path(p, rk, x) then Root(p, rk, x) else p[i])
  }

  /** The roots, one per set of the partition. */
  ghost function RootSet(p: seq<int>): set<int> {
    set i | 0 <= i < |p| && p[i] == i
  }

  /** Two nodes are in the same set. */
  ghost predicate Same(p: seq<int>, rk: seq<int>, x: int, y: int)
    requires Inv(p, rk) && 0 <= x < |p| && 0 <= y < |p|
  {
    Root(p, rk, x) == Root(p, rk, y)
  }

  /** `(p', rk')` is `(p, rk)` with the sets of `a` and `b` merged and nothing else changed. */
  ghost predicate Merged(p: seq<int>, rk: seq<int>, p': seq<int>, rk': seq<int>, a: int, b: int)
    requires Inv(p, rk) && Inv(p', rk') && |p'| == |p|
    requires 0 <= a < |p| && 0 <= b < |p|
  {
    var ra, rb, w := Root(p, rk, a), Root(p, rk, b), Root(p', rk', a);
    && Root(p', rk', b) == w
    && (w == ra || w == rb)
    && forall y :: 0 <= y < |p| ==>
         Root(p', rk', y) == if Root(p, rk, y) == ra || Root(p, rk, y) == rb then w else Root(p, rk, y)
  }

  /** The initial forest: every node its own root. */
  lemma {:induction false} SingletonsInv(n: nat, p: seq<int>, rk: seq<int>)
    requires |p| == n && |rk| == n
    requires forall i :: 0 <= i < n ==> p[i] == i && rk[i] == 0
    ensures Inv(p, rk)
    ensures |RootSet(p)| == n
    ensures forall i :: 0 <= i < n ==> Root(p, rk, i) == i
  {
    assert RootSet(p) == Below(n);
  }

  /** A find keeps the forest well formed, keeps every node's root and keeps the roots. */
  lemma {:induction false} CompressKeepsRoots(p: seq<int>, rk: seq<int>, x: int)
    requires Inv(p, rk) && 0 <= x < |p|
    ensures Inv(Compress(p, rk, x), rk)
    ensures forall y :: 0 <= y < |p| ==> Root(Compress(p, rk, x), rk, y) == Root(p, rk, y)
    ensures RootSet(Compress(p, rk, x)) == RootSet(p)
  {
    var c := Compress(p, rk, x);
    var path, r := Path(p, rk, x), Root(p, rk, x);
    forall i | 0 <= i < |p| && c[i] != i
      ensures rk[i] < rk[c[i]]
    {
      if i in path {
        assert Root(p, rk, i) == r;
      }
    }
    assert Inv(c, rk);
    forall y | 0 <= y < |p|
      ensures Root(c, rk, y) == Root(p, rk, y)
    {
      CompressRootAt(p, rk, x, y);
    }
    forall i | 0 <= i < |p|
      ensures c[i] == i <==> p[i] == i
    {
      if i in path {
        assert Root(p, rk, i) == r;
      }
    }
  }

  lemma {:induction false} CompressRootAt(p: seq<int>, rk: seq<int>, x: int, y: int)
    requires Inv(p, rk) && 0 <= x < |p| && 0 <= y < |p|
    requires Inv(Compress(p, rk, x), rk)
    ensures Root(Compress(p, rk, x), rk, y) == Root(p, rk, y)
    decreases MaxRank(rk) - rk[y]
  {
    var c := Compress(p, rk, x);
    var path, r := Path(p, rk, x), Root(p, rk, x);
    if y in path {
      assert c[y] == r && c[r] == r;
      assert Root(c, rk, r) == r;
    } else if p[y] != y {
      CompressRootAt(p, rk, x, p[y]);
    }
  }

  /** Hanging root `l` under root `w` merges their sets and removes one root. */
  lemma {:induction false} LinkFacts(p: seq<int>, rk: seq<int>, rk': seq<int>, w: int, l: int)
    requires Inv(p, rk) && 0 <= w < |p| && 0 <= l < |p| && w != l
    requires p[w] == w && p[l] == l
    requires |rk'| == |rk| && rk'[w] >= rk[w] && rk[l] < rk'[w]
    requires forall i :: 0 <= i < |rk| && i != w ==> rk'[i] == rk[i]
    ensures Inv(p[l := w], rk')
    ensures forall y :: 0 <= y < |p| ==>
      Root(p[l := w], rk', y) == if Root(p, rk, y) == l then w else Root(p, rk, y)
    ensures RootSet(p[l := w]) == RootSet(p) - {l}
  {
    var p' := p[l := w];
    assert Inv(p', rk');
    forall y | 0 <= y < |p|
      ensures Root(p', rk', y) == if Root(p, rk, y) == l then w else Root(p, rk, y)
    {
      LinkRootAt(p, rk, rk', w, l, y);
    }
  }

  lemma {:induction false} LinkRootAt(p: seq<int>, rk: seq<int>, rk': seq<int>, w: int, l: int, y: int)
    requires Inv(p, rk) && 0 <= w < |p| && 0 <= l < |p| && w != l
    requires p[w] == w && p[l] == l
    requires Inv(p[l := w], rk') && 0 <= y < |p|
    ensures Root(p[l := w], rk', y) == if Root(p, rk, y) == l then w else Root(p, rk, y)
    decreases MaxRank(rk) - rk[y]
  {
    var p' := p[l := w];
    if y == l {
      assert Root(p', rk', w) == w;
    } else if p[y] != y {
      LinkRootAt(p, rk, rk', w, l, p[y]);
    }
  }

  /** `findParent`: returns the root of `component` and rewires every node on the
      visited path directly to it. */
  method FindParent(parent: array<int>, ghost rk: seq<int>, component: int) returns (r: int)
    requires Inv(parent[..], rk) && 0 <= component < parent.Length
    modifies parent
    ensures r == Root(old(parent[..]), rk, component)
    ensures parent[..] == Compress(old(parent[..]), rk, component)
    decreases MaxRank(rk) - rk[component]
  {
    ghost var p := parent[..];
    if parent[component] == component {
      assert parent[..] == Compress(p, rk, component);
      return component;
    }
    r := FindParent(parent, rk, parent[component]);
    parent[component] := r;
    assert parent[..] == Compress(p, rk, component);
  }

  /** `unionSet`: merges the sets of `u` and `v`. The lower-rank root goes under
      the higher-rank one; on a tie the second root goes under the first and the
      first root's rank grows by one. Equal roots change no set. */
  method UnionSet(parent: array<int>, rank: array<int>, u: int, v: int)
    requires parent != rank
    requires Inv(parent[..], rank[..]) && 0 <= u < parent.Length && 0 <= v < parent.Length
    modifies parent, rank
    ensures Unioned(old(parent[..]), old(rank[..]), parent[..], rank[..], u, v)
  {
    ghost var p0, k0 := parent[..], rank[..];
    var node1 := FindParent(parent, rank[..], u);
    CompressKeepsRoots(p0, k0, u);
    ghost var p1 := parent[..];
    var node2 := FindParent(parent, rank[..], v);
    CompressKeepsRoots(p1, k0, v);
    assert node1 == Root(p0, k0, u) && node2 == Root(p0, k0, v);
    assert rank[..] == k0;
    if node1 != node2 {
      Link(parent, rank, node1, node2, p0, u, v);
    } else {
      SameMerges(p0, k0, parent[..], u, v);
    }
  }

  /** The rank comparison of `unionSet` on the two different roots its finds
      returned, after those finds compressed paths from `p0`. */
  method Link(parent: array<int>, rank: array<int>, node1: int, node2: int, ghost p0: seq<int>, ghost u: int, ghost v: int)
    requires parent != rank && Inv(p0, rank[..]) && Inv(parent[..], rank[..]) && |p0| == parent.Length
    requires 0 <= u < parent.Length && 0 <= v < parent.Length
    requires forall y :: 0 <= y < |p0| ==> Root(parent[..], rank[..], y) == Root(p0, rank[..], y)
    requires RootSet(parent[..]) == RootSet(p0)
    requires node1 == Root(p0, rank[..], u) && node2 == Root(p0, rank[..], v) && node1 != node2
    modifies parent, rank
    ensures Unioned(p0, old(rank[..]), parent[..], rank[..], u, v)
  {
    ghost var p2, k0 := parent[..], rank[..];
    if rank[node1] > rank[node2] {
      parent[node2] := node1;
      assert parent[..] == p2[node2 := node1];
      LinkUnioned(p0, k0, p2, k0, node1, node2, u, v);
    } else if rank[node1] < rank[node2] {
      parent[node1] := node2;
      assert parent[..] == p2[node1 := node2];
      LinkUnioned(p0, k0, p2, k0, node2, node1, u, v);
    } else {
      parent[node2] := node1;
      assert parent[..] == p2[node2 := node1];
      ghost var p3 := parent[..];
      rank[node1] := rank[node1] + 1;
      assert parent[..] == p3;
      assert rank[..] == k0[node1 := k0[node1] + 1];
      LinkUnioned(p0, k0, p2, rank[..], node1, node2, u, v);
    }
  }

  /** What `unionSet(parent, rank, a, b)` leaves behind: the sets of `a` and `b`
      merged and no other set changed; one set fewer unless they were already
      one; and union by rank: the root of lower rank is hung under the other,
      and on a tie the root of `b` goes under the root of `a`, whose rank grows
      by one. */
  ghost predicate Unioned(p: seq<int>, rk: seq<int>, p': seq<int>, rk': seq<int>, a: int, b: int)
    requires Inv(p, rk) && 0 <= a < |p| && 0 <= b < |p|
  {
    && Inv(p', rk') && |p'| == |p|
    && Merged(p, rk, p', rk', a, b)
    && var ra, rb := Root(p, rk, a), Root(p, rk, b);
       && |RootSet(p')| == |RootSet(p)| - (if ra == rb then 0 else 1)
       && if ra == rb then rk' == rk
          else if rk[ra] > rk[rb] then p'[rb] == ra && rk' == rk
          else if rk[ra] < rk[rb] then p'[ra] == rb && rk' == rk
          else p'[rb] == ra && rk' == rk[ra := rk[ra] + 1]
  }

  /** A union whose two roots coincide only compresses paths: no set changes. */
  lemma {:induction false} SameMerges(p0: seq<int>, k0: seq<int>, p2: seq<int>, a: int, b: int)
    requires Inv(p0, k0) && Inv(p2, k0) && |p2| == |p0| && 0 <= a < |p0| && 0 <= b < |p0|
    requires forall y :: 0 <= y < |p0| ==> Root(p2, k0, y) == Root(p0, k0, y)
    requires Root(p0, k0, a) == Root(p0, k0, b)
    requires RootSet(p2) == RootSet(p0)
    ensures Unioned(p0, k0, p2, k0, a, b)
  {
  }

  /** Linking root `l` under root `w` after the finds of `a` and `b` (whose roots
      they are) by the rank rule is a union of `a` and `b`. */
  lemma {:induction false} LinkUnioned(p0: seq<int>, k0: seq<int>, p2: seq<int>, rk': seq<int>, w: int, l: int, a: int, b: int)
    requires Inv(p0, k0) && Inv(p2, k0) && |p2| == |p0| && 0 <= a < |p0| && 0 <= b < |p0|
    requires forall y :: 0 <= y < |p0| ==> Root(p2, k0, y) == Root(p0, k0, y)
    requires RootSet(p2) == RootSet(p0)
    requires var ra, rb := Root(p0, k0, a), Root(p0, k0, b);
      || (w == ra && l == rb && k0[ra] > k0[rb] && rk' == k0)
      || (w == rb && l == ra && k0[ra] < k0[rb] && rk' == k0)
      || (w == ra && l == rb && ra != rb && k0[ra] == k0[rb] && rk' == k0[ra := k0[ra] + 1])
    ensures Unioned(p0, k0, p2[l := w], rk', a, b)
  {
    assert p2[w] == w && p2[l] == l by {
      assert Root(p2, k0, w) == w && Root(p2, k0, l) == l;
    }
    var p' := p2[l := w];
    LinkFacts(p2, k0, rk', w, l);
    forall y | 0 <= y < |p0|
      ensures Root(p', rk', y) == if Root(p0, k0, y) == l then w else Root(p0, k0, y)
    {
    }
    assert l in RootSet(p0) && |RootSet(p')| == |RootSet(p0)| - 1;
    assert Merged(p0, k0, p', rk', a, b);
  }
}
