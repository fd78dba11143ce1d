/**
 * The two graph representations the routing pipeline uses, and what a walk
 * and its weight are in each.
 *
 * - An adjacency matrix `m` (n x n): `m[i][j]` is the weight of the edge
 *   i -> j, `Inf` when there is none. A walk is the sequence of the nodes it
 *   visits.
 * - An adjacency list `g` with keys 0..n-1: `g[u]` lists the edges `(v, w)`
 *   leaving u, in order. A walk from a node s is the sequence of edges it
 *   takes, each listed under the node the previous edge reached.
 */
module Graphs {
  import opened Weights

  type Matrix = seq<seq<Weight>>

  ghost predicate IsSquare(m: Matrix)
  {
    forall i :: 0 <= i < |m| ==> |m[i]| == |m|
  }

  /** Every node of `p` is a node of `m`. */
  ghost predicate InMatrix(m: Matrix, p: seq<nat>)
  {
    forall t :: 0 <= t < |p| ==> p[t] < |m|
  }

  /** The cell (a, b) of `m`; outside the matrix there is no edge. */
  ghost function Cell(m: Matrix, a: nat, b: nat): Weight
  {
    if a < |m| && b < |m[a]| then m[a][b] else Inf
  }

  /** Sum of the weights of the consecutive edges of `p`. */
  ghost function MatrixWalkWeight(m: Matrix, p: seq<nat>): Weight
    decreases |p|
  {
    if |p| <= 1 then Fin(0) else Add(Cell(m, p[0], p[1]), MatrixWalkWeight(m, p[1..]))
  }

  /** `p` is a walk from i to j with at least one edge. */
  ghost predicate IsMatrixWalk(m: Matrix, p: seq<nat>, i: nat, j: nat)
  {
    |p| >= 2 && InMatrix(m, p) && p[0] == i && p[|p| - 1] == j
  }

  /** Every node strictly inside `p` is below `k`. */
  ghost predicate InnerBelow(p: seq<nat>, k: nat)
  {
    forall t :: 0 < t < |p| - 1 ==> p[t] < k
  }

  /**
   * `d` is the least weight of a walk from i to j with at least one edge:
   * some such walk weighs `d` and none weighs less.
   */
  ghost predicate IsLeastWalkWeight(m: Matrix, i: nat, j: nat, d: Weight)
    requires IsSquare(m)
  {
    && (exists p :: IsMatrixWalk(m, p, i, j) && MatrixWalkWeight(m, p) == d)
    && (forall p :: IsMatrixWalk(m, p, i, j) ==> Leq(d, MatrixWalkWeight(m, p)))
  }

  /** A slice of a walk in the matrix is in the matrix. */
  lemma InMatrixSlice(m: Matrix, p: seq<nat>, lo: nat, hi: nat)
    requires InMatrix(m, p) && lo <= hi <= |p|
    ensures InMatrix(m, p[lo..hi])
  {
    forall t | 0 <= t < hi - lo
      ensures p[lo..hi][t] < |m|
    {
      assert p[lo..hi][t] == p[lo + t];
    }
  }

  /** Only a walk of at most two nodes has no inner node below 0. */
  lemma NoInnerNode(p: seq<nat>, k: nat)
    requires InnerBelow(p, k)
    ensures k == 0 ==> |p| <= 2
  {
    if |p| > 2 {
      assert p[1] < k;
    }
  }

  /** A single edge is a walk with no inner node, weighing the edge. */
  lemma EdgeWalk(m: Matrix, i: nat, j: nat)
    requires IsSquare(m) && i < |m| && j < |m|
    ensures IsMatrixWalk(m, [i, j], i, j) && InnerBelow([i, j], 0)
    ensures MatrixWalkWeight(m, [i, j]) == m[i][j]
  {
    assert [i, j][1..] == [j];
  }

  /** Joining a walk ending at x with a walk starting at x adds their weights. */
  lemma {:induction false} MatrixWalkJoin(m: Matrix, p: seq<nat>, q: seq<nat>)
    requires |p| >= 1 && |q| >= 1 && p[|p| - 1] == q[0]
    ensures MatrixWalkWeight(m, p + q[1..]) == Add(MatrixWalkWeight(m, p), MatrixWalkWeight(m, q))
    decreases |p|
  {
    var r := q[1..];
    if |p| == 1 {
      assert p + r == q;
    } else {
      var rest := p[1..];
      MatrixWalkJoin(m, rest, q);
      assert (p + r)[1..] == rest + r;
      assert (p + r)[0] == p[0] && (p + r)[1] == p[1];
      AddAssoc(Cell(m, p[0], p[1]), MatrixWalkWeight(m, rest), MatrixWalkWeight(m, q));
    }
  }

  /** Two walks of the matrix joined at a common node form a walk of the matrix. */
  lemma InMatrixJoin(m: Matrix, p: seq<nat>, q: seq<nat>)
    requires InMatrix(m, p) && InMatrix(m, q) && |q| >= 1
    ensures InMatrix(m, p + q[1..])
  {
    forall t | 0 <= t < |p + q[1..]|
      ensures (p + q[1..])[t] < |m|
    {
      if t >= |p| {
        assert (p + q[1..])[t] == q[t - |p| + 1];
      }
    }
  }

  /** Cutting a walk at position `a` splits its weight into the two parts. */
  lemma MatrixWalkSplit(m: Matrix, p: seq<nat>, a: nat)
    requires a < |p|
    ensures MatrixWalkWeight(m, p) == Add(MatrixWalkWeight(m, p[..a + 1]), MatrixWalkWeight(m, p[a..]))
  {
    MatrixWalkJoin(m, p[..a + 1], p[a..]);
    assert p[..a + 1] + p[a..][1..] == p;
  }

  /** One entry `(v, w)` of an adjacency list: an edge to v of weight w. */
  datatype Edge = Edge(to: nat, w: nat)

  type AdjList = seq<seq<Edge>>

  /** Every edge leads to a node of the graph, i.e. to a key of the adjacency dictionary. */
  ghost predicate Closed(g: AdjList)
  {
    forall u, e :: 0 <= u < |g| && e in g[u] ==> e.to < |g|
  }

  /** The node a walk from s that takes the edges `p` ends at. */
  function End(s: nat, p: seq<Edge>): nat
  {
    if p == [] then s else p[|p| - 1].to
  }

  /** `p` is a walk from the node s: each edge is listed under the node the walk is at. */
  ghost predicate IsWalk(g: AdjList, s: nat, p: seq<Edge>)
    decreases |p|
  {
    if p == [] then s < |g|
    else
      && IsWalk(g, s, p[..|p| - 1])
      && End(s, p[..|p| - 1]) < |g|
      && p[|p| - 1] in g[End(s, p[..|p| - 1])]
      && p[|p| - 1].to < |g|
  }

  /** A walk stays inside the graph. */
  lemma WalkEndInGraph(g: AdjList, s: nat, p: seq<Edge>)
    requires IsWalk(g, s, p)
    ensures End(s, p) < |g|
  {
  }

  /** Sum of the edge weights of `p`. */
  function WalkWeight(p: seq<Edge>): nat
    decreases |p|
  {
    if p == [] then 0 else WalkWeight(p[..|p| - 1]) + p[|p| - 1].w
  }

  /**
   * `d` is the shortest distance from s to t: no walk from s to t weighs
   * less, and if `d` is finite some walk from s to t weighs exactly `d`.
   * So `d` is `Inf` exactly when t cannot be reached from s.
   */
  ghost predicate IsShortestDistance(g: AdjList, s: nat, t: nat, d: Weight)
  {
    && (forall p :: IsWalk(g, s, p) && End(s, p) == t ==> Leq(d, Fin(WalkWeight(p))))
    && (d.Fin? ==> exists p :: IsWalk(g, s, p) && End(s, p) == t && WalkWeight(p) == d.n)
  }

  /** There is at most one shortest distance. */
  lemma ShortestDistanceUnique(g: AdjList, s: nat, t: nat, d1: Weight, d2: Weight)
    requires IsShortestDistance(g, s, t, d1) && IsShortestDistance(g, s, t, d2)
    ensures d1 == d2
  {
    if d1.Fin? {
      var p :| IsWalk(g, s, p) && End(s, p) == t && WalkWeight(p) == d1.n;
      assert Leq(d2, d1);
    }
    if d2.Fin? {
      var p :| IsWalk(g, s, p) && End(s, p) == t && WalkWeight(p) == d2.n;
      assert Leq(d1, d2);
    }
  }

  /** Continuing a walk from where it ends gives a walk; weights add up. */
  lemma {:induction false} WalkJoin(g: AdjList, s: nat, p: seq<Edge>, q: seq<Edge>)
    requires IsWalk(g, s, p) && IsWalk(g, End(s, p), q)
    ensures IsWalk(g, s, p + q)
    ensures End(s, p + q) == End(End(s, p), q)
    ensures WalkWeight(p + q) == WalkWeight(p) + WalkWeight(q)
    decreases |q|
  {
    if q == [] {
      assert p + q == p;
    } else {
      var q' := q[..|q| - 1];
      WalkJoin(g, s, p, q');
      assert (p + q)[..|p + q| - 1] == p + q';
    }
  }

  /** A prefix of a walk is a walk. */
  lemma {:induction false} WalkPrefix(g: AdjList, s: nat, p: seq<Edge>, i: nat)
    requires IsWalk(g, s, p) && i <= |p|
    ensures IsWalk(g, s, p[..i])
    decreases |p| - i
  {
    if i < |p| {
      WalkPrefix(g, s, p[..|p| - 1], i);
      assert p[..|p| - 1][..i] == p[..i];
    } else {
      assert p[..i] == p;
    }
  }

  /** The rest of a walk after its first i edges is a walk from the node reached after them. */
  lemma {:induction false} WalkSuffix(g: AdjList, s: nat, p: seq<Edge>, i: nat)
    requires IsWalk(g, s, p) && i <= |p|
    ensures IsWalk(g, End(s, p[..i]), p[i..])
    ensures End(End(s, p[..i]), p[i..]) == End(s, p)
    ensures WalkWeight(p) == WalkWeight(p[..i]) + WalkWeight(p[i..])
    decreases |p| - i
  {
    WalkPrefix(g, s, p, i);
    if i == |p| {
      WalkEndInGraph(g, s, p);
      assert p[..i] == p;
      assert p[i..] == [];
    } else {
      var p' := p[..|p| - 1];
      WalkSuffix(g, s, p', i);
      assert p'[..i] == p[..i];
      assert p[i..][..|p[i..]| - 1] == p'[i..];
    }
  }

  /** Among more than n values below n, two are equal. */
  lemma {:induction false} Pigeonhole(f: seq<nat>, n: nat) returns (i: nat, j: nat)
    requires n >= 1 && |f| > n
    requires forall k :: 0 <= k < |f| ==> f[k] < n
    ensures i < j < |f| && f[i] == f[j]
    decreases n
  {
    var x := f[|f| - 1];
    var f' := f[..|f| - 1];
    if n == 1 {
      i, j := 0, 1;
    } else if x in f' {
      i :| 0 <= i < |f'| && f'[i] == x;
      j := |f| - 1;
    } else {
      // relabel the value n - 1 as x, which f' does not use
      var h := seq(|f'|, k requires 0 <= k < |f'| => if f'[k] == n - 1 then x else f'[k]);
      assert forall k :: 0 <= k < |h| ==> h[k] < n - 1;
      i, j := Pigeonhole(h, n - 1);
      assert f'[i] == f'[j];
    }
  }

  /** Every walk can be cut down to one with fewer edges than the graph has nodes, ending at the same node and weighing no more. */
  lemma {:induction false} ShortenWalk(g: AdjList, s: nat, p: seq<Edge>) returns (q: seq<Edge>)
    requires IsWalk(g, s, p)
    ensures IsWalk(g, s, q) && End(s, q) == End(s, p)
    ensures |q| < |g| && WalkWeight(q) <= WalkWeight(p)
    decreases |p|
  {
    if |p| < |g| {
      return p;
    }
    var nodes := seq(|p| + 1, k requires 0 <= k <= |p| => End(s, p[..k]));
    forall k | 0 <= k < |nodes|
      ensures nodes[k] < |g|
    {
      WalkPrefix(g, s, p, k);
      WalkEndInGraph(g, s, p[..k]);
    }
    var i, j := Pigeonhole(nodes, |g|);
    // drop the closed walk between the two visits of the same node
    WalkPrefix(g, s, p, i);
    WalkPrefix(g, s, p, j);
    WalkSuffix(g, s, p, j);
    WalkSuffix(g, s, p[..j], i);
    assert p[..j][..i] == p[..i];
    WalkJoin(g, s, p[..i], p[j..]);
    q := ShortenWalk(g, s, p[..i] + p[j..]);
  }
}
