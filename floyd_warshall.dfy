/**
 * Model of backend/src/modules/algorithms/floyd_warshall.py: all-pairs
 * shortest paths on an adjacency matrix, relaxed in place in a copy of the
 * input, and a greedy nearest-neighbour visiting order on top of it.
 */
module FloydWarshall {
  import opened Weights
  import opened Graphs

  /** The update `if a + b < cur: cur = a + b`. */
  function Relax(cur: Weight, a: Weight, b: Weight): (r: Weight)
    ensures r == Min(cur, Add(a, b))
  {
    if Less(Add(a, b), cur) then Add(a, b) else cur
  }

  /**
   * The value the algorithm holds in cell (i, j) once the rounds for the
   * intermediate nodes 0..k-1 are done.
   */
  ghost function Round(m: Matrix, k: nat, i: nat, j: nat): Weight
    requires IsSquare(m) && k <= |m| && i < |m| && j < |m|
  {
    if k == 0 then m[i][j]
    else Relax(Round(m, k - 1, i, j), Round(m, k - 1, i, k - 1), Round(m, k - 1, k - 1, j))
  }

  /**
   * Round k (which uses node k-1 as intermediate) leaves row k-1 and column
   * k-1 as they were: weights are non-negative. This is why one matrix can be
   * updated in place.
   */
  lemma PivotStable(m: Matrix, k: nat, i: nat)
    requires IsSquare(m) && 1 <= k <= |m| && i < |m|
    ensures Round(m, k, i, k - 1) == Round(m, k - 1, i, k - 1)
    ensures Round(m, k, k - 1, i) == Round(m, k - 1, k - 1, i)
  {
  }

  /** Round k keeps the round-(k-1) value unless the detour through k-1 is strictly shorter. */
  lemma RoundStep(m: Matrix, k: nat, i: nat, j: nat)
    requires IsSquare(m) && 1 <= k <= |m| && i < |m| && j < |m|
    ensures var cur, via := Round(m, k - 1, i, j), Add(Round(m, k - 1, i, k - 1), Round(m, k - 1, k - 1, j));
            Round(m, k, i, j) == if Less(via, cur) then via else cur
  {
  }

  /** Entries never increase from one round to the next, so never exceed the input. */
  lemma {:induction false} RoundBelowInput(m: Matrix, k: nat, i: nat, j: nat)
    requires IsSquare(m) && k <= |m| && i < |m| && j < |m|
    ensures Leq(Round(m, k, i, j), m[i][j])
  {
    if k > 0 {
      RoundBelowInput(m, k - 1, i, j);
    }
  }

  /** Some walk from i to j whose inner nodes are below k weighs exactly Round(m, k, i, j). */
  lemma {:induction false} RoundAchieved(m: Matrix, k: nat, i: nat, j: nat) returns (p: seq<nat>)
    requires IsSquare(m) && k <= |m| && i < |m| && j < |m|
    ensures IsMatrixWalk(m, p, i, j) && InnerBelow(p, k)
    ensures MatrixWalkWeight(m, p) == Round(m, k, i, j)
    decreases k, 1
  {
    if k == 0 {
      p := [i, j];
      EdgeWalk(m, i, j);
    } else if Less(Add(Round(m, k - 1, i, k - 1), Round(m, k - 1, k - 1, j)), Round(m, k - 1, i, j)) {
      p := AchievedViaPivot(m, k, i, j);
    } else {
      p := RoundAchieved(m, k - 1, i, j);
      InnerBelowMono(p, k - 1, k);
      RoundStep(m, k, i, j);
    }
  }

  /** The case of RoundAchieved where the detour through k-1 is strictly shorter. */
  lemma {:induction false} AchievedViaPivot(m: Matrix, k: nat, i: nat, j: nat) returns (p: seq<nat>)
    requires IsSquare(m) && 1 <= k <= |m| && i < |m| && j < |m|
    requires Less(Add(Round(m, k - 1, i, k - 1), Round(m, k - 1, k - 1, j)), Round(m, k - 1, i, j))
    ensures IsMatrixWalk(m, p, i, j) && InnerBelow(p, k)
    ensures MatrixWalkWeight(m, p) == Round(m, k, i, j)
    decreases k, 0
  {
    var p1 := RoundAchieved(m, k - 1, i, k - 1);
    var p2 := RoundAchieved(m, k - 1, k - 1, j);
    p := ViaPivot(m, k, i, j, p1, p2);
    RoundStep(m, k, i, j);
  }

  /** Inner nodes below k are below any larger bound. */
  lemma InnerBelowMono(p: seq<nat>, k: nat, k': nat)
    requires InnerBelow(p, k) && k <= k'
    ensures InnerBelow(p, k')
  {
  }

  /**
   * A walk from i to k-1 and one from k-1 to j, both with inner nodes below
   * k-1, join into a walk from i to j with inner nodes below k.
   */
  lemma ViaPivot(m: Matrix, k: nat, i: nat, j: nat, p1: seq<nat>, p2: seq<nat>) returns (p: seq<nat>)
    requires IsSquare(m) && 1 <= k <= |m|
    requires IsMatrixWalk(m, p1, i, k - 1) && InnerBelow(p1, k - 1)
    requires IsMatrixWalk(m, p2, k - 1, j) && InnerBelow(p2, k - 1)
    ensures IsMatrixWalk(m, p, i, j) && InnerBelow(p, k)
    ensures MatrixWalkWeight(m, p) == Add(MatrixWalkWeight(m, p1), MatrixWalkWeight(m, p2))
  {
    MatrixWalkJoin(m, p1, p2);
    InMatrixJoin(m, p1, p2);
    JoinInnerBelow(p1, p2, k);
    p := p1 + p2[1..];
  }

  /** Joining two walks at node k-1 whose inner nodes are below k-1 leaves every inner node below k. */
  lemma JoinInnerBelow(p1: seq<nat>, p2: seq<nat>, k: nat)
    requires |p1| >= 2 && |p2| >= 2 && k >= 1 && p1[|p1| - 1] == k - 1
    requires InnerBelow(p1, k - 1) && InnerBelow(p2, k - 1)
    ensures InnerBelow(p1 + p2[1..], k)
    ensures (p1 + p2[1..])[0] == p1[0] && (p1 + p2[1..])[|p1| + |p2| - 2] == p2[|p2| - 1]
  {
    var p := p1 + p2[1..];
    forall t | 0 < t < |p| - 1
      ensures p[t] < k
    {
      if t >= |p1| {
        assert p[t] == p2[t - |p1| + 1];
      }
    }
  }

  /** No walk from i to j whose inner nodes are below k weighs less than Round(m, k, i, j). */
  lemma {:induction false} RoundLowerBound(m: Matrix, k: nat, i: nat, j: nat, p: seq<nat>)
    requires IsSquare(m) && k <= |m| && i < |m| && j < |m|
    requires IsMatrixWalk(m, p, i, j) && InnerBelow(p, k)
    ensures Leq(Round(m, k, i, j), MatrixWalkWeight(m, p))
    decreases k, |p|
  {
    if k == 0 {
      NoInnerNode(p, k);
      assert p == [i, j];
      EdgeWalk(m, i, j);
    } else if a :| 0 < a < |p| - 1 && p[a] == k - 1 {
      var pre, suf := SplitAt(m, p, i, j, k, a);
      RoundLowerBound(m, k, i, k - 1, pre);
      RoundLowerBound(m, k, k - 1, j, suf);
      PivotBound(m, k, i, j, MatrixWalkWeight(m, pre), MatrixWalkWeight(m, suf));
    } else {
      RoundLowerBound(m, k - 1, i, j, p);
      RoundBelowPrevious(m, k, i, j, MatrixWalkWeight(m, p));
    }
  }

  /** A bound on the two halves through k-1 after round k bounds the round-k value. */
  lemma PivotBound(m: Matrix, k: nat, i: nat, j: nat, wPre: Weight, wSuf: Weight)
    requires IsSquare(m) && 1 <= k <= |m| && i < |m| && j < |m|
    requires Leq(Round(m, k, i, k - 1), wPre) && Leq(Round(m, k, k - 1, j), wSuf)
    ensures Leq(Round(m, k, i, j), Add(wPre, wSuf))
  {
    PivotStable(m, k, i);
    PivotStable(m, k, j);
    RoundStep(m, k, i, j);
    AddMono(Round(m, k - 1, i, k - 1), Round(m, k - 1, k - 1, j), wPre, wSuf);
  }

  /** A bound on the round-(k-1) value bounds the round-k value. */
  lemma RoundBelowPrevious(m: Matrix, k: nat, i: nat, j: nat, w: Weight)
    requires IsSquare(m) && 1 <= k <= |m| && i < |m| && j < |m|
    requires Leq(Round(m, k - 1, i, j), w)
    ensures Leq(Round(m, k, i, j), w)
  {
    RoundStep(m, k, i, j);
  }

  /** Cutting a walk at an inner node `p[a]` gives two shorter walks of the same kind. */
  lemma SplitAt(m: Matrix, p: seq<nat>, i: nat, j: nat, k: nat, a: nat) returns (pre: seq<nat>, suf: seq<nat>)
    requires IsSquare(m) && IsMatrixWalk(m, p, i, j) && InnerBelow(p, k)
    requires 0 < a < |p| - 1
    ensures IsMatrixWalk(m, pre, i, p[a]) && InnerBelow(pre, k) && |pre| < |p|
    ensures IsMatrixWalk(m, suf, p[a], j) && InnerBelow(suf, k) && |suf| < |p|
    ensures MatrixWalkWeight(m, p) == Add(MatrixWalkWeight(m, pre), MatrixWalkWeight(m, suf))
  {
    pre := p[..a + 1];
    suf := p[a..];
    MatrixWalkSplit(m, p, a);
    InMatrixSlice(m, p, 0, a + 1);
    InMatrixSlice(m, p, a, |p|);
    assert InnerBelow(pre, k) by {
      forall t | 0 < t < |pre| - 1
        ensures pre[t] < k
      {
        assert pre[t] == p[t];
      }
    }
    assert InnerBelow(suf, k) by {
      forall t | 0 < t < |suf| - 1
        ensures suf[t] < k
      {
        assert suf[t] == p[t + a];
      }
    }
  }

  /** After all n rounds, cell (i, j) holds the least weight of a walk from i to j. */
  lemma FinalRoundIsShortest(m: Matrix, i: nat, j: nat)
    requires IsSquare(m) && i < |m| && j < |m|
    ensures IsLeastWalkWeight(m, i, j, Round(m, |m|, i, j))
  {
    var p := RoundAchieved(m, |m|, i, j);
    forall q | IsMatrixWalk(m, q, i, j)
      ensures Leq(Round(m, |m|, i, j), MatrixWalkWeight(m, q))
    {
      RoundLowerBound(m, |m|, i, j, q);
    }
  }

  /** Shortest walks compose: the result satisfies the triangle inequality. */
  lemma TriangleInequality(m: Matrix, i: nat, j: nat, k: nat)
    requires IsSquare(m) && i < |m| && j < |m| && k < |m|
    ensures Leq(Round(m, |m|, i, j), Add(Round(m, |m|, i, k), Round(m, |m|, k, j)))
  {
    var p1 := RoundAchieved(m, |m|, i, k);
    var p2 := RoundAchieved(m, |m|, k, j);
    MatrixWalkJoin(m, p1, p2);
    InMatrixJoin(m, p1, p2);
    RoundLowerBound(m, |m|, i, j, p1 + p2[1..]);
  }

  /** The matrix held by a two-dimensional array. */
  function Contents(a: array2<Weight>): (m: Matrix)
    reads a
    ensures |m| == a.Length0
    ensures forall i :: 0 <= i < a.Length0 ==> |m[i]| == a.Length1
    ensures forall i, j :: 0 <= i < a.Length0 && 0 <= j < a.Length1 ==> m[i][j] == a[i, j]
  {
    seq(a.Length0, i requires 0 <= i < a.Length0 reads a =>
      seq(a.Length1, j requires 0 <= j < a.Length1 reads a => a[i, j]))
  }

  /**
   * `floyd_warshall`: copies the input and relaxes every cell through every
   * intermediate node k in turn. The input is left untouched; the result is a
   * new n x n array holding the last round; by FinalRoundIsShortest, cell
   * (i, j) is the least weight of a walk from i to j with at least one edge.
   */
  method FloydWarshall(adj: array2<Weight>) returns (dist: array2<Weight>)
    requires adj.Length0 == adj.Length1
    ensures fresh(dist)
    ensures dist.Length0 == adj.Length0 && dist.Length1 == adj.Length0
    ensures forall i, j :: 0 <= i < dist.Length0 && 0 <= j < dist.Length1 ==>
              dist[i, j] == Round(Contents(adj), adj.Length0, i, j)
  {
    var n := adj.Length0;
    ghost var m := Contents(adj);
    dist := CopyMatrix(adj);
    for k := 0 to n
      invariant forall a, b :: 0 <= a < n && 0 <= b < n ==> dist[a, b] == Round(m, k, a, b)
    {
      RelaxThrough(dist, k, m);
    }
  }

  /** `[row[:] for row in adj_matrix]`: a new array with the same cells. */
  method CopyMatrix(adj: array2<Weight>) returns (dist: array2<Weight>)
    ensures fresh(dist)
    ensures dist.Length0 == adj.Length0 && dist.Length1 == adj.Length1
    ensures forall a, b :: 0 <= a < adj.Length0 && 0 <= b < adj.Length1 ==> dist[a, b] == adj[a, b]
  {
    dist := new Weight[adj.Length0, adj.Length1];
    for i := 0 to adj.Length0
      invariant forall a, b :: 0 <= a < i && 0 <= b < adj.Length1 ==> dist[a, b] == adj[a, b]
    {
      for j := 0 to adj.Length1
        invariant forall a, b :: 0 <= a < i && 0 <= b < adj.Length1 ==> dist[a, b] == adj[a, b]
        invariant forall b :: 0 <= b < j ==> dist[i, b] == adj[i, b]
      {
        dist[i, j] := adj[i, j];
      }
    }
  }

  /** One pass of the outer loop: relax every cell (i, j) through node k, in place. */
  method RelaxThrough(dist: array2<Weight>, k: nat, ghost m: Matrix)
    requires IsSquare(m) && k < |m| && dist.Length0 == |m| && dist.Length1 == |m|
    requires forall a, b :: 0 <= a < |m| && 0 <= b < |m| ==> dist[a, b] == Round(m, k, a, b)
    modifies dist
    ensures forall a, b :: 0 <= a < |m| && 0 <= b < |m| ==> dist[a, b] == Round(m, k + 1, a, b)
  {
    var n := dist.Length0;
    for i := 0 to n
      invariant forall a, b :: 0 <= a < n && 0 <= b < n ==>
                  dist[a, b] == if a < i then Round(m, k + 1, a, b) else Round(m, k, a, b)
    {
      for j := 0 to n
        invariant forall a, b :: 0 <= a < n && 0 <= b < n ==>
                    dist[a, b] == if a < i || (a == i && b < j) then Round(m, k + 1, a, b) else Round(m, k, a, b)
      {
        PivotStable(m, k + 1, i);
        PivotStable(m, k + 1, j);
        RelaxCell(dist, k, i, j, m);
      }
    }
  }

  /**
   * The body of the inner loop: `if dist[i][k] + dist[k][j] < dist[i][j]`,
   * store the sum. Row k and column k hold round-k values whether or not
   * they were already relaxed in this pass, so the cell gets its round-(k+1) value.
   */
  method RelaxCell(dist: array2<Weight>, k: nat, i: nat, j: nat, ghost m: Matrix)
    requires IsSquare(m) && k < |m| && i < |m| && j < |m|
    requires dist.Length0 == |m| && dist.Length1 == |m|
    requires dist[i, k] == Round(m, k, i, k) && dist[k, j] == Round(m, k, k, j)
    requires dist[i, j] == Round(m, k, i, j)
    modifies dist
    ensures dist[i, j] == Round(m, k + 1, i, j)
    ensures forall a, b :: 0 <= a < |m| && 0 <= b < |m| && (a != i || b != j) ==> dist[a, b] == old(dist[a, b])
  {
    ghost var next := Round(m, k + 1, i, j);
    assert next == Relax(dist[i, j], dist[i, k], dist[k, j]);
    if Less(Add(dist[i, k], dist[k, j]), dist[i, j]) {
      dist[i, j] := Add(dist[i, k], dist[k, j]);
    }
  }

  /** Every node of `users` is a node of an n-node graph. */
  ghost predicate NodesBelow(users: seq<nat>, n: nat)
  {
    forall t :: 0 <= t < |users| ==> users[t] < n
  }

  /** The nodes `order[1..t+1]` visited after the start, as a set. */
  ghost function VisitedAfter(order: seq<nat>, t: nat): set<nat>
    requires t < |order|
  {
    set s | 1 <= s <= t :: order[s]
  }

  /** Python `set(user_indices)`. */
  function UserSet(users: seq<nat>): set<nat>
  {
    set u | u in users
  }

  /**
   * Step t of a greedy order over the distances `dm`: `order[t+1]` is a
   * still-unvisited user that is nearest to `order[t]`.
   */
  ghost predicate NearestStep(dm: Matrix, users: set<nat>, order: seq<nat>, t: nat)
    requires IsSquare(dm) && t + 1 < |order| && order[t] < |dm|
    requires forall u :: u in users ==> u < |dm|
  {
    var left := users - VisitedAfter(order, t);
    && order[t + 1] in left
    && forall y :: y in left ==> Leq(dm[order[t]][order[t + 1]], dm[order[t]][y])
  }

  /** The matrix of all Floyd-Warshall distances of `m`. */
  ghost function Distances(m: Matrix): (dm: Matrix)
    requires IsSquare(m)
    ensures |dm| == |m| && IsSquare(dm)
    ensures forall i, j :: 0 <= i < |m| && 0 <= j < |m| ==> dm[i][j] == Round(m, |m|, i, j)
  {
    seq(|m|, i requires 0 <= i < |m| => seq(|m|, j requires 0 <= j < |m| => Round(m, |m|, i, j)))
  }

  /** A non-empty set of nodes has a member at least distance from `row`. */
  lemma {:induction false} NearestExists(s: set<nat>, row: seq<Weight>) returns (x: nat)
    requires s != {} && forall y :: y in s ==> y < |row|
    ensures x in s && forall y :: y in s ==> Leq(row[x], row[y])
    decreases |s|
  {
    var z :| z in s;
    if s == {z} {
      x := z;
    } else {
      var x' := NearestExists(s - {z}, row);
      x := if Less(row[z], row[x']) then z else x';
    }
  }

  lemma VisitedAfterAppend(order: seq<nat>, x: nat, t: nat)
    requires t < |order|
    ensures VisitedAfter(order + [x], t) == VisitedAfter(order, t)
    ensures t == |order| - 1 ==> VisitedAfter(order + [x], t + 1) == VisitedAfter(order, t) + {x}
  {
    var o := order + [x];
    assert forall s :: 1 <= s <= t ==> o[s] == order[s];
    if t == |order| - 1 {
      assert o[t + 1] == x;
    }
  }

  /**
   * `floyd_warshall_route`: starting at `start`, repeatedly moves to a nearest
   * unvisited user by Floyd-Warshall distance. Which of several equally near
   * users is taken depends on Python's set iteration order, so the model
   * allows any of them.
   */
  method FloydWarshallRoute(adj: array2<Weight>, start: nat, users: seq<nat>) returns (order: seq<nat>)
    requires adj.Length0 == adj.Length1
    requires users != [] ==> start < adj.Length0
    requires NodesBelow(users, adj.Length0)
    ensures |order| == 1 + |UserSet(users)|
    ensures order[0] == start
    ensures VisitedAfter(order, |order| - 1) == UserSet(users)
    ensures forall s, t :: 1 <= s < t < |order| ==> order[s] != order[t]
    ensures forall t :: 0 <= t < |order| - 1 ==> order[t] < adj.Length0
    ensures forall t :: 0 <= t < |order| - 1 ==> NearestStep(Distances(Contents(adj)), UserSet(users), order, t)
  {
    var dist := FloydWarshall(adj);
    var dm := Contents(dist);
    ghost var fw := Distances(Contents(adj));
    forall i | 0 <= i < |dm| ensures dm[i] == fw[i] {
      assert forall j :: 0 <= j < |dm| ==> dm[i][j] == fw[i][j];
    }
    assert dm == fw;
    order := GreedyOrder(dm, start, users);
  }

  /** What holds of `order` and `unvisited` between two iterations of the greedy loop. */
  ghost predicate GreedyState(dm: Matrix, start: nat, all: set<nat>, order: seq<nat>, unvisited: set<nat>)
    requires IsSquare(dm) && forall u :: u in all ==> u < |dm|
  {
    && |order| >= 1 && order[0] == start
    && VisitedAfter(order, |order| - 1) <= all
    && unvisited == all - VisitedAfter(order, |order| - 1)
    && (forall s, t :: 1 <= s < t < |order| ==> order[s] != order[t])
    && |order| - 1 + |unvisited| == |all|
    && (unvisited != {} ==> order[|order| - 1] < |dm|)
    && (forall t :: 0 <= t < |order| - 1 ==> order[t] < |dm|)
    && (forall t :: 0 <= t < |order| - 1 ==> NearestStep(dm, all, order, t))
  }

  /** The `while unvisited` loop of `floyd_warshall_route`, over the distance matrix `dm`. */
  method GreedyOrder(dm: Matrix, start: nat, users: seq<nat>) returns (order: seq<nat>)
    requires IsSquare(dm)
    requires users != [] ==> start < |dm|
    requires NodesBelow(users, |dm|)
    ensures |order| == 1 + |UserSet(users)|
    ensures order[0] == start
    ensures VisitedAfter(order, |order| - 1) == UserSet(users)
    ensures forall s, t :: 1 <= s < t < |order| ==> order[s] != order[t]
    ensures forall t :: 0 <= t < |order| - 1 ==> order[t] < |dm|
    ensures forall t :: 0 <= t < |order| - 1 ==> NearestStep(dm, UserSet(users), order, t)
  {
    ghost var all := UserSet(users);
    order := [start];
    var unvisited := UserSet(users);
    var current := start;
    assert VisitedAfter(order, 0) == {};
    while unvisited != {}
      invariant GreedyState(dm, start, all, order, unvisited)
      invariant current == order[|order| - 1]
      decreases |unvisited|
    {
      ghost var pick := NearestExists(unvisited, dm[current]);
      var next :| next in unvisited && forall y :: y in unvisited ==> Leq(dm[current][next], dm[current][y]);
      GreedyAdvance(dm, start, all, order, unvisited, next);
      order := order + [next];
      unvisited := unvisited - {next};
      current := next;
    }
  }

  /** One iteration of the greedy loop keeps GreedyState. */
  lemma GreedyAdvance(dm: Matrix, start: nat, all: set<nat>, order: seq<nat>, unvisited: set<nat>, next: nat)
    requires IsSquare(dm) && forall u :: u in all ==> u < |dm|
    requires GreedyState(dm, start, all, order, unvisited)
    requires next in unvisited
    requires forall y :: y in unvisited ==> Leq(dm[order[|order| - 1]][next], dm[order[|order| - 1]][y])
    ensures GreedyState(dm, start, all, order + [next], unvisited - {next})
  {
    NextStep(dm, all, order, unvisited, next);
    AdvanceBookkeeping(all, order, unvisited, next);
    AdvanceDistinct(order, next);
    AdvanceBounds(|dm|, order, next);
  }

  /** The visited set grows by `next`, which was unvisited. */
  lemma AdvanceBookkeeping(all: set<nat>, order: seq<nat>, unvisited: set<nat>, next: nat)
    requires |order| >= 1
    requires VisitedAfter(order, |order| - 1) <= all
    requires unvisited == all - VisitedAfter(order, |order| - 1)
    requires |order| - 1 + |unvisited| == |all|
    requires next in unvisited
    ensures VisitedAfter(order + [next], |order|) <= all
    ensures unvisited - {next} == all - VisitedAfter(order + [next], |order|)
    ensures |order| + |unvisited - {next}| == |all|
  {
    VisitedAfterAppend(order, next, |order| - 1);
  }

  /** Appending a node not visited yet keeps the order free of repetitions. */
  lemma AdvanceDistinct(order: seq<nat>, next: nat)
    requires |order| >= 1
    requires forall s, t :: 1 <= s < t < |order| ==> order[s] != order[t]
    requires next !in VisitedAfter(order, |order| - 1)
    ensures forall s, t :: 1 <= s < t < |order| + 1 ==> (order + [next])[s] != (order + [next])[t]
  {
    var order' := order + [next];
    forall s, t | 1 <= s < t < |order'| ensures order'[s] != order'[t] {
      if t == |order'| - 1 {
        assert order'[s] == order[s] && order[s] in VisitedAfter(order, |order| - 1);
      } else {
        assert order'[s] == order[s] && order'[t] == order[t];
      }
    }
  }

  /** The node reached last was a node of the graph whenever a user was left to visit. */
  lemma AdvanceBounds(n: nat, order: seq<nat>, next: nat)
    requires |order| >= 1 && order[|order| - 1] < n
    requires forall t :: 0 <= t < |order| - 1 ==> order[t] < n
    ensures forall t :: 0 <= t < |order| ==> (order + [next])[t] < n
  {
  }

  /** Appending a nearest unvisited user keeps every earlier step a greedy one. */
  lemma NextStep(m: Matrix, all: set<nat>, order: seq<nat>, left: set<nat>, next: nat)
    requires IsSquare(m) && |order| >= 1 && order[|order| - 1] < |m|
    requires forall u :: u in all ==> u < |m|
    requires forall t :: 0 <= t < |order| - 1 ==> order[t] < |m|
    requires forall t :: 0 <= t < |order| - 1 ==> NearestStep(m, all, order, t)
    requires left == all - VisitedAfter(order, |order| - 1)
    requires next in left
    requires forall y :: y in left ==> Leq(m[order[|order| - 1]][next], m[order[|order| - 1]][y])
    ensures forall t :: 0 <= t < |order| ==> NearestStep(m, all, order + [next], t)
    ensures VisitedAfter(order + [next], |order|) == VisitedAfter(order, |order| - 1) + {next}
  {
    VisitedAfterAppend(order, next, |order| - 1);
    forall t | 0 <= t < |order|
      ensures NearestStep(m, all, order + [next], t)
    {
      VisitedAfterAppend(order, next, t);
      if t < |order| - 1 {
        assert NearestStep(m, all, order, t);
      }
    }
  }
}
