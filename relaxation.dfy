/**
 * Distance labels and edge relaxation, shared by the single-source routines
 * of Dijkstra and Bellman–Ford. A label vector `dist` holds one `Weight`
 * per node (the dictionary `{node: dist}` of the source, with keys 0..n-1).
 */
module Relaxation {
  import opened Weights
  import opened Graphs

  /** `dist` on entry of a single-source run: 0 at the source, infinity elsewhere. */
  function InitialDistances(n: nat, s: nat): (dist: seq<Weight>)
    requires s < n
    ensures |dist| == n && dist[s] == Fin(0)
    ensures forall v :: 0 <= v < n && v != s ==> dist[v] == Inf
  {
    seq(n, v requires 0 <= v < n => if v == s then Fin(0) else Inf)
  }

  /** Every finite label is the weight of some walk from s to that node. */
  ghost predicate Achievable(g: AdjList, s: nat, dist: seq<Weight>)
  {
    forall v :: 0 <= v < |dist| && dist[v].Fin? ==>
      exists p :: IsWalk(g, s, p) && End(s, p) == v && WalkWeight(p) == dist[v].n
  }

  /** No walk from s is lighter than the label of the node it ends at. */
  ghost predicate LowerBound(g: AdjList, s: nat, dist: seq<Weight>)
  {
    forall p :: IsWalk(g, s, p) ==> End(s, p) < |dist| && Leq(dist[End(s, p)], Fin(WalkWeight(p)))
  }

  /** As `LowerBound`, for the walks of at most r edges. */
  ghost predicate BoundedUpTo(g: AdjList, s: nat, dist: seq<Weight>, r: nat)
  {
    forall p :: IsWalk(g, s, p) && |p| <= r ==> End(s, p) < |dist| && Leq(dist[End(s, p)], Fin(WalkWeight(p)))
  }

  /** Pointwise `dist <= base`. */
  ghost predicate Below(dist: seq<Weight>, base: seq<Weight>)
  {
    |dist| == |base| && forall v :: 0 <= v < |dist| ==> Leq(dist[v], base[v])
  }

  /**
   * The first k edges `(v, w)` listed under u satisfy `dist[v] <= base[u] + w`.
   * With `base == dist` and k the whole list: no edge out of u can still be relaxed.
   */
  ghost predicate EdgesBelow(g: AdjList, base: seq<Weight>, dist: seq<Weight>, u: nat, k: nat)
  {
    && u < |g| && u < |base| && k <= |g[u]|
    && forall i :: 0 <= i < k ==> g[u][i].to < |dist| && Leq(dist[g[u][i].to], Add(base[u], Fin(g[u][i].w)))
  }

  /** Relaxing the edge u -> e.to: the label `dist[u] + e.w` replaces `dist[e.to]` when it is smaller. */
  function Relax(dist: seq<Weight>, u: nat, e: Edge): (r: seq<Weight>)
    requires u < |dist| && e.to < |dist|
    ensures |r| == |dist| && Below(r, dist)
    ensures Leq(r[e.to], Add(dist[u], Fin(e.w)))
    ensures forall v :: 0 <= v < |dist| && v != e.to ==> r[v] == dist[v]
    ensures r[u] == dist[u]
  {
    if Less(Add(dist[u], Fin(e.w)), dist[e.to]) then dist[e.to := Add(dist[u], Fin(e.w))] else dist
  }

  /** Relaxing an edge of the graph keeps every finite label the weight of a walk. */
  lemma RelaxAchievable(g: AdjList, s: nat, dist: seq<Weight>, u: nat, e: Edge)
    requires Closed(g) && |dist| == |g| && Achievable(g, s, dist)
    requires u < |g| && e in g[u]
    ensures Achievable(g, s, Relax(dist, u, e))
  {
    if Less(Add(dist[u], Fin(e.w)), dist[e.to]) {
      var p :| IsWalk(g, s, p) && End(s, p) == u && WalkWeight(p) == dist[u].n;
      var q := p + [e];
      assert q[..|q| - 1] == p;
      assert IsWalk(g, s, q) && End(s, q) == e.to && WalkWeight(q) == dist[u].n + e.w;
    }
  }

  /** Lowering labels keeps edge conditions that compare them against a fixed base. */
  lemma EdgesBelowLower(g: AdjList, base: seq<Weight>, dist: seq<Weight>, dist': seq<Weight>, u: nat, k: nat)
    requires EdgesBelow(g, base, dist, u, k) && Below(dist', dist)
    ensures EdgesBelow(g, base, dist', u, k)
  {
    forall i | 0 <= i < k
      ensures Leq(dist'[g[u][i].to], Add(base[u], Fin(g[u][i].w)))
    {
      LeqTrans(dist'[g[u][i].to], dist[g[u][i].to], Add(base[u], Fin(g[u][i].w)));
    }
  }

  /**
   * If the source is labelled 0 and no edge can be relaxed any more, no walk
   * from the source is lighter than the label of its end.
   */
  lemma {:induction false} RelaxedLowerBound(g: AdjList, s: nat, dist: seq<Weight>, p: seq<Edge>)
    requires |dist| == |g| && s < |g| && dist[s] == Fin(0)
    requires forall u :: 0 <= u < |g| ==> EdgesBelow(g, dist, dist, u, |g[u]|)
    requires IsWalk(g, s, p)
    ensures End(s, p) < |dist| && Leq(dist[End(s, p)], Fin(WalkWeight(p)))
    decreases |p|
  {
    if p != [] {
      var q := p[..|p| - 1];
      var e := p[|p| - 1];
      var u := End(s, q);
      RelaxedLowerBound(g, s, dist, q);
      var i :| 0 <= i < |g[u]| && g[u][i] == e;
      assert EdgesBelow(g, dist, dist, u, |g[u]|);
      assert Leq(dist[e.to], Add(dist[u], Fin(e.w)));
      AddMono(dist[u], Fin(e.w), Fin(WalkWeight(q)), Fin(e.w));
      LeqTrans(dist[e.to], Add(dist[u], Fin(e.w)), Fin(WalkWeight(p)));
    }
  }

  /** Achievable labels that no walk undercuts are exactly the shortest distances. */
  lemma LabelsAreShortest(g: AdjList, s: nat, dist: seq<Weight>)
    requires |dist| == |g| && Achievable(g, s, dist) && LowerBound(g, s, dist)
    ensures forall t :: 0 <= t < |g| ==> IsShortestDistance(g, s, t, dist[t])
  {
  }

  /** `all[s][t]` is the shortest distance from s to t, for all nodes s and t. */
  ghost predicate AllPairsShortest(g: AdjList, all: seq<seq<Weight>>)
  {
    |all| == |g| &&
    forall s :: 0 <= s < |g| ==>
      |all[s]| == |g| && forall t :: 0 <= t < |g| ==> IsShortestDistance(g, s, t, all[s][t])
  }

  /**
   * Two all-pairs results that both meet the shortest-distance contract are
   * equal: on graphs with non-negative weights Dijkstra and Bellman–Ford agree.
   */
  lemma AllPairsUnique(g: AdjList, a: seq<seq<Weight>>, b: seq<seq<Weight>>)
    requires AllPairsShortest(g, a) && AllPairsShortest(g, b)
    ensures a == b
  {
    forall s | 0 <= s < |g|
      ensures a[s] == b[s]
    {
      forall t | 0 <= t < |g|
        ensures a[s][t] == b[s][t]
      {
        ShortestDistanceUnique(g, s, t, a[s][t], b[s][t]);
      }
    }
  }

  /** Pointwise order is transitive. */
  lemma BelowTrans(a: seq<Weight>, b: seq<Weight>, c: seq<Weight>)
    requires Below(a, b) && Below(b, c)
    ensures Below(a, c)
  {
    forall v | 0 <= v < |a|
      ensures Leq(a[v], c[v])
    {
      LeqTrans(a[v], b[v], c[v]);
    }
  }
}
