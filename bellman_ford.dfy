/**
 * `bellman_ford_all_pairs`: from every node, n - 1 rounds that each relax
 * every edge once, nodes in key order and each node's edges in list order.
 */
module BellmanFord {
  import opened Weights
  import opened Graphs
  import opened Relaxation

  /** The labels on entry of a run: every walk with no edge is bounded, every finite label achieved. */
  lemma InitialLabels(g: AdjList, s: nat)
    requires s < |g|
    ensures Achievable(g, s, InitialDistances(|g|, s))
    ensures BoundedUpTo(g, s, InitialDistances(|g|, s), 0)
  {
    assert IsWalk(g, s, []) && End(s, []) == s && WalkWeight([]) == 0;
  }

  /** Relaxing one edge inside a round keeps the round's invariant and extends it by that edge. */
  lemma RoundStep(g: AdjList, s: nat, base: seq<Weight>, dist: seq<Weight>, u: nat, idx: nat)
    requires Closed(g) && |dist| == |g| && Below(dist, base) && Achievable(g, s, dist)
    requires u < |g| && idx < |g[u]| && EdgesBelow(g, base, dist, u, idx)
    ensures var dist' := Relax(dist, u, g[u][idx]);
            && Below(dist', base) && Achievable(g, s, dist')
            && EdgesBelow(g, base, dist', u, idx + 1)
  {
    var e := g[u][idx];
    assert e in g[u];
    var dist' := Relax(dist, u, e);
    RelaxAchievable(g, s, dist, u, e);
    BelowTrans(dist', dist, base);
    EdgesBelowLower(g, base, dist, dist', u, idx);
    AddMono(dist[u], Fin(e.w), base[u], Fin(e.w));
    LeqTrans(dist'[e.to], Add(dist[u], Fin(e.w)), Add(base[u], Fin(e.w)));
  }

  /**
   * One round: every edge `(v, w)` listed under u, in order, is relaxed once.
   * Afterwards each `dist[v]` is at most the round's starting label of u plus w.
   */
  method RelaxRound(g: AdjList, ghost s: nat, dist0: seq<Weight>) returns (dist: seq<Weight>)
    requires Closed(g) && |dist0| == |g| && Achievable(g, s, dist0)
    ensures |dist| == |g| && Below(dist, dist0) && Achievable(g, s, dist)
    ensures forall u :: 0 <= u < |g| ==> EdgesBelow(g, dist0, dist, u, |g[u]|)
  {
    dist := dist0;
    for u := 0 to |g|
      invariant |dist| == |g| && Below(dist, dist0) && Achievable(g, s, dist)
      invariant forall x :: 0 <= x < u ==> EdgesBelow(g, dist0, dist, x, |g[x]|)
    {
      for idx := 0 to |g[u]|
        invariant |dist| == |g| && Below(dist, dist0) && Achievable(g, s, dist)
        invariant forall x :: 0 <= x < u ==> EdgesBelow(g, dist0, dist, x, |g[x]|)
        invariant EdgesBelow(g, dist0, dist, u, idx)
      {
        var e := g[u][idx];
        assert e in g[u];
        RoundStep(g, s, dist0, dist, u, idx);
        ghost var before := dist;
        if Less(Add(dist[u], Fin(e.w)), dist[e.to]) {
          dist := dist[e.to := Add(dist[u], Fin(e.w))];
        }
        assert dist == Relax(before, u, e);
        forall x | 0 <= x < u
          ensures EdgesBelow(g, dist0, dist, x, |g[x]|)
        {
          EdgesBelowLower(g, dist0, before, dist, x, |g[x]|);
        }
      }
    }
  }

  /** After a round that starts with the walks of up to r edges bounded, those of up to r + 1 edges are. */
  lemma RoundBound(g: AdjList, s: nat, base: seq<Weight>, dist: seq<Weight>, r: nat)
    requires |base| == |g| && BoundedUpTo(g, s, base, r) && Below(dist, base)
    requires forall u :: 0 <= u < |g| ==> EdgesBelow(g, base, dist, u, |g[u]|)
    ensures BoundedUpTo(g, s, dist, r + 1)
  {
    forall p | IsWalk(g, s, p) && |p| <= r + 1
      ensures End(s, p) < |dist| && Leq(dist[End(s, p)], Fin(WalkWeight(p)))
    {
      WalkEndInGraph(g, s, p);
      if |p| <= r {
        LeqTrans(dist[End(s, p)], base[End(s, p)], Fin(WalkWeight(p)));
      } else {
        var q := p[..|p| - 1];
        var e := p[|p| - 1];
        var u := End(s, q);
        assert Leq(base[u], Fin(WalkWeight(q)));
        var i :| 0 <= i < |g[u]| && g[u][i] == e;
        assert EdgesBelow(g, base, dist, u, |g[u]|);
        assert Leq(dist[e.to], Add(base[u], Fin(e.w)));
        AddMono(base[u], Fin(e.w), Fin(WalkWeight(q)), Fin(e.w));
        LeqTrans(dist[e.to], Add(base[u], Fin(e.w)), Fin(WalkWeight(p)));
      }
    }
  }

  /** Bounding the walks of fewer than n edges bounds all walks, since any walk can be shortened to one. */
  lemma BoundedIsLowerBound(g: AdjList, s: nat, dist: seq<Weight>)
    requires |g| >= 1 && BoundedUpTo(g, s, dist, |g| - 1)
    ensures LowerBound(g, s, dist)
  {
    forall p | IsWalk(g, s, p)
      ensures End(s, p) < |dist| && Leq(dist[End(s, p)], Fin(WalkWeight(p)))
    {
      var q := ShortenWalk(g, s, p);
      assert Leq(dist[End(s, q)], Fin(WalkWeight(q)));
    }
  }

  /** The body of the loop over `src`: the shortest distance from `src` to every node. */
  method ShortestFrom(g: AdjList, src: nat) returns (dist: seq<Weight>)
    requires Closed(g) && src < |g|
    ensures |dist| == |g|
    ensures forall t :: 0 <= t < |g| ==> IsShortestDistance(g, src, t, dist[t])
  {
    dist := InitialDistances(|g|, src);
    InitialLabels(g, src);
    for r := 0 to |g| - 1
      invariant |dist| == |g| && Achievable(g, src, dist) && BoundedUpTo(g, src, dist, r)
    {
      ghost var base := dist;
      dist := RelaxRound(g, src, dist);
      RoundBound(g, src, base, dist, r);
    }
    BoundedIsLowerBound(g, src, dist);
    LabelsAreShortest(g, src, dist);
  }

  /** `bellman_ford_all_pairs`: one run of `ShortestFrom` per node, in key order. */
  method BellmanFordAllPairs(g: AdjList) returns (all: seq<seq<Weight>>)
    requires Closed(g)
    ensures AllPairsShortest(g, all)
  {
    all := [];
    for src := 0 to |g|
      invariant |all| == src
      invariant forall s' :: 0 <= s' < src ==>
        |all[s']| == |g| && forall t :: 0 <= t < |g| ==> IsShortestDistance(g, s', t, all[s'][t])
    {
      var dist := ShortestFrom(g, src);
      all := all + [dist];
    }
  }
}
