/**
 * `dijkstra_all_pairs`: Dijkstra's algorithm with a binary heap of
 * `(distance, node)` tuples and lazy deletion, run once from every node.
 *
 * The heap is kept as the list of its entries; `PopMin` follows the contract
 * of `heapq.heappop` (it removes a least tuple in Python's lexicographic
 * order), not its array layout.
 */
module Dijkstra {
  import opened Weights
  import opened Graphs
  import opened Relaxation

  /** A heap entry `(d, u)`: node u was labelled d when the entry was pushed. */
  datatype Entry = Entry(d: nat, u: nat)

  /** Python's tuple order on `(d, u)`. */
  predicate EntryLeq(a: Entry, b: Entry)
  {
    a.d < b.d || (a.d == b.d && a.u <= b.u)
  }

  /** `heapq.heappop`: removes and returns a least entry. */
  method PopMin(heap: seq<Entry>) returns (top: Entry, rest: seq<Entry>)
    requires heap != []
    ensures multiset(rest) + multiset{top} == multiset(heap)
    ensures |rest| == |heap| - 1
    ensures forall e :: e in heap ==> EntryLeq(top, e)
  {
    var m := 0;
    for i := 1 to |heap|
      invariant 0 <= m < |heap|
      invariant forall k :: 0 <= k < i ==> EntryLeq(heap[m], heap[k])
    {
      if !EntryLeq(heap[m], heap[i]) {
        m := i;
      }
    }
    top := heap[m];
    rest := heap[..m] + heap[m + 1..];
    RemoveAt(heap, m);
  }

  /** Taking out the entry at m leaves the other entries. */
  lemma RemoveAt(heap: seq<Entry>, m: nat)
    requires m < |heap|
    ensures multiset(heap[..m] + heap[m + 1..]) + multiset{heap[m]} == multiset(heap)
    ensures |heap[..m] + heap[m + 1..]| == |heap| - 1
  {
    assert heap == heap[..m] + [heap[m]] + heap[m + 1..];
  }

  /** Number of infinite labels. */
  function InfCount(dist: seq<Weight>): (c: nat)
    ensures c <= |dist|
  {
    if dist == [] then 0 else (if dist[0].Inf? then 1 else 0) + InfCount(dist[1..])
  }

  /** Sum of the finite labels. */
  function FinSum(dist: seq<Weight>): nat
  {
    if dist == [] then 0 else (if dist[0].Fin? then dist[0].n else 0) + FinSum(dist[1..])
  }

  /** `dist'` is strictly lower than `dist` in the order the main loop's termination rests on. */
  ghost predicate Improves(dist': seq<Weight>, dist: seq<Weight>)
  {
    InfCount(dist') < InfCount(dist) || (InfCount(dist') == InfCount(dist) && FinSum(dist') < FinSum(dist))
  }

  /** How replacing one label by a finite one changes the two counts. */
  lemma {:induction false} UpdateCounts(dist: seq<Weight>, v: nat, x: nat)
    requires v < |dist|
    ensures InfCount(dist[v := Fin(x)]) == InfCount(dist) - (if dist[v].Inf? then 1 else 0)
    ensures dist[v].Fin? ==> FinSum(dist[v := Fin(x)]) == FinSum(dist) - dist[v].n + x
    decreases |dist|
  {
    if v == 0 {
      assert dist[v := Fin(x)][1..] == dist[1..];
    } else {
      UpdateCounts(dist[1..], v - 1, x);
      assert dist[v := Fin(x)][1..] == dist[1..][v - 1 := Fin(x)];
    }
  }

  /** Lowering one label to a finite value improves the label vector. */
  lemma ImprovesUpdate(dist: seq<Weight>, v: nat, c: Weight)
    requires v < |dist| && c.Fin? && Less(c, dist[v])
    ensures Improves(dist[v := c], dist)
  {
    UpdateCounts(dist, v, c.n);
  }

  /** Every entry names a node whose label is finite and at most the entry's distance. */
  ghost predicate HeapSound(dist: seq<Weight>, heap: seq<Entry>)
  {
    forall e :: e in heap ==> e.u < |dist| && dist[e.u].Fin? && dist[e.u].n <= e.d
  }

  /**
   * Every node `x` other than `skip` either has no edge left to relax or is
   * waiting in the heap with its current label.
   */
  ghost predicate Tracked(g: AdjList, dist: seq<Weight>, heap: seq<Entry>, skip: int)
    requires |dist| == |g|
  {
    forall x :: 0 <= x < |g| && x != skip ==>
      EdgesBelow(g, dist, dist, x, |g[x]|) || (dist[x].Fin? && Entry(dist[x].n, x) in heap)
  }

  /** The invariant of the main loop. */
  ghost predicate LoopState(g: AdjList, s: nat, dist: seq<Weight>, heap: seq<Entry>)
  {
    && |dist| == |g| && s < |g| && dist[s] == Fin(0)
    && Achievable(g, s, dist) && HeapSound(dist, heap) && Tracked(g, dist, heap, -1)
  }

  /** The invariant of the scan of u's edges, the first `idx` of them relaxed. */
  ghost predicate ScanState(g: AdjList, s: nat, dist: seq<Weight>, heap: seq<Entry>, u: nat, idx: nat)
  {
    && |dist| == |g| && s < |g| && dist[s] == Fin(0)
    && Achievable(g, s, dist) && HeapSound(dist, heap)
    && u < |g| && dist[u].Fin? && EdgesBelow(g, dist, dist, u, idx)
    && Tracked(g, dist, heap, u)
  }

  lemma InitialState(g: AdjList, s: nat)
    requires Closed(g) && s < |g|
    ensures LoopState(g, s, InitialDistances(|g|, s), [Entry(0, s)])
  {
    var dist := InitialDistances(|g|, s);
    assert IsWalk(g, s, []) && End(s, []) == s && WalkWeight([]) == 0;
    forall x | 0 <= x < |g| && x != s
      ensures EdgesBelow(g, dist, dist, x, |g[x]|)
    {
    }
  }

  /** What is left after a pop was in the heap before. */
  lemma PoppedRest(heap: seq<Entry>, top: Entry, rest: seq<Entry>)
    requires multiset(rest) + multiset{top} == multiset(heap)
    ensures forall e :: e in rest ==> e in heap
  {
    forall e | e in rest
      ensures e in heap
    {
      assert e in multiset(rest);
      assert e in multiset(heap);
    }
  }

  /** Popping a stale entry, one whose distance exceeds the node's label, loses nothing. */
  lemma PopStale(g: AdjList, s: nat, dist: seq<Weight>, heap: seq<Entry>, top: Entry, rest: seq<Entry>)
    requires LoopState(g, s, dist, heap)
    requires multiset(rest) + multiset{top} == multiset(heap)
    requires top.u < |dist| && dist[top.u].Fin? && top.d > dist[top.u].n
    ensures LoopState(g, s, dist, rest)
  {
    PoppedRest(heap, top, rest);
    forall x | 0 <= x < |g| && !EdgesBelow(g, dist, dist, x, |g[x]|)
      ensures Entry(dist[x].n, x) in rest
    {
      assert Entry(dist[x].n, x) in multiset(heap);
    }
  }

  /** Popping a current entry starts the scan of that node's edges. */
  lemma PopCurrent(g: AdjList, s: nat, dist: seq<Weight>, heap: seq<Entry>, top: Entry, rest: seq<Entry>)
    requires LoopState(g, s, dist, heap)
    requires multiset(rest) + multiset{top} == multiset(heap)
    requires top.u < |dist| && dist[top.u].Fin?
    ensures ScanState(g, s, dist, rest, top.u, 0)
  {
    PoppedRest(heap, top, rest);
    forall x | 0 <= x < |g| && x != top.u && !EdgesBelow(g, dist, dist, x, |g[x]|)
      ensures Entry(dist[x].n, x) in rest
    {
      assert Entry(dist[x].n, x) in multiset(heap);
    }
  }

  /** One relaxation of the scan keeps its invariant, and lowering a label improves the vector. */
  lemma ScanStep(g: AdjList, s: nat, dist: seq<Weight>, heap: seq<Entry>, u: nat, idx: nat)
    requires Closed(g) && ScanState(g, s, dist, heap, u, idx) && idx < |g[u]|
    ensures var e := g[u][idx];
            var c := Add(dist[u], Fin(e.w));
            if Less(c, dist[e.to])
            then ScanState(g, s, dist[e.to := c], heap + [Entry(c.n, e.to)], u, idx + 1)
            else ScanState(g, s, dist, heap, u, idx + 1)
  {
    var e := g[u][idx];
    assert e in g[u];
    var c := Add(dist[u], Fin(e.w));
    if Less(c, dist[e.to]) {
      var dist' := dist[e.to := c];
      var heap' := heap + [Entry(c.n, e.to)];
      assert dist' == Relax(dist, u, e);
      RelaxAchievable(g, s, dist, u, e);
      EdgesBelowLower(g, dist, dist, dist', u, idx);
      forall x | 0 <= x < |g| && x != u && x != e.to && EdgesBelow(g, dist, dist, x, |g[x]|)
        ensures EdgesBelow(g, dist', dist', x, |g[x]|)
      {
        EdgesBelowLower(g, dist, dist, dist', x, |g[x]|);
      }
      assert Entry(dist'[e.to].n, e.to) in heap';
    }
  }

  /** Once all of u's edges are relaxed, u is accounted for again. */
  lemma ScanDone(g: AdjList, s: nat, dist: seq<Weight>, heap: seq<Entry>, u: nat)
    requires u < |g| && ScanState(g, s, dist, heap, u, |g[u]|)
    ensures LoopState(g, s, dist, heap)
  {
  }

  /** With the heap empty, the labels are the shortest distances. */
  lemma FinalLabels(g: AdjList, s: nat, dist: seq<Weight>)
    requires LoopState(g, s, dist, [])
    ensures forall t :: 0 <= t < |g| ==> IsShortestDistance(g, s, t, dist[t])
  {
    forall p | IsWalk(g, s, p)
      ensures End(s, p) < |dist| && Leq(dist[End(s, p)], Fin(WalkWeight(p)))
    {
      RelaxedLowerBound(g, s, dist, p);
    }
    LabelsAreShortest(g, s, dist);
  }

  /** The inner `dijkstra(source)`: the shortest distance from `source` to every node. */
  method ShortestFrom(g: AdjList, source: nat) returns (dist: seq<Weight>)
    requires Closed(g) && source < |g|
    ensures |dist| == |g|
    ensures forall t :: 0 <= t < |g| ==> IsShortestDistance(g, source, t, dist[t])
  {
    dist := InitialDistances(|g|, source);
    var heap := [Entry(0, source)];
    InitialState(g, source);
    while heap != []
      invariant LoopState(g, source, dist, heap)
      decreases InfCount(dist), FinSum(dist), |heap|
    {
      var top, rest := PopMin(heap);
      assert top in multiset(heap);
      var d, u := top.d, top.u;
      if d > dist[u].n {
        // stale entry: skipped without relaxing
        PopStale(g, source, dist, heap, top, rest);
        heap := rest;
        continue;
      }
      PopCurrent(g, source, dist, heap, top, rest);
      ghost var dist0 := dist;
      heap := rest;
      for idx := 0 to |g[u]|
        invariant ScanState(g, source, dist, heap, u, idx)
        invariant (dist == dist0 && heap == rest) || Improves(dist, dist0)
      {
        var e := g[u][idx];
        var c := Add(dist[u], Fin(e.w));
        ScanStep(g, source, dist, heap, u, idx);
        if Less(c, dist[e.to]) {
          ImprovesUpdate(dist, e.to, c);
          dist := dist[e.to := c];
          heap := heap + [Entry(c.n, e.to)];
        }
      }
      ScanDone(g, source, dist, heap, u);
    }
    FinalLabels(g, source, dist);
  }

  /** `dijkstra_all_pairs`: one run of `ShortestFrom` per node, in key order. */
  method DijkstraAllPairs(g: AdjList) returns (all: seq<seq<Weight>>)
    requires Closed(g)
    ensures AllPairsShortest(g, all)
  {
    all := [];
    for s := 0 to |g|
      invariant |all| == s
      invariant forall s' :: 0 <= s' < s ==>
        |all[s']| == |g| && forall t :: 0 <= t < |g| ==> IsShortestDistance(g, s', t, all[s'][t])
    {
      var dist := ShortestFrom(g, s);
      all := all + [dist];
    }
  }
}
