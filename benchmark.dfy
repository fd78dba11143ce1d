/**
 * `run_benchmark`: rejects unknown doctors and users, lays out the
 * waypoints (doctor first), builds the adjacency matrix that Floyd–Warshall
 * receives from the sparse adjacency list, and asks OSRM for one route
 * geometry per user. The database lookups, the sparse-graph construction and
 * the OSRM responses are parameters.
 */
module Benchmark {
  import opened Wrappers
  import opened Weights
  import opened Graphs
  import opened OsrmClient
  import FloydWarshall

  /** An HTTP error response. */
  datatype HttpError = HttpError(status: nat, detail: string)

  /** A routing-graph node: its id (a decimal index) and where it is. */
  datatype Node = Node(id: string, at: Coord)

  /** Number of nearest neighbours each node gets in the sparse graph. */
  const K: nat := 4

  /** w is the node of a user found at a position below `bound`, with that position plus one as its id. */
  ghost predicate FromUser(users: seq<Maybe<Coord>>, bound: nat, w: Node)
  {
    exists p :: 0 <= p < bound && p < |users| && users[p].Some? && w == Node(NatToString(p + 1), users[p].value)
  }

  /**
   * The waypoint loop: the doctor with id "0", then each user found, with id
   * `str(p + 1)` for the user at position p of the request.
   */
  method BuildWaypoints(doctor: Coord, users: seq<Maybe<Coord>>) returns (waypoints: seq<Node>)
    ensures |waypoints| >= 1 && waypoints[0] == Node("0", doctor)
    ensures forall t :: 1 <= t < |waypoints| ==> FromUser(users, |users|, waypoints[t])
    ensures (forall p :: 0 <= p < |users| ==> users[p].Some?) ==>
      |waypoints| == |users| + 1 &&
      forall p :: 0 <= p < |users| ==> waypoints[p + 1] == Node(NatToString(p + 1), users[p].value)
  {
    waypoints := [Node("0", doctor)];
    ghost var allFound := forall p :: 0 <= p < |users| ==> users[p].Some?;
    for p := 0 to |users|
      invariant |waypoints| >= 1 && waypoints[0] == Node("0", doctor)
      invariant forall t :: 1 <= t < |waypoints| ==> FromUser(users, p, waypoints[t])
      invariant allFound ==>
        |waypoints| == p + 1 && forall q :: 0 <= q < p ==> waypoints[q + 1] == Node(NatToString(q + 1), users[q].value)
    {
      ghost var before := waypoints;
      if users[p].Some? {
        waypoints := waypoints + [Node(NatToString(p + 1), users[p].value)];
      }
      FoundStep(users, p, before, waypoints);
      if allFound {
        AllFoundStep(users, p, before, waypoints);
      }
    }
  }

  /** One step of the waypoint loop when every user is found: the user at p lands at position p + 1. */
  lemma AllFoundStep(users: seq<Maybe<Coord>>, p: nat, before: seq<Node>, after: seq<Node>)
    requires p < |users| && forall q :: 0 <= q <= p ==> users[q].Some?
    requires |before| == p + 1
    requires forall q :: 0 <= q < p ==> before[q + 1] == Node(NatToString(q + 1), users[q].value)
    requires after == before + [Node(NatToString(p + 1), users[p].value)]
    ensures |after| == p + 2
    ensures forall q :: 0 <= q < p + 1 ==> after[q + 1] == Node(NatToString(q + 1), users[q].value)
  {
  }

  /** One step of the waypoint loop: the nodes so far still come from users, now below p + 1. */
  lemma FoundStep(users: seq<Maybe<Coord>>, p: nat, before: seq<Node>, after: seq<Node>)
    requires p < |users|
    requires forall t :: 1 <= t < |before| ==> FromUser(users, p, before[t])
    requires after == if users[p].Some? then before + [Node(NatToString(p + 1), users[p].value)] else before
    ensures forall t :: 1 <= t < |after| ==> FromUser(users, p + 1, after[t])
  {
    forall t | 1 <= t < |after|
      ensures FromUser(users, p + 1, after[t])
    {
      if t < |before| {
        assert after[t] == before[t];
        FromUserMono(users, p, before[t]);
      } else {
        assert users[p].Some? && after[t] == Node(NatToString(p + 1), users[p].value);
      }
    }
  }

  lemma FromUserMono(users: seq<Maybe<Coord>>, bound: nat, w: Node)
    requires FromUser(users, bound, w)
    ensures FromUser(users, bound + 1, w)
  {
  }

  /** With every user found, the waypoints are the doctor followed by every user, in request order. */
  lemma WaypointsOfUsers(doctor: Coord, users: seq<Maybe<Coord>>, waypoints: seq<Node>)
    requires |waypoints| == |users| + 1 && waypoints[0] == Node("0", doctor)
    requires forall p :: 0 <= p < |users| ==> users[p].Some?
    requires forall p :: 0 <= p < |users| ==> waypoints[p + 1] == Node(NatToString(p + 1), users[p].value)
    ensures waypoints == [Node("0", doctor)] +
      seq(|users|, p requires 0 <= p < |users| => Node(NatToString(p + 1), users[p].value))
  {
    var rest := seq(|users|, p requires 0 <= p < |users| => Node(NatToString(p + 1), users[p].value));
    forall t | 0 <= t < |waypoints|
      ensures waypoints[t] == ([Node("0", doctor)] + rest)[t]
    {
      if t > 0 {
        assert waypoints[(t - 1) + 1] == rest[t - 1];
      }
    }
  }

  /** With every user found, each waypoint's id reads back as its own position. */
  lemma WaypointIdsArePositions(doctor: Coord, users: seq<Maybe<Coord>>, waypoints: seq<Node>)
    requires |waypoints| == |users| + 1 && waypoints[0] == Node("0", doctor)
    requires forall p :: 0 <= p < |users| ==> users[p].Some?
    requires forall p :: 0 <= p < |users| ==> waypoints[p + 1] == Node(NatToString(p + 1), users[p].value)
    ensures forall t :: 0 <= t < |waypoints| ==> ParseNat(waypoints[t].id) == Some(t)
  {
    forall t | 0 <= t < |waypoints|
      ensures ParseNat(waypoints[t].id) == Some(t)
    {
      ParseNatToString(t);
      if t == 0 {
        assert NatToString(0) == "0";
      } else {
        assert waypoints[(t - 1) + 1] == Node(NatToString(t), users[t - 1].value);
      }
    }
  }

  /** The weight of the last edge to j in `es`, if any. */
  function LastWeight(es: seq<Edge>, j: nat): Maybe<nat>
    decreases |es|
  {
    if es == [] then None
    else if es[|es| - 1].to == j then Some(es[|es| - 1].w)
    else LastWeight(es[..|es| - 1], j)
  }

  /** `LastWeight` finds the last listed edge to j, and `None` exactly when no edge goes to j. */
  lemma {:induction false} LastWeightSpec(es: seq<Edge>, j: nat)
    ensures LastWeight(es, j).None? <==> forall t :: 0 <= t < |es| ==> es[t].to != j
    ensures LastWeight(es, j).Some? ==>
      exists t :: 0 <= t < |es| && es[t] == Edge(j, LastWeight(es, j).value) &&
        forall t' :: t < t' < |es| ==> es[t'].to != j
    decreases |es|
  {
    if es != [] && es[|es| - 1].to != j {
      var es' := es[..|es| - 1];
      LastWeightSpec(es', j);
      if LastWeight(es', j).Some? {
        var t :| 0 <= t < |es'| && es'[t] == Edge(j, LastWeight(es', j).value) &&
          forall t' :: t < t' < |es'| ==> es'[t'].to != j;
        assert es[t] == es'[t];
      }
    }
  }

  /** The cell (i, j) of the matrix built from the adjacency list. */
  function MatrixCell(g: AdjList, i: nat, j: nat): Weight
    requires i < |g|
  {
    match LastWeight(g[i], j)
    case Some(w) => Fin(w)
    case None => if i == j then Fin(0) else Inf
  }

  /** Without an edge from i to itself the diagonal cell is 0; an off-diagonal cell without an edge is infinity. */
  lemma MatrixCellDefault(g: AdjList, i: nat, j: nat)
    requires i < |g| && forall t :: 0 <= t < |g[i]| ==> g[i][t].to != j
    ensures MatrixCell(g, i, j) == if i == j then Fin(0) else Inf
  {
    LastWeightSpec(g[i], j);
  }

  /** An edge listed for (i, j) puts the weight of the last such edge into the cell. */
  lemma MatrixCellListed(g: AdjList, i: nat, j: nat, t: nat)
    requires i < |g| && t < |g[i]| && g[i][t].to == j
    ensures MatrixCell(g, i, j).Fin?
    ensures exists t' :: t <= t' < |g[i]| && g[i][t'] == Edge(j, MatrixCell(g, i, j).n)
    ensures forall t' :: 0 <= t' < |g[i]| && g[i][t'].to == j ==> Edge(j, MatrixCell(g, i, j).n) in g[i][t'..]
  {
    LastWeightSpec(g[i], j);
    var v := LastWeight(g[i], j).value;
    var last :| 0 <= last < |g[i]| && g[i][last] == Edge(j, v) && forall t' :: last < t' < |g[i]| ==> g[i][t'].to != j;
    assert t <= last;
    forall t' | 0 <= t' < |g[i]| && g[i][t'].to == j
      ensures Edge(j, v) in g[i][t'..]
    {
      assert g[i][t'..][last - t'] == g[i][last];
    }
  }

  /** The matrix of `MatrixCell` entries, row by row. */
  ghost predicate IsAdjacencyMatrix(g: AdjList, m: array2<Weight>)
    reads m
  {
    m.Length0 == |g| && m.Length1 == |g| &&
    forall i, j :: 0 <= i < |g| && 0 <= j < |g| ==> m[i, j] == MatrixCell(g, i, j)
  }

  /**
   * The matrix loops: n x n infinity, 0 on the diagonal, then for each
   * listed `(j, w)` of node i the cell (i, j) set to w, so a later edge to
   * the same j overwrites an earlier one.
   */
  method BuildAdjMatrix(g: AdjList) returns (m: array2<Weight>)
    requires Closed(g)
    ensures fresh(m) && IsAdjacencyMatrix(g, m)
  {
    var n := |g|;
    m := new Weight[n, n]((i, j) => Inf);
    for i := 0 to n
      modifies m
      invariant forall a, b :: 0 <= a < n && 0 <= b < n ==> m[a, b] == if a == b && a < i then Fin(0) else Inf
    {
      m[i, i] := Fin(0);
    }
    for i := 0 to n
      modifies m
      invariant forall a, b :: 0 <= a < i && 0 <= b < n ==> m[a, b] == MatrixCell(g, a, b)
      invariant forall a, b :: i <= a < n && 0 <= b < n ==> m[a, b] == if a == b then Fin(0) else Inf
    {
      FillRow(g, m, i);
    }
  }

  /** The inner loop for row i: writes each listed `(j, w)` of node i into cell (i, j). */
  method FillRow(g: AdjList, m: array2<Weight>, i: nat)
    requires Closed(g) && i < |g| && m.Length0 == |g| && m.Length1 == |g|
    requires forall b :: 0 <= b < |g| ==> m[i, b] == if i == b then Fin(0) else Inf
    modifies m
    ensures forall b :: 0 <= b < |g| ==> m[i, b] == MatrixCell(g, i, b)
    ensures forall a, b :: 0 <= a < |g| && a != i && 0 <= b < |g| ==> m[a, b] == old(m[a, b])
  {
    var row := g[i];
    for idx := 0 to |row|
      modifies m
      invariant forall b :: 0 <= b < |g| ==> m[i, b] == MatrixCell(g[..i] + [row[..idx]], i, b)
      invariant forall a, b :: 0 <= a < |g| && a != i && 0 <= b < |g| ==> m[a, b] == old(m[a, b])
    {
      var e := row[idx];
      assert e in g[i];
      assert row[..idx + 1][..idx] == row[..idx];
      m[i, e.to] := Fin(e.w);
    }
    assert row[..|row|] == row;
  }

  /** Python's `range(1, n)` geometry loop: one `get_route("0", str(i))` per user, in waypoint order. */
  method RouteGeometries<G>(client: Client, waypoints: seq<Node>, fetch: RouteRequest -> G) returns (geometries: seq<G>)
    ensures |geometries| == if |waypoints| > 0 then |waypoints| - 1 else 0
    ensures forall t :: 0 <= t < |geometries| ==>
      geometries[t] == fetch(RouteRequest(client.baseUrl, [waypoints[0].at, waypoints[t + 1].at]))
  {
    var coords := seq(|waypoints|, t requires 0 <= t < |waypoints| => waypoints[t].at);
    geometries := [];
    var i := 1;
    while i < |waypoints|
      invariant 1 <= i && (i <= |waypoints| || i == 1)
      invariant |geometries| == i - 1
      invariant forall t :: 0 <= t < i - 1 ==>
        geometries[t] == fetch(RouteRequest(client.baseUrl, [waypoints[0].at, waypoints[t + 1].at]))
    {
      RouteFromDoctor(client, coords, i);
      assert [coords[0], coords[i]] == [waypoints[0].at, waypoints[i].at];
      var route := client.RouteFor("0", NatToString(i), coords);
      ghost var before := geometries;
      geometries := geometries + [fetch(route.value)];
      assert forall t :: 0 <= t < i - 1 ==> geometries[t] == before[t];
      i := i + 1;
    }
  }

  /** `get_route("0", str(i), coordinates)` asks for the route from the first coordinate to the i-th. */
  lemma RouteFromDoctor(client: Client, coords: seq<Coord>, i: nat)
    requires i < |coords|
    ensures client.RouteFor("0", NatToString(i), coords) == Success(RouteRequest(client.baseUrl, [coords[0], coords[i]]))
  {
    ParseNatToString(0);
    ParseNatToString(i);
    assert NatToString(0) == "0";
  }

  /** What `run_benchmark` hands to `benchmark_algorithms`, and the route geometries it returns. */
  datatype Outcome<G> = Outcome(adjMatrix: Matrix, adjList: AdjList, routeGeoJSON: seq<G>)

  /**
   * `run_benchmark`. `doctor` and `users` are the database lookups (`None`
   * for an id not found), `sparseGraph` stands for `build_sparse_graph` and
   * `fetch` for the geometry of an OSRM route response.
   */
  method RunBenchmark<G>(doctor: Maybe<Coord>, users: seq<Maybe<Coord>>, baseUrl: string,
                         sparseGraph: (seq<Node>, nat) -> AdjList, fetch: RouteRequest -> G)
    returns (r: Result<Outcome<G>, HttpError>)
    requires forall w, k :: |sparseGraph(w, k)| == |w| && Closed(sparseGraph(w, k))
    ensures doctor.None? ==> r == Failure(HttpError(404, "Doctor not found"))
    ensures doctor.Some? && (exists p :: 0 <= p < |users| && users[p].None?) ==>
      r == Failure(HttpError(404, "One or more users not found"))
    ensures doctor.Some? && (forall p :: 0 <= p < |users| ==> users[p].Some?) ==>
      && r.Success?
      && r.value.adjList == sparseGraph(
           [Node("0", doctor.value)] +
           seq(|users|, p requires 0 <= p < |users| => Node(NatToString(p + 1), users[p].value)), K)
      && |r.value.adjList| == |users| + 1
      && |r.value.adjMatrix| == |users| + 1
      && (forall i, j :: 0 <= i <= |users| && 0 <= j <= |users| ==>
            |r.value.adjMatrix[i]| == |users| + 1 && r.value.adjMatrix[i][j] == MatrixCell(r.value.adjList, i, j))
      && |r.value.routeGeoJSON| == |users|
      && (forall t :: 0 <= t < |users| ==>
            r.value.routeGeoJSON[t] == fetch(RouteRequest(RStrip(baseUrl, '/'), [doctor.value, users[t].value])))
  {
    if doctor.None? {
      return Failure(HttpError(404, "Doctor not found"));
    }
    if exists p :: 0 <= p < |users| && users[p].None? {
      return Failure(HttpError(404, "One or more users not found"));
    }
    var waypoints := BuildWaypoints(doctor.value, users);
    WaypointsOfUsers(doctor.value, users, waypoints);
    var client := new Client(baseUrl);
    var adjList := sparseGraph(waypoints, K);
    var m := BuildAdjMatrix(adjList);
    var adjMatrix := FloydWarshall.Contents(m);
    var geometries := RouteGeometries(client, waypoints, fetch);
    r := Success(Outcome(adjMatrix, adjList, geometries));
  }
}
