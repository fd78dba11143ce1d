/**
 * The logic of `OSRMClient` around its HTTP calls: the normalised base URL,
 * the k-nearest-neighbour selection from one row of an OSRM distance table,
 * the decimal node ids that travel as strings, and the argument checks of
 * the two route requests. The requests themselves are left to the callers
 * of this module: a method that needs a response takes it as a parameter.
 */
module OsrmClient {
  import opened Wrappers

  /** A waypoint's coordinates; the floating-point values are abstracted to integers. */
  datatype Coord = Coord(latitude: int, longitude: int)

  /** A route request to the OSRM route service: the base URL and the waypoints, in order. */
  datatype RouteRequest = RouteRequest(baseUrl: string, waypoints: seq<Coord>)

  /** The `base_url` default. */
  const DefaultBaseUrl: string := "http://osrm:5000"

  /** Python's `s.rstrip(c)` for a single character c: s without its trailing run of c. */
  function RStrip(s: string, c: char): (r: string)
    ensures |r| <= |s| && r == s[..|r|]
    ensures r == [] || r[|r| - 1] != c
    ensures forall i :: |r| <= i < |s| ==> s[i] == c
    decreases |s|
  {
    if s != [] && s[|s| - 1] == c then RStrip(s[..|s| - 1], c) else s
  }

  /** Stripping twice strips nothing more. */
  lemma RStripIdempotent(s: string, c: char)
    ensures RStrip(RStrip(s, c), c) == RStrip(s, c)
  {
  }

  // ----- decimal ids: Python's str(i) and int(s) on non-negative integers -----

  predicate IsDigit(ch: char)
  {
    '0' <= ch <= '9'
  }

  function DigitChar(d: nat): (ch: char)
    requires d < 10
    ensures IsDigit(ch) && ch as int - '0' as int == d
  {
    "0123456789"[d]
  }

  /** `str(n)`: the decimal digits of n, most significant first, without leading zeros. */
  function NatToString(n: nat): (s: string)
    ensures s != [] && forall i :: 0 <= i < |s| ==> IsDigit(s[i])
    ensures |s| > 1 ==> s[0] != '0'
    decreases n
  {
    if n < 10 then [DigitChar(n)] else NatToString(n / 10) + [DigitChar(n % 10)]
  }

  function DigitValue(ch: char): nat
    requires IsDigit(ch)
  {
    ch as int - '0' as int
  }

  /** The value of a string of decimal digits. */
  function DigitsValue(s: string): nat
    requires forall i :: 0 <= i < |s| ==> IsDigit(s[i])
    decreases |s|
  {
    if s == [] then 0 else DigitsValue(s[..|s| - 1]) * 10 + DigitValue(s[|s| - 1])
  }

  /** `int(s)` on a string of decimal digits; `None` where Python would raise `ValueError`. */
  function ParseNat(s: string): (r: Maybe<nat>)
    ensures r.Some? <==> s != [] && forall i :: 0 <= i < |s| ==> IsDigit(s[i])
  {
    if s != [] && forall i :: 0 <= i < |s| ==> IsDigit(s[i]) then Some(DigitsValue(s)) else None
  }

  /** `int(str(n)) == n`: an id written with `str` reads back as the same index. */
  lemma {:induction false} ParseNatToString(n: nat)
    ensures ParseNat(NatToString(n)) == Some(n)
    decreases n
  {
    var s := NatToString(n);
    if n < 10 {
      assert s[..|s| - 1] == [];
    } else {
      ParseNatToString(n / 10);
      assert s[..|s| - 1] == NatToString(n / 10);
    }
    assert DigitsValue(s) == n;
  }

  // ----- k nearest neighbours -----

  /** An entry of the neighbour list: a column index of the distance row and its distance in metres. */
  datatype Neighbor = Neighbor(index: nat, meters: nat)

  /** Index i of the row is a candidate: not the source itself, and OSRM gave a distance. */
  predicate Eligible(source: nat, row: seq<Maybe<nat>>, i: int)
  {
    0 <= i < |row| && i != source && row[i].Some?
  }

  /** The candidates of `row`, in index order, as the loop over `enumerate(distances)` appends them. */
  function Candidates(source: nat, row: seq<Maybe<nat>>): seq<Neighbor>
    decreases |row|
  {
    if row == [] then []
    else
      var i := |row| - 1;
      Candidates(source, row[..i]) + (if Eligible(source, row, i) then [Neighbor(i, row[i].value)] else [])
  }

  /** Indices strictly increase along s. */
  predicate IncreasingIndex(s: seq<Neighbor>)
  {
    forall i, j :: 0 <= i < j < |s| ==> s[i].index < s[j].index
  }

  /** Distances never decrease along s. */
  predicate SortedByMeters(s: seq<Neighbor>)
  {
    forall i, j :: 0 <= i < j < |s| ==> s[i].meters <= s[j].meters
  }

  /** Sorted by distance, equal distances in index order. */
  predicate SortedStably(s: seq<Neighbor>)
  {
    forall i, j :: 0 <= i < j < |s| ==>
      s[i].meters < s[j].meters || (s[i].meters == s[j].meters && s[i].index < s[j].index)
  }

  /** Every candidate is an eligible index of the row, with the row's distance. */
  lemma {:induction false} CandidatesSound(source: nat, row: seq<Maybe<nat>>)
    ensures forall e :: e in Candidates(source, row) ==> Eligible(source, row, e.index) && row[e.index] == Some(e.meters)
    decreases |row|
  {
    if row != [] {
      var i := |row| - 1;
      var prefix := row[..i];
      CandidatesSound(source, prefix);
      forall e | e in Candidates(source, prefix)
        ensures Eligible(source, row, e.index) && row[e.index] == Some(e.meters)
      {
        assert prefix[e.index] == row[e.index];
      }
    }
  }

  /** The candidates come in strictly increasing index order, so no index occurs twice. */
  lemma {:induction false} CandidatesIncreasing(source: nat, row: seq<Maybe<nat>>)
    ensures IncreasingIndex(Candidates(source, row))
    decreases |row|
  {
    if row != [] {
      var i := |row| - 1;
      var prefix := row[..i];
      CandidatesIncreasing(source, prefix);
      CandidatesSound(source, prefix);
      var c := Candidates(source, prefix);
      assert forall t :: 0 <= t < |c| ==> c[t].index < i by {
        forall t | 0 <= t < |c|
          ensures c[t].index < i
        {
          assert c[t] in c;
        }
      }
    }
  }

  /** Every eligible index is a candidate, with its distance. */
  lemma {:induction false} CandidatesComplete(source: nat, row: seq<Maybe<nat>>)
    ensures forall i :: Eligible(source, row, i) ==> Neighbor(i, row[i].value) in Candidates(source, row)
    decreases |row|
  {
    if row != [] {
      var i := |row| - 1;
      var prefix := row[..i];
      CandidatesComplete(source, prefix);
      forall k | Eligible(source, row, k) && k < i
        ensures Neighbor(k, row[k].value) in Candidates(source, row)
      {
        assert Eligible(source, prefix, k);
      }
    }
  }

  /** The candidate loop: appends every eligible index, in order. */
  method CollectCandidates(source: nat, row: seq<Maybe<nat>>) returns (pointDistances: seq<Neighbor>)
    ensures pointDistances == Candidates(source, row)
  {
    pointDistances := [];
    for i := 0 to |row|
      invariant pointDistances == Candidates(source, row[..i])
    {
      assert row[..i + 1][..i] == row[..i];
      if i != source && row[i].Some? {
        pointDistances := pointDistances + [Neighbor(i, row[i].value)];
      }
    }
    assert row[..|row|] == row;
  }

  /** The entries of `r[..p] + [x] + r[p..]`, position by position. */
  lemma InsertAt(r: seq<Neighbor>, x: Neighbor, p: nat, t: nat)
    requires p <= |r| && t <= |r|
    ensures var r' := r[..p] + [x] + r[p..];
            |r'| == |r| + 1 && r'[t] == if t < p then r[t] else if t == p then x else r[t - 1]
  {
  }

  /** Inserting x after every entry no farther than x, and before the farther ones, keeps a list sorted by distance. */
  lemma InsertSorted(r: seq<Neighbor>, x: Neighbor, p: nat)
    requires p <= |r| && SortedByMeters(r)
    requires forall q :: 0 <= q < p ==> r[q].meters <= x.meters
    requires p < |r| ==> r[p].meters > x.meters
    ensures SortedByMeters(r[..p] + [x] + r[p..])
  {
    var r' := r[..p] + [x] + r[p..];
    forall i, j | 0 <= i < j < |r'|
      ensures r'[i].meters <= r'[j].meters
    {
      InsertAt(r, x, p, i);
      InsertAt(r, x, p, j);
      if i == p && j > p {
        assert r[p].meters <= r[j - 1].meters;
      }
    }
  }

  /** The same insertion keeps equal distances in index order when x has the largest index. */
  lemma InsertStable(r: seq<Neighbor>, x: Neighbor, p: nat)
    requires p <= |r| && SortedStably(r)
    requires forall q :: 0 <= q < p ==> r[q].meters <= x.meters
    requires p < |r| ==> r[p].meters > x.meters
    requires forall e :: e in r ==> e.index < x.index
    ensures SortedStably(r[..p] + [x] + r[p..])
  {
    var r' := r[..p] + [x] + r[p..];
    forall i, j | 0 <= i < j < |r'|
      ensures r'[i].meters < r'[j].meters || (r'[i].meters == r'[j].meters && r'[i].index < r'[j].index)
    {
      InsertAt(r, x, p, i);
      InsertAt(r, x, p, j);
      if i < p && j == p {
        assert r[i] in r;
      } else if i == p && j > p {
        assert r[p].meters <= r[j - 1].meters;
      }
    }
  }

  /** The insertion point of x in a list sorted by distance: after every entry no farther than x. */
  method InsertionPoint(r: seq<Neighbor>, x: Neighbor) returns (p: nat)
    requires SortedByMeters(r)
    ensures p <= |r|
    ensures forall q :: 0 <= q < p ==> r[q].meters <= x.meters
    ensures forall q :: p <= q < |r| ==> r[q].meters > x.meters
  {
    p := 0;
    while p < |r| && r[p].meters <= x.meters
      invariant p <= |r|
      invariant forall q :: 0 <= q < p ==> r[q].meters <= x.meters
    {
      p := p + 1;
    }
  }

  /** Inserting the next element keeps the list a permutation of the elements seen so far. */
  lemma InsertPermutes(s: seq<Neighbor>, i: nat, r: seq<Neighbor>, p: nat)
    requires i < |s| && multiset(r) == multiset(s[..i]) && p <= |r|
    ensures multiset(r[..p] + [s[i]] + r[p..]) == multiset(s[..i + 1])
  {
    assert r == r[..p] + r[p..];
    assert s[..i + 1] == s[..i] + [s[i]];
  }

  /** In an input listed in increasing index order, the elements seen so far all have smaller indices than the next. */
  lemma EarlierIndices(s: seq<Neighbor>, i: nat, r: seq<Neighbor>)
    requires i < |s| && multiset(r) == multiset(s[..i]) && IncreasingIndex(s)
    ensures forall e :: e in r ==> e.index < s[i].index
  {
    forall e | e in r
      ensures e.index < s[i].index
    {
      assert e in multiset(s[..i]);
      var t :| 0 <= t < i && s[..i][t] == e;
      assert s[t] == e;
    }
  }

  /** One insertion step of the sort keeps its three invariants. */
  lemma InsertStep(s: seq<Neighbor>, i: nat, r: seq<Neighbor>, p: nat)
    requires i < |s| && multiset(r) == multiset(s[..i]) && SortedByMeters(r)
    requires IncreasingIndex(s) ==> SortedStably(r)
    requires p <= |r|
    requires forall q :: 0 <= q < p ==> r[q].meters <= s[i].meters
    requires forall q :: p <= q < |r| ==> r[q].meters > s[i].meters
    ensures var r' := r[..p] + [s[i]] + r[p..];
            multiset(r') == multiset(s[..i + 1]) && SortedByMeters(r') && (IncreasingIndex(s) ==> SortedStably(r'))
  {
    if IncreasingIndex(s) {
      EarlierIndices(s, i, r);
      InsertStable(r, s[i], p);
    }
    InsertSorted(r, s[i], p);
    InsertPermutes(s, i, r, p);
  }

  /**
   * `point_distances.sort(key=lambda x: x[1])`: a permutation sorted by
   * distance. Python's sort is stable, so when the input lists indices in
   * increasing order equal distances stay in index order.
   */
  method SortByMeters(s: seq<Neighbor>) returns (r: seq<Neighbor>)
    ensures multiset(r) == multiset(s)
    ensures SortedByMeters(r)
    ensures IncreasingIndex(s) ==> SortedStably(r)
  {
    r := [];
    for i := 0 to |s|
      invariant multiset(r) == multiset(s[..i])
      invariant SortedByMeters(r)
      invariant IncreasingIndex(s) ==> SortedStably(r)
    {
      var p := InsertionPoint(r, s[i]);
      InsertStep(s, i, r, p);
      r := r[..p] + [s[i]] + r[p..];
    }
    assert s[..|s|] == s;
  }

  /** Python's `s[:k]`: a negative k counts from the end. */
  function TakePrefix(s: seq<Neighbor>, k: int): (r: seq<Neighbor>)
    ensures |r| == if k >= 0 then (if k < |s| then k else |s|) else (if |s| + k > 0 then |s| + k else 0)
    ensures r == s[..|r|]
  {
    if k >= |s| then s
    else if k >= 0 then s[..k]
    else if |s| + k > 0 then s[..|s| + k]
    else []
  }

  /**
   * Lines 45-57 of `get_nearest_neighbors`, from the source's row of the
   * distance table (`None` for an unreachable point): the k eligible points
   * closest to the source, nearest first.
   */
  method NearestNeighbors(source: nat, k: int, row: seq<Maybe<nat>>) returns (result: seq<Neighbor>)
    ensures var c := |Candidates(source, row)|;
            |result| == if k >= 0 then (if k < c then k else c) else (if c + k > 0 then c + k else 0)
    ensures forall e :: e in result ==> Eligible(source, row, e.index) && row[e.index] == Some(e.meters)
    ensures SortedStably(result)
    ensures forall i, e :: Eligible(source, row, i) && Neighbor(i, row[i].value) !in result && e in result ==>
              e.meters < row[i].value || (e.meters == row[i].value && e.index < i)
  {
    var pointDistances := CollectCandidates(source, row);
    CandidatesSound(source, row);
    CandidatesIncreasing(source, row);
    CandidatesComplete(source, row);
    var sorted := SortByMeters(pointDistances);
    result := TakePrefix(sorted, k);
    PrefixStable(sorted, |result|);
    SameElements(pointDistances, sorted);
    PrefixIsClosest(sorted, |result|);
    forall i, e | Eligible(source, row, i) && Neighbor(i, row[i].value) !in result && e in result
      ensures e.meters < row[i].value || (e.meters == row[i].value && e.index < i)
    {
      var n := Neighbor(i, row[i].value);
      assert n in pointDistances;
      assert n in sorted;
    }
  }

  /** A permutation has the same length and the same elements. */
  lemma SameElements(a: seq<Neighbor>, b: seq<Neighbor>)
    requires multiset(a) == multiset(b)
    ensures |a| == |b| && forall e :: e in a <==> e in b
  {
    assert |multiset(a)| == |multiset(b)|;
    forall e
      ensures e in a <==> e in b
    {
      assert e in a <==> e in multiset(a);
      assert e in b <==> e in multiset(b);
    }
  }

  /** A prefix of a stably sorted list is stably sorted. */
  lemma PrefixStable(s: seq<Neighbor>, n: nat)
    requires SortedStably(s) && n <= |s|
    ensures SortedStably(s[..n])
  {
  }

  /**
   * A prefix of a stably sorted list holds entries closer than any entry
   * left out, or as close and with a smaller index: a tie at the cut keeps
   * the smaller index.
   */
  lemma PrefixIsClosest(s: seq<Neighbor>, n: nat)
    requires SortedStably(s) && n <= |s|
    ensures forall e :: e in s[..n] ==> e in s
    ensures forall e, f :: e in s[..n] && f in s && f !in s[..n] ==>
              e.meters < f.meters || (e.meters == f.meters && e.index < f.index)
  {
    forall e, f | e in s[..n] && f in s && f !in s[..n]
      ensures e.meters < f.meters || (e.meters == f.meters && e.index < f.index)
    {
      var p :| 0 <= p < n && s[p] == e;
      var q :| 0 <= q < |s| && s[q] == f;
      assert forall t :: 0 <= t < n ==> s[..n][t] == s[t];
      assert n <= q;
    }
  }

  /** The neighbour list as `get_nearest_neighbors` returns it: `(str(i), distance)` pairs. */
  function AsIdPairs(ns: seq<Neighbor>): (pairs: seq<(string, nat)>)
    ensures |pairs| == |ns|
    ensures forall t :: 0 <= t < |ns| ==> ParseNat(pairs[t].0) == Some(ns[t].index) && pairs[t].1 == ns[t].meters
  {
    ParseAllIds(ns);
    seq(|ns|, t requires 0 <= t < |ns| => (NatToString(ns[t].index), ns[t].meters))
  }

  lemma ParseAllIds(ns: seq<Neighbor>)
    ensures forall t :: 0 <= t < |ns| ==> ParseNat(NatToString(ns[t].index)) == Some(ns[t].index)
  {
    forall t | 0 <= t < |ns|
      ensures ParseNat(NatToString(ns[t].index)) == Some(ns[t].index)
    {
      ParseNatToString(ns[t].index);
    }
  }

  /** The client: the only state is its base URL, stored without a trailing slash. */
  class Client {
    var baseUrl: string

    constructor (url: string := DefaultBaseUrl)
      ensures baseUrl == RStrip(url, '/')
      ensures baseUrl == [] || baseUrl[|baseUrl| - 1] != '/'
    {
      baseUrl := RStrip(url, '/');
    }

    /**
     * `get_route(i, j, waypoints)`: picks `waypoints[int(i)]` and then
     * `waypoints[int(j)]`, so a bad first id fails before the second is parsed.
     */
    function RouteFor(i: string, j: string, waypoints: seq<Coord>): (r: Result<RouteRequest, string>)
      reads this
      ensures r.Success? <==>
        ParseNat(i).Some? && ParseNat(j).Some? && ParseNat(i).value < |waypoints| && ParseNat(j).value < |waypoints|
      ensures r.Success? ==>
        r.value == RouteRequest(baseUrl, [waypoints[ParseNat(i).value], waypoints[ParseNat(j).value]])
      ensures ParseNat(i).None? ==> r == Failure("invalid literal for int()")
      ensures ParseNat(i).Some? && ParseNat(i).value >= |waypoints| ==> r == Failure("list index out of range")
    {
      match ParseNat(i)
      case None => Failure("invalid literal for int()")
      case Some(a) =>
        if a >= |waypoints| then Failure("list index out of range")
        else match ParseNat(j)
          case None => Failure("invalid literal for int()")
          case Some(b) =>
            if b < |waypoints| then Success(RouteRequest(baseUrl, [waypoints[a], waypoints[b]]))
            else Failure("list index out of range")
    }

    /** `get_full_route(waypoints)`: fewer than two waypoints are rejected before any request. */
    function FullRouteFor(waypoints: seq<Coord>): (r: Result<RouteRequest, string>)
      reads this
      ensures r.Failure? <==> |waypoints| < 2
      ensures r.Failure? ==> r.error == "At least two waypoints are required for a route."
      ensures r.Success? ==> r.value.waypoints == waypoints && r.value.baseUrl == baseUrl
    {
      if |waypoints| < 2 then Failure("At least two waypoints are required for a route.")
      else Success(RouteRequest(baseUrl, waypoints))
    }
  }
}
