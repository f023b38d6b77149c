// The road graph of the route finder: every road polyline is cut into
// consecutive point pairs, each end is snapped to the first known point
// within the threshold, and a pair that snaps to two different points
// becomes an edge stored in both adjacency lists with the same weight.
// Geodesic distance is a parameter `dist` returning whole metres.

module RoadGraph {
  import opened Wrappers

  /** One entry (neighbor, weight) of an adjacency list. */
  datatype Edge = Edge(to: nat, weight: nat)

  /** The adjacency lists, keyed by point index. */
  type Graph = map<nat, seq<Edge>>

  /** graph[u] on the defaultdict(list): the empty list for a missing key. */
  function Adj(g: Graph, u: nat): seq<Edge> {
    if u in g then g[u] else []
  }

  /** The snapping radius build_graph uses, in metres. */
  const SnapThreshold: nat := 50

  // ---------------------------------------------------------------------
  // find_closest_point_index
  // ---------------------------------------------------------------------

  /** The first index whose point lies within the threshold. */
  function FirstWithin<P>(point: P, points: seq<P>, dist: (P, P) -> nat, threshold: nat): (r: Option<nat>)
    ensures r.Some? ==> r.value < |points| && dist(point, points[r.value]) <= threshold
                        && forall j :: 0 <= j < r.value ==> dist(point, points[j]) > threshold
    ensures r.None? ==> forall j :: 0 <= j < |points| ==> dist(point, points[j]) > threshold
  {
    if points == [] then None
    else if dist(point, points[0]) <= threshold then Some(0)
    else match FirstWithin(point, points[1..], dist, threshold)
      case None => None
      case Some(j) => Some(j + 1)
  }

  /** find_closest_point_index: scans the points in order and returns the
      first within the threshold, which need not be the nearest one. */
  method FindClosestPointIndex<P>(point: P, points: seq<P>, dist: (P, P) -> nat, threshold: nat)
    returns (r: Option<nat>)
    ensures r.Some? ==> r.value < |points| && dist(point, points[r.value]) <= threshold
                        && forall j :: 0 <= j < r.value ==> dist(point, points[j]) > threshold
    ensures r.None? ==> forall j :: 0 <= j < |points| ==> dist(point, points[j]) > threshold
    ensures r == FirstWithin(point, points, dist, threshold)
  {
    for i := 0 to |points|
      invariant forall j :: 0 <= j < i ==> dist(point, points[j]) > threshold
    {
      if dist(point, points[i]) <= threshold {
        FirstWithinIs(point, points, dist, threshold, i);
        return Some(i);
      }
    }
    FirstWithinIs(point, points, dist, threshold, |points|);
    return None;
  }

  /** FirstWithin is determined by its contract. */
  lemma FirstWithinIs<P>(point: P, points: seq<P>, dist: (P, P) -> nat, threshold: nat, i: nat)
    requires i <= |points|
    requires forall j :: 0 <= j < i ==> dist(point, points[j]) > threshold
    requires i < |points| ==> dist(point, points[i]) <= threshold
    ensures FirstWithin(point, points, dist, threshold) == if i < |points| then Some(i) else None
  {
  }

  // ---------------------------------------------------------------------
  // build_graph
  // ---------------------------------------------------------------------

  /** The pairs (line[i], line[i+1]) of one road. */
  function LineSegments<P>(line: seq<P>): (r: seq<(P, P)>)
    ensures |r| == if |line| == 0 then 0 else |line| - 1
    ensures forall i :: 0 <= i < |r| ==> r[i] == (line[i], line[i + 1])
  {
    if |line| <= 1 then [] else seq(|line| - 1, i requires 0 <= i < |line| - 1 => (line[i], line[i + 1]))
  }

  /** All road segments, road by road, in order. */
  function Segments<P>(roads: seq<seq<P>>): seq<(P, P)> {
    if roads == [] then [] else Segments(roads[..|roads| - 1]) + LineSegments(roads[|roads| - 1])
  }

  /** The edge a segment contributes, if both ends snap to different points. */
  function SnapSegment<P>(seg: (P, P), points: seq<P>, dist: (P, P) -> nat): (r: Option<(nat, nat)>)
    ensures r.Some? ==> r.value.0 < |points| && r.value.1 < |points| && r.value.0 != r.value.1
  {
    var i1 := FirstWithin(seg.0, points, dist, SnapThreshold);
    var i2 := FirstWithin(seg.1, points, dist, SnapThreshold);
    if i1.Some? && i2.Some? && i1.value != i2.value then Some((i1.value, i2.value)) else None
  }

  /** graph[i1].append((i2, w)); graph[i2].append((i1, w)): both ends get a
      key, and the list of each end gains the entry for the other end, after
      the entries it already had; every other list is unchanged. */
  function AddEdge(g: Graph, i1: nat, i2: nat, w: nat): (r: Graph)
    ensures r.Keys == g.Keys + {i1, i2}
    ensures forall u :: Adj(r, u) == Adj(g, u) + (if u == i1 then [Edge(i2, w)] else [])
                                                + (if u == i2 then [Edge(i1, w)] else [])
  {
    var g1 := g[i1 := Adj(g, i1) + [Edge(i2, w)]];
    g1[i2 := Adj(g1, i2) + [Edge(i1, w)]]
  }

  function AddSegment<P>(g: Graph, seg: (P, P), points: seq<P>, dist: (P, P) -> nat): Graph {
    match SnapSegment(seg, points, dist)
    case None => g
    case Some((i1, i2)) => AddEdge(g, i1, i2, dist(points[i1], points[i2]))
  }

  /** The graph after the given segments, in order, starting from empty;
      its keys are indices of points. */
  function GraphOf<P>(segs: seq<(P, P)>, points: seq<P>, dist: (P, P) -> nat): (r: Graph)
    ensures forall u :: u in r ==> u < |points|
  {
    if segs == [] then map[]
    else AddSegment(GraphOf(segs[..|segs| - 1], points, dist), segs[|segs| - 1], points, dist)
  }

  /** The number of segments that become edges, at most one per segment. */
  function AcceptedCount<P>(segs: seq<(P, P)>, points: seq<P>, dist: (P, P) -> nat): (c: nat)
    ensures c <= |segs|
  {
    if segs == [] then 0
    else AcceptedCount(segs[..|segs| - 1], points, dist)
         + (if SnapSegment(segs[|segs| - 1], points, dist).Some? then 1 else 0)
  }

  /** One more segment, processed after the others. */
  lemma SegmentStep<P>(segs: seq<(P, P)>, seg: (P, P), points: seq<P>, dist: (P, P) -> nat)
    ensures GraphOf(segs + [seg], points, dist) == AddSegment(GraphOf(segs, points, dist), seg, points, dist)
    ensures AcceptedCount(segs + [seg], points, dist)
            == AcceptedCount(segs, points, dist) + (if SnapSegment(seg, points, dist).Some? then 1 else 0)
  {
    assert (segs + [seg])[..|segs|] == segs;
  }

  /** The two appends build_graph performs for an accepted segment. */
  lemma AddSegmentIs<P>(g: Graph, p1: P, p2: P, points: seq<P>, dist: (P, P) -> nat,
                        idx1: Option<nat>, idx2: Option<nat>)
    requires idx1 == FirstWithin(p1, points, dist, SnapThreshold)
    requires idx2 == FirstWithin(p2, points, dist, SnapThreshold)
    ensures idx1.Some? && idx2.Some? && idx1.value != idx2.value ==>
              AddSegment(g, (p1, p2), points, dist)
              == AddEdge(g, idx1.value, idx2.value, dist(points[idx1.value], points[idx2.value]))
    ensures !(idx1.Some? && idx2.Some? && idx1.value != idx2.value) ==>
              AddSegment(g, (p1, p2), points, dist) == g
    ensures SnapSegment((p1, p2), points, dist).Some? <==> idx1.Some? && idx2.Some? && idx1.value != idx2.value
  {
  }

  /** The segments of the first r + 1 roads. */
  lemma SegmentsStep<P>(roads: seq<seq<P>>, r: nat)
    requires r < |roads|
    ensures Segments(roads[..r + 1]) == Segments(roads[..r]) + LineSegments(roads[r])
  {
    assert roads[..r + 1][..r] == roads[..r];
  }

  /** Segment i of a road, processed after all earlier ones. */
  lemma LineStep<P>(done: seq<(P, P)>, line: seq<P>, i: nat, points: seq<P>, dist: (P, P) -> nat)
    requires i + 1 < |line|
    ensures var segs := LineSegments(line);
      GraphOf(done + segs[..i + 1], points, dist)
        == AddSegment(GraphOf(done + segs[..i], points, dist), (line[i], line[i + 1]), points, dist)
      && AcceptedCount(done + segs[..i + 1], points, dist)
        == AcceptedCount(done + segs[..i], points, dist)
           + (if SnapSegment((line[i], line[i + 1]), points, dist).Some? then 1 else 0)
  {
    var segs := LineSegments(line);
    assert done + segs[..i + 1] == (done + segs[..i]) + [(line[i], line[i + 1])];
    SegmentStep(done + segs[..i], (line[i], line[i + 1]), points, dist);
  }

  /** The body of the inner loop of build_graph: snap both ends of one
      segment and, when they snap to two different points, link them. */
  method ConnectSegment<P>(graph: Graph, edgeCount: nat, p1: P, p2: P, points: seq<P>, dist: (P, P) -> nat)
    returns (graph': Graph, edgeCount': nat)
    ensures graph' == AddSegment(graph, (p1, p2), points, dist)
    ensures edgeCount' == edgeCount + (if SnapSegment((p1, p2), points, dist).Some? then 1 else 0)
  {
    var idx1 := FindClosestPointIndex(p1, points, dist, SnapThreshold);
    var idx2 := FindClosestPointIndex(p2, points, dist, SnapThreshold);
    AddSegmentIs(graph, p1, p2, points, dist, idx1, idx2);
    graph', edgeCount' := graph, edgeCount;
    if idx1.Some? && idx2.Some? && idx1.value != idx2.value {
      var d := dist(points[idx1.value], points[idx2.value]);
      graph' := AddEdge(graph, idx1.value, idx2.value, d);
      edgeCount' := edgeCount + 1;
    }
  }

  /** The inner loop of build_graph over the segments of one road. */
  method AddRoad<P>(graph: Graph, edgeCount: nat, line: seq<P>, points: seq<P>, dist: (P, P) -> nat,
                    ghost done: seq<(P, P)>)
    returns (graph': Graph, edgeCount': nat)
    requires graph == GraphOf(done, points, dist) && edgeCount == AcceptedCount(done, points, dist)
    ensures graph' == GraphOf(done + LineSegments(line), points, dist)
    ensures edgeCount' == AcceptedCount(done + LineSegments(line), points, dist)
  {
    graph', edgeCount' := graph, edgeCount;
    var count := if |line| == 0 then 0 else |line| - 1;
    assert done + LineSegments(line)[..0] == done;
    for i := 0 to count
      invariant graph' == GraphOf(done + LineSegments(line)[..i], points, dist)
      invariant edgeCount' == AcceptedCount(done + LineSegments(line)[..i], points, dist)
    {
      LineStep(done, line, i, points, dist);
      graph', edgeCount' := ConnectSegment(graph', edgeCount', line[i], line[i + 1], points, dist);
    }
    assert LineSegments(line)[..count] == LineSegments(line);
  }

  /** build_graph (its printing left out): the adjacency lists and the edge
      count after all segments of all roads. */
  method BuildGraph<P>(points: seq<P>, roads: seq<seq<P>>, dist: (P, P) -> nat)
    returns (graph: Graph, edgeCount: nat)
    ensures graph == GraphOf(Segments(roads), points, dist)
    ensures edgeCount == AcceptedCount(Segments(roads), points, dist)
  {
    graph, edgeCount := map[], 0;
    for r := 0 to |roads|
      invariant graph == GraphOf(Segments(roads[..r]), points, dist)
      invariant edgeCount == AcceptedCount(Segments(roads[..r]), points, dist)
    {
      graph, edgeCount := AddRoad(graph, edgeCount, roads[r], points, dist, Segments(roads[..r]));
      SegmentsStep(roads, r);
    }
    assert roads[..|roads|] == roads;
  }

  // ---------------------------------------------------------------------
  // What the built graph satisfies
  // ---------------------------------------------------------------------

  /** No edge leads from a point to itself. */
  ghost predicate NoSelfLoops(g: Graph) {
    forall u, e :: u in g && e in g[u] ==> e.to != u
  }

  /** Every edge is listed at both ends with the same weight, as often at
      one end as at the other. */
  ghost predicate Symmetric(g: Graph) {
    forall u: nat, v: nat, w: nat :: multiset(Adj(g, u))[Edge(v, w)] == multiset(Adj(g, v))[Edge(u, w)]
  }

  /** Every key and neighbor is a point index, and every weight is the
      distance between the two points, measured from the end that came
      first in the road. */
  ghost predicate OverPoints<P>(g: Graph, points: seq<P>, dist: (P, P) -> nat) {
    forall u, e :: u in g && e in g[u] ==>
      u < |points| && e.to < |points| && WeightBetween(e.weight, points[u], points[e.to], dist)
  }

  ghost predicate WeightBetween<P>(w: nat, a: P, b: P, dist: (P, P) -> nat) {
    w == dist(a, b) || w == dist(b, a)
  }

  lemma AddEdgeKeepsEnds<P>(g: Graph, i1: nat, i2: nat, points: seq<P>, dist: (P, P) -> nat)
    requires i1 != i2 && i1 < |points| && i2 < |points|
    requires NoSelfLoops(g) && OverPoints(g, points, dist)
    ensures var g' := AddEdge(g, i1, i2, dist(points[i1], points[i2]));
      NoSelfLoops(g') && OverPoints(g', points, dist)
  {
    var w := dist(points[i1], points[i2]);
    var g' := AddEdge(g, i1, i2, w);
    forall u: nat, e: Edge | u in g' && e in g'[u]
      ensures e.to != u && u < |points| && e.to < |points| && WeightBetween(e.weight, points[u], points[e.to], dist)
    {
      assert e in Adj(g', u);
      if e in Adj(g, u) {
        assert u in g;
      } else {
        assert (u == i1 && e == Edge(i2, w)) || (u == i2 && e == Edge(i1, w));
      }
    }
  }

  /** How often an entry occurs in a list after one accepted segment. */
  lemma CountAfterAddEdge(g: Graph, i1: nat, i2: nat, w: nat, u: nat, e: Edge)
    requires i1 != i2
    ensures multiset(Adj(AddEdge(g, i1, i2, w), u))[e]
            == multiset(Adj(g, u))[e] + (if u == i1 && e == Edge(i2, w) then 1 else 0)
                                      + (if u == i2 && e == Edge(i1, w) then 1 else 0)
  {
    var extra := if u == i1 then [Edge(i2, w)] else if u == i2 then [Edge(i1, w)] else [];
    assert multiset(Adj(g, u) + extra) == multiset(Adj(g, u)) + multiset(extra);
  }

  lemma AddEdgeKeepsSymmetric(g: Graph, i1: nat, i2: nat, w: nat)
    requires i1 != i2 && Symmetric(g)
    ensures Symmetric(AddEdge(g, i1, i2, w))
  {
    var g' := AddEdge(g, i1, i2, w);
    forall u: nat, v: nat, x: nat
      ensures multiset(Adj(g', u))[Edge(v, x)] == multiset(Adj(g', v))[Edge(u, x)]
    {
      CountAfterAddEdge(g, i1, i2, w, u, Edge(v, x));
      CountAfterAddEdge(g, i1, i2, w, v, Edge(u, x));
    }
  }

  /** The three properties hold of the graph after any prefix of segments,
      and every accepted segment adds one edge to the count. */
  lemma {:induction false} GraphOfWellFormed<P>(segs: seq<(P, P)>, points: seq<P>, dist: (P, P) -> nat)
    ensures var g := GraphOf(segs, points, dist);
      NoSelfLoops(g) && Symmetric(g) && OverPoints(g, points, dist)
  {
    if segs != [] {
      var prev := segs[..|segs| - 1];
      GraphOfWellFormed(prev, points, dist);
      var g := GraphOf(prev, points, dist);
      match SnapSegment(segs[|segs| - 1], points, dist)
      case None =>
      case Some((i1, i2)) =>
        AddEdgeKeepsEnds(g, i1, i2, points, dist);
        AddEdgeKeepsSymmetric(g, i1, i2, dist(points[i1], points[i2]));
    }
  }

  /** The graph build_graph returns has no self-loops, is symmetric with
      equal weights at both ends, and only mentions point indices. */
  lemma BuiltGraphWellFormed<P>(points: seq<P>, roads: seq<seq<P>>, dist: (P, P) -> nat)
    ensures var g := GraphOf(Segments(roads), points, dist);
      NoSelfLoops(g) && Symmetric(g) && OverPoints(g, points, dist)
  {
    GraphOfWellFormed(Segments(roads), points, dist);
  }

  /** The total length of the adjacency lists of points 0 .. n-1. */
  function DegreeSum(g: Graph, n: nat): nat {
    if n == 0 then 0 else DegreeSum(g, n - 1) + |Adj(g, n - 1)|
  }

  lemma {:induction false} DegreeSumEmpty(n: nat)
    ensures DegreeSum(map[], n) == 0
  {
    if n > 0 {
      DegreeSumEmpty(n - 1);
    }
  }

  lemma {:induction false} DegreeSumAddEdge(g: Graph, i1: nat, i2: nat, w: nat, n: nat)
    requires i1 != i2
    ensures DegreeSum(AddEdge(g, i1, i2, w), n)
            == DegreeSum(g, n) + (if i1 < n then 1 else 0) + (if i2 < n then 1 else 0)
  {
    if n > 0 {
      DegreeSumAddEdge(g, i1, i2, w, n - 1);
    }
  }

  /** Each accepted segment puts one entry in each of two adjacency lists,
      so the lists hold twice as many entries as the edge count. */
  lemma {:induction false} DegreeSumIsTwiceAccepted<P>(segs: seq<(P, P)>, points: seq<P>, dist: (P, P) -> nat)
    ensures DegreeSum(GraphOf(segs, points, dist), |points|) == 2 * AcceptedCount(segs, points, dist)
  {
    if segs == [] {
      DegreeSumEmpty(|points|);
    } else {
      var prev := segs[..|segs| - 1];
      DegreeSumIsTwiceAccepted(prev, points, dist);
      var g := GraphOf(prev, points, dist);
      var snap := SnapSegment(segs[|segs| - 1], points, dist);
      if snap.None? {
        assert GraphOf(segs, points, dist) == g;
        assert AcceptedCount(segs, points, dist) == AcceptedCount(prev, points, dist);
      } else {
        var (i1, i2) := snap.value;
        assert GraphOf(segs, points, dist) == AddEdge(g, i1, i2, dist(points[i1], points[i2]));
        DegreeSumAddEdge(g, i1, i2, dist(points[i1], points[i2]), |points|);
        assert AcceptedCount(segs, points, dist) == AcceptedCount(prev, points, dist) + 1;
      }
    }
  }

  /** What build_graph reports: its edge count is half the number of
      adjacency entries over all points. */
  lemma BuiltDegreeSum<P>(points: seq<P>, roads: seq<seq<P>>, dist: (P, P) -> nat)
    ensures DegreeSum(GraphOf(Segments(roads), points, dist), |points|)
            == 2 * AcceptedCount(Segments(roads), points, dist)
  {
    DegreeSumIsTwiceAccepted(Segments(roads), points, dist);
  }
}
