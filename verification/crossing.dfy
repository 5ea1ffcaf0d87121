/**
 The boundary crossing check: a vessel trajectory, read as an open polyline,
 against the maritime boundary, read as a closed ring of segments (the last
 vertex joined back to the first).
 */
module Crossing {
  import opened Geometry

  datatype Segment = Segment(start: Point, end: Point)

  predicate Intersects(a: Segment, b: Segment) {
    SegmentsIntersect(a.start, a.end, b.start, b.end)
  }

  /** The Indian maritime boundary used by the alert generator, as (lat, lon) vertices. */
  const MaritimeBoundary: seq<Point> := [
    Point(23.5, 64.5), Point(15.0, 64.5), Point(5.0, 69.5), Point(4.0, 76.0),
    Point(4.0, 84.0), Point(6.0, 87.5), Point(15.0, 93.0), Point(23.5, 90.0)
  ]

  /** Edge i of an open polyline: point i joined to point i + 1. */
  function PathEdge(pts: seq<Point>, i: int): Segment
    requires 0 <= i < |pts| - 1
  {
    Segment(pts[i], pts[i + 1])
  }

  /** Edge j of a closed ring: vertex j joined to vertex (j + 1) mod n, so the last edge closes the ring. */
  function RingEdge(vs: seq<Point>, j: int): Segment
    requires 0 <= j < |vs|
  {
    Segment(vs[j], vs[(j + 1) % |vs|])
  }

  lemma NextIndex(i: int, n: int)
    requires 0 <= i < n
    ensures (i + 1) % n == if i + 1 == n then 0 else i + 1
  {
  }

  /** The edges of an open polyline: one per pair of consecutive points. */
  function PathSegments(pts: seq<Point>): (r: seq<Segment>)
    ensures |r| == if |pts| < 2 then 0 else |pts| - 1
    ensures forall i :: 0 <= i < |r| ==> r[i] == PathEdge(pts, i)
    decreases |pts|
  {
    if |pts| < 2 then [] else [Segment(pts[0], pts[1])] + PathSegments(pts[1..])
  }

  /**
   The edges of a closed ring: the open polyline through the vertices and
   back to the first one, so vertex i is joined to vertex (i + 1) mod n.
   */
  function RingSegments(vs: seq<Point>): (r: seq<Segment>)
    ensures |r| == |vs|
    ensures forall i :: 0 <= i < |r| ==> r[i] == RingEdge(vs, i)
  {
    if |vs| == 0 then []
    else
      var closed := vs + [vs[0]];
      assert forall i :: 0 <= i < |vs| ==> PathEdge(closed, i) == RingEdge(vs, i) by {
        forall i | 0 <= i < |vs| ensures PathEdge(closed, i) == RingEdge(vs, i) {
          NextIndex(i, |vs|);
        }
      }
      PathSegments(closed)
  }

  /** Whether segment s intersects some segment of ring. */
  function HitsAny(s: Segment, ring: seq<Segment>): (r: bool)
    ensures r <==> exists j :: 0 <= j < |ring| && Intersects(s, ring[j])
  {
    if |ring| == 0 then false
    else
      assert forall j :: 1 <= j < |ring| ==> ring[j] == ring[1..][j - 1];
      Intersects(s, ring[0]) || HitsAny(s, ring[1..])
  }

  /** Whether some segment of path intersects some segment of ring. */
  function AnyHits(path: seq<Segment>, ring: seq<Segment>): (r: bool)
    ensures r <==> exists i, j :: 0 <= i < |path| && 0 <= j < |ring| && Intersects(path[i], ring[j])
  {
    if |path| == 0 then false
    else
      assert forall i :: 1 <= i < |path| ==> path[i] == path[1..][i - 1];
      HitsAny(path[0], ring) || AnyHits(path[1..], ring)
  }

  /** Some edge of the trajectory meets some edge of the closed boundary ring. */
  ghost predicate CrossesSomeEdge(trajectory: seq<Point>, boundary: seq<Point>) {
    exists i, j :: 0 <= i < |trajectory| - 1 && 0 <= j < |boundary|
      && Intersects(PathEdge(trajectory, i), RingEdge(boundary, j))
  }

  /**
   Outcome of the geometric check: a line string cannot be built from a
   single point, which the source reports as a warning instead of a verdict.
   */
  datatype Outcome = Checked(crosses: bool) | GeometryFailure

  function TryBoundaryCrossing(trajectory: seq<Point>, boundary: seq<Point>): (r: Outcome)
    ensures r.GeometryFailure? <==> |trajectory| == 1
    ensures r.Checked? ==> (r.crosses <==> CrossesSomeEdge(trajectory, boundary))
  {
    if |trajectory| == 1 then GeometryFailure
    else
      var path := PathSegments(trajectory);
      var ring := RingSegments(boundary);
      var r := AnyHits(path, ring);
      assert r ==> CrossesSomeEdge(trajectory, boundary);
      assert CrossesSomeEdge(trajectory, boundary) ==> r by {
        if CrossesSomeEdge(trajectory, boundary) {
          var i, j :| 0 <= i < |trajectory| - 1 && 0 <= j < |boundary|
            && Intersects(PathEdge(trajectory, i), RingEdge(boundary, j));
          assert Intersects(path[i], ring[j]);
        }
      }
      Checked(r)
  }

  /** The source's check: a failed geometry construction counts as no crossing. */
  function CheckBoundaryCrossing(trajectory: seq<Point>, boundary: seq<Point>): (r: bool)
    ensures r <==> CrossesSomeEdge(trajectory, boundary)
    ensures |trajectory| < 2 ==> !r
  {
    match TryBoundaryCrossing(trajectory, boundary)
    case Checked(c) => c
    case GeometryFailure => false
  }

  // ---------------------------------------------------------------------
  // Properties

  /** Consecutive ring edges are chained, including the closing edge back to the first vertex. */
  lemma RingIsClosedChain(vs: seq<Point>)
    requires |vs| > 0
    ensures forall i :: 0 <= i < |vs| ==> RingSegments(vs)[i].end == RingSegments(vs)[(i + 1) % |vs|].start
    ensures RingSegments(vs)[|vs| - 1] == Segment(vs[|vs| - 1], vs[0])
  {
    var r := RingSegments(vs);
    forall i | 0 <= i < |vs| ensures r[i].end == r[(i + 1) % |vs|].start {
      NextIndex(i, |vs|);
    }
    NextIndex(|vs| - 1, |vs|);
  }

  /** The maritime boundary has eight edges, the last one closing the ring from [23.5, 90] to [23.5, 64.5]. */
  lemma MaritimeBoundaryEdges()
    ensures |RingSegments(MaritimeBoundary)| == 8
    ensures RingSegments(MaritimeBoundary)[7] == Segment(Point(23.5, 90.0), Point(23.5, 64.5))
  {
    assert RingEdge(MaritimeBoundary, 7) == Segment(Point(23.5, 90.0), Point(23.5, 64.5));
  }

  /** x lies on the closed segment s. */
  ghost predicate OnEdge(s: Segment, x: Point) {
    OnClosedSegment(s.start, s.end, x)
  }

  /** A point on the trajectory polyline. */
  ghost predicate OnPath(trajectory: seq<Point>, x: Point) {
    exists i :: 0 <= i < |trajectory| - 1 && OnEdge(PathEdge(trajectory, i), x)
  }

  /** A point on the closed boundary ring. */
  ghost predicate OnRing(boundary: seq<Point>, x: Point) {
    exists j :: 0 <= j < |boundary| && OnEdge(RingEdge(boundary, j), x)
  }

  /** The check reports a crossing exactly when trajectory and boundary share a point. */
  lemma CrossingIffSharedPoint(trajectory: seq<Point>, boundary: seq<Point>)
    ensures CheckBoundaryCrossing(trajectory, boundary) <==> exists x :: OnPath(trajectory, x) && OnRing(boundary, x)
  {
    if CheckBoundaryCrossing(trajectory, boundary) {
      var i, j :| 0 <= i < |trajectory| - 1 && 0 <= j < |boundary|
        && Intersects(PathEdge(trajectory, i), RingEdge(boundary, j));
      var a, b := PathEdge(trajectory, i), RingEdge(boundary, j);
      SegmentsIntersectIffMeet(a.start, a.end, b.start, b.end);
      var x :| OnClosedSegment(a.start, a.end, x) && OnClosedSegment(b.start, b.end, x);
      assert OnPath(trajectory, x) && OnRing(boundary, x);
    }
    if exists x :: OnPath(trajectory, x) && OnRing(boundary, x) {
      var x :| OnPath(trajectory, x) && OnRing(boundary, x);
      var i :| 0 <= i < |trajectory| - 1 && OnEdge(PathEdge(trajectory, i), x);
      var j :| 0 <= j < |boundary| && OnEdge(RingEdge(boundary, j), x);
      var a, b := PathEdge(trajectory, i), RingEdge(boundary, j);
      SegmentsIntersectIffMeet(a.start, a.end, b.start, b.end);
      assert Intersects(a, b);
      assert CrossesSomeEdge(trajectory, boundary);
    }
  }

  /** A trajectory made of exactly one boundary edge reports a crossing. */
  lemma EdgeTrajectoryCrosses(boundary: seq<Point>, j: nat)
    requires j < |boundary|
    ensures CheckBoundaryCrossing([boundary[j], boundary[(j + 1) % |boundary|]], boundary)
  {
    var trajectory := [boundary[j], boundary[(j + 1) % |boundary|]];
    SegmentIntersectsItself(boundary[j], boundary[(j + 1) % |boundary|]);
    assert Intersects(PathEdge(trajectory, 0), RingEdge(boundary, j));
  }

  /** An empty boundary has no edges, so nothing crosses it. */
  lemma EmptyBoundaryNeverCrossed(trajectory: seq<Point>)
    ensures !CheckBoundaryCrossing(trajectory, [])
  {
  }

  /** A due-east track along latitude 10 between longitudes 60 and 80 crosses the maritime boundary. */
  lemma EastboundTrackCrossesBoundary()
    ensures CheckBoundaryCrossing([Point(10.0, 60.0), Point(10.0, 80.0)], MaritimeBoundary)
  {
    var trajectory := [Point(10.0, 60.0), Point(10.0, 80.0)];
    var edge := RingEdge(MaritimeBoundary, 1);
    assert edge == Segment(Point(15.0, 64.5), Point(5.0, 69.5));
    assert Cross(edge.start, edge.end, trajectory[0]) > 0.0;
    assert Cross(edge.start, edge.end, trajectory[1]) < 0.0;
    assert Cross(trajectory[0], trajectory[1], edge.start) < 0.0;
    assert Cross(trajectory[0], trajectory[1], edge.end) > 0.0;
    assert Intersects(PathEdge(trajectory, 0), edge);
  }
}
