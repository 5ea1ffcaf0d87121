/**
 Exact plane geometry on (latitude, longitude) pairs, treated as flat
 coordinates: the closed-segment intersection test that stands in for the
 "intersects" predicate of the OGC Simple Features model (ISO 19125-1,
 section 6.1.15.3), and a proof that the orientation test agrees with the
 geometric meaning "the two segments share a point".
 */
module Geometry {

  datatype Point = Point(lat: real, lon: real)

  /** Cross product of the vectors a - o and b - o. */
  function Cross(o: Point, a: Point, b: Point): real {
    (a.lat - o.lat) * (b.lon - o.lon) - (a.lon - o.lon) * (b.lat - o.lat)
  }

  function Sign(x: real): int {
    if x > 0.0 then 1 else if x < 0.0 then -1 else 0
  }

  /** Which side of the line through o and a the point b lies on: 1, -1, or 0 when collinear. */
  function Orientation(o: Point, a: Point, b: Point): int {
    Sign(Cross(o, a, b))
  }

  /** x lies in the closed interval spanned by a and b, in either order. */
  predicate Between(a: real, b: real, x: real) {
    (a <= x <= b) || (b <= x <= a)
  }

  /** r lies in the bounding box of p and q. */
  predicate InBox(p: Point, q: Point, r: Point) {
    Between(p.lat, q.lat, r.lat) && Between(p.lon, q.lon, r.lon)
  }

  /** r lies on the closed segment from p to q: collinear and inside its box. */
  predicate OnSegment(p: Point, q: Point, r: Point) {
    Cross(p, q, r) == 0.0 && InBox(p, q, r)
  }

  /**
   The orientation test for closed segments [p1, p2] and [q1, q2]: proper
   crossings, touching endpoints, collinear overlap and degenerate
   (single-point) segments all count as intersecting.
   */
  predicate SegmentsIntersect(p1: Point, p2: Point, q1: Point, q2: Point) {
    || (Orientation(p1, p2, q1) != Orientation(p1, p2, q2)
        && Orientation(q1, q2, p1) != Orientation(q1, q2, p2))
    || OnSegment(p1, p2, q1)
    || OnSegment(p1, p2, q2)
    || OnSegment(q1, q2, p1)
    || OnSegment(q1, q2, p2)
  }

  /** The point a fraction t of the way from a to b. */
  function Lerp(a: Point, b: Point, t: real): Point {
    Point(a.lat + t * (b.lat - a.lat), a.lon + t * (b.lon - a.lon))
  }

  /** Reference meaning of "x lies on the closed segment [a, b]". */
  ghost predicate OnClosedSegment(a: Point, b: Point, x: Point) {
    exists t :: 0.0 <= t <= 1.0 && Lerp(a, b, t) == x
  }

  /** Reference meaning of "the closed segments share a point". */
  ghost predicate SegmentsMeet(p1: Point, p2: Point, q1: Point, q2: Point) {
    exists x :: OnClosedSegment(p1, p2, x) && OnClosedSegment(q1, q2, x)
  }

  // ---------------------------------------------------------------------
  // Arithmetic helpers

  lemma Cancel(k: real, a: real, b: real)
    requires k != 0.0 && k * a == k * b
    ensures a == b
  {
    assert k * (a - b) == 0.0;
  }

  /** A fraction of a sign change lies in [0, 1]. */
  lemma SignChangeFraction(a: real, b: real)
    requires Sign(a) != Sign(b)
    ensures a - b != 0.0
    ensures 0.0 <= a / (a - b) <= 1.0
  {
    var f := a / (a - b);
    assert f * (a - b) == a;
    if a - b > 0.0 {
      assert 0.0 <= a && a <= a - b;
    } else {
      assert a <= 0.0 && a - b <= a;
    }
  }

  /** The point x + a * d lies between x and x + d only when 0 <= a <= 1. */
  lemma BetweenFraction(x: real, d: real, a: real)
    requires d != 0.0 && Between(x, x + d, x + a * d)
    ensures 0.0 <= a <= 1.0
  {
    if d > 0.0 {
      assert 0.0 <= a * d <= d;
      assert a < 0.0 ==> a * d < 0.0;
      assert a > 1.0 ==> a * d > d;
    } else {
      assert d <= a * d <= 0.0;
      assert a < 0.0 ==> a * d > 0.0;
      assert a > 1.0 ==> a * d < d;
    }
  }

  lemma FractionBetween(x: real, d: real, a: real)
    requires 0.0 <= a <= 1.0
    ensures Between(x, x + d, x + a * d)
  {
    if d >= 0.0 {
      assert 0.0 <= a * d <= d;
    } else {
      assert d <= a * d <= 0.0;
    }
  }

  // ---------------------------------------------------------------------
  // Points on a segment

  lemma LerpEnds(a: Point, b: Point)
    ensures Lerp(a, b, 0.0) == a && Lerp(a, b, 1.0) == b
  {
  }

  /** Interpolating between two points of the line through a and b stays on that line. */
  lemma LerpOfLerps(a: Point, b: Point, s: real, t: real, u: real)
    ensures Lerp(Lerp(a, b, s), Lerp(a, b, t), u) == Lerp(a, b, s + u * (t - s))
  {
    var p := Lerp(a, b, s);
    var q := Lerp(a, b, t);
    assert p.lat + u * (q.lat - p.lat) == a.lat + (s + u * (t - s)) * (b.lat - a.lat);
    assert p.lon + u * (q.lon - p.lon) == a.lon + (s + u * (t - s)) * (b.lon - a.lon);
  }

  /** On a non-degenerate segment the parameter of a point is unique. */
  lemma LerpInjective(a: Point, b: Point, s: real, t: real)
    requires a != b && Lerp(a, b, s) == Lerp(a, b, t)
    ensures s == t
  {
    if a.lat != b.lat {
      assert (s - t) * (b.lat - a.lat) == 0.0;
    } else {
      assert (s - t) * (b.lon - a.lon) == 0.0;
    }
  }

  /** The parameter along [p, q] of a point r collinear with p and q. */
  function CollinearParam(p: Point, q: Point, r: Point): real
    requires p != q
  {
    if q.lat != p.lat then (r.lat - p.lat) / (q.lat - p.lat)
    else (r.lon - p.lon) / (q.lon - p.lon)
  }

  lemma {:induction false} CollinearIsLerp(p: Point, q: Point, r: Point)
    requires p != q && Cross(p, q, r) == 0.0
    ensures Lerp(p, q, CollinearParam(p, q, r)) == r
  {
    var a := CollinearParam(p, q, r);
    if q.lat != p.lat {
      var d := q.lat - p.lat;
      assert a * d == r.lat - p.lat;
      assert d * (r.lon - p.lon) == (q.lon - p.lon) * (r.lat - p.lat);
      assert d * (r.lon - p.lon) == d * (a * (q.lon - p.lon));
      Cancel(d, r.lon - p.lon, a * (q.lon - p.lon));
    } else {
      var d := q.lon - p.lon;
      assert a * d == r.lon - p.lon;
      assert d * (r.lat - p.lat) == (q.lat - p.lat) * (r.lon - p.lon);
      assert d * (r.lat - p.lat) == d * (a * (q.lat - p.lat));
      Cancel(d, r.lat - p.lat, a * (q.lat - p.lat));
    }
  }

  lemma {:induction false} LerpOnSegment(a: Point, b: Point, t: real)
    requires 0.0 <= t <= 1.0
    ensures OnSegment(a, b, Lerp(a, b, t))
  {
    var x := Lerp(a, b, t);
    assert Cross(a, b, x) == (b.lat - a.lat) * (t * (b.lon - a.lon)) - (b.lon - a.lon) * (t * (b.lat - a.lat));
    FractionBetween(a.lat, b.lat - a.lat, t);
    FractionBetween(a.lon, b.lon - a.lon, t);
  }

  lemma {:induction false} OnSegmentIsLerp(p: Point, q: Point, r: Point)
    requires OnSegment(p, q, r)
    ensures OnClosedSegment(p, q, r)
  {
    if p == q {
      assert r == p;
      LerpEnds(p, q);
    } else {
      var a := CollinearParam(p, q, r);
      CollinearIsLerp(p, q, r);
      if q.lat != p.lat {
        BetweenFraction(p.lat, q.lat - p.lat, a);
      } else {
        BetweenFraction(p.lon, q.lon - p.lon, a);
      }
    }
  }

  /** The orientation-based membership test is exactly membership in the closed segment. */
  lemma OnSegmentIff(p: Point, q: Point, r: Point)
    ensures OnSegment(p, q, r) <==> OnClosedSegment(p, q, r)
  {
    if OnSegment(p, q, r) {
      OnSegmentIsLerp(p, q, r);
    }
    if OnClosedSegment(p, q, r) {
      var t :| 0.0 <= t <= 1.0 && Lerp(p, q, t) == r;
      LerpOnSegment(p, q, t);
    }
  }

  // ---------------------------------------------------------------------
  // Soundness: the orientation test only reports segments that share a point

  /** Cross product of the two direction vectors; zero exactly when the segments are parallel. */
  function DirCross(p1: Point, p2: Point, q1: Point, q2: Point): real {
    (p2.lat - p1.lat) * (q2.lon - q1.lon) - (p2.lon - p1.lon) * (q2.lat - q1.lat)
  }

  lemma CrossDifferences(p1: Point, p2: Point, q1: Point, q2: Point)
    ensures Cross(q1, q2, p1) - Cross(q1, q2, p2) == DirCross(p1, p2, q1, q2)
    ensures Cross(p1, p2, q1) - Cross(p1, p2, q2) == -DirCross(p1, p2, q1, q2)
  {
  }

  /** The plane identity (d x e) w + (e x w) d + (w x d) e = 0, with d, e the directions and w = p1 - q1. */
  lemma CyclicIdentity(p1: Point, p2: Point, q1: Point, q2: Point)
    ensures DirCross(p1, p2, q1, q2) * (p1.lat - q1.lat) + Cross(q1, q2, p1) * (p2.lat - p1.lat)
            + Cross(p1, p2, q1) * (q2.lat - q1.lat) == 0.0
    ensures DirCross(p1, p2, q1, q2) * (p1.lon - q1.lon) + Cross(q1, q2, p1) * (p2.lon - p1.lon)
            + Cross(p1, p2, q1) * (q2.lon - q1.lon) == 0.0
  {
  }

  /** Solves k (P + t D) = k (Q + s E) for one coordinate of the crossing point. */
  lemma SolveCoordinate(k: real, P: real, Q: real, D: real, E: real, t: real, s: real, c1: real, c3: real)
    requires k != 0.0 && t * k == c3 && s * k == -c1
    requires k * (P - Q) + c3 * D + c1 * E == 0.0
    ensures P + t * D == Q + s * E
  {
    assert k * (P + t * D) == k * P + (t * k) * D;
    assert k * (Q + s * E) == k * Q + (s * k) * E;
    assert k * (P - Q) == k * P - k * Q;
    Cancel(k, P + t * D, Q + s * E);
  }

  lemma {:induction false} ProperCrossingMeets(p1: Point, p2: Point, q1: Point, q2: Point)
    requires Orientation(p1, p2, q1) != Orientation(p1, p2, q2)
    requires Orientation(q1, q2, p1) != Orientation(q1, q2, p2)
    ensures SegmentsMeet(p1, p2, q1, q2)
  {
    var c1, c2 := Cross(p1, p2, q1), Cross(p1, p2, q2);
    var c3, c4 := Cross(q1, q2, p1), Cross(q1, q2, p2);
    var k := DirCross(p1, p2, q1, q2);
    CrossDifferences(p1, p2, q1, q2);
    SignChangeFraction(c3, c4);
    SignChangeFraction(c1, c2);
    var t := c3 / (c3 - c4);
    var s := c1 / (c1 - c2);
    assert t * k == c3;
    assert s * (-k) == c1;
    assert s * k == -c1;
    CyclicIdentity(p1, p2, q1, q2);
    SolveCoordinate(k, p1.lat, q1.lat, p2.lat - p1.lat, q2.lat - q1.lat, t, s, c1, c3);
    SolveCoordinate(k, p1.lon, q1.lon, p2.lon - p1.lon, q2.lon - q1.lon, t, s, c1, c3);
    var x := Lerp(p1, p2, t);
    assert x == Lerp(q1, q2, s);
    assert OnClosedSegment(p1, p2, x);
    assert OnClosedSegment(q1, q2, x);
  }

  lemma {:induction false} IntersectImpliesMeet(p1: Point, p2: Point, q1: Point, q2: Point)
    requires SegmentsIntersect(p1, p2, q1, q2)
    ensures SegmentsMeet(p1, p2, q1, q2)
  {
    LerpEnds(p1, p2);
    LerpEnds(q1, q2);
    if Orientation(p1, p2, q1) != Orientation(p1, p2, q2)
       && Orientation(q1, q2, p1) != Orientation(q1, q2, p2) {
      ProperCrossingMeets(p1, p2, q1, q2);
    } else if OnSegment(p1, p2, q1) {
      OnSegmentIsLerp(p1, p2, q1);
      assert OnClosedSegment(q1, q2, q1);
    } else if OnSegment(p1, p2, q2) {
      OnSegmentIsLerp(p1, p2, q2);
      assert OnClosedSegment(q1, q2, q2);
    } else if OnSegment(q1, q2, p1) {
      OnSegmentIsLerp(q1, q2, p1);
      assert OnClosedSegment(p1, p2, p1);
    } else {
      OnSegmentIsLerp(q1, q2, p2);
      assert OnClosedSegment(p1, p2, p2);
    }
  }

  // ---------------------------------------------------------------------
  // Completeness: segments that share a point pass the orientation test

  /** Cross product of d with t d - s e. */
  lemma CrossOfCombination(dlat: real, dlon: real, elat: real, elon: real, a: real, b: real, t: real, s: real)
    requires a == t * dlat - s * elat && b == t * dlon - s * elon
    ensures dlat * b - dlon * a == -s * (dlat * elon - dlon * elat)
  {
  }

  lemma CrossAtMeetQ1(p1: Point, p2: Point, q1: Point, q2: Point, t: real, s: real)
    requires Lerp(p1, p2, t) == Lerp(q1, q2, s)
    ensures Cross(p1, p2, q1) == -s * DirCross(p1, p2, q1, q2)
  {
    CrossOfCombination(p2.lat - p1.lat, p2.lon - p1.lon, q2.lat - q1.lat, q2.lon - q1.lon,
                       q1.lat - p1.lat, q1.lon - p1.lon, t, s);
  }

  lemma CrossAtMeetQ2(p1: Point, p2: Point, q1: Point, q2: Point, t: real, s: real)
    requires Lerp(p1, p2, t) == Lerp(q1, q2, s)
    ensures Cross(p1, p2, q2) == (1.0 - s) * DirCross(p1, p2, q1, q2)
  {
    assert q2.lat - p1.lat == t * (p2.lat - p1.lat) - (s - 1.0) * (q2.lat - q1.lat);
    assert q2.lon - p1.lon == t * (p2.lon - p1.lon) - (s - 1.0) * (q2.lon - q1.lon);
    CrossOfCombination(p2.lat - p1.lat, p2.lon - p1.lon, q2.lat - q1.lat, q2.lon - q1.lon,
                       q2.lat - p1.lat, q2.lon - p1.lon, t, s - 1.0);
  }

  lemma CrossAtMeetP1(p1: Point, p2: Point, q1: Point, q2: Point, t: real, s: real)
    requires Lerp(p1, p2, t) == Lerp(q1, q2, s)
    ensures Cross(q1, q2, p1) == t * DirCross(p1, p2, q1, q2)
  {
    CrossOfCombination(q2.lat - q1.lat, q2.lon - q1.lon, p2.lat - p1.lat, p2.lon - p1.lon,
                       p1.lat - q1.lat, p1.lon - q1.lon, s, t);
  }

  lemma CrossAtMeetP2(p1: Point, p2: Point, q1: Point, q2: Point, t: real, s: real)
    requires Lerp(p1, p2, t) == Lerp(q1, q2, s)
    ensures Cross(q1, q2, p2) == (t - 1.0) * DirCross(p1, p2, q1, q2)
  {
    assert p2.lat - q1.lat == s * (q2.lat - q1.lat) - (t - 1.0) * (p2.lat - p1.lat);
    assert p2.lon - q1.lon == s * (q2.lon - q1.lon) - (t - 1.0) * (p2.lon - p1.lon);
    CrossOfCombination(q2.lat - q1.lat, q2.lon - q1.lon, p2.lat - p1.lat, p2.lon - p1.lon,
                       p2.lat - q1.lat, p2.lon - q1.lon, s, t - 1.0);
  }

  lemma OppositeSigns(s: real, k: real)
    requires 0.0 <= s <= 1.0 && k != 0.0
    ensures Sign(-s * k) != Sign((1.0 - s) * k)
  {
    if s == 0.0 {
      assert -s * k == 0.0 && (1.0 - s) * k == k;
    } else if k > 0.0 {
      assert -s * k < 0.0 && (1.0 - s) * k >= 0.0;
    } else {
      assert -s * k > 0.0 && (1.0 - s) * k <= 0.0;
    }
  }

  lemma OppositeSignsAt(t: real, k: real)
    requires 0.0 <= t <= 1.0 && k != 0.0
    ensures Sign(t * k) != Sign((t - 1.0) * k)
  {
    if t == 0.0 {
      assert t * k == 0.0 && (t - 1.0) * k == -k;
    } else if k > 0.0 {
      assert t * k > 0.0 && (t - 1.0) * k <= 0.0;
    } else {
      assert t * k < 0.0 && (t - 1.0) * k >= 0.0;
    }
  }

  /** A convex combination of two negative numbers is negative. */
  lemma ConvexBelow(a: real, b: real, s: real)
    requires 0.0 <= s <= 1.0
    ensures a < 0.0 && b < 0.0 ==> a + s * (b - a) < 0.0
  {
    if a < 0.0 && b < 0.0 {
      assert a + s * (b - a) == (1.0 - s) * a + s * b;
      if s < 1.0 {
        assert (1.0 - s) * a < 0.0 && s * b <= 0.0;
      } else {
        assert (1.0 - s) * a == 0.0 && s * b < 0.0;
      }
    }
  }

  /** A convex combination of two numbers above 1 is above 1. */
  lemma ConvexAbove(a: real, b: real, s: real)
    requires 0.0 <= s <= 1.0
    ensures a > 1.0 && b > 1.0 ==> a + s * (b - a) > 1.0
  {
    ConvexBelow(1.0 - a, 1.0 - b, s);
    assert (1.0 - a) + s * ((1.0 - b) - (1.0 - a)) == 1.0 - (a + s * (b - a));
  }

  /** When a and b straddle [0, 1], parameter 0 sits a fraction u of the way from a to b. */
  lemma StraddleFraction(a: real, b: real) returns (u: real)
    requires (a < 0.0 && b > 1.0) || (a > 1.0 && b < 0.0)
    ensures 0.0 <= u <= 1.0 && a + u * (b - a) == 0.0
  {
    u := -a / (b - a);
    assert u * (b - a) == -a;
    if a < 0.0 {
      assert 0.0 <= -a <= b - a;
    } else {
      assert b - a <= -a <= 0.0;
    }
  }

  /** Collinear segments, the first of positive length, sharing a point: some endpoint lies on the other. */
  lemma {:induction false} CollinearMeetIntersects(p1: Point, p2: Point, q1: Point, q2: Point, t: real, s: real)
    requires p1 != p2
    requires Cross(p1, p2, q1) == 0.0 && Cross(p1, p2, q2) == 0.0
    requires 0.0 <= t <= 1.0 && 0.0 <= s <= 1.0
    requires Lerp(p1, p2, t) == Lerp(q1, q2, s)
    ensures SegmentsIntersect(p1, p2, q1, q2)
  {
    var a := CollinearParam(p1, p2, q1);
    var b := CollinearParam(p1, p2, q2);
    CollinearIsLerp(p1, p2, q1);
    CollinearIsLerp(p1, p2, q2);
    LerpOfLerps(p1, p2, a, b, s);
    LerpInjective(p1, p2, t, a + s * (b - a));
    if 0.0 <= a <= 1.0 {
      LerpOnSegment(p1, p2, a);
      assert OnSegment(p1, p2, q1);
    } else if 0.0 <= b <= 1.0 {
      LerpOnSegment(p1, p2, b);
      assert OnSegment(p1, p2, q2);
    } else {
      ConvexBelow(a, b, s);
      ConvexAbove(a, b, s);
      var u := StraddleFraction(a, b);
      LerpOfLerps(p1, p2, a, b, u);
      LerpEnds(p1, p2);
      assert Lerp(q1, q2, u) == p1;
      LerpOnSegment(q1, q2, u);
      assert OnSegment(q1, q2, p1);
    }
  }

  /** Non-parallel segments sharing a point: each separates the other's endpoints. */
  lemma {:induction false} NonParallelMeet(p1: Point, p2: Point, q1: Point, q2: Point, t: real, s: real)
    requires 0.0 <= t <= 1.0 && 0.0 <= s <= 1.0
    requires Lerp(p1, p2, t) == Lerp(q1, q2, s)
    requires DirCross(p1, p2, q1, q2) != 0.0
    ensures Orientation(p1, p2, q1) != Orientation(p1, p2, q2)
    ensures Orientation(q1, q2, p1) != Orientation(q1, q2, p2)
  {
    var k := DirCross(p1, p2, q1, q2);
    CrossAtMeetQ1(p1, p2, q1, q2, t, s);
    CrossAtMeetQ2(p1, p2, q1, q2, t, s);
    CrossAtMeetP1(p1, p2, q1, q2, t, s);
    CrossAtMeetP2(p1, p2, q1, q2, t, s);
    OppositeSigns(s, k);
    OppositeSignsAt(t, k);
    var c2 := Cross(p1, p2, q2);
    assert c2 == (1.0 - s) * k;
    assert Orientation(p1, p2, q2) == Sign(c2);
  }

  lemma {:induction false} MeetAtIntersects(p1: Point, p2: Point, q1: Point, q2: Point, t: real, s: real)
    requires 0.0 <= t <= 1.0 && 0.0 <= s <= 1.0
    requires Lerp(p1, p2, t) == Lerp(q1, q2, s)
    ensures SegmentsIntersect(p1, p2, q1, q2)
  {
    if DirCross(p1, p2, q1, q2) != 0.0 {
      NonParallelMeet(p1, p2, q1, q2, t, s);
    } else if p1 == p2 {
      assert Lerp(p1, p2, t) == p1;
      LerpOnSegment(q1, q2, s);
      assert OnSegment(q1, q2, p1);
    } else {
      CrossAtMeetQ1(p1, p2, q1, q2, t, s);
      CrossAtMeetQ2(p1, p2, q1, q2, t, s);
      CollinearMeetIntersects(p1, p2, q1, q2, t, s);
    }
  }

  lemma {:induction false} MeetImpliesIntersect(p1: Point, p2: Point, q1: Point, q2: Point)
    requires SegmentsMeet(p1, p2, q1, q2)
    ensures SegmentsIntersect(p1, p2, q1, q2)
  {
    var x :| OnClosedSegment(p1, p2, x) && OnClosedSegment(q1, q2, x);
    var t :| 0.0 <= t <= 1.0 && Lerp(p1, p2, t) == x;
    var s :| 0.0 <= s <= 1.0 && Lerp(q1, q2, s) == x;
    MeetAtIntersects(p1, p2, q1, q2, t, s);
  }

  /** The orientation test decides exactly whether two closed segments share a point. */
  lemma SegmentsIntersectIffMeet(p1: Point, p2: Point, q1: Point, q2: Point)
    ensures SegmentsIntersect(p1, p2, q1, q2) <==> SegmentsMeet(p1, p2, q1, q2)
  {
    if SegmentsIntersect(p1, p2, q1, q2) {
      IntersectImpliesMeet(p1, p2, q1, q2);
    }
    if SegmentsMeet(p1, p2, q1, q2) {
      MeetImpliesIntersect(p1, p2, q1, q2);
    }
  }

  /** A segment always intersects itself, so a trajectory lying along a boundary edge crosses it. */
  lemma SegmentIntersectsItself(p: Point, q: Point)
    ensures SegmentsIntersect(p, q, p, q)
  {
    assert OnSegment(p, q, p);
  }

  /** The test is symmetric in its two segments. */
  lemma SegmentsIntersectSymmetric(p1: Point, p2: Point, q1: Point, q2: Point)
    ensures SegmentsIntersect(p1, p2, q1, q2) <==> SegmentsIntersect(q1, q2, p1, p2)
  {
  }
}
