/**
 The per-vessel alert generator: at most one speed alert, then at most one
 piracy alert, then at most one boundary-violation alert, in that order.
 Alert messages are kept abstract: the vessel id plus the facts the message
 text embeds (the speed, the zone's name, the optional speed suffix).
 */
module Alerts {
  import opened Wrappers
  import opened Geometry
  import opened Zones
  import opened Vessels
  import opened Crossing
  import Risk

  datatype Alert =
    | SpeedAlert(vesselId: string, speed: real)
    | PiracyAlert(vesselId: string, zone: Zone)
    | BoundaryAlert(vesselId: string, speedSuffix: Option<real>)

  /** Position of each alert kind in the generator's output. */
  function Rank(a: Alert): nat {
    match a
    case SpeedAlert(_, _) => 0
    case PiracyAlert(_, _) => 1
    case BoundaryAlert(_, _) => 2
  }

  /** The speed suffix of a boundary alert: present exactly when the vessel is speeding. */
  function SpeedSuffix(v: Vessel): Option<real> {
    if Risk.Speeding(v.speed) then Some(v.speed) else None
  }

  /** A zero speed is falsy and skipped before the threshold test, which it would fail anyway. */
  function SpeedAlerts(v: Vessel): (r: seq<Alert>)
    ensures |r| <= 1
    ensures |r| == 1 <==> Risk.Speeding(v.speed)
    ensures forall a :: a in r ==> a == SpeedAlert(v.id, v.speed)
  {
    if v.speed != 0.0 && v.speed > Risk.SpeedLimit then [SpeedAlert(v.id, v.speed)] else []
  }

  /** Zero latitude or zero longitude is falsy, so no zone is even tried. */
  function PiracyAlerts(v: Vessel): (r: seq<Alert>)
    ensures |r| <= 1
    ensures |r| == 1 <==> v.lat != 0.0 && v.lon != 0.0 && InAnyZone(v.lat, v.lon)
    ensures forall a :: a in r ==> a.PiracyAlert? && a.vesselId == v.id && FirstZone(v.lat, v.lon) == Some(a.zone)
  {
    if v.lat != 0.0 && v.lon != 0.0 then
      match FirstZone(v.lat, v.lon)
      case Some(z) => [PiracyAlert(v.id, z)]
      case None => []
    else []
  }

  /** The conditions under which a boundary-violation alert is due. */
  ghost predicate BoundaryViolation(v: Vessel, trajectories: map<string, seq<Point>>, boundary: seq<Point>) {
    && v.isFriendly == 0
    && v.id in trajectories
    && |trajectories[v.id]| > 0
    && CrossesSomeEdge(trajectories[v.id], boundary)
  }

  function BoundaryAlerts(v: Vessel, trajectories: map<string, seq<Point>>, boundary: seq<Point>): (r: seq<Alert>)
    ensures |r| <= 1
    ensures |r| == 1 <==> BoundaryViolation(v, trajectories, boundary)
    ensures forall a :: a in r ==> a == BoundaryAlert(v.id, SpeedSuffix(v))
  {
    if v.isFriendly == 0 && v.id in trajectories then
      var trajectory := trajectories[v.id];
      if |trajectory| > 0 && CheckBoundaryCrossing(trajectory, boundary) then
        [BoundaryAlert(v.id, SpeedSuffix(v))]
      else []
    else []
  }

  function GenerateAlerts(v: Vessel, trajectories: map<string, seq<Point>>, boundary: seq<Point>): (r: seq<Alert>)
    // order and multiplicity
    ensures |r| <= 3
    ensures forall i, j :: 0 <= i < j < |r| ==> Rank(r[i]) < Rank(r[j])
    ensures forall a :: a in r ==> a.vesselId == v.id
    // speed alert
    ensures SpeedAlert(v.id, v.speed) in r <==> Risk.Speeding(v.speed)
    ensures forall a :: a in r && a.SpeedAlert? ==> a.speed == v.speed
    // piracy alert
    ensures (exists a :: a in r && a.PiracyAlert?) <==> v.lat != 0.0 && v.lon != 0.0 && InAnyZone(v.lat, v.lon)
    ensures forall a :: a in r && a.PiracyAlert? ==> FirstZone(v.lat, v.lon) == Some(a.zone)
    // boundary alert
    ensures (exists a :: a in r && a.BoundaryAlert?) <==> BoundaryViolation(v, trajectories, boundary)
    ensures forall a :: a in r && a.BoundaryAlert? ==> (a.speedSuffix.Some? <==> Risk.Speeding(v.speed))
    ensures forall a :: a in r && a.BoundaryAlert? && a.speedSuffix.Some? ==> a.speedSuffix.value == v.speed
    ensures v.isFriendly != 0 ==> forall a :: a in r ==> !a.BoundaryAlert?
  {
    var s, p, b := SpeedAlerts(v), PiracyAlerts(v), BoundaryAlerts(v, trajectories, boundary);
    ConcatOrdered(s, p, b);
    ConcatMembers(s, p, b, v);
    s + p + b
  }

  /** Single-kind parts of at most one alert each, concatenated by rank, stay strictly ordered by rank. */
  lemma ConcatOrdered(s: seq<Alert>, p: seq<Alert>, b: seq<Alert>)
    requires |s| <= 1 && |p| <= 1 && |b| <= 1
    requires forall a :: a in s ==> Rank(a) == 0
    requires forall a :: a in p ==> Rank(a) == 1
    requires forall a :: a in b ==> Rank(a) == 2
    ensures |s + p + b| <= 3
    ensures forall i, j :: 0 <= i < j < |s + p + b| ==> Rank((s + p + b)[i]) < Rank((s + p + b)[j])
  {
    var r := s + p + b;
    forall i, j | 0 <= i < j < |r| ensures Rank(r[i]) < Rank(r[j]) {
      RankAt(s, p, b, i);
      RankAt(s, p, b, j);
    }
  }

  lemma RankAt(s: seq<Alert>, p: seq<Alert>, b: seq<Alert>, k: int)
    requires forall a :: a in s ==> Rank(a) == 0
    requires forall a :: a in p ==> Rank(a) == 1
    requires forall a :: a in b ==> Rank(a) == 2
    requires 0 <= k < |s + p + b|
    ensures Rank((s + p + b)[k]) == if k < |s| then 0 else if k < |s| + |p| then 1 else 2
  {
    var r := s + p + b;
    if k < |s| {
      assert r[k] == s[k];
    } else if k < |s| + |p| {
      assert r[k] == p[k - |s|];
    } else {
      assert r[k] == b[k - |s| - |p|];
    }
  }

  /** What the concatenation contains, part by part. */
  lemma ConcatMembers(s: seq<Alert>, p: seq<Alert>, b: seq<Alert>, v: Vessel)
    requires |s| <= 1 && |p| <= 1 && |b| <= 1
    requires forall a :: a in s ==> a == SpeedAlert(v.id, v.speed)
    requires forall a :: a in p ==> a.PiracyAlert? && a.vesselId == v.id && FirstZone(v.lat, v.lon) == Some(a.zone)
    requires forall a :: a in b ==> a == BoundaryAlert(v.id, SpeedSuffix(v))
    ensures forall a :: a in s + p + b ==> a.vesselId == v.id
    ensures SpeedAlert(v.id, v.speed) in s + p + b <==> |s| == 1
    ensures forall a :: a in s + p + b && a.SpeedAlert? ==> a.speed == v.speed
    ensures (exists a :: a in s + p + b && a.PiracyAlert?) <==> |p| == 1
    ensures forall a :: a in s + p + b && a.PiracyAlert? ==> FirstZone(v.lat, v.lon) == Some(a.zone)
    ensures (exists a :: a in s + p + b && a.BoundaryAlert?) <==> |b| == 1
    ensures forall a :: a in s + p + b && a.BoundaryAlert? ==> a.speedSuffix == SpeedSuffix(v)
  {
    var r := s + p + b;
    assert forall a :: a in r <==> a in s || a in p || a in b;
    assert SpeedAlert(v.id, v.speed) in r ==> SpeedAlert(v.id, v.speed) in s by {
      assert SpeedAlert(v.id, v.speed) !in p && SpeedAlert(v.id, v.speed) !in b;
    }
    if |s| == 1 { assert s[0] in s && s[0] in r; assert s[0] == SpeedAlert(v.id, v.speed); }
    if |p| == 1 { assert p[0] in r; }
    if |b| == 1 { assert b[0] in r; }
  }

  // ---------------------------------------------------------------------
  // Properties

  /** Each alert kind appears at most once. */
  lemma KindsAreDistinct(v: Vessel, trajectories: map<string, seq<Point>>, boundary: seq<Point>, i: nat, j: nat)
    requires i < j < |GenerateAlerts(v, trajectories, boundary)|
    ensures Rank(GenerateAlerts(v, trajectories, boundary)[i]) != Rank(GenerateAlerts(v, trajectories, boundary)[j])
  {
  }

  /** A piracy alert always comes with the zone term of the risk score... */
  lemma PiracyAlertImpliesZoneRisk(v: Vessel, trajectories: map<string, seq<Point>>, boundary: seq<Point>)
    requires exists a :: a in GenerateAlerts(v, trajectories, boundary) && a.PiracyAlert?
    ensures Risk.ZoneTerm(v.lat, v.lon) == Risk.ZoneWeight
  {
  }

  /**
   ... but not conversely: a position in a zone with a zero coordinate, such
   as (0, 67) in the Arabian Sea, scores the zone term yet raises no piracy
   alert.
   */
  lemma ZoneRiskWithoutPiracyAlert(v: Vessel, trajectories: map<string, seq<Point>>, boundary: seq<Point>)
    requires InAnyZone(v.lat, v.lon)
    ensures Risk.ZoneTerm(v.lat, v.lon) == Risk.ZoneWeight
    ensures (forall a :: a in GenerateAlerts(v, trajectories, boundary) ==> !a.PiracyAlert?)
            <==> v.lat == 0.0 || v.lon == 0.0
  {
    var r := GenerateAlerts(v, trajectories, boundary);
    if v.lat != 0.0 && v.lon != 0.0 {
      var a :| a in r && a.PiracyAlert?;
    }
  }

  lemma ZeroLatitudeExample(v: Vessel, trajectories: map<string, seq<Point>>, boundary: seq<Point>)
    requires v.lat == 0.0 && v.lon == 67.0
    ensures Risk.ZoneTerm(v.lat, v.lon) == Risk.ZoneWeight
    ensures forall a :: a in GenerateAlerts(v, trajectories, boundary) ==> !a.PiracyAlert?
  {
    assert InZone(ArabianSea, v.lat, v.lon);
  }

  /** A friendly vessel speeding in the Gulf of Aden gets a speed alert and a piracy alert, nothing more. */
  lemma FriendlyGulfScenario(id: string, trajectories: map<string, seq<Point>>, boundary: seq<Point>)
    ensures GenerateAlerts(Vessel(id, 12.0, 48.0, 15.0, 1, None), trajectories, boundary)
            == [SpeedAlert(id, 15.0), PiracyAlert(id, GulfOfAden)]
  {
    assert FirstZone(12.0, 48.0) == Some(GulfOfAden);
  }

  /**
   A non-friendly vessel at 20 knots in the Arabian Sea, whose stored track
   crosses a boundary edge, gets all three alerts in order, the boundary
   alert carrying the speed.
   */
  lemma NonFriendlyArabianSeaScenario()
    ensures
      var v := Vessel("V1", 2.0, 68.0, 20.0, 0, None);
      var trajectories := map["V1" := [Point(2.0, 68.0), Point(2.5, 69.0)]];
      var boundary := [Point(2.0, 69.0), Point(2.5, 68.0)];
      GenerateAlerts(v, trajectories, boundary)
      == [SpeedAlert("V1", 20.0), PiracyAlert("V1", ArabianSea), BoundaryAlert("V1", Some(20.0))]
  {
    var v := Vessel("V1", 2.0, 68.0, 20.0, 0, None);
    var trajectory := [Point(2.0, 68.0), Point(2.5, 69.0)];
    var boundary := [Point(2.0, 69.0), Point(2.5, 68.0)];
    var trajectories := map["V1" := trajectory];
    assert FirstZone(2.0, 68.0) == Some(ArabianSea);
    var a, b := PathEdge(trajectory, 0), RingEdge(boundary, 0);
    assert b == Segment(Point(2.0, 69.0), Point(2.5, 68.0));
    assert Cross(a.start, a.end, b.start) > 0.0;
    assert Cross(a.start, a.end, b.end) < 0.0;
    assert Cross(b.start, b.end, a.start) < 0.0;
    assert Cross(b.start, b.end, a.end) > 0.0;
    assert Intersects(a, b);
    assert CheckBoundaryCrossing(trajectory, boundary);
  }
}
