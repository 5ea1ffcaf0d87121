/**
 The three fixed piracy zones, latitude/longitude rectangles closed on all
 four edges, shared by the risk scorer and the alert generator.
 */
module Zones {
  import opened Wrappers

  datatype Zone = GulfOfAden | ArabianSea | MalaccaStrait

  datatype Box = Box(latMin: real, latMax: real, lonMin: real, lonMax: real)

  function Bounds(z: Zone): Box {
    match z
    case GulfOfAden => Box(10.0, 15.0, 43.0, 53.0)
    case ArabianSea => Box(0.0, 5.0, 65.0, 70.0)
    case MalaccaStrait => Box(0.0, 5.0, 97.0, 102.0)
  }

  /** Membership is inclusive on every edge. */
  predicate InZone(z: Zone, lat: real, lon: real) {
    var b := Bounds(z);
    b.latMin <= lat <= b.latMax && b.lonMin <= lon <= b.lonMax
  }

  /** The risk scorer's test: the position lies in at least one zone. */
  predicate InAnyZone(lat: real, lon: real) {
    InZone(GulfOfAden, lat, lon) || InZone(ArabianSea, lat, lon) || InZone(MalaccaStrait, lat, lon)
  }

  /** The order in which the alert generator tries the zones. */
  function Priority(z: Zone): nat {
    match z
    case GulfOfAden => 0
    case ArabianSea => 1
    case MalaccaStrait => 2
  }

  /** The alert generator's choice: the first zone, in priority order, containing the position. */
  function FirstZone(lat: real, lon: real): (r: Option<Zone>)
    ensures r.Some? <==> InAnyZone(lat, lon)
    ensures r.Some? ==> InZone(r.value, lat, lon)
    ensures r.Some? ==> forall z :: Priority(z) < Priority(r.value) ==> !InZone(z, lat, lon)
  {
    if InZone(GulfOfAden, lat, lon) then Some(GulfOfAden)
    else if InZone(ArabianSea, lat, lon) then Some(ArabianSea)
    else if InZone(MalaccaStrait, lat, lon) then Some(MalaccaStrait)
    else None
  }

  /** Being in any zone means being in some zone. */
  lemma InAnyZoneIff(lat: real, lon: real)
    ensures InAnyZone(lat, lon) <==> exists z :: InZone(z, lat, lon)
  {
    if exists z :: InZone(z, lat, lon) {
      var z :| InZone(z, lat, lon);
      match z
      case GulfOfAden =>
      case ArabianSea =>
      case MalaccaStrait =>
    }
  }

  /** The zones do not overlap, so the priority order never changes which zone is named. */
  lemma ZonesDisjoint(z1: Zone, z2: Zone, lat: real, lon: real)
    requires InZone(z1, lat, lon) && InZone(z2, lat, lon)
    ensures z1 == z2
  {
  }

  /** No zone reaches longitude 0, so a zero longitude never decides a zone question. */
  lemma NoZoneAtZeroLongitude(lat: real)
    ensures !InAnyZone(lat, 0.0)
  {
  }

  lemma FirstZoneIsTheZone(z: Zone, lat: real, lon: real)
    requires InZone(z, lat, lon)
    ensures FirstZone(lat, lon) == Some(z)
  {
    var r := FirstZone(lat, lon);
    ZonesDisjoint(z, r.value, lat, lon);
  }

  /** Every corner of every zone is inside it; for instance (10, 43) is in the Gulf of Aden. */
  lemma ZoneCornersInside(z: Zone)
    ensures InZone(z, Bounds(z).latMin, Bounds(z).lonMin) && InZone(z, Bounds(z).latMin, Bounds(z).lonMax)
    ensures InZone(z, Bounds(z).latMax, Bounds(z).lonMin) && InZone(z, Bounds(z).latMax, Bounds(z).lonMax)
    ensures InZone(GulfOfAden, 10.0, 43.0)
  {
  }
}
