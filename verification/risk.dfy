/**
 The rule-based risk scorer: fixed weights for high speed, presence in a
 piracy zone and an outlier label, summed and capped at 100.
 */
module Risk {
  import opened Wrappers
  import opened Zones
  import opened Vessels

  const SpeedLimit: real := 12.0
  const SpeedWeight: int := 40
  const ZoneWeight: int := 30
  const AnomalyWeight: int := 30
  const MaxScore: int := 100

  /** The label the detector gives an outlier. */
  const Outlier: int := -1

  /** Label assumed when the anomaly field is missing. */
  const DefaultLabel: int := 1

  /** The speed threshold is strict: exactly 12 knots adds nothing. */
  predicate Speeding(speed: real) {
    speed > SpeedLimit
  }

  predicate Anomalous(anomaly: Option<int>) {
    anomaly.GetOr(DefaultLabel) == Outlier
  }

  function SpeedTerm(speed: real): int {
    if Speeding(speed) then SpeedWeight else 0
  }

  function ZoneTerm(lat: real, lon: real): int {
    if InAnyZone(lat, lon) then ZoneWeight else 0
  }

  function AnomalyTerm(anomaly: Option<int>): int {
    if Anomalous(anomaly) then AnomalyWeight else 0
  }

  function Min(a: int, b: int): int {
    if a <= b then a else b
  }

  function RiskScore(v: Vessel): (r: int)
    ensures 0 <= r <= MaxScore
    ensures r in {0, 30, 40, 60, 70, 100}
  {
    Min(SpeedTerm(v.speed) + ZoneTerm(v.lat, v.lon) + AnomalyTerm(v.anomaly), MaxScore)
  }

  /** The cap is never reached by the sum: the weights add up to exactly 100. */
  lemma CapNeverClips(v: Vessel)
    ensures RiskScore(v) == SpeedTerm(v.speed) + ZoneTerm(v.lat, v.lon) + AnomalyTerm(v.anomaly)
    ensures SpeedWeight + ZoneWeight + AnomalyWeight == MaxScore
  {
  }

  /** The score alone determines which rules fired. */
  lemma RiskScoreDecodes(v: Vessel)
    ensures Speeding(v.speed) <==> RiskScore(v) in {40, 70, 100}
    ensures InAnyZone(v.lat, v.lon) && Anomalous(v.anomaly) <==> RiskScore(v) in {60, 100}
    ensures (InAnyZone(v.lat, v.lon) != Anomalous(v.anomaly)) <==> RiskScore(v) in {30, 70}
    ensures RiskScore(v) == 0 <==> !Speeding(v.speed) && !InAnyZone(v.lat, v.lon) && !Anomalous(v.anomaly)
  {
  }

  /** Speed 12 adds nothing; any speed above 12 adds exactly 40 and nothing else changes. */
  lemma SpeedRuleIsStrict(v: Vessel, s: real)
    requires s > SpeedLimit
    ensures SpeedTerm(SpeedLimit) == 0
    ensures RiskScore(v.(speed := s)) == RiskScore(v.(speed := SpeedLimit)) + SpeedWeight
  {
    CapNeverClips(v.(speed := s));
    CapNeverClips(v.(speed := SpeedLimit));
  }

  /** Any zone adds exactly 30, once, whichever zone contains the position. */
  lemma ZoneAddsOnce(v: Vessel, z: Zone)
    requires InZone(z, v.lat, v.lon)
    ensures RiskScore(v) == SpeedTerm(v.speed) + ZoneWeight + AnomalyTerm(v.anomaly)
  {
    CapNeverClips(v);
  }

  /**
   Only the outlier label adds 30; a missing label counts as the normal
   label 1 and adds nothing.
   */
  lemma AnomalyRule(v: Vessel, tag: int)
    ensures RiskScore(v.(anomaly := None)) == RiskScore(v.(anomaly := Some(DefaultLabel)))
    ensures RiskScore(v.(anomaly := Some(Outlier))) == RiskScore(v.(anomaly := None)) + AnomalyWeight
    ensures tag != Outlier ==> RiskScore(v.(anomaly := Some(tag))) == RiskScore(v.(anomaly := None))
  {
    CapNeverClips(v.(anomaly := None));
    CapNeverClips(v.(anomaly := Some(Outlier)));
  }
}
