# Maritime situational awareness: risk and alert engine

This project models the rule-based decision core of the maritime situational
awareness dashboard (`msa.py`), and proves properties of that model. The core
has three parts. The risk scorer gives each vessel a score from 0 to 100. The
alert generator emits an ordered list of typed alerts per vessel: speed,
piracy zone and maritime-boundary violation. The boundary crossing check tests
whether a vessel's stored trajectory meets the Indian maritime boundary.

Coordinates and speeds are Dafny `real`s, so every comparison and cross
product is exact. Modules:

- `Geometry` (geometry.dfy): closed-segment intersection by the orientation
  (cross-product) test. It is the "intersects" relation of the OGC Simple
  Features model (ISO 19125-1, section 6.1.15.3), restricted to line segments.
  Touching endpoints and collinear overlap count. A zero-length segment is
  read as the single point it covers.
  The orientation test is proved equal to a reference definition: the two
  segments share a point `a + t (b - a)` with `0 <= t <= 1`.
- `Crossing` (crossing.dfy): the trajectory becomes an open polyline. The
  boundary becomes a closed ring, with vertex `i` joined to vertex
  `(i + 1) mod n`. The check asks whether any trajectory edge meets any ring
  edge. A one-point trajectory cannot form a line string; this failure is
  `GeometryFailure`, and it reads as "no crossing".
- `Zones` (zones.dfy): the three piracy rectangles. All four edges are
  inclusive. The alert generator tries them in this order: Gulf of Aden,
  Arabian Sea, Malacca Strait.
- `Vessels` (vessel.dfy), `Wrappers` (wrappers.dfy): the vessel record. Its
  anomaly label is optional.
- `Risk` (risk.dfy): the weighted score. Speed above 12 adds 40. Being in any
  zone adds 30. The outlier label -1 adds 30. The sum is capped at 100.
- `Alerts` (alerts.dfy): the per-vessel alert list.
- `Display` (display.dfy): the dashboard's pure decisions around the engine.
  These are the minimum-speed filter, the alert feed over the filtered
  vessels, and the "other alerts" list, which drops alerts already shown as
  recent.

Three behaviours of the code are modelled as written:

- A missing anomaly label defaults to 1 (msa.py:195), so it adds nothing to
  the score. Only the label -1 adds 30.
- The piracy alert is guarded by the truthiness of latitude and longitude
  (msa.py:203). A vessel inside the Arabian Sea or Malacca Strait zone at
  latitude 0 gets no piracy alert, although the risk scorer (msa.py:191-194)
  still adds 30 for it. `Alerts.ZeroLatitudeExample` shows this for (0, 67).
  No zone reaches longitude 0 (`Zones.NoZoneAtZeroLongitude`), so the
  longitude half of the guard never changes an outcome.
- A boundary alert also needs a non-empty stored trajectory (msa.py:213).

Alerts are kept abstract. An alert holds its kind, the vessel id and the
facts its message embeds: the speed, the zone, or the optional speed suffix.
The message text itself is not modelled.

## Model

| member | source | states |
|---|---|---|
| `Geometry.SegmentsIntersectIffMeet` | msa.py:226 | The orientation test reports two closed segments as intersecting exactly when they share a point, in both directions. |
| `Geometry.IntersectImpliesMeet` | msa.py:226 | Soundness: every pair the test accepts (proper crossing, touching endpoint, collinear overlap) has a common point. |
| `Geometry.MeetImpliesIntersect` | msa.py:226 | Completeness: every pair of segments with a common point passes the test, degenerate and collinear cases included. |
| `Geometry.OnSegmentIff` | msa.py:226 | "Collinear and inside the bounding box" is exactly "lies on the closed segment". |
| `Geometry.SegmentIntersectsItself` | msa.py:226 | A segment always intersects itself. |
| `Geometry.SegmentsIntersectSymmetric` | msa.py:226 | The test gives the same answer with the two segments swapped. |
| `Crossing.PathSegments` | msa.py:224 | A trajectory of n >= 2 points has n - 1 edges, edge i joining points i and i + 1; fewer than 2 points give no edges. |
| `Crossing.RingSegments` | msa.py:225 | The boundary of n vertices gives exactly n segments, segment i joining vertex i to vertex (i + 1) mod n. |
| `Crossing.RingIsClosedChain` | msa.py:225 | Each ring segment ends where the next begins, and the last one runs from the last vertex back to the first. |
| `Crossing.HitsAny` | msa.py:226 | True exactly when the segment intersects some ring segment. |
| `Crossing.AnyHits` | msa.py:226 | True exactly when some trajectory edge intersects some ring segment. |
| `Crossing.TryBoundaryCrossing` | msa.py:221-229 | The geometry fails exactly for a one-point trajectory. Otherwise the verdict is true iff some trajectory edge meets some boundary edge, the wrap edge included. |
| `Crossing.CheckBoundaryCrossing` | msa.py:221-229 | True iff some trajectory edge meets some boundary edge; a trajectory of fewer than 2 points gives false, not an error. |
| `Crossing.CrossingIffSharedPoint` | msa.py:226 | The check reports a crossing exactly when some point lies on both the trajectory polyline and the closed boundary ring. |
| `Crossing.EdgeTrajectoryCrosses` | msa.py:225-226 | A trajectory equal to any one boundary segment, the closing one included, is reported as crossing. |
| `Crossing.EmptyBoundaryNeverCrossed` | msa.py:225-226 | An empty boundary has no segments, so no trajectory crosses it. |
| `Crossing.MaritimeBoundaryEdges` | msa.py:355-358 | The eight-vertex maritime boundary splits into 8 segments; the last one is the closing edge [23.5, 90] to [23.5, 64.5]. |
| `Crossing.EastboundTrackCrossesBoundary` | msa.py:355-358 | A track along latitude 10 from longitude 60 to 80 crosses the maritime boundary. |
| `Zones.FirstZone` | msa.py:204-209 | A zone is chosen iff the position is in some zone; the chosen zone contains the position and no zone earlier in the order does. |
| `Zones.InAnyZoneIff` | msa.py:191-193 | The risk scorer's three-way disjunction means "inside some zone". |
| `Zones.ZonesDisjoint` | msa.py:191-193 | No position lies in two zones, so the alert order never changes the zone named. |
| `Zones.NoZoneAtZeroLongitude` | msa.py:191-193 | No zone contains a point at longitude 0, so the longitude half of the alert guard at msa.py:203 never matters. |
| `Zones.FirstZoneIsTheZone` | msa.py:204-209 | For a position inside a zone, the alert generator names that zone. |
| `Zones.ZoneCornersInside` | msa.py:191-193 | All four corners of every zone are inside it; (10, 43) is in the Gulf of Aden. |
| `Risk.RiskScore` | msa.py:187-197 | The score is within [0, 100] and is one of 0, 30, 40, 60, 70, 100. |
| `Risk.CapNeverClips` | msa.py:197 | The cap at 100 never clips: the score equals the plain sum of the three terms, and the weights sum to exactly 100. |
| `Risk.RiskScoreDecodes` | msa.py:187-197 | Which rules fired can be read back from the score: speeding iff 40, 70 or 100; zone and anomaly iff 60 or 100; exactly one of them iff 30 or 70; 0 iff none. |
| `Risk.SpeedRuleIsStrict` | msa.py:189-190 | Speed 12 adds nothing; any speed above 12 adds exactly 40 over the score at speed 12, all else equal. |
| `Risk.ZoneAddsOnce` | msa.py:191-194 | Being in any zone adds exactly 30, once. |
| `Risk.AnomalyRule` | msa.py:195-196 | A missing label scores like the label 1; the label -1 adds exactly 30; any other label adds nothing. |
| `Alerts.SpeedAlerts` | msa.py:201-202 | At most one speed alert, present exactly when speed > 12, and carrying the vessel's id and speed. |
| `Alerts.PiracyAlerts` | msa.py:203-209 | At most one piracy alert, present exactly when latitude and longitude are nonzero and the position is in a zone; it names the first containing zone. |
| `Alerts.BoundaryAlerts` | msa.py:211-217 | At most one boundary alert. It is present exactly when the vessel is non-friendly, has a stored non-empty trajectory, and that trajectory crosses the boundary. It carries the speed suffix exactly when speed > 12. |
| `Alerts.GenerateAlerts` | msa.py:199-218 | At most 3 alerts, strictly ordered speed, piracy, boundary, all for this vessel. Each kind appears under its exact condition. A friendly vessel never gets a boundary alert. |
| `Alerts.KindsAreDistinct` | msa.py:199-218 | No alert kind appears twice in one vessel's list. |
| `Alerts.PiracyAlertImpliesZoneRisk` | msa.py:191-209 | A piracy alert implies the zone term of the risk score. |
| `Alerts.ZoneRiskWithoutPiracyAlert` | msa.py:191-209 | For a position inside a zone, there is no piracy alert exactly when latitude or longitude is zero. |
| `Alerts.ZeroLatitudeExample` | msa.py:191-206 | At (0, 67) the risk scorer adds 30 but no piracy alert is raised. |
| `Alerts.FriendlyGulfScenario` | msa.py:199-218 | A friendly vessel at 15 knots at (12, 48) gets exactly a speed alert and then a Gulf of Aden piracy alert. |
| `Alerts.NonFriendlyArabianSeaScenario` | msa.py:199-218 | A non-friendly vessel at 20 knots at (2, 68) whose track crosses a boundary edge gets a speed, an Arabian Sea piracy and a boundary alert with speed suffix, in that order. |
| `Display.SpeedFiltered` | msa.py:416 | Keeps exactly the vessels with speed >= the minimum, each with its original multiplicity. |
| `Display.FilterConcat` | msa.py:416 | Filtering distributes over concatenation, so the filters keep the original relative order. |
| `Display.AlertFeed` | msa.py:455 | Every feed alert was generated for one of the given vessels and every generated alert is in the feed; at most 3 per vessel. With `AlertFeedSingleton` and `AlertFeedConcat` the feed is each vessel's list in fleet order. |
| `Display.AlertFeedSingleton` | msa.py:455 | A single vessel contributes exactly its generated alert list, unchanged and in generator order. |
| `Display.AlertFeedConcat` | msa.py:455 | The feed of a concatenated fleet is the concatenation of the feeds, so vessel order is kept. |
| `Display.OtherAlerts` | msa.py:457 | Keeps exactly the feed alerts not in the recent list, in order and with their multiplicity. |
| `Display.OtherAlertsConcat` | msa.py:457 | The other list of a concatenated feed is the concatenation of the other lists, so the kept alerts stay in feed order. |
| `Display.NoFeedAlertRecent` | msa.py:457 | When no feed alert is in the recent list, the other list is the whole feed. |
| `Display.AlertsPartitioned` | msa.py:457 | Every feed alert is in exactly one of the recent list and the other list. |
| `Display.NothingRecent` | msa.py:457 | With no recent alerts, the other list is the whole feed. |

## Left out

- Streamlit layout, CSS, session state, folium map rendering (`setup_map`, `alert_icon`, the alert HTML): presentation only.
- SQLite persistence (`init_db`, `load_ais_data`, `save_vessel_to_db`, `remove_vessel_from_db`) and JSON (de)serialisation of trajectories: I/O. Trajectories are given as a map from vessel id to point sequence.
- `generate_initial_ais_data`: random generation and database writes.
- `update_ais_data` and `calculate_trajectory`: floating-point trigonometry, and database writes. Stored trajectories are inputs.
- `detect_anomalies`: an IsolationForest, an opaque foreign model. The anomaly label is an optional input field. The risk-score column it writes (msa.py:239) is `Risk.RiskScore` applied to each row, and is not modelled as a separate operation. The empty-table early return is not modelled either.
- `smooth_boundary`: spline interpolation that only feeds rendering. The crossing check uses the raw vertices.
- The warning shown when the geometry fails (msa.py:228) is a UI side effect. `Crossing.TryBoundaryCrossing` reports the failure as `GeometryFailure`, without the message text.
- Alert message strings and their one-decimal speed formatting. Alerts are abstract values.
- Display.OtherAlerts: compares abstract alerts. In the source, two alerts whose speeds print the same to one decimal place compare equal; here they stay distinct.
- Zero-length trajectory edges: a vessel with speed 0 gets a trajectory of repeated points (msa.py:243-250). The model reads such an edge as the point it covers, which is how recent GEOS versions behave. Older GEOS releases may drop a line whose points all coincide, so shapely's `intersects` can answer False there; that version-dependent behaviour is not modelled.
- Floating-point behaviour, including NaN, is not modelled. Reals are exact, so results that depend on rounding in shapely's predicates are not reproduced.
- Crossing.CheckBoundaryCrossing: handles only what a typed point sequence can express. Malformed coordinate lists, which shapely would reject with an exception, cannot occur here.
- The vessel's heading, timestamp and stored `trajectory` column are not read by the modelled core and are not fields of `Vessels.Vessel`.
