/**
 The pure decisions the dashboard makes around the engine: which vessels
 pass the minimum-speed filter, the alert feed gathered from them, and the
 "other alerts" list, which drops alerts already shown as recent.
 */
module Display {
  import opened Geometry
  import opened Vessels
  import opened Alerts

  /** The elements of s that keep accepts, in their original order. */
  function Filter<T(!new)>(s: seq<T>, keep: T -> bool): (r: seq<T>)
    ensures |r| <= |s|
    ensures forall x :: x in r <==> x in s && keep(x)
    ensures forall x :: multiset(r)[x] == if keep(x) then multiset(s)[x] else 0
  {
    if |s| == 0 then []
    else
      assert s == [s[0]] + s[1..];
      (if keep(s[0]) then [s[0]] else []) + Filter(s[1..], keep)
  }

  /** Filtering distributes over concatenation, so it preserves relative order. */
  lemma {:induction false} FilterConcat<T(!new)>(a: seq<T>, b: seq<T>, keep: T -> bool)
    ensures Filter(a + b, keep) == Filter(a, keep) + Filter(b, keep)
  {
    if |a| == 0 {
      assert a + b == b;
    } else {
      assert (a + b)[1..] == a[1..] + b;
      FilterConcat(a[1..], b, keep);
    }
  }

  /** A sequence whose every element passes the test is left as it is. */
  lemma {:induction false} FilterKeepsAll<T(!new)>(s: seq<T>, keep: T -> bool)
    requires forall x :: x in s ==> keep(x)
    ensures Filter(s, keep) == s
  {
    if |s| > 0 {
      assert keep(s[0]);
      FilterKeepsAll(s[1..], keep);
      assert s == [s[0]] + s[1..];
    }
  }

  /** The vessels shown and alerted on: those at or above the minimum speed. */
  function SpeedFiltered(fleet: seq<Vessel>, minSpeed: real): (r: seq<Vessel>)
    ensures forall v :: v in r <==> v in fleet && v.speed >= minSpeed
    ensures forall v :: multiset(r)[v] == if v.speed >= minSpeed then multiset(fleet)[v] else 0
  {
    Filter(fleet, (v: Vessel) => v.speed >= minSpeed)
  }

  /** The concatenation of f's results over s, in order. */
  function FlatMap<T(!new), U(!new)>(s: seq<T>, f: T -> seq<U>): (r: seq<U>)
    ensures forall x :: x in r <==> exists t :: t in s && x in f(t)
  {
    if |s| == 0 then []
    else
      assert forall t :: t in s <==> t == s[0] || t in s[1..];
      f(s[0]) + FlatMap(s[1..], f)
  }

  lemma {:induction false} FlatMapBound<T(!new), U(!new)>(s: seq<T>, f: T -> seq<U>, k: nat)
    requires forall t :: t in s ==> |f(t)| <= k
    ensures |FlatMap(s, f)| <= k * |s|
  {
    if |s| > 0 {
      assert s[0] in s;
      FlatMapBound(s[1..], f, k);
    }
  }

  lemma {:induction false} FlatMapConcat<T(!new), U(!new)>(a: seq<T>, b: seq<T>, f: T -> seq<U>)
    ensures FlatMap(a + b, f) == FlatMap(a, f) + FlatMap(b, f)
  {
    if |a| == 0 {
      assert a + b == b;
    } else {
      assert (a + b)[0] == a[0];
      assert (a + b)[1..] == a[1..] + b;
      FlatMapConcat(a[1..], b, f);
    }
  }

  /** Every alert of every vessel, vessel by vessel, each vessel's alerts in generator order. */
  function AlertFeed(vessels: seq<Vessel>, trajectories: map<string, seq<Point>>, boundary: seq<Point>): (r: seq<Alert>)
    ensures |r| <= 3 * |vessels|
    ensures forall a :: a in r <==> exists v :: v in vessels && a in GenerateAlerts(v, trajectories, boundary)
  {
    var alertsOf := (v: Vessel) => GenerateAlerts(v, trajectories, boundary);
    FlatMapBound(vessels, alertsOf, 3);
    FlatMap(vessels, alertsOf)
  }

  /** A single vessel's feed is exactly its generated alert list, in generator order. */
  lemma AlertFeedSingleton(v: Vessel, trajectories: map<string, seq<Point>>, boundary: seq<Point>)
    ensures AlertFeed([v], trajectories, boundary) == GenerateAlerts(v, trajectories, boundary)
  {
    var f := (w: Vessel) => GenerateAlerts(w, trajectories, boundary);
    assert [v][1..] == [];
    assert FlatMap([v][1..], f) == [];
    assert FlatMap([v], f) == f(v) + FlatMap([v][1..], f);
    assert AlertFeed([v], trajectories, boundary) == FlatMap([v], f);
  }

  /** The feed of a concatenated fleet is the concatenation of the feeds: vessel order is kept. */
  lemma AlertFeedConcat(a: seq<Vessel>, b: seq<Vessel>, trajectories: map<string, seq<Point>>, boundary: seq<Point>)
    ensures AlertFeed(a + b, trajectories, boundary) == AlertFeed(a, trajectories, boundary) + AlertFeed(b, trajectories, boundary)
  {
    FlatMapConcat(a, b, (v: Vessel) => GenerateAlerts(v, trajectories, boundary));
  }

  /** The alerts of the feed not already listed as recent, in feed order. */
  function OtherAlerts(feed: seq<Alert>, recent: seq<Alert>): (r: seq<Alert>)
    ensures forall a :: a in r <==> a in feed && a !in recent
    ensures forall a :: a !in recent ==> multiset(r)[a] == multiset(feed)[a]
  {
    Filter(feed, (a: Alert) => a !in recent)
  }

  /** The other list of a concatenated feed is the concatenation of the other lists: feed order is kept. */
  lemma OtherAlertsConcat(a: seq<Alert>, b: seq<Alert>, recent: seq<Alert>)
    ensures OtherAlerts(a + b, recent) == OtherAlerts(a, recent) + OtherAlerts(b, recent)
  {
    FilterConcat(a, b, (x: Alert) => x !in recent);
  }

  /** Every feed alert is shown exactly once: in the recent list or in the other list, never both. */
  lemma AlertsPartitioned(feed: seq<Alert>, recent: seq<Alert>)
    ensures forall a :: a in feed ==> (a in recent <==> a !in OtherAlerts(feed, recent))
    ensures forall a :: a in OtherAlerts(feed, recent) ==> a !in recent
  {
  }

  /** When no feed alert is recent, the other list is the whole feed. */
  lemma NoFeedAlertRecent(feed: seq<Alert>, recent: seq<Alert>)
    requires forall a :: a in feed ==> a !in recent
    ensures OtherAlerts(feed, recent) == feed
  {
    FilterKeepsAll(feed, (x: Alert) => x !in recent);
  }

  /** With nothing recent, the other list is the whole feed. */
  lemma NothingRecent(feed: seq<Alert>)
    ensures OtherAlerts(feed, []) == feed
  {
    NoFeedAlertRecent(feed, []);
  }
}
