module Scenario {
  import opened Wrappers
  import opened Grouping
  import opened Aggregation

  function ScenarioTrips(): seq<Trip> {
    [ Trip(Some(1), Some(2016), None, Some(600), Some(10.0), None, None),
      Trip(Some(1), Some(2016), None, Some(1200), Some(20.0), None, None),
      Trip(Some(2), Some(2016), None, Some(300), Some(5.0), None, None) ]
  }

  /** The included trips of each day, summed one trip at a time. */
  lemma ScenarioSums()
    ensures IncludedCount(ScenarioTrips(), 1) == 2 && IncludedSum(ScenarioTrips(), 1) == 30.0
    ensures IncludedCount(ScenarioTrips(), 2) == 1 && IncludedSum(ScenarioTrips(), 2) == 5.0
  {
    var trips := ScenarioTrips();
    var p1, p2 := trips[..1], trips[..2];
    assert p1[..0] == [] && p2[..1] == p1 && trips[..2] == p2;
    assert Included(trips[0]) && Included(trips[1]) && Included(trips[2]);
    assert IncludedCount(p1, 1) == 1 && IncludedSum(p1, 1) == 10.0;
    assert IncludedCount(p1, 2) == 0 && IncludedSum(p1, 2) == 0.0;
    assert IncludedCount(p2, 1) == 2 && IncludedSum(p2, 1) == 30.0;
    assert IncludedCount(p2, 2) == 0 && IncludedSum(p2, 2) == 0.0;
  }

  /** Which days the example holds, and how many rides each. */
  lemma ScenarioDays()
    ensures |DayRides(ScenarioTrips(), 1)| == 2 && |DayRides(ScenarioTrips(), 2)| == 1
    ensures forall d :: HasIncludedTrip(ScenarioTrips(), d) <==> d == 1 || d == 2
  {
    var trips := ScenarioTrips();
    assert DayRides(trips, 1) == {0, 1};
    assert DayRides(trips, 2) == {2};
    assert trips[0].day == Some(1) && Included(trips[0]);
    assert trips[2].day == Some(2) && Included(trips[2]);
  }

  /** Two days, 1 and 2, with the given included sums and counts. */
  lemma TwoDayTables(trips: seq<Trip>, m1: real, m2: real)
    requires forall d :: HasIncludedTrip(trips, d) <==> d == 1 || d == 2
    requires IncludedCount(trips, 1) > 0 && IncludedSum(trips, 1) / (IncludedCount(trips, 1) as real) == m1
    requires IncludedCount(trips, 2) > 0 && IncludedSum(trips, 2) / (IncludedCount(trips, 2) as real) == m2
    ensures |GetMeanTripDurations(trips)| == 2
    ensures (1, m1) in GetMeanTripDurations(trips) && (2, m2) in GetMeanTripDurations(trips)
  {
    var means := GetMeanTripDurations(trips);
    var ks := KeysOf(means);
    assert HasIncludedTrip(trips, 1) && HasIncludedTrip(trips, 2);
    assert 1 in ks && 2 in ks;
    assert forall x :: x in ks ==> x in [1, 2];
    DistinctSubsetLength(ks, [1, 2]);
    assert Distinct([1, 2]);
    DistinctSubsetLength([1, 2], ks);
    var i :| 0 <= i < |ks| && ks[i] == 1;
    var j :| 0 <= j < |ks| && ks[j] == 2;
    assert means[i].0 == 1 && means[i].1 == m1;
    assert means[j].0 == 2 && means[j].1 == m2;
  }

  /** A day present in the frame gets a row holding its ride count. */
  lemma DayCountRow(trips: seq<Trip>, d: int, c: nat)
    requires exists i :: 0 <= i < |trips| && trips[i].day == Some(d)
    requires |DayRides(trips, d)| == c
    ensures (d, c) in GetBikeCountsPerDay(trips)
  {
  }

  /** The worked example: two short trips on day 1, one on day 2. */
  lemma ScenarioTables()
    ensures |GetMeanTripDurations(ScenarioTrips())| == 2
    ensures (1, 15.0) in GetMeanTripDurations(ScenarioTrips())
    ensures (2, 5.0) in GetMeanTripDurations(ScenarioTrips())
    ensures (1, 2) in GetBikeCountsPerDay(ScenarioTrips())
    ensures (2, 1) in GetBikeCountsPerDay(ScenarioTrips())
    ensures (1, 15.0, 2) in GetAverageDurationsAndCounts(ScenarioTrips())
    ensures (2, 5.0, 1) in GetAverageDurationsAndCounts(ScenarioTrips())
  {
    var trips := ScenarioTrips();
    ScenarioSums();
    ScenarioDays();
    TwoDayTables(trips, 15.0, 5.0);
    assert trips[0].day == Some(1) && trips[2].day == Some(2);
    DayCountRow(trips, 1, 2);
    DayCountRow(trips, 2, 1);
  }
}
