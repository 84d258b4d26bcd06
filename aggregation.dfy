/**
 * The aggregations over the trip table: rides per day, rides per average
 * temperature, mean trip duration per day (trips of at most an hour), the
 * join of the last two, and the station popularity ranking.
 */
module Aggregation {
  import opened Wrappers
  import opened Grouping

  /** The columns of the trip table the aggregations read; `None` is a null cell. */
  datatype Trip = Trip(
    day: Option<int>,
    year: Option<int>,
    averageTemperature: Option<real>,
    tripduration: Option<int>,
    tripdurationMinutes: Option<real>,
    startStationName: Option<string>,
    stopStationName: Option<string>)

  /** Trips longer than this many minutes are outliers for the mean duration. */
  const MAX_TRIP_MINUTES: real := 60.0

  // ---------------------------------------------------------------------------
  // Ride counts

  /** Rows with day `d` and a non-null `year`: what the per-day count counts. */
  ghost function DayRides(trips: seq<Trip>, d: int): set<nat> {
    set i: nat | i < |trips| && trips[i].day == Some(d) && trips[i].year.Some?
  }

  function DayYearCells(trips: seq<Trip>): (cells: seq<(Option<int>, Option<int>)>)
    ensures |cells| == |trips| && forall i :: 0 <= i < |trips| ==> cells[i] == (trips[i].day, trips[i].year)
  {
    seq(|trips|, i requires 0 <= i < |trips| => (trips[i].day, trips[i].year))
  }

  /** `get_bike_counts_per_day`: for each distinct day, the number of its rows whose `year` is not null. */
  function GetBikeCountsPerDay(trips: seq<Trip>): (r: seq<(int, nat)>)
    ensures Distinct(KeysOf(r))
    ensures forall d :: d in KeysOf(r) <==> exists i :: 0 <= i < |trips| && trips[i].day == Some(d)
    ensures forall i :: 0 <= i < |r| ==> r[i].1 == |DayRides(trips, r[i].0)|
  {
    var cells := DayYearCells(trips);
    var r := GroupCount(cells);
    assert forall d :: HasKey(cells, d) <==> exists i :: 0 <= i < |trips| && trips[i].day == Some(d);
    forall i | 0 <= i < |r| ensures r[i].1 == |DayRides(trips, r[i].0)| {
      assert (set j | 0 <= j < |cells| && Counted(cells[j], r[i].0)) == DayRides(trips, r[i].0);
    }
    r
  }

  /** The per-day counts add up to the number of rows with both a day and a year. */
  lemma BikeCountsPerDaySum(trips: seq<Trip>)
    ensures SumCounts(GetBikeCountsPerDay(trips)) ==
      |set i | 0 <= i < |trips| && trips[i].day.Some? && trips[i].year.Some?|
  {
    var cells := DayYearCells(trips);
    GroupCountSum(cells);
    assert (set i | 0 <= i < |cells| && cells[i].0.Some? && cells[i].1.Some?) ==
      (set i | 0 <= i < |trips| && trips[i].day.Some? && trips[i].year.Some?);
  }

  /** Rows with average temperature `t` and a non-null `tripduration`. */
  ghost function TemperatureRides(trips: seq<Trip>, t: real): set<nat> {
    set i: nat | i < |trips| && trips[i].averageTemperature == Some(t) && trips[i].tripduration.Some?
  }

  function TemperatureDurationCells(trips: seq<Trip>): (cells: seq<(Option<real>, Option<int>)>)
    ensures |cells| == |trips|
    ensures forall i :: 0 <= i < |trips| ==> cells[i] == (trips[i].averageTemperature, trips[i].tripduration)
  {
    seq(|trips|, i requires 0 <= i < |trips| => (trips[i].averageTemperature, trips[i].tripduration))
  }

  /** `get_bike_counts_by_avg_temperature`: for each distinct average temperature, its rows with a non-null `tripduration`. */
  function GetBikeCountsByAvgTemperature(trips: seq<Trip>): (r: seq<(real, nat)>)
    ensures Distinct(KeysOf(r))
    ensures forall t :: t in KeysOf(r) <==> exists i :: 0 <= i < |trips| && trips[i].averageTemperature == Some(t)
    ensures forall i :: 0 <= i < |r| ==> r[i].1 == |TemperatureRides(trips, r[i].0)|
  {
    var cells := TemperatureDurationCells(trips);
    var r := GroupCount(cells);
    assert forall t :: HasKey(cells, t) <==> exists i :: 0 <= i < |trips| && trips[i].averageTemperature == Some(t);
    forall i | 0 <= i < |r| ensures r[i].1 == |TemperatureRides(trips, r[i].0)| {
      assert (set j | 0 <= j < |cells| && Counted(cells[j], r[i].0)) == TemperatureRides(trips, r[i].0);
    }
    r
  }

  /** The per-temperature counts add up to the number of rows with both a temperature and a duration. */
  lemma BikeCountsByAvgTemperatureSum(trips: seq<Trip>)
    ensures SumCounts(GetBikeCountsByAvgTemperature(trips)) ==
      |set i | 0 <= i < |trips| && trips[i].averageTemperature.Some? && trips[i].tripduration.Some?|
  {
    var cells := TemperatureDurationCells(trips);
    GroupCountSum(cells);
    assert (set i | 0 <= i < |cells| && cells[i].0.Some? && cells[i].1.Some?) ==
      (set i | 0 <= i < |trips| && trips[i].averageTemperature.Some? && trips[i].tripduration.Some?);
  }

  // ---------------------------------------------------------------------------
  // Mean durations

  /** The filter `tripduration_minutes <= 60`; a null duration compares false. */
  predicate Included(t: Trip): (b: bool)
    ensures b ==> t.tripdurationMinutes.Some?
  {
    t.tripdurationMinutes.Some? && t.tripdurationMinutes.value <= MAX_TRIP_MINUTES
  }

  /** How many included trips fall on day `d`. */
  function IncludedCount(trips: seq<Trip>, d: int): nat {
    if trips == [] then 0
    else
      var t := trips[|trips| - 1];
      IncludedCount(trips[..|trips| - 1], d) + (if Included(t) && t.day == Some(d) then 1 else 0)
  }

  /** The total duration, in minutes, of the included trips of day `d`. */
  function IncludedSum(trips: seq<Trip>, d: int): real {
    if trips == [] then 0.0
    else
      var t := trips[|trips| - 1];
      IncludedSum(trips[..|trips| - 1], d) + (if Included(t) && t.day == Some(d) then t.tripdurationMinutes.value else 0.0)
  }

  /** The filtered frame, reduced to its day and duration columns. */
  function IncludedDurations(trips: seq<Trip>): (cells: seq<(Option<int>, real)>)
    ensures forall i :: 0 <= i < |cells| ==> cells[i].1 <= MAX_TRIP_MINUTES
  {
    if trips == [] then []
    else
      var n := |trips| - 1;
      var t := trips[n];
      var init := IncludedDurations(trips[..n]);
      if Included(t) then init + [(t.day, t.tripdurationMinutes.value)] else init
  }

  /** Some included trip falls on day `d`. */
  ghost predicate HasIncludedTrip(trips: seq<Trip>, d: int) {
    exists i :: 0 <= i < |trips| && trips[i].day == Some(d) && Included(trips[i])
  }

  /** The filtered frame holds exactly the included trips: same days, counts and sums. */
  lemma {:induction false} IncludedDurationsFacts(trips: seq<Trip>, d: int)
    ensures HasKey(IncludedDurations(trips), d) <==> HasIncludedTrip(trips, d)
    ensures CountKey(IncludedDurations(trips), d) == IncludedCount(trips, d)
    ensures SumKey(IncludedDurations(trips), d) == IncludedSum(trips, d)
  {
    if trips != [] {
      var n := |trips| - 1;
      var t := trips[n];
      var prefix := trips[..n];
      var init := IncludedDurations(prefix);
      var cells := IncludedDurations(trips);
      IncludedDurationsFacts(prefix, d);
      assert HasIncludedTrip(trips, d) <==> HasIncludedTrip(prefix, d) || (t.day == Some(d) && Included(t)) by {
        if HasIncludedTrip(trips, d) {
          var i :| 0 <= i < |trips| && trips[i].day == Some(d) && Included(trips[i]);
          if i < n { assert prefix[i] == trips[i]; }
        }
        if HasIncludedTrip(prefix, d) {
          var i :| 0 <= i < n && prefix[i].day == Some(d) && Included(prefix[i]);
          assert trips[i] == prefix[i];
        }
      }
      if Included(t) {
        assert cells == init + [(t.day, t.tripdurationMinutes.value)];
        assert cells[..|init|] == init;
        assert HasKey(cells, d) <==> HasKey(init, d) || t.day == Some(d) by {
          if HasKey(cells, d) {
            var i :| 0 <= i < |cells| && cells[i].0 == Some(d);
            if i < |init| { assert init[i] == cells[i]; }
          }
          if HasKey(init, d) {
            var i :| 0 <= i < |init| && init[i].0 == Some(d);
            assert cells[i] == init[i];
          }
          if t.day == Some(d) {
            assert cells[|init|].0 == Some(d);
          }
        }
      }
    }
  }

  /**
   * `get_mean_trip_durations`: one row per day that has a trip of at most 60
   * minutes, holding the mean duration of those trips.
   */
  function GetMeanTripDurations(trips: seq<Trip>): (r: seq<(int, real)>)
    ensures Distinct(KeysOf(r))
    ensures forall d :: d in KeysOf(r) <==> HasIncludedTrip(trips, d)
    ensures forall i :: 0 <= i < |r| ==>
      IncludedCount(trips, r[i].0) > 0 && r[i].1 == IncludedSum(trips, r[i].0) / (IncludedCount(trips, r[i].0) as real)
    ensures forall i :: 0 <= i < |r| ==> r[i].1 <= MAX_TRIP_MINUTES
  {
    var cells := IncludedDurations(trips);
    GroupMeanBounded(cells, MAX_TRIP_MINUTES);
    var r := GroupMean(cells);
    assert forall d :: d in KeysOf(r) <==> HasIncludedTrip(trips, d) by {
      forall d ensures d in KeysOf(r) <==> HasIncludedTrip(trips, d) {
        IncludedDurationsFacts(trips, d);
      }
    }
    assert forall i :: 0 <= i < |r| ==>
      IncludedCount(trips, r[i].0) > 0 && r[i].1 == IncludedSum(trips, r[i].0) / (IncludedCount(trips, r[i].0) as real) by {
      forall i | 0 <= i < |r|
        ensures IncludedCount(trips, r[i].0) > 0 && r[i].1 == IncludedSum(trips, r[i].0) / (IncludedCount(trips, r[i].0) as real)
      {
        IncludedDurationsFacts(trips, r[i].0);
      }
    }
    r
  }

  /** A day all of whose trips last more than an hour gets no mean. */
  lemma OutlierDayHasNoMean(trips: seq<Trip>, d: int)
    requires forall i :: 0 <= i < |trips| && trips[i].day == Some(d) ==> !Included(trips[i])
    ensures d !in KeysOf(GetMeanTripDurations(trips))
  {
  }

  // ---------------------------------------------------------------------------
  // Join of means and counts

  /** `get_average_durations_and_counts`: the inner join of the mean durations and the per-day counts on `day`. */
  function GetAverageDurationsAndCounts(trips: seq<Trip>): (r: seq<(int, real, nat)>)
    ensures forall d, m, c :: (d, m, c) in r <==>
      (d, m) in GetMeanTripDurations(trips) && (d, c) in GetBikeCountsPerDay(trips)
  {
    InnerJoin(GetMeanTripDurations(trips), GetBikeCountsPerDay(trips))
  }

  /** Every day with a mean also has a count. */
  lemma MeanDaysHaveCounts(trips: seq<Trip>)
    ensures forall d :: d in KeysOf(GetMeanTripDurations(trips)) ==> d in KeysOf(GetBikeCountsPerDay(trips))
  {
  }

  /** The join keeps each day of the mean table exactly once. */
  lemma AverageDurationsAndCountsDays(trips: seq<Trip>)
    ensures Distinct(JoinKeys(GetAverageDurationsAndCounts(trips)))
    ensures forall d :: d in JoinKeys(GetAverageDurationsAndCounts(trips)) <==> HasIncludedTrip(trips, d)
    ensures |GetAverageDurationsAndCounts(trips)| == |GetMeanTripDurations(trips)|
    ensures |GetAverageDurationsAndCounts(trips)| <= |GetBikeCountsPerDay(trips)|
  {
    var means := GetMeanTripDurations(trips);
    var counts := GetBikeCountsPerDay(trips);
    var r := GetAverageDurationsAndCounts(trips);
    JoinKeysAreIntersection(means, counts);
    MeanDaysHaveCounts(trips);
    DistinctSubsetLength(KeysOf(means), JoinKeys(r));
  }

  /**
   * Each joined row holds its day's mean, which is at most 60 minutes, and
   * its day's count over all of that day's trips, not only the short ones.
   */
  lemma AverageDurationsAndCountsValues(trips: seq<Trip>, j: int)
    requires 0 <= j < |GetAverageDurationsAndCounts(trips)|
    ensures GetAverageDurationsAndCounts(trips)[j].1 <= MAX_TRIP_MINUTES
    ensures GetAverageDurationsAndCounts(trips)[j].2 == |DayRides(trips, GetAverageDurationsAndCounts(trips)[j].0)|
  {
  }

  // ---------------------------------------------------------------------------
  // Station popularity

  /** One row of the popularity table. */
  datatype StationShare = StationShare(stationName: string, percentage: real, stationType: string)

  /** A column the table does not have. */
  datatype Error = KeyError(column: string)

  const START_STATION_COL: string := "start station name"
  const STOP_STATION_COL: string := "stop station name"

  function StartStations(trips: seq<Trip>): (column: seq<Option<string>>)
    ensures |column| == |trips| && forall i :: 0 <= i < |trips| ==> column[i] == trips[i].startStationName
  {
    seq(|trips|, i requires 0 <= i < |trips| => trips[i].startStationName)
  }

  function StopStations(trips: seq<Trip>): (column: seq<Option<string>>)
    ensures |column| == |trips| && forall i :: 0 <= i < |trips| ==> column[i] == trips[i].stopStationName
  {
    seq(|trips|, i requires 0 <= i < |trips| => trips[i].stopStationName)
  }

  /** The station-name columns of the trip table, by column name. */
  function StationColumns(trips: seq<Trip>): (columns: map<string, seq<Option<string>>>)
    ensures columns.Keys == {START_STATION_COL, STOP_STATION_COL}
    ensures columns[START_STATION_COL] == StartStations(trips) && columns[STOP_STATION_COL] == StopStations(trips)
  {
    map[START_STATION_COL := StartStations(trips), STOP_STATION_COL := StopStations(trips)]
  }

  /** How many rows hold the station name `s`. */
  ghost function Occurrences(column: seq<Option<string>>, s: string): nat {
    |set i | 0 <= i < |column| && column[i] == Some(s)|
  }

  /** How many rows hold a station name at all. */
  ghost function NonNull(column: seq<Option<string>>): nat {
    |set i | 0 <= i < |column| && column[i].Some?|
  }

  function Percent(count: nat, total: nat): (p: real)
    requires total > 0
    ensures p * (total as real) == 100.0 * (count as real)
  {
    (count as real / total as real) * 100.0
  }

  function Shares(top: seq<(string, nat)>, total: nat, stationType: string): (r: seq<StationShare>)
    requires total > 0
    ensures |r| == |top|
    ensures forall i :: 0 <= i < |top| ==> r[i] == StationShare(top[i].0, Percent(top[i].1, total), stationType)
  {
    if top == [] then [] else [StationShare(top[0].0, Percent(top[0].1, total), stationType)] + Shares(top[1..], total, stationType)
  }

  function SumPercent(rows: seq<StationShare>): real {
    if rows == [] then 0.0 else rows[0].percentage + SumPercent(rows[1..])
  }

  /** `value_counts(normalize=True).head(n).multiply(100)` on one column, tagged with `Type`. */
  function PopularShares(column: seq<Option<string>>, stationType: string, n: int): (r: seq<StationShare>)
    ensures n >= 0 ==> |r| <= n
    ensures forall i :: 0 <= i < |r| ==> r[i].stationType == stationType
  {
    var total := CountBoth(SelfPairs(column));
    if total == 0 then [] else Shares(Head(ValueCounts(column), n), total, stationType)
  }

  /**
   * `get_popular_stations`: the column named `"<type> station name"` is
   * looked up among the table's columns; a missing column is a `KeyError`.
   * The defaults are `type = 'start'` and `n = 10`.
   */
  function GetPopularStations(columns: map<string, seq<Option<string>>>, stationType: string := "start", n: int := 10)
    : (r: Result<seq<StationShare>, Error>)
    ensures r.Failure? <==> stationType + " station name" !in columns
    ensures r.Failure? ==> r.error == KeyError(stationType + " station name")
    ensures r.Success? ==> r.value == PopularShares(columns[stationType + " station name"], stationType, n)
  {
    var name := stationType + " station name";
    if name in columns then Success(PopularShares(columns[name], stationType, n))
    else Failure(KeyError(name))
  }

  /**
   * On the trip table, whose station columns are exactly the start and stop
   * ones, type `start` or `stop` ranks that column and any other type fails.
   */
  lemma TripPopularStations(trips: seq<Trip>, stationType: string, n: int)
    ensures stationType == "start" ==>
      GetPopularStations(StationColumns(trips), stationType, n) == Success(PopularShares(StartStations(trips), stationType, n))
    ensures stationType == "stop" ==>
      GetPopularStations(StationColumns(trips), stationType, n) == Success(PopularShares(StopStations(trips), stationType, n))
    ensures stationType != "start" && stationType != "stop" ==>
      GetPopularStations(StationColumns(trips), stationType, n) == Failure(KeyError(stationType + " station name"))
  {
    assert START_STATION_COL == "start" + " station name";
    assert STOP_STATION_COL == "stop" + " station name";
    StationNameCancels(stationType, "start");
    StationNameCancels(stationType, "stop");
  }

  /** Called with the defaults, the ranking is the ten most popular start stations. */
  lemma PopularStationsDefaults(trips: seq<Trip>)
    ensures GetPopularStations(StationColumns(trips)) == Success(PopularShares(StartStations(trips), "start", 10))
  {
    TripPopularStations(trips, "start", 10);
  }

  lemma StationNameCancels(a: string, b: string)
    ensures a + " station name" == b + " station name" <==> a == b
  {
    if a + " station name" == b + " station name" {
      assert a == (a + " station name")[..|a|];
      assert b == (b + " station name")[..|b|];
    }
  }

  // Properties of the popularity table

  /** The distinct station names of the column. */
  ghost function StationNames(column: seq<Option<string>>): set<string> {
    set i | 0 <= i < |column| && column[i].Some? :: column[i].value
  }

  lemma PercentAdd(a: nat, b: nat, total: nat)
    requires total > 0
    ensures Percent(a, total) + Percent(b, total) == Percent(a + b, total)
  {
  }

  lemma PercentRange(c: nat, total: nat)
    requires 0 < c <= total
    ensures 0.0 < Percent(c, total) <= 100.0
  {
  }

  lemma PercentMonotone(a: nat, b: nat, total: nat)
    requires b <= a && total > 0
    ensures Percent(b, total) <= Percent(a, total)
  {
  }

  lemma {:induction false} SharesSum(top: seq<(string, nat)>, total: nat, stationType: string)
    requires total > 0
    ensures SumPercent(Shares(top, total, stationType)) == Percent(SumCounts(top), total)
  {
    if top != [] {
      var r := Shares(top, total, stationType);
      assert r[1..] == Shares(top[1..], total, stationType);
      SharesSum(top[1..], total, stationType);
      PercentAdd(top[0].1, SumCounts(top[1..]), total);
    }
  }

  /** The number of non-null cells is the `value_counts` normalisation total. */
  lemma NonNullIsTotal(column: seq<Option<string>>)
    ensures CountBoth(SelfPairs(column)) == NonNull(column)
  {
    var cells := SelfPairs(column);
    CountBothIsSize(cells);
    assert (set i | 0 <= i < |cells| && cells[i].0.Some? && cells[i].1.Some?) ==
      (set i | 0 <= i < |column| && column[i].Some?);
  }

  lemma {:induction false} DistinctSetSize<T>(s: seq<T>)
    requires Distinct(s)
    ensures |set x | x in s| == |s|
  {
    if s != [] {
      var n := |s| - 1;
      assert Distinct(s[..n]);
      DistinctSetSize(s[..n]);
      assert s[n] !in s[..n];
      assert (set x | x in s) == (set x | x in s[..n]) + {s[n]};
    }
  }

  /** `value_counts` has one row per distinct station name. */
  lemma ValueCountsLength(column: seq<Option<string>>)
    ensures |ValueCounts(column)| == |StationNames(column)|
  {
    var cells := SelfPairs(column);
    var ks := UniqueKeys(cells);
    assert |ValueCounts(column)| == |multiset(ValueCounts(column))| == |GroupCount(cells)|;
    assert |GroupCount(cells)| == |KeysOf(GroupCount(cells))|;
    DistinctSetSize(ks);
    DistinctSetSize(KeysOf(GroupCount(cells)));
    assert (set x | x in KeysOf(GroupCount(cells))) == StationNames(column) by {
      forall x ensures x in KeysOf(GroupCount(cells)) <==> x in StationNames(column) {
        if x in StationNames(column) {
          var i :| 0 <= i < |column| && column[i].Some? && column[i].value == x;
          assert cells[i].0 == Some(x);
        }
      }
    }
  }

  /** A row of `value_counts` names a station of the column and holds its number of occurrences. */
  lemma ValueCountsRow(column: seq<Option<string>>, row: (string, nat))
    requires row in ValueCounts(column)
    ensures row.1 == Occurrences(column, row.0)
    ensures 0 < row.1 <= NonNull(column)
  {
    var cells := SelfPairs(column);
    assert row in multiset(ValueCounts(column));
    assert row in GroupCount(cells);
    GroupCountRow(cells, row);
    CountNonNullIsSize(cells, row.0);
    var occurrences := set j | 0 <= j < |column| && column[j] == Some(row.0);
    assert (set j | 0 <= j < |cells| && Counted(cells[j], row.0)) == occurrences;
    var j :| 0 <= j < |cells| && cells[j].0 == Some(row.0);
    assert j in occurrences;
    NonNullIsTotal(column);
  }

  /**
   * At most `n` rows (and at most one per distinct station), every row tagged
   * with the requested type.
   */
  lemma PopularSharesShape(column: seq<Option<string>>, stationType: string, n: int)
    ensures n >= 0 ==> |PopularShares(column, stationType, n)| <= n
    ensures |PopularShares(column, stationType, n)| <= |StationNames(column)|
    ensures forall i :: 0 <= i < |PopularShares(column, stationType, n)| ==>
      PopularShares(column, stationType, n)[i].stationType == stationType
  {
    ValueCountsLength(column);
  }

  /**
   * Exactly `n` rows, or one per distinct station when there are fewer; a
   * negative `n` drops that many of the least popular stations.
   */
  lemma PopularSharesLength(column: seq<Option<string>>, stationType: string, n: int)
    ensures n >= 0 ==>
      |PopularShares(column, stationType, n)| == if n <= |StationNames(column)| then n else |StationNames(column)|
    ensures n < 0 ==>
      |PopularShares(column, stationType, n)| == if |StationNames(column)| + n >= 0 then |StationNames(column)| + n else 0
  {
    ValueCountsLength(column);
    NonNullIsTotal(column);
    if NonNull(column) == 0 {
      NoNamesNoStations(column);
    }
  }

  /** Each station appears at most once in the popularity table, as in `value_counts`. */
  lemma PopularSharesDistinct(column: seq<Option<string>>, stationType: string, n: int)
    ensures forall i, j :: 0 <= i < j < |PopularShares(column, stationType, n)| ==>
      PopularShares(column, stationType, n)[i].stationName != PopularShares(column, stationType, n)[j].stationName
  {
    var counts := ValueCounts(column);
    forall i, j | 0 <= i < j < |PopularShares(column, stationType, n)|
      ensures PopularShares(column, stationType, n)[i].stationName != PopularShares(column, stationType, n)[j].stationName
    {
      assert KeysOf(counts)[i] != KeysOf(counts)[j];
    }
  }

  /** Every distinct station of the column has a row in `value_counts`. */
  lemma ValueCountsHasName(column: seq<Option<string>>, x: string) returns (k: nat)
    requires x in StationNames(column)
    ensures k < |ValueCounts(column)| && ValueCounts(column)[k].0 == x
  {
    var cells := SelfPairs(column);
    var i :| 0 <= i < |column| && column[i].Some? && column[i].value == x;
    assert cells[i].0 == Some(x);
    assert x in KeysOf(GroupCount(cells));
    var j :| 0 <= j < |GroupCount(cells)| && KeysOf(GroupCount(cells))[j] == x;
    var row := GroupCount(cells)[j];
    assert row in multiset(GroupCount(cells));
    assert row in multiset(ValueCounts(column));
    k :| 0 <= k < |ValueCounts(column)| && ValueCounts(column)[k] == row;
  }

  /**
   * The ranking keeps the most popular stations: a station of the column
   * that is left out is no more popular than any station that is kept.
   */
  lemma PopularSharesKeepsTop(column: seq<Option<string>>, stationType: string, n: int, x: string, i: int)
    requires x in StationNames(column)
    requires forall j :: 0 <= j < |PopularShares(column, stationType, n)| ==> PopularShares(column, stationType, n)[j].stationName != x
    requires 0 <= i < |PopularShares(column, stationType, n)|
    ensures NonNull(column) > 0
    ensures Percent(Occurrences(column, x), NonNull(column)) <= PopularShares(column, stationType, n)[i].percentage
  {
    var total := CountBoth(SelfPairs(column));
    NonNullIsTotal(column);
    var counts := ValueCounts(column);
    var top := Head(counts, n);
    var k := ValueCountsHasName(column, x);
    assert forall j :: 0 <= j < |top| ==> counts[j].0 != x by {
      forall j | 0 <= j < |top| ensures counts[j].0 != x {
        assert top[j] == counts[j];
        assert PopularShares(column, stationType, n)[j].stationName == top[j].0;
      }
    }
    assert i < |top| <= k;
    assert counts[i] == top[i];
    ValueCountsRow(column, counts[k]);
    PercentMonotone(counts[i].1, counts[k].1, total);
  }

  /** Each row is a station of the column, with its share of the non-null rows, in (0, 100]. */
  lemma PopularSharesRows(column: seq<Option<string>>, stationType: string, n: int, i: int)
    requires 0 <= i < |PopularShares(column, stationType, n)|
    ensures NonNull(column) > 0
    ensures var row := PopularShares(column, stationType, n)[i];
      && Some(row.stationName) in column
      && row.percentage == Percent(Occurrences(column, row.stationName), NonNull(column))
      && 0.0 < row.percentage <= 100.0
  {
    var total := CountBoth(SelfPairs(column));
    var top := Head(ValueCounts(column), n);
    assert top[i] in ValueCounts(column);
    ValueCountsRow(column, top[i]);
    NonNullIsTotal(column);
    PercentRange(top[i].1, total);
    var name := top[i].0;
    var occ := set j | 0 <= j < |column| && column[j] == Some(name);
    assert occ != {};
    var j :| j in occ;
    assert column[j] == Some(name);
  }

  /** The percentages never increase down the table. */
  lemma PopularSharesOrder(column: seq<Option<string>>, stationType: string, n: int)
    ensures forall i, j :: 0 <= i < j < |PopularShares(column, stationType, n)| ==>
      PopularShares(column, stationType, n)[i].percentage >= PopularShares(column, stationType, n)[j].percentage
  {
    var total := CountBoth(SelfPairs(column));
    if total > 0 {
      var top := Head(ValueCounts(column), n);
      forall i, j | 0 <= i < j < |top|
        ensures PopularShares(column, stationType, n)[i].percentage >= PopularShares(column, stationType, n)[j].percentage
      {
        assert top[i] == ValueCounts(column)[i] && top[j] == ValueCounts(column)[j];
        PercentMonotone(top[i].1, top[j].1, total);
      }
    }
  }

  /** A column without any station name has no distinct stations. */
  lemma NoNamesNoStations(column: seq<Option<string>>)
    requires NonNull(column) == 0
    ensures StationNames(column) == {}
  {
    if StationNames(column) != {} {
      var x :| x in StationNames(column);
      var i :| 0 <= i < |column| && column[i].Some? && column[i].value == x;
      NameIsCounted(column, i);
    }
  }

  lemma NameIsCounted(column: seq<Option<string>>, i: int)
    requires 0 <= i < |column| && column[i].Some?
    ensures NonNull(column) > 0
  {
    var present := set j | 0 <= j < |column| && column[j].Some?;
    assert NonNull(column) == |present|;
    assert i in present;
    assert present != {};
  }

  /** `value_counts` counts every non-null row once. */
  lemma ValueCountsSum(column: seq<Option<string>>)
    ensures SumCounts(ValueCounts(column)) == NonNull(column)
  {
    var cells := SelfPairs(column);
    GroupCountSum(cells);
    CountBothIsSize(cells);
    NonNullIsTotal(column);
  }

  lemma PercentOfTotal(total: nat)
    requires total > 0
    ensures Percent(total, total) == 100.0
  {
  }

  /** The shares of the first rows of `value_counts`, as a percentage of all non-null rows. */
  lemma TopSharesSum(column: seq<Option<string>>, stationType: string, n: int)
    requires NonNull(column) > 0
    ensures SumPercent(PopularShares(column, stationType, n)) == Percent(SumCounts(Head(ValueCounts(column), n)), NonNull(column))
    ensures SumCounts(Head(ValueCounts(column), n)) <= NonNull(column)
  {
    NonNullIsTotal(column);
    var counts := ValueCounts(column);
    var top := Head(counts, n);
    SharesSum(top, NonNull(column), stationType);
    PrefixSumAtMost(counts, |top|);
    ValueCountsSum(column);
  }

  /**
   * The percentages add up to at most 100, and to exactly 100 when the table
   * keeps every station (there is at least one and at most `n`).
   */
  lemma PopularSharesSum(column: seq<Option<string>>, stationType: string, n: int)
    ensures SumPercent(PopularShares(column, stationType, n)) <= 100.0
    ensures 0 < |StationNames(column)| <= n ==> SumPercent(PopularShares(column, stationType, n)) == 100.0
  {
    var total := NonNull(column);
    NonNullIsTotal(column);
    if total > 0 {
      var counts := ValueCounts(column);
      var top := Head(counts, n);
      TopSharesSum(column, stationType, n);
      PercentMonotone(total, SumCounts(top), total);
      PercentOfTotal(total);
      if 0 < |StationNames(column)| <= n {
        ValueCountsLength(column);
        assert top == counts;
        ValueCountsSum(column);
      }
    } else {
      NoNamesNoStations(column);
    }
  }
}
