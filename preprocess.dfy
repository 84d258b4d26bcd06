/**
 * Column typing and derivation on the trip table (`cast_bike_types`,
 * `attach_additional_bike_columns`). Both operations assign columns of the
 * table they are given, in place, and return that same table.
 */
module Preprocess {
  import opened Wrappers

  const RIDES_YEAR: int := 2016
  const SECONDS_PER_MINUTE: real := 60.0
  const SECONDS_PER_HOUR: real := 3600.0  // 60 * 60

  /** A parsed date and time; its fields are what the `.dt` accessors read. */
  datatype Timestamp = Timestamp(year: int, month: int, day: int, hour: int, minute: int, second: int)

  /** A cell of the `gender` column: the raw numeric code, or the label it was replaced with. */
  datatype Gender = Code(code: int) | Label(name: string)

  const UNKNOWN: string := "unknown"
  const MALE: string := "male"
  const FEMALE: string := "female"

  /** `replace({0: 'unknown', 1: 'male', 2: 'female'})` on one cell. */
  function GenderLabel(g: Gender): (r: Gender)
    ensures r != g ==> g.Code? && 0 <= g.code <= 2 && r.Label?
  {
    match g
    case Code(0) => Label(UNKNOWN)
    case Code(1) => Label(MALE)
    case Code(2) => Label(FEMALE)
    case _ => g
  }

  /**
   * Codes 0, 1 and 2 become three different labels; any other cell is left
   * as it is, without an error; mapping a mapped cell again changes nothing.
   */
  lemma GenderLabelFacts(g: Gender)
    ensures g == Code(0) ==> GenderLabel(g) == Label("unknown")
    ensures g == Code(1) ==> GenderLabel(g) == Label("male")
    ensures g == Code(2) ==> GenderLabel(g) == Label("female")
    ensures !(g.Code? && 0 <= g.code <= 2) ==> GenderLabel(g) == g
    ensures GenderLabel(GenderLabel(g)) == GenderLabel(g)
  {
  }

  function MapGender(column: seq<Gender>): (r: seq<Gender>)
    ensures |r| == |column| && forall i :: 0 <= i < |column| ==> r[i] == GenderLabel(column[i])
  {
    seq(|column|, i requires 0 <= i < |column| => GenderLabel(column[i]))
  }

  /** `2016 - birth year` on a nullable integer: a null birth year gives a null age. */
  function Age(birthYear: Option<int>): (age: Option<int>)
    ensures age.Some? <==> birthYear.Some?
    ensures age.Some? ==> birthYear.value + age.value == RIDES_YEAR
  {
    match birthYear
    case None => None
    case Some(y) => Some(RIDES_YEAR - y)
  }

  /** Month, day, hour and minute of each start time. */
  ghost predicate StartColumns(start: seq<Timestamp>, month: seq<int>, day: seq<int>, hour: seq<int>, minute: seq<int>) {
    && |month| == |day| == |hour| == |minute| == |start|
    && forall i :: 0 <= i < |start| ==>
         month[i] == start[i].month && day[i] == start[i].day && hour[i] == start[i].hour && minute[i] == start[i].minute
  }

  /** Hour and minute of each stop time. */
  ghost predicate StopColumns(stop: seq<Timestamp>, hour: seq<int>, minute: seq<int>) {
    && |hour| == |minute| == |stop|
    && forall i :: 0 <= i < |stop| ==> hour[i] == stop[i].hour && minute[i] == stop[i].minute
  }

  /** The age in the rides year, null where the birth year is null. */
  ghost predicate AgeColumn(birthYear: seq<Option<int>>, age: seq<Option<int>>) {
    |age| == |birthYear| && forall i :: 0 <= i < |birthYear| ==> age[i] == Age(birthYear[i])
  }

  /** The duration converted from seconds to minutes and to hours. */
  ghost predicate DurationColumns(seconds: seq<int>, minutes: seq<real>, hours: seq<real>) {
    && |minutes| == |hours| == |seconds|
    && forall i :: 0 <= i < |seconds| ==>
         minutes[i] == seconds[i] as real / SECONDS_PER_MINUTE && hours[i] == seconds[i] as real / SECONDS_PER_HOUR
  }

  /** The month, day, hour and minute columns read from the start times. */
  function StartParts(start: seq<Timestamp>): (r: (seq<int>, seq<int>, seq<int>, seq<int>))
    ensures StartColumns(start, r.0, r.1, r.2, r.3)
  {
    var n := |start|;
    (seq(n, i requires 0 <= i < n => start[i].month), seq(n, i requires 0 <= i < n => start[i].day),
     seq(n, i requires 0 <= i < n => start[i].hour), seq(n, i requires 0 <= i < n => start[i].minute))
  }

  /** The hour and minute columns read from the stop times. */
  function StopParts(stop: seq<Timestamp>): (r: (seq<int>, seq<int>))
    ensures StopColumns(stop, r.0, r.1)
  {
    var n := |stop|;
    (seq(n, i requires 0 <= i < n => stop[i].hour), seq(n, i requires 0 <= i < n => stop[i].minute))
  }

  /** The age column. */
  function Ages(birthYear: seq<Option<int>>): (r: seq<Option<int>>)
    ensures AgeColumn(birthYear, r)
  {
    seq(|birthYear|, i requires 0 <= i < |birthYear| => Age(birthYear[i]))
  }

  /** The duration in minutes and in hours. */
  function Durations(seconds: seq<int>): (r: (seq<real>, seq<real>))
    ensures DurationColumns(seconds, r.0, r.1)
  {
    var n := |seconds|;
    (seq(n, i requires 0 <= i < n => seconds[i] as real / SECONDS_PER_MINUTE),
     seq(n, i requires 0 <= i < n => seconds[i] as real / SECONDS_PER_HOUR))
  }

  /**
   * The trip table. The raw columns are set when the table is built; the
   * derived ones are empty until `AttachAdditionalBikeColumns` assigns them.
   */
  class BikesFrame {
    var starttime: seq<Timestamp>
    var stoptime: seq<Timestamp>
    var tripduration: seq<int>  // seconds
    var birthYear: seq<Option<int>>
    var gender: seq<Gender>
    var usertype: seq<string>

    var month: seq<int>
    var day: seq<int>
    var startHour: seq<int>
    var startMinute: seq<int>
    var stopHour: seq<int>
    var stopMinute: seq<int>
    var age: seq<Option<int>>
    var tripdurationMinutes: seq<real>
    var tripdurationHours: seq<real>

    function Rows(): nat
      reads this
    {
      |starttime|
    }

    /** Every raw column has one cell per row. */
    ghost predicate Valid()
      reads this
    {
      && |stoptime| == Rows()
      && |tripduration| == Rows()
      && |birthYear| == Rows()
      && |gender| == Rows()
      && |usertype| == Rows()
    }

    /** The derived columns are present and agree, row by row, with the raw columns they come from. */
    ghost predicate HasDerivedColumns()
      reads this
    {
      && Valid()
      && StartColumns(starttime, month, day, startHour, startMinute)
      && StopColumns(stoptime, stopHour, stopMinute)
      && AgeColumn(birthYear, age)
      && DurationColumns(tripduration, tripdurationMinutes, tripdurationHours)
    }

    constructor (starttime: seq<Timestamp>, stoptime: seq<Timestamp>, tripduration: seq<int>,
                 birthYear: seq<Option<int>>, gender: seq<Gender>, usertype: seq<string>)
      requires |stoptime| == |tripduration| == |birthYear| == |gender| == |usertype| == |starttime|
      ensures Valid()
      ensures this.starttime == starttime && this.stoptime == stoptime && this.tripduration == tripduration
      ensures this.birthYear == birthYear && this.gender == gender && this.usertype == usertype
      ensures month == day == startHour == startMinute == stopHour == stopMinute == []
      ensures age == [] && tripdurationMinutes == [] && tripdurationHours == []
    {
      this.starttime := starttime;
      this.stoptime := stoptime;
      this.tripduration := tripduration;
      this.birthYear := birthYear;
      this.gender := gender;
      this.usertype := usertype;
      month, day, startHour, startMinute, stopHour, stopMinute := [], [], [], [], [], [];
      age, tripdurationMinutes, tripdurationHours := [], [], [];
    }
  }

  /**
   * `cast_bike_types`: the gender codes are replaced by their labels; the
   * birth year and user type keep their values (their casts change only the
   * column's type). The table is changed in place and returned.
   */
  method CastBikeTypes(bikes: BikesFrame) returns (r: BikesFrame)
    requires bikes.Valid()
    modifies bikes`gender
    ensures r == bikes && bikes.Valid() && bikes.Rows() == old(bikes.Rows())
    ensures |bikes.gender| == |old(bikes.gender)|
    ensures forall i :: 0 <= i < |bikes.gender| ==> bikes.gender[i] == GenderLabel(old(bikes.gender[i]))
    ensures bikes.birthYear == old(bikes.birthYear) && bikes.usertype == old(bikes.usertype)
  {
    bikes.gender := MapGender(bikes.gender);
    r := bikes;
  }

  /**
   * `attach_additional_bike_columns`: month, day, start hour and minute from
   * the start time; stop hour and minute from the stop time; age from the
   * birth year; the duration in minutes and in hours. The table is changed in
   * place and returned; its raw columns are not touched.
   */
  method AttachAdditionalBikeColumns(bikes: BikesFrame) returns (r: BikesFrame)
    requires bikes.Valid()
    modifies bikes`month, bikes`day, bikes`startHour, bikes`startMinute, bikes`stopHour, bikes`stopMinute
    modifies bikes`age, bikes`tripdurationMinutes, bikes`tripdurationHours
    ensures r == bikes && bikes.Valid() && bikes.HasDerivedColumns()
    ensures bikes.Rows() == old(bikes.Rows())
    ensures bikes.starttime == old(bikes.starttime) && bikes.stoptime == old(bikes.stoptime)
    ensures bikes.tripduration == old(bikes.tripduration) && bikes.birthYear == old(bikes.birthYear)
    ensures bikes.gender == old(bikes.gender) && bikes.usertype == old(bikes.usertype)
  {
    var start := StartParts(bikes.starttime);
    var stop := StopParts(bikes.stoptime);
    var age := Ages(bikes.birthYear);
    var duration := Durations(bikes.tripduration);
    bikes.month, bikes.day, bikes.startHour, bikes.startMinute := start.0, start.1, start.2, start.3;
    bikes.stopHour, bikes.stopMinute := stop.0, stop.1;
    bikes.age, bikes.tripdurationMinutes, bikes.tripdurationHours := age, duration.0, duration.1;
    r := bikes;
  }

  /** Once the derived columns are attached, each duration in hours is the duration in minutes over 60. */
  lemma HoursAreMinutesOverSixty(bikes: BikesFrame, i: int)
    requires bikes.HasDerivedColumns()
    requires 0 <= i < bikes.Rows()
    ensures bikes.tripdurationHours[i] == bikes.tripdurationMinutes[i] / 60.0
    ensures bikes.tripdurationMinutes[i] <= 60.0 <==> bikes.tripduration[i] <= 3600
  {
  }
}
