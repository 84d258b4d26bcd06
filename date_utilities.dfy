/**
 * Validation and zero-prefixing of the start and stop time columns of the
 * trip table (`format_bike_times`).
 *
 * Each value is searched, anywhere in the string, for the pattern
 * `<month>/<one or two digits>/<year>`, where `<month>` is a single
 * character drawn from a character range: `2` for the start column and
 * `2`-`3` for the stop column, and the year is `2016`.
 */
module DateUtilities {
  import opened Wrappers

  const RIDES_YEAR: string := "2016"
  const RIDES_MONTH: char := '2'
  const RIDES_NEXT_MONTH: char := '3'
  const START_TIME_COL: string := "starttime"
  const STOP_TIME_COL: string := "stoptime"
  const INVALID_DATE_EXCEPTION_MSG: string := "Start and end dates are not all in the correct format!"

  /** The regular expression `[monthLo-monthHi]/[0-9]{1,2}/year`. */
  datatype DatePattern = DatePattern(monthLo: char, monthHi: char, year: string)

  /** `2/[0-9]{1,2}/2016` */
  const START_PATTERN: DatePattern := DatePattern(RIDES_MONTH, RIDES_MONTH, RIDES_YEAR)
  /** `[2-3]/[0-9]{1,2}/2016` */
  const STOP_PATTERN: DatePattern := DatePattern(RIDES_MONTH, RIDES_NEXT_MONTH, RIDES_YEAR)

  datatype Error = Exception(message: string)

  /** One row of the frame: the two time columns and whatever else the row holds. */
  datatype TimeRow<R> = TimeRow(starttime: string, stoptime: string, rest: R)

  predicate IsDigit(c: char) { '0' <= c <= '9' }

  predicate InMonthClass(p: DatePattern, c: char) { p.monthLo <= c <= p.monthHi }

  /** `w`, as a whole, is a word of the pattern's language. */
  ghost predicate Spells(p: DatePattern, w: string) {
    var d := |w| - |p.year| - 3;  // how many day digits
    && (d == 1 || d == 2)
    && InMonthClass(p, w[0])
    && w[1] == '/'
    && (forall k :: 2 <= k < 2 + d ==> IsDigit(w[k]))
    && w[2 + d] == '/'
    && w[3 + d..] == p.year
  }

  /** An unanchored regex search: some substring of `s` is a word of the pattern. */
  ghost predicate ContainsMatch(p: DatePattern, s: string) {
    exists i, j :: 0 <= i <= j <= |s| && Spells(p, s[i..j])
  }

  /** The pattern, tried at position `i` with one day digit and then with two. */
  predicate MatchesAt(p: DatePattern, s: string, i: nat) {
    var y := |p.year|;
    && i + 2 < |s|
    && InMonthClass(p, s[i])
    && s[i + 1] == '/'
    && IsDigit(s[i + 2])
    && (|| (i + 4 + y <= |s| && s[i + 3] == '/' && s[i + 4..i + 4 + y] == p.year)
        || (i + 5 + y <= |s| && IsDigit(s[i + 3]) && s[i + 4] == '/' && s[i + 5..i + 5 + y] == p.year))
  }

  lemma MatchesAtSpells(p: DatePattern, s: string, i: nat)
    requires i <= |s|
    ensures MatchesAt(p, s, i) <==> exists j :: i <= j <= |s| && Spells(p, s[i..j])
  {
    var y := |p.year|;
    if MatchesAt(p, s, i) {
      if i + 4 + y <= |s| && s[i + 3] == '/' && s[i + 4..i + 4 + y] == p.year {
        var w := s[i..i + 4 + y];
        assert w[4..] == s[i + 4..i + 4 + y];
        assert Spells(p, w);
      } else {
        var w := s[i..i + 5 + y];
        assert w[5..] == s[i + 5..i + 5 + y];
        assert Spells(p, w);
      }
    }
    if j :| i <= j <= |s| && Spells(p, s[i..j]) {
      var w := s[i..j];
      var d := |w| - y - 3;
      assert w[3 + d..] == s[i + 3 + d..j];
      if d == 1 {
        assert IsDigit(w[2]);
      } else {
        assert IsDigit(w[2]) && IsDigit(w[3]);
      }
      assert MatchesAt(p, s, i);
    }
  }

  /** Scans the positions `from`, `from + 1`, ... of `s` for a match. */
  function SearchFrom(p: DatePattern, s: string, from: nat): (r: bool)
    requires from <= |s|
    ensures r <==> exists i :: from <= i <= |s| && MatchesAt(p, s, i)
    decreases |s| - from
  {
    if MatchesAt(p, s, from) then true
    else if from == |s| then false
    else SearchFrom(p, s, from + 1)
  }

  /** The scanner finds a match exactly when the regex search does. */
  lemma SearchFindsMatch(p: DatePattern, s: string)
    ensures SearchFrom(p, s, 0) <==> ContainsMatch(p, s)
  {
    if SearchFrom(p, s, 0) {
      var i :| 0 <= i <= |s| && MatchesAt(p, s, i);
      MatchesAtSpells(p, s, i);
    }
    if ContainsMatch(p, s) {
      var i, j :| 0 <= i <= j <= |s| && Spells(p, s[i..j]);
      MatchesAtSpells(p, s, i);
    }
  }

  /** `str.contains(pattern)` on one value. */
  function Contains(p: DatePattern, s: string): (r: bool)
    ensures r <==> ContainsMatch(p, s)
  {
    SearchFindsMatch(p, s);
    SearchFrom(p, s, 0)
  }

  /** The column named `starttime` is checked against the start pattern, every other name against the stop pattern. */
  function PatternFor(name: string): (p: DatePattern)
    ensures p.year == RIDES_YEAR && p.monthLo == RIDES_MONTH
    ensures p.monthHi == if name == START_TIME_COL then RIDES_MONTH else RIDES_NEXT_MONTH
  {
    if name == START_TIME_COL then START_PATTERN else STOP_PATTERN
  }

  /** `is_bike_time_correct`: one boolean per value of the named column. */
  function IsBikeTimeCorrect(name: string, column: seq<string>): (r: seq<bool>)
    ensures |r| == |column|
    ensures name == START_TIME_COL ==> forall i :: 0 <= i < |column| ==> (r[i] <==> ContainsMatch(START_PATTERN, column[i]))
    ensures name != START_TIME_COL ==> forall i :: 0 <= i < |column| ==> (r[i] <==> ContainsMatch(STOP_PATTERN, column[i]))
  {
    seq(|column|, i requires 0 <= i < |column| => Contains(PatternFor(name), column[i]))
  }

  function CountTrue(bs: seq<bool>): (c: nat)
    ensures c <= |bs|
  {
    if bs == [] then 0 else (if bs[0] then 1 else 0) + CountTrue(bs[1..])
  }

  /**
   * pandas `mean() < 1` over a boolean column. The mean of an empty column is
   * NaN, and a comparison with NaN is false.
   */
  predicate MeanBelowOne(bs: seq<bool>): (b: bool)
    ensures b ==> |bs| > 0
  {
    |bs| > 0 && (CountTrue(bs) as real) / (|bs| as real) < 1.0
  }

  lemma {:induction false} AllTrueCount(bs: seq<bool>)
    ensures CountTrue(bs) == |bs| <==> forall i :: 0 <= i < |bs| ==> bs[i]
  {
    if bs != [] {
      AllTrueCount(bs[1..]);
      if forall i :: 0 <= i < |bs| ==> bs[i] {
        assert forall i :: 0 <= i < |bs| - 1 ==> bs[1..][i];
      }
      if CountTrue(bs) == |bs| {
        assert bs[0];
        forall i | 0 <= i < |bs| ensures bs[i] {
          if i > 0 { assert bs[1..][i - 1] == bs[i]; }
        }
      }
    }
  }

  /** The mean test fires exactly when some value is false. */
  lemma MeanBelowOneIffSomeFalse(bs: seq<bool>)
    ensures MeanBelowOne(bs) <==> exists i :: 0 <= i < |bs| && !bs[i]
  {
    AllTrueCount(bs);
    if |bs| > 0 {
      var c, n := CountTrue(bs) as real, |bs| as real;
      assert c / n < 1.0 <==> c < n;
    }
  }

  function StartTimes<R>(df: seq<TimeRow<R>>): (r: seq<string>)
    ensures |r| == |df| && forall i :: 0 <= i < |df| ==> r[i] == df[i].starttime
  {
    seq(|df|, i requires 0 <= i < |df| => df[i].starttime)
  }

  function StopTimes<R>(df: seq<TimeRow<R>>): (r: seq<string>)
    ensures |r| == |df| && forall i :: 0 <= i < |df| ==> r[i] == df[i].stoptime
  {
    seq(|df|, i requires 0 <= i < |df| => df[i].stoptime)
  }

  /** Some value of either time column fails its pattern. */
  ghost predicate HasInvalidTime<R>(df: seq<TimeRow<R>>) {
    exists i :: 0 <= i < |df| && (!ContainsMatch(START_PATTERN, df[i].starttime) || !ContainsMatch(STOP_PATTERN, df[i].stoptime))
  }

  /**
   * `format_bike_times` up to the parsing step: all-or-nothing validation of
   * both columns, then `'0'` prepended to every value of both columns.
   */
  function FormatBikeTimes<R>(df: seq<TimeRow<R>>): (r: Result<seq<TimeRow<R>>, Error>)
    ensures r.Failure? <==> HasInvalidTime(df)
    ensures r.Failure? ==> r.error == Exception(INVALID_DATE_EXCEPTION_MSG)
    ensures r.Success? ==> |r.value| == |df|
    ensures r.Success? ==> forall i :: 0 <= i < |df| ==>
      r.value[i] == TimeRow("0" + df[i].starttime, "0" + df[i].stoptime, df[i].rest)
  {
    var startOk := IsBikeTimeCorrect(START_TIME_COL, StartTimes(df));
    var stopOk := IsBikeTimeCorrect(STOP_TIME_COL, StopTimes(df));
    MeanBelowOneIffSomeFalse(startOk);
    MeanBelowOneIffSomeFalse(stopOk);
    if MeanBelowOne(startOk) || MeanBelowOne(stopOk) then
      Failure(Exception(INVALID_DATE_EXCEPTION_MSG))
    else
      Success(seq(|df|, i requires 0 <= i < |df| => TimeRow("0" + df[i].starttime, "0" + df[i].stoptime, df[i].rest)))
  }

  /** An empty frame passes validation. */
  lemma EmptyFrameFormats<R>()
    ensures FormatBikeTimes<R>([]) == Success([])
  {
  }

  /** The stop pattern accepts exactly the month characters `2` and `3`. */
  lemma StopMonthClass(c: char)
    ensures InMonthClass(STOP_PATTERN, c) <==> c == '2' || c == '3'
    ensures InMonthClass(START_PATTERN, c) <==> c == '2'
  {
  }

  /** Every value the start pattern accepts, the stop pattern accepts too. */
  lemma StartMatchIsStopMatch(s: string)
    requires ContainsMatch(START_PATTERN, s)
    ensures ContainsMatch(STOP_PATTERN, s)
  {
  }

  /** A match survives prepending characters, since the search is unanchored. */
  lemma {:induction false} PrefixKeepsMatch(p: DatePattern, pre: string, s: string)
    requires ContainsMatch(p, s)
    ensures ContainsMatch(p, pre + s)
  {
    var i, j :| 0 <= i <= j <= |s| && Spells(p, s[i..j]);
    var t := pre + s;
    assert t[|pre| + i..|pre| + j] == s[i..j];
  }

  /**
   * The search is unanchored: a December date such as `12/5/2016` contains
   * `2/5/2016` and passes the start check.
   */
  lemma StartAcceptsOtherMonths()
    ensures ContainsMatch(START_PATTERN, "12/5/2016 00:07:34")
  {
    var s := "12/5/2016 00:07:34";
    assert s[1..9] == "2/5/2016";
    assert Spells(START_PATTERN, s[1..9]);
  }

  /**
   * A March start time is refused by the start check, while the stop check,
   * which allows a ride to end in March, accepts it.
   */
  lemma MarchOnlyStops()
    ensures !ContainsMatch(START_PATTERN, "3/1/2016 00:07:34")
    ensures ContainsMatch(STOP_PATTERN, "3/1/2016 00:07:34")
  {
    var s := "3/1/2016 00:07:34";
    assert s[0..8] == "3/1/2016";
    assert Spells(STOP_PATTERN, s[0..8]);
    forall i, j | 0 <= i <= j <= |s| ensures !Spells(START_PATTERN, s[i..j]) {
      MatchesAtSpells(START_PATTERN, s, i);
    }
  }

  /** Every value of a formatted frame still matches its pattern. */
  lemma FormattedIsValid<R>(df: seq<TimeRow<R>>)
    requires FormatBikeTimes(df).Success?
    ensures !HasInvalidTime(FormatBikeTimes(df).value)
  {
    var once := FormatBikeTimes(df).value;
    forall i | 0 <= i < |once|
      ensures ContainsMatch(START_PATTERN, once[i].starttime) && ContainsMatch(STOP_PATTERN, once[i].stoptime)
    {
      PrefixKeepsMatch(START_PATTERN, "0", df[i].starttime);
      PrefixKeepsMatch(STOP_PATTERN, "0", df[i].stoptime);
    }
  }

  /**
   * Formatting a formatted frame succeeds again and prepends a second `'0'`:
   * the prefix is unconditional and the check does not notice it.
   */
  lemma FormatTwice<R>(df: seq<TimeRow<R>>)
    requires FormatBikeTimes(df).Success?
    ensures FormatBikeTimes(FormatBikeTimes(df).value).Success?
    ensures forall i :: 0 <= i < |df| ==>
      FormatBikeTimes(FormatBikeTimes(df).value).value[i].starttime == "00" + df[i].starttime
    ensures forall i :: 0 <= i < |df| ==>
      FormatBikeTimes(FormatBikeTimes(df).value).value[i].stoptime == "00" + df[i].stoptime
  {
    var once := FormatBikeTimes(df).value;
    FormattedIsValid(df);
    var twice := FormatBikeTimes(once).value;
    forall i | 0 <= i < |df| ensures twice[i].starttime == "00" + df[i].starttime {
      PrependTwice(twice[i].starttime, once[i].starttime, df[i].starttime);
    }
    forall i | 0 <= i < |df| ensures twice[i].stoptime == "00" + df[i].stoptime {
      PrependTwice(twice[i].stoptime, once[i].stoptime, df[i].stoptime);
    }
  }

  /** A value formatted twice carries the prefix `"00"`. */
  lemma PrependTwice(twice: string, once: string, s: string)
    requires once == "0" + s && twice == "0" + once
    ensures twice == "00" + s
  {
  }
}
