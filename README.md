# NYC bike-share analysis: a verified model of the data utilities

This project models, in Dafny, the three utility modules of an analysis of
the New York City bike-share trips of February 2016:

- **Date validation** (`src/utilities/date_utilities.py`). The start and stop
  time columns are checked against the patterns `2/[0-9]{1,2}/2016` and
  `[2-3]/[0-9]{1,2}/2016`. If any value fails, the whole table is rejected
  with a fixed message. Otherwise a `'0'` is prepended to every time value.
  Module `DateUtilities`, file `date_utilities.dfy`.
- **Aggregations** (`src/utilities/aggregation_utilities.py`):
  - rides per day;
  - rides per average temperature;
  - mean trip duration per day, over trips of at most 60 minutes;
  - the join of the mean table with the per-day counts;
  - the `n` most popular start or stop stations, as percentages.

  These are the modules `Grouping` (`grouping.dfy`) and `Aggregation`
  (`aggregation.dfy`). `Grouping` holds the generic table operations
  (group-by count, group-by mean, inner join, `value_counts` and `head`).
  `Aggregation` applies them to the trip table.
- **Preprocessing** (`src/utilities/preprocess.py`). Gender codes become
  labels, and derived columns are attached: calendar parts, age, and the
  duration in minutes and hours. The source updates the table in place, so
  the model is a class `Preprocess.BikesFrame` with one field per column,
  and two methods that assign those fields. Module `Preprocess`, file
  `preprocess.dfy`.
- **A worked example** (`scenario.dfy`, module `Scenario`). Three trips (10
  and 20 minutes on day 1, 5 minutes on day 2) give the means 15.0 and 5.0,
  the counts 2 and 1, and the joined rows `(1, 15.0, 2)` and `(2, 5.0, 1)`.

`wrappers.dfy` holds the `Option` and `Result` datatypes. A null cell is
`None`. A raised exception is a `Failure`.

The regular expressions are modelled by two definitions:
- a declarative one, `ContainsMatch`: some substring is a word of the pattern;
- an executable scanner, `Contains`.

The scanner is proved equal to the declarative definition. Means,
percentages and duration conversions use exact `real` arithmetic.

## Model

| member | source | states |
|---|---|---|
| DateUtilities.Contains | src/utilities/date_utilities.py:18-19 | the position-by-position scan (one or two day digits) finds a match exactly when some substring of the value spells month, `/`, 1–2 digits, `/2016` |
| DateUtilities.MatchesAtSpells | src/utilities/date_utilities.py:18-19 | a match starting at position i exists iff some substring starting at i is a word of the pattern |
| DateUtilities.SearchFrom | src/utilities/date_utilities.py:23 | the scan from a position succeeds iff the pattern matches at some later position |
| DateUtilities.SearchFindsMatch | src/utilities/date_utilities.py:23 | the scan from position 0 succeeds iff the value contains a match (unanchored search) |
| DateUtilities.PatternFor | src/utilities/date_utilities.py:18-23 | both patterns have year `2016` and month class starting at `2`; the class ends at `2` for the column `starttime` and at `3` for every other column |
| DateUtilities.IsBikeTimeCorrect | src/utilities/date_utilities.py:21-23 | one flag per value; a series named `starttime` is checked against the start pattern, every other name against the stop pattern, and the choice depends only on the name |
| DateUtilities.StopMonthClass | src/utilities/date_utilities.py:18-19 | the stop pattern's month accepts exactly `2` and `3`; the start pattern's month accepts only `2` |
| DateUtilities.StartMatchIsStopMatch | src/utilities/date_utilities.py:18-19 | every value the start pattern accepts is also accepted by the stop pattern |
| DateUtilities.StartAcceptsOtherMonths | src/utilities/date_utilities.py:18-23 | the search is unanchored: `12/5/2016 00:07:34` passes the start check |
| DateUtilities.MarchOnlyStops | src/utilities/date_utilities.py:18-19 | `3/1/2016 00:07:34` fails the start check and passes the stop check |
| DateUtilities.CountTrue | src/utilities/date_utilities.py:27 | the number of true flags is at most the number of values |
| DateUtilities.AllTrueCount | src/utilities/date_utilities.py:27 | all flags are counted exactly when every flag is true |
| DateUtilities.MeanBelowOne | src/utilities/date_utilities.py:27 | `mean() < 1` on a flag column can only hold for a non-empty column: the mean of an empty column is NaN and compares false |
| DateUtilities.MeanBelowOneIffSomeFalse | src/utilities/date_utilities.py:27-30 | the column's mean is below 1 iff some value fails its pattern; an empty column has no mean and never fails |
| DateUtilities.StartTimes | src/utilities/date_utilities.py:26-27 | the `starttime` column of the table, row by row |
| DateUtilities.StopTimes | src/utilities/date_utilities.py:26-27 | the `stoptime` column of the table, row by row |
| DateUtilities.FormatBikeTimes | src/utilities/date_utilities.py:25-36 | fails exactly when some start or stop value fails its pattern, and then carries the message `Start and end dates are not all in the correct format!`; otherwise keeps the row count and turns each row's times into `'0' + original`, leaving the rest of the row alone |
| DateUtilities.EmptyFrameFormats | src/utilities/date_utilities.py:27-31 | an empty table never fails |
| DateUtilities.PrefixKeepsMatch | src/utilities/date_utilities.py:23-36 | prepending text to a value that matches keeps it matching |
| DateUtilities.FormattedIsValid | src/utilities/date_utilities.py:34-36 | every value of a formatted table still matches its pattern |
| DateUtilities.FormatTwice | src/utilities/date_utilities.py:34-36 | formatting a formatted table succeeds again and gives `"00" + original`: the prefix is added unconditionally |
| DateUtilities.PrependTwice | src/utilities/date_utilities.py:34-36 | prefixing `'0'` to a value already prefixed with `'0'` gives `"00"` followed by the original |
| Grouping.KeysOf | src/utilities/aggregation_utilities.py:6 | the key column of a grouped table, row by row |
| Grouping.UniqueKeys | src/utilities/aggregation_utilities.py:5 | the group keys are the non-null keys of the table, each once |
| Grouping.CountNonNullIsSize | src/utilities/aggregation_utilities.py:6 | a group's count is the number of its rows whose counted column is non-null |
| Grouping.CountBothIsSize | src/utilities/aggregation_utilities.py:6 | the running total counts the rows with a non-null key and a non-null value |
| Grouping.CountsFor | src/utilities/aggregation_utilities.py:6 | one `(key, count)` row per given key |
| Grouping.GroupCount | src/utilities/aggregation_utilities.py:5-6 | `groupby(key).count()[col]`: one row per distinct non-null key, and each count is the number of rows of that key with a non-null value |
| Grouping.HitsDistinct | src/utilities/aggregation_utilities.py:5-6 | with distinct keys, a row is counted under at most one group |
| Grouping.SumCountsSnoc | src/utilities/aggregation_utilities.py:5-6 | appending a row adds to the group counts exactly the groups it is counted under |
| Grouping.SumOfCounts | src/utilities/aggregation_utilities.py:5-6 | when every non-null key is a group, the group counts sum to the rows with key and value both non-null |
| Grouping.ZeroCounts | src/utilities/aggregation_utilities.py:5-6 | the empty table's counts sum to zero under any list of keys |
| Grouping.GroupCountSum | src/utilities/aggregation_utilities.py:5-6 | the counts sum to the number of rows whose key and value are both non-null |
| Grouping.CountAtMostBoth | src/utilities/aggregation_utilities.py:5-6 | no group counts more than the rows with key and value both non-null |
| Grouping.GroupCountRow | src/utilities/aggregation_utilities.py:5-6 | a row of the count table belongs to a key present in the table, and its count is that key's count |
| Grouping.CountKeyPositive | src/utilities/aggregation_utilities.py:23-24 | a key present in the table has at least one row to average |
| Grouping.SumKeyBounded | src/utilities/aggregation_utilities.py:23-24 | if every value of a group is at most b, the group's sum is at most b times its size |
| Grouping.MeansFor | src/utilities/aggregation_utilities.py:24 | one `(key, mean)` row per given key |
| Grouping.GroupMean | src/utilities/aggregation_utilities.py:23-24 | `groupby(key)[col].mean()`: one row per distinct non-null key, holding that key's mean |
| Grouping.QuotientBounded | src/utilities/aggregation_utilities.py:24 | a sum of at most b per item, divided by the number of items, is at most b |
| Grouping.GroupMeanBounded | src/utilities/aggregation_utilities.py:22-24 | if every value is at most b, every group mean is at most b |
| Grouping.Lookup | src/utilities/aggregation_utilities.py:30-34 | the right-hand values of one key are exactly those paired with it |
| Grouping.JoinRow | src/utilities/aggregation_utilities.py:30-34 | one left row combined with each matching right value |
| Grouping.InnerJoin | src/utilities/aggregation_utilities.py:30-34 | `merge(left, right, on=key)`: `(k, a, b)` is a row iff `(k, a)` is on the left and `(k, b)` is on the right |
| Grouping.JoinKeys | src/utilities/aggregation_utilities.py:30-34 | the key column of a joined table, row by row |
| Grouping.LookupUnique | src/utilities/aggregation_utilities.py:30-34 | with distinct right keys, a key matches at most one right row |
| Grouping.LookupAbsent | src/utilities/aggregation_utilities.py:30-34 | a key missing from the right side matches nothing |
| Grouping.JoinUniqueKeys | src/utilities/aggregation_utilities.py:30-34 | with distinct keys on both sides, the joined keys are distinct and the join is no longer than the left side |
| Grouping.RemoveOne | src/utilities/aggregation_utilities.py:30-34 | removing one element shortens the sequence by one and keeps every other element |
| Grouping.DistinctSubsetLength | src/utilities/aggregation_utilities.py:30-34 | a duplicate-free sequence is no longer than any sequence holding all its elements |
| Grouping.JoinKeysAreIntersection | src/utilities/aggregation_utilities.py:30-34 | the joined keys are exactly the keys present on both sides, each once, and the join is no longer than either side |
| Grouping.InsertByCount | src/utilities/aggregation_utilities.py:39 | inserting a row keeps every row (same multiset plus the new one) and the total count grows by the new row's count |
| Grouping.InsertKeepsSorted | src/utilities/aggregation_utilities.py:39 | inserting into a table sorted by decreasing count keeps it sorted |
| Grouping.SortByCountDesc | src/utilities/aggregation_utilities.py:39 | the result is sorted by decreasing count and is a permutation of the input |
| Grouping.DistinctKeysOf | src/utilities/aggregation_utilities.py:39 | a key column is duplicate-free exactly when no two rows share a key |
| Grouping.InsertedFrom | src/utilities/aggregation_utilities.py:39 | every row of an insertion result is the inserted row or an old row |
| Grouping.InsertKeepsDistinct | src/utilities/aggregation_utilities.py:39 | inserting a row whose key is new keeps the keys distinct |
| Grouping.SortKeepsDistinct | src/utilities/aggregation_utilities.py:39 | sorting rows with distinct keys keeps the keys distinct |
| Grouping.SelfPairs | src/utilities/aggregation_utilities.py:38-39 | a column paired with itself, so that it is both key and counted value |
| Grouping.ValueCounts | src/utilities/aggregation_utilities.py:38-39 | `value_counts()`: the per-value counts, a permutation of the group count sorted by decreasing count, with no value on two rows |
| Grouping.Head | src/utilities/aggregation_utilities.py:40 | `head(n)`: the first n rows, or all rows but the last −n when n is negative |
| Grouping.PrefixSumAtMost | src/utilities/aggregation_utilities.py:40 | the first rows of a table count no more than the whole table |
| Aggregation.DayYearCells | src/utilities/aggregation_utilities.py:3-6 | the `day` and `year` columns of the trip table, row by row |
| Aggregation.GetBikeCountsPerDay | src/utilities/aggregation_utilities.py:3-9 | one row per distinct non-null `day`, each counting that day's rows with a non-null `year` |
| Aggregation.BikeCountsPerDaySum | src/utilities/aggregation_utilities.py:3-9 | the per-day counts sum to the number of rows with both `day` and `year` present |
| Aggregation.TemperatureDurationCells | src/utilities/aggregation_utilities.py:12-15 | the `average temperature` and `tripduration` columns, row by row |
| Aggregation.GetBikeCountsByAvgTemperature | src/utilities/aggregation_utilities.py:12-18 | one row per distinct non-null average temperature, each counting that temperature's rows with a non-null `tripduration` |
| Aggregation.BikeCountsByAvgTemperatureSum | src/utilities/aggregation_utilities.py:12-18 | the per-temperature counts sum to the number of rows with both fields present |
| Aggregation.Included | src/utilities/aggregation_utilities.py:22 | a trip passes the `<= 60` filter only if its duration in minutes is present; a null duration compares false |
| Aggregation.IncludedDurations | src/utilities/aggregation_utilities.py:22 | the filter keeps only durations of at most 60 minutes |
| Aggregation.IncludedDurationsFacts | src/utilities/aggregation_utilities.py:22-24 | the filtered table holds exactly the included trips of each day: the same days, counts and sums |
| Aggregation.GetMeanTripDurations | src/utilities/aggregation_utilities.py:21-27 | one row per day with at least one trip of at most 60 minutes; each mean is the sum of that day's included durations over their count, and is at most 60 |
| Aggregation.OutlierDayHasNoMean | src/utilities/aggregation_utilities.py:22 | a day whose trips all exceed 60 minutes, or have no duration, has no row |
| Aggregation.GetAverageDurationsAndCounts | src/utilities/aggregation_utilities.py:29-35 | `(day, mean, count)` is a row iff `(day, mean)` is in the mean table and `(day, count)` is in the count table |
| Aggregation.MeanDaysHaveCounts | src/utilities/aggregation_utilities.py:29-35 | every day of the mean table is also in the count table |
| Aggregation.AverageDurationsAndCountsDays | src/utilities/aggregation_utilities.py:29-35 | the joined days are exactly the days with an included trip, each once; the join has as many rows as the mean table and no more than the count table |
| Aggregation.AverageDurationsAndCountsValues | src/utilities/aggregation_utilities.py:29-35 | each joined row carries a mean of at most 60 and that day's count over all its trips, not only the short ones |
| Aggregation.StartStations | src/utilities/aggregation_utilities.py:38 | the `start station name` column, row by row |
| Aggregation.StopStations | src/utilities/aggregation_utilities.py:38 | the `stop station name` column, row by row |
| Aggregation.StationColumns | src/utilities/aggregation_utilities.py:38 | the trip table has exactly the station columns `start station name` and `stop station name`, holding the start and stop stations |
| Aggregation.Percent | src/utilities/aggregation_utilities.py:39-41 | the percentage times the total is 100 times the count: `normalize=True` divides by the total and `multiply(100)` scales |
| Aggregation.PopularShares | src/utilities/aggregation_utilities.py:39-45 | the `value_counts(normalize=True).head(n).multiply(100)` table of one column: at most n rows for n ≥ 0, each with `Type` equal to the type |
| Aggregation.Shares | src/utilities/aggregation_utilities.py:39-45 | one row per counted station: its name, its count as a percentage of the non-null total, and the requested type |
| Aggregation.GetPopularStations | src/utilities/aggregation_utilities.py:37-46 | fails with a `KeyError` naming `"<type> station name"` exactly when the table has no column of that name; otherwise ranks that column, with `Type` set to the type; the defaults are `type = "start"` and `n = 10` |
| Aggregation.TripPopularStations | src/utilities/aggregation_utilities.py:37-46 | on the trip table, type `start` or `stop` ranks that station column and any other type fails with a `KeyError` naming the missing column |
| Aggregation.PopularStationsDefaults | src/utilities/aggregation_utilities.py:37 | called with the defaults, the result ranks the start stations and keeps the top 10 |
| Aggregation.StationNameCancels | src/utilities/aggregation_utilities.py:38 | two types name the same column only if they are equal |
| Aggregation.PercentAdd | src/utilities/aggregation_utilities.py:39-41 | percentages of one total add up like the counts they come from |
| Aggregation.PercentRange | src/utilities/aggregation_utilities.py:39-41 | a positive count no larger than the total is a percentage in (0, 100] |
| Aggregation.PercentMonotone | src/utilities/aggregation_utilities.py:39-41 | a smaller count gives a smaller or equal percentage |
| Aggregation.SharesSum | src/utilities/aggregation_utilities.py:39-41 | the percentages of the rows add up to the percentage of their total count |
| Aggregation.NonNullIsTotal | src/utilities/aggregation_utilities.py:39 | the normalising total is the number of non-null station names |
| Aggregation.DistinctSetSize | src/utilities/aggregation_utilities.py:39 | a duplicate-free sequence has as many elements as its set |
| Aggregation.ValueCountsLength | src/utilities/aggregation_utilities.py:39 | the ranking has one row per distinct non-null station name |
| Aggregation.ValueCountsRow | src/utilities/aggregation_utilities.py:39 | each ranked count is the number of rows holding that name, at least one and at most the non-null total |
| Aggregation.PopularSharesDistinct | src/utilities/aggregation_utilities.py:38-40 | each station appears on at most one row of the popularity table |
| Aggregation.PopularSharesShape | src/utilities/aggregation_utilities.py:37-45 | at most n rows, no more than the distinct names, and every row has `Type` equal to the requested type |
| Aggregation.PopularSharesLength | src/utilities/aggregation_utilities.py:39-40 | exactly min(n, number of distinct stations) rows for n ≥ 0; for negative n, all but the last −n stations |
| Aggregation.ValueCountsHasName | src/utilities/aggregation_utilities.py:39 | every distinct station of the column has a row in `value_counts` |
| Aggregation.PopularSharesKeepsTop | src/utilities/aggregation_utilities.py:39-40 | the ranking keeps the most popular stations: a station of the column that is left out has a percentage no larger than that of any row kept |
| Aggregation.PopularSharesRows | src/utilities/aggregation_utilities.py:37-41 | each row names a station of the column, with its share of the non-null rows as a percentage in (0, 100] |
| Aggregation.PopularSharesOrder | src/utilities/aggregation_utilities.py:39-41 | the percentages are in non-increasing order |
| Aggregation.NoNamesNoStations | src/utilities/aggregation_utilities.py:39 | a column with no non-null name has no station to rank |
| Aggregation.NameIsCounted | src/utilities/aggregation_utilities.py:39 | a column holding a name has a positive non-null total |
| Aggregation.ValueCountsSum | src/utilities/aggregation_utilities.py:39 | the ranked counts sum to the number of non-null names |
| Aggregation.PercentOfTotal | src/utilities/aggregation_utilities.py:39-41 | the whole total is 100 percent |
| Aggregation.TopSharesSum | src/utilities/aggregation_utilities.py:39-41 | the returned percentages sum to the percentage of the top rows' total count, which is at most the non-null total |
| Aggregation.PopularSharesSum | src/utilities/aggregation_utilities.py:39-41 | the percentages sum to at most 100, and to exactly 100 when there is at least one and at most n distinct names |
| Scenario.ScenarioSums | src/utilities/aggregation_utilities.py:21-24 | in the example, day 1 has two included trips totalling 30 minutes and day 2 one of 5 minutes |
| Scenario.ScenarioDays | src/utilities/aggregation_utilities.py:3-9 | in the example, day 1 has two rides and day 2 one, and both days have an included trip |
| Scenario.TwoDayTables | src/utilities/aggregation_utilities.py:21-27 | a table whose included trips fall on days 1 and 2 only gives exactly two means, one per day |
| Scenario.DayCountRow | src/utilities/aggregation_utilities.py:3-9 | a day present in the table has a count row holding its number of rides |
| Scenario.ScenarioTables | src/utilities/aggregation_utilities.py:21-35 | the example gives means 15.0 and 5.0, counts 2 and 1, and the joined rows `(1, 15.0, 2)` and `(2, 5.0, 1)` |
| Preprocess.GenderLabelFacts | src/utilities/preprocess.py:13-16 | code 0 becomes `unknown`, 1 `male` and 2 `female`; any other cell is left as it is, with no error; relabelling a labelled cell changes nothing |
| Preprocess.GenderLabel | src/utilities/preprocess.py:14 | `replace` changes a cell only when it is one of the codes 0, 1 or 2, and then to a label |
| Preprocess.MapGender | src/utilities/preprocess.py:13-16 | the gender column with every cell relabelled, row by row |
| Preprocess.Age | src/utilities/preprocess.py:35 | the age is present iff the birth year is, and birth year plus age is 2016 |
| Preprocess.StartParts | src/utilities/preprocess.py:25-28 | month, day, hour and minute columns read from each start time |
| Preprocess.StopParts | src/utilities/preprocess.py:31-32 | hour and minute columns read from each stop time |
| Preprocess.Ages | src/utilities/preprocess.py:35 | the age column, one age per birth year, null where the birth year is null |
| Preprocess.Durations | src/utilities/preprocess.py:38-39 | duration in minutes is seconds / 60 and in hours seconds / 3600, row by row |
| Preprocess.BikesFrame.constructor | src/utilities/preprocess.py:8-41 | a table with the given raw columns, all of the same length, and no derived columns yet |
| Preprocess.CastBikeTypes | src/utilities/preprocess.py:8-20 | the same table is returned; each gender cell is relabelled in place; birth year, user type and every other column keep their values and the row count is unchanged |
| Preprocess.AttachAdditionalBikeColumns | src/utilities/preprocess.py:22-41 | the same table is returned with the calendar, age and duration columns attached and agreeing row by row with the start time, stop time, birth year and duration; the raw columns and row count are unchanged |
| Preprocess.HoursAreMinutesOverSixty | src/utilities/preprocess.py:38-39 | once attached, each duration in hours is the duration in minutes over 60, and a trip is at most 60 minutes iff it is at most 3600 seconds |

## Left out

- Parsing the prefixed strings with `pd.to_datetime` (src/utilities/date_utilities.py:38) is a library call. `DateUtilities.FormatBikeTimes` stops at the zero-prefixed strings. The parse applies to every column of the table, and its own failures are not modelled.
- `DateUtilities.FormatBikeTimes`: the unchanged input table is not stated. In a value model the input cannot change.
- NaN handling inside `str.contains` is not modelled. Time values are plain strings, never null.
- The dtype casts `astype('Int32')` and `astype('category')` (src/utilities/preprocess.py:10, 15, 19) change only how a column is stored. Birth year is an `Option<int>` and categories are plain values. The 32-bit range of `Int32` is not modelled.
- `Preprocess.CastBikeTypes` models the gender column as integer codes or labels. A code stored as a float (such as `0.0`) and other non-integer cells are not modelled.
- `Preprocess.AttachAdditionalBikeColumns` takes already-parsed timestamps and integer durations. Null (NaT) timestamps and null durations are not modelled.
- A missing column raises `KeyError` in pandas. The tables of `DateUtilities`, `Aggregation` and `Preprocess` are typed records and fields, so their columns cannot be missing. Those `KeyError` paths are not modelled. The one exception is the station column that `Aggregation.GetPopularStations` looks up by name.
- `Aggregation.GetPopularStations` looks its column up in a map of the table's station columns. `Aggregation.StationColumns` builds that map from the trip table, which has exactly the columns `start station name` and `stop station name`. Tables with other station-like columns are covered only through that map.
- Output row order is not modelled faithfully. Pandas `groupby` sorts the groups by key. The model (`Grouping.GroupCount`, `Grouping.GroupMean`) lists them in order of first appearance. The contracts constrain only which rows appear, not their order.
- Ties in `value_counts` are broken stably in `Grouping.SortByCountDesc`, by first appearance. Pandas does not promise a tie order.
- IEEE floating point is not modelled. Means, percentages and duration conversions use exact real arithmetic.
- Column renames and labels (`Bikers Count`, `Average Duration in Minutes`, `Station Name`, `Percentage`) are not modelled. Results are tuples and records.
- `src/utilities/plot_utilities.py` is not part of this model. It needs float bin edges, interval cuts, a business-day calendar and chart rendering.
