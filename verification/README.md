# VOCs alarm statistics — a Dafny model

This project models the aggregation core of `VOCs_alarm.py`, a script that
summarises one month of hourly pollutant readings from a chemical-industry
park's monitoring stations. A readings table has a station column, a time
column and one column per pollutant. Each cell holds a concentration or is
blank. The script does four things:

- it merges two readings tables and derives the station list;
- it counts the valid (non-blank) readings per station and pollutant, and the
  fraction of a station's rows they make up;
- it counts alarms per station and pollutant: readings strictly above the
  pollutant's threshold;
- it does this at two severity levels, level 2 and level 3, and subtracts the
  level-2 counts from the level-3 counts of the pollutants that have both
  thresholds.

The model is functional. Tables are immutable sequences of `Row` records
whose cells are `Option<real>`. Result tables are `Grid`s indexed by station
and pollutant. Every exception the script can raise once its tables are
loaded is a `Result` failure. The two kinds are an `iloc` position past the
last column (IndexError) and a label that is not a column (KeyError).

Modules:

- `Results`: `Option` and `Result`.
- `Seqs`: duplicates, first and last occurrences, and `Distinct`
  (pandas `drop_duplicates`).
- `Counting`: counting the elements that satisfy a predicate, tied to the set
  of positions that satisfy it.
- `Frames`: rows, tables, result grids, the station filter, the merge, the
  station list and the per-subset readings tables.
- `Thresholds`: the insertion-ordered pollutant-to-threshold dictionaries,
  written as sequences of name-threshold pairs with distinct names.
  `BuildThresholds` produces such a sequence. The members that rely on
  distinct names (`Assign`, `LevelAlarms`, `AlarmLevels` and the lemmas about
  the two-level report) require them, as a Python dict guarantees.
- `Validity`: `count_eff` and `cal_eff_ratio`.
- `Alarms`: `count_alarm`.
- `Levels`: the level-3-minus-level-2 subtraction and the two-level report.

Behaviours of the code that the model keeps, where a reader might expect
otherwise:

- `count_eff` and `cal_eff_ratio` read pollutant `jj` of their list from
  column position `jj + 2`. The list's names are only labels. A list longer
  than the table's pollutant columns raises an IndexError, but only when
  there is at least one station.
- `cal_eff_ratio` divides by the station's total row count, shared by all
  pollutants. For a station with no rows this is 0/0, which numpy turns into
  NaN rather than an exception. The model writes NaN as `None`.
- `count_alarm` fills blanks with 0, sets values at or below the threshold to
  0, and then sets values above the threshold to 1. With a nonnegative
  threshold, a cell counts exactly when it holds a reading strictly above the
  threshold. With a negative threshold, the zeroed cells are above the
  threshold too, so every row counts, blanks included. The model keeps both
  steps literally (`Alarms.Mark`).
- A threshold dictionary built from a limits table keeps each name at its
  first row and takes its value from the last row for that name.
- The subtraction does not check that the level-3 threshold is at most the
  level-2 threshold. With inverted thresholds it produces negative counts
  (`Levels.InvertedLimitsGoNegative`). A reader might expect a configuration
  error here; the code raises none, and neither does the model.
- One might expect blank readings never to be alarms. The code meets that
  only for nonnegative thresholds (see above), and so does the model.

## Model

| member | source | states |
|---|---|---|
| Frames.RowsOf | VOCs_alarm.py:33 | Every row kept belongs to the station and comes from the table; the result is empty exactly when no row has that station. |
| Frames.RowsOfKeepsAll | VOCs_alarm.py:33 | Every row of the table whose station is `s` is in the station's rows. |
| Frames.RowsOfCount | VOCs_alarm.py:33 | The station's row count is the number of positions of the station column equal to `s`, so it is the divisor `cal_eff_ratio` uses. |
| Frames.RowsOfHits | VOCs_alarm.py:33 | The filter keeps each row of the station exactly as often as the table holds it: for any row property, the station's rows with that property are as many as the table's rows that belong to the station and have it. So every count taken over a station's rows is a count over the table. |
| Frames.Merge | VOCs_alarm.py:112 | The merged table has the first table's columns followed by the second's pollutant columns. Rows are paired by position: stations and times come from the first table, so the second table's own station names play no part, and a row with no partner gets blanks. |
| Frames.MergeKeepsFirstTable | VOCs_alarm.py:112 | After the merge, every station has the same readings in the first table's pollutant columns as it had before. |
| Seqs.Distinct | VOCs_alarm.py:115 | The result has no duplicates and holds exactly the elements of the input. |
| Seqs.DistinctKeepsFirstSeenOrder | VOCs_alarm.py:115 | The result lists elements in the order of their first occurrence in the input. |
| Frames.StationList | VOCs_alarm.py:115 | The station list has no duplicates, contains the station of every row, lists the stations in the order of their first row, and every station in it has at least one row. |
| Validity.CountEff | VOCs_alarm.py:31-35 | An IndexError occurs exactly when there is a station and more pollutants than pollutant columns. Otherwise there is one row per listed station, zeros included, and one column per pollutant. Each cell is the number of the station's rows whose value at position j is present, so it is at most the station's row count. |
| Validity.CountEffIsPositional | VOCs_alarm.py:35 | Two pollutant lists of the same length give the same counts, because columns are chosen by position and not by name. |
| Validity.Ratio | VOCs_alarm.py:63 | The ratio is undefined (NaN) exactly when the station has no rows. Otherwise it lies in [0,1] and equals the valid count over the row count. |
| Validity.CalEffRatio | VOCs_alarm.py:59-63 | The ratio fails under the same condition as the count. Each cell is undefined exactly when the station has no rows. Otherwise it lies in [0,1] and equals the number of present values over the station's total row count. |
| Validity.RatioScalesCount | VOCs_alarm.py:61-63 | The ratio table and the count table fail together. Each defined ratio is the matching count cell divided by the station's row count. |
| Validity.StationListRatiosDefined | VOCs_alarm.py:63 | Over the station list derived from the table, no ratio cell is NaN. |
| Alarms.Mark | VOCs_alarm.py:96-97 | After blank-filling and the two assignments, a cell is 1 when it holds a reading above the threshold or the threshold is negative, and 0 otherwise. |
| Alarms.MarkSum | VOCs_alarm.py:98 | The column sum of the marks is the number of present readings strictly above a nonnegative threshold, or the row count for a negative threshold. |
| Alarms.CountAlarm | VOCs_alarm.py:89-98 | A KeyError occurs exactly when there is a station and a threshold name is not a column, and it names such a name. Otherwise there is one row per station and one column per dictionary entry. Each cell is the reference tally `AlarmTally` of the station's column under that name: the present readings strictly above a nonnegative threshold, so blanks and readings equal to the threshold never count, and every row for a negative threshold. |
| Alarms.AlarmTallyMonotone | VOCs_alarm.py:96-98 | Lowering the threshold never lowers a column's alarm count. |
| Alarms.AlarmTallyBand | VOCs_alarm.py:96-98 | For 0 <= t3 <= t2, the count above t3 minus the count above t2 is the number of present readings v with t3 < v <= t2. |
| Alarms.CountAlarmMonotone | VOCs_alarm.py:92-98 | Two dictionaries with the same names, one with pointwise lower thresholds, fail together. The lower one gives every station at least as many alarms for every pollutant. |
| Thresholds.Assign | VOCs_alarm.py:162 | Dictionary assignment keeps an existing name at its position with the new value, and appends a new name at the end. |
| Thresholds.BuildThresholds | VOCs_alarm.py:160-162 | The dictionary's names are the distinct names of the limits table in first-seen order. Each threshold is the one on the last row for that name. |
| Frames.SelectColumns | VOCs_alarm.py:165-167 | A KeyError occurs exactly when a name is not a column. Otherwise the subset keeps every row with its station and time, has the named columns in order, and each cell equals the original cell under that name. |
| Frames.SelectedColumnOfStation | VOCs_alarm.py:175-177 | Each station's values in a column of the subset equal its values in the original column of the same name. |
| Levels.SubtractColumn | VOCs_alarm.py:187 | Only the chosen column changes, by the given amount per station; every other cell is unchanged. |
| Levels.SubtractFirst | VOCs_alarm.py:186-187 | After the first n level-2 pollutants, the result fails exactly when one of them has no level-3 column. Otherwise the columns of those pollutants have lost the level-2 counts, and every other column is unchanged. |
| Levels.SubtractLevel2 | VOCs_alarm.py:186-187 | A KeyError occurs exactly when a level-2 pollutant has no level-3 column, and it names such a pollutant. Otherwise the stations and columns are unchanged, the level-2 count is subtracted from each shared pollutant's column, and every other column is untouched. |
| Levels.LevelAlarms | VOCs_alarm.py:174-180 | One severity level succeeds exactly when every name of its dictionary is a column of the readings table; otherwise the KeyError names a missing name. The table has one column per dictionary entry. Each cell is the tally, against the entry's threshold, of the station's readings in the full table's column of that name. |
| Levels.AlarmLevels | VOCs_alarm.py:164-187 | The two-level report succeeds exactly when every dictionary name is a column and every level-2 name is also a level-3 name. The level-2 table is that level's alarm table. The level-3-only table has one row per station and one column per level-3 entry. |
| Levels.ReportFromLimits | VOCs_alarm.py:160-187 | Starting from the two limits tables, the report fails exactly when a limits name is not a column or a level-2 name has no level-3 limit; whether it fails does not depend on duplicated names. |
| Levels.Level3OnlyCell | VOCs_alarm.py:183-187 | Each level-3-only cell is the station's level-3 tally, minus its level-2 tally when the pollutant has a level-2 threshold. |
| Levels.Level3OnlyIsBand | VOCs_alarm.py:184-187 | With 0 <= level-3 threshold <= level-2 threshold, a shared pollutant's level-3-only count is the number of readings v with t3 < v <= t2. |
| Levels.Level3OnlyNonnegative | VOCs_alarm.py:186-187 | When the level-3 threshold is at most the level-2 threshold, the level-3-only count is never negative, whatever the thresholds' signs. |
| Levels.InvertedLimitsGoNegative | VOCs_alarm.py:186-187 | With a nonnegative level-3 threshold above the level-2 threshold, one reading at the level-3 threshold gives a count of -1; nothing rejects it. |

## Left out

- Reading and writing spreadsheets, file names, the period label and the printed tables (lines 106-109, 113, 157-158, 168, 178, 181-182, 185, 188-189). The tables are taken as already loaded, so the units row skipped at load time does not appear.
- The commented-out eleven-pollutant block (lines 117-153). It is dead code.
- The per-zone VOCs-36 alarm summary. The script holds only a heading comment for it (line 192), so there is no behaviour to model.
- Floating point. Values and thresholds are exact reals, and blanks are `None` rather than NaN. The NaN that 0/0 produces in `cal_eff_ratio` is `None`.
- pandas copy semantics. The chained assignments at lines 96-97 are modelled as taking effect on the station's copy, as they do under pandas without copy-on-write. Under copy-on-write they would leave the column unchanged and the sum would add up the raw values.
- Duplicate column labels. Selecting a label that names several columns returns all of them in pandas; the model always reads the first column with that label.
- Frames.Merge: requires the second table to have no more rows than the first. Extra rows of the second table would give merged rows a NaN station, which the model's string station column cannot hold.
- Levels.SubtractLevel2: requires both tables to have the same station list and distinct pollutant names. pandas aligns the two tables by station label, and the script always passes tables built over the same station list from dictionary keys.
