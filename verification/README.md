# Quarter-hour resampling and quality flagging

A Dafny model of the engine behind `resample_to_quarter_hour` in two
versions of the data-processing app (`src/app_v10.py` and the earlier
`src/app_v7.py`), together with the newer version's `calculate_zero_flags`
and `smart_convert_column`.

The engine takes building-sensor readings merged on a `Date` column. It lays
a fixed grid of quarter-hour instants over the observed time range. For each
grid instant, each sensor independently takes its nearest non-missing
reading within a tolerance window (two minutes by default). The cell is
marked *inexact* when that reading's own timestamp is off the quarter-hour.
The engine then flags stale readings and classifies each row by its zero
readings, and it reports summary statistics.

How the model represents the inputs:

- Timestamps are whole seconds (`int`). The minute and second components are
  derived with `%` and `/`; these agree with Python's for the positive
  divisors used.
- A cell is `Missing | Num(int) | Text(string)`.
- Each sensor is a `SensorStore`: its name, whether its column is numeric,
  and its samples in the merged frame's time-sorted order.

Modules:

| module | file | contents |
|---|---|---|
| `Types` | types.dfy | cells, samples, sensor stores, matched cells, zero flags |
| `Clock` | clock.dfy | minute/second components, quarter-hour floor and "next quarter" |
| `Counting` | counting.dfy | counts of flags, sums, transposition of flag tables |
| `Grid` | grid.dfy | the quarter-hour grid over the observed range |
| `Matcher` | matcher.dfy | the per-sensor nearest-sample match of one cell |
| `Table` | table.dfy | the matched frame: values and inexact flags of all sensors |
| `Stale` | stale.dfy | the two stale rules, run lengths, row consolidation |
| `ZeroFlags` | zeroflags.dfy | `calculate_zero_flags` and its reference classification |
| `ColumnTyping` | typing.dfy | `smart_convert_column` |
| `ResampleV10` | resample_v10.dfy | the newer resampler: table, statistics, inexact map |
| `ResampleV7` | resample_v7.dfy | the earlier resampler: per-sensor flag columns, statistics |
| `Versions` | versions.dfy | how the two versions relate |
| `Cases` | cases.dfy | worked cases, several taken from the repository's tests |

Two behaviours of the code are easy to misread:

- **Grid end.** The grid end is the floor's minute plus 15, carried into the
  next hour. So an already-aligned latest timestamp still gets one more
  quarter (`Clock.NextQuarterHour`, `Cases.GridOfHalfHour`).
- **Numeric share.** The share of parseable entries is taken over the whole
  column, unparsed entries included (`src/app_v10.py:935`).

## Model

| member | source | states |
|---|---|---|
| Clock.OnQuarterHourIffMultiple | src/app_v10.py:790 | the exactness test "minute a multiple of 15 and second zero" holds exactly for multiples of 900 seconds |
| Clock.FloorToQuarterHour | src/app_v10.py:736-737 | the grid start is the latest quarter-hour instant not after `t`; it equals `t` exactly when `t` is already on a quarter-hour |
| Clock.NextQuarterHour | src/app_v10.py:739-745 | the grid end is the floor plus one quarter, carried into the next hour at minute 60; it is strictly after `t`, at most 15 minutes later, and an aligned `t` still moves a full quarter |
| Grid.QuarterHourGrid | src/app_v10.py:733-748 | the grid runs from the floor of the earliest time to the next quarter after the latest, in 15-minute steps over quarter-hour instants only, with (floor(hi) − floor(lo))/900 + 2 entries |
| Grid.GridCoversRange | src/app_v10.py:733-748 | every instant in the observed range falls in exactly one grid interval, the one starting at its own quarter-hour floor |
| Grid.GridSpansSamples | src/app_v7.py:269-285 | the grid of a non-empty input starts at the floor of some sample's time and ends one quarter after the floor of some sample's time; every sample of every sensor lies inside it |
| Matcher.NearestAmong | src/app_v10.py:770-782 | the scan finds nothing exactly when no non-missing sample lies within the window; otherwise it finds an eligible sample at minimal distance that is strictly closer than every earlier eligible one (`idxmin`) |
| Matcher.Nearest | src/app_v10.py:773-782 | the same condition over all of a sensor's samples |
| Matcher.NearestIsUnique | src/app_v10.py:782 | at most one position meets the nearest-sample condition |
| Matcher.SortedTieGoesToEarlier | src/app_v10.py:782 | with samples in time order, a tie in distance goes to the earlier timestamp |
| Matcher.MatchCell | src/app_v10.py:773-791 | a cell is missing with a false flag exactly when no sample is eligible; otherwise it copies the nearest sample's value unchanged (zero included) and is inexact exactly when that sample's own timestamp is off the quarter-hour |
| ResampleV10.Resample | src/app_v10.py:729-748 | no result exactly when the input has no samples; otherwise one row per instant of the sample grid, with every part of the output shaped to the rows and sensors |
| ResampleV10.CellIsNearestSample | src/app_v10.py:763-794 | each cell of the table, and its entry in the row-major inexact map, comes from that sensor's own nearest eligible sample |
| ResampleV10.StaleRowFlag | src/app_v10.py:822-837 | a row's stale flag is set exactly when some numeric sensor is stale in it under the three-in-a-row rule; its list is empty exactly when the flag is unset |
| ResampleV10.StaleRowSensors | src/app_v10.py:825-833 | a row's stale list names exactly the stale sensors, once each, in column order |
| ResampleV10.ZeroFlagsClassifyRows | src/app_v10.py:840-841 | each row of the table carries the priority classification Repeated > Single > Clear over its numeric sensors; row 0 is never Repeated |
| ResampleV10.StatsMatchTable | src/app_v10.py:843-863 | the inexact total counted row by row equals the per-sensor count; the stale total is the sum of per-sensor counts and the total length of the stale lists; rows with stale data are the flagged rows and never exceed the stale total; the three zero counts add up to the rows; the date range is the grid's |
| ResampleV10.StatsCountEachFlag | src/app_v10.py:844-849 | each sensor's stale count is the number of rows in which that sensor is stale under the newer rule; each zero-flag count is the number of rows carrying that flag |
| Stale.RunLengthMeaning | src/app_v10.py:814-818 | a run of at least `k` equal readings ends at `r` exactly when row `r` holds a value that the `k − 1` rows above repeat |
| Stale.StaleV10IffRunOfThree | src/app_v10.py:802-819 | the newer rule flags exactly the third and later rows of a run of one non-zero reading in a numeric column |
| Stale.StaleV7IffRunOfFour | src/app_v7.py:330-342 | the earlier rule flags exactly the fourth and later rows of a run of one reading, zero or text included |
| Stale.StaleColumnV10 | src/app_v10.py:805-818 | a text column is never stale, and neither are the first two rows |
| Stale.StaleColumnV7 | src/app_v7.py:334-340 | the first three rows are never stale |
| Stale.FlaggedIndices | src/app_v10.py:826 | the positions of the set flags, in increasing order, each once, as many as the set flags |
| Stale.ConsolidateRow | src/app_v10.py:825-833 | a row is flagged exactly when some sensor is stale in it; its list is empty exactly when unflagged and names the stale sensors' positions in order |
| Stale.ConsolidatedFlagV10 | src/app_v10.py:825-833 | consolidation under the newer rule, stated on the columns themselves |
| Stale.ConsolidatedListV10 | src/app_v10.py:825-833 | the list under the newer rule names exactly the stale sensors, once each, in column order |
| Stale.ConsolidatedCounts | src/app_v10.py:849-857 | per-sensor stale counts sum to the total length of the per-row lists; flagged rows never exceed that total |
| ZeroFlags.ZeroFlagMeaning | src/app_v10.py:654-708 | a row is Repeated exactly when a numeric sensor reads zero in it and the row above, and Clear exactly when no numeric sensor reads zero in it |
| ZeroFlags.RowZeroFlag | src/app_v10.py:677-706 | the sensor scan with `continue` and the early `break` computes the priority classification |
| ZeroFlags.CalculateZeroFlags | src/app_v10.py:674-708 | one flag per row, equal to the priority classification; row 0 is never Repeated; a repeated zero anywhere makes its row Repeated |
| ZeroFlags.ZeroCountsPartitionRows | src/app_v10.py:844-848 | the Clear, Single and Repeated counts add up to the number of rows |
| ZeroFlags.TextColumnsIgnored | src/app_v10.py:681-682 | changing text columns never changes a row's flag |
| ColumnTyping.ParseShowRoundTrip | src/app_v10.py:928 | every integer's decimal rendering parses back to that integer |
| ColumnTyping.ToNumeric | src/app_v10.py:928 | an entry becomes a number exactly when it parses, and missing otherwise; never text |
| ColumnTyping.RatioAtLeast | src/app_v10.py:935-937 | the ratio reaches the threshold exactly when the valid count reaches the threshold's share of the whole column |
| ColumnTyping.SmartConvertColumn | src/app_v10.py:916-940 | the column becomes numeric exactly when some entry parses and the parsed share of the whole column reaches the threshold; a numeric result holds the parsed values with no text, a text result holds every original entry |
| ColumnTyping.UnparseableStaysText | src/app_v10.py:931-932 | a column none of whose entries parse keeps its original text for any threshold |
| ColumnTyping.FullyParsedBecomesNumeric | src/app_v10.py:935-938 | a non-empty, fully parseable column becomes numeric for any threshold up to 1 |
| ColumnTyping.LowerThresholdKeepsNumeric | src/app_v10.py:937-940 | lowering the threshold never turns a numeric column back into text |
| ResampleV7.Resample | src/app_v7.py:266-285 | no result exactly when the input has no samples; otherwise one row per instant of the sample grid |
| ResampleV7.Build | src/app_v7.py:327-350 | the table has one row per grid instant, every column shaped to it, and `total_intervals` equal to the grid length |
| ResampleV7.CellIsNearestSample | src/app_v7.py:298-325 | each value and its `_Inexact_Flag` come from that sensor's own nearest eligible sample, missing with a false flag when there is none |
| ResampleV7.StaleFlagsAreRunsOfFour | src/app_v7.py:330-342 | a `_Stale_Flag` is set exactly when its cell closes a run of four or more equal readings; the first three rows are never set |
| ResampleV7.StatsMatchTable | src/app_v7.py:344-357 | the inexact total is the number of set inexact flags, counted either way; each stale count is its sensor's set flags and the stale total is their sum; the date range is the grid's |
| Versions.SameMatching | src/app_v7.py:269-325 | both versions give a result on the same inputs, over the same grid, with the same values; the newer inexact map is the transpose of the older flag columns and the totals agree |
| Versions.OlderStaleImpliesNewer | src/app_v10.py:811-818 | a non-zero numeric reading flagged by the four-in-a-row rule is flagged by the three-in-a-row rule |
| Versions.RulesDiffer | src/app_v7.py:335-340 | the third of three equal readings is stale only under the newer rule; a run of four zeros is stale only under the older rule |
| Cases.HeldReadingFlags | test_per_sensor_resampling.py:207-212 | for 100 held five rows then 105: the older rule flags rows 3 and 4, the newer rows 2 to 4 |
| Cases.MatchingAtQuarterPast | test_per_sensor_resampling.py:101-105 | on the test's three-sensor columns at 12:15 with the default window: the exact 200 is copied as exact, the 250 from 12:16:30 as inexact (the missing reading on the mark does not hide it), and the third sensor's cell is missing |
| Cases.NothingNearQuarterToOne | test_per_sensor_resampling.py:116-118 | on the same columns at 12:45 every sensor's cell is missing, since the 12:30 and 12:48 readings lie outside the window |
| Cases.ZerosArePreserved | test_per_sensor_resampling.py:168-170 | zeros at 12:00 and 12:15 are copied as zeros over the grid of that input |
| Cases.ZeroPriority | src/app_v10.py:659-663 | a repeated zero outranks a single zero in the same row |
| Cases.GridOfHalfHour | src/app_v10.py:739-748 | samples from 10:01:05 to 10:30:00 give the grid 10:00, 10:15, 10:30, 10:45 |
| Cases.FourOfFiveBecomesNumeric | src/app_v10.py:935-938 | four parseable entries of five reach the 0.8 share and the column becomes numeric |
| Cases.ThreeOfFourStaysText | src/app_v10.py:935-940 | three of four fall short of 0.8 and the column keeps its text |

## Left out

- Reading CSV and Excel files, multi-tab extraction, the merge, sort and de-duplication of source frames: I/O and pandas plumbing. The input is given as per-sensor sample sequences already in time order.
- The Streamlit interface, session state, Excel/CSV export with colour fills, archiving, and the calls to an AI service with their thread pool: presentation, I/O, network and concurrency.
- Floating-point sensor values: readings are integers. The 0.8 threshold is compared as an exact rational, without the floating-point rounding of the division.
- Number parsing in `pd.to_numeric` is modelled as an optional sign followed by decimal digits; decimals, exponents, surrounding whitespace, `inf` and `nan` spellings are not modelled.
- A null entry of a raw column (an empty cell read as NaN) is modelled as a string that does not parse; a text result keeps it as text rather than NaN.
- Column dtype: each sensor's numeric-or-text status is a given boolean, as produced by `smart_convert_column`, not pandas' own dtype inference.
- Microseconds and time zones: timestamps are whole seconds, so `microsecond=0` has nothing to clear.
- The `', '` join of the stale-sensor names is left as the list of names; the join is rendering only.
- The final reordering of output columns (date, flags, then sensors) is presentation only; the model keeps the fields as a record.
- `ResampleV10.Resample`, `ResampleV7.Resample`: an input frame with rows but no sensor columns counts as empty here, because times are gathered from the sensors' samples.
- `DefaultToleranceMinutes` is a constant. The tolerance is a parameter of `Resample`, so calling it without a tolerance is not modelled; the worked cases use the constant.
