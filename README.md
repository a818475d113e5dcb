# Verified model of the AATOS traffic controller and dashboard core

AATOS is a small traffic-signal demo. A camera stub reports vehicle counts for the four
approaches of a junction. A rule-based controller turns those counts into green
times and runs one signal cycle. A Flask dashboard summarises a traffic dataset per
location and serves the time series of one location.

This project models the decision logic of both parts in Dafny and proves what it promises.

- `traffic_controller.dfy` (module `TrafficController`) covers the controller:
  - `GreenTime` is `get_green_time`.
  - `JunctionCycle` is `traffic_junction_controller`. Its `print` and `time.sleep` side effects are emitted as an event trace: `Skipped`, `Green`, `Wait`, `Yellow`, `Red`, `CycleComplete`.
  - The method is proved equal to the trace function `CycleTrace`. Properties of the trace follow as lemmas: serving order, the per-approach events, contiguity of a turn, and the total time slept.
- `dashboard_timing.dfy` (module `DashboardTiming`) gives the dashboard's arithmetic on exact reals:
  - `compute_green_time_from_count`, with Python's round-half-to-even and `int()` truncation toward zero;
  - the 60/40 NS/EW split;
  - pandas' `round(2)`.
- `dashboard_frame.dfy` (module `DashboardFrame`) holds the dataset and its columns:
  - the dataset is a table of named columns and rows of cells, each a number or text;
  - the lower-cased column map `{c.lower(): c ...}` and the forgiving column resolution;
  - a `Frame` class for the DataFrame that `create_summary` changes in place.
- `dashboard_summary.dfy` (module `DashboardSummary`) covers `create_summary` and `api_summary`:
  - column resolution, zero-fill of missing columns on the frame itself, group-by location, the split green suggestions, the alert text, the sort by congestion, and the cut to 50 rows;
  - the error paths, modelled as values: no location column (KeyError), text in a numeric column, and an empty dataset.
- `dashboard_location.dfy` (module `DashboardLocation`) covers `api_location`:
  - exact case-insensitive match on the stripped name, then the substring fallback;
  - the 400, 404 and 500 answers;
  - the loop that builds the points in row order, and the cut to 500.
- `strings.dfy` and `wrappers.dfy` are shared helpers:
  - Python's `str.lower`, `str.strip`, `in` on strings and `str(int)`;
  - `Option`, `Result`, an HTTP-like `Response`, and Python's `min`.

Two consequences of the code are worth stating outright:

- With the default bounds [10, 120], the dashboard suggests 20 s at count 0, not 10 s. `BASE_GREEN = 20` already lies inside the bounds, so the lower bound never applies to a non-negative count (`DefaultGreenTimeBounds`).
- On the camera stub's counts `{North: 12, East: 3, South: 0, West: 7}`, the turns run as follows (`MockedCycle`):
  - North gets `4 + 11*3 = 37` s, East 10 s and West 22 s, and South is skipped.
  - The cycle sleeps 37+2+10+2+22+2 = 75 s.

## Model

| member | source | states |
|---|---|---|
| `TrafficController.GreenTime` | traffic_controller.py:3-12 | For a non-negative count the green lies in [0, 60]. It is 0 exactly when there are no cars, and at least 4 s for one car or more. |
| `TrafficController.GreenTimeSmallCounts` | traffic_controller.py:7-10 | 0 cars give 0 s (skip), 1 car gives 4 s, 2 cars give 7 s. |
| `TrafficController.GreenTimeRange` | traffic_controller.py:11-12 | From 2 cars on, the green is in [7, 60]. It is 60 exactly when there are 20 cars or more, and 58 at 19. |
| `TrafficController.GreenTimeMonotone` | traffic_controller.py:3-12 | More cars never give a shorter green. |
| `TrafficController.GreenTimeIsStepwise` | traffic_controller.py:7-12 | The rule equals an independent stepwise definition: 0, then 4, then 3 s more per extra car, never above 60. |
| `TrafficController.JunctionCycle` | traffic_controller.py:14-33 | The loop over North, East, South, West, with its early `continue`, emits exactly the trace `CycleTrace(counts)`. |
| `TrafficController.PhaseTrace` | traffic_controller.py:19-31 | One approach's turn: a skip when its green is 0, else green, the green wait, yellow, the 2 s wait and red. Its properties are stated by `PhaseObservations`. |
| `TrafficController.CycleTrace` | traffic_controller.py:15-33 | The four turns in the fixed order, then the completion line. Its properties are stated by `CycleShape`, `CycleServesInOrder`, `CycleEventsForApproach`, `CycleActivePhaseIsContiguous` and `CycleTotalWait`. |
| `TrafficController.PhaseObservations` | traffic_controller.py:19-31 | One approach's turn serves only that approach. It costs green plus 2 s, or nothing when skipped. It shows a skip, or green, yellow and red. |
| `TrafficController.CycleShape` | traffic_controller.py:15-33 | A cycle is the four approaches' turns in the fixed order, followed by the completion event. |
| `TrafficController.CycleServesInOrder` | traffic_controller.py:15-18 | The approaches are visited exactly once each, in the order North, East, South, West. |
| `TrafficController.PhasesServed` | traffic_controller.py:17-31 | The turns of a list of approaches serve exactly that list, in order. |
| `TrafficController.PhasesEventsFor` | traffic_controller.py:17-31 | Across turns of distinct approaches, an approach's events are those of its own turn, or none if it is not in the list. |
| `TrafficController.CycleCompletesOnceAtEnd` | traffic_controller.py:33 | The last event is "cycle complete", and it occurs nowhere else. |
| `TrafficController.CycleEventsForApproach` | traffic_controller.py:21-31 | Of the events that name an approach, an empty approach has only a skip: no green, yellow or red. Any other has green with its time, yellow, then red. That a skipped turn sleeps nothing follows from `CycleShape` and `PhaseObservations`. |
| `TrafficController.CycleActivePhaseIsContiguous` | traffic_controller.py:25-31 | An occupied approach's turn is one unbroken run: green(d), wait d, yellow, wait 2, red. |
| `TrafficController.CycleTotalWait` | traffic_controller.py:17-31 | Total time slept is the sum, over approaches not skipped, of green plus 2 s. |
| `TrafficController.CycleWaitBounds` | traffic_controller.py:19-29 | Every sleep is a 2 s yellow or a green of 4 to 60 s. A cycle sleeps at most 248 s. |
| `TrafficController.MockedCycle` | traffic_yolo.py:15 | On the stub's counts the trace is the given 17 events, with South skipped, and 75 s are slept. |
| `DashboardTiming.RoundHalfEven` | dashboard/app.py:36 | `round` returns an integer within 0.5 of its argument, and picks the even neighbour at an exact half. |
| `DashboardTiming.RoundHalfEvenOfInteger` | dashboard/app.py:36 | `round` leaves an integer unchanged. |
| `DashboardTiming.Trunc` | dashboard/app.py:80-81 | `int(x)` is the integer part, truncated toward zero, for either sign. |
| `DashboardTiming.RawGreen` | dashboard/app.py:34 | `BASE_GREEN + count / SCALING_FACTOR`. Its use is stated by `ComputeGreenTimeFromCount` and `DefaultGreenTimeAtHalves`. |
| `DashboardTiming.Clamp` | dashboard/app.py:35 | `max(min_green, min(max_green, g))` is at least `min_green`, and at most `max_green` when min ≤ max. It is `g` itself inside the bounds, `max_green` at or above the upper bound, and `min_green` at or below the lower one or when the bounds are crossed. |
| `DashboardTiming.ClampMonotone` | dashboard/app.py:35 | Clamping preserves order. |
| `DashboardTiming.ComputeGreenTimeFromCount` | dashboard/app.py:33-36 | The result lies in [min_green, max_green] when min ≤ max, and is min_green when the bounds are crossed. It is within 0.5 s of `20 + count/300` whenever that value is inside the bounds. Above the upper bound it is exactly max_green, and below the lower bound exactly min_green. |
| `DashboardTiming.ComputeGreenTimeMonotone` | dashboard/app.py:33-36 | More traffic never lowers the suggestion, whatever the bounds. |
| `DashboardTiming.DefaultGreenTime` | dashboard/app.py:33-36 | The suggestion with the default bounds [10, 120], as called at app.py:83-84. Its properties are stated by `DefaultGreenTimeBounds`, `DefaultGreenTimeAtHalves` and `DefaultGreenTimeExamples`. |
| `DashboardTiming.DefaultGreenTimeBounds` | dashboard/app.py:21-36 | With the default bounds the suggestion is 20 at count 0, within [20, 120] for every non-negative count, and 120 from count 30000 on. |
| `DashboardTiming.DefaultGreenTimeAtHalves` | dashboard/app.py:34-36 | For `0 <= count < 29850` with `count % 300 == 150`, the raw value is a half and rounds to the even neighbour. |
| `DashboardTiming.DefaultGreenTimeExamples` | dashboard/app.py:33-36 | Counts 150, 450, 300 and 3000 give 20, 22, 21 and 30. |
| `DashboardTiming.SplitTraffic` | dashboard/app.py:80-81 | The NS and EW shares add up to `int(tot)`. For a non-negative total both are non-negative, and NS is `int(tot * 0.6)`. |
| `DashboardTiming.RoundTo2` | dashboard/app.py:94-95 | `round(2)` is within 0.005 of its argument and lies on the hundredths grid. |
| `Strings.LowerCharacterised` | dashboard/app.py:48 | `str.lower()` keeps the length and leaves no capital. Each capital becomes its small letter, and every other character is kept. |
| `Strings.Strip` | dashboard/app.py:137 | `strip()` returns a slice with no white space at either end. Everything cut away is white space. |
| `Strings.StripLower` | dashboard/app.py:137 | Stripping and lower-casing commute. |
| `Strings.StripIdempotent` | dashboard/app.py:137 | Stripping a stripped string changes nothing. |
| `Strings.NatToString` | dashboard/app.py:92 | `str(n)` is a non-empty string of digits with no leading zero. |
| `Strings.IntToString` | dashboard/app.py:92 | `str(n)` is digits that read back as `n`, with no leading zero, and a leading '-' for a negative `n`. |
| `Strings.ParseNatToString` | dashboard/app.py:92 | Reading back the decimal rendering gives the number. |
| `DashboardFrame.ColumnMap` | dashboard/app.py:48 | The map's keys are exactly the lower-cased column names, and each value is a column that lower-cases to its key. |
| `DashboardFrame.ColumnMapKeepsLast` | dashboard/app.py:48 | Of columns sharing a lower-cased name, the later one wins. |
| `DashboardFrame.Get` | dashboard/app.py:50-57 | `dict.get(key, fallback)` on the column map. Its use is stated by `ResolveColumn` and by `LookupColumn` for app.py:130-133. |
| `DashboardFrame.ResolveColumn` | dashboard/app.py:50-54 | A column matching the first spelling, else one matching the second, else the default literal. |
| `DashboardFrame.WithColumn` | dashboard/app.py:60-67 | `df[name] = fill` puts `fill` in every row under `name`, appends a new name, and keeps the table well formed. |
| `DashboardFrame.Frame.SetColumn` | dashboard/app.py:60-67 | The in-place assignment leaves the frame equal to `WithColumn` of its old contents. |
| `DashboardSummary.ResolveLocation` | dashboard/app.py:54-57 | The location column is a road/intersection column under either spelling, else an area column, else the literal "Area Name". |
| `DashboardSummary.ResolveSummaryColumns` | dashboard/app.py:50-57 | The five column names `create_summary` resolves. Its properties are stated by `ResolveColumn`, `ResolveLocation`, `LocationResolved`, `VolumeFallback` and `UnresolvedIsFallback`. |
| `DashboardSummary.CountWhere` | dashboard/app.py:69-74 | A location has a positive row count exactly when some row carries it. |
| `DashboardSummary.SumWhere` | dashboard/app.py:69-73 | The sum of one column over a location's rows. Its properties are stated by `SummaryRowAggregates`, `AggregatesAgree` and `AbsentColumnSumsToZero`. |
| `DashboardSummary.LocationKeys` | dashboard/app.py:69-74 | The group keys are distinct and are exactly the locations that occur. |
| `DashboardSummary.Alert` | dashboard/app.py:92 | The alert text of one group. Its properties are stated by `AlertNamesIncidents`. |
| `DashboardSummary.GroupSummary` | dashboard/app.py:69-96 | The aggregated and derived row of one location. Its content is stated by `SummaryRowAggregates` and `ZeroVolumeGroup`. |
| `DashboardSummary.Groups` | dashboard/app.py:69-96 | One row per occurring location. Its properties are stated by `GroupsDistinct`, `ReorderedGroups` and `GroupsAgree`. |
| `DashboardSummary.AlertNamesIncidents` | dashboard/app.py:92 | The alert is empty exactly when incidents ≤ 0. Otherwise it is `int(incidents)` in digits with no leading zero, followed by " reported". |
| `DashboardSummary.InsertPermutes` | dashboard/app.py:97 | Inserting one summary row adds exactly that row and loses none. |
| `DashboardSummary.InsertBounded` | dashboard/app.py:97 | Inserting keeps every congestion under a bound that the row and the sequence already respect. |
| `DashboardSummary.InsertSorted` | dashboard/app.py:97 | Inserting into a sequence ordered by descending congestion keeps it ordered. |
| `DashboardSummary.SortByCongestion` | dashboard/app.py:97 | `sort_values(by="avg_congestion", ascending=False)` as an insertion sort. Its properties are stated by `SortByCongestionCorrect` and `SummaryIsSortedGroups`. |
| `DashboardSummary.SortByCongestionCorrect` | dashboard/app.py:97 | The sort is non-increasing in congestion and a permutation of its input. |
| `DashboardSummary.Summarize` | dashboard/app.py:46-97 | `create_summary` as a value: `SummaryFrom` of the zero-filled rows, which is a failure for a missing location column, a non-numeric reading or an empty dataset, else the sorted groups. Its properties are stated by `SummaryIsOrderedGroups`, `SummaryIsSortedGroups`, `SummaryLocationsExact`, `SummaryRowAggregates`, `MissingLocationColumnExactly`, `EmptyDatasetFails`, `SummarizeReadsDataset` and `VolumeSpellingIrrelevant`. |
| `DashboardSummary.CreateSummary` | dashboard/app.py:46-97 | The frame is left zero-filled in place, and the result is the summary of the frame as it was passed in. |
| `DashboardSummary.SummaryResponse` | dashboard/app.py:105-113 | The summary endpoint's answer as a value. Its properties are stated by `SummaryResponseIsTopRows`. |
| `DashboardSummary.ApiSummary` | dashboard/app.py:105-113 | A missing dataset gives 400 and a failing summary gives 500. Otherwise at most 50 summary rows are served. |
| `DashboardSummary.ZeroFill` | dashboard/app.py:60-67 | One `if c not in df.columns: df[c] = 0` step. Its properties are stated by `ZeroFillReadsLike` and `LocationNotFilled`. |
| `DashboardSummary.FillMissing` | dashboard/app.py:59-67 | The four zero-fill steps. Their properties are stated by `FillMissingReadsLike` and `LocationNotFilled`. |
| `DashboardSummary.ZeroFillReadsLike` | dashboard/app.py:60-67 | Zero-filling one absent column keeps every other column's cells and every numeric reading unchanged. |
| `DashboardSummary.UnresolvedIsFallback` | dashboard/app.py:50-53 | A resolved numeric name that is not a column is its default literal. |
| `DashboardSummary.FillMissingReadsLike` | dashboard/app.py:59-67 | The four zero-fills add only default-named columns and change no reading. |
| `DashboardSummary.AggregatesAgree` | dashboard/app.py:69-74 | Rows that agree on locations and numbers give the same keys, counts and sums. |
| `DashboardSummary.GroupsAgree` | dashboard/app.py:69-74 | Rows that agree on locations and numbers give the same groups. |
| `DashboardSummary.LocationNotFilled` | dashboard/app.py:56-67 | The location column exists after zero-filling exactly when it existed before. |
| `DashboardSummary.ZeroFillKeepsCells` | dashboard/app.py:60-67 | A zero-fill changes no cell of any row, because the column it adds was absent and an absent cell reads as 0. |
| `DashboardSummary.SummarizeReadsDataset` | dashboard/app.py:59-97 | For every outcome, failures included, the summary equals `SummaryFrom` of the dataset's own rows, its resolved columns and whether its location column exists. |
| `DashboardSummary.KeysAcross` | dashboard/app.py:69 | Two row sequences whose location columns hold the same cells row by row have the same group keys and group sizes. This holds even when the two columns have different names. |
| `DashboardSummary.SumAcross` | dashboard/app.py:69-73 | In the same situation, a second pair of columns with the same cells row by row gives the same sum for every group. |
| `DashboardSummary.SummaryFromAgrees` | dashboard/app.py:69-97 | The outcome depends on the rows only through the five cells the resolved columns pick out, not on the columns' names. |
| `DashboardFrame.ColumnMapRename` | dashboard/app.py:48 | Renaming one column changes the lower-cased map only at the old and new lower-cased names. Every other key is present in both maps or in neither, and names the same column. |
| `DashboardSummary.ResolvedApartFromVolume` | dashboard/app.py:51-57 | The speed, congestion, incident and location names never resolve to "Traffic Volume" or "traffic_volume". |
| `DashboardSummary.ResolveSummaryRenamed` | dashboard/app.py:48-57 | Suppose "Traffic Volume" is the only column that lower-cases to "traffic volume", and no column lower-cases to "traffic_volume". Renaming it to "traffic_volume" moves the volume field to the new name and leaves the other four fields resolved as before. |
| `DashboardSummary.VolumeSpellingIrrelevant` | dashboard/app.py:48-97 | Under the same conditions, for a well-formed dataset, the rename gives the same summary, failures included. The spelling that names the volume column does not matter. |
| `DashboardSummary.SummaryIsOrderedGroups` | dashboard/app.py:69-97 | A successful summary is the sort by congestion of the per-location groups of the dataset's own rows. |
| `DashboardSummary.SummaryIsSortedGroups` | dashboard/app.py:69-97 | A successful summary is ordered by descending congestion and holds exactly the per-location groups of the dataset. |
| `DashboardSummary.GroupsDistinct` | dashboard/app.py:69-74 | No two groups are equal. |
| `DashboardSummary.ReorderedGroupsAggregate` | dashboard/app.py:69-96 | In any reordering of the groups, each row belongs to a location that occurs and is that location's aggregate. |
| `DashboardSummary.ReorderedGroups` | dashboard/app.py:69-97 | Any reordering of the groups holds each occurring location exactly once, next to its aggregate. |
| `DashboardSummary.SummaryLocationsExact` | dashboard/app.py:69-74 | Summary locations are distinct. Each comes from some row, and every row's location appears. |
| `DashboardSummary.GroupLocationsExact` | dashboard/app.py:69-74 | Any reordering of the groups holds each occurring location exactly once, and no other location. |
| `DashboardSummary.SummaryRowAggregates` | dashboard/app.py:69-96 | Each summary row holds the summed volume (as `int`) and incidents over its location's rows. It also holds the two-decimal mean speed and congestion, the split green suggestions, and the alert. |
| `DashboardSummary.ZeroVolumeGroup` | dashboard/app.py:77-85 | A group with zero volume reports 0 traffic and suggests 20 s each way. |
| `DashboardSummary.VolumeFallback` | dashboard/app.py:50 | With neither volume spelling present, the volume column is the absent literal "Traffic Volume". |
| `DashboardSummary.MissingVolumeReadsZero` | dashboard/app.py:60-85 | Without a volume column, every location reports 0 traffic and 20 s greens. |
| `DashboardSummary.AbsentColumnSumsToZero` | dashboard/app.py:60-61 | A column absent from every row sums to 0 for any location. |
| `DashboardSummary.LocationResolved` | dashboard/app.py:54-57 | The resolved location is a column exactly when one of the three accepted spellings is. |
| `DashboardSummary.MissingLocationColumnExactly` | dashboard/app.py:54-69 | The summary fails for want of a location column exactly when none of the three spellings exists. |
| `DashboardSummary.EmptyDatasetFails` | dashboard/app.py:87-89 | A dataset with a location column but no rows makes the summary fail. It does not come back empty. |
| `DashboardSummary.PrefixKeepsOrder` | dashboard/app.py:113 | A prefix of an ordered sequence of distinct locations is still ordered and distinct. |
| `DashboardSummary.SummaryResponseIsTopRows` | dashboard/app.py:111-113 | The summary response is Ok exactly when the summary succeeds. It is then the first min(50, n) rows: ordered by congestion, each location once. |
| `DashboardLocation.LookupColumn` | dashboard/app.py:130-133 | `col_map.get(key, fallback)` is a column lower-casing to `key`, else the fallback. |
| `DashboardLocation.LookupColumns` | dashboard/app.py:129-135 | The location is a road/intersection column (first spelling only), else "Area Name". |
| `DashboardLocation.LookupRoadFallback` | dashboard/app.py:133-135 | The road fallback literal is a column only if a road spelling exists. |
| `DashboardLocation.Query` | dashboard/app.py:137 | `name.strip().lower()`. Its properties are stated by `QueryNormalised`. |
| `DashboardLocation.QueryNormalised` | dashboard/app.py:137 | The query is no longer than the name, has no capital and no white space at either end, and normalising it again changes nothing. |
| `DashboardLocation.TruePositions` | dashboard/app.py:137 | Indexing by a boolean mask keeps exactly the positions where it is true, in increasing order. |
| `DashboardLocation.MatchIndices` | dashboard/app.py:137-140 | `TruePositions` of the per-row `Mask`, which is the exact comparison at line 137 or `str.contains` at line 140. The kept positions increase, each kept position matches, and every match is kept. |
| `DashboardLocation.Selection` | dashboard/app.py:137-140 | The exact matches, else the partial ones. Its properties are stated by `SelectionMatches`, `ExactMatchTakesPrecedence` and `SelectionEmptyExactly`. |
| `DashboardLocation.PointOf` | dashboard/app.py:152-157 | One row's point: date text, `int` of the volume, speed and congestion, with an absent column read as 0. Its use is stated by `Series`. |
| `DashboardLocation.Series` | dashboard/app.py:150-157 | The points are one per row, in row order. They exist exactly when every row converts. |
| `DashboardLocation.BuildSeries` | dashboard/app.py:150-157 | The append loop computes `Series` of the selected rows. |
| `DashboardLocation.LocationResponse` | dashboard/app.py:121-158 | The location endpoint's answer as a value: 400 with no name or no dataset, else `LookupResponse` of the query. Its properties are stated by `NotFoundExactly`, `ServedSeriesIsSelection`, `NameCaseIgnored` and `SurroundingSpaceIgnored`. |
| `DashboardLocation.LookupResponse` | dashboard/app.py:129-158 | The answer for a query: 500 without a location column, 404 for an empty selection, 500 for a non-numeric reading, else the first min(500, n) points. Its properties are stated by `ServedSeriesIsSelection` and `NotFoundExactly`. |
| `DashboardLocation.ApiLocation` | dashboard/app.py:115-158 | The endpoint answers `LocationResponse`, and an Ok body holds 1 to 500 points. |
| `DashboardLocation.ExactMatchTakesPrecedence` | dashboard/app.py:137-140 | When any row matches exactly, exactly the exact matches are selected. |
| `DashboardLocation.ExactIsPartial` | dashboard/app.py:137-140 | An exact match also contains the query. |
| `DashboardLocation.SelectionEmptyExactly` | dashboard/app.py:137-142 | Nothing is selected exactly when no row's location contains the query. |
| `DashboardLocation.SelectionMatches` | dashboard/app.py:137-140 | The selected positions are in range, increasing, and each row there contains the query. |
| `DashboardLocation.NoMatchNoIndices` | dashboard/app.py:137 | With no matching row the mask keeps nothing. |
| `DashboardLocation.BlankQuerySelectsAll` | dashboard/app.py:137-140 | A name that strips to nothing selects every row, when none renders as empty text. |
| `DashboardLocation.ServedSeriesIsSelection` | dashboard/app.py:137-158 | A served series has min(500, n) points, one per matching row in dataset order. |
| `DashboardLocation.NotFoundExactly` | dashboard/app.py:121-142 | 404 comes back exactly when a name is given, the location column exists, and no location contains the query. |
| `DashboardLocation.NameCaseIgnored` | dashboard/app.py:137-140 | Lower-casing the name changes nothing in the answer. |
| `DashboardLocation.SurroundingSpaceIgnored` | dashboard/app.py:137-140 | One space on each side of a non-empty name changes nothing in the answer. |
| `DashboardLocation.StripPadded` | dashboard/app.py:137 | A space on each side does not change what a string strips to. |
| `DashboardLocation.UnderscoreRoadColumnOnlyInSummary` | dashboard/app.py:129-135 | For a column spelled "Road_Intersection Name", the summary groups by it but the location lookup falls back to "Area Name". |

## Left out

- The vision module `traffic_yolo.py` is not part of this model. It loads a YOLO model through a foreign library. Only its hard-coded counts are used, as `MockedCounts`.
- `traffic_llm.py` is not part of this model. It is a call to a remote language model and is never invoked.
- `main.py` is a dispatch with no logic of its own, and is not part of this model.
- `time.sleep` and `print` in the controller are emitted as `Wait` and other trace events. No clock or console is modelled.
- Negative vehicle counts are excluded by `NonNegativeCounts`. For them `time.sleep` would raise.
- `TrafficController.JunctionCycle` requires `HasAllDirections`. A counts dict missing an approach makes `counts[dir]` raise `KeyError` at traffic_controller.py:18, after the earlier approaches have run. That error path is not modelled.
- Flask itself is not modelled: routing, `jsonify`, templates, the index page and host/port/debug settings. HTTP answers are modelled as status codes with a message.
- CSV path detection, environment variables and `pd.read_csv` with its date-parse fallback are file-system I/O. The dataset arrives as an `Option<Table>` parameter.
- Floating point is not modelled. Sums, means and `count / 300.0` are exact reals, so float rounding corner cases of `int(tot * 0.6)` and of the means are not captured.
- Missing values (NaN) are not modelled: every row has a cell for every column. So `pd.notna` checks always pass, and pandas' dropping of NaN group keys does not arise.
- `DashboardSummary.SortByCongestionCorrect`: only the ordering and the permutation are stated. pandas' unstable sort order among ties is not modelled.
- The groups come in order of first appearance, not pandas' sorted key order. This is invisible after the sort, except among ties.
- `Strings.Lower` covers ASCII letters only. `Strings.IsSpace` covers the ASCII and Latin-1 white space that `str.isspace` accepts, not all of Unicode.
- `DashboardLocation.CellText` renders a number by its integer part. `astype(str)` would render a float column as e.g. "12.0". The `Date` text is the cell's text; datetime formatting is not modelled.
- `DashboardLocation.Matches` treats the partial match as plain substring containment. pandas' `str.contains` treats the query as a regular expression, so names with regex metacharacters behave differently and an invalid pattern raises.
- Text in a numeric column is an error in the model: `NonNumericValue` in the summary, a 500 from the location endpoint. Python's `int("12")` and `float("1.5")` would accept digit strings in the location endpoint.
- Every exception the dashboard raises is modelled as an error value. Flask serves each such error as a 500.
