/**
 * `create_summary` and `api_summary`: resolve the columns, zero-fill the missing
 * numeric ones in place, group the rows by location, derive the split green times
 * and the alert text, and order the groups by congestion, most congested first.
 */
module DashboardSummary {
  import opened Wrappers
  import opened Strings
  import opened DashboardTiming
  import opened DashboardFrame

  /** The actual column names `create_summary` works with. */
  datatype SummaryColumns = SummaryColumns(
    volume: string, speed: string, congestion: string, incidents: string, location: string)

  /**
   * The location column: a road/intersection column under either accepted
   * spelling, else an area column, else the literal "Area Name" (which need not exist).
   */
  function ResolveLocation(columns: seq<string>): (location: string)
    ensures HasColumn(columns, "road/intersection name") ==>
              location in columns && Lower(location) == "road/intersection name"
    ensures !HasColumn(columns, "road/intersection name") && HasColumn(columns, "road_intersection name") ==>
              location in columns && Lower(location) == "road_intersection name"
    ensures !HasColumn(columns, "road/intersection name") && !HasColumn(columns, "road_intersection name") ==>
              if HasColumn(columns, "area name")
              then location in columns && Lower(location) == "area name"
              else location == "Area Name"
  {
    var road := ResolveColumn(columns, "road/intersection name", "road_intersection name", "Road/Intersection Name");
    LowerRoadName();
    NotAColumn(columns, "Road/Intersection Name", "road/intersection name");
    if road !in columns then Get(ColumnMap(columns), "area name", "Area Name") else road
  }

  lemma LowerRoadName()
    ensures Lower("Road/Intersection Name") == "road/intersection name"
  {
  }

  /**
   * Each numeric field takes its first accepted spelling, then its second, then the
   * canonical name (see `ResolveColumn`); the location is `ResolveLocation`.
   */
  function ResolveSummaryColumns(columns: seq<string>): SummaryColumns {
    SummaryColumns(
      ResolveColumn(columns, "traffic volume", "traffic_volume", "Traffic Volume"),
      ResolveColumn(columns, "average speed", "average_speed", "Average Speed"),
      ResolveColumn(columns, "congestion level", "congestion_level", "Congestion Level"),
      ResolveColumn(columns, "incident reports", "incident_reports", "Incident Reports"),
      ResolveLocation(columns))
  }

  /** A name whose lower-cased form matches no column is not a column. */
  lemma NotAColumn(columns: seq<string>, name: string, lowered: string)
    requires Lower(name) == lowered
    ensures !HasColumn(columns, lowered) ==> name !in columns
  {
    if name in columns {
      var i :| 0 <= i < |columns| && columns[i] == name;
      assert Lower(columns[i]) == lowered;
    }
  }

  /** `if name not in df.columns: df[name] = 0`. */
  function ZeroFill(t: Table, name: string): Table {
    if name in t.columns then t else WithColumn(t, name, Num(0.0))
  }

  /** The four zero-fill steps, in `create_summary`'s order: volume, speed, congestion, incidents. */
  function FillMissing(t: Table, cols: SummaryColumns): Table {
    ZeroFill(ZeroFill(ZeroFill(ZeroFill(t, cols.volume), cols.speed), cols.congestion), cols.incidents)
  }

  /** How many rows carry location `key`. */
  function CountWhere(rows: seq<Row>, loc: string, key: Cell): (n: nat)
    ensures n > 0 <==> exists i :: 0 <= i < |rows| && CellAt(rows[i], loc) == key
  {
    if rows == [] then 0
    else
      var init, last := rows[..|rows| - 1], rows[|rows| - 1];
      var n := CountWhere(init, loc, key) + if CellAt(last, loc) == key then 1 else 0;
      assert forall i :: 0 <= i < |init| ==> init[i] == rows[i];
      n
  }

  /** The sum of column `col` over the rows carrying location `key`. */
  function SumWhere(rows: seq<Row>, loc: string, key: Cell, col: string): real {
    if rows == [] then 0.0
    else
      var last := rows[|rows| - 1];
      SumWhere(rows[..|rows| - 1], loc, key, col) + if CellAt(last, loc) == key then NumberAt(last, col) else 0.0
  }

  /** The distinct location values, each once, in order of first appearance. */
  function LocationKeys(rows: seq<Row>, loc: string): (keys: seq<Cell>)
    ensures forall i, j :: 0 <= i < j < |keys| ==> keys[i] != keys[j]
    ensures forall k :: k in keys <==> CountWhere(rows, loc, k) > 0
  {
    if rows == [] then []
    else
      var init, key := rows[..|rows| - 1], CellAt(rows[|rows| - 1], loc);
      var keys := LocationKeys(init, loc);
      assert forall k :: CountWhere(rows, loc, k) == CountWhere(init, loc, k) + if key == k then 1 else 0;
      if key in keys then keys else keys + [key]
  }

  /** One summary row: `location` and the aggregated and derived columns of `agg`. */
  datatype LocationSummary = LocationSummary(
    location: Cell,
    totalTraffic: int,
    avgSpeed: real,
    avgCongestion: real,
    incidents: real,
    nsGreen: int,
    ewGreen: int,
    alert: string)

  /** `f"{int(x)} reported" if x > 0 else ""`. */
  function Alert(incidents: real): string {
    if incidents > 0.0 then IntToString(Trunc(incidents)) + " reported" else ""
  }

  /** The alert is empty exactly when nothing was reported, and otherwise names the whole count. */
  lemma AlertNamesIncidents(incidents: real)
    ensures Alert(incidents) == "" <==> incidents <= 0.0
    ensures incidents > 0.0 ==>
      var a := Alert(incidents);
      |a| > 9 && a[|a| - 9..] == " reported" && IsDigits(a[..|a| - 9])
      && ParseNat(a[..|a| - 9]) == Trunc(incidents)
      && (|a| == 10 || a[0] != '0')
  {
    if incidents > 0.0 {
      var digits := NatToString(Trunc(incidents));
      var a := Alert(incidents);
      assert a == digits + " reported";
      assert a[..|a| - 9] == digits;
      assert a[|a| - 9..] == " reported";
      ParseNatToString(Trunc(incidents));
    }
  }

  /** The `agg` row of the rows carrying location `key`. */
  function GroupSummary(rows: seq<Row>, cols: SummaryColumns, key: Cell): LocationSummary
    requires CountWhere(rows, cols.location, key) > 0
  {
    var n := CountWhere(rows, cols.location, key) as real;
    var total := SumWhere(rows, cols.location, key, cols.volume);
    var incidents := SumWhere(rows, cols.location, key, cols.incidents);
    var split := SplitTraffic(total);
    LocationSummary(
      key,
      Trunc(total),
      RoundTo2(SumWhere(rows, cols.location, key, cols.speed) / n),
      RoundTo2(SumWhere(rows, cols.location, key, cols.congestion) / n),
      incidents,
      DefaultGreenTime(split.0),
      DefaultGreenTime(split.1),
      Alert(incidents))
  }

  /** `df.groupby(loc_col).agg(...)` with the derived columns, one row per location. */
  function Groups(rows: seq<Row>, cols: SummaryColumns): seq<LocationSummary> {
    var keys := LocationKeys(rows, cols.location);
    seq(|keys|, i requires 0 <= i < |keys| => GroupSummary(rows, cols, keys[i]))
  }

  predicate SortedByCongestion(s: seq<LocationSummary>) {
    forall i, j :: 0 <= i < j < |s| ==> s[i].avgCongestion >= s[j].avgCongestion
  }

  function InsertByCongestion(x: LocationSummary, s: seq<LocationSummary>): seq<LocationSummary> {
    if s == [] then [x]
    else if x.avgCongestion >= s[0].avgCongestion then [x] + s
    else [s[0]] + InsertByCongestion(x, s[1..])
  }

  /** Inserting adds exactly `x`. */
  lemma {:induction false} InsertPermutes(x: LocationSummary, s: seq<LocationSummary>)
    ensures multiset(InsertByCongestion(x, s)) == multiset(s) + multiset{x}
  {
    if s != [] && x.avgCongestion < s[0].avgCongestion {
      InsertPermutes(x, s[1..]);
      assert s == [s[0]] + s[1..];
    }
  }

  /** Inserting an element no more congested than `c` into such a sequence keeps every element at most `c`. */
  lemma {:induction false} InsertBounded(x: LocationSummary, s: seq<LocationSummary>, c: real)
    requires x.avgCongestion <= c
    requires forall i :: 0 <= i < |s| ==> s[i].avgCongestion <= c
    ensures forall i :: 0 <= i < |InsertByCongestion(x, s)| ==> InsertByCongestion(x, s)[i].avgCongestion <= c
  {
    if s != [] && x.avgCongestion < s[0].avgCongestion {
      InsertBounded(x, s[1..], c);
    }
  }

  /** Inserting into a congestion-ordered sequence keeps it ordered. */
  lemma {:induction false} InsertSorted(x: LocationSummary, s: seq<LocationSummary>)
    requires SortedByCongestion(s)
    ensures SortedByCongestion(InsertByCongestion(x, s))
  {
    if s != [] && x.avgCongestion < s[0].avgCongestion {
      var tail := s[1..];
      var rest := InsertByCongestion(x, tail);
      InsertSorted(x, tail);
      InsertBounded(x, tail, s[0].avgCongestion);
      var r := [s[0]] + rest;
      assert forall j :: 0 < j < |r| ==> r[j] == rest[j - 1];
    }
  }

  /** `sort_values(by="avg_congestion", ascending=False)`, as an insertion sort. */
  function SortByCongestion(s: seq<LocationSummary>): seq<LocationSummary> {
    if s == [] then [] else InsertByCongestion(s[0], SortByCongestion(s[1..]))
  }

  /** The sort is a reordering with the most congested first. */
  lemma {:induction false} SortByCongestionCorrect(s: seq<LocationSummary>)
    ensures SortedByCongestion(SortByCongestion(s))
    ensures multiset(SortByCongestion(s)) == multiset(s)
  {
    if s != [] {
      SortByCongestionCorrect(s[1..]);
      InsertSorted(s[0], SortByCongestion(s[1..]));
      InsertPermutes(s[0], SortByCongestion(s[1..]));
      assert s == [s[0]] + s[1..];
    }
  }

  predicate NumericColumn(rows: seq<Row>, col: string) {
    forall i :: 0 <= i < |rows| ==> CellAt(rows[i], col).Num?
  }

  /** Why `create_summary` raises instead of returning a table. */
  datatype SummaryError =
    | MissingLocationColumn  // `groupby` on a column that does not exist (KeyError)
    | NonNumericValue        // text in a summed or averaged column (TypeError)
    | NoRows                 // `apply` on an empty `agg` hands back a frame, not a series (TypeError)

  /**
   * What `create_summary` makes of the rows it aggregates, the columns it resolved,
   * and whether the location column exists.
   */
  function SummaryFrom(rows: seq<Row>, cols: SummaryColumns, located: bool): Result<seq<LocationSummary>, SummaryError> {
    if !located then Failure(MissingLocationColumn)
    else if !(NumericColumn(rows, cols.volume) && NumericColumn(rows, cols.speed)
              && NumericColumn(rows, cols.congestion) && NumericColumn(rows, cols.incidents))
    then Failure(NonNumericValue)
    else if rows == [] then Failure(NoRows)
    else Success(SortByCongestion(Groups(rows, cols)))
  }

  /** `create_summary(df)` on the dataset `t`. */
  function Summarize(t: Table): Result<seq<LocationSummary>, SummaryError> {
    var cols := ResolveSummaryColumns(t.columns);
    var filled := FillMissing(t, cols);
    SummaryFrom(filled.rows, cols, cols.location in filled.columns)
  }

  /** `create_summary(df)`: zero-fills the missing numeric columns of `df` itself, then aggregates. */
  method CreateSummary(df: Frame) returns (result: Result<seq<LocationSummary>, SummaryError>)
    requires df.Valid()
    modifies df
    ensures df.Valid()
    ensures df.Snapshot() == FillMissing(old(df.Snapshot()), ResolveSummaryColumns(old(df.columns)))
    ensures result == Summarize(old(df.Snapshot()))
  {
    var cols := ResolveSummaryColumns(df.columns);
    if cols.volume !in df.columns {
      df.SetColumn(cols.volume, Num(0.0));
    }
    if cols.speed !in df.columns {
      df.SetColumn(cols.speed, Num(0.0));
    }
    if cols.congestion !in df.columns {
      df.SetColumn(cols.congestion, Num(0.0));
    }
    if cols.incidents !in df.columns {
      df.SetColumn(cols.incidents, Num(0.0));
    }
    if cols.location !in df.columns {
      return Failure(MissingLocationColumn);
    }
    var rows := df.rows;
    if !(NumericColumn(rows, cols.volume) && NumericColumn(rows, cols.speed)
         && NumericColumn(rows, cols.congestion) && NumericColumn(rows, cols.incidents)) {
      return Failure(NonNumericValue);
    }
    if rows == [] {
      return Failure(NoRows);
    }
    result := Success(SortByCongestion(Groups(rows, cols)));
  }

  /** At most this many summary rows are served. */
  const SummaryLimit: int := 50

  /** `GET /api/summary` on the dataset found, if any. */
  function SummaryResponse(dataset: Option<Table>): Response<seq<LocationSummary>> {
    match dataset
    case None => Error(400, "dataset not found")
    case Some(t) =>
      match Summarize(t)
      case Failure(_) => Error(500, "internal server error")
      case Success(s) => Ok(s[..Min(SummaryLimit, |s|)])
  }

  /** `api_summary()`: load, summarise on a fresh frame, serve the first 50 rows. */
  method ApiSummary(dataset: Option<Table>) returns (response: Response<seq<LocationSummary>>)
    requires dataset.Some? ==> WellFormed(dataset.value)
    ensures response == SummaryResponse(dataset)
    ensures response.Ok? ==> |response.body| <= SummaryLimit
  {
    if dataset.None? {
      return Error(400, "dataset not found");
    }
    var df := new Frame(dataset.value);
    var summary := CreateSummary(df);
    match summary
    case Failure(_) =>
      response := Error(500, "internal server error");
    case Success(s) =>
      response := Ok(s[..Min(SummaryLimit, |s|)]);
  }

  // ----- What the summary says about the dataset -----

  /**
   * `r` has the rows of `t`, keeps its columns and their cells, and reads every
   * number as `t` does (a column `t` lacks reads as 0 in both).
   */
  ghost predicate ReadsLike(r: Table, t: Table) {
    && WellFormed(r)
    && |r.rows| == |t.rows|
    && (forall c :: c in t.columns ==> c in r.columns)
    && (forall i :: 0 <= i < |t.rows| ==> SameRowReadings(r.rows[i], t.rows[i], t.columns))
  }

  ghost predicate SameRowReadings(a: Row, b: Row, columns: seq<string>) {
    forall c :: NumberAt(a, c) == NumberAt(b, c) && (c in columns ==> CellAt(a, c) == CellAt(b, c))
  }

  lemma ZeroFillReadsLike(t: Table, name: string)
    requires WellFormed(t)
    ensures ReadsLike(ZeroFill(t, name), t)
    ensures forall c :: c in ZeroFill(t, name).columns ==> c in t.columns || c == name
  {
    var r := ZeroFill(t, name);
    if name !in t.columns {
      forall i | 0 <= i < |t.rows|
        ensures SameRowReadings(r.rows[i], t.rows[i], t.columns)
      {
        assert RowFits(t.rows[i], t.columns);
        assert r.rows[i] == t.rows[i][name := Num(0.0)];
      }
    } else {
      forall i | 0 <= i < |t.rows|
        ensures SameRowReadings(r.rows[i], t.rows[i], t.columns)
      {
      }
    }
  }

  lemma ReadsLikeTransitive(a: Table, b: Table, c: Table)
    requires ReadsLike(a, b) && ReadsLike(b, c)
    ensures ReadsLike(a, c)
  {
    forall i | 0 <= i < |c.rows|
      ensures SameRowReadings(a.rows[i], c.rows[i], c.columns)
    {
      assert SameRowReadings(a.rows[i], b.rows[i], b.columns);
      assert SameRowReadings(b.rows[i], c.rows[i], c.columns);
    }
  }

  /** The literal a numeric field falls back to when no accepted spelling is a column. */
  predicate IsDefaultNumericName(name: string) {
    name == "Traffic Volume" || name == "Average Speed" || name == "Congestion Level" || name == "Incident Reports"
  }

  /** A resolved name that is not a column is the fallback literal. */
  lemma UnresolvedIsFallback(columns: seq<string>, first: string, second: string, fallback: string)
    ensures ResolveColumn(columns, first, second, fallback) !in columns ==>
              ResolveColumn(columns, first, second, fallback) == fallback
  {
  }

  /**
   * Zero-filling adds only absent default-named columns, keeps every other column's
   * cells, and reads every number as before (an absent column reads as 0 either way).
   */
  lemma FillMissingReadsLike(t: Table)
    requires WellFormed(t)
    ensures var filled := FillMissing(t, ResolveSummaryColumns(t.columns));
      && ReadsLike(filled, t)
      && forall c :: c in filled.columns && c !in t.columns ==> IsDefaultNumericName(c)
  {
    var cols := ResolveSummaryColumns(t.columns);
    UnresolvedIsFallback(t.columns, "traffic volume", "traffic_volume", "Traffic Volume");
    UnresolvedIsFallback(t.columns, "average speed", "average_speed", "Average Speed");
    UnresolvedIsFallback(t.columns, "congestion level", "congestion_level", "Congestion Level");
    UnresolvedIsFallback(t.columns, "incident reports", "incident_reports", "Incident Reports");
    var t1 := ZeroFill(t, cols.volume);
    var t2 := ZeroFill(t1, cols.speed);
    var t3 := ZeroFill(t2, cols.congestion);
    var t4 := ZeroFill(t3, cols.incidents);
    ZeroFillReadsLike(t, cols.volume);
    ZeroFillReadsLike(t1, cols.speed);
    ZeroFillReadsLike(t2, cols.congestion);
    ZeroFillReadsLike(t3, cols.incidents);
    ReadsLikeTransitive(t2, t1, t);
    ReadsLikeTransitive(t3, t2, t);
    ReadsLikeTransitive(t4, t3, t);
  }

  /** Two row sequences that agree on every location cell and every number. */
  ghost predicate SameReadings(a: seq<Row>, b: seq<Row>, loc: string) {
    |a| == |b|
    && forall i :: 0 <= i < |a| ==>
         CellAt(a[i], loc) == CellAt(b[i], loc) && forall c :: NumberAt(a[i], c) == NumberAt(b[i], c)
  }

  lemma {:induction false} AggregatesAgree(a: seq<Row>, b: seq<Row>, loc: string)
    requires SameReadings(a, b, loc)
    ensures LocationKeys(a, loc) == LocationKeys(b, loc)
    ensures forall k :: CountWhere(a, loc, k) == CountWhere(b, loc, k)
    ensures forall k, c :: SumWhere(a, loc, k, c) == SumWhere(b, loc, k, c)
  {
    if a != [] {
      var n := |a|;
      assert SameReadings(a[..n - 1], b[..n - 1], loc) by {
        forall i | 0 <= i < n - 1 ensures a[..n - 1][i] == a[i] && b[..n - 1][i] == b[i] { }
      }
      AggregatesAgree(a[..n - 1], b[..n - 1], loc);
    }
  }

  lemma GroupsAgree(a: seq<Row>, b: seq<Row>, cols: SummaryColumns)
    requires SameReadings(a, b, cols.location)
    ensures Groups(a, cols) == Groups(b, cols)
  {
    AggregatesAgree(a, b, cols.location);
  }

  /** The location column exists after zero-filling only if it existed before. */
  lemma LocationNotFilled(t: Table)
    requires WellFormed(t)
    ensures var cols := ResolveSummaryColumns(t.columns);
      cols.location in FillMissing(t, cols).columns <==> cols.location in t.columns
  {
    FillMissingReadsLike(t);
  }

  /**
   * A successful summary is the per-location groups of the dataset's own rows,
   * reordered so that congestion never increases down the table.
   */
  lemma SummaryIsOrderedGroups(t: Table)
    requires WellFormed(t) && Summarize(t).Success?
    ensures var cols := ResolveSummaryColumns(t.columns);
      && cols.location in t.columns
      && |t.rows| > 0
      && Summarize(t).value == SortByCongestion(Groups(t.rows, cols))
  {
    var cols := ResolveSummaryColumns(t.columns);
    var filled := FillMissing(t, cols);
    FillMissingReadsLike(t);
    LocationNotFilled(t);
    assert SameReadings(filled.rows, t.rows, cols.location) by {
      forall i | 0 <= i < |t.rows|
        ensures CellAt(filled.rows[i], cols.location) == CellAt(t.rows[i], cols.location)
        ensures forall c :: NumberAt(filled.rows[i], c) == NumberAt(t.rows[i], c)
      {
        assert SameRowReadings(filled.rows[i], t.rows[i], t.columns);
      }
    }
    GroupsAgree(filled.rows, t.rows, cols);
  }

  /** Zero-filling changes no cell: a column it adds was absent, and an absent cell reads as 0. */
  lemma ZeroFillKeepsCells(t: Table, name: string)
    requires WellFormed(t)
    ensures |ZeroFill(t, name).rows| == |t.rows|
    ensures forall i, c :: 0 <= i < |t.rows| ==> CellAt(ZeroFill(t, name).rows[i], c) == CellAt(t.rows[i], c)
  {
    if name !in t.columns {
      forall i, c | 0 <= i < |t.rows|
        ensures CellAt(ZeroFill(t, name).rows[i], c) == CellAt(t.rows[i], c)
      {
        assert RowFits(t.rows[i], t.columns);
      }
    }
  }

  /** Row by row, column `x` of rows `a` holds the cells column `y` of rows `b` holds. */
  ghost predicate SameCells(a: seq<Row>, x: string, b: seq<Row>, y: string) {
    |a| == |b| && forall i :: 0 <= i < |a| ==> CellAt(a[i], x) == CellAt(b[i], y)
  }

  /** Rows `a` read through columns `ca` show the cells rows `b` show through `cb`. */
  ghost predicate SameView(a: seq<Row>, ca: SummaryColumns, b: seq<Row>, cb: SummaryColumns) {
    && SameCells(a, ca.location, b, cb.location)
    && SameCells(a, ca.volume, b, cb.volume)
    && SameCells(a, ca.speed, b, cb.speed)
    && SameCells(a, ca.congestion, b, cb.congestion)
    && SameCells(a, ca.incidents, b, cb.incidents)
  }

  lemma SameCellsPrefix(a: seq<Row>, x: string, b: seq<Row>, y: string)
    requires SameCells(a, x, b, y) && a != []
    ensures SameCells(a[..|a| - 1], x, b[..|b| - 1], y)
    ensures CellAt(a[|a| - 1], x) == CellAt(b[|b| - 1], y)
  {
    var n := |a| - 1;
    forall i | 0 <= i < n ensures a[..n][i] == a[i] && b[..n][i] == b[i] { }
  }

  lemma {:induction false} KeysAcross(a: seq<Row>, x: string, b: seq<Row>, y: string)
    requires SameCells(a, x, b, y)
    ensures LocationKeys(a, x) == LocationKeys(b, y)
    ensures forall k :: CountWhere(a, x, k) == CountWhere(b, y, k)
  {
    if a != [] {
      SameCellsPrefix(a, x, b, y);
      KeysAcross(a[..|a| - 1], x, b[..|b| - 1], y);
    }
  }

  lemma {:induction false} SumAcross(a: seq<Row>, x: string, ca: string, b: seq<Row>, y: string, cb: string)
    requires SameCells(a, x, b, y) && SameCells(a, ca, b, cb)
    ensures forall k :: SumWhere(a, x, k, ca) == SumWhere(b, y, k, cb)
  {
    if a != [] {
      SameCellsPrefix(a, x, b, y);
      SameCellsPrefix(a, ca, b, cb);
      SumAcross(a[..|a| - 1], x, ca, b[..|b| - 1], y, cb);
    }
  }

  /** The summary depends on the rows only through the five cells its columns pick out. */
  lemma SummaryFromAgrees(a: seq<Row>, ca: SummaryColumns, b: seq<Row>, cb: SummaryColumns, located: bool)
    requires SameView(a, ca, b, cb)
    ensures SummaryFrom(a, ca, located) == SummaryFrom(b, cb, located)
  {
    ViewNumericAgree(a, ca, b, cb);
    if located && a != [] {
      ViewGroupsAgree(a, ca, b, cb);
    }
  }

  lemma NumericAcross(a: seq<Row>, x: string, b: seq<Row>, y: string)
    requires SameCells(a, x, b, y)
    ensures NumericColumn(a, x) == NumericColumn(b, y)
  {
  }

  lemma ViewNumericAgree(a: seq<Row>, ca: SummaryColumns, b: seq<Row>, cb: SummaryColumns)
    requires SameView(a, ca, b, cb)
    ensures NumericColumn(a, ca.volume) == NumericColumn(b, cb.volume)
    ensures NumericColumn(a, ca.speed) == NumericColumn(b, cb.speed)
    ensures NumericColumn(a, ca.congestion) == NumericColumn(b, cb.congestion)
    ensures NumericColumn(a, ca.incidents) == NumericColumn(b, cb.incidents)
  {
    NumericAcross(a, ca.volume, b, cb.volume);
    NumericAcross(a, ca.speed, b, cb.speed);
    NumericAcross(a, ca.congestion, b, cb.congestion);
    NumericAcross(a, ca.incidents, b, cb.incidents);
  }

  lemma ViewGroupsAgree(a: seq<Row>, ca: SummaryColumns, b: seq<Row>, cb: SummaryColumns)
    requires SameView(a, ca, b, cb)
    ensures Groups(a, ca) == Groups(b, cb)
  {
    KeysAcross(a, ca.location, b, cb.location);
    SumAcross(a, ca.location, ca.volume, b, cb.location, cb.volume);
    SumAcross(a, ca.location, ca.speed, b, cb.location, cb.speed);
    SumAcross(a, ca.location, ca.congestion, b, cb.location, cb.congestion);
    SumAcross(a, ca.location, ca.incidents, b, cb.location, cb.incidents);
    var keys := LocationKeys(a, ca.location);
    forall i | 0 <= i < |keys|
      ensures GroupSummary(a, ca, keys[i]) == GroupSummary(b, cb, keys[i])
    {
    }
  }

  /**
   * Zero-filling does not change the outcome: the summary is what the dataset's own
   * rows and resolved columns give, for every outcome including the failures.
   */
  lemma SummarizeReadsDataset(t: Table)
    requires WellFormed(t)
    ensures var cols := ResolveSummaryColumns(t.columns);
      Summarize(t) == SummaryFrom(t.rows, cols, cols.location in t.columns)
  {
    var cols := ResolveSummaryColumns(t.columns);
    var t1 := ZeroFill(t, cols.volume);
    var t2 := ZeroFill(t1, cols.speed);
    var t3 := ZeroFill(t2, cols.congestion);
    var t4 := ZeroFill(t3, cols.incidents);
    ZeroFillReadsLike(t, cols.volume);
    ZeroFillReadsLike(t1, cols.speed);
    ZeroFillReadsLike(t2, cols.congestion);
    ZeroFillKeepsCells(t, cols.volume);
    ZeroFillKeepsCells(t1, cols.speed);
    ZeroFillKeepsCells(t2, cols.congestion);
    ZeroFillKeepsCells(t3, cols.incidents);
    LocationNotFilled(t);
    assert SameView(t4.rows, cols, t.rows, cols);
    SummaryFromAgrees(t4.rows, cols, t.rows, cols, cols.location in t.columns);
  }

  /** A successful summary is sorted by congestion and is a reordering of the groups. */
  lemma SummaryIsSortedGroups(t: Table)
    requires WellFormed(t) && Summarize(t).Success?
    ensures var s := Summarize(t).value;
      SortedByCongestion(s) && multiset(s) == multiset(Groups(t.rows, ResolveSummaryColumns(t.columns)))
  {
    SummaryIsOrderedGroups(t);
    SortByCongestionCorrect(Groups(t.rows, ResolveSummaryColumns(t.columns)));
  }

  lemma {:induction false} DistinctCountsOnce<T>(a: seq<T>, x: T)
    requires forall i, j :: 0 <= i < j < |a| ==> a[i] != a[j]
    ensures multiset(a)[x] <= 1
  {
    if a != [] {
      var init := a[..|a| - 1];
      assert a == init + [a[|a| - 1]];
      DistinctCountsOnce(init, x);
      if a[|a| - 1] == x {
        assert x !in init;
      }
    }
  }

  lemma RepeatCountsTwice<T>(b: seq<T>, i: int, j: int)
    requires 0 <= i < j < |b| && b[i] == b[j]
    ensures multiset(b)[b[i]] >= 2
  {
    assert b == b[..j] + [b[j]] + b[j + 1..];
    assert b[..j][i] == b[i];
  }

  /**
   * Any reordering of the groups holds each location of the rows exactly once,
   * next to that location's aggregate.
   */
  lemma ReorderedGroups(rows: seq<Row>, cols: SummaryColumns, s: seq<LocationSummary>)
    requires multiset(s) == multiset(Groups(rows, cols))
    ensures forall i, j :: 0 <= i < j < |s| ==> s[i].location != s[j].location
    ensures forall i :: 0 <= i < |s| ==>
      CountWhere(rows, cols.location, s[i].location) > 0 && s[i] == GroupSummary(rows, cols, s[i].location)
    ensures forall k :: CountWhere(rows, cols.location, k) > 0 ==> exists i :: 0 <= i < |s| && s[i].location == k
  {
    var g := Groups(rows, cols);
    ReorderedGroupsAggregate(rows, cols, s);
    forall i, j | 0 <= i < j < |s|
      ensures s[i].location != s[j].location
    {
      if s[i].location == s[j].location {
        RepeatCountsTwice(s, i, j);
        GroupsDistinct(rows, cols);
        DistinctCountsOnce(g, s[i]);
        assert false;
      }
    }
    forall k | CountWhere(rows, cols.location, k) > 0
      ensures exists i :: 0 <= i < |s| && s[i].location == k
    {
      var keys := LocationKeys(rows, cols.location);
      var p :| 0 <= p < |keys| && keys[p] == k;
      assert g[p] in multiset(s);
      var i :| 0 <= i < |s| && s[i] == g[p];
    }
  }

  /** Every element of a reordering of the groups is the aggregate of a location that occurs. */
  lemma ReorderedGroupsAggregate(rows: seq<Row>, cols: SummaryColumns, s: seq<LocationSummary>)
    requires multiset(s) == multiset(Groups(rows, cols))
    ensures forall i :: 0 <= i < |s| ==>
      CountWhere(rows, cols.location, s[i].location) > 0 && s[i] == GroupSummary(rows, cols, s[i].location)
  {
    var g := Groups(rows, cols);
    forall i | 0 <= i < |s|
      ensures CountWhere(rows, cols.location, s[i].location) > 0 && s[i] == GroupSummary(rows, cols, s[i].location)
    {
      assert s[i] in multiset(g);
      var p :| 0 <= p < |g| && g[p] == s[i];
    }
  }

  /** The groups are pairwise different. */
  lemma GroupsDistinct(rows: seq<Row>, cols: SummaryColumns)
    ensures var g := Groups(rows, cols);
      forall i, j :: 0 <= i < j < |g| ==> g[i] != g[j]
  {
    var g := Groups(rows, cols);
    var keys := LocationKeys(rows, cols.location);
    assert forall p :: 0 <= p < |g| ==> g[p].location == keys[p];
  }


  /** Every location of the dataset appears in the summary, and exactly once. */
  lemma SummaryLocationsExact(t: Table)
    requires WellFormed(t) && Summarize(t).Success?
    ensures var loc := ResolveSummaryColumns(t.columns).location;
      var s := Summarize(t).value;
      && (forall i, j :: 0 <= i < j < |s| ==> s[i].location != s[j].location)
      && (forall i :: 0 <= i < |s| ==> exists r :: 0 <= r < |t.rows| && CellAt(t.rows[r], loc) == s[i].location)
      && (forall r :: 0 <= r < |t.rows| ==> exists i :: 0 <= i < |s| && s[i].location == CellAt(t.rows[r], loc))
  {
    SummaryIsSortedGroups(t);
    GroupLocationsExact(t.rows, ResolveSummaryColumns(t.columns), Summarize(t).value);
  }

  /** Any reordering of the groups holds each occurring location once and no other. */
  lemma GroupLocationsExact(rows: seq<Row>, cols: SummaryColumns, s: seq<LocationSummary>)
    requires multiset(s) == multiset(Groups(rows, cols))
    ensures (forall i, j :: 0 <= i < j < |s| ==> s[i].location != s[j].location)
      && (forall i :: 0 <= i < |s| ==> exists r :: 0 <= r < |rows| && CellAt(rows[r], cols.location) == s[i].location)
      && (forall r :: 0 <= r < |rows| ==> exists i :: 0 <= i < |s| && s[i].location == CellAt(rows[r], cols.location))
  {
    ReorderedGroups(rows, cols, s);
    forall r | 0 <= r < |rows|
      ensures CountWhere(rows, cols.location, CellAt(rows[r], cols.location)) > 0
    {
    }
  }

  /**
   * Each summary row aggregates exactly the rows carrying its location: summed
   * volume and incidents, mean speed and congestion to two decimals, the split
   * green suggestions and the alert text.
   */
  lemma SummaryRowAggregates(t: Table, i: int)
    requires WellFormed(t) && Summarize(t).Success? && 0 <= i < |Summarize(t).value|
    ensures var cols := ResolveSummaryColumns(t.columns);
      var x := Summarize(t).value[i];
      var rows, loc := t.rows, cols.location;
      var n := CountWhere(rows, loc, x.location);
      var total := SumWhere(rows, loc, x.location, cols.volume);
      && n > 0
      && x.totalTraffic == Trunc(total)
      && x.incidents == SumWhere(rows, loc, x.location, cols.incidents)
      && x.avgSpeed == RoundTo2(SumWhere(rows, loc, x.location, cols.speed) / n as real)
      && x.avgCongestion == RoundTo2(SumWhere(rows, loc, x.location, cols.congestion) / n as real)
      && x.nsGreen == DefaultGreenTime(SplitTraffic(total).0)
      && x.ewGreen == DefaultGreenTime(SplitTraffic(total).1)
      && x.alert == Alert(x.incidents)
  {
    var cols := ResolveSummaryColumns(t.columns);
    SummaryIsSortedGroups(t);
    ReorderedGroups(t.rows, cols, Summarize(t).value);
  }

  /** A group whose volume sums to 0 reports no traffic and suggests 20 s each way. */
  lemma ZeroVolumeGroup(rows: seq<Row>, cols: SummaryColumns, key: Cell)
    requires CountWhere(rows, cols.location, key) > 0
    requires SumWhere(rows, cols.location, key, cols.volume) == 0.0
    ensures var x := GroupSummary(rows, cols, key);
      x.totalTraffic == 0 && x.nsGreen == BaseGreen && x.ewGreen == BaseGreen
  {
    DefaultGreenTimeBounds(0);
    assert SplitTraffic(0.0) == (0, 0);
  }

  /** With no accepted volume spelling, the volume column is the absent literal "Traffic Volume". */
  lemma VolumeFallback(columns: seq<string>)
    requires !HasColumn(columns, "traffic volume") && !HasColumn(columns, "traffic_volume")
    ensures ResolveSummaryColumns(columns).volume == "Traffic Volume" && "Traffic Volume" !in columns
  {
    assert Lower("Traffic Volume") == "traffic volume";
    NotAColumn(columns, "Traffic Volume", "traffic volume");
  }

  /** Rows of a location whose volume column is absent sum to 0, so its split suggests 20 s each way. */
  lemma MissingVolumeReadsZero(t: Table)
    requires WellFormed(t) && Summarize(t).Success?
    requires !HasColumn(t.columns, "traffic volume") && !HasColumn(t.columns, "traffic_volume")
    ensures forall x :: x in Summarize(t).value ==>
      x.totalTraffic == 0 && x.nsGreen == BaseGreen && x.ewGreen == BaseGreen
  {
    var cols := ResolveSummaryColumns(t.columns);
    VolumeFallback(t.columns);
    forall i | 0 <= i < |t.rows|
      ensures cols.volume !in t.rows[i]
    {
      assert RowFits(t.rows[i], t.columns);
    }
    SummaryIsSortedGroups(t);
    var s := Summarize(t).value;
    ReorderedGroups(t.rows, cols, s);
    forall x | x in s
      ensures x.totalTraffic == 0 && x.nsGreen == BaseGreen && x.ewGreen == BaseGreen
    {
      var i :| 0 <= i < |s| && s[i] == x;
      AbsentColumnSumsToZero(t.rows, cols.location, x.location, cols.volume);
      ZeroVolumeGroup(t.rows, cols, x.location);
    }
  }

  lemma {:induction false} AbsentColumnSumsToZero(rows: seq<Row>, loc: string, key: Cell, col: string)
    requires forall i :: 0 <= i < |rows| ==> col !in rows[i]
    ensures SumWhere(rows, loc, key, col) == 0.0
  {
    if rows != [] {
      var init := rows[..|rows| - 1];
      assert forall i :: 0 <= i < |init| ==> init[i] == rows[i];
      AbsentColumnSumsToZero(init, loc, key, col);
    }
  }

  /** The resolved location names a column exactly when one of the three accepted spellings does. */
  lemma LocationResolved(columns: seq<string>)
    ensures ResolveLocation(columns) in columns <==>
      HasColumn(columns, "road/intersection name") || HasColumn(columns, "road_intersection name")
      || HasColumn(columns, "area name")
  {
    assert Lower("Area Name") == "area name";
    NotAColumn(columns, "Area Name", "area name");
  }

  /**
   * The summary fails for want of a location column exactly when neither
   * road/intersection spelling nor an area column exists.
   */
  lemma MissingLocationColumnExactly(t: Table)
    requires WellFormed(t)
    ensures Summarize(t) == Failure(MissingLocationColumn) <==>
      !HasColumn(t.columns, "road/intersection name") && !HasColumn(t.columns, "road_intersection name")
      && !HasColumn(t.columns, "area name")
  {
    LocationNotFilled(t);
    LocationResolved(t.columns);
  }

  /** A dataset with a location column but no rows makes the summary fail rather than come back empty. */
  lemma EmptyDatasetFails(t: Table)
    requires WellFormed(t) && t.rows == [] && ResolveSummaryColumns(t.columns).location in t.columns
    ensures Summarize(t) == Failure(NoRows)
  {
    LocationNotFilled(t);
  }

  /** A prefix of a congestion-ordered sequence of distinct locations is one too. */
  lemma PrefixKeepsOrder(s: seq<LocationSummary>, n: nat)
    requires n <= |s| && SortedByCongestion(s)
    requires forall i, j :: 0 <= i < j < |s| ==> s[i].location != s[j].location
    ensures SortedByCongestion(s[..n])
    ensures forall i, j :: 0 <= i < j < n ==> s[..n][i].location != s[..n][j].location
  {
  }

  /**
   * The served summary is the first 50 rows of the full one: the most congested
   * locations, each once, in non-increasing congestion.
   */
  lemma SummaryResponseIsTopRows(t: Table)
    requires WellFormed(t)
    ensures var response := SummaryResponse(Some(t));
      (response.Ok? <==> Summarize(t).Success?)
      && (response.Ok? ==>
            var s := Summarize(t).value;
            && |response.body| == Min(SummaryLimit, |s|)
            && response.body == s[..|response.body|]
            && SortedByCongestion(response.body)
            && forall i, j :: 0 <= i < j < |response.body| ==> response.body[i].location != response.body[j].location)
  {
    var summary := Summarize(t);
    if summary.Success? {
      var s := summary.value;
      SummaryIsSortedGroups(t);
      SummaryLocationsExact(t);
      PrefixKeepsOrder(s, Min(SummaryLimit, |s|));
    }
  }

  /** A speed, congestion or incident field never resolves to either volume spelling. */
  lemma OtherNumericNotVolume(columns: seq<string>, first: string, second: string, fallback: string)
    requires first in ["average speed", "congestion level", "incident reports"]
    requires second in ["average_speed", "congestion_level", "incident_reports"]
    requires fallback in ["Average Speed", "Congestion Level", "Incident Reports"]
    ensures ResolveColumn(columns, first, second, fallback) != "Traffic Volume"
    ensures ResolveColumn(columns, first, second, fallback) != "traffic_volume"
  {
    LowerVolumeNames();
  }

  /** The location never resolves to either volume spelling. */
  lemma LocationNotVolume(columns: seq<string>)
    ensures ResolveLocation(columns) != "Traffic Volume" && ResolveLocation(columns) != "traffic_volume"
  {
    LowerVolumeNames();
  }

  /** Besides the volume, no resolved field is either volume spelling. */
  lemma ResolvedApartFromVolume(columns: seq<string>)
    ensures var c := ResolveSummaryColumns(columns);
      && c.speed != "Traffic Volume" && c.speed != "traffic_volume"
      && c.congestion != "Traffic Volume" && c.congestion != "traffic_volume"
      && c.incidents != "Traffic Volume" && c.incidents != "traffic_volume"
      && c.location != "Traffic Volume" && c.location != "traffic_volume"
  {
    OtherNumericNotVolume(columns, "average speed", "average_speed", "Average Speed");
    OtherNumericNotVolume(columns, "congestion level", "congestion_level", "Congestion Level");
    OtherNumericNotVolume(columns, "incident reports", "incident_reports", "Incident Reports");
    LocationNotVolume(columns);
  }

  /** `name` is the only column that lower-cases to `lowered`. */
  ghost predicate OnlySpelling(columns: seq<string>, name: string, lowered: string) {
    forall c :: c in columns && Lower(c) == lowered ==> c == name
  }

  /** A field whose spellings differ from both lower-cased names resolves alike after a rename. */
  lemma ResolveColumnRenamed(columns: seq<string>, from: string, to: string, first: string, second: string, fallback: string)
    requires first != Lower(from) && first != Lower(to) && second != Lower(from) && second != Lower(to)
    ensures ResolveColumn(RenamedColumns(columns, from, to), first, second, fallback)
         == ResolveColumn(columns, first, second, fallback)
  {
    ColumnMapRename(columns, from, to, first);
    ColumnMapRename(columns, from, to, second);
  }

  /** Neither volume spelling is a speed, congestion or incident spelling. */
  lemma ResolveOtherNumericRenamed(columns: seq<string>, first: string, second: string, fallback: string)
    requires first in ["average speed", "congestion level", "incident reports"]
    requires second in ["average_speed", "congestion_level", "incident_reports"]
    ensures ResolveColumn(RenamedColumns(columns, "Traffic Volume", "traffic_volume"), first, second, fallback)
         == ResolveColumn(columns, first, second, fallback)
  {
    LowerVolumeNames();
    ResolveColumnRenamed(columns, "Traffic Volume", "traffic_volume", first, second, fallback);
  }

  /** Neither volume spelling is a location spelling, so the location resolves alike after the rename. */
  lemma ResolveLocationRenamed(columns: seq<string>)
    ensures ResolveLocation(RenamedColumns(columns, "Traffic Volume", "traffic_volume")) == ResolveLocation(columns)
  {
    var from, to := "Traffic Volume", "traffic_volume";
    var roadKey, roadAlt := "road/intersection name", "road_intersection name";
    LowerVolumeNames();
    ResolveColumnRenamed(columns, from, to, roadKey, roadAlt, "Road/Intersection Name");
    ColumnMapRename(columns, from, to, "area name");
    LowerRoadName();
    var road := ResolveColumn(columns, roadKey, roadAlt, "Road/Intersection Name");
    assert Lower(road) != Lower(from) && Lower(road) != Lower(to);
    RenamedColumnsMembers(columns, from, to);
  }

  lemma LowerVolumeNames()
    ensures Lower("Traffic Volume") == "traffic volume"
    ensures Lower("traffic_volume") == "traffic_volume"
  {
  }

  /** With "Traffic Volume" the only column that lower-cases to "traffic volume", the volume is that column. */
  lemma ResolveVolumeBefore(columns: seq<string>)
    requires "Traffic Volume" in columns
    requires OnlySpelling(columns, "Traffic Volume", "traffic volume")
    ensures ResolveColumn(columns, "traffic volume", "traffic_volume", "Traffic Volume") == "Traffic Volume"
  {
    LowerVolumeNames();
    var j :| 0 <= j < |columns| && columns[j] == "Traffic Volume";
    assert Lower(columns[j]) == "traffic volume";
  }

  /**
   * After renaming that column to "traffic_volume", which no other column
   * lower-cases to, the volume is the renamed column.
   */
  lemma ResolveVolumeAfter(columns: seq<string>)
    requires "Traffic Volume" in columns
    requires OnlySpelling(columns, "Traffic Volume", "traffic volume")
    requires !HasColumn(columns, "traffic_volume")
    ensures ResolveColumn(RenamedColumns(columns, "Traffic Volume", "traffic_volume"),
                          "traffic volume", "traffic_volume", "Traffic Volume") == "traffic_volume"
  {
    var from, to := "Traffic Volume", "traffic_volume";
    var renamed := RenamedColumns(columns, from, to);
    LowerVolumeNames();
    RenamedColumnsMembers(columns, from, to);
    var j :| 0 <= j < |columns| && columns[j] == from;
    assert renamed[j] == to;
    forall c | c in columns
      ensures Lower(c) != "traffic_volume"
    {
      var i :| 0 <= i < |columns| && columns[i] == c;
    }
    forall i | 0 <= i < |renamed|
      ensures Lower(renamed[i]) != "traffic volume"
    {
      if columns[i] != from {
        assert columns[i] in columns;
      }
    }
  }

  /** The rename moves the volume field to the new name and resolves every other field as before. */
  lemma ResolveSummaryRenamed(columns: seq<string>)
    requires "Traffic Volume" in columns
    requires OnlySpelling(columns, "Traffic Volume", "traffic volume")
    requires !HasColumn(columns, "traffic_volume")
    ensures var before := ResolveSummaryColumns(columns);
      && before.volume == "Traffic Volume"
      && ResolveSummaryColumns(RenamedColumns(columns, "Traffic Volume", "traffic_volume"))
         == before.(volume := "traffic_volume")
  {
    ResolveVolumeBefore(columns);
    ResolveVolumeAfter(columns);
    ResolveOtherNumericRenamed(columns, "average speed", "average_speed", "Average Speed");
    ResolveOtherNumericRenamed(columns, "congestion level", "congestion_level", "Congestion Level");
    ResolveOtherNumericRenamed(columns, "incident reports", "incident_reports", "Incident Reports");
    ResolveLocationRenamed(columns);
  }

  /**
   * After renaming the volume column, the renamed rows read through the new volume
   * name show the cells the old rows show through the old one.
   */
  lemma RenamedRowsSameView(t: Table, from: string, to: string, cols: SummaryColumns)
    requires WellFormed(t) && from in t.columns && cols.volume == from
    requires cols.speed != from && cols.speed != to && cols.congestion != from && cols.congestion != to
    requires cols.incidents != from && cols.incidents != to && cols.location != from && cols.location != to
    ensures SameView(RenameColumn(t, from, to).rows, cols.(volume := to), t.rows, cols)
  {
    var u := RenameColumn(t, from, to);
    forall i | 0 <= i < |t.rows|
      ensures CellAt(u.rows[i], to) == CellAt(t.rows[i], from)
      ensures forall c :: c != from && c != to ==> CellAt(u.rows[i], c) == CellAt(t.rows[i], c)
    {
      assert RowFits(t.rows[i], t.columns);
      RenamedRowCells(t.rows[i], from, to);
    }
  }

  /**
   * Which accepted spelling names the volume column does not change the summary:
   * renaming the only "traffic volume" column, "Traffic Volume", to "traffic_volume"
   * (a name no column lower-cases to) gives the same outcome, failures included.
   */
  lemma VolumeSpellingIrrelevant(t: Table)
    requires WellFormed(t)
    requires "Traffic Volume" in t.columns
    requires OnlySpelling(t.columns, "Traffic Volume", "traffic volume")
    requires !HasColumn(t.columns, "traffic_volume")
    ensures Summarize(RenameColumn(t, "Traffic Volume", "traffic_volume")) == Summarize(t)
  {
    var from, to := "Traffic Volume", "traffic_volume";
    var u := RenameColumn(t, from, to);
    var ct := ResolveSummaryColumns(t.columns);
    ResolveSummaryRenamed(t.columns);
    ResolvedApartFromVolume(t.columns);
    LowerVolumeNames();
    NotAColumn(t.columns, to, "traffic_volume");
    RenameWellFormed(t, from, to);
    RenamedColumnsMembers(t.columns, from, to);
    SummarizeReadsDataset(t);
    SummarizeReadsDataset(u);
    RenamedRowsSameView(t, from, to, ct);
    SummaryFromAgrees(u.rows, ct.(volume := to), t.rows, ct, ct.location in t.columns);
  }
}
