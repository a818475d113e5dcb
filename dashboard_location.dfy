/**
 * `api_location`: the time series of one location. The name is matched exactly,
 * ignoring case and surrounding white space, against the location column; when no
 * row matches exactly, any row whose location contains the name is taken instead.
 * The selected rows are turned into points in dataset order and at most 500 are
 * served.
 */
module DashboardLocation {
  import opened Wrappers
  import opened Strings
  import opened DashboardTiming
  import opened DashboardFrame
  import DashboardSummary

  /** The column names `api_location` reads. */
  datatype LocationColumns = LocationColumns(volume: string, speed: string, congestion: string, location: string)

  /** `col_map.get(key, fallback)`: a column whose lower-cased name is `key`, else `fallback`. */
  function LookupColumn(columns: seq<string>, key: string, fallback: string): (name: string)
    ensures HasColumn(columns, key) ==> name in columns && Lower(name) == key
    ensures !HasColumn(columns, key) ==> name == fallback
  {
    Get(ColumnMap(columns), key, fallback)
  }

  /**
   * Only the first spelling of each field is accepted here; the location is a
   * road/intersection column, else the literal "Area Name".
   */
  function LookupColumns(columns: seq<string>): (cols: LocationColumns)
    ensures HasColumn(columns, "road/intersection name") ==>
              cols.location in columns && Lower(cols.location) == "road/intersection name"
    ensures !HasColumn(columns, "road/intersection name") ==> cols.location == "Area Name"
  {
    var road := LookupColumn(columns, "road/intersection name", "Road/Intersection Name");
    LookupRoadFallback(columns);
    LocationColumns(
      LookupColumn(columns, "traffic volume", "Traffic Volume"),
      LookupColumn(columns, "average speed", "Average Speed"),
      LookupColumn(columns, "congestion level", "Congestion Level"),
      if road in columns then road else "Area Name")
  }

  /** The road fallback literal is a column only if some column lower-cases to its lower-case form. */
  lemma LookupRoadFallback(columns: seq<string>)
    ensures !HasColumn(columns, "road/intersection name") ==> "Road/Intersection Name" !in columns
  {
    assert Lower("Road/Intersection Name") == "road/intersection name";
    if "Road/Intersection Name" in columns {
      var i :| 0 <= i < |columns| && columns[i] == "Road/Intersection Name";
      assert Lower(columns[i]) == "road/intersection name";
    }
  }

  /** `astype(str)` on a cell; a number is rendered by its integer part. */
  function CellText(c: Cell): string {
    match c
    case Text(s) => s
    case Num(x) => IntToString(Trunc(x))
  }

  /** `name.strip().lower()`. */
  function Query(name: string): string {
    Lower(Strip(name))
  }

  /** The query has no capital and no white space at either end, and normalising it again changes nothing. */
  lemma QueryNormalised(name: string)
    ensures var q := Query(name);
      && |q| <= |name|
      && (forall i :: 0 <= i < |q| ==> !('A' <= q[i] <= 'Z'))
      && (q == [] || (!IsSpace(q[0]) && !IsSpace(q[|q| - 1])))
      && Query(q) == q
  {
    var s := Strip(name);
    var q := Lower(s);
    if s != [] {
      LowerKeepsSpace(s[0]);
      LowerKeepsSpace(s[|s| - 1]);
    }
    StripLower(s);
    StripIdempotent(name);
    LowerIdempotent(s);
  }

  /** The lower-cased location text of `row` equals `query` (exact) or contains it (partial). */
  predicate Matches(row: Row, loc: string, query: string, exact: bool) {
    var text := Lower(CellText(CellAt(row, loc)));
    if exact then text == query else Contains(text, query)
  }

  /** The boolean mask `... == query` (exact) or `....str.contains(query)` (partial) over the rows. */
  function Mask(rows: seq<Row>, loc: string, query: string, exact: bool): (mask: seq<bool>)
    ensures |mask| == |rows| && forall i :: 0 <= i < |rows| ==> mask[i] == Matches(rows[i], loc, query, exact)
  {
    seq(|rows|, i requires 0 <= i < |rows| => Matches(rows[i], loc, query, exact))
  }

  /** The positions a boolean mask keeps: increasing, every one true, and every true one among them. */
  function TruePositions(mask: seq<bool>): (idx: seq<int>)
    ensures forall i :: 0 <= i < |idx| ==> 0 <= idx[i] < |mask| && mask[idx[i]]
    ensures forall i, j :: 0 <= i < j < |idx| ==> idx[i] < idx[j]
    ensures forall r :: 0 <= r < |mask| && mask[r] ==> r in idx
  {
    if mask == [] then []
    else
      var n := |mask| - 1;
      var init := mask[..n];
      assert forall i :: 0 <= i < n ==> init[i] == mask[i];
      var idx := TruePositions(init);
      if mask[n] then idx + [n] else idx
  }

  /** `df[mask]`'s positions: increasing, every one a match, and every match among them. */
  function MatchIndices(rows: seq<Row>, loc: string, query: string, exact: bool): (idx: seq<int>)
    ensures forall i :: 0 <= i < |idx| ==> 0 <= idx[i] < |rows| && Matches(rows[idx[i]], loc, query, exact)
    ensures forall i, j :: 0 <= i < j < |idx| ==> idx[i] < idx[j]
    ensures forall r :: 0 <= r < |rows| && Matches(rows[r], loc, query, exact) ==> r in idx
  {
    TruePositions(Mask(rows, loc, query, exact))
  }

  /** The exact matches, or the partial matches when there is no exact one. */
  function Selection(rows: seq<Row>, loc: string, query: string): seq<int> {
    var exact := MatchIndices(rows, loc, query, true);
    if exact != [] then exact else MatchIndices(rows, loc, query, false)
  }

  /** One entry of the served series. */
  datatype Point = Point(date: string, trafficVolume: int, avgSpeed: real, congestion: real)

  /**
   * The point of one row: the date text when the row has a "Date" cell, else "";
   * `int(r.get(vol_col, 0))`, `float(...)` of speed and congestion, where an absent
   * column reads as 0. Text in a numeric column cannot be converted.
   */
  function PointOf(row: Row, cols: LocationColumns): Option<Point> {
    var date := if "Date" in row then CellText(row["Date"]) else "";
    match (CellAt(row, cols.volume), CellAt(row, cols.speed), CellAt(row, cols.congestion))
    case (Num(v), Num(s), Num(c)) => Some(Point(date, Trunc(v), s, c))
    case _ => None
  }

  /** The points of all `rows`, in order, or `None` when one of them cannot be converted. */
  function Series(rows: seq<Row>, cols: LocationColumns): (points: Option<seq<Point>>)
    ensures points.Some? <==> forall i :: 0 <= i < |rows| ==> PointOf(rows[i], cols).Some?
    ensures points.Some? ==>
      |points.value| == |rows| && forall i :: 0 <= i < |rows| ==> points.value[i] == PointOf(rows[i], cols).value
  {
    if rows == [] then Some([])
    else
      var n := |rows| - 1;
      var init := rows[..n];
      assert forall i :: 0 <= i < n ==> init[i] == rows[i];
      match (Series(init, cols), PointOf(rows[n], cols))
      case (Some(ps), Some(p)) => Some(ps + [p])
      case _ => None
  }

  /** `df[mask]`: the rows at positions `idx`, in that order. */
  function RowsAt(rows: seq<Row>, idx: seq<int>): (sel: seq<Row>)
    requires forall i :: 0 <= i < |idx| ==> 0 <= idx[i] < |rows|
    ensures |sel| == |idx| && forall i :: 0 <= i < |idx| ==> sel[i] == rows[idx[i]]
  {
    seq(|idx|, i requires 0 <= i < |idx| => rows[idx[i]])
  }

  /** The series is cut to this many points. */
  const RowLimit := 500

  /** `api_location` on query parameter `name` and the dataset (`None` when no CSV was found). */
  function LocationResponse(name: Option<string>, dataset: Option<Table>): Response<seq<Point>> {
    if name.None? || name.value == "" then Error(400, "please supply ?name=LOCATION_NAME")
    else if dataset.None? then Error(400, "dataset not found")
    else LookupResponse(dataset.value, Query(name.value))
  }

  /** The answer once a name was given and the dataset loaded: the series for `query`. */
  function LookupResponse(t: Table, query: string): Response<seq<Point>> {
    var cols := LookupColumns(t.columns);
    if cols.location !in t.columns then Error(500, "no such location column")
    else
      var idx := Selection(t.rows, cols.location, query);
      if idx == [] then Error(404, "no rows found for that location")
      else
        match Series(RowsAt(t.rows, idx), cols)
        case None => Error(500, "non-numeric reading")
        case Some(points) => Ok(points[..Min(RowLimit, |points|)])
  }

  /** The `for _, r in sel.iterrows(): times.append(...)` loop. */
  method BuildSeries(sel: seq<Row>, cols: LocationColumns) returns (times: Option<seq<Point>>)
    ensures times == Series(sel, cols)
  {
    var acc: seq<Point> := [];
    for i := 0 to |sel|
      invariant Series(sel[..i], cols) == Some(acc)
    {
      var p := PointOf(sel[i], cols);
      if p.None? {
        return None;
      }
      assert sel[..i + 1][..i] == sel[..i];
      acc := acc + [p.value];
    }
    assert sel[..|sel|] == sel;
    return Some(acc);
  }

  /** `api_location()`. */
  method ApiLocation(name: Option<string>, dataset: Option<Table>) returns (response: Response<seq<Point>>)
    ensures response == LocationResponse(name, dataset)
    ensures response.Ok? ==> 0 < |response.body| <= RowLimit
  {
    if name.None? || name.value == "" {
      return Error(400, "please supply ?name=LOCATION_NAME");
    }
    if dataset.None? {
      return Error(400, "dataset not found");
    }
    var t := dataset.value;
    var cols := LookupColumns(t.columns);
    if cols.location !in t.columns {
      return Error(500, "no such location column");
    }
    var idx := Selection(t.rows, cols.location, Query(name.value));
    if idx == [] {
      return Error(404, "no rows found for that location");
    }
    var sel := RowsAt(t.rows, idx);
    var times := BuildSeries(sel, cols);
    if times.None? {
      return Error(500, "non-numeric reading");
    }
    var points := times.value;
    response := Ok(points[..Min(RowLimit, |points|)]);
  }

  // What the endpoint answers.

  /** An exact match wins: when any row matches exactly, exactly those rows are taken. */
  lemma ExactMatchTakesPrecedence(rows: seq<Row>, loc: string, query: string, r: int)
    requires 0 <= r < |rows| && Matches(rows[r], loc, query, true)
    ensures Selection(rows, loc, query) == MatchIndices(rows, loc, query, true)
    ensures forall i :: 0 <= i < |Selection(rows, loc, query)| ==>
      Lower(CellText(CellAt(rows[Selection(rows, loc, query)[i]], loc))) == query
  {
  }

  /** An exact match is also a partial one. */
  lemma ExactIsPartial(row: Row, loc: string, query: string)
    ensures Matches(row, loc, query, true) ==> Matches(row, loc, query, false)
  {
    ContainsItself(query);
  }

  /** Nothing is selected exactly when no row's location contains the query. */
  lemma SelectionEmptyExactly(rows: seq<Row>, loc: string, query: string)
    ensures Selection(rows, loc, query) == [] <==>
      forall r :: 0 <= r < |rows| ==> !Contains(Lower(CellText(CellAt(rows[r], loc))), query)
  {
    if forall r :: 0 <= r < |rows| ==> !Matches(rows[r], loc, query, false) {
      forall r | 0 <= r < |rows|
        ensures !Matches(rows[r], loc, query, true)
      {
        ExactIsPartial(rows[r], loc, query);
      }
      NoMatchNoIndices(rows, loc, query, true);
      NoMatchNoIndices(rows, loc, query, false);
    } else {
      var r :| 0 <= r < |rows| && Matches(rows[r], loc, query, false);
      var exact := MatchIndices(rows, loc, query, true);
      assert r in MatchIndices(rows, loc, query, false);
    }
  }

  /** With no exact match, a name that strips to nothing selects every row. */
  lemma BlankQuerySelectsAll(rows: seq<Row>, loc: string)
    requires forall r :: 0 <= r < |rows| ==> CellText(CellAt(rows[r], loc)) != ""
    ensures var sel := Selection(rows, loc, "");
      |sel| == |rows| && forall i :: 0 <= i < |sel| ==> sel[i] == i
  {
    var exact := MatchIndices(rows, loc, "", true);
    var idx := MatchIndices(rows, loc, "", false);
    forall r | 0 <= r < |rows|
      ensures !Matches(rows[r], loc, "", true)
    {
    }
    NoMatchNoIndices(rows, loc, "", true);
    forall r | 0 <= r < |rows|
      ensures r in idx
    {
      ContainsEmpty(Lower(CellText(CellAt(rows[r], loc))));
    }
    IncreasingCovering(idx, |rows|);
  }

  /** Where no row matches, the mask keeps nothing. */
  lemma NoMatchNoIndices(rows: seq<Row>, loc: string, query: string, exact: bool)
    requires forall r :: 0 <= r < |rows| ==> !Matches(rows[r], loc, query, exact)
    ensures MatchIndices(rows, loc, query, exact) == []
  {
    NoTrueNoPositions(Mask(rows, loc, query, exact));
  }

  lemma {:induction false} NoTrueNoPositions(mask: seq<bool>)
    requires forall r :: 0 <= r < |mask| ==> !mask[r]
    ensures TruePositions(mask) == []
  {
    if mask != [] {
      var init := mask[..|mask| - 1];
      assert forall r :: 0 <= r < |init| ==> init[r] == mask[r];
      NoTrueNoPositions(init);
    }
  }

  /** An increasing sequence of indices below `n` that holds each of them is `0, 1, ..., n - 1`. */
  lemma {:induction false} IncreasingCovering(idx: seq<int>, n: nat)
    requires forall i :: 0 <= i < |idx| ==> 0 <= idx[i] < n
    requires forall i, j :: 0 <= i < j < |idx| ==> idx[i] < idx[j]
    requires forall r :: 0 <= r < n ==> r in idx
    ensures |idx| == n && forall i :: 0 <= i < n ==> idx[i] == i
  {
    if idx == [] {
      assert 0 !in idx;
    } else {
      var last := |idx| - 1;
      assert 0 <= idx[last] < n;
      assert n - 1 in idx;
      var p :| 0 <= p < |idx| && idx[p] == n - 1;
      assert p == last;
      var init := idx[..last];
      forall i | 0 <= i < |init|
        ensures init[i] == idx[i] && 0 <= init[i] < n - 1
      {
        assert idx[i] < idx[last];
      }
      forall r | 0 <= r < n - 1
        ensures r in init
      {
        assert r in idx;
        var q :| 0 <= q < |idx| && idx[q] == r;
        assert init[q] == r;
      }
      IncreasingCovering(init, n - 1);
    }
  }

  /** The selected positions increase, and the location of each contains the query. */
  lemma SelectionMatches(rows: seq<Row>, loc: string, query: string)
    ensures var idx := Selection(rows, loc, query);
      && (forall i :: 0 <= i < |idx| ==> 0 <= idx[i] < |rows|)
      && (forall i, j :: 0 <= i < j < |idx| ==> idx[i] < idx[j])
      && (forall i :: 0 <= i < |idx| ==> Contains(Lower(CellText(CellAt(rows[idx[i]], loc))), query))
  {
    var idx := Selection(rows, loc, query);
    forall i | 0 <= i < |idx|
      ensures Contains(Lower(CellText(CellAt(rows[idx[i]], loc))), query)
    {
      ExactIsPartial(rows[idx[i]], loc, query);
    }
  }

  /**
   * A served series lists the selected rows in dataset order, one point per row,
   * at most 500 of them; every selected row matches the query.
   */
  lemma ServedSeriesIsSelection(t: Table, query: string)
    requires LookupResponse(t, query).Ok?
    ensures var cols := LookupColumns(t.columns);
      var idx := Selection(t.rows, cols.location, query);
      var body := LookupResponse(t, query).body;
      && 0 < |body| == Min(RowLimit, |idx|)
      && (forall i :: 0 <= i < |body| ==> body[i] == PointOf(t.rows[idx[i]], cols).value)
      && (forall i, j :: 0 <= i < j < |idx| ==> idx[i] < idx[j])
      && (forall i :: 0 <= i < |idx| ==> Contains(Lower(CellText(CellAt(t.rows[idx[i]], cols.location))), query))
  {
    var cols := LookupColumns(t.columns);
    var idx := Selection(t.rows, cols.location, query);
    var sel := RowsAt(t.rows, idx);
    var points := Series(sel, cols).value;
    var body := LookupResponse(t, query).body;
    assert body == points[..Min(RowLimit, |idx|)];
    forall i | 0 <= i < |body|
      ensures body[i] == PointOf(t.rows[idx[i]], cols).value
    {
      assert body[i] == points[i];
      assert sel[i] == t.rows[idx[i]];
    }
    SelectionMatches(t.rows, cols.location, query);
  }

  /**
   * The endpoint answers 404 exactly when a name was given, the dataset and its
   * location column exist, and no row's location contains the query.
   */
  lemma NotFoundExactly(name: string, t: Table)
    ensures var cols := LookupColumns(t.columns);
      LocationResponse(Some(name), Some(t)).Error? && LocationResponse(Some(name), Some(t)).status == 404
      <==>
      && name != ""
      && cols.location in t.columns
      && forall r :: 0 <= r < |t.rows| ==> !Contains(Lower(CellText(CellAt(t.rows[r], cols.location))), Query(name))
  {
    var cols := LookupColumns(t.columns);
    SelectionEmptyExactly(t.rows, cols.location, Query(name));
  }

  /** Two non-empty names with the same stripped, lower-cased form get the same answer. */
  lemma SameQuerySameAnswer(a: string, b: string, dataset: Option<Table>)
    requires a != "" && b != "" && Query(a) == Query(b)
    ensures LocationResponse(Some(a), dataset) == LocationResponse(Some(b), dataset)
  {
  }

  /** The lookup ignores the case of the name. */
  lemma NameCaseIgnored(name: string, dataset: Option<Table>)
    ensures LocationResponse(Some(Lower(name)), dataset) == LocationResponse(Some(name), dataset)
  {
    if name != "" {
      assert |Lower(name)| == |name|;
      StripLower(name);
      LowerIdempotent(Strip(name));
      SameQuerySameAnswer(Lower(name), name, dataset);
    }
  }

  /** The lookup ignores white space around the name. */
  lemma SurroundingSpaceIgnored(name: string, dataset: Option<Table>)
    requires name != ""
    ensures LocationResponse(Some(" " + name + " "), dataset) == LocationResponse(Some(name), dataset)
  {
    StripPadded(name);
    SameQuerySameAnswer(" " + name + " ", name, dataset);
  }

  /** Padding a string with a space on each side does not change what it strips to. */
  lemma StripPadded(s: string)
    ensures Strip(" " + s + " ") == Strip(s)
  {
    var padded := " " + s + " ";
    assert padded[0] == ' ' && padded[1..] == s + " ";
    assert StripLeading(padded) == StripLeading(s + " ");
    StripLeadingPadded(s);
    var head := StripLeading(s);
    if head != [] {
      StripTrailingPadded(head);
    }
  }

  lemma StripTrailingPadded(s: string)
    ensures StripTrailing(s + " ") == StripTrailing(s)
  {
    var padded := s + " ";
    assert padded[|padded| - 1] == ' ' && padded[..|s|] == s;
  }

  lemma {:induction false} StripLeadingPadded(s: string)
    ensures StripLeading(s + " ") == if StripLeading(s) == [] then [] else StripLeading(s) + " "
  {
    var padded := s + " ";
    if s == [] {
      assert padded == " " && padded[1..] == [];
    } else {
      assert padded[0] == s[0];
      if IsSpace(s[0]) {
        assert padded[1..] == s[1..] + " ";
        StripLeadingPadded(s[1..]);
      }
    }
  }

  /**
   * The summary accepts the underscore spelling of the road column but the location
   * lookup does not: on such a dataset the two endpoints use different location columns.
   */
  lemma UnderscoreRoadColumnOnlyInSummary()
    ensures DashboardSummary.ResolveSummaryColumns(["Road_Intersection Name"]).location == "Road_Intersection Name"
    ensures LookupColumns(["Road_Intersection Name"]).location == "Area Name"
  {
    var columns := ["Road_Intersection Name"];
    assert Lower(columns[0]) == "road_intersection name";
    assert Lower(columns[0])[4] != "road/intersection name"[4];
    assert !HasColumn(columns, "road/intersection name");
    assert HasColumn(columns, "road_intersection name");
  }
}
