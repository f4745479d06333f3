/**
 * The view windows the charts and the table page are built from: for each
 * metric table, its last WindowRows rows with every cell converted from
 * percentage text to a fraction.  Nothing here changes the tables.
 */
module View {
  import opened Wrappers
  import opened Percent
  import opened Tables

  /** How many of the newest rows a view shows. */
  const WindowRows := 20

  /** Scenario i is the view of table MetricNames[i]. */
  const ScenarioNames: seq<string> := ["Scenario 1", "Scenario 2", "Scenario 3", "Scenario 4", "Scenario 5", "Scenario 6"]

  datatype ViewRow = ViewRow(timestamp: Timestamp, cells: map<string, real>)

  /** The newest rows of a table, at most WindowRows of them. */
  function Window(t: seq<Row>): seq<Row>
  {
    t[|t| - Min(WindowRows, |t|)..]
  }

  predicate CellsParse(r: Row)
  {
    forall c | c in r.cells :: ParseCell(r.cells[c]).Some?
  }

  /** Converts every cell of a row; None when some cell is not percentage text. */
  function ConvertRow(r: Row): (v: Option<ViewRow>)
    ensures v.Some? <==> CellsParse(r)
    ensures v.Some? ==>
      && v.value.timestamp == r.timestamp
      && v.value.cells.Keys == r.cells.Keys
      && forall c | c in r.cells :: v.value.cells[c] * 100.0 == ParseCell(r.cells[c]).value as real
  {
    if CellsParse(r) then Some(ViewRow(r.timestamp, map c | c in r.cells :: ToFraction(ParseCell(r.cells[c]).value)))
    else None
  }

  /** Converts every row; None as soon as one cell anywhere fails. */
  function ConvertRows(rows: seq<Row>): (r: Option<seq<ViewRow>>)
    ensures r.Some? <==> forall i | 0 <= i < |rows| :: CellsParse(rows[i])
    ensures r.Some? ==> |r.value| == |rows| && forall i | 0 <= i < |rows| :: ConvertRow(rows[i]) == Some(r.value[i])
  {
    if rows == [] then Some([])
    else
      match (ConvertRow(rows[0]), ConvertRows(rows[1..]))
      case (Some(v), Some(vs)) =>
        assert forall i | 1 <= i < |rows| :: rows[i] == rows[1..][i - 1];
        Some([v] + vs)
      case _ =>
        assert forall i | 1 <= i < |rows| :: rows[i] == rows[1..][i - 1];
        None
  }

  /** The view of one metric table: its newest rows, in order, with the same timestamps. */
  function ScenarioView(t: seq<Row>): (r: Option<seq<ViewRow>>)
    ensures r.Some? ==> |r.value| == Min(WindowRows, |t|)
    ensures r.Some? ==> forall j | 0 <= j < |r.value| :: r.value[j].timestamp == t[|t| - |r.value| + j].timestamp
  {
    ConvertRows(Window(t))
  }

  /**
   * The first n views keyed by the first n names, views[i] under names[i], as
   * the loop over i in prepare_scenario_data fills them in.
   */
  function Scenarios<V>(names: seq<string>, views: seq<V>, n: nat): (r: map<string, V>)
    requires n <= |names| && n <= |views|
    ensures r.Keys == set name | name in names[..n]
  {
    if n == 0 then
      assert names[..n] == [];
      map[]
    else
      var prev := Scenarios(names, views, n - 1);
      KeysStep(prev, names, n - 1, n, views[n - 1]);
      prev[names[n - 1] := views[n - 1]]
  }

  /** Keying one more entry by the next name extends the key set to the longer prefix of names. */
  lemma KeysStep<V>(prev: map<string, V>, names: seq<string>, m: nat, n: nat, v: V)
    requires n == m + 1 && n <= |names|
    requires prev.Keys == set name | name in names[..m]
    ensures prev[names[m] := v].Keys == set name | name in names[..n]
  {
    assert names[..n] == names[..m] + [names[m]];
  }

  /** The views of the six metric tables, in the order of MetricNames. */
  function TableViews(tables: map<string, seq<Row>>): (vs: seq<seq<ViewRow>>)
    requires forall i | 0 <= i < |MetricNames| :: MetricNames[i] in tables
    requires forall i | 0 <= i < |MetricNames| :: ScenarioView(tables[MetricNames[i]]).Some?
    ensures |vs| == |MetricNames|
    ensures forall i | 0 <= i < |MetricNames| :: Some(vs[i]) == ScenarioView(tables[MetricNames[i]])
  {
    seq(|MetricNames|, i requires 0 <= i < |MetricNames| => ScenarioView(tables[MetricNames[i]]).value)
  }

  /**
   * The six views, keyed "Scenario 1" .. "Scenario 6"; None (the conversion
   * raises) when any cell of any window is not percentage text.
   */
  function PrepareScenarioData(tables: map<string, seq<Row>>): (r: Option<map<string, seq<ViewRow>>>)
    requires forall i | 0 <= i < |MetricNames| :: MetricNames[i] in tables
    ensures r.None? <==> exists i | 0 <= i < |MetricNames| :: ScenarioView(tables[MetricNames[i]]).None?
    ensures r.Some? ==> r.value.Keys == set name | name in ScenarioNames
  {
    if forall i | 0 <= i < |MetricNames| :: ScenarioView(tables[MetricNames[i]]).Some? then
      assert ScenarioNames[..|MetricNames|] == ScenarioNames;
      Some(Scenarios(ScenarioNames, TableViews(tables), |MetricNames|))
    else None
  }

  /** Among the entries keyed so far, the one under names[i] is views[i], provided the names are distinct. */
  lemma {:induction false} ScenariosAt<V>(names: seq<string>, views: seq<V>, n: nat, i: nat)
    requires n <= |names| && n <= |views|
    requires forall j, k | 0 <= j < k < n :: names[j] != names[k]
    requires i < n
    ensures names[i] in Scenarios(names, views, n)
    ensures Scenarios(names, views, n)[names[i]] == views[i]
  {
    var prev := Scenarios(names, views, n - 1);
    assert Scenarios(names, views, n) == prev[names[n - 1] := views[n - 1]];
    if i < n - 1 {
      ScenariosAt(names, views, n - 1, i);
      assert names[i] != names[n - 1];
    }
  }

  /** The six scenario names are pairwise distinct: they differ in their digit. */
  lemma ScenarioNamesDistinct()
    ensures forall j, k | 0 <= j < k < |ScenarioNames| :: ScenarioNames[j] != ScenarioNames[k]
  {
    forall j, k | 0 <= j < k < |ScenarioNames|
      ensures ScenarioNames[j] != ScenarioNames[k]
    {
      assert ScenarioNames[j][9] != ScenarioNames[k][9];
    }
  }

  /**
   * The views are prepared exactly when every window converts; then they are
   * keyed "Scenario 1" .. "Scenario 6", scenario i being the view of table i.
   */
  lemma PrepareScenarioDataSpec(tables: map<string, seq<Row>>, i: nat)
    requires forall i | 0 <= i < |MetricNames| :: MetricNames[i] in tables
    requires i < |ScenarioNames|
    ensures PrepareScenarioData(tables).Some? <==>
      forall k | 0 <= k < |MetricNames| :: ScenarioView(tables[MetricNames[k]]).Some?
    ensures PrepareScenarioData(tables).Some? ==>
      && (forall name | name in PrepareScenarioData(tables).value :: name in ScenarioNames)
      && ScenarioNames[i] in PrepareScenarioData(tables).value
      && Some(PrepareScenarioData(tables).value[ScenarioNames[i]]) == ScenarioView(tables[MetricNames[i]])
  {
    if PrepareScenarioData(tables).Some? {
      ScenarioNamesDistinct();
      ScenariosAt(ScenarioNames, TableViews(tables), |MetricNames|, i);
    }
  }

  /**
   * The table page's conversion of every fraction back to a percentage number:
   * same rows and columns, each cell a whole number of hundredths within half a
   * hundredth of the fraction times 100.
   */
  function DisplayView(v: seq<ViewRow>): (d: seq<ViewRow>)
    ensures |d| == |v|
    ensures forall j | 0 <= j < |v| :: d[j].timestamp == v[j].timestamp && d[j].cells.Keys == v[j].cells.Keys
    ensures forall j, c | 0 <= j < |v| && c in v[j].cells ::
      && (d[j].cells[c] * 100.0).Floor as real == d[j].cells[c] * 100.0
      && -0.005 <= d[j].cells[c] - v[j].cells[c] * 100.0 <= 0.005
  {
    seq(|v|, j requires 0 <= j < |v| => ViewRow(v[j].timestamp, map c | c in v[j].cells :: DisplayPercent(v[j].cells[c])))
  }

  /**
   * A view has min(WindowRows, |t|) rows: the newest rows of the table in the
   * same order; row j has the timestamp and columns of its table row, and each
   * cell is its percentage number divided by 100.
   */
  lemma ScenarioViewShape(t: seq<Row>, j: nat)
    ensures ScenarioView(t).Some? ==> |ScenarioView(t).value| == Min(WindowRows, |t|)
    ensures ScenarioView(t).Some? && j < |ScenarioView(t).value| ==>
      var v := ScenarioView(t).value;
      var row := t[|t| - |v| + j];
      && v[j].timestamp == row.timestamp
      && v[j].cells.Keys == row.cells.Keys
      && forall c | c in row.cells :: ParseCell(row.cells[c]).Some? && v[j].cells[c] * 100.0 == ParseCell(row.cells[c]).value as real
  {
    if ScenarioView(t).Some? {
      var w := Window(t);
      var v := ScenarioView(t).value;
      if j < |v| {
        assert w[j] == t[|t| - |v| + j];
        assert ConvertRow(w[j]) == Some(v[j]);
      }
    }
  }

  /** A view fails to convert exactly when some cell in the window is not percentage text. */
  lemma ScenarioViewFails(t: seq<Row>)
    ensures ScenarioView(t).None? <==>
      exists j | |t| - Min(WindowRows, |t|) <= j < |t| :: !CellsParse(t[j])
  {
    var k := |t| - Min(WindowRows, |t|);
    var w := Window(t);
    if ScenarioView(t).None? {
      var i :| 0 <= i < |w| && !CellsParse(w[i]);
      assert w[i] == t[k + i];
    } else {
      forall j | k <= j < |t| ensures CellsParse(t[j]) {
        assert t[j] == w[j - k];
      }
    }
  }

  /**
   * The table page's conversion of a view (times 100, rounded to two decimals)
   * gives back each cell's percentage number exactly.
   */
  lemma DisplayRecoversPercent(t: seq<Row>, j: nat)
    ensures ScenarioView(t).Some? ==> |DisplayView(ScenarioView(t).value)| == Min(WindowRows, |t|)
    ensures ScenarioView(t).Some? && j < |ScenarioView(t).value| ==>
      var v := ScenarioView(t).value;
      var row := t[|t| - |v| + j];
      && DisplayView(v)[j].timestamp == row.timestamp
      && DisplayView(v)[j].cells.Keys == row.cells.Keys
      && forall c | c in row.cells :: ParseCell(row.cells[c]).Some? && DisplayView(v)[j].cells[c] == ParseCell(row.cells[c]).value as real
  {
    ScenarioViewShape(t, j);
    if ScenarioView(t).Some? {
      var v := ScenarioView(t).value;
      if j < |v| {
        var row := t[|t| - |v| + j];
        forall c | c in row.cells
          ensures DisplayView(v)[j].cells[c] == ParseCell(row.cells[c]).value as real
        {
          var p := ParseCell(row.cells[c]).value;
          assert v[j].cells[c] == ToFraction(p);
          DisplayOfFraction(p);
        }
      }
    }
  }

  /** The table page: the six views with every fraction scaled back to a percentage number. */
  function ServeTable(tables: map<string, seq<Row>>): (r: Option<map<string, seq<ViewRow>>>)
    requires forall i | 0 <= i < |MetricNames| :: MetricNames[i] in tables
    ensures r.Some? <==> PrepareScenarioData(tables).Some?
    ensures r.Some? ==> r.value.Keys == set name | name in ScenarioNames
  {
    match PrepareScenarioData(tables)
    case None => None
    case Some(views) =>
      var shown := map name | name in views :: DisplayView(views[name]);
      assert shown.Keys == views.Keys;
      Some(shown)
  }

  /**
   * The table page for scenario i is the view of metric table i scaled back by
   * DisplayView; with DisplayRecoversPercent, each number on it is the
   * percentage number of the matching cell of the table.
   */
  lemma ServeTableScenario(tables: map<string, seq<Row>>, i: nat)
    requires forall i | 0 <= i < |MetricNames| :: MetricNames[i] in tables
    requires i < |ScenarioNames|
    requires ServeTable(tables).Some?
    ensures ScenarioView(tables[MetricNames[i]]).Some?
    ensures ScenarioNames[i] in ServeTable(tables).value
    ensures ServeTable(tables).value[ScenarioNames[i]] == DisplayView(ScenarioView(tables[MetricNames[i]]).value)
  {
    PrepareScenarioDataSpec(tables, i);
  }

  /** A one-row table whose cells all parse has the converted row as its view. */
  lemma ViewOfOneRow(row: Row)
    requires CellsParse(row)
    ensures ScenarioView([row]) == Some([ConvertRow(row).value])
  {
    assert Window([row]) == [row];
    var r := ConvertRows([row]);
    assert r.Some? && |r.value| == 1 && ConvertRow([row][0]) == Some(r.value[0]);
    assert r.value == [r.value[0]];
  }

  /** A one-row table whose every cell parses has a one-row view holding each cell's fraction. */
  lemma OneRowView(ts: Timestamp, cells: map<string, string>, nums: map<string, int>)
    requires cells.Keys == nums.Keys
    requires forall c | c in cells :: ParseCell(cells[c]) == Some(nums[c])
    ensures var v := ScenarioView([Row(ts, cells)]);
      && v.Some? && |v.value| == 1 && v.value[0].timestamp == ts && v.value[0].cells.Keys == cells.Keys
      && forall c | c in cells :: v.value[0].cells[c] * 100.0 == nums[c] as real
  {
    ViewOfOneRow(Row(ts, cells));
  }
}
