/**
 * The dashboard process: the two module-level globals (the metric tables and the
 * last seen modification time of the data file) and the two operations that
 * change them.  A poll ingests when it is the first tick of a session or the
 * file's modification time differs from the last one committed; it commits the
 * new time only when ingestion and view preparation both succeeded.
 *
 * The modification time is an abstract integer (None when the file is missing),
 * and reading the file is an input: parsed contents with the file timestamp
 * (the modification time formatted to the second), an empty file, or some
 * other read failure.
 */
module Dashboard {
  import opened Wrappers
  import opened Percent
  import opened Tables
  import opened Ingest
  import opened View

  datatype ReadOutcome = Read(snapshot: Snapshot, timestamp: Timestamp) | EmptyFile | ReadError

  /** What a poll hands to the chart area. */
  datatype ChartsOutcome =
    | Charts(scenarios: map<string, seq<ViewRow>>)
    | FileNotFound
    | FileEmpty
    | Failed
    | NoUpdate

  datatype State = State(tables: map<string, seq<Row>>, previousModified: Option<int>)

  datatype Polled = Polled(state: State, out: ChartsOutcome)

  /** Every metric table exists and keeps the table invariant. */
  predicate Consistent(tables: map<string, seq<Row>>)
  {
    && (forall i | 0 <= i < |MetricNames| :: MetricNames[i] in tables)
    && (forall m | m in tables :: WellFormed(tables[m]))
  }

  predicate Readable(read: ReadOutcome)
  {
    read.Read? ==> WellShaped(read.snapshot) && CaseSafe(read.snapshot)
  }

  /** The poll condition: first tick of a session, or a modification time not yet committed. */
  predicate ShouldIngest(nIntervals: nat, mtime: int, previousModified: Option<int>)
  {
    nIntervals == 0 || previousModified != Some(mtime)
  }

  /** One poll, as a function of the state before it and its inputs. */
  function PollStep(st: State, nIntervals: nat, mtime: Option<int>, read: ReadOutcome): (r: Polled)
    requires Consistent(st.tables) && Readable(read)
    ensures r.state.tables.Keys == st.tables.Keys
    ensures r.out.Charts? ==> r.out.scenarios.Keys == set name | name in ScenarioNames
    ensures r.out.Charts? ==> mtime.Some? && read.Read? && r.state.previousModified == mtime
  {
    if mtime.None? then Polled(st, FileNotFound)
    else if !ShouldIngest(nIntervals, mtime.value, st.previousModified) then Polled(st, NoUpdate)
    else
      match read
      case EmptyFile => Polled(st, FileEmpty)
      case ReadError => Polled(st, Failed)
      case Read(snap, ts) =>
        var ing := Ingest.Ingest(st.tables, snap, ts);
        if ing.failure.Some? then Polled(State(ing.tables, st.previousModified), Failed)
        else
          match PrepareScenarioData(ing.tables)
          case None => Polled(State(ing.tables, st.previousModified), Failed)
          case Some(views) => Polled(State(ing.tables, mtime), Charts(views))
  }

  /** An ingestion keeps the tables consistent, whether or not it raised. */
  lemma IngestKeepsConsistent(tables: map<string, seq<Row>>, s: Snapshot, ts: Timestamp)
    requires Consistent(tables) && WellShaped(s) && CaseSafe(s)
    ensures Consistent(Ingest.Ingest(tables, s, ts).tables)
  {
    IngestKeepsInvariant(tables, s, ts);
  }

  /** A poll keeps the tables consistent. */
  lemma PollKeepsConsistent(st: State, nIntervals: nat, mtime: Option<int>, read: ReadOutcome)
    requires Consistent(st.tables) && Readable(read)
    ensures Consistent(PollStep(st, nIntervals, mtime, read).state.tables)
  {
    if read.Read? {
      IngestKeepsConsistent(st.tables, read.snapshot, read.timestamp);
    }
  }

  /**
   * Ingestion is attempted exactly when the file exists and the poll condition
   * holds; otherwise the state is untouched.  Each path has its own outcome: a
   * missing file, no update (an existing file the poll condition rejects), an
   * empty file, a read error.  A poll that reads the
   * file leaves the tables append_to_dataframes leaves, and its charts, when it
   * has any, are the views prepared from those tables.
   */
  lemma PollIngestsIff(st: State, nIntervals: nat, mtime: Option<int>, read: ReadOutcome)
    requires Consistent(st.tables) && Readable(read)
    ensures var p := PollStep(st, nIntervals, mtime, read);
      (p.out != NoUpdate && p.out != FileNotFound) <==>
        mtime.Some? && ShouldIngest(nIntervals, mtime.value, st.previousModified)
    ensures var p := PollStep(st, nIntervals, mtime, read);
      p.out == NoUpdate || p.out == FileNotFound || p.out == FileEmpty || read.ReadError? ==> p.state == st
    ensures mtime.None? ==> PollStep(st, nIntervals, mtime, read).out == FileNotFound
    ensures mtime.Some? && !ShouldIngest(nIntervals, mtime.value, st.previousModified) ==>
      PollStep(st, nIntervals, mtime, read) == Polled(st, NoUpdate)
    ensures mtime.Some? && ShouldIngest(nIntervals, mtime.value, st.previousModified) ==>
      && (read.EmptyFile? ==> PollStep(st, nIntervals, mtime, read).out == FileEmpty)
      && (read.ReadError? ==> PollStep(st, nIntervals, mtime, read).out == Failed)
      && (read.Read? ==>
            var ing := Ingest.Ingest(st.tables, read.snapshot, read.timestamp);
            var p := PollStep(st, nIntervals, mtime, read);
            && p.state.tables == ing.tables
            && (p.out.Charts? <==> ing.failure == None && PrepareScenarioData(ing.tables).Some?)
            && (!p.out.Charts? ==> p.out == Failed))
    ensures var p := PollStep(st, nIntervals, mtime, read);
      p.out.Charts? ==>
        && read.Read?
        && Ingest.Ingest(st.tables, read.snapshot, read.timestamp).failure == None
        && PrepareScenarioData(p.state.tables) == Some(p.out.scenarios)
  {
  }

  /**
   * The committed modification time becomes the polled one exactly on success;
   * on every failure it stays as it was, so the next poll of an unchanged file
   * tries again unless the old value already equalled it.
   */
  lemma PollCommitsOnSuccess(st: State, nIntervals: nat, mtime: Option<int>, read: ReadOutcome)
    requires Consistent(st.tables) && Readable(read)
    ensures var p := PollStep(st, nIntervals, mtime, read);
      p.state.previousModified == if p.out.Charts? then mtime else st.previousModified
    ensures PollStep(st, nIntervals, mtime, read).out.Charts? ==> mtime.Some? && read.Read?
  {
  }

  /** After a successful poll, polling the unchanged file again does nothing. */
  lemma PollNoRepeatAfterSuccess(st: State, n1: nat, n2: nat, m: int, r1: ReadOutcome, r2: ReadOutcome)
    requires Consistent(st.tables) && Readable(r1) && Readable(r2) && n2 > 0
    requires PollStep(st, n1, Some(m), r1).out.Charts?
    ensures var st2 := PollStep(st, n1, Some(m), r1).state;
      Consistent(st2.tables) && PollStep(st2, n2, Some(m), r2) == Polled(st2, NoUpdate)
  {
    PollKeepsConsistent(st, n1, Some(m), r1);
  }

  /**
   * After a failed poll triggered by a new modification time, the next poll of
   * the same file tries the ingestion again.
   */
  lemma PollRetriesAfterFailure(st: State, n1: nat, n2: nat, m: int, r1: ReadOutcome, r2: ReadOutcome)
    requires Consistent(st.tables) && Readable(r1) && Readable(r2)
    requires st.previousModified != Some(m)
    requires !PollStep(st, n1, Some(m), r1).out.Charts?
    ensures var st2 := PollStep(st, n1, Some(m), r1).state;
      Consistent(st2.tables) &&
      PollStep(st2, n2, Some(m), r2).out != NoUpdate && PollStep(st2, n2, Some(m), r2).out != FileNotFound
  {
    PollKeepsConsistent(st, n1, Some(m), r1);
  }

  /**
   * The first ingestion of a snapshot with data rows into the six empty tables:
   * each named table then holds exactly the pivoted row of its column.
   */
  lemma FirstIngestion(s: Snapshot, ts: Timestamp, k: nat)
    requires WellShaped(s) && CaseSafe(s) && !PivotFails(s) && |s.symbols| > 0
    requires k < |s.metrics| && forall j | 0 <= j < |s.metrics| :: s.metrics[j] in MetricNames
    ensures var ing := Ingest.Ingest(map m | m in MetricNames :: [], s, ts);
      ing.failure == None && ing.tables[s.metrics[k]] == [PivotRow(s, k, ts)]
  {
    var initial: map<string, seq<Row>> := map m | m in MetricNames :: [];
    assert FirstUnknown(initial, s.metrics) == |s.metrics|;
    IngestSuccess(initial, s, ts, k);
    AppendFresh([], PivotRow(s, k, ts));
  }

  lemma ExampleCells()
    ensures ParseCell("10%") == Some(10) && ParseCell("12%") == Some(12) && ParseCell("-5%") == Some(-5)
  {
    CellRoundTrip(10);
    CellRoundTrip(12);
    CellRoundTrip(-5);
    assert FormatCell(10) == "10%" && FormatCell(12) == "12%" && FormatCell(-5) == "-5%";
  }

  /** The row the worked example's snapshot pivots into for its one metric column. */
  function ExampleRow(ts: Timestamp): Row
  {
    Row(ts, map["x" := "10%", "y" := "12%", "z" := "-5%"])
  }

  /**
   * The worked example of a one-row table: cells "10%", "12%" and "-5%" under
   * columns x, y and z become the fractions 0.10, 0.12 and -0.05.
   */
  lemma ExampleView(ts: Timestamp)
    ensures var v := ScenarioView([ExampleRow(ts)]);
      && v.Some? && |v.value| == 1 && v.value[0].timestamp == ts
      && v.value[0].cells.Keys == {"x", "y", "z"}
      && v.value[0].cells["x"] == 0.10 && v.value[0].cells["y"] == 0.12 && v.value[0].cells["z"] == -0.05
  {
    var cells := ExampleRow(ts).cells;
    var nums := map["x" := 10, "y" := 12, "z" := -5];
    assert cells.Keys == nums.Keys == {"x", "y", "z"};
    forall c | c in cells
      ensures ParseCell(cells[c]) == Some(nums[c])
    {
      ExampleCells();
    }
    OneRowView(ts, cells, nums);
    var w := ScenarioView([ExampleRow(ts)]).value[0].cells;
    assert w["x"] * 100.0 == 10.0 && w["y"] * 100.0 == 12.0 && w["z"] * 100.0 == -5.0;
  }

  /** Lower-casing the worked example's symbols. */
  lemma ExampleLower()
    ensures Lower("X") == "x" && Lower("Y") == "y" && Lower("Z") == "z"
  {
  }

  /** The snapshot of the worked example: symbols X, Y, Z with one metric column. */
  function ExampleSnapshot(): (s: Snapshot)
    ensures WellShaped(s) && CaseSafe(s) && !PivotFails(s)
    ensures s.metrics == ["Value1"]
  {
    var s := Snapshot(["X", "Y", "Z"], ["Value1"], [["10%"], ["12%"], ["-5%"]]);
    ExampleSymbolsSafe(s);
    s
  }

  /** X, Y and Z lower-case to three distinct names, none of them "timestamp". */
  lemma ExampleSymbolsSafe(s: Snapshot)
    requires s.symbols == ["X", "Y", "Z"]
    ensures CaseSafe(s) && !PivotFails(s)
  {
    ExampleLower();
    var low := [Lower(s.symbols[0]), Lower(s.symbols[1]), Lower(s.symbols[2])];
    assert low == ["x", "y", "z"];
    assert forall i | 0 <= i < 3 :: Lower(s.symbols[i]) == low[i];
    assert forall i, j | 0 <= i < 3 && 0 <= j < 3 && i != j :: low[i] != low[j];
  }

  /** The pivoted row of a three-symbol snapshot, column by column. */
  lemma PivotRowOfThree(s: Snapshot, k: nat, ts: Timestamp)
    requires WellShaped(s) && CaseSafe(s) && !PivotFails(s) && k < |s.metrics| && |s.symbols| == 3
    ensures PivotRow(s, k, ts).cells ==
      map[Lower(s.symbols[0]) := s.cells[0][k], Lower(s.symbols[1]) := s.cells[1][k], Lower(s.symbols[2]) := s.cells[2][k]]
  {
    var r := PivotRow(s, k, ts).cells;
    var a, b, c := Lower(s.symbols[0]), Lower(s.symbols[1]), Lower(s.symbols[2]);
    assert r[a] == s.cells[0][k] && r[b] == s.cells[1][k] && r[c] == s.cells[2][k];
    forall x | x in r
      ensures x == a || x == b || x == c
    {
      var i :| 0 <= i < 3 && x == Lower(s.symbols[i]);
      if i == 0 {
      } else if i == 1 {
      } else {
        assert i == 2;
      }
    }
    MapOfThree(r, a, b, c);
  }

  /** A map whose keys are among a, b and c, all present, equals the literal map[a := r[a], b := r[b], c := r[c]]. */
  lemma MapOfThree(r: map<string, string>, a: string, b: string, c: string)
    requires forall x | x in r :: x == a || x == b || x == c
    requires a in r && b in r && c in r
    ensures r == map[a := r[a], b := r[b], c := r[c]]
  {
    assert r.Keys == {a, b, c};
  }

  /**
   * Ingesting the worked example's snapshot into the six empty tables succeeds
   * and leaves table Value1 holding one row: the symbols lower-cased to x, y
   * and z, each with its cell text.
   */
  lemma ExampleIngest(ts: Timestamp)
    ensures var ing := Ingest.Ingest(map m | m in MetricNames :: [], ExampleSnapshot(), ts);
      ing.failure == None && ing.tables["Value1"] == [ExampleRow(ts)]
  {
    var s := ExampleSnapshot();
    assert s.symbols == ["X", "Y", "Z"] && s.cells == [["10%"], ["12%"], ["-5%"]];
    ExampleLower();
    assert s.metrics[0] == MetricNames[0];
    FirstIngestion(s, ts, 0);
    PivotRowOfThree(s, 0, ts);
  }

  /**
   * The worked example end to end: the snapshot rows X,10% / Y,12% / Z,-5%,
   * ingested into the six empty tables, give table Value1 a view of one row
   * whose columns x, y and z hold 0.10, 0.12 and -0.05.
   */
  lemma ExampleEndToEnd(ts: Timestamp)
    ensures var ing := Ingest.Ingest(map m | m in MetricNames :: [], ExampleSnapshot(), ts);
      && ing.failure == None
      && var v := ScenarioView(ing.tables["Value1"]);
      && v.Some? && |v.value| == 1 && v.value[0].timestamp == ts
      && v.value[0].cells.Keys == {"x", "y", "z"}
      && v.value[0].cells["x"] == 0.10 && v.value[0].cells["y"] == 0.12 && v.value[0].cells["z"] == -0.05
  {
    ExampleIngest(ts);
    ExampleView(ts);
  }

  /** The process-wide state of the dashboard. */
  class Dashboard {
    /** value_dataframes: one rolling table per metric column. */
    var tables: map<string, seq<Row>>
    /** previous_modified: the modification time last ingested successfully. */
    var previousModified: Option<int>

    ghost predicate Valid()
      reads this
    {
      Consistent(tables)
    }

    /** Six empty tables and no modification time seen yet. */
    constructor ()
      ensures Valid()
      ensures tables == map m | m in MetricNames :: []
      ensures previousModified == None
    {
      tables := map m | m in MetricNames :: [];
      previousModified := None;
    }

    /**
     * append_to_dataframes: for each metric column in order, pivot the snapshot
     * and append the row to that metric's table; the first exception stops the loop.
     */
    method AppendToDataframes(snap: Snapshot, ts: Timestamp) returns (failure: Option<IngestError>)
      requires WellShaped(snap) && CaseSafe(snap)
      modifies this
      ensures Ingest.Ingest(old(tables), snap, ts) == Ingested(tables, failure)
      ensures Consistent(old(tables)) ==> Valid()
      ensures previousModified == old(previousModified)
    {
      if Consistent(tables) {
        IngestKeepsConsistent(tables, snap, ts);
      }
      var k := 0;
      while k < |snap.metrics|
        invariant 0 <= k <= |snap.metrics|
        invariant k > 0 ==> !PivotFails(snap)
        invariant k <= FirstUnknown(old(tables), snap.metrics)
        invariant k == 0 ==> tables == old(tables)
        invariant k > 0 ==> tables == IngestPrefix(AppendRows, old(tables), snap.metrics, Pivots(snap, ts), k)
        invariant previousModified == old(previousModified)
      {
        if PivotFails(snap) {
          return Some(PivotError);
        }
        var m := snap.metrics[k];
        if m !in tables {
          IngestStopsAt(old(tables), snap, ts, k);
          return Some(UnknownMetric(m));
        }
        FirstUnknownPast(old(tables), snap.metrics, k);
        ghost var cur, done := tables, k;
        tables := tables[m := AppendRows(tables[m], PivotRows(snap, k, ts))];
        assert previousModified == old(previousModified);
        k := k + 1;
        IngestPrefixAfter(old(tables), snap, ts, done, k, cur, tables);
      }
      if k > 0 {
        IngestStopsAt(old(tables), snap, ts, k);
      }
      return None;
    }

    /** update_charts: one tick of the chart timer. */
    method UpdateCharts(nIntervals: nat, mtime: Option<int>, read: ReadOutcome) returns (out: ChartsOutcome)
      requires Valid() && Readable(read)
      modifies this
      ensures Valid()
      ensures PollStep(State(old(tables), old(previousModified)), nIntervals, mtime, read)
              == Polled(State(tables, previousModified), out)
    {
      if mtime.None? {
        return FileNotFound;
      }
      var lastModified := mtime.value;
      if nIntervals == 0 || previousModified != Some(lastModified) {
        match read {
          case EmptyFile =>
            return FileEmpty;
          case ReadError =>
            return Failed;
          case Read(snap, ts) =>
            var failure := AppendToDataframes(snap, ts);
            if failure.Some? {
              return Failed;
            }
            var scenarios := PrepareScenarioData(tables);
            if scenarios.None? {
              return Failed;
            }
            previousModified := Some(lastModified);
            return Charts(scenarios.value);
        }
      } else {
        return NoUpdate;
      }
    }
  }
}
