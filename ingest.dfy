/**
 * Ingestion of one snapshot of the data file into the metric tables.  For every
 * metric column after the first (the Symbol column), the snapshot is pivoted into
 * one row keyed by the file timestamp with one column per lower-cased symbol,
 * and that row is appended to the metric's table.  The loop stops at the first
 * failure; tables already updated by earlier iterations stay updated.
 */
module Ingest {
  import opened Wrappers
  import opened Tables

  /** ASCII lower-casing of one character. */
  function LowerChar(c: char): (r: char)
    ensures !('A' <= r <= 'Z')
    ensures 'A' <= c <= 'Z' ==> 'a' <= r <= 'z' && r as int - 'a' as int == c as int - 'A' as int
    ensures !('A' <= c <= 'Z') ==> r == c
  {
    if 'A' <= c <= 'Z' then (c as int - 'A' as int + 'a' as int) as char else c
  }

  /**
   * ASCII lower-casing: each capital becomes the small letter at the same
   * position of the alphabet, every other character stays as it is.
   */
  function Lower(s: string): (r: string)
    ensures |r| == |s|
    ensures forall i | 0 <= i < |r| :: !('A' <= r[i] <= 'Z')
    ensures forall i | 0 <= i < |s| && 'A' <= s[i] <= 'Z' ::
      'a' <= r[i] <= 'z' && r[i] as int - 'a' as int == s[i] as int - 'A' as int
    ensures forall i | 0 <= i < |s| && !('A' <= s[i] <= 'Z') :: r[i] == s[i]
  {
    seq(|s|, i requires 0 <= i < |s| => LowerChar(s[i]))
  }

  /**
   * The data file as read: symbols[i] is the Symbol of row i, metrics are the
   * column names after the first, cells[i][k] is row i's text under metrics[k].
   */
  datatype Snapshot = Snapshot(symbols: seq<string>, metrics: seq<string>, cells: seq<seq<string>>)

  /** A rectangular table whose column names are distinct, as a CSV reader yields. */
  predicate WellShaped(s: Snapshot)
  {
    && |s.cells| == |s.symbols|
    && (forall i | 0 <= i < |s.cells| :: |s.cells[i]| == |s.metrics|)
    && Distinct(s.metrics)
  }

  /** Symbols that differ before lower-casing still differ after it. */
  predicate CaseSafe(s: Snapshot)
  {
    forall i, j | 0 <= i < |s.symbols| && 0 <= j < |s.symbols| ::
      Lower(s.symbols[i]) == Lower(s.symbols[j]) ==> s.symbols[i] == s.symbols[j]
  }

  /**
   * Pivoting fails: a symbol occurs twice, so the pivot (line 40) has two
   * values for one cell, or a symbol lower-cases to "timestamp", so
   * reset_index (line 42) cannot insert the index column beside it.
   */
  predicate PivotFails(s: Snapshot)
  {
    || (exists i, j | 0 <= i < j < |s.symbols| :: s.symbols[i] == s.symbols[j])
    || (exists i | 0 <= i < |s.symbols| :: Lower(s.symbols[i]) == "timestamp")
  }

  /**
   * The single row the pivot of metric column k yields.  It is keyed by the
   * file timestamp, its columns are the snapshot's symbols lower-cased, none
   * of them is "timestamp", and each holds that symbol's text for the metric.
   */
  function PivotRow(s: Snapshot, k: nat, ts: Timestamp): (r: Row)
    requires WellShaped(s) && CaseSafe(s) && !PivotFails(s) && k < |s.metrics|
    ensures r.timestamp == ts
    ensures r.cells.Keys == set i | 0 <= i < |s.symbols| :: Lower(s.symbols[i])
    ensures "timestamp" !in r.cells
    ensures forall i | 0 <= i < |s.symbols| :: r.cells[Lower(s.symbols[i])] == s.cells[i][k]
  {
    assert forall i | 0 <= i < |s.symbols| :: Lower(s.symbols[i]) != "timestamp";
    Row(ts, map i | 0 <= i < |s.symbols| :: Lower(s.symbols[i]) := s.cells[i][k])
  }

  /** The rows the pivot yields: none for a snapshot without data rows, else the pivoted row. */
  function PivotRows(s: Snapshot, k: nat, ts: Timestamp): (rows: seq<Row>)
    requires WellShaped(s) && CaseSafe(s) && !PivotFails(s) && k < |s.metrics|
    ensures |rows| <= 1
    ensures |rows| == 0 <==> |s.symbols| == 0
    ensures forall j | 0 <= j < |rows| :: rows[j].timestamp == ts
  {
    if |s.symbols| == 0 then [] else [PivotRow(s, k, ts)]
  }

  /** Index of the first metric column that has no table (|ms| when all have one). */
  function FirstUnknown(tables: map<string, seq<Row>>, ms: seq<string>): (n: nat)
    ensures n <= |ms|
    ensures forall j | 0 <= j < n :: ms[j] in tables
    ensures n < |ms| ==> ms[n] !in tables
  {
    if ms == [] || ms[0] !in tables then 0 else 1 + FirstUnknown(tables, ms[1..])
  }

  /** A known metric at the scan position moves the first unknown one further on. */
  lemma FirstUnknownPast(tables: map<string, seq<Row>>, ms: seq<string>, k: nat)
    requires k <= FirstUnknown(tables, ms) && k < |ms| && ms[k] in tables
    ensures k + 1 <= FirstUnknown(tables, ms)
  {
  }

  /** The pivot of every metric column, in column order. */
  function Pivots(s: Snapshot, ts: Timestamp): (ps: seq<seq<Row>>)
    requires WellShaped(s) && CaseSafe(s) && !PivotFails(s)
    ensures |ps| == |s.metrics|
    ensures forall k | 0 <= k < |ps| :: ps[k] == PivotRows(s, k, ts)
  {
    seq(|s.metrics|, k requires 0 <= k < |s.metrics| => PivotRows(s, k, ts))
  }

  /** How one loop iteration changes a metric table, given that column's pivoted rows. */
  type Step = (seq<Row>, seq<Row>) -> seq<Row>

  /**
   * The tables after the loop has processed metric columns 0 .. n-1, column j
   * (named ms[j]) turning its table t into step(t, ps[j]).  The ingestion uses
   * step = AppendRows; the lemmas about the loop hold for any step.
   */
  function IngestPrefix(step: Step, tables: map<string, seq<Row>>, ms: seq<string>, ps: seq<seq<Row>>, n: nat): (r: map<string, seq<Row>>)
    requires |ps| == |ms| && n <= |ms| && forall j | 0 <= j < n :: ms[j] in tables
    ensures r.Keys == tables.Keys
  {
    if n == 0 then tables
    else
      var prev := IngestPrefix(step, tables, ms, ps, n - 1);
      prev[ms[n - 1] := step(prev[ms[n - 1]], ps[n - 1])]
  }

  /** Processing one more metric column updates that metric's table and nothing else. */
  lemma IngestPrefixStep(step: Step, tables: map<string, seq<Row>>, ms: seq<string>, ps: seq<seq<Row>>, k: nat)
    requires |ps| == |ms| && k < FirstUnknown(tables, ms)
    ensures IngestPrefix(step, tables, ms, ps, k + 1) ==
      var prev := IngestPrefix(step, tables, ms, ps, k);
      prev[ms[k] := step(prev[ms[k]], ps[k])]
    ensures k == 0 ==> IngestPrefix(step, tables, ms, ps, k) == tables
  {
  }

  datatype IngestError = PivotError | UnknownMetric(name: string)

  datatype Ingested = Ingested(tables: map<string, seq<Row>>, failure: Option<IngestError>)

  /** What one call of the ingestion leaves behind, and whether it raised. */
  function Ingest(tables: map<string, seq<Row>>, s: Snapshot, ts: Timestamp): (r: Ingested)
    requires WellShaped(s) && CaseSafe(s)
    ensures r.tables.Keys == tables.Keys
    ensures r.failure == Some(PivotError) <==> |s.metrics| > 0 && PivotFails(s)
    ensures r.failure == Some(PivotError) ==> r.tables == tables
    ensures r.failure.Some? && r.failure.value.UnknownMetric? ==>
      r.failure.value.name in s.metrics && r.failure.value.name !in tables
  {
    if |s.metrics| == 0 then Ingested(tables, None)
    else if PivotFails(s) then Ingested(tables, Some(PivotError))
    else
      var n := FirstUnknown(tables, s.metrics);
      Ingested(IngestPrefix(AppendRows, tables, s.metrics, Pivots(s, ts), n),
               if n == |s.metrics| then None else Some(UnknownMetric(s.metrics[n])))
  }

  /** Metric column names are pairwise distinct. */
  predicate Distinct(ms: seq<string>)
  {
    forall j, k | 0 <= j < k < |ms| :: ms[j] != ms[k]
  }

  /** A table not named by columns 0 .. n-1 is not touched by them. */
  lemma {:induction false} IngestPrefixUntouched(step: Step, tables: map<string, seq<Row>>, ms: seq<string>, ps: seq<seq<Row>>, n: nat, m: string)
    requires |ps| == |ms| && n <= |ms| && forall j | 0 <= j < n :: ms[j] in tables
    requires m in tables && forall j | 0 <= j < n :: ms[j] != m
    ensures IngestPrefix(step, tables, ms, ps, n)[m] == tables[m]
  {
    if n > 0 {
      IngestPrefixUntouched(step, tables, ms, ps, n - 1, m);
    }
  }

  /** After processing column k, metric k's table is its old table with that column's step applied. */
  lemma {:induction false} IngestPrefixUpdated(step: Step, tables: map<string, seq<Row>>, ms: seq<string>, ps: seq<seq<Row>>, n: nat, k: nat)
    requires |ps| == |ms| && Distinct(ms)
    requires n <= |ms| && forall j | 0 <= j < n :: ms[j] in tables
    requires k < n
    ensures IngestPrefix(step, tables, ms, ps, n)[ms[k]] == step(tables[ms[k]], ps[k])
  {
    var m := ms[k];
    if k == n - 1 {
      IngestPrefixUntouched(step, tables, ms, ps, k, m);
    } else {
      assert ms[n - 1] != m;
      IngestPrefixUpdated(step, tables, ms, ps, n - 1, k);
    }
  }

  /**
   * One loop iteration: appending the pivot of column k to its table in the
   * tables cur left by columns 0 .. k-1 gives the tables left by columns 0 .. k
   * (n is k + 1, the loop counter after the iteration).
   */
  lemma IngestPrefixAfter(tables: map<string, seq<Row>>, s: Snapshot, ts: Timestamp, k: nat, n: nat,
                          cur: map<string, seq<Row>>, next: map<string, seq<Row>>)
    requires WellShaped(s) && CaseSafe(s) && !PivotFails(s)
    requires n == k + 1 && k < FirstUnknown(tables, s.metrics)
    requires k == 0 ==> cur == tables
    requires k > 0 ==> cur == IngestPrefix(AppendRows, tables, s.metrics, Pivots(s, ts), k)
    requires s.metrics[k] in cur
    requires next == cur[s.metrics[k] := AppendRows(cur[s.metrics[k]], PivotRows(s, k, ts))]
    ensures next == IngestPrefix(AppendRows, tables, s.metrics, Pivots(s, ts), n)
  {
    IngestPrefixStep(AppendRows, tables, s.metrics, Pivots(s, ts), k);
  }

  /**
   * When columns 0 .. k-1 all have tables and column k (if any) has none, the
   * call leaves the tables the loop had after k iterations.
   */
  lemma IngestStopsAt(tables: map<string, seq<Row>>, s: Snapshot, ts: Timestamp, k: nat)
    requires WellShaped(s) && CaseSafe(s) && |s.metrics| > 0 && !PivotFails(s)
    requires k <= |s.metrics| && forall j | 0 <= j < k :: s.metrics[j] in tables
    requires k < |s.metrics| ==> s.metrics[k] !in tables
    ensures Ingest(tables, s, ts) ==
      Ingested(IngestPrefix(AppendRows, tables, s.metrics, Pivots(s, ts), k), if k == |s.metrics| then None else Some(UnknownMetric(s.metrics[k])))
  {
    assert FirstUnknown(tables, s.metrics) == k;
  }

  /**
   * The call raises exactly when there is a metric column and either the pivot
   * fails or some metric column names no table.
   */
  lemma IngestFailsIff(tables: map<string, seq<Row>>, s: Snapshot, ts: Timestamp)
    requires WellShaped(s) && CaseSafe(s)
    ensures Ingest(tables, s, ts).failure.Some? <==>
      |s.metrics| > 0 && (PivotFails(s) || exists k | 0 <= k < |s.metrics| :: s.metrics[k] !in tables)
  {
    if |s.metrics| > 0 && !PivotFails(s) {
      var n := FirstUnknown(tables, s.metrics);
      if n < |s.metrics| {
        assert s.metrics[n] !in tables;
      }
    }
  }

  /**
   * Only the tables named by the snapshot's metric columns change, and on a
   * failure only those before the failing column; each changed table is its old
   * table with that column's pivot appended.
   */
  lemma IngestUntouched(tables: map<string, seq<Row>>, s: Snapshot, ts: Timestamp, m: string)
    requires WellShaped(s) && CaseSafe(s)
    requires m in tables && m !in s.metrics
    ensures Ingest(tables, s, ts).tables[m] == tables[m]
  {
    if |s.metrics| > 0 && !PivotFails(s) {
      var n := FirstUnknown(tables, s.metrics);
      IngestPrefixUntouched(AppendRows, tables, s.metrics, Pivots(s, ts), n, m);
    }
  }

  /**
   * On success, the table of every metric column is its old table with that
   * column's pivoted row appended.
   */
  lemma IngestSuccess(tables: map<string, seq<Row>>, s: Snapshot, ts: Timestamp, k: nat)
    requires WellShaped(s) && CaseSafe(s) && k < |s.metrics|
    requires Ingest(tables, s, ts).failure == None
    ensures !PivotFails(s) && s.metrics[k] in tables
    ensures Ingest(tables, s, ts).tables[s.metrics[k]] == AppendRows(tables[s.metrics[k]], PivotRows(s, k, ts))
  {
    IngestPrefixUpdated(AppendRows, tables, s.metrics, Pivots(s, ts), |s.metrics|, k);
  }

  /**
   * A failing pivot changes nothing; a column without a table (KeyError) leaves
   * the columns before it applied and the ones after it untouched.
   */
  lemma IngestFailure(tables: map<string, seq<Row>>, s: Snapshot, ts: Timestamp)
    requires WellShaped(s) && CaseSafe(s)
    requires Ingest(tables, s, ts).failure.Some?
    ensures Ingest(tables, s, ts).failure == Some(PivotError) ==> Ingest(tables, s, ts).tables == tables
    ensures Ingest(tables, s, ts).failure.value.UnknownMetric? ==>
      var n := FirstUnknown(tables, s.metrics);
      && n < |s.metrics|
      && Ingest(tables, s, ts).failure.value.name == s.metrics[n]
      && s.metrics[n] !in tables
      && (forall k | 0 <= k < n ::
            Ingest(tables, s, ts).tables[s.metrics[k]] == AppendRows(tables[s.metrics[k]], PivotRows(s, k, ts)))
      && (forall k | n < k < |s.metrics| && s.metrics[k] in tables ::
            Ingest(tables, s, ts).tables[s.metrics[k]] == tables[s.metrics[k]])
  {
    if Ingest(tables, s, ts).failure.value.UnknownMetric? {
      var n := FirstUnknown(tables, s.metrics);
      forall k | 0 <= k < n
        ensures Ingest(tables, s, ts).tables[s.metrics[k]] == AppendRows(tables[s.metrics[k]], PivotRows(s, k, ts))
      {
        IngestPrefixUpdated(AppendRows, tables, s.metrics, Pivots(s, ts), n, k);
      }
      forall k | n < k < |s.metrics| && s.metrics[k] in tables
        ensures Ingest(tables, s, ts).tables[s.metrics[k]] == tables[s.metrics[k]]
      {
        IngestPrefixUntouched(AppendRows, tables, s.metrics, Pivots(s, ts), n, s.metrics[k]);
      }
    }
  }

  /** Every table that satisfied the table invariant still does afterwards. */
  lemma IngestKeepsInvariant(tables: map<string, seq<Row>>, s: Snapshot, ts: Timestamp)
    requires WellShaped(s) && CaseSafe(s)
    requires forall m | m in tables :: WellFormed(tables[m])
    ensures forall m | m in Ingest(tables, s, ts).tables :: WellFormed(Ingest(tables, s, ts).tables[m])
  {
    if |s.metrics| > 0 && !PivotFails(s) {
      var n := FirstUnknown(tables, s.metrics);
      var r := IngestPrefix(AppendRows, tables, s.metrics, Pivots(s, ts), n);
      forall m | m in r ensures WellFormed(r[m]) {
        if m in s.metrics[..n] {
          var k :| 0 <= k < n && s.metrics[..n][k] == m;
          assert s.metrics[k] == m;
          IngestPrefixUpdated(AppendRows, tables, s.metrics, Pivots(s, ts), n, k);
          AppendKeepsInvariant(tables[m], PivotRows(s, k, ts));
        } else {
          IngestPrefixUntouched(AppendRows, tables, s.metrics, Pivots(s, ts), n, m);
        }
      }
    }
  }

  /**
   * After a successful ingestion of a snapshot with data rows, every metric
   * table ends with that metric's pivoted row, which is the only row with the
   * file timestamp.
   */
  lemma IngestNewRowLast(tables: map<string, seq<Row>>, s: Snapshot, ts: Timestamp, k: nat)
    requires WellShaped(s) && CaseSafe(s) && k < |s.metrics| && |s.symbols| > 0
    requires forall m | m in tables :: WellFormed(tables[m])
    requires Ingest(tables, s, ts).failure == None
    ensures !PivotFails(s) && s.metrics[k] in Ingest(tables, s, ts).tables
    ensures var t := Ingest(tables, s, ts).tables[s.metrics[k]];
      |t| > 0 && t[|t| - 1] == PivotRow(s, k, ts) &&
      forall j | 0 <= j < |t| - 1 :: t[j].timestamp != ts
  {
    IngestSuccess(tables, s, ts, k);
    IngestKeepsInvariant(tables, s, ts);
    var m := s.metrics[k];
    AppendEndsWith(tables[m], PivotRow(s, k, ts));
    var t := Ingest(tables, s, ts).tables[m];
    assert WellFormed(t);
  }
}
