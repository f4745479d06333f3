/**
 * One metric table: rows in insertion order, each a timestamp and one cell per
 * lower-cased symbol.  Appending concatenates the new rows, keeps only the last
 * row of each timestamp, and drops the single oldest row when more than
 * MaxRows remain.
 */
module Tables {

  /** The file timestamp (the data file's modification time as text) is an opaque value supplied by the caller. */
  type Timestamp = string

  datatype Row = Row(timestamp: Timestamp, cells: map<string, string>)

  /** The row cap of every metric table. */
  const MaxRows := 50

  /** The six metric tables, keyed by the CSV's metric column names. */
  const MetricNames: seq<string> := ["Value1", "Value2", "Value3", "Value4", "Value5", "Value6"]

  predicate HasTimestamp(t: seq<Row>, ts: Timestamp)
  {
    exists i | 0 <= i < |t| :: t[i].timestamp == ts
  }

  predicate UniqueTimestamps(t: seq<Row>)
  {
    forall i, j | 0 <= i < j < |t| :: t[i].timestamp != t[j].timestamp
  }

  /** The invariant every accumulated table keeps. */
  predicate WellFormed(t: seq<Row>)
  {
    |t| <= MaxRows && UniqueTimestamps(t)
  }

  /** The rows whose timestamp is not ts, in their original order. */
  function Without(t: seq<Row>, ts: Timestamp): (r: seq<Row>)
    ensures |r| <= |t|
    ensures !HasTimestamp(r, ts)
    ensures forall row :: row in r <==> row in t && row.timestamp != ts
  {
    if t == [] then []
    else (if t[0].timestamp == ts then [] else [t[0]]) + Without(t[1..], ts)
  }

  /**
   * De-duplication on the timestamp keeping the last occurrence: a row is
   * dropped exactly when a later row carries the same timestamp.
   */
  function KeepLast(t: seq<Row>): (r: seq<Row>)
    ensures |r| <= |t|
    ensures UniqueTimestamps(r)
    ensures forall row :: row in r ==> row in t
    ensures forall ts :: HasTimestamp(r, ts) <==> HasTimestamp(t, ts)
    ensures forall i | 0 <= i < |t| && !HasTimestamp(t[i + 1..], t[i].timestamp) :: t[i] in r
  {
    if t == [] then []
    else
      var rest := KeepLast(t[1..]);
      KeepLastTail(t, rest);
      if HasTimestamp(t[1..], t[0].timestamp) then rest
      else
        HasTimestampSplit(t);
        HasTimestampSplit([t[0]] + rest);
        assert ([t[0]] + rest)[1..] == rest;
        [t[0]] + rest
  }

  /** A latest row of the tail that the tail's de-duplication keeps is a latest row of t. */
  lemma KeepLastTail(t: seq<Row>, rest: seq<Row>)
    requires t != []
    requires forall i | 0 <= i < |t[1..]| && !HasTimestamp(t[1..][i + 1..], t[1..][i].timestamp) :: t[1..][i] in rest
    ensures forall i | 1 <= i < |t| && !HasTimestamp(t[i + 1..], t[i].timestamp) :: t[i] in rest
  {
    forall i | 1 <= i < |t| && !HasTimestamp(t[i + 1..], t[i].timestamp) ensures t[i] in rest {
      assert t[i] == t[1..][i - 1] && t[i + 1..] == t[1..][i..];
    }
  }

  lemma HasTimestampSplit(t: seq<Row>)
    requires t != []
    ensures forall ts :: HasTimestamp(t, ts) <==> ts == t[0].timestamp || HasTimestamp(t[1..], ts)
  {
    forall ts | HasTimestamp(t, ts) ensures ts == t[0].timestamp || HasTimestamp(t[1..], ts) {
      var i :| 0 <= i < |t| && t[i].timestamp == ts;
      if i > 0 { assert t[1..][i - 1] == t[i]; }
    }
    forall ts | HasTimestamp(t[1..], ts) ensures HasTimestamp(t, ts) {
      var i :| 0 <= i < |t[1..]| && t[1..][i].timestamp == ts;
      assert t[i + 1] == t[1..][i];
    }
  }

  /**
   * One append step of a metric table: concatenate, de-duplicate, then drop the
   * single oldest row when the table is over the cap.  The
   * result has distinct timestamps, holds only old and new rows, and stays within
   * the cap when at most one row over it was concatenated.
   */
  function AppendRows(t: seq<Row>, rows: seq<Row>): (r: seq<Row>)
    ensures UniqueTimestamps(r)
    ensures forall row :: row in r ==> row in t || row in rows
    ensures |t + rows| <= MaxRows + 1 ==> |r| <= MaxRows
  {
    var k := KeepLast(t + rows);
    if |k| > MaxRows then
      UniqueTail(k);
      assert forall row :: row in k[1..] ==> row in k;
      k[1..]
    else k
  }

  /**
   * The table obtained by appending the rows of rs one at a time to an empty
   * table, as successive ingestions of one metric do.
   */
  function Accumulate(rs: seq<Row>): seq<Row>
  {
    if rs == [] then [] else AppendRows(Accumulate(rs[..|rs| - 1]), [rs[|rs| - 1]])
  }

  lemma {:induction false} WithoutAbsent(t: seq<Row>, ts: Timestamp)
    requires !HasTimestamp(t, ts)
    ensures Without(t, ts) == t
  {
    if t != [] {
      HasTimestampSplit(t);
      WithoutAbsent(t[1..], ts);
    }
  }

  lemma {:induction false} WithoutPresent(t: seq<Row>, ts: Timestamp)
    requires UniqueTimestamps(t) && HasTimestamp(t, ts)
    ensures |Without(t, ts)| == |t| - 1
  {
    HasTimestampSplit(t);
    if t[0].timestamp == ts {
      assert !HasTimestamp(t[1..], ts) by {
        forall i | 0 <= i < |t[1..]| ensures t[1..][i].timestamp != ts {
          assert t[1..][i] == t[i + 1];
        }
      }
      WithoutAbsent(t[1..], ts);
    } else {
      WithoutPresent(t[1..], ts);
    }
  }

  lemma {:induction false} KeepLastOfUnique(t: seq<Row>)
    requires UniqueTimestamps(t)
    ensures KeepLast(t) == t
  {
    if t != [] {
      assert !HasTimestamp(t[1..], t[0].timestamp) by {
        forall i | 0 <= i < |t[1..]| ensures t[1..][i].timestamp != t[0].timestamp {
          assert t[1..][i] == t[i + 1];
        }
      }
      KeepLastOfUnique(t[1..]);
    }
  }

  /** The tail of a table with unique timestamps is unique and misses the head's timestamp. */
  lemma UniqueTail(t: seq<Row>)
    requires UniqueTimestamps(t) && t != []
    ensures UniqueTimestamps(t[1..])
    ensures !HasTimestamp(t[1..], t[0].timestamp)
  {
    var u := t[1..];
    forall i, j | 0 <= i < j < |u| ensures u[i].timestamp != u[j].timestamp {
      assert u[i] == t[i + 1] && u[j] == t[j + 1];
    }
    forall i | 0 <= i < |u| ensures u[i].timestamp != t[0].timestamp {
      assert u[i] == t[i + 1];
    }
  }

  lemma HasTimestampSnoc(u: seq<Row>, x: Row, ts: Timestamp)
    ensures HasTimestamp(u + [x], ts) <==> HasTimestamp(u, ts) || x.timestamp == ts
  {
    if HasTimestamp(u + [x], ts) {
      var i :| 0 <= i < |u + [x]| && (u + [x])[i].timestamp == ts;
      if i < |u| { assert (u + [x])[i] == u[i]; }
    }
    if HasTimestamp(u, ts) {
      var i :| 0 <= i < |u| && u[i].timestamp == ts;
      assert (u + [x])[i] == u[i];
    }
    assert (u + [x])[|u|] == x;
  }

  /**
   * On a table with unique timestamps, de-duplicating after appending x removes
   * the older row with x's timestamp (if any), keeps the other rows in order and
   * keeps x last.
   */
  lemma {:induction false} KeepLastAppend(t: seq<Row>, x: Row)
    requires UniqueTimestamps(t)
    ensures KeepLast(t + [x]) == Without(t, x.timestamp) + [x]
  {
    if t != [] {
      var a, u := t[0], t[1..];
      var v := t + [x];
      assert v[0] == a && v[1..] == u + [x];
      UniqueTail(t);
      KeepLastAppend(u, x);
      HasTimestampSnoc(u, x, a.timestamp);
      var w := Without(u, x.timestamp);
      if a.timestamp == x.timestamp {
        assert KeepLast(v) == KeepLast(u + [x]);
        assert Without(t, x.timestamp) == w;
      } else {
        assert KeepLast(v) == [a] + (w + [x]);
        assert Without(t, x.timestamp) == [a] + w;
        assert [a] + (w + [x]) == [a] + w + [x];
      }
    }
  }

  /** Appending nothing (an empty snapshot) leaves a well-formed table as it was. */
  lemma AppendNothing(t: seq<Row>)
    requires WellFormed(t)
    ensures AppendRows(t, []) == t
  {
    assert t + [] == t;
    KeepLastOfUnique(t);
  }

  /**
   * One append keeps the table invariant: at most MaxRows rows, unique
   * timestamps.  The row count changes by at most one, and every row of the
   * result is an old row or the new one.
   */
  lemma AppendKeepsInvariant(t: seq<Row>, rows: seq<Row>)
    requires WellFormed(t) && |rows| <= 1
    ensures WellFormed(AppendRows(t, rows))
    ensures |t| - 1 <= |AppendRows(t, rows)| <= |t| + 1
    ensures forall row :: row in AppendRows(t, rows) ==> row in t || row in rows
  {
    if rows == [] {
      AppendNothing(t);
    } else {
      var x := rows[0];
      assert rows == [x];
      KeepLastAppend(t, x);
      if HasTimestamp(t, x.timestamp) {
        WithoutPresent(t, x.timestamp);
      } else {
        WithoutAbsent(t, x.timestamp);
      }
      var k := KeepLast(t + rows);
      if |k| > MaxRows {
        assert forall row :: row in k[1..] ==> row in k;
        assert forall j | 0 <= j < |k[1..]| :: k[1..][j] == k[j + 1];
      }
    }
  }

  /**
   * Re-ingesting a timestamp already in the table replaces that row: the other
   * rows keep their relative order, the new row is last and the count does not grow.
   */
  lemma AppendReplaces(t: seq<Row>, x: Row)
    requires WellFormed(t) && HasTimestamp(t, x.timestamp)
    ensures AppendRows(t, [x]) == Without(t, x.timestamp) + [x]
    ensures |AppendRows(t, [x])| == |t|
  {
    KeepLastAppend(t, x);
    WithoutPresent(t, x.timestamp);
  }

  /**
   * A new timestamp is appended at the end; when the table was full, exactly the
   * oldest row is evicted and the rest keep their order.
   */
  lemma AppendFresh(t: seq<Row>, x: Row)
    requires WellFormed(t) && !HasTimestamp(t, x.timestamp)
    ensures AppendRows(t, [x]) == if |t| == MaxRows then t[1..] + [x] else t + [x]
  {
    KeepLastAppend(t, x);
    WithoutAbsent(t, x.timestamp);
    if |t| == MaxRows {
      assert (t + [x])[1..] == t[1..] + [x];
    }
  }

  /** Whatever the table held, the appended row is the last row afterwards. */
  lemma AppendEndsWith(t: seq<Row>, x: Row)
    requires WellFormed(t)
    ensures |AppendRows(t, [x])| > 0
    ensures AppendRows(t, [x])[|AppendRows(t, [x])| - 1] == x
  {
    if HasTimestamp(t, x.timestamp) {
      AppendReplaces(t, x);
    } else {
      AppendFresh(t, x);
    }
  }

  /**
   * Appending the same row twice leaves what one append left: re-ingesting a
   * snapshot at the same timestamp changes nothing further.
   */
  lemma AppendIdempotent(t: seq<Row>, x: Row)
    requires WellFormed(t)
    ensures AppendRows(AppendRows(t, [x]), [x]) == AppendRows(t, [x])
  {
    var u := AppendRows(t, [x]);
    AppendKeepsInvariant(t, [x]);
    AppendEndsWith(t, x);
    var front := u[..|u| - 1];
    assert u == front + [x];
    assert !HasTimestamp(front, x.timestamp) by {
      forall j | 0 <= j < |front| ensures front[j].timestamp != x.timestamp {
        assert front[j] == u[j];
      }
    }
    assert HasTimestamp(u, x.timestamp) by { assert u[|u| - 1] == x; }
    AppendReplaces(u, x);
    assert Without(u, x.timestamp) == front by {
      WithoutAbsent(front, x.timestamp);
      WithoutSplit(front, [x], x.timestamp);
    }
  }

  lemma {:induction false} WithoutSplit(a: seq<Row>, b: seq<Row>, ts: Timestamp)
    ensures Without(a + b, ts) == Without(a, ts) + Without(b, ts)
  {
    if a != [] {
      assert (a + b)[0] == a[0] && (a + b)[1..] == a[1..] + b;
      WithoutSplit(a[1..], b, ts);
    } else {
      assert a + b == b;
    }
  }

  /**
   * Ingesting rows with pairwise distinct timestamps one after another keeps
   * exactly the most recent MaxRows of them, oldest dropped first.
   */
  lemma {:induction false} AccumulateKeepsNewest(rs: seq<Row>)
    requires UniqueTimestamps(rs)
    ensures Accumulate(rs) == rs[|rs| - Min(MaxRows, |rs|)..]
  {
    if rs != [] {
      var n := |rs|;
      var front := rs[..n - 1];
      UniquePrefix(rs, n - 1);
      AccumulateKeepsNewest(front);
      var k := |front| - Min(MaxRows, |front|);
      assert front[k..] == rs[k..n - 1];
      SlideWindow(rs, k);
    }
  }

  /** Appending the last row to the window of rows before it slides the window by one. */
  lemma SlideWindow(rs: seq<Row>, k: nat)
    requires UniqueTimestamps(rs) && 0 < |rs| && k == |rs| - 1 - Min(MaxRows, |rs| - 1)
    ensures AppendRows(rs[k..|rs| - 1], [rs[|rs| - 1]]) == rs[|rs| - Min(MaxRows, |rs|)..]
  {
    var n := |rs|;
    var prev, x := rs[k..n - 1], rs[n - 1];
    UniqueWindowFresh(rs, k);
    AppendFresh(prev, x);
    if |prev| == MaxRows {
      assert prev[1..] == rs[k + 1..n - 1];
      SliceSnoc(rs, k + 1);
    } else {
      SliceSnoc(rs, k);
    }
  }

  /** A slice up to the last element, followed by that element, is the slice to the end. */
  lemma SliceSnoc<T>(s: seq<T>, a: nat)
    requires a < |s|
    ensures s[a..|s| - 1] + [s[|s| - 1]] == s[a..]
  {
  }

  lemma UniquePrefix(rs: seq<Row>, m: nat)
    requires UniqueTimestamps(rs) && m <= |rs|
    ensures UniqueTimestamps(rs[..m])
  {
    forall i, j | 0 <= i < j < m ensures rs[..m][i].timestamp != rs[..m][j].timestamp {
      assert rs[..m][i] == rs[i] && rs[..m][j] == rs[j];
    }
  }

  /** A window of at most MaxRows rows before the last row is well formed and misses its timestamp. */
  lemma UniqueWindowFresh(rs: seq<Row>, k: nat)
    requires UniqueTimestamps(rs) && 0 < |rs| && k < |rs| && |rs| - 1 - k <= MaxRows
    ensures WellFormed(rs[k..|rs| - 1])
    ensures !HasTimestamp(rs[k..|rs| - 1], rs[|rs| - 1].timestamp)
  {
    var w := rs[k..|rs| - 1];
    forall i, j | 0 <= i < j < |w| ensures w[i].timestamp != w[j].timestamp {
      assert w[i] == rs[k + i] && w[j] == rs[k + j];
    }
    forall i | 0 <= i < |w| ensures w[i].timestamp != rs[|rs| - 1].timestamp {
      assert w[i] == rs[k + i];
    }
  }

  function Min(a: int, b: int): int { if a < b then a else b }
}
