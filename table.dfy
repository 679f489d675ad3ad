/**
 * A sipper table: the time-indexed rows a recording holds once loaded.  Timestamps are
 * whole seconds from an epoch that falls on a midnight; the counters and durations are
 * integers; a missing content label is `None`.
 */
module SipperTable {
  import opened Wrappers

  /** One row: the index timestamp, both channels' counters and durations, and both content labels. */
  datatype Row = Row(
    time: int,
    leftCount: int,
    leftDuration: int,
    rightCount: int,
    rightDuration: int,
    leftContents: Option<string>,
    rightContents: Option<string>)

  /** The value columns `get_content_values` may read, named by `out`. */
  datatype Metric = Count | Duration

  /** Column `'Left' + out` of a row. */
  function LeftValue(row: Row, metric: Metric): int {
    match metric
    case Count => row.leftCount
    case Duration => row.leftDuration
  }

  /** Column `'Right' + out` of a row. */
  function RightValue(row: Row, metric: Metric): int {
    match metric
    case Count => row.rightCount
    case Duration => row.rightDuration
  }

  /** The index of a loaded table is strictly increasing (no duplicate timestamps). */
  ghost predicate IsTimeOrdered(rows: seq<Row>) {
    forall i, j :: 0 <= i < j < |rows| ==> rows[i].time < rows[j].time
  }

  /** The index column. */
  function Times(rows: seq<Row>): seq<int> {
    seq(|rows|, i requires 0 <= i < |rows| => rows[i].time)
  }

  /** `df[(df.index >= start) & (df.index <= end)]`: the rows of the closed window, in table order. */
  function InWindow(rows: seq<Row>, start: int, end: int): (r: seq<Row>)
    ensures |r| <= |rows|
    ensures forall x :: x in r <==> x in rows && start <= x.time <= end
  {
    if |rows| == 0 then []
    else (if start <= rows[0].time <= end then [rows[0]] else []) + InWindow(rows[1..], start, end)
  }

  /** The window filter keeps table order: filtering a concatenation concatenates the filtered parts. */
  lemma {:induction false} InWindowConcat(a: seq<Row>, b: seq<Row>, start: int, end: int)
    ensures InWindow(a + b, start, end) == InWindow(a, start, end) + InWindow(b, start, end)
  {
    if |a| > 0 {
      assert (a + b)[1..] == a[1..] + b;
      InWindowConcat(a[1..], b, start, end);
    } else {
      assert a + b == b;
    }
  }

  /** `date_filter_okay`: true iff some row lies in the closed window [start, end]. */
  function DateFilterOkay(rows: seq<Row>, start: int, end: int): (ok: bool)
    ensures ok <==> exists i :: 0 <= i < |rows| && start <= rows[i].time <= end
  {
    var check := InWindow(rows, start, end);
    assert check != [] ==> check[0] in check;
    |check| > 0
  }
}
