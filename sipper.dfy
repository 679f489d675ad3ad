/**
 * A loaded sipper recording (class `Sipper` in sipper.py) and its content assignment:
 * an ordered dict of windows `(start, end) -> (left, right)` relabels the table in
 * place, window after window, so that a later window wins where windows overlap.
 */
module SipperCore {
  import opened Wrappers
  import opened Text
  import opened SipperTable
  import opened Stitching

  /** One item of an assignment dict: the window `(start, end)` and the labels `(left, right)`. */
  datatype Assignment = Assignment(start: int, end: int, left: Option<string>, right: Option<string>)

  // ---------------------------------------------------------------------------
  // `contents_dates`: an ordered dict keyed by window
  // ---------------------------------------------------------------------------

  predicate SameWindow(a: Assignment, b: Assignment) {
    a.start == b.start && a.end == b.end
  }

  /** No window is a key twice. */
  ghost predicate UniqueWindows(entries: seq<Assignment>) {
    forall i, j :: 0 <= i < j < |entries| ==> !SameWindow(entries[i], entries[j])
  }

  /** The position of the first entry with the window of `a`, if there is one. */
  function FindWindow(entries: seq<Assignment>, a: Assignment): (r: Option<nat>)
    ensures r.Some? ==> r.value < |entries| && SameWindow(entries[r.value], a)
    ensures r.None? ==> forall i :: 0 <= i < |entries| ==> !SameWindow(entries[i], a)
  {
    if |entries| == 0 then None
    else if SameWindow(entries[0], a) then Some(0)
    else match FindWindow(entries[1..], a)
      case None => None
      case Some(i) => Some(i + 1)
  }

  /** `contents_dates[(start, end)] = (left, right)`: overwrite the entry in place, or append a new one. */
  function Put(entries: seq<Assignment>, a: Assignment): seq<Assignment> {
    match FindWindow(entries, a)
    case Some(i) => entries[i := a]
    case None => entries + [a]
  }

  /**
   * The dict afterwards holds `a`, keeps every entry with another window, and holds
   * nothing else; old keys keep their positions and a new key goes to the end.
   */
  lemma PutSpec(entries: seq<Assignment>, a: Assignment)
    requires UniqueWindows(entries)
    ensures UniqueWindows(Put(entries, a))
    ensures forall b :: b in Put(entries, a) <==> b == a || (b in entries && !SameWindow(b, a))
    ensures |Put(entries, a)| == |entries| + (if exists i :: 0 <= i < |entries| && SameWindow(entries[i], a) then 0 else 1)
    ensures forall i :: 0 <= i < |entries| ==> SameWindow(Put(entries, a)[i], entries[i])
    ensures |Put(entries, a)| > |entries| ==> Put(entries, a)[|entries|] == a
  {
    var r := Put(entries, a);
    match FindWindow(entries, a)
    case Some(k) =>
      assert r[k] == a;
      forall b ensures b in r <==> b == a || (b in entries && !SameWindow(b, a)) {
        if b in entries && !SameWindow(b, a) {
          var j :| 0 <= j < |entries| && entries[j] == b;
          assert r[j] == b;
        }
        if b in r {
          var j :| 0 <= j < |r| && r[j] == b;
          if j != k {
            assert entries[j] == b && !SameWindow(entries[j], entries[k]);
          }
        }
      }
    case None =>
  }

  /** After `d[k] = v` the dict holds the new entry. */
  lemma PutHolds(entries: seq<Assignment>, a: Assignment)
    ensures a in Put(entries, a)
  {
    match FindWindow(entries, a)
    case Some(k) => assert Put(entries, a)[k] == a;
    case None => assert Put(entries, a)[|entries|] == a;
  }

  // ---------------------------------------------------------------------------
  // Table edits used by assign_contents
  // ---------------------------------------------------------------------------

  /** `data.index[data.index < t].max()` together with its row: the latest row strictly before `t`. */
  function LatestBefore(rows: seq<Row>, t: int): (r: Option<Row>)
    ensures r.Some? ==> r.value in rows && r.value.time < t
    ensures r.Some? ==> forall x :: x in rows && x.time < t ==> x.time <= r.value.time
    ensures r.None? ==> forall x :: x in rows ==> x.time >= t
  {
    if |rows| == 0 then None
    else
      var rest := LatestBefore(rows[1..], t);
      assert forall x :: x in rows ==> x == rows[0] || x in rows[1..];
      if rows[0].time < t && (rest.None? || rest.value.time < rows[0].time) then Some(rows[0]) else rest
  }

  /** Puts a row at its place in time order (the inserted row followed by `sort_index`). */
  function InsertRow(rows: seq<Row>, row: Row): (r: seq<Row>)
    ensures |r| == |rows| + 1
    ensures forall x :: x in r <==> x in rows || x == row
  {
    if |rows| == 0 then [row]
    else if row.time < rows[0].time then [row] + rows
    else [rows[0]] + InsertRow(rows[1..], row)
  }

  /** Rows at or after `start` and before `end` take the window's labels; other rows are left alone. */
  function RelabelRow(x: Row, a: Assignment): Row {
    if a.start <= x.time < a.end then x.(leftContents := a.left, rightContents := a.right) else x
  }

  /** The two masked label writes of one window. */
  function Relabel(rows: seq<Row>, a: Assignment): (r: seq<Row>)
    ensures |r| == |rows|
  {
    seq(|rows|, i requires 0 <= i < |rows| => RelabelRow(rows[i], a))
  }

  /** Whether the window's `start` needs a new row: not an index yet, but some row lies before it. */
  predicate NeedsStartRow(rows: seq<Row>, start: int) {
    start !in Times(rows) && LatestBefore(rows, start).Some?
  }

  /** The table with a row at `start` copied from the latest earlier row, when one has to be inserted. */
  function WithStartRow(rows: seq<Row>, start: int): seq<Row> {
    if NeedsStartRow(rows, start) then InsertRow(rows, LatestBefore(rows, start).value.(time := start)) else rows
  }

  /** What `assign_contents` keeps between windows: the table and `contents_dates`. */
  datatype Recorded = Recorded(rows: seq<Row>, dates: seq<Assignment>)

  /** One iteration of the loop of `assign_contents`. */
  function Step(st: Recorded, a: Assignment): (r: Recorded)
    ensures |r.rows| == |st.rows| + (if DateFilterOkay(st.rows, a.start, a.end) && NeedsStartRow(st.rows, a.start) then 1 else 0)
  {
    if !DateFilterOkay(st.rows, a.start, a.end) then st
    else Recorded(Relabel(WithStartRow(st.rows, a.start), a), Put(st.dates, a))
  }

  /** All windows of the dict, in dict order. */
  function ApplyAll(st: Recorded, d: seq<Assignment>): (r: Recorded)
    ensures |st.rows| <= |r.rows| <= |st.rows| + |d|
  {
    if |d| == 0 then st else Step(ApplyAll(st, d[..|d| - 1]), d[|d| - 1])
  }

  // ---------------------------------------------------------------------------
  // set_of_contents
  // ---------------------------------------------------------------------------

  /** Some row carries `y` on either tube. */
  ghost predicate HasLabel(rows: seq<Row>, y: string) {
    exists i :: 0 <= i < |rows| && (rows[i].leftContents == Some(y) || rows[i].rightContents == Some(y))
  }

  /** Every present label of both content columns, row by row (`dropna` of both columns). */
  function PresentLabels(rows: seq<Row>): (ls: seq<string>)
    ensures forall y :: y in ls <==> HasLabel(rows, y)
  {
    if |rows| == 0 then []
    else
      var x := rows[0];
      var rest := PresentLabels(rows[1..]);
      assert forall y :: HasLabel(rows, y) <==>
        x.leftContents == Some(y) || x.rightContents == Some(y) || HasLabel(rows[1..], y) by {
        forall y | HasLabel(rows[1..], y) ensures HasLabel(rows, y) {
          var i :| 0 <= i < |rows[1..]| && (rows[1..][i].leftContents == Some(y) || rows[1..][i].rightContents == Some(y));
          assert rows[i + 1] == rows[1..][i];
        }
        forall y | HasLabel(rows, y) && x.leftContents != Some(y) && x.rightContents != Some(y)
          ensures HasLabel(rows[1..], y)
        {
          var i :| 0 <= i < |rows| && (rows[i].leftContents == Some(y) || rows[i].rightContents == Some(y));
          assert i > 0 && rows[1..][i - 1] == rows[i];
        }
      }
      (if x.leftContents.Some? then [x.leftContents.value] else []) +
      (if x.rightContents.Some? then [x.rightContents.value] else []) + rest
  }

  /** `set_of_contents` on a table: the sorted, duplicate-free labels present in either column. */
  function ContentsOf(rows: seq<Row>): (r: seq<string>)
    ensures StrictlySorted(r)
    ensures forall y :: y in r <==> HasLabel(rows, y)
  {
    SortedUnique(PresentLabels(rows))
  }

  // ---------------------------------------------------------------------------
  // The recording
  // ---------------------------------------------------------------------------

  class Sipper {
    /** The time-indexed table. */
    var data: seq<Row>
    /** The windows applied so far, in dict order (`contents_dates`). */
    var contentsDates: seq<Assignment>
    /** The substances currently in the table (`contents`). */
    var contents: seq<string>

    ghost predicate Valid()
      reads this
    {
      IsTimeOrdered(data) && UniqueWindows(contentsDates)
    }

    /** A recording over an already loaded table, with no assignment yet. */
    constructor(rows: seq<Row>)
      requires IsTimeOrdered(rows)
      ensures Valid()
      ensures data == rows && contentsDates == [] && contents == ContentsOf(rows)
    {
      data := rows;
      contentsDates := [];
      contents := ContentsOf(rows);
    }

    /** `set_of_contents()`: the labels the table carries now, sorted and without duplicates. */
    function SetOfContents(): (r: seq<string>)
      reads this
      ensures StrictlySorted(r)
      ensures forall y :: y in r <==> HasLabel(data, y)
    {
      ContentsOf(data)
    }

    /**
     * `assign_contents(d)`: apply every window of `d` in order, then refresh `contents`.
     * The table stays time-ordered and `contents_dates` keeps one entry per window.
     */
    method AssignContents(d: seq<Assignment>)
      requires Valid()
      modifies this
      ensures Valid()
      ensures Recorded(data, contentsDates) == ApplyAll(Recorded(old(data), old(contentsDates)), d)
      ensures contents == SetOfContents()
    {
      ghost var st0 := Recorded(data, contentsDates);
      contents := [];
      for i := 0 to |d|
        invariant Valid()
        invariant Recorded(data, contentsDates) == ApplyAll(st0, d[..i])
      {
        var a := d[i];
        assert d[..i + 1][..i] == d[..i];
        StepKeepsValid(Recorded(data, contentsDates), a);
        if DateFilterOkay(data, a.start, a.end) {
          contentsDates := Put(contentsDates, a);
          if a.start !in Times(data) {
            var before := LatestBefore(data, a.start);
            if before.Some? {
              data := InsertRow(data, before.value.(time := a.start));
            }
          }
          data := Relabel(data, a);
        }
      }
      assert d[..|d|] == d;
      contents := SetOfContents();
    }

    /**
     * `get_content_values(content, out, df)`: the curve of `content` over `df`, or over the
     * recording's own table when `df` is empty.
     */
    method GetContentValues(content: string, out: string, df: seq<Row>) returns (r: Result<Series, SipperError>)
      ensures r == ContentValuesAsWritten(if |df| == 0 then data else df, content, out)
    {
      var table := if |df| == 0 then data else df;
      if out != "Count" && out != "Duration" {
        return Failure(BadOut(out));
      }
      var metric := if out == "Count" then Count else Duration;
      var subset := Select(table, content);
      var changes := SegmentIdsAsWritten(subset);
      var gr := GroupRuns(subset, changes);
      var values := GroupbyConvertContent(gr, content, metric);
      match values
      case Failure(e) =>
        r := Failure(e);
      case Success(v) =>
        r := Success(Series(content + out, Times(subset), v));
    }
  }

  // ---------------------------------------------------------------------------
  // Properties of one window
  // ---------------------------------------------------------------------------

  /** Inserting a row with a new timestamp keeps a table time-ordered. */
  lemma {:induction false} InsertRowOrdered(rows: seq<Row>, row: Row)
    requires IsTimeOrdered(rows) && row.time !in Times(rows)
    ensures IsTimeOrdered(InsertRow(rows, row))
  {
    if |rows| > 0 && row.time >= rows[0].time {
      assert Times(rows)[0] == rows[0].time;
      assert Times(rows[1..]) == Times(rows)[1..];
      InsertRowOrdered(rows[1..], row);
      var rest := InsertRow(rows[1..], row);
      forall i | 0 <= i < |rest| ensures rows[0].time < rest[i].time {
        assert rest[i] in rest;
        if rest[i] in rows[1..] {
          var j :| 0 <= j < |rows[1..]| && rows[1..][j] == rest[i];
          assert rest[i] == rows[j + 1];
        }
      }
      assert forall i :: 0 < i < |[rows[0]] + rest| ==> ([rows[0]] + rest)[i] == rest[i - 1];
    } else if |rows| > 0 {
      assert forall i :: 0 < i < |[row] + rows| ==> ([row] + rows)[i] == rows[i - 1];
    }
  }

  /** One window keeps the table time-ordered and `contents_dates` free of repeated keys. */
  lemma StepKeepsValid(st: Recorded, a: Assignment)
    requires IsTimeOrdered(st.rows) && UniqueWindows(st.dates)
    ensures IsTimeOrdered(Step(st, a).rows) && UniqueWindows(Step(st, a).dates)
  {
    if DateFilterOkay(st.rows, a.start, a.end) {
      PutHolds(st.dates, a);
      var w := WithStartRow(st.rows, a.start);
      if NeedsStartRow(st.rows, a.start) {
        InsertRowOrdered(st.rows, LatestBefore(st.rows, a.start).value.(time := a.start));
      }
      assert IsTimeOrdered(w);
      var r := Relabel(w, a);
      assert forall i :: 0 <= i < |r| ==> r[i].time == w[i].time;
    }
  }

  /** A row's timestamp is in the index. */
  lemma InTimes(rows: seq<Row>, x: Row)
    requires x in rows
    ensures x.time in Times(rows)
  {
    var i :| 0 <= i < |rows| && rows[i] == x;
    assert Times(rows)[i] == x.time;
  }

  /** Every index timestamp belongs to a row. */
  lemma TimesWitness(rows: seq<Row>, t: int) returns (x: Row)
    requires t in Times(rows)
    ensures x in rows && x.time == t
  {
    var i :| 0 <= i < |Times(rows)| && Times(rows)[i] == t;
    x := rows[i];
  }

  /** In a time-ordered table a timestamp identifies its row. */
  lemma SameTimeSameRow(rows: seq<Row>, x: Row, y: Row)
    requires IsTimeOrdered(rows) && x in rows && y in rows && x.time == y.time
    ensures x == y
  {
    var i :| 0 <= i < |rows| && rows[i] == x;
    var j :| 0 <= j < |rows| && rows[j] == y;
    assert i == j;
  }

  /** Relabelling keeps every row, relabelled, and adds none. */
  lemma RelabelMembers(rows: seq<Row>, a: Assignment)
    ensures forall x :: x in rows ==> RelabelRow(x, a) in Relabel(rows, a)
    ensures forall y :: y in Relabel(rows, a) && !(a.start <= y.time < a.end) ==> y in rows
    ensures forall y :: y in Relabel(rows, a) && a.start <= y.time < a.end ==>
      y.leftContents == a.left && y.rightContents == a.right
    ensures Times(Relabel(rows, a)) == Times(rows)
  {
    var r := Relabel(rows, a);
    forall x | x in rows ensures RelabelRow(x, a) in r {
      var i :| 0 <= i < |rows| && rows[i] == x;
      assert r[i] == RelabelRow(x, a);
    }
    assert forall i :: 0 <= i < |r| ==> r[i] == RelabelRow(rows[i], a) && r[i].time == rows[i].time;
  }

  /** Only the inserted row's timestamp joins the index. */
  lemma InsertRowTimes(rows: seq<Row>, row: Row)
    ensures forall t :: t in Times(InsertRow(rows, row)) <==> t in Times(rows) || t == row.time
  {
    var r := InsertRow(rows, row);
    forall t ensures t in Times(r) <==> t in Times(rows) || t == row.time {
      if t in Times(r) {
        var x := TimesWitness(r, t);
        if x in rows { InTimes(rows, x); }
      }
      if t in Times(rows) {
        var x := TimesWitness(rows, t);
        InTimes(r, x);
      }
      if t == row.time {
        InTimes(r, row);
      }
    }
  }

  /** A window with no row in [start, end] changes nothing; any other window is recorded in `contents_dates`. */
  lemma StepRecords(st: Recorded, a: Assignment)
    ensures !DateFilterOkay(st.rows, a.start, a.end) ==> Step(st, a) == st
    ensures DateFilterOkay(st.rows, a.start, a.end) ==> a in Step(st, a).dates
  {
    PutHolds(st.dates, a);
  }

  /** A window that applies and inserts a row at `start` has `start` before its end. */
  lemma StartRowInWindow(rows: seq<Row>, a: Assignment)
    requires DateFilterOkay(rows, a.start, a.end) && NeedsStartRow(rows, a.start)
    ensures a.start < a.end
  {
    var k :| 0 <= k < |rows| && a.start <= rows[k].time <= a.end;
    InTimes(rows, rows[k]);
  }

  /**
   * The index gains exactly the timestamp `start`, and only when the window applies,
   * `start` is not an index yet and some row lies before it.
   */
  lemma StepTimes(st: Recorded, a: Assignment)
    ensures forall t :: t in Times(Step(st, a).rows) <==>
      t in Times(st.rows) || (t == a.start && DateFilterOkay(st.rows, a.start, a.end) && NeedsStartRow(st.rows, a.start))
  {
    if DateFilterOkay(st.rows, a.start, a.end) {
      var w := WithStartRow(st.rows, a.start);
      RelabelMembers(w, a);
      if NeedsStartRow(st.rows, a.start) {
        InsertRowTimes(st.rows, LatestBefore(st.rows, a.start).value.(time := a.start));
      }
    }
  }

  /**
   * When the window applies: every row with start <= t < end carries the window's labels,
   * every old row survives (relabelled when it lies in the window), and a row inserted at
   * `start` is the latest earlier row moved to `start` and relabelled. Whether or not it
   * applies, a row outside the window is an old row as it was.
   */
  lemma StepRows(st: Recorded, a: Assignment)
    ensures DateFilterOkay(st.rows, a.start, a.end) ==> forall y :: y in Step(st, a).rows && a.start <= y.time < a.end ==>
      y.leftContents == a.left && y.rightContents == a.right
    ensures forall y :: y in Step(st, a).rows && !(a.start <= y.time < a.end) ==> y in st.rows
    ensures DateFilterOkay(st.rows, a.start, a.end) ==> forall x :: x in st.rows ==> RelabelRow(x, a) in Step(st, a).rows
    ensures DateFilterOkay(st.rows, a.start, a.end) && NeedsStartRow(st.rows, a.start) ==>
      RelabelRow(LatestBefore(st.rows, a.start).value.(time := a.start), a) in Step(st, a).rows
  {
    if DateFilterOkay(st.rows, a.start, a.end) {
      var w := WithStartRow(st.rows, a.start);
      RelabelMembers(w, a);
      if NeedsStartRow(st.rows, a.start) {
        StartRowInWindow(st.rows, a);
      }
    }
  }

  // ---------------------------------------------------------------------------
  // Properties of the whole dict
  // ---------------------------------------------------------------------------

  /** The window covers timestamp `t` (the label mask `start <= index < end`). */
  predicate Covers(a: Assignment, t: int) {
    a.start <= t < a.end
  }

  /** The last window of `d`, in dict order, that covers `t`. */
  function LastCovering(d: seq<Assignment>, t: int): (r: Option<Assignment>)
    ensures r.Some? ==> r.value in d && Covers(r.value, t)
    ensures r.Some? ==> exists i :: 0 <= i < |d| && d[i] == r.value && forall j :: i < j < |d| ==> !Covers(d[j], t)
    ensures r.None? ==> forall a :: a in d ==> !Covers(a, t)
  {
    if |d| == 0 then None
    else if Covers(d[|d| - 1], t) then Some(d[|d| - 1])
    else
      var front := d[..|d| - 1];
      assert forall a :: a in d ==> a == d[|d| - 1] || a in front;
      assert forall i :: 0 <= i < |front| ==> front[i] == d[i];
      LastCovering(front, t)
  }

  /** Applying the whole dict keeps the table time-ordered and `contents_dates` free of repeated keys. */
  lemma {:induction false} ApplyAllKeepsValid(st: Recorded, d: seq<Assignment>)
    requires IsTimeOrdered(st.rows) && UniqueWindows(st.dates)
    ensures IsTimeOrdered(ApplyAll(st, d).rows) && UniqueWindows(ApplyAll(st, d).dates)
  {
    if |d| > 0 {
      ApplyAllKeepsValid(st, d[..|d| - 1]);
      StepKeepsValid(ApplyAll(st, d[..|d| - 1]), d[|d| - 1]);
    }
  }

  /**
   * Last write wins: a row's labels are those of the last window in dict order that
   * covers its timestamp; a row no window covers is an original row, untouched.
   */
  lemma {:induction false} LastWriteWins(st: Recorded, d: seq<Assignment>, y: Row)
    requires y in ApplyAll(st, d).rows
    ensures LastCovering(d, y.time).Some? ==>
      y.leftContents == LastCovering(d, y.time).value.left && y.rightContents == LastCovering(d, y.time).value.right
    ensures LastCovering(d, y.time).None? ==> y in st.rows
  {
    if |d| > 0 {
      var prev := ApplyAll(st, d[..|d| - 1]);
      var a := d[|d| - 1];
      StepRows(prev, a);
      if !Covers(a, y.time) {
        LastWriteWins(st, d[..|d| - 1], y);
      }
    }
  }

  /** The index only grows: every timestamp stays, and a new one is the start of some window. */
  lemma {:induction false} ApplyAllTimes(st: Recorded, d: seq<Assignment>)
    ensures forall t :: t in Times(st.rows) ==> t in Times(ApplyAll(st, d).rows)
    ensures forall t :: t in Times(ApplyAll(st, d).rows) ==> t in Times(st.rows) || exists a :: a in d && a.start == t
  {
    if |d| > 0 {
      var pre := d[..|d| - 1];
      ApplyAllTimes(st, pre);
      StepTimes(ApplyAll(st, pre), d[|d| - 1]);
      assert forall a :: a in pre ==> a in d;
    }
  }

  /** The four readings of a row: both tubes' counters and durations. */
  function Readings(x: Row): (int, int, int, int) {
    (x.leftCount, x.leftDuration, x.rightCount, x.rightDuration)
  }

  /**
   * Counters and durations are never rewritten: every row of the final table reads what
   * the latest original row at or before its timestamp reads (for an original row, itself).
   */
  lemma {:induction false} ReadingsCarried(st: Recorded, d: seq<Assignment>, y: Row)
    requires IsTimeOrdered(st.rows)
    requires y in ApplyAll(st, d).rows
    ensures LatestBefore(st.rows, y.time + 1).Some?
    ensures Readings(y) == Readings(LatestBefore(st.rows, y.time + 1).value)
  {
    if |d| == 0 {
      var z := LatestBefore(st.rows, y.time + 1).value;
      SameTimeSameRow(st.rows, y, z);
    } else {
      var prev := ApplyAll(st, d[..|d| - 1]);
      var a := d[|d| - 1];
      StepRows(prev, a);
      var x := StepOrigin(prev, a, y);
      if x in prev.rows {
        ReadingsCarried(st, d[..|d| - 1], x);
      } else {
        var b := LatestBefore(prev.rows, a.start).value;
        ReadingsCarried(st, d[..|d| - 1], b);
        ApplyAllTimes(st, d[..|d| - 1]);
        InsertedReadings(st.rows, prev.rows, a.start, b, x);
      }
    }
  }

  /** The row inserted at `start` reads what the latest original row at or before `start` reads. */
  lemma InsertedReadings(rows0: seq<Row>, rows: seq<Row>, start: int, b: Row, x: Row)
    requires IsTimeOrdered(rows0)
    requires forall t :: t in Times(rows0) ==> t in Times(rows)
    requires start !in Times(rows) && LatestBefore(rows, start) == Some(b) && x == b.(time := start)
    requires LatestBefore(rows0, b.time + 1).Some? && Readings(b) == Readings(LatestBefore(rows0, b.time + 1).value)
    ensures LatestBefore(rows0, x.time + 1).Some? && Readings(x) == Readings(LatestBefore(rows0, x.time + 1).value)
  {
    LatestBeforeSame(rows0, rows, start, b);
  }

  /** Where a row of the table after one window comes from: an old row, or the latest row before `start`. */
  lemma StepOrigin(st: Recorded, a: Assignment, y: Row) returns (x: Row)
    requires y in Step(st, a).rows
    ensures x.time == y.time && Readings(x) == Readings(y)
    ensures x in st.rows || (DateFilterOkay(st.rows, a.start, a.end) && NeedsStartRow(st.rows, a.start) &&
      y.time == a.start && x == LatestBefore(st.rows, a.start).value.(time := a.start))
  {
    if !DateFilterOkay(st.rows, a.start, a.end) {
      x := y;
    } else {
      var w := WithStartRow(st.rows, a.start);
      var r := Relabel(w, a);
      var i :| 0 <= i < |r| && r[i] == y;
      x := w[i];
      if NeedsStartRow(st.rows, a.start) {
        assert x in InsertRow(st.rows, LatestBefore(st.rows, a.start).value.(time := a.start));
      }
    }
  }

  /**
   * When `start` is not a timestamp of a table that holds every original timestamp, the
   * latest original row at or before `start` is the latest original row at or before the
   * table's latest row before `start`.
   */
  lemma LatestBeforeSame(rows0: seq<Row>, rows: seq<Row>, start: int, b: Row)
    requires IsTimeOrdered(rows0)
    requires forall t :: t in Times(rows0) ==> t in Times(rows)
    requires start !in Times(rows) && LatestBefore(rows, start) == Some(b)
    requires LatestBefore(rows0, b.time + 1).Some?
    ensures LatestBefore(rows0, start + 1) == LatestBefore(rows0, b.time + 1)
  {
    var z := LatestBefore(rows0, b.time + 1).value;
    InTimes(rows0, z);
    assert z.time < start + 1;
    var u := LatestBefore(rows0, start + 1).value;
    InTimes(rows0, u);
    assert u.time != start;
    var v := TimesWitness(rows, u.time);
    assert u.time <= b.time;
    SameTimeSameRow(rows0, u, z);
  }
}
