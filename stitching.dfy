/**
 * Per-substance curves (`get_content_values` and `groupby_convertcontent` in sipper.py):
 * select the rows that carry a substance on either tube, split them into runs of
 * constant left label, take per run the tube that holds the substance (left first),
 * shift every run so that it continues from the previous run's maximum, and rebase
 * the whole curve to start at zero.
 */
module Stitching {
  import opened Wrappers
  import opened SipperTable

  /** What `get_content_values` raises. */
  datatype SipperError =
    | BadOut(out: string)      // `out` is neither 'Count' nor 'Duration' (a SipperError)
    | NoObjectsToConcatenate   // `pd.concat([])`: the substance is on no row

  /** A named series: the index timestamps and the values at them. */
  datatype Series = Series(name: string, index: seq<int>, values: seq<int>)

  // ---------------------------------------------------------------------------
  // Sequences of integers
  // ---------------------------------------------------------------------------

  ghost predicate NonDecreasing(s: seq<int>) {
    forall i, j :: 0 <= i <= j < |s| ==> s[i] <= s[j]
  }

  /** `np.nanmin` of a non-empty series. */
  function Min(s: seq<int>): int
    requires |s| > 0
  {
    if |s| == 1 then s[0]
    else
      var m := Min(s[1..]);
      if s[0] <= m then s[0] else m
  }

  /** `np.nanmax` of a non-empty series. */
  function Max(s: seq<int>): int
    requires |s| > 0
  {
    if |s| == 1 then s[0]
    else
      var m := Max(s[1..]);
      if s[0] >= m then s[0] else m
  }

  /** The minimum is a value of the series and no value is below it. */
  lemma {:induction false} MinSpec(s: seq<int>)
    requires |s| > 0
    ensures Min(s) in s
    ensures forall i :: 0 <= i < |s| ==> Min(s) <= s[i]
  {
    if |s| > 1 {
      MinSpec(s[1..]);
      assert forall i :: 1 <= i < |s| ==> s[i] == s[1..][i - 1];
    }
  }

  /** The maximum is a value of the series and no value is above it. */
  lemma {:induction false} MaxSpec(s: seq<int>)
    requires |s| > 0
    ensures Max(s) in s
    ensures forall i :: 0 <= i < |s| ==> s[i] <= Max(s)
  {
    if |s| > 1 {
      MaxSpec(s[1..]);
      assert forall i :: 1 <= i < |s| ==> s[i] == s[1..][i - 1];
    }
  }

  /** Series plus a scalar. */
  function Add(s: seq<int>, c: int): seq<int> {
    seq(|s|, i requires 0 <= i < |s| => s[i] + c)
  }

  lemma AddExtremes(s: seq<int>, c: int)
    requires |s| > 0
    ensures Min(Add(s, c)) == Min(s) + c && Max(Add(s, c)) == Max(s) + c
  {
    var t := Add(s, c);
    MinSpec(s);
    MaxSpec(s);
    MinSpec(t);
    MaxSpec(t);
    var i :| 0 <= i < |t| && t[i] == Min(t);
    var j :| 0 <= j < |s| && s[j] == Min(s);
    assert t[j] == s[j] + c;
    var k :| 0 <= k < |t| && t[k] == Max(t);
    var l :| 0 <= l < |s| && s[l] == Max(s);
    assert t[l] == s[l] + c;
  }

  /** `pd.concat` of a list of series, in list order. */
  function Concat<T>(ss: seq<seq<T>>): seq<T> {
    if |ss| == 0 then [] else ss[0] + Concat(ss[1..])
  }

  // ---------------------------------------------------------------------------
  // Selection
  // ---------------------------------------------------------------------------

  /** `LeftContents.isin([content]) | RightContents.isin([content])` for one row. */
  predicate HasContent(row: Row, content: string) {
    row.leftContents == Some(content) || row.rightContents == Some(content)
  }

  /** The rows carrying `content` on either tube, in table order. */
  function Select(rows: seq<Row>, content: string): (r: seq<Row>)
    ensures |r| <= |rows|
  {
    if |rows| == 0 then []
    else (if HasContent(rows[0], content) then [rows[0]] else []) + Select(rows[1..], content)
  }

  /** The selection holds exactly the rows carrying `content`. */
  lemma {:induction false} SelectMembers(rows: seq<Row>, content: string)
    ensures forall x :: x in Select(rows, content) <==> x in rows && HasContent(x, content)
  {
    if |rows| > 0 {
      SelectMembers(rows[1..], content);
      assert rows == [rows[0]] + rows[1..];
    }
  }

  /** The selection is an order-preserving filter: it distributes over concatenation. */
  lemma {:induction false} SelectConcat(a: seq<Row>, b: seq<Row>, content: string)
    ensures Select(a + b, content) == Select(a, content) + Select(b, content)
  {
    if |a| > 0 {
      assert (a + b)[1..] == a[1..] + b;
      SelectConcat(a[1..], b, content);
    } else {
      assert a + b == b;
    }
  }

  /** Both tubes' columns of `metric` never decrease along the rows. */
  ghost predicate ColumnsNonDecreasing(rows: seq<Row>, metric: Metric) {
    forall i, j :: 0 <= i <= j < |rows| ==>
      LeftValue(rows[i], metric) <= LeftValue(rows[j], metric) &&
      RightValue(rows[i], metric) <= RightValue(rows[j], metric)
  }

  /** Every row after the first of a time-ordered table is later than the first. */
  lemma LaterThanHead(rows: seq<Row>)
    requires IsTimeOrdered(rows) && |rows| > 0
    ensures forall x :: x in rows[1..] ==> rows[0].time < x.time
  {
    forall x | x in rows[1..] ensures rows[0].time < x.time {
      var j :| 0 <= j < |rows[1..]| && rows[1..][j] == x;
      assert rows[j + 1] == x;
    }
  }

  /** Every row after the first of a table with monotone columns has columns at least the first's. */
  lemma AboveHead(rows: seq<Row>, metric: Metric)
    requires ColumnsNonDecreasing(rows, metric) && |rows| > 0
    ensures forall x :: x in rows[1..] ==>
      LeftValue(rows[0], metric) <= LeftValue(x, metric) && RightValue(rows[0], metric) <= RightValue(x, metric)
  {
    forall x | x in rows[1..]
      ensures LeftValue(rows[0], metric) <= LeftValue(x, metric) && RightValue(rows[0], metric) <= RightValue(x, metric)
    {
      var j :| 0 <= j < |rows[1..]| && rows[1..][j] == x;
      assert rows[j + 1] == x;
    }
  }

  /** Selecting rows keeps their relative order, so a time-ordered table gives a time-ordered selection. */
  lemma {:induction false} SelectTimeOrdered(rows: seq<Row>, content: string)
    requires IsTimeOrdered(rows)
    ensures IsTimeOrdered(Select(rows, content))
  {
    if |rows| > 0 {
      var tail := Select(rows[1..], content);
      assert IsTimeOrdered(rows[1..]);
      SelectTimeOrdered(rows[1..], content);
      if HasContent(rows[0], content) {
        SelectMembers(rows[1..], content);
        LaterThanHead(rows);
        var sel := [rows[0]] + tail;
        assert Select(rows, content) == sel;
        assert forall i :: 0 < i < |sel| ==> sel[i] == tail[i - 1] && tail[i - 1] in tail;
      }
    }
  }

  /** Selecting rows keeps their relative order, so monotone columns stay monotone. */
  lemma {:induction false} SelectColumnsNonDecreasing(rows: seq<Row>, content: string, metric: Metric)
    requires ColumnsNonDecreasing(rows, metric)
    ensures ColumnsNonDecreasing(Select(rows, content), metric)
  {
    if |rows| > 0 {
      var tail := Select(rows[1..], content);
      assert ColumnsNonDecreasing(rows[1..], metric);
      SelectColumnsNonDecreasing(rows[1..], content, metric);
      if HasContent(rows[0], content) {
        SelectMembers(rows[1..], content);
        AboveHead(rows, metric);
        var sel := [rows[0]] + tail;
        assert Select(rows, content) == sel;
        assert forall i :: 0 < i < |sel| ==> sel[i] == tail[i - 1] && tail[i - 1] in tail;
      }
    }
  }

  // ---------------------------------------------------------------------------
  // Segment ids: change flags and their cumulative sum
  // ---------------------------------------------------------------------------

  function LeftLabels(rows: seq<Row>): seq<Option<string>> {
    seq(|rows|, i requires 0 <= i < |rows| => rows[i].leftContents)
  }

  /** The change flags as intended: row i starts a new run iff its left label differs from row i-1's. */
  function ChangeFlags(sel: seq<Row>): seq<bool> {
    seq(|sel|, i requires 0 <= i < |sel| => i > 0 && sel[i].leftContents != sel[i - 1].leftContents)
  }

  /** Number of `true` flags: the value of `astype(int).cumsum()` at the last position. */
  function CountTrue(f: seq<bool>): nat {
    if |f| == 0 then 0 else CountTrue(f[..|f| - 1]) + (if f[|f| - 1] then 1 else 0)
  }

  /** `changes.astype(int).cumsum()`. */
  function CumSum(f: seq<bool>): seq<nat> {
    seq(|f|, i requires 0 <= i < |f| => CountTrue(f[..i + 1]))
  }

  lemma CumSumStep(f: seq<bool>, i: nat)
    requires 0 < i < |f|
    ensures CumSum(f)[i] == CumSum(f)[i - 1] + (if f[i] then 1 else 0)
  {
    assert f[..i + 1][..i] == f[..i];
  }

  lemma {:induction false} CountTrueMonotone(f: seq<bool>, i: nat, j: nat)
    requires i <= j <= |f|
    ensures CountTrue(f[..i]) <= CountTrue(f[..j])
    decreases j - i
  {
    if i < j {
      assert f[..j][..j - 1] == f[..j - 1];
      CountTrueMonotone(f, i, j - 1);
    }
  }

  /** A running count of raised flags starts at the first flag, rises by one exactly at each raised flag, and never decreases. */
  lemma CumSumSpec(f: seq<bool>)
    ensures |f| > 0 ==> CumSum(f)[0] == if f[0] then 1 else 0
    ensures forall i :: 0 < i < |f| ==> CumSum(f)[i] == CumSum(f)[i - 1] + (if f[i] then 1 else 0)
    ensures NonDecreasing(CumSum(f))
  {
    if |f| > 0 {
      assert f[..1][..0] == [];
      assert CountTrue(f[..1]) == CountTrue(f[..1][..0]) + (if f[..1][0] then 1 else 0);
    }
    forall i | 0 < i < |f| ensures CumSum(f)[i] == CumSum(f)[i - 1] + (if f[i] then 1 else 0) {
      CumSumStep(f, i);
    }
    forall i, j | 0 <= i <= j < |f| ensures CumSum(f)[i] <= CumSum(f)[j] {
      CountTrueMonotone(f, i + 1, j + 1);
    }
  }

  /** The segment id of every selected row. */
  function SegmentIds(sel: seq<Row>): (ids: seq<nat>)
    ensures |ids| == |sel|
  {
    CumSum(ChangeFlags(sel))
  }

  /**
   * Segment ids start at 0, rise by exactly one where the left label changes and stay put
   * elsewhere, so they never decrease and equal ids form contiguous runs.
   */
  lemma SegmentIdsSpec(sel: seq<Row>)
    ensures |SegmentIds(sel)| == |sel|
    ensures |sel| > 0 ==> SegmentIds(sel)[0] == 0
    ensures forall i :: 0 < i < |sel| ==>
      SegmentIds(sel)[i] == SegmentIds(sel)[i - 1] + (if sel[i].leftContents != sel[i - 1].leftContents then 1 else 0)
    ensures NonDecreasing(SegmentIds(sel))
  {
    var f := ChangeFlags(sel);
    assert SegmentIds(sel) == CumSum(f);
    CumSumSpec(f);
  }

  // ---------------------------------------------------------------------------
  // Grouping by segment id
  // ---------------------------------------------------------------------------

  /**
   * `subset.groupby(ids)` for ids that never decrease: the maximal runs of equal id, in order.
   * Every group is non-empty and the groups concatenate back to the selection.
   */
  function GroupRuns(rows: seq<Row>, ids: seq<int>): (gs: seq<seq<Row>>)
    requires |ids| == |rows|
    ensures forall k :: 0 <= k < |gs| ==> |gs[k]| > 0
    ensures |rows| > 0 ==> |gs| > 0 && gs[0][0] == rows[0]
    ensures |rows| == 0 ==> gs == []
    decreases |rows|
  {
    if |rows| == 0 then []
    else
      var rest := GroupRuns(rows[1..], ids[1..]);
      if |rest| > 0 && ids[1] == ids[0] then [[rows[0]] + rest[0]] + rest[1..]
      else [[rows[0]]] + rest
  }

  /** Stitching the groups back together gives the selection again. */
  lemma {:induction false} GroupRunsConcat(rows: seq<Row>, ids: seq<int>)
    requires |ids| == |rows|
    ensures Concat(GroupRuns(rows, ids)) == rows
    decreases |rows|
  {
    if |rows| > 0 {
      var rest := GroupRuns(rows[1..], ids[1..]);
      GroupRunsConcat(rows[1..], ids[1..]);
      if |rest| > 0 && ids[1] == ids[0] {
        var gs := [[rows[0]] + rest[0]] + rest[1..];
        assert gs[1..] == rest[1..];
        assert Concat(rest) == rest[0] + Concat(rest[1..]);
      } else {
        var gs := [[rows[0]]] + rest;
        assert gs[1..] == rest;
      }
      assert rows == [rows[0]] + rows[1..];
    }
  }

  /**
   * When ids stay equal exactly where the left label does, every group has one left
   * label throughout and neighbouring groups have different ones: the groups are the
   * maximal runs of constant left label.
   */
  lemma {:induction false} GroupRunsByLabel(rows: seq<Row>, ids: seq<int>)
    requires |ids| == |rows|
    requires forall i :: 0 < i < |rows| ==> (ids[i] == ids[i - 1] <==> rows[i].leftContents == rows[i - 1].leftContents)
    ensures forall k, i :: 0 <= k < |GroupRuns(rows, ids)| && 0 <= i < |GroupRuns(rows, ids)[k]| ==>
      GroupRuns(rows, ids)[k][i].leftContents == GroupRuns(rows, ids)[k][0].leftContents
    ensures forall k :: 0 < k < |GroupRuns(rows, ids)| ==>
      GroupRuns(rows, ids)[k][0].leftContents != GroupRuns(rows, ids)[k - 1][0].leftContents
    decreases |rows|
  {
    if |rows| > 1 {
      var rest := GroupRuns(rows[1..], ids[1..]);
      forall i | 0 < i < |rows| - 1
        ensures ids[1..][i] == ids[1..][i - 1] <==> rows[1..][i].leftContents == rows[1..][i - 1].leftContents
      {
        assert rows[1..][i] == rows[i + 1] && ids[1..][i] == ids[i + 1];
      }
      GroupRunsByLabel(rows[1..], ids[1..]);
      assert rest[0][0] == rows[1];
      if ids[1] == ids[0] {
        assert GroupRuns(rows, ids) == [[rows[0]] + rest[0]] + rest[1..];
        JoinFront(rows[0], rest);
      } else {
        assert GroupRuns(rows, ids) == [[rows[0]]] + rest;
        NewFront(rows[0], rest);
      }
    }
  }

  /** Every group has one left label throughout. */
  ghost predicate OneLabelEach(gs: seq<seq<Row>>) {
    forall k, i :: 0 <= k < |gs| && 0 <= i < |gs[k]| ==> gs[k][i].leftContents == gs[k][0].leftContents
  }

  /** Neighbouring groups have different left labels. */
  ghost predicate NeighboursDiffer(gs: seq<seq<Row>>)
    requires forall k :: 0 <= k < |gs| ==> |gs[k]| > 0
  {
    forall k :: 0 < k < |gs| ==> gs[k][0].leftContents != gs[k - 1][0].leftContents
  }

  /** A row with the first group's label joins that group. */
  lemma JoinFront(r: Row, rest: seq<seq<Row>>)
    requires |rest| > 0 && forall k :: 0 <= k < |rest| ==> |rest[k]| > 0
    requires OneLabelEach(rest) && NeighboursDiffer(rest)
    requires r.leftContents == rest[0][0].leftContents
    ensures OneLabelEach([[r] + rest[0]] + rest[1..])
    ensures NeighboursDiffer([[r] + rest[0]] + rest[1..])
  {
    var gs: seq<seq<Row>> := [[r] + rest[0]] + rest[1..];
    forall k, i | 0 <= k < |gs| && 0 <= i < |gs[k]|
      ensures gs[k][i].leftContents == gs[k][0].leftContents
    {
      if k > 0 {
        assert gs[k] == rest[k];
      } else if i > 0 {
        assert gs[0][i] == rest[0][i - 1];
      }
    }
    forall k | 0 < k < |gs|
      ensures gs[k][0].leftContents != gs[k - 1][0].leftContents
    {
      assert gs[k] == rest[k];
      if k > 1 {
        assert gs[k - 1] == rest[k - 1];
      }
    }
  }

  /** A row with another label than the first group's starts a group of its own. */
  lemma NewFront(r: Row, rest: seq<seq<Row>>)
    requires forall k :: 0 <= k < |rest| ==> |rest[k]| > 0
    requires OneLabelEach(rest) && NeighboursDiffer(rest)
    requires |rest| > 0 ==> r.leftContents != rest[0][0].leftContents
    ensures OneLabelEach([[r]] + rest)
    ensures NeighboursDiffer([[r]] + rest)
  {
    var gs: seq<seq<Row>> := [[r]] + rest;
    forall k | 0 < k < |gs|
      ensures gs[k] == rest[k - 1]
    {
    }
  }

  // ---------------------------------------------------------------------------
  // Column choice and stitching
  // ---------------------------------------------------------------------------

  /** `content in d['LeftContents'].values`. */
  predicate LeftHasContent(group: seq<Row>, content: string) {
    exists i :: 0 <= i < |group| && group[i].leftContents == Some(content)
  }

  /** The column `groupby_convertcontent` reads for one group: left if the substance is on the left anywhere in it. */
  function ChooseColumn(group: seq<Row>, content: string, metric: Metric): (c: seq<int>)
    ensures |c| == |group|
  {
    if LeftHasContent(group, content)
    then seq(|group|, i requires 0 <= i < |group| => LeftValue(group[i], metric))
    else seq(|group|, i requires 0 <= i < |group| => RightValue(group[i], metric))
  }

  function Chosen(groups: seq<seq<Row>>, content: string, metric: Metric): (cs: seq<seq<int>>)
    ensures |cs| == |groups|
    ensures forall k :: 0 <= k < |cs| ==> |cs[k]| == |groups[k]|
  {
    seq(|groups|, k requires 0 <= k < |groups| => ChooseColumn(groups[k], content, metric))
  }

  ghost predicate AllNonEmpty(segs: seq<seq<int>>) {
    forall k :: 0 <= k < |segs| ==> |segs[k]| > 0
  }

  /**
   * Segments shifted one after the other: each is moved so that its minimum lands on the
   * running maximum `prevMax`, and its own maximum becomes the next running maximum.
   */
  function ShiftFrom(prevMax: int, segs: seq<seq<int>>): (r: seq<seq<int>>)
    requires AllNonEmpty(segs)
    ensures |r| == |segs|
    ensures forall k :: 0 <= k < |r| ==> |r[k]| == |segs[k]|
    decreases |segs|
  {
    if |segs| == 0 then []
    else
      var x := Add(segs[0], prevMax - Min(segs[0]));
      [x] + ShiftFrom(Max(x), segs[1..])
  }

  /** The shifted segments: the first as it is, each later one continuing from the previous one's maximum. */
  function ShiftAll(segs: seq<seq<int>>): (r: seq<seq<int>>)
    requires AllNonEmpty(segs)
    ensures |r| == |segs|
    ensures forall k :: 0 <= k < |r| ==> |r[k]| == |segs[k]|
  {
    if |segs| == 0 then [] else [segs[0]] + ShiftFrom(Max(segs[0]), segs[1..])
  }

  lemma ConcatNonEmpty(ss: seq<seq<int>>)
    requires AllNonEmpty(ss) && |ss| > 0
    ensures |Concat(ss)| > 0
  {
  }

  /**
   * The stitched curve rebased so that its minimum is zero: one value per input value,
   * and minimum zero.
   */
  function Stitched(segs: seq<seq<int>>): (r: seq<int>)
    requires |segs| > 0 && AllNonEmpty(segs)
    ensures |r| == |Concat(segs)|
    ensures Min(r) == 0
  {
    var flat := Concat(ShiftAll(segs));
    ConcatNonEmpty(ShiftAll(segs));
    ConcatLengths(segs, ShiftAll(segs));
    AddExtremes(flat, -Min(flat));
    Add(flat, -Min(flat))
  }

  /**
   * Each segment after the first is its own values moved by one constant, and that
   * constant puts its minimum on the maximum of the shifted segment before it.
   */
  lemma {:induction false} ShiftFromSpec(prevMax: int, segs: seq<seq<int>>, k: nat)
    requires AllNonEmpty(segs) && k < |segs|
    ensures var r := ShiftFrom(prevMax, segs);
      r[k] == Add(segs[k], (if k == 0 then prevMax else Max(r[k - 1])) - Min(segs[k]))
    ensures var r := ShiftFrom(prevMax, segs);
      Min(r[k]) == if k == 0 then prevMax else Max(r[k - 1])
    decreases k
  {
    var r := ShiftFrom(prevMax, segs);
    var x := Add(segs[0], prevMax - Min(segs[0]));
    var rest := ShiftFrom(Max(x), segs[1..]);
    assert r == [x] + rest;
    var base := if k == 0 then prevMax else Max(r[k - 1]);
    if k == 0 {
      assert r[0] == x;
    } else {
      ShiftFromSpec(Max(x), segs[1..], k - 1);
      var tail := segs[1..];
      assert tail[k - 1] == segs[k];
      assert r[k - 1] == if k == 1 then x else rest[k - 2];
      assert base == if k == 1 then Max(x) else Max(rest[k - 2]);
      assert rest[k - 1] == Add(tail[k - 1], base - Min(tail[k - 1]));
      assert r[k] == rest[k - 1];
    }
    AddExtremes(segs[k], base - Min(segs[k]));
  }

  /**
   * The first segment is taken as it is; every later segment is its own values moved by
   * one constant, and that constant makes its minimum equal the previous shifted segment's maximum.
   */
  lemma ShiftAllSpec(segs: seq<seq<int>>, k: nat)
    requires AllNonEmpty(segs) && k < |segs|
    ensures k == 0 ==> ShiftAll(segs)[0] == segs[0]
    ensures k > 0 ==> ShiftAll(segs)[k] == Add(segs[k], Max(ShiftAll(segs)[k - 1]) - Min(segs[k]))
    ensures k > 0 ==> Min(ShiftAll(segs)[k]) == Max(ShiftAll(segs)[k - 1])
  {
    if k > 0 {
      var rest := ShiftFrom(Max(segs[0]), segs[1..]);
      assert ShiftAll(segs) == [segs[0]] + rest;
      assert ShiftAll(segs)[k] == rest[k - 1];
      assert ShiftAll(segs)[k - 1] == if k == 1 then segs[0] else rest[k - 2];
      assert segs[k] == segs[1..][k - 1];
      ShiftFromSpec(Max(segs[0]), segs[1..], k - 1);
    }
  }

  lemma NonDecreasingConcat(a: seq<int>, b: seq<int>)
    requires NonDecreasing(a) && NonDecreasing(b)
    requires |a| > 0 && |b| > 0 ==> a[|a| - 1] <= b[0]
    ensures NonDecreasing(a + b)
  {
  }

  lemma NonDecreasingEnds(s: seq<int>)
    requires NonDecreasing(s) && |s| > 0
    ensures s[0] == Min(s) && s[|s| - 1] == Max(s)
  {
    MinSpec(s);
    MaxSpec(s);
  }

  /** Shifting non-decreasing segments onto a running maximum gives a non-decreasing curve that starts there. */
  lemma {:induction false} ShiftFromNonDecreasing(prevMax: int, segs: seq<seq<int>>)
    requires AllNonEmpty(segs)
    requires forall k :: 0 <= k < |segs| ==> NonDecreasing(segs[k])
    ensures NonDecreasing(Concat(ShiftFrom(prevMax, segs)))
    ensures |segs| > 0 ==> Concat(ShiftFrom(prevMax, segs))[0] == prevMax
    decreases |segs|
  {
    if |segs| > 0 {
      var x := Add(segs[0], prevMax - Min(segs[0]));
      var rest := ShiftFrom(Max(x), segs[1..]);
      assert ShiftFrom(prevMax, segs) == [x] + rest;
      assert ([x] + rest)[1..] == rest;
      assert forall k :: 0 <= k < |segs| - 1 ==> segs[1..][k] == segs[k + 1];
      ShiftFromNonDecreasing(Max(x), segs[1..]);
      AddExtremes(segs[0], prevMax - Min(segs[0]));
      assert NonDecreasing(x);
      NonDecreasingEnds(x);
      NonDecreasingConcat(x, Concat(rest));
    }
  }

  /** If every segment is non-decreasing, so is the concatenation of the shifted segments. */
  lemma ShiftAllNonDecreasing(segs: seq<seq<int>>)
    requires AllNonEmpty(segs)
    requires forall k :: 0 <= k < |segs| ==> NonDecreasing(segs[k])
    ensures NonDecreasing(Concat(ShiftAll(segs)))
  {
    if |segs| > 0 {
      var rest := ShiftFrom(Max(segs[0]), segs[1..]);
      assert ShiftAll(segs) == [segs[0]] + rest;
      assert ([segs[0]] + rest)[1..] == rest;
      assert forall k :: 0 <= k < |segs| - 1 ==> segs[1..][k] == segs[k + 1];
      ShiftFromNonDecreasing(Max(segs[0]), segs[1..]);
      NonDecreasingEnds(segs[0]);
      NonDecreasingConcat(segs[0], Concat(rest));
    }
  }

  /** Rebasing keeps length and differences, makes the minimum zero, and keeps monotonicity. */
  lemma RebaseSpec(s: seq<int>)
    requires |s| > 0
    ensures |Add(s, -Min(s))| == |s|
    ensures Min(Add(s, -Min(s))) == 0
    ensures forall i, j :: 0 <= i < |s| && 0 <= j < |s| ==> Add(s, -Min(s))[i] - Add(s, -Min(s))[j] == s[i] - s[j]
    ensures NonDecreasing(s) ==> NonDecreasing(Add(s, -Min(s)))
  {
    var c := -Min(s);
    AddExtremes(s, c);
    AddDifferences(s, c);
  }

  lemma AddDifferences(s: seq<int>, c: int)
    ensures forall i, j :: 0 <= i < |s| && 0 <= j < |s| ==> Add(s, c)[i] - Add(s, c)[j] == s[i] - s[j]
  {
  }

  lemma {:induction false} ConcatLengths<A, B>(a: seq<seq<A>>, b: seq<seq<B>>)
    requires |a| == |b| && forall k :: 0 <= k < |a| ==> |a[k]| == |b[k]|
    ensures |Concat(a)| == |Concat(b)|
    decreases |a|
  {
    if |a| > 0 {
      ConcatLengths(a[1..], b[1..]);
    }
  }

  /** If every segment is non-decreasing, the stitched curve is non-decreasing. */
  lemma StitchedNonDecreasing(segs: seq<seq<int>>)
    requires |segs| > 0 && AllNonEmpty(segs)
    requires forall k :: 0 <= k < |segs| ==> NonDecreasing(segs[k])
    ensures NonDecreasing(Stitched(segs))
  {
    ShiftAllNonDecreasing(segs);
    ConcatNonEmpty(ShiftAll(segs));
    RebaseSpec(Concat(ShiftAll(segs)));
  }

  /** `a` is an initial part of `b`. */
  ghost predicate PrefixOf<T>(a: seq<T>, b: seq<T>) {
    |a| <= |b| && forall j :: 0 <= j < |a| ==> a[j] == b[j]
  }

  lemma PrefixGrows<T>(a: seq<T>, b: seq<T>, x: T)
    requires PrefixOf(a, b) && |a| < |b| && x == b[|a|]
    ensures PrefixOf(a + [x], b)
  {
  }

  /** The segment after a shifted prefix is the next input segment moved onto the prefix's last maximum. */
  lemma ShiftStep(segs: seq<seq<int>>, prefix: seq<seq<int>>, next: seq<int>)
    requires AllNonEmpty(segs) && |prefix| < |segs| && PrefixOf(prefix, ShiftAll(segs))
    requires next == if prefix != [] then Add(segs[|prefix|], Max(prefix[|prefix| - 1]) - Min(segs[|prefix|])) else segs[|prefix|]
    ensures PrefixOf(prefix + [next], ShiftAll(segs))
  {
    ShiftAllSpec(segs, |prefix|);
    PrefixGrows(prefix, ShiftAll(segs), next);
  }

  /** Once every segment is shifted, rebasing the concatenation gives the stitched curve. */
  lemma ShiftDone(segs: seq<seq<int>>, output: seq<seq<int>>)
    requires |segs| > 0 && AllNonEmpty(segs) && PrefixOf(output, ShiftAll(segs)) && |output| == |segs|
    ensures |Concat(output)| > 0 && Stitched(segs) == Add(Concat(output), -Min(Concat(output)))
  {
    assert output == ShiftAll(segs);
    ConcatNonEmpty(output);
  }

  method GroupbyConvertContent(groups: seq<seq<Row>>, content: string, metric: Metric)
    returns (r: Result<seq<int>, SipperError>)
    requires forall k :: 0 <= k < |groups| ==> |groups[k]| > 0
    ensures groups == [] ==> r == Failure(NoObjectsToConcatenate)
    ensures groups != [] ==> r == Success(Stitched(Chosen(groups, content, metric)))
  {
    ghost var segs := Chosen(groups, content, metric);
    assert AllNonEmpty(segs);
    var output: seq<seq<int>> := [];
    for i := 0 to |groups|
      invariant PrefixOf(output, ShiftAll(segs))
      invariant |output| == i
    {
      var col := ChooseColumn(groups[i], content, metric);
      assert col == segs[i];
      var toAppend;
      if output != [] {
        var startFrom := Max(output[|output| - 1]);
        toAppend := Add(col, startFrom - Min(col));
      } else {
        toAppend := col;
      }
      ShiftStep(segs, output, toAppend);
      output := output + [toAppend];
    }
    if output == [] {
      return Failure(NoObjectsToConcatenate);
    }
    ShiftDone(segs, output);
    var flat := Concat(output);
    r := Success(Add(flat, -Min(flat)));
  }

  // ---------------------------------------------------------------------------
  // The whole of get_content_values
  // ---------------------------------------------------------------------------

  /**
   * `get_content_values(content, out, df)` on the table `rows`, with the intended segment ids:
   * a success is named `content + out`, is indexed by the selected timestamps and has one
   * value per selected row, with minimum zero.
   */
  function ContentValues(rows: seq<Row>, content: string, out: string): (r: Result<Series, SipperError>)
    ensures r.Success? ==> r.value.name == content + out && r.value.index == Times(Select(rows, content))
    ensures r.Success? ==> |r.value.values| == |r.value.index| > 0 && Min(r.value.values) == 0
  {
    if out != "Count" && out != "Duration" then Failure(BadOut(out))
    else
      var metric := if out == "Count" then Count else Duration;
      var sel := Select(rows, content);
      var groups := GroupRuns(sel, SegmentIds(sel));
      if |groups| == 0 then Failure(NoObjectsToConcatenate)
      else
        GroupedLength(sel, SegmentIds(sel), content, metric);
        Success(Series(content + out, Times(sel), Stitched(Chosen(groups, content, metric))))
  }

  /** The stitched curve of any grouping of the selection has one value per selected row. */
  lemma GroupedLength(sel: seq<Row>, ids: seq<int>, content: string, metric: Metric)
    requires |ids| == |sel| && |GroupRuns(sel, ids)| > 0
    ensures var segs := Chosen(GroupRuns(sel, ids), content, metric);
      AllNonEmpty(segs) && |Stitched(segs)| == |sel|
  {
    var gs := GroupRuns(sel, ids);
    var segs := Chosen(gs, content, metric);
    GroupRunsConcat(sel, ids);
    ConcatLengths(segs, gs);
  }

  /** When the table's columns never decrease, the stitched curve of any grouping of a selection never decreases. */
  lemma GroupedNonDecreasing(rows: seq<Row>, content: string, metric: Metric, ids: seq<int>)
    requires |ids| == |Select(rows, content)| && |GroupRuns(Select(rows, content), ids)| > 0
    requires ColumnsNonDecreasing(rows, metric)
    ensures var segs := Chosen(GroupRuns(Select(rows, content), ids), content, metric);
      AllNonEmpty(segs) && NonDecreasing(Stitched(segs))
  {
    var sel := Select(rows, content);
    var gs := GroupRuns(sel, ids);
    var segs := Chosen(gs, content, metric);
    GroupRunsConcat(sel, ids);
    SelectColumnsNonDecreasing(rows, content, metric);
    forall k | 0 <= k < |segs| ensures NonDecreasing(segs[k]) {
      ConcatPartsNonDecreasing(gs, metric, k);
    }
    StitchedNonDecreasing(segs);
  }

  /** The corrected pipeline in one piece: the segment ids of the intended change flags. */
  function ContentGroups(rows: seq<Row>, content: string): (gs: seq<seq<Row>>)
    ensures forall k :: 0 <= k < |gs| ==> |gs[k]| > 0
  {
    var sel := Select(rows, content);
    GroupRuns(sel, SegmentIds(sel))
  }

  /** Rows of a group are rows of the concatenation. */
  lemma {:induction false} ConcatMember<T>(ss: seq<seq<T>>, k: nat, i: nat)
    requires k < |ss| && i < |ss[k]|
    ensures ss[k][i] in Concat(ss)
    decreases k
  {
    if k > 0 {
      ConcatMember(ss[1..], k - 1, i);
    } else {
      assert Concat(ss)[i] == ss[0][i];
    }
  }

  /** If the rows of a concatenation have monotone columns, so do the rows of each part. */
  lemma {:induction false} ConcatPartsNonDecreasing(gs: seq<seq<Row>>, metric: Metric, k: nat)
    requires ColumnsNonDecreasing(Concat(gs), metric) && k < |gs|
    ensures ColumnsNonDecreasing(gs[k], metric)
    decreases k
  {
    var flat := Concat(gs);
    assert flat == gs[0] + Concat(gs[1..]);
    if k == 0 {
      assert forall i :: 0 <= i < |gs[0]| ==> gs[0][i] == flat[i];
    } else {
      var rest := Concat(gs[1..]);
      assert forall i :: 0 <= i < |rest| ==> rest[i] == flat[|gs[0]| + i];
      assert ColumnsNonDecreasing(rest, metric);
      ConcatPartsNonDecreasing(gs[1..], metric, k - 1);
    }
  }

  /**
   * Within every corrected segment the left label is constant and neighbouring segments
   * differ in it; the segments put together are the selection; and the column read for
   * every row is the one of the tube that holds `content` in that row.
   */
  lemma ContentGroupsSpec(rows: seq<Row>, content: string, metric: Metric)
    ensures Concat(ContentGroups(rows, content)) == Select(rows, content)
    ensures var gs := ContentGroups(rows, content);
      forall k, i :: 0 <= k < |gs| && 0 <= i < |gs[k]| ==> gs[k][i].leftContents == gs[k][0].leftContents
    ensures var gs := ContentGroups(rows, content);
      forall k :: 0 < k < |gs| ==> gs[k][0].leftContents != gs[k - 1][0].leftContents
    ensures var gs := ContentGroups(rows, content);
      forall k, i :: 0 <= k < |gs| && 0 <= i < |gs[k]| ==>
        (if LeftHasContent(gs[k], content) then gs[k][i].leftContents else gs[k][i].rightContents) == Some(content)
  {
    var sel := Select(rows, content);
    var ids := SegmentIds(sel);
    var gs := GroupRuns(sel, ids);
    SegmentIdsSpec(sel);
    assert forall i :: 0 < i < |sel| ==> (ids[i] == ids[i - 1] <==> sel[i].leftContents == sel[i - 1].leftContents);
    GroupRunsConcat(sel, ids);
    GroupRunsByLabel(sel, ids);
    SelectMembers(rows, content);
    forall k, i | 0 <= k < |gs| && 0 <= i < |gs[k]|
      ensures (if LeftHasContent(gs[k], content) then gs[k][i].leftContents else gs[k][i].rightContents) == Some(content)
    {
      ConcatMember(gs, k, i);
      assert HasContent(gs[k][i], content);
      if LeftHasContent(gs[k], content) {
        var j :| 0 <= j < |gs[k]| && gs[k][j].leftContents == Some(content);
        assert gs[k][j].leftContents == gs[k][0].leftContents;
      }
    }
  }

  /** `get_content_values` refuses every `out` but 'Count' and 'Duration'. */
  lemma ContentValuesBadOut(rows: seq<Row>, content: string, out: string)
    ensures ContentValues(rows, content, out) == Failure(BadOut(out)) <==> out != "Count" && out != "Duration"
  {
  }

  /** For a valid `out`, the result is an error exactly when no row carries the substance. */
  lemma ContentValuesEmpty(rows: seq<Row>, content: string, out: string)
    requires out == "Count" || out == "Duration"
    ensures ContentValues(rows, content, out).Failure? <==> forall x :: x in rows ==> !HasContent(x, content)
    ensures ContentValues(rows, content, out).Failure? ==> ContentValues(rows, content, out).error == NoObjectsToConcatenate
  {
    var sel := Select(rows, content);
    SelectMembers(rows, content);
    if |sel| > 0 {
      assert sel[0] in sel;
    }
  }

  /**
   * A successful result is named `content + out`, is indexed by the selected rows'
   * timestamps in table order, has one value per selected row, has minimum zero, and
   * never decreases when the table's columns never decrease.
   */
  lemma ContentValuesShape(rows: seq<Row>, content: string, out: string)
    requires ContentValues(rows, content, out).Success?
    ensures var s := ContentValues(rows, content, out).value;
      s.name == content + out && s.index == Times(Select(rows, content)) &&
      |s.values| == |s.index| > 0 && Min(s.values) == 0
    ensures var s := ContentValues(rows, content, out).value;
      var metric := if out == "Count" then Count else Duration;
      ColumnsNonDecreasing(rows, metric) ==> NonDecreasing(s.values)
  {
    var metric := if out == "Count" then Count else Duration;
    if ColumnsNonDecreasing(rows, metric) {
      GroupedNonDecreasing(rows, content, metric, SegmentIds(Select(rows, content)));
    }
  }

  // ---------------------------------------------------------------------------
  // Change flags as the source computes them (NaN-aware pandas semantics)
  // ---------------------------------------------------------------------------

  /** `Series.ne` on one pair: a missing value is unequal to everything, itself included. */
  predicate NotEqualNaN(a: Option<string>, b: Option<string>) {
    a.None? || b.None? || a != b
  }

  /** `Series.shift()`: every value moves down one place and a missing value enters at the top. */
  function ShiftDown(xs: seq<Option<string>>): (r: seq<Option<string>>)
    ensures |r| == |xs|
    ensures |r| > 0 ==> r[0] == None
    ensures forall i :: 0 < i < |r| ==> r[i] == xs[i - 1]
  {
    if |xs| == 0 then [] else [None] + xs[..|xs| - 1]
  }

  /**
   * `Series.bfill()`: each missing value takes the next present value below it, if any:
   * present values stay, a gap takes whatever fills the place below it, and a gap at the
   * bottom stays missing.
   */
  function BackFill(xs: seq<Option<string>>): (r: seq<Option<string>>)
    ensures |r| == |xs|
    ensures forall i :: 0 <= i < |xs| && xs[i].Some? ==> r[i] == xs[i]
    ensures forall i :: 0 <= i < |xs| - 1 && xs[i].None? ==> r[i] == r[i + 1]
    ensures |xs| > 0 && xs[|xs| - 1].None? ==> r[|xs| - 1] == None
  {
    if |xs| == 0 then []
    else
      var rest := BackFill(xs[1..]);
      [if xs[0].Some? || |rest| == 0 then xs[0] else rest[0]] + rest
  }

  /** `LeftContents.ne(LeftContents.shift().bfill())` as written. */
  function ChangeFlagsAsWritten(sel: seq<Row>): (f: seq<bool>)
    ensures |f| == |sel|
  {
    var labels := LeftLabels(sel);
    var prev := BackFill(ShiftDown(labels));
    seq(|sel|, i requires 0 <= i < |sel| => NotEqualNaN(labels[i], prev[i]))
  }

  /** `changes.astype(int).cumsum()` over the flags as written: the segment ids the source groups by. */
  function SegmentIdsAsWritten(sel: seq<Row>): (ids: seq<nat>)
    ensures |ids| == |sel|
  {
    CumSum(ChangeFlagsAsWritten(sel))
  }

  /**
   * The ids as written rise by one exactly at a raised flag and never decrease, and an
   * unlabelled row always raises one, so an unlabelled first row gets id 1 rather than 0.
   */
  lemma SegmentIdsAsWrittenSpec(sel: seq<Row>)
    ensures |sel| > 0 ==> SegmentIdsAsWritten(sel)[0] == if ChangeFlagsAsWritten(sel)[0] then 1 else 0
    ensures |sel| > 0 && sel[0].leftContents.None? ==> SegmentIdsAsWritten(sel)[0] == 1
    ensures forall i :: 0 < i < |sel| ==>
      SegmentIdsAsWritten(sel)[i] == SegmentIdsAsWritten(sel)[i - 1] + (if ChangeFlagsAsWritten(sel)[i] then 1 else 0)
    ensures forall i :: 0 < i < |sel| && sel[i].leftContents.None? ==>
      SegmentIdsAsWritten(sel)[i] == SegmentIdsAsWritten(sel)[i - 1] + 1
    ensures NonDecreasing(SegmentIdsAsWritten(sel))
  {
    var f := ChangeFlagsAsWritten(sel);
    assert SegmentIdsAsWritten(sel) == CumSum(f);
    CumSumSpec(f);
    forall i | 0 <= i < |sel| && sel[i].leftContents.None? ensures f[i] {
      MissingLeftLabelSplits(sel, i);
    }
  }

  /** On a fully labelled selection the ids as written stay equal exactly where the left label does. */
  lemma SegmentIdsAsWrittenLabelled(sel: seq<Row>)
    requires forall i :: 0 <= i < |sel| ==> sel[i].leftContents.Some?
    ensures forall i :: 0 < i < |sel| ==>
      (SegmentIdsAsWritten(sel)[i] == SegmentIdsAsWritten(sel)[i - 1] <==> sel[i].leftContents == sel[i - 1].leftContents)
  {
    var f := ChangeFlagsAsWritten(sel);
    assert SegmentIdsAsWritten(sel) == CumSum(f);
    CumSumBoundaries(f);
    ChangeFlagsAgree(sel);
  }

  /**
   * `get_content_values` with the segment ids exactly as written: a success is named
   * `content + out`, is indexed by the selected timestamps and has one value per selected
   * row, with minimum zero.
   */
  function ContentValuesAsWritten(rows: seq<Row>, content: string, out: string): (r: Result<Series, SipperError>)
    ensures r.Success? ==> r.value.name == content + out && r.value.index == Times(Select(rows, content))
    ensures r.Success? ==> |r.value.values| == |r.value.index| > 0 && Min(r.value.values) == 0
  {
    if out != "Count" && out != "Duration" then Failure(BadOut(out))
    else
      var metric := if out == "Count" then Count else Duration;
      var sel := Select(rows, content);
      var groups := GroupRuns(sel, SegmentIdsAsWritten(sel));
      if |groups| == 0 then Failure(NoObjectsToConcatenate)
      else
        GroupedLength(sel, SegmentIdsAsWritten(sel), content, metric);
        Success(Series(content + out, Times(sel), Stitched(Chosen(groups, content, metric))))
  }

  /** The curve as written never decreases on a table whose columns never decrease. */
  lemma ContentValuesAsWrittenShape(rows: seq<Row>, content: string, out: string)
    requires ContentValuesAsWritten(rows, content, out).Success?
    ensures var s := ContentValuesAsWritten(rows, content, out).value;
      s.name == content + out && s.index == Times(Select(rows, content)) &&
      |s.values| == |s.index| > 0 && Min(s.values) == 0
    ensures var s := ContentValuesAsWritten(rows, content, out).value;
      var metric := if out == "Count" then Count else Duration;
      ColumnsNonDecreasing(rows, metric) ==> NonDecreasing(s.values)
  {
    var metric := if out == "Count" then Count else Duration;
    if ColumnsNonDecreasing(rows, metric) {
      GroupedNonDecreasing(rows, content, metric, SegmentIdsAsWritten(Select(rows, content)));
    }
  }

  /** A selected row without a left label always starts a segment of its own in the source. */
  lemma MissingLeftLabelSplits(sel: seq<Row>, i: nat)
    requires i < |sel| && sel[i].leftContents.None?
    ensures ChangeFlagsAsWritten(sel)[i]
  {
  }

  /** A gap directly above a present value is filled with that value. */
  lemma BackFillNext(xs: seq<Option<string>>, i: nat)
    requires i + 1 < |xs| && xs[i].None? && xs[i + 1].Some?
    ensures BackFill(xs)[i] == xs[i + 1]
  {
  }

  /**
   * As written, a labelled row right after an unlabelled one raises no flag, because the
   * back-fill hands the shifted gap the row's own label, so the unlabelled row joins the run
   * that follows it; only on the last row is there nothing to fill the gap from.
   */
  lemma LabelledAfterGapJoins(sel: seq<Row>, i: nat)
    requires 0 < i < |sel| && sel[i - 1].leftContents.None? && sel[i].leftContents.Some?
    ensures ChangeFlagsAsWritten(sel)[i] <==> i == |sel| - 1
    ensures SegmentIdsAsWritten(sel)[i] == SegmentIdsAsWritten(sel)[i - 1] <==> i < |sel| - 1
  {
    var labels := LeftLabels(sel);
    var sh := ShiftDown(labels);
    if i < |sel| - 1 {
      BackFillNext(sh, i);
    }
    CumSumStep(ChangeFlagsAsWritten(sel), i);
  }

  /** Back-filling the shifted labels of a fully labelled selection just shifts them, keeping the first. */
  lemma {:induction false} BackFillLabelled(xs: seq<Option<string>>)
    requires forall i :: 0 <= i < |xs| ==> xs[i].Some?
    ensures |xs| > 1 ==> BackFill(ShiftDown(xs)) == [xs[0]] + xs[..|xs| - 1]
  {
    if |xs| > 1 {
      var sh := ShiftDown(xs);
      assert sh[1..] == xs[..|xs| - 1];
      assert forall i :: 0 <= i < |sh[1..]| ==> sh[1..][i].Some?;
      BackFillPresent(sh[1..]);
    }
  }

  /** Back-filling leaves a sequence without missing values as it is. */
  lemma {:induction false} BackFillPresent(xs: seq<Option<string>>)
    requires forall i :: 0 <= i < |xs| ==> xs[i].Some?
    ensures BackFill(xs) == xs
  {
    if |xs| > 0 {
      assert forall i :: 0 <= i < |xs[1..]| ==> xs[1..][i] == xs[i + 1];
      BackFillPresent(xs[1..]);
      assert xs == [xs[0]] + xs[1..];
    }
  }

  /** The source and the intended pipeline fail on the same inputs, with the same error. */
  lemma ContentValuesAsWrittenErrors(rows: seq<Row>, content: string, out: string)
    ensures ContentValuesAsWritten(rows, content, out).Failure? <==> ContentValues(rows, content, out).Failure?
    ensures ContentValuesAsWritten(rows, content, out).Failure? ==>
      ContentValuesAsWritten(rows, content, out).error == ContentValues(rows, content, out).error
  {
    var sel := Select(rows, content);
    assert |GroupRuns(sel, SegmentIdsAsWritten(sel))| == 0 <==> |sel| == 0;
    assert |GroupRuns(sel, SegmentIds(sel))| == 0 <==> |sel| == 0;
  }

  /** When every selected row has a left label, the source's flags after the first are the intended ones. */
  lemma ChangeFlagsAgree(sel: seq<Row>)
    requires forall i :: 0 <= i < |sel| ==> sel[i].leftContents.Some?
    ensures forall i :: 0 < i < |sel| ==> ChangeFlagsAsWritten(sel)[i] == ChangeFlags(sel)[i]
  {
    var labels := LeftLabels(sel);
    BackFillLabelled(labels);
    if |sel| > 1 {
      var prev := BackFill(ShiftDown(labels));
      assert forall i :: 0 < i < |sel| ==> prev[i] == labels[i - 1];
    }
  }

  /** Grouping by run depends only on where neighbouring ids are equal, not on the ids themselves. */
  lemma {:induction false} GroupRunsSameBoundaries(rows: seq<Row>, a: seq<int>, b: seq<int>)
    requires |a| == |rows| && |b| == |rows|
    requires forall i :: 0 < i < |rows| ==> (a[i] == a[i - 1] <==> b[i] == b[i - 1])
    ensures GroupRuns(rows, a) == GroupRuns(rows, b)
    decreases |rows|
  {
    if |rows| > 0 {
      assert forall i :: 0 < i < |rows| - 1 ==> a[1..][i] == a[i + 1] && b[1..][i] == b[i + 1];
      GroupRunsSameBoundaries(rows[1..], a[1..], b[1..]);
    }
  }

  /** Neighbouring cumulative sums are equal exactly where the flag is down. */
  lemma CumSumBoundaries(f: seq<bool>)
    ensures forall i :: 0 < i < |f| ==> (CumSum(f)[i] == CumSum(f)[i - 1] <==> !f[i])
  {
    forall i | 0 < i < |f| ensures CumSum(f)[i] == CumSum(f)[i - 1] <==> !f[i] {
      CumSumStep(f, i);
    }
  }

  /** On tables whose selected rows all carry a left label, the source computes the intended result. */
  lemma ContentValuesAgree(rows: seq<Row>, content: string, out: string)
    requires forall x :: x in Select(rows, content) ==> x.leftContents.Some?
    ensures ContentValuesAsWritten(rows, content, out) == ContentValues(rows, content, out)
  {
    var sel := Select(rows, content);
    assert forall i :: 0 <= i < |sel| ==> sel[i] in sel;
    ChangeFlagsAgree(sel);
    CumSumBoundaries(ChangeFlagsAsWritten(sel));
    CumSumBoundaries(ChangeFlags(sel));
    GroupRunsSameBoundaries(sel, SegmentIdsAsWritten(sel), SegmentIds(sel));
  }

  /** Three rows with water on the right tube only, whose count rises 0, 1, 2. */
  function RightOnlyWater(): seq<Row> {
    [Row(0, 0, 0, 0, 0, None, Some("Water")),
     Row(60, 0, 0, 1, 0, None, Some("Water")),
     Row(120, 0, 0, 2, 0, None, Some("Water"))]
  }

  /**
   * As written, every row without a left label is a segment of its own, so each row is
   * shifted onto the previous maximum and the water curve comes out flat; the intended
   * segmentation keeps the three rows together and the curve rises.
   */
  lemma RightOnlyWaterSelection()
    ensures Select(RightOnlyWater(), "Water") == RightOnlyWater()
    ensures Times(RightOnlyWater()) == [0, 60, 120]
  {
    var rows := RightOnlyWater();
    assert rows[1..][1..] == [rows[2]];
    assert rows[1..][1..][1..] == [];
    assert Select(rows[1..][1..], "Water") == [rows[2]];
    assert Select(rows[1..], "Water") == [rows[1], rows[2]];
  }

  lemma RightOnlyWaterGroupsAsWritten()
    ensures var rows := RightOnlyWater();
      GroupRuns(rows, CumSum(ChangeFlagsAsWritten(rows))) == [[rows[0]], [rows[1]], [rows[2]]]
  {
    var rows := RightOnlyWater();
    var f := ChangeFlagsAsWritten(rows);
    assert f == [true, true, true];
    var ids := CumSum(f);
    CumSumStep(f, 1);
    CumSumStep(f, 2);
    assert ids[1] != ids[0] && ids[2] != ids[1];
    assert ids[1..][1..] == [ids[2]] && rows[1..][1..] == [rows[2]];
    assert GroupRuns(rows[1..][1..], ids[1..][1..]) == [[rows[2]]];
    assert GroupRuns(rows[1..], ids[1..]) == [[rows[1]], [rows[2]]];
  }

  /** A row carrying water on the right only, followed by two rows carrying it on the left. */
  function GapThenLeftWater(): seq<Row> {
    [Row(0, 0, 0, 5, 0, None, Some("Water")),
     Row(60, 1, 0, 0, 0, Some("Water"), None),
     Row(120, 2, 0, 0, 0, Some("Water"), None)]
  }

  /**
   * As written, left labels [None, W, W] raise the flags [true, false, false], so the
   * unlabelled first row joins the left-water run and the whole selection is one group,
   * whose column is chosen by its left labels.
   */
  lemma GapThenLeftWaterJoins()
    ensures ChangeFlagsAsWritten(GapThenLeftWater()) == [true, false, false]
    ensures var rows := GapThenLeftWater();
      GroupRuns(rows, SegmentIdsAsWritten(rows)) == [rows]
  {
    var rows := GapThenLeftWater();
    GapThenLeftWaterFlags();
    var ids := SegmentIdsAsWritten(rows);
    SegmentIdsAsWrittenSpec(rows);
    assert ids[1] == ids[0] && ids[2] == ids[1];
    var tail := rows[1..][1..];
    assert tail == [rows[2]];
    var r2 := GroupRuns(tail, ids[1..][1..]);
    assert r2 == [[rows[2]]];
    assert r2[1..] == [];
    var r1 := GroupRuns(rows[1..], ids[1..]);
    assert r1 == [[rows[1]] + r2[0]] + r2[1..];
    assert [rows[1]] + r2[0] == [rows[1], rows[2]];
    assert [[rows[1], rows[2]]] + r2[1..] == [[rows[1], rows[2]]];
    assert GroupRuns(rows, ids) == [[rows[0]] + r1[0]] + r1[1..];
    assert [rows[0]] + r1[0] == rows;
  }

  lemma GapThenLeftWaterFlags()
    ensures ChangeFlagsAsWritten(GapThenLeftWater()) == [true, false, false]
  {
    var rows := GapThenLeftWater();
    MissingLeftLabelSplits(rows, 0);
    LabelledAfterGapJoins(rows, 1);
    var sh := ShiftDown(LeftLabels(rows));
    assert sh[2] == Some("Water");
  }

  lemma RightOnlyWaterGroups()
    ensures var rows := RightOnlyWater();
      GroupRuns(rows, SegmentIds(rows)) == [rows]
  {
    var rows := RightOnlyWater();
    var ids := SegmentIds(rows);
    SegmentIdsSpec(rows);
    assert ids[1] == ids[0] && ids[2] == ids[1];
    assert ids[1..][1..] == [ids[2]] && rows[1..][1..] == [rows[2]];
    assert GroupRuns(rows[1..][1..], ids[1..][1..]) == [[rows[2]]];
    assert ids[1..][1] == ids[1..][0];
    assert [rows[1]] + [rows[2]] == [rows[1], rows[2]];
    assert GroupRuns(rows[1..], ids[1..]) == [[rows[1], rows[2]]];
    assert [rows[0]] + [rows[1], rows[2]] == rows;
  }

  lemma RightOnlyWaterStitchedAsWritten()
    ensures Stitched([[0], [1], [2]]) == [0, 0, 0]
  {
    var segs: seq<seq<int>> := [[0], [1], [2]];
    assert segs[1..][1..] == [[2]];
    assert Add([1], 0 - Min([1])) == [0];
    assert Add([2], 0 - Min([2])) == [0];
    assert ShiftFrom(0, [[2]]) == [[0]];
    assert ShiftFrom(0, [[1], [2]]) == [[0], [0]];
    assert ShiftAll(segs) == [[0], [0], [0]];
    var flat := Concat([[0], [0], [0]]);
    assert flat == [0, 0, 0];
    assert Min(flat) == 0;
  }

  lemma RightOnlyWaterStitched()
    ensures Stitched([[0, 1, 2]]) == [0, 1, 2]
  {
    var segs: seq<seq<int>> := [[0, 1, 2]];
    assert ShiftAll(segs) == [[0, 1, 2]];
    assert Concat(ShiftAll(segs)) == [0, 1, 2];
    assert [0, 1, 2][1..] == [1, 2] && [1, 2][1..] == [2];
    assert Min([0, 1, 2]) == 0;
  }

  lemma RightOnlyWaterColumns()
    ensures var rows := RightOnlyWater();
      Chosen([[rows[0]], [rows[1]], [rows[2]]], "Water", Count) == [[0], [1], [2]]
    ensures Chosen([RightOnlyWater()], "Water", Count) == [[0, 1, 2]]
  {
    var rows := RightOnlyWater();
    forall k | 0 <= k < 3 ensures ChooseColumn([rows[k]], "Water", Count) == [k] {
      assert !LeftHasContent([rows[k]], "Water");
    }
    assert !LeftHasContent(rows, "Water");
    assert ChooseColumn(rows, "Water", Count) == [0, 1, 2];
  }

  lemma RightOnlyWaterIsFlat()
    ensures ContentValuesAsWritten(RightOnlyWater(), "Water", "Count") == Success(Series("WaterCount", [0, 60, 120], [0, 0, 0]))
  {
    var rows := RightOnlyWater();
    RightOnlyWaterSelection();
    RightOnlyWaterGroupsAsWritten();
    RightOnlyWaterColumns();
    RightOnlyWaterStitchedAsWritten();
    var sel := Select(rows, "Water");
    var g := GroupRuns(sel, CumSum(ChangeFlagsAsWritten(sel)));
    assert g == [[rows[0]], [rows[1]], [rows[2]]];
    assert Stitched(Chosen(g, "Water", Count)) == [0, 0, 0];
    assert "Water" + "Count" == "WaterCount";
  }

  lemma RightOnlyWaterRises()
    ensures ContentValues(RightOnlyWater(), "Water", "Count") == Success(Series("WaterCount", [0, 60, 120], [0, 1, 2]))
  {
    var rows := RightOnlyWater();
    RightOnlyWaterSelection();
    RightOnlyWaterGroups();
    RightOnlyWaterColumns();
    RightOnlyWaterStitched();
    var sel := Select(rows, "Water");
    var g := GroupRuns(sel, SegmentIds(sel));
    assert g == [rows];
    assert Stitched(Chosen(g, "Water", Count)) == [0, 1, 2];
    assert "Water" + "Count" == "WaterCount";
  }
}
