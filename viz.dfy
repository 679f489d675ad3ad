/**
 * The two naming rules of the SipViz window: the 24 hour labels of its light-cycle menus
 * and the unique names it gives the plots it opens.
 */
module SipperViz {
  import opened Text

  /** The label of hour `k` of the day: midnight, `'k am'`, noon, then `'k pm'` counted from noon. */
  function HourLabel(k: nat): string
    requires k < 24
  {
    if k == 0 then "midnight"
    else if k < 12 then Decimal(k) + " am"
    else if k == 12 then "noon"
    else Decimal(k - 12) + " pm"
  }

  /** The hours of the day as the menus show them, midnight first. */
  const ClockLabels: seq<string> := seq(24, k requires 0 <= k < 24 => HourLabel(k))

  /** A few labels written out. */
  lemma HourLabelSamples()
    ensures ClockLabels[0] == "midnight" && ClockLabels[7] == "7 am" && ClockLabels[11] == "11 am"
    ensures ClockLabels[12] == "noon" && ClockLabels[19] == "7 pm" && ClockLabels[23] == "11 pm"
  {
    assert Decimal(11) == Decimal(1) + [DigitChar(1)];
  }

  /** No two hours share a label. */
  ghost predicate Distinct(s: seq<string>) {
    forall i, j :: 0 <= i < j < |s| ==> s[i] != s[j]
  }

  /** A positive number's decimal digits do not start with `'0'`. */
  lemma LeadingDigit(n: nat)
    requires 0 < n
    ensures Decimal(n)[0] != '0'
    decreases n
  {
    if n >= 10 {
      LeadingDigit(n / 10);
    }
  }

  /**
   * One entry of the nested loop, `str(num) + xm` with `'0 am'` renamed midnight and
   * `'0 pm'` noon, is the label of hour `num` of the morning or of the afternoon.
   */
  lemma LoopLabel(num: nat, xm: string)
    requires num < 12 && (xm == " am" || xm == " pm")
    ensures var time := Decimal(num) + xm;
      (if time == "0 am" then "midnight" else if time == "0 pm" then "noon" else time) ==
      ClockLabels[if xm == " am" then num else 12 + num]
  {
    var time := Decimal(num) + xm;
    if num != 0 {
      LeadingDigit(num);
      assert time[0] != "0 am"[0] && time[0] != "0 pm"[0];
    }
  }

  /** Away from midnight and noon, a label is a number of the half-day then its half. */
  lemma NumberedLabel(k: nat)
    requires k < 24 && k != 0 && k != 12
    ensures HourLabel(k) == Decimal(k % 12) + (if k < 12 then " am" else " pm")
    ensures IsDigit(HourLabel(k)[0])
  {
  }

  /** Labels of different hours differ. */
  lemma HourLabelsDiffer(i: nat, j: nat)
    requires i < j < 24
    ensures HourLabel(i) != HourLabel(j)
  {
    var a, b := HourLabel(i), HourLabel(j);
    if i == 0 || i == 12 {
      if j != 12 {
        NumberedLabel(j);
        assert a[0] != b[0];
      }
    } else if j == 12 {
      NumberedLabel(i);
      assert a[0] != b[0];
    } else {
      NumberedLabel(i);
      NumberedLabel(j);
      if a == b {
        assert a[|a| - 2] == b[|b| - 2];
        assert (i < 12) == (j < 12);
        assert a[..|a| - 3] == Decimal(i % 12) && b[..|b| - 3] == Decimal(j % 12);
        DecimalInjective(i % 12, j % 12);
      }
    }
  }

  /** The labels differ pairwise. */
  lemma ClockLabelsDistinct()
    ensures |ClockLabels| == 24 && Distinct(ClockLabels)
  {
    forall i, j | 0 <= i < j < 24
      ensures ClockLabels[i] != ClockLabels[j]
    {
      HourLabelsDiffer(i, j);
    }
  }

  /**
   * The `times` list of the window's constructor: for `' am'` then `' pm'`, the twelve
   * labels `str(num) + xm`, with `'0 am'` called midnight and `'0 pm'` noon.
   */
  method HourLabels() returns (times: seq<string>)
    ensures times == ClockLabels
  {
    var halves := [" am", " pm"];
    times := [];
    for x := 0 to 2
      invariant |times| == 12 * x && forall k :: 0 <= k < |times| ==> times[k] == ClockLabels[k]
    {
      var xm := halves[x];
      for num := 0 to 12
        invariant |times| == 12 * x + num && forall k :: 0 <= k < |times| ==> times[k] == ClockLabels[k]
      {
        var time := Decimal(num) + xm;
        if time == "0 am" {
          time := "midnight";
        }
        if time == "0 pm" {
          time := "noon";
        }
        LoopLabel(num, xm);
        times := times + [time];
      }
    }
  }

  /**
   * `{time: num for num, time in enumerate(times)}`: each label to its position; a label
   * that repeats keeps its last position.
   */
  function Enumerate(times: seq<string>): (m: map<string, int>)
    ensures forall t :: t in m <==> t in times
    ensures forall t :: t in m ==> 0 <= m[t] < |times| && times[m[t]] == t
    ensures forall t :: t in m ==> forall k :: m[t] < k < |times| ==> times[k] != t
  {
    if |times| == 0 then map[]
    else Enumerate(times[..|times| - 1])[times[|times| - 1] := |times| - 1]
  }

  /** Over distinct labels, the map sends every label to its own position. */
  lemma EnumerateDistinct(times: seq<string>, k: nat)
    requires Distinct(times) && k < |times|
    ensures times[k] in Enumerate(times) && Enumerate(times)[times[k]] == k
  {
    var m := Enumerate(times);
    assert times[k] in times;
    assert times[m[times[k]]] == times[k];
  }

  /**
   * `times_to_int` is a bijection from the 24 hour labels onto 0..23: label `k` of
   * the clock maps to `k`, every key is a label, and no two keys share a value.
   */
  lemma TimesToIntBijection()
    ensures forall k :: 0 <= k < 24 ==> ClockLabels[k] in Enumerate(ClockLabels) && Enumerate(ClockLabels)[ClockLabels[k]] == k
    ensures forall t :: t in Enumerate(ClockLabels) ==> 0 <= Enumerate(ClockLabels)[t] < 24
    ensures forall s, t :: s in Enumerate(ClockLabels) && t in Enumerate(ClockLabels) && Enumerate(ClockLabels)[s] == Enumerate(ClockLabels)[t] ==> s == t
  {
    ClockLabelsDistinct();
    forall k | 0 <= k < 24
      ensures ClockLabels[k] in Enumerate(ClockLabels) && Enumerate(ClockLabels)[ClockLabels[k]] == k
    {
      EnumerateDistinct(ClockLabels, k);
    }
  }

  /** The `i`-th name `create_plot_name` tries: the base name, then the base name numbered `i`. */
  function Candidate(basename: string, i: nat): (name: string)
    ensures i > 0 ==> |name| > |basename| + 1 && name[..|basename| + 1] == basename + " "
  {
    if i == 0 then basename else basename + " " + Decimal(i)
  }

  /** Different attempts try different names. */
  lemma CandidateInjective(basename: string, i: nat, j: nat)
    requires i != j
    ensures Candidate(basename, i) != Candidate(basename, j)
  {
    if i > 0 && j > 0 {
      var n := |basename| + 1;
      if Candidate(basename, i) == Candidate(basename, j) {
        assert Candidate(basename, i)[n..] == Decimal(i);
        assert Candidate(basename, j)[n..] == Decimal(j);
        DecimalInjective(i, j);
      }
    }
  }

  /** The names tried in the first `i` attempts. */
  ghost function Tried(basename: string, i: nat): (s: set<string>)
    ensures forall j :: 0 <= j < i ==> Candidate(basename, j) in s
  {
    if i == 0 then {} else Tried(basename, i - 1) + {Candidate(basename, i - 1)}
  }

  /** The `i` names tried first are `i` different names. */
  lemma {:induction false} TriedSize(basename: string, i: nat)
    ensures |Tried(basename, i)| == i
    ensures Candidate(basename, i) !in Tried(basename, i)
  {
    if i > 0 {
      TriedSize(basename, i - 1);
      forall j | 0 <= j <= i - 1
        ensures Candidate(basename, j) != Candidate(basename, i)
      {
        CandidateInjective(basename, j, i);
      }
      TriedOnly(basename, i - 1, Candidate(basename, i));
    }
  }

  /** Only the attempts made so far are in the tried set. */
  lemma {:induction false} TriedOnly(basename: string, i: nat, name: string)
    requires forall j :: 0 <= j <= i ==> Candidate(basename, j) != name
    ensures name !in Tried(basename, i)
  {
    if i > 0 {
      TriedOnly(basename, i - 1, name);
    }
  }

  /** A subset of a finite set is no larger. */
  lemma {:induction false} SubsetSize(a: set<string>, b: set<string>)
    requires a <= b
    ensures |a| <= |b|
    decreases |a|
  {
    if a != {} {
      var x :| x in a;
      SubsetSize(a - {x}, b - {x});
    }
  }

  /** The window: its hour-label table and the names of the plots it has open, oldest first. */
  class SipperViz {
    var timesToInt: map<string, int>
    var loadedPlots: seq<string>

    /** The names of an ordered dictionary's keys never repeat. */
    ghost predicate Valid()
      reads this
    {
      forall i, j :: 0 <= i < j < |loadedPlots| ==> loadedPlots[i] != loadedPlots[j]
    }

    /** The constructor's conversions: the hour labels in order, then the label table; no plots yet. */
    constructor()
      ensures Valid()
      ensures timesToInt == Enumerate(ClockLabels) && loadedPlots == []
    {
      var times := HourLabels();
      timesToInt := Enumerate(times);
      loadedPlots := [];
    }

    /**
     * `create_plot_name(basename)`: the base name when it is free, otherwise the base name
     * numbered with the least `c >= 1` that is free.
     */
    method CreatePlotName(basename: string) returns (name: string)
      ensures name !in loadedPlots
      ensures basename !in loadedPlots ==> name == basename
      ensures exists i: nat ::
        name == Candidate(basename, i) && forall j :: 0 <= j < i ==> Candidate(basename, j) in loadedPlots
    {
      ghost var names := set t | t in loadedPlots;
      name := basename;
      var c := 1;
      while name in loadedPlots
        invariant c >= 1 && name == Candidate(basename, c - 1)
        invariant forall j :: 0 <= j < c - 1 ==> Candidate(basename, j) in loadedPlots
        invariant Tried(basename, c - 1) <= names
        decreases |names| - |Tried(basename, c - 1)|
      {
        TriedSize(basename, c - 1);
        TriedSize(basename, c);
        SubsetSize(Tried(basename, c), names);
        name := basename + " " + Decimal(c);
        c := c + 1;
      }
    }

    /** Opening a plot (`iter_plot`): give it a fresh name and add it last among the loaded plots. */
    method AddPlot(basename: string) returns (name: string)
      requires Valid()
      modifies this
      ensures Valid()
      ensures name !in old(loadedPlots) && loadedPlots == old(loadedPlots) + [name]
      ensures timesToInt == old(timesToInt)
    {
      name := CreatePlotName(basename);
      loadedPlots := loadedPlots + [name];
    }
  }
}
