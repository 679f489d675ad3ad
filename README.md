# SipperViz core in Dafny

This project models the data core of SipperViz, a tool that loads, labels and plots
recordings from "sipper" drinking monitors. Each recording holds one row per reading. A
row has a timestamp, a lick counter and a cumulative lick duration for the left tube and
for the right tube, and the content label ("Water", "Sucrose", …) of each tube. The
model covers:

- **sipper.py**:
  - the window test `date_filter_okay`;
  - `Sipper.assign_contents`, which labels time windows with contents, inserting a
    copied row at a window start that falls between readings;
  - `Sipper.set_of_contents`;
  - `Sipper.get_content_values` and `groupby_convertcontent`. These select the rows
    carrying a substance, split them into runs of equal left label, and stitch the
    chosen column of every run onto the maximum of the previous one. The result is a
    single curve, rebased to zero.
- **sipperplots.py**:
  - `date_filter_okay` and `hours_between`;
  - `is_day_or_night`, the light/dark classification of a cycle;
  - `get_daynight_count`, the fractional number of light and dark periods in a span;
  - `night_intervals`, the dark intervals of a timestamp array.
- **sipperviz.py**:
  - the 24 hour labels of the window's menus and their `times_to_int` table;
  - `create_plot_name`, which finds a free plot name.

Modelling choices:

- Timestamps are whole seconds, as integers, from an epoch that falls on a midnight.
  The hour of the day is therefore `(t % 86400) / 3600`. Hours of a cycle are the
  subset type `Hour` (0..23).
- A missing content label (pandas NaN) is `None`.
- The Python floats of `get_daynight_count` are exact reals.
- Errors that the source raises are `Failure` values of a `Result`.
- State that the source changes in place is a class: `Sipper` has the table,
  `contents_dates` and `contents` fields, and `SipperViz` has the label table and the
  names of the loaded plots.
- Code that loops becomes methods with loop invariants. Each method is proved equal to
  a function of its inputs, and the properties are proved about those functions.
- For the three places where verification showed the source does not do what it
  evidently means to do (see Findings), the model keeps the code as written and the
  corrected definition side by side. The methods (`GetContentValues`,
  `GetDaynightCount`, `NightIntervals`) compute what the code as written computes; the
  corrected functions (`ContentValues`, `DaynightCount`, `NightIntervalsIntended`) and
  their lemmas state what it evidently means to compute.

Files:

- `wrappers.dfy`: `Option`, `Result`.
- `text.dfy`: `str(n)` for naturals, Python string order, `np.unique` on strings.
- `table.dfy`: rows, the time window, `date_filter_okay`.
- `stitching.dfy`: selection, run segmentation, `groupby_convertcontent`, the
  `get_content_values` pipeline.
- `sipper.dfy`: the `Sipper` class.
- `plots.dfy`: sipperplots.py.
- `viz.dfy`: sipperviz.py.

## Model

| member | source | states |
|---|---|---|
| SipperTable.DateFilterOkay | sipper.py:9-12 | true exactly when some row's timestamp lies in the closed window [start, end] |
| SipperTable.InWindow | sipperplots.py:10-13 | the rows kept by the window mask are exactly the rows of the table inside [start, end], and no more rows than the table has |
| SipperTable.InWindowConcat | sipper.py:10-11 | the window mask keeps table order: filtering a concatenation concatenates the filtered parts |
| Stitching.Select | sipper.py:120-121 | the selection has no more rows than the table |
| Stitching.SelectMembers | sipper.py:120-121 | a row is selected iff it is a row of the table whose left or right label is the substance |
| Stitching.SelectConcat | sipper.py:120-121 | the selection is an order-preserving filter (distributes over concatenation) |
| Stitching.SelectTimeOrdered | sipper.py:120-121 | the selection of a time-ordered table is time-ordered |
| Stitching.SelectColumnsNonDecreasing | sipper.py:120-121 | selecting rows keeps monotone counter/duration columns monotone |
| Stitching.SegmentIds | sipper.py:122-123 | the corrected segment ids: one per selected row |
| Stitching.SegmentIdsSpec | sipper.py:122-123 | the corrected segment ids (see Findings) start at 0, rise by exactly one where the left label changes and stay equal elsewhere; they never decrease |
| Stitching.CumSumSpec | sipper.py:123 | `astype(int).cumsum()` of flags starts at the first flag's value, rises by one exactly at each raised flag and never decreases |
| Stitching.SegmentIdsAsWritten | sipper.py:122-123 | the segment ids as written: one per selected row |
| Stitching.SegmentIdsAsWrittenSpec | sipper.py:122-123 | as written, the ids rise by one at each raised flag and never decrease; a row without a left label always raises one, so an unlabelled first row gets id 1 and every later unlabelled row starts a new segment |
| Stitching.SegmentIdsAsWrittenLabelled | sipper.py:122-123 | as written, on a selection whose rows all carry a left label, neighbouring ids are equal exactly where the left labels are |
| Stitching.CumSumStep | sipper.py:123 | the cumulative sum of the change flags goes up by one exactly at a raised flag |
| Stitching.CountTrueMonotone | sipper.py:123 | counting raised flags over a longer prefix never gives less |
| Stitching.GroupRuns | sipper.py:124 | groups are never empty; the first group starts with the first row; no rows, no groups |
| Stitching.GroupRunsConcat | sipper.py:124 | concatenating the groups gives back the selection |
| Stitching.GroupRunsByLabel | sipper.py:124 | inside a group all rows share the left label, and neighbouring groups have different left labels |
| Stitching.ChooseColumn | sipper.py:17-20 | the chosen column has one value per row of the group |
| Stitching.MinSpec | sipper.py:23 | `nanmin` is a value of the series and no value is below it |
| Stitching.MaxSpec | sipper.py:22 | `nanmax` is a value of the series and no value is above it |
| Stitching.AddExtremes | sipper.py:23 | adding a scalar moves the minimum and the maximum by that scalar |
| Stitching.ShiftFromSpec | sipper.py:21-26 | segment k is moved so that its minimum lands on the previous shifted segment's maximum (the running start for the first) |
| Stitching.ShiftAllSpec | sipper.py:21-26 | the first segment is kept as it is; each later one is shifted so that its minimum equals the previous shifted segment's maximum |
| Stitching.ShiftFromNonDecreasing | sipper.py:21-27 | shifting non-decreasing segments onto a running maximum gives a non-decreasing concatenation that starts there |
| Stitching.ShiftAllNonDecreasing | sipper.py:21-27 | if every segment is non-decreasing, so is the concatenation of the shifted segments |
| Stitching.RebaseSpec | sipper.py:28 | `output - nanmin(output)` keeps length and all differences, has minimum 0 and keeps monotonicity |
| Stitching.Stitched | sipper.py:21-28 | the stitched curve has one value per input value and its minimum is 0 |
| Stitching.StitchedNonDecreasing | sipper.py:21-28 | monotone segments give a monotone stitched curve |
| Stitching.GroupbyConvertContent | sipper.py:14-28 | the loop returns the stitched, rebased curve of the chosen columns; with no groups it fails as `pd.concat([])` does |
| Stitching.ContentGroups | sipper.py:120-124 | every group of the corrected segmentation is non-empty |
| Stitching.ContentGroupsSpec | sipper.py:120-124 | the groups concatenate to the selection, share one left label each, alternate labels between neighbours, and the column chosen for a group carries the substance on every row |
| Stitching.ConcatPartsNonDecreasing | sipper.py:27 | every part of a concatenation with monotone columns has monotone columns |
| Stitching.ContentValuesBadOut | sipper.py:117-119 | the corrected result is the `out` error iff `out` is neither 'Count' nor 'Duration' |
| Stitching.ContentValuesEmpty | sipper.py:120-126 | for a valid `out`, the corrected result fails (with the empty-concat error) iff no row carries the substance |
| Stitching.ContentValuesAsWrittenErrors | sipper.py:117-126 | the pipeline as written fails on exactly the inputs the corrected one fails on, with the same error, so the two lemmas above hold for it too |
| Stitching.GroupedLength | sipper.py:124-126 | grouping the selection by any ids and stitching gives one value per selected row |
| Stitching.GroupedNonDecreasing | sipper.py:120-126 | whatever the ids, monotone table columns give a monotone stitched curve |
| Stitching.ContentValues | sipper.py:114-126 | the corrected pipeline (see Findings): a success is named content+out, is indexed by the selected timestamps, has one value per selected row and minimum 0 |
| Stitching.ContentValuesAsWritten | sipper.py:114-126 | the pipeline as written: a success is named content+out, is indexed by the selected timestamps, has one value per selected row and minimum 0 |
| Stitching.ContentValuesShape | sipper.py:114-126 | the corrected result is named content+out, indexed by the selected timestamps, has one value per row and minimum 0, and is non-decreasing when the table's columns are |
| Stitching.ContentValuesAsWrittenShape | sipper.py:114-126 | the same for the pipeline as written: name, index, one value per row, minimum 0, non-decreasing when the table's columns are |
| Stitching.ShiftDown | sipper.py:122 | `shift()` moves every label down one place and puts a missing label first |
| Stitching.BackFill | sipper.py:122 | `bfill()` keeps every present label and fills each gap from the next present one; a gap at the bottom stays missing |
| Stitching.BackFillNext | sipper.py:122 | a gap directly above a present label takes that label |
| Stitching.ChangeFlagsAsWritten | sipper.py:122 | one flag per selected row |
| Stitching.MissingLeftLabelSplits | sipper.py:122 | as written, a selected row without a left label always raises a change flag |
| Stitching.LabelledAfterGapJoins | sipper.py:122-124 | as written, a labelled row right after an unlabelled one raises a flag (and a new id) only when it is the last selected row; otherwise the unlabelled row joins the run that follows it |
| Stitching.GapThenLeftWaterJoins | sipper.py:120-124 | as written, left labels [None, W, W] raise the flags [true, false, false], and the three rows form a single group |
| Stitching.BackFillLabelled | sipper.py:122 | on fully labelled rows, shift-then-bfill is the labels shifted with the first label repeated |
| Stitching.BackFillPresent | sipper.py:122 | back-filling a label list without gaps changes nothing |
| Stitching.ChangeFlagsAgree | sipper.py:122 | when every selected row has a left label, the flags as written agree with the intended ones after the first row |
| Stitching.GroupRunsSameBoundaries | sipper.py:124 | grouping depends only on where neighbouring ids are equal |
| Stitching.CumSumBoundaries | sipper.py:123 | neighbouring cumulative sums are equal exactly where the flag is down |
| Stitching.ContentValuesAgree | sipper.py:114-126 | when every selected row has a left label, the code as written computes the intended result |
| Stitching.RightOnlyWaterGroupsAsWritten | sipper.py:122-124 | as written, three right-only water rows fall into three separate groups |
| Stitching.RightOnlyWaterGroups | sipper.py:122-124 | the intended segmentation keeps the three rows in one group |
| Stitching.RightOnlyWaterIsFlat | sipper.py:114-126 | as written, right-only water counting 0, 1, 2 comes out as the flat curve 0, 0, 0 |
| Stitching.RightOnlyWaterRises | sipper.py:114-126 | the intended result for the same table is 0, 1, 2 |
| SipperCore.FindWindow | sipper.py:96 | finds an entry with the same window key when there is one, and reports none only when no entry has it |
| SipperCore.PutSpec | sipper.py:96 | `contents_dates[(start, end)] = (left, right)` holds the new entry and every entry with another key, nothing else; keys stay unique, old keys keep their positions, a new key goes last |
| SipperCore.PutHolds | sipper.py:96 | after the assignment the dict holds the new entry |
| SipperCore.LatestBefore | sipper.py:98-99 | the latest row strictly before t when there is one; none only when every row is at or after t |
| SipperCore.InsertRow | sipper.py:100-101 | inserting gives one more row: the old rows and the new one |
| SipperCore.Relabel | sipper.py:102-105 | the masked label writes keep the number of rows |
| SipperCore.RelabelMembers | sipper.py:102-105 | rows in [start, end) get the window's two labels; all other rows are unchanged; the index is unchanged |
| SipperCore.InsertRowOrdered | sipper.py:100-106 | inserting a row at a new timestamp keeps the table time-ordered |
| SipperCore.InsertRowTimes | sipper.py:100 | only the inserted timestamp joins the index |
| SipperCore.StepRecords | sipper.py:93-96 | a window with no row in [start, end] changes nothing; any other window is recorded in `contents_dates` |
| SipperCore.StepKeepsValid | sipper.py:92-106 | one window keeps the table time-ordered and the dict keys unique |
| SipperCore.Step | sipper.py:92-106 | one window adds exactly one row when some row lies in it and its start needs a copied row, and no row otherwise |
| SipperCore.ApplyAll | sipper.py:90-106 | applying the dict's windows in order adds at most one row per window |
| SipperCore.StartRowInWindow | sipper.py:93-101 | a window that applies and needs a start row has start before end |
| SipperCore.StepTimes | sipper.py:97-101 | after one window the index is the old index plus start exactly when a start row had to be inserted |
| SipperCore.StepRows | sipper.py:97-105 | after one window, rows inside it carry its labels, rows outside are old rows, every old row survives relabelled, and the inserted row is the latest earlier row moved to start |
| SipperCore.StepOrigin | sipper.py:97-105 | every row after one window comes from an old row, or is the latest row before start moved to start, with the same readings |
| SipperCore.LastCovering | sipper.py:102-105 | the last window of the dict covering t: it is in the dict, covers t, and no later window covers t; none only when no window covers t |
| SipperCore.ApplyAllKeepsValid | sipper.py:90-106 | the whole dict keeps the table time-ordered and `contents_dates` keys unique |
| SipperCore.LastWriteWins | sipper.py:92-105 | every final row carries the labels of the last window in dict order that covers it; rows no window covers are original rows |
| SipperCore.ApplyAllTimes | sipper.py:97-101 | every original timestamp stays, and every new one is the start of some window |
| SipperCore.ReadingsCarried | sipper.py:97-105 | counters and durations are never rewritten: each final row reads what the latest original row at or before its timestamp reads |
| SipperCore.InsertedReadings | sipper.py:98-101 | the row inserted at start reads what the latest original row at or before start reads |
| SipperCore.LatestBeforeSame | sipper.py:98 | the latest original row before start is the same whether looked up before or after earlier windows inserted rows |
| SipperCore.PresentLabels | sipper.py:110-111 | the present labels are exactly the labels some row carries on either tube |
| SipperCore.ContentsOf | sipper.py:109-112 | the contents are strictly sorted and hold exactly the labels present on either tube |
| SipperCore.Sipper.constructor | sipper.py:83-84 | a recording over a time-ordered table starts with no assignments and its contents computed from the table |
| SipperCore.Sipper.SetOfContents | sipper.py:109-112 | sorted, duplicate-free, and holds exactly the labels the current table carries |
| SipperCore.Sipper.AssignContents | sipper.py:90-107 | the new table and `contents_dates` are all windows of the dict applied in order; the invariants hold; `contents` is recomputed |
| SipperCore.Sipper.GetContentValues | sipper.py:114-126 | the result is the pipeline as written (ids from the as-written change flags) on `df`, or on the recording's table when `df` is empty |
| Text.Decimal | sipperviz.py:38 | `str(num)` is a non-empty string of digits |
| Text.DecimalRoundTrip | sipperviz.py:38 | `int(str(n)) == n` |
| Text.DecimalInjective | sipperviz.py:244 | `str(c)` differs for different numbers |
| Text.StrLessTransitive | sipper.py:112 | Python's string order is transitive |
| Text.StrLessTotal | sipper.py:112 | any two strings are equal or ordered one way |
| Text.StrLessAsymmetric | sipper.py:112 | the order is asymmetric |
| Text.InsertUnique | sipper.py:112 | inserting into a strictly sorted list keeps it strictly sorted and adds exactly the new element |
| Text.SortedUnique | sipper.py:112 | `np.unique` gives a strictly sorted list holding exactly the input's strings |
| Text.StrictlySortedUnique | sipper.py:112 | a set of strings has exactly one strictly sorted listing |
| SipperPlots.TimeOfDay | sipperplots.py:73-80 | the time of day lies in [0, 86400) |
| SipperPlots.FloorHour | sipperplots.py:43-50 | flooring to the hour gives a whole hour at most t and within the hour before it |
| SipperPlots.HourRange | sipperplots.py:51 | an hourly range has (b - a)/3600 + 1 entries, the i-th at a + 3600·i, and is empty when b < a |
| SipperPlots.HoursBetween | sipperplots.py:23-51 | `hours_between` runs from the hour of start to the hour of end, holds only whole hours between them, one hour apart; it is empty iff end's hour precedes start's |
| SipperPlots.IsDayOrNight | sipperplots.py:53-82 | by the hour of t: 'night' is answered true iff the hour is at/after off or before on (off later than on), in [off, on) (off earlier), never (equal hours); any other period gets the negation |
| SipperPlots.DayIsNotNight | sipperplots.py:82 | any period other than 'night' is the negation of night |
| SipperPlots.EqualHoursAlwaysDay | sipperplots.py:75-82 | with equal on and off hours it is never night and always day |
| SipperPlots.DailyPeriodic | sipperplots.py:73-82 | the classification repeats every day |
| SipperPlots.PhaseHours | sipperplots.py:118-123 | the light and dark phase lengths add to 24 hours; light is positive; dark is 0 iff the hours are equal |
| SipperPlots.CountDayHoursClosed | sipperplots.py:118-123 | the number of day hours below n in closed form, for each ordering of on and off |
| SipperPlots.PhaseHoursCountsDay | sipperplots.py:118-125 | the light phase length is the number of hours of the day that `is_day_or_night` calls day |
| SipperPlots.PhaseLength | sipperplots.py:124-125 | phase lengths are non-negative, zero only for the dark phase with equal hours |
| SipperPlots.PhasePartsStep | sipperplots.py:126-130 | each sub-span adds its length over the phase length to the list of the phase of its first cut |
| SipperPlots.PhaseSecondsSplit | sipperplots.py:126-130 | every sub-span falls in exactly one phase: both phases' seconds add up to last cut minus first |
| SipperPlots.PhaseSecondsNonNegative | sipperplots.py:126-130 | over non-decreasing cuts, neither phase gets negative seconds |
| SipperPlots.PartsAreSeconds | sipperplots.py:126-131 | the sum of a phase's parts is its seconds over its length; with length 0 both are 0 |
| SipperPlots.Telescoping | sipperplots.py:106-131 | day = light seconds / light length, night = dark seconds / dark length (0 with equal hours), and light plus dark seconds = last cut minus first |
| SipperPlots.GetDaynightCount | sipperplots.py:84-131 | the method returns the two sums of the cuts as written (switching hours appended after each hourly step) |
| SipperPlots.CollectCuts | sipperplots.py:106-115 | the first loop builds exactly the cuts as written: the start, every switching hour reached by an hourly step, then the end |
| SipperPlots.SumPhases | sipperplots.py:116-131 | the phase lengths and the second loop give, for any cuts, the sum of each phase's sub-spans over that phase's length |
| SipperPlots.StepsSpec | sipperplots.py:108-114 | the intended loop appends exactly the switching hours strictly between the hour of start and end, increasing |
| SipperPlots.CutsSpec | sipperplots.py:106-115 | the intended cuts start at start, end at end, increase, and have the switching hours strictly inside the span in between |
| SipperPlots.CutsPhase | sipperplots.py:106-130 | every instant between two neighbouring cuts has the phase of the earlier cut |
| SipperPlots.PhaseConstant | sipperplots.py:73-82 | with no switching hour in (a, b], a and b have the same phase |
| SipperPlots.DaynightCount | sipperplots.py:84-131 | the corrected counts (see Findings): over a span that is not reversed neither is negative, and the two phases' seconds add up to end - start |
| SipperPlots.OvershootAsWritten | sipperplots.py:108-115 | as written, 06:30 to 06:45 with lights on at 7 gets a cut at 07:00 after the end, and a day count of -1/48 with a night count of 1/24 |
| SipperPlots.OvershootIntended | sipperplots.py:108-115 | cutting only inside the span gives the cuts 06:30, 06:45 and counts 0 day, 1/48 night |
| SipperPlots.Zip | sipperplots.py:174 | `zip` pairs the k-th elements up to the shorter length |
| SipperPlots.Classify | sipperplots.py:160-162 | every entry is marked night iff its hour lies in the night of the given cycle, negated when asking for days |
| SipperPlots.NightIntervals | sipperplots.py:133-175 | the method returns the intervals of the entries classified with the default 7–19 cycle (as written), `[]` for equal hours, and the empty-array error |
| SipperPlots.NightIntervalsAsWritten | sipperplots.py:133-175 | as written: `[]` for equal hours, and otherwise the intended result for the default 7–19 cycle, whatever cycle is passed |
| SipperPlots.NightIntervalsIntended | sipperplots.py:133-175 | the corrected result fails exactly on an empty array with two different hours, with the empty-array error |
| SipperPlots.ScanNights | sipperplots.py:163-173 | the scan collects the dates at which a night begins and those at which one ends (a fall, or the last entry while still night) |
| SipperPlots.RisesMembers | sipperplots.py:165-169 | a position is a night begin iff it is night and is first or follows day |
| SipperPlots.FallsMembers | sipperplots.py:170-171 | a position is a night end iff it is day and follows night |
| SipperPlots.RunsInterleave | sipperplots.py:163-171 | begins and ends alternate, each begin before its end, and every entry from a begin to its end is night |
| SipperPlots.RunsCover | sipperplots.py:163-171 | every night entry lies between some begin and its end (or the open run) |
| SipperPlots.EndsShape | sipperplots.py:170-173 | there are as many ends as begins; an extra end is the last entry, in a night still running |
| SipperPlots.PairOrdered | sipperplots.py:163-174 | each begin is at or before its end, and each end before the next begin |
| SipperPlots.PairBounds | sipperplots.py:163-174 | each begin is a night begin; each end is the last entry or a day entry |
| SipperPlots.PairCover | sipperplots.py:163-174 | every night position lies in some begin/end pair |
| SipperPlots.IntervalsOrdered | sipperplots.py:163-174 | over increasing dates, one interval per night begin, each ending no earlier than it starts, disjoint and in order |
| SipperPlots.IntervalsAtNight | sipperplots.py:163-174 | an interval starts at a night entry following day, holds night entries up to its end, and ends at day or at the last entry |
| SipperPlots.IntervalsCover | sipperplots.py:163-174 | every night entry lies in some interval |
| SipperPlots.NightIntervalsIgnoreCycle | sipperplots.py:160 | as written, one entry at 19:00 with a cycle from 8 to 20 gives the interval (19:00, 19:00) |
| SipperPlots.NightIntervalsFollowCycle | sipperplots.py:160 | classified with the cycle passed in, the same entry gives no interval |
| SipperPlots.NightIntervalsCover | sipperplots.py:133-175 | the intended result succeeds, and every entry of the requested phase lies in one of its intervals |
| SipperPlots.NightIntervalsInside | sipperplots.py:133-175 | every entry from an intended interval's start up to its end is in the requested phase; the start begins a run; the end is the last entry or out of phase |
| SipperPlots.NightIntervalsOrdered | sipperplots.py:133-175 | the intended intervals are ordered and disjoint, each ending no earlier than it starts |
| SipperViz.LoopLabel | sipperviz.py:38-43 | `str(num) + xm`, renamed for '0 am' and '0 pm', is the label of hour num (am) or 12 + num (pm) |
| SipperViz.HourLabels | sipperviz.py:35-44 | the nested loop builds exactly the 24 labels midnight, 1 am … 11 am, noon, 1 pm … 11 pm |
| SipperViz.HourLabelSamples | sipperviz.py:35-44 | label 0 is midnight, 7 is '7 am', 12 is noon, 19 is '7 pm', 23 is '11 pm' |
| SipperViz.HourLabelsDiffer | sipperviz.py:35-44 | labels of different hours differ |
| SipperViz.ClockLabelsDistinct | sipperviz.py:35-44 | the 24 labels are pairwise distinct |
| SipperViz.Enumerate | sipperviz.py:45 | the dict's keys are exactly the labels, each sent to a position holding it, and to its last such position |
| SipperViz.EnumerateDistinct | sipperviz.py:45 | over distinct labels each label maps to its own position |
| SipperViz.TimesToIntBijection | sipperviz.py:35-45 | `times_to_int` sends the label of hour k to k, only to values 0..23, and no two keys to the same value |
| SipperViz.SipperViz.constructor | sipperviz.py:35-51 | the window starts with `times_to_int` built from the 24 labels and no loaded plots |
| SipperViz.Candidate | sipperviz.py:241-245 | every numbered name extends the base name with a space |
| SipperViz.CandidateInjective | sipperviz.py:241-245 | different attempts try different names |
| SipperViz.TriedSize | sipperviz.py:241-245 | the first i attempts try i different names, and the next attempt a new one |
| SipperViz.SipperViz.CreatePlotName | sipperviz.py:239-246 | the name is not a loaded plot's; it is the base name when that is free, and otherwise the base name numbered with some c ≥ 1 such that every earlier candidate is taken (the least free one) |
| SipperViz.SipperViz.AddPlot | sipperviz.py:222-224 | the plot gets a fresh name and is added last; plot names stay unique and the label table is unchanged |

## Left out

- File loading and the `Sipper` constructor's CSV work are not modelled: reading and
  validating columns, dropping the battery column and duplicate readings, parsing dates,
  and file name attributes. A recording is built from an already loaded, time-ordered
  table.
- The elapsed-time and device columns and the battery voltage are left out, because no
  modelled operation reads them.
- `plotdata.py`, the Matplotlib plotting, the Tk window and its widgets, `shade_darkness`
  and the other plotting functions are not part of this model; they only draw.
- `convert_dt64_to_dt` and the `convert` flag of `hours_between` are not modelled, since
  timestamps are seconds already.
- Sub-second precision is left out: timestamps are whole seconds. `replace(minute=0,
  second=0)` therefore rounds to the hour.
- Calendar dates are left out: the epoch falls on a midnight, and days are 86400 seconds
  with no daylight-saving shifts.
- SipperCore.Sipper.AssignContents: the source appends the copied start row at the end
  of the table and sorts once after the loop; the model inserts it at its sorted place at
  once. Nothing in the loop depends on row positions (the masks, the membership test and
  the `max` are value-based), so the final table is the same, but the intermediate order
  is not modelled.
- NaN counters are not modelled: counters and durations are integers, and `nanmin` and
  `nanmax` never meet a missing value.
- Python default arguments become explicit values. The default `df=pd.DataFrame()` of
  `get_content_values` is the empty table `[]`. The defaults 7 and 19 of `is_day_or_night`
  are the constants `defaultLightsOn` and `defaultLightsOff`, which `night_intervals` uses
  as written. Every other function takes all its arguments explicitly. In particular,
  `get_daynight_count` declares `lights_off=9` although its docstring says 19; the model
  gives it no default, so the discrepancy is only noted here.
- Stitching.ContentValues and Stitching.ContentValuesAsWritten: the code raises when no row carries the substance
  (`pd.concat([])`), rather than returning an explicitly empty result. The model
  follows the code and returns `Failure(NoObjectsToConcatenate)`.
- SipperPlots.GetDaynightCount: the sums are exact reals, not floats, so rounding is not
  modelled. With equal hours the dark phase has length 0, but no cut is ever dark then,
  so the division by zero cannot happen; the model skips the empty phase.
- SipperPlots.Telescoping: states the day/night telescoping identity as quotients
  (each count equals its phase's seconds over the phase length, and the seconds add up
  to the span), not as the product form `day·dayLength + night·nightLength = span`.
- The `ValueError` that `datetime.time(hour=)` raises for a cycle hour outside 0..23 is not
  modelled. Hours of a cycle have the type `Hour` (0..23), so `is_day_or_night`,
  `get_daynight_count` (through `is_day_or_night`) and `night_intervals` (which builds
  `datetime.time(hour=)` itself at sipperplots.py:155-156) are only modelled for valid
  hours, and their error path is left out.
- `is_day_or_night` accepts any period string; the model takes it as a parameter and
  compares it with "night" as the source does.
- The `SipperPlot` record and the plot functions stored with a name are not modelled;
  the loaded plots are represented by their names only (the `OrderedDict`'s keys, in
  insertion order).

## Findings

| source | as written | input that shows it | evidently intended | confidence | as-written member | corrected member |
|---|---|---|---|---|---|---|
| sipper.py:122 | `ne(shift().bfill())` on the left labels raises a change flag on every row whose left label is NaN, since NaN is unequal to everything; and a labelled row right after a NaN one raises none (unless it is the last row), because `bfill` fills the shifted gap with that row's own label, so the unlabelled row joins the labelled run after it and is read from that run's column (left labels [None, W, W] give the flags [true, false, false]) | three rows carrying water on the right tube only, right counts 0, 1, 2: every row becomes its own group and is shifted onto the previous maximum, so the curve is 0, 0, 0 | a new segment only where the left label actually changes, giving 0, 1, 2 | not executed | Stitching.ContentValuesAsWritten (computed by SipperCore.Sipper.GetContentValues), Stitching.SegmentIdsAsWrittenSpec, Stitching.LabelledAfterGapJoins, Stitching.GapThenLeftWaterJoins, Stitching.RightOnlyWaterIsFlat | Stitching.ContentValues, Stitching.RightOnlyWaterRises |
| sipperplots.py:109-114 | the loop tests `loop_time < end_time` before adding an hour, so a switching hour just after `end_time` is still appended as a cut before `end_time` | 06:30 to 06:45 with lights on at 7: the cuts are 06:30, 07:00, 06:45 and the day count is -1/48 | only switching hours strictly inside the span are cuts, giving day 0 and night 1/48 | not executed | SipperPlots.GetDaynightCount, SipperPlots.OvershootAsWritten | SipperPlots.DaynightCount, SipperPlots.OvershootIntended |
| sipperplots.py:160 | `is_day_or_night(i, 'night')` classifies with the defaults 7 and 19, ignoring `lights_on` and `lights_off` | one entry at 19:00 with the cycle 8 to 20: the result is [(19:00, 19:00)], a night interval in daylight | classify with the cycle passed in, giving no interval | not executed | SipperPlots.NightIntervals, SipperPlots.NightIntervalsIgnoreCycle | SipperPlots.NightIntervalsIntended, SipperPlots.NightIntervalsFollowCycle |
