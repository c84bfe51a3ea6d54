/** The data behind the activity heatmap (components/Stats/ActivityHeatmap.tsx):
    the last 105 days with their counts and intensity tiers, laid out in
    Sunday-to-Saturday week columns, plus the month labels above them.
    The clock is not read here: the caller supplies, for each of the 105
    days, its date key, weekday and month. */
module ActivityHeatmap {
  import opened Types
  import opened StatsService

  /** Number of days shown, today included. */
  const WindowDays: nat := 105

  /** What the component reads from a `Date`: the `YYYY-MM-DD` key,
      `getDay()` (0 = Sunday) and `getMonth()`. */
  datatype CalendarDay = CalendarDay(key: string, weekday: nat, month: nat)

  /** One cell of the heatmap. */
  datatype HeatDay = HeatDay(date: string, count: nat, intensity: nat, weekday: nat, month: nat)

  /** A column header: the month of a week's first day and that week's index. */
  datatype MonthLabel = MonthLabel(month: nat, index: nat)

  type Week = seq<Option<HeatDay>>

  /** The colour tier of a day's count. */
  function Intensity(count: nat): (r: nat)
    ensures r <= 4
    ensures r == 0 <==> count == 0
    ensures r == 1 <==> 1 <= count <= 5
    ensures r == 2 <==> 6 <= count <= 15
    ensures r == 3 <==> 16 <= count <= 30
    ensures r == 4 <==> count > 30
  {
    if count > 30 then 4
    else if count > 15 then 3
    else if count > 5 then 2
    else if count > 0 then 1
    else 0
  }

  /** More activity never gives a paler cell. */
  lemma IntensityMonotone(a: nat, b: nat)
    requires a <= b
    ensures Intensity(a) <= Intensity(b)
  {
  }

  /** The cell for a calendar day: its count from the map, 0 when absent. */
  function DayOf(c: CalendarDay, activity: map<string, nat>): (d: HeatDay)
    ensures d.date == c.key && d.weekday == c.weekday && d.month == c.month
    ensures d.count == CountOn(activity, c.key) && d.intensity == Intensity(d.count)
  {
    var count := CountOn(activity, c.key);
    HeatDay(c.key, count, Intensity(count), c.weekday, c.month)
  }

  /** `back[i]` is the day `i` days before today: weekdays step back by one. */
  predicate CalendarWindow(back: seq<CalendarDay>) {
    && |back| == WindowDays
    && (forall i :: 0 <= i < |back| ==> back[i].weekday < 7)
    && (forall i :: 0 <= i < |back| - 1 ==> back[i].weekday == (back[i + 1].weekday + 1) % 7)
  }

  /** Days in order, each one weekday after the previous, Saturday (6)
      followed by Sunday (0). */
  predicate ConsecutiveDays(days: seq<HeatDay>) {
    && (forall j :: 0 <= j < |days| ==> days[j].weekday < 7)
    && (forall j :: 0 <= j < |days| - 1 ==> days[j + 1].weekday == (days[j].weekday + 1) % 7)
  }

  /** The `days` loop: oldest first, today last. */
  method BuildDays(back: seq<CalendarDay>, activity: map<string, nat>) returns (days: seq<HeatDay>)
    requires |back| == WindowDays
    ensures |days| == WindowDays
    ensures forall j :: 0 <= j < WindowDays ==> days[j] == DayOf(back[WindowDays - 1 - j], activity)
    ensures days[WindowDays - 1] == DayOf(back[0], activity)
  {
    days := [];
    for i := WindowDays downto 0
      invariant |days| == WindowDays - i
      invariant forall j :: 0 <= j < |days| ==> days[j] == DayOf(back[WindowDays - 1 - j], activity)
    {
      days := days + [DayOf(back[i], activity)];
    }
  }

  lemma BuildDaysConsecutive(back: seq<CalendarDay>, activity: map<string, nat>, days: seq<HeatDay>)
    requires CalendarWindow(back)
    requires |days| == WindowDays
    requires forall j :: 0 <= j < WindowDays ==> days[j] == DayOf(back[WindowDays - 1 - j], activity)
    ensures ConsecutiveDays(days)
  {
    forall j | 0 <= j < |days| - 1
      ensures days[j + 1].weekday == (days[j].weekday + 1) % 7
    {
      assert back[WindowDays - 2 - j].weekday == (back[WindowDays - 1 - j].weekday + 1) % 7;
    }
  }

  /** The days a week holds, left to right. */
  function Cells(week: Week): (ds: seq<HeatDay>)
    ensures |ds| <= |week|
  {
    if week == [] then []
    else (if week[0].Some? then [week[0].value] else []) + Cells(week[1..])
  }

  lemma {:induction false} CellsAppend(a: Week, b: Week)
    ensures Cells(a + b) == Cells(a) + Cells(b)
  {
    if a == [] {
      assert a + b == b;
    } else {
      var head: seq<HeatDay> := if a[0].Some? then [a[0].value] else [];
      assert (a + b)[0] == a[0];
      assert (a + b)[1..] == a[1..] + b;
      CellsAppend(a[1..], b);
      calc {
        Cells(a + b);
        head + Cells(a[1..] + b);
        head + (Cells(a[1..]) + Cells(b));
        (head + Cells(a[1..])) + Cells(b);
        Cells(a) + Cells(b);
      }
    }
  }

  function Blank(n: nat): (w: Week)
    ensures |w| == n && forall s :: 0 <= s < n ==> w[s].None?
  {
    seq(n, _ => None)
  }

  lemma {:induction false} CellsBlank(n: nat)
    ensures Cells(Blank(n)) == []
  {
    if n > 0 {
      assert Blank(n)[1..] == Blank(n - 1);
      CellsBlank(n - 1);
    }
  }

  function Filled(ds: seq<HeatDay>): (w: Week)
    ensures |w| == |ds| && forall j :: 0 <= j < |ds| ==> w[j] == Some(ds[j])
  {
    seq(|ds|, j requires 0 <= j < |ds| => Some(ds[j]))
  }

  lemma {:induction false} CellsFilled(ds: seq<HeatDay>)
    ensures Cells(Filled(ds)) == ds
  {
    if ds != [] {
      assert Filled(ds)[1..] == Filled(ds[1..]);
      CellsFilled(ds[1..]);
    }
  }

  /** A run of days inside one week: consecutive weekdays, none past Saturday. */
  predicate InOneWeek(ds: seq<HeatDay>) {
    ds == [] || (ds[0].weekday + |ds| <= 7 && forall j :: 0 <= j < |ds| ==> ds[j].weekday == ds[0].weekday + j)
  }

  /** The week array holding such a run: each day at its weekday, `null` elsewhere. */
  function Row(ds: seq<HeatDay>): (w: Week)
    requires InOneWeek(ds)
    ensures |w| == 7
    ensures forall s :: 0 <= s < 7 && w[s].Some? ==> w[s].value.weekday == s
    ensures forall j :: 0 <= j < |ds| ==> w[ds[j].weekday] == Some(ds[j])
  {
    seq(7, s requires 0 <= s < 7 =>
      if ds != [] && ds[0].weekday <= s < ds[0].weekday + |ds| then Some(ds[s - ds[0].weekday]) else None)
  }

  /** Reading a week's cells back gives its run of days. */
  lemma RowCells(ds: seq<HeatDay>)
    requires InOneWeek(ds)
    ensures Cells(Row(ds)) == ds
  {
    if ds == [] {
      assert Row(ds) == Blank(7);
      CellsBlank(7);
    } else {
      var w0 := ds[0].weekday;
      assert Row(ds) == Blank(w0) + Filled(ds) + Blank(7 - w0 - |ds|);
      CellsAppend(Blank(w0) + Filled(ds), Blank(7 - w0 - |ds|));
      CellsAppend(Blank(w0), Filled(ds));
      CellsBlank(w0);
      CellsFilled(ds);
      CellsBlank(7 - w0 - |ds|);
    }
  }

  /** `currentWeek[dayIndex] = day` on the next day of the run. */
  lemma RowExtend(ds: seq<HeatDay>, d: HeatDay)
    requires InOneWeek(ds + [d])
    ensures InOneWeek(ds) && d.weekday < 7
    ensures Row(ds + [d]) == Row(ds)[d.weekday := Some(d)]
  {
    var e := ds + [d];
    assert forall j :: 0 <= j < |ds| ==> ds[j] == e[j];
    assert d == e[|ds|];
    assert InOneWeek(ds);
    assert |Row(e)| == |Row(ds)[d.weekday := Some(d)]|;
    forall s | 0 <= s < 7
      ensures Row(e)[s] == Row(ds)[d.weekday := Some(d)][s]
    {
      if s == d.weekday {
        assert e[|ds|] == d;
      }
    }
  }

  /** All days of all weeks, week by week. */
  function AllCells(weeks: seq<Week>): (ds: seq<HeatDay>) {
    if weeks == [] then [] else AllCells(weeks[..|weeks| - 1]) + Cells(weeks[|weeks| - 1])
  }

  /** A column closed by its Saturday. */
  predicate EndsOnSaturday(w: Week) {
    |w| == 7 && w[6].Some?
  }

  /** A finished column: seven slots, each day at its weekday, at least one day. */
  predicate WellPlaced(w: Week) {
    && |w| == 7
    && (forall s :: 0 <= s < 7 && w[s].Some? ==> w[s].value.weekday == s)
    && Cells(w) != []
  }

  /** `currentWeek.some(d => d !== null)` */
  method AnyFilled(week: array<Option<HeatDay>>) returns (found: bool)
    ensures found <==> exists s :: 0 <= s < week.Length && week[s].Some?
  {
    found := false;
    for s := 0 to week.Length
      invariant found <==> exists t :: 0 <= t < s && week[t].Some?
    {
      if week[s].Some? {
        found := true;
      }
    }
  }

  /** Columns closed on a Saturday, each well placed. */
  predicate AllClosed(weeks: seq<Week>) {
    forall i :: 0 <= i < |weeks| ==> WellPlaced(weeks[i]) && EndsOnSaturday(weeks[i])
  }

  lemma AllClosedPush(weeks: seq<Week>, w: Week)
    requires AllClosed(weeks) && WellPlaced(w)
    ensures forall i :: 0 <= i < |weeks + [w]| ==> WellPlaced((weeks + [w])[i])
    ensures forall i :: 0 <= i < |weeks + [w]| - 1 ==> EndsOnSaturday((weeks + [w])[i])
    ensures EndsOnSaturday(w) ==> AllClosed(weeks + [w])
  {
  }

  /** The open run of the current week grows by the next day. */
  lemma RunGrows(days: seq<HeatDay>, start: nat, k: nat)
    requires ConsecutiveDays(days) && start <= k < |days|
    requires InOneWeek(days[start..k]) && (start < k ==> days[k - 1].weekday != 6)
    ensures InOneWeek(days[start..k + 1])
    ensures days[k].weekday < 7
    ensures Row(days[start..k + 1]) == Row(days[start..k])[days[k].weekday := Some(days[k])]
  {
    var run := days[start..k + 1];
    assert run == days[start..k] + [days[k]];
    if start < k {
      assert days[k].weekday == days[k - 1].weekday + 1;
      assert forall j :: 0 <= j < |run| - 1 ==> run[j] == days[start..k][j];
    }
    RowExtend(days[start..k], days[k]);
  }

  /** Closing a week, or keeping the trailing one, adds its run of days
      after the days already placed. */
  lemma PushWeek(weeks: seq<Week>, days: seq<HeatDay>, start: nat, end: nat)
    requires start < end <= |days|
    requires InOneWeek(days[start..end]) && AllCells(weeks) == days[..start]
    ensures AllCells(weeks + [Row(days[start..end])]) == days[..end]
    ensures WellPlaced(Row(days[start..end]))
  {
    RowCells(days[start..end]);
    assert (weeks + [Row(days[start..end])])[..|weeks|] == weeks;
    assert days[..end] == days[..start] + days[start..end];
  }

  /** The state of the grid loop after the days before `k`: the closed
      columns hold the days before `start`, `current` holds the open run
      `days[start..k]`, which has no Saturday. */
  ghost predicate GridState(days: seq<HeatDay>, k: nat, weeks: seq<Week>, current: seq<Option<HeatDay>>, start: nat) {
    && start <= k <= |days|
    && InOneWeek(days[start..k])
    && (start < k ==> days[k - 1].weekday != 6)
    && current == Row(days[start..k])
    && AllClosed(weeks)
    && AllCells(weeks) == days[..start]
  }

  /** One visit of the `forEach`: the day goes to its weekday slot, and on
      a Saturday the column is pushed and a blank one started. */
  method PlaceDay(days: seq<HeatDay>, k: nat, weeks: seq<Week>, current: array<Option<HeatDay>>, ghost start: nat)
    returns (weeks': seq<Week>, current': array<Option<HeatDay>>, ghost start': nat)
    requires ConsecutiveDays(days) && k < |days| && current.Length == 7
    requires GridState(days, k, weeks, current[..], start)
    modifies current
    ensures current' == current || fresh(current')
    ensures current'.Length == 7
    ensures GridState(days, k + 1, weeks', current'[..], start')
  {
    var day := days[k];
    RunGrows(days, start, k);
    current[day.weekday] := Some(day);
    assert current[..] == Row(days[start..k + 1]);
    if day.weekday == 6 {
      PushWeek(weeks, days, start, k + 1);
      var closed := current[..];
      assert EndsOnSaturday(closed) by {
        assert closed[6] == Some(day);
      }
      AllClosedPush(weeks, closed);
      weeks' := weeks + [closed];
      current' := new Option<HeatDay>[7](_ => None);
      start' := k + 1;
      assert current'[..] == Row([]);
    } else {
      weeks', current', start' := weeks, current, start;
    }
  }

  /** The grid's promises: columns well placed, all but the last closed
      on a Saturday, the days read back in order. */
  predicate GridDone(days: seq<HeatDay>, weeks: seq<Week>) {
    && (forall i :: 0 <= i < |weeks| ==> WellPlaced(weeks[i]))
    && (forall i :: 0 <= i < |weeks| - 1 ==> EndsOnSaturday(weeks[i]))
    && AllCells(weeks) == days
  }

  /** After the last day the open column holds a day exactly when some day
      follows the last Saturday, and keeping it just then finishes the grid. */
  lemma FinishGrid(days: seq<HeatDay>, weeks: seq<Week>, current: Week, start: nat)
    requires GridState(days, |days|, weeks, current, start)
    ensures (exists s :: 0 <= s < |current| && current[s].Some?) <==> start < |days|
    ensures start < |days| ==> GridDone(days, weeks + [current])
    ensures start == |days| ==> GridDone(days, weeks)
  {
    if start < |days| {
      assert current[days[start].weekday].Some?;
      PushWeek(weeks, days, start, |days|);
      AllClosedPush(weeks, current);
    } else {
      assert days[..start] == days;
    }
  }

  /** The grid loop: every day lands in exactly one column, in order, at
      its weekday; a column is closed right after its Saturday, so every
      column but the last ends with a Saturday; the trailing partial
      column is kept only when it holds a day. */
  method GroupIntoWeeks(days: seq<HeatDay>) returns (weeks: seq<Week>)
    requires ConsecutiveDays(days)
    ensures GridDone(days, weeks)
  {
    weeks := [];
    var current := new Option<HeatDay>[7](_ => None);
    ghost var start: nat := 0;
    assert current[..] == Row([]);
    for k := 0 to |days|
      invariant fresh(current) && current.Length == 7
      invariant GridState(days, k, weeks, current[..], start)
    {
      weeks, current, start := PlaceDay(days, k, weeks, current, start);
    }
    FinishGrid(days, weeks, current[..], start);
    var any := AnyFilled(current);
    if any {
      weeks := weeks + [current[..]];
    }
  }

  /** `week.find(d => d !== null)` */
  function FirstDay(week: Week): (r: Option<HeatDay>)
    ensures r.None? <==> forall s :: 0 <= s < |week| ==> week[s].None?
    ensures r.Some? ==> exists s :: 0 <= s < |week| && week[s] == r && forall t :: 0 <= t < s ==> week[t].None?
  {
    if week == [] then None
    else if week[0].Some? then week[0]
    else
      var r := FirstDay(week[1..]);
      assert forall s :: 1 <= s < |week| ==> week[s] == week[1..][s - 1];
      r
  }

  /** `lastMonth` when week `i` is visited: the month of the last earlier
      week that holds a day, -1 when there is none. */
  function MonthBefore(weeks: seq<Week>, i: nat): int
    requires i <= |weeks|
  {
    if i == 0 then -1
    else if FirstDay(weeks[i - 1]).Some? then FirstDay(weeks[i - 1]).value.month
    else MonthBefore(weeks, i - 1)
  }

  /** Whether week `i` gets a label. */
  predicate StartsMonth(weeks: seq<Week>, i: nat)
    requires i < |weeks|
  {
    FirstDay(weeks[i]).Some? && FirstDay(weeks[i]).value.month != MonthBefore(weeks, i)
  }

  /** The labels emitted while visiting the first `n` weeks. */
  function LabelsOf(weeks: seq<Week>, n: nat): seq<MonthLabel>
    requires n <= |weeks|
  {
    if n == 0 then []
    else
      var emitted := if StartsMonth(weeks, n - 1) then [MonthLabel(FirstDay(weeks[n - 1]).value.month, n - 1)] else [];
      LabelsOf(weeks, n - 1) + emitted
  }

  predicate Labelled(labels: seq<MonthLabel>, i: nat) {
    exists l :: 0 <= l < |labels| && labels[l].index == i
  }

  predicate IncreasingBelow(labels: seq<MonthLabel>, n: nat) {
    && (forall l :: 0 <= l < |labels| ==> labels[l].index < n)
    && (forall l, m :: 0 <= l < m < |labels| ==> labels[l].index < labels[m].index)
  }

  /** Labels point at earlier weeks, in strictly increasing order. */
  lemma {:induction false} LabelsIncreasing(weeks: seq<Week>, n: nat)
    requires n <= |weeks|
    ensures IncreasingBelow(LabelsOf(weeks, n), n)
  {
    if n > 0 {
      LabelsIncreasing(weeks, n - 1);
    }
  }

  /** Each label carries the month of its week's first day. */
  lemma {:induction false} LabelsMonths(weeks: seq<Week>, n: nat)
    requires n <= |weeks|
    ensures forall l :: 0 <= l < |LabelsOf(weeks, n)| ==>
      && LabelsOf(weeks, n)[l].index < |weeks|
      && FirstDay(weeks[LabelsOf(weeks, n)[l].index]).Some?
      && FirstDay(weeks[LabelsOf(weeks, n)[l].index]).value.month == LabelsOf(weeks, n)[l].month
  {
    if n > 0 {
      LabelsIncreasing(weeks, n);
      LabelsMonths(weeks, n - 1);
    }
  }

  /** `lastMonth` is always the month of the latest label, -1 before the first. */
  lemma {:induction false} LabelsLastMonth(weeks: seq<Week>, n: nat)
    requires n <= |weeks|
    ensures MonthBefore(weeks, n) == if LabelsOf(weeks, n) == [] then -1 else LabelsOf(weeks, n)[|LabelsOf(weeks, n)| - 1].month
  {
    if n > 0 {
      LabelsLastMonth(weeks, n - 1);
    }
  }

  /** A week is labelled exactly when it starts a new month. */
  lemma {:induction false} LabelsExact(weeks: seq<Week>, n: nat)
    requires n <= |weeks|
    ensures forall j :: 0 <= j < n ==> (Labelled(LabelsOf(weeks, n), j) <==> StartsMonth(weeks, j))
  {
    if n > 0 {
      var before := LabelsOf(weeks, n - 1);
      var after := LabelsOf(weeks, n);
      LabelsExact(weeks, n - 1);
      LabelsIncreasing(weeks, n - 1);
      assert !Labelled(before, n - 1);
      assert forall l :: 0 <= l < |before| ==> after[l] == before[l];
      if StartsMonth(weeks, n - 1) {
        assert after[|before|].index == n - 1;
      }
    }
  }

  /** Neighbouring labels name different months. */
  lemma {:induction false} LabelsAlternate(weeks: seq<Week>, n: nat)
    requires n <= |weeks|
    ensures forall l :: 0 <= l < |LabelsOf(weeks, n)| - 1 ==> LabelsOf(weeks, n)[l].month != LabelsOf(weeks, n)[l + 1].month
  {
    if n > 0 {
      LabelsAlternate(weeks, n - 1);
      LabelsLastMonth(weeks, n - 1);
    }
  }

  /** The month-label loop: a week is labelled exactly when its first day
      is in another month than the last labelled one; labels are in
      strictly increasing week order, carry the month of their week's first
      day, and neighbouring labels name different months. */
  method MonthLabels(weeks: seq<Week>) returns (labels: seq<MonthLabel>)
    ensures labels == LabelsOf(weeks, |weeks|)
    ensures IncreasingBelow(labels, |weeks|)
    ensures forall l :: 0 <= l < |labels| ==>
      FirstDay(weeks[labels[l].index]).Some? && FirstDay(weeks[labels[l].index]).value.month == labels[l].month
    ensures forall i :: 0 <= i < |weeks| ==> (Labelled(labels, i) <==> StartsMonth(weeks, i))
    ensures forall l :: 0 <= l < |labels| - 1 ==> labels[l].month != labels[l + 1].month
  {
    labels := [];
    var lastMonth: int := -1;
    for i := 0 to |weeks|
      invariant labels == LabelsOf(weeks, i)
      invariant lastMonth == MonthBefore(weeks, i)
    {
      LabelsLastMonth(weeks, i);
      var firstDay := FirstDay(weeks[i]);
      if firstDay.Some? {
        var m := firstDay.value.month;
        if m != lastMonth {
          labels := labels + [MonthLabel(m, i)];
          lastMonth := m;
        }
      }
    }
    LabelsIncreasing(weeks, |weeks|);
    LabelsMonths(weeks, |weeks|);
    LabelsExact(weeks, |weeks|);
    LabelsAlternate(weeks, |weeks|);
  }

  /** A non-empty first week is always labelled. */
  lemma FirstWeekLabelled(weeks: seq<Week>)
    requires |weeks| > 0 && FirstDay(weeks[0]).Some?
    ensures StartsMonth(weeks, 0)
  {
  }

  /** The whole `useMemo` body: the day window, the grid and the labels. */
  method Heatmap(back: seq<CalendarDay>, activity: map<string, nat>) returns (weeks: seq<Week>, labels: seq<MonthLabel>)
    requires CalendarWindow(back)
    ensures forall i :: 0 <= i < |weeks| ==> WellPlaced(weeks[i])
    ensures forall i :: 0 <= i < |weeks| - 1 ==> EndsOnSaturday(weeks[i])
    ensures |AllCells(weeks)| == WindowDays
    ensures forall j :: 0 <= j < WindowDays ==> AllCells(weeks)[j] == DayOf(back[WindowDays - 1 - j], activity)
    ensures forall i :: 0 <= i < |weeks| ==> (Labelled(labels, i) <==> StartsMonth(weeks, i))
    ensures IncreasingBelow(labels, |weeks|)
    ensures forall l :: 0 <= l < |labels| ==>
      FirstDay(weeks[labels[l].index]).Some? && FirstDay(weeks[labels[l].index]).value.month == labels[l].month
    ensures forall l :: 0 <= l < |labels| - 1 ==> labels[l].month != labels[l + 1].month
  {
    var days := BuildDays(back, activity);
    BuildDaysConsecutive(back, activity, days);
    weeks := GroupIntoWeeks(days);
    labels := MonthLabels(weeks);
  }
}
