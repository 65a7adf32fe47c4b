// frontend/src/components/ContributionCalendar.jsx: the day map built from
// the server's calendar, the start date of each view, the year, month and
// week grids, the month labels above the year grid, and the two colour
// helpers. Dates are day numbers (module CivilCalendar); a day's
// `toISOString` key is its day number, and the ambient clock is a parameter.

module ContributionCalendar {
  import opened Common
  import opened CivilCalendar
  import StreakRoutes

  const Months: seq<string> := ["Jan", "Feb", "Mar", "Apr", "May", "Jun", "Jul", "Aug", "Sep", "Oct", "Nov", "Dec"]

  /** One day of the map and of the grids: `date`, the counters, the colour
      level and whether the day has posts. */
  datatype DayCell = DayCell(date: int, posts: nat, likes: nat, comments: nat, activity: nat, level: nat, hasPosts: bool)

  /** An element of the server's `calendarData`; `None` is a missing field. */
  datatype CalendarEntry = CalendarEntry(
    date: int,
    posts: Option<nat>,
    likes: Option<nat>,
    comments: Option<nat>,
    activity: Option<nat>,
    level: Option<nat>)

  /** `x || 0` on a count. */
  function Count(x: Option<nat>): nat {
    if x.None? then 0 else x.value
  }

  /** The record every day starts with, and the grids' fallback. */
  function ZeroCell(date: int): DayCell {
    DayCell(date, 0, 0, 0, 0, 0, false)
  }

  /** `{ ...existing, posts, likes, comments, activity, level, hasPosts }`. */
  function Filled(existing: DayCell, e: CalendarEntry): DayCell {
    var posts := Count(e.posts);
    DayCell(existing.date, posts, Count(e.likes), Count(e.comments), Count(e.activity), Count(e.level), posts > 0)
  }

  /** A cell shows posts exactly when it has some. */
  predicate Consistent(c: DayCell) {
    c.hasPosts <==> c.posts > 0
  }

  /** An entry fills every counter, a missing one with 0, and marks the day
      as having posts exactly when its post count is positive; only the date
      of the existing record survives. */
  lemma FilledMeaning(existing: DayCell, e: CalendarEntry)
    ensures Filled(existing, e).date == existing.date
    ensures e.posts.None? ==> Filled(existing, e).posts == 0
    ensures e.likes.None? ==> Filled(existing, e).likes == 0
    ensures e.comments.None? ==> Filled(existing, e).comments == 0
    ensures e.activity.None? ==> Filled(existing, e).activity == 0
    ensures e.level.None? ==> Filled(existing, e).level == 0
    ensures Consistent(Filled(existing, e))
    ensures forall other: DayCell :: other.date == existing.date ==> Filled(other, e) == Filled(existing, e)
  {
  }

  // ---------------------------------------------------------------------------
  // The day map

  /** The last entry of `data` for `day`, if any. */
  function LastFor(data: seq<CalendarEntry>, day: int): Option<CalendarEntry> {
    if data == [] then None
    else if data[|data| - 1].date == day then Some(data[|data| - 1])
    else LastFor(data[..|data| - 1], day)
  }

  /** `LastFor` finds the entry for `day` that no later entry for `day`
      follows, and finds nothing when no entry is for `day`. */
  lemma {:induction false} LastForMeaning(data: seq<CalendarEntry>, day: int)
    ensures LastFor(data, day).None? <==> forall i :: 0 <= i < |data| ==> data[i].date != day
    ensures LastFor(data, day).Some? ==>
              exists i :: 0 <= i < |data| && data[i] == LastFor(data, day).value && data[i].date == day
                          && forall j :: i < j < |data| ==> data[j].date != day
  {
    if data != [] {
      var n := |data| - 1;
      LastForMeaning(data[..n], day);
      if data[n].date != day {
        assert forall i :: 0 <= i < n ==> data[..n][i] == data[i];
        if LastFor(data, day).Some? {
          var i :| 0 <= i < n && data[..n][i] == LastFor(data, day).value && data[..n][i].date == day
                   && forall j :: i < j < n ==> data[..n][j].date != day;
          assert data[i] == LastFor(data, day).value && forall j :: i < j < |data| ==> data[j].date != day;
        }
      }
    }
  }

  /** What the day map holds for `day` once `data` is applied. */
  function DayFor(day: int, data: seq<CalendarEntry>): DayCell {
    var last := LastFor(data, day);
    if last.None? then ZeroCell(day) else Filled(ZeroCell(day), last.value)
  }

  /** `createYearDayMap`: 366 zero days from January 1st of `currentYear`,
      then every entry of `calendarData` whose date is one of them, a later
      entry for the same day replacing an earlier one. Entries for other days
      are dropped; a missing or non-array `calendarData` changes nothing. */
  method CreateYearDayMap(currentYear: int, calendarData: Option<seq<CalendarEntry>>) returns (yearMap: map<int, DayCell>)
    ensures var first := DayNumber(currentYear, 0, 1);
            forall day :: day in yearMap <==> first <= day < first + 366
    ensures var data := if calendarData.None? then [] else calendarData.value;
            forall day :: day in yearMap ==> yearMap[day] == DayFor(day, data)
  {
    var startDate := DayNumber(currentYear, 0, 1);
    var days: map<int, DayCell> := map[];
    var i := 0;
    while i < 366
      invariant 0 <= i <= 366
      invariant forall day :: day in days <==> startDate <= day < startDate + i
      invariant forall day :: day in days ==> days[day] == ZeroCell(day)
    {
      var date := startDate + i;
      days := days[date := ZeroCell(date)];
      i := i + 1;
    }
    var data := if calendarData.None? then [] else calendarData.value;
    var j := 0;
    while j < |data|
      invariant 0 <= j <= |data|
      invariant forall day :: day in days <==> startDate <= day < startDate + 366
      invariant forall day :: day in days ==> days[day] == DayFor(day, data[..j])
    {
      var entry := data[j];
      assert data[..j + 1][..j] == data[..j];
      if entry.date in days {
        var existing := days[entry.date];
        days := days[entry.date := Filled(existing, entry)];
      }
      j := j + 1;
    }
    assert data[..|data|] == data;
    yearMap := days;
  }

  /** Every day of the map shows posts exactly when it has some. */
  lemma DayForConsistent(day: int, data: seq<CalendarEntry>)
    ensures DayFor(day, data).date == day
    ensures Consistent(DayFor(day, data))
  {
  }

  /** The 366 days cover the whole of `currentYear`; in a leap year the last
      of them is December 31st, in a common year January 1st of the next
      year. */
  lemma YearMapSpan(currentYear: int)
    ensures var first := DayNumber(currentYear, 0, 1);
            first == YearStart(currentYear) && YearStart(currentYear + 1) <= first + 366
    ensures CivilOf(DayNumber(currentYear, 0, 1) + 365)
            == if IsLeap(currentYear) then Civil(currentYear, 11, 31) else Civil(currentYear + 1, 0, 1)
  {
    NextYearStart(currentYear);
    if IsLeap(currentYear) {
      LeapYearEnd(currentYear);
    } else {
      CivilOfDayNumber(Civil(currentYear + 1, 0, 1));
    }
  }

  lemma LeapYearEnd(y: int)
    requires IsLeap(y)
    ensures CivilOf(YearStart(y) + 365) == Civil(y, 11, 31)
  {
    NextYearStart(y);
    PreviousMonth(y + 1, 0, 0);
    assert YearStart(y) + 365 == DayNumber(y, 11, 31);
    CivilOfDayNumber(Civil(y, 11, 31));
  }

  // ---------------------------------------------------------------------------
  // Start dates

  /** `getStartDate(view, today)`; `None` is `undefined`. */
  function GetStartDate(view: string, today: int): (start: Option<int>)
    ensures view == "year" ==> start.Some? && Weekday(start.value) == 0 && today - 370 <= start.value <= today - 364
    ensures view == "week" ==> start.Some? && Weekday(start.value) == 0 && today - 6 <= start.value <= today
    ensures view == "month" ==> start.Some? && CivilOf(start.value).day == 1 && today - 30 <= start.value <= today
    ensures view == "month" ==> CivilOf(start.value) == Civil(CivilOf(today).year, CivilOf(today).month, 1)
    ensures view != "year" && view != "month" && view != "week" ==> start.None?
  {
    if view == "year" then Some(today - (Weekday(today) + 364))
    else if view == "month" then
      var c := CivilOf(today);
      CivilOfDayNumber(Civil(c.year, c.month, 1));
      Some(DayNumber(c.year, c.month, 1))
    else if view == "week" then Some(today - Weekday(today))
    else None
  }

  /** The week view starts on the Sunday of `today`'s week, the year view 52
      weeks before it, and the month view on the first of `today`'s month. */
  lemma StartDatesRelate(today: int)
    ensures GetStartDate("year", today).value == GetStartDate("week", today).value - 364
    ensures var c := CivilOf(today);
            GetStartDate("month", today).value == DayNumber(c.year, c.month, 1)
  {
  }

  // ---------------------------------------------------------------------------
  // Grids

  /** A grid cell; `inMonth` is set by the month view only. */
  datatype GridCell = GridCell(cell: DayCell, inMonth: Option<bool>)

  /** The fields the grids copy for `day` from the map's record, or from a
      zero record when the map has none. */
  function CellAt(yearMap: map<int, DayCell>, day: int): DayCell {
    var d := if day in yearMap then yearMap[day] else ZeroCell(day);
    DayCell(day, d.posts, d.likes, d.comments, d.activity, d.level, d.hasPosts)
  }

  /** A consistent map gives consistent cells, and a cell for a day of the
      map carries that day's record. */
  lemma CellAtMeaning(yearMap: map<int, DayCell>, day: int)
    requires forall k :: k in yearMap ==> yearMap[k].date == k && Consistent(yearMap[k])
    ensures Consistent(CellAt(yearMap, day))
    ensures day in yearMap ==> CellAt(yearMap, day) == yearMap[day]
    ensures day !in yearMap ==> CellAt(yearMap, day) == ZeroCell(day)
  {
  }

  /** The year view: 52 weeks of 7 consecutive days from `startDate`. */
  method BuildYearGrid(yearMap: map<int, DayCell>, startDate: int) returns (weeks: seq<seq<GridCell>>)
    ensures |weeks| == 52
    ensures forall w :: 0 <= w < 52 ==> |weeks[w]| == 7
    ensures forall w, d :: 0 <= w < 52 && 0 <= d < 7 ==>
              weeks[w][d] == GridCell(CellAt(yearMap, startDate + 7 * w + d), None)
  {
    weeks := [];
    var w := 0;
    while w < 52
      invariant 0 <= w <= 52 && |weeks| == w
      invariant forall v :: 0 <= v < w ==> |weeks[v]| == 7
      invariant forall v, d :: 0 <= v < w && 0 <= d < 7 ==>
                  weeks[v][d] == GridCell(CellAt(yearMap, startDate + 7 * v + d), None)
    {
      var week := WeekFrom(yearMap, startDate + w * 7);
      weeks := weeks + [week];
      w := w + 1;
    }
  }

  /** The inner loop of the year and week views: 7 consecutive days from
      `first`. */
  method WeekFrom(yearMap: map<int, DayCell>, first: int) returns (week: seq<GridCell>)
    ensures |week| == 7
    ensures forall d :: 0 <= d < 7 ==> week[d] == GridCell(CellAt(yearMap, first + d), None)
  {
    week := [];
    var d := 0;
    while d < 7
      invariant 0 <= d <= 7 && |week| == d
      invariant forall e :: 0 <= e < d ==> week[e] == GridCell(CellAt(yearMap, first + e), None)
    {
      week := week + [GridCell(CellAt(yearMap, first + d), None)];
      d := d + 1;
    }
  }

  /** The year grid starts on a Sunday 52 weeks before the Sunday of the
      selected date's week and ends on the Saturday just before that week:
      the selected date's own week is never shown. */
  lemma YearGridEnds(selected: int)
    ensures var start := GetStartDate("year", selected).value;
            var weekStart := GetStartDate("week", selected).value;
            var last := start + 7 * 51 + 6;
            Weekday(start) == 0 && Weekday(last) == 6
            && last == weekStart - 1 && last < selected
  {
  }

  /** The week view: the 7 days from `startDate`. */
  method BuildWeekGrid(yearMap: map<int, DayCell>, startDate: int) returns (weeks: seq<seq<GridCell>>)
    ensures |weeks| == 1 && |weeks[0]| == 7
    ensures forall d :: 0 <= d < 7 ==> weeks[0][d] == GridCell(CellAt(yearMap, startDate + d), None)
  {
    var week := WeekFrom(yearMap, startDate);
    weeks := [week];
  }

  /** The month view's cell for `new Date(year, month, k)`; `inMonth` says
      whether that day falls in `month`. */
  function MonthCell(yearMap: map<int, DayCell>, year: int, month: int, k: int): GridCell {
    var date := DateValue(year, month, k);
    GridCell(CellAt(yearMap, date), Some(CivilOf(date).month == month))
  }

  /** The month view's row of 7 days from day `k` of the month. */
  function MonthRow(yearMap: map<int, DayCell>, year: int, month: int, k: int): (row: seq<GridCell>)
    ensures |row| == 7
  {
    seq(7, d => MonthCell(yearMap, year, month, k + d))
  }

  /** The month view of `selectedDate`'s month: 6 weeks of 7 days, counted
      from day `1 - firstDayOfWeek` of the month. */
  method BuildMonthGrid(yearMap: map<int, DayCell>, selectedDate: int) returns (weeks: seq<seq<GridCell>>)
    ensures var c := CivilOf(selectedDate);
            var fdw := Weekday(DateValue(c.year, c.month, 1));
            |weeks| == 6
            && forall w :: 0 <= w < 6 ==> weeks[w] == MonthRow(yearMap, c.year, c.month, 1 - fdw + 7 * w)
  {
    var selected := CivilOf(selectedDate);
    var year := selected.year;
    var month := selected.month;
    var firstDayOfMonth := DateValue(year, month, 1);
    var firstDayOfWeek: int := Weekday(firstDayOfMonth);
    var dayCounter := 1 - firstDayOfWeek;
    weeks := [];
    var w := 0;
    while w < 6
      invariant 0 <= w <= 6 && |weeks| == w
      invariant dayCounter == 1 - firstDayOfWeek + 7 * w
      invariant forall v :: 0 <= v < w ==> weeks[v] == MonthRow(yearMap, year, month, 1 - firstDayOfWeek + 7 * v)
    {
      var week := MonthWeek(yearMap, year, month, dayCounter);
      weeks := weeks + [week];
      dayCounter := dayCounter + 7;
      w := w + 1;
    }
  }

  /** The inner loop of the month view: the 7 days from day `counter` of the
      month. */
  method MonthWeek(yearMap: map<int, DayCell>, year: int, month: int, counter: int) returns (week: seq<GridCell>)
    ensures week == MonthRow(yearMap, year, month, counter)
  {
    week := [];
    var dayCounter := counter;
    var d := 0;
    while d < 7
      invariant 0 <= d <= 7 && |week| == d && dayCounter == counter + d
      invariant forall e :: 0 <= e < d ==> week[e] == MonthCell(yearMap, year, month, counter + e)
    {
      var date := DateValue(year, month, dayCounter);
      week := week + [GridCell(CellAt(yearMap, date), Some(CivilOf(date).month == month))];
      dayCounter := dayCounter + 1;
      d := d + 1;
    }
  }

  /** Cell `i` of the month grid (counted row by row) shows day
      `i + 1 - firstDayOfWeek` of the month: the first of the month sits at
      index `firstDayOfWeek`, and a cell is in the month exactly when its day
      is 1 .. the month's length. The month is shown whole, led by the end of
      the previous month and followed by the start of the next. */
  lemma MonthGridMeaning(yearMap: map<int, DayCell>, year: int, month: int, i: int)
    requires 0 <= month < 12 && 0 <= i < 42
    ensures var fdw := Weekday(DateValue(year, month, 1));
            var k := i + 1 - fdw;
            var cell := MonthCell(yearMap, year, month, k);
            cell.cell.date == DayNumber(year, month, k)
            && (cell.inMonth == Some(true) <==> 1 <= k <= DaysInMonth(year, month))
    ensures Weekday(DateValue(year, month, 1)) + DaysInMonth(year, month) <= 42
  {
    var k := i + 1 - Weekday(DateValue(year, month, 1));
    InRangeDate(year, month, k);
    if 1 <= k <= DaysInMonth(year, month) {
      CivilOfDayNumber(Civil(year, month, k));
    } else if k < 1 {
      LeadingDay(year, month, k);
    } else {
      TrailingDay(year, month, k);
    }
  }

  lemma InRangeDate(year: int, month: int, k: int)
    requires 0 <= month < 12
    ensures DateValue(year, month, k) == DayNumber(year, month, k)
  {
    assert month / 12 == 0 && month % 12 == month;
  }

  /** A day up to 6 days before the first of the month is in the previous
      month. */
  lemma LeadingDay(year: int, month: int, k: int)
    requires 0 <= month < 12 && -5 <= k < 1
    ensures CivilOf(DayNumber(year, month, k)).month != month
  {
    PreviousMonth(year, month, k);
    var py := if month == 0 then year - 1 else year;
    var pm := if month == 0 then 11 else month - 1;
    CivilOfDayNumber(Civil(py, pm, k + DaysInMonth(py, pm)));
  }

  /** A day up to 14 days past the end of the month is in the next month. */
  lemma TrailingDay(year: int, month: int, k: int)
    requires 0 <= month < 12 && DaysInMonth(year, month) < k <= DaysInMonth(year, month) + 14
    ensures CivilOf(DayNumber(year, month, k)).month != month
  {
    NextMonth(year, month, k);
    var ny := if month == 11 then year + 1 else year;
    var nm := if month == 11 then 0 else month + 1;
    CivilOfDayNumber(Civil(ny, nm, k - DaysInMonth(year, month)));
  }

  // ---------------------------------------------------------------------------
  // Month labels

  datatype MonthLabel = MonthLabel(week: nat, name: string)

  /** `getMonth()` of the first day of each week. */
  function WeekMonths(weeks: seq<seq<GridCell>>): (months: seq<int>)
    requires forall w :: 0 <= w < |weeks| ==> |weeks[w]| > 0
    ensures |months| == |weeks| && MonthNumbers(months)
  {
    seq(|weeks|, w requires 0 <= w < |weeks| => CivilOf(weeks[w][0].cell.date).month)
  }

  predicate MonthNumbers(months: seq<int>) {
    forall w :: 0 <= w < |months| ==> 0 <= months[w] < 12
  }

  /** Week `w` starts in another month than the week before it. */
  predicate StartsMonth(months: seq<int>, w: int)
    requires 0 <= w < |months|
  {
    w == 0 || months[w] != months[w - 1]
  }

  /** The labels of the first `n` weeks, given the month of each week's first
      day: one for each week that starts a month, with that month's name. */
  function LabelsUpTo(months: seq<int>, n: int): seq<MonthLabel>
    requires 0 <= n <= |months| && MonthNumbers(months)
  {
    if n == 0 then []
    else LabelsUpTo(months, n - 1)
         + if StartsMonth(months, n - 1) then [MonthLabel(n - 1, Months[months[n - 1]])] else []
  }

  /** The year view's label loop, `lastMonth` holding the previous week's
      month. */
  method MonthLabels(weeks: seq<seq<GridCell>>) returns (monthLabels: seq<MonthLabel>)
    requires forall w :: 0 <= w < |weeks| ==> |weeks[w]| > 0
    ensures monthLabels == LabelsUpTo(WeekMonths(weeks), |weeks|)
  {
    ghost var months := WeekMonths(weeks);
    monthLabels := [];
    var lastMonth: Option<int> := None;
    var w := 0;
    while w < |weeks|
      invariant 0 <= w <= |weeks|
      invariant lastMonth == if w == 0 then None else Some(months[w - 1])
      invariant monthLabels == LabelsUpTo(months, w)
    {
      var firstDay := weeks[w][0].cell.date;
      var month := CivilOf(firstDay).month;
      assert month == months[w];
      if lastMonth != Some(month) {
        monthLabels := monthLabels + [MonthLabel(w, Months[month])];
        lastMonth := Some(month);
      }
      w := w + 1;
    }
  }

  /** Every label names the month of its week. */
  lemma {:induction false} LabelsNameMonths(months: seq<int>, n: int)
    requires 0 <= n <= |months| && MonthNumbers(months)
    ensures forall i :: 0 <= i < |LabelsUpTo(months, n)| ==>
              LabelsUpTo(months, n)[i].week < n
              && LabelsUpTo(months, n)[i].name == Months[months[LabelsUpTo(months, n)[i].week]]
  {
    if n > 0 {
      LabelsNameMonths(months, n - 1);
    }
  }

  /** Labels come in week order. */
  lemma {:induction false} LabelsOrdered(months: seq<int>, n: int)
    requires 0 <= n <= |months| && MonthNumbers(months)
    ensures forall i, j :: 0 <= i < j < |LabelsUpTo(months, n)| ==> LabelsUpTo(months, n)[i].week < LabelsUpTo(months, n)[j].week
  {
    if n > 0 {
      LabelsOrdered(months, n - 1);
      LabelsNameMonths(months, n - 1);
    }
  }

  /** Some label is for week `w`. */
  predicate Labelled(labels: seq<MonthLabel>, w: int) {
    exists i :: 0 <= i < |labels| && labels[i].week == w
  }

  /** A week is labelled exactly when its month differs from the previous
      week's; week 0 always is. */
  lemma {:induction false} LabelsMarkMonths(months: seq<int>, n: int)
    requires 0 <= n <= |months| && MonthNumbers(months)
    ensures forall w :: 0 <= w < n ==> (StartsMonth(months, w) <==> Labelled(LabelsUpTo(months, n), w))
  {
    if n > 0 {
      LabelsMarkMonths(months, n - 1);
      LabelsNameMonths(months, n - 1);
      var before := LabelsUpTo(months, n - 1);
      var labels := LabelsUpTo(months, n);
      forall w | 0 <= w < n
        ensures StartsMonth(months, w) <==> Labelled(labels, w)
      {
        if w < n - 1 {
          LabelledExtended(before, labels, w);
        } else if StartsMonth(months, w) {
          assert labels[|labels| - 1].week == w;
        } else {
          assert labels == before;
        }
      }
    }
  }

  lemma LabelledExtended(before: seq<MonthLabel>, labels: seq<MonthLabel>, w: int)
    requires |before| <= |labels| && labels[..|before|] == before
    requires forall i :: |before| <= i < |labels| ==> labels[i].week != w
    ensures Labelled(labels, w) <==> Labelled(before, w)
  {
    if Labelled(labels, w) {
      var i :| 0 <= i < |labels| && labels[i].week == w;
      assert before[i] == labels[i];
    }
    if Labelled(before, w) {
      var i :| 0 <= i < |before| && before[i].week == w;
      assert labels[i] == before[i];
    }
  }

  /** Week 0 carries the first label, two labels in a row name different
      months, and the last label is for the month of the last week seen. */
  lemma {:induction false} LabelsAlternate(months: seq<int>, n: int)
    requires 0 <= n <= |months| && MonthNumbers(months)
    ensures var labels := LabelsUpTo(months, n);
            (forall i, j :: 0 <= i < j < |labels| && j == i + 1 ==>
               labels[i].week < n && labels[j].week < n && months[labels[i].week] != months[labels[j].week])
            && (n > 0 ==> |labels| > 0 && labels[0].week == 0
                          && labels[|labels| - 1].week < n && months[labels[|labels| - 1].week] == months[n - 1])
  {
    if n > 0 {
      LabelsAlternate(months, n - 1);
      LabelsNameMonths(months, n - 1);
      if n - 1 > 0 && !StartsMonth(months, n - 1) {
        assert LabelsUpTo(months, n) == LabelsUpTo(months, n - 1);
      }
    }
  }

  // ---------------------------------------------------------------------------
  // The component's view switch

  /** The grid and labels the component renders for `view`: the year view
      labels its weeks, the month and week views carry one label for week 0,
      and any other view renders nothing. */
  method RenderGrid(view: string, yearMap: map<int, DayCell>, selectedDate: int)
    returns (weeks: seq<seq<GridCell>>, monthLabels: seq<MonthLabel>)
    ensures view == "year" ==> |weeks| == 52 && |monthLabels| > 0 && monthLabels[0].week == 0
    ensures view == "month" ==> |weeks| == 6 && monthLabels == [MonthLabel(0, Months[CivilOf(selectedDate).month])]
    ensures view == "week" ==> |weeks| == 1
                               && monthLabels == [MonthLabel(0, Months[CivilOf(GetStartDate(view, selectedDate).value).month])]
    ensures view == "year" || view == "month" || view == "week" <==> weeks != []
    ensures forall w :: 0 <= w < |weeks| ==> |weeks[w]| == 7
    ensures view == "year" ==>
              (forall w, d :: 0 <= w < 52 && 0 <= d < 7 ==>
                 weeks[w][d] == GridCell(CellAt(yearMap, GetStartDate(view, selectedDate).value + 7 * w + d), None))
              && monthLabels == LabelsUpTo(WeekMonths(weeks), 52)
    ensures view == "month" ==>
              var c := CivilOf(selectedDate);
              var fdw := Weekday(DateValue(c.year, c.month, 1));
              forall w :: 0 <= w < 6 ==> weeks[w] == MonthRow(yearMap, c.year, c.month, 1 - fdw + 7 * w)
    ensures view == "week" ==>
              forall d :: 0 <= d < 7 ==> weeks[0][d] == GridCell(CellAt(yearMap, GetStartDate(view, selectedDate).value + d), None)
  {
    var startDate := GetStartDate(view, selectedDate);
    if view == "year" {
      weeks := BuildYearGrid(yearMap, startDate.value);
      monthLabels := MonthLabels(weeks);
      LabelsAlternate(WeekMonths(weeks), |weeks|);
    } else if view == "month" {
      weeks := BuildMonthGrid(yearMap, selectedDate);
      monthLabels := [MonthLabel(0, Months[CivilOf(selectedDate).month])];
    } else if view == "week" {
      weeks := BuildWeekGrid(yearMap, startDate.value);
      monthLabels := [MonthLabel(0, Months[CivilOf(startDate.value).month])];
    } else {
      weeks := [];
      monthLabels := [];
    }
  }

  // ---------------------------------------------------------------------------
  // Colours

  const PostOrange := "#ff6b35"
  const LevelColors: seq<string> := ["var(--primary)", "var(--chart-2)", "var(--chart-4)", "var(--chart-5)"]
  const DefaultColor := "var(--card-foreground)"

  /** `getColor(level, hasPosts)`: orange for a day with posts, otherwise the
      colour of levels 1 to 4, otherwise the card foreground. */
  function GetColor(level: int, hasPosts: bool): (color: string)
    ensures hasPosts ==> color == PostOrange
    ensures !hasPosts && 1 <= level <= 4 ==> color == LevelColors[level - 1]
    ensures !hasPosts && (level < 1 || level > 4) ==> color == DefaultColor
  {
    if hasPosts then PostOrange
    else if level == 1 then "var(--primary)"
    else if level == 2 then "var(--chart-2)"
    else if level == 3 then "var(--chart-4)"
    else if level == 4 then "var(--chart-5)"
    else DefaultColor
  }

  /** Without posts, the four levels and the default have five different
      colours, none of them orange. */
  lemma ColorsDistinct(a: int, b: int)
    requires 0 <= a <= 4 && 0 <= b <= 4 && a != b
    ensures GetColor(a, false) != GetColor(b, false)
    ensures GetColor(a, false) != PostOrange
  {
  }

  /** On the calendar route's levels, a day without posts keeps the default
      colour exactly when it had no activity. */
  lemma LevelColor(activity: nat)
    ensures GetColor(StreakRoutes.Level(activity), false) == DefaultColor <==> activity == 0
  {
  }

  const OrangeClass := "bg-orange-500"
  const GrayClass := "bg-gray-100"

  /** `getCellColorClass(posts)`. */
  function GetCellColorClass(posts: int): (cls: string)
    ensures cls == OrangeClass <==> posts > 0
    ensures cls == OrangeClass || cls == GrayClass
  {
    if posts > 0 then OrangeClass else GrayClass
  }

  /** On a consistent cell the two helpers agree: the cell's colour is orange
      exactly when its class is. */
  lemma ColorsAgree(c: DayCell)
    requires Consistent(c)
    ensures GetColor(c.level, c.hasPosts) == PostOrange <==> GetCellColorClass(c.posts) == OrangeClass
  {
    if !c.hasPosts {
      ColorsDistinct(if 1 <= c.level <= 4 then c.level else 0, if c.level == 1 then 2 else 1);
    }
  }
}
