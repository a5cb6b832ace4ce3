/** Date arithmetic (src/utils/dateUtils.ts): inclusive durations, the timeline
    window, weekday tests and day offsets.

    Instants are milliseconds since 1970-01-01T00:00, in one time zone without daylight
    saving; a day d covers the instants [d * MsPerDay, (d + 1) * MsPerDay). */
module DateUtils {
  import opened Types

  const MsPerDay: int := 86400000

  /** First instant of day d. */
  function StartOfDay(d: Day): int
  {
    d * MsPerDay
  }

  /** Last instant (the final millisecond) of day d. */
  function EndOfDay(d: Day): int
  {
    d * MsPerDay + MsPerDay - 1
  }

  /** The number of FULL days from instant `earlier` to instant `later`: the quotient
      truncated toward zero, negative when `later` comes first. */
  function DifferenceInDays(later: int, earlier: int): (n: int)
    ensures later >= earlier ==> n >= 0 && n * MsPerDay <= later - earlier < (n + 1) * MsPerDay
    ensures later < earlier ==> n <= 0 && (n - 1) * MsPerDay < later - earlier <= n * MsPerDay
  {
    var diff := later - earlier;
    if diff >= 0 then diff / MsPerDay else -((-diff) / MsPerDay)
  }

  /** Two day starts are a whole number of days apart. */
  lemma DifferenceOfDayStarts(a: Day, b: Day)
    ensures DifferenceInDays(StartOfDay(a), StartOfDay(b)) == a - b
  {
    assert StartOfDay(a) - StartOfDay(b) == (a - b) * MsPerDay;
  }

  /** calculateDuration: full days from the start of `startDate` to the end of
      `endDate`, plus one. */
  function CalculateDuration(startDate: Day, endDate: Day): int
  {
    DifferenceInDays(EndOfDay(endDate), StartOfDay(startDate)) + 1
  }

  /** For an ordered range the duration is the inclusive day count; for a reversed
      range, truncation toward zero drops the final partial day, so the result is one
      more than `endDate - startDate + 1` (a range ending the day before it starts
      still reports 1). */
  lemma {:induction false} DurationIsInclusiveCount(startDate: Day, endDate: Day)
    ensures endDate >= startDate ==> CalculateDuration(startDate, endDate) == endDate - startDate + 1
    ensures endDate < startDate ==> CalculateDuration(startDate, endDate) == endDate - startDate + 2
  {
    var k := endDate - startDate;
    assert EndOfDay(endDate) - StartOfDay(startDate) == k * MsPerDay + MsPerDay - 1;
  }

  /** A one-day task lasts one day. */
  lemma SameDayDuration(d: Day)
    ensures CalculateDuration(d, d) == 1
  {
    DurationIsInclusiveCount(d, d);
  }

  /** An ordered range lasts at least one day. */
  lemma OrderedDurationPositive(startDate: Day, endDate: Day)
    requires startDate <= endDate
    ensures CalculateDuration(startDate, endDate) >= 1
  {
    DurationIsInclusiveCount(startDate, endDate);
  }

  /** date-fns addDays on whole days. */
  function AddDays(d: Day, n: int): Day
  {
    d + n
  }

  /** addBusinessDays: delegates to addDays unchanged. */
  function AddBusinessDays(d: Day, n: int): (r: Day)
    ensures r - d == n
  {
    AddDays(d, n)
  }

  /** Day of the week as Date.getDay numbers it: 0 is Sunday, 6 is Saturday.
      Day 0 (1970-01-01) was a Thursday. The result is the number of days since the
      last Sunday: going back w days from d lands a whole number of weeks away from
      Sunday 1970-01-04 (day 3). */
  function Weekday(d: Day): (w: int)
    ensures 0 <= w < 7
    ensures (d - w - 3) % 7 == 0
  {
    (d + 4) % 7
  }

  /** isWeekend: Saturday or Sunday. */
  function IsWeekend(d: Day): bool
  {
    Weekday(d) == 0 || Weekday(d) == 6
  }

  /** The weekend days are exactly those a whole number of weeks away from
      Saturday 1970-01-03 (day 2) or Sunday 1970-01-04 (day 3). */
  lemma WeekendIsSaturdayOrSunday(d: Day)
    ensures IsWeekend(d) <==> (d - 2) % 7 == 0 || (d - 3) % 7 == 0
  {
    var q := (d + 4) / 7;
    assert d + 4 == 7 * q + Weekday(d);
    assert d - 2 == 7 * (q - 1) + (Weekday(d) + 1);
    assert d - 3 == 7 * (q - 1) + Weekday(d);
  }

  /** Despite its name, addBusinessDays can land on a weekend: one day after
      Friday 1970-01-02 is Saturday 1970-01-03. */
  lemma AddBusinessDaysReachesWeekend()
    ensures !IsWeekend(1) && IsWeekend(AddBusinessDays(1, 1))
  {
  }

  /** The first weekday after day d (at most two weekend days ever follow each other). */
  function NextWorkday(d: Day): (r: Day)
    ensures d < r <= d + 3 && !IsWeekend(r)
    ensures forall x :: d < x < r ==> IsWeekend(x)
  {
    if !IsWeekend(d + 1) then d + 1
    else if !IsWeekend(d + 2) then d + 2
    else d + 3
  }

  /** What addBusinessDays is named for: step forward over n weekdays, skipping
      Saturdays and Sundays. */
  function AddWorkdays(d: Day, n: nat): (r: Day)
    ensures r >= d + n
    ensures n > 0 ==> !IsWeekend(r)
    decreases n
  {
    if n == 0 then d else AddWorkdays(NextWorkday(d), n - 1)
  }

  /** Number of weekdays in the days lo + 1 .. hi. */
  function WorkdaysAfter(lo: Day, hi: Day): nat
    decreases hi - lo
  {
    if hi <= lo then 0
    else WorkdaysAfter(lo, hi - 1) + (if IsWeekend(hi) then 0 else 1)
  }

  /** Weekday counts add up over adjacent spans. */
  lemma {:induction false} WorkdaysAfterSplit(lo: Day, mid: Day, hi: Day)
    requires lo <= mid <= hi
    ensures WorkdaysAfter(lo, hi) == WorkdaysAfter(lo, mid) + WorkdaysAfter(mid, hi)
    decreases hi - mid
  {
    if mid < hi {
      WorkdaysAfterSplit(lo, mid, hi - 1);
    }
  }

  /** Between d and its next weekday there is exactly one weekday. */
  lemma {:induction false} OneWorkdayToNext(d: Day)
    ensures WorkdaysAfter(d, NextWorkday(d)) == 1
  {
    var r := NextWorkday(d);
    assert WorkdaysAfter(d, d) == 0;
    if r >= d + 2 {
      assert WorkdaysAfter(d, d + 1) == 0;
    }
    if r == d + 3 {
      assert WorkdaysAfter(d, d + 2) == 0;
    }
  }

  /** AddWorkdays moves past exactly n weekdays. */
  lemma {:induction false} AddWorkdaysCountsWeekdays(d: Day, n: nat)
    ensures WorkdaysAfter(d, AddWorkdays(d, n)) == n
    decreases n
  {
    if n > 0 {
      var next := NextWorkday(d);
      AddWorkdaysCountsWeekdays(next, n - 1);
      OneWorkdayToNext(d);
      WorkdaysAfterSplit(d, next, AddWorkdays(d, n));
    }
  }

  /** The as-written addBusinessDays and the weekday-stepping version disagree: from
      Friday 1970-01-02 one business day is Monday 1970-01-05, not Saturday. */
  lemma AddBusinessDaysDiffersFromWorkdays()
    ensures AddBusinessDays(1, 1) == 2 && IsWeekend(2)
    ensures AddWorkdays(1, 1) == 4 && !IsWeekend(4)
  {
  }

  // ---------------------------------------------------------------------------
  // Form date strings and the local time zone
  //
  // Here an instant is UTC milliseconds, and `offset` is the local zone's fixed
  // distance from UTC in milliseconds (positive east of Greenwich).

  /** `new Date('yyyy-MM-dd')`: a date-only string is read as midnight UTC. */
  function UtcMidnight(d: Day): int
  {
    d * MsPerDay
  }

  /** Midnight of day d on the local clock: what parsing the field as a local date
      gives. */
  function LocalMidnight(d: Day, offset: int): int
  {
    d * MsPerDay - offset
  }

  /** The local calendar day containing an instant: the day `format(date,
      'yyyy-MM-dd')` writes and `startOfDay` starts. */
  function LocalDay(instant: int, offset: int): (d: Day)
    ensures d * MsPerDay <= instant + offset < (d + 1) * MsPerDay
  {
    (instant + offset) / MsPerDay
  }

  /** Reading a form date as UTC and writing it back on a local clock west of UTC
      (for example New York, five hours behind) gives the day before. */
  lemma {:induction false} UtcParseShiftsWestOfUtc(d: Day, offset: int)
    requires -MsPerDay < offset < 0
    ensures LocalDay(UtcMidnight(d), offset) == d - 1
  {
    assert (d - 1) * MsPerDay <= UtcMidnight(d) + offset < d * MsPerDay;
  }

  /** At UTC or east of it, the UTC reading of a form date keeps the day. */
  lemma {:induction false} UtcParseKeepsDayEastOfUtc(d: Day, offset: int)
    requires 0 <= offset < MsPerDay
    ensures LocalDay(UtcMidnight(d), offset) == d
  {
    assert d * MsPerDay <= UtcMidnight(d) + offset < (d + 1) * MsPerDay;
  }

  /** Opening the edit form of a task dated 1970-01-10 (day 9) in New York shows
      1970-01-09, and saving it unchanged stores day 8's midnight: each unchanged
      save moves the task back one day. */
  lemma UnchangedEditMovesTaskBackWestOfUtc()
    ensures var newYork := -5 * 3600000;
      LocalDay(UtcMidnight(9), newYork) == 8 && UtcMidnight(LocalDay(UtcMidnight(9), newYork)) == UtcMidnight(8)
  {
    UtcParseShiftsWestOfUtc(9, -5 * 3600000);
  }

  /** Reading form dates as local midnights round-trips in every time zone: the
      shown day is the stored day. The rest of this model numbers each stored date by
      this local day. */
  lemma {:induction false} LocalParseRoundTrips(d: Day, offset: int)
    ensures LocalDay(LocalMidnight(d, offset), offset) == d
  {
    assert LocalMidnight(d, offset) + offset == d * MsPerDay;
  }

  /** The timeline window. */
  datatype DateRange = DateRange(start: Day, end: Day)

  /** `tasks.flatMap(t => [t.startDate, t.endDate])`. */
  function AllDates(tasks: seq<Task>): (dates: seq<Day>)
    ensures |dates| == 2 * |tasks|
    ensures forall i :: 0 <= i < |tasks| ==>
              dates[2 * i] == tasks[i].startDate && dates[2 * i + 1] == tasks[i].endDate
  {
    if tasks == [] then []
    else
      var last := tasks[|tasks| - 1];
      AllDates(tasks[..|tasks| - 1]) + [last.startDate, last.endDate]
  }

  /** Math.min over a non-empty list. */
  function Min(s: seq<Day>): (m: Day)
    requires s != []
    ensures m in s
    ensures forall i :: 0 <= i < |s| ==> m <= s[i]
  {
    if |s| == 1 then s[0]
    else
      var rest := Min(s[..|s| - 1]);
      if s[|s| - 1] < rest then s[|s| - 1] else rest
  }

  /** Math.max over a non-empty list. */
  function Max(s: seq<Day>): (m: Day)
    requires s != []
    ensures m in s
    ensures forall i :: 0 <= i < |s| ==> s[i] <= m
  {
    if |s| == 1 then s[0]
    else
      var rest := Max(s[..|s| - 1]);
      if s[|s| - 1] > rest then s[|s| - 1] else rest
  }

  /** getDateRange: thirty days from today when there are no tasks, otherwise the
      span of every start and end date widened by a week on each side. */
  function GetDateRange(tasks: seq<Task>, today: Day): (r: DateRange)
    ensures tasks == [] ==> r == DateRange(today, today + 30)
  {
    if tasks == [] then DateRange(today, AddDays(today, 30))
    else
      var dates := AllDates(tasks);
      DateRange(AddDays(Min(dates), -7), AddDays(Max(dates), 7))
  }

  /** For a non-empty list the window is the tightest one that shows every task
      date with a seven-day margin: every date lies in [start + 7, end - 7], and some
      date sits on each of those two bounds. */
  lemma {:induction false} DateRangeBoundsTasks(tasks: seq<Task>, today: Day)
    requires tasks != []
    ensures var r := GetDateRange(tasks, today);
      && (forall i :: 0 <= i < |tasks| ==>
            r.start + 7 <= tasks[i].startDate <= r.end - 7 &&
            r.start + 7 <= tasks[i].endDate <= r.end - 7)
      && (exists i :: 0 <= i < |tasks| && (tasks[i].startDate == r.start + 7 || tasks[i].endDate == r.start + 7))
      && (exists i :: 0 <= i < |tasks| && (tasks[i].startDate == r.end - 7 || tasks[i].endDate == r.end - 7))
  {
    var r := GetDateRange(tasks, today);
    var dates := AllDates(tasks);
    forall i | 0 <= i < |tasks|
      ensures r.start + 7 <= tasks[i].startDate <= r.end - 7
      ensures r.start + 7 <= tasks[i].endDate <= r.end - 7
    {
      assert dates[2 * i] == tasks[i].startDate && dates[2 * i + 1] == tasks[i].endDate;
    }
    var lo :| 0 <= lo < |dates| && dates[lo] == Min(dates);
    var hi :| 0 <= hi < |dates| && dates[hi] == Max(dates);
    assert lo == 2 * (lo / 2) || lo == 2 * (lo / 2) + 1;
    assert hi == 2 * (hi / 2) || hi == 2 * (hi / 2) + 1;
    assert tasks[lo / 2].startDate == r.start + 7 || tasks[lo / 2].endDate == r.start + 7;
    assert tasks[hi / 2].startDate == r.end - 7 || tasks[hi / 2].endDate == r.end - 7;
  }

  /** Every window getDateRange produces has positive length (at least 14 days for a
      non-empty list, 30 for an empty one), so it is safe to divide by. */
  lemma {:induction false} DateRangeHasPositiveLength(tasks: seq<Task>, today: Day)
    ensures var r := GetDateRange(tasks, today);
      r.end - r.start >= (if tasks == [] then 30 else 14)
  {
    if tasks != [] {
      var dates := AllDates(tasks);
      assert Min(dates) <= dates[0] <= Max(dates);
    }
  }
}
