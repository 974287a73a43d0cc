/**
 * Calendar arithmetic of the report layout: Gregorian month lengths, the
 * column offset of a day inside a half-year block, and the block's label.
 */
module Calendar {
  import opened Common
  import opened Decimal

  /**
   * A `datetime` at midnight. Every date that reaches the synchronisation
   * has its time of day zeroed, so a date is a day.
   */
  datatype Date = Date(year: int, month: int, day: int)

  /** The Gregorian leap-year rule of `calendar.isleap`. */
  predicate IsLeap(year: int) {
    year % 4 == 0 && (year % 100 != 0 || year % 400 == 0)
  }

  /** `calendar.monthrange(year, month)[1]`: the number of days in the month. */
  function DaysInMonth(year: int, month: int): (n: int)
    requires 1 <= month <= 12
    ensures 28 <= n <= 31
    ensures n == 29 <==> month == 2 && IsLeap(year)
    ensures n == 28 <==> month == 2 && !IsLeap(year)
    ensures n == 30 <==> month == 4 || month == 6 || month == 9 || month == 11
  {
    if month == 2 then (if IsLeap(year) then 29 else 28)
    else if month == 4 || month == 6 || month == 9 || month == 11 then 30
    else 31
  }

  /** What a `datetime` can hold. */
  predicate ValidDate(d: Date) {
    1 <= d.month <= 12 && 1 <= d.day <= DaysInMonth(d.year, d.month)
  }

  /** `a < b` on midnight datetimes: chronological order. */
  predicate Before(a: Date, b: Date) {
    || a.year < b.year
    || (a.year == b.year && a.month < b.month)
    || (a.year == b.year && a.month == b.month && a.day < b.day)
  }

  /** First month of half-year `half`: any value other than 1 selects July. */
  function HalfStartMonth(half: int): int {
    if half == 1 then 1 else 7
  }

  /**
   * Columns taken by the whole months `first .. end - 1` of `year`: each month
   * contributes its days plus one separator column.
   */
  function MonthSpan(year: int, first: int, end: int): (span: int)
    requires 1 <= first && end <= 13
    ensures span >= 0
    decreases end - first
  {
    if end <= first then 0 else MonthSpan(year, first, end - 1) + DaysInMonth(year, end - 1) + 1
  }

  /**
   * Why `days_in_half_year_up_to` raises `ValueError`: the day lies past the
   * month's last day, or `calendar.monthrange` was asked for month 13.
   */
  datatype OffsetError = DayPastMonthEnd | IllegalMonth(month: int)

  /**
   * Closed form of `days_in_half_year_up_to`: the months of the half before
   * `month` in full (days + 1 each), then `day + 1` for `month` itself.
   */
  function DayOffset(year: int, half: int, month: int, day: int): (r: Result<int, OffsetError>)
    ensures month < HalfStartMonth(half) ==> r == Ok(0)
    ensures r == Err(IllegalMonth(13)) <==> HalfStartMonth(half) <= month && month > 12
    ensures r == Err(DayPastMonthEnd) <==> HalfStartMonth(half) <= month <= 12 && day > DaysInMonth(year, month)
    ensures r.Ok? && HalfStartMonth(half) <= month ==> r.value > day
  {
    var start := HalfStartMonth(half);
    if month < start then Ok(0)
    else if month > 12 then Err(IllegalMonth(13))
    else if day >= DaysInMonth(year, month) + 1 then Err(DayPastMonthEnd)
    else Ok(MonthSpan(year, start, month) + day + 1)
  }

  /**
   * `days_in_half_year_up_to` as written: a loop over the months of the half
   * up to `upToMonth`, checking the day only in the last one.
   */
  method DaysInHalfYearUpTo(year: int, half: int, upToMonth: int, upToDay: int)
    returns (r: Result<int, OffsetError>)
    ensures r == DayOffset(year, half, upToMonth, upToDay)
  {
    var start := HalfStartMonth(half);
    var total := 0;
    var month := start;
    while month <= upToMonth
      invariant start <= month <= 13
      invariant month <= upToMonth ==> total == MonthSpan(year, start, month)
      invariant upToMonth < start ==> month == start && total == 0
      invariant start <= upToMonth < month ==>
        && month == upToMonth + 1
        && upToMonth <= 12
        && upToDay < DaysInMonth(year, upToMonth) + 1
        && total == MonthSpan(year, start, upToMonth) + upToDay + 1
      decreases upToMonth + 1 - month
    {
      if month > 12 {
        return Err(IllegalMonth(month));
      }
      var daysInMonth := DaysInMonth(year, month) + 1;
      if month == upToMonth {
        if upToDay >= daysInMonth {
          return Err(DayPastMonthEnd);
        }
        total := total + upToDay + 1;
      } else {
        total := total + daysInMonth;
      }
      month := month + 1;
    }
    return Ok(total);
  }

  lemma {:induction false} MonthSpanGrows(year: int, start: int, m1: int, m2: int)
    requires 1 <= start <= m1 <= m2 <= 13
    ensures MonthSpan(year, start, m1) <= MonthSpan(year, start, m2)
    decreases m2 - m1
  {
    if m1 < m2 {
      MonthSpanGrows(year, start, m1, m2 - 1);
    }
  }

  /** Day 0 of January in the first half sits at offset 1. */
  lemma FirstDayOffset(year: int)
    ensures DayOffset(year, 1, 1, 0) == Ok(1)
  {
  }

  /**
   * The last calendar day of a month is accepted and the day after it is
   * not: the guard rejects `day >= days + 1`, not `day >= days`.
   */
  lemma MonthEndBoundary(year: int, half: int, month: int)
    requires HalfStartMonth(half) <= month <= 12
    ensures DayOffset(year, half, month, DaysInMonth(year, month)).Ok?
    ensures DayOffset(year, half, month, DaysInMonth(year, month) + 1) == Err(DayPastMonthEnd)
  {
  }

  /** Every real date of a half has an offset, and it is at least 2. */
  lemma ValidDateHasOffset(year: int, half: int, d: Date)
    requires ValidDate(d) && d.year == year && HalfStartMonth(half) <= d.month
    ensures DayOffset(year, half, d.month, d.day).Ok?
    ensures DayOffset(year, half, d.month, d.day).value >= 2
  {
    MonthSpanGrows(year, HalfStartMonth(half), HalfStartMonth(half), d.month);
  }

  /**
   * Within a half, the offset strictly increases in (month, day) order, so
   * two days of one block never share a column.
   */
  lemma OffsetStrictlyIncreasing(year: int, half: int, m1: int, d1: int, m2: int, d2: int)
    requires HalfStartMonth(half) <= m1 <= 12 && HalfStartMonth(half) <= m2 <= 12
    requires d1 <= DaysInMonth(year, m1) && 0 <= d2 <= DaysInMonth(year, m2)
    requires m1 < m2 || (m1 == m2 && d1 < d2)
    ensures DayOffset(year, half, m1, d1).Ok? && DayOffset(year, half, m2, d2).Ok?
    ensures DayOffset(year, half, m1, d1).value < DayOffset(year, half, m2, d2).value
  {
    if m1 < m2 {
      MonthSpanGrows(year, HalfStartMonth(half), m1 + 1, m2);
    }
  }

  /** `get_half_year`. */
  function HalfYear(d: Date): (h: int)
    ensures h == 1 || h == 2
    ensures h == 1 <==> d.month <= 6
  {
    if d.month <= 6 then 1 else 2
  }

  /** The words between the half digit and the year in a block label. */
  const HalfYearWord: string :=
    " \U{043F}\U{043E}\U{043B}\U{0443}\U{0433}\U{043E}\U{0434}\U{0438}\U{0435} "

  /** `get_half_year_str`: the text that anchors a half-year block in the sheet. */
  function HalfYearLabel(d: Date): (text: string)
    ensures |text| > |HalfYearWord| + 1
    ensures text[0] == (if d.month <= 6 then '1' else '2')
    ensures text[1..|HalfYearWord| + 1] == HalfYearWord
  {
    IntToString(HalfYear(d)) + HalfYearWord + IntToString(d.year)
  }

  /** The label starts with the half digit and ends with the decimal year. */
  lemma LabelDecodes(d: Date)
    ensures |HalfYearLabel(d)| > |HalfYearWord| + 1
    ensures HalfYearLabel(d)[0] == (if d.month <= 6 then '1' else '2')
    ensures HalfYearLabel(d)[1..|HalfYearWord| + 1] == HalfYearWord
    ensures ParseInt(HalfYearLabel(d)[|HalfYearWord| + 1..]) == Some(d.year)
  {
    var text := HalfYearLabel(d);
    assert text[|HalfYearWord| + 1..] == IntToString(d.year);
    IntRoundTrip(d.year);
  }

  /** Two dates share a label exactly when they lie in the same half of the same year. */
  lemma LabelIdentifiesBlock(a: Date, b: Date)
    ensures HalfYearLabel(a) == HalfYearLabel(b) <==> HalfYear(a) == HalfYear(b) && a.year == b.year
  {
    if HalfYearLabel(a) == HalfYearLabel(b) {
      LabelDecodes(a);
      LabelDecodes(b);
    }
  }
}
