/** The build-date computation of the agent's build script, against the day-by-day
    Gregorian calendar (section 5.7 and Appendix C of RFC 3339). */
module Calendar {

  datatype Date = Date(year: nat, month: nat, day: nat)

  // ----- The reference calendar: leap rule, month lengths, "the next day" -----

  predicate IsLeap(year: nat) {
    year % 4 == 0 && (year % 100 != 0 || year % 400 == 0)
  }

  function MonthLength(year: nat, month: nat): nat
    requires 1 <= month <= 12
  {
    if month == 2 then (if IsLeap(year) then 29 else 28)
    else if month == 4 || month == 6 || month == 9 || month == 11 then 30
    else 31
  }

  predicate ValidDate(d: Date) {
    1 <= d.month <= 12 && 1 <= d.day <= MonthLength(d.year, d.month)
  }

  function NextDay(d: Date): (r: Date)
    requires ValidDate(d)
    ensures ValidDate(r)
  {
    if d.day < MonthLength(d.year, d.month) then d.(day := d.day + 1)
    else if d.month < 12 then Date(d.year, d.month + 1, 1)
    else Date(d.year + 1, 1, 1)
  }

  /** The date reached from 1970-01-01 by counting days one at a time. */
  function Nth(n: nat): (r: Date)
    ensures ValidDate(r)
  {
    if n == 0 then Date(1970, 1, 1) else NextDay(Nth(n - 1))
  }

  ghost predicate Before(a: Date, b: Date) {
    || a.year < b.year
    || (a.year == b.year && a.month < b.month)
    || (a.year == b.year && a.month == b.month && a.day < b.day)
  }

  // ----- The closed form in the source -----

  /** For every day count the closed form is a date of the calendar, and that date has this
      day count. Every `nat` in the steps is unsigned in the source; that each one is a
      natural number says that no subtraction underflows. */
  function EpochDaysToDate(days: nat): (r: Date)
    ensures ValidDate(r)
    ensures DateToDays(r) == days
  {
    var z: nat := days + 719_468;
    var era: nat := z / 146_097;
    var doe: nat := z - era * 146_097;
    var yoe: nat := YearOfEra(doe);
    YearOfEraBounds(doe);
    EraDayNumber(days, era, doe, yoe);
    CivilDate(yoe + era * 400, doe - EraYearStart(yoe))
  }

  function YearOfEra(doe: nat): nat {
    var t: nat := doe - doe / 1460 + doe / 36524 - doe / 146_096;
    t / 365
  }

  /** First day of year `y` of an era; years here start on the first of March. */
  function EraYearStart(y: nat): nat {
    365 * y + y / 4 - y / 100
  }

  /** The last steps: month, day and civil year of day `doy` of a March-based year. */
  function CivilDate(y: nat, doy: nat): Date
    requires doy <= 365
  {
    var mp: nat := (5 * doy + 2) / 153;
    var d: nat := doy - (153 * mp + 2) / 5 + 1;
    var m: nat := if mp < 10 then mp + 3 else mp - 9;
    Date(if m <= 2 then y + 1 else y, m, d)
  }

  /** An era day split into centuries, four-year cycles, years and days; the last year of
      a cycle has one more day, unless the cycle ends a century that is not the last. */
  ghost predicate EraSplit(doe: nat, c: nat, q: nat, a: nat, t: nat) {
    && doe == 36524 * c + 1461 * q + 365 * a + t
    && c <= 3 && q <= 24 && a <= 3
    && (t < 365 || (t == 365 && a == 3 && (q < 24 || c == 3)))
  }

  lemma EraSplitExists(doe: nat) returns (c: nat, q: nat, a: nat, t: nat)
    requires doe < 146_097
    ensures EraSplit(doe, c, q, a, t)
  {
    c := if doe / 36524 == 4 then 3 else doe / 36524;
    var r := doe - 36524 * c;
    q := r / 1461;
    var s := r % 1461;
    a := if s / 365 == 4 then 3 else s / 365;
    t := s - 365 * a;
  }

  lemma YearOfEraOfSplit(doe: nat, c: nat, q: nat, a: nat, t: nat)
    requires EraSplit(doe, c, q, a, t)
    ensures YearOfEra(doe) == 100 * c + 4 * q + a
  {
    var e := if 24 * c + q + 365 * a + t >= 1460 then 1 else 0;
    assert doe / 1460 == 25 * c + q + e;
    assert doe / 36524 - doe / 146_096 == c;
  }

  /** The guessed year of the era is the right one: its year starts no later than the day,
      and the next year starts after it. */
  lemma YearOfEraBounds(doe: nat)
    requires doe < 146_097
    ensures YearOfEra(doe) < 400
    ensures EraYearStart(YearOfEra(doe)) <= doe
    ensures doe < EraYearStart(YearOfEra(doe) + 1) || (YearOfEra(doe) == 399 && doe == 146_096)
  {
    var c, q, a, t := EraSplitExists(doe);
    YearOfEraOfSplit(doe, c, q, a, t);
    var y := 100 * c + 4 * q + a;
    assert y / 4 == 25 * c + q && y / 100 == c;
    assert EraYearStart(y) == doe - t;
    if a < 3 {
      assert (y + 1) / 4 == 25 * c + q && (y + 1) / 100 == c;
    } else if q < 24 {
      assert (y + 1) / 4 == 25 * c + q + 1 && (y + 1) / 100 == c;
    } else {
      assert y + 1 == 100 * (c + 1);
    }
  }

  // ----- Day numbers: the usual date-to-days formula, and why it numbers dates -----

  function DaysBeforeYear(y: nat): nat {
    365 * y + (y + 3) / 4 - (y + 99) / 100 + (y + 399) / 400
  }

  function DaysBeforeMonth(y: nat, m: nat): nat
    requires 1 <= m <= 13
  {
    if m == 1 then 0 else DaysBeforeMonth(y, m - 1) + MonthLength(y, m - 1)
  }

  /** Days from 1970-01-01; 719,528 days separate 0000-01-01 from it. */
  function DateToDays(d: Date): int
    requires ValidDate(d)
  {
    DaysBeforeYear(d.year) + DaysBeforeMonth(d.year, d.month) + d.day - 1 - 719_528
  }

  lemma CeilingStep4(y: nat)
    ensures (y + 4) / 4 == (y + 3) / 4 + if y % 4 == 0 then 1 else 0
  {}

  lemma CeilingStep100(y: nat)
    ensures (y + 100) / 100 == (y + 99) / 100 + if y % 100 == 0 then 1 else 0
  {}

  lemma CeilingStep400(y: nat)
    ensures (y + 400) / 400 == (y + 399) / 400 + if y % 400 == 0 then 1 else 0
  {}

  lemma DivisibleBy100(y: nat)
    requires y % 100 == 0
    ensures y % 4 == 0
  {
    var q := y / 100;
    assert y == 100 * q;
    MultipleOf4(25 * q);
  }

  lemma MultipleOf4(x: nat)
    ensures (4 * x) % 4 == 0
  {
  }

  lemma MultipleOf100(x: nat)
    ensures (100 * x) % 100 == 0
  {
  }

  lemma DivisibleBy400(y: nat)
    requires y % 400 == 0
    ensures y % 100 == 0
  {
    var q := y / 400;
    assert y == 400 * q;
    MultipleOf100(4 * q);
  }

  lemma YearLength(y: nat)
    ensures DaysBeforeYear(y + 1) == DaysBeforeYear(y) + if IsLeap(y) then 366 else 365
  {
    CeilingStep4(y);
    CeilingStep100(y);
    CeilingStep400(y);
    if y % 400 == 0 {
      DivisibleBy400(y);
    }
    if y % 100 == 0 {
      DivisibleBy100(y);
    }
  }

  lemma MonthTable(y: nat)
    ensures DaysBeforeMonth(y, 2) == 31
    ensures var f := if IsLeap(y) then 60 else 59;
            && DaysBeforeMonth(y, 3) == f && DaysBeforeMonth(y, 4) == f + 31
            && DaysBeforeMonth(y, 5) == f + 61 && DaysBeforeMonth(y, 6) == f + 92
            && DaysBeforeMonth(y, 7) == f + 122 && DaysBeforeMonth(y, 8) == f + 153
            && DaysBeforeMonth(y, 9) == f + 184 && DaysBeforeMonth(y, 10) == f + 214
            && DaysBeforeMonth(y, 11) == f + 245 && DaysBeforeMonth(y, 12) == f + 275
            && DaysBeforeMonth(y, 13) == f + 306
  {
  }

  lemma NextDayAddsOne(d: Date)
    requires ValidDate(d)
    ensures DateToDays(NextDay(d)) == DateToDays(d) + 1
  {
    YearLength(d.year);
    MonthTable(d.year);
  }

  lemma {:induction false} DaysBeforeYearMonotone(a: nat, b: nat)
    requires a <= b
    ensures DaysBeforeYear(a) <= DaysBeforeYear(b)
    decreases b - a
  {
    if a < b {
      YearLength(a);
      DaysBeforeYearMonotone(a + 1, b);
    }
  }

  lemma {:induction false} DaysBeforeMonthMonotone(y: nat, a: nat, b: nat)
    requires 1 <= a <= b <= 13
    ensures DaysBeforeMonth(y, a) <= DaysBeforeMonth(y, b)
    decreases b - a
  {
    if a < b {
      DaysBeforeMonthMonotone(y, a + 1, b);
    }
  }

  /** Day numbers order dates as the calendar does, so distinct dates have distinct numbers. */
  lemma DateToDaysOrders(a: Date, b: Date)
    requires ValidDate(a) && ValidDate(b)
    ensures Before(a, b) <==> DateToDays(a) < DateToDays(b)
    ensures DateToDays(a) == DateToDays(b) ==> a == b
  {
    if Before(a, b) {
      DateToDaysMonotone(a, b);
    } else if Before(b, a) {
      DateToDaysMonotone(b, a);
    }
  }

  lemma DateToDaysMonotone(a: Date, b: Date)
    requires ValidDate(a) && ValidDate(b) && Before(a, b)
    ensures DateToDays(a) < DateToDays(b)
  {
    DaysBeforeMonthMonotone(a.year, a.month + 1, 13);
    if a.year < b.year {
      MonthTable(a.year);
      YearLength(a.year);
      DaysBeforeYearMonotone(a.year + 1, b.year);
    } else if a.month < b.month {
      DaysBeforeMonthMonotone(a.year, a.month + 1, b.month);
    }
  }

  // ----- The closed form is the calendar -----

  /** A March-based year within an era, counted back to 0000-03-01. */
  lemma EraYearNumber(era: nat, yoe: nat)
    requires yoe < 400
    ensures var y := yoe + 400 * era;
            && DaysBeforeYear(y + 1) == 366 + 146_097 * era + EraYearStart(yoe)
            && DaysBeforeYear(y) + (if IsLeap(y) then 60 else 59) == 60 + 146_097 * era + EraYearStart(yoe)
  {
    var y := yoe + 400 * era;
    assert (y + 4) / 4 == 100 * era + yoe / 4 + 1;
    assert (y + 100) / 100 == 4 * era + yoe / 100 + 1;
    assert (y + 400) / 400 == era + 1;
    YearLength(y);
  }

  /** The split of a March-based day of year into month and day, and its validity. */
  lemma MonthOfDay(doy: nat, y: nat)
    requires doy < 365 || (doy == 365 && IsLeap(y + 1))
    ensures var mp := (5 * doy + 2) / 153;
            var d := doy - (153 * mp + 2) / 5 + 1;
            && 0 <= mp <= 11 && d >= 1
            && (if mp < 10 then
                  && d <= MonthLength(y, mp + 3)
                  && DaysBeforeMonth(y, mp + 3) == (if IsLeap(y) then 60 else 59) + (153 * mp + 2) / 5
                else
                  && d <= MonthLength(y + 1, mp - 9)
                  && DaysBeforeMonth(y + 1, mp - 9) == (153 * mp + 2) / 5 - 306)
  {
    MonthTable(y);
    MonthTable(y + 1);
  }

  lemma {:induction false} LeapRuleIsPeriodic(era: nat, y: nat)
    ensures IsLeap(y + 400 * era) == IsLeap(y)
  {
    if era > 0 {
      LeapRuleIsPeriodic(era - 1, y);
      LeapRuleRepeats(y + 400 * (era - 1));
    }
  }

  lemma LeapRuleRepeats(y: nat)
    ensures IsLeap(y + 400) == IsLeap(y)
  {
    assert (y + 400) % 4 == y % 4;
    assert (y + 400) % 100 == y % 100;
    assert (y + 400) % 400 == y % 400;
  }

  /** Only a March-based year that ends in a leap February has a day 365. */
  lemma LastDayOfLeapYear(yoe: nat, doy: nat)
    requires yoe < 400
    requires EraYearStart(yoe) + doy < EraYearStart(yoe + 1)
             || (yoe == 399 && EraYearStart(yoe) + doy == 146_096)
    ensures doy < 365 || (doy == 365 && IsLeap(yoe + 1))
  {
    if yoe < 399 {
      assert (yoe + 1) / 4 <= yoe / 4 + 1 && (yoe + 1) / 100 <= yoe / 100 + 1;
      assert (yoe + 1) / 4 == yoe / 4 + 1 <==> (yoe + 1) % 4 == 0;
      assert (yoe + 1) / 100 == yoe / 100 + 1 <==> (yoe + 1) % 100 == 0;
    }
  }

  lemma CivilDateNumber(era: nat, yoe: nat, doy: nat)
    requires yoe < 400
    requires doy < 365 || (doy == 365 && IsLeap(yoe + 400 * era + 1))
    ensures ValidDate(CivilDate(yoe + 400 * era, doy))
    ensures DateToDays(CivilDate(yoe + 400 * era, doy)) + 719_468 == 146_097 * era + EraYearStart(yoe) + doy
  {
    EraYearNumber(era, yoe);
    MonthOfDay(doy, yoe + 400 * era);
  }

  lemma EraDayNumber(days: nat, era: nat, doe: nat, yoe: nat)
    requires days + 719_468 == 146_097 * era + doe
    requires yoe < 400 && EraYearStart(yoe) <= doe < 146_097
    requires doe < EraYearStart(yoe + 1) || (yoe == 399 && doe == 146_096)
    ensures doe - EraYearStart(yoe) <= 365
    ensures var d := CivilDate(yoe + 400 * era, doe - EraYearStart(yoe));
            ValidDate(d) && DateToDays(d) == days
  {
    var doy := doe - EraYearStart(yoe);
    LastDayOfLeapYear(yoe, doy);
    LeapRuleIsPeriodic(era, yoe + 1);
    CivilDateNumber(era, yoe, doy);
  }

  lemma {:induction false} NthHasItsNumber(n: nat)
    ensures DateToDays(Nth(n)) == n
  {
    if n > 0 {
      NthHasItsNumber(n - 1);
      NextDayAddsOne(Nth(n - 1));
    } else {
      assert DaysBeforeYear(1970) == 719_528;
    }
  }

  /** The closed form equals counting days one at a time from 1970-01-01. */
  lemma EpochDaysToDateCountsDays(days: nat)
    ensures EpochDaysToDate(days) == Nth(days)
    ensures EpochDaysToDate(0) == Date(1970, 1, 1)
    ensures ValidDate(EpochDaysToDate(days))
    ensures EpochDaysToDate(days + 1) == NextDay(EpochDaysToDate(days))
  {
    forall n: nat ensures EpochDaysToDate(n) == Nth(n) && ValidDate(Nth(n)) {
      NthHasItsNumber(n);
      DateToDaysOrders(EpochDaysToDate(n), Nth(n));
    }
  }

  /** Later days have later dates, and no two days share one. */
  lemma EpochDaysToDateOrders(a: nat, b: nat)
    ensures a < b <==> Before(EpochDaysToDate(a), EpochDaysToDate(b))
    ensures EpochDaysToDate(a) == EpochDaysToDate(b) ==> a == b
  {
    DateToDaysOrders(EpochDaysToDate(a), EpochDaysToDate(b));
  }

  /** Every date from 1970-01-01 on is produced, by its own day number. */
  lemma EpochDaysToDateInverts(d: Date)
    requires ValidDate(d) && d.year >= 1970
    ensures DateToDays(d) >= 0
    ensures EpochDaysToDate(DateToDays(d)) == d
  {
    DaysBeforeYearMonotone(1970, d.year);
    assert DaysBeforeYear(1970) == 719_528;
    DateToDaysOrders(EpochDaysToDate(DateToDays(d)), d);
  }

  /** The script feeds it whole days of a 64-bit second count; then no sum in it leaves 64 bits. */
  lemma BuildDateFitsU64(now: nat)
    requires now < 0x1_0000_0000_0000_0000
    ensures now / 86400 + 719_468 < 0x1_0000_0000_0000_0000
    ensures EpochDaysToDate(now / 86400).year < 0x1_0000_0000_0000_0000
  {
  }
}
