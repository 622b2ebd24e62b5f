/** Civil dates from Unix seconds, against a count of days by calendar rules. */
module Civil {
  import opened Basics

  datatype Fields = Fields(year: int, month: int, day: int, hour: int, minute: int)

  predicate FitsU32(n: int) {
    0 <= n < 0x1_0000_0000
  }

  datatype Date = Date(year: int, month: int, day: int)

  /** The date of a day of a year that starts in March. */
  function MarchDate(year: int, dayOfYear: int): Date {
    var shiftedMonth := (5 * dayOfYear + 2) / 153;
    var day := dayOfYear - (153 * shiftedMonth + 2) / 5 + 1;
    var month := if shiftedMonth < 10 then shiftedMonth + 3 else shiftedMonth - 9;
    Date(if month <= 2 then year + 1 else year, month, day)
  }

  /** The date of a day of an era of four hundred years. */
  function EraDate(era: int, dayOfEra: int): Date {
    var yearOfEra := YearOfEra(dayOfEra);
    var dayOfYear := dayOfEra - (365 * yearOfEra + yearOfEra / 4 - yearOfEra / 100);
    MarchDate(yearOfEra + era * 400, dayOfYear)
  }

  /** The civil date of a day of the Unix count. */
  function CivilDate(days: int): Date {
    var z := days + 719_468;
    EraDate(z / 146_097, z % 146_097)
  }

  /** UTC fields of a Unix time. The conversions to 32 bits could refuse, but never do. */
  function CivilUtc(seconds: int): Option<Fields> {
    var remainder := seconds % 86_400;
    var hour, minute := remainder / 3_600, remainder % 3_600 / 60;
    var date := CivilDate(seconds / 86_400);
    if FitsU32(hour) && FitsU32(minute) && FitsU32(date.day) && FitsU32(date.month)
    then Some(Fields(date.year, date.month, date.day, hour, minute))
    else None
  }

  function YearOfEra(dayOfEra: int): int {
    (dayOfEra - dayOfEra / 1_460 + dayOfEra / 36_524 - dayOfEra / 146_096) / 365
  }

  /** The proleptic Gregorian rule. */
  predicate IsLeap(year: int) {
    year % 4 == 0 && (year % 100 != 0 || year % 400 == 0)
  }

  function YearLength(year: int): int {
    if IsLeap(year) then 366 else 365
  }

  function MonthLength(year: int, month: int): int {
    if month == 2 then (if IsLeap(year) then 29 else 28)
    else if month == 4 || month == 6 || month == 9 || month == 11 then 30
    else 31
  }

  /** The days from the first of January 1970 to that of another year, counted year by year. */
  function DaysToYear(year: int): int
    decreases if year < 1970 then 1970 - year else year - 1970
  {
    if year == 1970 then 0
    else if year > 1970 then DaysToYear(year - 1) + YearLength(year - 1)
    else DaysToYear(year + 1) - YearLength(year)
  }

  function DaysToMonth(year: int, month: int): int
    requires 1 <= month <= 13
    decreases month
  {
    if month == 1 then 0 else DaysToMonth(year, month - 1) + MonthLength(year, month - 1)
  }

  /** The number of the day in the Unix count, by the calendar. */
  function DayNumber(year: int, month: int, day: int): int
    requires 1 <= month <= 12
  {
    DaysToYear(year) + DaysToMonth(year, month) + day - 1
  }

  predicate ValidDate(f: Fields) {
    1 <= f.month <= 12 && 1 <= f.day <= MonthLength(f.year, f.month) && 0 <= f.hour < 24 && 0 <= f.minute < 60
  }

  function Leaps(year: int): int {
    year / 4 - year / 100 + year / 400
  }

  lemma StepBy4(n: int)
    ensures n / 4 == (n - 1) / 4 + if n % 4 == 0 then 1 else 0
  {
  }

  lemma StepBy100(n: int)
    ensures n / 100 == (n - 1) / 100 + if n % 100 == 0 then 1 else 0
  {
  }

  lemma StepBy400(n: int)
    ensures n / 400 == (n - 1) / 400 + if n % 400 == 0 then 1 else 0
  {
  }

  lemma Multiples(n: int)
    ensures n % 400 == 0 ==> n % 100 == 0
    ensures n % 100 == 0 ==> n % 4 == 0
  {
    if n % 400 == 0 { Hundreds(4 * (n / 400)); }
    if n % 100 == 0 { Fours(25 * (n / 100)); }
  }

  lemma Hundreds(k: int)
    ensures (100 * k) % 100 == 0
  {
  }

  lemma Fours(k: int)
    ensures (4 * k) % 4 == 0
  {
  }

  lemma LeapStep(year: int)
    ensures Leaps(year) == Leaps(year - 1) + if IsLeap(year) then 1 else 0
  {
    StepBy4(year);
    StepBy100(year);
    StepBy400(year);
    Multiples(year);
  }

  lemma {:induction false} DaysToYearClosed(year: int)
    ensures DaysToYear(year) == 365 * (year - 1970) + Leaps(year - 1) - 477
    decreases if year < 1970 then 1970 - year else year - 1970
  {
    if year > 1970 {
      DaysToYearClosed(year - 1);
      LeapStep(year - 1);
    } else if year < 1970 {
      DaysToYearClosed(year + 1);
      LeapStep(year);
    }
  }

  /** The days from the first of March 0000 to that of another year. */
  function MarchDays(year: int): int {
    365 * year + Leaps(year)
  }

  /** Days before a month, counted from March, by the formula of the algorithm. */
  function MonthStart(shifted: int): int {
    (153 * shifted + 2) / 5
  }

  lemma MonthsByFormula(year: int, month: int)
    requires 1 <= month <= 12
    ensures month >= 3 ==> DaysToMonth(year, month) == DaysToMonth(year, 3) + MonthStart(month - 3)
    ensures month < 3 ==> DaysToMonth(year, month) == MonthStart(month + 9) - 306
    ensures DaysToMonth(year, 3) == 59 + if IsLeap(year) then 1 else 0
  {
    if month > 1 { MonthsByFormula(year, month - 1); }
    if month < 3 { assert DaysToMonth(year, 2) == 31; }
    assert DaysToMonth(year, 3) == DaysToMonth(year, 2) + MonthLength(year, 2);
  }

  /** Day numbers in terms of years and months that start in March. */
  lemma MarchNumber(year: int, shifted: int, day: int)
    requires 0 <= shifted <= 11
    ensures var y := if shifted < 10 then year else year + 1;
            var m := if shifted < 10 then shifted + 3 else shifted - 9;
            DayNumber(y, m, day) + 719_468 == MarchDays(year) + MonthStart(shifted) + day - 1
  {
    var y := if shifted < 10 then year else year + 1;
    var m := if shifted < 10 then shifted + 3 else shifted - 9;
    MonthsByFormula(y, m);
    DaysToYearClosed(y);
    LeapStep(y);
  }

  /** The first day of a year of an era. */
  function YearStart(yearOfEra: int): int {
    365 * yearOfEra + yearOfEra / 4 - yearOfEra / 100
  }

  /** A day of an era: century `c`, four-year block `b` of it, day `t` of the block. */
  predicate InEra(c: int, b: int, t: int) {
    0 <= c < 4 && 0 <= b < 25 && 0 <= t <= 1_460 && (b == 24 ==> t < 1_460 || c == 3)
  }

  function EraDay(c: int, b: int, t: int): int {
    36_524 * c + 1_461 * b + t
  }

  function YearOfBlock(t: int): int {
    if t < 365 then 0 else if t < 730 then 1 else if t < 1_095 then 2 else 3
  }

  lemma Split(dayOfEra: int) returns (c: int, b: int, t: int)
    requires 0 <= dayOfEra < 146_097
    ensures InEra(c, b, t) && dayOfEra == EraDay(c, b, t)
  {
    c := if dayOfEra < 36_524 then 0 else if dayOfEra < 73_048 then 1 else if dayOfEra < 109_572 then 2 else 3;
    var rest := dayOfEra - 36_524 * c;
    b := rest / 1_461;
    t := rest % 1_461;
  }

  lemma Quotients(c: int, b: int, t: int)
    requires InEra(c, b, t)
    ensures var d := EraDay(c, b, t);
            var last := if d == 146_096 then 1 else 0;
            && d / 36_524 == c + last && d / 146_096 == last
            && d / 1_460 == 25 * c + b + (24 * c + b + t) / 1_460
  {
    var d := EraDay(c, b, t);
    assert d == 1_460 * (25 * c + b) + (24 * c + b + t);
  }

  lemma YearByBlock(c: int, b: int, t: int)
    requires InEra(c, b, t)
    ensures YearOfEra(EraDay(c, b, t)) == 100 * c + 4 * b + YearOfBlock(t)
  {
    Quotients(c, b, t);
    var slack := (24 * c + b + t) / 1_460;
    assert slack == if 24 * c + b + t >= 1_460 then 1 else 0;
    var k := YearOfBlock(t);
    assert EraDay(c, b, t) - EraDay(c, b, t) / 1_460 + EraDay(c, b, t) / 36_524 - EraDay(c, b, t) / 146_096
        == 365 * (100 * c + 4 * b) + t - slack;
    assert 365 * k <= t - slack < 365 * (k + 1);
  }

  lemma YearStartByBlock(c: int, b: int, k: int)
    requires 0 <= c < 4 && 0 <= b < 25 && 0 <= k < 4
    ensures YearStart(100 * c + 4 * b + k) == EraDay(c, b, 365 * k)
    ensures k == 3 ==> YearStart(100 * c + 4 * b + 4) == EraDay(c, b, 1_461) - if b == 24 then 1 else 0
  {
    var y := 100 * c + 4 * b + k;
    assert y / 4 == 25 * c + b;
    assert y / 100 == c;
  }

  /** The year found for a day of an era holds that day. */
  lemma YearOfEraExact(dayOfEra: int)
    requires 0 <= dayOfEra < 146_097
    ensures var y := YearOfEra(dayOfEra);
            && 0 <= y < 400
            && YearStart(y) <= dayOfEra
            && (dayOfEra < YearStart(y + 1) || (y == 399 && dayOfEra == 146_096))
  {
    var c, b, t := Split(dayOfEra);
    var k := YearOfBlock(t);
    YearByBlock(c, b, t);
    YearStartByBlock(c, b, k);
    if k < 3 { YearStartByBlock(c, b, k + 1); }
  }

  lemma EraShift(era: int, y: int)
    requires 0 <= y <= 400
    ensures IsLeap(400 * era + y) == IsLeap(y)
    ensures y < 400 ==> MarchDays(400 * era + y) == 146_097 * era + YearStart(y)
  {
    assert (400 * era + y) / 4 == 100 * era + y / 4 && (400 * era + y) % 4 == y % 4;
    assert (400 * era + y) / 100 == 4 * era + y / 100 && (400 * era + y) % 100 == y % 100;
    assert (400 * era + y) / 400 == era + y / 400 && (400 * era + y) % 400 == y % 400;
  }

  /** A March year has a day 365 only before a leap February's end. */
  lemma LastDay(y: int, dayOfEra: int)
    requires 0 <= y < 400 && 0 <= dayOfEra < 146_097 && YearStart(y) <= dayOfEra
    requires dayOfEra < YearStart(y + 1) || (y == 399 && dayOfEra == 146_096)
    ensures dayOfEra - YearStart(y) <= 364 + if IsLeap(y + 1) then 1 else 0
  {
    StepBy4(y + 1);
    StepBy100(y + 1);
    Multiples(y + 1);
  }

  lemma MonthOfDay(dayOfYear: int)
    requires 0 <= dayOfYear <= 365
    ensures var m := (5 * dayOfYear + 2) / 153;
            0 <= m <= 11 && MonthStart(m) <= dayOfYear && (m < 11 ==> dayOfYear < MonthStart(m + 1))
  {
  }

  lemma MonthFits(year: int, shifted: int, day: int)
    requires 0 <= shifted <= 11 && 1 <= day
    requires if shifted < 11 then MonthStart(shifted) + day - 1 < MonthStart(shifted + 1)
             else MonthStart(shifted) + day - 1 <= 364 + if IsLeap(year + 1) then 1 else 0
    ensures var y := if shifted < 10 then year else year + 1;
            var m := if shifted < 10 then shifted + 3 else shifted - 9;
            day <= MonthLength(y, m)
  {
  }

  predicate ValidDay(d: Date) {
    1 <= d.month <= 12 && 1 <= d.day <= MonthLength(d.year, d.month)
  }

  lemma MarchDateExact(year: int, dayOfYear: int)
    requires 0 <= dayOfYear <= 364 + if IsLeap(year + 1) then 1 else 0
    ensures var d := MarchDate(year, dayOfYear);
            ValidDay(d) && DayNumber(d.year, d.month, d.day) + 719_468 == MarchDays(year) + dayOfYear
  {
    var shifted := (5 * dayOfYear + 2) / 153;
    MonthOfDay(dayOfYear);
    var day := dayOfYear - MonthStart(shifted) + 1;
    MonthFits(year, shifted, day);
    MarchNumber(year, shifted, day);
  }

  lemma DayOfYearFits(era: int, y: int, dayOfEra: int)
    requires 0 <= y < 400 && 0 <= dayOfEra < 146_097 && YearStart(y) <= dayOfEra
    requires dayOfEra < YearStart(y + 1) || (y == 399 && dayOfEra == 146_096)
    ensures dayOfEra - YearStart(y) <= 364 + if IsLeap(400 * era + y + 1) then 1 else 0
  {
    LastDay(y, dayOfEra);
    EraShift(era, y + 1);
  }

  lemma EraYearExact(era: int, y: int, dayOfEra: int, d: Date)
    requires 0 <= y < 400 && 0 <= dayOfEra < 146_097 && YearStart(y) <= dayOfEra
    requires dayOfEra < YearStart(y + 1) || (y == 399 && dayOfEra == 146_096)
    requires d == MarchDate(400 * era + y, dayOfEra - YearStart(y))
    ensures ValidDay(d) && DayNumber(d.year, d.month, d.day) + 719_468 == 146_097 * era + dayOfEra
  {
    DayOfYearFits(era, y, dayOfEra);
    EraShift(era, y);
    MarchDateExact(400 * era + y, dayOfEra - YearStart(y));
  }

  lemma EraDateExact(era: int, dayOfEra: int)
    requires 0 <= dayOfEra < 146_097
    ensures var d := EraDate(era, dayOfEra);
            ValidDay(d) && DayNumber(d.year, d.month, d.day) + 719_468 == 146_097 * era + dayOfEra
  {
    YearOfEraExact(dayOfEra);
    EraYearExact(era, YearOfEra(dayOfEra), dayOfEra, EraDate(era, dayOfEra));
  }

  lemma DateIsExact(days: int)
    ensures var d := CivilDate(days); ValidDay(d) && DayNumber(d.year, d.month, d.day) == days
  {
    var z := days + 719_468;
    EraDateExact(z / 146_097, z % 146_097);
  }

  /** The fields of any Unix second are a valid date, and its calendar day count is the day's number. */
  lemma CivilIsExact(seconds: int)
    ensures CivilUtc(seconds).Some?
    ensures var f := CivilUtc(seconds).value;
            && ValidDate(f)
            && DayNumber(f.year, f.month, f.day) == seconds / 86_400
            && 86_400 * DayNumber(f.year, f.month, f.day) + 3_600 * f.hour + 60 * f.minute <= seconds
            && seconds < 86_400 * DayNumber(f.year, f.month, f.day) + 3_600 * f.hour + 60 * f.minute + 60
  {
    DateIsExact(seconds / 86_400);
    Clock(seconds % 86_400);
  }

  lemma Clock(remainder: int)
    requires 0 <= remainder < 86_400
    ensures var h, m := remainder / 3_600, remainder % 3_600 / 60;
            0 <= h < 24 && 0 <= m < 60 && 3_600 * h + 60 * m <= remainder < 3_600 * h + 60 * m + 60
  {
  }

  predicate Before(a: Fields, b: Fields) {
    || a.year < b.year
    || (a.year == b.year && a.month < b.month)
    || (a.year == b.year && a.month == b.month && a.day < b.day)
  }

  lemma {:induction false} YearsGrow(a: int, b: int)
    requires a <= b
    ensures DaysToYear(a) <= DaysToYear(b)
    ensures a < b ==> DaysToYear(a) + YearLength(a) <= DaysToYear(b)
    decreases b - a
  {
    if a < b {
      YearsGrow(a, b - 1);
      DaysToYearClosed(b);
      DaysToYearClosed(b - 1);
      LeapStep(b - 1);
    }
  }

  lemma {:induction false} MonthsGrow(year: int, a: int, b: int)
    requires 1 <= a <= b <= 13
    ensures DaysToMonth(year, a) <= DaysToMonth(year, b)
    ensures a < b ==> DaysToMonth(year, a) + MonthLength(year, a) <= DaysToMonth(year, b)
    decreases b - a
  {
    if a < b { MonthsGrow(year, a, b - 1); }
  }

  lemma WholeYear(year: int)
    ensures DaysToMonth(year, 13) == YearLength(year)
  {
    MonthsByFormula(year, 12);
    assert DaysToMonth(year, 13) == DaysToMonth(year, 12) + 31;
  }

  /** Later dates have greater day numbers, so a day number belongs to one date only. */
  lemma DatesGrow(a: Fields, b: Fields)
    requires ValidDate(a) && ValidDate(b) && Before(a, b)
    ensures DayNumber(a.year, a.month, a.day) < DayNumber(b.year, b.month, b.day)
  {
    MonthsGrow(b.year, 1, b.month);
    if a.year < b.year {
      MonthsGrow(a.year, a.month, 13);
      WholeYear(a.year);
      YearsGrow(a.year, b.year);
    } else if a.month < b.month {
      MonthsGrow(a.year, a.month, b.month);
    }
  }

  lemma DateUnique(a: Fields, b: Fields)
    requires ValidDate(a) && ValidDate(b) && DayNumber(a.year, a.month, a.day) == DayNumber(b.year, b.month, b.day)
    ensures a.year == b.year && a.month == b.month && a.day == b.day
  {
    if Before(a, b) { DatesGrow(a, b); }
    if Before(b, a) { DatesGrow(b, a); }
  }

  /** Every valid date and time is found again from any second of its minute. */
  lemma CivilInverts(f: Fields, second: int)
    requires ValidDate(f) && 0 <= second < 60
    ensures CivilUtc(86_400 * DayNumber(f.year, f.month, f.day) + 3_600 * f.hour + 60 * f.minute + second) == Some(f)
  {
    var day := DayNumber(f.year, f.month, f.day);
    ClockInverts(f.hour, f.minute, second, day);
    FoundAgain(f, 86_400 * day + 3_600 * f.hour + 60 * f.minute + second);
  }

  lemma FoundAgain(f: Fields, seconds: int)
    requires ValidDate(f) && seconds / 86_400 == DayNumber(f.year, f.month, f.day)
    requires seconds % 86_400 / 3_600 == f.hour && seconds % 86_400 % 3_600 / 60 == f.minute
    ensures CivilUtc(seconds) == Some(f)
  {
    CivilIsExact(seconds);
    DateUnique(f, CivilUtc(seconds).value);
  }

  lemma ClockInverts(hour: int, minute: int, second: int, day: int)
    requires 0 <= hour < 24 && 0 <= minute < 60 && 0 <= second < 60
    ensures var s := 86_400 * day + 3_600 * hour + 60 * minute + second;
            s / 86_400 == day && s % 86_400 / 3_600 == hour && s % 86_400 % 3_600 / 60 == minute
  {
    var inDay := 3_600 * hour + 60 * minute + second;
    assert 0 <= inDay < 86_400 && (86_400 * day + inDay) / 86_400 == day && (86_400 * day + inDay) % 86_400 == inDay;
    assert inDay / 3_600 == hour && inDay % 3_600 == 60 * minute + second;
  }

  /** Not earlier, to the minute. */
  predicate NotAfter(a: Fields, b: Fields) {
    Before(a, b) || (a.year == b.year && a.month == b.month && a.day == b.day &&
                     (a.hour < b.hour || (a.hour == b.hour && a.minute <= b.minute)))
  }

  /** Time that passes never turns the rendered clock back. */
  lemma CivilMonotone(s: int, t: int)
    requires s <= t
    ensures CivilUtc(s).Some? && CivilUtc(t).Some? && NotAfter(CivilUtc(s).value, CivilUtc(t).value)
  {
    CivilIsExact(s);
    CivilIsExact(t);
    var a, b := CivilUtc(s).value, CivilUtc(t).value;
    assert s / 86_400 <= t / 86_400;
    if Before(b, a) { DatesGrow(b, a); }
  }
}
