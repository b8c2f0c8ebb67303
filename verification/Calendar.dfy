/** Calendar arithmetic: the closed-form day number of a civil date against a day-by-day count. */
module Calendar {

  datatype Date = Date(year: int, month: int, day: int)

  // ----- The proleptic Gregorian calendar -----

  predicate Leap(year: int) {
    year % 4 == 0 && (year % 100 != 0 || year % 400 == 0)
  }

  function MonthLength(year: int, month: int): int {
    if month == 2 then (if Leap(year) then 29 else 28)
    else if month == 4 || month == 6 || month == 9 || month == 11 then 30
    else 31
  }

  predicate ValidDate(d: Date) {
    1 <= d.month <= 12 && 1 <= d.day <= MonthLength(d.year, d.month)
  }

  function NextDay(d: Date): Date {
    if d.day < MonthLength(d.year, d.month) then Date(d.year, d.month, d.day + 1)
    else if d.month < 12 then Date(d.year, d.month + 1, 1)
    else Date(d.year + 1, 1, 1)
  }

  function PreviousDay(d: Date): Date {
    if d.day > 1 then Date(d.year, d.month, d.day - 1)
    else if d.month > 1 then Date(d.year, d.month - 1, MonthLength(d.year, d.month - 1))
    else Date(d.year - 1, 12, 31)
  }

  predicate Earlier(a: Date, b: Date) {
    a.year < b.year || (a.year == b.year && (a.month < b.month || (a.month == b.month && a.day < b.day)))
  }

  const EPOCH := Date(1970, 1, 1)

  /** The date n days after the epoch, counted one day at a time. */
  function DateAfter(n: int): Date
    decreases if n < 0 then -n else n
  {
    if n == 0 then EPOCH else if n > 0 then NextDay(DateAfter(n - 1)) else PreviousDay(DateAfter(n + 1))
  }

  // ----- The closed form -----

  /** Integer division that truncates toward zero, as Rust's does. */
  function Quotient(a: int, b: int): int
    requires b > 0
  {
    if a >= 0 then a / b else -(-a / b)
  }

  function DaysFromCivil(year0: int, month: int, day: int): int {
    var year := year0 - (if month <= 2 then 1 else 0);
    var era := Quotient(if year >= 0 then year else year - 399, 400);
    var yearOfEra := year - era * 400;
    var adjustedMonth := month + (if month > 2 then -3 else 9);
    var dayOfYear := Quotient(153 * adjustedMonth + 2, 5) + day - 1;
    var dayOfEra := yearOfEra * 365 + Quotient(yearOfEra, 4) - Quotient(yearOfEra, 100) + dayOfYear;
    era * 146097 + dayOfEra - 719468
  }

  function DayNumber(d: Date): int {
    DaysFromCivil(d.year, d.month, d.day)
  }

  /** Truncating division with the correction of 399 floors, so the era is year / 400 rounded down. */
  lemma EraFloors(year: int)
    ensures Quotient(if year >= 0 then year else year - 399, 400) == year / 400
  {
    if year < 0 {
      var q := year / 400;
      assert 400 * q <= year < 400 * q + 400;
      assert (-(year - 399)) / 400 == -q;
    }
  }

  /** Days before year y of the March-based calendar. */
  function YearStart(y: int): int {
    y * 365 + y / 4 - y / 100 + y / 400
  }

  function MonthStart(adjustedMonth: int): int {
    (153 * adjustedMonth + 2) / 5
  }

  lemma ClosedForm(year: int, month: int, day: int)
    requires 1 <= month <= 12
    ensures DaysFromCivil(year, month, day) ==
              if month > 2 then YearStart(year) + MonthStart(month - 3) + day - 1 - 719468
              else YearStart(year - 1) + MonthStart(month + 9) + day - 1 - 719468
  {
    var y := if month > 2 then year else year - 1;
    EraFloors(y);
    var era := y / 400;
    var yoe := y - era * 400;
    assert 0 <= yoe < 400;
    assert y / 4 == era * 100 + yoe / 4;
    assert y / 100 == era * 4 + yoe / 100;
  }

  lemma YearLength(y: int)
    ensures YearStart(y + 1) - YearStart(y) == if Leap(y + 1) then 366 else 365
  {
    assert (y + 1) / 4 - y / 4 == if (y + 1) % 4 == 0 then 1 else 0;
    assert (y + 1) / 100 - y / 100 == if (y + 1) % 100 == 0 then 1 else 0;
    assert (y + 1) / 400 - y / 400 == if (y + 1) % 400 == 0 then 1 else 0;
    DividesDown(y + 1);
  }

  lemma DividesDown(y: int)
    ensures y % 400 == 0 ==> y % 100 == 0
    ensures y % 100 == 0 ==> y % 4 == 0
  {
    if y % 400 == 0 { Multiple100(y, 4 * (y / 400)); }
    if y % 100 == 0 { Multiple4(y, 25 * (y / 100)); }
  }

  lemma Multiple100(y: int, k: int)
    requires y == 100 * k
    ensures y % 100 == 0
  {
  }

  lemma Multiple4(y: int, k: int)
    requires y == 4 * k
    ensures y % 4 == 0
  {
  }

  /** The months from March on are as long as the 153/5 rule spaces their starts. */
  lemma MonthStartsApart(year: int, month: int)
    requires 1 <= month <= 12 && month != 2
    ensures (if month > 2 then month - 3 else month + 9) < 11
    ensures var m := if month > 2 then month - 3 else month + 9;
            MonthStart(m + 1) - MonthStart(m) == MonthLength(year, month)
  {
  }

  /** The day after the last of a month. */
  lemma MonthEndNumber(d: Date)
    requires ValidDate(d) && d.day == MonthLength(d.year, d.month)
    ensures DayNumber(NextDay(d)) == DayNumber(d) + 1
  {
    var e := NextDay(d);
    ClosedForm(d.year, d.month, d.day);
    ClosedForm(e.year, e.month, e.day);
    if d.month == 2 { YearLength(d.year - 1); } else { MonthStartsApart(d.year, d.month); }
  }

  lemma NextDayNumber(d: Date)
    requires ValidDate(d)
    ensures ValidDate(NextDay(d)) && DayNumber(NextDay(d)) == DayNumber(d) + 1
  {
    if d.day == MonthLength(d.year, d.month) {
      MonthEndNumber(d);
    } else {
      ClosedForm(d.year, d.month, d.day);
      ClosedForm(d.year, d.month, d.day + 1);
    }
  }

  lemma PreviousDayNumber(d: Date)
    requires ValidDate(d)
    ensures ValidDate(PreviousDay(d)) && NextDay(PreviousDay(d)) == d
    ensures DayNumber(PreviousDay(d)) == DayNumber(d) - 1
  {
    NextDayNumber(PreviousDay(d));
  }

  /** The numbering grows by one from each valid date to the next and falls by one to the day before. */
  ghost predicate CountsAt(number: Date -> int, d: Date) {
    ValidDate(d) ==>
      && ValidDate(NextDay(d)) && number(NextDay(d)) == number(d) + 1
      && ValidDate(PreviousDay(d)) && number(PreviousDay(d)) == number(d) - 1
  }

  /** Any numbering of the valid dates that is 0 at the epoch and grows by one a day is the count. */
  lemma {:induction false} OnlyOneCount(number: Date -> int, n: int)
    requires number(EPOCH) == 0 && forall d :: CountsAt(number, d)
    ensures ValidDate(DateAfter(n)) && number(DateAfter(n)) == n
    decreases if n < 0 then -n else n
  {
    if n > 0 {
      OnlyOneCount(number, n - 1);
      assert CountsAt(number, DateAfter(n - 1));
    } else if n < 0 {
      OnlyOneCount(number, n + 1);
      assert CountsAt(number, DateAfter(n + 1));
    }
  }

  lemma CountedDate(n: int)
    ensures ValidDate(DateAfter(n)) && DayNumber(DateAfter(n)) == n
  {
    forall d ensures CountsAt(DayNumber, d) {
      if ValidDate(d) {
        NextDayNumber(d);
        PreviousDayNumber(d);
      }
    }
    assert DayNumber(EPOCH) == 0;
    OnlyOneCount(DayNumber, n);
  }

  /** Days since the first of March that begins the date's March-based year. */
  function DayOfMarchYear(d: Date): int {
    MonthStart(if d.month > 2 then d.month - 3 else d.month + 9) + d.day - 1
  }

  function MarchYear(d: Date): int {
    if d.month > 2 then d.year else d.year - 1
  }

  lemma MarchForm(d: Date)
    requires ValidDate(d)
    ensures DayNumber(d) == YearStart(MarchYear(d)) + DayOfMarchYear(d) - 719468
    ensures if d.month > 2 then 0 <= DayOfMarchYear(d) <= 305
            else 306 <= DayOfMarchYear(d) <= (if Leap(d.year) then 365 else 364)
  {
    ClosedForm(d.year, d.month, d.day);
  }

  lemma YearStartsGrow(y: int)
    ensures YearStart(y + 1) >= YearStart(y) + (if Leap(y + 1) then 366 else 365)
  {
    YearLength(y);
  }

  /** First and last day numbers of a year. */
  lemma WithinYear(d: Date)
    requires ValidDate(d)
    ensures DayNumber(Date(d.year, 1, 1)) <= DayNumber(d) < DayNumber(Date(d.year + 1, 1, 1))
  {
    hide DayNumber, YearStart;
    MarchForm(d);
    MarchForm(Date(d.year, 1, 1));
    MarchForm(Date(d.year + 1, 1, 1));
    YearStartsGrow(d.year - 1);
  }

  lemma {:induction false} YearsApart(y: int, z: int)
    requires y < z
    ensures DayNumber(Date(y + 1, 1, 1)) <= DayNumber(Date(z, 1, 1))
    decreases z - y
  {
    if y + 1 < z {
      YearsApart(y + 1, z);
      WithinYear(Date(y + 1, 1, 1));
    }
  }

  lemma MonthsApart(a: Date, b: Date)
    requires ValidDate(a) && ValidDate(b) && a.year == b.year && a.month < b.month && (a.month > 2 || b.month <= 2)
    ensures DayOfMarchYear(a) < DayOfMarchYear(b)
  {
  }

  lemma WithinMonths(a: Date, b: Date)
    requires ValidDate(a) && ValidDate(b) && a.year == b.year && a.month < b.month
    ensures DayNumber(a) < DayNumber(b)
  {
    MarchForm(a);
    MarchForm(b);
    YearStartsGrow(a.year - 1);
    if a.month > 2 || b.month <= 2 { MonthsApart(a, b); }
  }

  lemma AcrossYears(a: Date, b: Date)
    requires ValidDate(a) && ValidDate(b) && a.year < b.year
    ensures DayNumber(a) < DayNumber(b)
  {
    WithinYear(a);
    WithinYear(b);
    YearsApart(a.year, b.year);
  }

  lemma WithinMonth(a: Date, b: Date)
    requires ValidDate(a) && ValidDate(b) && a.year == b.year && a.month == b.month && a.day < b.day
    ensures DayNumber(a) < DayNumber(b)
  {
    MarchForm(a);
    MarchForm(b);
  }

  lemma StrictlyIncreasing(a: Date, b: Date)
    requires ValidDate(a) && ValidDate(b) && Earlier(a, b)
    ensures DayNumber(a) < DayNumber(b)
  {
    if a.year < b.year {
      AcrossYears(a, b);
    } else if a.month < b.month {
      WithinMonths(a, b);
    } else {
      WithinMonth(a, b);
    }
  }

  /** The numbers order valid dates by year, then month, then day. */
  lemma NumbersOrder(a: Date, b: Date)
    requires ValidDate(a) && ValidDate(b)
    ensures DayNumber(a) < DayNumber(b) <==>
            a.year < b.year || (a.year == b.year && (a.month < b.month || (a.month == b.month && a.day < b.day)))
  {
    if Earlier(a, b) { StrictlyIncreasing(a, b); }
    if Earlier(b, a) { StrictlyIncreasing(b, a); }
  }

  /** For every valid date the closed form is the day-by-day count from the epoch. */
  lemma DayNumberCounts(d: Date, n: int)
    requires ValidDate(d)
    ensures DayNumber(d) == n <==> DateAfter(n) == d
  {
    CountedDate(n);
    if DayNumber(d) == n && DateAfter(n) != d {
      if Earlier(d, DateAfter(n)) { StrictlyIncreasing(d, DateAfter(n)); }
      else { StrictlyIncreasing(DateAfter(n), d); }
    }
  }
}
