/** Timestamps as the tables store them (`created_at`): a calendar date and
    the instant within that day. "Now" is never read from a clock; callers
    pass today's stamp in. */
module Calendar {

  /** `second` is the instant within the day; only its order matters. */
  datatype Stamp = Stamp(year: int, month: int, day: int, second: int)

  predicate LeapYear(y: int)
  {
    y % 4 == 0 && (y % 100 != 0 || y % 400 == 0)
  }

  /** The length of a month of the Gregorian calendar. */
  function DaysInMonth(year: int, month: int): int
  {
    if month == 2 then (if LeapYear(year) then 29 else 28)
    else if month == 4 || month == 6 || month == 9 || month == 11 then 30
    else 31
  }

  /** A stamp a Python `datetime` can hold: years 1 to 9999, a real date of
      the Gregorian calendar, and an instant within that day. */
  predicate ValidStamp(t: Stamp)
  {
    && 1 <= t.year <= 9999
    && 1 <= t.month <= 12
    && 1 <= t.day <= DaysInMonth(t.year, t.month)
    && 0 <= t.second < 86400
  }

  predicate SameDay(a: Stamp, b: Stamp)
  {
    a.year == b.year && a.month == b.month && a.day == b.day
  }

  /** Chronological order, which is also the order in which SQLite compares
      its ISO-8601 timestamp text. */
  predicate AtOrBefore(a: Stamp, b: Stamp)
  {
    || a.year < b.year
    || (a.year == b.year && a.month < b.month)
    || (a.year == b.year && a.month == b.month && a.day < b.day)
    || (a.year == b.year && a.month == b.month && a.day == b.day && a.second <= b.second)
  }

  lemma AtOrBeforeTotal(a: Stamp, b: Stamp)
    ensures AtOrBefore(a, b) || AtOrBefore(b, a)
    ensures AtOrBefore(a, b) && AtOrBefore(b, a) ==> a == b
  {
  }

  /** `datetime.combine(day, datetime.min.time())` and `strptime(.., '%Y-%m-%d')`:
      the start of the stamp's day. */
  function Midnight(t: Stamp): (r: Stamp)
    ensures SameDay(r, t)
    ensures ValidStamp(t) ==> ValidStamp(r)
    ensures forall s :: ValidStamp(s) && SameDay(s, t) ==> AtOrBefore(r, s)
  {
    Stamp(t.year, t.month, t.day, 0)
  }

  /** SQLite's `date('now', 'start of month')`: a valid stamp is at or after
      it exactly when it falls in that month or a later one. */
  function MonthStart(t: Stamp): (r: Stamp)
    ensures ValidStamp(t) ==> ValidStamp(r)
    ensures forall s :: ValidStamp(s) ==>
      (AtOrBefore(r, s) <==> s.year > t.year || (s.year == t.year && s.month >= t.month))
  {
    Stamp(t.year, t.month, 1, 0)
  }

  function MonthOffset(month: int): int
  {
    if month == 1 then 0 else if month == 2 then 3 else if month == 3 then 2
    else if month == 4 then 5 else if month == 5 then 0 else if month == 6 then 3
    else if month == 7 then 5 else if month == 8 then 1 else if month == 9 then 4
    else if month == 10 then 6 else if month == 11 then 2 else if month == 12 then 4
    else 0
  }

  /** SQLite's `strftime('%w', t)`: day of the week, 0 for Sunday, by the
      Gregorian calendar (Sakamoto's method). */
  function Weekday(t: Stamp): (w: int)
    ensures 0 <= w < 7
  {
    var y := if t.month < 3 then t.year - 1 else t.year;
    (YearTerm(y) + MonthOffset(t.month) + t.day) % 7
  }

  /** The year's share of Sakamoto's sum: one day per year and one per leap day. */
  function YearTerm(y: int): int
  {
    y + y / 4 - y / 100 + y / 400
  }

  /** Sakamoto's method on dates whose weekday is known: 1970-01-01 and
      2024-02-29 were Thursdays, 2000-01-01 a Saturday, 2023-10-02 a Monday. */
  lemma WeekdayOfKnownDates()
    ensures Weekday(Stamp(1970, 1, 1, 0)) == 4
    ensures Weekday(Stamp(2000, 1, 1, 0)) == 6
    ensures Weekday(Stamp(2024, 2, 29, 0)) == 4
    ensures Weekday(Stamp(2023, 10, 2, 0)) == 1
  {
    assert 1969 / 4 == 492 && 1969 / 100 == 19 && 1969 / 400 == 4;
    assert 1999 / 4 == 499 && 1999 / 100 == 19 && 1999 / 400 == 4;
    assert 2023 / 4 == 505 && 2023 / 100 == 20 && 2023 / 400 == 5;
    assert 2447 % 7 == 4 && 2484 % 7 == 6 && 2545 % 7 == 4 && 2521 % 7 == 1;
  }

  /** Within a month, the next day is the next weekday; the instant does not matter. */
  lemma WeekdayNextDay(t: Stamp, second: int)
    requires ValidStamp(t) && t.day < DaysInMonth(t.year, t.month)
    ensures Weekday(Stamp(t.year, t.month, t.day + 1, second)) == (Weekday(t) + 1) % 7
  {
    var y := if t.month < 3 then t.year - 1 else t.year;
    var n := YearTerm(y) + MonthOffset(t.month) + t.day;
    assert Weekday(t) == n % 7;
    assert Weekday(Stamp(t.year, t.month, t.day + 1, second)) == (n + 1) % 7;
    ModSucc(n);
  }

  lemma ModSucc(n: int)
    ensures (n + 1) % 7 == (n % 7 + 1) % 7
  {
  }

  /** The calendar day after the stamp's day, at the same instant: the day
      rolls over into the next month, and December 31 into the next year. */
  function NextDay(t: Stamp): (r: Stamp)
    ensures ValidStamp(t) && t.year < 9999 ==> ValidStamp(r)
    ensures ValidStamp(t) ==> AtOrBefore(t, r) && !SameDay(t, r)
    ensures ValidStamp(t) ==> forall s :: ValidStamp(s) && AtOrBefore(t, s) && !SameDay(t, s) ==> AtOrBefore(Midnight(r), s)
  {
    if t.day < DaysInMonth(t.year, t.month) then Stamp(t.year, t.month, t.day + 1, t.second)
    else if t.month < 12 then Stamp(t.year, t.month + 1, 1, t.second)
    else Stamp(t.year + 1, 1, 1, t.second)
  }

  /** The weekday formula advances by one from every valid day to the next,
      across month and year ends, leap days included. */
  lemma WeekdayAdvances(t: Stamp)
    requires ValidStamp(t)
    ensures Weekday(NextDay(t)) == (Weekday(t) + 1) % 7
  {
    if t.day < DaysInMonth(t.year, t.month) {
      WeekdayNextDay(t, t.second);
    } else if t.month == 2 {
      WeekdayAfterFebruary(t);
    } else {
      WeekdayAfterMonthEnd(t);
    }
  }

  /** From the last day of February to March 1, where the formula's year
      changes from the previous one to this one. */
  lemma WeekdayAfterFebruary(t: Stamp)
    requires ValidStamp(t) && t.month == 2 && t.day == DaysInMonth(t.year, 2)
    ensures Weekday(Stamp(t.year, 3, 1, t.second)) == (Weekday(t) + 1) % 7
  {
    YearTermStep(t.year);
    ModStep(YearTerm(t.year - 1) + MonthOffset(2) + t.day, YearTerm(t.year) + MonthOffset(3) + 1, -28);
  }

  /** A year adds one day to the year term, and a leap year one more. */
  lemma YearTermStep(y: int)
    ensures YearTerm(y) == YearTerm(y - 1) + 1 + (if LeapYear(y) then 1 else 0)
  {
    DivStep(y, 4);
    DivStep(y, 100);
    DivStep(y, 400);
    LeapIndicator(y);
  }

  /** Counting the multiples of 4, less those of 100, plus those of 400,
      counts exactly the leap years. */
  lemma LeapIndicator(y: int)
    ensures (if y % 4 == 0 then 1 else 0) - (if y % 100 == 0 then 1 else 0) + (if y % 400 == 0 then 1 else 0)
         == (if LeapYear(y) then 1 else 0)
  {
    if y % 400 == 0 {
      var q := y / 400;
      assert y == 100 * (4 * q) == 4 * (100 * q);
    } else if y % 100 == 0 {
      var q := y / 100;
      assert y == 4 * (25 * q);
    }
  }

  lemma DivStep(y: int, d: int)
    requires d == 4 || d == 100 || d == 400
    ensures y / d == (y - 1) / d + (if y % d == 0 then 1 else 0)
  {
  }

  /** From the last day of any other month to the first of the next; the
      formula's year stays the same, December to January included. */
  lemma WeekdayAfterMonthEnd(t: Stamp)
    requires ValidStamp(t) && t.month != 2 && t.day == DaysInMonth(t.year, t.month)
    ensures Weekday(NextDay(t)) == (Weekday(t) + 1) % 7
  {
    var y := if t.month < 3 then t.year - 1 else t.year;
    var next := if t.month < 12 then t.month + 1 else 1;
    var a := YearTerm(y) + MonthOffset(t.month) + t.day;
    var b := YearTerm(y) + MonthOffset(next) + 1;
    assert Weekday(t) == a % 7;
    if t.month < 12 {
      assert NextDay(t) == Stamp(t.year, next, 1, t.second);
    } else {
      assert NextDay(t) == Stamp(t.year + 1, 1, 1, t.second);
    }
    assert Weekday(NextDay(t)) == b % 7;
    MonthTable(t.year, t.month);
    ModStep(a, b, MonthOffset(next) - MonthOffset(t.month) - t.day);
  }

  /** Sakamoto's offsets: a month's offset plus its length is the next
      month's offset, modulo 7, except across February's end. */
  lemma MonthTable(year: int, m: int)
    requires 1 <= m <= 12 && m != 2
    ensures (MonthOffset(if m < 12 then m + 1 else 1) - MonthOffset(m) - DaysInMonth(year, m)) % 7 == 0
  {
  }

  lemma ModStep(a: int, b: int, k: int)
    requires b == a + 1 + k && k % 7 == 0
    ensures b % 7 == (a % 7 + 1) % 7
  {
  }
}
