/** The two day-to-date algorithms: the closed form of `now_iso` and the loops of `days_to_ymd`. Both undo
    the same count of days, so they agree. */
module Calendar {
  datatype Date = Date(year: int, month: int, day: int)

  /** The leap rule of appendix C of RFC 3339. */
  predicate IsLeap(y: int) {
    (y % 4 == 0 && y % 100 != 0) || y % 400 == 0
  }

  function MonthLength(y: int, m: int): int {
    if m == 2 then (if IsLeap(y) then 29 else 28)
    else if m == 4 || m == 6 || m == 9 || m == 11 then 30
    else 31
  }

  /** The valid Gregorian dates. */
  predicate IsDate(d: Date) {
    1 <= d.month <= 12 && 1 <= d.day <= MonthLength(d.year, d.month)
  }

  /** Days in the months of year `y` before month `m`. */
  function DaysBeforeMonth(y: int, m: int): int
    requires 1 <= m <= 13
  {
    if m == 1 then 0 else DaysBeforeMonth(y, m - 1) + MonthLength(y, m - 1)
  }

  /** Days from 1970-01-01 to the first of January of year `y`. */
  function DaysBeforeYear(y: int): int
    requires y >= 1970
  {
    if y == 1970 then 0 else DaysBeforeYear(y - 1) + DaysBeforeMonth(y - 1, 13)
  }

  /** The day number of a date: days since 1970-01-01, counted year by year and month by month. */
  function DayNumber(d: Date): int
    requires d.year >= 1970 && 1 <= d.month <= 12
  {
    DaysBeforeYear(d.year) + DaysBeforeMonth(d.year, d.month) + d.day - 1
  }

  lemma MonthStarts(y: int)
    ensures forall m :: 1 <= m <= 13 ==>
              DaysBeforeMonth(y, m) == [0, 31, 59, 90, 120, 151, 181, 212, 243, 273, 304, 334, 365][m - 1]
                                       + (if m > 2 && IsLeap(y) then 1 else 0)
  {
    assert DaysBeforeMonth(y, 1) == 0;
    assert DaysBeforeMonth(y, 2) == 31;
    assert DaysBeforeMonth(y, 3) == DaysBeforeMonth(y, 2) + MonthLength(y, 2);
    assert DaysBeforeMonth(y, 4) == DaysBeforeMonth(y, 3) + 31;
    assert DaysBeforeMonth(y, 5) == DaysBeforeMonth(y, 4) + 30;
    assert DaysBeforeMonth(y, 6) == DaysBeforeMonth(y, 5) + 31;
    assert DaysBeforeMonth(y, 7) == DaysBeforeMonth(y, 6) + 30;
    assert DaysBeforeMonth(y, 8) == DaysBeforeMonth(y, 7) + 31;
    assert DaysBeforeMonth(y, 9) == DaysBeforeMonth(y, 8) + 31;
    assert DaysBeforeMonth(y, 10) == DaysBeforeMonth(y, 9) + 30;
    assert DaysBeforeMonth(y, 11) == DaysBeforeMonth(y, 10) + 31;
    assert DaysBeforeMonth(y, 12) == DaysBeforeMonth(y, 11) + 30;
    assert DaysBeforeMonth(y, 13) == DaysBeforeMonth(y, 12) + 31;
  }

  // ----- The closed form of now_iso -----

  function YearOfEra(doe: int): int {
    (doe - doe / 1460 + doe / 36524 - doe / 146096) / 365
  }

  function DayOfYear(doe: int): int {
    var yoe := YearOfEra(doe);
    doe - (365 * yoe + yoe / 4 - yoe / 100)
  }

  /** Day `doy` of the year that starts in March of year `y`. */
  function FromMarch(y: int, doy: int): Date {
    var mp := (5 * doy + 2) / 153;
    var d := doy - (153 * mp + 2) / 5 + 1;
    var m := if mp < 10 then mp + 3 else mp - 9;
    Date(if m <= 2 then y + 1 else y, m, d)
  }

  /** The proleptic date of a day number, by eras of 400 years that start in March. */
  function CivilFromDays(days: int): Date {
    var z := days + 719468;
    var era := (if z >= 0 then z else z - 146096) / 146097;
    var doe := z - era * 146097;
    FromMarch(YearOfEra(doe) + era * 400, DayOfYear(doe))
  }

  /** A day of an era as century, four-year cycle, year of the cycle and day of the year. */
  lemma EraParts(doe: int) returns (c: int, q: int, t: int, s: int)
    requires 0 <= doe <= 146096
    ensures 0 <= c <= 3 && 0 <= q <= 24 && 0 <= t <= 3 && 0 <= s <= 365
    ensures doe == 36524 * c + 1461 * q + 365 * t + s
    ensures s == 365 ==> t == 3 && (q < 24 || c == 3)
  {
    c := if doe == 146096 then 3 else doe / 36524;
    var r := doe - 36524 * c;
    q := r / 1461;
    var r2 := r - 1461 * q;
    t := if r2 == 1460 then 3 else r2 / 365;
    s := r2 - 365 * t;
  }

  /** The division formula recovers the parts. */
  lemma YearOfEraIsExact(doe: int, c: int, q: int, t: int, s: int)
    requires 0 <= doe <= 146096
    requires 0 <= c <= 3 && 0 <= q <= 24 && 0 <= t <= 3 && 0 <= s <= 365
    requires doe == 36524 * c + 1461 * q + 365 * t + s
    requires s == 365 ==> t == 3 && (q < 24 || c == 3)
    ensures YearOfEra(doe) == 100 * c + 4 * q + t
    ensures DayOfYear(doe) == s
  {
    var e := 24 * c + q + 365 * t + s;
    assert doe == 1460 * (25 * c + q) + e;
    assert doe / 1460 == 25 * c + q + (if e >= 1460 then 1 else 0);
    if doe < 146096 {
      assert doe / 36524 == c && doe / 146096 == 0;
    } else {
      assert doe / 36524 == 4 && doe / 146096 == 1;
    }
    var yoe := 100 * c + 4 * q + t;
    assert yoe / 4 == 25 * c + q && yoe / 100 == c;
  }

  /** Leap years up to and including year `y`. */
  function Leaps(y: int): int {
    y / 4 - y / 100 + y / 400
  }

  lemma DivStep(y: int, k: int)
    requires k == 4 || k == 100 || k == 400
    ensures y / k - (y - 1) / k == if y % k == 0 then 1 else 0
  {
    var a, b := y / k, y % k;
    if b == 0 {
      DivUnique(y - 1, k, a - 1, k - 1);
    } else {
      DivUnique(y - 1, k, a, b - 1);
    }
  }

  lemma LeapStep(y: int)
    ensures Leaps(y) - Leaps(y - 1) == if IsLeap(y) then 1 else 0
  {
    DivStep(y, 4);
    DivStep(y, 100);
    DivStep(y, 400);
    NestedDivisors(y);
  }

  lemma NestedDivisors(y: int)
    ensures y % 400 == 0 ==> y % 100 == 0
    ensures y % 100 == 0 ==> y % 4 == 0
  {
    if y % 400 == 0 {
      DivUnique(y, 100, 4 * (y / 400), 0);
    }
    if y % 100 == 0 {
      DivUnique(y, 4, 25 * (y / 100), 0);
    }
  }

  /** Euclidean division by the three divisors of the leap rule. */
  lemma DivUnique(x: int, k: int, a: int, b: int)
    requires k == 4 || k == 100 || k == 400
    requires 0 <= b < k && x == k * a + b
    ensures x / k == a && x % k == b
  {
    if k == 4 {
      assert x == 4 * a + b;
    } else if k == 100 {
      assert x == 100 * a + b;
    } else {
      assert x == 400 * a + b;
    }
  }

  /** The year sum in closed form. */
  lemma {:induction false} YearSum(y: int)
    requires y >= 1970
    ensures DaysBeforeYear(y) == 365 * (y - 1970) + Leaps(y - 1) - 477
  {
    if y > 1970 {
      YearSum(y - 1);
      MonthStarts(y - 1);
      LeapStep(y - 1);
    }
  }

  /** Month `mp` of the March year begins on its day `(153 mp + 2) / 5`, and `(5 doy + 2) / 153` inverts it. */
  lemma MarchMonth(doy: int)
    requires 0 <= doy <= 365
    ensures var mp := (5 * doy + 2) / 153;
            && 0 <= mp <= 11
            && (153 * mp + 2) / 5 == [0, 31, 61, 92, 122, 153, 184, 214, 245, 275, 306, 337][mp]
            && (153 * mp + 2) / 5 <= doy
            && (mp < 11 ==> doy < [31, 61, 92, 122, 153, 184, 214, 245, 275, 306, 337][mp])
  {
  }

  /** The closed form yields a valid date from 1970 on whose day number is the one it started from. */
  lemma CivilIsExact(n: nat)
    ensures var d := CivilFromDays(n); d.year >= 1970 && IsDate(d) && DayNumber(d) == n
  {
    hide FromMarch, IsDate, DayNumber, YearOfEra, DayOfYear, IsLeap, Leaps;
    var z := n + 719468;
    var era := z / 146097;
    var doe := z - era * 146097;
    var c, q, t, s := EraParts(doe);
    YearOfEraIsExact(doe, c, q, t, s);
    var y := 100 * c + 4 * q + t + era * 400;
    MarchYear(era, c, q, t);
    if s == 365 {
      LeapEnd(era, c, q);
    }
    MarchToCivil(n, y, s);
  }

  lemma MarchYear(era: int, c: int, q: int, t: int)
    requires 0 <= c <= 3 && 0 <= q <= 24 && 0 <= t <= 3
    ensures var y := 100 * c + 4 * q + t + era * 400;
            Leaps(y) == era * 97 + 24 * c + q
  {
    var y := 100 * c + 4 * q + t + era * 400;
    DivUnique(y, 4, 100 * era + 25 * c + q, t);
    DivUnique(y, 100, 4 * era + c, 4 * q + t);
    DivUnique(y, 400, era, 100 * c + 4 * q + t);
  }

  lemma LeapEnd(era: int, c: int, q: int)
    requires 0 <= c <= 3 && 0 <= q <= 24 && (q < 24 || c == 3)
    ensures IsLeap(100 * c + 4 * q + 3 + era * 400 + 1)
  {
    var y := 100 * c + 4 * q + 4 + era * 400;
    DivUnique(y, 4, 100 * era + 25 * c + q + 1, 0);
    if q < 24 {
      DivUnique(y, 100, 4 * era + c, 4 * q + 4);
    } else {
      DivUnique(y, 400, era + 1, 0);
    }
  }

  /** Such a day is a valid date, and counting to it gives its number. */
  lemma MarchToCivil(n: nat, y: int, s: int)
    requires 0 <= s <= 365 && (s == 365 ==> IsLeap(y + 1))
    requires 365 * y + Leaps(y) + s == n + 719468
    ensures var d := FromMarch(y, s); d.year >= 1970 && IsDate(d) && DayNumber(d) == n
  {
    var mp := (5 * s + 2) / 153;
    MarchMonth(s);
    YearIsLate(n, y, s);
    LeapStep(y);
    if mp < 10 {
      MonthStarts(y);
      YearSum(y);
    } else {
      MonthStarts(y + 1);
      YearSum(y + 1);
    }
  }

  lemma YearIsLate(n: nat, y: int, s: int)
    requires 0 <= s <= 365
    requires 365 * y + Leaps(y) + s == n + 719468
    ensures y >= 1969
    ensures s < 306 ==> y >= 1970
  {
    if y < 1970 {
      assert Leaps(y) <= 477 by {
        LeapsMonotone(y, 1969);
      }
    }
  }

  lemma {:induction false} LeapsMonotone(y: int, y': int)
    requires y <= y'
    ensures Leaps(y) <= Leaps(y')
    decreases y' - y
  {
    if y < y' {
      LeapStep(y');
      LeapsMonotone(y, y' - 1);
    }
  }

  // ----- Agreement -----

  /** Earlier dates have smaller day numbers. */
  predicate DateLess(a: Date, b: Date) {
    a.year < b.year || (a.year == b.year && (a.month < b.month || (a.month == b.month && a.day < b.day)))
  }

  lemma WithinYear(d: Date)
    requires d.year >= 1970 && IsDate(d)
    ensures DaysBeforeYear(d.year) <= DayNumber(d) < DaysBeforeYear(d.year + 1)
  {
    MonthStarts(d.year);
  }

  lemma {:induction false} YearsIncrease(y: int, y': int)
    requires 1970 <= y <= y'
    ensures DaysBeforeYear(y) <= DaysBeforeYear(y')
    decreases y' - y
  {
    if y < y' {
      MonthStarts(y' - 1);
      YearsIncrease(y, y' - 1);
    }
  }

  lemma DayNumberIncreases(a: Date, b: Date)
    requires a.year >= 1970 && b.year >= 1970 && IsDate(a) && IsDate(b)
    ensures DateLess(a, b) <==> DayNumber(a) < DayNumber(b)
  {
    WithinYear(a);
    WithinYear(b);
    if a.year < b.year {
      YearsIncrease(a.year + 1, b.year);
    } else if b.year < a.year {
      YearsIncrease(b.year + 1, a.year);
    } else {
      MonthStarts(a.year);
    }
  }

  /** Calendar agreement: for every day since the epoch, a date counts that many days exactly when it is the
      closed form's; hence the loops and the closed form return the same valid date. */
  lemma DatesAgree(n: nat, d: Date)
    requires d.year >= 1970 && IsDate(d)
    ensures DayNumber(d) == n <==> d == CivilFromDays(n)
  {
    CivilIsExact(n);
    DayNumberIncreases(d, CivilFromDays(n));
    DayNumberIncreases(CivilFromDays(n), d);
  }

  /** `days_to_ymd`: the year loop subtracts whole years, the month loop whole months; the result is the date
      of the closed form. */
  method DaysToYmd(n: nat) returns (date: Date)
    ensures date.year >= 1970 && IsDate(date) && DayNumber(date) == n
    ensures date == CivilFromDays(n)
  {
    var days := n;
    var y := 1970;
    while true
      invariant y >= 1970 && 0 <= days && DaysBeforeYear(y) + days == n
      decreases days
    {
      MonthStarts(y);
      var dy := if IsLeap(y) then 366 else 365;
      if days < dy {
        break;
      }
      days := days - dy;
      y := y + 1;
    }
    var mdays := [31, if IsLeap(y) then 29 else 28, 31, 30, 31, 30, 31, 31, 30, 31, 30, 31];
    MonthStarts(y);
    var mo := 1;
    var i := 0;
    while i < 12
      invariant 0 <= i <= 12 && mo == i + 1
      invariant 0 <= days
      invariant DaysBeforeYear(y) + DaysBeforeMonth(y, mo) + days == n
      invariant DaysBeforeMonth(y, mo) + days < DaysBeforeMonth(y, 13)
    {
      assert mdays[i] == MonthLength(y, mo);
      if days < mdays[i] {
        break;
      }
      days := days - mdays[i];
      mo := mo + 1;
      i := i + 1;
    }
    date := Date(y, mo, days + 1);
    DatesAgree(n, date);
  }
}
