/** Printed timestamps: when their string order is the order of the instants, which is what the valid-time tests
    on strings rely on. Up to the year 9999 it always is. */
module Timestamps {
  import opened Wrappers
  import opened Calendar
  import opened BrainTypes
  import opened BrainReads
  import opened BrainWrites
  import opened Text

  function Digit(n: int): char
    requires 0 <= n <= 9
  {
    ['0', '1', '2', '3', '4', '5', '6', '7', '8', '9'][n]
  }

  /** A number padded with zeros to at least `width` digits. */
  function Padded(n: nat, width: nat): string
    decreases n, width
  {
    if n < 10 && width <= 1 then [Digit(n)]
    else Padded(n / 10, if width == 0 then 0 else width - 1) + [Digit(n % 10)]
  }

  /** A padded number and the text after it. */
  datatype Field = Field(value: nat, width: nat, after: string)

  function Render(fields: seq<Field>): string {
    if fields == [] then "" else Padded(fields[0].value, fields[0].width) + fields[0].after + Render(fields[1..])
  }

  datatype TimeOfDay = TimeOfDay(hour: nat, minute: nat, second: nat)

  /** The clock fields as `now_iso` computes them. */
  function ClockOf(secs: nat): TimeOfDay {
    var t := secs % 86400;
    TimeOfDay(t / 3600, (t % 3600) / 60, t % 60)
  }

  /** The clock fields count the seconds of the day. */
  lemma ClockIsExact(secs: nat)
    ensures var c := ClockOf(secs);
            && c.hour <= 23 && c.minute <= 59 && c.second <= 59
            && secs == 86400 * (secs / 86400) + 3600 * c.hour + 60 * c.minute + c.second
  {
  }

  lemma DivideBy60(n: nat, q: nat, r: nat)
    requires n == 60 * q + r && r < 60
    ensures n / 60 == q && n % 60 == r
  {
  }

  lemma DivideBy3600(n: nat, q: nat, r: nat)
    requires n == 3600 * q + r && r < 3600
    ensures n / 3600 == q
  {
  }

  lemma RemainderOf24(d: nat, h: nat)
    requires h < 24
    ensures (24 * d + h) % 24 == h
  {
  }

  /** From days, hours, minutes and seconds the direct divisions recover the last three. */
  lemma PartsOfSeconds(secs: nat, d: nat, h: nat, m: nat, s: nat)
    requires secs == 86400 * d + 3600 * h + 60 * m + s && h < 24 && m < 60 && s < 60
    ensures (secs / 3600) % 24 == h && (secs / 60) % 60 == m && secs % 60 == s
  {
    DivideBy60(secs, 1440 * d + 60 * h + m, s);
    DivideBy60(1440 * d + 60 * h + m, 24 * d + h, m);
    DivideBy3600(secs, 24 * d + h, 60 * m + s);
    RemainderOf24(d, h);
  }

  /** `epoch_to_ymdhms` computes the same fields directly. */
  lemma ClockFieldsAgree(secs: nat)
    ensures ClockOf(secs) == TimeOfDay((secs / 3600) % 24, (secs / 60) % 60, secs % 60)
  {
    ClockIsExact(secs);
    var c := ClockOf(secs);
    hide ClockOf;
    PartsOfSeconds(secs, secs / 86400, c.hour, c.minute, c.second);
  }

  function FieldsOf(secs: nat): seq<Field> {
    CivilIsExact(secs / 86400);
    var d, c := CivilFromDays(secs / 86400), ClockOf(secs);
    [Field(d.year, 4, "-"), Field(d.month, 2, "-"), Field(d.day, 2, "T"),
     Field(c.hour, 2, ":"), Field(c.minute, 2, ":"), Field(c.second, 2, "Z")]
  }

  /** `now_iso` at `secs` seconds after the epoch. */
  function NowIso(secs: nat): Time {
    Render(FieldsOf(secs))
  }

  // ----- Order of padded numbers and rendered fields -----

  function Pow10(w: nat): nat {
    if w == 0 then 1 else 10 * Pow10(w - 1)
  }

  lemma {:induction false} PaddedLength(n: nat, w: nat)
    requires w >= 1 && n < Pow10(w)
    ensures |Padded(n, w)| == w
  {
    if w == 1 {
      assert Pow10(1) == 10 * Pow10(0);
    } else {
      PaddedLength(n / 10, w - 1);
    }
  }

  lemma DigitOrder(a: nat, b: nat)
    requires a < b < 10
    ensures Less([Digit(a)], [Digit(b)])
  {
  }

  lemma {:induction false} PaddedOrder(a: nat, b: nat, w: nat)
    requires w >= 1 && a < b < Pow10(w)
    ensures Less(Padded(a, w), Padded(b, w))
  {
    hide Less, Digit;
    if w == 1 {
      assert Pow10(1) == 10 * Pow10(0);
      DigitOrder(a, b);
    } else {
      PaddedLength(a / 10, w - 1);
      PaddedLength(b / 10, w - 1);
      var x, y := [Digit(a % 10)], [Digit(b % 10)];
      if a / 10 < b / 10 {
        PaddedOrder(a / 10, b / 10, w - 1);
        LessByHead(Padded(a / 10, w - 1), Padded(b / 10, w - 1), x, y);
      } else {
        assert a / 10 == b / 10 && a % 10 < b % 10;
        DigitOrder(a % 10, b % 10);
        LessAfterPrefix(Padded(a / 10, w - 1), x, y);
      }
    }
  }

  /** Same layout, and every value fits its width. */
  predicate Comparable(xs: seq<Field>, ys: seq<Field>) {
    && |xs| == |ys|
    && forall i :: 0 <= i < |xs| ==>
         && xs[i].width == ys[i].width >= 1 && xs[i].after == ys[i].after
         && xs[i].value < Pow10(xs[i].width) && ys[i].value < Pow10(xs[i].width)
  }

  /** Lexicographic order of the values. */
  predicate FieldsLess(xs: seq<Field>, ys: seq<Field>)
    requires |xs| == |ys|
  {
    xs != [] && (xs[0].value < ys[0].value || (xs[0].value == ys[0].value && FieldsLess(xs[1..], ys[1..])))
  }

  lemma {:induction false} RenderOrder(xs: seq<Field>, ys: seq<Field>)
    requires Comparable(xs, ys) && FieldsLess(xs, ys)
    ensures Less(Render(xs), Render(ys))
  {
    hide Less, Padded;
    var x, y := xs[0], ys[0];
    var px, py := Padded(x.value, x.width), Padded(y.value, x.width);
    var tx, ty := x.after + Render(xs[1..]), x.after + Render(ys[1..]);
    assert Render(xs) == px + tx && Render(ys) == py + ty;
    if x.value < y.value {
      PaddedLength(x.value, x.width);
      PaddedLength(y.value, x.width);
      PaddedOrder(x.value, y.value, x.width);
      LessByHead(px, py, tx, ty);
    } else {
      RenderOrder(xs[1..], ys[1..]);
      LessAfterPrefix(x.after, Render(xs[1..]), Render(ys[1..]));
      LessAfterPrefix(px, tx, ty);
    }
  }

  // ----- Years of any length -----

  /** The number of decimal digits. */
  function Digits(n: nat): (d: nat)
    ensures d >= 1 && n < Pow10(d)
    ensures n >= 1 ==> Pow10(d - 1) <= n
  {
    if n < 10 then
      assert Pow10(1) == 10 * Pow10(0);
      1
    else 1 + Digits(n / 10)
  }

  /** The number without its last `k` digits. */
  function DropDigits(n: nat, k: nat): nat {
    if k == 0 then n else DropDigits(n / 10, k - 1)
  }

  lemma {:induction false} Pow10Grows(v: nat, w: nat)
    requires v <= w
    ensures 1 <= Pow10(v) <= Pow10(w)
  {
    if w == 0 {
    } else if v == w {
      Pow10Grows(v - 1, w - 1);
    } else {
      Pow10Grows(v, w - 1);
    }
  }

  lemma DigitsMonotone(a: nat, b: nat)
    requires 1 <= a <= b
    ensures Digits(a) <= Digits(b)
  {
    var d: nat := Digits(a) - 1;
    if Digits(b) <= d {
      Pow10Grows(Digits(b), d);
    }
  }

  /** Padding to no more than the number's own digits adds nothing. */
  lemma {:induction false} PaddedToOwnWidth(n: nat, w: nat)
    requires w <= Digits(n)
    ensures Padded(n, w) == Padded(n, Digits(n))
  {
    if n < 10 {
    } else {
      PaddedToOwnWidth(n / 10, if w == 0 then 0 else w - 1);
    }
  }

  lemma {:induction false} DroppedFits(n: nat, w: nat, k: nat)
    requires k < w && n < Pow10(w)
    ensures DropDigits(n, k) < Pow10(w - k)
  {
    if k == 0 {
    } else {
      DroppedFits(n / 10, w - 1, k - 1);
    }
  }

  predicate StartsWithDigit(s: string) {
    s != "" && '0' <= s[0] <= '9'
  }

  lemma Regroup(a: string, b: string, c: string)
    ensures (a + b) + c == a + (b + c)
  {
  }

  /** The text of a number is that of its leading digits and `k` more. */
  lemma {:induction false} PaddedSplits(n: nat, w: nat, k: nat) returns (rest: string)
    requires k < w && n < Pow10(w)
    ensures Padded(n, w) == Padded(DropDigits(n, k), w - k) + rest
    ensures |rest| == k && (k > 0 ==> StartsWithDigit(rest))
  {
    if k == 0 {
      rest := "";
    } else {
      var shorter := PaddedSplits(n / 10, w - 1, k - 1);
      rest := shorter + [Digit(n % 10)];
      assert Padded(n, w) == Padded(n / 10, w - 1) + [Digit(n % 10)];
      hide Padded, Pow10, Digit;
      Regroup(Padded(DropDigits(n, k), w - k), shorter, [Digit(n % 10)]);
    }
  }

  // ----- Order of timestamps -----

  function YearAt(secs: nat): (y: nat)
    ensures y >= 1970
  {
    CivilIsExact(secs / 86400);
    CivilFromDays(secs / 86400).year
  }

  /** The fields with the year at its own width. */
  function WideFields(secs: nat): seq<Field> {
    FieldsOf(secs)[0 := Field(YearAt(secs), Digits(YearAt(secs)), "-")]
  }

  lemma FourDigits(y: nat)
    requires y >= 1000
    ensures Digits(y) >= 4 && (y < 10000 ==> Digits(y) == 4)
  {
    assert Digits(y) == 1 + Digits(y / 10);
    assert Digits(y / 10) == 1 + Digits(y / 10 / 10);
    assert Digits(y / 10 / 10) == 1 + Digits(y / 10 / 10 / 10);
  }

  /** What follows the year and its dash. */
  function AfterYear(secs: nat): string {
    Render(FieldsOf(secs)[1..])
  }

  /** A timestamp is its year's digits, a dash and the other fields. */
  lemma YearFirst(secs: nat)
    ensures NowIso(secs) == Render(WideFields(secs))
    ensures NowIso(secs) == Padded(YearAt(secs), Digits(YearAt(secs))) + ("-" + AfterYear(secs))
  {
    FourDigits(YearAt(secs));
    PaddedToOwnWidth(YearAt(secs), 4);
    hide Padded, Digits, CivilFromDays;
    assert WideFields(secs)[1..] == FieldsOf(secs)[1..];
  }

  /** The first second of the year 10000. */
  const YEAR_10000: nat := 253402300800

  lemma BeforeYear10000(secs: nat)
    requires secs < YEAR_10000
    ensures 1970 <= CivilFromDays(secs / 86400).year <= 9999
  {
    CivilIsExact(secs / 86400);
    var d := CivilFromDays(secs / 86400);
    YearSum(10000);
    if d.year >= 10000 {
      YearsIncrease(10000, d.year);
      WithinYear(d);
    }
  }

  lemma WidthsSuffice(secs: nat)
    ensures Comparable(WideFields(secs), WideFields(secs))
  {
    CivilIsExact(secs / 86400);
    ClockIsExact(secs);
    hide CivilFromDays, ClockOf, Digits;
    assert Pow10(1) == 10 && Pow10(2) == 100;
  }

  /** Comparing from position `i` on. */
  lemma LessFrom(xs: seq<Field>, ys: seq<Field>, i: nat)
    requires |xs| == |ys| && i < |xs|
    ensures FieldsLess(xs[i..], ys[i..])
            <==> || xs[i].value < ys[i].value
                 || (xs[i].value == ys[i].value && FieldsLess(xs[i + 1..], ys[i + 1..]))
  {
    assert xs[i..][1..] == xs[i + 1..] && ys[i..][1..] == ys[i + 1..];
  }

  lemma ClockOrder(t: nat, u: nat)
    requires t < u && t / 86400 == u / 86400
    ensures FieldsLess(FieldsOf(t)[3..], FieldsOf(u)[3..])
  {
    var x, y := FieldsOf(t), FieldsOf(u);
    ClockIsExact(t);
    ClockIsExact(u);
    LessFrom(x, y, 3);
    LessFrom(x, y, 4);
    LessFrom(x, y, 5);
  }

  lemma FieldsOrder(t: nat, u: nat)
    requires t < u
    ensures FieldsLess(FieldsOf(t), FieldsOf(u))
  {
    hide CivilFromDays, FieldsLess;
    var x, y := FieldsOf(t), FieldsOf(u);
    CivilIsExact(t / 86400);
    CivilIsExact(u / 86400);
    assert t / 86400 <= u / 86400;
    if t / 86400 == u / 86400 {
      ClockOrder(t, u);
    } else {
      DayNumberIncreases(CivilFromDays(t / 86400), CivilFromDays(u / 86400));
    }
    LessFrom(x, y, 0);
    LessFrom(x, y, 1);
    LessFrom(x, y, 2);
    assert x[0..] == x && y[0..] == y;
  }

  lemma YearsInOrder(t: nat, u: nat)
    requires t < u
    ensures YearAt(t) <= YearAt(u)
  {
    var x, y := FieldsOf(t), FieldsOf(u);
    FieldsOrder(t, u);
    hide CivilFromDays, FieldsLess, ClockOf;
    LessFrom(x, y, 0);
    assert x[0..] == x && y[0..] == y;
  }

  /** Years of the same length: the earlier timestamp is smaller. */
  lemma SameLengthOrder(t: nat, u: nat)
    requires t < u && Digits(YearAt(t)) == Digits(YearAt(u))
    ensures Less(NowIso(t), NowIso(u))
  {
    hide NowIso, Digits, CivilFromDays, ClockOf, Less, Render;
    var x, y := WideFields(t), WideFields(u);
    WidthsSuffice(t);
    WidthsSuffice(u);
    FieldsOrder(t, u);
    WideOrder(t, u);
    YearFirst(t);
    YearFirst(u);
    assert Comparable(x, y);
    RenderOrder(x, y);
  }

  lemma WideOrder(t: nat, u: nat)
    requires FieldsLess(FieldsOf(t), FieldsOf(u))
    ensures FieldsLess(WideFields(t), WideFields(u))
  {
    hide CivilFromDays, ClockOf, Digits;
    assert WideFields(t)[1..] == FieldsOf(t)[1..] && WideFields(u)[1..] == FieldsOf(u)[1..];
  }

  lemma DashBeforeDigit(x: string, rest: string, y: string)
    requires StartsWithDigit(rest)
    ensures Less("-" + x, rest + y)
  {
  }

  /** A shorter year against a longer one: its digits are compared with the longer year's leading ones. */
  lemma ShorterYearOrder(a: nat, x: string, b: nat, y: string)
    requires 1 <= a && 1 <= b && Digits(a) < Digits(b)
    ensures var s, s' := Padded(a, Digits(a)) + ("-" + x), Padded(b, Digits(b)) + ("-" + y);
            if a <= DropDigits(b, Digits(b) - Digits(a)) then Less(s, s') else Less(s', s)
  {
    hide Padded, Digits, Less, DropDigits, Pow10, StartsWithDigit;
    var w, v := Digits(a), Digits(b);
    var lead := DropDigits(b, v - w);
    var rest := PaddedSplits(b, v, v - w);
    DroppedFits(b, v, v - w);
    DashBeforeDigit(x, rest, "-" + y);
    LeadDecides(a, lead, w, "-" + x, rest + ("-" + y));
    assert Padded(b, v) + ("-" + y) == Padded(lead, w) + (rest + ("-" + y));
  }

  /** Numbers of one width decide whatever follows; equal ones leave it to what follows. */
  lemma LeadDecides(a: nat, b: nat, w: nat, x: string, y: string)
    requires w >= 1 && a < Pow10(w) && b < Pow10(w) && Less(x, y)
    ensures if a <= b then Less(Padded(a, w) + x, Padded(b, w) + y) else Less(Padded(b, w) + y, Padded(a, w) + x)
  {
    hide Padded, Less, Pow10;
    PaddedLength(a, w);
    PaddedLength(b, w);
    if a < b {
      PaddedOrder(a, b, w);
      LessByHead(Padded(a, w), Padded(b, w), x, y);
    } else if a == b {
      LessAfterPrefix(Padded(a, w), x, y);
    } else {
      PaddedOrder(b, a, w);
      LessByHead(Padded(b, w), Padded(a, w), y, x);
    }
  }

  /** Year `a` prints no larger than the later year `b`, compared digit by digit from the left. */
  predicate DigitsInOrder(a: nat, b: nat)
    requires 1 <= a <= b
  {
    DigitsMonotone(a, b);
    Digits(a) == Digits(b) || a <= DropDigits(b, Digits(b) - Digits(a))
  }

  /** Of two instants the earlier one's timestamp is lexicographically smaller if and only if their years have
      equally many digits, or the shorter year is at most the longer one's leading digits. */
  lemma TimestampOrderIff(t: nat, u: nat)
    requires t < u
    ensures YearAt(t) <= YearAt(u)
    ensures Less(NowIso(t), NowIso(u)) <==> DigitsInOrder(YearAt(t), YearAt(u))
  {
    hide NowIso, YearAt, Digits, Less, DropDigits;
    YearsInOrder(t, u);
    DigitsMonotone(YearAt(t), YearAt(u));
    if Digits(YearAt(t)) == Digits(YearAt(u)) {
      SameLengthOrder(t, u);
    } else {
      OtherLengthOrder(t, u);
    }
  }

  lemma OtherLengthOrder(t: nat, u: nat)
    requires Digits(YearAt(t)) < Digits(YearAt(u))
    ensures Less(NowIso(t), NowIso(u))
            <==> YearAt(t) <= DropDigits(YearAt(u), Digits(YearAt(u)) - Digits(YearAt(t)))
  {
    hide NowIso, YearAt, Digits, Less, DropDigits, Padded, AfterYear;
    YearFirst(t);
    YearFirst(u);
    ShorterYearOrder(YearAt(t), AfterYear(t), YearAt(u), AfterYear(u));
    NotBoth(NowIso(t), NowIso(u));
  }

  lemma NotBoth(a: string, b: string)
    ensures !(Less(a, b) && Less(b, a))
  {
    hide Less;
    if Less(a, b) && Less(b, a) {
      LessTransitive(a, b, a);
      LessIrreflexive(a);
    }
  }

  lemma Sooner(t: nat, u: nat)
    requires t < u < YEAR_10000
    ensures Less(NowIso(t), NowIso(u))
  {
    hide Digits, CivilFromDays, NowIso;
    BeforeYear10000(t);
    BeforeYear10000(u);
    FourDigits(YearAt(t));
    FourDigits(YearAt(u));
    SameLengthOrder(t, u);
  }

  /** Up to the end of the year 9999, one printed timestamp is lexicographically smaller than another exactly
      when its instant is earlier. */
  lemma TimestampOrder(t: nat, u: nat)
    requires t < YEAR_10000 && u < YEAR_10000
    ensures Less(NowIso(t), NowIso(u)) <==> t < u
  {
    hide NowIso, Less;
    LessIrreflexive(NowIso(t));
    NotBoth(NowIso(t), NowIso(u));
    if t < u {
      Sooner(t, u);
    } else if u < t {
      Sooner(u, t);
    }
  }

  lemma LastDayOf9999()
    ensures CivilFromDays((YEAR_10000 - 1) / 86400).year == 9999
  {
    hide CivilFromDays, DaysBeforeYear, DaysBeforeMonth;
    YearSum(9999);
    MonthStarts(9999);
    DatesAgree(2932896, Date(9999, 12, 31));
  }

  lemma FirstDayOf10000()
    ensures CivilFromDays(YEAR_10000 / 86400).year == 10000
  {
    hide CivilFromDays, DaysBeforeYear, DaysBeforeMonth;
    YearSum(10000);
    MonthStarts(10000);
    DatesAgree(2932897, Date(10000, 1, 1));
  }

  lemma YearDigits()
    ensures Padded(10000, 4) != "" && Padded(10000, 4)[0] == '1'
    ensures Padded(9999, 4) != "" && Padded(9999, 4)[0] == '9'
  {
    assert Padded(10000, 4)[0] == '1' by {
      assert Padded(1, 1) == ['1'] && Padded(10, 1) == ['1', '0'] && Padded(100, 2) == ['1', '0', '0'];
      assert Padded(1000, 3) == ['1', '0', '0', '0'];
    }
    assert Padded(9999, 4)[0] == '9' by {
      assert Padded(9, 1) == ['9'] && Padded(99, 2) == ['9', '9'] && Padded(999, 3) == ['9', '9', '9'];
    }
  }

  /** The bound is sharp: the first second of the year 10000 prints as smaller than the second before it. */
  lemma OrderEndsWithYear9999()
    ensures Less(NowIso(YEAR_10000), NowIso(YEAR_10000 - 1))
  {
    LastDayOf9999();
    FirstDayOf10000();
    YearDigits();
    hide CivilFromDays, Padded;
    assert NowIso(YEAR_10000)[0] == '1' && NowIso(YEAR_10000 - 1)[0] == '9';
  }

  /** The timestamps of the first `n` seconds all compare as the instants do if and only if the year 10000 is
      not among them. */
  lemma OrderedUpTo(n: nat)
    ensures (forall t: nat, u: nat :: t < n && u < n ==> (Less(NowIso(t), NowIso(u)) <==> t < u)) <==> n <= YEAR_10000
  {
    hide NowIso, Less;
    if n <= YEAR_10000 {
      forall t: nat, u: nat | t < n && u < n
        ensures Less(NowIso(t), NowIso(u)) <==> t < u
      {
        TimestampOrder(t, u);
      }
    } else {
      OrderEndsWithYear9999();
      var t, u := YEAR_10000, YEAR_10000 - 1;
      assert t < n && u < n && Less(NowIso(t), NowIso(u)) && !(t < u);
    }
  }

  /** The valid-time test on printed timestamps is the half-open interval test on seconds. */
  lemma ValidAtSeconds(from: nat, to: nat, ts: nat)
    requires from < YEAR_10000 && to < YEAR_10000 && ts < YEAR_10000
    ensures IsValidAt(NowIso(from), Some(NowIso(to)), NowIso(ts)) <==> from <= ts < to
    ensures IsValidAt(NowIso(from), None, NowIso(ts)) <==> from <= ts
  {
    hide NowIso;
    TimestampOrder(ts, from);
    TimestampOrder(ts, to);
  }

  /** The close time of a superseded row is the earlier instant. */
  lemma CloseAtSeconds(validFrom: nat, txTime: nat)
    requires validFrom < YEAR_10000 && txTime < YEAR_10000
    ensures CloseAt(NowIso(validFrom), NowIso(txTime)) == NowIso(if validFrom < txTime then validFrom else txTime)
  {
    TimestampOrder(validFrom, txTime);
  }
}
