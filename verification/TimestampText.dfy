/** What a printed timestamp says when its numbers are read back. */
module TimestampText {
  import opened Wrappers
  import opened Calendar
  import opened Timestamps

  predicate IsNumeral(s: string) {
    s != "" && forall c :: c in s ==> '0' <= c <= '9'
  }

  /** The value of a decimal numeral. */
  function ValueOf(s: string): nat {
    if s == "" then 0 else 10 * ValueOf(s[..|s| - 1]) + DigitValue(s[|s| - 1])
  }

  function DigitValue(c: char): nat {
    if '0' <= c <= '9' then c as int - '0' as int else 0
  }

  lemma DigitReads(n: nat)
    requires n < 10
    ensures '0' <= Digit(n) <= '9' && DigitValue(Digit(n)) == n
  {
  }

  lemma AppendReads(s: string, n: nat)
    requires (s == "" || IsNumeral(s)) && n < 10
    ensures IsNumeral(s + [Digit(n)]) && ValueOf(s + [Digit(n)]) == 10 * ValueOf(s) + n
  {
    DigitReads(n);
    var t := s + [Digit(n)];
    assert t[..|t| - 1] == s;
  }

  /** A padded number reads as itself. */
  lemma {:induction false} PaddedReads(n: nat, w: nat)
    ensures IsNumeral(Padded(n, w)) && ValueOf(Padded(n, w)) == n
    decreases n, w
  {
    hide Digit, ValueOf;
    if n < 10 && w <= 1 {
      AppendReads("", n);
      assert "" + [Digit(n)] == [Digit(n)];
      assert ValueOf("") == 0 by {
        EmptyReads();
      }
    } else {
      var shorter := if w == 0 then 0 else w - 1;
      PaddedReads(n / 10, shorter);
      AppendReads(Padded(n / 10, shorter), n % 10);
    }
  }

  lemma EmptyReads()
    ensures ValueOf("") == 0
  {
  }

  /** Two digits hold every number below a hundred. */
  lemma TwoDigits(n: nat)
    requires n < 100
    ensures |Padded(n, 2)| == 2
  {
    assert Pow10(2) == 100;
    PaddedLength(n, 2);
  }

  /** The six numerals of a timestamp. */
  datatype Numerals = Numerals(year: string, month: string, day: string, hour: string, minute: string, second: string)

  /** The text is these numerals in order, the year with at least four digits and the others with two. */
  predicate SpelledBy(text: string, n: Numerals) {
    && text == n.year + ("-" + (n.month + ("-" + (n.day
               + ("T" + (n.hour + (":" + (n.minute + (":" + (n.second + "Z"))))))))))
    && |n.year| >= 4 && |n.month| == |n.day| == |n.hour| == |n.minute| == |n.second| == 2
    && IsNumeral(n.year) && IsNumeral(n.month) && IsNumeral(n.day)
    && IsNumeral(n.hour) && IsNumeral(n.minute) && IsNumeral(n.second)
  }

  /** They are the date and the clock `secs` seconds after the epoch. */
  predicate ReadsAs(n: Numerals, secs: nat) {
    && Date(ValueOf(n.year), ValueOf(n.month), ValueOf(n.day)) == CivilFromDays(secs / 86400)
    && ValueOf(n.hour) == secs / 3600 % 24 && ValueOf(n.minute) == secs / 60 % 60 && ValueOf(n.second) == secs % 60
  }

  /** A timestamp is six numerals, and these read as the date of the closed form and the clock of the day. */
  lemma NowIsoReads(secs: nat)
    ensures exists n :: SpelledBy(NowIso(secs), n) && ReadsAs(n, secs)
  {
    CivilIsExact(secs / 86400);
    ClockFieldsAgree(secs);
    ClockIsExact(secs);
    var date, clock := CivilFromDays(secs / 86400), ClockOf(secs);
    var n := Numerals(Padded(date.year, 4), Padded(date.month, 2), Padded(date.day, 2),
                      Padded(clock.hour, 2), Padded(clock.minute, 2), Padded(clock.second, 2));
    DateFits(date);
    hide Padded, Render, ValueOf, CivilFromDays, ClockOf, IsNumeral;
    PaddedReads(date.year, 4);
    PaddedReads(date.month, 2);
    PaddedReads(date.day, 2);
    PaddedReads(clock.hour, 2);
    PaddedReads(clock.minute, 2);
    PaddedReads(clock.second, 2);
    TwoDigits(date.month);
    TwoDigits(date.day);
    TwoDigits(clock.hour);
    TwoDigits(clock.minute);
    TwoDigits(clock.second);
    AtLeastFour(date.year);
    RenderSix(Field(date.year, 4, "-"), Field(date.month, 2, "-"), Field(date.day, 2, "T"),
              Field(clock.hour, 2, ":"), Field(clock.minute, 2, ":"), Field(clock.second, 2, "Z"));
    assert "Z" + "" == "Z";
    assert SpelledBy(NowIso(secs), n) && ReadsAs(n, secs);
  }

  lemma DateFits(d: Date)
    requires IsDate(d)
    ensures 0 <= d.month < 100 && 0 <= d.day < 100
  {
  }

  lemma AtLeastFour(n: nat)
    ensures |Padded(n, 4)| >= 4
  {
    assert |Padded(n / 10 / 10 / 10, 1)| >= 1;
    assert |Padded(n / 10 / 10, 2)| >= 2;
    assert |Padded(n / 10, 3)| >= 3;
  }

  lemma RenderFirst(f: Field, rest: seq<Field>)
    ensures Render([f] + rest) == Padded(f.value, f.width) + (f.after + Render(rest))
  {
    hide Padded;
    var fields := [f] + rest;
    assert fields[1..] == rest;
    Regroup(Padded(f.value, f.width), f.after, Render(rest));
  }

  lemma RenderSix(a: Field, b: Field, c: Field, d: Field, e: Field, f: Field)
    ensures Render([a, b, c, d, e, f])
            == Padded(a.value, a.width)
               + (a.after + (Padded(b.value, b.width)
               + (b.after + (Padded(c.value, c.width)
               + (c.after + (Padded(d.value, d.width)
               + (d.after + (Padded(e.value, e.width)
               + (e.after + (Padded(f.value, f.width) + (f.after + "")))))))))))
  {
    hide Padded, Render;
    RenderFirst(a, [b, c, d, e, f]);
    RenderFirst(b, [c, d, e, f]);
    RenderFirst(c, [d, e, f]);
    RenderFirst(d, [e, f]);
    RenderFirst(e, [f]);
    RenderFirst(f, []);
    assert [a] + [b, c, d, e, f] == [a, b, c, d, e, f] && [b] + [c, d, e, f] == [b, c, d, e, f];
    assert [c] + [d, e, f] == [c, d, e, f] && [d] + [e, f] == [d, e, f] && [e] + [f] == [e, f] && [f] + [] == [f];
    RenderNone();
  }

  lemma RenderNone()
    ensures Render([]) == ""
  {
  }
}
