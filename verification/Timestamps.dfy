/** The text form of the DATETIME columns: "2006-01-02 15:04:05", compared as text by the database. */
module Timestamps {

  /** A UTC time, field by field. */
  datatype Moment = Moment(year: nat, month: nat, day: nat, hour: nat, minute: nat, second: nat, nanos: nat)

  predicate IsLeap(y: nat) {
    y % 4 == 0 && (y % 100 != 0 || y % 400 == 0)
  }

  function MonthLength(y: nat, m: nat): (n: nat)
    ensures 28 <= n <= 31
  {
    if m == 2 then (if IsLeap(y) then 29 else 28)
    else if m == 4 || m == 6 || m == 9 || m == 11 then 30
    else 31
  }

  /** Days of year `y` before month `m`. */
  function MonthStart(y: nat, m: nat): nat
    requires 1 <= m <= 13
  {
    if m == 1 then 0 else MonthStart(y, m - 1) + MonthLength(y, m - 1)
  }

  /** Days before year `y`. */
  function YearStart(y: nat): nat {
    if y == 0 then 0 else YearStart(y - 1) + MonthStart(y - 1, 13)
  }

  /** A real date and time of day, within the four-digit years. */
  predicate IsTime(m: Moment) {
    && m.year <= 9999 && 1 <= m.month <= 12 && 1 <= m.day <= MonthLength(m.year, m.month)
    && m.hour < 24 && m.minute < 60 && m.second < 60 && m.nanos < 1_000_000_000
  }

  function Day(m: Moment): nat
    requires IsTime(m)
  {
    YearStart(m.year) + MonthStart(m.year, m.month) + m.day - 1
  }

  /** Whole seconds since the start of year 0. */
  function Second(m: Moment): nat
    requires IsTime(m)
  {
    Day(m) * 86400 + m.hour * 3600 + m.minute * 60 + m.second
  }

  // ----- Text -----

  /** `n` in exactly `width` decimal digits. */
  function Pad(n: nat, width: nat): (s: string)
    ensures |s| == width
  {
    if width == 0 then "" else Pad(n / 10, width - 1) + [(n % 10) as char + '0']
  }

  function Text(m: Moment): string {
    Pad(m.year, 4) + ("-" + (Pad(m.month, 2) + ("-" + (Pad(m.day, 2) + (" " +
    (Pad(m.hour, 2) + (":" + (Pad(m.minute, 2) + (":" + Pad(m.second, 2))))))))))
  }

  /** How the database compares text. */
  predicate TextLess(a: string, b: string) {
    if b == "" then false
    else if a == "" then true
    else a[0] < b[0] || (a[0] == b[0] && TextLess(a[1..], b[1..]))
  }

  // ----- Text order -----

  lemma {:induction false} TextLessConcat(a: string, b: string, c: string, d: string)
    requires |a| == |b|
    ensures TextLess(a + c, b + d) <==> TextLess(a, b) || (a == b && TextLess(c, d))
  {
    if a == "" {
      assert a + c == c && b + d == d;
    } else {
      assert (a + c)[1..] == a[1..] + c && (b + d)[1..] == b[1..] + d;
      TextLessConcat(a[1..], b[1..], c, d);
    }
  }

  function Power(width: nat): nat {
    if width == 0 then 1 else 10 * Power(width - 1)
  }

  /** Numbers of one width order as their digits do. */
  lemma {:induction false} PadOrder(a: nat, b: nat, width: nat)
    requires a < Power(width) && b < Power(width)
    ensures TextLess(Pad(a, width), Pad(b, width)) <==> a < b
    ensures Pad(a, width) == Pad(b, width) <==> a == b
  {
    if width > 0 {
      PadOrder(a / 10, b / 10, width - 1);
      var x, y := [(a % 10) as char + '0'], [(b % 10) as char + '0'];
      TextLessConcat(Pad(a / 10, width - 1), Pad(b / 10, width - 1), x, y);
      assert x[1..] == y[1..] == "";
      assert TextLess(x, y) <==> a % 10 < b % 10;
      if Pad(a, width) == Pad(b, width) {
        assert Pad(a, width)[..width - 1] == Pad(a / 10, width - 1);
        assert Pad(b, width)[..width - 1] == Pad(b / 10, width - 1);
        assert Pad(a, width)[width - 1] == x[0] && Pad(b, width)[width - 1] == y[0];
      }
    }
  }

  /** A padded field, a separator and the rest. */
  lemma FieldOrder(a: nat, b: nat, width: nat, sep: char, c: string, d: string)
    requires a < Power(width) && b < Power(width)
    ensures TextLess(Pad(a, width) + ([sep] + c), Pad(b, width) + ([sep] + d)) <==> a < b || (a == b && TextLess(c, d))
  {
    PadOrder(a, b, width);
    TextLessConcat(Pad(a, width), Pad(b, width), [sep] + c, [sep] + d);
    TextLessConcat([sep], [sep], c, d);
    assert !TextLess([sep], [sep]) by { assert [sep][1..] == ""; }
  }

  predicate ClockLess(a: Moment, b: Moment) {
    a.hour < b.hour || (a.hour == b.hour && (a.minute < b.minute || (a.minute == b.minute && a.second < b.second)))
  }

  predicate DateLess(a: Moment, b: Moment) {
    a.year < b.year || (a.year == b.year && (a.month < b.month || (a.month == b.month && a.day < b.day)))
  }

  predicate SameDate(a: Moment, b: Moment) {
    a.year == b.year && a.month == b.month && a.day == b.day
  }

  function ClockText(m: Moment): string {
    Pad(m.hour, 2) + (":" + (Pad(m.minute, 2) + (":" + Pad(m.second, 2))))
  }

  lemma ClockTextOrder(a: Moment, b: Moment)
    requires IsTime(a) && IsTime(b)
    ensures TextLess(ClockText(a), ClockText(b)) <==> ClockLess(a, b)
  {
    assert Power(2) == 100;
    PadOrder(a.second, b.second, 2);
    FieldOrder(a.minute, b.minute, 2, ':', Pad(a.second, 2), Pad(b.second, 2));
    FieldOrder(a.hour, b.hour, 2, ':', Pad(a.minute, 2) + (":" + Pad(a.second, 2)),
      Pad(b.minute, 2) + (":" + Pad(b.second, 2)));
  }

  function DateTail(m: Moment): string {
    Pad(m.month, 2) + ("-" + (Pad(m.day, 2) + (" " + ClockText(m))))
  }

  lemma TextOrder(a: Moment, b: Moment)
    requires IsTime(a) && IsTime(b)
    ensures TextLess(Text(a), Text(b)) <==> DateLess(a, b) || (SameDate(a, b) && ClockLess(a, b))
  {
    assert Power(2) == 100 && Power(4) == 10000 by { assert Power(3) == 1000; }
    ClockTextOrder(a, b);
    FieldOrder(a.day, b.day, 2, ' ', ClockText(a), ClockText(b));
    FieldOrder(a.month, b.month, 2, '-', Pad(a.day, 2) + (" " + ClockText(a)), Pad(b.day, 2) + (" " + ClockText(b)));
    FieldOrder(a.year, b.year, 4, '-', DateTail(a), DateTail(b));
    assert Text(a) == Pad(a.year, 4) + (['-'] + DateTail(a));
    assert Text(b) == Pad(b.year, 4) + (['-'] + DateTail(b));
  }

  // ----- Calendar order -----

  lemma {:induction false} MonthStartGrows(y: nat, m: nat, n: nat)
    requires 1 <= m < n <= 13
    ensures MonthStart(y, m) + MonthLength(y, m) <= MonthStart(y, n)
    decreases n
  {
    if m < n - 1 { MonthStartGrows(y, m, n - 1); }
  }

  lemma {:induction false} YearStartGrows(y: nat, z: nat)
    requires y < z
    ensures YearStart(y) + MonthStart(y, 13) <= YearStart(z)
    decreases z
  {
    if y < z - 1 { YearStartGrows(y, z - 1); }
  }

  lemma DayWithinYear(m: Moment)
    requires IsTime(m)
    ensures YearStart(m.year) <= Day(m) < YearStart(m.year) + MonthStart(m.year, 13)
  {
    MonthStartGrows(m.year, m.month, 13);
  }

  lemma DayOrder(a: Moment, b: Moment)
    requires IsTime(a) && IsTime(b) && DateLess(a, b)
    ensures Day(a) < Day(b)
  {
    if a.year < b.year {
      DayWithinYear(a);
      DayWithinYear(b);
      YearStartGrows(a.year, b.year);
    } else if a.month < b.month {
      MonthStartGrows(a.year, a.month, b.month);
    }
  }

  function Clock(m: Moment): nat {
    m.hour * 3600 + m.minute * 60 + m.second
  }

  lemma SecondOrder(a: Moment, b: Moment)
    requires IsTime(a) && IsTime(b)
    ensures Second(a) < Second(b) <==> DateLess(a, b) || (SameDate(a, b) && ClockLess(a, b))
  {
    assert Clock(a) < 86400 && Clock(b) < 86400;
    assert Clock(a) < Clock(b) <==> ClockLess(a, b);
    if DateLess(a, b) {
      DayOrder(a, b);
    } else if DateLess(b, a) {
      DayOrder(b, a);
    }
  }

  /** The stored text orders as the times do, down to the second. */
  lemma {:induction false} TextOrdersAsTime(a: Moment, b: Moment)
    requires IsTime(a) && IsTime(b)
    ensures TextLess(Text(a), Text(b)) <==> Second(a) < Second(b)
  {
    TextOrder(a, b);
    SecondOrder(a, b);
  }
}
