/**
 The timestamps against the Gregorian calendar itself: the table of month lengths, the
 day after a day, the first instant, and where each digit of a text stands.
 */
module Calendar {
  import opened Basics
  import opened Contracts
  import opened Numerals
  import opened UtcTime

  predicate Leap(y: int) {
    (y % 4 == 0 && y % 100 != 0) || y % 400 == 0
  }

  /** Thirty days have September, April, June and November. */
  function MonthLengths(y: int): seq<int> {
    [31, if Leap(y) then 29 else 28, 31, 30, 31, 30, 31, 31, 30, 31, 30, 31]
  }

  lemma LeapExact(y: int)
    ensures IsLeap(y) <==> Leap(y)
  {
    if y % 400 == 0 { Multiple(y, y / 400); }
  }

  lemma Multiple(y: int, q: int)
    requires y == 400 * q
    ensures y % 4 == 0
  {
    assert y == 4 * (100 * q);
  }

  lemma LengthExact(y: int, m: int)
    requires 1 <= m <= 12
    ensures DaysInMonth(y, m) == MonthLengths(y)[m - 1]
  {
    LeapExact(y);
    hide IsLeap, Leap;
  }

  /** A date and time is valid exactly when its day is in the table and its time on the clock. */
  lemma StampExact(s: Stamp)
    ensures ValidStamp(s) <==>
              && 1 <= s.year <= 9999 && 1 <= s.month <= 12 && 1 <= s.day <= MonthLengths(s.year)[s.month - 1]
              && s.hour <= 23 && s.minute <= 59 && s.second <= 59 && s.micro <= 999_999
  {
    hide DaysInMonth, Leap;
    if 1 <= s.month <= 12 { LengthExact(s.year, s.month); }
  }

  /** The same time on the following day. */
  function DayAfter(s: Stamp): Stamp
    requires 1 <= s.month <= 12
  {
    if s.day < MonthLengths(s.year)[s.month - 1] then s.(day := s.day + 1)
    else if s.month < 12 then s.(month := s.month + 1, day := 1)
    else s.(year := s.year + 1, month := 1, day := 1)
  }

  const DAY: int := 86_400_000_000

  lemma DayAfterNumber(s: Stamp)
    requires ValidStamp(s) && ValidStamp(DayAfter(s))
    ensures DayNumber(DayAfter(s)) == DayNumber(s) + 1 && TimeOfDay(DayAfter(s)) == TimeOfDay(s)
  {
    hide IsLeap, Leap, DaysBeforeYear, DaysInMonth, MonthLengths;
    LengthExact(s.year, s.month);
    YearDays(s.year);
  }

  lemma DayAfterValid(s: Stamp)
    requires ValidStamp(s) && (s.year < 9999 || s.month < 12 || s.day < 31)
    ensures ValidStamp(DayAfter(s))
  {
    StampExact(s);
    StampExact(DayAfter(s));
  }

  lemma LastDay(s: Stamp)
    requires ValidStamp(s) && s.year == 9999 && s.month == 12 && s.day == 31
    ensures Instant(s) + DAY >= DaysBeforeYear(MAX_YEAR + 1) * 86_400_000_000
  {
    YearDays(9999);
    hide IsLeap, DaysInMonth;
    assert DaysBeforeMonth(9999, 13) == DaysBeforeMonth(9999, 12) + DaysInMonth(9999, 12);
    LengthExact(9999, 12);
    hide DaysBeforeMonth, DaysBeforeYear;
    assert TimeOfDay(s) >= 0;
  }

  lemma DayAfterInstant(s: Stamp)
    requires ValidStamp(s) && ValidStamp(DayAfter(s))
    ensures Instant(DayAfter(s)) == Instant(s) + 86_400_000_000
  {
    DayAfterNumber(s);
    hide DayNumber, TimeOfDay, DayAfter, ValidStamp;
  }

  lemma NotLastDay(t: Time, s: Stamp)
    requires InRange(t + 86_400_000_000) && ValidStamp(s) && Instant(s) == t
    ensures s.year < 9999 || s.month < 12 || s.day < 31
  {
    hide Instant, DaysBeforeYear;
    if s.year == 9999 && s.month == 12 && s.day >= 31 {
      StampExact(s);
      LastDay(s);
    }
  }

  /** A day later is the following day of the calendar, at the same time. */
  lemma NextDay(t: Time)
    requires InRange(t) && InRange(t + 86_400_000_000)
    ensures 1 <= StampOf(t).month <= 12
    ensures StampOf(t + 86_400_000_000) == DayAfter(StampOf(t))
  {
    hide StampOf, Instant, InRange, DayAfter, DaysInMonth;
    var s := StampOf(t);
    InstantOfStamp(t);
    NotLastDay(t, s);
    DayAfterValid(s);
    DayAfterInstant(s);
    StampOfInstant(DayAfter(s));
  }

  /** Time starts with the first of January of year 1. */
  lemma FirstInstant()
    ensures InRange(0) && StampOf(0) == Stamp(1, 1, 1, 0, 0, 0, 0)
  {
    var s := Stamp(1, 1, 1, 0, 0, 0, 0);
    assert Instant(s) == 0;
    StampOfInstant(s);
  }

  /** ... and ends with the year 9999. */
  lemma RangeExact(t: Time)
    ensures InRange(t) <==> 0 <= t < 315_537_897_600_000_000
  {
  }

  lemma SplitClock(d: int, hour: nat, minute: nat, second: nat, micro: nat)
    requires hour < 24 && minute < 60 && second < 60 && micro < 1_000_000
    ensures var t := (((d * 24 + hour) * 60 + minute) * 60 + second) * 1_000_000 + micro;
            && t % 1_000_000 == micro && t / 1_000_000 % 60 == second
            && t / 60_000_000 % 60 == minute && t / 3_600_000_000 % 24 == hour
  {
    var h := d * 24 + hour;
    var m := h * 60 + minute;
    var n := m * 60 + second;
    assert h % 24 == hour && m / 60 == h && m % 60 == minute && n / 60 == m && n % 60 == second;
    assert (n * 1_000_000 + micro) / 1_000_000 == n && (n * 1_000_000 + micro) % 1_000_000 == micro;
    assert n * 1_000_000 + micro == m * 60_000_000 + (second * 1_000_000 + micro);
    assert (n * 1_000_000 + micro) / 60_000_000 == m;
    assert n * 1_000_000 + micro == h * 3_600_000_000 + (minute * 60_000_000 + second * 1_000_000 + micro);
    assert (n * 1_000_000 + micro) / 3_600_000_000 == h;
  }

  /** The time of day counts hours, minutes, seconds and microseconds. */
  lemma ClockExact(t: Time)
    requires InRange(t)
    ensures StampOf(t).hour == t / 3_600_000_000 % 24
    ensures StampOf(t).minute == t / 60_000_000 % 60
    ensures StampOf(t).second == t / 1_000_000 % 60
    ensures StampOf(t).micro == t % 1_000_000
  {
    hide StampOf, DayNumber, InRange, DaysInMonth, Instant, TimeOfDay;
    var s := StampOf(t);
    InstantOfStamp(t);
    SplitClock(DayNumber(s), s.hour, s.minute, s.second, s.micro);
    ClockInstant(s);
  }

  lemma ClockInstant(s: Stamp)
    requires ValidStamp(s)
    ensures Instant(s) == (((DayNumber(s) * 24 + s.hour) * 60 + s.minute) * 60 + s.second) * 1_000_000 + s.micro
  {
    hide DayNumber;
  }

  /* ---- The text, character by character ---- */

  /** The digits of one field, most significant first. */
  predicate ReadsAt(text: string, i: nat, digits: seq<int>) {
    && i + |digits| <= |text|
    && forall j :: 0 <= j < |digits| ==> 0 <= digits[j] <= 9 && text[i + j] == "0123456789"[digits[j]]
  }

  /** The place of a field in a layout. */
  function Offset(layout: seq<Field>, k: nat): nat
    requires k <= |layout|
  {
    if k == 0 then 0 else layout[0].width + 1 + Offset(layout[1..], k - 1)
  }

  lemma {:induction false} RenderStep(layout: seq<Field>, values: seq<nat>)
    requires |layout| == |values| && layout != []
    ensures Render(layout, values) ==
            Digits(values[0], layout[0].width) + ([layout[0].mark] + Render(layout[1..], values[1..]))
  {
    hide Digits;
  }

  lemma Inside(d: string, mark: char, rest: string, i: nat, w: nat)
    requires i + w < |rest|
    ensures var text, k := d + ([mark] + rest), |d| + 1;
            && k + i + w < |text|
            && text[k + i..k + i + w] == rest[i..i + w] && text[k + i + w] == rest[i + w]
  {
    var text := d + ([mark] + rest);
    assert text[|d| + 1..] == rest;
    assert text[|d| + 1..][i..i + w] == text[|d| + 1 + i..|d| + 1 + i + w];
  }

  lemma {:induction false} FieldAt(layout: seq<Field>, values: seq<nat>, k: nat)
    requires |layout| == |values| && k < |layout|
    ensures var text, i, w := Render(layout, values), Offset(layout, k), layout[k].width;
            i + w < |text| && text[i..i + w] == Digits(values[k], w) && text[i + w] == layout[k].mark
    decreases k
  {
    hide Digits, Render;
    var d, rest := Digits(values[0], layout[0].width), Render(layout[1..], values[1..]);
    RenderStep(layout, values);
    if k == 0 {
      SplitAt(d, layout[0].mark, rest);
    } else {
      FieldAt(layout[1..], values[1..], k - 1);
      Inside(d, layout[0].mark, rest, Offset(layout[1..], k - 1), layout[k].width);
    }
  }

  lemma {:induction false} TwoDigits(text: string, i: nat, n: nat)
    requires n < 100 && i + 2 <= |text| && text[i..i + 2] == Digits(n, 2)
    ensures ReadsAt(text, i, [n / 10, n % 10])
  {
    assert Digits(n, 2) == Digits(n / 10, 1) + [DigitChar(n % 10)];
    assert Digits(n / 10, 1) == Digits(n / 10 / 10, 0) + [DigitChar(n / 10 % 10)];
    assert text[i..i + 2][0] == text[i] && text[i..i + 2][1] == text[i + 1];
    Decimal(n / 10);
    Decimal(n % 10);
  }

  lemma Decimal(d: nat)
    requires d < 10
    ensures DigitChar(d) == "0123456789"[d]
  {
  }

  /** A number of more digits ends in its last one. */
  lemma {:induction false} LastDigit(text: string, i: nat, n: nat, w: nat)
    requires i + w + 1 <= |text| && text[i..i + w + 1] == Digits(n, w + 1)
    ensures text[i..i + w] == Digits(n / 10, w) && text[i + w] == DigitChar(n % 10)
  {
    var d := text[i..i + w + 1];
    assert d[w] == DigitChar(n % 10) && d[..w] == Digits(n / 10, w);
    assert text[i..i + w] == d[..w] && text[i + w] == d[w];
  }

  lemma OneMore(text: string, i: nat, front: seq<int>, d: nat)
    requires ReadsAt(text, i, front) && d < 10 && i + |front| < |text| && text[i + |front|] == DigitChar(d)
    ensures ReadsAt(text, i, front + [d])
  {
    Decimal(d);
  }

  lemma {:induction false} FourDigits(text: string, i: nat, n: nat)
    requires n < 10_000 && i + 4 <= |text| && text[i..i + 4] == Digits(n, 4)
    ensures ReadsAt(text, i, [n / 1000, n / 100 % 10, n / 10 % 10, n % 10])
  {
    hide Digits, ReadsAt, DigitChar;
    LastDigit(text, i, n, 3);
    LastDigit(text, i, n / 10, 2);
    assert n / 10 / 10 == n / 100 && n / 100 / 10 == n / 1000;
    TwoDigits(text, i, n / 100);
    OneMore(text, i, [n / 1000, n / 100 % 10], n / 10 % 10);
    assert [n / 1000, n / 100 % 10] + [n / 10 % 10] == [n / 1000, n / 100 % 10, n / 10 % 10];
    OneMore(text, i, [n / 1000, n / 100 % 10, n / 10 % 10], n % 10);
    assert [n / 1000, n / 100 % 10, n / 10 % 10] + [n % 10] == [n / 1000, n / 100 % 10, n / 10 % 10, n % 10];
  }

  lemma {:induction false} SixDigits(text: string, i: nat, n: nat)
    requires n < 1_000_000 && i + 6 <= |text| && text[i..i + 6] == Digits(n, 6)
    ensures ReadsAt(text, i, [n / 100_000, n / 10_000 % 10, n / 1000 % 10, n / 100 % 10, n / 10 % 10, n % 10])
  {
    hide Digits, ReadsAt, DigitChar;
    LastDigit(text, i, n, 5);
    LastDigit(text, i, n / 10, 4);
    var m := n / 100;
    assert n / 10 / 10 == m && m / 1000 == n / 100_000 && m / 100 == n / 10_000 && m / 10 == n / 1000;
    FourDigits(text, i, m);
    var four := [n / 100_000, n / 10_000 % 10, n / 1000 % 10, n / 100 % 10];
    OneMore(text, i, four, n / 10 % 10);
    OneMore(text, i, four + [n / 10 % 10], n % 10);
    assert four + [n / 10 % 10] + [n % 10]
        == [n / 100_000, n / 10_000 % 10, n / 1000 % 10, n / 100 % 10, n / 10 % 10, n % 10];
  }

  lemma Offsets()
    ensures |LAYOUT| == 7
    ensures Offset(LAYOUT, 0) == 0 && Offset(LAYOUT, 1) == 5 && Offset(LAYOUT, 2) == 8 && Offset(LAYOUT, 3) == 11
    ensures Offset(LAYOUT, 4) == 14 && Offset(LAYOUT, 5) == 17 && Offset(LAYOUT, 6) == 20
  {
    var l := LAYOUT;
    OffsetStep(l, 1);
    OffsetStep(l, 2);
    OffsetStep(l, 3);
    OffsetStep(l, 4);
    OffsetStep(l, 5);
    OffsetStep(l, 6);
  }

  lemma {:induction false} OffsetStep(layout: seq<Field>, k: nat)
    requires 0 < k <= |layout|
    ensures Offset(layout, k) == Offset(layout, k - 1) + layout[k - 1].width + 1
    decreases k
  {
    if k > 1 { OffsetStep(layout[1..], k - 1); }
  }

  /** Where the separators and the digits of each field stand among the 27 characters. */
  lemma TextExact(t: Time)
    requires InRange(t)
    ensures var text, s := FormatUtc(t), StampOf(t);
            && |text| == 27
            && text[4] == '-' && text[7] == '-' && text[10] == 'T' && text[13] == ':' && text[16] == ':'
            && text[19] == '.' && text[26] == 'Z'
            && ReadsAt(text, 0, [s.year / 1000, s.year / 100 % 10, s.year / 10 % 10, s.year % 10])
            && ReadsAt(text, 5, [s.month / 10, s.month % 10]) && ReadsAt(text, 8, [s.day / 10, s.day % 10])
            && ReadsAt(text, 11, [s.hour / 10, s.hour % 10]) && ReadsAt(text, 14, [s.minute / 10, s.minute % 10])
            && ReadsAt(text, 17, [s.second / 10, s.second % 10])
            && ReadsAt(text, 20, [s.micro / 100_000, s.micro / 10_000 % 10, s.micro / 1000 % 10, s.micro / 100 % 10,
                                  s.micro / 10 % 10, s.micro % 10])
  {
    hide Digits, ReadsAt, StampOf, DaysInMonth, Render, Offset;
    var s := StampOf(t);
    var v := Fields(s);
    var text := FormatUtc(t);
    FixedWidth(t);
    StampExact(s);
    Offsets();
    forall k | 0 <= k < 7
      ensures var i, w := Offset(LAYOUT, k), LAYOUT[k].width;
              i + w < |text| && text[i..i + w] == Digits(v[k], w) && text[i + w] == LAYOUT[k].mark
    {
      FieldAt(LAYOUT, v, k);
    }
    hide MonthLengths;
    FourDigits(text, 0, s.year);
    TwoDigits(text, 5, s.month);
    TwoDigits(text, 8, s.day);
    TwoDigits(text, 11, s.hour);
    TwoDigits(text, 14, s.minute);
    TwoDigits(text, 17, s.second);
    SixDigits(text, 20, s.micro);
  }
}
