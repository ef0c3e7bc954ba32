/**
 The canonical text of an instant: microseconds since the first day of year 1,
 printed as a calendar date and time of fixed width. The store compares instants
 as texts, so the text order must be the order in time.
 */
module UtcTime {
  import opened Basics
  import opened Contracts
  import opened Numerals

  /* ---- Records of numbers of fixed width ---- */

  /** The width of a number and the character that closes it. */
  datatype Field = Field(width: nat, mark: char)

  predicate Fits(layout: seq<Field>, values: seq<nat>) {
    |layout| == |values| && forall i :: 0 <= i < |values| ==> values[i] < Power10(layout[i].width)
  }

  function Render(layout: seq<Field>, values: seq<nat>): string
    requires |layout| == |values|
  {
    if layout == [] then ""
    else Digits(values[0], layout[0].width) + ([layout[0].mark] + Render(layout[1..], values[1..]))
  }

  /** Reads a text of exactly this layout. */
  function Read(layout: seq<Field>, text: string): (r: Option<seq<nat>>)
    ensures r.Some? ==> Fits(layout, r.value)
  {
    if layout == [] then (if text == "" then Some([]) else None)
    else
      var w := layout[0].width;
      if |text| <= w || !AllDigits(text[..w]) || text[w] != layout[0].mark then None
      else
        var rest := Read(layout[1..], text[w + 1..]);
        if rest.None? then None else Some([ValueOf(text[..w])] + rest.value)
  }

  /** How a text splits at its first mark. */
  lemma SplitAt(d: string, mark: char, rest: string)
    ensures var text := d + ([mark] + rest);
            |text| > |d| && text[..|d|] == d && text[|d|] == mark && text[|d| + 1..] == rest
  {
  }

  /** Reading a text that starts with the first field. */
  lemma {:induction false} ReadField(layout: seq<Field>, d: string, rest: string)
    requires layout != [] && |d| == layout[0].width && AllDigits(d)
    ensures Read(layout, d + ([layout[0].mark] + rest)) ==
            match Read(layout[1..], rest) case None => None case Some(v) => Some([ValueOf(d)] + v)
  {
    hide ValueOf;
    SplitAt(d, layout[0].mark, rest);
  }

  lemma {:induction false} ReadRendered(layout: seq<Field>, values: seq<nat>)
    requires Fits(layout, values)
    ensures Read(layout, Render(layout, values)) == Some(values)
    decreases |layout|
  {
    hide Digits, ValueOf, Power10;
    if layout == [] {
      assert values == [];
    } else {
      var w, rest := layout[0].width, Render(layout[1..], values[1..]);
      assert Render(layout, values) == Digits(values[0], w) + ([layout[0].mark] + rest);
      DigitsReadBack(values[0], w);
      FitsTail(layout, values);
      ReadRendered(layout[1..], values[1..]);
      hide Fits, Render;
      ReadField(layout, Digits(values[0], w), rest);
      assert values == [values[0]] + values[1..];
    }
  }

  lemma FitsTail(layout: seq<Field>, values: seq<nat>)
    requires Fits(layout, values) && layout != []
    ensures Fits(layout[1..], values[1..])
  {
    hide Power10;
  }

  lemma {:induction false} RenderedRead(layout: seq<Field>, text: string)
    requires Read(layout, text).Some?
    ensures Render(layout, Read(layout, text).value) == text
    decreases |layout|
  {
    hide Digits, ValueOf, Power10;
    if layout != [] {
      var w := layout[0].width;
      var rest := Read(layout[1..], text[w + 1..]);
      DigitsReprinted(text[..w]);
      RenderedRead(layout[1..], text[w + 1..]);
      var values := Read(layout, text).value;
      assert values[0] == ValueOf(text[..w]) && values[1..] == rest.value;
      hide Read;
      assert Render(layout, values) == Digits(values[0], w) + ([layout[0].mark] + Render(layout[1..], values[1..]));
      assert text == text[..w] + ([text[w]] + text[w + 1..]);
    }
  }

  /** The first difference decides. */
  predicate Before(a: seq<nat>, b: seq<nat>)
    requires |a| == |b|
  {
    a != [] && (a[0] < b[0] || (a[0] == b[0] && Before(a[1..], b[1..])))
  }

  lemma {:induction false} RenderOrder(layout: seq<Field>, a: seq<nat>, b: seq<nat>)
    requires Fits(layout, a) && Fits(layout, b)
    ensures Less(Render(layout, a), Render(layout, b)) <==> Before(a, b)
    decreases |layout|
  {
    if layout != [] {
      var w := layout[0].width;
      var x, y := Render(layout[1..], a[1..]), Render(layout[1..], b[1..]);
      DigitsOrder(a[0], b[0], w);
      LessConcat(Digits(a[0], w), Digits(b[0], w), [layout[0].mark] + x, [layout[0].mark] + y);
      LessConcat([layout[0].mark], [layout[0].mark], x, y);
      LessIrreflexive([layout[0].mark]);
      RenderOrder(layout[1..], a[1..], b[1..]);
    }
  }

  /* ---- The calendar ---- */

  const MAX_YEAR := 9999

  predicate IsLeap(y: int) {
    y % 4 == 0 && (y % 100 != 0 || y % 400 == 0)
  }

  /** The days before the first day of a year, counted from year 1. */
  function DaysBeforeYear(y: int): int {
    365 * (y - 1) + (y - 1) / 4 - (y - 1) / 100 + (y - 1) / 400
  }

  function DaysInMonth(y: int, m: int): int {
    if m == 2 then (if IsLeap(y) then 29 else 28)
    else if m == 4 || m == 6 || m == 9 || m == 11 then 30
    else 31
  }

  function DaysBeforeMonth(y: int, m: int): int
    requires 1 <= m <= 13
    decreases m
  {
    if m == 1 then 0 else DaysBeforeMonth(y, m - 1) + DaysInMonth(y, m - 1)
  }

  lemma YearLength(y: int)
    ensures DaysBeforeYear(y + 1) - DaysBeforeYear(y) == if IsLeap(y) then 366 else 365
  {
    assert y / 4 - (y - 1) / 4 == if y % 4 == 0 then 1 else 0;
    assert y / 100 - (y - 1) / 100 == if y % 100 == 0 then 1 else 0;
    assert y / 400 - (y - 1) / 400 == if y % 400 == 0 then 1 else 0;
    assert y % 400 == 0 ==> y % 100 == 0;
    assert y % 100 == 0 ==> y % 4 == 0;
  }

  lemma YearDays(y: int)
    ensures DaysBeforeMonth(y, 13) == DaysBeforeYear(y + 1) - DaysBeforeYear(y)
  {
    YearLength(y);
    var k := if IsLeap(y) then 1 else 0;
    assert DaysBeforeMonth(y, 2) == 31;
    assert DaysBeforeMonth(y, 3) == 59 + k;
    assert DaysBeforeMonth(y, 4) == 90 + k;
    assert DaysBeforeMonth(y, 5) == 120 + k;
    assert DaysBeforeMonth(y, 6) == 151 + k;
    assert DaysBeforeMonth(y, 7) == 181 + k;
    assert DaysBeforeMonth(y, 8) == 212 + k;
    assert DaysBeforeMonth(y, 9) == 243 + k;
    assert DaysBeforeMonth(y, 10) == 273 + k;
    assert DaysBeforeMonth(y, 11) == 304 + k;
    assert DaysBeforeMonth(y, 12) == 334 + k;
  }

  lemma {:induction false} YearsAscend(y: int, z: int)
    requires y <= z
    ensures DaysBeforeYear(y) + 365 * (z - y) <= DaysBeforeYear(z)
    decreases z - y
  {
    if y < z {
      YearsAscend(y, z - 1);
      YearLength(z - 1);
    }
  }

  lemma {:induction false} MonthsAscend(y: int, m: int, n: int)
    requires 1 <= m <= n <= 13
    ensures DaysBeforeMonth(y, m) <= DaysBeforeMonth(y, n)
    ensures m < n ==> DaysBeforeMonth(y, m) + DaysInMonth(y, m) <= DaysBeforeMonth(y, n)
    decreases n - m
  {
    if m < n { MonthsAscend(y, m, n - 1); }
  }

  /** A calendar date and time of day, as the timestamp type holds it. */
  datatype Stamp = Stamp(year: nat, month: nat, day: nat, hour: nat, minute: nat, second: nat, micro: nat)

  predicate ValidStamp(s: Stamp) {
    && 1 <= s.year <= MAX_YEAR && 1 <= s.month <= 12 && 1 <= s.day <= DaysInMonth(s.year, s.month)
    && s.hour < 24 && s.minute < 60 && s.second < 60 && s.micro < 1_000_000
  }

  function DayNumber(s: Stamp): int
    requires ValidStamp(s)
  {
    DaysBeforeYear(s.year) + DaysBeforeMonth(s.year, s.month) + s.day - 1
  }

  function TimeOfDay(s: Stamp): int {
    ((s.hour * 60 + s.minute) * 60 + s.second) * 1_000_000 + s.micro
  }

  /** The instant of a date and time. */
  function Instant(s: Stamp): Time
    requires ValidStamp(s)
  {
    DayNumber(s) * 86_400_000_000 + TimeOfDay(s)
  }

  /** The instants the timestamp type can hold. */
  predicate InRange(t: Time) {
    0 <= t < DaysBeforeYear(MAX_YEAR + 1) * 86_400_000_000
  }

  function YearFrom(n: int, y: int): (r: int)
    requires DaysBeforeYear(y) <= n
    ensures r >= y && DaysBeforeYear(r) <= n < DaysBeforeYear(r + 1)
    decreases n - DaysBeforeYear(y)
  {
    YearLength(y);
    if n < DaysBeforeYear(y + 1) then y else YearFrom(n, y + 1)
  }

  function MonthFrom(y: int, n: int, m: int): (r: int)
    requires 1 <= m <= 12 && DaysBeforeMonth(y, m) <= n < DaysBeforeMonth(y, 13)
    ensures m <= r <= 12 && DaysBeforeMonth(y, r) <= n < DaysBeforeMonth(y, r + 1)
    decreases 12 - m
  {
    if n < DaysBeforeMonth(y, m + 1) then m else MonthFrom(y, n, m + 1)
  }

  /** The date and time of an instant. */
  function StampOf(t: Time): (s: Stamp)
    requires InRange(t)
    ensures ValidStamp(s)
  {
    var n, u := t / 86_400_000_000, t % 86_400_000_000;
    DayInRange(t);
    var y := YearFrom(n, 1);
    YearDays(y);
    YearBounded(n, y);
    var d := n - DaysBeforeYear(y);
    var m := MonthFrom(y, d, 1);
    var seconds := u / 1_000_000;
    Stamp(y, m, d - DaysBeforeMonth(y, m) + 1, seconds / 3600, seconds / 60 % 60, seconds % 60, u % 1_000_000)
  }

  lemma DayInRange(t: Time)
    requires InRange(t)
    ensures 0 <= t / 86_400_000_000 < DaysBeforeYear(MAX_YEAR + 1)
  {
  }

  lemma YearBounded(n: int, y: int)
    requires DaysBeforeYear(y) <= n < DaysBeforeYear(MAX_YEAR + 1)
    ensures y <= MAX_YEAR
  {
    if y > MAX_YEAR { YearsAscend(MAX_YEAR + 1, y); }
  }

  lemma InstantOfStamp(t: Time)
    requires InRange(t)
    ensures Instant(StampOf(t)) == t
  {
    var s := StampOf(t);
    SplitTime(t % 86_400_000_000);
    assert DayNumber(s) == t / 86_400_000_000 by { hide YearFrom, MonthFrom, DaysBeforeYear, DaysBeforeMonth, IsLeap, DaysInMonth; }
    hide StampOf, DayNumber;
    assert TimeOfDay(s) == t % 86_400_000_000;
  }

  lemma SplitTime(u: int)
    requires 0 <= u < 86_400_000_000
    ensures var n := u / 1_000_000;
            && ((n / 3600 * 60 + n / 60 % 60) * 60 + n % 60) * 1_000_000 + u % 1_000_000 == u
            && n / 3600 < 24
  {
    var n := u / 1_000_000;
    assert n / 3600 == n / 60 / 60;
    assert n / 60 == n / 60 / 60 * 60 + n / 60 % 60;
    assert n == n / 60 * 60 + n % 60;
  }

  predicate EarlierDate(a: Stamp, b: Stamp) {
    || a.year < b.year
    || (a.year == b.year && (a.month < b.month || (a.month == b.month && a.day < b.day)))
  }

  /** Earlier in the calendar is earlier in time. */
  lemma DatesAscend(a: Stamp, b: Stamp)
    requires ValidStamp(a) && ValidStamp(b)
    requires EarlierDate(a, b)
    ensures DayNumber(a) < DayNumber(b)
  {
    MonthsAscend(a.year, a.month, 13);
    YearDays(a.year);
    MonthsAscend(b.year, 1, b.month);
    hide DaysBeforeYear, DaysInMonth, IsLeap;
    if a.year < b.year {
      YearsAscend(a.year + 1, b.year);
    } else if a.month < b.month {
      MonthsAscend(a.year, a.month, b.month);
    }
  }

  lemma InstantInRange(s: Stamp)
    requires ValidStamp(s)
    ensures InRange(Instant(s)) && 0 <= TimeOfDay(s) < 86_400_000_000 && 0 <= DayNumber(s)
  {
    MonthsAscend(s.year, 1, s.month);
    MonthsAscend(s.year, s.month, 13);
    YearDays(s.year);
    YearsAscend(1, s.year);
    YearsAscend(s.year + 1, MAX_YEAR + 1);
    assert DayNumber(s) + 1 <= DaysBeforeYear(MAX_YEAR + 1);
  }

  predicate EarlierTime(a: Stamp, b: Stamp) {
    || a.hour < b.hour
    || (a.hour == b.hour
        && (a.minute < b.minute
            || (a.minute == b.minute
                && (a.second < b.second || (a.second == b.second && a.micro < b.micro)))))
  }

  predicate Earlier(a: Stamp, b: Stamp) {
    || EarlierDate(a, b)
    || (a.year == b.year && a.month == b.month && a.day == b.day && EarlierTime(a, b))
  }

  lemma EarlierTotal(a: Stamp, b: Stamp)
    ensures a == b || Earlier(a, b) || Earlier(b, a)
  {
  }

  lemma TimesAscend(a: Stamp, b: Stamp)
    requires ValidStamp(a) && ValidStamp(b) && EarlierTime(a, b)
    ensures TimeOfDay(a) < TimeOfDay(b)
  {
    var x, y := a.hour * 60 + a.minute, b.hour * 60 + b.minute;
    var u, v := x * 60 + a.second, y * 60 + b.second;
    assert a.hour < b.hour ==> x < y;
    assert x < y ==> u < v;
    assert u < v || (u == v && a.micro < b.micro);
  }

  /** The order of the fields is the order in time. */
  lemma EarlierExact(a: Stamp, b: Stamp)
    requires ValidStamp(a) && ValidStamp(b)
    ensures Earlier(a, b) <==> Instant(a) < Instant(b)
    ensures a == b <==> Instant(a) == Instant(b)
  {
    EarlierInstant(a, b);
    EarlierInstant(b, a);
    EarlierTotal(a, b);
  }

  lemma EarlierInstant(a: Stamp, b: Stamp)
    requires ValidStamp(a) && ValidStamp(b)
    ensures Earlier(a, b) ==> Instant(a) < Instant(b)
  {
    InstantInRange(a);
    InstantInRange(b);
    if EarlierDate(a, b) {
      DatesAscend(a, b);
    } else if Earlier(a, b) {
      TimesAscend(a, b);
    }
  }

  lemma StampOfInstant(s: Stamp)
    requires ValidStamp(s)
    ensures InRange(Instant(s)) && StampOf(Instant(s)) == s
  {
    InstantInRange(s);
    InstantOfStamp(Instant(s));
    EarlierExact(s, StampOf(Instant(s)));
  }

  /* ---- Canonical text ---- */

  const LAYOUT: seq<Field> :=
    [Field(4, '-'), Field(2, '-'), Field(2, 'T'), Field(2, ':'), Field(2, ':'), Field(2, '.'), Field(6, 'Z')]

  function Fields(s: Stamp): seq<nat> {
    [s.year, s.month, s.day, s.hour, s.minute, s.second, s.micro]
  }

  function StampWith(v: seq<nat>): Stamp
    requires |v| == 7
  {
    Stamp(v[0], v[1], v[2], v[3], v[4], v[5], v[6])
  }

  function FormatUtc(t: Time): string
    requires InRange(t)
  {
    Render(LAYOUT, Fields(StampOf(t)))
  }

  /** Accepts exactly the canonical texts. */
  function ParseUtc(text: string): Option<Time> {
    var r := Read(LAYOUT, text);
    if r.Some? && ValidStamp(StampWith(r.value)) then Some(Instant(StampWith(r.value))) else None
  }

  lemma Powers()
    ensures Power10(2) == 100 && Power10(4) == 10_000 && Power10(6) == 1_000_000
  {
    assert Power10(1) == 10 * Power10(0);
    assert Power10(2) == 10 * Power10(1);
    assert Power10(3) == 10 * Power10(2);
    assert Power10(4) == 10 * Power10(3);
    assert Power10(5) == 10 * Power10(4);
    assert Power10(6) == 10 * Power10(5);
  }

  lemma FieldsFit(s: Stamp)
    requires ValidStamp(s)
    ensures Fits(LAYOUT, Fields(s))
  {
    Powers();
    hide Power10;
    forall i | 0 <= i < 7 ensures Fields(s)[i] < Power10(LAYOUT[i].width) {}
  }

  lemma {:induction false} RenderLength(layout: seq<Field>, values: seq<nat>)
    requires |layout| == |values|
    ensures |Render(layout, values)| == Width(layout)
    decreases |layout|
  {
    if layout != [] { RenderLength(layout[1..], values[1..]); }
  }

  function Width(layout: seq<Field>): nat {
    if layout == [] then 0 else layout[0].width + 1 + Width(layout[1..])
  }

  /** Every timestamp text has the same width. */
  lemma FixedWidth(t: Time)
    requires InRange(t)
    ensures |FormatUtc(t)| == 27
  {
    RenderLength(LAYOUT, Fields(StampOf(t)));
    assert Width(LAYOUT[6..]) == 7;
    assert LAYOUT[5..][1..] == LAYOUT[6..] && Width(LAYOUT[5..]) == 10;
    assert LAYOUT[4..][1..] == LAYOUT[5..] && Width(LAYOUT[4..]) == 13;
    assert LAYOUT[3..][1..] == LAYOUT[4..] && Width(LAYOUT[3..]) == 16;
    assert LAYOUT[2..][1..] == LAYOUT[3..] && Width(LAYOUT[2..]) == 19;
    assert LAYOUT[1..][1..] == LAYOUT[2..] && Width(LAYOUT[1..]) == 22;
  }

  /** Comparing timestamp texts compares the instants. */
  lemma TextOrderIsTimeOrder(a: Time, b: Time)
    requires InRange(a) && InRange(b)
    ensures Less(FormatUtc(a), FormatUtc(b)) <==> a < b
    ensures FormatUtc(a) == FormatUtc(b) <==> a == b
  {
    var s, t := StampOf(a), StampOf(b);
    FieldsFit(s);
    FieldsFit(t);
    RenderOrder(LAYOUT, Fields(s), Fields(t));
    BeforeIsEarlier(s, t);
    InstantOfStamp(a);
    InstantOfStamp(b);
    EarlierExact(s, t);
    ParseFormatted(a);
    ParseFormatted(b);
  }

  lemma BeforeIsEarlier(a: Stamp, b: Stamp)
    ensures Before(Fields(a), Fields(b)) <==> Earlier(a, b)
  {
    var x, y := Fields(a), Fields(b);
    TailBefore(x, y, 6);
    TailBefore(x, y, 5);
    TailBefore(x, y, 4);
    TailBefore(x, y, 3);
    TailBefore(x, y, 2);
    TailBefore(x, y, 1);
    TailBefore(x, y, 0);
    assert x[7..] == [] && y[7..] == [] && x[0..] == x && y[0..] == y;
    assert !Before(x[7..], y[7..]);
  }

  lemma TailBefore(x: seq<nat>, y: seq<nat>, k: nat)
    requires |x| == |y| && k < |x|
    ensures Before(x[k..], y[k..]) <==> x[k] < y[k] || (x[k] == y[k] && Before(x[k + 1..], y[k + 1..]))
  {
    assert x[k..][1..] == x[k + 1..] && y[k..][1..] == y[k + 1..];
  }

  /** A printed timestamp reads back. */
  lemma ParseFormatted(t: Time)
    requires InRange(t)
    ensures ParseUtc(FormatUtc(t)) == Some(t)
  {
    var s := StampOf(t);
    FieldsFit(s);
    ReadRendered(LAYOUT, Fields(s));
    assert StampWith(Fields(s)) == s;
    InstantOfStamp(t);
  }

  /** Only canonical texts are read: each reprints to itself. */
  lemma FormatParsed(text: string)
    requires ParseUtc(text).Some?
    ensures InRange(ParseUtc(text).value) && FormatUtc(ParseUtc(text).value) == text
  {
    hide Read, Render, InRange, StampOf, Instant, ValidStamp;
    var v := Read(LAYOUT, text).value;
    var s := StampWith(v);
    RenderedRead(LAYOUT, text);
    StampOfInstant(s);
    assert Fields(s) == v;
  }
}
