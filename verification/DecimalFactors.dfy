/**
 The 20-session mean turnover: decimal arithmetic at a precision of 50 digits,
 and when it is exact.
 */
module DecimalFactors {
  import opened Basics
  import opened Contracts
  import opened Numerals

  const PRECISION := 50

  /* ---- Decimal numbers ---- */

  /** coefficient * 10 ^ exponent; the sign of a zero is not kept. */
  datatype Decimal = Decimal(coefficient: int, exponent: int)

  function Magnitude(n: int): nat {
    if n < 0 then -n else n
  }

  function DigitCount(n: nat): nat {
    |PrintNat(n)|
  }

  /** The coefficient of the same number at a smaller exponent. */
  function AtScale(d: Decimal, scale: int): int
    requires scale <= d.exponent
  {
    d.coefficient * Power10(d.exponent - scale)
  }

  function Min(a: int, b: int): int {
    if a < b then a else b
  }

  ghost predicate SameNumber(a: Decimal, b: Decimal) {
    AtScale(a, Min(a.exponent, b.exponent)) == AtScale(b, Min(a.exponent, b.exponent))
  }

  /* ---- Arithmetic with rounding ---- */

  /** The quotient rounded half to even. */
  function RoundHalfEven(n: nat, divisor: nat): nat
    requires divisor > 0
  {
    var q, r := n / divisor, n % divisor;
    if 2 * r > divisor || (2 * r == divisor && q % 2 == 1) then q + 1 else q
  }

  /** Keeps at most 50 digits. */
  function Fix(d: Decimal): Decimal {
    var n := Magnitude(d.coefficient);
    var digits := DigitCount(n);
    if digits <= PRECISION then d
    else
      var dropped := digits - PRECISION;
      var q := RoundHalfEven(n, Power10(dropped));
      var sign := if d.coefficient < 0 then -1 else 1;
      if DigitCount(q) > PRECISION then Decimal(sign * (q / 10), d.exponent + dropped + 1)
      else Decimal(sign * q, d.exponent + dropped)
  }

  function Add(a: Decimal, b: Decimal): Decimal {
    var e := Min(a.exponent, b.exponent);
    Fix(Decimal(AtScale(a, e) + AtScale(b, e), e))
  }

  /** Drops trailing zeros while the exponent is below the ideal one. */
  function Strip(coefficient: nat, exponent: int, ideal: int): Decimal
    requires exponent <= ideal
    decreases ideal - exponent
  {
    if exponent < ideal && coefficient % 10 == 0 then Strip(coefficient / 10, exponent + 1, ideal)
    else Decimal(coefficient, exponent)
  }

  function Dividend(a: nat, shift: int): nat {
    if shift >= 0 then a * Power10(shift) else a
  }

  function Divisor(b: nat, shift: int): (m: nat)
    requires b > 0
    ensures m > 0
  {
    if shift >= 0 then b
    else
      ProductPositive(b, Power10(-shift));
      b * Power10(-shift)
  }

  lemma ProductPositive(a: nat, b: nat)
    requires a > 0 && b > 0
    ensures a * b > 0
  {
  }

  /** Division of non-negative numbers: 51 digits of quotient and a sticky last digit. */
  function Divide(a: Decimal, b: Decimal): Decimal
    requires a.coefficient >= 0 && b.coefficient > 0
  {
    var ideal := a.exponent - b.exponent;
    if a.coefficient == 0 then Decimal(0, ideal)
    else
      var shift := DigitCount(b.coefficient) - DigitCount(a.coefficient) + PRECISION + 1;
      var n, m := Dividend(a.coefficient, shift), Divisor(b.coefficient, shift);
      var q, r := n / m, n % m;
      if r != 0 then Fix(Decimal(if q % 5 == 0 then q + 1 else q, ideal - shift))
      else if shift >= 0 then Fix(Strip(q, ideal - shift, ideal))
      else Fix(Decimal(q, ideal - shift))
  }

  /** Sums from the left, starting at zero. */
  function Total(numbers: seq<Decimal>): Decimal
    decreases |numbers|
  {
    if numbers == [] then Decimal(0, 0) else Add(Total(numbers[..|numbers| - 1]), numbers[|numbers| - 1])
  }

  const SESSIONS := 20

  function Mean(numbers: seq<Decimal>): Decimal
    requires Total(numbers).coefficient >= 0
  {
    Divide(Total(numbers), Decimal(SESSIONS, 0))
  }

  /* ---- Powers of ten ---- */

  lemma {:induction false} PowerSum(a: nat, b: nat)
    ensures Power10(a + b) == Power10(a) * Power10(b)
    decreases a
  {
    hide Power10;
    if a == 0 {
      UnitPower();
    } else {
      PowerSum(a - 1, b);
      PowerStep(a);
      PowerStep(a + b);
      TenTimes(Power10(b), Power10(a - 1));
    }
  }

  lemma UnitPower()
    ensures Power10(0) == 1
  {
  }

  lemma PowerStep(n: nat)
    requires n > 0
    ensures Power10(n) == 10 * Power10(n - 1)
  {
  }

  lemma TenTimes(x: int, y: int)
    ensures 10 * (x * y) == x * (10 * y)
  {
  }

  lemma {:induction false} PowerGrows(a: nat, b: nat)
    requires a <= b
    ensures Power10(a) <= Power10(b)
    decreases b
  {
    if a < b { PowerGrows(a, b - 1); }
  }

  /** A number lies between the powers its digit count gives. */
  lemma {:induction false} DigitBounds(n: nat)
    requires n > 0
    ensures DigitCount(n) >= 1 && Power10(DigitCount(n) - 1) <= n < Power10(DigitCount(n))
  {
    NatReadBack(n);
    if n >= 10 {
      DigitBounds(n / 10);
      assert Power10(DigitCount(n) - 1) == 10 * Power10(DigitCount(n / 10) - 1);
    } else {
      assert Power10(0) == 1;
    }
  }

  lemma {:induction false} FewDigits(n: nat, k: nat)
    requires n < Power10(k) && k > 0
    ensures DigitCount(n) <= k
  {
    if n == 0 {
      assert PrintNat(0) == "0";
    } else {
      DigitBounds(n);
      if DigitCount(n) > k { PowerGrows(k, DigitCount(n) - 1); }
    }
  }

  /* ---- Exact sums ---- */

  /** Moving a number to a smaller scale keeps it. */
  lemma ScaleTwice(d: Decimal, e: int, s: int)
    requires s <= e <= d.exponent
    ensures AtScale(Decimal(AtScale(d, e), e), s) == AtScale(d, s)
  {
    PowerSum(d.exponent - e, e - s);
    var c, x, y := d.coefficient, Power10(d.exponent - e), Power10(e - s);
    assert (c * x) * y == c * (x * y);
  }

  lemma ScaleSum(a: int, b: int, p: int)
    ensures (a + b) * p == a * p + b * p
  {
  }

  /** Scaling up cannot make a coefficient smaller. */
  lemma ScaleBound(c: int, p: nat, limit: nat)
    requires p > 0 && Magnitude(c * p) < limit
    ensures Magnitude(c) < limit
  {
    if c >= 0 { assert c <= c * p; } else { assert -c <= (-c) * p == -(c * p); }
  }

  /** An addition whose result fits in 50 digits at some scale is exact. */
  lemma AddExact(a: Decimal, b: Decimal, s: int)
    requires s <= a.exponent && s <= b.exponent
    requires Magnitude(AtScale(a, s) + AtScale(b, s)) < Power10(PRECISION)
    ensures Add(a, b).exponent == Min(a.exponent, b.exponent)
    ensures AtScale(Add(a, b), s) == AtScale(a, s) + AtScale(b, s)
  {
    hide Power10, PrintNat;
    var e := Min(a.exponent, b.exponent);
    var c := AtScale(a, e) + AtScale(b, e);
    ScaleTwice(a, e, s);
    ScaleTwice(b, e, s);
    ScaleSum(AtScale(a, e), AtScale(b, e), Power10(e - s));
    assert c * Power10(e - s) == AtScale(a, s) + AtScale(b, s);
    ScaleBound(c, Power10(e - s), Power10(PRECISION));
    FewDigits(Magnitude(c), PRECISION);
  }

  function ScaledSum(numbers: seq<Decimal>, s: int): int
    requires forall i :: 0 <= i < |numbers| ==> s <= numbers[i].exponent
    decreases |numbers|
  {
    if numbers == [] then 0 else ScaledSum(numbers[..|numbers| - 1], s) + AtScale(numbers[|numbers| - 1], s)
  }

  /** Non-negative numbers whose sum at a common scale has at most 50 digits. */
  ghost predicate FitsPrecision(numbers: seq<Decimal>, s: int) {
    && s <= 0
    && (forall i :: 0 <= i < |numbers| ==> s <= numbers[i].exponent && numbers[i].coefficient >= 0)
    && ScaledSum(numbers, s) < Power10(PRECISION)
  }

  lemma LastAtScale(numbers: seq<Decimal>, s: int)
    requires numbers != [] && FitsPrecision(numbers, s)
    ensures FitsPrecision(numbers[..|numbers| - 1], s) && s <= numbers[|numbers| - 1].exponent
    ensures AtScale(numbers[|numbers| - 1], s) >= 0
  {
    hide Power10;
    var last := numbers[|numbers| - 1];
    ProductNonNegative(last.coefficient, Power10(last.exponent - s));
  }

  /** Every partial sum of such numbers is exact. */
  lemma {:induction false} TotalExact(numbers: seq<Decimal>, s: int)
    requires FitsPrecision(numbers, s)
    ensures s <= Total(numbers).exponent <= 0
    ensures AtScale(Total(numbers), s) == ScaledSum(numbers, s) >= 0
    decreases |numbers|
  {
    hide Power10, Fix, PrintNat;
    if numbers == [] {
      assert 0 * Power10(0 - s) == 0;
    } else {
      var n := |numbers| - 1;
      LastAtScale(numbers, s);
      TotalExact(numbers[..n], s);
      AddExact(Total(numbers[..n]), numbers[n], s);
    }
  }

  /** The scale of the inputs themselves: their smallest exponent, or zero. */
  function OwnScale(numbers: seq<Decimal>): int
    decreases |numbers|
  {
    if numbers == [] then 0 else Min(OwnScale(numbers[..|numbers| - 1]), numbers[|numbers| - 1].exponent)
  }

  lemma {:induction false} OwnScaleLeast(numbers: seq<Decimal>)
    ensures var e := OwnScale(numbers);
            && e <= 0 && (forall x :: x in numbers ==> e <= x.exponent)
            && (e == 0 || exists x :: x in numbers && x.exponent == e)
    decreases |numbers|
  {
    if numbers != [] {
      var front, last := numbers[..|numbers| - 1], numbers[|numbers| - 1];
      assert numbers == front + [last];
      OwnScaleLeast(front);
    }
  }

  /** An exact sum is kept at the scale of its inputs. */
  lemma {:induction false} TotalAtOwnScale(numbers: seq<Decimal>, s: int)
    requires FitsPrecision(numbers, s)
    ensures Total(numbers).exponent == OwnScale(numbers)
    decreases |numbers|
  {
    hide Power10, Fix, PrintNat;
    if numbers != [] {
      var n := |numbers| - 1;
      LastAtScale(numbers, s);
      TotalAtOwnScale(numbers[..n], s);
      TotalExact(numbers[..n], s);
      AddExact(Total(numbers[..n]), numbers[n], s);
    }
  }

  /** A bound for each input: coefficients at a common scale of at most 48 digits. */
  ghost predicate CommonScale(numbers: seq<Decimal>, s: int) {
    && s <= 0
    && forall i :: 0 <= i < |numbers| ==> s <= numbers[i].exponent && 0 <= AtScale(numbers[i], s) < Power10(48)
  }

  /** 20 inputs within that bound fit with room for the division. */
  lemma {:induction false} FewDigitsFit(numbers: seq<Decimal>, s: int)
    requires CommonScale(numbers, s) && |numbers| <= SESSIONS
    ensures FitsPrecision(numbers, s) && 5 * ScaledSum(numbers, s) < Power10(PRECISION)
  {
    hide Power10, ScaledSum;
    forall i | 0 <= i < |numbers| ensures numbers[i].coefficient >= 0 {
      NonNegative(numbers[i].coefficient, Power10(numbers[i].exponent - s));
    }
    SumBetween(numbers, s, 0, Power10(48) - 1);
    Limits();
    TwentyTimes(|numbers|, Power10(48) - 1);
  }

  lemma TwentyTimes(n: nat, p: nat)
    requires n <= SESSIONS
    ensures n * p <= 20 * p
  {
    assert (20 - n) * p >= 0;
  }

  lemma Limits()
    ensures 5 * (20 * Power10(48)) == Power10(PRECISION)
  {
    assert Power10(49) == 10 * Power10(48);
    assert Power10(50) == 10 * Power10(49);
  }

  /* ---- The exact mean ---- */

  /** Stripping keeps the number. */
  lemma {:induction false} StripKeeps(c: nat, e: int, ideal: int)
    requires e <= ideal
    ensures var r := Strip(c, e, ideal);
            e <= r.exponent <= ideal && 0 <= r.coefficient <= c && AtScale(r, e) == c
    decreases ideal - e
  {
    if e < ideal && c % 10 == 0 {
      var r := Strip(c / 10, e + 1, ideal);
      StripKeeps(c / 10, e + 1, ideal);
      var p := Power10(r.exponent - (e + 1));
      assert Power10(r.exponent - e) == 10 * p;
      assert r.coefficient * (10 * p) == 10 * (r.coefficient * p);
    } else {
      assert Power10(0) == 1;
    }
  }

  /** Zeros on the right are stripped as far as the ideal exponent allows. */
  lemma {:induction false} StripZeros(c: nat, j: nat, e: int, ideal: int)
    requires e + j <= ideal
    ensures Strip(c * Power10(j), e, ideal) == Strip(c, e + j, ideal)
    decreases j
  {
    if j > 0 {
      var p := Power10(j - 1);
      assert Power10(j) == 10 * p;
      assert c * (10 * p) == 10 * (c * p);
      StripZeros(c, j - 1, e + 1, ideal);
    } else {
      assert Power10(0) == 1 && c * 1 == c;
    }
  }

  lemma TwentyDigits()
    ensures DigitCount(SESSIONS) == 2
  {
    assert PrintNat(2) == [DigitChar(2)];
  }

  /** Dividing by 20 is exact when five times the coefficient fits in 50 digits. */
  lemma DivideExact(a: Decimal)
    requires 0 <= 5 * a.coefficient < Power10(PRECISION)
    ensures var r := Divide(a, Decimal(SESSIONS, 0));
            && a.exponent - 2 <= r.exponent <= a.exponent && r.coefficient >= 0
            && AtScale(r, a.exponent - 2) == 5 * a.coefficient
  {
    hide PrintNat, Power10;
    var c, e := a.coefficient, a.exponent;
    if c == 0 {
      assert 0 * Power10(2) == 0;
    } else {
      DivideStrip(a);
      StripKeeps(5 * c, e - 2, e);
      FixSmall(Strip(5 * c, e - 2, e));
    }
  }

  lemma FixSmall(d: Decimal)
    requires Magnitude(d.coefficient) < Power10(PRECISION)
    ensures Fix(d) == d
  {
    hide PrintNat, Power10;
    FewDigits(Magnitude(d.coefficient), PRECISION);
  }

  /** A number of at most 50 digits divided by 20: five times the coefficient, stripped and rounded. */
  lemma DivideStrip(a: Decimal)
    requires 0 < a.coefficient < Power10(PRECISION)
    ensures Divide(a, Decimal(SESSIONS, 0)) == Fix(Strip(5 * a.coefficient, a.exponent - 2, a.exponent))
  {
    hide PrintNat, Power10, Fix, Strip;
    var c, e := a.coefficient, a.exponent;
    FewDigits(c, PRECISION);
    TwentyDigits();
    var shift := 2 - DigitCount(c) + PRECISION + 1;
    Hundred(c, shift);
    StripZeros(5 * c, shift - 2, e - shift, e);
  }

  lemma Hundred(c: nat, shift: nat)
    requires shift >= 2
    ensures var n := c * Power10(shift);
            n / SESSIONS == 5 * c * Power10(shift - 2) && n % SESSIONS == 0
  {
    var p := Power10(shift - 2);
    assert Power10(shift) == 10 * Power10(shift - 1) && Power10(shift - 1) == 10 * p;
    assert c * (100 * p) == 20 * (5 * c * p) by {
      assert c * (100 * p) == 100 * (c * p);
      assert 5 * c * p == 5 * (c * p);
    }
  }

  /**
   When five times the sum still fits, the division is exact too: the mean is the
   twentieth part of the true sum.
   */
  lemma {:induction false} MeanExact(numbers: seq<Decimal>, s: int)
    requires FitsPrecision(numbers, s) && 5 * ScaledSum(numbers, s) < Power10(PRECISION)
    ensures Total(numbers).coefficient >= 0 && s - 2 <= Mean(numbers).exponent && Mean(numbers).coefficient >= 0
    ensures AtScale(Mean(numbers), s - 2) == 5 * ScaledSum(numbers, s)
  {
    hide Power10, Divide, Total, ScaledSum, PrintNat;
    TotalExact(numbers, s);
    var t := Total(numbers);
    var p := Power10(t.exponent - s);
    NonNegative(t.coefficient, p);
    assert (5 * t.coefficient) * p == 5 * (t.coefficient * p);
    ScaleBound(5 * t.coefficient, p, Power10(PRECISION));
    DivideExact(t);
    var m := Mean(numbers);
    ScaleTwice(m, t.exponent - 2, s - 2);
  }

  lemma NonNegative(c: int, p: nat)
    requires p > 0 && c * p >= 0
    ensures c >= 0
  {
  }

  lemma {:induction false} SumBetween(numbers: seq<Decimal>, s: int, lo: int, hi: int)
    requires forall i :: 0 <= i < |numbers| ==> s <= numbers[i].exponent && lo <= AtScale(numbers[i], s) <= hi
    ensures |numbers| * lo <= ScaledSum(numbers, s) <= |numbers| * hi
    decreases |numbers|
  {
    hide Power10;
    if numbers != [] {
      var n := |numbers| - 1;
      SumBetween(numbers[..n], s, lo, hi);
      assert n * lo + lo == (n + 1) * lo && n * hi + hi == (n + 1) * hi;
    }
  }

  /** The mean lies between any bounds of the inputs; 100 * m at scale s - 2 is m at scale s. */
  lemma {:induction false} MeanBetween(numbers: seq<Decimal>, s: int, lo: int, hi: int)
    requires FitsPrecision(numbers, s) && 5 * ScaledSum(numbers, s) < Power10(PRECISION) && |numbers| == SESSIONS
    requires forall i :: 0 <= i < |numbers| ==> lo <= AtScale(numbers[i], s) <= hi
    ensures Total(numbers).coefficient >= 0 && s - 2 <= Mean(numbers).exponent
    ensures 100 * lo <= AtScale(Mean(numbers), s - 2) <= 100 * hi
  {
    hide Power10, ScaledSum, Total, Mean;
    MeanExact(numbers, s);
    SumBetween(numbers, s, lo, hi);
  }

  /* ---- When the mean is exact ---- */

  /** Two numbers are the same when they are at any smaller scale. */
  lemma SameNumberAt(a: Decimal, b: Decimal, s: int)
    requires s <= a.exponent && s <= b.exponent
    ensures SameNumber(a, b) <==> AtScale(a, s) == AtScale(b, s)
  {
    hide Power10;
    var m := Min(a.exponent, b.exponent);
    ScaleTwice(a, m, s);
    ScaleTwice(b, m, s);
    if AtScale(a, s) == AtScale(b, s) { SameFactor(AtScale(a, m), AtScale(b, m), Power10(m - s)); }
  }

  function Times20(m: Decimal): Decimal {
    Decimal(SESSIONS * m.coefficient, m.exponent)
  }

  /** The first number is exactly a twentieth of the second. */
  ghost predicate IsTwentieth(m: Decimal, t: Decimal) {
    SameNumber(Times20(m), t)
  }

  lemma TwentiethAt(m: Decimal, t: Decimal, s: int)
    requires s <= m.exponent && s <= t.exponent
    ensures IsTwentieth(m, t) <==> 20 * AtScale(m, s) == AtScale(t, s)
  {
    hide Power10;
    SameNumberAt(Times20(m), t, s);
    assert (20 * m.coefficient) * Power10(m.exponent - s) == 20 * (m.coefficient * Power10(m.exponent - s));
  }

  lemma TwentiethSame(x: Decimal, y: Decimal, t: Decimal, u: Decimal)
    requires SameNumber(x, y) && SameNumber(t, u)
    ensures IsTwentieth(x, t) <==> IsTwentieth(y, u)
  {
    hide Power10, AtScale, SameNumber, IsTwentieth;
    var s := Min(Min(x.exponent, y.exponent), Min(t.exponent, u.exponent));
    SameNumberAt(x, y, s);
    SameNumberAt(t, u, s);
    TwentiethAt(x, t, s);
    TwentiethAt(y, u, s);
  }

  lemma DigitCountIs(n: nat, k: nat)
    requires k > 0 && Power10(k - 1) <= n < Power10(k)
    ensures DigitCount(n) == k
  {
    hide Power10, PrintNat;
    DigitBounds(n);
    if DigitCount(n) < k { PowerGrows(DigitCount(n), k - 1); }
    if DigitCount(n) > k { PowerGrows(k, DigitCount(n) - 1); }
  }

  lemma BigPowers()
    ensures Power10(0) == 1 && Power10(1) == 10
    ensures Power10(49) == 10 * Power10(48) && Power10(50) == 10 * Power10(49) && Power10(51) == 10 * Power10(50)
    ensures Power10(48) > 10
  {
    PowerGrows(2, 48);
    assert Power10(2) == 10 * Power10(1) && Power10(1) == 10 * Power10(0);
  }

  /** A coefficient of 51 digits loses its last one. */
  lemma FixOneDigit(n: nat, e: int)
    requires Power10(50) <= n < Power10(51) && RoundHalfEven(n, 10) < Power10(50)
    ensures Fix(Decimal(n, e)) == Decimal(RoundHalfEven(n, 10), e + 1)
  {
    hide Power10, PrintNat;
    BigPowers();
    DigitCountIs(n, 51);
    FewDigits(RoundHalfEven(n, 10), 50);
  }

  /**
   A twentieth of a number of at most 50 digits is exact exactly when it has at most
   50 digits itself: five times the coefficient fits, or it ends in zero.
   */
  lemma DivideExactIff(a: Decimal)
    requires 0 <= a.coefficient < Power10(PRECISION)
    ensures IsTwentieth(Divide(a, Decimal(SESSIONS, 0)), a) <==>
            5 * a.coefficient < Power10(PRECISION) || a.coefficient % 2 == 0
  {
    hide PrintNat, Power10, Divide, SameNumber, IsTwentieth, AtScale, Strip;
    var c, e := a.coefficient, a.exponent;
    var r := Divide(a, Decimal(SESSIONS, 0));
    if 5 * c < Power10(PRECISION) {
      DivideExact(a);
      TwentiethAt(r, a, e - 2);
      HundredTimes(a);
    } else {
      DivideLong(a);
      if c % 2 == 0 { StripKeeps(c / 2, e - 1, e); } else { OwnAt(r); }
      TwentiethAt(r, a, e - 1);
      TenTimesAt(a);
    }
  }

  lemma OwnAt(d: Decimal)
    ensures AtScale(d, d.exponent) == d.coefficient
  {
  }

  lemma TenTimesAt(a: Decimal)
    ensures AtScale(a, a.exponent - 1) == 10 * a.coefficient
  {
    assert Power10(1) == 10 * Power10(0);
  }

  lemma HundredTimes(a: Decimal)
    ensures AtScale(a, a.exponent - 2) == 100 * a.coefficient
  {
    assert Power10(2) == 10 * Power10(1) && Power10(1) == 10 * Power10(0);
  }

  /** Dividing by 20 a coefficient whose fivefold has 51 digits. */
  lemma DivideLong(a: Decimal)
    requires 0 <= a.coefficient < Power10(PRECISION) <= 5 * a.coefficient
    ensures var r := Divide(a, Decimal(SESSIONS, 0));
            if a.coefficient % 2 == 0 then r == Strip(a.coefficient / 2, a.exponent - 1, a.exponent)
            else r == Decimal(RoundHalfEven(5 * a.coefficient, 10), a.exponent - 1)
  {
    hide PrintNat, Power10, Fix, Divide;
    var c, e := a.coefficient, a.exponent;
    BigPowers();
    DivideStrip(a);
    if c % 2 == 0 {
      StripOnce(c / 2, e - 2, e);
      StripKeeps(c / 2, e - 1, e);
      FixSmall(Strip(c / 2, e - 1, e));
    } else {
      assert Strip(5 * c, e - 2, e) == Decimal(5 * c, e - 2);
      FixOneDigit(5 * c, e - 2);
    }
  }

  lemma {:induction false} StripOnce(h: nat, e: int, ideal: int)
    requires e < ideal
    ensures Strip(10 * h, e, ideal) == Strip(h, e + 1, ideal)
  {
  }

  /**
   A sum that fits, taken at the scale of its inputs, has an exact mean exactly when
   five times it still fits or it is even.
   */
  lemma {:induction false} MeanExactIff(numbers: seq<Decimal>)
    requires FitsPrecision(numbers, OwnScale(numbers))
    ensures Total(numbers) == Decimal(ScaledSum(numbers, OwnScale(numbers)), OwnScale(numbers))
    ensures Total(numbers).coefficient >= 0
    ensures var sum := ScaledSum(numbers, OwnScale(numbers));
            IsTwentieth(Mean(numbers), Decimal(sum, OwnScale(numbers))) <==> 5 * sum < Power10(PRECISION) || sum % 2 == 0
  {
    hide Power10, Divide, Total, ScaledSum, PrintNat, OwnScale, IsTwentieth;
    TotalExact(numbers, OwnScale(numbers));
    TotalAtOwnScale(numbers, OwnScale(numbers));
    OwnAt(Total(numbers));
    DivideExactIff(Total(numbers));
  }

  /* ---- Order independence ---- */

  lemma {:induction false} SumWithout(numbers: seq<Decimal>, s: int, i: nat)
    requires i < |numbers| && forall j :: 0 <= j < |numbers| ==> s <= numbers[j].exponent
    ensures forall j :: 0 <= j < |Without(numbers, i)| ==> s <= Without(numbers, i)[j].exponent
    ensures ScaledSum(numbers, s) == ScaledSum(Without(numbers, i), s) + AtScale(numbers[i], s)
    decreases |numbers|
  {
    hide Power10, AtScale;
    var n := |numbers| - 1;
    if i == n {
      assert Without(numbers, i) == numbers[..n];
    } else {
      SumWithout(numbers[..n], s, i);
      var w := Without(numbers, i);
      assert w[..|w| - 1] == Without(numbers[..n], i);
      assert w[|w| - 1] == numbers[n];
    }
  }

  function Without(numbers: seq<Decimal>, i: nat): seq<Decimal>
    requires i < |numbers|
  {
    numbers[..i] + numbers[i + 1..]
  }

  lemma WithoutCount(numbers: seq<Decimal>, i: nat)
    requires i < |numbers|
    ensures multiset(numbers) == multiset(Without(numbers, i)) + multiset{numbers[i]}
  {
    assert numbers == numbers[..i] + [numbers[i]] + numbers[i + 1..];
  }

  lemma RestPermuted(a: seq<Decimal>, b: seq<Decimal>) returns (i: nat)
    requires multiset(a) == multiset(b) && a != []
    ensures i < |b| && b[i] == a[|a| - 1] && multiset(a[..|a| - 1]) == multiset(Without(b, i))
  {
    var n := |a| - 1;
    assert a[n] in multiset(a);
    assert a[n] in b;
    i :| 0 <= i < |b| && b[i] == a[n];
    WithoutCount(a, n);
    WithoutCount(b, i);
    assert Without(a, n) == a[..n];
    assert multiset(a[..n]) == multiset(a) - multiset{a[n]};
  }

  lemma ScalePermuted(a: seq<Decimal>, b: seq<Decimal>, s: int)
    requires multiset(a) == multiset(b) && forall i :: 0 <= i < |a| ==> s <= a[i].exponent
    ensures forall i :: 0 <= i < |b| ==> s <= b[i].exponent
  {
    forall i | 0 <= i < |b| ensures s <= b[i].exponent {
      assert b[i] in multiset(a);
    }
  }

  lemma {:induction false} SumPermuted(a: seq<Decimal>, b: seq<Decimal>, s: int)
    requires multiset(a) == multiset(b)
    requires forall i :: 0 <= i < |a| ==> s <= a[i].exponent
    ensures forall i :: 0 <= i < |b| ==> s <= b[i].exponent
    ensures ScaledSum(a, s) == ScaledSum(b, s)
    decreases |a|
  {
    hide Power10, AtScale, Without;
    ScalePermuted(a, b, s);
    assert |multiset(a)| == |a| && |multiset(b)| == |b|;
    if a != [] {
      var i := RestPermuted(a, b);
      SumWithout(b, s, i);
      SumPermuted(a[..|a| - 1], Without(b, i), s);
    }
  }

  lemma {:induction false} FitsPermuted(a: seq<Decimal>, b: seq<Decimal>, s: int)
    requires FitsPrecision(a, s) && multiset(a) == multiset(b)
    ensures FitsPrecision(b, s) && ScaledSum(b, s) == ScaledSum(a, s) && OwnScale(b) == OwnScale(a)
  {
    hide Power10, ScaledSum, OwnScale;
    SumPermuted(a, b, s);
    forall x ensures x in a <==> x in b { assert x in multiset(a) <==> x in multiset(b); }
    forall i | 0 <= i < |b| ensures b[i].coefficient >= 0 { assert b[i] in a; }
    OwnScaleLeast(a);
    OwnScaleLeast(b);
  }

  /** An exact sum does not depend on the order of the sessions, down to its digits. */
  lemma {:induction false} MeanOrderIndependent(a: seq<Decimal>, b: seq<Decimal>, s: int)
    requires FitsPrecision(a, s) && multiset(a) == multiset(b)
    ensures Total(a) == Total(b)
  {
    hide Power10, Total, ScaledSum, OwnScale;
    FitsPermuted(a, b, s);
    TotalExact(a, s);
    TotalExact(b, s);
    TotalAtOwnScale(a, s);
    TotalAtOwnScale(b, s);
    SameFactor(Total(a).coefficient, Total(b).coefficient, Power10(OwnScale(a) - s));
  }

  lemma SameFactor(c: int, d: int, p: nat)
    requires p > 0 && c * p == d * p
    ensures c == d
  {
    assert (d - c) * p == d * p - c * p && (c - d) * p == c * p - d * p;
    if c < d { ProductPositive(d - c, p); }
    if d < c { ProductPositive(c - d, p); }
  }

  /* ---- Canonical text ---- */

  function Zeros(n: nat): (s: string)
    ensures |s| == n && forall i :: 0 <= i < n ==> s[i] == '0'
  {
    if n == 0 then "" else Zeros(n - 1) + "0"
  }

  /** Drops a character from the end as often as it occurs there. */
  function RStrip(s: string, c: char): (r: string)
    ensures |r| <= |s| && r == s[..|r|] && (r != "" ==> r[|r| - 1] != c)
    ensures forall i :: |r| <= i < |s| ==> s[i] == c
  {
    if s != "" && s[|s| - 1] == c then RStrip(s[..|s| - 1], c) else s
  }

  /** Fixed-point notation: all digits, and a point where the exponent puts it. */
  function FixedPoint(n: nat, exponent: int): string {
    var digits := PrintNat(n);
    if exponent >= 0 then digits + Zeros(exponent)
    else
      var places := -exponent;
      var padded := if |digits| <= places then Zeros(places + 1 - |digits|) + digits else digits;
      padded[..|padded| - places] + ("." + padded[|padded| - places..])
  }

  /** The text of a number without its sign: trailing zeros and a bare point go. */
  function UnsignedText(n: nat, exponent: int): string {
    var text := FixedPoint(n, exponent);
    if '.' in text then RStrip(RStrip(text, '0'), '.') else text
  }

  function CanonicalDecimal(d: Decimal): string {
    if d.coefficient == 0 then "0"
    else
      (if d.coefficient < 0 then "-" else "") + UnsignedText(Magnitude(d.coefficient), d.exponent)
  }

  /** The digits before the point, which has to be there unless it is the end. */
  function PointAt(s: string): (n: nat)
    ensures n <= |s| && (n < |s| ==> s[n] == '.')
    ensures forall i :: 0 <= i < n ==> s[i] != '.'
  {
    if s == "" || s[0] == '.' then 0
    else
      var m := PointAt(s[1..]);
      assert forall i :: 0 <= i < m ==> s[1..][i] == s[i + 1];
      1 + m
  }

  /** A whole part without leading zeros, and a fraction that does not end in zero. */
  predicate IsUnsignedDecimal(s: string) {
    var n := PointAt(s);
    && IsNatText(s[..n])
    && (n < |s| ==> AllDigits(s[n + 1..]) && n + 1 < |s| && s[|s| - 1] != '0')
  }

  predicate IsCanonicalDecimal(s: string) {
    IsUnsignedDecimal(if s != "" && s[0] == '-' then s[1..] else s)
  }

  function ReadUnsigned(s: string): Decimal
    requires IsUnsignedDecimal(s)
  {
    var n := PointAt(s);
    var fraction := if n < |s| then s[n + 1..] else "";
    DigitsTogether(s[..n], fraction);
    Decimal(ValueOf(s[..n] + fraction), -|fraction|)
  }

  lemma DigitsTogether(a: string, b: string)
    requires AllDigits(a) && AllDigits(b)
    ensures AllDigits(a + b)
  {
  }

  /** Only canonical texts are read. */
  function ReadDecimal(s: string): Option<Decimal> {
    if !IsCanonicalDecimal(s) then None
    else if s[0] == '-' then
      var d := ReadUnsigned(s[1..]);
      Some(Decimal(-d.coefficient, d.exponent))
    else Some(ReadUnsigned(s))
  }

  lemma {:induction false} ZerosInFront(n: nat, d: string)
    requires AllDigits(d)
    ensures AllDigits(Zeros(n) + d) && ValueOf(Zeros(n) + d) == ValueOf(d)
    decreases |d|
  {
    if d == "" {
      assert Zeros(n) + d == Zeros(n);
      ZerosValue(n);
    } else {
      var front := d[..|d| - 1];
      ZerosInFront(n, front);
      var s := Zeros(n) + d;
      assert s[..|s| - 1] == Zeros(n) + front && s[|s| - 1] == d[|d| - 1];
    }
  }

  lemma {:induction false} ZerosValue(n: nat)
    ensures ValueOf(Zeros(n)) == 0
  {
    if n > 0 {
      ZerosValue(n - 1);
      assert Zeros(n)[..n - 1] == Zeros(n - 1);
    }
  }

  lemma {:induction false} ValueSnoc(d: string, c: char)
    requires AllDigits(d) && IsDigit(c)
    ensures AllDigits(d + [c]) && ValueOf(d + [c]) == 10 * ValueOf(d) + DigitValue(c)
  {
    var s := d + [c];
    assert s[..|s| - 1] == d && s[|s| - 1] == c;
  }

  lemma {:induction false} ZerosBehind(d: string, n: nat)
    requires AllDigits(d)
    ensures AllDigits(d + Zeros(n)) && ValueOf(d + Zeros(n)) == ValueOf(d) * Power10(n)
    decreases n
  {
    hide ValueOf;
    if n == 0 {
      assert d + Zeros(0) == d;
    } else {
      ZerosBehind(d, n - 1);
      ValueSnoc(d + Zeros(n - 1), '0');
      assert d + Zeros(n) == d + Zeros(n - 1) + ['0'];
      TenTimes(ValueOf(d), Power10(n - 1));
    }
  }

  lemma {:induction false} NoPoint(s: string)
    requires AllDigits(s)
    ensures '.' !in s && PointAt(s) == |s|
  {
  }

  lemma {:induction false} PointAfter(a: string, b: string)
    requires AllDigits(a)
    ensures PointAt(a + ("." + b)) == |a|
  {
    var s := a + ("." + b);
    assert s[|a|] == '.';
  }

  lemma {:induction false} StripFraction(a: string, f: string)
    requires AllDigits(a) && a != "" && AllDigits(f)
    ensures RStrip(a + ("." + f), '0') == a + ("." + RStrip(f, '0'))
    decreases |f|
  {
    var s := a + ("." + f);
    if f != "" && f[|f| - 1] == '0' {
      assert s[..|s| - 1] == a + ("." + f[..|f| - 1]);
      StripFraction(a, f[..|f| - 1]);
    } else {
      assert s[|s| - 1] == if f == "" then '.' else f[|f| - 1];
    }
  }

  lemma {:induction false} StripPoint(a: string, f: string)
    requires AllDigits(a) && a != "" && AllDigits(f)
    ensures RStrip(a + ("." + f), '.') == if f == "" then a else a + ("." + f)
  {
    var s := a + ("." + f);
    if f == "" {
      assert s[..|s| - 1] == a;
      assert RStrip(s, '.') == RStrip(a, '.') == a;
    } else {
      assert s[|s| - 1] == f[|f| - 1];
    }
  }

  /** Whole part and fraction of a number with decimal places. */
  lemma SplitFixed(n: nat, exponent: int) returns (whole: string, fraction: string)
    requires n > 0 && exponent < 0
    ensures IsNatText(whole) && AllDigits(fraction) && |fraction| == -exponent
    ensures FixedPoint(n, exponent) == whole + ("." + fraction)
    ensures AllDigits(whole + fraction) && ValueOf(whole + fraction) == n
  {
    hide ValueOf, Zeros;
    var places := -exponent;
    var padded := Padded(n, places);
    whole, fraction := padded[..|padded| - places], padded[|padded| - places..];
    assert whole + fraction == padded;
    assert whole[0] == padded[0];
  }

  /** The digits of a number, with zeros in front so that one stands before the point. */
  lemma Padded(n: nat, places: nat) returns (padded: string)
    requires n > 0 && places > 0
    ensures var digits := PrintNat(n);
            padded == if |digits| <= places then Zeros(places + 1 - |digits|) + digits else digits
    ensures |padded| > places && AllDigits(padded) && ValueOf(padded) == n
    ensures padded[0] == '0' ==> |padded| == places + 1
  {
    hide ValueOf;
    var digits := PrintNat(n);
    NatReadBack(n);
    padded := if |digits| <= places then Zeros(places + 1 - |digits|) + digits else digits;
    if |digits| <= places { ZerosInFront(places + 1 - |digits|, digits); } else { assert digits[0] != '0'; }
  }

  lemma {:induction false} WholeReadBack(n: nat, exponent: nat)
    requires n > 0
    ensures var s := UnsignedText(n, exponent);
            IsUnsignedDecimal(s) && s != "" && IsDigit(s[0]) && ReadUnsigned(s) == Decimal(n * Power10(exponent), 0)
  {
    hide Power10, ValueOf, RStrip;
    var digits := PrintNat(n);
    NatReadBack(n);
    ZerosBehind(digits, exponent);
    var s := digits + Zeros(exponent);
    NoPoint(s);
    assert s[0] == digits[0];
    assert s[..|s|] == s && s + "" == s;
  }

  lemma FractionReadBack(n: nat, exponent: int)
    requires n > 0 && exponent < 0
    ensures var s := UnsignedText(n, exponent);
            && IsUnsignedDecimal(s) && s != "" && IsDigit(s[0])
            && exponent <= ReadUnsigned(s).exponent && AtScale(ReadUnsigned(s), exponent) == n
  {
    hide Power10, ValueOf, RStrip, UnsignedText, Zeros, IsUnsignedDecimal, ReadUnsigned, FixedPoint;
    var whole, fraction := SplitFixed(n, exponent);
    var kept := RStrip(fraction, '0');
    StrippedText(n, exponent, whole, fraction);
    StrippedValue(whole, fraction, kept);
    PointedRead(whole, kept);
  }

  /** What is left of a fixed-point text when zeros and a bare point go. */
  lemma {:induction false} StrippedText(n: nat, exponent: int, whole: string, fraction: string)
    requires n > 0 && exponent < 0 && IsNatText(whole) && AllDigits(fraction)
    requires FixedPoint(n, exponent) == whole + ("." + fraction)
    ensures var kept := RStrip(fraction, '0');
            UnsignedText(n, exponent) == if kept == "" then whole else whole + ("." + kept)
  {
    hide RStrip, FixedPoint;
    StripFraction(whole, fraction);
    var kept := RStrip(fraction, '0');
    assert AllDigits(kept) by { KeptZeros(fraction); }
    StripPoint(whole, kept);
    assert '.' in FixedPoint(n, exponent) by { assert FixedPoint(n, exponent)[|whole|] == '.'; }
  }

  /** Reading a whole part and a fraction that does not end in zero. */
  lemma {:induction false} PointedRead(whole: string, kept: string)
    requires IsNatText(whole) && AllDigits(whole) && AllDigits(kept) && (kept != "" ==> kept[|kept| - 1] != '0')
    ensures AllDigits(whole + kept)
    ensures var s := if kept == "" then whole else whole + ("." + kept);
            && IsUnsignedDecimal(s) && s != "" && IsDigit(s[0])
            && ReadUnsigned(s) == Decimal(ValueOf(whole + kept), -|kept|)
  {
    hide IsUnsignedDecimal, ReadUnsigned, IsNatText, ValueOf;
    DigitsTogether(whole, kept);
    if kept == "" {
      WholeRead(whole);
      assert whole + kept == whole;
    } else {
      FractionRead(whole, kept);
    }
  }

  lemma {:induction false} WholeRead(whole: string)
    requires IsNatText(whole)
    ensures IsUnsignedDecimal(whole) && whole != "" && IsDigit(whole[0])
    ensures AllDigits(whole) && ReadUnsigned(whole) == Decimal(ValueOf(whole), 0)
  {
    hide ValueOf, PointAt;
    NoPoint(whole);
    assert whole[..|whole|] == whole && whole + "" == whole;
  }

  lemma {:induction false} FractionRead(whole: string, kept: string)
    requires IsNatText(whole) && AllDigits(kept) && kept != "" && kept[|kept| - 1] != '0' && AllDigits(whole + kept)
    ensures var s := whole + ("." + kept);
            && IsUnsignedDecimal(s) && s != "" && IsDigit(s[0])
            && ReadUnsigned(s) == Decimal(ValueOf(whole + kept), -|kept|)
  {
    hide ValueOf, PointAt;
    PointAfter(whole, kept);
    var s := whole + ("." + kept);
    assert s[..|whole|] == whole && s[|whole| + 1..] == kept;
    assert s[|s| - 1] == kept[|kept| - 1] && s[0] == whole[0];
  }

  lemma {:induction false} KeptZeros(fraction: string)
    requires AllDigits(fraction)
    ensures AllDigits(RStrip(fraction, '0'))
    ensures fraction == RStrip(fraction, '0') + Zeros(|fraction| - |RStrip(fraction, '0')|)
  {
  }

  lemma {:induction false} StrippedValue(whole: string, fraction: string, kept: string)
    requires AllDigits(whole) && AllDigits(fraction) && kept == RStrip(fraction, '0')
    ensures AllDigits(kept) && AllDigits(whole + kept) && AllDigits(whole + fraction)
    ensures ValueOf(whole + kept) * Power10(|fraction| - |kept|) == ValueOf(whole + fraction)
  {
    hide Power10, ValueOf, RStrip, Zeros, AllDigits;
    var k := |fraction| - |kept|;
    KeptZeros(fraction);
    DigitsTogether(whole, kept);
    DigitsTogether(whole, fraction);
    ZerosBehind(whole + kept, k);
    assert whole + kept + Zeros(k) == whole + (kept + Zeros(k));
  }

  /**
   The printed form of every number is in the canonical grammar and reads back to
   the same number.
   */
  lemma PrintedReadsBack(d: Decimal)
    ensures IsCanonicalDecimal(CanonicalDecimal(d)) && ReadDecimal(CanonicalDecimal(d)).Some?
    ensures SameNumber(ReadDecimal(CanonicalDecimal(d)).value, d)
  {
    hide UnsignedText, ReadUnsigned, IsUnsignedDecimal, FixedPoint, RStrip, PointAt, ValueOf, Power10;
    if d.coefficient == 0 {
      ZeroText();
      assert AtScale(d, Min(0, d.exponent)) == 0;
    } else {
      var n := Magnitude(d.coefficient);
      var s := UnsignedText(n, d.exponent);
      if d.exponent >= 0 { WholeReadBack(n, d.exponent); } else { FractionReadBack(n, d.exponent); }
      SignedText(d, s);
      SignedNumber(d, ReadUnsigned(s));
    }
  }

  lemma ZeroText()
    ensures IsUnsignedDecimal("0") && ReadUnsigned("0") == Decimal(0, 0)
  {
    assert "0"[..1] == "0" && "0" + "" == "0";
    assert PointAt("0") == 1;
    assert ValueOf("0"[..0]) == 0;
  }

  lemma SignedText(d: Decimal, s: string)
    requires d.coefficient != 0 && s == UnsignedText(Magnitude(d.coefficient), d.exponent)
    requires IsUnsignedDecimal(s) && s != "" && IsDigit(s[0])
    ensures CanonicalDecimal(d) == (if d.coefficient < 0 then "-" else "") + s
    ensures IsCanonicalDecimal(CanonicalDecimal(d))
    ensures ReadDecimal(CanonicalDecimal(d)) ==
            Some(if d.coefficient < 0 then Decimal(-ReadUnsigned(s).coefficient, ReadUnsigned(s).exponent) else ReadUnsigned(s))
  {
    hide ReadUnsigned, IsUnsignedDecimal, FixedPoint, RStrip;
    var t := CanonicalDecimal(d);
    if d.coefficient < 0 { assert t == "-" + s && t[1..] == s; } else { assert t == s; }
  }

  lemma SignedNumber(d: Decimal, r: Decimal)
    requires d.coefficient != 0
    requires d.exponent >= 0 ==> r == Decimal(Magnitude(d.coefficient) * Power10(d.exponent), 0)
    requires d.exponent < 0 ==> d.exponent <= r.exponent && AtScale(r, d.exponent) == Magnitude(d.coefficient)
    ensures SameNumber(if d.coefficient < 0 then Decimal(-r.coefficient, r.exponent) else r, d)
  {
    hide Power10;
    UnitPower();
    if d.coefficient < 0 {
      if d.exponent >= 0 {
        NegatedProduct(d.coefficient, Power10(d.exponent));
      } else {
        NegatedProduct(r.coefficient, Power10(r.exponent - d.exponent));
      }
    }
  }

  lemma NegatedProduct(a: int, b: int)
    ensures (-a) * b == -(a * b)
  {
  }

  /* ---- The 20-session mean of texts ---- */

  datatype FactorError = WindowRequired | NonCanonicalDecimal | NegativeTurnover

  predicate AllCanonical(values: seq<string>) {
    forall i :: 0 <= i < |values| ==> IsCanonicalDecimal(values[i])
  }

  function Numbers(values: seq<string>): seq<Decimal>
    requires AllCanonical(values)
  {
    seq(|values|, i requires 0 <= i < |values| => ReadDecimal(values[i]).value)
  }

  lemma AddNonNegative(a: Decimal, b: Decimal)
    requires a.coefficient >= 0 && b.coefficient >= 0
    ensures Add(a, b).coefficient >= 0
  {
    hide Power10, PrintNat, RoundHalfEven;
    var e := Min(a.exponent, b.exponent);
    ProductNonNegative(a.coefficient, Power10(a.exponent - e));
    ProductNonNegative(b.coefficient, Power10(b.exponent - e));
  }

  lemma ProductNonNegative(a: nat, b: nat)
    ensures a * b >= 0
  {
  }

  lemma {:induction false} TotalNonNegative(numbers: seq<Decimal>)
    requires forall i :: 0 <= i < |numbers| ==> numbers[i].coefficient >= 0
    ensures Total(numbers).coefficient >= 0
    decreases |numbers|
  {
    if numbers != [] {
      TotalNonNegative(numbers[..|numbers| - 1]);
      AddNonNegative(Total(numbers[..|numbers| - 1]), numbers[|numbers| - 1]);
    }
  }

  function RecomputeAdv20(values: seq<string>): Result<string, FactorError> {
    if |values| != SESSIONS then Err(WindowRequired)
    else if !AllCanonical(values) then Err(NonCanonicalDecimal)
    else if exists i :: 0 <= i < |values| && Numbers(values)[i].coefficient < 0 then Err(NegativeTurnover)
    else
      TotalNonNegative(Numbers(values));
      Ok(CanonicalDecimal(Mean(Numbers(values))))
  }

  /**
   The recomputed text is canonical and reads back as exactly the twentieth part
   of the true sum, whenever no turnover is negative and five times the sum fits in
   50 digits at a common scale.
   */
  lemma {:induction false} Adv20Exact(values: seq<string>, s: int)
    requires |values| == SESSIONS && AllCanonical(values)
    requires FitsPrecision(Numbers(values), s) && 5 * ScaledSum(Numbers(values), s) < Power10(PRECISION)
    ensures RecomputeAdv20(values).Ok?
    ensures var text := RecomputeAdv20(values).value;
            && IsCanonicalDecimal(text) && ReadDecimal(text).Some?
            && IsTwentieth(ReadDecimal(text).value, Decimal(ScaledSum(Numbers(values), s), s))
  {
    hide Power10, IsCanonicalDecimal, ReadDecimal, CanonicalDecimal, ScaledSum, Total, Divide, Numbers, SameNumber, IsTwentieth;
    var numbers := Numbers(values);
    NumbersCount(values);
    var sum := Decimal(ScaledSum(numbers, s), s);
    MeanExact(numbers, s);
    HundredTimes(sum);
    TwentiethAt(Mean(numbers), sum, s - 2);
    PrintedReadsBack(Mean(numbers));
    SameItself(sum);
    TwentiethSame(ReadDecimal(CanonicalDecimal(Mean(numbers))).value, Mean(numbers), sum, sum);
  }

  lemma SameItself(d: Decimal)
    ensures SameNumber(d, d)
  {
  }

  /**
   Whenever the sum itself fits in 50 digits at the scale of the inputs, the text is
   exact exactly when five times the sum fits too or the sum is even.
   */
  lemma Adv20ExactIff(values: seq<string>)
    requires |values| == SESSIONS && AllCanonical(values) && FitsPrecision(Numbers(values), OwnScale(Numbers(values)))
    ensures RecomputeAdv20(values).Ok? && ReadDecimal(RecomputeAdv20(values).value).Some?
    ensures var s := OwnScale(Numbers(values));
            var sum := ScaledSum(Numbers(values), s);
            IsTwentieth(ReadDecimal(RecomputeAdv20(values).value).value, Decimal(sum, s)) <==>
              5 * sum < Power10(PRECISION) || sum % 2 == 0
  {
    hide Power10, IsCanonicalDecimal, ReadDecimal, CanonicalDecimal, ScaledSum, Total, Divide, Numbers, SameNumber, IsTwentieth,
         OwnScale;
    var numbers := Numbers(values);
    NumbersCount(values);
    var sum := Decimal(ScaledSum(numbers, OwnScale(numbers)), OwnScale(numbers));
    MeanExactIff(numbers);
    PrintedReadsBack(Mean(numbers));
    SameItself(sum);
    TwentiethSame(ReadDecimal(CanonicalDecimal(Mean(numbers))).value, Mean(numbers), sum, sum);
  }

  lemma NumbersTogether(a: seq<string>, b: seq<string>)
    requires AllCanonical(a) && AllCanonical(b)
    ensures AllCanonical(a + b) && Numbers(a + b) == Numbers(a) + Numbers(b)
  {
    hide IsCanonicalDecimal, ReadDecimal;
  }

  lemma CanonicalPermuted(a: seq<string>, b: seq<string>)
    requires multiset(a) == multiset(b) && AllCanonical(a)
    ensures AllCanonical(b)
  {
    hide IsCanonicalDecimal;
    forall i | 0 <= i < |b| ensures IsCanonicalDecimal(b[i]) { assert b[i] in multiset(a); }
  }

  lemma SplitPermuted(a: seq<string>, b: seq<string>)
    returns (front: seq<string>, x: string, before: seq<string>, after: seq<string>)
    requires multiset(a) == multiset(b) && a != []
    ensures a == front + [x] && b == before + ([x] + after) && multiset(front) == multiset(before + after)
  {
    var n := |a| - 1;
    front, x := a[..n], a[n];
    assert a == front + [x];
    assert x in multiset(a);
    assert x in b;
    var i :| 0 <= i < |b| && b[i] == x;
    before, after := b[..i], b[i + 1..];
    assert b == before + ([x] + after);
    CountsWithout(front, x, []);
    CountsWithout(before, x, after);
    assert front + ([x] + []) == a && front + [] == front;
    OneTakenAway(multiset(front), multiset(before + after), x);
  }

  lemma OneTakenAway(a: multiset<string>, b: multiset<string>, x: string)
    requires a + multiset{x} == b + multiset{x}
    ensures a == b
  {
    assert a == (a + multiset{x}) - multiset{x} && b == (b + multiset{x}) - multiset{x};
  }

  lemma CountsWithout(before: seq<string>, x: string, after: seq<string>)
    ensures multiset(before + ([x] + after)) == multiset(before + after) + multiset{x}
  {
  }

  lemma {:induction false} NumbersPermuted(a: seq<string>, b: seq<string>)
    requires multiset(a) == multiset(b) && AllCanonical(a)
    ensures AllCanonical(b) && multiset(Numbers(a)) == multiset(Numbers(b))
    decreases |a|
  {
    hide IsCanonicalDecimal, ReadDecimal, Numbers;
    assert |multiset(a)| == |a| && |multiset(b)| == |b|;
    CanonicalPermuted(a, b);
    if a != [] {
      var front, x, before, after := SplitPermuted(a, b);
      assert a[|a| - 1] == x;
      assert AllCanonical(front) && AllCanonical([x]) && AllCanonical(before) && AllCanonical(after) by {
        Parts(a, front, x);
        CanonicalPermuted(front, before + after);
        assert forall i :: 0 <= i < |before| ==> before[i] == (before + after)[i];
        assert forall i :: 0 <= i < |after| ==> after[i] == (before + after)[|before| + i];
      }
      NumbersTogether(before, after);
      NumbersPermuted(front, before + after);
      NumbersTogether(front, [x]);
      NumbersTogether([x], after);
      NumbersTogether(before, [x] + after);
    }
  }

  lemma Parts(a: seq<string>, front: seq<string>, x: string)
    requires AllCanonical(a) && a == front + [x]
    ensures AllCanonical(front) && AllCanonical([x])
  {
    hide IsCanonicalDecimal;
    assert forall i :: 0 <= i < |front| ==> front[i] == a[i];
    assert a[|a| - 1] == x;
  }

  /** While the sum fits in 50 digits at some scale, the sessions may be listed in any order. */
  lemma Adv20OrderIndependent(a: seq<string>, b: seq<string>, s: int)
    requires |a| == SESSIONS && AllCanonical(a) && FitsPrecision(Numbers(a), s) && multiset(a) == multiset(b)
    ensures RecomputeAdv20(a) == RecomputeAdv20(b)
  {
    hide Power10, IsCanonicalDecimal, ReadDecimal, CanonicalDecimal, Total, Divide, Numbers, ScaledSum;
    assert |multiset(a)| == |a| && |multiset(b)| == |b|;
    NumbersPermuted(a, b);
    NumbersCount(a);
    NumbersCount(b);
    MeanOrderIndependent(Numbers(a), Numbers(b), s);
    FitsPermuted(Numbers(a), Numbers(b), s);
  }

  lemma NumbersCount(values: seq<string>)
    requires AllCanonical(values)
    ensures |Numbers(values)| == |values|
  {
  }

  /* ---- Beyond the precision ---- */

  /** 10^50, which has 51 digits. */
  const BIG: string := "1" + Zeros(50)

  function ZeroTexts(n: nat): (r: seq<string>)
    ensures |r| == n
  {
    if n == 0 then [] else ZeroTexts(n - 1) + ["0"]
  }

  /** The same 20 texts, with the large one first or third. */
  function BigFirst(): (r: seq<string>)
    ensures |r| == SESSIONS
  {
    [BIG, "5", "5"] + ZeroTexts(17)
  }

  function BigThird(): (r: seq<string>)
    ensures |r| == SESSIONS
  {
    ["5", "5", BIG] + ZeroTexts(17)
  }

  lemma TextsRead()
    ensures IsCanonicalDecimal(BIG) && ReadDecimal(BIG) == Some(Decimal(Power10(50), 0))
    ensures IsCanonicalDecimal("5") && ReadDecimal("5") == Some(Decimal(5, 0))
    ensures IsCanonicalDecimal("0") && ReadDecimal("0") == Some(Decimal(0, 0))
  {
    hide Power10, ReadUnsigned, IsUnsignedDecimal, Zeros;
    assert PrintNat(1) == "1" && PrintNat(5) == "5";
    assert "5" + Zeros(0) == "5";
    WholeReadBack(1, 50);
    WholeReadBack(5, 0);
    UnitPower();
    ZeroText();
    assert UnsignedText(1, 50) == BIG && UnsignedText(5, 0) == "5";
  }

  lemma {:induction false} TotalSnoc(front: seq<Decimal>, last: Decimal)
    ensures Total(front + [last]) == Add(Total(front), last)
  {
    var numbers := front + [last];
    assert numbers[..|numbers| - 1] == front && numbers[|numbers| - 1] == last;
  }

  lemma TotalThree(x: Decimal, y: Decimal, z: Decimal)
    ensures Total([x, y, z]) == Add(Add(Add(Decimal(0, 0), x), y), z)
  {
    hide Add;
    TotalSnoc([], x);
    TotalSnoc([x], y);
    TotalSnoc([x, y], z);
    assert [] + [x] == [x] && [x] + [y] == [x, y] && [x, y] + [z] == [x, y, z];
  }

  /** Adding a whole number to one of 50 digits and one zero: the last digit is rounded away. */
  lemma AddRounded(c: nat, k: nat)
    requires Power10(49) <= c < Power10(50) && 10 * c + k < 10 * Power10(50) - 5
    ensures Add(Decimal(c, 1), Decimal(k, 0)) == Decimal(RoundHalfEven(10 * c + k, 10), 1)
  {
    hide Power10, PrintNat, Fix;
    BigPowers();
    TenTimesAt(Decimal(c, 1));
    OwnAt(Decimal(k, 0));
    FixOneDigit(10 * c + k, 0);
  }

  lemma AddSmall(a: nat, b: nat)
    requires a + b < Power10(50)
    ensures Add(Decimal(a, 0), Decimal(b, 0)) == Decimal(a + b, 0)
  {
    hide Power10, PrintNat, Fix;
    OwnAt(Decimal(a, 0));
    OwnAt(Decimal(b, 0));
    FixSmall(Decimal(a + b, 0));
  }

  lemma AddBig(k: nat)
    requires k < Power10(50)
    ensures Add(Decimal(k, 0), Decimal(Power10(50), 0)) == Decimal(RoundHalfEven(Power10(50) + k, 10), 1)
  {
    hide Power10, PrintNat, Fix;
    BigPowers();
    OwnAt(Decimal(k, 0));
    OwnAt(Decimal(Power10(50), 0));
    FixOneDigit(Power10(50) + k, 0);
  }

  lemma ThreeTotals()
    ensures Total([Decimal(Power10(50), 0), Decimal(5, 0), Decimal(5, 0)]) == Decimal(Power10(49), 1)
    ensures Total([Decimal(5, 0), Decimal(5, 0), Decimal(Power10(50), 0)]) == Decimal(Power10(49) + 1, 1)
  {
    hide Power10, Add, Total;
    var p := Power10(49);
    BigPowers();
    TotalThree(Decimal(Power10(50), 0), Decimal(5, 0), Decimal(5, 0));
    TotalThree(Decimal(5, 0), Decimal(5, 0), Decimal(Power10(50), 0));
    AddBig(0);
    AddBig(10);
    AddSmall(0, 5);
    AddSmall(5, 5);
    AddRounded(p, 5);
    assert RoundHalfEven(10 * p, 10) == p && RoundHalfEven(10 * p + 5, 10) == p && RoundHalfEven(10 * p + 10, 10) == p + 1;
  }

  lemma {:induction false} ZeroTail(values: seq<string>, n: nat, c: nat)
    requires AllCanonical(values) && Total(Numbers(values)) == Decimal(c, 1) && Power10(49) <= c < Power10(50)
    ensures AllCanonical(values + ZeroTexts(n)) && Total(Numbers(values + ZeroTexts(n))) == Decimal(c, 1)
    decreases n
  {
    hide Power10, IsCanonicalDecimal, ReadDecimal, Add, Total;
    if n == 0 {
      assert values + ZeroTexts(0) == values;
    } else {
      ZeroTail(values, n - 1, c);
      var front := values + ZeroTexts(n - 1);
      TextsRead();
      assert values + ZeroTexts(n) == front + ["0"];
      assert AllCanonical(["0"]) && Numbers(["0"]) == [Decimal(0, 0)];
      NumbersTogether(front, ["0"]);
      TotalSnoc(Numbers(front), Decimal(0, 0));
      BigPowers();
      AddRounded(c, 0);
    }
  }

  lemma ThreeRead(x: string, y: string, z: string)
    requires AllCanonical([x, y, z])
    ensures ReadDecimal(x).Some? && ReadDecimal(y).Some? && ReadDecimal(z).Some?
    ensures Numbers([x, y, z]) == [ReadDecimal(x).value, ReadDecimal(y).value, ReadDecimal(z).value]
  {
    assert [x, y, z][0] == x && [x, y, z][1] == y && [x, y, z][2] == z;
  }

  lemma BigTotals()
    ensures AllCanonical(BigFirst()) && Total(Numbers(BigFirst())) == Decimal(Power10(49), 1)
    ensures AllCanonical(BigThird()) && Total(Numbers(BigThird())) == Decimal(Power10(49) + 1, 1)
  {
    hide Power10, IsCanonicalDecimal, ReadDecimal, Total, Zeros, Numbers;
    TextsRead();
    ThreeRead(BIG, "5", "5");
    ThreeRead("5", "5", BIG);
    ThreeTotals();
    BigPowers();
    ZeroTail([BIG, "5", "5"], 17, Power10(49));
    ZeroTail(["5", "5", BIG], 17, Power10(49) + 1);
  }

  /** No text of these inputs is negative, so the factor is computed. */
  lemma {:induction false} ZeroTextsPlain(n: nat)
    ensures forall x :: x in ZeroTexts(n) ==> x == "0"
    decreases n
  {
    if n > 0 { ZeroTextsPlain(n - 1); }
  }

  lemma BigAccepted(values: seq<string>)
    requires |values| == SESSIONS && AllCanonical(values) && forall x :: x in values ==> x in {BIG, "5", "0"}
    ensures forall x :: x in Numbers(values) ==> x.coefficient >= 0
  {
    hide Power10, IsCanonicalDecimal, ReadDecimal, Zeros;
    TextsRead();
    forall i | 0 <= i < |Numbers(values)| ensures Numbers(values)[i].coefficient >= 0 {
      assert values[i] in values;
    }
  }

  /** The text of a total of 50 digits and one zero is the exact twentieth of that total. */
  lemma FactorOf(values: seq<string>, c: nat)
    requires |values| == SESSIONS && AllCanonical(values) && forall x :: x in values ==> x in {BIG, "5", "0"}
    requires Total(Numbers(values)) == Decimal(c, 1) && 5 * c < Power10(50)
    ensures RecomputeAdv20(values).Ok? && ReadDecimal(RecomputeAdv20(values).value).Some?
    ensures IsTwentieth(ReadDecimal(RecomputeAdv20(values).value).value, Decimal(c, 1))
  {
    hide Power10, IsCanonicalDecimal, ReadDecimal, CanonicalDecimal, Total, Divide, Numbers, SameNumber, IsTwentieth, Zeros;
    BigAccepted(values);
    NumbersCount(values);
    var t := Decimal(c, 1);
    var mean := Mean(Numbers(values));
    DivideExact(t);
    HundredTimes(t);
    TwentiethAt(mean, t, -1);
    PrintedReadsBack(mean);
    SameItself(t);
    TwentiethSame(ReadDecimal(CanonicalDecimal(mean)).value, mean, t, t);
  }

  lemma BigPermuted()
    ensures multiset(BigFirst()) == multiset(BigThird())
    ensures forall x :: x in BigFirst() ==> x in {BIG, "5", "0"}
    ensures forall x :: x in BigThird() ==> x in {BIG, "5", "0"}
  {
    hide Zeros, ZeroTexts;
    ZeroTextsPlain(17);
    assert multiset([BIG, "5", "5"]) == multiset(["5", "5", BIG]);
  }

  /**
   When the sum has more digits the order can matter: listed first, a number of 51
   digits swallows two fives one by one; listed after them it does not. The factor
   comes out as a twentieth of 10^50 and of 10^50 + 10, the exact sum.
   */
  lemma OrderMattersBeyond()
    ensures multiset(BigFirst()) == multiset(BigThird()) && AllCanonical(BigFirst()) && AllCanonical(BigThird())
    ensures RecomputeAdv20(BigFirst()).Ok? && RecomputeAdv20(BigThird()).Ok?
    ensures RecomputeAdv20(BigFirst()) != RecomputeAdv20(BigThird())
    ensures var first, third := ReadDecimal(RecomputeAdv20(BigFirst()).value), ReadDecimal(RecomputeAdv20(BigThird()).value);
            && first.Some? && IsTwentieth(first.value, Decimal(Power10(49), 1))
            && third.Some? && IsTwentieth(third.value, Decimal(Power10(49) + 1, 1))
  {
    hide Power10, IsCanonicalDecimal, ReadDecimal, RecomputeAdv20, Total, Numbers, SameNumber, IsTwentieth, BigFirst, BigThird,
         Zeros;
    BigTotals();
    BigPermuted();
    BigPowers();
    FactorOf(BigFirst(), Power10(49));
    FactorOf(BigThird(), Power10(49) + 1);
    var r := ReadDecimal(RecomputeAdv20(BigFirst()).value).value;
    if RecomputeAdv20(BigFirst()) == RecomputeAdv20(BigThird()) {
      OneTwentieth(r, Power10(49), Power10(49) + 1);
    }
  }

  /** A number is a twentieth of one number only. */
  lemma OneTwentieth(m: Decimal, c: int, d: int)
    requires IsTwentieth(m, Decimal(c, 1)) && IsTwentieth(m, Decimal(d, 1))
    ensures c == d
  {
    hide Power10, IsTwentieth;
    var s := Min(m.exponent, 1);
    TwentiethAt(m, Decimal(c, 1), s);
    TwentiethAt(m, Decimal(d, 1), s);
    SameFactor(c, d, Power10(1 - s));
  }
}
