/**
 The arithmetic and the texts of the mean, without reference to how they are computed:
 every result is the nearest number of 50 digits, ties going to the even one, and every
 number has one canonical text.
 */
module DecimalRules {
  import opened Basics
  import opened Contracts
  import opened Numerals
  import opened DecimalFactors
  import opened ContractRules

  /* ---- Rounding ---- */

  /** `c` times 10^k is as near to `n` as any multiple of 10^k, and the even one of two as near. */
  predicate Nearest(n: int, k: nat, c: int) {
    && -(Power10(k) as int) <= 2 * (n - c * Power10(k)) <= Power10(k)
    && (2 * (n - c * Power10(k)) == Power10(k) || 2 * (n - c * Power10(k)) == -(Power10(k) as int) ==> c % 2 == 0)
  }

  /** A number of at most 50 digits stays; a longer one keeps its first 50, rounded. */
  ghost predicate Rounded(d: Decimal, r: Decimal) {
    if -(Power10(50) as int) < d.coefficient < Power10(50) then r == d
    else
      && r.exponent > d.exponent && Nearest(d.coefficient, r.exponent - d.exponent, r.coefficient)
      && -(Power10(50) as int) < r.coefficient < Power10(50)
      && (r.coefficient >= Power10(49) || r.coefficient <= -(Power10(49) as int))
  }

  lemma HalfEven(n: nat, p: nat)
    requires p > 0
    ensures var q := RoundHalfEven(n, p);
            && -(p as int) <= 2 * (n - q * p) <= p
            && (2 * (n - q * p) == p || 2 * (n - q * p) == -(p as int) ==> q % 2 == 0)
            && n / p <= q <= n / p + 1
  {
    var q, r := n / p, n % p;
    assert n == q * p + r;
    assert (q + 1) * p == q * p + p;
  }

  lemma QuotientDigits(n: nat, digits: nat, k: nat)
    requires digits > k && Power10(digits - 1) <= n < Power10(digits)
    ensures Power10(digits - 1 - k) <= n / Power10(k) < Power10(digits - k)
  {
    hide Power10;
    var p := Power10(k);
    PowerSum(digits - 1 - k, k);
    PowerSum(digits - k, k);
    var q := n / p;
    assert n == q * p + n % p && (q + 1) * p == q * p + p;
    if q < Power10(digits - 1 - k) { Monotone(q + 1, Power10(digits - 1 - k), p); }
    if q >= Power10(digits - k) { Monotone(Power10(digits - k), q, p); }
  }

  lemma Monotone(a: int, b: int, p: nat)
    requires a <= b
    ensures a * p <= b * p
  {
    assert (b - a) * p >= 0;
  }

  /** Rounding up to a power of ten and dropping its last zero is as near. */
  lemma {:induction false} Carried(n: nat, k: nat, q: nat)
    requires q == 10 * (q / 10) && (q / 10) % 2 == 0
    requires -(Power10(k) as int) <= 2 * (n - q * Power10(k)) <= Power10(k)
    ensures Nearest(n, k + 1, q / 10)
  {
    PowerStep(k + 1);
    hide Power10;
    var h, p := q / 10, Power10(k);
    assert h * (10 * p) == (10 * h) * p;
  }

  lemma FixPositive(n: nat, e: int)
    ensures Rounded(Decimal(n, e), Fix(Decimal(n, e))) && Fix(Decimal(n, e)).coefficient >= 0
  {
    hide Power10, PrintNat, RoundHalfEven;
    if n < Power10(50) {
      FewDigits(n, 50);
    } else {
      PowerPositive();
      DigitBounds(n);
      var digits := DigitCount(n);
      if digits <= 50 { PowerGrows(digits, 50); }
      var k := digits - 50;
      var q := RoundHalfEven(n, Power10(k));
      HalfEven(n, Power10(k));
      QuotientDigits(n, digits, k);
      assert Power10(49) <= q <= Power10(50);
      if q == Power10(50) {
        DigitCountIs(q, 51);
        EvenPower(50);
        Carried(n, k, q);
      } else {
        FewDigits(q, 50);
      }
    }
  }

  lemma PowerPositive()
    ensures Power10(50) > 0 && Power10(51) == 10 * Power10(50)
  {
    PowerStep(51);
  }

  lemma EvenPower(n: nat)
    requires n > 1
    ensures Power10(n) == 10 * Power10(n - 1) && Power10(n - 1) % 2 == 0 && Power10(n) / 10 == Power10(n - 1)
  {
    var p := Power10(n - 2);
    assert Power10(n - 1) == 10 * p;
  }

  /** What is kept of a number is the nearest one of 50 digits. */
  lemma FixRounds(d: Decimal)
    ensures Rounded(d, Fix(d))
  {
    hide Power10, PrintNat, RoundHalfEven;
    FixPositive(Magnitude(d.coefficient), d.exponent);
    if d.coefficient < 0 {
      var m := Decimal(-d.coefficient, d.exponent);
      FixNegated(d);
      var r := Fix(m);
      if m.coefficient >= Power10(50) { NearestNegated(m.coefficient, r.exponent - m.exponent, r.coefficient); }
    }
  }

  lemma FixNegated(d: Decimal)
    requires d.coefficient < 0
    ensures Fix(d) == var r := Fix(Decimal(-d.coefficient, d.exponent)); Decimal(-r.coefficient, r.exponent)
  {
    hide Power10, PrintNat, RoundHalfEven;
  }

  lemma NearestNegated(n: int, k: nat, c: int)
    requires Nearest(n, k, c)
    ensures Nearest(-n, k, -c)
  {
    hide Power10;
    assert (-c) * Power10(k) == -(c * Power10(k));
  }

  /** A sum is the exact sum at the smaller exponent, rounded. */
  lemma AddRounds(a: Decimal, b: Decimal)
    ensures var e := if a.exponent < b.exponent then a.exponent else b.exponent;
            Rounded(Decimal(a.coefficient * Power10(a.exponent - e) + b.coefficient * Power10(b.exponent - e), e), Add(a, b))
  {
    hide Power10, Rounded, Fix;
    var e := Min(a.exponent, b.exponent);
    FixRounds(Decimal(AtScale(a, e) + AtScale(b, e), e));
  }

  lemma {:induction false} TotalRounds(numbers: seq<Decimal>, d: Decimal)
    ensures Total([]) == Decimal(0, 0) && Total(numbers + [d]) == Add(Total(numbers), d)
  {
    assert (numbers + [d])[..|numbers|] == numbers;
  }

  /* ---- The mean ---- */

  /** A twentieth, exactly where it has at most 50 digits, and else to the even one of the two nearest. */
  ghost predicate Twentieth(t: Decimal, m: Decimal) {
    if 5 * t.coefficient < Power10(50) || t.coefficient % 2 == 0 then SameNumber(Decimal(20 * m.coefficient, m.exponent), t)
    else
      && m.exponent == t.exponent - 1 && m.coefficient % 2 == 0
      && (10 * m.coefficient == 5 * t.coefficient + 5 || 10 * m.coefficient == 5 * t.coefficient - 5)
  }

  lemma HalfOdd(c: nat)
    requires c % 2 == 1
    ensures var q := RoundHalfEven(5 * c, 10); q % 2 == 0 && (10 * q == 5 * c + 5 || 10 * q == 5 * c - 5)
  {
    assert 5 * c == 10 * (c / 2) + 5;
  }

  lemma DivideRounds(t: Decimal)
    requires 0 <= t.coefficient < Power10(50)
    ensures Twentieth(t, Divide(t, Decimal(20, 0)))
  {
    hide Power10, Divide, RoundHalfEven, SameNumber, PrintNat;
    DivideExactIff(t);
    if 5 * t.coefficient >= Power10(50) && t.coefficient % 2 == 1 {
      DivideLong(t);
      HalfOdd(t.coefficient);
    }
  }

  lemma {:induction false} TotalBounded(numbers: seq<Decimal>)
    requires forall i :: 0 <= i < |numbers| ==> numbers[i].coefficient >= 0
    ensures 0 <= Total(numbers).coefficient < Power10(50)
    decreases |numbers|
  {
    hide Power10, Add;
    if numbers == [] {
      FiftyPositive();
    } else {
      var n := |numbers| - 1;
      TotalBounded(numbers[..n]);
      AddNonNegative(Total(numbers[..n]), numbers[n]);
      AddBounded(Total(numbers[..n]), numbers[n]);
    }
  }

  lemma FiftyPositive()
    ensures Power10(50) > 0
  {
  }

  lemma AddBounded(a: Decimal, b: Decimal)
    ensures -(Power10(50) as int) < Add(a, b).coefficient < Power10(50)
  {
    AddRounds(a, b);
    hide Power10, Add, Nearest;
  }

  /** For any turnovers the mean is the rounded twentieth of the sum, itself rounded addition by addition. */
  lemma {:induction false} MeanRounds(numbers: seq<Decimal>)
    requires forall i :: 0 <= i < |numbers| ==> numbers[i].coefficient >= 0
    ensures Total(numbers).coefficient >= 0 && Twentieth(Total(numbers), Mean(numbers))
  {
    hide Power10, Total, Divide, Twentieth;
    TotalBounded(numbers);
    DivideRounds(Total(numbers));
  }

  /* ---- Texts ---- */

  predicate DecimalDigits(s: string) {
    forall i :: 0 <= i < |s| ==> 48 <= s[i] as int <= 57
  }

  function Pointed(whole: string, fraction: string): string {
    if fraction == "" then whole else whole + ("." + fraction)
  }

  /** A sign or none, a whole number without leading zeros, and a fraction, if any, that does not end in zero. */
  predicate Spells(s: string, minus: bool, whole: string, fraction: string) {
    && s == (if minus then "-" + Pointed(whole, fraction) else Pointed(whole, fraction))
    && IsNumber(whole) && DecimalDigits(fraction)
    && (fraction != "" ==> fraction[|fraction| - 1] != '0')
  }

  /** A sign in front is not part of an unsigned text. */
  lemma SignRead(t: string, minus: bool)
    requires IsUnsignedDecimal(t) && t != "" && IsDigit(t[0])
    ensures var s := if minus then "-" + t else t;
            && IsCanonicalDecimal(s)
            && ReadDecimal(s) == Some(if minus then Decimal(-ReadUnsigned(t).coefficient, ReadUnsigned(t).exponent) else ReadUnsigned(t))
  {
    hide IsUnsignedDecimal, ReadUnsigned;
    assert ("-" + t)[1..] == t;
  }

  function Signed(minus: bool, n: nat): int {
    var value: int := n;
    if minus then -value else value
  }

  lemma SpelledText(s: string, minus: bool, whole: string, fraction: string)
    requires Spells(s, minus, whole, fraction)
    ensures IsNatText(whole) && AllDigits(whole) && AllDigits(fraction)
    ensures fraction != "" ==> fraction[|fraction| - 1] != '0'
    ensures s == if minus then "-" + Pointed(whole, fraction) else Pointed(whole, fraction)
  {
  }

  lemma {:induction false} PointedUnsigned(whole: string, fraction: string)
    requires IsNatText(whole) && AllDigits(whole) && AllDigits(fraction) && (fraction != "" ==> fraction[|fraction| - 1] != '0')
    ensures AllDigits(whole + fraction)
    ensures var t := Pointed(whole, fraction);
            && IsUnsignedDecimal(t) && t != "" && IsDigit(t[0])
            && ReadUnsigned(t) == Decimal(ValueOf(whole + fraction), -|fraction|)
  {
    hide ValueOf, IsUnsignedDecimal, ReadUnsigned, IsNatText;
    PointedRead(whole, fraction);
  }

  lemma {:induction false} SpelledRead(s: string, minus: bool, whole: string, fraction: string)
    requires Spells(s, minus, whole, fraction)
    ensures IsCanonicalDecimal(s) && AllDigits(whole + fraction)
    ensures ReadDecimal(s) == Some(Decimal(Signed(minus, ValueOf(whole + fraction)), -|fraction|))
  {
    hide Spells, Pointed, IsCanonicalDecimal, IsUnsignedDecimal, ReadUnsigned, ReadDecimal, ValueOf, AllDigits, IsNatText;
    SpelledText(s, minus, whole, fraction);
    PointedUnsigned(whole, fraction);
    SignRead(Pointed(whole, fraction), minus);
  }

  lemma SplitUnsigned(s: string) returns (whole: string, fraction: string)
    requires IsUnsignedDecimal(s)
    ensures IsNumber(whole) && DecimalDigits(fraction) && (fraction != "" ==> fraction[|fraction| - 1] != '0')
    ensures s == Pointed(whole, fraction)
  {
    var n := PointAt(s);
    whole, fraction := s[..n], if n < |s| then s[n + 1..] else "";
    if n < |s| { assert s == s[..n] + ("." + s[n + 1..]); }
  }

  lemma CanonicalSpelled(s: string) returns (minus: bool, whole: string, fraction: string)
    requires IsCanonicalDecimal(s)
    ensures Spells(s, minus, whole, fraction)
  {
    minus := s != "" && s[0] == '-';
    var t := if minus then s[1..] else s;
    whole, fraction := SplitUnsigned(t);
    if minus { assert s == "-" + t; }
  }

  /** A text is accepted exactly when it is spelled so, and it is read as its digits with the point taken out. */
  lemma GrammarExact(s: string)
    ensures IsCanonicalDecimal(s) <==> exists minus, whole, fraction :: Spells(s, minus, whole, fraction)
  {
    hide Spells, IsCanonicalDecimal;
    if IsCanonicalDecimal(s) { var minus, whole, fraction := CanonicalSpelled(s); }
    if minus, whole, fraction :| Spells(s, minus, whole, fraction) { SpelledRead(s, minus, whole, fraction); }
  }

  /* ---- One text for one number ---- */

  lemma {:induction false} LeadingDigit(s: string)
    requires s != "" && AllDigits(s) && s[0] != '0'
    ensures ValueOf(s) >= Power10(|s| - 1)
    decreases |s|
  {
    if |s| == 1 {
      assert ValueOf(s[..0]) == 0 && Power10(0) == 1;
    } else {
      var front := s[..|s| - 1];
      assert front[0] == s[0];
      LeadingDigit(front);
      PowerStep(|s| - 1);
    }
  }

  lemma {:induction false} LastDigit(s: string)
    requires s != "" && AllDigits(s)
    ensures ValueOf(s) % 10 == DigitValue(s[|s| - 1])
  {
  }

  lemma {:induction false} LongerLarger(x: string, y: string)
    requires AllDigits(x) && AllDigits(y) && |x| < |y| && y[0] != '0'
    ensures ValueOf(x) < ValueOf(y)
  {
    LeadingDigit(y);
    PowerGrows(|x|, |y| - 1);
  }

  /** Whole parts without leading zeros, in front of equally many digits, are decided by the value. */
  lemma {:induction false} SameDigits(w: string, f: string, v: string, g: string)
    requires IsNatText(w) && IsNatText(v) && AllDigits(f) && AllDigits(g) && |f| == |g|
    requires AllDigits(w + f) && AllDigits(v + g) && ValueOf(w + f) == ValueOf(v + g)
    ensures w == v && f == g
  {
    hide ValueOf;
    if |w| < |v| {
      assert (v + g)[0] == v[0] != '0';
      LongerLarger(w + f, v + g);
    } else if |v| < |w| {
      assert (w + f)[0] == w[0] != '0';
      LongerLarger(v + g, w + f);
    } else {
      DigitsReprinted(w + f);
      DigitsReprinted(v + g);
      assert w == (w + f)[..|w|] && v == (v + g)[..|v|] && f == (w + f)[|w|..] && g == (v + g)[|v|..];
    }
  }

  lemma {:induction false} EndsInZero(x: nat, y: nat, m: nat, n: nat)
    requires m < n && x * Power10(n) == y * Power10(m)
    ensures y % 10 == 0
  {
    hide Power10;
    var d := n - m;
    PowerSum(d, m);
    PowerAbove(m);
    var p, q := Power10(m), Power10(d);
    assert (x * q) * p == x * (q * p) == y * p;
    SameFactor(x * q, y, p);
    PowerStep(d);
    TenTimes(x, Power10(d - 1));
  }

  /** A fraction that is longer than it need be ends in zero. */
  lemma {:induction false} NoShorter(w: string, f: string, v: string, g: string)
    requires AllDigits(w + f) && AllDigits(v + g) && |f| < |g|
    requires ValueOf(w + f) * Power10(|g|) == ValueOf(v + g) * Power10(|f|)
    ensures g[|g| - 1] == '0'
  {
    LastDigit(v + g);
    assert (v + g)[|v + g| - 1] == g[|g| - 1];
    hide ValueOf, Power10;
    EndsInZero(ValueOf(w + f), ValueOf(v + g), |f|, |g|);
  }

  lemma {:induction false} UniqueParts(w: string, f: string, v: string, g: string)
    requires IsNatText(w) && IsNatText(v) && AllDigits(f) && AllDigits(g)
    requires (f != "" ==> f[|f| - 1] != '0') && (g != "" ==> g[|g| - 1] != '0')
    requires AllDigits(w + f) && AllDigits(v + g) && ValueOf(w + f) * Power10(|g|) == ValueOf(v + g) * Power10(|f|)
    ensures w == v && f == g
  {
    hide ValueOf, Power10;
    if |f| < |g| {
      NoShorter(w, f, v, g);
    } else if |g| < |f| {
      NoShorter(v, g, w, f);
    } else {
      PowerAbove(|f|);
      SameFactor(ValueOf(w + f), ValueOf(v + g), Power10(|f|));
      SameDigits(w, f, v, g);
    }
  }

  lemma {:induction false} PowerAbove(n: nat)
    ensures Power10(n) > 0
  {
  }

  /** Texts of one number, other than zero, are the same text. */
  lemma CanonicalUnique(a: string, b: string)
    requires IsCanonicalDecimal(a) && IsCanonicalDecimal(b) && ReadDecimal(a).Some? && ReadDecimal(b).Some?
    requires SameNumber(ReadDecimal(a).value, ReadDecimal(b).value) && ReadDecimal(a).value.coefficient != 0
    ensures a == b
  {
    hide Spells, IsCanonicalDecimal, ReadDecimal, ValueOf, AllDigits, SameNumber, Power10, Pointed, IsNatText;
    GrammarExact(a);
    GrammarExact(b);
    var minus, w, f :| Spells(a, minus, w, f);
    var minus', v, g :| Spells(b, minus', v, g);
    SpelledRead(a, minus, w, f);
    SpelledRead(b, minus', v, g);
    SpelledText(a, minus, w, f);
    SpelledText(b, minus', v, g);
    SameParts(minus, ValueOf(w + f), |f|, minus', ValueOf(v + g), |g|);
    UniqueParts(w, f, v, g);
  }

  lemma SignedProduct(minus: bool, x: nat, p: nat)
    ensures Signed(minus, x) * p == Signed(minus, x * p)
  {
    NegatedProduct(x, p);
  }

  lemma SignsAgree(minus: bool, x: nat, p: nat, minus': bool, y: nat, q: nat)
    requires x > 0 && p > 0 && Signed(minus, x) * p == Signed(minus', y) * q
    ensures minus == minus' && x * p == y * q
  {
    SignedProduct(minus, x, p);
    SignedProduct(minus', y, q);
    ProductPositive(x, p);
    ProductNonNegative(y, q);
  }

  lemma {:induction false} SameScaled(c: int, m: nat, d: int, n: nat)
    requires SameNumber(Decimal(c, -(m as int)), Decimal(d, -(n as int)))
    ensures c * Power10(n) == d * Power10(m)
  {
    hide Power10, SameNumber;
    SameNumberAt(Decimal(c, -(m as int)), Decimal(d, -(n as int)), -(m as int) - n);
  }

  lemma {:induction false} SameParts(minus: bool, x: nat, m: nat, minus': bool, y: nat, n: nat)
    requires x != 0
    requires SameNumber(Decimal(Signed(minus, x), -(m as int)), Decimal(Signed(minus', y), -(n as int)))
    ensures minus == minus' && x * Power10(n) == y * Power10(m)
  {
    PowerAbove(n);
    SameScaled(Signed(minus, x), m, Signed(minus', y), n);
    hide *;
    SignsAgree(minus, x, Power10(n), minus', y, Power10(m));
  }

  /* ---- The factor ---- */

  /** A canonical text that is not negative. */
  ghost predicate IsTurnover(s: string) {
    exists minus, whole, fraction ::
      Spells(s, minus, whole, fraction) && (minus ==> AllDigits(whole + fraction) && ValueOf(whole + fraction) == 0)
  }

  lemma TurnoverExact(s: string)
    ensures IsTurnover(s) <==> IsCanonicalDecimal(s) && ReadDecimal(s).Some? && ReadDecimal(s).value.coefficient >= 0
  {
    hide Spells, IsCanonicalDecimal, ReadDecimal, ValueOf, AllDigits;
    GrammarExact(s);
    forall minus, whole, fraction | Spells(s, minus, whole, fraction)
      ensures IsCanonicalDecimal(s) && AllDigits(whole + fraction)
      ensures ReadDecimal(s) == Some(Decimal(Signed(minus, ValueOf(whole + fraction)), -|fraction|))
    {
      SpelledRead(s, minus, whole, fraction);
    }
  }

  lemma NumbersAre(values: seq<string>)
    requires AllCanonical(values)
    ensures |Numbers(values)| == |values|
    ensures forall i :: 0 <= i < |values| ==> ReadDecimal(values[i]) == Some(Numbers(values)[i])
  {
    hide IsCanonicalDecimal;
    forall i | 0 <= i < |values| ensures ReadDecimal(values[i]).Some? { assert IsCanonicalDecimal(values[i]); }
  }

  /** The window is twenty turnovers, no fewer and no more. */
  lemma WindowExact(values: seq<string>)
    ensures RecomputeAdv20(values).Ok? <==> |values| == 20 && forall i :: 0 <= i < |values| ==> IsTurnover(values[i])
  {
    hide IsCanonicalDecimal, ReadDecimal, Numbers, IsTurnover, CanonicalDecimal, Mean, Total;
    forall i | 0 <= i < |values|
      ensures IsTurnover(values[i]) <==>
                IsCanonicalDecimal(values[i]) && ReadDecimal(values[i]).Some? && ReadDecimal(values[i]).value.coefficient >= 0
    {
      TurnoverExact(values[i]);
    }
    if AllCanonical(values) { NumbersAre(values); }
  }

  /** Whatever the turnovers, the factor is the canonical text of the rounded twentieth of their sum. */
  lemma FactorRounds(values: seq<string>)
    requires RecomputeAdv20(values).Ok?
    ensures AllCanonical(values) && forall i :: 0 <= i < |values| ==> ReadDecimal(values[i]) == Some(Numbers(values)[i])
    ensures var text := RecomputeAdv20(values).value;
            exists m :: && Twentieth(Total(Numbers(values)), m)
                        && IsCanonicalDecimal(text) && ReadDecimal(text).Some? && SameNumber(ReadDecimal(text).value, m)
                        && (m.coefficient == 0 ==> text == "0")
  {
    hide IsCanonicalDecimal, ReadDecimal, Numbers, Mean, Total, Twentieth, SameNumber, UnsignedText;
    NumbersAre(values);
    MeanRounds(Numbers(values));
    var m := Mean(Numbers(values));
    PrintedReadsBack(m);
  }
}
