/**
 * Exact decimal numbers, as Python's `decimal.Decimal` built from a digit
 * string and as a PostgreSQL NUMERIC column hold them: an integer mantissa
 * and a count of fractional digits, so that `Decimal(mantissa, scale)`
 * stands for mantissa / 10^scale.  Building a Decimal from a digit string
 * and adding NUMERICs are exact; Python's unary minus is not, since it
 * rounds its result to the 28 significant digits of the default context.
 */
module Decimals {

  datatype Decimal = Decimal(mantissa: int, scale: nat)

  function Pow10(n: nat): (p: nat)
    ensures p >= 1
  {
    if n == 0 then 1 else 10 * Pow10(n - 1)
  }

  lemma {:induction false} Pow10Add(m: nat, n: nat)
    ensures Pow10(m + n) == Pow10(m) * Pow10(n)
  {
    if n > 0 {
      Pow10Add(m, n - 1);
      var a, b := Pow10(m), Pow10(n - 1);
      assert Pow10(m + n) == 10 * Pow10(m + n - 1);
      MulLeftTen(a, b);
    }
  }

  // Hint lemmas (comments starting `Hint:`) have empty bodies: each states
  // one small step on its own, so that the proofs using it stay cheap.
  // Hint: ten can move into either factor of a product.
  lemma MulLeftTen(a: int, b: int)
    ensures 10 * (a * b) == a * (10 * b)
  {
  }

  lemma {:induction false} Pow10Monotone(i: nat, j: nat)
    requires i <= j
    ensures Pow10(i) <= Pow10(j)
  {
    if i < j {
      Pow10Monotone(i, j - 1);
    }
  }

  /** The number a decimal stands for. */
  function Value(d: Decimal): real
  {
    d.mantissa as real / Pow10(d.scale) as real
  }

  const Zero := Decimal(0, 0)

  /** Two decimals stand for the same number: their mantissas agree once brought to a common scale. */
  predicate SameValue(a: Decimal, b: Decimal)
  {
    a.mantissa * Pow10(b.scale) == b.mantissa * Pow10(a.scale)
  }

  lemma SameValueMeansEqualValue(a: Decimal, b: Decimal)
    ensures SameValue(a, b) <==> Value(a) == Value(b)
  {
    var p, q := Pow10(a.scale), Pow10(b.scale);
    ProductAsReal(a.mantissa, q);
    ProductAsReal(b.mantissa, p);
    CrossMultiply(a.mantissa as real, p as real, b.mantissa as real, q as real);
  }

  lemma CrossMultiply(x: real, p: real, y: real, q: real)
    requires p > 0.0 && q > 0.0
    ensures x / p == y / q <==> x * q == y * p
  {
    assert x / p * (p * q) == x * q;
    assert y / q * (p * q) == y * p;
  }

  /**
   * Exact negation: the same scale and the opposite value.  It is what `-x`
   * computes for a Decimal of at most `Precision` significant digits
   * (ContextNegExact), and what the corrected parse uses for every input.
   */
  function Neg(d: Decimal): (r: Decimal)
    ensures r.scale == d.scale
    ensures Value(r) == -Value(d)
  {
    Decimal(-d.mantissa, d.scale)
  }

  /** Significant digits of Python's default decimal context. */
  const Precision: nat := 28

  /** The number of decimal digits of `n`, one for zero. */
  function NumDigits(n: nat): (k: nat)
    ensures k >= 1
  {
    if n < 10 then 1 else 1 + NumDigits(n / 10)
  }

  /** `n` has NumDigits(n) digits: it is below 10^k and, unless k is 1, at least 10^(k-1). */
  lemma {:induction false} NumDigitsBounds(n: nat)
    ensures n < Pow10(NumDigits(n))
    ensures NumDigits(n) == 1 || Pow10(NumDigits(n) - 1) <= n
  {
    if n >= 10 {
      var q := n / 10;
      NumDigitsBounds(q);
      var k := NumDigits(q);
      assert NumDigits(n) == k + 1;
      assert Pow10(k + 1) == 10 * Pow10(k);
      assert Pow10(k) == 1 || Pow10(k) == 10 * Pow10(k - 1);
    }
  }

  /** A number has more than `k` digits exactly when it is at least 10^k. */
  lemma DigitCountBound(n: nat, k: nat)
    requires k >= 1
    ensures NumDigits(n) > k <==> Pow10(k) <= n
  {
    NumDigitsBounds(n);
    if NumDigits(n) > k {
      Pow10Monotone(k, NumDigits(n) - 1);
    } else {
      Pow10Monotone(NumDigits(n), k);
    }
  }

  /** A number between 10^(k-1) and 10^k has exactly k digits. */
  lemma {:induction false} NumDigitsExact(n: nat, k: nat)
    requires 1 <= k && Pow10(k - 1) <= n < Pow10(k)
    ensures NumDigits(n) == k
  {
    if k == 1 {
      assert Pow10(1) == 10;
    } else {
      assert Pow10(k - 1) == 10 * Pow10(k - 2);
      assert Pow10(k) == 10 * Pow10(k - 1);
      NumDigitsExact(n / 10, k - 1);
    }
  }

  function Abs(x: int): nat
  {
    if x < 0 then -x else x
  }

  /** |a - b| */
  function Dist(a: int, b: int): nat
  {
    if a <= b then b - a else a - b
  }

  /**
   * `n` divided by 10^k, rounded half to even (ROUND_HALF_EVEN): the digit
   * count of the context drops the last k digits of a coefficient this way.
   */
  function RoundHalfEven(n: nat, k: nat): (c: nat)
    ensures 2 * Dist(n, c * Pow10(k)) <= Pow10(k)
    ensures 2 * Dist(n, c * Pow10(k)) == Pow10(k) ==> c % 2 == 0
    ensures n / Pow10(k) <= c
  {
    RoundToMultiple(n, Pow10(k))
  }

  /** `n` divided by P, rounded half to even. */
  function RoundToMultiple(n: nat, P: nat): (c: nat)
    requires P >= 1
    ensures 2 * Dist(n, c * P) <= P
    ensures 2 * Dist(n, c * P) == P ==> c % 2 == 0
    ensures n / P <= c
  {
    var q, r := n / P, n % P;
    DivMod(n, P);
    var c := if 2 * r > P || (2 * r == P && q % 2 == 1) then q + 1 else q;
    RoundHalfEvenAt(n, P, q, r, c);
    c
  }

  // Hint: Euclidean division of n by P, stated on plain variables.
  lemma DivMod(n: nat, P: nat)
    requires P >= 1
    ensures n == (n / P) * P + n % P && n % P < P
  {
  }

  lemma RoundHalfEvenAt(n: nat, P: nat, q: nat, r: nat, c: nat)
    requires P >= 1 && n == q * P + r && r < P
    requires c == if 2 * r > P || (2 * r == P && q % 2 == 1) then q + 1 else q
    ensures 2 * Dist(n, c * P) <= P
    ensures 2 * Dist(n, c * P) == P ==> c % 2 == 0
  {
    if c == q + 1 {
      assert c * P == q * P + P;
    }
  }

  /**
   * Python's unary minus on a Decimal, `-x`, as the value a NUMERIC column
   * keeps.  A zero gives zero at the same scale (the default context never
   * yields -0 here).  Otherwise the sign flips, and a coefficient of more
   * than `Precision` digits loses its last k digits, rounded half to even,
   * while the exponent -scale grows by k; a rounding that carries into a
   * 29th digit drops one digit more.  NUMERIC keeps the number at scale
   * max(0, -exponent), so a positive exponent becomes trailing zeros of the
   * mantissa.
   */
  function ContextNeg(d: Decimal): (r: Decimal)
    ensures r.mantissa < 0 <==> d.mantissa > 0
    ensures r.mantissa > 0 <==> d.mantissa < 0
  {
    var n := Abs(d.mantissa);
    if NumDigits(n) <= Precision then Neg(d)
    else
      var k := NumDigits(n) - Precision;
      var c := RoundedCoefficient(n, k);
      var mag := Scaled(c.0, c.1, d.scale);
      if d.mantissa < 0 then mag else Neg(mag)
  }

  /**
   * The coefficient `n` of NumDigits(n) == Precision + k digits rounded to
   * `Precision` digits, with the number of digits dropped.
   */
  function RoundedCoefficient(n: nat, k: nat): (c: (nat, nat))
    requires NumDigits(n) == Precision + k
    ensures c.0 >= 1
    ensures c.0 * Pow10(c.1) == RoundHalfEven(n, k) * Pow10(k)
  {
    LeadingCoefficient(n, k);
    Carry(RoundHalfEven(n, k), k)
  }

  /** A rounded coefficient that carried into a 29th digit gives one factor ten to the exponent. */
  function Carry(c: nat, k: nat): (r: (nat, nat))
    requires c >= 1
    ensures r.0 >= 1
    ensures r.0 * Pow10(r.1) == c * Pow10(k)
  {
    if c == Pow10(Precision) then
      CarryDigit(c, k);
      (c / 10, k + 1)
    else (c, k)
  }

  /** Dropping k digits of a number of Precision + k digits leaves a non-zero quotient. */
  lemma LeadingCoefficient(n: nat, k: nat)
    requires NumDigits(n) == Precision + k
    ensures n / Pow10(k) >= 1
  {
    DigitCountBound(n, Precision + k - 1);
    Pow10Monotone(k, Precision + k - 1);
    DivAtLeastOne(n, Pow10(k));
  }

  /** A carry into a 29th digit moves one factor ten from the coefficient to the exponent. */
  lemma CarryDigit(c: nat, k: nat)
    requires c == Pow10(Precision)
    ensures c / 10 >= 1
    ensures (c / 10) * Pow10(k + 1) == c * Pow10(k)
  {
    var a, b := Pow10(Precision - 1), Pow10(k);
    assert c == 10 * a;
    assert Pow10(k + 1) == 10 * b;
    CarryDigitAt(a, b);
  }

  lemma CarryDigitAt(a: nat, b: nat)
    ensures ((10 * a) / 10) * (10 * b) == (10 * a) * b
  {
    assert (10 * a) / 10 == a;
    MulLeftTen(a, b);
  }

  // Hint: a quotient of a number by a smaller positive one is at least one.
  lemma DivAtLeastOne(n: nat, P: nat)
    requires 1 <= P <= n
    ensures n / P >= 1
  {
  }

  /** The number c * 10^e at scale s, as NUMERIC keeps it: scale max(0, s - e). */
  function Scaled(c: nat, e: nat, s: nat): (r: Decimal)
    requires c >= 1
    ensures r.mantissa >= 1
    ensures r.scale <= s
  {
    if e >= s then Decimal(c * Pow10(e - s), 0) else Decimal(c, s - e)
  }

  /** Scaled(c, e, s) denotes c * 10^e / 10^s. */
  lemma ScaledValue(c: nat, e: nat, s: nat)
    requires c >= 1
    ensures Value(Scaled(c, e, s)) == (c * Pow10(e)) as real / Pow10(s) as real
  {
    if e >= s {
      assert Scaled(c, e, s) == Decimal(c * Pow10(e - s), 0);
      ScaledUp(c, e, s);
    } else {
      assert Scaled(c, e, s) == Decimal(c, s - e);
      ScaledDown(c, e, s - e);
      Pow10At(e + (s - e), s);
    }
  }

  /** The case e >= s of ScaledValue. */
  lemma ScaledUp(c: nat, e: nat, s: nat)
    requires e >= s
    ensures Value(Decimal(c * Pow10(e - s), 0)) == (c * Pow10(e)) as real / Pow10(s) as real
  {
    var p, q, pq := Pow10(e - s), Pow10(s), Pow10(e);
    Pow10Add(e - s, s);
    assert pq == p * q;
    ScaledUpAt(c, p, q, pq);
  }

  /** The case e < s of ScaledValue, with d == s - e. */
  lemma ScaledDown(c: nat, e: nat, d: nat)
    ensures Value(Decimal(c, d)) == (c * Pow10(e)) as real / Pow10(e + d) as real
  {
    RescaleValue(c, e, d);
  }

  // Hint: the ScaledUp step on plain variables
  lemma ScaledUpAt(c: nat, p: nat, q: nat, pq: nat)
    requires q >= 1 && pq == p * q
    ensures (c * p) as real / 1 as real == (c * pq) as real / q as real
  {
    MulAssoc(c, p, q);
    ProductAsReal(c * p, q);
    CancelFactor((c * p) as real, q as real);
  }

  // Hint: equal exponents give equal powers
  lemma Pow10At(i: nat, j: nat)
    requires i == j
    ensures Pow10(i) == Pow10(j)
  {
  }

  // Hint: (c * p) * q == c * (p * q)
  lemma MulAssoc(c: int, p: int, q: int)
    ensures (c * p) * q == c * (p * q)
  {
  }

  /**
   * Beyond the precision, `-x` on a positive `x` whose rounded coefficient
   * does not carry is that coefficient, negated, at the exponent raised by k.
   */
  lemma ContextNegRoundedDown(d: Decimal, k: nat, c: nat)
    requires d.mantissa > 0 && k >= 1 && NumDigits(d.mantissa) == Precision + k
    requires RoundHalfEven(d.mantissa, k) == c && c < Pow10(Precision)
    ensures c >= 1 && ContextNeg(d) == Neg(Scaled(c, k, d.scale))
  {
    LeadingCoefficient(d.mantissa, k);
    assert Carry(c, k) == (c, k);
    assert RoundedCoefficient(d.mantissa, k) == (c, k);
  }

  /** Within the context's precision, `-x` is exact. */
  lemma ContextNegExact(d: Decimal)
    requires Abs(d.mantissa) < Pow10(Precision)
    ensures ContextNeg(d) == Neg(d)
  {
    var n := Abs(d.mantissa);
    DigitCountBound(n, Precision);
  }

  /**
   * Beyond the precision, `-x` stands for the number lost by rounding the
   * coefficient of `x` to a multiple of 10^k, k the excess digit count,
   * half to even (RoundHalfEven says how far that is from `x`).
   */
  lemma ContextNegValue(d: Decimal)
    requires Abs(d.mantissa) >= Pow10(Precision)
    ensures var n := Abs(d.mantissa);
            var k := NumDigits(n) - Precision;
            k >= 1 &&
            var v := (RoundHalfEven(n, k) * Pow10(k)) as real / Pow10(d.scale) as real;
            Value(ContextNeg(d)) == if d.mantissa < 0 then v else -v
  {
    var n := Abs(d.mantissa);
    DigitCountBound(n, Precision);
    var k := NumDigits(n) - Precision;
    var c := RoundedCoefficient(n, k);
    ScaledValue(c.0, c.1, d.scale);
  }

  /** The mantissa of `d` written with `s` fractional digits (s >= d.scale). */
  function Rescale(d: Decimal, s: nat): (m: int)
    requires d.scale <= s
    ensures m as real / Pow10(s) as real == Value(d)
  {
    var k := (s - d.scale) as nat;
    RescaleValue(d.mantissa, k, d.scale);
    d.mantissa * Pow10(k)
  }

  lemma RescaleValue(m: int, k: nat, e: nat)
    ensures (m * Pow10(k)) as real / Pow10(k + e) as real == m as real / Pow10(e) as real
  {
    var p, q := Pow10(k), Pow10(e);
    Pow10Add(k, e);
    RescaleValueAt(m, p, q, p * q, m * p);
  }

  lemma RescaleValueAt(m: int, p: nat, q: nat, pq: nat, x: int)
    requires p >= 1 && q >= 1 && pq == p * q && x == m * p
    ensures x as real / pq as real == m as real / q as real
  {
    ProductAsReal(m, p);
    ProductAsReal(p, q);
    CancelCommonFactor(m as real, p as real, q as real);
  }

  // Hint: a common factor cancels in a real quotient.
  lemma CancelCommonFactor(x: real, p: real, q: real)
    requires p > 0.0 && q > 0.0
    ensures (x * p) / (p * q) == x / q
  {
  }

  // Hint: division distributes over a sum.
  lemma DivideSum(x: real, y: real, q: real)
    requires q > 0.0
    ensures (x + y) / q == x / q + y / q
  {
  }

  /**
   * Exact addition, as NUMERIC `+` and `SUM` compute it: the result carries
   * the larger of the two scales and stands for the exact sum.
   */
  function Add(a: Decimal, b: Decimal): (r: Decimal)
    ensures r.scale == if a.scale <= b.scale then b.scale else a.scale
    ensures Value(r) == Value(a) + Value(b)
  {
    var s := if a.scale <= b.scale then b.scale else a.scale;
    var ma, mb := Rescale(a, s), Rescale(b, s);
    DivideSum(ma as real, mb as real, Pow10(s) as real);
    Decimal(ma + mb, s)
  }

  /** A number written with `k` fraction digits: integer part plus the fraction over 10^k. */
  lemma ValueOfParts(w: nat, f: nat, k: nat)
    ensures Value(Decimal(w * Pow10(k) + f, k)) == w as real + f as real / Pow10(k) as real
  {
    var P := Pow10(k);
    ValueOfPartsAt(w, f, k, P, w * P);
  }

  lemma ValueOfPartsAt(w: nat, f: nat, k: nat, P: nat, x: int)
    requires P == Pow10(k) && x == w * P
    ensures Value(Decimal(x + f, k)) == w as real + f as real / P as real
  {
    assert Value(Decimal(x + f, k)) == (x + f) as real / P as real;
    SumAsReal(x, f);
    ProductAsReal(w, P);
    PartsOverPower(w as real, f as real, P as real);
  }

  // Hint: the real of a sum is the sum of the reals.
  lemma SumAsReal(x: int, y: int)
    ensures (x + y) as real == x as real + y as real
  {
  }

  lemma PartsOverPower(w: real, f: real, p: real)
    requires p > 0.0
    ensures (w * p + f) / p == w + f / p
  {
    DivideSum(w * p, f, p);
    CancelFactor(w, p);
  }

  // Hint: the real of a product is the product of the reals.
  lemma ProductAsReal(x: int, y: int)
    ensures (x * y) as real == x as real * y as real
  {
  }

  // Hint: multiplying by p and dividing by p cancel.
  lemma CancelFactor(w: real, p: real)
    requires p > 0.0
    ensures (w * p) / p == w
  {
  }

  /** The exact total of a list of numbers, as a real (the reference sum). */
  function RealSum(xs: seq<Decimal>): real
  {
    if xs == [] then 0.0 else RealSum(xs[..|xs| - 1]) + Value(xs[|xs| - 1])
  }

  /** The largest scale in a list (0 for the empty list). */
  function MaxScale(xs: seq<Decimal>): nat
  {
    if xs == [] then 0
    else
      var m := MaxScale(xs[..|xs| - 1]);
      if m <= xs[|xs| - 1].scale then xs[|xs| - 1].scale else m
  }

  /**
   * The decimal total of a list, added left to right from zero: the value of
   * SQL `SUM(amount)` over those rows.  It is the exact sum, carried at the
   * largest scale of the summands.
   */
  function Sum(xs: seq<Decimal>): (r: Decimal)
    ensures Value(r) == RealSum(xs)
    ensures r.scale == MaxScale(xs)
  {
    if xs == [] then Zero else Add(Sum(xs[..|xs| - 1]), xs[|xs| - 1])
  }

  /** Adding a list of numbers in two parts gives the total of the whole list. */
  lemma {:induction false} RealSumAppend(xs: seq<Decimal>, ys: seq<Decimal>)
    ensures RealSum(xs + ys) == RealSum(xs) + RealSum(ys)
  {
    if ys != [] {
      var zs := xs + ys;
      assert zs[..|zs| - 1] == xs + ys[..|ys| - 1];
      RealSumAppend(xs, ys[..|ys| - 1]);
    } else {
      assert xs + ys == xs;
    }
  }
}
