/**
 * Characters and decimal digit strings: the ASCII part of Python's `\s`,
 * `\d` and `str.isspace()`, the value of a digit string, and `str(n)` for
 * integers.
 */
module Digits {
  import opened Decimals

  /** The ASCII characters for which Python's `str.isspace()` (and `\s`) hold. */
  predicate IsSpace(c: char)
  {
    c == ' ' || (9 <= c as int <= 13) || (0x1c <= c as int <= 0x1f)
  }

  predicate IsDigit(c: char)
  {
    '0' <= c <= '9'
  }

  predicate AllSpace(s: string)
  {
    forall i :: 0 <= i < |s| ==> IsSpace(s[i])
  }

  predicate AllDigits(s: string)
  {
    forall i :: 0 <= i < |s| ==> IsDigit(s[i])
  }

  function DigitVal(c: char): (d: nat)
    requires IsDigit(c)
    ensures d < 10
  {
    (c as int - '0' as int) as nat
  }

  function DigitChar(d: nat): (c: char)
    requires d < 10
    ensures IsDigit(c) && DigitVal(c) == d
  {
    ('0' as int + d) as char
  }

  /** The number a string of decimal digits denotes (most significant first). */
  function DigitsValue(s: string): nat
    requires AllDigits(s)
  {
    if s == [] then 0 else DigitsValue(s[..|s| - 1]) * 10 + DigitVal(s[|s| - 1])
  }

  /** A digit string without superfluous leading zeros, as `str(n)` writes it. */
  predicate Canonical(s: string)
  {
    |s| >= 1 && AllDigits(s) && (|s| == 1 || s[0] != '0')
  }

  /** The decimal digits of `n`, as Python's `str(n)` writes a non-negative int. */
  function NatDigits(n: nat): (s: string)
    ensures Canonical(s)
    ensures n > 0 ==> s[0] != '0'
  {
    if n < 10 then [DigitChar(n)] else NatDigits(n / 10) + [DigitChar(n % 10)]
  }

  /** Writing a number in digits and reading them back gives the number. */
  lemma {:induction false} NatDigitsValue(n: nat)
    ensures DigitsValue(NatDigits(n)) == n
  {
    if n >= 10 {
      NatDigitsValue(n / 10);
      var s := NatDigits(n);
      assert s[..|s| - 1] == NatDigits(n / 10);
    }
  }

  /** A canonical digit string is the written form of its own value. */
  lemma {:induction false} CanonicalRoundTrip(s: string)
    requires Canonical(s)
    ensures NatDigits(DigitsValue(s)) == s
  {
    if |s| == 1 {
      assert s == [DigitChar(DigitVal(s[0]))];
    } else {
      var p := s[..|s| - 1];
      var c := s[|s| - 1];
      assert p[0] == s[0];
      CanonicalRoundTrip(p);
      LeadingDigitPositive(p);
      var v := DigitsValue(s);
      DivModTen(DigitsValue(p), DigitVal(c));
      assert DigitChar(DigitVal(c)) == c;
      assert s == p + [c];
    }
  }

  // Hint: the last decimal digit and what precedes it.
  lemma DivModTen(x: nat, d: nat)
    requires d < 10
    ensures (x * 10 + d) / 10 == x && (x * 10 + d) % 10 == d
  {
  }

  lemma {:induction false} LeadingDigitPositive(s: string)
    requires AllDigits(s) && |s| >= 1 && s[0] != '0'
    ensures DigitsValue(s) >= 1
  {
    if |s| > 1 {
      var p := s[..|s| - 1];
      assert p[0] == s[0];
      LeadingDigitPositive(p);
    }
  }

  lemma AllDigitsAppend(a: string, b: string)
    requires AllDigits(a) && AllDigits(b)
    ensures AllDigits(a + b)
  {
    var ab := a + b;
    forall i | 0 <= i < |ab| ensures IsDigit(ab[i]) {
      if i < |a| { assert ab[i] == a[i]; } else { assert ab[i] == b[i - |a|]; }
    }
  }

  /** Digits of a concatenation: the left part is shifted by the length of the right. */
  lemma {:induction false} DigitsValueAppend(a: string, b: string)
    requires AllDigits(a) && AllDigits(b)
    ensures AllDigits(a + b)
    ensures DigitsValue(a + b) == DigitsValue(a) * Pow10(|b|) + DigitsValue(b)
  {
    AllDigitsAppend(a, b);
    if b == [] {
      assert a + b == a;
    } else {
      var b' := b[..|b| - 1];
      var d := DigitVal(b[|b| - 1]);
      assert (a + b)[..|a + b| - 1] == a + b';
      assert (a + b)[|a + b| - 1] == b[|b| - 1];
      DigitsValueAppend(a, b');
      ShiftDigit(DigitsValue(a), Pow10(|b'|), DigitsValue(b'), d);
    }
  }

  // Hint: appending a digit multiplies by ten and adds the digit.
  lemma ShiftDigit(x: int, p: int, y: int, d: int)
    ensures (x * p + y) * 10 + d == x * (10 * p) + (y * 10 + d)
  {
  }

  function Zeros(k: nat): (z: string)
    ensures |z| == k && AllDigits(z)
  {
    if k == 0 then [] else ['0'] + Zeros(k - 1)
  }

  lemma {:induction false} ZerosValue(k: nat)
    ensures DigitsValue(Zeros(k)) == 0
  {
    if k > 0 {
      var z := Zeros(k);
      assert z[..k - 1] == Zeros(k - 1) by {
        if k > 1 { ZerosShift(k - 1); }
      }
      ZerosValue(k - 1);
    }
  }

  lemma {:induction false} ZerosShift(k: nat)
    ensures Zeros(k + 1) == Zeros(k) + ['0']
  {
    if k > 0 { ZerosShift(k - 1); }
  }

  /** Leading zeros do not change the value of a digit string. */
  lemma LeadingZerosValue(k: nat, s: string)
    requires AllDigits(s)
    ensures AllDigits(Zeros(k) + s)
    ensures DigitsValue(Zeros(k) + s) == DigitsValue(s)
  {
    DigitsValueAppend(Zeros(k), s);
    ZerosValue(k);
  }

  /** Python's `str(n)` for an int. */
  function IntToString(n: int): (s: string)
    ensures n >= 0 ==> Canonical(s) && DigitsValue(s) == n
    ensures n < 0 ==> |s| >= 2 && s[0] == '-' && Canonical(s[1..]) && DigitsValue(s[1..]) == -n
  {
    if n < 0 then
      NatDigitsValue(-n);
      assert ("-" + NatDigits(-n))[1..] == NatDigits(-n);
      "-" + NatDigits(-n)
    else
      NatDigitsValue(n);
      NatDigits(n)
  }
}
