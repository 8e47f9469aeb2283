/**
 * The amount parser of the message handler: the text of a chat message is
 * stripped of surrounding whitespace and must then match
 * `^([+-])\s*(\d+(?:\.\d+)?)$`; the digits become an exact Decimal, negated
 * when the sign is `-`.  Only ASCII whitespace and ASCII digits are modelled.
 */
module AmountParser {
  import opened Options
  import opened Decimals
  import opened Digits

  // ---------------------------------------------------------------------
  // Stripping surrounding whitespace (Python's `str.strip()`)
  // ---------------------------------------------------------------------

  /** `t` with its leading whitespace removed. */
  function StripLeading(t: string): (r: string)
    ensures |r| <= |t| && r == t[|t| - |r|..]
    ensures AllSpace(t[..|t| - |r|])
    ensures r == [] || !IsSpace(r[0])
  {
    if t != [] && IsSpace(t[0]) then
      var r := StripLeading(t[1..]);
      LeadingStep(t, r);
      r
    else t
  }

  lemma LeadingStep(t: string, r: string)
    requires t != [] && IsSpace(t[0])
    requires |r| <= |t| - 1 && r == t[1..][|t| - 1 - |r|..] && AllSpace(t[1..][..|t| - 1 - |r|])
    ensures r == t[|t| - |r|..] && AllSpace(t[..|t| - |r|])
  {
    var cut := t[..|t| - |r|];
    forall i | 0 <= i < |cut| ensures IsSpace(cut[i]) {
      if i > 0 { assert cut[i] == t[1..][..|t| - 1 - |r|][i - 1]; }
    }
  }

  /** `t` with its trailing whitespace removed. */
  function StripTrailing(t: string): (r: string)
    ensures |r| <= |t| && r == t[..|r|]
    ensures AllSpace(t[|r|..])
    ensures r == [] || !IsSpace(r[|r| - 1])
  {
    if t != [] && IsSpace(t[|t| - 1]) then
      var r := StripTrailing(t[..|t| - 1]);
      TrailingStep(t, r);
      r
    else t
  }

  lemma TrailingStep(t: string, r: string)
    requires t != [] && IsSpace(t[|t| - 1])
    requires |r| <= |t| - 1 && r == t[..|t| - 1][..|r|] && AllSpace(t[..|t| - 1][|r|..])
    ensures r == t[..|r|] && AllSpace(t[|r|..])
  {
    var cut := t[|r|..];
    forall i | 0 <= i < |cut| ensures IsSpace(cut[i]) {
      if i < |cut| - 1 { assert cut[i] == t[..|t| - 1][|r|..][i]; }
    }
  }

  /** `r` is `t` with whitespace cut off before index `i` and after `r`. */
  predicate StrippedAt(t: string, i: nat, r: string)
  {
    i + |r| <= |t| && r == t[i..i + |r|] && AllSpace(t[..i]) && AllSpace(t[i + |r|..])
  }

  /**
   * Python's `text.strip()`: the result is a slice of `t` that neither starts
   * nor ends with whitespace, and everything cut off on either side is
   * whitespace.
   */
  function Strip(t: string): (r: string)
    ensures exists i: nat :: StrippedAt(t, i, r)
    ensures r == [] || (!IsSpace(r[0]) && !IsSpace(r[|r| - 1]))
  {
    var a := StripTrailing(t);
    var r := StripLeading(a);
    StripParts(t, a, r);
    r
  }

  lemma StripParts(t: string, a: string, r: string)
    requires a == StripTrailing(t) && r == StripLeading(a)
    ensures StrippedAt(t, |a| - |r|, r)
  {
    var i := |a| - |r|;
    assert t[..i] == a[..i];
    assert t[i + |r|..] == t[|a|..];
    assert r == t[i..i + |r|];
  }

  // ---------------------------------------------------------------------
  // The accepted shape and what it denotes
  // ---------------------------------------------------------------------

  /**
   * A message text taken apart along the regular expression: the sign, the
   * whitespace after it, the integer digits and the optional fraction digits.
   */
  datatype AmountText = AmountText(sign: char, gap: string, whole: string, fraction: Option<string>)
  {
    predicate WellFormed()
    {
      (sign == '+' || sign == '-') && AllSpace(gap) && DigitsWellFormed()
    }

    /** At least one integer digit, and at least one digit after a point. */
    predicate DigitsWellFormed()
    {
      |whole| >= 1 && AllDigits(whole) && (fraction.Some? ==> |fraction.value| >= 1 && AllDigits(fraction.value))
    }

    function FractionDigits(): string
    {
      if fraction.Some? then fraction.value else ""
    }

    /** All digits written, the decimal point left out. */
    function DigitString(): (s: string)
      requires WellFormed()
      ensures AllDigits(s) && |s| == |whole| + |FractionDigits()|
    {
      DigitsValueAppend(whole, FractionDigits());
      whole + FractionDigits()
    }

    /** What follows the integer digits: nothing, or `.` and the fraction digits. */
    function Tail(): string
    {
      if fraction.Some? then "." + fraction.value else ""
    }

    /** The text this shape is written as. */
    function Text(): string
    {
      [sign] + gap + whole + Tail()
    }

    /** `Decimal(num)`: every digit kept, with one exponent step per fraction digit. */
    function Magnitude(): (d: Decimal)
      requires WellFormed()
      ensures d.mantissa >= 0 && d.scale == |FractionDigits()|
    {
      Decimal(DigitsValue(DigitString()), |FractionDigits()|)
    }

    /**
     * The amount the handler records: the magnitude for `+`, and for `-` the
     * magnitude negated by Python's unary minus, which rounds to the
     * context's precision.
     */
    function Denotation(): (d: Decimal)
      requires WellFormed()
      ensures d.mantissa < 0 ==> sign == '-'
      ensures d.mantissa > 0 ==> sign == '+'
    {
      if sign == '-' then ContextNeg(Magnitude()) else Magnitude()
    }

    /** The amount the text evidently means: the magnitude, negated exactly for `-`. */
    function ExactDenotation(): (d: Decimal)
      requires WellFormed()
      ensures d.scale == |FractionDigits()|
      ensures d.mantissa < 0 ==> sign == '-'
      ensures d.mantissa > 0 ==> sign == '+'
    {
      if sign == '-' then Neg(Magnitude()) else Magnitude()
    }
  }

  // ---------------------------------------------------------------------
  // The parser
  // ---------------------------------------------------------------------

  /** The length of the run of digits that `s` starts with. */
  function DigitRun(s: string): (k: nat)
    ensures k <= |s| && AllDigits(s[..k])
    ensures k == |s| || !IsDigit(s[k])
  {
    if s != [] && IsDigit(s[0]) then
      var k := 1 + DigitRun(s[1..]);
      assert s[..k] == [s[0]] + s[1..][..k - 1];
      k
    else 0
  }

  /**
   * `amount_pattern.match(text)`: the groups of the match, or `None` when the
   * (already stripped) text does not match.  A match always takes the text
   * apart into a well-formed shape that is written exactly as the text.
   */
  function Match(t: string): (m: Option<AmountText>)
    ensures m.Some? ==> m.value.WellFormed() && m.value.Text() == t
  {
    if |t| == 0 || (t[0] != '+' && t[0] != '-') then None
    else
      assert t == [t[0]] + t[1..];
      MatchSigned(t[0], t[1..])
  }

  /** After the sign: whitespace is skipped, and the rest must be the digits. */
  function MatchSigned(sign: char, u: string): (m: Option<AmountText>)
    ensures m.Some? ==> m.value.sign == sign && AllSpace(m.value.gap) && m.value.DigitsWellFormed()
    ensures m.Some? ==> m.value.Text() == [sign] + u
  {
    var rest := StripLeading(u);
    var gap := u[..|u| - |rest|];
    GapRest(u, gap, rest);
    ConcatAssoc([sign], gap, rest);
    MatchRest(sign, gap, rest)
  }

  /**
   * The part of the match after the sign and the whitespace: a run of
   * digits, then either the end or a point and a run of digits reaching the
   * end.
   */
  function MatchRest(sign: char, gap: string, rest: string): (m: Option<AmountText>)
    ensures m.Some? ==> m.value.sign == sign && m.value.gap == gap && m.value.DigitsWellFormed()
    ensures m.Some? ==> m.value.Text() == [sign] + gap + rest
  {
    var k := DigitRun(rest);
    if k == 0 then None
    else if k == |rest| then
      assert rest[..k] == rest;
      TextLayout(AmountText(sign, gap, rest, None));
      ConcatAssoc([sign], gap, rest);
      Some(AmountText(sign, gap, rest, None))
    else if rest[k] == '.' && k + 1 < |rest| && AllDigits(rest[k + 1..]) then
      PointJoin(rest, k);
      TextLayout(AmountText(sign, gap, rest[..k], Some(rest[k + 1..])));
      ConcatAssoc([sign], gap, rest);
      Some(AmountText(sign, gap, rest[..k], Some(rest[k + 1..])))
    else None
  }

  // Hint: the split at the decimal point gives the text back.
  lemma PointJoin(rest: string, k: nat)
    requires k < |rest| && rest[k] == '.'
    ensures rest == rest[..k] + ("." + rest[k + 1..])
  {
  }

  // Hint: a prefix and the matching suffix make up the whole string.
  lemma GapRest(u: string, gap: string, rest: string)
    requires |rest| <= |u| && rest == u[|u| - |rest|..] && gap == u[..|u| - |rest|]
    ensures u == gap + rest
  {
  }

  /** The amount `handle_msg` records for a stripped text, or `None` when it records nothing. */
  function ParseAmount(t: string): (r: Option<Decimal>)
    ensures r.Some? ==> |t| >= 2 && (t[0] == '+' || t[0] == '-')
    ensures r.Some? && r.value.mantissa < 0 ==> t[0] == '-'
    ensures r.Some? && r.value.mantissa > 0 ==> t[0] == '+'
  {
    match Match(t)
    case None => None
    case Some(a) => Some(a.Denotation())
  }

  /** The parse with exact negation: the same texts accepted, `-` negating without rounding. */
  function ParseExact(t: string): (r: Option<Decimal>)
    ensures r.Some? <==> ParseAmount(t).Some?
    ensures r.Some? && t[0] == '+' ==> r == ParseAmount(t)
  {
    match Match(t)
    case None => None
    case Some(a) => Some(a.ExactDenotation())
  }

  lemma {:induction false} StripLeadingSpaces(g: string, s: string)
    requires AllSpace(g) && (s == [] || !IsSpace(s[0]))
    ensures StripLeading(g + s) == s
  {
    if g == [] {
      assert g + s == s;
    } else {
      assert (g + s)[1..] == g[1..] + s;
      StripLeadingSpaces(g[1..], s);
    }
  }

  lemma {:induction false} DigitRunStops(w: string, tail: string)
    requires AllDigits(w) && (tail == [] || !IsDigit(tail[0]))
    ensures DigitRun(w + tail) == |w|
  {
    if w == [] {
      assert w + tail == tail;
    } else {
      assert (w + tail)[1..] == w[1..] + tail;
      DigitRunStops(w[1..], tail);
    }
  }

  /** Every text of the accepted shape matches, and only in the way it was written. */
  lemma MatchComplete(a: AmountText)
    requires a.WellFormed()
    ensures Match(a.Text()) == Some(a)
  {
    TextLayout(a);
    var t, rest := a.Text(), a.whole + a.Tail();
    assert t[1..] == a.gap + rest;
    MatchAfterSign(t);
    StripLeadingSpaces(a.gap, rest);
    SignedAfterGap(a.sign, a.gap, rest);
    RestComplete(a);
  }

  /** With a sign in front, `Match` hands the remainder to `MatchSigned`. */
  lemma MatchAfterSign(t: string)
    requires |t| >= 1 && (t[0] == '+' || t[0] == '-')
    ensures Match(t) == MatchSigned(t[0], t[1..])
  {
  }

  /** `MatchSigned` skips exactly the whitespace in front of the digits. */
  lemma SignedAfterGap(sign: char, gap: string, rest: string)
    requires StripLeading(gap + rest) == rest
    ensures MatchSigned(sign, gap + rest) == MatchRest(sign, gap, rest)
  {
    var u := gap + rest;
    assert u[..|u| - |rest|] == gap;
  }

  /** The digits of a well-formed shape are read back exactly as written. */
  lemma RestComplete(a: AmountText)
    requires a.DigitsWellFormed()
    ensures MatchRest(a.sign, a.gap, a.whole + a.Tail()) == Some(a)
  {
    DigitRunStops(a.whole, a.Tail());
    if a.fraction.Some? {
      PointSplit(a.whole, a.fraction.value);
      assert a.whole + a.Tail() == a.whole + ("." + a.fraction.value);
    } else {
      assert a.whole + a.Tail() == a.whole;
    }
  }

  /** A text is its sign followed by the gap and the rest; with no fraction the rest is the digits. */
  lemma TextLayout(a: AmountText)
    ensures a.Text() == [a.sign] + (a.gap + (a.whole + a.Tail()))
    ensures a.fraction.None? ==> a.whole + a.Tail() == a.whole
    ensures a.fraction.Some? ==> a.whole + a.Tail() == a.whole + ("." + a.fraction.value)
  {
    ConcatAssoc([a.sign], a.gap, a.whole);
    ConcatAssoc([a.sign] + a.gap, a.whole, a.Tail());
    ConcatAssoc([a.sign], a.gap, a.whole + a.Tail());
    if a.fraction.None? { assert a.whole + [] == a.whole; }
  }

  lemma PointSplit(w: string, f: string)
    ensures var rest := w + ("." + f);
            rest[..|w|] == w && rest[|w|] == '.' && rest[|w| + 1..] == f
  {
  }

  // Hint: concatenation is associative.
  lemma ConcatAssoc<T>(x: seq<T>, y: seq<T>, z: seq<T>)
    ensures x + y + z == x + (y + z)
  {
  }

  /**
   * The accept/reject rule: a text is accepted exactly when it has the shape
   * sign, whitespace, digits, optionally `.` and digits; the amount is then
   * the one that shape denotes.
   */
  lemma ParseAmountSpec(t: string)
    ensures ParseAmount(t).Some? <==> exists a: AmountText :: a.WellFormed() && a.Text() == t
    ensures forall a: AmountText :: a.WellFormed() && a.Text() == t ==> ParseAmount(t) == Some(a.Denotation())
  {
    forall a: AmountText | a.WellFormed() && a.Text() == t
      ensures ParseAmount(t) == Some(a.Denotation())
    {
      MatchComplete(a);
    }
  }

  /**
   * The recorded amount is exact for `+`, and for `-` as long as the digits
   * stand for less than 10^Precision: its scale is then the number of
   * fraction digits written, and its value the integer part plus the
   * fraction digits over 10^(their count), negated for `-`.  A longer `-`
   * amount stands for its magnitude rounded to a multiple of 10^k, k the
   * number of digits beyond the precision, half to even, and negated.
   */
  lemma DenotationValue(a: AmountText)
    requires a.WellFormed()
    ensures var n := DigitsValue(a.DigitString());
            a.sign == '+' || n < Pow10(Precision) ==> a.Denotation() == a.ExactDenotation()
    ensures var n := DigitsValue(a.DigitString());
            var k := NumDigits(n) - Precision;
            a.sign == '-' && n >= Pow10(Precision) ==>
              k >= 1 &&
              Value(a.Denotation()) == -((RoundHalfEven(n, k) * Pow10(k)) as real / Pow10(|a.FractionDigits()|) as real)
  {
    var n := DigitsValue(a.DigitString());
    if a.sign == '-' {
      if n < Pow10(Precision) {
        ContextNegExact(a.Magnitude());
      } else {
        ContextNegValue(a.Magnitude());
      }
    }
  }

  /**
   * The exact amount: its scale is the number of fraction digits written,
   * its value is the integer part plus the fraction digits over 10^(their
   * count), and the sign decides whether that value is negated.
   */
  lemma ExactDenotationValue(a: AmountText)
    requires a.WellFormed()
    ensures a.ExactDenotation().scale == |a.FractionDigits()|
    ensures var f := a.FractionDigits();
            var magnitude := DigitsValue(a.whole) as real + DigitsValue(f) as real / Pow10(|f|) as real;
            Value(a.ExactDenotation()) == if a.sign == '-' then -magnitude else magnitude
  {
    var f := a.FractionDigits();
    DigitsValueAppend(a.whole, f);
    ValueOfParts(DigitsValue(a.whole), DigitsValue(f), |f|);
  }

  /**
   * The recorded amount and the exact one differ only for a `-` amount of
   * more digits than the context's precision.
   */
  lemma ParseAgreesWithinPrecision(t: string)
    ensures ParseExact(t).Some? && (t[0] == '+' || Abs(ParseExact(t).value.mantissa) < Pow10(Precision)) ==>
              ParseAmount(t) == ParseExact(t)
  {
    match Match(t)
    case None =>
    case Some(a) =>
      DenotationValue(a);
  }

  /** The amount is negative exactly when the sign is `-` and some digit is non-zero. */
  lemma DenotationSign(a: AmountText)
    requires a.WellFormed()
    ensures a.Denotation().mantissa < 0 <==> a.sign == '-' && DigitsValue(a.DigitString()) != 0
    ensures a.Denotation().mantissa > 0 <==> a.sign == '+' && DigitsValue(a.DigitString()) != 0
  {
  }

  /** `+1.` followed by k zeros and `1` is recorded exactly: 10^(k+1) + 1 at scale k + 1. */
  lemma LongPositiveExact(k: nat)
    ensures ParseAmount(['+'] + ("1." + Zeros(k) + "1")) == Some(Decimal(Pow10(k + 1) + 1, k + 1))
  {
    var plus := LongParse(k, '+');
  }

  /**
   * `-1.` followed by k >= 27 zeros and `1` is recorded as -1 at scale 27,
   * which is not the opposite of what the same digits after `+` are
   * recorded as (LongPositiveExact, LongRounding).
   */
  lemma LongNegativeRounds(k: nat)
    requires k >= Precision - 1
    ensures ParseAmount(['-'] + ("1." + Zeros(k) + "1")) == Some(Decimal(-(Pow10(Precision - 1) as int), Precision - 1))
  {
    var minus := LongParse(k, '-');
    LongRounding(k);
  }

  /** The exact parse of the same text is the opposite of the `+` amount. */
  lemma LongNegativeExact(k: nat)
    ensures ParseExact(['-'] + ("1." + Zeros(k) + "1")) == Some(Neg(Decimal(Pow10(k + 1) + 1, k + 1)))
  {
    var minus := LongParse(k, '-');
    assert minus.ExactDenotation() == Neg(Decimal(Pow10(k + 1) + 1, k + 1));
  }

  /** The shape `1.`, k zeros, `1` after a sign, and the magnitude it stands for. */
  lemma LongParse(k: nat, sign: char) returns (a: AmountText)
    requires sign == '+' || sign == '-'
    ensures a.WellFormed() && a.sign == sign
    ensures ParseAmount([sign] + ("1." + Zeros(k) + "1")) == Some(a.Denotation())
    ensures ParseExact([sign] + ("1." + Zeros(k) + "1")) == Some(a.ExactDenotation())
    ensures a.Magnitude() == Decimal(Pow10(k + 1) + 1, k + 1)
  {
    var f := Zeros(k) + "1";
    ConcatAssoc("1.", Zeros(k), "1");
    a := AmountText(sign, "", "1", Some(f));
    LongText(f, k, sign);
    MatchComplete(a);
  }

  lemma LongText(f: string, k: nat, sign: char)
    requires f == Zeros(k) + "1"
    ensures AllDigits(f) && |f| == k + 1
    ensures AmountText(sign, "", "1", Some(f)).Text() == [sign] + ("1." + f)
    ensures DigitsValue("1" + f) == Pow10(k + 1) + 1
  {
    LeadingZerosValue(k, "1");
    LongDigitsValue(f, k);
    LongTextShape(f, sign);
  }

  lemma LongTextShape(f: string, sign: char)
    ensures AmountText(sign, "", "1", Some(f)).Text() == [sign] + ("1." + f)
  {
    var a := AmountText(sign, "", "1", Some(f));
    assert [sign] + "" == [sign];
    assert "1." == "1" + ".";
    ConcatAssoc("1", ".", f);
    ConcatAssoc([sign], "1", "." + f);
  }

  lemma LongDigitsValue(f: string, k: nat)
    requires AllDigits(f) && |f| == k + 1 && DigitsValue(f) == 1
    ensures DigitsValue("1" + f) == Pow10(k + 1) + 1
  {
    DigitsValueAppend("1", f);
    assert DigitsValue("1") == 1 by {
      assert "1"[..0] == [];
    }
  }

  /**
   * Unary minus on 10^(k+1) + 1 at scale k + 1 keeps 28 digits, rounding
   * down to 10^27, so that it does not stand for the opposite number.
   */
  lemma LongRounding(k: nat)
    requires k >= Precision - 1
    ensures ContextNeg(Decimal(Pow10(k + 1) + 1, k + 1)) == Decimal(-(Pow10(Precision - 1) as int), Precision - 1)
    ensures !SameValue(ContextNeg(Decimal(Pow10(k + 1) + 1, k + 1)), Neg(Decimal(Pow10(k + 1) + 1, k + 1)))
  {
    LongRoundingDigits(k);
    CrossDiffer(Pow10(Precision - 1), Pow10(k + 1));
  }

  // Hint: the cross products of -1 and -(b+1)/b differ.
  lemma CrossDiffer(a: int, b: int)
    requires a >= 1
    ensures (-a) * b != (-(b + 1)) * a
  {
  }

  lemma LongRoundingDigits(k: nat)
    requires k >= Precision - 1
    ensures ContextNeg(Decimal(Pow10(k + 1) + 1, k + 1)) == Decimal(-(Pow10(Precision - 1) as int), Precision - 1)
  {
    var n, e, q := Pow10(k + 1) + 1, k + 2 - Precision, Pow10(Precision - 1);
    LongCoefficient(k);
    assert Pow10(Precision) == 10 * q;
    ContextNegRoundedDown(Decimal(n, k + 1), e, q);
    assert Scaled(q, e, k + 1) == Decimal(q, Precision - 1);
  }

  /** 10^(k+1) + 1 has k + 2 digits, and dropping all but 28 of them rounds down to 10^27. */
  lemma LongCoefficient(k: nat)
    requires k >= Precision - 1
    ensures NumDigits(Pow10(k + 1) + 1) == k + 2
    ensures RoundHalfEven(Pow10(k + 1) + 1, k + 2 - Precision) == Pow10(Precision - 1)
  {
    var n := Pow10(k + 1) + 1;
    assert Pow10(k + 2) == 10 * Pow10(k + 1);
    NumDigitsExact(n, k + 2);
    var e := k + 2 - Precision;
    var P, q := Pow10(e), Pow10(Precision - 1);
    Pow10Add(Precision - 1, e);
    assert P >= 10 by {
      Pow10Monotone(1, e);
    }
    DivUnique(n, P, q, 1);
  }

  lemma DivUnique(n: nat, P: nat, q: nat, r: nat)
    requires r < P && n == q * P + r
    ensures n / P == q && n % P == r
  {
    DivMod(n, P);
    var q' := n / P;
    MulMonotone(q + 1, q', P);
    MulMonotone(q' + 1, q, P);
    assert (q + 1) * P == q * P + P;
    assert (q' + 1) * P == q' * P + P;
  }

  // Hint: multiplying by a natural number keeps the order.
  lemma MulMonotone(a: nat, b: nat, P: nat)
    ensures a <= b ==> a * P <= b * P
  {
  }

  // ---------------------------------------------------------------------
  // Rendering an amount back to text
  // ---------------------------------------------------------------------

  /** How many leading zeros leave at least one integer digit before `scale` fraction digits. */
  function PadWidth(len: nat, scale: nat): (k: nat)
    ensures len + k >= scale + 1
  {
    if len <= scale then scale + 1 - len else 0
  }

  /** The digits of the magnitude, with enough leading zeros for one integer digit. */
  function Padded(d: Decimal): (p: string)
    ensures AllDigits(p) && |p| >= d.scale + 1
    ensures DigitsValue(p) == Abs(d.mantissa)
  {
    var digits := NatDigits(Abs(d.mantissa));
    PaddedValue(Abs(d.mantissa), d.scale);
    Zeros(PadWidth(|digits|, d.scale)) + digits
  }

  /** A digit string written with its last `scale` digits after a point. */
  function Written(sign: char, padded: string, scale: nat): AmountText
    requires |padded| >= scale
  {
    var cut := |padded| - scale;
    AmountText(sign, "", padded[..cut], if scale == 0 then None else Some(padded[cut..]))
  }

  /**
   * The plain written form of an amount: its sign (`+` for zero and positive
   * values), the digits of the mantissa padded with leading zeros so that
   * at least one integer digit remains, and a `.` before the last `scale`
   * digits.
   */
  function ToText(d: Decimal): (a: AmountText)
    ensures a.WellFormed()
  {
    var sign := if d.mantissa < 0 then '-' else '+';
    CutDigits(sign, Padded(d), d.scale);
    Written(sign, Padded(d), d.scale)
  }

  function Render(d: Decimal): string
  {
    ToText(d).Text()
  }

  /**
   * Rendering an amount and parsing the text back gives the same amount,
   * digit for digit, unless it is negative with more digits than the
   * context's precision.
   */
  lemma RenderRoundTrip(d: Decimal)
    ensures d.mantissa >= 0 || Abs(d.mantissa) < Pow10(Precision) ==> ParseAmount(Render(d)) == Some(d)
  {
    MatchComplete(ToText(d));
    ToTextDenotes(d);
    if d.mantissa < 0 && Abs(d.mantissa) < Pow10(Precision) {
      ContextNegExact(ToText(d).Magnitude());
    }
  }

  /** With exact negation, every amount survives rendering and parsing. */
  lemma ExactRenderRoundTrip(d: Decimal)
    ensures ParseExact(Render(d)) == Some(d)
  {
    MatchComplete(ToText(d));
    ToTextDenotes(d);
  }

  lemma ToTextDenotes(d: Decimal)
    ensures ToText(d).ExactDenotation() == d
    ensures ToText(d).Magnitude() == Decimal(Abs(d.mantissa), d.scale)
  {
    var sign := if d.mantissa < 0 then '-' else '+';
    CutDigits(sign, Padded(d), d.scale);
  }

  /** Cutting a digit string `scale` places from its end and writing the two parts loses no digit. */
  lemma CutDigits(sign: char, padded: string, scale: nat)
    requires (sign == '+' || sign == '-') && AllDigits(padded) && |padded| >= scale + 1
    ensures Written(sign, padded, scale).WellFormed()
    ensures Written(sign, padded, scale).DigitString() == padded
    ensures |Written(sign, padded, scale).FractionDigits()| == scale
  {
    var cut := |padded| - scale;
    if scale == 0 {
      assert padded[..cut] == padded;
    } else {
      assert padded[..cut] + padded[cut..] == padded;
    }
  }

  /** Leading zeros do not change the value of the magnitude's digits. */
  lemma PaddedValue(m: nat, scale: nat)
    ensures var digits := NatDigits(m);
            AllDigits(Zeros(PadWidth(|digits|, scale)) + digits) &&
            DigitsValue(Zeros(PadWidth(|digits|, scale)) + digits) == m
  {
    var digits := NatDigits(m);
    LeadingZerosValue(PadWidth(|digits|, scale), digits);
    NatDigitsValue(m);
  }
}
