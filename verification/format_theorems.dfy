/** `formatNumber` on whole literals: integers are grouped, short fractions kept, long ones
    rounded half-up to the budget, and what a carry does (as written and corrected). */
module FormatTheorems {
  import opened Text
  import opened Numerals
  import opened Format
  import opened Grouping
  import opened FormatProperties

  /** An integer literal is shown grouped, and nothing else changes. */
  lemma FormatsInteger(s: string, i: string, arith: Arith)
    requires Sign(s) && AllDigits(i)
    ensures FormatNumber(s + i, arith) == s + Thousands(i)
    ensures FormatNumberCorrected(s + i, arith) == s + Thousands(i)
  {
    IntegerParts(s, i);
  }

  /** A fraction that fits the budget of fourteen characters is kept as it is. */
  lemma FormatsShortFraction(s: string, i: string, f: string, arith: Arith)
    requires Sign(s) && AllDigits(i) && AllDigits(f)
    requires |s + Thousands(i)| + |f| <= MaxLength
    ensures FormatNumber(s + i + "." + f, arith) == s + Thousands(i) + "." + f
    ensures FormatNumberCorrected(s + i + "." + f, arith) == s + Thousands(i) + "." + f
  {
    DigitsHoldNoMarks(f);
    FractionParts(s, i, f);
    var ps := [s + Thousands(i), f];
    assert Budget(ps) == MaxLength;
    JoinTwo(s + Thousands(i), f);
  }

  /** A longer fraction is cut so that the integer part and the fraction take fourteen
      characters, the last kept digit rounded half-up on the digit after it. An integer part
      of exactly fourteen characters keeps no digit: as written the point is left dangling,
      corrected it goes too. */
  lemma FormatsRoundedFraction(s: string, i: string, f: string, arith: Arith)
    requires Sign(s) && AllDigits(i) && AllDigits(f)
    requires var g := s + Thousands(i); |g| <= MaxLength < |g| + |f|
    requires var d := MaxLength + 1 - |s + Thousands(i)|; NatOf(f[..d]) + 5 < Pow10(d)
    ensures var g := s + Thousands(i);
      var d := MaxLength + 1 - |g|;
      var r := g + "." + Digits(HalfUpTenth(NatOf(f[..d])), d - 1);
      && FormatNumber(s + i + "." + f, arith) == r
      && |r| == MaxLength + 1
      && (|g| < MaxLength ==> FormatNumberCorrected(s + i + "." + f, arith) == r)
      && (|g| == MaxLength ==> FormatNumberCorrected(s + i + "." + f, arith) == g)
  {
    var g := s + Thousands(i);
    var d := MaxLength + 1 - |g|;
    var r := Digits(HalfUpTenth(NatOf(f[..d])), d - 1);
    DigitsHoldNoMarks(f);
    FractionParts(s, i, f);
    RoundedFraction(g, f, arith, false);
    AsWrittenOfParts(s + i + "." + f, [g, f], [g, r], arith);
    JoinTwo(g, r);
    RoundedFraction(g, f, arith, true);
    if |g| < MaxLength {
      CorrectedOfParts(s + i + "." + f, [g, f], [g, r], arith);
    } else {
      CorrectedOfParts(s + i + "." + f, [g, f], [g], arith);
    }
  }

  /** `formatNumber(n)` as written, from the parts it ends with. */
  lemma AsWrittenOfParts(n: string, ps: seq<string>, qs: seq<string>, arith: Arith)
    requires GroupedParts(n, false) == ps && FinalParts(ps, arith, false) == qs
    ensures FormatNumber(n, arith) == Join(qs, ".")
  {
  }

  /** `formatNumber(n)` corrected, from the parts it ends with. */
  lemma CorrectedOfParts(n: string, ps: seq<string>, qs: seq<string>, arith: Arith)
    requires GroupedParts(n, true) == ps && FinalParts(ps, arith, true) == qs
    ensures FormatNumberCorrected(n, arith) == Join(qs, ".")
  {
  }

  /** As written, an integer part of exactly fourteen characters and a first fraction digit
      below five leave a dangling point: `12345678901.4` is shown as `12,345,678,901.`.
      Corrected, the point goes with the fraction: `12,345,678,901`. */
  lemma DanglingPoint(s: string, i: string, f: string, arith: Arith)
    requires Sign(s) && AllDigits(i) && AllDigits(f) && |f| >= 1
    requires |s + Thousands(i)| == MaxLength && NatOf(f[..1]) < 5
    ensures FormatNumber(s + i + "." + f, arith) == s + Thousands(i) + "."
    ensures FormatNumberCorrected(s + i + "." + f, arith) == s + Thousands(i)
  {
    assert Pow10(1) == 10;
    FormatsRoundedFraction(s, i, f, arith);
    var g := s + Thousands(i);
    assert g + "." + Digits(HalfUpTenth(NatOf(f[..1])), 0) == g + ".";
  }

  /** As written, an integer part longer than fourteen characters makes the end of the cut
      zero or negative, and `slice` then counts `k` characters back from the end of the
      fraction. With `k` zero, or a fraction of at most `k` digits, the fraction is dropped
      unrounded and the point left dangling: `123456789012.5` is shown as `123,456,789,012.`.
      Otherwise all but the last `k` digits are kept and rounded, and the output is longer
      than fifteen characters: `-123456789012.549` is shown as `-123,456,789,012.5`. */
  lemma SliceEndFromTheEnd(s: string, i: string, f: string, arith: Arith)
    requires Sign(s) && AllDigits(i) && AllDigits(f) && |f| >= 1
    requires MaxLength < |s + Thousands(i)|
    ensures var g := s + Thousands(i);
      var k := |g| - MaxLength - 1;
      k == 0 || |f| <= k ==> FormatNumber(s + i + "." + f, arith) == g + "."
    ensures var g := s + Thousands(i);
      var k := |g| - MaxLength - 1;
      var d := |f| - k;
      0 < k < |f| <= |g| && NatOf(f[..d]) + 5 < Pow10(d) ==>
        var r := FormatNumber(s + i + "." + f, arith);
        && r == g + "." + Digits(HalfUpTenth(NatOf(f[..d])), d - 1)
        && |r| == |f| + MaxLength + 1
    ensures var g := s + Thousands(i);
      var k := |g| - MaxLength - 1;
      var d := |f| - k;
      0 < k < |f| <= |g| && NatOf(f[..d]) + 5 >= Pow10(d) ==>
        FormatNumber(s + i + "." + f, arith) == CarriedInteger(g, arith, false)
  {
    var g := s + Thousands(i);
    var k := |g| - MaxLength - 1;
    DigitsHoldNoMarks(f);
    FractionParts(s, i, f);
    FormatOfParts(s + i + "." + f, g, f, arith);
    CutFromTheEnd(g, f, arith);
    if k == 0 || |f| <= k {
      JoinTwo(g, "");
      assert g + "." + "" == g + ".";
    } else if |f| <= |g| {
      var d := |f| - k;
      JoinTwo(g, Digits(HalfUpTenth(NatOf(f[..d])), d - 1));
    }
  }

  /** Corrected, an integer part of fourteen or more characters is rounded on the first
      fraction digit, and the fraction and point are dropped: `123456789012.5` is shown as
      `123,456,789,013`, `-123456789012.549` as `-123,456,789,013`. */
  lemma FormatsWholeIntegerPart(s: string, i: string, f: string, arith: Arith)
    requires Sign(s) && AllDigits(i) && |i| >= 1 && AllDigits(f) && |f| >= 1
    requires MaxLength <= |s + Thousands(i)| && NatOf(i) + 1 < SafeLimit
    ensures NatOf(f[..1]) < 5 ==> FormatNumberCorrected(s + i + "." + f, arith) == s + Thousands(i)
    ensures NatOf(f[..1]) >= 5 ==>
              FormatNumberCorrected(s + i + "." + f, arith) == s + Thousands(NatText(NatOf(i) + 1))
  {
    var g := s + Thousands(i);
    DigitsHoldNoMarks(f);
    FractionParts(s, i, f);
    FormatOfParts(s + i + "." + f, g, f, arith);
    RoundedWhole(g, f, arith);
    CarriedCorrectedExact(s, i, arith);
  }

  /** When the kept digits round up past all nines, the fraction is dropped and the integer
      part incremented. As written this adds one to the signed integer part, so a negative
      number moves toward zero; corrected, the magnitude goes up by one. */
  lemma FormatsCarriedFraction(s: string, i: string, f: string, arith: Arith)
    requires Sign(s) && AllDigits(i) && |i| >= 1 && AllDigits(f)
    requires var g := s + Thousands(i); |g| <= MaxLength < |g| + |f|
    requires var d := MaxLength + 1 - |s + Thousands(i)|; NatOf(f[..d]) + 5 >= Pow10(d)
    ensures s == "" ==> FormatNumber(s + i + "." + f, arith) == Thousands(NatText(NatOf(i) + 1))
    ensures s == "-" ==> FormatNumber(s + i + "." + f, arith) == GroupThousands(IntText(1 - NatOf(i)))
    ensures FormatNumberCorrected(s + i + "." + f, arith) == s + Thousands(NatText(NatOf(i) + 1))
  {
    CarriedFractionAsWritten(s, i, f, arith);
    CarriedFractionCorrected(s, i, f, arith);
    CarriedAsWritten(s, i, arith);
  }

  lemma CarriedFractionAsWritten(s: string, i: string, f: string, arith: Arith)
    requires Sign(s) && AllDigits(i) && |i| >= 1 && AllDigits(f)
    requires var g := s + Thousands(i); |g| <= MaxLength < |g| + |f|
    requires var d := MaxLength + 1 - |s + Thousands(i)|; NatOf(f[..d]) + 5 >= Pow10(d)
    ensures FormatNumber(s + i + "." + f, arith) == CarriedInteger(s + Thousands(i), arith, false)
  {
    var g := s + Thousands(i);
    DigitsHoldNoMarks(f);
    FractionParts(s, i, f);
    CarriedFraction(g, f, arith, false);
    AsWrittenOfParts(s + i + "." + f, [g, f], [CarriedInteger(g, arith, false)], arith);
  }

  lemma CarriedFractionCorrected(s: string, i: string, f: string, arith: Arith)
    requires Sign(s) && AllDigits(i) && |i| >= 1 && AllDigits(f)
    requires var g := s + Thousands(i); |g| <= MaxLength < |g| + |f|
    requires var d := MaxLength + 1 - |s + Thousands(i)|; NatOf(f[..d]) + 5 >= Pow10(d)
    ensures FormatNumberCorrected(s + i + "." + f, arith) == s + Thousands(NatText(NatOf(i) + 1))
  {
    var g := s + Thousands(i);
    DigitsHoldNoMarks(f);
    FractionParts(s, i, f);
    CarriedFraction(g, f, arith, true);
    CorrectedOfParts(s + i + "." + f, [g, f], [CarriedInteger(g, arith, true)], arith);
    CarriedCorrected(s, i, arith);
  }

  /** A mantissa whose digits and exponent fit the budget, less the exponent's length, is
      kept as it is. */
  lemma FormatsShortMantissa(s: string, i: string, m: string, x: string, arith: Arith)
    requires Sign(s) && AllDigits(i) && AllDigits(m) && |m| >= 1
    requires 'e' !in x && '.' !in x && '+' !in x
    requires |s + Thousands(i)| + |m + "e" + x| <= MaxLength - |x|
    ensures FormatNumber(s + i + "." + m + "e" + x, arith) == s + Thousands(i) + "." + m + "e" + x
    ensures FormatNumberCorrected(s + i + "." + m + "e" + x, arith) == s + Thousands(i) + "." + m + "e" + x
  {
    FormatsFittingMantissa(s, i, m, x, arith);
    var f := m + "e" + x;
    DigitsHoldNoMarks(m);
    AppendMantissa(s + i + ".", m, x);
    FractionParts(s, i, f);
    var ps := [s + Thousands(i), f];
    ExponentOf(s + Thousands(i), m, x);
    assert Budget(ps) == MaxLength - |x|;
    JoinTwo(s + Thousands(i), f);
    AppendMantissa(s + Thousands(i) + ".", m, x);
  }

  /** A longer mantissa is cut to the budget less the exponent's length, rounded half-up, and
      the exponent put back. Corrected, the same whenever the cut keeps a digit. */
  lemma FormatsRoundedMantissa(s: string, i: string, m: string, x: string, arith: Arith)
    requires Sign(s) && AllDigits(i) && AllDigits(m)
    requires 'e' !in x && '.' !in x && '+' !in x
    requires var g := s + Thousands(i); |g| + |x| <= MaxLength && MaxLength + 1 - |x| - |g| <= |m|
    requires var d := MaxLength + 1 - |x| - |s + Thousands(i)|; NatOf(m[..d]) + 5 < Pow10(d)
    ensures var g := s + Thousands(i);
      var d := MaxLength + 1 - |x| - |g|;
      FormatNumber(s + i + "." + m + "e" + x, arith)
        == g + "." + Digits(HalfUpTenth(NatOf(m[..d])), d - 1) + "e" + x
    ensures var g := s + Thousands(i);
      var d := MaxLength + 1 - |x| - |g|;
      |g| + |x| < MaxLength ==>
        FormatNumberCorrected(s + i + "." + m + "e" + x, arith)
          == g + "." + Digits(HalfUpTenth(NatOf(m[..d])), d - 1) + "e" + x
  {
    var g := s + Thousands(i);
    var d := MaxLength + 1 - |x| - |g|;
    var r := Digits(HalfUpTenth(NatOf(m[..d])), d - 1);
    var n := s + i + "." + m + "e" + x;
    MantissaParts(s, i, m, x);
    RoundedMantissa(g, m, x, arith, false);
    KeptMantissa(n, g, m + "e" + x, r, x, arith, false);
    if |g| + |x| < MaxLength {
      RoundedMantissa(g, m, x, arith, true);
      KeptMantissa(n, g, m + "e" + x, r, x, arith, true);
    }
  }

  /** The text of a literal whose parts are `[g, f]` and end as `[g, r + "e" + x]`. */
  lemma KeptMantissa(n: string, g: string, f: string, r: string, x: string, arith: Arith, corrected: bool)
    requires GroupedParts(n, corrected) == [g, f] && FinalParts([g, f], arith, corrected) == [g, r + "e" + x]
    ensures !corrected ==> FormatNumber(n, arith) == g + "." + r + "e" + x
    ensures corrected ==> FormatNumberCorrected(n, arith) == g + "." + r + "e" + x
  {
    if corrected {
      CorrectedOfParts(n, [g, f], [g, r + "e" + x], arith);
      JoinMantissa(FormatNumberCorrected(n, arith), g, r, x);
    } else {
      AsWrittenOfParts(n, [g, f], [g, r + "e" + x], arith);
      JoinMantissa(FormatNumber(n, arith), g, r, x);
    }
  }

  /** As written, a mantissa that fits the budget less the exponent's length, in a literal
      that does not, is cut inside the exponent. When the cut ends right after the `e`, or
      after `e-`, the fraction is shown as `aN`: `9.1234567891e-7` as `9.aNe-7`. */
  lemma ExponentCutShowsNaN(s: string, i: string, m: string, x: string, arith: Arith)
    requires Sign(s) && AllDigits(i) && AllDigits(m)
    requires 'e' !in x && '.' !in x && '+' !in x
    requires var d := MaxLength + 1 - |x| - |s + Thousands(i)|;
      d == |m| + 1 || (d == |m| + 2 && |x| >= 1 && x[0] == '-')
    ensures FormatNumber(s + i + "." + m + "e" + x, arith) == s + Thousands(i) + "." + "aN" + "e" + x
  {
    var g := s + Thousands(i);
    MantissaParts(s, i, m, x);
    CutIntoExponent(g, m, x, arith);
    KeptMantissa(s + i + "." + m + "e" + x, g, m + "e" + x, "aN", x, arith, false);
  }

  /** Corrected, a mantissa whose digits fit the budget less the exponent's length is kept
      with its exponent, whatever the length of the whole literal: `9.1234567891e-7` stays as
      it is. */
  lemma FormatsFittingMantissa(s: string, i: string, m: string, x: string, arith: Arith)
    requires Sign(s) && AllDigits(i) && AllDigits(m)
    requires 'e' !in x && '.' !in x && '+' !in x
    requires |s + Thousands(i)| + |m| <= MaxLength - |x|
    ensures FormatNumberCorrected(s + i + "." + m + "e" + x, arith)
         == s + Thousands(i) + "." + m + "e" + x
  {
    var g := s + Thousands(i);
    MantissaParts(s, i, m, x);
    FormatOfParts(s + i + "." + m + "e" + x, g, m + "e" + x, arith);
    FittingMantissa(g, m, x, arith);
    JoinTwo(g, m + "e" + x);
    AppendMantissa(g + ".", m, x);
  }

  /** The text `w` of a grouped integer part and a rounded mantissa with its exponent. */
  lemma JoinMantissa(w: string, g: string, r: string, x: string)
    requires w == Join([g, r + "e" + x], ".")
    ensures w == g + "." + r + "e" + x
  {
    JoinTwo(g, r + "e" + x);
    AppendMantissa(g + ".", r, x);
  }

  /** When a mantissa rounds up past all nines, the code as written drops the exponent with the
      fraction (and moves a negative number toward zero); corrected, the exponent stays on the
      incremented integer part. */
  lemma FormatsCarriedMantissa(s: string, i: string, m: string, x: string, arith: Arith)
    requires Sign(s) && AllDigits(i) && |i| >= 1 && AllDigits(m)
    requires 'e' !in x && '.' !in x && '+' !in x
    requires var g := s + Thousands(i); |g| + |x| <= MaxLength && MaxLength + 1 - |x| - |g| <= |m|
    requires var d := MaxLength + 1 - |x| - |s + Thousands(i)|; NatOf(m[..d]) + 5 >= Pow10(d)
    ensures s == "" ==> FormatNumber(s + i + "." + m + "e" + x, arith) == Thousands(NatText(NatOf(i) + 1))
    ensures s == "-" ==> FormatNumber(s + i + "." + m + "e" + x, arith) == GroupThousands(IntText(1 - NatOf(i)))
    ensures FormatNumberCorrected(s + i + "." + m + "e" + x, arith)
         == s + Thousands(NatText(NatOf(i) + 1)) + "e" + x
  {
    CarriedMantissaAsWritten(s, i, m, x, arith);
    CarriedMantissaCorrected(s, i, m, x, arith);
    CarriedAsWritten(s, i, arith);
  }

  lemma CarriedMantissaAsWritten(s: string, i: string, m: string, x: string, arith: Arith)
    requires Sign(s) && AllDigits(i) && |i| >= 1 && AllDigits(m)
    requires 'e' !in x && '.' !in x && '+' !in x
    requires var g := s + Thousands(i); |g| + |x| <= MaxLength && MaxLength + 1 - |x| - |g| <= |m|
    requires var d := MaxLength + 1 - |x| - |s + Thousands(i)|; NatOf(m[..d]) + 5 >= Pow10(d)
    ensures FormatNumber(s + i + "." + m + "e" + x, arith) == CarriedInteger(s + Thousands(i), arith, false)
  {
    var g := s + Thousands(i);
    MantissaParts(s, i, m, x);
    FormatOfParts(s + i + "." + m + "e" + x, g, m + "e" + x, arith);
    CarriedMantissa(g, m, x, arith, false);
    var c := CarriedInteger(g, arith, false);
    assert c + "" == c;
  }

  lemma CarriedMantissaCorrected(s: string, i: string, m: string, x: string, arith: Arith)
    requires Sign(s) && AllDigits(i) && |i| >= 1 && AllDigits(m)
    requires 'e' !in x && '.' !in x && '+' !in x
    requires var g := s + Thousands(i); |g| + |x| <= MaxLength && MaxLength + 1 - |x| - |g| <= |m|
    requires var d := MaxLength + 1 - |x| - |s + Thousands(i)|; NatOf(m[..d]) + 5 >= Pow10(d)
    ensures FormatNumberCorrected(s + i + "." + m + "e" + x, arith)
         == s + Thousands(NatText(NatOf(i) + 1)) + "e" + x
  {
    var g := s + Thousands(i);
    var f := m + "e" + x;
    MantissaParts(s, i, m, x);
    CarriedMantissa(g, m, x, arith, true);
    CorrectedOfParts(s + i + "." + m + "e" + x, [g, f], FinalParts([g, f], arith, true), arith);
    CarriedCorrected(s, i, arith);
    AppendMantissa(s, Thousands(NatText(NatOf(i) + 1)), x);
  }

  /** As written, an integer with a positive exponent, as `toString` writes numbers from 1e21
      on, has its exponent digits grouped too: `1e+100` is shown as `1e,100`. */
  lemma ExponentDigitsGrouped(s: string, i: string, x: string, arith: Arith)
    requires Sign(s) && AllDigits(i) && AllDigits(x) && |x| >= 1
    ensures FormatNumber(s + i + "e+" + x, arith)
         == s + Thousands(i) + "e" + (if |x| % 3 == 0 then "," else "") + Thousands(x)
  {
    ExponentLiteralParts(s, i, x, false);
    GroupExponent(s + i, x);
    GroupSigned(s, i);
  }

  /** Corrected, the exponent of an integer is kept as it is: `1e+100` is shown as `1e100`. */
  lemma FormatsIntegerExponent(s: string, i: string, x: string, arith: Arith)
    requires Sign(s) && AllDigits(i) && AllDigits(x)
    ensures FormatNumberCorrected(s + i + "e+" + x, arith) == s + Thousands(i) + "e" + x
  {
    var q := s + Thousands(i) + "e" + x;
    ExponentLiteralParts(s, i, x, true);
    IntegerExponentKept(s, i, x);
    assert FinalParts([q], arith, true) == [q];
    CorrectedOfParts(s + i + "e+" + x, [q], [q], arith);
  }

  /** Corrected, only the digits before the `e` of an integer are grouped. */
  lemma IntegerExponentKept(s: string, i: string, x: string)
    requires Sign(s) && AllDigits(i) && AllDigits(x)
    ensures GroupedInteger(s + i + "e" + x, true) == s + Thousands(i) + "e" + x
  {
    var w := s + i + "e" + x;
    DigitsHoldNoMarks(i);
    assert w[|s + i|] == 'e' && 'e' !in s + i;
    var k := IndexOf(w, 'e');
    assert k == |s + i|;
    assert w[..k] == s + i && w[k..] == "e" + x;
    GroupSigned(s, i);
  }

  /** An integer literal with a positive exponent loses its `+` and has no point. */
  lemma ExponentLiteralParts(s: string, i: string, x: string, corrected: bool)
    requires Sign(s) && AllDigits(i) && AllDigits(x)
    ensures GroupedParts(s + i + "e+" + x, corrected) == [GroupedInteger(s + i + "e" + x, corrected)]
  {
    var a := s + i + "e";
    var n := s + i + "e+" + x;
    var w := s + i + "e" + x;
    DigitsHoldNoMarks(i);
    DigitsHoldNoMarks(x);
    assert n == a + "+" + x && w == a + x;
    assert n[|a|] == '+' && '+' !in a;
    var k := IndexOf(n, '+');
    assert k == |a|;
    assert n[..k] + n[k + 1..] == w;
    assert '.' !in w;
    SplitPieces(w, '.');
    var r := Split(w, '.');
    assert |r| == 1 && r[0] == Join(r, ".");
  }

  /** The first `+` is removed before anything else, so the `+` that `toString` writes in a
      positive exponent is not shown. */
  lemma PlusIgnored(a: string, b: string, arith: Arith)
    requires '+' !in a && '+' !in b
    ensures FormatNumber(a + "+" + b, arith) == FormatNumber(a + b, arith)
    ensures FormatNumberCorrected(a + "+" + b, arith) == FormatNumberCorrected(a + b, arith)
  {
    var n := a + "+" + b;
    assert n[|a|] == '+';
    var k := IndexOf(n, '+');
    assert n[..k] + n[k + 1..] == a + b;
    assert '+' !in a + b;
  }

  /** Where the correction leaves the code as written alone: no exponent, no leading minus,
      an integer part shorter than the budget and a fraction of digits. There a cut always
      keeps at least one digit, so only the carry could differ, and without a sign or an
      exponent it does not. */
  lemma CorrectionAgrees(n: string, arith: Arith)
    requires var ps := GroupedParts(n, false);
      && !HasExponent(ps) && 'e' !in ps[0] && (|ps[0]| == 0 || ps[0][0] != '-') && |ps[0]| < MaxLength
      && (HasFraction(ps) ==> AllDigits(ps[1]))
    ensures FormatNumberCorrected(n, arith) == FormatNumber(n, arith)
  {
    var raw := Split(RemoveFirst(n, '+'), '.')[0];
    if 'e' in raw {
      GroupKeeps(raw, |raw|, 'e');
      assert false;
    }
    assert GroupedParts(n, true) == GroupedParts(n, false);
    FinalPartsAgree(GroupedParts(n, false), arith);
  }

  lemma FinalPartsAgree(ps: seq<string>, arith: Arith)
    requires |ps| >= 1 && !HasExponent(ps) && (|ps[0]| == 0 || ps[0][0] != '-') && |ps[0]| < MaxLength
    requires HasFraction(ps) ==> AllDigits(ps[1])
    ensures FinalParts(ps, arith, true) == FinalParts(ps, arith, false)
  {
    assert CarriedInteger(ps[0], arith, true) == CarriedInteger(ps[0], arith, false);
    assert ExponentSuffix(ps) == "";
    var c := CarriedInteger(ps[0], arith, false);
    assert c + "" == c;
    if HasFraction(ps) && |ps[0]| + |ps[1]| > MaxLength {
      var e := MaxLength - |ps[0]| + 1;
      assert CutText(ps, true) == ps[1] && CutText(ps, false) == ps[1];
      assert CutEnd(ps, true) == e && CutEnd(ps, false) == e;
      var dec := ps[1][..e];
      assert Slice(ps[1], e) == dec;
      if NatOf(dec) + 5 >= Pow10(e) {
        PaddedCarries(dec, arith);
        CarriedParts(ps, arith, true, dec);
        CarriedParts(ps, arith, false, dec);
      } else {
        PaddedKeeps(dec, arith);
        assert DropFirst(RoundTenthText("1" + dec, arith)) != "";
        CutParts(ps, arith, true, dec);
        CutParts(ps, arith, false, dec);
      }
    }
  }

  lemma JoinTwo(a: string, b: string)
    ensures Join([a, b], ".") == a + "." + b
  {
    assert [a, b][1..] == [b];
  }

  /** `formatNumber` through its grouped parts. */
  lemma FormatOfParts(n: string, g: string, f: string, arith: Arith)
    requires GroupedParts(n, false) == [g, f] && GroupedParts(n, true) == [g, f]
    ensures FormatNumber(n, arith) == Join(FinalParts([g, f], arith, false), ".")
    ensures FormatNumberCorrected(n, arith) == Join(FinalParts([g, f], arith, true), ".")
  {
  }

  /** A mantissa and its exponent, written on after a prefix. */
  lemma AppendMantissa(a: string, m: string, x: string)
    ensures a + (m + "e" + x) == a + m + "e" + x
    ensures a + m + ("e" + x) == a + m + "e" + x
  {
  }

  /** A literal with an exponent splits at its point into the grouped integer part and the
      mantissa with its exponent. */
  lemma MantissaParts(s: string, i: string, m: string, x: string)
    requires Sign(s) && AllDigits(i) && AllDigits(m)
    requires 'e' !in x && '.' !in x && '+' !in x
    ensures GroupedParts(s + i + "." + m + "e" + x, false) == [s + Thousands(i), m + "e" + x]
    ensures GroupedParts(s + i + "." + m + "e" + x, true) == [s + Thousands(i), m + "e" + x]
  {
    DigitsHoldNoMarks(m);
    AppendMantissa(s + i + ".", m, x);
    FractionParts(s, i, m + "e" + x);
  }

  /** As written, a negative number whose fraction carries is shown one closer to zero rather
      than one further from it: `-0.99999999999999` as `1`, `-1.99999999999999` as `0`,
      `-5.99999999999999` as `-4` (corrected, `FormatsCarriedFraction` gives `-1`, `-2`, `-6`). */
  lemma NegativeCarryTowardZero(i: string, f: string, arith: Arith)
    requires AllDigits(i) && |i| >= 1 && AllDigits(f)
    requires var g := "-" + Thousands(i); |g| <= MaxLength < |g| + |f|
    requires var d := MaxLength + 1 - |"-" + Thousands(i)|; NatOf(f[..d]) + 5 >= Pow10(d)
    ensures NatOf(i) == 0 ==> FormatNumber("-" + i + "." + f, arith) == "1"
    ensures NatOf(i) == 1 ==> FormatNumber("-" + i + "." + f, arith) == "0"
    ensures NatOf(i) >= 2 ==> FormatNumber("-" + i + "." + f, arith) == "-" + Thousands(NatText(NatOf(i) - 1))
  {
    CarriedFractionAsWritten("-", i, f, arith);
    NegativeCarried(FormatNumber("-" + i + "." + f, arith), i, arith);
  }

  /** The carried integer part `r` of a negative number, as written. */
  lemma NegativeCarried(r: string, i: string, arith: Arith)
    requires AllDigits(i) && |i| >= 1 && |"-" + Thousands(i)| <= MaxLength
    requires r == CarriedInteger("-" + Thousands(i), arith, false)
    ensures NatOf(i) == 0 ==> r == "1"
    ensures NatOf(i) == 1 ==> r == "0"
    ensures NatOf(i) >= 2 ==> r == "-" + Thousands(NatText(NatOf(i) - 1))
  {
    CarriedAsWrittenNegative(i, arith);
    CarryText(r, NatOf(i));
  }

  /** The grouped text `r` of `1 - m`. */
  lemma CarryText(r: string, m: nat)
    requires r == GroupThousands(IntText(1 - m))
    ensures m == 0 ==> r == "1"
    ensures m == 1 ==> r == "0"
    ensures m >= 2 ==> r == "-" + Thousands(NatText(m - 1))
  {
    var v := 1 - m;
    if m == 0 {
      assert IntText(v) == "1";
      GroupDigits("1");
    } else if m == 1 {
      assert IntText(v) == "0";
      GroupDigits("0");
    } else {
      var k: nat := m - 1;
      assert -v == k;
      assert IntText(v) == "-" + NatText(k);
      GroupSigned("-", NatText(k));
    }
  }

  /** As written, a mantissa whose rounding carries loses its exponent: `9.99999999999999e-7` is
      shown as `10` and `-9.99999999999999e-7` as `-8`. Corrected, the exponent is kept:
      `10e-7`. */
  lemma ExponentDroppedOnCarry(s: string, i: string, m: string, x: string, arith: Arith)
    requires Sign(s) && AllDigits(i) && |i| >= 1 && AllDigits(m)
    requires 'e' !in x && '.' !in x && '+' !in x
    requires var g := s + Thousands(i); |g| + |x| <= MaxLength && MaxLength + 1 - |x| - |g| <= |m|
    requires var d := MaxLength + 1 - |x| - |s + Thousands(i)|; NatOf(m[..d]) + 5 >= Pow10(d)
    ensures 'e' !in FormatNumber(s + i + "." + m + "e" + x, arith)
    ensures s == "" ==> (FormatNumberCorrected(s + i + "." + m + "e" + x, arith)
                         == FormatNumber(s + i + "." + m + "e" + x, arith) + "e" + x)
  {
    CarriedMantissaAsWritten(s, i, m, x, arith);
    CarriedHoldsNoExponent(FormatNumber(s + i + "." + m + "e" + x, arith), s, i, arith);
    CarriedMantissaCorrected(s, i, m, x, arith);
    CarriedAsWritten(s, i, arith);
    KeptExponent(FormatNumberCorrected(s + i + "." + m + "e" + x, arith),
                 FormatNumber(s + i + "." + m + "e" + x, arith), s, i, x, arith);
  }

  /** The carried integer part, as written, holds no `e`. */
  lemma CarriedHoldsNoExponent(r: string, s: string, i: string, arith: Arith)
    requires Sign(s) && AllDigits(i) && |i| >= 1 && |s + Thousands(i)| <= MaxLength
    requires r == CarriedInteger(s + Thousands(i), arith, false)
    ensures 'e' !in r
  {
    CarriedAsWritten(s, i, arith);
    if s == "" {
      NoExponentIn(r, NatText(NatOf(i) + 1));
    } else {
      CarryText(r, NatOf(i));
      if NatOf(i) >= 2 {
        NoExponentIn(r[1..], NatText(NatOf(i) - 1));
      }
    }
  }

  lemma KeptExponent(c: string, w: string, s: string, i: string, x: string, arith: Arith)
    requires AllDigits(i) && c == s + Thousands(NatText(NatOf(i) + 1)) + "e" + x
    requires w == CarriedInteger(s + Thousands(i), arith, false)
    requires s == "" ==> CarriedInteger(s + Thousands(i), arith, false) == Thousands(NatText(NatOf(i) + 1))
    ensures s == "" ==> c == w + "e" + x
  {
    if s == "" {
      var t := Thousands(NatText(NatOf(i) + 1));
      assert s + t == t;
    }
  }

  lemma NoExponentIn(r: string, t: string)
    requires AllDigits(t) && r == Thousands(t)
    ensures 'e' !in r
  {
    ThousandsHoldNoExponent(t);
  }

  /** Grouped digits hold no `e`. */
  lemma {:induction false} ThousandsHoldNoExponent(d: string)
    requires AllDigits(d)
    ensures 'e' !in Thousands(d)
    decreases |d|
  {
    if |d| <= 3 {
      DigitsHoldNoMarks(d);
    } else {
      ThousandsHoldNoExponent(d[..|d| - 3]);
      DigitsHoldNoMarks(d[|d| - 3..]);
    }
  }
}
