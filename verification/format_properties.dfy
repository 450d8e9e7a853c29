/** What `formatNumber` does to the literals `Number.prototype.toString` produces: an optional
    minus sign, integer digits, and optionally a fraction with an optional exponent. */
module FormatProperties {
  import opened Text
  import opened Numerals
  import opened Format
  import opened Grouping

  predicate Sign(s: string) {
    s == "" || s == "-"
  }

  /** A digit string holds none of the characters `formatNumber` looks for. */
  lemma DigitsHoldNoMarks(d: string)
    requires AllDigits(d)
    ensures '+' !in d && '.' !in d && 'e' !in d && ',' !in d && '-' !in d
  {
    forall i | 0 <= i < |d|
      ensures d[i] != '+' && d[i] != '.' && d[i] != 'e' && d[i] != ',' && d[i] != '-'
    {
      assert IsDigit(d[i]);
    }
  }

  /** The integer part of an integer literal, grouped. */
  lemma IntegerParts(s: string, i: string)
    requires Sign(s) && AllDigits(i)
    ensures GroupedParts(s + i, false) == [s + Thousands(i)]
    ensures GroupedParts(s + i, true) == [s + Thousands(i)]
  {
    var n := s + i;
    DigitsHoldNoMarks(i);
    assert '+' !in n && '.' !in n && 'e' !in n;
    SplitPieces(n, '.');
    var r := Split(n, '.');
    assert |r| == 1 && r[0] == Join(r, ".");
    GroupSigned(s, i);
  }

  /** A literal with a fraction splits at its point; the integer part is grouped. */
  lemma FractionParts(s: string, i: string, f: string)
    requires Sign(s) && AllDigits(i)
    requires '.' !in f && '+' !in f
    ensures GroupedParts(s + i + "." + f, false) == [s + Thousands(i), f]
    ensures GroupedParts(s + i + "." + f, true) == [s + Thousands(i), f]
  {
    var n := s + i + "." + f;
    DigitsHoldNoMarks(i);
    assert '+' !in n && 'e' !in s + i;
    var ps := [s + i, f];
    assert Join(ps, ".") == n by {
      assert ps[1..] == [f];
    }
    SplitJoin(ps, '.');
    GroupSigned(s, i);
  }

  /** `+('1' + D)` is exact for up to fifteen digits. */
  lemma PaddedValue(dp: string, arith: Arith)
    requires AllDigits(dp) && 1 <= |dp| <= MaxLength + 1
    ensures AllDigits("1" + dp) && NatOf("1" + dp) == Pow10(|dp|) + NatOf(dp)
    ensures RoundTenthText("1" + dp, arith) == NatText(HalfUpTenth(NatOf("1" + dp)))
  {
    NatOfLeadingOne(dp);
    Pow10Safe(|dp|);
  }

  /** Rounding `10 * p + q` to tenths: `p` plus `q` rounded, or `2 * p` when `q` rounds up to
      `10 * p`. */
  lemma HalfUpSplit(v: nat, p: nat, q: nat)
    requires v == 10 * p + q && q < 10 * p
    ensures q + 5 < 10 * p ==> HalfUpTenth(v) == p + HalfUpTenth(q) && HalfUpTenth(q) < p
    ensures q + 5 >= 10 * p ==> HalfUpTenth(v) == 2 * p
  {
  }

  /** `Math.round(+('1' + D) / 10)` on up to fifteen digits: `1` and the digits rounded half-up
      to one fewer place, or a carry that makes the leading `1` a `2`. */
  lemma PaddedRound(dp: string, arith: Arith)
    requires AllDigits(dp) && 1 <= |dp| <= MaxLength + 1
    ensures var q := NatOf(dp);
      var pre := RoundTenthText("1" + dp, arith);
      && (q + 5 < Pow10(|dp|) ==> pre == "1" + Digits(HalfUpTenth(q), |dp| - 1))
      && (q + 5 >= Pow10(|dp|) ==> |pre| > 0 && pre[0] == '2')
  {
    if NatOf(dp) + 5 < Pow10(|dp|) {
      PaddedKeeps(dp, arith);
    } else {
      PaddedCarries(dp, arith);
    }
  }

  lemma Pow10Next(k: nat, n: nat)
    requires n == k + 1
    ensures Pow10(n) == 10 * Pow10(k)
  {
  }

  lemma PaddedKeeps(dp: string, arith: Arith)
    requires AllDigits(dp) && 1 <= |dp| <= MaxLength + 1 && NatOf(dp) + 5 < Pow10(|dp|)
    ensures RoundTenthText("1" + dp, arith) == "1" + Digits(HalfUpTenth(NatOf(dp)), |dp| - 1)
  {
    var k := |dp| - 1;
    var h := HalfUpTenth(NatOf(dp));
    PaddedValue(dp, arith);
    Pow10Next(k, |dp|);
    HalfUpSplit(NatOf("1" + dp), Pow10(k), NatOf(dp));
    NatTextLeadingOne(k, h);
  }

  /** What the cut keeps when the rounding does not carry: the rounded digits, after the `1`. */
  lemma KeptDigits(dp: string, arith: Arith)
    requires AllDigits(dp) && 1 <= |dp| <= MaxLength + 1 && NatOf(dp) + 5 < Pow10(|dp|)
    ensures var pre := RoundTenthText("1" + dp, arith);
      && !(|pre| > 0 && pre[0] == '2')
      && DropFirst(pre) == Digits(HalfUpTenth(NatOf(dp)), |dp| - 1)
  {
    PaddedKeeps(dp, arith);
  }

  lemma PaddedCarries(dp: string, arith: Arith)
    requires AllDigits(dp) && 1 <= |dp| <= MaxLength + 1 && NatOf(dp) + 5 >= Pow10(|dp|)
    ensures var pre := RoundTenthText("1" + dp, arith); |pre| > 0 && pre[0] == '2'
  {
    var k := |dp| - 1;
    PaddedValue(dp, arith);
    Pow10Next(k, |dp|);
    HalfUpSplit(NatOf("1" + dp), Pow10(k), NatOf(dp));
    NatTextLeadingTwo(k);
  }

  /** The kept digits are the fraction rounded half-up at the cut: ten times their value is
      within a half of the digits they replace. */
  lemma HalfUp(q: nat, d: nat)
    requires 1 <= d && q + 5 < Pow10(d)
    ensures var f := Digits(HalfUpTenth(q), d - 1);
      && |f| == d - 1
      && 10 * NatOf(f) <= q + 5 < 10 * NatOf(f) + 10
  {
    NatOfDigits(HalfUpTenth(q), d - 1);
  }

  /** Cutting the fraction of a two-part literal, when the rounding carries: the integer
      part incremented, and the fraction gone. */
  lemma CutCarries(g: string, f: string, arith: Arith, corrected: bool, dec: string)
    requires HasFraction([g, f]) && |g| + |CutText([g, f], corrected)| > Budget([g, f])
    requires dec == Slice(CutText([g, f], corrected), CutEnd([g, f], corrected))
    requires var pre := RoundTenthText("1" + dec, arith); |pre| > 0 && pre[0] == '2'
    ensures FinalParts([g, f], arith, corrected)
         == [CarriedInteger(g, arith, corrected) + (if corrected then ExponentSuffix([g, f]) else "")]
  {
    var ps := [g, f];
    CarriedParts(ps, arith, corrected, dec);
    var c := CarriedInteger(g, arith, corrected) + (if corrected then ExponentSuffix(ps) else "");
    assert ps[0 := c][..|ps| - 1] == [c];
  }

  lemma CarriedParts(ps: seq<string>, arith: Arith, corrected: bool, dec: string)
    requires HasFraction(ps) && |ps[0]| + |CutText(ps, corrected)| > Budget(ps)
    requires dec == Slice(CutText(ps, corrected), CutEnd(ps, corrected))
    requires var pre := RoundTenthText("1" + dec, arith); |pre| > 0 && pre[0] == '2'
    ensures var c := CarriedInteger(ps[0], arith, corrected) + (if corrected then ExponentSuffix(ps) else "");
      FinalParts(ps, arith, corrected) == ps[0 := c][..|ps| - 1]
  {
  }

  /** Cutting the fraction of a two-part literal, when the rounding does not carry and leaves
      digits (or the code is as written): the rounded digits and the exponent. */
  lemma CutKeeps(g: string, f: string, arith: Arith, corrected: bool, dec: string, r: string)
    requires HasFraction([g, f]) && |g| + |CutText([g, f], corrected)| > Budget([g, f])
    requires dec == Slice(CutText([g, f], corrected), CutEnd([g, f], corrected))
    requires var pre := RoundTenthText("1" + dec, arith);
      !(|pre| > 0 && pre[0] == '2') && r == DropFirst(pre) && (r != "" || !corrected)
    ensures FinalParts([g, f], arith, corrected) == [g, r + ExponentSuffix([g, f])]
  {
    var ps := [g, f];
    CutParts(ps, arith, corrected, dec);
    assert ps[1 := r + ExponentSuffix(ps)] == [g, r + ExponentSuffix(ps)];
  }

  /** Corrected, when the rounding neither carries nor leaves a digit: the integer part and
      the exponent, without a point. */
  lemma CutKeepsNone(g: string, f: string, arith: Arith, dec: string)
    requires HasFraction([g, f]) && |g| + |CutText([g, f], true)| > Budget([g, f])
    requires dec == Slice(CutText([g, f], true), CutEnd([g, f], true))
    requires var pre := RoundTenthText("1" + dec, arith);
      !(|pre| > 0 && pre[0] == '2') && DropFirst(pre) == ""
    ensures FinalParts([g, f], arith, true) == [g + ExponentSuffix([g, f])]
  {
    var ps := [g, f];
    CutParts(ps, arith, true, dec);
    assert [g + ExponentSuffix(ps)] + ps[2..] == [g + ExponentSuffix(ps)];
  }

  lemma CutParts(ps: seq<string>, arith: Arith, corrected: bool, dec: string)
    requires HasFraction(ps) && |ps[0]| + |CutText(ps, corrected)| > Budget(ps)
    requires dec == Slice(CutText(ps, corrected), CutEnd(ps, corrected))
    requires var pre := RoundTenthText("1" + dec, arith); !(|pre| > 0 && pre[0] == '2')
    ensures FinalParts(ps, arith, corrected)
         == RoundedParts(ps, DropFirst(RoundTenthText("1" + dec, arith)), corrected)
  {
  }

  /** A fraction of digits that does not fit the budget is cut so that the integer part and
      the fraction take fourteen characters, and rounded when the rounding does not carry.
      Corrected, the point goes when no fraction digit is left. */
  lemma RoundedFraction(g: string, f: string, arith: Arith, corrected: bool)
    requires AllDigits(f) && |g| <= MaxLength < |g| + |f|
    requires var d := MaxLength + 1 - |g|; NatOf(f[..d]) + 5 < Pow10(d)
    ensures var d := MaxLength + 1 - |g|;
      var parts := FinalParts([g, f], arith, corrected);
      && (d > 1 || !corrected ==> parts == [g, Digits(HalfUpTenth(NatOf(f[..d])), d - 1)])
      && (d == 1 && corrected ==> parts == [g])
  {
    var d := MaxLength + 1 - |g|;
    var dec := f[..d];
    var r := Digits(HalfUpTenth(NatOf(dec)), d - 1);
    FractionCut(g, f, corrected);
    KeptDigits(dec, arith);
    if d > 1 || !corrected {
      CutKeeps(g, f, arith, corrected, dec, r);
      assert r + "" == r;
    } else {
      CutKeepsNone(g, f, arith, dec);
      assert g + "" == g;
    }
  }

  /** A fraction of digits whose rounding carries: the integer part incremented, and the
      fraction gone. */
  lemma CarriedFraction(g: string, f: string, arith: Arith, corrected: bool)
    requires AllDigits(f) && |g| <= MaxLength < |g| + |f|
    requires var d := MaxLength + 1 - |g|; NatOf(f[..d]) + 5 >= Pow10(d)
    ensures FinalParts([g, f], arith, corrected) == [CarriedInteger(g, arith, corrected)]
  {
    var d := MaxLength + 1 - |g|;
    var dec := f[..d];
    FractionCut(g, f, corrected);
    PaddedCarries(dec, arith);
    CutCarries(g, f, arith, corrected, dec);
    var c := CarriedInteger(g, arith, corrected);
    assert c + "" == c;
  }

  /** Where a fraction of digits that does not fit the budget is cut. */
  lemma FractionCut(g: string, f: string, corrected: bool)
    requires AllDigits(f) && |g| <= MaxLength < |g| + |f|
    ensures var d := MaxLength + 1 - |g|;
      && HasFraction([g, f]) && |g| + |CutText([g, f], corrected)| > Budget([g, f])
      && ExponentSuffix([g, f]) == ""
      && Slice(CutText([g, f], corrected), CutEnd([g, f], corrected)) == f[..d]
      && AllDigits(f[..d])
  {
    var d := MaxLength + 1 - |g|;
    DigitsHoldNoMarks(f);
    assert !HasExponent([g, f]);
    assert Budget([g, f]) == MaxLength;
    assert CutText([g, f], corrected) == f && CutEnd([g, f], corrected) == d;
  }

  /** As written, an integer part longer than the budget makes the end of the cut zero or
      negative, and `slice` then counts `k` characters back from the end of the fraction. With
      an end of zero, or a fraction of at most `k` digits, nothing is kept and the point is
      left dangling; otherwise all but the last `k` fraction digits are kept and rounded. */
  lemma CutFromTheEnd(g: string, f: string, arith: Arith)
    requires AllDigits(f) && 1 <= |f| && MaxLength < |g|
    ensures var k := |g| - MaxLength - 1;
      var parts := FinalParts([g, f], arith, false);
      && (k == 0 || |f| <= k ==> parts == [g, ""])
      && (0 < k < |f| <= |g| ==>
            var d := |f| - k;
            var q := NatOf(f[..d]);
            && (q + 5 < Pow10(d) ==> parts == [g, Digits(HalfUpTenth(q), d - 1)])
            && (q + 5 >= Pow10(d) ==> parts == [CarriedInteger(g, arith, false)]))
  {
    var k := |g| - MaxLength - 1;
    DigitsHoldNoMarks(f);
    assert !HasExponent([g, f]);
    assert ExponentSuffix([g, f]) == "" && Budget([g, f]) == MaxLength;
    assert CutText([g, f], false) == f && CutEnd([g, f], false) == -k;
    if k == 0 || |f| <= k {
      assert Slice(f, -k) == "";
      assert "1" + "" == "1" && NatOf("1") == 1;
      assert DropFirst(RoundTenthText("1" + "", arith)) == "";
      CutKeeps(g, f, arith, false, "", "");
      assert FinalParts([g, f], arith, false) == [g, "" + ExponentSuffix([g, f])];
      assert "" + "" == "";
    } else if |f| <= |g| {
      var d := |f| - k;
      var dec := f[..d];
      assert Slice(f, -k) == dec;
      var pre := RoundTenthText("1" + dec, arith);
      if NatOf(dec) + 5 < Pow10(d) {
        KeptDigits(dec, arith);
        var r := Digits(HalfUpTenth(NatOf(dec)), d - 1);
        CutKeeps(g, f, arith, false, dec, r);
        assert r + "" == r;
      } else {
        PaddedCarries(dec, arith);
        CutCarries(g, f, arith, false, dec);
        var c := CarriedInteger(g, arith, false);
        assert c + "" == c;
      }
    }
  }

  /** Corrected, an integer part that fills the budget is rounded on the first fraction digit:
      it is kept, or incremented, and the fraction and point go. */
  lemma RoundedWhole(g: string, f: string, arith: Arith)
    requires AllDigits(f) && 1 <= |f| && MaxLength <= |g|
    ensures var parts := FinalParts([g, f], arith, true);
      && (NatOf(f[..1]) < 5 ==> parts == [g])
      && (NatOf(f[..1]) >= 5 ==> parts == [CarriedInteger(g, arith, true)])
  {
    var dec := f[..1];
    DigitsHoldNoMarks(f);
    assert !HasExponent([g, f]);
    assert ExponentSuffix([g, f]) == "" && Budget([g, f]) == MaxLength;
    assert CutText([g, f], true) == f && CutEnd([g, f], true) == 1;
    assert Slice(f, 1) == dec;
    assert Pow10(1) == 10;
    if NatOf(dec) < 5 {
      KeptDigits(dec, arith);
      CutKeepsNone(g, f, arith, dec);
      assert g + "" == g;
    } else {
      PaddedCarries(dec, arith);
      CutCarries(g, f, arith, true, dec);
      var c := CarriedInteger(g, arith, true);
      assert c + "" == c;
    }
  }

  /** A mantissa of digits with an exponent: the exponent's length comes off the budget, and
      the mantissa is cut and rounded and the exponent put back when the rounding does not
      carry. Corrected, the same holds as long as the cut keeps a digit. */
  lemma RoundedMantissa(g: string, m: string, x: string, arith: Arith, corrected: bool)
    requires AllDigits(m) && 'e' !in x
    requires |g| + |x| <= MaxLength && MaxLength + 1 - |x| - |g| <= |m|
    requires corrected ==> |g| + |x| < MaxLength
    requires var d := MaxLength + 1 - |x| - |g|; NatOf(m[..d]) + 5 < Pow10(d)
    ensures var d := MaxLength + 1 - |x| - |g|;
      FinalParts([g, m + "e" + x], arith, corrected) == [g, Digits(HalfUpTenth(NatOf(m[..d])), d - 1) + "e" + x]
  {
    var d := MaxLength + 1 - |x| - |g|;
    var f := m + "e" + x;
    var dec := m[..d];
    var r := Digits(HalfUpTenth(NatOf(dec)), d - 1);
    assert HasFraction([g, f]) && |g| + |CutText([g, f], corrected)| > Budget([g, f])
      && dec == Slice(CutText([g, f], corrected), CutEnd([g, f], corrected))
      && AllDigits(dec) && ExponentSuffix([g, f]) == "e" + x by {
      MantissaCut(g, m, x, corrected);
    }
    CutRounds(g, f, arith, dec, corrected);
    WithExponent(r, x);
  }

  /** Putting the exponent back after the kept digits. */
  lemma WithExponent(r: string, x: string)
    ensures r + ("e" + x) == r + "e" + x
  {
  }

  /** A cut whose rounding does not carry: the rounded digits and the exponent. Corrected,
      when at least one digit is kept. */
  lemma CutRounds(g: string, f: string, arith: Arith, dec: string, corrected: bool)
    requires HasFraction([g, f]) && |g| + |CutText([g, f], corrected)| > Budget([g, f])
    requires dec == Slice(CutText([g, f], corrected), CutEnd([g, f], corrected))
    requires AllDigits(dec) && 1 <= |dec| <= MaxLength + 1 && NatOf(dec) + 5 < Pow10(|dec|)
    requires corrected ==> |dec| >= 2
    ensures FinalParts([g, f], arith, corrected)
         == [g, Digits(HalfUpTenth(NatOf(dec)), |dec| - 1) + ExponentSuffix([g, f])]
  {
    KeptDigits(dec, arith);
    CutKeeps(g, f, arith, corrected, dec, Digits(HalfUpTenth(NatOf(dec)), |dec| - 1));
  }

  /** A mantissa of digits whose rounding carries: the integer part incremented, and the
      exponent kept only when corrected. */
  lemma CarriedMantissa(g: string, m: string, x: string, arith: Arith, corrected: bool)
    requires AllDigits(m) && 'e' !in x
    requires |g| + |x| <= MaxLength && MaxLength + 1 - |x| - |g| <= |m|
    requires var d := MaxLength + 1 - |x| - |g|; NatOf(m[..d]) + 5 >= Pow10(d)
    ensures FinalParts([g, m + "e" + x], arith, corrected)
         == [CarriedInteger(g, arith, corrected) + (if corrected then "e" + x else "")]
  {
    var d := MaxLength + 1 - |x| - |g|;
    var dec := m[..d];
    MantissaCut(g, m, x, corrected);
    PaddedCarries(dec, arith);
    CutCarries(g, m + "e" + x, arith, corrected, dec);
  }

  /** As written, a mantissa that fits the budget while the literal does not is cut inside
      its exponent. When the cut ends right after the `e`, or after `e-`, `+('1' + D)` is
      `NaN`, and the fraction is shown as `aN`, the tail of `NaN`. */
  lemma CutIntoExponent(g: string, m: string, x: string, arith: Arith)
    requires AllDigits(m) && 'e' !in x
    requires var d := MaxLength + 1 - |x| - |g|;
      d == |m| + 1 || (d == |m| + 2 && |x| >= 1 && x[0] == '-')
    ensures FinalParts([g, m + "e" + x], arith, false) == [g, "aN" + "e" + x]
  {
    var d := MaxLength + 1 - |x| - |g|;
    var f := m + "e" + x;
    ExponentCut(g, m, x, d);
    CutIsNaN(m, x, d, f[..d], arith);
    CutKeeps(g, f, arith, false, f[..d], "aN");
    WithExponent("aN", x);
  }

  /** Where the code as written cuts a literal whose mantissa alone fits the budget. */
  lemma ExponentCut(g: string, m: string, x: string, d: int)
    requires AllDigits(m) && 'e' !in x && d == MaxLength + 1 - |x| - |g|
    requires d == |m| + 1 || (d == |m| + 2 && |x| >= 1 && x[0] == '-')
    ensures var f := m + "e" + x;
      && 0 <= d <= |f|
      && HasFraction([g, f]) && |g| + |CutText([g, f], false)| > Budget([g, f])
      && Slice(CutText([g, f], false), CutEnd([g, f], false)) == f[..d]
      && ExponentSuffix([g, f]) == "e" + x
  {
    var f := m + "e" + x;
    ExponentOf(g, m, x);
    assert Budget([g, f]) == MaxLength - |x| && CutEnd([g, f], false) == d;
  }

  /** The cut `D` of `m + "e" + x` that ends right after the `e`, or after `e-`: `+('1' + D)` is
      `NaN`, so the rounding gives the text `NaN`. */
  lemma CutIsNaN(m: string, x: string, d: int, dec: string, arith: Arith)
    requires AllDigits(m)
    requires d == |m| + 1 || (d == |m| + 2 && |x| >= 1 && x[0] == '-')
    requires dec == (m + "e" + x)[..d]
    ensures RoundTenthText("1" + dec, arith) == "NaN" && DropFirst("NaN") == "aN"
  {
    var p := "1" + dec;
    NatOfLeadingOne(m);
    if d == |m| + 1 {
      assert p == "1" + m + "e" && p[..|p| - 1] == "1" + m;
    } else {
      assert p == "1" + m + "e-" && p[..|p| - 2] == "1" + m;
    }
    assert !AllDigits(p) by {
      assert p[|m| + 1] == 'e';
    }
    assert DanglingExponent(p);
  }

  /** Corrected, a mantissa whose digits fit the budget less the exponent's length is kept as
      it is, however long the exponent. */
  lemma FittingMantissa(g: string, m: string, x: string, arith: Arith)
    requires AllDigits(m) && 'e' !in x && |g| + |m| <= MaxLength - |x|
    ensures FinalParts([g, m + "e" + x], arith, true) == [g, m + "e" + x]
  {
    ExponentOf(g, m, x);
    assert CutText([g, m + "e" + x], true) == m;
  }

  /** Where the mantissa is cut: the budget less the exponent's length, less the integer part. */
  lemma MantissaCut(g: string, m: string, x: string, corrected: bool)
    requires AllDigits(m) && 'e' !in x
    requires |g| + |x| <= MaxLength && MaxLength + 1 - |x| - |g| <= |m|
    ensures var f := m + "e" + x;
      var d := MaxLength + 1 - |x| - |g|;
      && HasFraction([g, f]) && |g| + |CutText([g, f], corrected)| > Budget([g, f])
      && ExponentSuffix([g, f]) == "e" + x
      && Slice(CutText([g, f], corrected), CutEnd([g, f], corrected)) == m[..d]
      && AllDigits(m[..d])
  {
    var f := m + "e" + x;
    var d := MaxLength + 1 - |x| - |g|;
    ExponentOf(g, m, x);
    assert CutEnd([g, f], corrected) == d;
    assert f[..d] == m[..d];
  }

  /** The exponent of a mantissa of digits is what follows its `e`. */
  lemma ExponentOf(g: string, m: string, x: string)
    requires AllDigits(m) && 'e' !in x
    ensures HasExponent([g, m + "e" + x]) && Split(m + "e" + x, 'e') == [m, x]
    ensures ExponentDigits([g, m + "e" + x]) == x
  {
    var f := m + "e" + x;
    DigitsHoldNoMarks(m);
    assert Join([m, x], "e") == f by {
      assert [m, x][1..] == [x];
    }
    SplitJoin([m, x], 'e');
  }

  /** Removing the commas of grouped digits gives back the digits. */
  lemma UngroupedDigits(i: string)
    requires AllDigits(i)
    ensures RemoveAll(Thousands(i), ',') == i
  {
    GroupDigits(i);
    Ungroup(i);
    DigitsHoldNoMarks(i);
    RemoveAllSpec(i, ',');
  }

  /** Removing the commas of a grouped integer part gives back the literal's integer text. */
  lemma Ungrouped(s: string, i: string)
    requires Sign(s) && AllDigits(i)
    ensures RemoveAll(s + Thousands(i), ',') == s + i
  {
    UngroupedDigits(i);
    RemoveAllAppend(s, Thousands(i), ',');
    assert RemoveAll(s, ',') == s;
  }

  /** The digits of an integer part that fits the budget are exact as a JavaScript number. */
  lemma IntegerPartExact(s: string, i: string)
    requires Sign(s) && AllDigits(i) && |s + Thousands(i)| <= MaxLength
    ensures NatOf(i) + 1 < SafeLimit
  {
    GroupDigits(i);
    GroupUpToLength(i, |i|);
    Pow10Mono(|i|, MaxLength);
    Pow10Safe(MaxLength);
  }

  /** `(+t + 1).toString()` on the digits of an integer part that fits the budget. */
  lemma IncrementNat(i: string, arith: Arith)
    requires AllDigits(i) && |i| >= 1 && NatOf(i) + 1 < SafeLimit
    ensures IncrementText(i, arith) == NatText(NatOf(i) + 1)
  {
    assert IntLiteral(i) && IntOf(i) == NatOf(i);
    assert IncrementText(i, arith) == IntText(NatOf(i) + 1);
  }

  /** `(+t + 1).toString()` on a negative integer part that fits the budget. */
  lemma IncrementNegative(i: string, arith: Arith)
    requires AllDigits(i) && |i| >= 1 && NatOf(i) + 1 < SafeLimit
    ensures IncrementText("-" + i, arith) == IntText(1 - NatOf(i))
  {
    var t := "-" + i;
    assert IntLiteral(t) && IntOf(t) == 0 - NatOf(i) by {
      assert t[1..] == i;
    }
  }

  /** The carried integer part, as written: one is added to the signed value, so a negative
      part moves toward zero. */
  lemma CarriedAsWritten(s: string, i: string, arith: Arith)
    requires Sign(s) && AllDigits(i) && |i| >= 1 && |s + Thousands(i)| <= MaxLength
    ensures s == "" ==> CarriedInteger(s + Thousands(i), arith, false) == Thousands(NatText(NatOf(i) + 1))
    ensures s == "-" ==> CarriedInteger(s + Thousands(i), arith, false) == GroupThousands(IntText(1 - NatOf(i)))
  {
    if s == "" {
      assert s + Thousands(i) == Thousands(i);
      IntegerPartExact(s, i);
      Ungrouped(s, i);
      assert s + i == i;
      IncrementNat(i, arith);
      GroupDigits(NatText(NatOf(i) + 1));
    } else {
      CarriedAsWrittenNegative(i, arith);
    }
  }

  /** The carried negative integer part, as written: the grouped text of one minus the
      magnitude. */
  lemma CarriedAsWrittenNegative(i: string, arith: Arith)
    requires AllDigits(i) && |i| >= 1 && |"-" + Thousands(i)| <= MaxLength
    ensures CarriedInteger("-" + Thousands(i), arith, false) == GroupThousands(IntText(1 - NatOf(i)))
  {
    Ungrouped("-", i);
    IntegerPartExact("-", i);
    IncrementNegative(i, arith);
  }

  /** The carried integer part, corrected: the magnitude goes up by one, whatever the sign. */
  lemma CarriedCorrected(s: string, i: string, arith: Arith)
    requires Sign(s) && AllDigits(i) && |i| >= 1 && |s + Thousands(i)| <= MaxLength
    ensures CarriedInteger(s + Thousands(i), arith, true) == s + Thousands(NatText(NatOf(i) + 1))
  {
    IntegerPartExact(s, i);
    CarriedCorrectedExact(s, i, arith);
  }

  /** The same for any integer part whose increment is still exact. */
  lemma CarriedCorrectedExact(s: string, i: string, arith: Arith)
    requires Sign(s) && AllDigits(i) && |i| >= 1 && NatOf(i) + 1 < SafeLimit
    ensures CarriedInteger(s + Thousands(i), arith, true) == s + Thousands(NatText(NatOf(i) + 1))
  {
    if s == "" {
      assert s + Thousands(i) == Thousands(i);
      CarriedCorrectedNat(i, arith);
    } else {
      CarriedCorrectedNegative(i, arith);
    }
  }

  lemma CarriedCorrectedNat(i: string, arith: Arith)
    requires AllDigits(i) && |i| >= 1 && NatOf(i) + 1 < SafeLimit
    ensures CarriedInteger(Thousands(i), arith, true) == Thousands(NatText(NatOf(i) + 1))
  {
    UngroupedDigits(i);
    IncrementNat(i, arith);
    GroupDigits(i);
    GroupUpToFirst(i, |i|);
    assert IsDigit(Thousands(i)[0]);
    GroupDigits(NatText(NatOf(i) + 1));
  }

  lemma CarriedCorrectedNegative(i: string, arith: Arith)
    requires AllDigits(i) && |i| >= 1 && NatOf(i) + 1 < SafeLimit
    ensures CarriedInteger("-" + Thousands(i), arith, true) == "-" + Thousands(NatText(NatOf(i) + 1))
  {
    var g := "-" + Thousands(i);
    assert g[1..] == Thousands(i);
    UngroupedDigits(i);
    IncrementNat(i, arith);
    GroupSigned("-", NatText(NatOf(i) + 1));
  }

  /** Grouping never puts a comma first. */
  lemma {:induction false} GroupUpToFirst(s: string, j: nat)
    requires 1 <= j <= |s|
    ensures |GroupUpTo(s, j)| >= 1 && GroupUpTo(s, j)[0] == s[0]
  {
    if j > 1 {
      GroupUpToFirst(s, j - 1);
    } else {
      assert !CommaBefore(s, 0);
    }
  }
}
