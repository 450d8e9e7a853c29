/** Decimal text and the numbers it denotes, for the places where JavaScript's number
    arithmetic on such text is exact (integers below 2^53). */
module Numerals {
  import opened Text

  /** 2^53: every integer below it is a JavaScript number without rounding. */
  const SafeLimit: nat := 9007199254740992

  function DigitValue(c: char): (d: nat)
    requires IsDigit(c)
    ensures d < 10
  {
    (c as int - '0' as int) as nat
  }

  function DigitChar(d: nat): (c: char)
    requires d < 10
    ensures IsDigit(c) && DigitValue(c) == d
  {
    (d + '0' as int) as char
  }

  function Pow10(k: nat): (p: nat)
    ensures p >= 1
  {
    if k == 0 then 1 else 10 * Pow10(k - 1)
  }

  /** The value of a digit string, read most significant digit first; `""` reads as 0. */
  function NatOf(s: string): (n: nat)
    requires AllDigits(s)
    ensures n < Pow10(|s|)
  {
    if |s| == 0 then 0 else 10 * NatOf(s[..|s| - 1]) + DigitValue(s[|s| - 1])
  }

  /** The last `w` decimal digits of `n`, with leading zeros. */
  function Digits(n: nat, w: nat): (s: string)
    ensures |s| == w && AllDigits(s)
  {
    if w == 0 then "" else Digits(n / 10, w - 1) + [DigitChar(n % 10)]
  }

  /** `n.toString()` for an integer `n` below 1e21: its digits without leading zeros. */
  function NatText(n: nat): (s: string)
    ensures |s| >= 1 && AllDigits(s)
    ensures NatOf(s) == n
    ensures |s| > 1 ==> s[0] != '0'
  {
    if n < 10 then [DigitChar(n)]
    else
      var s := NatText(n / 10) + [DigitChar(n % 10)];
      assert s[..|s| - 1] == NatText(n / 10);
      s
  }

  /** Text that JavaScript's `+t` reads as an integer: digits (possibly none), after an optional minus sign. */
  predicate IntLiteral(t: string) {
    AllDigits(t) || (|t| >= 2 && t[0] == '-' && AllDigits(t[1..]))
  }

  function IntOf(t: string): int
    requires IntLiteral(t)
  {
    if |t| > 0 && t[0] == '-' then 0 - NatOf(t[1..]) else NatOf(t)
  }

  /** `i.toString()` for an integer of magnitude below 1e21. */
  function IntText(i: int): (s: string)
    ensures IntLiteral(s) && IntOf(s) == i
  {
    if i < 0 then
      var s := "-" + NatText(-i);
      assert s[1..] == NatText(-i);
      s
    else NatText(i)
  }

  lemma {:induction false} NatOfAppend(s: string, c: char)
    requires AllDigits(s) && IsDigit(c)
    ensures AllDigits(s + [c]) && NatOf(s + [c]) == 10 * NatOf(s) + DigitValue(c)
  {
    assert (s + [c])[..|s|] == s;
  }

  /** Reading back the digits of a number that fits the width gives the number. */
  lemma {:induction false} NatOfDigits(n: nat, w: nat)
    requires n < Pow10(w)
    ensures NatOf(Digits(n, w)) == n
  {
    if w > 0 {
      NatOfDigits(n / 10, w - 1);
      var d := Digits(n / 10, w - 1);
      NatOfAppend(d, DigitChar(n % 10));
      assert Digits(n, w) == d + [DigitChar(n % 10)];
    }
  }

  /** Writing a digit string's value back at its own width gives the string. */
  lemma {:induction false} DigitsNatOf(s: string)
    requires AllDigits(s)
    ensures Digits(NatOf(s), |s|) == s
    decreases |s|
  {
    if |s| > 0 {
      var p := s[..|s| - 1];
      var c := s[|s| - 1];
      DigitsNatOf(p);
      var n := NatOf(s);
      assert n / 10 == NatOf(p) && n % 10 == DigitValue(c);
      assert DigitChar(DigitValue(c)) == c;
      assert s == p + [c];
    }
  }

  /** A leading `1` in front of `k` digits adds 10^k. */
  lemma {:induction false} NatOfLeadingOne(s: string)
    requires AllDigits(s)
    ensures AllDigits("1" + s) && NatOf("1" + s) == Pow10(|s|) + NatOf(s)
    decreases |s|
  {
    if |s| > 0 {
      var p := s[..|s| - 1];
      NatOfLeadingOne(p);
      assert "1" + s == ("1" + p) + [s[|s| - 1]];
      NatOfAppend("1" + p, s[|s| - 1]);
    }
  }

  /** The text of 10^k + r, for r < 10^k, is `1` followed by r at width k. */
  lemma {:induction false} NatTextLeadingOne(k: nat, r: nat)
    requires r < Pow10(k)
    ensures NatText(Pow10(k) + r) == "1" + Digits(r, k)
  {
    if k > 0 {
      var x := Pow10(k) + r;
      assert x / 10 == Pow10(k - 1) + r / 10 && x % 10 == r % 10;
      NatTextLeadingOne(k - 1, r / 10);
    }
  }

  /** The text of 2 * 10^k starts with `2`. */
  lemma {:induction false} NatTextLeadingTwo(k: nat)
    ensures NatText(2 * Pow10(k))[0] == '2'
  {
    if k > 0 {
      var x := 2 * Pow10(k);
      assert x / 10 == 2 * Pow10(k - 1) && x % 10 == 0;
      NatTextLeadingTwo(k - 1);
    }
  }

  lemma {:induction false} Pow10Mono(a: nat, b: nat)
    requires a <= b
    ensures Pow10(a) <= Pow10(b)
    decreases b
  {
    if a < b {
      Pow10Mono(a, b - 1);
    }
  }

  /** Twice 10^15 is still below 2^53, so up to sixteen digits led by a `1` are exact. */
  lemma Pow10Safe(k: nat)
    requires k <= 15
    ensures 2 * Pow10(k) < SafeLimit
  {
    Pow10Mono(k, 15);
    assert Pow10(15) == 1000000000000000;
  }

  /** A run of `k` nines is 10^k - 1. */
  lemma {:induction false} AllNines(s: string)
    requires forall k :: 0 <= k < |s| ==> s[k] == '9'
    ensures AllDigits(s) && NatOf(s) + 1 == Pow10(|s|)
    decreases |s|
  {
    if |s| > 0 {
      AllNines(s[..|s| - 1]);
    }
  }
}
