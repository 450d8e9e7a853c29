/** The thousands-grouping regular expression, related to the usual definition of grouping. */
module Grouping {
  import opened Text
  import opened Format

  /** On a digit string, the digit run from any position reaches the end. */
  lemma {:induction false} DigitRunOfDigits(d: string, p: nat)
    requires AllDigits(d) && p <= |d|
    ensures DigitRun(d, p) == |d| - p
    decreases |d| - p
  {
    if p < |d| {
      DigitRunOfDigits(d, p + 1);
    }
  }

  /** On a digit string, the pattern matches exactly at the inner positions whose distance to
      the end is a multiple of three. */
  lemma CommaBeforeDigits(d: string, p: nat)
    requires AllDigits(d) && p <= |d|
    ensures CommaBefore(d, p) <==> 0 < p < |d| && (|d| - p) % 3 == 0
  {
    DigitRunOfDigits(d, p);
  }

  /** Cutting a multiple of three digits off the end does not move the commas before the cut. */
  lemma {:induction false} GroupPrefix(d: string, k: nat, j: nat)
    requires AllDigits(d) && j <= k <= |d| && (|d| - k) % 3 == 0
    ensures GroupUpTo(d, j) == GroupUpTo(d[..k], j)
  {
    if j > 0 {
      GroupPrefix(d, k, j - 1);
      CommaBeforeDigits(d, j - 1);
      CommaBeforeDigits(d[..k], j - 1);
      assert d[..k][j - 1] == d[j - 1];
    }
  }

  /** Up to three digits get no comma. */
  lemma {:induction false} GroupShort(d: string, j: nat)
    requires AllDigits(d) && |d| <= 3 && j <= |d|
    ensures GroupUpTo(d, j) == d[..j]
  {
    if j > 0 {
      GroupShort(d, j - 1);
      CommaBeforeDigits(d, j - 1);
      assert d[..j] == d[..j - 1] + [d[j - 1]];
    }
  }

  /** One more character: its comma, if the pattern matches before it, and the character. */
  lemma GroupStep(s: string, j: nat, comma: bool)
    requires j < |s| && comma == CommaBefore(s, j)
    ensures GroupUpTo(s, j + 1) == GroupUpTo(s, j) + (if comma then [',', s[j]] else [s[j]])
  {
  }

  /** The last three of more than three digits are set off by a comma. */
  lemma LastThree(d: string)
    requires AllDigits(d) && |d| > 3
    ensures GroupThousands(d) == GroupUpTo(d, |d| - 3) + "," + d[|d| - 3..]
  {
    LastCommas(d);
    GroupThreeSteps(d, |d| - 3);
  }

  /** Of the last three positions of a digit string, the pattern matches only before the first. */
  lemma LastCommas(d: string)
    requires AllDigits(d) && |d| > 3
    ensures CommaBefore(d, |d| - 3) && !CommaBefore(d, |d| - 2) && !CommaBefore(d, |d| - 1)
  {
    CommaBeforeDigits(d, |d| - 3);
    CommaBeforeDigits(d, |d| - 2);
    CommaBeforeDigits(d, |d| - 1);
  }

  /** Three more characters with a comma before the first of them only. */
  lemma GroupThreeSteps(s: string, j: nat)
    requires j + 3 <= |s|
    requires CommaBefore(s, j) && !CommaBefore(s, j + 1) && !CommaBefore(s, j + 2)
    ensures GroupUpTo(s, j + 3) == GroupUpTo(s, j) + "," + s[j..j + 3]
  {
    GroupStep(s, j, true);
    GroupStep(s, j + 1, false);
    GroupStep(s, j + 2, false);
    assert s[j..j + 3] == [s[j], s[j + 1], s[j + 2]];
  }

  /** The regular expression groups a digit string exactly as `Thousands` does. */
  lemma {:induction false} GroupDigits(d: string)
    requires AllDigits(d)
    ensures GroupThousands(d) == Thousands(d)
    decreases |d|
  {
    var n := |d|;
    if n <= 3 {
      GroupShort(d, n);
      assert d[..n] == d;
    } else {
      var h := d[..n - 3];
      GroupDigits(h);
      GroupPrefix(d, n - 3, n - 3);
      LastThree(d);
    }
  }

  /** A minus sign is not a word character, so no comma follows it, and the digits after it
      are grouped as on their own. */
  lemma {:induction false} GroupAfterMinus(d: string, j: nat)
    requires AllDigits(d) && j <= |d|
    ensures GroupUpTo("-" + d, j + 1) == "-" + GroupUpTo(d, j)
  {
    var s := "-" + d;
    if j == 0 {
      assert GroupUpTo(s, 0) == "";
      assert !CommaBefore(s, 0);
    } else {
      GroupAfterMinus(d, j - 1);
      assert s[j] == d[j - 1];
      DigitRunOfDigits(d, j - 1);
      assert s[1..] == d;
      if j >= 2 {
        assert s[j - 1] == d[j - 2];
        assert DigitRun(s, j) == DigitRun(d, j - 1) by {
          DigitRunShift(d, j - 1);
        }
      } else {
        assert s[0] == '-';
      }
    }
  }

  /** Positions after a leading minus see the same digit run. */
  lemma {:induction false} DigitRunShift(d: string, p: nat)
    requires p <= |d|
    ensures DigitRun("-" + d, p + 1) == DigitRun(d, p)
    decreases |d| - p
  {
    var s := "-" + d;
    if p < |d| {
      assert s[p + 1] == d[p];
      DigitRunShift(d, p + 1);
    }
  }

  /** The integer part of a decimal literal, optionally signed, is grouped by `Thousands`. */
  lemma GroupSigned(sign: string, d: string)
    requires sign == "" || sign == "-"
    requires AllDigits(d)
    ensures GroupThousands(sign + d) == sign + Thousands(d)
  {
    GroupDigits(d);
    if sign == "-" {
      GroupAfterMinus(d, |d|);
    } else {
      assert sign + d == d;
    }
  }

  /** Grouping only inserts commas: removing every comma undoes it, for any text. */
  lemma {:induction false} UngroupUpTo(s: string, j: nat)
    requires j <= |s|
    ensures RemoveAll(GroupUpTo(s, j), ',') == RemoveAll(s[..j], ',')
  {
    if j > 0 {
      UngroupUpTo(s, j - 1);
      var g := GroupUpTo(s, j - 1);
      var c := if CommaBefore(s, j - 1) then "," else "";
      var x := [s[j - 1]];
      assert GroupUpTo(s, j) == (g + c) + x;
      RemoveAllAppend(g + c, x, ',');
      RemoveAllAppend(g, c, ',');
      assert RemoveAll(c, ',') == "";
      assert s[..j] == s[..j - 1] + x;
      RemoveAllAppend(s[..j - 1], x, ',');
    }
  }

  lemma Ungroup(s: string)
    ensures RemoveAll(GroupThousands(s), ',') == RemoveAll(s, ',')
  {
    UngroupUpTo(s, |s|);
    assert s[..|s|] == s;
  }

  /** A digit run stops at a character that is not a digit. */
  lemma {:induction false} DigitRunAppend(p: string, t: string, q: nat)
    requires q <= |p| && |t| > 0 && !IsDigit(t[0])
    ensures DigitRun(p + t, q) == DigitRun(p, q)
    decreases |p| - q
  {
    var w := p + t;
    if q < |p| {
      assert w[q] == p[q];
      DigitRunAppend(p, t, q + 1);
    } else {
      assert w[q] == t[0];
    }
  }

  /** A digit run in a suffix does not depend on what comes before it. */
  lemma {:induction false} DigitRunAfter(a: string, x: string, q: nat)
    requires q <= |x|
    ensures DigitRun(a + x, |a| + q) == DigitRun(x, q)
    decreases |x| - q
  {
    if q < |x| {
      assert (a + x)[|a| + q] == x[q];
      DigitRunAfter(a, x, q + 1);
    }
  }

  /** In front of a character that is not a digit, the text is grouped as on its own. */
  lemma {:induction false} GroupBeforeMark(p: string, t: string, j: nat)
    requires j <= |p| && |t| > 0 && !IsDigit(t[0])
    ensures GroupUpTo(p + t, j) == GroupUpTo(p, j)
  {
    if j > 0 {
      GroupBeforeMark(p, t, j - 1);
      DigitRunAppend(p, t, j - 1);
      assert (p + t)[j - 1] == p[j - 1];
      if j >= 2 {
        assert (p + t)[j - 2] == p[j - 2];
      }
    }
  }

  /** After an `e` (a word character), the pattern matches before every digit whose distance
      to the end of the digits is a multiple of three, the first digit included. */
  lemma CommaInExponent(a: string, x: string, q: nat)
    requires |a| >= 1 && a[|a| - 1] == 'e' && AllDigits(x) && q < |x|
    ensures CommaBefore(a + x, |a| + q) <==> (|x| - q) % 3 == 0
  {
    var w := a + x;
    DigitRunAfter(a, x, q);
    DigitRunOfDigits(x, q);
    if q == 0 {
      assert w[|a| - 1] == 'e';
    } else {
      assert w[|a| + q - 1] == x[q - 1];
    }
  }

  /** The text up to and including the `e` is grouped as on its own. */
  lemma GroupUpToMark(p: string, x: string)
    ensures GroupUpTo(p + "e" + x, |p| + 1) == GroupThousands(p) + "e"
  {
    var w := p + "e" + x;
    assert w == p + ("e" + x);
    GroupBeforeMark(p, "e" + x, |p|);
    assert w[|p|] == 'e';
    GroupStep(w, |p|, false);
  }

  /** The digits after an `e` are grouped as on their own, except that the pattern also
      matches right after the `e` when their number is a multiple of three. */
  lemma {:induction false} GroupAfterMark(a: string, x: string, k: nat)
    requires |a| >= 1 && a[|a| - 1] == 'e' && AllDigits(x) && 0 < k <= |x|
    ensures GroupUpTo(a + x, |a| + k)
         == GroupUpTo(a + x, |a|) + (if |x| % 3 == 0 then "," else "") + GroupUpTo(x, k)
  {
    var w := a + x;
    CommaInExponent(a, x, k - 1);
    assert w[|a| + k - 1] == x[k - 1];
    GroupStep(w, |a| + k - 1, CommaBefore(w, |a| + k - 1));
    if k == 1 {
      GroupStep(x, 0, false);
    } else {
      GroupAfterMark(a, x, k - 1);
      CommaBeforeDigits(x, k - 1);
      GroupStep(x, k - 1, CommaBefore(x, k - 1));
    }
  }

  /** As written, text with an `e` followed by digits: the text before the `e` is grouped as on
      its own, and so are the digits after it, with a comma right after the `e` when there are
      three of them (or six, ...). */
  lemma GroupExponent(p: string, x: string)
    requires AllDigits(x) && |x| >= 1
    ensures GroupThousands(p + "e" + x)
         == GroupThousands(p) + "e" + (if |x| % 3 == 0 then "," else "") + Thousands(x)
  {
    var a := p + "e";
    GroupUpToMark(p, x);
    GroupExponentDigits(a, x);
  }

  /** The digits after an `e`, grouped at the end of the text. */
  lemma GroupExponentDigits(a: string, x: string)
    requires |a| >= 1 && a[|a| - 1] == 'e' && AllDigits(x) && |x| >= 1
    ensures GroupThousands(a + x)
         == GroupUpTo(a + x, |a|) + (if |x| % 3 == 0 then "," else "") + Thousands(x)
  {
    var w := a + x;
    GroupWhole(w, |a| + |x|);
    GroupAfterMark(a, x, |x|);
    GroupDigits(x);
  }

  lemma GroupWhole(s: string, n: nat)
    requires n == |s|
    ensures GroupThousands(s) == GroupUpTo(s, n)
  {
  }

  /** Grouping keeps every character of the text. */
  lemma {:induction false} GroupKeeps(s: string, j: nat, c: char)
    requires j <= |s| && c in s[..j]
    ensures c in GroupUpTo(s, j)
  {
    if s[j - 1] != c {
      assert s[..j] == s[..j - 1] + [s[j - 1]];
      GroupKeeps(s, j - 1, c);
    }
  }

  /** Grouping never shortens the text. */
  lemma {:induction false} GroupUpToLength(s: string, j: nat)
    requires j <= |s|
    ensures |GroupUpTo(s, j)| >= j
  {
    if j > 0 {
      GroupUpToLength(s, j - 1);
    }
  }
}
