/** `formatNumber`: the display form of a numeric literal. The integer part is grouped in
    threes with commas; a fraction that does not fit a 14-character budget is cut and
    rounded half-up, and a round-up that overflows the fraction is carried into the integer
    part; an `e` exponent shrinks the budget and is kept.

    JavaScript arithmetic enters twice, both times on text: `Math.round(+p / 10).toString()`
    and `(+t + 1).toString()`. Both are computed exactly with naturals where JavaScript is
    exact (integer text whose value is below 2^53). A cut that ends just after an `e`, or
    after `e-`, leaves text that `+p` reads as `NaN`, and that is modelled too. Anything else
    (larger values, a cut that ends among the exponent digits) is handed to the
    uninterpreted functions of an `Arith` value. */
module Format {
  import opened Text
  import opened Numerals

  /** The character budget for the integer part plus the fraction. */
  const MaxLength: nat := 14

  /** JavaScript arithmetic outside the exactly modelled range. */
  datatype Arith = Arith(roundTenth: string -> string, increment: string -> string)

  /** The length of the run of digits that starts at position `p`. */
  function DigitRun(s: string, p: nat): nat
    decreases |s| - p
  {
    if p < |s| && IsDigit(s[p]) then 1 + DigitRun(s, p + 1) else 0
  }

  /** Where `/\B(?=(\d{3})+(?!\d))/g` matches: not a word boundary, and a run of digits whose
      length is a positive multiple of three up to the next non-digit. Since a digit is a word
      character, the position must follow a word character. */
  predicate CommaBefore(s: string, p: nat) {
    && 0 < p < |s|
    && IsWordChar(s[p - 1])
    && DigitRun(s, p) > 0
    && DigitRun(s, p) % 3 == 0
  }

  /** The first `j` characters of `s`, each preceded by a comma where the pattern matches. */
  function GroupUpTo(s: string, j: nat): string
    requires j <= |s|
  {
    if j == 0 then ""
    else GroupUpTo(s, j - 1) + (if CommaBefore(s, j - 1) then "," else "") + [s[j - 1]]
  }

  /** `s.replace(/\B(?=(\d{3})+(?!\d))/g, ',')`. */
  function GroupThousands(s: string): string {
    GroupUpTo(s, |s|)
  }

  /** Thousands grouping of a digit string, by its usual definition: commas between groups of
      three counted from the right. */
  function Thousands(d: string): string
    decreases |d|
  {
    if |d| <= 3 then d else Thousands(d[..|d| - 3]) + "," + d[|d| - 3..]
  }

  /** `n / 10` rounded half-up, as `Math.round` does for a non-negative quotient. */
  function HalfUpTenth(n: nat): nat {
    (n + 5) / 10
  }

  /** Digits followed by an `e`, or by an `e` and a sign, with no exponent digits: text that
      `+p` reads as `NaN`. */
  predicate DanglingExponent(p: string) {
    || (|p| >= 2 && p[|p| - 1] == 'e' && AllDigits(p[..|p| - 1]))
    || (|p| >= 3 && (p[|p| - 1] == '-' || p[|p| - 1] == '+') && p[|p| - 2] == 'e'
        && AllDigits(p[..|p| - 2]))
  }

  /** `Math.round(+p / 10).toString()`. For digit text below 2^53, `+p` is exact, and the
      quotient by ten is a double whose error (at most 1/16) cannot cross a half, so the
      result is `p` divided by ten rounded half-up. A dangling exponent makes every step
      `NaN`. */
  function RoundTenthText(p: string, arith: Arith): string {
    if |p| > 0 && AllDigits(p) && NatOf(p) < SafeLimit then NatText(HalfUpTenth(NatOf(p)))
    else if DanglingExponent(p) then "NaN"
    else arith.roundTenth(p)
  }

  /** `(+t + 1).toString()`. For integer text of magnitude below 2^53 both steps are exact. */
  function IncrementText(t: string, arith: Arith): string {
    if IntLiteral(t) && -(SafeLimit as int) < IntOf(t) < SafeLimit then IntText(IntOf(t) + 1)
    else arith.increment(t)
  }

  /** `parts[0].replace(/\B(?=(\d{3})+(?!\d))/g, ',')`. When `corrected`, only the digits in
      front of an `e` are grouped, so that the exponent of `1e+100` gets no comma. */
  function GroupedInteger(p: string, corrected: bool): string {
    if corrected && 'e' in p then
      var k := IndexOf(p, 'e');
      GroupThousands(p[..k]) + p[k..]
    else GroupThousands(p)
  }

  /** `n.replace('+', '').split('.')` with the integer part grouped. */
  function GroupedParts(n: string, corrected: bool): (parts: seq<string>)
    ensures |parts| >= 1
  {
    var ps := Split(RemoveFirst(n, '+'), '.');
    ps[0 := GroupedInteger(ps[0], corrected)]
  }

  /** `parts[1]` is truthy: there is a fraction and it is not empty. */
  predicate HasFraction(parts: seq<string>) {
    |parts| > 1 && parts[1] != ""
  }

  predicate HasExponent(parts: seq<string>) {
    HasFraction(parts) && 'e' in parts[1]
  }

  /** `spl[1]` for `spl = parts[1].split('e')`: the text after the first `e`, up to a second one. */
  function ExponentDigits(parts: seq<string>): string
    requires HasExponent(parts)
  {
    SplitAtSeparator(parts[1], 'e');
    Split(parts[1], 'e')[1]
  }

  /** `maxOverallLength` once the exponent has been accounted for. */
  function Budget(parts: seq<string>): int {
    if HasExponent(parts) then MaxLength - |ExponentDigits(parts)| else MaxLength
  }

  /** `e`: the exponent suffix to put back after rounding. */
  function ExponentSuffix(parts: seq<string>): string {
    if HasExponent(parts) then "e" + ExponentDigits(parts) else ""
  }

  /** The text whose length is tested against the budget and which is cut: `parts[1]`, exponent
      included. When `corrected`, only the mantissa before the `e`, so that the cut never
      reaches into the exponent. */
  function CutText(parts: seq<string>, corrected: bool): string
    requires HasFraction(parts)
  {
    if corrected && HasExponent(parts) then Split(parts[1], 'e')[0] else parts[1]
  }

  /** `maxOverallLength - parts[0].length + 1`, the end of the cut. When `corrected`, at least
      one, so that an integer part that fills the budget is rounded on the first fraction digit
      rather than `slice` counting back from the end of the fraction. */
  function CutEnd(parts: seq<string>, corrected: bool): int
    requires |parts| >= 1
  {
    var end := Budget(parts) - |parts[0]| + 1;
    if corrected && end < 1 then 1 else end
  }

  /** `parts[1] = rounded + e` when the rounding does not carry. When `corrected` and no digit
      is left, the point goes with the fraction, as it does on a carry. */
  function RoundedParts(parts: seq<string>, rounded: string, corrected: bool): seq<string>
    requires |parts| >= 2
  {
    if corrected && rounded == "" then [parts[0] + ExponentSuffix(parts)] + parts[2..]
    else parts[1 := rounded + ExponentSuffix(parts)]
  }

  /** The integer part after a round-up that overflows the fraction:
      `(+parts[0].replace(/,/g, '') + 1).toString()`, grouped again. When `corrected`, a
      negative integer part is incremented in magnitude instead (see `FormatNumberCorrected`). */
  function CarriedInteger(intPart: string, arith: Arith, corrected: bool): string {
    if corrected && |intPart| > 0 && intPart[0] == '-' then
      GroupThousands("-" + IncrementText(RemoveAll(intPart[1..], ','), arith))
    else
      GroupThousands(IncrementText(RemoveAll(intPart, ','), arith))
  }

  /** The `parts` array as `formatNumber` leaves it, given the grouped parts: the fraction cut
      and rounded when it does not fit, or the integer part incremented and the last part
      dropped when the rounding carries. When `corrected`, the exponent is kept on the
      incremented integer part, and the changes of `CutText`, `CutEnd` and `RoundedParts`
      apply. */
  function FinalParts(parts: seq<string>, arith: Arith, corrected: bool): seq<string>
    requires |parts| >= 1
  {
    var maxOverallLength := Budget(parts);
    if HasFraction(parts) && |parts[0]| + |CutText(parts, corrected)| > maxOverallLength then
      var decimalPart := Slice(CutText(parts, corrected), CutEnd(parts, corrected));
      var preRounded := RoundTenthText("1" + decimalPart, arith);
      if |preRounded| > 0 && preRounded[0] == '2' then
        var exponent := if corrected then ExponentSuffix(parts) else "";
        var carried := parts[0 := CarriedInteger(parts[0], arith, corrected) + exponent];
        carried[..|carried| - 1]
      else
        RoundedParts(parts, DropFirst(preRounded), corrected)
    else
      parts
  }

  /** `formatNumber(n)` for the text `n`, as written. */
  function FormatNumber(n: string, arith: Arith): string {
    Join(FinalParts(GroupedParts(n, false), arith, false), ".")
  }

  /** `formatNumber` corrected where the code as written evidently departs from its intent:
      - on a carry, a negative number moves away from zero, so that `-0.99999999999999`
        becomes `-1` rather than `1`, and an exponent is kept, so that `9.99999999999999e-7`
        becomes `10e-7` rather than `10`;
      - an integer part of fourteen or more characters is rounded on the first fraction
        digit, so that `123456789012.5` becomes `123,456,789,013` rather than
        `123,456,789,012.`;
      - a rounding that keeps no digit drops the point, so that `12345678901.4` becomes
        `12,345,678,901` rather than `12,345,678,901.`;
      - only the mantissa counts against the budget, so that `9.1234567891e-7` stays as it is
        rather than becoming `9.aNe-7`;
      - the digits of an exponent written after an integer are not grouped, so that `1e+100`
        becomes `1e100` rather than `1e,100`. */
  function FormatNumberCorrected(n: string, arith: Arith): string {
    Join(FinalParts(GroupedParts(n, true), arith, true), ".")
  }
}
