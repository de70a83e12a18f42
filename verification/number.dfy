/** ECMAScript number values as the downloader meets them: exact reals for
    finite values, plus NaN and the two infinities. Covers truthiness,
    Math.round, Math.floor, the `%` operator, relational comparison against a
    constant, and parseFloat. */
module Number {
  import opened Text

  datatype Number = Finite(value: real) | NaN | Infinity(positive: bool)

  /** ToBoolean: 0 and NaN are falsy, every other number is truthy. */
  predicate Truthy(n: Number) {
    match n
    case Finite(v) => v != 0.0
    case NaN => false
    case Infinity(_) => true
  }

  /** `n > c` for a finite constant c: false whenever n is NaN. */
  predicate Above(n: Number, c: real) {
    match n
    case Finite(v) => v > c
    case NaN => false
    case Infinity(positive) => positive
  }

  function Negate(n: Number): Number {
    match n
    case Finite(v) => Finite(-v)
    case NaN => NaN
    case Infinity(positive) => Infinity(!positive)
  }

  /** Math.round on a finite value: the nearest integer, halves rounded up
      (towards +infinity, so -2.5 rounds to -2). */
  function Round(x: real): (r: int)
    ensures r as real - 0.5 <= x < r as real + 0.5
  {
    (x + 0.5).Floor
  }

  /** Math.round picks the one integer within a half below and strictly less
      than a half above its argument. */
  lemma RoundIsUnique(x: real, k: int)
    ensures Round(x) == k <==> k as real - 0.5 <= x < k as real + 0.5
  {
  }

  /** Truncation towards zero, the rounding of the `%` operator. */
  function Trunc(x: real): (r: int)
    ensures 0.0 <= x ==> r as real <= x < r as real + 1.0
    ensures x < 0.0 ==> r as real - 1.0 < x <= r as real
  {
    if x >= 0.0 then x.Floor else -((-x).Floor)
  }

  /** The `%` operator with divisor 60 on a finite value: the remainder
      takes the sign of the dividend (truncated division), unlike Dafny's
      Euclidean `%`. */
  function Rem60(a: real): (r: real)
    ensures 0.0 <= a ==> 0.0 <= r < 60.0
    ensures a < 0.0 ==> -60.0 < r <= 0.0
    // a differs from the remainder by a whole multiple of 60
    ensures ((a - r) / 60.0).Floor as real == (a - r) / 60.0
  {
    var q := Trunc(a / 60.0);
    a - 60.0 * q as real
  }

  // ---------------------------------------------------------------------------
  // parseFloat

  /** Length of the run of decimal digits at the start of s. */
  function DigitRun(s: string): (n: nat)
    ensures n <= |s| && AllDigits(s[..n])
    ensures n < |s| ==> !IsDigit(s[n])
    decreases |s|
  {
    if |s| > 0 && IsDigit(s[0]) then
      var n := 1 + DigitRun(s[1..]);
      assert s[..n] == [s[0]] + s[1..][..n - 1];
      n
    else 0
  }

  /** The power of ten for a possibly negative exponent. */
  function Pow10(e: int): (r: real)
    ensures r > 0.0
  {
    if e >= 0 then Pow(10, e) as real else 1.0 / Pow(10, -e) as real
  }

  /** The exponent of an ExponentPart (`e`/`E`, optional sign, at least one
      digit) at the start of s; 0 when s does not start with one, in which
      case parseFloat stops before the `e`. */
  function ScanExponent(s: string): (e: int)
    ensures |s| == 0 || (s[0] != 'e' && s[0] != 'E') ==> e == 0
  {
    if |s| >= 2 && (s[0] == 'e' || s[0] == 'E') then
      var signed := s[1] == '+' || s[1] == '-';
      var body := if signed then s[2..] else s[1..];
      var n := DigitRun(body);
      if n == 0 then 0
      else
        var v: int := DigitsValue(body[..n]);
        if s[1] == '-' then -v else v
    else 0
  }

  const InfinityText := "Infinity"

  /** The value of a decimal literal `whole.fraction` times ten to the exponent. */
  function DecimalValue(whole: string, fraction: string, exponent: int): (v: real)
    requires AllDigits(whole) && AllDigits(fraction)
    ensures 0.0 <= v
  {
    var mantissa := DigitsValue(whole) as real + DigitsValue(fraction) as real / Pow(10, |fraction|) as real;
    assert 0.0 <= mantissa;
    mantissa * Pow10(exponent)
  }

  /** parseFloat on a string with its sign already removed: the longest
      prefix that is an unsigned decimal literal (`Infinity`, digits with an
      optional point and fraction, or a point and at least one digit, either
      of the last two with an optional exponent). */
  function ParseUnsigned(t: string): (r: Number)
    ensures r.Infinity? ==> r.positive
    ensures r.NaN? <==> !IsPrefix(InfinityText, t) && DigitRun(t) == 0
                          && !(|t| >= 2 && t[0] == '.' && IsDigit(t[1]))
  {
    if IsPrefix(InfinityText, t) then Infinity(true) else ParseDecimal(t, DigitRun(t))
  }

  /** The decimal-literal alternative of ParseUnsigned, given the length n of
      the whole-number digits at the start of t. */
  function ParseDecimal(t: string, n: nat): (r: Number)
    requires n == DigitRun(t)
    ensures r.NaN? <==> n == 0 && !(|t| >= 2 && t[0] == '.' && IsDigit(t[1]))
    ensures r.Finite? ==> 0.0 <= r.value
  {
    var hasPoint := n < |t| && t[n] == '.';
    var m := if hasPoint then DigitRun(t[n + 1..]) else 0;
    if n == 0 && m == 0 then NaN
    else
      assert hasPoint ==> t[n + 1..n + 1 + m] == t[n + 1..][..m];
      var fraction := if hasPoint then t[n + 1..n + 1 + m] else [];
      var rest := if hasPoint then t[n + 1 + m..] else t[n..];
      Finite(DecimalValue(t[..n], fraction, ScanExponent(rest)))
  }

  /** parseFloat(s): leading whitespace skipped, one optional sign, then the
      longest numeric prefix; NaN when there is none. Trailing text (such as
      a `%` or a unit) is ignored. */
  function ParseFloat(s: string): (r: Number)
    ensures var t := TrimStart(s);
            |t| > 0 && t[0] == '-' ==> r == Negate(ParseUnsigned(t[1..]))
    ensures var t := TrimStart(s);
            !(|t| > 0 && (t[0] == '-' || t[0] == '+')) ==> r == ParseUnsigned(t)
  {
    var t := TrimStart(s);
    if |t| > 0 && t[0] == '-' then Negate(ParseUnsigned(t[1..]))
    else if |t| > 0 && t[0] == '+' then ParseUnsigned(t[1..])
    else ParseUnsigned(t)
  }

  /** The digit run of a digit string followed by a non-digit is the digit string. */
  lemma {:induction false} DigitRunOfDigitsThen(d: string, rest: string)
    requires AllDigits(d)
    requires |rest| > 0 ==> !IsDigit(rest[0])
    ensures DigitRun(d + rest) == |d|
    decreases |d|
  {
    if |d| > 0 {
      assert (d + rest)[0] == d[0];
      assert (d + rest)[1..] == d[1..] + rest;
      DigitRunOfDigitsThen(d[1..], rest);
    } else {
      assert d + rest == rest;
    }
  }

  /** An unsigned decimal `digits.fraction` with nothing after it. */
  lemma DecimalValueWithoutExponent(whole: string, fraction: string)
    requires AllDigits(whole) && AllDigits(fraction)
    ensures DecimalValue(whole, fraction, 0)
         == DigitsValue(whole) as real + DigitsValue(fraction) as real / Pow(10, |fraction|) as real
  {
    assert Pow10(0) == 1.0;
  }

  lemma ParseDecimalOfPointFraction(t: string, n: nat, fraction: string)
    requires n == DigitRun(t)
    requires n > 0 && AllDigits(fraction)
    requires t[n..] == "." + fraction
    ensures ParseDecimal(t, n) == Finite(DecimalValue(t[..n], fraction, 0))
  {
    assert t[n] == '.';
    assert t[n + 1..] == fraction + [];
    DigitRunOfDigitsThen(fraction, []);
    var m := |fraction|;
    assert t[n + 1..n + 1 + m] == fraction;
    assert t[n + 1 + m..] == [];
  }

  /** Text starting with a digit is not the literal Infinity. */
  lemma NotInfinity(t: string)
    requires |t| > 0 && IsDigit(t[0])
    ensures !IsPrefix(InfinityText, t)
  {
    if |InfinityText| <= |t| {
      assert t[..|InfinityText|][0] == t[0];
    }
  }

  lemma DecimalShape(w: string, fraction: string)
    requires |w| > 0 && AllDigits(w) && AllDigits(fraction)
    ensures var t := w + "." + fraction;
            && !IsPrefix(InfinityText, t)
            && DigitRun(t) == |w|
            && t[..|w|] == w
            && t[|w|..] == "." + fraction
  {
    var t := w + "." + fraction;
    assert t[0] == w[0];
    NotInfinity(t);
    assert t == w + ("." + fraction);
    DigitRunOfDigitsThen(w, "." + fraction);
  }

  lemma ParseUnsignedOfDecimal(w: string, fraction: string)
    requires |w| > 0 && AllDigits(w) && AllDigits(fraction)
    ensures ParseUnsigned(w + "." + fraction) == Finite(DecimalValue(w, fraction, 0))
  {
    DecimalShape(w, fraction);
    ParseDecimalOfPointFraction(w + "." + fraction, |w|, fraction);
  }

  /** parseFloat of a text that starts with a digit is the unsigned parse:
      there is no whitespace to skip and no sign. */
  lemma ParseFloatOfDigitLead(s: string)
    requires |s| > 0 && IsDigit(s[0])
    ensures ParseFloat(s) == ParseUnsigned(s)
  {
    assert !IsJsWhitespace(s[0]);
    assert TrimStart(s) == s;
  }

  /** Reading back a decimal with a whole part and a digit fraction gives the
      value of that literal. */
  lemma {:induction false} ParseFloatOfDecimal(whole: nat, fraction: string)
    requires AllDigits(fraction)
    ensures ParseFloat(NatToString(whole) + "." + fraction)
         == Finite(DecimalValue(NatToString(whole), fraction, 0))
  {
    var w := NatToString(whole);
    var s := w + "." + fraction;
    assert s[0] == w[0];
    ParseFloatOfDigitLead(s);
    ParseUnsignedOfDecimal(w, fraction);
  }

  /** A non-negative number of tenths as a decimal with one fractional digit,
      the `NN.N` form in which progress percentages are printed. */
  function TenthsText(t: nat): (s: string)
    ensures |s| >= 3 && s[|s| - 2] == '.'
  {
    NatToString(t / 10) + "." + [DigitChar(t % 10)]
  }

  lemma DecimalValueOneDigit(w: string, c: char)
    requires AllDigits(w) && IsDigit(c)
    ensures DecimalValue(w, [c], 0) == DigitsValue(w) as real + DigitValue(c) as real / 10.0
  {
    assert Pow10(0) == 1.0;
    assert Pow(10, 1) == 10;
    assert [c][..0] == [];
    assert DigitsValue([c]) == DigitValue(c);
  }

  lemma TenthsValue(t: nat)
    ensures DecimalValue(NatToString(t / 10), [DigitChar(t % 10)], 0) == t as real / 10.0
  {
    DecimalValueOneDigit(NatToString(t / 10), DigitChar(t % 10));
    DigitsValueOfNatToString(t / 10);
    assert t == 10 * (t / 10) + t % 10;
  }

  /** The literal `w.d` for the digits of t reads back as t tenths. */
  lemma ParseTenthsLiteral(t: nat)
    ensures ParseFloat(NatToString(t / 10) + "." + [DigitChar(t % 10)]) == Finite(t as real / 10.0)
  {
    ParseFloatOfDecimal(t / 10, [DigitChar(t % 10)]);
    TenthsValue(t);
  }

  /** parseFloat reads a `NN.N` decimal back to its exact value. */
  lemma {:induction false} ParseFloatOfTenths(t: nat)
    ensures ParseFloat(TenthsText(t)) == Finite(t as real / 10.0)
  {
    ParseTenthsLiteral(t);
  }

  /** A whole digit string parses as the number it denotes. */
  lemma ParseDecimalOfDigits(s: string)
    requires |s| > 0 && AllDigits(s) && DigitRun(s) == |s|
    ensures ParseDecimal(s, |s|) == Finite(DigitsValue(s) as real)
  {
    assert s[..|s|] == s;
    assert s[|s|..] == [];
    assert Pow10(0) == 1.0;
    assert DecimalValue(s, [], 0) == DigitsValue(s) as real;
  }

  /** A rendered natural number reads back as itself. */
  lemma {:induction false} ParseFloatOfNat(n: nat)
    ensures ParseFloat(NatToString(n)) == Finite(n as real)
  {
    var s := NatToString(n);
    ParseFloatOfDigitLead(s);
    NotInfinity(s);
    DigitRunOfDigitsThen(s, []);
    assert s + [] == s;
    ParseDecimalOfDigits(s);
    DigitsValueOfNatToString(n);
  }
}
