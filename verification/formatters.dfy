/** The downloader's pure formatting helpers: the 30-cell progress bar with
    its colour band, the human-readable byte count, and the MM:SS duration. */
module Formatters {
  import opened Text
  import opened Number

  // ===========================================================================
  // createProgressBar

  const BarLength: nat := 30
  const FilledCell := '█'
  const EmptyCell := '░'

  datatype Colour = Cyan | Yellow | Green

  /** The bar text between the brackets and the colour it is printed in. */
  datatype Bar = Bar(colour: Colour, cells: string)

  /** createProgressBar either returns a bar or throws the RangeError of
      String.prototype.repeat. */
  datatype Drawing = Drawn(bar: Bar) | RangeError

  /** The bar colour: green above 75 %, yellow above 50 %, cyan otherwise
      (including NaN, which compares false with everything). */
  function BarColour(percent: Number): (c: Colour)
    ensures percent.Finite? ==> (c == Green <==> percent.value > 75.0)
    ensures percent.Finite? ==> (c == Yellow <==> 50.0 < percent.value <= 75.0)
    ensures percent.Finite? ==> (c == Cyan <==> percent.value <= 50.0)
    ensures percent.NaN? ==> c == Cyan
  {
    if Above(percent, 75.0) then Green
    else if Above(percent, 50.0) then Yellow
    else Cyan
  }

  function ColourRank(c: Colour): nat {
    match c
    case Cyan => 0
    case Yellow => 1
    case Green => 2
  }

  /** The colour never steps back as the percentage grows. */
  lemma ColourIsMonotone(p: real, q: real)
    requires p <= q
    ensures ColourRank(BarColour(Finite(p))) <= ColourRank(BarColour(Finite(q)))
  {
  }

  /** `Math.round(percent / 100 * 30)`. */
  function FilledCount(percent: Number): Number {
    match percent
    case Finite(p) => Finite(Round(p / 100.0 * BarLength as real) as real)
    case NaN => NaN
    case Infinity(positive) => Infinity(positive)
  }

  /** `30 - filled`. */
  function EmptyCount(filled: Number): Number {
    match filled
    case Finite(f) => Finite(BarLength as real - f)
    case NaN => NaN
    case Infinity(positive) => Infinity(!positive)
  }

  /** The count String.prototype.repeat uses (ToIntegerOrInfinity, with NaN
      read as 0), or None when repeat throws a RangeError because the count
      is negative or infinite. */
  function RepeatCount(n: Number): (k: Option<nat>)
    ensures n.NaN? ==> k == Some(0)
    ensures n.Infinity? ==> k.None?
    // a finite count is accepted exactly when it truncates to zero or more
    ensures n.Finite? ==> (k.Some? <==> n.value > -1.0)
    ensures n.Finite? && k.Some? ==> k.value == if n.value < 0.0 then 0 else n.value.Floor
  {
    match n
    case Finite(v) =>
      var t := Trunc(v);
      if t < 0 then None else Some(t)
    case NaN => Some(0)
    case Infinity(_) => None
  }

  /** The percentages createProgressBar can draw: `repeat` throws a
      RangeError for any other, because the filled or the empty count leaves
      0..30 once rounded. */
  predicate Drawable(percent: Number) {
    percent.NaN? || (percent.Finite? && -5.0 / 3.0 <= percent.value < 305.0 / 3.0)
  }

  /** createProgressBar(percent): `round(percent * 0.3)` filled cells followed
      by the remaining empty cells of a 30-cell bar, coloured by BarColour. */
  function CreateProgressBar(percent: Number): (r: Drawing)
    // repeat throws exactly when the filled count leaves 0..30
    ensures r.Drawn? <==> Drawable(percent)
    // a NaN percentage repeats nothing: an empty bar
    ensures percent.NaN? ==> r == Drawn(Bar(Cyan, []))
    // cell i is filled once the percentage reaches (2i + 1) * 5/3
    ensures r.Drawn? && percent.Finite? ==>
              && |r.bar.cells| == BarLength
              && forall i :: 0 <= i < BarLength ==>
                   (r.bar.cells[i] == FilledCell <==> (2 * i + 1) as real * 5.0 / 3.0 <= percent.value)
                   && (r.bar.cells[i] == FilledCell || r.bar.cells[i] == EmptyCell)
    ensures r.Drawn? ==> r.bar.colour == BarColour(percent)
  {
    var filled := FilledCount(percent);
    match (RepeatCount(filled), RepeatCount(EmptyCount(filled)))
    case (Some(f), Some(e)) =>
      var cells := Repeat(FilledCell, f) + Repeat(EmptyCell, e);
      assert percent.Finite? ==> f == Round(percent.value * 0.3) && f + e == BarLength;
      assert forall i :: 0 <= i < f ==> cells[i] == FilledCell;
      assert forall i :: f <= i < f + e ==> cells[i] == EmptyCell;
      Drawn(Bar(BarColour(percent), cells))
    case _ => RangeError
  }

  /** For every percentage from 0 to 100 the bar is drawn: round(p * 0.3)
      filled cells and 30 minus that many empty ones. */
  lemma BarWithinRange(p: real)
    requires 0.0 <= p <= 100.0
    ensures var r := CreateProgressBar(Finite(p));
            var filled := Round(p / 100.0 * 30.0);
            && 0 <= filled <= BarLength
            && r == Drawn(Bar(BarColour(Finite(p)), Repeat(FilledCell, filled) + Repeat(EmptyCell, BarLength - filled)))
  {
  }

  /** A cell filled at some percentage stays filled at every larger one. */
  lemma BarFillsMonotonically(p: real, q: real, i: nat)
    requires 0.0 <= p <= q <= 100.0 && i < BarLength
    requires CreateProgressBar(Finite(p)).bar.cells[i] == FilledCell
    ensures CreateProgressBar(Finite(q)).bar.cells[i] == FilledCell
  {
  }

  /** The bar is completely filled from 98 1/3 % on and completely empty
      below 1 2/3 %. */
  lemma BarExtremes(p: real)
    requires 0.0 <= p <= 100.0
    ensures var cells := CreateProgressBar(Finite(p)).bar.cells;
            && ((forall i :: 0 <= i < BarLength ==> cells[i] == FilledCell) <==> p >= 295.0 / 3.0)
            && ((forall i :: 0 <= i < BarLength ==> cells[i] == EmptyCell) <==> p < 5.0 / 3.0)
  {
    var cells := CreateProgressBar(Finite(p)).bar.cells;
    if p < 295.0 / 3.0 {
      assert cells[BarLength - 1] == EmptyCell;
    }
    if p >= 5.0 / 3.0 {
      assert cells[0] == FilledCell;
    }
  }

  // ===========================================================================
  // formatBytes

  const Kilo: nat := 1024
  const Units: seq<string> := ["B", "KB", "MB", "GB"]

  lemma PowMonotone(b: nat, i: nat, j: nat)
    requires b >= 1 && i <= j
    ensures Pow(b, i) <= Pow(b, j)
    decreases j - i
  {
    if i < j {
      PowMonotone(b, i, j - 1);
      assert Pow(b, j) == b * Pow(b, j - 1);
    }
  }

  /** `Math.floor(Math.log(bytes) / Math.log(1024))`, computed exactly: the
      power of 1024 that brackets the byte count. */
  function UnitIndex(bytes: nat): (i: nat)
    requires bytes >= 1
    ensures Pow(Kilo, i) <= bytes < Pow(Kilo, i + 1)
    decreases bytes
  {
    if bytes < Kilo then 0
    else
      var j := UnitIndex(bytes / Kilo);
      assert Pow(Kilo, j + 1) <= bytes by {
        assert Pow(Kilo, j + 1) == Kilo * Pow(Kilo, j);
        assert Kilo * Pow(Kilo, j) <= Kilo * (bytes / Kilo);
      }
      assert bytes < Pow(Kilo, j + 2) by {
        assert Pow(Kilo, j + 2) == Kilo * Pow(Kilo, j + 1);
        assert bytes / Kilo + 1 <= Pow(Kilo, j + 1);
        assert Kilo * (bytes / Kilo + 1) <= Kilo * Pow(Kilo, j + 1);
      }
      j + 1
  }

  /** The unit index is the largest i with 1024^i <= bytes. */
  lemma {:induction false} UnitIndexIsLargest(bytes: nat, j: nat)
    requires bytes >= 1 && Pow(Kilo, j) <= bytes
    ensures j <= UnitIndex(bytes)
  {
    var i := UnitIndex(bytes);
    if j > i {
      PowMonotone(Kilo, i + 1, j);
      assert false;
    }
  }

  /** `sizes[i]`: reading past the four-entry table yields undefined. */
  function UnitName(i: nat): (u: string)
    ensures i < 4 ==> u == Units[i]
    ensures i >= 4 ==> u == "undefined"
  {
    if i < |Units| then Units[i] else "undefined"
  }

  /** `Math.round(bytes / 1024^i * 100)` in exact arithmetic: the number of
      hundredths nearest to bytes / 1024^i, halves rounded up. */
  function ScaledHundredths(bytes: nat, i: nat): (h: nat)
    ensures var d := Pow(Kilo, i);
            2 * d * h <= 200 * bytes + d < 2 * d * (h + 1)
  {
    var d := Pow(Kilo, i);
    var h := (200 * bytes + d) / (2 * d);
    h
  }

  /** The text `String(h / 100)`: the shortest decimal, with no trailing zeros
      and no point for a whole number. */
  function HundredthsText(h: nat): (s: string)
    ensures h % 100 == 0 ==> s == NatToString(h / 100)
  {
    var whole := NatToString(h / 100);
    var cents := h % 100;
    if cents == 0 then whole
    else if cents % 10 == 0 then whole + "." + [DigitChar(cents / 10)]
    else whole + "." + [DigitChar(cents / 10), DigitChar(cents % 10)]
  }

  /** formatBytes(bytes): "0 B" for zero or absent input, otherwise the value
      scaled to its unit, rounded to two decimals, and the unit name. */
  function FormatBytes(bytes: Option<nat>): (r: string)
    ensures bytes == None || bytes == Some(0) ==> r == "0 B"
  {
    if bytes.None? || bytes.value == 0 then "0 B"
    else
      var i := UnitIndex(bytes.value);
      HundredthsText(ScaledHundredths(bytes.value, i)) + " " + UnitName(i)
  }

  /** The scaled value lies between 1 and 1024 inclusive: rounding can carry
      a value just below the next unit up to 1024 (see FormatBytesCarry). */
  lemma {:induction false} ScaledValueBounds(bytes: nat)
    requires bytes >= 1
    ensures 100 <= ScaledHundredths(bytes, UnitIndex(bytes)) <= 102400
  {
    var i := UnitIndex(bytes);
    var d := Pow(Kilo, i);
    assert Pow(Kilo, i + 1) == Kilo * d;
    RoundedHundredthsBounds(bytes, d, ScaledHundredths(bytes, i));
  }

  lemma MulMonotone(a: int, b: int, c: nat)
    requires a <= b
    ensures c * a <= c * b
  {
  }

  lemma RoundedHundredthsBounds(b: nat, d: nat, h: nat)
    requires 1 <= d <= b < 1024 * d
    requires 2 * d * h <= 200 * b + d < 2 * d * (h + 1)
    ensures 100 <= h <= 102400
  {
    if h < 100 {
      MulMonotone(h + 1, 100, 2 * d);
      assert false;
    }
    if h > 102400 {
      MulMonotone(102401, h, 2 * d);
      assert false;
    }
  }

  /** The unit name is defined exactly below 1024^4 bytes (one tebibyte). */
  lemma UnitDefinedBelowTebibyte(bytes: nat)
    requires bytes >= 1
    ensures UnitName(UnitIndex(bytes)) != "undefined" <==> bytes < Pow(Kilo, 4)
  {
    var i := UnitIndex(bytes);
    if i >= 4 {
      PowMonotone(Kilo, 4, i);
    } else {
      PowMonotone(Kilo, i + 1, 4);
    }
  }

  lemma DecimalValueTwoDigits(w: string, c1: char, c2: char)
    requires AllDigits(w) && IsDigit(c1) && IsDigit(c2)
    ensures DecimalValue(w, [c1, c2], 0)
         == DigitsValue(w) as real + (10 * DigitValue(c1) + DigitValue(c2)) as real / 100.0
  {
    assert Pow10(0) == 1.0;
    assert Pow(10, 2) == 100;
    assert [c1, c2][..1] == [c1];
    assert [c1][..0] == [];
    assert DigitsValue([c1]) == DigitValue(c1);
    assert DigitsValue([c1, c2]) == 10 * DigitsValue([c1]) + DigitValue(c2);
  }

  lemma HundredthsValue(h: nat)
    requires h % 100 != 0
    ensures var cents := h % 100;
            var w := NatToString(h / 100);
            && (cents % 10 == 0 ==> DecimalValue(w, [DigitChar(cents / 10)], 0) == h as real / 100.0)
            && (cents % 10 != 0 ==> DecimalValue(w, [DigitChar(cents / 10), DigitChar(cents % 10)], 0) == h as real / 100.0)
  {
    var cents := h % 100;
    var w := NatToString(h / 100);
    DigitsValueOfNatToString(h / 100);
    assert h == 100 * (h / 100) + cents;
    if cents % 10 == 0 {
      DecimalValueOneDigit(w, DigitChar(cents / 10));
      assert cents == 10 * (cents / 10);
    } else {
      DecimalValueTwoDigits(w, DigitChar(cents / 10), DigitChar(cents % 10));
      assert cents == 10 * (cents / 10) + cents % 10;
    }
  }

  lemma HundredthsOfWhole(h: nat)
    requires h % 100 == 0
    ensures ParseFloat(NatToString(h / 100)) == Finite(h as real / 100.0)
  {
    var q := h / 100;
    ParseFloatOfNat(q);
    assert h as real / 100.0 == q as real by {
      assert h == 100 * q;
    }
  }

  lemma HundredthsOfOneDigit(h: nat)
    requires h % 100 != 0 && (h % 100) % 10 == 0
    ensures ParseFloat(NatToString(h / 100) + "." + [DigitChar((h % 100) / 10)]) == Finite(h as real / 100.0)
  {
    HundredthsValue(h);
    ParseFloatOfDecimal(h / 100, [DigitChar((h % 100) / 10)]);
  }

  lemma HundredthsOfTwoDigits(h: nat)
    requires (h % 100) % 10 != 0
    ensures ParseFloat(NatToString(h / 100) + "." + [DigitChar((h % 100) / 10), DigitChar((h % 100) % 10)])
         == Finite(h as real / 100.0)
  {
    HundredthsValue(h);
    ParseFloatOfDecimal(h / 100, [DigitChar((h % 100) / 10), DigitChar((h % 100) % 10)]);
  }

  /** The text of a two-decimal value reads back, through parseFloat, as the
      exact number of hundredths it was made from. */
  lemma {:induction false} HundredthsTextRoundTrip(h: nat)
    ensures ParseFloat(HundredthsText(h)) == Finite(h as real / 100.0)
  {
    if h % 100 == 0 {
      HundredthsOfWhole(h);
    } else if (h % 100) % 10 == 0 {
      HundredthsOfOneDigit(h);
    } else {
      HundredthsOfTwoDigits(h);
    }
  }

  /** formatBytes of a positive count, given its unit index and hundredths. */
  lemma FormatBytesOf(b: nat, i: nat, h: nat)
    requires b >= 1 && UnitIndex(b) == i && ScaledHundredths(b, i) == h
    ensures FormatBytes(Some(b)) == HundredthsText(h) + " " + UnitName(i)
  {
  }

  /** Counts from one kibibyte up to one mebibyte are shown in KB. */
  lemma KibibyteRange(b: nat)
    requires Kilo <= b < Kilo * Kilo
    ensures UnitIndex(b) == 1
  {
    assert UnitIndex(b / Kilo) == 0;
  }

  lemma FormatBytesExamples()
    ensures FormatBytes(None) == "0 B"
    ensures FormatBytes(Some(0)) == "0 B"
    ensures FormatBytes(Some(1024)) == "1 KB"
    ensures FormatBytes(Some(1536)) == "1.5 KB"
  {
    assert Pow(Kilo, 1) == 1024;
    KibibyteRange(1024);
    assert ScaledHundredths(1024, 1) == 100;
    FormatBytesOf(1024, 1, 100);
    assert NatToString(1) == "1";
    KibibyteRange(1536);
    assert ScaledHundredths(1536, 1) == 150;
    FormatBytesOf(1536, 1, 150);
    assert DigitChar(5) == '5';
  }

  lemma TextOf1024()
    ensures HundredthsText(102400) == "1024"
  {
    assert HundredthsText(102400) == NatToString(1024);
    NatToStringOf1024();
  }

  lemma NatToStringOf1024()
    ensures NatToString(1024) == "1024"
  {
    var a := NatToString(1);
    assert a == "1";
    var b := NatToString(10);
    assert b == a + "0";
    var c := NatToString(102);
    assert c == b + "2";
    assert NatToString(1024) == c + "4";
  }

  /** Rounding can carry a value into 1024 of the smaller unit: one byte short
      of a mebibyte prints as "1024 KB". */
  lemma FormatBytesCarry()
    ensures FormatBytes(Some(1048575)) == "1024 KB"
  {
    assert Pow(Kilo, 1) == 1024;
    KibibyteRange(1048575);
    assert ScaledHundredths(1048575, 1) == 102400;
    FormatBytesOf(1048575, 1, 102400);
    TextOf1024();
  }

  // ===========================================================================
  // formatTime

  function Pad2(s: string): (r: string)
    ensures |r| == if |s| >= 2 then |s| else 2
  {
    PadStart(s, 2, '0')
  }

  /** The `MM:SS` text for whole minutes and seconds, each padded to two
      characters and never truncated. */
  function Clock(mins: int, secs: int): (r: string)
    ensures |r| >= 5
  {
    Pad2(IntToString(mins)) + ":" + Pad2(IntToString(secs))
  }

  /** formatTime(seconds): "00:00" for absent, zero or NaN input; otherwise
      `Math.floor(seconds / 60)` and `Math.floor(seconds % 60)`, each padded
      to two characters. Infinity prints as `Infinity:NaN`. */
  function FormatTime(seconds: Option<Number>): (r: string)
    ensures seconds.None? || seconds == Some(NaN) || seconds == Some(Finite(0.0)) ==> r == "00:00"
    ensures |r| >= 5
  {
    match seconds
    case None => "00:00"
    case Some(NaN) => "00:00"
    case Some(Infinity(positive)) => (if positive then "Infinity" else "-Infinity") + ":NaN"
    case Some(Finite(s)) =>
      if s == 0.0 then "00:00" else Clock((s / 60.0).Floor, Rem60(s).Floor)
  }

  /** Negative and infinite durations print oddly: -30 s is "-1:-30",
      and an infinite one is "Infinity:NaN" or "-Infinity:NaN". */
  lemma FormatTimeOddOutputs()
    ensures FormatTime(Some(Finite(-30.0))) == "-1:-30"
    ensures FormatTime(Some(Infinity(true))) == "Infinity:NaN"
    ensures FormatTime(Some(Infinity(false))) == "-Infinity:NaN"
  {
    assert (-30.0 / 60.0).Floor == -1;
    assert Trunc(-30.0 / 60.0) == 0;
    assert Rem60(-30.0) == -30.0;
    assert NatToString(1) == "1";
    assert NatToString(30) == "30";
  }

  /** Every negative duration prints with a minus sign in front. */
  lemma NegativeDurationsShowMinus(x: real)
    requires x < 0.0
    ensures FormatTime(Some(Finite(x)))[0] == '-'
  {
    var m := (x / 60.0).Floor;
    assert m < 0;
    var t := IntToString(m);
    assert |t| >= 2;
    assert Pad2(t)[0] == '-';
  }

  /** The minutes and seconds fields of a non-negative duration are those of
      its whole seconds: fractions are truncated, never rounded. */
  lemma ClockFields(x: real)
    requires 0.0 <= x
    ensures (x / 60.0).Floor == x.Floor / 60
    ensures Rem60(x).Floor == x.Floor % 60
  {
    var n := x.Floor;
    var q := n / 60;
    var r := n % 60;
    assert n == 60 * q + r;
    assert q as real <= x / 60.0 < q as real + 1.0;
    assert (x / 60.0).Floor == q;
    assert Trunc(x / 60.0) == q;
    assert Rem60(x) == x - 60.0 * q as real;
  }

  /** Zero padding does not change the value a digit string denotes. */
  lemma {:induction false} LeadingZeroValue(s: string)
    requires AllDigits(s)
    ensures AllDigits("0" + s) && DigitsValue("0" + s) == DigitsValue(s)
    decreases |s|
  {
    var z := "0" + s;
    if |s| > 0 {
      assert z[..|z| - 1] == "0" + s[..|s| - 1];
      LeadingZeroValue(s[..|s| - 1]);
    } else {
      assert z[..0] == [];
    }
  }

  lemma Pad2Value(s: string)
    requires AllDigits(s) && |s| >= 1
    ensures AllDigits(Pad2(s)) && DigitsValue(Pad2(s)) == DigitsValue(s)
  {
    if |s| < 2 {
      assert Pad2(s) == "0" + s;
      LeadingZeroValue(s);
    }
  }

  /** A non-zero finite duration goes through the clock. */
  lemma FormatTimeOfNonZero(x: real)
    requires x != 0.0
    ensures FormatTime(Some(Finite(x))) == Clock((x / 60.0).Floor, Rem60(x).Floor)
  {
  }

  /** A positive duration shows the minutes and seconds of its whole seconds. */
  lemma FormatTimeOfPositive(x: real)
    requires 0.0 < x
    ensures FormatTime(Some(Finite(x))) == Clock(x.Floor / 60, x.Floor % 60)
  {
    FormatTimeOfNonZero(x);
    ClockFields(x);
  }

  lemma ClockOfNat(a: nat, b: nat)
    ensures Clock(a, b) == Pad2(NatToString(a)) + ":" + Pad2(NatToString(b))
  {
  }

  /** formatTime of a whole number of seconds n: the padded quotient and
      remainder of n by 60, so 65 gives "01:05". */
  lemma FormatTimeOfNat(n: nat)
    ensures FormatTime(Some(Finite(n as real))) == Pad2(NatToString(n / 60)) + ":" + Pad2(NatToString(n % 60))
  {
    if n == 0 {
      assert NatToString(0) == "0";
      assert Pad2("0") == "00";
    } else {
      assert (n as real).Floor == n;
      FormatTimeOfPositive(n as real);
      ClockOfNat(n / 60, n % 60);
    }
  }

  /** Fractional seconds are truncated: a duration shows as its whole seconds. */
  lemma FormatTimeTruncates(x: real)
    requires 0.0 <= x
    ensures FormatTime(Some(Finite(x))) == FormatTime(Some(Finite(x.Floor as real)))
  {
    var n := x.Floor;
    FormatTimeOfNat(n);
    if x != 0.0 {
      FormatTimeOfPositive(x);
      ClockOfNat(n / 60, n % 60);
    }
  }

  /** Reads `M..M:SS` back to a number of seconds; the inverse of formatTime
      on whole, non-negative durations. */
  function ParseClock(t: string): (r: Option<nat>)
    ensures r.Some? ==> |t| >= 3 && t[|t| - 3] == ':'
  {
    if |t| >= 3 && t[|t| - 3] == ':' && AllDigits(t[..|t| - 3]) && AllDigits(t[|t| - 2..]) then
      Some(60 * DigitsValue(t[..|t| - 3]) + DigitsValue(t[|t| - 2..]))
    else None
  }

  lemma ParseClockOfFields(m: string, sec: string, a: nat, b: nat)
    requires AllDigits(m) && AllDigits(sec) && |sec| == 2
    requires DigitsValue(m) == a && DigitsValue(sec) == b
    ensures ParseClock(m + ":" + sec) == Some(60 * a + b)
  {
    var t := m + ":" + sec;
    assert t[..|t| - 3] == m;
    assert t[|t| - 2..] == sec;
  }

  /** A number below 60 renders in at most two digits. */
  lemma SecondsWidth(r: nat)
    requires r < 60
    ensures |NatToString(r)| <= 2
  {
    NatToStringLength(r, 2);
    assert Pow(10, 2) == 100;
  }

  /** A padded rendering of k is a digit string denoting k. */
  lemma PaddedValue(k: nat)
    ensures AllDigits(Pad2(NatToString(k))) && DigitsValue(Pad2(NatToString(k))) == k
  {
    Pad2Value(NatToString(k));
    DigitsValueOfNatToString(k);
  }

  /** The clock text of q minutes and r seconds reads back as n = 60q + r. */
  lemma ClockTextParses(q: nat, r: nat, n: nat)
    requires r < 60 && n == 60 * q + r
    ensures ParseClock(Pad2(NatToString(q)) + ":" + Pad2(NatToString(r))) == Some(n)
  {
    var m := Pad2(NatToString(q));
    var sec := Pad2(NatToString(r));
    PaddedValue(q);
    PaddedValue(r);
    SecondsWidth(r);
    ParseClockOfFields(m, sec, q, r);
  }

  /** formatTime loses nothing on whole durations: the clock text reads back
      to the same number of seconds. */
  lemma {:induction false} FormatTimeRoundTrip(n: nat)
    ensures ParseClock(FormatTime(Some(Finite(n as real)))) == Some(n)
  {
    FormatTimeOfNat(n);
    ClockTextParses(n / 60, n % 60, n);
  }

  /** The shape of the clock text: the colon third from the end, the
      seconds field after it, the minutes field before it. */
  lemma ClockTextShape(q: nat, r: nat)
    ensures var t := Pad2(NatToString(q)) + ":" + Pad2(NatToString(r));
            r < 60 ==> && |t| == |Pad2(NatToString(q))| + 3
                       && t[|t| - 3] == ':'
                       && t[|t| - 2..] == Pad2(NatToString(r))
  {
    if r < 60 {
      SecondsWidth(r);
    }
  }

  /** The minutes field is longer than two characters exactly from 100 minutes. */
  lemma MinutesWidth(q: nat)
    ensures |Pad2(NatToString(q))| >= 3 <==> q >= 100
  {
    NatToStringLength(q, 2);
    assert Pow(10, 2) == 100;
  }

  /** The seconds field of a whole duration is two digits below 60, and the
      minutes field grows past two digits exactly from 6000 seconds on. */
  lemma FormatTimeFields(n: nat)
    ensures var t := FormatTime(Some(Finite(n as real)));
            && t[|t| - 3] == ':'
            && AllDigits(t[|t| - 2..]) && DigitsValue(t[|t| - 2..]) < 60
            && (|t| - 3 >= 3 <==> n >= 6000)
  {
    FormatTimeOfNat(n);
    ClockTextShape(n / 60, n % 60);
    PaddedValue(n % 60);
    MinutesWidth(n / 60);
  }
}
