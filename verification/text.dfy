/** String operations of the ECMAScript runtime that the downloader relies on:
    decimal rendering of integers, padStart, trim, first-occurrence replace,
    substring search. Strings are modelled as `seq<char>`, a sequence of
    Unicode scalar values rather than the runtime's UTF-16 code units. */
module Text {

  datatype Option<T> = None | Some(value: T) {
    function GetOr(default: T): T {
      match this
      case Some(v) => v
      case None => default
    }
  }

  // ---------------------------------------------------------------------------
  // Decimal digits

  predicate IsDigit(c: char) {
    '0' <= c <= '9'
  }

  predicate AllDigits(s: string) {
    forall i :: 0 <= i < |s| ==> IsDigit(s[i])
  }

  function DigitValue(c: char): (d: nat)
    requires IsDigit(c)
    ensures d < 10
  {
    c as int - '0' as int
  }

  function DigitChar(d: nat): (c: char)
    requires d < 10
    ensures IsDigit(c) && DigitValue(c) == d
  {
    ('0' as int + d) as char
  }

  function Pow(b: nat, e: nat): (r: nat)
    ensures b >= 1 ==> r >= 1
  {
    if e == 0 then 1 else b * Pow(b, e - 1)
  }

  /** Decimal rendering of a natural number without leading zeros, which is
      what Number.prototype.toString gives for an integral value. */
  function NatToString(n: nat): (s: string)
    ensures |s| >= 1 && AllDigits(s)
    ensures |s| > 1 ==> s[0] != '0'
    decreases n
  {
    if n < 10 then [DigitChar(n)] else NatToString(n / 10) + [DigitChar(n % 10)]
  }

  /** Decimal rendering of an integer: a minus sign before negative values. */
  function IntToString(i: int): (s: string)
    ensures |s| >= 1
    ensures i >= 0 ==> s == NatToString(i)
    ensures i < 0 ==> s[0] == '-' && s[1..] == NatToString(-i)
  {
    if i < 0 then "-" + NatToString(-i) else NatToString(i)
  }

  /** The value a string of decimal digits denotes; the empty string reads as 0. */
  function DigitsValue(s: string): (v: nat)
    requires AllDigits(s)
    decreases |s|
  {
    if |s| == 0 then 0 else 10 * DigitsValue(s[..|s| - 1]) + DigitValue(s[|s| - 1])
  }

  /** Reading back a rendered natural number gives the number. */
  lemma {:induction false} DigitsValueOfNatToString(n: nat)
    ensures DigitsValue(NatToString(n)) == n
    decreases n
  {
    if n >= 10 {
      var s := NatToString(n);
      assert s[..|s| - 1] == NatToString(n / 10);
      DigitsValueOfNatToString(n / 10);
    }
  }

  /** A rendered natural number has more than k digits exactly when it is at
      least 10^k (for k >= 1). */
  lemma {:induction false} NatToStringLength(n: nat, k: nat)
    requires k >= 1
    ensures |NatToString(n)| > k <==> n >= Pow(10, k)
    decreases n
  {
    if n >= 10 {
      if k > 1 {
        NatToStringLength(n / 10, k - 1);
        assert Pow(10, k) == 10 * Pow(10, k - 1);
        assert n / 10 >= Pow(10, k - 1) <==> n >= 10 * Pow(10, k - 1);
      }
    } else {
      assert Pow(10, k) == 10 * Pow(10, k - 1);
    }
  }

  // ---------------------------------------------------------------------------
  // String.prototype.padStart and String.prototype.repeat

  function Repeat(c: char, k: nat): (s: string)
    ensures |s| == k
    ensures forall i :: 0 <= i < k ==> s[i] == c
  {
    if k == 0 then [] else [c] + Repeat(c, k - 1)
  }

  /** `s.padStart(width, fill)` with a one-character fill: never truncates. */
  function PadStart(s: string, width: nat, fill: char): (r: string)
    ensures |r| == if |s| >= width then |s| else width
    ensures r[|r| - |s|..] == s
    ensures forall i :: 0 <= i < |r| - |s| ==> r[i] == fill
  {
    if |s| >= width then s else Repeat(fill, width - |s|) + s
  }

  // ---------------------------------------------------------------------------
  // Whitespace and String.prototype.trim

  /** The ECMAScript WhiteSpace and LineTerminator code points (section 12.2
      and 12.3 of ECMA-262), the set trim and parseFloat skip. */
  predicate IsJsWhitespace(c: char) {
    || c == '\t' || c == '\U{000B}' || c == '\U{000C}' || c == ' ' || c == '\U{00A0}' || c == '\U{FEFF}'
    || c == '\n' || c == '\r' || c == '\U{2028}' || c == '\U{2029}'
    || c == '\U{1680}' || ('\U{2000}' <= c <= '\U{200A}') || c == '\U{202F}' || c == '\U{205F}' || c == '\U{3000}'
  }

  predicate AllWhitespace(s: string) {
    forall i :: 0 <= i < |s| ==> IsJsWhitespace(s[i])
  }

  /** Drops leading whitespace. */
  function TrimStart(s: string): (r: string)
    ensures |r| <= |s| && r == s[|s| - |r|..]
    ensures AllWhitespace(s[..|s| - |r|])
    ensures |r| > 0 ==> !IsJsWhitespace(r[0])
    decreases |s|
  {
    if |s| > 0 && IsJsWhitespace(s[0]) then TrimStart(s[1..]) else s
  }

  /** Drops trailing whitespace. */
  function TrimEnd(s: string): (r: string)
    ensures |r| <= |s| && r == s[..|r|]
    ensures AllWhitespace(s[|r|..])
    ensures |r| > 0 ==> !IsJsWhitespace(r[|r| - 1])
    decreases |s|
  {
    if |s| > 0 && IsJsWhitespace(s[|s| - 1]) then TrimEnd(s[..|s| - 1]) else s
  }

  /** `s.trim()`. */
  function Trim(s: string): (r: string)
    ensures |r| > 0 ==> !IsJsWhitespace(r[0]) && !IsJsWhitespace(r[|r| - 1])
  {
    TrimEnd(TrimStart(s))
  }

  lemma {:induction false} TrimStartSkipsLead(lead: string, y: string)
    requires AllWhitespace(lead)
    requires |y| > 0 ==> !IsJsWhitespace(y[0])
    ensures TrimStart(lead + y) == y
    decreases |lead|
  {
    if |lead| > 0 {
      assert (lead + y)[1..] == lead[1..] + y;
      TrimStartSkipsLead(lead[1..], y);
    }
  }

  lemma {:induction false} TrimEndSkipsTrail(y: string, trail: string)
    requires AllWhitespace(trail)
    requires |y| > 0 ==> !IsJsWhitespace(y[|y| - 1])
    ensures TrimEnd(y + trail) == y
    decreases |trail|
  {
    if |trail| > 0 {
      assert (y + trail)[..|y + trail| - 1] == y + trail[..|trail| - 1];
      TrimEndSkipsTrail(y, trail[..|trail| - 1]);
    }
  }

  /** Whitespace around a string without whitespace at its ends is exactly
      what trim removes. */
  lemma TrimStripsPadding(lead: string, x: string, trail: string)
    requires AllWhitespace(lead) && AllWhitespace(trail)
    requires |x| > 0 ==> !IsJsWhitespace(x[0]) && !IsJsWhitespace(x[|x| - 1])
    ensures Trim(lead + x + trail) == x
  {
    assert lead + x + trail == lead + (x + trail);
    if |x| == 0 {
      assert x + trail == trail;
      TrimStartSkipsLead(lead + trail, []);
      assert lead + trail + [] == lead + trail;
      assert AllWhitespace(lead + trail) by {
        forall i | 0 <= i < |lead + trail| ensures IsJsWhitespace((lead + trail)[i]) {
          if i >= |lead| {
            assert (lead + trail)[i] == trail[i - |lead|];
          }
        }
      }
    } else {
      TrimStartSkipsLead(lead, x + trail);
      TrimEndSkipsTrail(x, trail);
    }
  }

  // ---------------------------------------------------------------------------
  // Searching

  predicate IsPrefix(p: string, s: string) {
    |p| <= |s| && s[..|p|] == p
  }

  /** `sub` occurs in `s` starting at index i. */
  predicate OccursAt(s: string, sub: string, i: int) {
    0 <= i && i + |sub| <= |s| && s[i..i + |sub|] == sub
  }

  /** Index of the first occurrence of `sub` in `s` at or after `from`
      (String.prototype.indexOf), or None. */
  function IndexOf(s: string, sub: string, from: nat): (r: Option<nat>)
    ensures r.Some? ==> from <= r.value && OccursAt(s, sub, r.value)
    ensures r.Some? ==> forall j :: from <= j < r.value ==> !OccursAt(s, sub, j)
    ensures r.None? ==> forall j :: from <= j ==> !OccursAt(s, sub, j)
    decreases |s| - from
  {
    if from + |sub| > |s| then None
    else if s[from..from + |sub|] == sub then Some(from)
    else IndexOf(s, sub, from + 1)
  }

  /** `s.includes(sub)`: a case-sensitive substring test. */
  predicate Includes(s: string, sub: string) {
    IndexOf(s, sub, 0).Some?
  }

  lemma IncludesMeansOccurs(s: string, sub: string)
    ensures Includes(s, sub) <==> exists i :: OccursAt(s, sub, i)
  {
    var r := IndexOf(s, sub, 0);
    if r.Some? {
      assert OccursAt(s, sub, r.value);
    }
  }

  /** A string that contains `sub` keeps containing it inside a longer one. */
  lemma {:induction false} IncludesInContext(pre: string, sub: string, post: string)
    ensures Includes(pre + sub + post, sub)
  {
    var s := pre + sub + post;
    assert s[|pre|..|pre| + |sub|] == sub;
    assert OccursAt(s, sub, |pre|);
    IncludesMeansOccurs(s, sub);
  }

  /** `s.replace(c, "")` with a one-character string pattern: removes the
      first occurrence of `c` only. */
  function RemoveFirst(s: string, c: char): (r: string)
    ensures c !in s ==> r == s
    ensures c in s ==> |r| == |s| - 1 && exists i :: 0 <= i < |s| && s[i] == c && c !in s[..i] && r == s[..i] + s[i + 1..]
  {
    match IndexOf(s, [c], 0)
    case None =>
      assert forall j :: 0 <= j < |s| ==> s[j] != c by {
        forall j | 0 <= j < |s| ensures s[j] != c {
          assert !OccursAt(s, [c], j);
          assert s[j..j + 1] == [s[j]];
        }
      }
      s
    case Some(i) =>
      assert s[i..i + 1] == [c];
      assert s[i] == c;
      assert c !in s[..i] by {
        forall j | 0 <= j < i ensures s[j] != c {
          assert !OccursAt(s, [c], j);
          assert s[j..j + 1] == [s[j]];
        }
      }
      s[..i] + s[i + 1..]
  }

  /** Removing a character from a string that holds it only at the end
      gives back the string before it. */
  lemma RemoveFirstOfLast(a: string, c: char)
    requires c !in a
    ensures RemoveFirst(a + [c], c) == a
  {
    var s := a + [c];
    assert s[|a|] == c;
    assert forall j :: 0 <= j < |a| ==> s[j] == a[j];
    var i :| 0 <= i < |s| && s[i] == c && c !in s[..i] && RemoveFirst(s, c) == s[..i] + s[i + 1..];
    assert forall j :: 0 <= j < |a| ==> s[j] != c;
    assert i == |a|;
    assert s[..i] == a;
  }
}
