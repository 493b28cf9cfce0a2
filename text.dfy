/**
 * Character and string helpers that stand for the Python built-ins the core
 * uses: `str(n)` and `int(s)` on decimal digits, `int(s, 16)`, the code-point
 * order in which strings compare, `in` on strings, and `str.strip()`.
 */
module Text {

  /** An ASCII decimal digit (the model reads `\d` as `[0-9]`). */
  predicate IsDigit(c: char)
  {
    '0' <= c <= '9'
  }

  predicate AllDigits(s: string)
  {
    forall i :: 0 <= i < |s| ==> IsDigit(s[i])
  }

  predicate ContainsDigit(s: string)
  {
    exists i :: 0 <= i < |s| && IsDigit(s[i])
  }

  function DigitValue(c: char): (d: nat)
    requires IsDigit(c)
    ensures d < 10
  {
    (c as int) - ('0' as int)
  }

  function DigitChar(d: nat): (c: char)
    requires d < 10
    ensures IsDigit(c) && DigitValue(c) == d
  {
    (('0' as int) + d) as char
  }

  function Pow10(n: nat): (p: nat)
    ensures p >= 1
  {
    if n == 0 then 1 else 10 * Pow10(n - 1)
  }

  /** Python's `int(s)` for a string of decimal digits (empty counts as 0 here). */
  function DigitsValue(s: string): (v: nat)
    requires AllDigits(s)
    ensures v < Pow10(|s|)
  {
    if s == [] then 0 else DigitsValue(s[..|s| - 1]) * 10 + DigitValue(s[|s| - 1])
  }

  /** Python's `str(n)` for a non-negative integer: no leading zero, at least one digit. */
  function NatToDecimal(n: nat): (s: string)
    ensures AllDigits(s) && |s| >= 1
    ensures n >= 1 ==> s[0] != '0'
    ensures n >= 10 ==> |s| >= 2
    decreases n
  {
    if n < 10 then [DigitChar(n)] else NatToDecimal(n / 10) + [DigitChar(n % 10)]
  }

  /** Python's `str(i)` for any integer. */
  function IntToDecimal(i: int): (s: string)
    ensures |s| >= 1
  {
    if i < 0 then "-" + NatToDecimal(-i) else NatToDecimal(i)
  }

  /** `int(str(n)) == n`. */
  lemma {:induction false} DecimalRoundTrip(n: nat)
    ensures DigitsValue(NatToDecimal(n)) == n
    decreases n
  {
    if n >= 10 {
      DecimalRoundTrip(n / 10);
      var s := NatToDecimal(n);
      assert s[..|s| - 1] == NatToDecimal(n / 10);
    }
  }

  /** `str(n)` has at most `k` digits exactly when `n < 10^k` (for `k >= 1`). */
  lemma {:induction false} DecimalLength(n: nat, k: nat)
    requires k >= 1
    ensures |NatToDecimal(n)| <= k <==> n < Pow10(k)
    decreases n
  {
    if n >= 10 {
      if k == 1 {
        assert |NatToDecimal(n)| >= 2;
      } else {
        DecimalLength(n / 10, k - 1);
        assert Pow10(k) == 10 * Pow10(k - 1);
        assert |NatToDecimal(n)| == |NatToDecimal(n / 10)| + 1;
      }
    }
  }

  /** The value of a concatenation of digit strings. */
  lemma {:induction false} DigitsValueAppend(a: string, b: string)
    requires AllDigits(a) && AllDigits(b)
    ensures AllDigits(a + b)
    ensures DigitsValue(a + b) == DigitsValue(a) * Pow10(|b|) + DigitsValue(b)
    decreases |b|
  {
    var ab := a + b;
    assert AllDigits(ab) by {
      forall i | 0 <= i < |ab| ensures IsDigit(ab[i]) {
        if i < |a| { assert ab[i] == a[i]; } else { assert ab[i] == b[i - |a|]; }
      }
    }
    if b == [] {
      assert ab == a;
    } else {
      var b' := b[..|b| - 1];
      assert ab[..|ab| - 1] == a + b';
      assert ab[|ab| - 1] == b[|b| - 1];
      DigitsValueAppend(a, b');
      ShiftStep(DigitsValue(a), Pow10(|b'|), DigitsValue(b'), DigitValue(b[|b| - 1]));
    }
  }

  lemma ShiftStep(va: nat, p: nat, vb: nat, d: nat)
    ensures (va * p + vb) * 10 + d == va * (10 * p) + (vb * 10 + d)
  {
  }

  /** A leading non-zero digit makes the value at least `10^(|s|-1)`. */
  lemma {:induction false} LeadingDigitBound(s: string)
    requires AllDigits(s) && |s| >= 1 && s[0] != '0'
    ensures DigitsValue(s) >= Pow10(|s| - 1)
    decreases |s|
  {
    if |s| > 1 {
      var s' := s[..|s| - 1];
      assert s'[0] == s[0];
      LeadingDigitBound(s');
    }
  }

  // ---------------------------------------------------------------------
  // Hexadecimal

  predicate IsHexDigit(c: char)
  {
    IsDigit(c) || 'a' <= c <= 'f' || 'A' <= c <= 'F'
  }

  predicate AllHex(s: string)
  {
    forall i :: 0 <= i < |s| ==> IsHexDigit(s[i])
  }

  function HexDigitValue(c: char): (d: nat)
    requires IsHexDigit(c)
    ensures d < 16
  {
    if IsDigit(c) then DigitValue(c)
    else if 'a' <= c <= 'f' then (c as int) - ('a' as int) + 10
    else (c as int) - ('A' as int) + 10
  }

  function Pow16(n: nat): (p: nat)
    ensures p >= 1
  {
    if n == 0 then 1 else 16 * Pow16(n - 1)
  }

  function HexValue(s: string): (v: nat)
    requires AllHex(s)
    ensures v < Pow16(|s|)
  {
    if s == [] then 0 else HexValue(s[..|s| - 1]) * 16 + HexDigitValue(s[|s| - 1])
  }

  /**
   * Python's `int(s, 16)` restricted to plain hex digits: `None` for the empty
   * string or any other character (where Python raises `ValueError`).
   */
  function ParseHex(s: string): (r: Option<nat>)
    ensures r.Some? <==> s != [] && AllHex(s)
    ensures r.Some? ==> r.value < Pow16(|s|)
  {
    if s != [] && AllHex(s) then Some(HexValue(s)) else None
  }

  /** The lower-case hex digit for `d`. */
  function HexDigitChar(d: nat): (c: char)
    requires d < 16
    ensures IsHexDigit(c) && HexDigitValue(c) == d
  {
    if d < 10 then DigitChar(d) else (('a' as int) + d - 10) as char
  }

  /** A byte as two lower-case hex digits, as the provider writes it. */
  function Hex2(b: nat): (s: string)
    requires b < 256
    ensures |s| == 2 && AllHex(s)
  {
    [HexDigitChar(b / 16), HexDigitChar(b % 16)]
  }

  lemma Hex2RoundTrip(b: nat)
    requires b < 256
    ensures ParseHex(Hex2(b)) == Some(b)
  {
    var s := Hex2(b);
    assert s[..1][..0] == [];
    assert HexValue(s[..1]) == HexDigitValue(s[0]);
  }

  // ---------------------------------------------------------------------
  // Code-point order, substrings, whitespace

  /** `a <= b` on Python strings: lexicographic by code point. */
  predicate LexLe(a: string, b: string)
  {
    a == [] || (b != [] && (a[0] < b[0] || (a[0] == b[0] && LexLe(a[1..], b[1..]))))
  }

  lemma {:induction false} LexLeTotal(a: string, b: string)
    ensures LexLe(a, b) || LexLe(b, a)
    decreases |a|
  {
    if a != [] && b != [] && a[0] == b[0] {
      LexLeTotal(a[1..], b[1..]);
    }
  }

  lemma {:induction false} LexLeTransitive(a: string, b: string, c: string)
    requires LexLe(a, b) && LexLe(b, c)
    ensures LexLe(a, c)
    decreases |a|
  {
    if a != [] && a[0] == b[0] && b[0] == c[0] {
      LexLeTransitive(a[1..], b[1..], c[1..]);
    }
  }

  /** Python's `needle in haystack` on strings. */
  predicate IsSubstring(needle: string, haystack: string)
  {
    exists i :: 0 <= i <= |haystack| && needle <= haystack[i..]
  }

  /** The characters for which Python's `str.isspace()` holds. */
  predicate IsSpace(c: char)
  {
    || c == ' ' || '\t' <= c <= '\r' || '\U{1c}' <= c <= '\U{1f}'
    || c == '\U{85}' || c == '\U{a0}' || c == '\U{1680}' || '\U{2000}' <= c <= '\U{200a}'
    || c == '\U{2028}' || c == '\U{2029}' || c == '\U{202f}' || c == '\U{205f}' || c == '\U{3000}'
  }

  function StripLeft(s: string): (r: string)
    ensures |r| <= |s| && r == s[|s| - |r|..]
    ensures r != [] ==> !IsSpace(r[0])
    ensures forall i :: 0 <= i < |s| - |r| ==> IsSpace(s[i])
  {
    if s != [] && IsSpace(s[0]) then StripLeft(s[1..]) else s
  }

  function StripRight(s: string): (r: string)
    ensures |r| <= |s| && r == s[..|r|]
    ensures r != [] ==> !IsSpace(r[|r| - 1])
    ensures forall i :: |r| <= i < |s| ==> IsSpace(s[i])
  {
    if s != [] && IsSpace(s[|s| - 1]) then StripRight(s[..|s| - 1]) else s
  }

  /** `r` sits at index `i` of `s` with only whitespace before and after it. */
  predicate SurroundedBySpace(s: string, r: string, i: int)
  {
    0 <= i <= |s| - |r| && r == s[i..i + |r|]
    && (forall j :: 0 <= j < i ==> IsSpace(s[j])) && (forall j :: i + |r| <= j < |s| ==> IsSpace(s[j]))
  }

  /**
   * Python's `str.strip()`: the maximal whitespace prefix and suffix are
   * removed, so `r` is a slice of `s` with only whitespace around it and
   * none at its own ends.
   */
  function Strip(s: string): (r: string)
    ensures r != [] ==> !IsSpace(r[0]) && !IsSpace(r[|r| - 1])
    ensures exists i :: SurroundedBySpace(s, r, i)
  {
    StripBothEnds(s);
    StripRight(StripLeft(s))
  }

  /** Stripping the left end, then the right, leaves a slice surrounded by whitespace. */
  lemma {:induction false} StripBothEnds(s: string)
    ensures SurroundedBySpace(s, StripRight(StripLeft(s)), |s| - |StripLeft(s)|)
  {
    var l := StripLeft(s);
    TrimmedBothEnds(s, l, StripRight(l));
  }

  /**
   * A suffix `l` of `s` after leading whitespace, and a prefix `r` of `l`
   * before trailing whitespace: `r` is surrounded by whitespace in `s`.
   */
  lemma TrimmedBothEnds(s: string, l: string, r: string)
    requires |l| <= |s| && l == s[|s| - |l|..] && forall k :: 0 <= k < |s| - |l| ==> IsSpace(s[k])
    requires |r| <= |l| && r == l[..|r|] && forall k :: |r| <= k < |l| ==> IsSpace(l[k])
    ensures SurroundedBySpace(s, r, |s| - |l|)
  {
    var i := |s| - |l|;
    assert r == s[i..i + |r|];
    forall j | i + |r| <= j < |s|
      ensures IsSpace(s[j])
    {
      assert s[j] == l[j - i];
    }
  }

  import opened Wrappers
}
