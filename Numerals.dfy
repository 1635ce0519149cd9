/**
 * The two places where the screens cross between numbers and text: a
 * template literal `${n}` that renders an integer in decimal, and the
 * display-order input's `parseInt(value) || 0`.
 */
module Numerals {
  import opened Wrappers

  predicate IsDigit(c: char)
  {
    '0' <= c <= '9'
  }

  function DigitChar(d: nat): (c: char)
    requires d < 10
    ensures IsDigit(c)
  {
    ('0' as int + d) as char
  }

  /** Decimal rendering of a non-negative integer, as `${n}` does it. */
  function NatToString(n: nat): (s: string)
    ensures |s| >= 1
    ensures forall i :: 0 <= i < |s| ==> IsDigit(s[i])
  {
    if n < 10 then [DigitChar(n)] else NatToString(n / 10) + [DigitChar(n % 10)]
  }

  /** Decimal rendering of any integer: a `-` before the magnitude when negative. */
  function IntToString(i: int): (s: string)
    ensures |s| >= 1
    ensures s[0] == '-' <==> i < 0
    ensures forall k :: (if i < 0 then 1 else 0) <= k < |s| ==> IsDigit(s[k])
  {
    if i < 0 then "-" + NatToString(-i) else NatToString(i)
  }

  // ---------------------------------------------------------------------
  // parseInt(s), with no radix argument
  // ---------------------------------------------------------------------

  /** The characters `parseInt` skips before the number (white space and
      line terminators of ECMAScript). */
  predicate IsJsSpace(c: char)
  {
    c == '\t' || c == '\n' || c == '\U{B}' || c == '\U{C}' || c == '\r' || c == ' '
    || c == '\U{A0}' || c == '\U{1680}' || ('\U{2000}' <= c <= '\U{200A}')
    || c == '\U{2028}' || c == '\U{2029}' || c == '\U{202F}' || c == '\U{205F}'
    || c == '\U{3000}' || c == '\U{FEFF}'
  }

  function TrimStart(s: string): (r: string)
    ensures |r| <= |s| && r == s[|s| - |r|..]
    ensures r == [] || !IsJsSpace(r[0])
  {
    if s != [] && IsJsSpace(s[0]) then TrimStart(s[1..]) else s
  }

  /** The value of a digit in bases up to 36, or 36 for any other character. */
  function DigitValue(c: char): (v: nat)
    ensures v <= 36
  {
    if '0' <= c <= '9' then c as int - '0' as int
    else if 'a' <= c <= 'z' then c as int - 'a' as int + 10
    else if 'A' <= c <= 'Z' then c as int - 'A' as int + 10
    else 36
  }

  /** The longest prefix of `s` made of digits of base `radix`. */
  function DigitPrefix(s: string, radix: nat): (ds: string)
    ensures |ds| <= |s| && ds == s[..|ds|]
    ensures forall i :: 0 <= i < |ds| ==> DigitValue(ds[i]) < radix
  {
    if s != [] && DigitValue(s[0]) < radix then [s[0]] + DigitPrefix(s[1..], radix) else []
  }

  /** The value of a string of base-`radix` digits, most significant first. */
  function DigitsValue(ds: string, radix: nat): nat
  {
    if ds == [] then 0
    else DigitsValue(ds[..|ds| - 1], radix) * radix + DigitValue(ds[|ds| - 1])
  }

  /** The magnitude `parseInt` reads after the sign: base 16 after `0x` or
      `0X`, base 10 otherwise, up to the first character that is not a digit
      of that base. None when no digit is read. */
  function ParseMagnitude(u: string): Option<nat>
  {
    var hex := |u| >= 2 && u[0] == '0' && (u[1] == 'x' || u[1] == 'X');
    var radix := if hex then 16 else 10;
    var ds := DigitPrefix(if hex then u[2..] else u, radix);
    if ds == [] then None else Some(DigitsValue(ds, radix))
  }

  /**
   * `parseInt(s)`: skip leading white space, take one optional sign, then
   * read the magnitude. None stands for NaN, the result when no digit is read.
   */
  function ParseInt(s: string): (r: Option<int>)
    ensures r.Some? ==> TrimStart(s) != []
    ensures r.Some? && r.value < 0 ==> TrimStart(s)[0] == '-'
  {
    var t := TrimStart(s);
    var negative := t != [] && t[0] == '-';
    var u := if t != [] && (t[0] == '-' || t[0] == '+') then t[1..] else t;
    match ParseMagnitude(u)
    case None => None
    case Some(m) => Some(if negative then -(m as int) else m)
  }

  /** `parseInt(s) || 0`: NaN (and zero) give 0. */
  function ParseIntOrZero(s: string): (n: int)
    ensures ParseInt(s).None? ==> n == 0
    ensures n != 0 ==> ParseInt(s) == Some(n)
  {
    ParseInt(s).GetOr(0)
  }

  // ---------------------------------------------------------------------
  // Properties
  // ---------------------------------------------------------------------

  lemma {:induction false} DecimalValue(n: nat)
    ensures DigitsValue(NatToString(n), 10) == n
  {
    if n >= 10 {
      DecimalValue(n / 10);
      var s := NatToString(n);
      assert s[..|s| - 1] == NatToString(n / 10);
    }
  }

  /** Decimal rendering is one-to-one. */
  lemma NatToStringInjective(m: nat, n: nat)
    requires NatToString(m) == NatToString(n)
    ensures m == n
  {
    DecimalValue(m);
    DecimalValue(n);
  }

  /** Parsing a rendered integer gives the integer back, so the display-order
      input shows the stored value and submits it unchanged. */
  lemma ParseRendered(i: int)
    ensures ParseIntOrZero(IntToString(i)) == i
  {
    if i < 0 {
      ParseRenderedNegative(-i, IntToString(i));
    } else {
      ParseStopsAtNonDigit(i, []);
      assert NatToString(i) + [] == NatToString(i);
    }
  }

  lemma ParseRenderedNegative(m: nat, s: string)
    requires s == "-" + NatToString(m)
    ensures ParseInt(s) == Some(-(m as int))
  {
    MagnitudeOfDecimal(m, []);
    assert s[1..] == NatToString(m) + [];
    ParseNegative(s);
  }

  /** A leading `-` negates the magnitude read after it. */
  lemma ParseNegative(s: string)
    requires s != [] && s[0] == '-'
    ensures ParseMagnitude(s[1..]).Some? ==> ParseInt(s) == Some(-(ParseMagnitude(s[1..]).value as int))
  {
    assert !IsJsSpace(s[0]);
    assert TrimStart(s) == s;
  }

  /** Reading stops at the first character that is not a digit, so `12.5`
      or `12abc` gives 12 (except that `0x` switches to base 16). */
  lemma ParseStopsAtNonDigit(n: nat, rest: string)
    requires rest == [] || (!IsDigit(rest[0]) && !(n == 0 && (rest[0] == 'x' || rest[0] == 'X')))
    ensures ParseIntOrZero(NatToString(n) + rest) == n
  {
    MagnitudeOfDecimal(n, rest);
    var s := NatToString(n) + rest;
    assert s[0] == NatToString(n)[0];
    ParseUnsigned(s);
  }

  /** Text that starts with a digit is read without white space or sign. */
  lemma ParseUnsigned(s: string)
    requires s != [] && IsDigit(s[0])
    ensures ParseInt(s) == ParseMagnitude(s)
  {
    assert !IsJsSpace(s[0]);
    assert TrimStart(s) == s;
    assert s[0] != '-' && s[0] != '+';
  }

  lemma MagnitudeOfDecimal(n: nat, rest: string)
    requires rest == [] || (!IsDigit(rest[0]) && !(n == 0 && (rest[0] == 'x' || rest[0] == 'X')))
    ensures ParseMagnitude(NatToString(n) + rest) == Some(n)
  {
    var digits := NatToString(n);
    var u := digits + rest;
    DecimalValue(n);
    DigitPrefixStops(digits, rest);
    if |digits| >= 2 {
      assert u[1] == digits[1];
      assert IsDigit(u[1]);
    } else if rest != [] {
      assert u[1] == rest[0];
      if digits[0] == '0' {
        LeadingZero(n);
      }
    }
  }

  /** Only zero renders with a leading `0`. */
  lemma {:induction false} LeadingZero(n: nat)
    requires NatToString(n)[0] == '0'
    ensures n == 0
  {
    if n >= 10 {
      assert NatToString(n)[0] == NatToString(n / 10)[0];
      LeadingZero(n / 10);
    }
  }

  lemma {:induction false} DigitPrefixStops(digits: string, rest: string)
    requires forall i :: 0 <= i < |digits| ==> IsDigit(digits[i])
    requires rest == [] || !IsDigit(rest[0])
    ensures DigitPrefix(digits + rest, 10) == digits
  {
    if digits != [] {
      assert (digits + rest)[1..] == digits[1..] + rest;
      DigitPrefixStops(digits[1..], rest);
    } else if rest != [] {
      assert DigitValue(rest[0]) >= 10;
    }
  }

  /** Text that does not start (after white space) with a sign or a digit,
      the empty input among it, is not a number and gives 0. */
  lemma NonNumericIsZero(s: string)
    requires var t := TrimStart(s); t == [] || !(IsDigit(t[0]) || t[0] == '-' || t[0] == '+')
    ensures ParseIntOrZero(s) == 0
  {
    var t := TrimStart(s);
    if t != [] {
      assert DigitValue(t[0]) >= 10;
    }
  }
}
