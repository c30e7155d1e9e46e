/** JavaScript's `Number` applied to a string, the StringToNumber operation
    of section 7.1.4.1.1 of ECMA-262, which the editor uses to read the bit
    count of a literal suffix. Surrounding white space and line terminators
    are ignored and the empty string is 0. Otherwise the text must be an
    unsigned binary (`0b`), octal (`0o`) or hexadecimal (`0x`) integer, or a
    decimal literal with an optional sign, an optional fraction and an
    optional exponent, or `Infinity`. Anything else is NaN. Values are kept
    exact: rounding to the nearest double is not modelled. */
module JsNumbers {
  import opened Wrappers
  import opened Strings

  datatype JsNum = NaN | Finite(value: real) | Infinity(negative: bool)

  /** WhiteSpace and LineTerminator code points (sections 12.2 and 12.3 of
      ECMA-262, with the Unicode space separators of category Zs). */
  predicate IsJsWhiteSpace(c: char) {
    c == '\t' || c == '\n' || c == '\U{000B}' || c == '\U{000C}' || c == '\r' || c == ' '
    || c == '\U{00A0}' || c == '\U{1680}' || ('\U{2000}' <= c <= '\U{200A}')
    || c == '\U{2028}' || c == '\U{2029}' || c == '\U{202F}' || c == '\U{205F}'
    || c == '\U{3000}' || c == '\U{FEFF}'
  }

  /** `s` without its leading and trailing white space. */
  function Trim(s: string): string {
    TrimEnd(TrimStart(s))
  }

  function TrimStart(s: string): string {
    if |s| > 0 && IsJsWhiteSpace(s[0]) then TrimStart(s[1..]) else s
  }

  function TrimEnd(s: string): string {
    if |s| > 0 && IsJsWhiteSpace(s[|s| - 1]) then TrimEnd(s[..|s| - 1]) else s
  }

  // ----- Binary, octal and hexadecimal integers -----

  predicate IsRadixDigit(c: char, radix: nat) {
    if radix == 16 then IsDigit(c) || 'a' <= c <= 'f' || 'A' <= c <= 'F'
    else '0' <= c && (c as int) < ('0' as int) + radix
  }

  function RadixDigitValue(c: char): nat {
    if 'a' <= c <= 'f' then c as int - 'a' as int + 10
    else if 'A' <= c <= 'F' then c as int - 'A' as int + 10
    else if IsDigit(c) then c as int - '0' as int
    else 0
  }

  /** Every character of `s` is a digit in base `radix`. */
  predicate AllRadixDigits(s: string, radix: nat) {
    |s| == 0 || (AllRadixDigits(s[..|s| - 1], radix) && IsRadixDigit(s[|s| - 1], radix))
  }

  /** The value of digits in base `radix`, most significant first. */
  function RadixValue(s: string, radix: nat): nat {
    if |s| == 0 then 0 else radix * RadixValue(s[..|s| - 1], radix) + RadixDigitValue(s[|s| - 1])
  }

  /** A non-decimal integer literal after its prefix: at least one digit. */
  function NonDecimal(digits: string, radix: nat): (r: JsNum)
    ensures r.Finite? <==> |digits| > 0 && AllRadixDigits(digits, radix)
  {
    if |digits| > 0 && AllRadixDigits(digits, radix) then Finite(RadixValue(digits, radix) as real) else NaN
  }

  // ----- Decimal literals -----

  /** The decimal digits of the radix functions are the usual ones. */
  lemma {:induction false} DecimalRadix(s: string)
    ensures AllRadixDigits(s, 10) <==> AllDigits(s)
    ensures AllDigits(s) ==> RadixValue(s, 10) == DigitsValue(s)
  {
    if |s| > 0 {
      var init := s[..|s| - 1];
      DecimalRadix(init);
      assert AllDigits(s) <==> AllDigits(init) && IsDigit(s[|s| - 1]) by {
        if AllDigits(init) && IsDigit(s[|s| - 1]) {
          forall i | 0 <= i < |s| ensures IsDigit(s[i]) {
            if i < |s| - 1 { assert s[i] == init[i]; }
          }
        }
        if AllDigits(s) {
          forall i | 0 <= i < |init| ensures IsDigit(init[i]) { assert init[i] == s[i]; }
        }
      }
    }
  }

  /** The value of the digits after a decimal point: "25" is 0.25. */
  function FractionValue(f: string): real {
    if |f| == 0 then 0.0 else (RadixDigitValue(f[0]) as real + FractionValue(f[1..])) / 10.0
  }

  /** The position of the first `e` or `E` of `s`, or `|s|`. */
  function ExponentMark(s: string): (k: nat)
    ensures k <= |s| && (k < |s| ==> s[k] == 'e' || s[k] == 'E')
  {
    if |s| == 0 then 0
    else if s[0] == 'e' || s[0] == 'E' then 0
    else 1 + ExponentMark(s[1..])
  }

  /** The digits before and after an optional decimal point, at least one
      digit in all. */
  function MantissaValue(s: string): Option<real> {
    var p := FirstIndexOf(s, '.');
    var whole := if p == -1 then s else s[..p];
    var fraction := if p == -1 then "" else s[p + 1..];
    if AllRadixDigits(whole, 10) && AllRadixDigits(fraction, 10) && |whole| + |fraction| > 0 then
      Some(RadixValue(whole, 10) as real + FractionValue(fraction))
    else None
  }

  /** The signed integer after an exponent mark. */
  function ExponentValue(s: string): Option<int> {
    if |s| > 0 && (s[0] == '+' || s[0] == '-') then
      if |s| > 1 && AllRadixDigits(s[1..], 10) then
        Some(if s[0] == '-' then 0 - RadixValue(s[1..], 10) else RadixValue(s[1..], 10))
      else None
    else if |s| > 0 && AllRadixDigits(s, 10) then Some(RadixValue(s, 10))
    else None
  }

  /** `m` times ten to the power `e`. */
  function Scale(m: real, e: int): real
    decreases if e < 0 then -e else e
  {
    if e == 0 then m else if e > 0 then 10.0 * Scale(m, e - 1) else Scale(m, e + 1) / 10.0
  }

  /** An unsigned decimal literal or `Infinity`. */
  function UnsignedDecimal(s: string): (r: JsNum)
    ensures r.Infinity? ==> !r.negative
  {
    if s == "Infinity" then Infinity(false)
    else
      var e := ExponentMark(s);
      var m := MantissaValue(s[..e]);
      var x := if e < |s| then ExponentValue(s[e + 1..]) else Some(0);
      if m.None? || x.None? then NaN else Finite(Scale(m.value, x.value))
  }

  function Negate(n: JsNum): JsNum {
    match n
    case NaN => NaN
    case Finite(v) => Finite(-v)
    case Infinity(negative) => Infinity(!negative)
  }

  /** JavaScript's `Number(s)` for a string `s`. */
  function Number(s: string): JsNum {
    TrimmedNumber(Trim(s))
  }

  /** The value of a numeric literal with no surrounding white space. */
  function TrimmedNumber(t: string): JsNum {
    if |t| == 0 then Finite(0.0)
    else if |t| >= 2 && t[0] == '0' && (t[1] == 'x' || t[1] == 'X') then NonDecimal(t[2..], 16)
    else if |t| >= 2 && t[0] == '0' && (t[1] == 'o' || t[1] == 'O') then NonDecimal(t[2..], 8)
    else if |t| >= 2 && t[0] == '0' && (t[1] == 'b' || t[1] == 'B') then NonDecimal(t[2..], 2)
    else if t[0] == '+' then UnsignedDecimal(t[1..])
    else if t[0] == '-' then Negate(UnsignedDecimal(t[1..]))
    else UnsignedDecimal(t)
  }

  /** The integer a number stands for, if it is a finite whole number. */
  function IntegerValue(n: JsNum): (r: Option<int>)
    ensures r.Some? <==> n.Finite? && n.value == n.value.Floor as real
    ensures r.Some? ==> n == Finite(r.value as real)
  {
    if n.Finite? && n.value == n.value.Floor as real then Some(n.value.Floor) else None
  }

  // ----- Properties -----

  /** White space before and after a text is dropped, and nothing else. */
  lemma TrimSurrounded(before: string, t: string, after: string)
    requires forall k :: 0 <= k < |before| ==> IsJsWhiteSpace(before[k])
    requires forall k :: 0 <= k < |after| ==> IsJsWhiteSpace(after[k])
    requires |t| > 0 && !IsJsWhiteSpace(t[0]) && !IsJsWhiteSpace(t[|t| - 1])
    ensures Trim(before + t + after) == t
  {
    assert before + t + after == before + (t + after);
    TrimStartDrops(before, t + after);
    TrimEndDrops(t, after);
  }

  lemma {:induction false} TrimStartDrops(space: string, t: string)
    requires forall k :: 0 <= k < |space| ==> IsJsWhiteSpace(space[k])
    requires |t| > 0 && !IsJsWhiteSpace(t[0])
    ensures TrimStart(space + t) == t
  {
    if |space| == 0 {
      assert space + t == t;
    } else {
      assert (space + t)[1..] == space[1..] + t;
      TrimStartDrops(space[1..], t);
    }
  }

  lemma {:induction false} TrimEndDrops(t: string, space: string)
    requires forall k :: 0 <= k < |space| ==> IsJsWhiteSpace(space[k])
    requires |t| > 0 && !IsJsWhiteSpace(t[|t| - 1])
    ensures TrimEnd(t + space) == t
  {
    if |space| == 0 {
      assert t + space == t;
    } else {
      var n := |space|;
      assert (t + space)[..|t + space| - 1] == t + space[..n - 1];
      TrimEndDrops(t, space[..n - 1]);
    }
  }

  /** Text that neither starts nor ends with white space is not trimmed. */
  lemma TrimUnchanged(s: string)
    requires |s| > 0 && !IsJsWhiteSpace(s[0]) && !IsJsWhiteSpace(s[|s| - 1])
    ensures Trim(s) == s
  {
    TrimSurrounded("", s, "");
    assert "" + s + "" == s;
  }

  lemma MantissaOfDigits(s: string)
    requires |s| > 0 && AllDigits(s)
    ensures MantissaValue(s) == Some(DigitsValue(s) as real)
  {
    var p := FirstIndexOf(s, '.');
    assert p >= 0 ==> s[p] == '.' && IsDigit(s[p]);
    assert p == -1;
    DecimalRadix(s);
    assert AllRadixDigits("", 10);
  }

  lemma NoExponentInDigits(s: string)
    requires AllDigits(s)
    ensures ExponentMark(s) == |s|
  {
    var k := ExponentMark(s);
    assert k < |s| ==> IsDigit(s[k]);
  }

  lemma {:induction false} ExponentMarkAt(s: string, k: nat)
    requires k < |s| && (s[k] == 'e' || s[k] == 'E')
    requires forall j :: 0 <= j < k ==> s[j] != 'e' && s[j] != 'E'
    ensures ExponentMark(s) == k
  {
    if k > 0 {
      assert s[0] != 'e' && s[0] != 'E';
      ExponentMarkAt(s[1..], k - 1);
    }
  }

  /** An unsigned digit string is its decimal value. */
  lemma DigitsDecimal(s: string)
    requires |s| > 0 && AllDigits(s)
    ensures UnsignedDecimal(s) == Finite(DigitsValue(s) as real)
  {
    assert s != "Infinity" by { assert IsDigit(s[0]); }
    NoExponentInDigits(s);
    assert s[..|s|] == s;
    MantissaOfDigits(s);
  }

  /** A literal with a sign is the unsigned literal after it, negated for `-`. */
  lemma SignedLiteral(t: string)
    requires |t| > 0 && (t[0] == '+' || t[0] == '-')
    ensures TrimmedNumber(t) == if t[0] == '+' then UnsignedDecimal(t[1..]) else Negate(UnsignedDecimal(t[1..]))
  {
  }

  /** A literal starting with a digit and no radix prefix is decimal. */
  lemma DecimalLiteral(t: string)
    requires |t| > 0 && IsDigit(t[0]) && (|t| >= 2 ==> t[1] !in "xXoObB")
    ensures TrimmedNumber(t) == UnsignedDecimal(t)
  {
  }

  /** A digit string is its decimal value. */
  lemma NumberOfDigits(s: string)
    requires |s| > 0 && AllDigits(s)
    ensures Number(s) == Finite(DigitsValue(s) as real)
  {
    assert IsDigit(s[0]) && IsDigit(s[|s| - 1]) && (|s| >= 2 ==> IsDigit(s[1]));
    TrimUnchanged(s);
    DecimalLiteral(s);
    DigitsDecimal(s);
  }

  /** A digit string after a minus sign is its value negated. */
  lemma NumberOfNegatedDigits(s: string)
    requires |s| > 0 && AllDigits(s)
    ensures Number("-" + s) == Finite((0 - DigitsValue(s)) as real)
  {
    var w := "-" + s;
    assert w[|w| - 1] == s[|s| - 1] && IsDigit(s[|s| - 1]);
    TrimUnchanged(w);
    assert w[1..] == s;
    SignedLiteral(w);
    DigitsDecimal(s);
    NegateFinite(DigitsValue(s));
  }

  lemma NegateFinite(x: int)
    ensures Negate(Finite(x as real)) == Finite((0 - x) as real)
  {
  }

  lemma ExponentOfDigits(x: string)
    requires |x| > 0 && AllDigits(x)
    ensures ExponentValue(x) == Some(DigitsValue(x) as int)
  {
    assert IsDigit(x[0]);
    DecimalRadix(x);
  }

  /** A decimal literal with an exponent is its mantissa scaled. */
  lemma ExponentParts(t: string, e: nat, mantissa: real, exponent: int)
    requires t != "Infinity" && e < |t| && ExponentMark(t) == e
    requires MantissaValue(t[..e]) == Some(mantissa) && ExponentValue(t[e + 1..]) == Some(exponent)
    ensures UnsignedDecimal(t) == Finite(Scale(mantissa, exponent))
  {
  }

  /** A decimal integer with an exponent is scaled by that power of ten. */
  lemma ExponentScales(m: string, x: string)
    requires |m| > 0 && AllDigits(m) && |x| > 0 && AllDigits(x)
    ensures Number(m + "e" + x) == Finite(Scale(DigitsValue(m) as real, DigitsValue(x)))
  {
    var w := m + "e" + x;
    ExponentSplit(m, x);
    TrimUnchanged(w);
    DecimalLiteral(w);
    MantissaOfDigits(m);
    ExponentOfDigits(x);
    ExponentParts(w, |m|, DigitsValue(m) as real, DigitsValue(x));
  }

  /** The parts of a digit string, an `e` and a digit string. */
  lemma ExponentSplit(m: string, x: string)
    requires |m| > 0 && AllDigits(m) && |x| > 0 && AllDigits(x)
    ensures var w := m + "e" + x;
      && IsDigit(w[0]) && !IsJsWhiteSpace(w[0]) && !IsJsWhiteSpace(w[|w| - 1])
      && w[1] !in "xXoObB" && w != "Infinity"
      && ExponentMark(w) == |m| && w[..|m|] == m && w[|m| + 1..] == x
  {
    var w := m + "e" + x;
    assert w[0] == m[0] && IsDigit(m[0]);
    assert w[|w| - 1] == x[|x| - 1] && IsDigit(x[|x| - 1]);
    assert w[1] == (if |m| >= 2 then m[1] else 'e');
    assert |m| >= 2 ==> IsDigit(m[1]);
    forall j | 0 <= j < |m|
      ensures w[j] != 'e' && w[j] != 'E'
    {
      assert w[j] == m[j] && IsDigit(m[j]);
    }
    ExponentMarkAt(w, |m|);
    assert w[..|m|] == m && w[|m| + 1..] == x;
    assert w[0] != 'I';
  }

  /** A `0x` literal is its hexadecimal value, whatever white space surrounds it. */
  lemma HexadecimalValue(before: string, digits: string, after: string)
    requires |digits| > 0 && AllRadixDigits(digits, 16)
    requires forall k :: 0 <= k < |before| ==> IsJsWhiteSpace(before[k])
    requires forall k :: 0 <= k < |after| ==> IsJsWhiteSpace(after[k])
    ensures Number(before + ("0x" + digits) + after) == Finite(RadixValue(digits, 16) as real)
  {
    var t := "0x" + digits;
    assert t[|t| - 1] == digits[|digits| - 1];
    TrimSurrounded(before, t, after);
    assert t[0] == '0' && t[1] == 'x' && t[2..] == digits;
  }
}
