/** The few JavaScript built-ins the colour code leans on, with the meaning
    the ECMAScript Language Specification gives them on the values the code
    feeds them: `Math.round`, the 32-bit `<<`, `Number.prototype.toString(16)`
    on integers, `String.prototype.substring` and `parseInt(…, 16)`.

    NaN is not a value here: a `parseInt` that finds no digit answers `None`. */
module JsBuiltins {
  import opened Colors

  // ---------------------------------------------------------------------
  // Math.round
  // ---------------------------------------------------------------------

  /** `Math.round(x)`: the nearest integer, a half rounded up (towards +infinity). */
  function Round(x: real): (n: int)
    ensures x - 0.5 < n as real <= x + 0.5
  {
    (x + 0.5).Floor
  }

  lemma RoundOfInteger(k: int)
    ensures Round(k as real) == k
  {
  }

  // ---------------------------------------------------------------------
  // The 32-bit left shift
  // ---------------------------------------------------------------------

  const TWO_32: int := 0x1_0000_0000
  const TWO_31: int := 0x8000_0000

  /** The abstract operation ToInt32 on an integer: wrap into the signed 32-bit range. */
  function ToInt32(x: int): (r: int)
    ensures -TWO_31 <= r < TWO_31
    ensures (x - r) % TWO_32 == 0
    ensures -TWO_31 <= x < TWO_31 ==> r == x
  {
    var m := x % TWO_32;
    if m >= TWO_31 then m - TWO_32 else m
  }

  function Pow2(k: nat): (p: nat)
    ensures p >= 1
  {
    if k == 0 then 1 else 2 * Pow2(k - 1)
  }

  /** `x << k` for a shift count below 32: both the operand and the product
      are taken modulo 2^32 as signed 32-bit integers. */
  function ShiftLeft(x: int, k: nat): (r: int)
    requires k < 32
    ensures -TWO_31 <= r < TWO_31
    ensures -TWO_31 <= x * Pow2(k) < TWO_31 ==> r == x * Pow2(k)
  {
    FactorInInt32(x, Pow2(k));
    ToInt32(ToInt32(x) * Pow2(k))
  }

  lemma MulNatural(a: int, b: int)
    requires 0 <= a && 0 <= b
    ensures 0 <= a * b
  {
  }

  /** A product with a positive factor that fits in 32 signed bits has its
      other factor fit too. */
  lemma FactorInInt32(x: int, p: int)
    ensures p >= 1 && -TWO_31 <= x * p < TWO_31 ==> -TWO_31 <= x < TWO_31
  {
    if p >= 1 {
      var y := if x >= 0 then x else -x;
      MulNatural(y, p - 1);
      assert y * p == y + y * (p - 1);
    }
  }

  // ---------------------------------------------------------------------
  // Hexadecimal digits
  // ---------------------------------------------------------------------

  predicate IsLowerHexDigit(c: char) {
    '0' <= c <= '9' || 'a' <= c <= 'f'
  }

  /** A digit of radix 16 as `parseInt` accepts it: either case. */
  predicate IsHexDigit(c: char) {
    '0' <= c <= '9' || 'a' <= c <= 'f' || 'A' <= c <= 'F'
  }

  predicate AllHexDigits(z: string) {
    forall i :: 0 <= i < |z| ==> IsHexDigit(z[i])
  }

  predicate AllLowerHexDigits(z: string) {
    forall i :: 0 <= i < |z| ==> IsLowerHexDigit(z[i])
  }

  /** The lower-case digit `toString(16)` writes for `d`. */
  function HexChar(d: int): (c: char)
    requires 0 <= d < 16
    ensures IsLowerHexDigit(c)
    ensures HexDigitValue(c) == d
  {
    if d < 10 then '0' + d as char else 'a' + (d - 10) as char
  }

  function HexDigitValue(c: char): (d: int)
    requires IsHexDigit(c)
    ensures 0 <= d < 16
  {
    if '0' <= c <= '9' then (c - '0') as int
    else if 'a' <= c <= 'f' then (c - 'a') as int + 10
    else (c - 'A') as int + 10
  }

  lemma HexCharOfValue(c: char)
    requires IsLowerHexDigit(c)
    ensures HexChar(HexDigitValue(c)) == c
  {
  }

  /** The number a string of radix-16 digits denotes, most significant first. */
  function HexValue(z: string): (n: nat)
    requires AllHexDigits(z)
  {
    if z == [] then 0 else HexValue(z[..|z| - 1]) * 16 + HexDigitValue(z[|z| - 1])
  }

  /** The digits `n.toString(16)` writes for a non-negative integer: lower
      case, no leading zero (except for zero itself). */
  function HexDigits(n: nat): (z: string)
    ensures |z| >= 1 && AllLowerHexDigits(z) && AllHexDigits(z)
    ensures HexValue(z) == n
    ensures z[0] == '0' ==> n == 0
    decreases n
  {
    if n < 16 then [HexChar(n)]
    else
      var front := HexDigits(n / 16);
      var z := front + [HexChar(n % 16)];
      assert z[..|z| - 1] == front;
      z
  }

  /** `n.toString(16)` for an integer-valued Number. */
  function NumberToHex(n: int): (z: string)
    ensures |z| >= 1
    ensures n >= 0 ==> z == HexDigits(n)
    ensures n < 0 ==> z[0] == '-'
  {
    if n < 0 then "-" + HexDigits(-n) else HexDigits(n)
  }

  // ---------------------------------------------------------------------
  // String.prototype.substring
  // ---------------------------------------------------------------------

  function Clamp(i: int, len: nat): (c: nat)
    ensures c <= len
  {
    if i < 0 then 0 else if i > len then len else i
  }

  /** `s.substring(start, end)`: both indices are clamped to the string and
      the smaller one starts the slice. */
  function Substring(s: string, start: int, end: int): (r: string)
    ensures 0 <= start <= end <= |s| ==> r == s[start..end]
    ensures 0 <= end <= start <= |s| ==> r == s[end..start]
    ensures |r| <= |s|
  {
    var a, b := Clamp(start, |s|), Clamp(end, |s|);
    if a <= b then s[a..b] else s[b..a]
  }

  // ---------------------------------------------------------------------
  // parseInt(s, 16)
  // ---------------------------------------------------------------------

  /** White space and line terminators, the code points `parseInt` skips
      before the number. */
  predicate IsJsWhitespace(c: char) {
    || c == '\t' || c == '\n' || c == '\U{000B}' || c == '\U{000C}' || c == '\r'
    || c == ' ' || c == '\U{00A0}' || c == '\U{1680}' || ('\U{2000}' <= c <= '\U{200A}')
    || c == '\U{2028}' || c == '\U{2029}' || c == '\U{202F}' || c == '\U{205F}'
    || c == '\U{3000}' || c == '\U{FEFF}'
  }

  /** `s` without its leading white space. */
  function TrimStart(s: string): (t: string)
    ensures |t| <= |s| && t == s[|s| - |t|..]
    ensures forall i :: 0 <= i < |s| - |t| ==> IsJsWhitespace(s[i])
    ensures t == [] || !IsJsWhitespace(t[0])
  {
    if s != [] && IsJsWhitespace(s[0]) then TrimStart(s[1..]) else s
  }

  /** The longest prefix of `s` made of radix-16 digits. */
  function HexPrefix(s: string): (z: string)
    ensures |z| <= |s| && z == s[..|z|]
    ensures AllHexDigits(z)
    ensures |z| < |s| ==> !IsHexDigit(s[|z|])
  {
    if s != [] && IsHexDigit(s[0]) then [s[0]] + HexPrefix(s[1..]) else []
  }

  /** `parseInt(s, 16)`: skip leading white space, take an optional sign and
      an optional `0x`/`0X` prefix, then read the longest run of hex digits.
      No digit at all gives NaN, here `None`; in particular an empty or
      all-blank string does. A string made only of hex digits parses to the
      number they denote. */
  function ParseInt16(s: string): (r: Option<int>)
    ensures TrimStart(s) == [] ==> r == None
    ensures s != [] && AllHexDigits(s) ==> r == Some(HexValue(s))
  {
    var t := TrimStart(s);
    var negative := t != [] && t[0] == '-';
    var unsigned := if t != [] && (t[0] == '-' || t[0] == '+') then t[1..] else t;
    var body :=
      if |unsigned| >= 2 && unsigned[0] == '0' && (unsigned[1] == 'x' || unsigned[1] == 'X')
      then unsigned[2..] else unsigned;
    var digits := HexPrefix(body);
    DigitsAreUnsigned(s);
    if digits == [] then None
    else
      var magnitude: int := HexValue(digits);
      Some(if negative then -magnitude else magnitude)
  }

  lemma HexPrefixOfDigits(s: string)
    requires AllHexDigits(s)
    ensures HexPrefix(s) == s
  {
  }

  /** A string of hex digits has no blank, no sign and no `0x` prefix, so
      `parseInt` reads all of it. */
  lemma DigitsAreUnsigned(s: string)
    ensures s != [] && AllHexDigits(s) ==>
      && TrimStart(s) == s && s[0] != '-' && s[0] != '+'
      && !(|s| >= 2 && s[0] == '0' && (s[1] == 'x' || s[1] == 'X'))
      && HexPrefix(s) == s
  {
    if s != [] && AllHexDigits(s) {
      assert IsHexDigit(s[0]);
      assert !IsJsWhitespace(s[0]);
      assert |s| >= 2 ==> IsHexDigit(s[1]);
      HexPrefixOfDigits(s);
    }
  }

  /** A string that starts with neither white space, a sign nor a hex digit is NaN. */
  lemma ParseInt16NoDigit(s: string)
    requires s != [] && !IsJsWhitespace(s[0]) && !IsHexDigit(s[0]) && s[0] != '-' && s[0] != '+'
    ensures ParseInt16(s) == None
  {
    assert TrimStart(s) == s;
    assert HexPrefix(s) == [];
  }
}
