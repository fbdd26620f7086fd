/** The two hex expressions inside `syncColors`: writing a colour as the
    picker's `#rrggbb` value, and reading the three channels back out of it. */
module HexCodec {
  import opened Colors
  import opened JsBuiltins

  /** The picker's value format: `#` and six lower-case hex digits. */
  predicate IsHexColor(s: string) {
    |s| == 7 && s[0] == '#' && AllLowerHexDigits(s[1..])
  }

  /** `"#" + ((1 << 24) + (r << 16) + (g << 8) + b).toString(16).slice(1)`:
      the leading 1 pads the number to seven digits and is then sliced off. */
  function Encode(c: Rgb): (s: string)
    ensures |s| >= 1 && s[0] == '#'
  {
    var n := ShiftLeft(1, 24) + ShiftLeft(c.r, 16) + ShiftLeft(c.g, 8) + c.b;
    "#" + NumberToHex(n)[1..]
  }

  /** The three `parseInt(hexString.substring(…, …), 16)` reads; a NaN in any
      channel makes the whole colour `None`. A well-formed value decodes to
      byte channels; a string too short to reach the first pair is NaN. */
  function Decode(s: string): (c: Option<Rgb>)
    ensures IsHexColor(s) ==> c.Some? && InByteRange(c.value)
    ensures |s| <= 1 ==> c.None?
  {
    var r := ReadPair(s, 1);
    var g := ReadPair(s, 3);
    var b := ReadPair(s, 5);
    if r.Some? && g.Some? && b.Some? then Some(Rgb(r.value, g.value, b.value)) else None
  }

  /** `parseInt(s.substring(k, k + 2), 16)`. On a well-formed value it reads
      the byte the digit pair at `k` denotes. */
  function ReadPair(s: string, k: int): (r: Option<int>)
    ensures IsHexColor(s) && (k == 1 || k == 3 || k == 5) ==> r == Some(PairValue(s, k))
  {
    var pair := Substring(s, k, k + 2);
    PairDigits(s, k);
    ParseInt16(pair)
  }

  /** The two characters after the `#` at 1, 3 or 5 of a well-formed value
      are hex digits worth the channel `PairValue` reads there. */
  lemma PairDigits(s: string, k: int)
    ensures IsHexColor(s) && (k == 1 || k == 3 || k == 5) ==>
      var pair := Substring(s, k, k + 2);
      pair != [] && AllHexDigits(pair) && HexValue(pair) == PairValue(s, k)
  {
    if IsHexColor(s) && (k == 1 || k == 3 || k == 5) {
      var pair := Substring(s, k, k + 2);
      DigitsOfHexColor(s);
      assert pair == [s[k], s[k + 1]];
      HexValuePair(s[k], s[k + 1]);
    }
  }

  /** The two digits of a byte, high nibble first. */
  function ByteDigits(x: int): (z: string)
    requires IsByte(x)
    ensures |z| == 2 && AllLowerHexDigits(z)
  {
    [HexChar(x / 16), HexChar(x % 16)]
  }

  /** For byte channels none of the three shifts wraps around. */
  lemma ShiftBytes(c: Rgb)
    requires InByteRange(c)
    ensures ShiftLeft(1, 24) == 0x100_0000
    ensures ShiftLeft(c.r, 16) == c.r * 0x1_0000
    ensures ShiftLeft(c.g, 8) == c.g * 0x100
  {
    assert Pow2(24) == 0x100_0000 && Pow2(16) == 0x1_0000 && Pow2(8) == 0x100;
  }

  lemma HexDigitsAppend(q: nat, k: int)
    requires 1 <= q && 0 <= k < 16
    ensures HexDigits(q * 16 + k) == HexDigits(q) + [HexChar(k)]
  {
    assert (q * 16 + k) / 16 == q;
    assert (q * 16 + k) % 16 == k;
  }

  /** For byte channels the padded number is 0x1rrggbb, whose digits are a
      1 followed by the two digits of each channel. */
  lemma PaddedDigits(c: Rgb)
    requires InByteRange(c)
    ensures HexDigits(0x100_0000 + c.r * 0x1_0000 + c.g * 0x100 + c.b)
         == "1" + ByteDigits(c.r) + ByteDigits(c.g) + ByteDigits(c.b)
  {
    var n1 := 16 + c.r / 16;
    var n2 := n1 * 16 + c.r % 16;
    var n3 := n2 * 16 + c.g / 16;
    var n4 := n3 * 16 + c.g % 16;
    var n5 := n4 * 16 + c.b / 16;
    var n6 := n5 * 16 + c.b % 16;
    assert n2 == 0x100 + c.r;
    assert n4 == 0x1_0000 + c.r * 0x100 + c.g;
    assert n6 == 0x100_0000 + c.r * 0x1_0000 + c.g * 0x100 + c.b;
    assert HexDigits(1) == "1";
    HexDigitsAppend(1, c.r / 16);
    HexDigitsAppend(n1, c.r % 16);
    HexDigitsAppend(n2, c.g / 16);
    HexDigitsAppend(n3, c.g % 16);
    HexDigitsAppend(n4, c.b / 16);
    HexDigitsAppend(n5, c.b % 16);
  }

  /** A byte colour encodes to `#` and the two lower-case digits of each
      channel in turn, which is a well-formed picker value. */
  lemma EncodeBytes(c: Rgb)
    requires InByteRange(c)
    ensures Encode(c) == "#" + ByteDigits(c.r) + ByteDigits(c.g) + ByteDigits(c.b)
    ensures IsHexColor(Encode(c))
  {
    var digits := ByteDigits(c.r) + ByteDigits(c.g) + ByteDigits(c.b);
    EncodePadded(c);
    PaddedDigits(c);
    assert ("1" + digits)[1..] == digits;
  }

  /** For byte channels `Encode` slices the first digit off the digits of
      the unwrapped sum 0x1rrggbb. */
  lemma EncodePadded(c: Rgb)
    requires InByteRange(c)
    ensures Encode(c) == "#" + HexDigits(0x100_0000 + c.r * 0x1_0000 + c.g * 0x100 + c.b)[1..]
  {
    ShiftBytes(c);
  }

  /** Pure red is written `#ff0000`. (The colour is a parameter so that the
      verifier does not evaluate `Encode` on a literal digit by digit.) */
  lemma EncodeRed(red: Rgb)
    requires red == Rgb(255, 0, 0)
    ensures Encode(red) == "#ff0000"
  {
    assert ByteDigits(red.r) == "ff" && ByteDigits(red.g) == "00" && ByteDigits(red.b) == "00" by {
      FullAndEmptyDigits();
    }
    assert "#" + "ff" + "00" + "00" == "#ff0000";
    EncodeBytes(red);
  }

  /** Pure green is written `#00ff00`. */
  lemma EncodeGreen(green: Rgb)
    requires green == Rgb(0, 255, 0)
    ensures Encode(green) == "#00ff00"
  {
    assert ByteDigits(green.r) == "00" && ByteDigits(green.g) == "ff" && ByteDigits(green.b) == "00" by {
      FullAndEmptyDigits();
    }
    assert "#" + "00" + "ff" + "00" == "#00ff00";
    EncodeBytes(green);
  }

  lemma FullAndEmptyDigits()
    ensures ByteDigits(255) == "ff" && ByteDigits(0) == "00"
  {
    assert HexChar(15) == 'f' && HexChar(0) == '0';
  }

  lemma HexValuePair(x: char, y: char)
    requires IsHexDigit(x) && IsHexDigit(y)
    ensures HexValue([x, y]) == HexDigitValue(x) * 16 + HexDigitValue(y)
  {
    assert [x, y][..1] == [x];
    assert [x][..0] == [];
    assert HexValue([x]) == HexDigitValue(x);
  }

  lemma DigitsOfHexColor(s: string)
    requires IsHexColor(s)
    ensures forall i :: 1 <= i < 7 ==> IsLowerHexDigit(s[i])
  {
    forall i | 1 <= i < 7 ensures IsLowerHexDigit(s[i]) {
      assert s[i] == s[1..][i - 1];
    }
  }

  /** The byte the digit pair at `k` of a well-formed value denotes. */
  function PairValue(s: string, k: int): (x: int)
    requires IsHexColor(s) && (k == 1 || k == 3 || k == 5)
    ensures IsByte(x)
  {
    DigitsOfHexColor(s);
    HexDigitValue(s[k]) * 16 + HexDigitValue(s[k + 1])
  }

  /** A well-formed picker value decodes to the bytes its digit pairs denote. */
  lemma DecodeHexColor(s: string)
    requires IsHexColor(s)
    ensures Decode(s) == Some(Rgb(PairValue(s, 1), PairValue(s, 3), PairValue(s, 5)))
    ensures InByteRange(Decode(s).value)
  {
  }

  lemma PairValueOfByte(s: string, k: int, x: int)
    requires IsHexColor(s) && (k == 1 || k == 3 || k == 5) && IsByte(x)
    requires s[k] == HexChar(x / 16) && s[k + 1] == HexChar(x % 16)
    ensures PairValue(s, k) == x
  {
  }

  /** Reading back what `Encode` wrote gives the same colour. */
  lemma DecodeEncode(c: Rgb)
    requires InByteRange(c)
    ensures Decode(Encode(c)) == Some(c)
  {
    EncodeBytes(c);
    var s := Encode(c);
    DecodeHexColor(s);
    PairValueOfByte(s, 1, c.r);
    PairValueOfByte(s, 3, c.g);
    PairValueOfByte(s, 5, c.b);
  }

  /** Writing back a decoded picker value reproduces it exactly. */
  lemma EncodeDecode(s: string)
    requires IsHexColor(s)
    ensures Decode(s).Some? && Encode(Decode(s).value) == s
  {
    DecodeHexColor(s);
    var c := Rgb(PairValue(s, 1), PairValue(s, 3), PairValue(s, 5));
    ByteDigitsOfPair(s, 1);
    ByteDigitsOfPair(s, 3);
    ByteDigitsOfPair(s, 5);
    EncodeBytes(c);
    HexColorShape(s);
  }

  lemma HexColorShape(s: string)
    requires |s| == 7 && s[0] == '#'
    ensures s == "#" + [s[1], s[2]] + [s[3], s[4]] + [s[5], s[6]]
  {
  }

  lemma ByteDigitsOfPair(s: string, k: int)
    requires IsHexColor(s) && (k == 1 || k == 3 || k == 5)
    ensures ByteDigits(PairValue(s, k)) == [s[k], s[k + 1]]
  {
    DigitsOfHexColor(s);
    HexCharOfValue(s[k]);
    HexCharOfValue(s[k + 1]);
  }
}
