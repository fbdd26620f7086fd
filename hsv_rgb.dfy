/** `RGBtoHSV` and `HSVtoRGB` of the colour picker: the max/min/delta
    conversion to hue, saturation and value, and its six-sector inverse.

    The JavaScript runs on IEEE doubles; here h, s and v are exact rationals,
    `Math.floor` is `.Floor` and `Math.round` is `JsBuiltins.Round`. */
module HsvRgb {
  import opened Colors
  import opened JsBuiltins
  import opened Arith

  /** The hue of a chromatic colour: the ordered `switch (max)` of the source,
      whose first matching case (red, then green, then blue) wins. */
  function Hue(r: int, g: int, b: int): (h: real)
    ensures 0.0 <= h < 1.0
  {
    var max, min := Max3(r, g, b), Min3(r, g, b);
    var d := max - min;
    if max == min then 0.0
    else if max == r then
      var n := g - b + d * (if g < b then 6 else 0);
      Fraction(n, 6 * d);
      n as real / (6 * d) as real
    else if max == g then
      var n := b - r + d * 2;
      Fraction(n, 6 * d);
      n as real / (6 * d) as real
    else
      var n := r - g + d * 4;
      Fraction(n, 6 * d);
      n as real / (6 * d) as real
  }

  /** `RGBtoHSV`: value is the largest channel over 255, saturation the spread
      over the largest channel (0 for black), hue by `Hue`. */
  function RgbToHsv(c: Rgb): (hsv: Hsv)
    ensures 0.0 <= hsv.h < 1.0
    ensures Max3(c.r, c.g, c.b) == Min3(c.r, c.g, c.b) ==> hsv.h == 0.0
    ensures InByteRange(c) ==> InUnit(hsv.s) && InUnit(hsv.v)
    ensures 255.0 * hsv.v == Max3(c.r, c.g, c.b) as real
  {
    var max, min := Max3(c.r, c.g, c.b), Min3(c.r, c.g, c.b);
    var d := max - min;
    var s := if max == 0 then 0.0 else d as real / max as real;
    SpreadOverMax(d as real, max as real);
    Hsv(Hue(c.r, c.g, c.b), s, max as real / 255.0)
  }

  /** A spread no larger than a positive maximum is a fraction of it. */
  lemma SpreadOverMax(d: real, max: real)
    ensures 0.0 <= d <= max && 0.0 < max ==> InUnit(d / max)
  {
    if 0.0 <= d <= max && 0.0 < max {
      Quotient(d, max);
    }
  }

  /** The channels `HSVtoRGB` picks for sector `i`, before scaling to bytes. */
  function SectorChannels(i: int, v: real, p: real, q: real, t: real): (rgb: (real, real, real))
    requires 0 <= i < 6
    ensures InUnit(v) && InUnit(p) && InUnit(q) && InUnit(t) ==>
      InUnit(rgb.0) && InUnit(rgb.1) && InUnit(rgb.2)
  {
    if i == 0 then (v, t, p)
    else if i == 1 then (q, v, p)
    else if i == 2 then (p, v, t)
    else if i == 3 then (p, q, v)
    else if i == 4 then (t, p, v)
    else (v, p, q)
  }

  /** The colour of sector `i` (0..5) at offset `f` within it: the
      `switch (i % 6)` of `HSVtoRGB` and the rounding to bytes. For an
      offset, saturation and value that are fractions every channel is a byte. */
  function SectorRgb(i: int, f: real, s: real, v: real): (rgb: Rgb)
    requires 0 <= i < 6
    ensures InUnit(f) && InUnit(s) && InUnit(v) ==> InByteRange(rgb)
  {
    var p := Dim(v, s);
    var q := Dim(v, f * s);
    var t := Dim(v, (1.0 - f) * s);
    var (r, g, b) := SectorChannels(i, v, p, q, t);
    UnitProduct(f, s);
    UnitProduct(1.0 - f, s);
    RoundedByte(r);
    RoundedByte(g);
    RoundedByte(b);
    Rgb(Round(r * 255.0), Round(g * 255.0), Round(b * 255.0))
  }

  /** `HSVtoRGB` for a non-negative hue. The hue picks sector
      floor(6 h) mod 6 and the offset 6 h - floor(6 h); for fractions s and v
      every channel is a byte. A negative hue is excluded: the source's `i % 6`
      is then negative or -0, so a hue whose floor(6 h) is a multiple of 6 hits
      `case 0` through -0 and gets the sector-0 colour, and every other
      negative hue matches no `case` and yields NaN channels. */
  function HsvToRgb(c: Hsv): (rgb: Rgb)
    requires 0.0 <= c.h
    ensures InUnit(c.s) && InUnit(c.v) ==> InByteRange(rgb)
  {
    var i := (c.h * 6.0).Floor;
    SectorRgb(i % 6, c.h * 6.0 - i as real, c.s, c.v)
  }

  /** A fraction of the full scale rounds to a byte. */
  lemma RoundedByte(x: real)
    ensures InUnit(x) ==> IsByte(Round(x * 255.0))
  {
  }

  /** With no saturation every channel is the same grey, round(255 v). */
  lemma HsvToRgbGrey(c: Hsv)
    requires 0.0 <= c.h && c.s == 0.0
    ensures var rgb := HsvToRgb(c); rgb.r == rgb.g == rgb.b == Round(255.0 * c.v)
  {
  }

  /** Hue is read modulo one turn: h and h + 1 give the same colour
      (in particular h = 1 gives the colour of h = 0). */
  lemma HsvToRgbPeriodic(c: Hsv)
    requires 0.0 <= c.h
    ensures HsvToRgb(c.(h := c.h + 1.0)) == HsvToRgb(c)
  {
    var i := (c.h * 6.0).Floor;
    assert (c.h + 1.0) * 6.0 == c.h * 6.0 + 6.0;
    assert ((c.h + 1.0) * 6.0).Floor == i + 6;
    assert (i + 6) % 6 == i % 6;
  }

  /** Black is all zeros, pure red is hue 0 at full saturation and value,
      pure green is hue 1/3, and yellow, where red and green tie for the
      maximum, takes the red branch and gets hue 1/6. */
  lemma RgbToHsvExamples()
    ensures RgbToHsv(Rgb(0, 0, 0)) == Hsv(0.0, 0.0, 0.0)
    ensures RgbToHsv(Rgb(255, 0, 0)) == Hsv(0.0, 1.0, 1.0)
    ensures RgbToHsv(Rgb(0, 255, 0)) == Hsv(1.0 / 3.0, 1.0, 1.0)
    ensures RgbToHsv(Rgb(255, 255, 0)) == Hsv(1.0 / 6.0, 1.0, 1.0)
  {
    assert Max3(255, 0, 0) == 255 && Min3(255, 0, 0) == 0;
    assert Hue(255, 0, 0) == 0 as real / 1530 as real;
    assert Max3(0, 255, 0) == 255 && Min3(0, 255, 0) == 0;
    assert Hue(0, 255, 0) == 510 as real / 1530 as real;
    assert Max3(255, 255, 0) == 255 && Min3(255, 255, 0) == 0;
    assert Hue(255, 255, 0) == 255 as real / 1530 as real;
  }

  /** `v * (1 - x)`, the form of p, q and t: v dimmed by the fraction x. */
  function Dim(v: real, x: real): (y: real)
    ensures InUnit(v) && InUnit(x) ==> 0.0 <= y <= v
  {
    DimBounds(v, x);
    v * (1.0 - x)
  }

  lemma UnitProduct(x: real, y: real)
    ensures InUnit(x) && InUnit(y) ==> InUnit(x * y)
  {
    if InUnit(x) && InUnit(y) {
      MulAtMost(x, y);
    }
  }

  /** Dimming a fraction by a fraction keeps it between 0 and itself. */
  lemma DimBounds(v: real, x: real)
    ensures InUnit(v) && InUnit(x) ==> 0.0 <= v * (1.0 - x) <= v
  {
    if InUnit(v) && InUnit(x) {
      MulAtMost(1.0 - x, v);
    }
  }
}

module HsvRgbRoundTrip {
  import opened Colors
  import opened JsBuiltins
  import opened Arith
  import opened HsvRgb

  /** The bytes `HSVtoRGB` writes for sector `i` at offset `e` (out of the
      spread `max - min`) of a colour with largest channel `max` and smallest `min`. */
  function SectorBytes(i: int, max: int, min: int, e: int): Rgb
    requires 0 <= i < 6
  {
    if i == 0 then Rgb(max, min + e, min)
    else if i == 1 then Rgb(max - e, max, min)
    else if i == 2 then Rgb(min, max, min + e)
    else if i == 3 then Rgb(min, max - e, max)
    else if i == 4 then Rgb(min + e, min, max)
    else Rgb(max, min, max - e)
  }

  /** When v, p, q and t are whole multiples of 1/255, `SectorRgb` rounds exactly. */
  lemma SectorRgbOfWhole(i: int, f: real, s: real, v: real, max: int, min: int, e: int)
    requires 0 <= i < 6
    requires v * 255.0 == max as real
    requires Dim(v, s) * 255.0 == min as real
    requires Dim(v, f * s) * 255.0 == (max - e) as real
    requires Dim(v, (1.0 - f) * s) * 255.0 == (min + e) as real
    ensures SectorRgb(i, f, s, v) == SectorBytes(i, max, min, e)
  {
    RoundOfInteger(max);
    RoundOfInteger(min);
    RoundOfInteger(max - e);
    RoundOfInteger(min + e);
  }

  /** v times s is the spread over 255. */
  lemma ValueTimesSaturation(max: int, min: int)
    requires 0 <= min < max
    ensures (max as real / 255.0) * ((max - min) as real / max as real) == (max - min) as real / 255.0
  {
    var s := (max - min) as real / max as real;
    assert s * max as real == (max - min) as real;
  }

  /** Over exact arithmetic p, q and t come out as whole multiples of 1/255,
      so the rounding in `HSVtoRGB` is exact. */
  lemma SectorRgbExact(i: int, max: int, min: int, e: int)
    requires 0 <= i < 6 && 0 <= min < max && 0 <= e < max - min
    ensures SectorRgb(i, e as real / (max - min) as real, (max - min) as real / max as real, max as real / 255.0)
         == SectorBytes(i, max, min, e)
  {
    var d := (max - min) as real;
    var f := e as real / d;
    var s := d / max as real;
    var v := max as real / 255.0;
    ValueTimesSaturation(max, min);
    assert f * d == e as real;
    var vs := v * s;
    assert vs == d / 255.0;
    assert v * (f * s) == f * vs;
    assert f * vs == e as real / 255.0;
    assert v * ((1.0 - f) * s) == vs - f * vs;
    assert Dim(v, s) * 255.0 == min as real;
    assert Dim(v, f * s) * 255.0 == (max - e) as real;
    assert Dim(v, (1.0 - f) * s) * 255.0 == (min + e) as real;
    SectorRgbOfWhole(i, f, s, v, max, min, e);
  }

  /** A hue n / (6 d) with n = i d + e, 0 <= e < d, falls in sector i at offset e / d. */
  lemma Sextant(n: int, d: int, i: int, e: int)
    requires 0 < d && 0 <= i && 0 <= e < d && n == i * d + e
    ensures (n as real / (6 * d) as real * 6.0).Floor == i
    ensures n as real / (6 * d) as real * 6.0 - i as real == e as real / d as real
  {
    var y := i as real + e as real / d as real;
    assert y * d as real == n as real;
    assert n as real / (6 * d) as real * 6.0 == y by {
      assert (y / 6.0) * (6 * d) as real == n as real;
    }
    Fraction(e, d);
  }

  /** `HSVtoRGB` of a hue n / (6 d) with n = i d + e is the sector-i colour at offset e / d. */
  lemma HsvToRgbAtSextant(s: real, v: real, n: int, d: int, i: int, e: int)
    requires 0 < d && 0 <= i < 6 && 0 <= e < d && n == i * d + e
    ensures HsvToRgb(Hsv(n as real / (6 * d) as real, s, v)) == SectorRgb(i, e as real / d as real, s, v)
  {
    var h := n as real / (6 * d) as real;
    Sextant(n, d, i, e);
    assert i % 6 == i;
    assert HsvToRgb(Hsv(h, s, v)) == SectorRgb(i % 6, h * 6.0 - i as real, s, v);
  }

  /** Hue n / (6 d) lies in sector i at offset e (out of the spread d), and
      that sector's bytes are the colour itself. */
  predicate IsSextantOf(c: Rgb, n: int, i: int, e: int) {
    var max, min := Max3(c.r, c.g, c.b), Min3(c.r, c.g, c.b);
    var d := max - min;
    && 0 <= i < 6 && 0 <= e < d && n == i * d + e
    && Hue(c.r, c.g, c.b) == n as real / (6 * d) as real
    && SectorBytes(i, max, min, e) == c
  }

  /** The sector and offset a chromatic byte colour's hue falls in. */
  lemma ChromaticSextant(c: Rgb) returns (n: int, i: int, e: int)
    requires InByteRange(c)
    requires Max3(c.r, c.g, c.b) != Min3(c.r, c.g, c.b)
    ensures IsSextantOf(c, n, i, e)
  {
    var max := Max3(c.r, c.g, c.b);
    if max == c.r {
      n, i, e := RedSextant(c);
    } else if max == c.g {
      n, i, e := GreenSextant(c);
    } else {
      n, i, e := BlueSextant(c);
    }
  }

  /** Red largest: sector 5 (blue above green), 0, or 1 (green reaches red). */
  lemma RedSextant(c: Rgb) returns (n: int, i: int, e: int)
    requires Max3(c.r, c.g, c.b) != Min3(c.r, c.g, c.b) && Max3(c.r, c.g, c.b) == c.r
    ensures IsSextantOf(c, n, i, e)
    ensures i == 5 || i == 0 || i == 1
  {
    var (r, g, b) := (c.r, c.g, c.b);
    var d := r - Min3(r, g, b);
    n := g - b + d * (if g < b then 6 else 0);
    assert Hue(r, g, b) == n as real / (6 * d) as real;
    if g < b {
      i, e := 5, n - 5 * d;
    } else if g - b < d {
      i, e := 0, n;
    } else {
      i, e := 1, 0;
    }
  }

  /** Green largest (red smaller): sector 1, 2, or 3 (blue reaches green). */
  lemma GreenSextant(c: Rgb) returns (n: int, i: int, e: int)
    requires Max3(c.r, c.g, c.b) != Min3(c.r, c.g, c.b)
    requires Max3(c.r, c.g, c.b) == c.g && c.g != c.r
    ensures IsSextantOf(c, n, i, e)
    ensures i == 1 || i == 2 || i == 3
  {
    var (r, g, b) := (c.r, c.g, c.b);
    var d := g - Min3(r, g, b);
    n := b - r + d * 2;
    assert Hue(r, g, b) == n as real / (6 * d) as real;
    if b < r {
      i, e := 1, n - d;
    } else if b - r < d {
      i, e := 2, n - 2 * d;
    } else {
      i, e := 3, 0;
    }
  }

  /** Blue largest (red and green smaller): sector 3 or 4. */
  lemma BlueSextant(c: Rgb) returns (n: int, i: int, e: int)
    requires Max3(c.r, c.g, c.b) != Min3(c.r, c.g, c.b)
    requires Max3(c.r, c.g, c.b) == c.b && c.b != c.r && c.b != c.g
    ensures IsSextantOf(c, n, i, e)
    ensures i == 3 || i == 4
  {
    var (r, g, b) := (c.r, c.g, c.b);
    var d := b - Min3(r, g, b);
    n := r - g + d * 4;
    assert Hue(r, g, b) == n as real / (6 * d) as real;
    if r < g {
      i, e := 3, n - 3 * d;
    } else {
      i, e := 4, n - 4 * d;
    }
  }

  /** A grey (all channels equal) comes back from HSV unchanged. */
  lemma GreyRoundTrip(c: Rgb)
    requires InByteRange(c) && Max3(c.r, c.g, c.b) == Min3(c.r, c.g, c.b)
    ensures HsvToRgb(RgbToHsv(c)) == c
  {
    var max := Max3(c.r, c.g, c.b);
    var v := max as real / 255.0;
    assert RgbToHsv(c) == Hsv(0.0, 0.0, v);
    assert (0.0 * 6.0).Floor == 0;
    assert Dim(v, 0.0) == v;
    RoundOfInteger(max);
    assert SectorRgb(0, 0.0, 0.0, v) == Rgb(max, max, max);
  }

  /** A chromatic colour comes back from HSV unchanged. */
  lemma ChromaticRoundTrip(c: Rgb)
    requires InByteRange(c) && Max3(c.r, c.g, c.b) != Min3(c.r, c.g, c.b)
    ensures HsvToRgb(RgbToHsv(c)) == c
  {
    var max, min := Max3(c.r, c.g, c.b), Min3(c.r, c.g, c.b);
    var d := max - min;
    var n, i, e := ChromaticSextant(c);
    var s, v := d as real / max as real, max as real / 255.0;
    assert RgbToHsv(c) == Hsv(n as real / (6 * d) as real, s, v);
    HsvToRgbAtSextant(s, v, n, d, i, e);
    SectorRgbExact(i, max, min, e);
  }

  /** Every byte colour survives the trip through HSV: `HSVtoRGB(RGBtoHSV(c)) == c`
      under exact arithmetic. */
  lemma RgbHsvRoundTrip(c: Rgb)
    requires InByteRange(c)
    ensures HsvToRgb(RgbToHsv(c)) == c
  {
    if Max3(c.r, c.g, c.b) == Min3(c.r, c.g, c.b) {
      GreyRoundTrip(c);
    } else {
      ChromaticRoundTrip(c);
    }
  }
}
