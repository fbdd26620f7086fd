/** `HSVtoHSL` and `HSLtoHSV`: the closed-form conversions between value
    and lightness. Both pass the hue through and both divide, so each carries
    the precondition that its divisor is non-zero (the JavaScript would
    produce NaN or Infinity there).

    The JavaScript runs on IEEE doubles; here every fraction is an exact rational. */
module HsvHsl {
  import opened Colors
  import opened Arith

  /** `(x <= 1) ? x : 2 - x`, the tent both conversions divide or scale by. */
  function Tent(x: real): (y: real)
    ensures y <= 1.0
    ensures 0.0 <= x <= 2.0 ==> 0.0 <= y
  {
    if x <= 1.0 then x else 2.0 - x
  }

  function Min(a: real, b: real): real {
    if a <= b then a else b
  }

  /** The doubled lightness `(2 - s) v` that `HSVtoHSL` starts from. */
  function DoubledLightness(s: real, v: real): real {
    (2.0 - s) * v
  }

  /** `HSVtoHSL`: lightness (2 - s) v / 2, saturation s v over the tent of
      the doubled lightness. */
  function HsvToHsl(c: Hsv): (r: Hsl)
    requires Tent(DoubledLightness(c.s, c.v)) != 0.0
    ensures r.h == c.h
    ensures r.l == c.v - c.s * c.v / 2.0
  {
    var l := DoubledLightness(c.s, c.v);
    Hsl(c.h, c.s * c.v / Tent(l), l / 2.0)
  }

  /** `HSLtoHSV`: value l + s min(l, 1 - l), saturation from the scaled s. */
  function HslToHsv(c: Hsl): (r: Hsv)
    requires 2.0 * c.l + c.s * Tent(2.0 * c.l) != 0.0
    ensures r.h == c.h
    ensures r.v == c.l + c.s * Min(c.l, 1.0 - c.l)
  {
    var l := 2.0 * c.l;
    var s := c.s * Tent(l);
    assert Tent(l) == 2.0 * Min(c.l, 1.0 - c.l);
    Hsv(c.h, 2.0 * s / (l + s), (l + s) / 2.0)
  }

  // ---------------------------------------------------------------------
  // Where the divisions are defined
  // ---------------------------------------------------------------------

  /** For fractions s and v, `HSVtoHSL` divides by zero exactly for black
      (v = 0) and for white (s = 0, v = 1). */
  lemma HsvToHslDefined(s: real, v: real)
    requires InUnit(s) && InUnit(v)
    ensures Tent(DoubledLightness(s, v)) != 0.0 <==> v != 0.0 && !(s == 0.0 && v == 1.0)
  {
    var l := DoubledLightness(s, v);
    MulNonneg(2.0 - s, v);
    if v != 0.0 {
      MulPositive(2.0 - s, v);
    }
    if l == 2.0 {
      // (2 - s) v <= 2 - s <= 2, so both steps are equalities.
      MulAtMost(v, 2.0 - s);
      assert 2.0 - s == 2.0;
      assert v == 1.0;
    }
    if s == 0.0 && v == 1.0 {
      assert l == 2.0;
    }
  }

  /** For fractions s and l, `HSLtoHSV` divides by zero exactly for l = 0. */
  lemma HslToHsvDefined(s: real, l: real)
    requires InUnit(s) && InUnit(l)
    ensures 2.0 * l + s * Tent(2.0 * l) != 0.0 <==> l != 0.0
  {
    MulNonneg(s, Tent(2.0 * l));
  }

  // ---------------------------------------------------------------------
  // Ranges
  // ---------------------------------------------------------------------

  /** The saturation s v that `HSVtoHSL` divides by the tent of the doubled
      lightness is at most that tent: for l <= 1 since s v <= v <= 2 v - s v,
      for l > 1 since v <= 1. */
  lemma ProductUnderTent(s: real, v: real)
    requires InUnit(s) && InUnit(v)
    ensures var l := DoubledLightness(s, v); 0.0 <= l <= 2.0 && 0.0 <= s * v <= Tent(l)
  {
    MulAtMost(s, v);
    assert DoubledLightness(s, v) == 2.0 * v - s * v;
  }

  /** For fractions s and v, `HSVtoHSL` yields fractions. */
  lemma HsvToHslInRange(c: Hsv)
    requires InUnit(c.s) && InUnit(c.v) && Tent(DoubledLightness(c.s, c.v)) != 0.0
    ensures InUnit(HsvToHsl(c).s) && InUnit(HsvToHsl(c).l)
  {
    var l := DoubledLightness(c.s, c.v);
    ProductUnderTent(c.s, c.v);
    Quotient(c.s * c.v, Tent(l));
    assert HsvToHsl(c) == Hsl(c.h, c.s * c.v / Tent(l), l / 2.0);
  }

  /** The saturation `HSLtoHSV` scales by the tent stays below the doubled
      lightness, so the new saturation 2 s / (l + s) is at most 1. */
  lemma ScaledSaturationBounds(cs: real, l: real)
    requires InUnit(cs) && 0.0 < l <= 2.0
    ensures var s := cs * Tent(l); 0.0 <= 2.0 * s <= l + s && 0.0 < l + s
  {
    MulAtMost(cs, Tent(l));
  }

  /** l + s min(l, 1 - l) stays a fraction. */
  lemma ValueBounds(cs: real, cl: real)
    requires InUnit(cs) && InUnit(cl)
    ensures InUnit(cl + cs * Min(cl, 1.0 - cl))
  {
    MulAtMost(cs, Min(cl, 1.0 - cl));
  }

  /** For fractions s and l (l not zero), `HSLtoHSV` yields fractions. */
  lemma HslToHsvInRange(c: Hsl)
    requires InUnit(c.s) && InUnit(c.l) && c.l != 0.0
    ensures 2.0 * c.l + c.s * Tent(2.0 * c.l) != 0.0
    ensures InUnit(HslToHsv(c).s) && InUnit(HslToHsv(c).v)
  {
    var l := 2.0 * c.l;
    var s := c.s * Tent(l);
    ScaledSaturationBounds(c.s, l);
    Quotient(2.0 * s, l + s);
    ValueBounds(c.s, c.l);
    assert HslToHsv(c).s == 2.0 * s / (l + s);
  }

  // ---------------------------------------------------------------------
  // Round trips
  // ---------------------------------------------------------------------

  /** `HSLtoHSV(HSVtoHSL(c)) == c` wherever the first division is defined
      and v is not zero. */
  lemma HsvHslRoundTrip(c: Hsv)
    requires Tent(DoubledLightness(c.s, c.v)) != 0.0
    ensures var hsl := HsvToHsl(c);
      2.0 * hsl.l + hsl.s * Tent(2.0 * hsl.l) != 0.0 && HslToHsv(hsl) == c
  {
    var hsl := HsvToHsl(c);
    var l := DoubledLightness(c.s, c.v);
    var t := Tent(l);
    var sv := c.s * c.v;
    assert c.v != 0.0;
    assert 2.0 * hsl.l == l;
    DivMulCancel(sv, t);
    assert hsl.s * t == sv;
    assert l + sv == 2.0 * c.v;
    DivCancel(c.s, c.v);
    assert 2.0 * sv / (2.0 * c.v) == c.s;
  }

  /** `HSVtoHSL(HSLtoHSV(c)) == c` for every lightness strictly between 0
      and 1 and every non-negative saturation. */
  lemma HslHsvRoundTrip(c: Hsl)
    requires 0.0 < c.l < 1.0 && 0.0 <= c.s
    ensures 2.0 * c.l + c.s * Tent(2.0 * c.l) != 0.0
    ensures var hsv := HslToHsv(c);
      Tent(DoubledLightness(hsv.s, hsv.v)) != 0.0 && HsvToHsl(hsv) == c
  {
    var l := 2.0 * c.l;
    var t := Tent(l);
    assert 0.0 < t;
    var s := c.s * t;
    MulNonneg(c.s, t);
    var d := l + s;
    assert 0.0 < d;
    var hsv := HslToHsv(c);
    assert hsv.v == d / 2.0;
    assert hsv.s == 2.0 * s / d;
    DivMulCancel(2.0 * s, d);
    assert hsv.s * hsv.v == s;
    assert DoubledLightness(hsv.s, hsv.v) == l;
    DivMulCancel(s, t);
    DivCancel(c.s, t);
  }
}
