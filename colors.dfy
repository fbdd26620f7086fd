/** The colour records the picker code passes around, as the objects
    `{r, g, b}`, `{h, s, v}` and `{h, s, l}` its functions return.

    The JavaScript computes with IEEE doubles; this model gives every
    fraction its exact meaning as a Dafny `real` (an exact rational) and
    every channel as an unbounded `int`. */
module Colors {

  /** A red/green/blue triple; in a well-formed colour each channel is a byte. */
  datatype Rgb = Rgb(r: int, g: int, b: int)

  /** Hue, saturation and value, each a fraction of the full scale. */
  datatype Hsv = Hsv(h: real, s: real, v: real)

  /** Hue, saturation and lightness, each a fraction of the full scale. */
  datatype Hsl = Hsl(h: real, s: real, l: real)

  /** A parse that may fail: `None` stands for JavaScript's NaN. */
  datatype Option<+T> = None | Some(value: T)

  predicate IsByte(n: int) {
    0 <= n < 256
  }

  predicate InByteRange(c: Rgb) {
    IsByte(c.r) && IsByte(c.g) && IsByte(c.b)
  }

  predicate InUnit(x: real) {
    0.0 <= x <= 1.0
  }

  /** `Math.max(a, b, c)` on integers. */
  function Max3(a: int, b: int, c: int): (m: int)
    ensures m == a || m == b || m == c
    ensures a <= m && b <= m && c <= m
  {
    if a >= b && a >= c then a else if b >= c then b else c
  }

  /** `Math.min(a, b, c)` on integers. */
  function Min3(a: int, b: int, c: int): (m: int)
    ensures m == a || m == b || m == c
    ensures m <= a && m <= b && m <= c
  {
    if a <= b && a <= c then a else if b <= c then b else c
  }
}
