# Colour conversions of the holiday colour picker

This project models the colour arithmetic behind the colour-picker form of
the `hubitat-holiday` app's settings page. A colour is kept in a text field
as hue/saturation/level percentages and in an `<input type="color">` as a
`#rrggbb` string. `syncColors` moves a colour from one field to the other
using these pieces:

- `RGBtoHSV` and `HSVtoRGB`: byte channels to hue/saturation/value
  fractions and back. The same two functions appear twice in the source;
  they are modelled once. Module `HsvRgb`, proofs in `HsvRgbRoundTrip`.
- `HSVtoHSL` and `HSLtoHSV`: value to lightness and back. Module `HsvHsl`.
- The hex expression that writes the picker value, and the three `parseInt`
  calls that read it back. Module `HexCodec`.
- The numeric half of `syncColors`: percentages divided by 100 into the
  picker, and picker value to percentages multiplied by 100. Module `Sync`.
- The JavaScript built-ins these lean on: `Math.round`, the 32-bit `<<`,
  `Number.prototype.toString(16)`, `String.prototype.substring` and
  `parseInt(…, 16)`. Module `JsBuiltins`.
- Entities and small helpers: `Colors` and `Arith`.

The source has no loops, and the only state it changes is the two form
fields and the stray global `levStr`, which this model leaves out; so every
operation is a function. Fractions are exact `real`s. Channels are `int`s:
an out-of-range channel is still a value the encoder handles, using the
32-bit wrap of `<<`. A NaN that JavaScript would produce is either an error
value (`None` for a `parseInt` that finds no digit) or excluded by a
precondition (a negative hue, a zero divisor).

Main results:

- Every byte colour survives RGB → HSV → RGB unchanged
  (`HsvRgbRoundTrip.RgbHsvRoundTrip`).
- Every byte colour survives encode → decode, and every well-formed
  `#rrggbb` survives decode → encode (`HexCodec.DecodeEncode`,
  `HexCodec.EncodeDecode`).
- A well-formed picker value read into the text field and written back is
  unchanged (`Sync.PickerTextRoundTrip`). So a picker value written from
  percentages in range is stable under text → picker → text → picker
  (`Sync.PickerStableThroughText`).
- Both HSV ↔ HSL round trips hold wherever the divisions are defined. The
  exact undefined inputs are characterised.

In the table, `color_picker.js` stands for the file
`13b8995f-5491-4c12-afed-efb45896e8b9-evequefou_color_picker.js`; the
source column gives its full name.

## Model

| member | source | states |
|---|---|---|
| Colors.Max3 | 13b8995f-5491-4c12-afed-efb45896e8b9-evequefou_color_picker.js:71 | `Math.max` of three channels is one of them and at least each of them |
| Colors.Min3 | 13b8995f-5491-4c12-afed-efb45896e8b9-evequefou_color_picker.js:71 | `Math.min` of three channels is one of them and at most each of them |
| HsvRgb.Hue | 13b8995f-5491-4c12-afed-efb45896e8b9-evequefou_color_picker.js:77-82 | the hue of any three channels is a fraction of a turn in [0, 1); the red branch adds a full turn when green is below blue, so it is never negative |
| HsvRgb.RgbToHsv | 13b8995f-5491-4c12-afed-efb45896e8b9-evequefou_color_picker.js:67-89 | hue in [0, 1); hue 0 when all channels are equal; 255 v is the largest channel; for byte channels s and v are fractions |
| HsvRgb.RgbToHsvExamples | 13b8995f-5491-4c12-afed-efb45896e8b9-evequefou_color_picker.js:71-82 | black is (0,0,0), red is (0,1,1), green has hue 1/3, and yellow (red and green tied) takes the red case and gets hue 1/6 |
| HsvRgb.SectorChannels | 13b8995f-5491-4c12-afed-efb45896e8b9-evequefou_color_picker.js:52-59 | the six-way switch only permutes v, p, q and t, so fractions stay fractions |
| HsvRgb.Dim | 13b8995f-5491-4c12-afed-efb45896e8b9-evequefou_color_picker.js:49-51 | p, q and t (v dimmed by a fraction) lie between 0 and v |
| HsvRgb.SectorRgb | 13b8995f-5491-4c12-afed-efb45896e8b9-evequefou_color_picker.js:49-63 | the sector switch and rounding: for a fractional offset, saturation and value every rounded channel is a byte |
| HsvRgb.HsvToRgb | 13b8995f-5491-4c12-afed-efb45896e8b9-evequefou_color_picker.js:42-65 | `HSVtoRGB` of a non-negative hue (sector floor(6 h) mod 6, offset 6 h - floor(6 h)): for fractional s and v every rounded channel is a byte |
| HsvRgb.HsvToRgbGrey | 13b8995f-5491-4c12-afed-efb45896e8b9-evequefou_color_picker.js:49-63 | with saturation 0 all three channels are the grey round(255 v) |
| HsvRgb.HsvToRgbPeriodic | 13b8995f-5491-4c12-afed-efb45896e8b9-evequefou_color_picker.js:47-52 | the sector is floor(6 h) mod 6, so hue h + 1 gives the same colour as h (hue 1 is hue 0) |
| HsvRgbRoundTrip.SectorRgbExact | 13b8995f-5491-4c12-afed-efb45896e8b9-evequefou_color_picker.js:47-64 | for the s and v of a byte colour, p, q and t are whole multiples of 1/255, so rounding gives exactly the sector's bytes |
| HsvRgbRoundTrip.Sextant | 13b8995f-5491-4c12-afed-efb45896e8b9-evequefou_color_picker.js:47-48 | a hue n / (6 d) with n = i d + e and 0 <= e < d has floor(6 h) = i and offset e / d |
| HsvRgbRoundTrip.HsvToRgbAtSextant | 13b8995f-5491-4c12-afed-efb45896e8b9-evequefou_color_picker.js:42-64 | such a hue is converted by sector i at offset e / d |
| HsvRgbRoundTrip.ChromaticSextant | 13b8995f-5491-4c12-afed-efb45896e8b9-evequefou_color_picker.js:77-82 | the hue of a chromatic byte colour falls in a sector whose bytes are the colour itself |
| HsvRgbRoundTrip.RedSextant | 13b8995f-5491-4c12-afed-efb45896e8b9-evequefou_color_picker.js:79 | red largest: sector 5, 0 or 1, reproducing the colour |
| HsvRgbRoundTrip.GreenSextant | 13b8995f-5491-4c12-afed-efb45896e8b9-evequefou_color_picker.js:80 | green largest: sector 1, 2 or 3, reproducing the colour |
| HsvRgbRoundTrip.BlueSextant | 13b8995f-5491-4c12-afed-efb45896e8b9-evequefou_color_picker.js:81 | blue largest: sector 3 or 4, reproducing the colour |
| HsvRgbRoundTrip.GreyRoundTrip | 13b8995f-5491-4c12-afed-efb45896e8b9-evequefou_color_picker.js:42-89 | an achromatic byte colour comes back from HSV unchanged |
| HsvRgbRoundTrip.ChromaticRoundTrip | 13b8995f-5491-4c12-afed-efb45896e8b9-evequefou_color_picker.js:42-89 | a chromatic byte colour comes back from HSV unchanged |
| HsvRgbRoundTrip.RgbHsvRoundTrip | 13b8995f-5491-4c12-afed-efb45896e8b9-evequefou_color_picker.js:42-89 | `HSVtoRGB(RGBtoHSV(c)) == c` for every byte colour |
| JsBuiltins.Round | 13b8995f-5491-4c12-afed-efb45896e8b9-evequefou_color_picker.js:61-63 | `Math.round` is within one half, with halves rounded up |
| JsBuiltins.ToInt32 | 13b8995f-5491-4c12-afed-efb45896e8b9-evequefou_color_picker.js:23 | the operand of `<<` wraps into the signed 32-bit range, agrees with its input modulo 2^32, and keeps in-range values |
| JsBuiltins.ShiftLeft | 13b8995f-5491-4c12-afed-efb45896e8b9-evequefou_color_picker.js:23 | `x << k` is a signed 32-bit value, and exactly x·2^k whenever that product fits in 32 signed bits |
| JsBuiltins.HexChar | 13b8995f-5491-4c12-afed-efb45896e8b9-evequefou_color_picker.js:23 | the digit `toString(16)` writes is lower case and denotes its value |
| JsBuiltins.HexDigits | 13b8995f-5491-4c12-afed-efb45896e8b9-evequefou_color_picker.js:23 | `toString(16)` of a non-negative integer is lower-case hex digits that denote it, with no leading zero |
| JsBuiltins.NumberToHex | 13b8995f-5491-4c12-afed-efb45896e8b9-evequefou_color_picker.js:23 | a negative number is written with a leading minus sign |
| JsBuiltins.Substring | 13b8995f-5491-4c12-afed-efb45896e8b9-evequefou_color_picker.js:34-36 | `substring` slices between its indices when in range, swapping them when reversed, and never grows the string |
| JsBuiltins.TrimStart | 13b8995f-5491-4c12-afed-efb45896e8b9-evequefou_color_picker.js:34-36 | `parseInt` drops exactly the leading white space |
| JsBuiltins.HexPrefix | 13b8995f-5491-4c12-afed-efb45896e8b9-evequefou_color_picker.js:34-36 | `parseInt(…, 16)` reads the longest run of hex digits |
| JsBuiltins.ParseInt16 | 13b8995f-5491-4c12-afed-efb45896e8b9-evequefou_color_picker.js:34-36 | `parseInt(…, 16)`: an empty or all-blank string is NaN (`None`), and a non-empty string of hex digits parses to the number it denotes |
| JsBuiltins.DigitsAreUnsigned | 13b8995f-5491-4c12-afed-efb45896e8b9-evequefou_color_picker.js:34-36 | a string of hex digits has no leading blank, sign or `0x` prefix, so `parseInt` reads all of it |
| JsBuiltins.ParseInt16NoDigit | 13b8995f-5491-4c12-afed-efb45896e8b9-evequefou_color_picker.js:34-36 | a string starting with no space, sign or digit parses to NaN (`None`) |
| HexCodec.Encode | 13b8995f-5491-4c12-afed-efb45896e8b9-evequefou_color_picker.js:23 | the picker value always starts with `#` |
| HexCodec.EncodePadded | 13b8995f-5491-4c12-afed-efb45896e8b9-evequefou_color_picker.js:23 | for byte channels no shift wraps, and the value is `#` and the digits of 0x1rrggbb after the first |
| HexCodec.EncodeBytes | 13b8995f-5491-4c12-afed-efb45896e8b9-evequefou_color_picker.js:23 | for byte channels the padding 1 is sliced off, leaving `#` and two lower-case digits per channel, a well-formed `#rrggbb` |
| HexCodec.EncodeRed | 13b8995f-5491-4c12-afed-efb45896e8b9-evequefou_color_picker.js:23 | pure red is written `#ff0000` |
| HexCodec.EncodeGreen | 13b8995f-5491-4c12-afed-efb45896e8b9-evequefou_color_picker.js:23 | pure green is written `#00ff00` |
| HexCodec.ReadPair | 13b8995f-5491-4c12-afed-efb45896e8b9-evequefou_color_picker.js:34-36 | each `parseInt(substring(k, k + 2), 16)` of a well-formed value reads the byte its digit pair denotes |
| HexCodec.Decode | 13b8995f-5491-4c12-afed-efb45896e8b9-evequefou_color_picker.js:33-37 | a well-formed value decodes to byte channels; a string too short to reach the first pair is NaN (`None`) |
| HexCodec.DecodeHexColor | 13b8995f-5491-4c12-afed-efb45896e8b9-evequefou_color_picker.js:33-37 | a well-formed value decodes to three bytes, one per digit pair |
| HexCodec.DecodeEncode | 13b8995f-5491-4c12-afed-efb45896e8b9-evequefou_color_picker.js:23-37 | decoding what was encoded gives back every byte colour |
| HexCodec.EncodeDecode | 13b8995f-5491-4c12-afed-efb45896e8b9-evequefou_color_picker.js:23-37 | encoding a decoded well-formed value reproduces the string exactly |
| HsvHsl.Tent | js_fragment.js:105 | the divisor `(l <= 1) ? l : 2 - l` is at most 1, and not negative for l in [0, 2] |
| HsvHsl.HsvToHsl | js_fragment.js:98-113 | hue is passed through; lightness is (2 - s) v / 2 |
| HsvHsl.HslToHsv | js_fragment.js:115-133 | hue is passed through; value is l + s min(l, 1 - l) |
| HsvHsl.HsvToHslDefined | js_fragment.js:102-105 | for fractions, `HSVtoHSL` divides by zero exactly when v = 0, or when s = 0 and v = 1 |
| HsvHsl.HslToHsvDefined | js_fragment.js:123-126 | for fractions, `HSLtoHSV` divides by zero exactly when l = 0 |
| HsvHsl.ProductUnderTent | js_fragment.js:103-105 | the doubled lightness is in [0, 2] and s v is at most the divisor |
| HsvHsl.HsvToHslInRange | js_fragment.js:98-113 | fractions map to fractions |
| HsvHsl.ScaledSaturationBounds | js_fragment.js:123-126 | the scaled saturation keeps 2 s / (l + s) at most 1 |
| HsvHsl.ValueBounds | js_fragment.js:123-125 | the new value l + s min(l, 1 - l) is a fraction |
| HsvHsl.HslToHsvInRange | js_fragment.js:115-133 | fractions with non-zero lightness map to fractions |
| HsvHsl.HsvHslRoundTrip | js_fragment.js:98-133 | `HSLtoHSV(HSVtoHSL(c)) == c` wherever the first division is defined |
| HsvHsl.HslHsvRoundTrip | js_fragment.js:98-133 | `HSVtoHSL(HSLtoHSV(c)) == c` for lightness strictly between 0 and 1 and non-negative saturation |
| Sync.FractionsOf | 13b8995f-5491-4c12-afed-efb45896e8b9-evequefou_color_picker.js:17-19 | each percentage divided by 100 is the fraction that scales back to it |
| Sync.LevelsOf | 13b8995f-5491-4c12-afed-efb45896e8b9-evequefou_color_picker.js:39 | each fraction times 100 is the percentage that divides back to it |
| Sync.PickerValue | 13b8995f-5491-4c12-afed-efb45896e8b9-evequefou_color_picker.js:17-23 | text to picker: a non-negative hue with saturation and level in [0, 100] gives a well-formed `#rrggbb` picker value |
| Sync.TextLevels | 13b8995f-5491-4c12-afed-efb45896e8b9-evequefou_color_picker.js:31-39 | picker to text: a well-formed value reads as hue in [0, 100) and saturation and level in [0, 100]; a string too short to reach the first pair is NaN (`None`) |
| Sync.PickerValueOfLevels | 13b8995f-5491-4c12-afed-efb45896e8b9-evequefou_color_picker.js:17-23 | writing percentages read from an HSV colour converts that same HSV colour |
| Sync.PickerTextRoundTrip | 13b8995f-5491-4c12-afed-efb45896e8b9-evequefou_color_picker.js:17-39 | a well-formed picker value read into the text field and written back is unchanged |
| Sync.PickerStableThroughText | 13b8995f-5491-4c12-afed-efb45896e8b9-evequefou_color_picker.js:17-39 | a picker value written from percentages in range, read into the text field and written back, is unchanged |
| Sync.RedToPicker | 13b8995f-5491-4c12-afed-efb45896e8b9-evequefou_color_picker.js:17-23 | `[hue:0, saturation:100, level:100]` sets the picker to `#ff0000` |
| Sync.GreenToText | 13b8995f-5491-4c12-afed-efb45896e8b9-evequefou_color_picker.js:31-39 | `#00ff00` reads as hue 100/3, saturation 100 and level 100 |

## Left out

- DOM access is not modelled: `getElementById`, reading `value` and writing it back, the `return` after writing the picker, and the `debugger` statement.
- Parsing the bracketed text field is not modelled: the regular-expression rewrite, `slice`, `JSON.parse` and `parseFloat`. Neither is formatting the percentages back into text. `Sync` works on the three numbers, and the exception handler that falls back to the picker branch is not modelled.
- The text branch assigns the undeclared name `levStr`. The model assumes the sloppy-mode reading, where this creates a global. Under strict mode it would throw and always fall back to the picker branch.
- IEEE-754 doubles are modelled as exact rationals. Rounding of intermediate products and quotients is not modelled, so the round trips are proved for exact arithmetic only.
- HsvRgb.HsvToRgb: requires a non-negative hue, so negative hues are not modelled. For a negative hue the source's `i % 6` is negative or -0. When floor(6 h) is a multiple of 6, -0 matches `case 0` under `===` and the source returns the sector-0 colour; h = -1, for example, gives the colour of h = 0. Every other negative hue matches no `case` and yields NaN channels.
- HsvHsl.HsvToHsl: requires a non-zero divisor. For a zero divisor the source produces NaN or Infinity. `HsvToHslDefined` states exactly when the divisor is zero.
- HsvHsl.HslToHsv: requires a non-zero divisor, for the same reason. `HslToHsvDefined` states exactly when the divisor is zero.
- The `arguments.length === 1` dispatch, which lets the conversions take one object instead of three numbers, is not modelled. Both forms compute the same thing.
- Strings are sequences of Unicode scalar values, not UTF-16 code units, so `substring` indices are counted in characters.
- The second copy of `syncColors` and `pickerChange` at js_fragment.js:1-47 are not modelled. That `syncColors` reads the undefined name `hex`, and `pickerChange` calls `getElementById` with no argument, so neither has a defined numeric behaviour.
- The second copies of `RGBtoHSV` and `HSVtoRGB` in js_fragment.js (lines 49-96) are identical to the ones modelled and are not modelled separately.
