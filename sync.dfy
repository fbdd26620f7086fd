/** The numeric half of `syncColors` in the colour picker: the text field's
    hue/saturation/level percentages become the picker's `#rrggbb` value, and
    a picker value becomes percentages again. Reading and writing the two
    form fields, and parsing and formatting the bracketed text, are not
    part of this model. */
module Sync {
  import opened Colors
  import opened JsBuiltins
  import opened HsvRgb
  import opened HsvRgbRoundTrip
  import opened HexCodec

  /** The three numbers of the text field `[hue:H, saturation:S, level:L]`,
      each a percentage. */
  datatype Levels = Levels(hue: real, saturation: real, level: real)

  /** Text to picker: divide each percentage by 100, convert with
      `HSVtoRGB` and encode as hex. Saturation and level between 0 and 100
      give a well-formed `#rrggbb`. */
  function PickerValue(t: Levels): (s: string)
    requires 0.0 <= t.hue
    ensures 0.0 <= t.saturation <= 100.0 && 0.0 <= t.level <= 100.0 ==> IsHexColor(s)
  {
    var rgb := HsvToRgb(FractionsOf(t));
    EncodesBytes(rgb);
    Encode(rgb)
  }

  /** Channels that are bytes encode to a well-formed `#rrggbb`. */
  lemma EncodesBytes(rgb: Rgb)
    ensures InByteRange(rgb) ==> IsHexColor(Encode(rgb))
  {
    if InByteRange(rgb) {
      EncodeBytes(rgb);
    }
  }

  /** Each percentage as a fraction. */
  function FractionsOf(t: Levels): (c: Hsv)
    ensures c.h * 100.0 == t.hue && c.s * 100.0 == t.saturation && c.v * 100.0 == t.level
  {
    Hsv(t.hue / 100.0, t.saturation / 100.0, t.level / 100.0)
  }

  /** Picker to text: decode the hex channels, convert with `RGBtoHSV` and
      scale each fraction to a percentage. A channel that does not parse
      (NaN in the source) gives `None`. A well-formed value gives a hue below
      100 and a saturation and level between 0 and 100. */
  function TextLevels(hex: string): (t: Option<Levels>)
    ensures IsHexColor(hex) ==> t.Some? && InPercentRange(t.value)
    ensures |hex| <= 1 ==> t.None?
  {
    match Decode(hex)
    case None => None
    case Some(c) => Some(LevelsOf(RgbToHsv(c)))
  }

  /** Hue in [0, 100), saturation and level in [0, 100]. */
  predicate InPercentRange(t: Levels) {
    0.0 <= t.hue < 100.0 && 0.0 <= t.saturation <= 100.0 && 0.0 <= t.level <= 100.0
  }

  /** Each fraction as a percentage. */
  function LevelsOf(c: Hsv): (t: Levels)
    ensures t.hue / 100.0 == c.h && t.saturation / 100.0 == c.s && t.level / 100.0 == c.v
  {
    Levels(c.h * 100.0, c.s * 100.0, c.v * 100.0)
  }

  /** Percentages read from a colour's HSV give back that colour's HSV. */
  lemma PickerValueOfLevels(hsv: Hsv)
    requires 0.0 <= hsv.h
    ensures 0.0 <= LevelsOf(hsv).hue
    ensures PickerValue(LevelsOf(hsv)) == Encode(HsvToRgb(hsv))
  {
    assert FractionsOf(LevelsOf(hsv)) == hsv;
  }

  /** A well-formed picker value survives a trip through the text field:
      converting it to percentages and back writes the same value. */
  lemma PickerTextRoundTrip(hex: string)
    requires IsHexColor(hex)
    ensures TextLevels(hex).Some?
    ensures PickerValue(TextLevels(hex).value) == hex
  {
    DecodeHexColor(hex);
    var c := Decode(hex).value;
    var hsv := RgbToHsv(c);
    PickerValueOfLevels(hsv);
    RgbHsvRoundTrip(c);
    EncodeDecode(hex);
  }

  /** A picker value written from percentages in range is stable: reading it
      into the text field and writing it back gives the same value. */
  lemma PickerStableThroughText(t: Levels)
    requires 0.0 <= t.hue
    requires 0.0 <= t.saturation <= 100.0 && 0.0 <= t.level <= 100.0
    ensures TextLevels(PickerValue(t)).Some?
    ensures PickerValue(TextLevels(PickerValue(t)).value) == PickerValue(t)
  {
    PickerTextRoundTrip(PickerValue(t));
  }

  /** Full red as text, `[hue:0, saturation:100, level:100]`, sets the
      picker to `#ff0000`. */
  lemma RedToPicker()
    ensures PickerValue(Levels(0.0, 100.0, 100.0)) == "#ff0000"
  {
    var red := Rgb(255, 0, 0);
    assert FractionsOf(Levels(0.0, 100.0, 100.0)) == Hsv(0.0, 1.0, 1.0);
    assert HsvToRgb(Hsv(0.0, 1.0, 1.0)) == red by {
      RgbToHsvExamples();
      RgbHsvRoundTrip(red);
    }
    EncodeRed(red);
  }

  /** The picker value `#00ff00` reads back as hue 100/3, full saturation
      and full level. */
  lemma GreenToText()
    ensures TextLevels("#00ff00") == Some(Levels(100.0 / 3.0, 100.0, 100.0))
  {
    var green := Rgb(0, 255, 0);
    assert Decode("#00ff00") == Some(green) by {
      EncodeGreen(green);
      DecodeEncode(green);
    }
    assert RgbToHsv(green) == Hsv(1.0 / 3.0, 1.0, 1.0) by {
      RgbToHsvExamples();
    }
  }
}
