/** The fixed catalogs of `Home`: eight solid presets, each with a chosen
    text colour, and four gradient presets. */
module Catalog {
  import opened Hex
  import opened Luma

  datatype PresetColor = PresetColor(name: string, bg: string, text: string)

  datatype GradientPreset = GradientPreset(name: string, gradient: string)

  /** The value `applyGradient` stores as background colour while a gradient is shown. */
  const GradientSentinel: string := "グラデーション"

  const Presets: seq<PresetColor> := [
    PresetColor("ブルー", "#3B82F6", "#FFFFFF"),
    PresetColor("グリーン", "#10B981", "#FFFFFF"),
    PresetColor("レッド", "#EF4444", "#FFFFFF"),
    PresetColor("パープル", "#8B5CF6", "#FFFFFF"),
    PresetColor("ピンク", "#EC4899", "#FFFFFF"),
    PresetColor("イエロー", "#F59E0B", "#000000"),
    PresetColor("インディゴ", "#6366F1", "#FFFFFF"),
    PresetColor("ティール", "#14B8A6", "#FFFFFF")
  ]

  const Gradients: seq<GradientPreset> := [
    GradientPreset("サンセット", "linear-gradient(135deg, #FF6B6B, #4ECDC4)"),
    GradientPreset("オーシャン", "linear-gradient(135deg, #667eea, #764ba2)"),
    GradientPreset("フォレスト", "linear-gradient(135deg, #11998e, #38ef7d)"),
    GradientPreset("ファイア", "linear-gradient(135deg, #FC466B, #3F5EFB)")
  ]

  /** Every preset background is one the inline decoder can read; decoding
      it gives channels in range whose `rgbToHex` is the background
      lower-cased, and none of them is already in that canonical form. */
  lemma PresetsDecode(i: int)
    requires 0 <= i < |Presets|
    ensures WellFormedHex(Presets[i].bg)
    ensures ValidRgb(DecodeHex(Presets[i].bg))
    ensures var c := DecodeHex(Presets[i].bg);
      RgbToHex(c.red, c.green, c.blue) == LowerAscii(Presets[i].bg)
    ensures var c := DecodeHex(Presets[i].bg);
      RgbToHex(c.red, c.green, c.blue) != Presets[i].bg
  {
    var s := Presets[i].bg;
    assert IsHexDigit(s[1]) && IsHexDigit(s[2]) && IsHexDigit(s[3]);
    assert IsHexDigit(s[4]) && IsHexDigit(s[5]) && IsHexDigit(s[6]);
    var k := if i in {1, 7} then 3 else if i == 6 then 5 else if i in {0, 3} then 2 else 1;
    assert 'A' <= s[k] <= 'F';
    UpperCaseColour(s, k);
  }

  /** The channels the inline decoder reads from each preset background. */
  const PresetChannels: seq<Rgb> := [
    Rgb(59, 130, 246), Rgb(16, 185, 129), Rgb(239, 68, 68), Rgb(139, 92, 246),
    Rgb(236, 72, 153), Rgb(245, 158, 11), Rgb(99, 102, 241), Rgb(20, 184, 166)
  ]

  /** Decoding preset `i`'s background gives the `i`-th entry of `PresetChannels`. */
  lemma PresetDecodesTo(i: int)
    requires 0 <= i < |Presets|
    ensures WellFormedHex(Presets[i].bg)
    ensures DecodeHex(Presets[i].bg) == PresetChannels[i]
  {
    var s := Presets[i].bg;
    assert WellFormedHex(s) by { PresetsDecode(i); }
    var c := DecodeHex(s);
    if i == 0 { assert s == "#3B82F6"; }
    else if i == 1 { assert s == "#10B981"; }
    else if i == 2 { assert s == "#EF4444"; }
    else if i == 3 { assert s == "#8B5CF6"; }
    else if i == 4 { assert s == "#EC4899"; }
    else if i == 5 { assert s == "#F59E0B"; }
    else if i == 6 { assert s == "#6366F1"; }
    else { assert s == "#14B8A6"; }
  }

  /** The catalog's chosen text colour agrees with the brightness rule for
      Blue, Red, Purple, Yellow and Indigo, and disagrees for Green, Pink and
      Teal, whose weighted sums 128085, 130270 and 132912 exceed 128000. */
  lemma PresetTextAgreement(i: int)
    requires 0 <= i < |Presets|
    ensures WellFormedHex(Presets[i].bg)
    ensures var c := DecodeHex(Presets[i].bg);
      TextColorFor(c.red, c.green, c.blue) == Presets[i].text <==> i in {0, 2, 3, 5, 6}
  {
    PresetDecodesTo(i);
    var c := PresetChannels[i];
    var text := Presets[i].text;
    var t := TextColorFor(c.red, c.green, c.blue);
    if i == 0 { assert t == text; }
    else if i == 1 { assert t == Black != text; }
    else if i == 2 { assert t == text; }
    else if i == 3 { assert t == text; }
    else if i == 4 { assert t == Black != text; }
    else if i == 5 { assert t == text; }
    else if i == 6 { assert t == text; }
    else { assert t == Black != text; }
  }
}
