/** Hexadecimal colour strings as the colour picker writes them (`rgbToHex`,
    built on JavaScript's `Number.prototype.toString(16)`) and reads them back
    (the inline decoder of `applyPresetColor`, built on `String.replace`,
    `String.substr` and `parseInt(_, 16)`). */
module Hex {

  /** A colour as three channel values. */
  datatype Rgb = Rgb(red: int, green: int, blue: int)

  /** A slider value: the range inputs have `min="0"` and `max={255}`. */
  predicate IsChannel(x: int) {
    0 <= x <= 255
  }

  predicate ValidRgb(c: Rgb) {
    IsChannel(c.red) && IsChannel(c.green) && IsChannel(c.blue)
  }

  /** A digit as `toString(16)` writes it: always lower case. */
  predicate IsLowerHexDigit(c: char) {
    '0' <= c <= '9' || 'a' <= c <= 'f'
  }

  /** A digit as `parseInt(_, 16)` accepts it: either case. */
  predicate IsHexDigit(c: char) {
    IsLowerHexDigit(c) || 'A' <= c <= 'F'
  }

  predicate AllHexDigits(s: string) {
    forall i :: 0 <= i < |s| ==> IsHexDigit(s[i])
  }

  /** ASCII lower-casing of one character (`String.prototype.toLowerCase`
      restricted to the characters colour strings use). */
  function LowerChar(c: char): char {
    if 'A' <= c <= 'Z' then (c as int + 32) as char else c
  }

  function LowerAscii(s: string): (t: string)
    ensures |t| == |s|
    ensures forall i :: 0 <= i < |s| ==> t[i] == LowerChar(s[i])
  {
    seq(|s|, i requires 0 <= i < |s| => LowerChar(s[i]))
  }

  /** The value `parseInt(_, 16)` gives one hexadecimal digit. */
  function DigitValue(c: char): (d: int)
    requires IsHexDigit(c)
    ensures 0 <= d < 16
  {
    if '0' <= c <= '9' then c as int - '0' as int
    else if 'a' <= c <= 'f' then c as int - 'a' as int + 10
    else c as int - 'A' as int + 10
  }

  /** The digit `toString(16)` writes for a value below sixteen. */
  function HexDigit(d: int): (c: char)
    requires 0 <= d < 16
    ensures IsLowerHexDigit(c)
    ensures DigitValue(c) == d
  {
    if d < 10 then ('0' as int + d) as char else ('a' as int + d - 10) as char
  }

  /** Reading a digit and writing its value again lower-cases it. */
  lemma HexDigitOfValue(c: char)
    requires IsHexDigit(c)
    ensures HexDigit(DigitValue(c)) == LowerChar(c)
  {
  }

  /** `n.toString(16)` for a non-negative integer: the shortest lower-case
      base-16 numeral, with no leading zero except for zero itself. */
  function ToHexString(n: nat): (h: string)
    ensures |h| >= 1
    ensures forall i :: 0 <= i < |h| ==> IsLowerHexDigit(h[i])
    ensures h[0] == '0' <==> n == 0
    ensures |h| == 1 <==> n < 16
    ensures n < 256 ==> |h| <= 2
    decreases n
  {
    if n < 16 then [HexDigit(n)] else ToHexString(n / 16) + [HexDigit(n % 16)]
  }

  function Pow16(k: nat): (p: nat)
    ensures p >= 1
  {
    if k == 0 then 1 else 16 * Pow16(k - 1)
  }

  /** `parseInt(s, 16)` for a string made only of hexadecimal digits, read
      most significant digit first.  The empty string, on which `parseInt`
      gives `NaN`, is never passed by the decoder below. */
  function ParseHex(s: string): (n: nat)
    requires AllHexDigits(s)
    ensures n < Pow16(|s|)
  {
    if s == [] then 0 else 16 * ParseHex(s[..|s| - 1]) + DigitValue(s[|s| - 1])
  }

  lemma ParsePair(a: char, b: char)
    requires IsHexDigit(a) && IsHexDigit(b)
    ensures ParseHex([a, b]) == 16 * DigitValue(a) + DigitValue(b)
  {
    assert [a, b][..1] == [a];
    assert [a][..0] == [];
  }

  /** `parseInt(n.toString(16), 16) == n`. */
  lemma {:induction false} ParseToHexString(n: nat)
    ensures AllHexDigits(ToHexString(n))
    ensures ParseHex(ToHexString(n)) == n
    decreases n
  {
    var h := ToHexString(n);
    if n < 16 {
      assert h == [HexDigit(n)];
      assert h[..0] == [];
    } else {
      var p := ToHexString(n / 16);
      ParseToHexString(n / 16);
      assert h == p + [HexDigit(n % 16)];
      assert h[..|h| - 1] == p;
    }
  }

  /** One channel of `rgbToHex`: `x.toString(16)`, padded with a leading `0`
      when it has a single digit. */
  function ByteHex(x: int): (h: string)
    requires IsChannel(x)
    ensures |h| == 2
    ensures IsLowerHexDigit(h[0]) && IsLowerHexDigit(h[1])
    ensures h[0] == '0' <==> x < 16
    ensures ParseHex(h) == x
  {
    var hex := ToHexString(x);
    ParseToHexString(x);
    if |hex| == 1 then
      ParsePair('0', hex[0]);
      assert "0" + hex == ['0', hex[0]];
      "0" + hex
    else
      ParsePair(hex[0], hex[1]);
      assert hex == [hex[0], hex[1]];
      hex
  }

  /** `rgbToHex(r, g, b)`: `#` followed by two lower-case digits per channel. */
  function RgbToHex(r: int, g: int, b: int): (h: string)
    requires IsChannel(r) && IsChannel(g) && IsChannel(b)
    ensures |h| == 7 && h[0] == '#'
    ensures forall i :: 1 <= i < 7 ==> IsLowerHexDigit(h[i])
    ensures h[1] == '0' <==> r < 16
    ensures h[3] == '0' <==> g < 16
    ensures h[5] == '0' <==> b < 16
  {
    "#" + ByteHex(r) + ByteHex(g) + ByteHex(b)
  }

  /** What the decoder can read: `#` and six hexadecimal digits of either case. */
  predicate WellFormedHex(s: string) {
    |s| == 7 && s[0] == '#' && forall i :: 1 <= i < 7 ==> IsHexDigit(s[i])
  }

  /** `s.replace(c, "")` with a one-character pattern: drops the first
      occurrence of `c` only. */
  function RemoveFirst(s: string, c: char): (t: string)
    ensures c !in s ==> t == s
    ensures c in s ==> |t| == |s| - 1
    ensures |s| > 0 && s[0] == c ==> t == s[1..]
  {
    if s == [] then []
    else if s[0] == c then s[1..]
    else [s[0]] + RemoveFirst(s[1..], c)
  }

  /** `s.substr(start, len)` for non-negative arguments: clamped to the string. */
  function Substr(s: string, start: nat, len: nat): (t: string)
    ensures start + len <= |s| ==> t == s[start..start + len]
  {
    var lo := if start <= |s| then start else |s|;
    var hi := if start + len <= |s| then start + len else |s|;
    s[lo..hi]
  }

  /** The inverse of `rgbToHex` inlined in `applyPresetColor`: strip the `#`,
      then `parseInt` each two-character slice in base 16.  Each channel is
      the base-16 value of its pair of digits, whatever their case. */
  function DecodeHex(s: string): (c: Rgb)
    requires WellFormedHex(s)
    ensures ValidRgb(c)
    ensures c.red == 16 * DigitValue(s[1]) + DigitValue(s[2])
    ensures c.green == 16 * DigitValue(s[3]) + DigitValue(s[4])
    ensures c.blue == 16 * DigitValue(s[5]) + DigitValue(s[6])
  {
    var hex := RemoveFirst(s, '#');
    assert hex == s[1..];
    var rs, gs, bs := Substr(hex, 0, 2), Substr(hex, 2, 2), Substr(hex, 4, 2);
    assert rs == [s[1], s[2]] && gs == [s[3], s[4]] && bs == [s[5], s[6]];
    ParsePair(s[1], s[2]);
    ParsePair(s[3], s[4]);
    ParsePair(s[5], s[6]);
    Rgb(ParseHex(rs), ParseHex(gs), ParseHex(bs))
  }

  /** Round trip: decoding what `rgbToHex` writes gives back the channels. */
  lemma DecodeRgbToHex(r: int, g: int, b: int)
    requires IsChannel(r) && IsChannel(g) && IsChannel(b)
    ensures WellFormedHex(RgbToHex(r, g, b))
    ensures DecodeHex(RgbToHex(r, g, b)) == Rgb(r, g, b)
  {
    var h := RgbToHex(r, g, b);
    var hr, hg, hb := ByteHex(r), ByteHex(g), ByteHex(b);
    assert h[1..3] == hr && h[3..5] == hg && h[5..7] == hb;
    assert h[1] == hr[0] && h[2] == hr[1];
    assert h[3] == hg[0] && h[4] == hg[1];
    assert h[5] == hb[0] && h[6] == hb[1];
    ParsePair(hr[0], hr[1]);
    assert hr == [hr[0], hr[1]];
    ParsePair(hg[0], hg[1]);
    assert hg == [hg[0], hg[1]];
    ParsePair(hb[0], hb[1]);
    assert hb == [hb[0], hb[1]];
  }

  /** Writing the channel read from a digit pair gives the pair, lower-cased. */
  lemma ByteHexOfPair(a: char, b: char)
    requires IsHexDigit(a) && IsHexDigit(b)
    ensures IsChannel(16 * DigitValue(a) + DigitValue(b))
    ensures ByteHex(16 * DigitValue(a) + DigitValue(b)) == [LowerChar(a), LowerChar(b)]
  {
    var da, db := DigitValue(a), DigitValue(b);
    var h := ByteHex(16 * da + db);
    ParsePair(h[0], h[1]);
    assert h == [h[0], h[1]];
    assert DigitValue(h[0]) == da && DigitValue(h[1]) == db;
    HexDigitOfValue(a);
    HexDigitOfValue(b);
    HexDigitOfValue(h[0]);
    HexDigitOfValue(h[1]);
  }

  /** Round trip the other way: re-encoding a decoded colour string gives the
      string lower-cased, so `#3B82F6` comes back as `#3b82f6`. */
  lemma RgbToHexOfDecode(s: string)
    requires WellFormedHex(s)
    ensures RgbToHex(DecodeHex(s).red, DecodeHex(s).green, DecodeHex(s).blue) == LowerAscii(s)
  {
    var c := DecodeHex(s);
    var l := LowerAscii(s);
    var hr, hg, hb := ByteHex(c.red), ByteHex(c.green), ByteHex(c.blue);
    assert hr == [l[1], l[2]] by { ByteHexOfPair(s[1], s[2]); }
    assert hg == [l[3], l[4]] by { ByteHexOfPair(s[3], s[4]); }
    assert hb == [l[5], l[6]] by { ByteHexOfPair(s[5], s[6]); }
    var h := RgbToHex(c.red, c.green, c.blue);
    assert h == "#" + hr + hg + hb;
    assert l == [l[0]] + [l[1], l[2]] + [l[3], l[4]] + [l[5], l[6]];
  }

  /** A colour string is what `rgbToHex` writes exactly when it is
      well formed and has no upper-case digit. */
  lemma CanonicalHexIff(s: string)
    requires WellFormedHex(s)
    ensures RgbToHex(DecodeHex(s).red, DecodeHex(s).green, DecodeHex(s).blue) == s
      <==> forall i :: 1 <= i < 7 ==> IsLowerHexDigit(s[i])
  {
    RgbToHexOfDecode(s);
    var l := LowerAscii(s);
    if forall i :: 1 <= i < 7 ==> IsLowerHexDigit(s[i]) {
      assert forall i :: 0 <= i < 7 ==> l[i] == s[i];
    } else {
      var i :| 1 <= i < 7 && !IsLowerHexDigit(s[i]);
      assert l[i] != s[i];
    }
  }

  /** A well-formed colour string with an upper-case digit decodes to a
      colour whose `rgbToHex` is the string lower-cased, not the string. */
  lemma UpperCaseColour(s: string, k: int)
    requires WellFormedHex(s)
    requires 1 <= k < 7 && 'A' <= s[k] <= 'F'
    ensures ValidRgb(DecodeHex(s))
    ensures var c := DecodeHex(s); RgbToHex(c.red, c.green, c.blue) == LowerAscii(s)
    ensures var c := DecodeHex(s); RgbToHex(c.red, c.green, c.blue) != s
  {
    RgbToHexOfDecode(s);
    CanonicalHexIff(s);
  }
}
