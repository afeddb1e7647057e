/** The colour conversion of app/composables/useThemeColors.ts: `hexToRgb`, which turns a
    colour written as six hexadecimal digits into the "r, g, b" text used in CSS variables. */
module ColorCodec {
  import opened Results
  import opened JsNumber
  import Hex

  /** What /^#?([a-f\d]{2})([a-f\d]{2})([a-f\d]{2})$/i matches: six hexadecimal digits of
      either case, with or without a leading '#'. */
  predicate IsHexColor(s: string) {
    || (|s| == 6 && AllDigits(s, 16))
    || (|s| == 7 && s[0] == '#' && AllDigits(s[1..], 16))
  }

  /** The six digits of a colour the pattern matched. */
  function ColorDigits(s: string): (d: string)
    requires IsHexColor(s)
    ensures |d| == 6 && AllDigits(d, 16)
    ensures d == s[|s| - 6..]
  {
    if |s| == 7 then s[1..] else s
  }

  /** The value of the channel written by digits i and i + 1 of `d`. */
  function ChannelValue(d: string, i: nat): (v: byte)
    requires i + 2 <= |d| && AllDigits(d, 16)
  {
    DigitValue(d[i]) * 16 + DigitValue(d[i + 1])
  }

  /** The channel value is what `parseInt(pair, 16)` returns for the pair of digits: two
      hexadecimal digits never begin with "0x", so parseInt reads them as their value. */
  lemma ChannelIsParseInt(d: string, i: nat)
    requires i + 2 <= |d| && AllDigits(d, 16)
    ensures ParseIntHex(d[i..i + 2]) == Some(ChannelValue(d, i) as int)
  {
    var pair := d[i..i + 2];
    assert pair[0] == d[i] && pair[1] == d[i + 1];
    assert AllDigits(pair, 16);
    ParseIntHexOfDigits(pair);
    Hex.ParseTwoDigits(pair);
  }

  /** The "r, g, b" text of three channel values, each in decimal. */
  function RgbText(r: byte, g: byte, b: byte): (t: string)
    ensures |t| >= 7
  {
    NatToString(r, 10) + ", " + NatToString(g, 10) + ", " + NatToString(b, 10)
  }

  /** hexToRgb: the three channels of a matching colour in decimal, or None (null). */
  function HexToRgb(s: string): (r: Option<string>)
    ensures r.Some? <==> IsHexColor(s)
    ensures r.Some? ==> |r.value| >= 7
  {
    if !IsHexColor(s) then None
    else
      var d := ColorDigits(s);
      Some(RgbText(ChannelValue(d, 0), ChannelValue(d, 2), ChannelValue(d, 4)))
  }

  /** hexToRgb as the source computes it: each pair of digits through parseInt(…, 16), a
      value between 0 and 255, written in decimal. With HashOptional this covers every
      colour the pattern matches. */
  lemma HexToRgbReadsPairs(d: string)
    requires |d| == 6 && AllDigits(d, 16)
    ensures var r, g, b := ParseIntHex(d[0..2]), ParseIntHex(d[2..4]), ParseIntHex(d[4..6]);
      && r.Some? && g.Some? && b.Some?
      && 0 <= r.value < 256 && 0 <= g.value < 256 && 0 <= b.value < 256
      && HexToRgb(d) == Some(RgbText(r.value as byte, g.value as byte, b.value as byte))
  {
    ChannelsAreParseInt(d);
    HexToRgbOfDigitsAlone(d);
  }

  lemma ChannelsAreParseInt(d: string)
    requires |d| == 6 && AllDigits(d, 16)
    ensures ParseIntHex(d[0..2]) == Some(ChannelValue(d, 0) as int)
    ensures ParseIntHex(d[2..4]) == Some(ChannelValue(d, 2) as int)
    ensures ParseIntHex(d[4..6]) == Some(ChannelValue(d, 4) as int)
  {
    assert ParseIntHex(d[0..2]) == Some(ChannelValue(d, 0) as int) by { ChannelIsParseInt(d, 0); }
    assert ParseIntHex(d[2..4]) == Some(ChannelValue(d, 2) as int) by { ChannelIsParseInt(d, 2); }
    assert ParseIntHex(d[4..6]) == Some(ChannelValue(d, 4) as int) by { ChannelIsParseInt(d, 4); }
  }

  lemma HexToRgbOfDigitsAlone(d: string)
    requires |d| == 6 && AllDigits(d, 16)
    ensures HexToRgb(d) == Some(RgbText(ChannelValue(d, 0), ChannelValue(d, 2), ChannelValue(d, 4)))
  {
    assert ColorDigits(d) == d;
  }

  /** The leading '#' is optional: six digits read the same with or without it. */
  lemma HashOptional(d: string)
    requires |d| == 6 && AllDigits(d, 16)
    ensures HexToRgb("#" + d) == HexToRgb(d)
  {
    assert ("#" + d)[1..] == d;
  }

  /** hexToRgb reads back the channels of a colour written as '#' and six lower-case hex digits. */
  lemma HexToRgbOfEncoding(r: byte, g: byte, b: byte)
    ensures HexToRgb("#" + Hex.EncodeHex([r, g, b])) == Some(RgbText(r, g, b))
  {
    EncodeThree(r, g, b);
    ChannelsOfDigits(r, g, b);
    HexToRgbOfDigits(Hex.EncodeHex([r, g, b]));
  }

  /** The six digits of three encoded bytes. */
  lemma EncodeThree(r: byte, g: byte, b: byte)
    ensures Hex.EncodeHex([r, g, b])
      == [DigitChar(r / 16), DigitChar(r % 16), DigitChar(g / 16), DigitChar(g % 16), DigitChar(b / 16), DigitChar(b % 16)]
  {
    EncodeThreeBytes(r, g, b);
    Hex.ByteToHexDigits(r);
    Hex.ByteToHexDigits(g);
    Hex.ByteToHexDigits(b);
    ThreePairs(DigitChar(r / 16), DigitChar(r % 16), DigitChar(g / 16), DigitChar(g % 16), DigitChar(b / 16), DigitChar(b % 16));
  }

  lemma ThreePairs(a: char, b: char, c: char, d: char, e: char, f: char)
    ensures [a, b] + [c, d] + [e, f] == [a, b, c, d, e, f]
  {
  }

  lemma EncodeThreeBytes(r: byte, g: byte, b: byte)
    ensures Hex.EncodeHex([r, g, b]) == Hex.ByteToHex(r) + Hex.ByteToHex(g) + Hex.ByteToHex(b)
  {
    Hex.EncodeHexCons(r, [g, b]);
    Hex.EncodeHexCons(g, [b]);
    Hex.EncodeHexCons(b, []);
  }

  /** Those six digits are read back as the three bytes. */
  lemma ChannelsOfDigits(r: byte, g: byte, b: byte)
    ensures var e := [DigitChar(r / 16), DigitChar(r % 16), DigitChar(g / 16), DigitChar(g % 16), DigitChar(b / 16), DigitChar(b % 16)];
      && |e| == 6 && AllDigits(e, 16)
      && ChannelValue(e, 0) == r && ChannelValue(e, 2) == g && ChannelValue(e, 4) == b
  {
  }

  /** hexToRgb of '#' and six digits is made of the three channels those digits write. */
  lemma HexToRgbOfDigits(d: string)
    requires |d| == 6 && AllDigits(d, 16)
    ensures HexToRgb("#" + d) == Some(RgbText(ChannelValue(d, 0), ChannelValue(d, 2), ChannelValue(d, 4)))
  {
    assert ("#" + d)[1..] == d;
  }

  /** A two-digit number in decimal is its tens digit then its units digit. */
  lemma TwoDecimalDigits(n: nat, tens: char, units: char)
    requires 10 <= n < 100 && tens == DigitChar(n / 10) && units == DigitChar(n % 10)
    ensures NatToString(n, 10) == [tens, units]
  {
    assert NatToString(n / 10, 10) == [DigitChar(n / 10)];
  }

  /** A three-digit number below 256 in decimal is its hundreds, tens and units digits. */
  lemma ThreeDecimalDigits(n: nat, hundreds: char, tens: char, units: char)
    requires 100 <= n < 256
    requires hundreds == DigitChar(n / 100) && tens == DigitChar(n / 10 % 10) && units == DigitChar(n % 10)
    ensures NatToString(n, 10) == [hundreds, tens, units]
  {
    assert n / 10 / 10 == n / 100;
    TwoDecimalDigits(n / 10, hundreds, tens);
  }

  /** Medium blue, #3b82f6, is "59, 130, 246". */
  lemma BlueRgb()
    ensures HexToRgb("#3b82f6") == Some("59, 130, 246")
  {
    BlueChannels();
    BlueDecimals();
  }

  lemma BlueChannels()
    ensures HexToRgb("#3b82f6") == Some(RgbText(59, 130, 246))
  {
    var d := "#3b82f6"[1..];
    assert d == "3b82f6";
    assert IsHexColor("#3b82f6");
    assert ChannelValue(d, 0) == 59 && ChannelValue(d, 2) == 130 && ChannelValue(d, 4) == 246;
  }

  lemma BlueDecimals()
    ensures RgbText(59, 130, 246) == "59, 130, 246"
  {
    TwoDecimalDigits(59, '5', '9');
    ThreeDecimalDigits(130, '1', '3', '0');
    ThreeDecimalDigits(246, '2', '4', '6');
    RgbTextOfDecimals(59, 130, 246, "59", "130", "246");
    assert "59" + ", " + "130" + ", " + "246" == "59, 130, 246";
  }

  /** RgbText from the decimal texts of its three channels. */
  lemma RgbTextOfDecimals(r: byte, g: byte, b: byte, rs: string, gs: string, bs: string)
    requires NatToString(r, 10) == rs && NatToString(g, 10) == gs && NatToString(b, 10) == bs
    ensures RgbText(r, g, b) == rs + ", " + gs + ", " + bs
  {
  }

  /** Emerald green, #10b981, is "16, 185, 129". */
  lemma EmeraldRgb()
    ensures HexToRgb("#10b981") == Some("16, 185, 129")
  {
    EmeraldChannels();
    EmeraldDecimals();
  }

  lemma EmeraldChannels()
    ensures HexToRgb("#10b981") == Some(RgbText(16, 185, 129))
  {
    var d := "#10b981"[1..];
    assert d == "10b981";
    assert IsHexColor("#10b981");
    assert ChannelValue(d, 0) == 16 && ChannelValue(d, 2) == 185 && ChannelValue(d, 4) == 129;
  }

  lemma EmeraldDecimals()
    ensures RgbText(16, 185, 129) == "16, 185, 129"
  {
    TwoDecimalDigits(16, '1', '6');
    ThreeDecimalDigits(185, '1', '8', '5');
    ThreeDecimalDigits(129, '1', '2', '9');
    RgbTextOfDecimals(16, 185, 129, "16", "185", "129");
    assert "16" + ", " + "185" + ", " + "129" == "16, 185, 129";
  }
}
