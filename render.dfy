/**
 * The two serialisers of the colour generator (rgbToHex and rgbToString) and
 * the output dispatch on the format option, with a decoder for the hex form.
 */
module Render {
  import opened Wrappers
  import opened Numerals
  import opened HslColor

  /** One channel as rgbToHex first writes it: base-16 digits left-padded with '0' to two characters. */
  function PaddedHex(n: int): string
  {
    PadStart(ToRadixString(n, 16), 2, '0')
  }

  /** rgbToHex: the three padded channels joined, then upper-cased. */
  function RgbToHex(c: Rgb): string
  {
    ToUpperCase(PaddedHex(c.r) + PaddedHex(c.g) + PaddedHex(c.b))
  }

  /** A channel as a template literal writes it: its decimal numeral. */
  function Decimal(n: int): string
  {
    ToRadixString(n, 10)
  }

  /** rgbToString: the channels in decimal and the alpha text, in an rgba(...) template. */
  function RgbToString(c: Rgb, alpha: string): string
  {
    "rgba(" + Decimal(c.r) + ", " + Decimal(c.g) + ", " + Decimal(c.b) + ", " + alpha + ")"
  }

  /** The colour string returned for a format: '#' and the hex form for "hex", the rgba form for every other format. */
  function FormatColor(format: string, c: Rgb, alpha: string): string
  {
    var color := if format == "hex" then RgbToHex(c) else RgbToString(c, alpha);
    if format == "hex" then "#" + color else color
  }

  predicate IsUpperHexDigit(ch: char)
  {
    '0' <= ch <= '9' || 'A' <= ch <= 'F'
  }

  function UpperHexValue(ch: char): (v: nat)
    requires IsUpperHexDigit(ch)
    ensures v < 16
  {
    if ch <= '9' then ch as int - '0' as int else ch as int - 'A' as int + 10
  }

  /** The upper-case hex digit of d < 16. */
  function UpperHexChar(d: nat): (ch: char)
    requires d < 16
    ensures IsUpperHexDigit(ch) && UpperHexValue(ch) == d
    ensures ch == ToUpperChar(DigitChar(d))
  {
    if d < 10 then ('0' as int + d) as char else ('A' as int + d - 10) as char
  }

  /** The value of a two-character upper-case hex numeral. */
  function HexPairValue(a: char, b: char): (v: nat)
    requires IsUpperHexDigit(a) && IsUpperHexDigit(b)
    ensures v < 256
  {
    16 * UpperHexValue(a) + UpperHexValue(b)
  }

  /** Reads six upper-case hex digits back into the colour whose channels they encode, two per channel. */
  function DecodeHexColor(s: string): Option<Rgb>
  {
    if |s| == 6 && forall i :: 0 <= i < 6 ==> IsUpperHexDigit(s[i]) then
      Some(Rgb(HexPairValue(s[0], s[1]), HexPairValue(s[2], s[3]), HexPairValue(s[4], s[5])))
    else
      None
  }

  /** The base-16 digits of a channel in [0, 255]: one digit below 16, two from 16 on. */
  lemma HexDigitsOfChannel(n: int)
    requires ChannelInRange(n)
    ensures Digits(n, 16) == if n < 16 then [n] else [n / 16, n % 16]
  {
  }

  lemma DigitStringOfPair(a: nat, b: nat)
    requires a < 36 && b < 36
    ensures DigitString([a, b]) == [DigitChar(a), DigitChar(b)]
  {
  }

  /** A channel in [0, 255] is padded to exactly its two base-16 digits. */
  lemma PaddedHexDigits(n: int)
    requires ChannelInRange(n)
    ensures PaddedHex(n) == [DigitChar(n / 16), DigitChar(n % 16)]
  {
    HexDigitsOfChannel(n);
    if n < 16 {
      assert ToRadixString(n, 16) == [DigitChar(n)];
      assert DigitChar(0) == '0';
      assert n / 16 == 0 && n % 16 == n;
    } else {
      DigitStringOfPair(n / 16, n % 16);
    }
  }

  /** The hex form of a channel as rgbToHex leaves it, after upper-casing. */
  function UpperHexPair(n: int): string
    requires ChannelInRange(n)
  {
    [UpperHexChar(n / 16), UpperHexChar(n % 16)]
  }

  lemma UpperPaddedHex(n: int)
    requires ChannelInRange(n)
    ensures ToUpperCase(PaddedHex(n)) == UpperHexPair(n)
  {
    PaddedHexDigits(n);
    UpperOfPair(DigitChar(n / 16), DigitChar(n % 16));
  }

  lemma UpperOfPair(x: char, y: char)
    ensures ToUpperCase([x, y]) == [ToUpperChar(x), ToUpperChar(y)]
  {
  }

  lemma HexCharacters(c: Rgb)
    requires RgbInRange(c)
    ensures RgbToHex(c) == UpperHexPair(c.r) + UpperHexPair(c.g) + UpperHexPair(c.b)
  {
    var a, b, d := PaddedHex(c.r), PaddedHex(c.g), PaddedHex(c.b);
    ToUpperCaseConcat(a + b, d);
    ToUpperCaseConcat(a, b);
    UpperPaddedHex(c.r);
    UpperPaddedHex(c.g);
    UpperPaddedHex(c.b);
  }

  /**
   * For channels in [0, 255] rgbToHex writes exactly six characters from
   * 0-9A-F; characters 2i and 2i+1 hold channel i, so decoding them gives the
   * colour back.
   */
  lemma HexRoundTrip(c: Rgb)
    requires RgbInRange(c)
    ensures |RgbToHex(c)| == 6
    ensures forall i :: 0 <= i < 6 ==> IsUpperHexDigit(RgbToHex(c)[i])
    ensures DecodeHexColor(RgbToHex(c)) == Some(c)
  {
    HexCharacters(c);
    PairsDecode(c);
  }

  lemma PairsDecode(c: Rgb)
    requires RgbInRange(c)
    ensures var s := UpperHexPair(c.r) + UpperHexPair(c.g) + UpperHexPair(c.b);
      |s| == 6 && (forall i :: 0 <= i < 6 ==> IsUpperHexDigit(s[i])) && DecodeHexColor(s) == Some(c)
  {
  }

  /** Conversely, every six-digit upper-case hex string is the hex form of the colour it decodes to. */
  lemma HexDecodeEncode(s: string, c: Rgb)
    requires DecodeHexColor(s) == Some(c)
    ensures RgbInRange(c) && RgbToHex(c) == s
  {
    assert |s| == 6;
    assert IsUpperHexDigit(s[0]) && IsUpperHexDigit(s[1]) && IsUpperHexDigit(s[2]);
    assert IsUpperHexDigit(s[3]) && IsUpperHexDigit(s[4]) && IsUpperHexDigit(s[5]);
    assert c == Rgb(HexPairValue(s[0], s[1]), HexPairValue(s[2], s[3]), HexPairValue(s[4], s[5]));
    PairOfValue(s[0], s[1]);
    PairOfValue(s[2], s[3]);
    PairOfValue(s[4], s[5]);
    assert s == [s[0], s[1]] + [s[2], s[3]] + [s[4], s[5]];
    HexCharacters(c);
  }

  lemma PairOfValue(a: char, b: char)
    requires IsUpperHexDigit(a) && IsUpperHexDigit(b)
    ensures UpperHexPair(HexPairValue(a, b)) == [a, b]
  {
  }

  /** The position of the first ',' in s, or |s| when there is none. */
  function FirstComma(s: string): (k: nat)
    ensures k <= |s|
  {
    if |s| == 0 || s[0] == ',' then 0 else 1 + FirstComma(s[1..])
  }

  predicate NoComma(d: string)
  {
    forall i :: 0 <= i < |d| ==> d[i] != ','
  }

  lemma {:induction false} FirstCommaAfter(d: string, t: string)
    requires NoComma(d) && |t| > 0 && t[0] == ','
    ensures FirstComma(d + t) == |d|
    decreases |d|
  {
    if |d| > 0 {
      assert (d + t)[1..] == d[1..] + t;
      FirstCommaAfter(d[1..], t);
    }
  }

  /** Two comma-free fields each followed by a comma can only be equal as wholes if the fields are. */
  lemma SplitAtComma(d1: string, t1: string, d2: string, t2: string)
    requires NoComma(d1) && NoComma(d2)
    requires |t1| > 0 && t1[0] == ',' && |t2| > 0 && t2[0] == ','
    requires d1 + t1 == d2 + t2
    ensures d1 == d2 && t1 == t2
  {
    FirstCommaAfter(d1, t1);
    FirstCommaAfter(d2, t2);
    assert d1 == (d1 + t1)[..|d1|];
    assert d2 == (d2 + t2)[..|d2|];
    assert t1 == (d1 + t1)[|d1|..];
    assert t2 == (d2 + t2)[|d2|..];
  }

  lemma DecimalNoComma(n: int)
    ensures NoComma(Decimal(n))
  {
    RadixStringCharacters(n, 10);
  }

  /** A comma-free field followed by ", " and a rest: equal texts have equal fields and equal rests. */
  lemma PeelField(d1: string, r1: string, d2: string, r2: string)
    requires NoComma(d1) && NoComma(d2)
    requires d1 + (", " + r1) == d2 + (", " + r2)
    ensures d1 == d2 && r1 == r2
  {
    SplitAtComma(d1, ", " + r1, d2, ", " + r2);
    assert r1 == (", " + r1)[2..];
    assert r2 == (", " + r2)[2..];
  }

  /** The rgba text with its concatenations grouped from the right. */
  lemma RgbaLayout(c: Rgb, alpha: string)
    ensures RgbToString(c, alpha) ==
      "rgba(" + (Decimal(c.r) + (", " + (Decimal(c.g) + (", " + (Decimal(c.b) + (", " + (alpha + ")")))))))
  {
  }

  /**
   * rgbToString loses nothing: the rgba text determines the three channels and
   * the alpha text it was written from, which it carries unchanged.
   */
  lemma RgbaInjective(c1: Rgb, alpha1: string, c2: Rgb, alpha2: string)
    requires RgbToString(c1, alpha1) == RgbToString(c2, alpha2)
    ensures c1 == c2 && alpha1 == alpha2
  {
    RgbaLayout(c1, alpha1);
    RgbaLayout(c2, alpha2);
    var t3, u3 := alpha1 + ")", alpha2 + ")";
    var t2, u2 := Decimal(c1.b) + (", " + t3), Decimal(c2.b) + (", " + u3);
    var t1, u1 := Decimal(c1.g) + (", " + t2), Decimal(c2.g) + (", " + u2);
    var t0, u0 := Decimal(c1.r) + (", " + t1), Decimal(c2.r) + (", " + u1);
    assert t0 == RgbToString(c1, alpha1)[5..];
    assert u0 == RgbToString(c2, alpha2)[5..];
    DecimalNoComma(c1.r); DecimalNoComma(c2.r);
    PeelField(Decimal(c1.r), t1, Decimal(c2.r), u1);
    DecimalNoComma(c1.g); DecimalNoComma(c2.g);
    PeelField(Decimal(c1.g), t2, Decimal(c2.g), u2);
    DecimalNoComma(c1.b); DecimalNoComma(c2.b);
    PeelField(Decimal(c1.b), t3, Decimal(c2.b), u3);
    assert alpha1 == t3[..|t3| - 1];
    assert alpha2 == u3[..|u3| - 1];
    RadixInjective(c1.r, c2.r, 10);
    RadixInjective(c1.g, c2.g, 10);
    RadixInjective(c1.b, c2.b, 10);
  }

  /** A channel in [0, 255] is written in the rgba text as one to three decimal digits. */
  lemma DecimalChannelDigits(n: int)
    requires ChannelInRange(n)
    ensures 1 <= |Decimal(n)| <= 3
    ensures forall i :: 0 <= i < |Decimal(n)| ==> '0' <= Decimal(n)[i] <= '9'
  {
    assert Pow(10, 3) == 1000 by {
      assert Pow(10, 1) == 10;
      assert Pow(10, 2) == 100;
    }
    DigitsLength(n, 10, 3);
  }

  /** Each channel of the rgba text reads back, as a decimal numeral, to the channel. */
  lemma DecimalRoundTrip(n: int)
    ensures ParseRadix(Decimal(n), 10) == Some(n)
  {
    RadixRoundTrip(n, 10);
  }

  /**
   * Only "hex" selects the hex form: for channels in [0, 255] the result is a
   * '#' followed by six hex digits exactly when the format is "hex" (and then
   * decodes to the colour); every other format gives the rgba text.
   */
  lemma FormatDispatch(format: string, c: Rgb, alpha: string)
    requires RgbInRange(c)
    ensures var s := FormatColor(format, c, alpha);
      (|s| == 7 && s[0] == '#') <==> format == "hex"
    ensures format == "hex" ==> DecodeHexColor(FormatColor(format, c, alpha)[1..]) == Some(c)
    ensures format != "hex" ==> FormatColor(format, c, alpha) == RgbToString(c, alpha)
  {
    HexRoundTrip(c);
    var s := FormatColor(format, c, alpha);
    if format == "hex" {
      assert s[1..] == RgbToHex(c);
    } else {
      assert s[0] == 'r';
    }
  }
}
