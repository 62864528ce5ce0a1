/**
 * The HSL-to-RGB conversion of the colour generator (hslToRgb), computed over
 * real numbers as the source writes it. Note that the lightness offset m is
 * the only term scaled by 255: a channel is round(pre + m * 255), where pre is
 * the chroma-derived value of the hue sector (in [0, 1]).
 */
module HslColor {

  /** A colour in HSL form: hue in degrees, saturation and lightness as fractions. */
  datatype Hsl = Hsl(h: int, s: real, l: real)

  /** A colour with red, green and blue channels. */
  datatype Rgb = Rgb(r: int, g: int, b: int)

  predicate ChannelInRange(v: int)
  {
    0 <= v <= 255
  }

  predicate RgbInRange(c: Rgb)
  {
    ChannelInRange(c.r) && ChannelInRange(c.g) && ChannelInRange(c.b)
  }

  /** Math.abs */
  function Abs(x: real): (a: real)
    ensures 0.0 <= a && (a == x || a == -x)
  {
    if x < 0.0 then -x else x
  }

  /** Truncation toward zero. */
  function Trunc(x: real): (t: int)
    ensures 0.0 <= x ==> t as real <= x < t as real + 1.0
    ensures x < 0.0 ==> t as real - 1.0 < x <= t as real
  {
    if 0.0 <= x then x.Floor else -((-x).Floor)
  }

  /** JavaScript's `%`: the remainder of a truncating division, with the sign of the dividend. */
  function JsRemainder(a: real, b: real): (r: real)
    requires 0.0 < b
    ensures 0.0 <= a ==> 0.0 <= r < b
    ensures a < 0.0 ==> -b < r <= 0.0
    ensures ((a - r) / b).Floor as real == (a - r) / b
  {
    TruncatedQuotientBounds(a, b);
    var t := Trunc(a / b);
    WholeQuotient(a, b, t);
    a - b * t as real
  }

  /** Dividing a - (a - b * t) by b gives back the integer t. */
  lemma WholeQuotient(a: real, b: real, t: int)
    requires 0.0 < b
    ensures ((a - (a - b * t as real)) / b).Floor as real == (a - (a - b * t as real)) / b
  {
    var q := a - (a - b * t as real);
    assert q == b * t as real;
    assert q / b == t as real;
  }

  /** The truncated quotient t of a by b > 0 satisfies t * b <= a < (t + 1) * b or, for a negative a, (t - 1) * b < a <= t * b. */
  lemma TruncatedQuotientBounds(a: real, b: real)
    requires 0.0 < b
    ensures 0.0 <= a ==> Trunc(a / b) as real * b <= a < (Trunc(a / b) as real + 1.0) * b
    ensures a < 0.0 ==> (Trunc(a / b) as real - 1.0) * b < a <= Trunc(a / b) as real * b
  {
    var t := Trunc(a / b) as real;
    QuotientBetween(a, b, if 0.0 <= a then t else t - 1.0, if 0.0 <= a then t + 1.0 else t);
  }

  /** u <= a / b < v with b > 0 gives u * b <= a < v * b. */
  lemma QuotientBetween(a: real, b: real, u: real, v: real)
    requires 0.0 < b
    requires u <= a / b < v || u < a / b <= v
    ensures u <= a / b < v ==> u * b <= a < v * b
    ensures u < a / b <= v ==> u * b < a <= v * b
  {
  }

  /** Math.round: the nearest integer, halves rounded up. */
  function Round(x: real): (n: int)
    ensures n as real - 0.5 <= x < n as real + 0.5
  {
    (x + 0.5).Floor
  }

  /** The chroma c = (1 - |2l - 1|) * s. */
  function Chroma(s: real, l: real): real
  {
    (1.0 - Abs(2.0 * l - 1.0)) * s
  }

  /** The intermediate value x = c * (1 - |(h / 60) % 2 - 1|). */
  function HueBlend(h: int, c: real): real
  {
    c * (1.0 - Abs(JsRemainder(h as real / 60.0, 2.0) - 1.0))
  }

  /** The lightness offset m = l - c / 2. */
  function LightnessOffset(l: real, c: real): real
  {
    l - c / 2.0
  }

  /** The (r, g, b) that the table of hue sectors gives to sector k (0 to 5). */
  function SectorTriple(k: int, c: real, x: real): (real, real, real)
  {
    match k
    case 0 => (c, x, 0.0)
    case 1 => (x, c, 0.0)
    case 2 => (0.0, c, x)
    case 3 => (0.0, x, c)
    case 4 => (x, 0.0, c)
    case 5 => (c, 0.0, x)
    case _ => (0.0, 0.0, 0.0)
  }

  /**
   * The channel values before the lightness adjustment, chosen by a chain of
   * six 60-degree hue tests with a fall-back of (0, 0, 0). A hue in [0, 360)
   * lands in exactly one sector, number h / 60, so the result is a permutation
   * of (c, x, 0); any other hue, 360 among them, gets (0, 0, 0).
   */
  function PreAdjustment(h: int, c: real, x: real): (p: (real, real, real))
    ensures 0 <= h < 360 ==> p == SectorTriple(h / 60, c, x)
    ensures 0 <= h < 360 ==> multiset{p.0, p.1, p.2} == multiset{c, x, 0.0}
    ensures !(0 <= h < 360) ==> p == (0.0, 0.0, 0.0)
  {
    if 0 <= h < 60 then (c, x, 0.0)
    else if 60 <= h < 120 then (x, c, 0.0)
    else if 120 <= h < 180 then (0.0, c, x)
    else if 180 <= h < 240 then (0.0, x, c)
    else if 240 <= h < 300 then (x, 0.0, c)
    else if 300 <= h < 360 then (c, 0.0, x)
    else (0.0, 0.0, 0.0)
  }

  /** hslToRgb as written: every channel is round(pre + m * 255). */
  function HslToRgb(hsl: Hsl): Rgb
  {
    var c := Chroma(hsl.s, hsl.l);
    var x := HueBlend(hsl.h, c);
    var m := LightnessOffset(hsl.l, c);
    var (r, g, b) := PreAdjustment(hsl.h, c, x);
    Rgb(Round(r + m * 255.0), Round(g + m * 255.0), Round(b + m * 255.0))
  }

  predicate UnitInterval(v: real)
  {
    0.0 <= v <= 1.0
  }

  /**
   * For saturation and lightness in [0, 1] the chroma lies in [0, 1] and the
   * lightness offset in [0, l], hence in [0, 1]; moreover c + 255 * m never
   * exceeds 255, which is what keeps every channel in range.
   */
  lemma ChromaAndOffsetBounds(s: real, l: real)
    requires UnitInterval(s) && UnitInterval(l)
    ensures 0.0 <= Chroma(s, l) <= 1.0
    ensures 0.0 <= LightnessOffset(l, Chroma(s, l)) <= l <= 1.0
    ensures Chroma(s, l) + 255.0 * LightnessOffset(l, Chroma(s, l)) <= 255.0
  {
    var k := 1.0 - Abs(2.0 * l - 1.0);
    assert 0.0 <= k <= 1.0;
    assert k <= 2.0 * l && k <= 2.0 - 2.0 * l;
    ScaleWithin(k, s);
    assert 0.0 <= Chroma(s, l) <= k;
  }

  /** 0 <= a and 0 <= f <= 1 give 0 <= a * f <= a. */
  lemma ScaleWithin(a: real, f: real)
    requires 0.0 <= a && UnitInterval(f)
    ensures 0.0 <= a * f <= a
  {
    assert a * f <= a * 1.0;
  }

  /** For a hue of at least 0 the intermediate value x lies between 0 and the chroma. */
  lemma HueBlendBounds(h: int, c: real)
    requires 0 <= h && 0.0 <= c
    ensures 0.0 <= HueBlend(h, c) <= c
  {
    var rem := JsRemainder(h as real / 60.0, 2.0);
    assert 0.0 <= rem < 2.0;
    var f := 1.0 - Abs(rem - 1.0);
    assert UnitInterval(f);
    ScaleWithin(c, f);
  }

  /** round(v) of a v in [0, 255] is a channel value. */
  lemma RoundChannel(v: real)
    requires 0.0 <= v <= 255.0
    ensures ChannelInRange(Round(v))
  {
  }

  /** For saturation and lightness in [0, 1] (any hue) every channel lies in [0, 255]. */
  lemma ChannelsInRange(hsl: Hsl)
    requires UnitInterval(hsl.s) && UnitInterval(hsl.l)
    ensures RgbInRange(HslToRgb(hsl))
  {
    var c := Chroma(hsl.s, hsl.l);
    var m := LightnessOffset(hsl.l, c);
    ChromaAndOffsetBounds(hsl.s, hsl.l);
    var p := PreAdjustment(hsl.h, c, HueBlend(hsl.h, c));
    if 0 <= hsl.h < 360 {
      HueBlendBounds(hsl.h, c);
    }
    assert 0.0 <= p.0 <= c && 0.0 <= p.1 <= c && 0.0 <= p.2 <= c;
    RoundChannel(p.0 + m * 255.0);
    RoundChannel(p.1 + m * 255.0);
    RoundChannel(p.2 + m * 255.0);
  }

  /** With saturation 0 the chroma vanishes and the colour is the grey round(l * 255). */
  lemma UnsaturatedIsGrey(hsl: Hsl)
    requires hsl.s == 0.0
    ensures HslToRgb(hsl) == Rgb(Round(hsl.l * 255.0), Round(hsl.l * 255.0), Round(hsl.l * 255.0))
  {
  }

  /** Lightness 0 gives black and lightness 1 gives white, whatever the hue and saturation. */
  lemma ExtremeLightness(hsl: Hsl)
    requires hsl.l == 0.0 || hsl.l == 1.0
    ensures hsl.l == 0.0 ==> HslToRgb(hsl) == Rgb(0, 0, 0)
    ensures hsl.l == 1.0 ==> HslToRgb(hsl) == Rgb(255, 255, 255)
  {
    var c := Chroma(hsl.s, hsl.l);
    assert c == 0.0;
    assert HueBlend(hsl.h, c) == 0.0;
    assert LightnessOffset(hsl.l, c) == hsl.l;
  }

  /**
   * A hue outside [0, 360), such as the 360 that validation admits, takes the
   * fall-back branch: all three channels equal round(m * 255).
   */
  lemma HueOutsideSectorsIsGrey(hsl: Hsl)
    requires !(0 <= hsl.h < 360)
    ensures var v := Round(LightnessOffset(hsl.l, Chroma(hsl.s, hsl.l)) * 255.0);
            HslToRgb(hsl) == Rgb(v, v, v)
  {
  }

  /**
   * Hue 0, saturation 1, lightness 0.5 has chroma 1 and offset 0, so the code
   * as written gives (1, 0, 0): the chroma is added unscaled to m * 255.
   */
  lemma FullySaturatedRedAsWritten()
    ensures HslToRgb(Hsl(0, 1.0, 0.5)) == Rgb(1, 0, 0)
  {
  }
}
