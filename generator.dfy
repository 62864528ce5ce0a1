/**
 * generateRandomColor: option defaults, the range validation, the three
 * bounded random draws, the HSL-to-RGB conversion and the format dispatch.
 * Math.random is not modelled; its three results are passed in as Draws.
 */
module ColorGenerator {
  import opened Wrappers
  import opened HslColor
  import opened Render

  /** An inclusive integer range [lo, hi], written [lo, hi] in the options. */
  datatype Range = Range(lo: int, hi: int)

  /** The options object; a None field is an option left out, which takes its default. */
  datatype Options = Options(
    format: Option<string>,
    alpha: Option<string>,
    hueRange: Option<Range>,
    saturationRange: Option<Range>,
    lightnessRange: Option<Range>)

  /** The options after destructuring with defaults. The alpha is kept as the text it is written as. */
  datatype Settings = Settings(format: string, alpha: string, hue: Range, saturation: Range, lightness: Range)

  /** The three values Math.random returns during one call, in the order they are drawn. */
  datatype Draws = Draws(hue: real, saturation: real, lightness: real)

  const InvalidRangeMessage := "Invalid range values. Please check hue, saturation, and lightness ranges."

  const NoOptions := Options(None, None, None, None, None)

  function OrDefault<T>(o: Option<T>, default: T): T
  {
    match o
    case Some(v) => v
    case None => default
  }

  /** The defaults "hex", 1, [0, 360], [0, 100] and [0, 100] for the options left out. */
  function WithDefaults(o: Options): Settings
  {
    Settings(
      OrDefault(o.format, "hex"),
      OrDefault(o.alpha, "1"),
      OrDefault(o.hueRange, Range(0, 360)),
      OrDefault(o.saturationRange, Range(0, 100)),
      OrDefault(o.lightnessRange, Range(0, 100)))
  }

  /** 0 <= lo <= hi <= max. */
  predicate RangeWithin(r: Range, max: int)
  {
    0 <= r.lo <= r.hi <= max
  }

  /** The ranges validation accepts: hue within [0, 360], saturation and lightness within [0, 100]. */
  predicate RangesValid(s: Settings)
  {
    RangeWithin(s.hue, 360) && RangeWithin(s.saturation, 100) && RangeWithin(s.lightness, 100)
  }

  /**
   * The fifteen-way test of the validation: some bound of a range lies below
   * 0 or above the range's maximum, or its lower bound exceeds its upper one.
   * It rejects exactly the settings whose ranges are not all valid.
   */
  function RangesRejected(s: Settings): (rejected: bool)
    ensures rejected <==> !RangesValid(s)
  {
    s.hue.lo < 0 || s.hue.lo > 360 || s.hue.hi < 0 || s.hue.hi > 360 || s.hue.lo > s.hue.hi ||
    s.saturation.lo < 0 || s.saturation.lo > 100 || s.saturation.hi < 0 || s.saturation.hi > 100 ||
    s.saturation.lo > s.saturation.hi ||
    s.lightness.lo < 0 || s.lightness.lo > 100 || s.lightness.hi < 0 || s.lightness.hi > 100 ||
    s.lightness.lo > s.lightness.hi
  }

  /** What Math.random promises: a value in [0, 1). */
  predicate UnitDraw(u: real)
  {
    0.0 <= u < 1.0
  }

  predicate ValidDraws(d: Draws)
  {
    UnitDraw(d.hue) && UnitDraw(d.saturation) && UnitDraw(d.lightness)
  }

  /** floor(u * (hi - lo + 1)) + lo */
  function Draw(r: Range, u: real): int
  {
    (u * (r.hi - r.lo + 1) as real).Floor + r.lo
  }

  /**
   * A draw is lo + k for an offset k in [0, hi - lo], so it lies in the
   * inclusive range; a range [a, a] always gives a.
   */
  lemma DrawInRange(r: Range, u: real)
    requires r.lo <= r.hi && UnitDraw(u)
    ensures r.lo <= Draw(r, u) <= r.hi
    ensures 0 <= Draw(r, u) - r.lo <= r.hi - r.lo
    ensures r.lo == r.hi ==> Draw(r, u) == r.lo
  {
  }

  /** Every value of the range is drawn for some value of Math.random: the value v comes from u = (v - lo) / (hi - lo + 1). */
  lemma DrawReachesEveryValue(r: Range, v: int)
    requires r.lo <= v <= r.hi
    ensures var u := (v - r.lo) as real / (r.hi - r.lo + 1) as real;
      UnitDraw(u) && Draw(r, u) == v
  {
  }

  /** The HSL colour built from the draws: hue in degrees, saturation and lightness divided by 100. */
  function DrawnHsl(s: Settings, d: Draws): Hsl
  {
    Hsl(Draw(s.hue, d.hue), Draw(s.saturation, d.saturation) as real / 100.0,
        Draw(s.lightness, d.lightness) as real / 100.0)
  }

  /** The colour of generateRandomColor before it is rendered. */
  function DrawnRgb(s: Settings, d: Draws): Rgb
  {
    HslToRgb(DrawnHsl(s, d))
  }

  /** generateRandomColor: the validation error, or the colour rendered in the requested format. */
  function GenerateRandomColor(o: Options, d: Draws): Result<string, string>
  {
    var s := WithDefaults(o);
    if RangesRejected(s) then Failure(InvalidRangeMessage)
    else Success(FormatColor(s.format, DrawnRgb(s, d), s.alpha))
  }

  /**
   * The call fails exactly when a range is out of its domain or inverted, with
   * the one validation message; whether it fails does not depend on the draws.
   */
  lemma FailsExactlyOnInvalidRanges(o: Options, d: Draws)
    ensures GenerateRandomColor(o, d).Failure? <==> !RangesValid(WithDefaults(o))
    ensures GenerateRandomColor(o, d).Failure? ==> GenerateRandomColor(o, d).error == InvalidRangeMessage
  {
  }

  /**
   * With valid ranges the drawn hue lies in the hue range, and saturation and
   * lightness are n / 100 for an integer n in their ranges.
   */
  lemma DrawnHslInRanges(s: Settings, d: Draws)
    requires RangesValid(s) && ValidDraws(d)
    ensures s.hue.lo <= DrawnHsl(s, d).h <= s.hue.hi
    ensures var n := DrawnHsl(s, d).s * 100.0;
      n.Floor as real == n && s.saturation.lo <= n.Floor <= s.saturation.hi
    ensures var n := DrawnHsl(s, d).l * 100.0;
      n.Floor as real == n && s.lightness.lo <= n.Floor <= s.lightness.hi
    ensures s.saturation.lo as real / 100.0 <= DrawnHsl(s, d).s <= s.saturation.hi as real / 100.0
    ensures s.lightness.lo as real / 100.0 <= DrawnHsl(s, d).l <= s.lightness.hi as real / 100.0
    ensures UnitInterval(DrawnHsl(s, d).s) && UnitInterval(DrawnHsl(s, d).l)
  {
    DrawInRange(s.hue, d.hue);
    DrawInRange(s.saturation, d.saturation);
    DrawInRange(s.lightness, d.lightness);
    WholePercent(Draw(s.saturation, d.saturation));
    WholePercent(Draw(s.lightness, d.lightness));
  }

  /** A percentage v divided by 100 and scaled back by 100 is the integer v again. */
  lemma WholePercent(v: int)
    ensures (v as real / 100.0 * 100.0).Floor == v
    ensures (v as real / 100.0 * 100.0).Floor as real == v as real / 100.0 * 100.0
  {
    assert v as real / 100.0 * 100.0 == v as real;
  }

  /** With valid ranges every channel of the generated colour lies in [0, 255]. */
  lemma GeneratedChannelsInRange(s: Settings, d: Draws)
    requires RangesValid(s) && ValidDraws(d)
    ensures RgbInRange(DrawnRgb(s, d))
  {
    DrawnHslInRanges(s, d);
    ChannelsInRange(DrawnHsl(s, d));
  }

  /**
   * With valid ranges the call succeeds; its text starts with '#' and has
   * seven characters exactly when the format is "hex", and then the six
   * characters after '#' are upper-case hex digits that decode to the drawn
   * colour. Any other format gives the rgba text of the drawn colour with the
   * alpha text unchanged.
   */
  lemma GeneratedText(o: Options, d: Draws)
    requires RangesValid(WithDefaults(o)) && ValidDraws(d)
    ensures GenerateRandomColor(o, d).Success?
    ensures var t := GenerateRandomColor(o, d).value;
      (|t| == 7 && t[0] == '#') <==> WithDefaults(o).format == "hex"
    ensures var t := GenerateRandomColor(o, d).value;
      WithDefaults(o).format == "hex" ==>
        (forall i :: 1 <= i < 7 ==> IsUpperHexDigit(t[i])) &&
        DecodeHexColor(t[1..]) == Some(DrawnRgb(WithDefaults(o), d))
    ensures WithDefaults(o).format != "hex" ==>
      GenerateRandomColor(o, d).value == RgbToString(DrawnRgb(WithDefaults(o), d), WithDefaults(o).alpha)
  {
    var s := WithDefaults(o);
    var c := DrawnRgb(s, d);
    GeneratedChannelsInRange(s, d);
    FormatDispatch(s.format, c, s.alpha);
    if s.format == "hex" {
      var t := GenerateRandomColor(o, d).value;
      HexRoundTrip(c);
      assert t[1..] == RgbToHex(c);
    }
  }

  /** Called with no options the generator returns a seven-character hex colour. */
  lemma DefaultsGiveHexColor(d: Draws)
    requires ValidDraws(d)
    ensures GenerateRandomColor(NoOptions, d).Success?
    ensures |GenerateRandomColor(NoOptions, d).value| == 7 && GenerateRandomColor(NoOptions, d).value[0] == '#'
  {
    GeneratedText(NoOptions, d);
  }

  /** With valid ranges, a lightness range of [0, 0] always gives "#000000", whatever the valid hue and saturation ranges. */
  lemma ZeroLightnessIsBlack(o: Options, d: Draws)
    requires RangesValid(WithDefaults(o)) && ValidDraws(d)
    requires WithDefaults(o).format == "hex" && WithDefaults(o).lightness == Range(0, 0)
    ensures GenerateRandomColor(o, d) == Success("#000000")
  {
    var s := WithDefaults(o);
    DrawInRange(s.lightness, d.lightness);
    ExtremeLightness(DrawnHsl(s, d));
    assert DrawnRgb(s, d) == Rgb(0, 0, 0);
    BlackHex();
    assert FormatColor(s.format, Rgb(0, 0, 0), s.alpha) == "#" + "000000";
    assert "#" + "000000" == "#000000";
    assert !RangesRejected(s);
  }

  lemma BlackHex()
    ensures RgbToHex(Rgb(0, 0, 0)) == "000000"
  {
    HexCharacters(Rgb(0, 0, 0));
    assert UpperHexPair(0) == "00";
  }

  /**
   * Hue [0, 0], saturation [100, 100] and lightness [50, 50] give "#010000"
   * as the code is written (the textbook conversion would give "#FF0000").
   */
  lemma FullRedRangesAsWritten(d: Draws)
    requires ValidDraws(d)
    ensures GenerateRandomColor(Options(None, None, Some(Range(0, 0)), Some(Range(100, 100)), Some(Range(50, 50))), d)
      == Success("#010000")
  {
    var o := Options(None, None, Some(Range(0, 0)), Some(Range(100, 100)), Some(Range(50, 50)));
    var s := WithDefaults(o);
    DrawInRange(s.hue, d.hue);
    DrawInRange(s.saturation, d.saturation);
    DrawInRange(s.lightness, d.lightness);
    assert DrawnHsl(s, d) == Hsl(0, 1.0, 0.5);
    FullySaturatedRedAsWritten();
    HexCharacters(Rgb(1, 0, 0));
    assert UpperHexPair(1) == "01" && UpperHexPair(0) == "00";
    assert RgbToHex(Rgb(1, 0, 0)) == "010000";
    assert DrawnRgb(s, d) == Rgb(1, 0, 0);
    assert FormatColor(s.format, Rgb(1, 0, 0), s.alpha) == "#" + "010000";
    assert "#" + "010000" == "#010000";
    assert !RangesRejected(s);
  }

  /** A hue range [400, 410] and an inverted saturation range [50, 10] are both rejected. */
  lemma RejectedExamples(d: Draws)
    ensures GenerateRandomColor(Options(None, None, Some(Range(400, 410)), None, None), d)
      == Failure(InvalidRangeMessage)
    ensures GenerateRandomColor(Options(None, None, None, Some(Range(50, 10)), None), d)
      == Failure(InvalidRangeMessage)
  {
  }
}
