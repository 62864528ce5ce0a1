# colorgen: a Dafny model of `generateRandomColor`

The repository is one JavaScript function, `generateRandomColor(options)`. It
takes optional hue, saturation and lightness ranges, a format and an alpha
value. It validates the ranges, draws a random hue, saturation and lightness
from them, converts that HSL colour to RGB and returns it either as
`#RRGGBB` (format `"hex"`, the default) or as `rgba(r, g, b, alpha)` (every
other format).

The model is pure, as the source is: datatypes, functions and lemmas in five
modules.

- `Wrappers` (`wrappers.dfy`): `Option` and `Result`. The thrown validation error is `Failure(message)`.
- `Numerals` (`numerals.dfy`): the JavaScript text operations the serialisers use. These are
  `Number.prototype.toString(radix)` on integers of magnitude below 2^53
  (`ToRadixString`, also what a template literal writes for them), `padStart` with a one-character pad (`PadStart`) and
  `toUpperCase` (`ToUpperCase`). The module also has the parser of `ToRadixString` and its round-trip lemma.
- `HslColor` (`hsl.dfy`): `hslToRgb` over `real`, with its chroma `c`, intermediate value `x`,
  lightness offset `m`, six-sector chain and rounding.
- `Render` (`render.dfy`): `rgbToHex`, `rgbToString`, the format dispatch, and a decoder for the hex form.
- `ColorGenerator` (`generator.dfy`): option defaults, validation, the three draws and
  `GenerateRandomColor` itself.

`Math.random()` is not modelled. The three values it returns in one call are a
parameter, `Draws`, each in `[0, 1)`. A draw is `floor(u * (hi - lo + 1)) + lo`,
as the source computes it. `DrawInRange` shows that this is `lo + k` for some
`k` in `[0, hi - lo]`. `DrawReachesEveryValue` shows that every `k` occurs for
some `u`.

The conversion follows the code, not the textbook formula. Line 97 rounds
`pre + m * 255`, so only `m` is scaled by 255 while the sector value (at most 1)
is not. For hue 0, saturation 100 and lightness 50 the code returns `#010000`.
The textbook HSL conversion would give pure red, `#FF0000`. The model keeps
the code's behaviour (`FullySaturatedRedAsWritten`, `FullRedRangesAsWritten`).
A point where the documentation and the code differ: the option comment
names the formats `'hex'`, `'rgb'` and `'hsl'`, but only `'hex'` is singled out.
Every other value, `'rgb'` and `'hsl'` included, gives the `rgba(...)` text
(`FormatDispatch`).

## Model

| member | source | states |
|---|---|---|
| `ColorGenerator.GenerateRandomColor` | index.js:7-57 | the whole call: defaults, validation, three draws, conversion and rendering; its failure cases are stated by `FailsExactlyOnInvalidRanges` and its text by `GeneratedText` |
| `ColorGenerator.WithDefaults` | index.js:8-14 | the destructuring defaults "hex", 1, [0, 360], [0, 100], [0, 100]; `DefaultsGiveHexColor` shows they pass validation and give a hex colour |
| `ColorGenerator.Draw` | index.js:38-40 | one bounded draw `floor(u * (hi - lo + 1)) + lo`; its range and reach are stated by `DrawInRange` and `DrawReachesEveryValue` |
| `ColorGenerator.DrawnHsl` | index.js:38-43 | the HSL object built from the three draws, saturation and lightness divided by 100; its ranges are stated by `DrawnHslInRanges` |
| `ColorGenerator.RangesRejected` | index.js:17-35 | the fifteen-way test rejects the ranges exactly when some range is not `0 <= lo <= hi <= max`, where max is 360 for hue and 100 for saturation and lightness |
| `ColorGenerator.FailsExactlyOnInvalidRanges` | index.js:7-35 | after the defaults are applied, the call fails exactly when the ranges are invalid, whatever the draws are, and it fails with the one validation message |
| `ColorGenerator.RejectedExamples` | index.js:17-35 | hue range [400, 410] and the inverted saturation range [50, 10] are both rejected |
| `ColorGenerator.DrawInRange` | index.js:38-40 | for `lo <= hi` and `u` in [0, 1), a draw is `lo + k` with `k` in [0, hi - lo], so it lies in [lo, hi]; a range [a, a] yields a |
| `ColorGenerator.DrawReachesEveryValue` | index.js:38-40 | every integer of [lo, hi] is drawn for some `u` in [0, 1) |
| `ColorGenerator.DrawnHslInRanges` | index.js:38-43 | with valid ranges the hue lies in its range; 100 times the saturation and 100 times the lightness are integers in their ranges, and both lie in [0, 1] |
| `ColorGenerator.DrawnRgb` | index.js:46 | the colour `hslToRgb(hsl)` gives for the drawn HSL value; its channel bounds are stated by `GeneratedChannelsInRange` |
| `ColorGenerator.GeneratedChannelsInRange` | index.js:38-46 | with valid ranges every channel of the generated colour lies in [0, 255] |
| `ColorGenerator.GeneratedText` | index.js:7-57 | with valid ranges the call succeeds; the text starts with '#' and has length 7 exactly when the format is "hex", and then its six hex digits decode to the drawn colour; any other format gives the rgba text of that colour with alpha unchanged |
| `ColorGenerator.DefaultsGiveHexColor` | index.js:8-14 | with no options the defaults pass validation and the result is a 7-character '#' colour |
| `ColorGenerator.ZeroLightnessIsBlack` | index.js:38-54 | with valid ranges, a lightness range [0, 0] and format "hex" always give "#000000", whatever the valid hue and saturation ranges (so [0,0] for all three does too) |
| `ColorGenerator.FullRedRangesAsWritten` | index.js:38-54 | hue [0, 0], saturation [100, 100] and lightness [50, 50] give "#010000" as the code is written |
| `HslColor.HslToRgb` | index.js:59-98 | hslToRgb as written; its channel bounds are stated by `ChannelsInRange`, its branch choice by `PreAdjustment`, and its grey, black, white and red cases by `UnsaturatedIsGrey`, `ExtremeLightness`, `HueOutsideSectorsIsGrey` and `FullySaturatedRedAsWritten` |
| `HslColor.Chroma` | index.js:61 | c = (1 - \|2l - 1\|) * s; its bounds are stated by `ChromaAndOffsetBounds` |
| `HslColor.HueBlend` | index.js:62 | x = c * (1 - \|(h / 60) % 2 - 1\|); its bounds are stated by `HueBlendBounds` |
| `HslColor.LightnessOffset` | index.js:63 | m = l - c / 2; its bounds are stated by `ChromaAndOffsetBounds` |
| `HslColor.Abs` | index.js:61 | `Math.abs`: a non-negative value equal to x or -x |
| `HslColor.JsRemainder` | index.js:62 | JavaScript `%` (truncating): (a - r) / b is an integer, and the remainder lies in [0, b) for a dividend of at least 0 and in (-b, 0] for a negative one, which together determine it |
| `HslColor.Round` | index.js:97 | `Math.round`: the integer n with n - 0.5 <= x < n + 0.5 (halves round up) |
| `HslColor.PreAdjustment` | index.js:64-94 | a hue in [0, 360) takes sector h/60 of the six-row table, and the values are a permutation of (c, x, 0); every other hue, 360 included, takes the fall-back (0, 0, 0) |
| `HslColor.ChromaAndOffsetBounds` | index.js:61-63 | for s and l in [0, 1], the chroma c lies in [0, 1] and the offset m = l - c/2 lies in [0, l], so in [0, 1]; moreover c + 255m <= 255 |
| `HslColor.HueBlendBounds` | index.js:62 | for a hue of at least 0, x lies in [0, c] |
| `HslColor.ChannelsInRange` | index.js:59-98 | for s and l in [0, 1] and any hue, each channel round(pre + m*255) lies in [0, 255] |
| `HslColor.UnsaturatedIsGrey` | index.js:61-97 | saturation 0 gives c = 0 and the grey r = g = b = round(l*255) |
| `HslColor.ExtremeLightness` | index.js:61-97 | lightness 0 gives (0, 0, 0) and lightness 1 gives (255, 255, 255), for any hue and saturation |
| `HslColor.HueOutsideSectorsIsGrey` | index.js:90-97 | a hue outside [0, 360), such as 360, gives three equal channels round(m*255) |
| `HslColor.FullySaturatedRedAsWritten` | index.js:97 | hue 0, s = 1, l = 0.5 give (1, 0, 0): the chroma is added unscaled to m*255 |
| `Numerals.ToRadixString` | index.js:108 | `toString(radix)` on an integer of magnitude below 2^53, used with radix 16 at line 108 and radix 10 by the template at line 121; stated by `Digits`, `RadixRoundTrip`, `RadixInjective` and `RadixStringCharacters` |
| `Numerals.Digits` | index.js:108 | the digit sequence `toString(radix)` writes: digits below the radix, no leading zero, and its value is n |
| `Numerals.DigitsLength` | index.js:108 | a number below radix^k has at most k digits |
| `Numerals.RadixRoundTrip` | index.js:121 | parsing the numeral that `ToRadixString` writes for any integer, negative ones included, gives the integer back; this is JavaScript's `toString(radix)` for magnitudes below 2^53, which covers the channels in [0, 255] |
| `Numerals.RadixInjective` | index.js:121 | two integers never get the same numeral |
| `Numerals.RadixStringCharacters` | index.js:121 | a numeral is non-empty and made of digits of its radix, with at most a leading '-' for a negative value |
| `Numerals.PadStart` | index.js:108 | `padStart(width, pad)`: the length is max(\|s\|, width), the result ends with s, and the added prefix is all pad |
| `Numerals.ToUpperCase` | index.js:109 | `toUpperCase`: the same length, and each ASCII letter is upper-cased while other characters stay as they are |
| `Numerals.ToUpperCaseConcat` | index.js:108-109 | upper-casing the joined string equals joining the upper-cased parts |
| `Render.RgbToHex` | index.js:106-110 | rgbToHex: the padded channels joined and upper-cased; stated by `HexCharacters`, `HexRoundTrip` and `HexDecodeEncode` |
| `Render.PaddedHex` | index.js:108 | one channel's `toString(16).padStart(2, '0')`; stated by `PaddedHexDigits` |
| `Render.RgbToString` | index.js:119-122 | rgbToString: decimal channels and the alpha text in the rgba template; stated by `RgbaInjective` |
| `Render.Decimal` | index.js:121 | a channel as the template writes it; stated by `DecimalRoundTrip` and `DecimalChannelDigits` |
| `Render.FormatColor` | index.js:49-54 | the format dispatch and the '#' prefix; stated by `FormatDispatch` |
| `Render.PaddedHexDigits` | index.js:108 | a channel in [0, 255] is padded to exactly its two base-16 digits |
| `Render.HexCharacters` | index.js:106-110 | for channels in [0, 255] the hex text is the upper-case digits n/16 and n%16 of r, then g, then b |
| `Render.HexRoundTrip` | index.js:106-110 | for channels in [0, 255] the hex text has exactly 6 characters from 0-9A-F; characters 2i and 2i+1 decode to channel i |
| `Render.HexDecodeEncode` | index.js:106-110 | every 6-digit upper-case hex string is the hex text of the colour it decodes to, and that colour's channels lie in [0, 255] |
| `Render.RgbaInjective` | index.js:119-122 | the rgba text determines the channels and the alpha text it was written from, so alpha is carried unchanged |
| `Render.DecimalChannelDigits` | index.js:121 | a channel in [0, 255] is written as one to three decimal digits, the `\d{1,3}` fields of the rgba text |
| `Render.DecimalRoundTrip` | index.js:121 | each decimal channel field reads back to the channel |
| `Render.FormatDispatch` | index.js:49-54 | for channels in [0, 255], the result starts with '#' and has length 7 exactly when the format is "hex", and then it decodes to the colour; every other format gives the rgba text |

## Left out

- The `require` calls of four unrelated packages (index.js:1-4) are not modelled. They are never used. `module.exports` (index.js:125) is not modelled either.
- `Math.random` is not modelled. Its three results are the `Draws` parameter, each assumed in [0, 1) as `Math.random` promises.
- IEEE-754 floating point is not modelled. `/`, `%`, `Math.abs`, `Math.floor` and `Math.round` are computed over exact reals. `Math.round` is `floor(x + 0.5)`, which ignores the double-rounding corner cases of floats.
- `alpha` is kept as the text that JavaScript's conversion gives it (the default `1` is `"1"`). It is not range-checked, as in the source. The conversion of arbitrary JavaScript values to text is not modelled.
- Only integer range bounds are modelled, and every range is a pair. Non-array, non-numeric or non-integer option values are not modelled, and neither is the NaN arithmetic they produce.
- The format is a string compared by `===`. Non-string format values are not modelled.
- `Numerals.ToRadixString`: the model writes the exact numeral of any integer. That matches JavaScript only for magnitudes below 2^53. JavaScript's radix-10 exponent form (from 10^21, such as `"1e+21"`) and its shortest-round-trip digits above 2^53 are not modelled. The serialisers pass it only channels in [0, 255].
- `Numerals.ToUpperCase`: handles only the ASCII letters a-z. The only text it receives is digits, a-f and '-'.
