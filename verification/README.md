# Colour conversion and comparison, modelled in Dafny

This project models the colour helpers of `Color.py`:

- conversions between HEX strings, RGB triples and HSV triples: `hex_to_rgb`, `rgb_to_hex`, `hsv_to_rgb`, `hsv_to_hex` and `hex_to_hsv`;
- the percentage distance test `is_near`;
- the palette generator `generate_colors`;
- the naming of HSV colours: `get_color_name` and `name_list`.

Modules:

- `ColorModel` (`color_model.dfy`): the value types. An RGB triple has unbounded integer components. An HSV triple has real components. A colour argument is a HEX string, an RGB triple or an HSV triple. A failure is a Python `ValueError` carrying its message, returned as `Result.Err`.
- `HexCodec` (`hex_codec.dfy`):
  - `hex_to_rgb`: removes every `#`, then parses the three two-digit slices with base 16.
  - `rgb_to_hex`: the `'#{:02X}{:02X}{:02X}'` format. The model also gives its output for out-of-range components, including a leading `-` for negative ones.
  - The two round trips between these functions.
- `HsvConversion` (`hsv_conversion.dfy`):
  - `hsv_to_rgb`: modelled with Python's `int()` truncation toward zero, and the `i % 6 == 0` / `i == 1..4` / `else` sector chain exactly as written.
  - `hsv_to_hex`.
  - `hex_to_hsv`: with Python's floored float `%` and `round(…, 2)`.
- `ColorMetric` (`color_metric.dfy`): `is_near`, with its default mode `'RGB'`, its mode dispatch and its `ValueError('Invalid mode' + mode)`.
- `PaletteGenerator` (`palette_generator.dfy`):
  - `generate_colors` is an imperative method with the default format `'HSV'`. It has the source's loop and is proved equal to the specification function `Palette`.
  - `Palette` is characterised by lemmas.
- `ColorClassifier` (`color_classifier.dfy`):
  - `get_color_name`, its `if` chain in the source order.
  - `name_list`.

Floating point is modelled by exact reals; see "Left out".

### How is_near's square roots are modelled

`is_near` tests `sqrt(d2) / sqrt(3·255²) · 100 <= tolerance`, where d2 is the squared RGB distance. The model states this as `tolerance >= 0 && 10000·d2 <= tolerance²·195075`. The lemma `ColorMetric.PercentageComparison` proves the two tests agree for the exact percentage.

### Behaviour of the code worth noting

The model follows the code in each case below.

- `hsv_to_rgb` performs no range check, and neither does anything else in the file. Hue 360 is accepted: `int(6.0) == 6`, and `6 % 6 == 0`, so it gives red, the same as hue 0.
- `hex_to_rgb` removes every `#` in the string, wherever it stands, not only a leading one.
- `generate_colors` disagrees with its documentation, which lists `'HEX'` as a format and promises hexadecimal output:
  - Format `'HEX'` appends one colour and then raises `ValueError('Invalid type' + format)`. This happens whenever n > 0.
  - An unrecognised format returns an empty list rather than raising.
  - See "Findings".
- `get_color_name` tests `v > 0.9` before any hue. So fully saturated, fully bright colours such as HSV (0, 1, 1) or (200, 1, 1) are named `'white'`. A hue name needs s ≥ 0.1 and 0.1 ≤ v ≤ 0.9.

## Model

| member | source | states |
|---|---|---|
| HexCodec.HexDigits | Color.py:91 | the upper-case hexadecimal digits of n are non-empty, have at least two digits once n ≥ 16, and parse back to n |
| HexCodec.Format02X | Color.py:91 | `{:02X}` yields at least two characters, starts with `-` exactly for negative input, and for a byte is its two upper-case digits, high digit first |
| HexCodec.StripHashes | Color.py:48 | `replace('#', '')` keeps exactly the characters other than `#`, never lengthens the string, and leaves a string without `#` unchanged |
| HexCodec.StripHashesAppend | Color.py:48 | removing `#` from a concatenation is removing it from each part, so the kept characters keep their order and multiplicity |
| HexCodec.StripHashesChar | Color.py:48 | a single `#` is removed and any other single character is kept |
| HexCodec.ParseHex | Color.py:49 | `int(s, 16)` of a non-empty digit string is a natural number below 16^len(s) |
| HexCodec.HexToRgb | Color.py:42-49 | on six hex digits, with any number of `#` anywhere, the result is three integers each in 0..255 |
| HexCodec.RgbToHex | Color.py:85-91 | the result always starts with `#` and has at least 7 characters; for a byte triple it is `#` followed by exactly six upper-case hex digits |
| HexCodec.ByteRoundTrip | Color.py:91 | parsing the two-digit `{:02X}` form of a byte gives the byte back |
| HexCodec.PairRoundTrip | Color.py:49 | formatting the value of a two-digit hex slice gives back that slice in upper case |
| HexCodec.RgbHexRoundTrip | Color.py:85-91 | `hex_to_rgb(rgb_to_hex(c)) == c` for every byte triple, and the HEX string is a valid input to `hex_to_rgb` |
| HexCodec.HexRgbRoundTrip | Color.py:42-49 | `rgb_to_hex(hex_to_rgb(s))` is `#` followed by the input's digits upper-cased, with every `#` removed |
| HexCodec.RedBytes | Color.py:91 | `{:02X}` of 255 is `FF` and of 0 is `00` |
| HexCodec.OrangeExample | Color.py:42-49 | `#FF8000` is (255, 128, 0), and (255, 128, 0) formats back to `#FF8000` |
| HsvConversion.Trunc | Color.py:82 | `int()` on a float rounds toward zero: below or equal to non-negative input, above or equal to negative input, within one of it |
| HsvConversion.HsvToRgb | Color.py:52-82 | with h in [0, 360] and s, v in [0, 1], the three truncated channels are bytes; no range check otherwise |
| HsvConversion.SectorChannels | Color.py:61-80 | for h in [0, 360] and s, v in [0, 1], each channel before scaling lies in [0, v], one of them equals v, and with s = 0 all three equal v |
| HsvConversion.Parts | Color.py:65-67 | p, q and t lie in [0, v] when f, s and v lie in [0, 1], and all three equal v when s = 0 |
| HsvConversion.PickSector | Color.py:69-80 | every sector takes each channel from v, p, q and t, and gives v to one of them |
| HsvConversion.BlendWithin | Color.py:65-80 | whatever the sector index, the three channels chosen from v, p, q, t lie in [0, v] and one of them is v |
| HsvConversion.HsvToRgbBounds | Color.py:52-82 | in the documented domain the result is a byte triple, its largest component is `int(v·255)`, and s = 0 gives a grey with three equal components |
| HsvConversion.RedAtZero | Color.py:52-82 | HSV (0, 1, 1) is RGB (255, 0, 0) |
| HsvConversion.RedAtFullTurn | Color.py:62-70 | HSV (360, 1, 1) falls in sector 6, treated as sector 0, and is RGB (255, 0, 0) |
| HsvConversion.GreenAndBlue | Color.py:52-82 | HSV (120, 1, 1) is (0, 255, 0) and HSV (240, 1, 1) is (0, 0, 255) |
| HsvConversion.BlackExample | Color.py:52-82 | HSV (0, 0, 0) is (0, 0, 0) |
| HsvConversion.HsvToHex | Color.py:94-103 | the result always starts with `#` and has at least 7 characters; in the documented domain it is `#` and six upper-case hex digits |
| HsvConversion.RedHex | Color.py:94-103 | `hsv_to_hex([0, 1, 1])` is `'#FF0000'` |
| HsvConversion.HsvToHexCanonical | Color.py:94-103 | in the documented domain `hsv_to_hex` yields `#` and six upper-case hex digits, which `hex_to_rgb` reads back as `hsv_to_rgb` of the same colour |
| HsvConversion.FloorMod | Color.py:137 | Python's float `%` with a positive modulus lands in [0, m), differs from x by a whole multiple of m, and leaves a value already in [0, m) unchanged |
| HsvConversion.RoundHalfEven | Color.py:144 | `round()` picks an integer within one half of x, and on a tie the even one |
| HsvConversion.Round2 | Color.py:144 | `round(x, 2)` has at most two decimals (100·r is a whole number) and moves x by at most 0.005 |
| HsvConversion.RawHue | Color.py:133-144 | each of the three hue branches already yields a value in [0, 360), so `h % 360` never changes it; a grey has hue 0 |
| HsvConversion.HexToHsv | Color.py:106-146 | for every accepted HEX string, h lies in [0, 360] and s and v in [0, 1] |
| HsvConversion.HexToHsvValue | Color.py:115-125 | v is the largest RGB component divided by 255, so it lies in [0, 1] |
| HsvConversion.HexToHsvSaturation | Color.py:127-131 | s lies in [0, 1]; it is 0 for black, and otherwise it is (max − min) / max of the components |
| HsvConversion.HexToHsvHue | Color.py:133-146 | h lies in [0, 360] and within 0.005 of the exact value of the three-branch hue formula, which lies in [0, 360); a grey has h = 0 and s = 0 |
| ColorMetric.ToRgb | Color.py:20-30 | HEX strings convert to byte triples, HSV colours in their domain convert to byte triples, and RGB lists pass through unchanged |
| ColorMetric.Square | Color.py:33 | a squared component difference is never negative, and zero only for a zero difference |
| ColorMetric.SquaredDistance | Color.py:33 | the squared distance is non-negative, and zero exactly when the two triples are equal |
| ColorMetric.WithinTolerance | Color.py:33-39 | the test never passes with a negative tolerance and always passes at distance 0 with a tolerance ≥ 0 |
| ColorMetric.IsNear | Color.py:10-39 | with mode defaulting to RGB, it raises exactly when the mode is not HEX, HSV or RGB, and then with the message `'Invalid mode' + mode` |
| ColorMetric.PercentageComparison | Color.py:33-39 | with pct the exact distance in percent of the cube's diagonal, `pct <= tolerance` holds exactly when the model's squared test does, in both directions |
| ColorMetric.IsNearSymmetric | Color.py:21-39 | swapping the two colours never changes the answer, nor the error |
| ColorMetric.IsNearReflexive | Color.py:21-39 | in any valid mode a colour is near itself for every tolerance ≥ 0 |
| ColorMetric.NegativeToleranceNeverNear | Color.py:36-39 | a negative tolerance is never met |
| ColorMetric.ZeroToleranceIsEquality | Color.py:33-39 | with tolerance 0, two colours are near exactly when their RGB conversions are equal |
| ColorMetric.DistanceAtMostDiagonal | Color.py:36 | no two byte triples are farther apart than the cube's diagonal, so the percentage is at most 100 |
| ColorMetric.FullToleranceAlwaysNear | Color.py:10-39 | in the default RGB mode any two byte triples are near when the tolerance is at least 100 |
| ColorMetric.NearHexExample | Color.py:21-39 | `#000000` and `#010101` are near at tolerance 1 |
| ColorMetric.FarHexExample | Color.py:21-39 | `#000000` and `#FFFFFF` are not near at tolerance 1 |
| ColorMetric.InvalidModeRaises | Color.py:29-30 | mode `'CMYK'` raises `ValueError('Invalid modeCMYK')` for any colours, before any conversion |
| PaletteGenerator.Palette | Color.py:150-169 | it raises exactly for n > 0 with format HEX; RGB and HSV give n colours when n > 0; every other case gives `[]` |
| PaletteGenerator.Entries | Color.py:158-165 | the first count colours, in loop order, entry k being the colour for hue k |
| PaletteGenerator.GenerateColors | Color.py:150-169 | the loop returns exactly `Palette(n, format)` |
| PaletteGenerator.HueSpacing | Color.py:160 | hue k of n lies in [0, 360), hue 0 is 0, and consecutive hues are 360/n apart |
| PaletteGenerator.HueIncreasing | Color.py:160 | hues strictly increase with the index |
| PaletteGenerator.EmptyPalette | Color.py:157-158 | every n ≤ 0 gives an empty list for every format |
| PaletteGenerator.HsvPalette | Color.py:150-165 | the default format HSV gives n colours (hue k·360/n, 1, 1), with hues in [0, 360) and pairwise distinct, in increasing order |
| PaletteGenerator.RgbPalette | Color.py:162-163 | format RGB gives n byte triples, entry k being `hsv_to_rgb` of hue k, each with largest component 255 |
| PaletteGenerator.HexPaletteRaises | Color.py:166-168 | format HEX raises `ValueError('Invalid typeHEX')` for every n > 0 |
| PaletteGenerator.UnknownFormatIsEmpty | Color.py:158-169 | any format other than RGB, HSV and HEX returns an empty list |
| PaletteGenerator.IntendedPalette | Color.py:150-168 | with the raise moved into an `else`, only an unknown format with n > 0 raises, and otherwise the result has max(n, 0) colours |
| PaletteGenerator.IntendedHexPalette | Color.py:150-168 | with the raise moved into an `else`, format HEX gives n canonical HEX strings that read back as the RGB palette's triples |
| PaletteGenerator.HexPaletteDiscrepancy | Color.py:166-168 | `generate_colors(1, 'HEX')` raises as written, where the intended code returns `['#FF0000']` |
| ColorClassifier.NameList | Color.py:205-210 | ten names, pairwise distinct |
| ColorClassifier.GetColorName | Color.py:172-202 | the name returned is always one of `name_list()` |
| ColorClassifier.NameRegions | Color.py:181-202 | for each name, the exact region of HSV space that gets it, in both directions: gray for s < 0.1; black for v < 0.1 otherwise; white for v > 0.9 otherwise; the hue bands for the rest, with red on both ends |
| ColorClassifier.LookUpHue | Color.py:188-202 | the name found is red or a name of the table, and red once the hue passes every bound |
| ColorClassifier.ChainMatchesTable | Color.py:188-202 | for chromatic colours the hue tests agree with a lookup in a table of band upper bounds |
| ColorClassifier.EveryNameIsReached | Color.py:181-210 | every name in `name_list()` is returned for some HSV colour |
| ColorClassifier.Examples | Color.py:181-202 | (0, 1, 1) and (200, 1, 1) are `'white'`; (0, 1, 0.5) is `'red'`; (200, 1, 0.5) is `'cyan'`; low saturation is `'gray'`; low value is `'black'` |

## Left out

- Floating point: every float is an exact real. IEEE rounding in `/`, `*` and `sqrt` is not modelled, so a result that depends on the last bit of a float, such as `int(r * 255)` just below an integer, may differ.
- `math.sqrt`: `is_near` is modelled by the exact squared comparison. `ColorMetric.PercentageComparison` ties it to the percentage test.
- `HexCodec.HexToRgb`: inputs are restricted by precondition to exactly six hex digits once every `#` is removed. The following are not modelled:
  - longer strings, of which Python reads only the first six characters;
  - shorter strings, which give short slices or a `ValueError` from `int`;
  - `int(…, 16)` leniencies such as surrounding whitespace or `_` separators.
- Python's dynamic typing:
  - `is_near` is given arguments of the shape its mode expects: HEX strings `hex_to_rgb` accepts, HSV triples or RGB triples. An argument of the wrong shape, which makes Python raise a `TypeError` or `IndexError`, is excluded by precondition.
  - RGB lists of floats are not modelled; RGB components are integers.
  - Lists longer or shorter than three elements are not modelled.
- `rgb_to_hex` on non-integer components, which makes Python raise, is not modelled.
- `HsvConversion.HexToHsvHue`: the hue is bounded and tied to the exact hue within 0.005. The exact three-branch hue formula is modelled (`RawHue`), but no statement about RGB → HSV → RGB round trips is made.
- `analyse_couleurs.py` and `recommandation.py` are not part of this model. They read images, cluster pixels and draw plots.

## Findings

| source | as written | input that shows it | evidently intended | confidence | as-written member | corrected member |
|---|---|---|---|---|---|---|
| Color.py:166-168 | the `'HEX'` branch appends `hsv_to_hex([hue, 1, 1])` and then unconditionally raises `ValueError('Invalid type' + format)`; an unknown format falls through and returns `[]` | `generate_colors(1, 'HEX')` raises `ValueError('Invalid typeHEX')` | the documentation lists `'HEX'` as a valid format; the raise belongs in an `else` branch, so `'HEX'` returns n HEX strings (`['#FF0000']` for n = 1) and an unknown format raises | high (not executed) | PaletteGenerator.HexPaletteDiscrepancy | PaletteGenerator.IntendedPalette, PaletteGenerator.IntendedHexPalette |
