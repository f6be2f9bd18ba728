/**
  `generate_colors`: n colours spaced evenly around the hue wheel at full
  saturation and value, built by a loop that appends to a list.
 */
module PaletteGenerator {
  import opened ColorModel
  import opened HexCodec
  import opened HsvConversion

  /** The hue of the k-th of n colours: k * (360 / n). */
  function Hue(k: int, n: int): real
    requires n > 0
  {
    k as real * (360.0 / n as real)
  }

  /** The k-th colour the loop appends: hsv_to_rgb for 'RGB', hsv_to_hex for 'HEX',
      the HSV list itself otherwise. */
  function Entry(k: int, n: int, format: string): Color
    requires n > 0
  {
    var hsv := Hsv(Hue(k, n), 1.0, 1.0);
    if format == "RGB" then RgbColor(HsvToRgb(hsv))
    else if format == "HEX" then HexColor(HsvToHex(hsv))
    else HsvColor(hsv)
  }

  /** The first `count` entries, in loop order. */
  function Entries(count: nat, n: int, format: string): (colors: seq<Color>)
    requires n > 0
    ensures |colors| == count
    ensures forall k :: 0 <= k < count ==> colors[k] == Entry(k, n, format)
  {
    if count == 0 then [] else Entries(count - 1, n, format) + [Entry(count - 1, n, format)]
  }

  /** What generate_colors(n, format) returns or raises. range(n) is empty for
      n <= 0; 'HEX' appends one colour and then raises ValueError('Invalid type' +
      format); any other unrecognised format appends nothing. */
  function Palette(n: int, format: string := "HSV"): (r: Result<seq<Color>>)
    ensures r.Err? <==> n > 0 && format == "HEX"
    ensures r.Ok? && n > 0 && (format == "RGB" || format == "HSV") ==> |r.value| == n
    ensures r.Ok? && (n <= 0 || (format != "RGB" && format != "HSV")) ==> r.value == []
  {
    if n <= 0 then Ok([])
    else if format == "RGB" || format == "HSV" then Ok(Entries(n, n, format))
    else if format == "HEX" then Err(ValueError("Invalid type" + format))
    else Ok([])
  }

  /** generate_colors: the loop over range(n), appending one colour per index. */
  method GenerateColors(n: int, format: string := "HSV") returns (result: Result<seq<Color>>)
    ensures result == Palette(n, format)
  {
    var colors: seq<Color> := [];
    var i := 0;
    while i < n
      invariant 0 <= i && (n > 0 ==> i <= n)
      invariant n <= 0 ==> i == 0 && colors == []
      invariant n > 0 && (format == "RGB" || format == "HSV") ==> colors == Entries(i, n, format)
      invariant format != "RGB" && format != "HSV" ==> colors == []
      invariant format == "HEX" ==> i == 0
    {
      var hue := Hue(i, n);
      if format == "RGB" {
        colors := colors + [RgbColor(HsvToRgb(Hsv(hue, 1.0, 1.0)))];
        assert colors == Entries(i + 1, n, format);
      } else if format == "HSV" {
        colors := colors + [HsvColor(Hsv(hue, 1.0, 1.0))];
        assert colors == Entries(i + 1, n, format);
      } else if format == "HEX" {
        colors := colors + [HexColor(HsvToHex(Hsv(hue, 1.0, 1.0)))];
        return Err(ValueError("Invalid type" + format));
      }
      i := i + 1;
    }
    return Ok(colors);
  }

  /** Hues start at 0, stay in [0, 360) and rise by exactly 360 / n per step. */
  lemma {:induction false} HueSpacing(k: int, n: int)
    requires n > 0 && 0 <= k < n
    ensures 0.0 <= Hue(k, n) < 360.0
    ensures Hue(0, n) == 0.0
    ensures Hue(k + 1, n) - Hue(k, n) == 360.0 / n as real > 0.0
  {
    var w := 360.0 / n as real;
    assert w * n as real == 360.0;
    calc {
      Hue(k, n);
    ==
      k as real * w;
    <  { assert k as real < n as real; assert w > 0.0; }
      n as real * w;
    ==
      360.0;
    }
    assert (k + 1) as real * w == k as real * w + w;
  }

  /** Later indices have larger hues. */
  lemma HueIncreasing(j: int, k: int, n: int)
    requires n > 0 && j < k
    ensures Hue(j, n) < Hue(k, n)
  {
    var w := 360.0 / n as real;
    assert w > 0.0;
    assert Hue(k, n) - Hue(j, n) == (k - j) as real * w;
    assert (k - j) as real * w >= w;
  }

  /** range(n) is empty for n <= 0, so every format gives []. */
  lemma EmptyPalette(n: int, format: string)
    requires n <= 0
    ensures Palette(n, format) == Ok([])
  {
  }

  /** With the default format 'HSV' and n >= 1: exactly n entries [i * 360 / n, 1, 1] whose hues
      lie in [0, 360) and increase strictly, by 360 / n each step. */
  lemma {:induction false} HsvPalette(n: int)
    requires n > 0
    ensures Palette(n).Ok?
    ensures var colors := Palette(n).value;
      && |colors| == n
      && (forall k :: 0 <= k < n ==>
            colors[k].HsvColor? && colors[k].hsv == Hsv(Hue(k, n), 1.0, 1.0)
            && 0.0 <= colors[k].hsv.h < 360.0)
      && (forall j, k :: 0 <= j < k < n ==> colors[j].hsv.h < colors[k].hsv.h)
  {
    var colors := Palette(n).value;
    forall k | 0 <= k < n
      ensures 0.0 <= colors[k].hsv.h < 360.0
    {
      HueSpacing(k, n);
    }
    forall j, k | 0 <= j < k < n
      ensures colors[j].hsv.h < colors[k].hsv.h
    {
      HueIncreasing(j, k, n);
    }
  }

  /** With format 'RGB' and n >= 1: exactly n hsv_to_rgb triples of the same hues,
      each made of bytes whose largest is 255. */
  lemma {:induction false} RgbPalette(n: int)
    requires n > 0
    ensures Palette(n, "RGB").Ok?
    ensures var colors := Palette(n, "RGB").value;
      && |colors| == n
      && forall k :: 0 <= k < n ==>
           && colors[k] == RgbColor(HsvToRgb(Hsv(Hue(k, n), 1.0, 1.0)))
           && IsByteTriple(colors[k].rgb) && Max3(colors[k].rgb) == 255
  {
    forall k | 0 <= k < n
      ensures IsByteTriple(HsvToRgb(Hsv(Hue(k, n), 1.0, 1.0)))
      ensures Max3(HsvToRgb(Hsv(Hue(k, n), 1.0, 1.0))) == 255
    {
      HueSpacing(k, n);
      HsvToRgbBounds(Hsv(Hue(k, n), 1.0, 1.0));
      assert Trunc(1.0 * 255.0) == 255;
    }
  }

  /** With format 'HEX' and n >= 1 the first iteration raises. */
  lemma HexPaletteRaises(n: int)
    requires n > 0
    ensures Palette(n, "HEX") == Err(ValueError("Invalid typeHEX"))
  {
  }

  /** A format other than 'RGB', 'HSV' and 'HEX' yields the empty list. */
  lemma UnknownFormatIsEmpty(n: int, format: string)
    requires format != "RGB" && format != "HSV" && format != "HEX"
    ensures Palette(n, format) == Ok([])
  {
  }

  /** generate_colors as its documentation describes it, with the raise in an `else`
      branch: 'HEX' yields hex strings and an unrecognised format raises. */
  function IntendedPalette(n: int, format: string := "HSV"): (r: Result<seq<Color>>)
    ensures r.Err? <==> n > 0 && format != "RGB" && format != "HSV" && format != "HEX"
    ensures r.Ok? ==> |r.value| == if n > 0 then n else 0
  {
    if n <= 0 then Ok([])
    else if format == "RGB" || format == "HSV" || format == "HEX" then Ok(Entries(n, n, format))
    else Err(ValueError("Invalid type" + format))
  }

  /** In the intended palette, format 'HEX' gives n canonical HEX strings that
      hex_to_rgb reads back as the 'RGB' palette's triples. */
  lemma {:induction false} IntendedHexPalette(n: int)
    requires n > 0
    ensures IntendedPalette(n, "HEX").Ok?
    ensures var colors := IntendedPalette(n, "HEX").value;
      && |colors| == n
      && forall k :: 0 <= k < n ==>
           && colors[k].HexColor? && IsCanonicalHex(colors[k].hex) && IsHexInput(colors[k].hex)
           && HexToRgb(colors[k].hex) == HsvToRgb(Hsv(Hue(k, n), 1.0, 1.0))
  {
    var colors := IntendedPalette(n, "HEX").value;
    forall k | 0 <= k < n
      ensures colors[k].HexColor? && IsCanonicalHex(colors[k].hex) && IsHexInput(colors[k].hex)
      ensures HexToRgb(colors[k].hex) == HsvToRgb(Hsv(Hue(k, n), 1.0, 1.0))
    {
      HueSpacing(k, n);
      HsvToHexCanonical(Hsv(Hue(k, n), 1.0, 1.0));
    }
  }

  /** generate_colors(1, 'HEX') raises as written, where the intended code returns ['#FF0000']. */
  lemma HexPaletteDiscrepancy()
    ensures Palette(1, "HEX") == Err(ValueError("Invalid typeHEX"))
    ensures IntendedPalette(1, "HEX") == Ok([HexColor("#FF0000")])
  {
    assert Hue(0, 1) == 0.0;
    RedHex();
    assert Entry(0, 1, "HEX") == HexColor(HsvToHex(Hsv(0.0, 1.0, 1.0)));
    assert Entries(1, 1, "HEX") == [Entry(0, 1, "HEX")];
  }
}
