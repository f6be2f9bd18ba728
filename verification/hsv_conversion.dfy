/**
  The HSV side of the Color module: `hsv_to_rgb`, `hsv_to_hex` and `hex_to_hsv`.
  Python floats are idealised as exact reals.
 */
module HsvConversion {
  import opened ColorModel
  import opened HexCodec

  /** Python's int(x) on a float: truncation toward zero. */
  function Trunc(x: real): (n: int)
    ensures 0.0 <= x ==> 0 <= n && n as real <= x < n as real + 1.0
    ensures x < 0.0 ==> n <= 0 && n as real - 1.0 < x <= n as real
  {
    if x >= 0.0 then x.Floor else -((-x).Floor)
  }

  /** hsv_to_rgb: the six-sector algorithm, each channel scaled by 255 and truncated.
      Python performs no range check, and neither does this function. */
  function HsvToRgb(c: Hsv): (rgb: Rgb)
    ensures InHsvDomain(c) ==> IsByteTriple(rgb)
  {
    var x := SectorChannels(c);
    var rgb := Rgb(Trunc(x.0 * 255.0), Trunc(x.1 * 255.0), Trunc(x.2 * 255.0));
    if InHsvDomain(c) then
      ChannelWithin(x.0, c.v);
      ChannelWithin(x.1, c.v);
      ChannelWithin(x.2, c.v);
      rgb
    else
      rgb
  }

  /** The (r, g, b) fractions hsv_to_rgb computes before scaling: the hue is
      divided by 360, i = int(h * 6) is the sector and f = h * 6 - i the offset in it.
      In the documented domain each fraction lies in [0, v], one of them is v, and
      with s = 0 all three are v. */
  function SectorChannels(c: Hsv): (rgb: (real, real, real))
    ensures InHsvDomain(c) ==>
      && 0.0 <= rgb.0 <= c.v && 0.0 <= rgb.1 <= c.v && 0.0 <= rgb.2 <= c.v
      && (rgb.0 == c.v || rgb.1 == c.v || rgb.2 == c.v)
      && (c.s == 0.0 ==> rgb.0 == c.v && rgb.1 == c.v && rgb.2 == c.v)
  {
    var h := c.h / 360.0;
    var i := Trunc(h * 6.0);
    var f := h * 6.0 - i as real;
    if InHsvDomain(c) then
      SectorIndexWithin(c.h);
      BlendWithin(i, f, c.s, c.v);
      BlendGray(i, f, c.v);
      Blend(i, f, c.s, c.v)
    else
      Blend(i, f, c.s, c.v)
  }

  /** p, q and t of hsv_to_rgb for sector i and offset f, and the sector's choice among them. */
  function Blend(i: int, f: real, s: real, v: real): (real, real, real) {
    var pqt := Parts(f, s, v);
    PickSector(i, v, pqt.0, pqt.1, pqt.2)
  }

  /** p = v(1 - s), q = v(1 - fs) and t = v(1 - (1 - f)s): each lies in [0, v] when
      f, s and v lie in [0, 1], and all three equal v when s = 0. */
  function Parts(f: real, s: real, v: real): (pqt: (real, real, real))
    ensures 0.0 <= f <= 1.0 && 0.0 <= s <= 1.0 && 0.0 <= v <= 1.0 ==>
      0.0 <= pqt.0 <= v && 0.0 <= pqt.1 <= v && 0.0 <= pqt.2 <= v
    ensures s == 0.0 ==> pqt == (v, v, v)
  {
    var p := Scaled(v, 1.0 - s);
    var q := Scaled(v, 1.0 - Scaled(f, s));
    var t := Scaled(v, 1.0 - Scaled(1.0 - f, s));
    (p, q, t)
  }

  /** The product x * k: in [0, x] for x >= 0 and k in [0, 1], x for k = 1, 0 for k = 0. */
  function Scaled(x: real, k: real): (y: real)
    ensures 0.0 <= x && 0.0 <= k <= 1.0 ==> 0.0 <= y <= x
    ensures k == 1.0 ==> y == x
    ensures k == 0.0 ==> y == 0.0
  {
    if 0.0 <= x && 0.0 <= k <= 1.0 then
      MulMonoLeft(k, 1.0, x);
      MulMonoLeft(0.0, k, x);
      x * k
    else
      x * k
  }

  lemma BlendWithin(i: int, f: real, s: real, v: real)
    requires 0.0 <= f <= 1.0 && 0.0 <= s <= 1.0 && 0.0 <= v <= 1.0
    ensures var rgb := Blend(i, f, s, v);
      && 0.0 <= rgb.0 <= v && 0.0 <= rgb.1 <= v && 0.0 <= rgb.2 <= v
      && (rgb.0 == v || rgb.1 == v || rgb.2 == v)
  {
    var pqt := Parts(f, s, v);
    PickWithin(i, v, pqt.0, pqt.1, pqt.2);
  }

  /** Without saturation p = q = t = v, whatever the sector. */
  lemma BlendGray(i: int, f: real, v: real)
    ensures Blend(i, f, 0.0, v) == (v, v, v)
  {
    assert Parts(f, 0.0, v) == (v, v, v);
  }

  /** The if/elif chain of hsv_to_rgb: which of v, p, q, t feeds each channel. */
  function PickSector(i: int, v: real, p: real, q: real, t: real): (rgb: (real, real, real))
    ensures rgb.0 in {v, p, q, t} && rgb.1 in {v, p, q, t} && rgb.2 in {v, p, q, t}
    ensures rgb.0 == v || rgb.1 == v || rgb.2 == v
  {
    if i % 6 == 0 then (v, t, p)
    else if i == 1 then (q, v, p)
    else if i == 2 then (p, v, t)
    else if i == 3 then (p, q, v)
    else if i == 4 then (t, p, v)
    else (v, p, q)
  }

  /** The domain the module documents for an HSV colour (h = 360 included,
      as the code accepts it). */
  predicate InHsvDomain(c: Hsv) {
    0.0 <= c.h <= 360.0 && 0.0 <= c.s <= 1.0 && 0.0 <= c.v <= 1.0
  }

  /** A channel between 0 and v, scaled by 255 and truncated, lies in [0, int(v * 255)]. */
  lemma ChannelWithin(x: real, v: real)
    requires 0.0 <= x <= v <= 1.0
    ensures 0 <= Trunc(x * 255.0) <= Trunc(v * 255.0) <= 255
  {
  }

  /** For h in [0, 360] the sector index is in [0, 6] and the offset in [0, 1). */
  lemma SectorIndexWithin(hue: real)
    requires 0.0 <= hue <= 360.0
    ensures var x := hue / 360.0 * 6.0;
      0 <= Trunc(x) <= 6 && 0.0 <= x - Trunc(x) as real < 1.0
  {
    var x := hue / 360.0 * 6.0;
    assert x == hue / 60.0;
    assert 0.0 <= x <= 6.0;
  }

  /** Whatever the sector, each channel is one of v, p, q, t and one of them is v. */
  lemma PickWithin(i: int, v: real, p: real, q: real, t: real)
    requires 0.0 <= p <= v && 0.0 <= q <= v && 0.0 <= t <= v
    ensures var rgb := PickSector(i, v, p, q, t);
      && 0.0 <= rgb.0 <= v && 0.0 <= rgb.1 <= v && 0.0 <= rgb.2 <= v
      && (rgb.0 == v || rgb.1 == v || rgb.2 == v)
  {
  }

  /** For h in [0, 360] and s, v in [0, 1], hsv_to_rgb gives three bytes whose largest
      is int(v * 255); with s = 0 the three are equal. */
  lemma {:induction false} HsvToRgbBounds(c: Hsv)
    requires InHsvDomain(c)
    ensures IsByteTriple(HsvToRgb(c))
    ensures Max3(HsvToRgb(c)) == Trunc(c.v * 255.0)
    ensures c.s == 0.0 ==> HsvToRgb(c).r == HsvToRgb(c).g == HsvToRgb(c).b
  {
    var rgb := SectorChannels(c);
    ChannelWithin(rgb.0, c.v);
    ChannelWithin(rgb.1, c.v);
    ChannelWithin(rgb.2, c.v);
  }

  /** At full saturation and value, on a sector boundary (f = 0): p = 0, q = 1, t = 0. */
  lemma BoundaryParts()
    ensures Parts(0.0, 1.0, 1.0) == (0.0, 1.0, 0.0)
    ensures Trunc(1.0 * 255.0) == 255 && Trunc(0.0 * 255.0) == 0
  {
    assert Scaled(0.0, 1.0) == 0.0;
    assert Scaled(1.0, 1.0) == 1.0;
    assert Scaled(1.0, 0.0) == 0.0;
  }

  /** h = 0 gives pure red. */
  lemma RedAtZero()
    ensures HsvToRgb(Hsv(0.0, 1.0, 1.0)) == Rgb(255, 0, 0)
  {
    BoundaryParts();
    assert 0.0 / 360.0 * 6.0 == 0.0;
    assert Trunc(0.0) == 0;
    assert SectorChannels(Hsv(0.0, 1.0, 1.0)) == Blend(0, 0.0, 1.0, 1.0) == (1.0, 0.0, 0.0);
  }

  /** h = 360 is accepted: `i % 6 == 0` catches i = 6, so it is pure red too. */
  lemma RedAtFullTurn()
    ensures HsvToRgb(Hsv(360.0, 1.0, 1.0)) == Rgb(255, 0, 0)
  {
    BoundaryParts();
    assert 360.0 / 360.0 * 6.0 == 6.0;
    assert Trunc(6.0) == 6;
    assert SectorChannels(Hsv(360.0, 1.0, 1.0)) == Blend(6, 0.0, 1.0, 1.0) == (1.0, 0.0, 0.0);
  }

  /** h = 120 and h = 240 give pure green and pure blue. */
  lemma GreenAndBlue()
    ensures HsvToRgb(Hsv(120.0, 1.0, 1.0)) == Rgb(0, 255, 0)
    ensures HsvToRgb(Hsv(240.0, 1.0, 1.0)) == Rgb(0, 0, 255)
  {
    BoundaryParts();
    assert 120.0 / 360.0 * 6.0 == 2.0;
    assert Trunc(2.0) == 2;
    assert SectorChannels(Hsv(120.0, 1.0, 1.0)) == Blend(2, 0.0, 1.0, 1.0) == (0.0, 1.0, 0.0);
    assert 240.0 / 360.0 * 6.0 == 4.0;
    assert Trunc(4.0) == 4;
    assert SectorChannels(Hsv(240.0, 1.0, 1.0)) == Blend(4, 0.0, 1.0, 1.0) == (0.0, 0.0, 1.0);
  }

  /** hsv_to_rgb([0, 0, 0]) == [0, 0, 0]. */
  lemma BlackExample()
    ensures HsvToRgb(Hsv(0.0, 0.0, 0.0)) == Rgb(0, 0, 0)
  {
    assert Trunc(0.0) == 0;
  }

  /** hsv_to_hex: rgb_to_hex applied to hsv_to_rgb; '#' and six upper-case digits
      in the documented domain. */
  function HsvToHex(c: Hsv): (s: string)
    ensures |s| >= 7 && s[0] == '#'
    ensures InHsvDomain(c) ==> IsCanonicalHex(s)
  {
    RgbToHex(HsvToRgb(c))
  }

  /** hsv_to_hex([0, 1, 1]) == '#FF0000'. */
  lemma RedHex()
    ensures HsvToHex(Hsv(0.0, 1.0, 1.0)) == "#FF0000"
  {
    RedAtZero();
    RedBytes();
    assert RgbToHex(Rgb(255, 0, 0)) == "#" + Format02X(255) + Format02X(0) + Format02X(0);
    assert "#" + "FF" + "00" + "00" == "#FF0000";
    assert HsvToHex(Hsv(0.0, 1.0, 1.0)) == RgbToHex(Rgb(255, 0, 0));
  }

  /** In the documented domain hsv_to_hex gives '#' and six upper-case digits,
      which hex_to_rgb reads back as hsv_to_rgb's triple. */
  lemma {:induction false} HsvToHexCanonical(c: Hsv)
    requires InHsvDomain(c)
    ensures IsCanonicalHex(HsvToHex(c))
    ensures IsHexInput(HsvToHex(c)) && HexToRgb(HsvToHex(c)) == HsvToRgb(c)
  {
    HsvToRgbBounds(c);
    RgbHexRoundTrip(HsvToRgb(c));
  }

  function MaxReal(a: real, b: real): real {
    if a >= b then a else b
  }

  function MinReal(a: real, b: real): real {
    if a <= b then a else b
  }

  /** Python's x % m for a float x and m > 0: the result has the sign of m. */
  function FloorMod(x: real, m: real): (r: real)
    requires m > 0.0
    ensures 0.0 <= r < m
    ensures ((x - r) / m).Floor as real == (x - r) / m
    ensures 0.0 <= x < m ==> r == x
  {
    var k := (x / m).Floor;
    var r := x - m * k as real;
    FloorDivBounds(x, m);
    MultipleDiv(m, k);
    assert x - r == m * k as real;
    r
  }

  /** A whole multiple of m, divided by m, is that whole number. */
  lemma MultipleDiv(m: real, k: int)
    requires m > 0.0
    ensures (m * k as real) / m == k as real
    ensures ((m * k as real) / m).Floor == k
  {
  }

  /** floor(x / m) * m is the largest multiple of m not above x. */
  lemma FloorDivBounds(x: real, m: real)
    requires m > 0.0
    ensures var k := (x / m).Floor;
      && k as real * m <= x < k as real * m + m
      && (0.0 <= x < m ==> k == 0)
  {
    var q := x / m;
    var k := q.Floor;
    assert q * m == x;
    assert k as real <= q < k as real + 1.0;
    calc {
      k as real * m;
    <= { MulMono(k as real, q, m); }
      q * m;
    ==
      x;
    }
    calc {
      x;
    ==
      q * m;
    < { MulMono(q, k as real + 1.0, m); }
      (k as real + 1.0) * m;
    ==
      k as real * m + m;
    }
    if 0.0 <= x < m && k != 0 {
      if k >= 1 {
        MulMono(1.0, k as real, m);
      } else {
        MulMono(k as real + 1.0, 0.0, m);
      }
    }
  }

  lemma MulMonoLeft(a: real, b: real, m: real)
    requires m >= 0.0 && a <= b
    ensures m * a <= m * b
  {
  }

  lemma MulMono(a: real, b: real, m: real)
    requires m > 0.0 && a <= b
    ensures a * m <= b * m
    ensures a < b ==> a * m < b * m
  {
  }

  /** Round half to even on an exact real (Python's rounding rule). */
  function RoundHalfEven(x: real): (n: int)
    ensures x - 0.5 <= n as real <= x + 0.5
    ensures (n as real == x + 0.5 || n as real == x - 0.5) ==> n % 2 == 0
  {
    var fl := x.Floor;
    var frac := x - fl as real;
    if frac < 0.5 then fl
    else if frac > 0.5 then fl + 1
    else if fl % 2 == 0 then fl else fl + 1
  }

  /** round(x, 2), idealised on exact reals. */
  function Round2(x: real): (r: real)
    ensures x - 0.005 <= r <= x + 0.005
    ensures (r * 100.0).Floor as real == r * 100.0
  {
    var n := RoundHalfEven(x * 100.0);
    assert n as real / 100.0 * 100.0 == n as real;
    n as real / 100.0
  }

  /** The hue hex_to_hsv computes before `round(h % 360, 2)`. Each branch already
      lands in [0, 360): the red branch by the `% 6`, the green one in [60, 180] and
      the blue one in [180, 300], since the difference of two channels never exceeds
      delta. So `h % 360` leaves it unchanged; a grey has hue 0. */
  function RawHue(r: real, g: real, b: real): (h: real)
    ensures 0.0 <= h < 360.0
    ensures FloorMod(h, 360.0) == h
    ensures r == g == b ==> h == 0.0
  {
    var cmax := MaxReal(r, MaxReal(g, b));
    var cmin := MinReal(r, MinReal(g, b));
    var delta := cmax - cmin;
    if delta == 0.0 then 0.0
    else if cmax == r then 60.0 * FloorMod((g - b) / delta, 6.0)
    else if cmax == g then
      UnitRatio(b - r, delta);
      60.0 * ((b - r) / delta + 2.0)
    else
      UnitRatio(r - g, delta);
      60.0 * ((r - g) / delta + 4.0)
  }

  /** hex_to_hsv: max/min/delta over the channels scaled to [0, 1]. */
  function HexToHsv(hex: string): (c: Hsv)
    requires IsHexInput(hex)
    ensures 0.0 <= c.h <= 360.0 && 0.0 <= c.s <= 1.0 && 0.0 <= c.v <= 1.0
  {
    var rgb := HexToRgb(hex);
    var r, g, b := rgb.r as real / 255.0, rgb.g as real / 255.0, rgb.b as real / 255.0;
    var cmax := MaxReal(r, MaxReal(g, b));
    var cmin := MinReal(r, MinReal(g, b));
    var delta := cmax - cmin;
    var v := cmax;
    var s := if cmax != 0.0 then delta / cmax else 0.0;
    var h := RawHue(r, g, b);
    var c := Hsv(Round2(FloorMod(h, 360.0)), s, v);
    ScaledMax(rgb);
    Round2Within(FloorMod(h, 360.0));
    if cmax != 0.0 then
      ScaledSaturation(Max3(rgb), Min3(rgb));
      c
    else
      c
  }

  /** Scaling by 1/255 preserves the order of the channels. */
  lemma ScaledMax(c: Rgb)
    ensures MaxReal(c.r as real / 255.0, MaxReal(c.g as real / 255.0, c.b as real / 255.0))
            == Max3(c) as real / 255.0
    ensures MinReal(c.r as real / 255.0, MinReal(c.g as real / 255.0, c.b as real / 255.0))
            == Min3(c) as real / 255.0
  {
  }

  /** hex_to_hsv gives v = max(r, g, b) / 255. */
  lemma {:induction false} HexToHsvValue(hex: string)
    requires IsHexInput(hex)
    ensures HexToHsv(hex).v == Max3(HexToRgb(hex)) as real / 255.0
  {
    ScaledMax(HexToRgb(hex));
  }

  /** (M/255 - m/255) / (M/255) == (M - m) / M, which lies in [0, 1]. */
  lemma ScaledSaturation(mx: int, mn: int)
    requires 0 <= mn <= mx && mx != 0
    ensures var cmax, cmin := mx as real / 255.0, mn as real / 255.0;
      && (cmax - cmin) / cmax == (mx - mn) as real / mx as real
      && 0.0 <= (mx - mn) as real / mx as real <= 1.0
  {
    var cmax, cmin := mx as real / 255.0, mn as real / 255.0;
    assert cmax - cmin == (mx - mn) as real / 255.0;
    var d := (mx - mn) as real / mx as real;
    assert d * mx as real == (mx - mn) as real;
    assert d * cmax == cmax - cmin;
  }

  /** hex_to_hsv gives s = (max - min) / max in [0, 1], and s = 0 when max = 0. */
  lemma {:induction false} HexToHsvSaturation(hex: string)
    requires IsHexInput(hex)
    ensures var rgb, c := HexToRgb(hex), HexToHsv(hex);
      && 0.0 <= c.s <= 1.0
      && (Max3(rgb) == 0 ==> c.s == 0.0)
      && (Max3(rgb) != 0 ==> c.s == (Max3(rgb) - Min3(rgb)) as real / Max3(rgb) as real)
  {
    var rgb := HexToRgb(hex);
    ScaledMax(rgb);
    if Max3(rgb) != 0 {
      ScaledSaturation(Max3(rgb), Min3(rgb));
    }
  }

  /** A difference no larger than delta in magnitude, divided by delta, lies in [-1, 1]. */
  lemma UnitRatio(x: real, delta: real)
    requires delta > 0.0 && -delta <= x <= delta
    ensures -1.0 <= x / delta <= 1.0
  {
    var q := x / delta;
    assert q * delta == x;
    if q > 1.0 {
      MulMono(1.0, q, delta);
    }
    if q < -1.0 {
      MulMono(q, -1.0, delta);
    }
  }

  /** Rounding to two decimals keeps a hue in [0, 360) within [0, 360]. */
  lemma Round2Within(x: real)
    requires 0.0 <= x < 360.0
    ensures 0.0 <= Round2(x) <= 360.0
  {
    assert 0.0 <= x * 100.0 < 36000.0;
    assert 0 <= RoundHalfEven(x * 100.0) <= 36000;
  }

  /** hex_to_hsv gives h in [0, 360], within 0.005 of the hue formula's exact value,
      which lies in [0, 360);
      a grey (r = g = b) has h = 0 and s = 0. */
  lemma {:induction false} HexToHsvHue(hex: string)
    requires IsHexInput(hex)
    ensures var rgb, c := HexToRgb(hex), HexToHsv(hex);
      var exact := RawHue(rgb.r as real / 255.0, rgb.g as real / 255.0, rgb.b as real / 255.0);
      && 0.0 <= exact < 360.0
      && exact - 0.005 <= c.h <= exact + 0.005
      && 0.0 <= c.h <= 360.0
      && (rgb.r == rgb.g == rgb.b ==> c.h == 0.0 && c.s == 0.0)
  {
    var rgb := HexToRgb(hex);
    var r, g, b := rgb.r as real / 255.0, rgb.g as real / 255.0, rgb.b as real / 255.0;
    Round2Within(FloorMod(RawHue(r, g, b), 360.0));
    if rgb.r == rgb.g == rgb.b {
      assert FloorMod(0.0, 360.0) == 0.0;
      assert RoundHalfEven(0.0) == 0;
      HexToHsvSaturation(hex);
    }
  }
}
