/**
  `is_near`: whether two colours lie within a tolerance, given as a percentage of
  the RGB cube's diagonal sqrt(3 * 255^2).
 */
module ColorMetric {
  import opened ColorModel
  import opened HexCodec
  import opened HsvConversion

  /** 3 * 255^2, the squared length of the RGB cube's diagonal. */
  const DiagonalSquared: int := 195075

  /** The modes `is_near` accepts. */
  predicate IsMode(mode: string) {
    mode == "HEX" || mode == "HSV" || mode == "RGB"
  }

  /** In a valid mode, each argument has the shape that mode reads: a HEX string
      `hex_to_rgb` parses, an HSV list, or an RGB list. */
  predicate Fits(c: Color, mode: string) {
    if mode == "HEX" then c.HexColor? && IsHexInput(c.hex)
    else if mode == "HSV" then c.HsvColor?
    else if mode == "RGB" then c.RgbColor?
    else true
  }

  /** The conversion to RGB that `is_near` applies first: HEX strings always give
      byte triples, HSV colours do in their documented domain, RGB lists pass through. */
  function ToRgb(c: Color, mode: string): (rgb: Rgb)
    requires IsMode(mode) && Fits(c, mode)
    ensures mode == "HEX" ==> IsByteTriple(rgb)
    ensures mode == "HSV" && InHsvDomain(c.hsv) ==> IsByteTriple(rgb)
    ensures mode == "RGB" ==> rgb == c.rgb
  {
    if mode == "HEX" then HexToRgb(c.hex)
    else if mode == "HSV" then HsvToRgb(c.hsv)
    else c.rgb
  }

  /** The square of a component difference: never negative, zero only for zero. */
  function Square(x: int): (y: int)
    ensures y >= 0
    ensures y == 0 <==> x == 0
  {
    SquareSign(x);
    x * x
  }

  lemma SquareSign(x: int)
    ensures x * x >= 0
    ensures x * x == 0 <==> x == 0
  {
    if x < 0 {
      assert x * x == (-x) * (-x);
      assert (-x) * (-x) >= -x;
    } else if x > 0 {
      assert x * x >= x;
    }
  }

  /** The squared Euclidean distance of two RGB triples. */
  function SquaredDistance(a: Rgb, b: Rgb): (d2: int)
    ensures d2 >= 0
    ensures d2 == 0 <==> a == b
  {
    Square(a.r - b.r) + Square(a.g - b.g) + Square(a.b - b.b)
  }

  /** `distance / sqrt(3 * 255^2) * 100 <= tolerance`, stated without square roots. */
  predicate WithinTolerance(d2: int, tolerance: real): (b: bool)
    ensures b ==> tolerance >= 0.0
    ensures d2 <= 0 && tolerance >= 0.0 ==> b
  {
    tolerance >= 0.0 && 10000.0 * d2 as real <= tolerance * tolerance * DiagonalSquared as real
  }

  /** is_near: an unknown mode raises ValueError('Invalid mode' + mode); otherwise both
      colours are converted to RGB and compared by their distance in percent. */
  function IsNear(c1: Color, c2: Color, tolerance: real, mode: string := "RGB"): (r: Result<bool>)
    requires IsMode(mode) ==> Fits(c1, mode) && Fits(c2, mode)
    ensures r.Err? <==> !IsMode(mode)
    ensures r.Err? ==> r.error == ValueError("Invalid mode" + mode)
  {
    if !IsMode(mode) then Err(ValueError("Invalid mode" + mode))
    else Ok(WithinTolerance(SquaredDistance(ToRgb(c1, mode), ToRgb(c2, mode)), tolerance))
  }

  /** The squared comparison is exact: for the non-negative percentage pct with
      pct^2 * 3 * 255^2 == 10000 * d2, that is pct == sqrt(d2) / sqrt(3 * 255^2) * 100,
      the source's test `pct <= tolerance` holds exactly when WithinTolerance does. */
  lemma {:induction false} PercentageComparison(d2: int, pct: real, tolerance: real)
    requires d2 >= 0 && pct >= 0.0
    requires pct * pct * DiagonalSquared as real == 10000.0 * d2 as real
    ensures pct <= tolerance <==> WithinTolerance(d2, tolerance)
  {
    var k := DiagonalSquared as real;
    if pct <= tolerance {
      SquareLe(pct, tolerance);
      ScaleLe(k, pct * pct, tolerance * tolerance);
    }
    if WithinTolerance(d2, tolerance) && pct > tolerance {
      SquareLt(tolerance, pct);
      ScaleLt(k, tolerance * tolerance, pct * pct);
      assert false;
    }
  }

  lemma ScaleLe(c: real, a: real, b: real)
    requires 0.0 <= c && a <= b
    ensures c * a <= c * b && a * c <= b * c
  {
  }

  lemma ScaleLt(c: real, a: real, b: real)
    requires 0.0 < c && a < b
    ensures c * a < c * b && a * c < b * c
  {
  }

  lemma SquareLe(a: real, b: real)
    requires 0.0 <= a <= b
    ensures a * a <= b * b
  {
    calc {
      a * a;
    <=
      a * b;
    <=
      b * b;
    }
  }

  lemma SquareLt(a: real, b: real)
    requires 0.0 <= a < b
    ensures a * a < b * b
  {
    calc {
      a * a;
    <=
      a * b;
    <
      b * b;
    }
  }

  /** is_near(a, b, t, m) == is_near(b, a, t, m). */
  lemma {:induction false} IsNearSymmetric(c1: Color, c2: Color, tolerance: real, mode: string)
    requires IsMode(mode) ==> Fits(c1, mode) && Fits(c2, mode)
    ensures IsNear(c1, c2, tolerance, mode) == IsNear(c2, c1, tolerance, mode)
  {
    if IsMode(mode) {
      var a, b := ToRgb(c1, mode), ToRgb(c2, mode);
      assert SquaredDistance(a, b) == SquaredDistance(b, a);
    }
  }

  /** A colour is near itself for every valid mode and every tolerance >= 0. */
  lemma IsNearReflexive(c: Color, tolerance: real, mode: string)
    requires IsMode(mode) && Fits(c, mode) && tolerance >= 0.0
    ensures IsNear(c, c, tolerance, mode) == Ok(true)
  {
  }

  /** A negative tolerance is never met, in any valid mode. */
  lemma NegativeToleranceNeverNear(c1: Color, c2: Color, tolerance: real, mode: string)
    requires IsMode(mode) && Fits(c1, mode) && Fits(c2, mode) && tolerance < 0.0
    ensures IsNear(c1, c2, tolerance, mode) == Ok(false)
  {
  }

  /** With tolerance 0 two colours are near exactly when their RGB triples are equal. */
  lemma ZeroToleranceIsEquality(c1: Color, c2: Color, mode: string)
    requires IsMode(mode) && Fits(c1, mode) && Fits(c2, mode)
    ensures IsNear(c1, c2, 0.0, mode) == Ok(ToRgb(c1, mode) == ToRgb(c2, mode))
  {
  }

  /** No two byte triples are farther apart than the cube's diagonal. */
  lemma {:induction false} DistanceAtMostDiagonal(a: Rgb, b: Rgb)
    requires IsByteTriple(a) && IsByteTriple(b)
    ensures SquaredDistance(a, b) <= DiagonalSquared
  {
    SquareAtMost(a.r - b.r);
    SquareAtMost(a.g - b.g);
    SquareAtMost(a.b - b.b);
  }

  lemma SquareAtMost(x: int)
    requires -255 <= x <= 255
    ensures Square(x) <= 65025
  {
    var y := if x < 0 then -x else x;
    calc {
      Square(x);
    ==
      x * x;
    == { assert x * x == y * y; }
      y * y;
    <= { MulLeInt(y, 255, y); }
      255 * y;
    <=
      65025;
    }
  }

  lemma MulLeInt(a: int, b: int, c: int)
    requires 0 <= a <= b && c >= 0
    ensures a * c <= b * c
  {
    assert b * c - a * c == (b - a) * c;
  }

  /** In RGB mode any two byte triples are near once the tolerance reaches 100 %. */
  lemma {:induction false} FullToleranceAlwaysNear(a: Rgb, b: Rgb, tolerance: real)
    requires IsByteTriple(a) && IsByteTriple(b) && tolerance >= 100.0
    ensures IsNear(RgbColor(a), RgbColor(b), tolerance) == Ok(true)
  {
    DistanceAtMostDiagonal(a, b);
    assert tolerance * tolerance >= 10000.0 by {
      assert tolerance * tolerance >= 100.0 * tolerance;
    }
    var d2 := SquaredDistance(a, b);
    assert 10000.0 * d2 as real <= 10000.0 * DiagonalSquared as real;
    assert 10000.0 * DiagonalSquared as real <= tolerance * tolerance * DiagonalSquared as real;
  }

  lemma HexDigitsOfExamples()
    ensures IsHexInput("#000000") && HexToRgb("#000000") == Rgb(0, 0, 0)
    ensures IsHexInput("#010101") && HexToRgb("#010101") == Rgb(1, 1, 1)
    ensures IsHexInput("#FFFFFF") && HexToRgb("#FFFFFF") == Rgb(255, 255, 255)
  {
    assert Format02X(0) == "00" && Format02X(1) == "01" && Format02X(255) == "FF";
    assert RgbToHex(Rgb(0, 0, 0)) == "#000000";
    assert RgbToHex(Rgb(1, 1, 1)) == "#010101";
    assert RgbToHex(Rgb(255, 255, 255)) == "#FFFFFF";
    RgbHexRoundTrip(Rgb(0, 0, 0));
    RgbHexRoundTrip(Rgb(1, 1, 1));
    RgbHexRoundTrip(Rgb(255, 255, 255));
  }

  /** is_near('#000000', '#010101', 1, 'HEX') is true (about 0.68 %). */
  lemma NearHexExample()
    ensures IsHexInput("#000000") && IsHexInput("#010101")
    ensures IsNear(HexColor("#000000"), HexColor("#010101"), 1.0, "HEX") == Ok(true)
  {
    HexDigitsOfExamples();
    var a, b := HexColor("#000000"), HexColor("#010101");
    assert ToRgb(a, "HEX") == Rgb(0, 0, 0);
    assert ToRgb(b, "HEX") == Rgb(1, 1, 1);
    assert SquaredDistance(Rgb(0, 0, 0), Rgb(1, 1, 1)) == 3;
    assert WithinTolerance(3, 1.0);
  }

  /** is_near('#000000', '#FFFFFF', 1, 'HEX') is false (100 %). */
  lemma FarHexExample()
    ensures IsHexInput("#000000") && IsHexInput("#FFFFFF")
    ensures IsNear(HexColor("#000000"), HexColor("#FFFFFF"), 1.0, "HEX") == Ok(false)
  {
    HexDigitsOfExamples();
    var a, b := HexColor("#000000"), HexColor("#FFFFFF");
    assert ToRgb(a, "HEX") == Rgb(0, 0, 0);
    assert ToRgb(b, "HEX") == Rgb(255, 255, 255);
    assert SquaredDistance(Rgb(0, 0, 0), Rgb(255, 255, 255)) == 195075;
    assert !WithinTolerance(195075, 1.0);
  }

  /** An unknown mode raises before any conversion or distance is computed,
      whatever the two arguments are. */
  lemma InvalidModeRaises(c1: Color, c2: Color, tolerance: real)
    ensures IsNear(c1, c2, tolerance, "CMYK") == Err(ValueError("Invalid modeCMYK"))
  {
  }
}
