/**
  The three interchangeable encodings of a colour used by the Color module,
  and the error value the module raises.
 */
module ColorModel {

  /** An RGB colour, the module's three-element list [r, g, b].
      No range is enforced: the Python code never checks one. */
  datatype Rgb = Rgb(r: int, g: int, b: int)

  /** An HSV colour [h, s, v]: hue in degrees, saturation and value as fractions.
      Python floats are idealised as exact reals. */
  datatype Hsv = Hsv(h: real, s: real, v: real)

  /** A colour argument as the module's callers pass it: a HEX string or a list. */
  datatype Color = HexColor(hex: string) | RgbColor(rgb: Rgb) | HsvColor(hsv: Hsv)

  /** The only exception the module raises itself is Python's ValueError. */
  datatype Error = ValueError(message: string)

  datatype Result<T> = Ok(value: T) | Err(error: Error)

  predicate IsByte(x: int) {
    0 <= x <= 255
  }

  /** Every component of the triple lies in [0, 255]. */
  predicate IsByteTriple(c: Rgb) {
    IsByte(c.r) && IsByte(c.g) && IsByte(c.b)
  }

  function Max(a: int, b: int): int {
    if a >= b then a else b
  }

  function Min(a: int, b: int): int {
    if a <= b then a else b
  }

  /** Python's max(r, g, b) on integers. */
  function Max3(c: Rgb): (m: int)
    ensures m == c.r || m == c.g || m == c.b
    ensures c.r <= m && c.g <= m && c.b <= m
  {
    Max(c.r, Max(c.g, c.b))
  }

  /** Python's min(r, g, b) on integers. */
  function Min3(c: Rgb): (m: int)
    ensures m == c.r || m == c.g || m == c.b
    ensures m <= c.r && m <= c.g && m <= c.b
  {
    Min(c.r, Min(c.g, c.b))
  }
}
