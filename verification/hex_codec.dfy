/**
  The HEX <-> RGB codec of the Color module: `hex_to_rgb` and `rgb_to_hex`.
 */
module HexCodec {
  import opened ColorModel

  /** A character Python's int(_, 16) accepts as a digit. */
  predicate IsHexDigit(c: char) {
    '0' <= c <= '9' || 'a' <= c <= 'f' || 'A' <= c <= 'F'
  }

  /** A digit as the format code `X` writes it. */
  predicate IsUpperHexDigit(c: char) {
    '0' <= c <= '9' || 'A' <= c <= 'F'
  }

  predicate AllHexDigits(s: string) {
    forall k :: 0 <= k < |s| ==> IsHexDigit(s[k])
  }

  predicate AllUpperHexDigits(s: string) {
    forall k :: 0 <= k < |s| ==> IsUpperHexDigit(s[k])
  }

  /** Python's str.upper() restricted to hex digits. */
  function UpperDigit(c: char): char {
    if 'a' <= c <= 'f' then (c as int - 32) as char else c
  }

  function UpperHex(s: string): (u: string)
    ensures |u| == |s|
    ensures forall k :: 0 <= k < |s| ==> u[k] == UpperDigit(s[k])
  {
    seq(|s|, k requires 0 <= k < |s| => UpperDigit(s[k]))
  }

  /** The value of one base-16 digit, either case. */
  function DigitValue(c: char): (d: int)
    requires IsHexDigit(c)
    ensures 0 <= d < 16
  {
    if '0' <= c <= '9' then c as int - '0' as int
    else if 'a' <= c <= 'f' then c as int - 'a' as int + 10
    else c as int - 'A' as int + 10
  }

  /** The upper-case digit for a value below 16; DigitValue inverts it. */
  function DigitChar(d: int): (c: char)
    requires 0 <= d < 16
    ensures IsUpperHexDigit(c) && DigitValue(c) == d
  {
    if d < 10 then ('0' as int + d) as char else ('A' as int + d - 10) as char
  }

  /** Writing a digit's value back gives the digit in upper case. */
  lemma DigitCharOfValue(c: char)
    requires IsHexDigit(c)
    ensures DigitChar(DigitValue(c)) == UpperDigit(c)
  {
  }

  /** 16 to the power k. */
  function Pow16(k: nat): (p: nat)
    ensures p >= 1
  {
    if k == 0 then 1 else 16 * Pow16(k - 1)
  }

  /** Python's int(s, 16) on a non-empty string of hex digits: the value is below 16^|s|. */
  function ParseHex(s: string): (n: nat)
    requires |s| > 0 && AllHexDigits(s)
    ensures n < Pow16(|s|)
    decreases |s|
  {
    if |s| == 1 then DigitValue(s[0])
    else 16 * ParseHex(s[..|s| - 1]) + DigitValue(s[|s| - 1])
  }

  /** Python's '{:X}'.format(n) for n >= 0: the shortest upper-case base-16 numeral. */
  function HexDigits(n: nat): (s: string)
    ensures |s| > 0 && AllUpperHexDigits(s)
    ensures n >= 16 ==> |s| >= 2
    ensures AllHexDigits(s) && ParseHex(s) == n
    decreases n
  {
    if n < 16 then [DigitChar(n)]
    else
      var prefix := HexDigits(n / 16);
      var s := prefix + [DigitChar(n % 16)];
      assert s[..|s| - 1] == prefix;
      s
  }

  /** Python's '{:02X}'.format(n): upper-case hex, zero-padded to width 2,
      with a leading '-' for a negative n. */
  function Format02X(n: int): (s: string)
    ensures |s| >= 2
    ensures (s[0] == '-') <==> n < 0
    ensures 0 <= n < 256 ==> s == [DigitChar(n / 16), DigitChar(n % 16)]
  {
    if n < 0 then "-" + HexDigits(-n)
    else if n < 16 then "0" + HexDigits(n)
    else
      assert n < 256 ==> HexDigits(n) == HexDigits(n / 16) + [DigitChar(n % 16)];
      HexDigits(n)
  }

  /** `color.replace('#', '')`: every '#' is removed, wherever it stands. */
  function StripHashes(s: string): (d: string)
    ensures |d| <= |s|
    ensures forall c :: c in d <==> c in s && c != '#'
    ensures '#' !in s ==> d == s
  {
    if s == [] then []
    else (if s[0] == '#' then [] else [s[0]]) + StripHashes(s[1..])
  }

  /** Removing '#' from a concatenation removes it from each part: the characters
      kept keep their order and multiplicity. */
  lemma {:induction false} StripHashesAppend(a: string, b: string)
    ensures StripHashes(a + b) == StripHashes(a) + StripHashes(b)
    decreases |a|
  {
    if a == [] {
      assert a + b == b;
    } else {
      var head := if a[0] == '#' then [] else [a[0]];
      assert (a + b)[0] == a[0] && (a + b)[1..] == a[1..] + b;
      calc {
        StripHashes(a + b);
      ==
        head + StripHashes(a[1..] + b);
      == { StripHashesAppend(a[1..], b); }
        head + (StripHashes(a[1..]) + StripHashes(b));
      ==
        (head + StripHashes(a[1..])) + StripHashes(b);
      ==
        StripHashes(a) + StripHashes(b);
      }
    }
  }

  /** On one character: '#' disappears, anything else stays. */
  lemma StripHashesChar(c: char)
    ensures StripHashes([c]) == if c == '#' then [] else [c]
  {
    assert [c][1..] == [];
  }

  /** The inputs `hex_to_rgb` parses as intended: after removing '#', six hex digits. */
  predicate IsHexInput(s: string) {
    var d := StripHashes(s);
    |d| == 6 && AllHexDigits(d)
  }

  /** hex_to_rgb: three two-digit base-16 slices of the string without '#'. */
  function HexToRgb(s: string): (c: Rgb)
    requires IsHexInput(s)
    ensures IsByteTriple(c)
  {
    var d := StripHashes(s);
    ParseTwoDigits(d[0..2]);
    ParseTwoDigits(d[2..4]);
    ParseTwoDigits(d[4..6]);
    Rgb(ParseHex(d[0..2]), ParseHex(d[2..4]), ParseHex(d[4..6]))
  }

  /** A canonical HEX colour: '#' and six upper-case hex digits. */
  predicate IsCanonicalHex(s: string) {
    |s| == 7 && s[0] == '#' && AllUpperHexDigits(s[1..])
  }

  /** rgb_to_hex: '#' followed by each component formatted with '{:02X}'. */
  function RgbToHex(c: Rgb): (s: string)
    ensures IsByteTriple(c) ==> IsCanonicalHex(s)
    ensures |s| >= 7 && s[0] == '#'
  {
    var s := "#" + Format02X(c.r) + Format02X(c.g) + Format02X(c.b);
    if IsByteTriple(c) then
      CanonicalDigits(Format02X(c.r), Format02X(c.g), Format02X(c.b));
      s
    else
      s
  }

  lemma CanonicalDigits(x: string, y: string, z: string)
    requires |x| == 2 && |y| == 2 && |z| == 2
    requires AllUpperHexDigits(x) && AllUpperHexDigits(y) && AllUpperHexDigits(z)
    ensures IsCanonicalHex("#" + x + y + z)
  {
    var s := "#" + x + y + z;
    assert s[1..] == x + y + z;
    forall k | 0 <= k < 6
      ensures IsUpperHexDigit(s[1..][k])
    {
      if k < 2 { assert s[1..][k] == x[k]; }
      else if k < 4 { assert s[1..][k] == y[k - 2]; }
      else { assert s[1..][k] == z[k - 4]; }
    }
  }

  /** Two hex digits parse to 16 * high + low. */
  lemma ParseTwoDigits(s: string)
    requires |s| == 2 && AllHexDigits(s)
    ensures ParseHex(s) == 16 * DigitValue(s[0]) + DigitValue(s[1])
  {
    assert s[..1] == [s[0]];
  }

  /** Formatting a byte and parsing it back gives the byte. */
  lemma {:induction false} ByteRoundTrip(n: int)
    requires IsByte(n)
    ensures |Format02X(n)| == 2 && AllHexDigits(Format02X(n)) && ParseHex(Format02X(n)) == n
  {
    ParseTwoDigits(Format02X(n));
  }

  /** For every byte triple, hex_to_rgb(rgb_to_hex(c)) == c. */
  lemma {:induction false} RgbHexRoundTrip(c: Rgb)
    requires IsByteTriple(c)
    ensures IsHexInput(RgbToHex(c)) && HexToRgb(RgbToHex(c)) == c
  {
    var x, y, z := Format02X(c.r), Format02X(c.g), Format02X(c.b);
    ByteRoundTrip(c.r);
    ByteRoundTrip(c.g);
    ByteRoundTrip(c.b);
    var d := x + y + z;
    JoinDigits(x, y, z);
    var s := RgbToHex(c);
    assert s == "#" + d;
    StripHashesAppend("#", d);
    StripHashesChar('#');
    assert StripHashes(s) == d;
  }

  /** Three two-digit fields side by side: six hex digits, no '#', each field in its slice. */
  lemma JoinDigits(x: string, y: string, z: string)
    requires |x| == 2 && |y| == 2 && |z| == 2
    requires AllHexDigits(x) && AllHexDigits(y) && AllHexDigits(z)
    ensures var d := x + y + z;
      && |d| == 6 && AllHexDigits(d) && '#' !in d
      && d[0..2] == x && d[2..4] == y && d[4..6] == z
  {
    var d := x + y + z;
    forall k | 0 <= k < 6
      ensures IsHexDigit(d[k])
    {
      if k < 2 { assert d[k] == x[k]; }
      else if k < 4 { assert d[k] == y[k - 2]; }
      else { assert d[k] == z[k - 4]; }
    }
    assert d[0..2] == x && d[2..4] == y && d[4..6] == z;
  }

  /** A pair of hex digits, parsed and formatted again, is the pair in upper case. */
  lemma PairRoundTrip(pair: string)
    requires |pair| == 2 && AllHexDigits(pair)
    ensures Format02X(ParseHex(pair)) == UpperHex(pair)
  {
    var hi, lo := DigitValue(pair[0]), DigitValue(pair[1]);
    var n := ParseHex(pair);
    ParseTwoDigits(pair);
    assert n / 16 == hi && n % 16 == lo;
    DigitCharOfValue(pair[0]);
    DigitCharOfValue(pair[1]);
    calc {
      Format02X(n);
      [DigitChar(hi), DigitChar(lo)];
      [UpperDigit(pair[0]), UpperDigit(pair[1])];
      UpperHex(pair);
    }
  }

  /** For every accepted HEX string, rgb_to_hex(hex_to_rgb(s)) is '#' and its
      six digits in upper case. */
  lemma {:induction false} HexRgbRoundTrip(s: string)
    requires IsHexInput(s)
    ensures RgbToHex(HexToRgb(s)) == "#" + UpperHex(StripHashes(s))
  {
    var d := StripHashes(s);
    var x, y, z := d[0..2], d[2..4], d[4..6];
    var c := HexToRgb(s);
    assert c == Rgb(ParseHex(x), ParseHex(y), ParseHex(z));
    PairRoundTrip(x);
    PairRoundTrip(y);
    PairRoundTrip(z);
    UpperHexSplit(d);
    calc {
      RgbToHex(c);
    ==
      "#" + Format02X(c.r) + Format02X(c.g) + Format02X(c.b);
    ==
      "#" + UpperHex(x) + UpperHex(y) + UpperHex(z);
    ==
      "#" + (UpperHex(x) + UpperHex(y) + UpperHex(z));
    }
  }

  /** Upper-casing six digits is upper-casing each of the three pairs. */
  lemma UpperHexSplit(d: string)
    requires |d| == 6
    ensures UpperHex(d) == UpperHex(d[0..2]) + UpperHex(d[2..4]) + UpperHex(d[4..6])
  {
    var u := UpperHex(d[0..2]) + UpperHex(d[2..4]) + UpperHex(d[4..6]);
    forall k | 0 <= k < 6
      ensures UpperHex(d)[k] == u[k]
    {
      if k < 2 { assert u[k] == UpperHex(d[0..2])[k]; }
      else if k < 4 { assert u[k] == UpperHex(d[2..4])[k - 2]; }
      else { assert u[k] == UpperHex(d[4..6])[k - 4]; }
    }
  }

  /** hex_to_rgb('#FF8000') == [255, 128, 0] and back. */
  lemma OrangeExample()
    ensures IsHexInput("#FF8000") && HexToRgb("#FF8000") == Rgb(255, 128, 0)
    ensures RgbToHex(Rgb(255, 128, 0)) == "#FF8000"
  {
    assert Format02X(255) == "FF";
    assert Format02X(128) == "80";
    assert Format02X(0) == "00";
    assert RgbToHex(Rgb(255, 128, 0)) == "#FF8000";
    RgbHexRoundTrip(Rgb(255, 128, 0));
  }

  /** '{:02X}' of 255 and of 0. */
  lemma RedBytes()
    ensures Format02X(255) == "FF" && Format02X(0) == "00"
  {
    assert 255 / 16 == 15 && 255 % 16 == 15;
    assert DigitChar(15) == 'F' && DigitChar(0) == '0';
  }
}
