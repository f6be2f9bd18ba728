/**
  `get_color_name` and `name_list`: an ordered chain of tests mapping an HSV
  colour to one of ten names; the first test that holds wins.
 */
module ColorClassifier {
  import opened ColorModel

  /** name_list: the ten names, in the module's order. */
  function NameList(): (names: seq<string>)
    ensures |names| == 10
    ensures forall i, j :: 0 <= i < j < |names| ==> names[i] != names[j]
  {
    ["black", "white", "gray", "red", "orange", "yellow", "green", "cyan", "blue", "magenta"]
  }

  /** get_color_name: low saturation, then low value, then high value take
      priority; only then does the hue pick a bucket. */
  function GetColorName(c: Hsv): (name: string)
    ensures name in NameList()
  {
    if c.s < 0.1 then "gray"
    else if c.v < 0.1 then "black"
    else if c.v > 0.9 then "white"
    else if c.h < 30.0 then "red"
    else if c.h < 60.0 then "orange"
    else if c.h < 90.0 then "yellow"
    else if c.h < 150.0 then "green"
    else if c.h < 210.0 then "cyan"
    else if c.h < 270.0 then "blue"
    else if c.h < 330.0 then "magenta"
    else "red"
  }

  /** A colour that none of the saturation and value tests catch: only its hue decides. */
  predicate Chromatic(c: Hsv) {
    c.s >= 0.1 && 0.1 <= c.v <= 0.9
  }

  /** The hue buckets as an ordered table of (exclusive upper bound, name). */
  const HueTable: seq<(real, string)> := [
    (30.0, "red"), (60.0, "orange"), (90.0, "yellow"), (150.0, "green"),
    (210.0, "cyan"), (270.0, "blue"), (330.0, "magenta")
  ]

  /** The first entry of the table whose bound exceeds h; past the last bound the
      hue wraps back to red. */
  function LookUpHue(h: real, table: seq<(real, string)>): (name: string)
    ensures name == "red" || exists k :: 0 <= k < |table| && table[k].1 == name
    ensures (forall k :: 0 <= k < |table| ==> h >= table[k].0) ==> name == "red"
  {
    if table == [] then "red"
    else if h < table[0].0 then table[0].1
    else
      var name := LookUpHue(h, table[1..]);
      if name == "red" then name
      else
        var k :| 0 <= k < |table[1..]| && table[1..][k].1 == name;
        assert table[k + 1].1 == name;
        name
  }

  /** Each name covers exactly one region of (h, s, v) space: gray all of s < 0.1,
      whatever h and v are; black and white the low and high values; each hue
      name its interval of the hue circle, red both ends of it. */
  lemma {:induction false} NameRegions(c: Hsv)
    ensures GetColorName(c) == "gray" <==> c.s < 0.1
    ensures GetColorName(c) == "black" <==> c.s >= 0.1 && c.v < 0.1
    ensures GetColorName(c) == "white" <==> c.s >= 0.1 && c.v > 0.9
    ensures GetColorName(c) == "red" <==> Chromatic(c) && (c.h < 30.0 || c.h >= 330.0)
    ensures GetColorName(c) == "orange" <==> Chromatic(c) && 30.0 <= c.h < 60.0
    ensures GetColorName(c) == "yellow" <==> Chromatic(c) && 60.0 <= c.h < 90.0
    ensures GetColorName(c) == "green" <==> Chromatic(c) && 90.0 <= c.h < 150.0
    ensures GetColorName(c) == "cyan" <==> Chromatic(c) && 150.0 <= c.h < 210.0
    ensures GetColorName(c) == "blue" <==> Chromatic(c) && 210.0 <= c.h < 270.0
    ensures GetColorName(c) == "magenta" <==> Chromatic(c) && 270.0 <= c.h < 330.0
  {
    var names := NameList();
    assert names[0] == "black" && names[1] == "white" && names[2] == "gray";
    assert names[3] == "red" && names[4] == "orange" && names[5] == "yellow";
    assert names[6] == "green" && names[7] == "cyan" && names[8] == "blue" && names[9] == "magenta";
  }

  /** For a chromatic colour the if-chain agrees with the table of hue buckets. */
  lemma {:induction false} ChainMatchesTable(c: Hsv)
    requires Chromatic(c)
    ensures GetColorName(c) == LookUpHue(c.h, HueTable)
  {
    var h := c.h;
    var t0 := HueTable;
    var t1, t2, t3 := t0[1..], t0[2..], t0[3..];
    var t4, t5, t6, t7 := t0[4..], t0[5..], t0[6..], t0[7..];
    assert t1[1..] == t2 && t2[1..] == t3 && t3[1..] == t4;
    assert t4[1..] == t5 && t5[1..] == t6 && t6[1..] == t7 && t7 == [];
    assert LookUpHue(h, t6) == if h < 330.0 then "magenta" else "red";
    assert LookUpHue(h, t5) == if h < 270.0 then "blue" else LookUpHue(h, t6);
    assert LookUpHue(h, t4) == if h < 210.0 then "cyan" else LookUpHue(h, t5);
    assert LookUpHue(h, t3) == if h < 150.0 then "green" else LookUpHue(h, t4);
    assert LookUpHue(h, t2) == if h < 90.0 then "yellow" else LookUpHue(h, t3);
    assert LookUpHue(h, t1) == if h < 60.0 then "orange" else LookUpHue(h, t2);
    assert LookUpHue(h, t0) == if h < 30.0 then "red" else LookUpHue(h, t1);
  }

  /** Every name of name_list is returned for some colour. */
  lemma {:induction false} EveryNameIsReached(name: string)
    requires name in NameList()
    ensures exists c: Hsv :: GetColorName(c) == name
  {
    var witnesses := [
      Hsv(0.0, 1.0, 0.0), Hsv(0.0, 1.0, 1.0), Hsv(0.0, 0.0, 0.5), Hsv(0.0, 1.0, 0.5),
      Hsv(45.0, 1.0, 0.5), Hsv(75.0, 1.0, 0.5), Hsv(120.0, 1.0, 0.5), Hsv(180.0, 1.0, 0.5),
      Hsv(240.0, 1.0, 0.5), Hsv(300.0, 1.0, 0.5)];
    var k :| 0 <= k < 10 && NameList()[k] == name;
    assert GetColorName(witnesses[k]) == name;
  }

  /** Six classification examples: a fully saturated, fully bright hue counts as
      white, since the value test comes before the hue buckets. */
  lemma Examples()
    ensures GetColorName(Hsv(0.0, 1.0, 1.0)) == "white"
    ensures GetColorName(Hsv(200.0, 1.0, 1.0)) == "white"
    ensures GetColorName(Hsv(10.0, 0.05, 0.9)) == "gray"
    ensures GetColorName(Hsv(10.0, 1.0, 0.05)) == "black"
    ensures GetColorName(Hsv(0.0, 1.0, 0.5)) == "red"
    ensures GetColorName(Hsv(200.0, 1.0, 0.5)) == "cyan"
  {
  }
}
