/** RGB <-> HSV conversion of src/lumen.c (`rgb2hsv`, `hsv2rgb`), with the
    source's doubles abstracted to exact reals. The branch structure, the
    constants and the casts are those of the source. */
module ColourSpace {
  import opened Colour

  /** Below this spread between the largest and smallest channel a colour
      counts as grey and gets no hue. */
  const AchromaticThreshold: real := 0.00001

  /** The three channels, in the order the source tests them. */
  datatype Channel = Red | Green | Blue

  function ChannelOf(c: Rgb, ch: Channel): real {
    match ch
    case Red => c.r
    case Green => c.g
    case Blue => c.b
  }

  /** Largest minus smallest channel (`delta` in the source). */
  function Spread(c: Rgb): real {
    MaxChannel(c) - MinChannel(c)
  }

  /** Every two channels lie closer together than the threshold. */
  predicate NearlyGrey(c: Rgb) {
    && -AchromaticThreshold < c.r - c.g < AchromaticThreshold
    && -AchromaticThreshold < c.g - c.b < AchromaticThreshold
    && -AchromaticThreshold < c.r - c.b < AchromaticThreshold
  }

  /** The source's cut-off on the spread is the pairwise notion of grey. */
  lemma NearlyGreyIsSmallSpread(c: Rgb)
    ensures NearlyGrey(c) <==> Spread(c) < AchromaticThreshold
  {
  }

  /** The channel whose formula gives the hue: the first of red, green,
      blue (in that order) that reaches the maximum. */
  function DominantChannel(c: Rgb): (ch: Channel)
    ensures ChannelOf(c, ch) == MaxChannel(c)
    ensures ch != Red ==> c.r < MaxChannel(c)
    ensures ch == Blue ==> c.g < MaxChannel(c)
  {
    var mx := MaxChannel(c);
    if c.r >= mx then Red
    else if c.g >= mx then Green
    else Blue
  }

  /** The hue in sixths of a turn as computed by the formula belonging to
      channel `ch`, before scaling to degrees. */
  function HueSixths(c: Rgb, ch: Channel, delta: real): real
    requires delta != 0.0
  {
    match ch
    case Red => (c.g - c.b) / delta
    case Green => 2.0 + (c.b - c.r) / delta
    case Blue => 4.0 + (c.r - c.g) / delta
  }

  /** The source's single correction of a negative hue: add one turn. */
  function WrapNegative(h: real): (w: real)
    ensures -360.0 <= h < 360.0 ==> 0.0 <= w < 360.0
    ensures w == h || w == h + 360.0
  {
    if h < 0.0 then h + 360.0 else h
  }

  /** For a colour that is not grey, the sixths value lies in [-1, 5]. */
  lemma HueSixthsBounds(c: Rgb, ch: Channel)
    requires Spread(c) > 0.0
    requires ChannelOf(c, ch) == MaxChannel(c)
    ensures -1.0 <= HueSixths(c, ch, Spread(c)) <= 5.0
  {
    var d := Spread(c);
    match ch
    case Red =>
      RatioBounds(c.g - c.b, d);
    case Green =>
      RatioBounds(c.b - c.r, d);
    case Blue =>
      RatioBounds(c.r - c.g, d);
  }

  /** A quotient by a positive number of something no larger in size. */
  lemma RatioBounds(x: real, d: real)
    requires d > 0.0
    requires -d <= x <= d
    ensures -1.0 <= x / d <= 1.0
  {
    assert x / d * d == x;
  }

  /** `rgb2hsv`. Value is the largest channel; a nearly grey colour gets
      saturation 0 and hue 0; a colour whose largest channel is not
      positive (only possible with a negative channel) gets saturation 0
      and no hue; otherwise saturation is spread over value and the hue
      comes from the dominant channel. */
  function RgbToHsv(c: Rgb): (out: Hsv)
    ensures out.v == c.r || out.v == c.g || out.v == c.b
    ensures c.r <= out.v && c.g <= out.v && c.b <= out.v
    ensures NearlyGrey(c) <==> out.s == 0.0 && out.h == Degrees(0.0)
    ensures out.h.Undefined? <==> !NearlyGrey(c) && out.v <= 0.0
    ensures out.h.Undefined? ==> out.s == 0.0
    ensures NonNegative(c) ==> out.h.Degrees?
    ensures out.h.Degrees? ==> 0.0 <= out.h.deg < 360.0
    ensures !NearlyGrey(c) && out.h.Degrees? ==> out.s * out.v == Spread(c) && 0.0 < out.s
    ensures !NearlyGrey(c) && NonNegative(c) ==> out.s <= 1.0
  {
    NearlyGreyIsSmallSpread(c);
    var mx := MaxChannel(c);
    var mn := MinChannel(c);
    var delta := mx - mn;
    if delta < AchromaticThreshold then
      Hsv(Degrees(0.0), 0.0, mx)
    else if !(mx > 0.0) then
      Hsv(Undefined, 0.0, mx)
    else
      var ch := DominantChannel(c);
      var h := HueSixths(c, ch, delta) * 60.0;
      HueSixthsBounds(c, ch);
      var s := delta / mx;
      SaturationFacts(delta, mx, mn);
      Hsv(Degrees(WrapNegative(h)), s, mx)
  }

  /** Spread over a positive maximum: positive, recovering the spread when
      multiplied back, and at most 1 when the minimum is non-negative. */
  lemma SaturationFacts(delta: real, mx: real, mn: real)
    requires delta == mx - mn && delta > 0.0 && mx > 0.0
    ensures (delta / mx) * mx == delta
    ensures 0.0 < delta / mx
    ensures 0.0 <= mn ==> delta / mx <= 1.0
  {
  }

  /** C's conversion of a double to `long`: truncation toward zero. */
  function Trunc(x: real): (i: int)
    ensures 0.0 <= x ==> i as real <= x < i as real + 1.0
    ensures x < 0.0 ==> i as real - 1.0 < x <= i as real
  {
    if x >= 0.0 then x.Floor else -((-x).Floor)
  }

  /** The source's hue normalisation: a hue of 360 or more becomes 0. It is
      a single comparison, not a reduction modulo 360. */
  function FoldHue(h: real): (f: real)
    ensures 0.0 <= h ==> 0.0 <= f < 360.0
    ensures h < 360.0 ==> f == h
  {
    if h >= 360.0 then 0.0 else h
  }

  /** The `switch` on the sector index, `default` sharing sector 5's row. */
  function SectorColour(i: int, v: real, p: real, q: real, t: real): Rgb {
    match i
    case 0 => Rgb(v, t, p)
    case 1 => Rgb(q, v, p)
    case 2 => Rgb(p, v, t)
    case 3 => Rgb(p, q, v)
    case 4 => Rgb(t, p, v)
    case _ => Rgb(v, p, q)
  }

  /** Products of numbers in [0, 1] scale a non-negative number down. */
  lemma ScaleDown(v: real, k: real)
    requires 0.0 <= v
    requires 0.0 <= k <= 1.0
    ensures 0.0 <= v * k <= v
  {
  }

  /** `hsv2rgb`. A non-positive saturation gives the grey (v, v, v) whatever
      the hue. Otherwise, for a non-negative hue and saturation in (0, 1],
      every channel lies between v(1 - s) and v, and both bounds are
      attained. A hue with positive saturation must be defined: the source
      casts a NaN hue to `long`, which C leaves undefined. */
  function HsvToRgb(x: Hsv): (out: Rgb)
    requires x.s <= 0.0 || x.h.Degrees?
    ensures x.s <= 0.0 ==> out == Rgb(x.v, x.v, x.v)
    ensures 0.0 < x.s <= 1.0 && 0.0 <= x.v && 0.0 <= x.h.deg ==>
      MaxChannel(out) == x.v && MinChannel(out) == x.v * (1.0 - x.s)
  {
    if x.s <= 0.0 then
      Rgb(x.v, x.v, x.v)
    else
      var hh := FoldHue(x.h.deg) / 60.0;
      var i := Trunc(hh);
      var ff := hh - i as real;
      var p := x.v * (1.0 - x.s);
      var q := x.v * (1.0 - x.s * ff);
      var t := x.v * (1.0 - x.s * (1.0 - ff));
      var out := SectorColour(i, x.v, p, q, t);
      assert 0.0 < x.s <= 1.0 && 0.0 <= x.v && 0.0 <= x.h.deg ==>
        MaxChannel(out) == x.v && MinChannel(out) == p by {
        if 0.0 < x.s <= 1.0 && 0.0 <= x.v && 0.0 <= x.h.deg {
          SectorBounds(x.v, x.s, ff, p, q, t);
          SectorColourExtremes(i, x.v, p, q, t);
        }
      }
      out
  }

  /** Whatever the sector, the table places v and p once each and the
      in-between values q and t elsewhere. */
  lemma SectorColourExtremes(i: int, v: real, p: real, q: real, t: real)
    requires p <= q <= v && p <= t <= v
    ensures MaxChannel(SectorColour(i, v, p, q, t)) == v
    ensures MinChannel(SectorColour(i, v, p, q, t)) == p
  {
  }

  /** Within a sector, the table values p = v(1 - s), q = v(1 - s ff) and
      t = v(1 - s(1 - ff)) satisfy p <= q, t <= v for a fraction ff in
      [0, 1), and p is non-negative. */
  lemma SectorBounds(v: real, s: real, ff: real, p: real, q: real, t: real)
    requires 0.0 <= v && 0.0 < s <= 1.0 && 0.0 <= ff < 1.0
    requires p == v * (1.0 - s) && q == v * (1.0 - s * ff) && t == v * (1.0 - s * (1.0 - ff))
    ensures p <= q <= v && p <= t <= v && 0.0 <= p
  {
    ScaleDown(s, ff);
    ScaleDown(s, 1.0 - ff);
    ScaleDown(v, 1.0 - s);
    assert v * (1.0 - s * ff) - v * (1.0 - s) == v * (s - s * ff);
    assert v * (1.0 - s * (1.0 - ff)) - v * (1.0 - s) == v * (s * ff);
    ScaleDown(v, s * ff);
    ScaleDown(v, s - s * ff);
  }

  /** For a colour that is neither grey nor non-positive: value is the
      largest channel, saturation the spread over it, and the hue the
      dominant channel's formula in degrees, wrapped once. */
  lemma ChromaticHsv(c: Rgb)
    requires !NearlyGrey(c) && MaxChannel(c) > 0.0
    ensures Spread(c) >= AchromaticThreshold
    ensures var x := RgbToHsv(c);
      && x.v == MaxChannel(c)
      && x.s == Spread(c) / MaxChannel(c)
      && x.h == Degrees(WrapNegative(HueSixths(c, DominantChannel(c), Spread(c)) * 60.0))
  {
    NearlyGreyIsSmallSpread(c);
  }

  /** Where two channels tie at the maximum, each of their formulas lands
      on the boundary between their sectors: 60 degrees for red and green,
      180 for green and blue, 300 for blue and red. */
  lemma TiedFormulaValues(c: Rgb)
    requires Spread(c) > 0.0
    ensures var d := Spread(c);
      && (c.r == c.g == MaxChannel(c) ==> HueSixths(c, Red, d) == 1.0 && HueSixths(c, Green, d) == 1.0)
      && (c.g == c.b == MaxChannel(c) ==> HueSixths(c, Green, d) == 3.0 && HueSixths(c, Blue, d) == 3.0)
      && (c.b == c.r == MaxChannel(c) ==> HueSixths(c, Blue, d) == 5.0 && HueSixths(c, Red, d) == -1.0)
  {
    var d := Spread(c);
    var mn := MinChannel(c);
    assert d / d == 1.0;
    assert (-d) / d == -1.0;
    if c.r == c.g == MaxChannel(c) {
      assert c.b == mn;
    }
    if c.g == c.b == MaxChannel(c) {
      assert c.r == mn;
    }
    if c.b == c.r == MaxChannel(c) {
      assert c.g == mn;
    }
  }

  /** Two channels both at the maximum give the same hue in degrees once
      a negative value is wrapped. */
  lemma TiedFormulasAgree(c: Rgb, a: Channel, b: Channel)
    requires Spread(c) > 0.0
    requires ChannelOf(c, a) == MaxChannel(c) && ChannelOf(c, b) == MaxChannel(c)
    ensures WrapNegative(HueSixths(c, a, Spread(c)) * 60.0) == WrapNegative(HueSixths(c, b, Spread(c)) * 60.0)
  {
    TiedFormulaValues(c);
  }

  /** Any channel at the maximum gives the same hue: the red-green-blue
      test order decides which formula runs on a tie, but over the reals
      the formulas agree there. */
  lemma TieBreakImmaterial(c: Rgb, ch: Channel)
    requires !NearlyGrey(c) && MaxChannel(c) > 0.0
    requires ChannelOf(c, ch) == MaxChannel(c)
    ensures RgbToHsv(c).h == Degrees(WrapNegative(HueSixths(c, ch, Spread(c)) * 60.0))
  {
    ChromaticHsv(c);
    TiedFormulasAgree(c, DominantChannel(c), ch);
  }

  /** The row of sector k for value v, spread d and fraction ff: the
      table filled with v, p = v - d, q = v - d*ff and t = v - d + d*ff. */
  function SectorRow(k: int, v: real, d: real, ff: real): Rgb {
    SectorColour(k, v, v - d, v - d * ff, v - d + d * ff)
  }

  /** For a hue in [0, 360) and positive saturation, the sector is the
      whole number of sixths in the hue, and the colour is that sector's
      row with spread vs and the fraction of a sixth left over. */
  lemma SectorChannels(x: Hsv)
    requires x.h.Degrees? && 0.0 <= x.h.deg < 360.0 && 0.0 < x.s
    ensures var k := (x.h.deg / 60.0).Floor;
      var ff := x.h.deg / 60.0 - k as real;
      var d := x.v * x.s;
      && 0 <= k <= 5
      && 0.0 <= ff < 1.0
      && HsvToRgb(x) == SectorRow(k, x.v, d, ff)
  {
    var hh := x.h.deg / 60.0;
    var k := hh.Floor;
    var ff := hh - k as real;
    var d := x.v * x.s;
    assert x.v * (1.0 - x.s) == x.v - d;
    assert x.v * (1.0 - x.s * ff) == x.v - d * ff;
    assert x.v * (1.0 - x.s * (1.0 - ff)) == x.v - d + d * ff;
  }

  /** The channel order each table row produces, for a non-negative
      spread d and fraction ff in [0, 1). */
  lemma SectorOrder(k: int, v: real, d: real, ff: real)
    requires 0.0 <= d && 0.0 <= ff < 1.0
    ensures var o := SectorRow(k, v, d, ff);
      && (k == 0 ==> o.r >= o.g >= o.b)
      && (k == 1 ==> o.g >= o.r >= o.b)
      && (k == 2 ==> o.g >= o.b >= o.r)
      && (k == 3 ==> o.b >= o.g >= o.r)
      && (k == 4 ==> o.b >= o.r >= o.g)
      && (k == 5 ==> o.r >= o.b >= o.g)
  {
    ScaleDown(d, ff);
    var p, q, t := v - d, v - d * ff, v - d + d * ff;
    assert 0.0 <= d * ff <= d;
    assert p <= q;
    assert q <= v;
    assert p <= t;
    assert t <= v;
    var o := SectorColour(k, v, p, q, t);
    if k == 0 {
      assert o == Rgb(v, t, p);
    } else if k == 1 {
      assert o == Rgb(q, v, p);
    } else if k == 2 {
      assert o == Rgb(p, v, t);
    } else if k == 3 {
      assert o == Rgb(p, q, v);
    } else if k == 4 {
      assert o == Rgb(t, p, v);
    } else if k == 5 {
      assert o == Rgb(v, p, q);
    }
  }

  /** The hue wheel: in each 60-degree band of hue the table puts the
      channels in a fixed order, largest first. */
  lemma HueBandOrder(x: Hsv)
    requires x.h.Degrees? && 0.0 <= x.h.deg < 360.0 && 0.0 < x.s && 0.0 <= x.v
    ensures var o := HsvToRgb(x);
      var h := x.h.deg;
      && (h < 60.0 ==> o.r >= o.g >= o.b)
      && (60.0 <= h < 120.0 ==> o.g >= o.r >= o.b)
      && (120.0 <= h < 180.0 ==> o.g >= o.b >= o.r)
      && (180.0 <= h < 240.0 ==> o.b >= o.g >= o.r)
      && (240.0 <= h < 300.0 ==> o.b >= o.r >= o.g)
      && (300.0 <= h ==> o.r >= o.b >= o.g)
  {
    SectorChannels(x);
    var h := x.h.deg;
    var k := (h / 60.0).Floor;
    var ff := h / 60.0 - k as real;
    var d := x.v * x.s;
    SectorOrder(k, x.v, d, ff);
    assert k as real * 60.0 <= h < k as real * 60.0 + 60.0;
  }

  /** A hue of 360 or more is replaced by 0 before the sector is chosen. */
  lemma HueAtOrAbove360IsRed(h: real, s: real, v: real)
    requires 360.0 <= h && 0.0 < s
    ensures HsvToRgb(Hsv(Degrees(h), s, v)) == Rgb(v, v * (1.0 - s), v * (1.0 - s))
  {
  }

  /** The replacement is not a reduction modulo 360: 370 degrees renders as
      0 degrees, not as 10 degrees. */
  lemma HueIsNotReducedModulo360()
    ensures HsvToRgb(Hsv(Degrees(370.0), 1.0, 1.0)) != HsvToRgb(Hsv(Degrees(10.0), 1.0, 1.0))
  {
    assert HsvToRgb(Hsv(Degrees(370.0), 1.0, 1.0)).g == 0.0;
    assert Trunc(10.0 / 60.0) == 0;
    assert HsvToRgb(Hsv(Degrees(10.0), 1.0, 1.0)).g == 10.0 / 60.0;
  }
}
