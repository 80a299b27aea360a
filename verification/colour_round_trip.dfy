/** The two conversions of src/lumen.c are mutually inverse over the reals
    on the colours where both are defined and chromatic. These are facts
    about the real-number abstraction; the source's doubles round. */
module ColourRoundTrip {
  import opened Colour
  import opened ColourSpace

  /** Dividing a multiple of a nonzero number by that number. */
  lemma ScaledRatio(d: real, a: real)
    requires d != 0.0
    ensures (d * a) / d == a
  {
  }

  /** Multiplying a quotient back by its nonzero divisor. */
  lemma RatioScaled(x: real, d: real)
    requires d != 0.0
    ensures d * (x / d) == x
  {
  }

  /** A colour with largest channel v > 0 and spread d at or above the grey
      cut-off has the hue given by any channel at the maximum. */
  lemma RowHue(o: Rgb, ch: Channel, v: real, d: real)
    requires 0.0 < v && AchromaticThreshold <= d
    requires MaxChannel(o) == v && MinChannel(o) == v - d
    requires ChannelOf(o, ch) == v
    ensures Spread(o) == d
    ensures RgbToHsv(o).h == Degrees(WrapNegative(HueSixths(o, ch, d) * 60.0))
  {
    NearlyGreyIsSmallSpread(o);
    TieBreakImmaterial(o, ch);
  }

  /** The row of sector k, given the quotients its hue formulas take. */
  lemma RowOfSectorHue(k: int, v: real, d: real, ff: real, p: real, q: real, t: real)
    requires 0 <= k <= 5 && 0.0 <= ff < 1.0
    requires 0.0 < v && AchromaticThreshold <= d
    requires p == v - d && p <= q <= v && p <= t <= v
    requires (p - q) / d == ff - 1.0 && (t - p) / d == ff
    ensures RgbToHsv(SectorColour(k, v, p, q, t)).h == Degrees(60.0 * (k as real + ff))
  {
    var o := SectorColour(k, v, p, q, t);
    SectorColourExtremes(k, v, p, q, t);
    if k == 0 {
      assert o == Rgb(v, t, p);
      RowHue(o, Red, v, d);
    } else if k == 1 {
      assert o == Rgb(q, v, p);
      RowHue(o, Green, v, d);
    } else if k == 2 {
      assert o == Rgb(p, v, t);
      RowHue(o, Green, v, d);
    } else if k == 3 {
      assert o == Rgb(p, q, v);
      RowHue(o, Blue, v, d);
    } else if k == 4 {
      assert o == Rgb(t, p, v);
      RowHue(o, Blue, v, d);
    } else {
      assert o == Rgb(v, p, q);
      RowHue(o, Red, v, d);
    }
  }

  /** A table row, read back by the RGB-to-HSV conversion, gives the hue
      60(k + ff) of the sector k and fraction ff it was built from, the
      saturation d/v and the value v, when its spread d is at or above the
      grey cut-off. */
  lemma TableToHsv(k: int, v: real, d: real, ff: real)
    requires 0 <= k <= 5 && 0.0 <= ff < 1.0
    requires 0.0 < v && AchromaticThreshold <= d
    ensures RgbToHsv(SectorRow(k, v, d, ff)) == Hsv(Degrees(60.0 * (k as real + ff)), d / v, v)
  {
    var p, q, t := v - d, v - d * ff, v - d + d * ff;
    var o := SectorColour(k, v, p, q, t);
    assert o == SectorRow(k, v, d, ff);
    TableArithmetic(v, d, ff);
    SectorColourExtremes(k, v, p, q, t);
    assert MaxChannel(o) == v && Spread(o) == d;
    NearlyGreyIsSmallSpread(o);
    assert !NearlyGrey(o);
    RowOfSectorHue(k, v, d, ff, p, q, t);
    assert RgbToHsv(o).h == Degrees(60.0 * (k as real + ff));
    ChromaticHsv(o);
    assert RgbToHsv(o).v == v;
    assert RgbToHsv(o).s == d / v;
  }

  /** The in-between table values and their distances from the minimum,
      in units of the spread. */
  lemma TableArithmetic(v: real, d: real, ff: real)
    requires 0.0 <= ff < 1.0 && 0.0 < d
    ensures var p, q, t := v - d, v - d * ff, v - d + d * ff;
      && p <= q <= v && p <= t <= v
      && (p - q) / d == ff - 1.0
      && (t - p) / d == ff
  {
    ScaleDown(d, ff);
    var p, q, t := v - d, v - d * ff, v - d + d * ff;
    assert (p - q) / d == ff - 1.0 by {
      var e := ff - 1.0;
      ScaledRatio(d, e);
      assert p - q == d * e;
    }
    assert (t - p) / d == ff by {
      ScaledRatio(d, ff);
      assert t - p == d * ff;
    }
  }

  /** A product at or above the grey cut-off with one positive factor has
      the other factor positive too. */
  lemma PositiveFactor(v: real, s: real)
    requires 0.0 < s && AchromaticThreshold <= v * s
    ensures 0.0 < v
  {
  }

  /** HSV to RGB and back returns the same hue, saturation and value, for
      a hue in [0, 360) and a spread v*s at or above the grey cut-off. */
  lemma HsvRoundTrip(x: Hsv)
    requires x.h.Degrees? && 0.0 <= x.h.deg < 360.0
    requires 0.0 < x.s && AchromaticThreshold <= x.v * x.s
    ensures RgbToHsv(HsvToRgb(x)) == x
  {
    var h, v, s := x.h.deg, x.v, x.s;
    var d := v * s;
    PositiveFactor(v, s);
    var k := (h / 60.0).Floor;
    var ff := h / 60.0 - k as real;
    assert h == 60.0 * (k as real + ff);
    ScaledRatio(v, s);
    assert d / v == s;
    assert x == Hsv(Degrees(h), s, v);
    RowOfSpread(h, s, v, d);
    assert HsvToRgb(x) == SectorRow(k, v, d, ff);
    TableToHsv(k, v, d, ff);
  }

  /** The sector and fraction that the HSV-to-RGB conversion derives from
      the hue that the RGB-to-HSV conversion built from sixths value X. */
  lemma SectorOfSixths(X: real)
    requires -1.0 <= X <= 5.0
    ensures var h := WrapNegative(X * 60.0);
      var k := (h / 60.0).Floor;
      var ff := h / 60.0 - k as real;
      && 0.0 <= h < 360.0
      && (X < 0.0 ==> k == 5 && ff == X + 1.0)
      && (0.0 <= X ==> k == X.Floor && ff == X - k as real)
  {
  }

  /** The sign of a product with a positive factor is that of the other. */
  lemma ProductSign(d: real, y: real)
    requires 0.0 < d
    ensures y < 0.0 ==> d * y < 0.0
    ensures 0.0 <= y ==> 0.0 <= d * y
    ensures 1.0 <= y ==> d <= d * y
  {
  }

  /** Red at the maximum: the row rebuilt from the red formula's quotient
      Y = (g - b)/d is the colour itself. */
  lemma RedRowIsColour(c: Rgb, d: real, Y: real, k: int, ff: real)
    requires d == Spread(c) && 0.0 < d && c.r == MaxChannel(c)
    requires d * Y == c.g - c.b && -1.0 <= Y <= 1.0
    requires Y < 0.0 ==> k == 5 && ff == Y + 1.0
    requires 0.0 <= Y ==> k == Y.Floor && ff == Y - k as real
    ensures SectorRow(k, MaxChannel(c), d, ff) == c
  {
    var mn := MinChannel(c);
    ProductSign(d, Y);
    if Y < 0.0 {
      assert c.g == mn;
      assert d * ff == d * Y + d;
    } else if Y < 1.0 {
      assert c.b == mn;
      assert k == 0 && ff == Y;
    } else {
      assert c.g == MaxChannel(c) && c.b == mn;
      assert k == 1 && ff == 0.0;
    }
  }

  /** Green at the maximum and red below it: the row rebuilt from the
      green formula's quotient Y = (b - r)/d is the colour itself. */
  lemma GreenRowIsColour(c: Rgb, d: real, Y: real, k: int, ff: real)
    requires d == Spread(c) && 0.0 < d && c.g == MaxChannel(c) && c.r < c.g
    requires d * Y == c.b - c.r && -1.0 <= Y <= 1.0
    requires k == (2.0 + Y).Floor && ff == 2.0 + Y - k as real
    ensures SectorRow(k, MaxChannel(c), d, ff) == c
  {
    var mn := MinChannel(c);
    ProductSign(d, Y);
    if Y < 0.0 {
      assert c.b == mn;
      assert k == 1;
      assert d * ff == d * Y + d;
    } else if Y < 1.0 {
      assert c.r == mn;
      assert k == 2 && ff == Y;
    } else {
      assert c.b == MaxChannel(c) && c.r == mn;
      assert k == 3 && ff == 0.0;
    }
  }

  /** Blue at the maximum and red and green below it: the row rebuilt from
      the blue formula's quotient Y = (r - g)/d is the colour itself. */
  lemma BlueRowIsColour(c: Rgb, d: real, Y: real, k: int, ff: real)
    requires d == Spread(c) && 0.0 < d && c.b == MaxChannel(c) && c.r < c.b && c.g < c.b
    requires d * Y == c.r - c.g && -1.0 <= Y <= 1.0
    requires k == (4.0 + Y).Floor && ff == 4.0 + Y - k as real
    ensures SectorRow(k, MaxChannel(c), d, ff) == c
  {
    var mn := MinChannel(c);
    ProductSign(d, Y);
    if Y < 0.0 {
      assert c.r == mn;
      assert k == 3;
      assert d * ff == d * Y + d;
    } else {
      assert c.g == mn;
      assert k == 4 && ff == Y;
    }
  }

  /** The row that the HSV-to-RGB conversion selects for the hue of
      channel ch's formula, with the colour's largest channel and spread. */
  function RowOfFormula(c: Rgb, ch: Channel): Rgb
    requires Spread(c) > 0.0
  {
    var h := WrapNegative(HueSixths(c, ch, Spread(c)) * 60.0);
    var k := (h / 60.0).Floor;
    SectorRow(k, MaxChannel(c), Spread(c), h / 60.0 - k as real)
  }

  /** Red at the maximum: the row of red's formula is the colour. */
  lemma RedFormulaRow(c: Rgb)
    requires Spread(c) > 0.0 && c.r == MaxChannel(c)
    ensures RowOfFormula(c, Red) == c
  {
    var d := Spread(c);
    var y := (c.g - c.b) / d;
    assert HueSixths(c, Red, d) == y;
    RatioScaled(c.g - c.b, d);
    RatioBounds(c.g - c.b, d);
    SectorOfSixths(y);
    var h := WrapNegative(y * 60.0);
    var k := (h / 60.0).Floor;
    RedRowIsColour(c, d, y, k, h / 60.0 - k as real);
  }

  /** Green at the maximum, red below it: the row of green's formula is the
      colour. */
  lemma GreenFormulaRow(c: Rgb)
    requires Spread(c) > 0.0 && c.g == MaxChannel(c) && c.r < c.g
    ensures RowOfFormula(c, Green) == c
  {
    var d := Spread(c);
    var y := (c.b - c.r) / d;
    assert HueSixths(c, Green, d) == 2.0 + y;
    RatioScaled(c.b - c.r, d);
    RatioBounds(c.b - c.r, d);
    SectorOfSixths(2.0 + y);
    var h := WrapNegative((2.0 + y) * 60.0);
    var k := (h / 60.0).Floor;
    GreenRowIsColour(c, d, y, k, h / 60.0 - k as real);
  }

  /** Blue at the maximum, red and green below it: the row of blue's
      formula is the colour. */
  lemma BlueFormulaRow(c: Rgb)
    requires Spread(c) > 0.0 && c.b == MaxChannel(c) && c.r < c.b && c.g < c.b
    ensures RowOfFormula(c, Blue) == c
  {
    var d := Spread(c);
    var y := (c.r - c.g) / d;
    assert HueSixths(c, Blue, d) == 4.0 + y;
    RatioScaled(c.r - c.g, d);
    RatioBounds(c.r - c.g, d);
    SectorOfSixths(4.0 + y);
    var h := WrapNegative((4.0 + y) * 60.0);
    var k := (h / 60.0).Floor;
    BlueRowIsColour(c, d, y, k, h / 60.0 - k as real);
  }

  /** The row of the dominant channel's formula is the colour itself. */
  lemma DominantRow(c: Rgb)
    requires Spread(c) > 0.0
    ensures RowOfFormula(c, DominantChannel(c)) == c
  {
    match DominantChannel(c)
    case Red => RedFormulaRow(c);
    case Green => GreenFormulaRow(c);
    case Blue => BlueFormulaRow(c);
  }

  /** The HSV triple of a chromatic colour with a positive maximum, as one
      value: the dominant formula's hue, saturation spread/max, value max. */
  lemma ChromaticTriple(c: Rgb)
    requires !NearlyGrey(c) && MaxChannel(c) > 0.0
    ensures var mx, d := MaxChannel(c), Spread(c);
      var h := WrapNegative(HueSixths(c, DominantChannel(c), d) * 60.0);
      && RgbToHsv(c) == Hsv(Degrees(h), d / mx, mx)
      && 0.0 <= h < 360.0
      && 0.0 < d
  {
    ChromaticHsv(c);
    HueSixthsBounds(c, DominantChannel(c));
  }

  /** The sector row of an HSV triple with saturation d/v: its spread is d. */
  lemma RowOfTriple(h: real, v: real, d: real)
    requires 0.0 <= h < 360.0 && 0.0 < v && 0.0 < d
    ensures var k := (h / 60.0).Floor;
      HsvToRgb(Hsv(Degrees(h), d / v, v)) == SectorRow(k, v, d, h / 60.0 - k as real)
  {
    var s := d / v;
    SaturationFacts(d, v, v - d);
    RatioScaled(d, v);
    RowOfSpread(h, s, v, d);
  }

  /** The sector row of an HSV triple whose spread v*s is known to be d. */
  lemma RowOfSpread(h: real, s: real, v: real, d: real)
    requires 0.0 <= h < 360.0 && 0.0 < s && v * s == d
    ensures var k := (h / 60.0).Floor;
      HsvToRgb(Hsv(Degrees(h), s, v)) == SectorRow(k, v, d, h / 60.0 - k as real)
  {
    SectorChannels(Hsv(Degrees(h), s, v));
  }

  /** RGB to HSV and back returns the same colour, for a colour that is not
      grey and whose largest channel is positive. */
  lemma RgbRoundTrip(c: Rgb)
    requires !NearlyGrey(c) && MaxChannel(c) > 0.0
    ensures HsvToRgb(RgbToHsv(c)) == c
  {
    var mx, d := MaxChannel(c), Spread(c);
    var h := WrapNegative(HueSixths(c, DominantChannel(c), d) * 60.0);
    var x := Hsv(Degrees(h), d / mx, mx);
    ChromaticTriple(c);
    assert RgbToHsv(c) == x;
    var k := (h / 60.0).Floor;
    var ff := h / 60.0 - k as real;
    RowOfTriple(h, mx, d);
    assert HsvToRgb(x) == SectorRow(k, mx, d, ff);
    DominantRow(c);
    assert RowOfFormula(c, DominantChannel(c)) == SectorRow(k, mx, d, ff);
  }
}
