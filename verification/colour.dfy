/** The two colour representations of src/lumen.c (the `rgb` and `hsv`
    structs). Doubles are modelled as Dafny `real`s. */
module Colour {

  /** Additive red/green/blue colour; channels are nominally in [0, 1]. */
  datatype Rgb = Rgb(r: real, g: real, b: real)

  /** A hue in degrees, or the "not a number" hue that the conversion
      produces when it cannot define one. */
  datatype Hue = Degrees(deg: real) | Undefined

  /** Hue/saturation/value colour. */
  datatype Hsv = Hsv(h: Hue, s: real, v: real)

  /** Every channel lies in [0, 1]. */
  predicate InUnitCube(c: Rgb) {
    0.0 <= c.r <= 1.0 && 0.0 <= c.g <= 1.0 && 0.0 <= c.b <= 1.0
  }

  /** No channel is negative. */
  predicate NonNegative(c: Rgb) {
    0.0 <= c.r && 0.0 <= c.g && 0.0 <= c.b
  }

  /** The largest channel, chosen by the source's two conditional
      expressions (`r > g ? r : g`, then against `b`). */
  function MaxChannel(c: Rgb): (m: real)
    ensures m == c.r || m == c.g || m == c.b
    ensures c.r <= m && c.g <= m && c.b <= m
  {
    var rg := if c.r > c.g then c.r else c.g;
    if rg > c.b then rg else c.b
  }

  /** The smallest channel, chosen by `r < g ? r : g`, then against `b`. */
  function MinChannel(c: Rgb): (m: real)
    ensures m == c.r || m == c.g || m == c.b
    ensures m <= c.r && m <= c.g && m <= c.b
  {
    var rg := if c.r < c.g then c.r else c.g;
    if rg < c.b then rg else c.b
  }
}
