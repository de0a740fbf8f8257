/** The colour value that `ColorExtensions.ToHsv` returns. */
module HsvColors {

  /** A colour in hue/saturation/value space with an opacity. */
  datatype HsvColor = HsvColor(h: real, s: real, v: real, a: real)
  {
    /** The documented ranges: hue in 0..360 degrees, saturation, value and alpha in 0..1. */
    predicate Valid()
    {
      0.0 <= h <= 360.0 && 0.0 <= s <= 1.0 && 0.0 <= v <= 1.0 && 0.0 <= a <= 1.0
    }
  }
}
