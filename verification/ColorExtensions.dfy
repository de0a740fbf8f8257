/** Colour arithmetic of the picker: HSL and HSV to RGB, RGB to HSV, and the packing of a
    colour into a 32-bit B,G,R,A pixel word. */
module ColorExtensions {
  import opened Numerics
  import opened Outcomes
  import opened HsvColors

  type Byte = b: int | 0 <= b < 256

  /** An 8-bit-per-channel colour with alpha, as built by `Color.FromArgb(a, r, g, b)`. */
  datatype Color = Color(a: Byte, r: Byte, g: Byte, b: Byte)

  predicate InUnit(x: real)
  {
    0.0 <= x <= 1.0
  }

  function MaxChannel(c: Color): Byte
  {
    if c.r >= c.g && c.r >= c.b then c.r else if c.g >= c.b then c.g else c.b
  }

  function MinChannel(c: Color): Byte
  {
    if c.r <= c.g && c.r <= c.b then c.r else if c.g <= c.b then c.g else c.b
  }

  predicate IsGrey(c: Color)
  {
    c.r == c.g == c.b
  }

  /** The C# `(byte)` conversion of a double in [0, 255], which truncates. */
  function ByteOf(x: real): (n: Byte)
    requires 0.0 <= x <= 255.0
    ensures n as real <= x < n as real + 1.0
  {
    x.Floor
  }

  lemma ByteOfMonotone(x: real, y: real)
    requires 0.0 <= x <= y <= 255.0
    ensures ByteOf(x) <= ByteOf(y)
  {
  }

  /** Unit-range channel intensities before scaling to bytes. */
  datatype Rgb = Rgb(r: real, g: real, b: real)

  /** The secondary component `chroma * (1 - |h1 % 2 - 1|)`, for h1 = hue / 60. */
  function Secondary(chroma: real, h1: real): (x: real)
    requires chroma >= 0.0 && h1 >= 0.0
    ensures 0.0 <= x <= chroma
  {
    FRemRange(h1, 2.0);
    var t := 1.0 - Abs(FRem(h1, 2.0) - 1.0);
    MulMonotone(t, 1.0, chroma);
    chroma * t
  }

  /** The six sextants of the hue circle, h1 = hue / 60: which channel carries the chroma,
      which the secondary component and which nothing. h1 = 6 (hue 360) takes the last. */
  function Sextant(h1: real, chroma: real, x: real): Rgb
  {
    if h1 < 1.0 then Rgb(chroma, x, 0.0)
    else if h1 < 2.0 then Rgb(x, chroma, 0.0)
    else if h1 < 3.0 then Rgb(0.0, chroma, x)
    else if h1 < 4.0 then Rgb(0.0, x, chroma)
    else if h1 < 5.0 then Rgb(x, 0.0, chroma)
    else Rgb(chroma, 0.0, x)
  }

  /** The part FromHsl and FromHsv share once they have a chroma and an offset m: the
      hue's sextant, each channel offset by m, scaled by 255 and truncated to a byte. */
  function ComposeColor(hue: real, chroma: real, m: real, alpha: real): (c: Color)
    requires 0.0 <= hue <= 360.0 && 0.0 <= chroma && 0.0 <= m && chroma + m <= 1.0
    requires InUnit(alpha)
    ensures c.a == ByteOf(255.0 * alpha)
    ensures MaxChannel(c) == ByteOf(255.0 * (chroma + m))
    ensures MinChannel(c) == ByteOf(255.0 * m)
  {
    var h1 := hue / 60.0;
    var x := Secondary(chroma, h1);
    var rgb := Sextant(h1, chroma, x);
    ByteOfMonotone(255.0 * m, 255.0 * (x + m));
    ByteOfMonotone(255.0 * (x + m), 255.0 * (chroma + m));
    Color(ByteOf(255.0 * alpha), ByteOf(255.0 * (rgb.r + m)), ByteOf(255.0 * (rgb.g + m)),
          ByteOf(255.0 * (rgb.b + m)))
  }

  /** HSL to RGB. Throws ArgumentException exactly when the hue lies outside [0, 360];
      saturation, lightness and alpha are documented as 0..1. */
  function FromHsl(hue: real, saturation: real, lightness: real, alpha: real): (c: Result<Color>)
    requires InUnit(saturation) && InUnit(lightness) && InUnit(alpha)
    ensures c.Err? <==> hue < 0.0 || hue > 360.0
    ensures c.Err? ==> c.error.ArgumentException?
    ensures c.Ok? ==> c.value.a == ByteOf(255.0 * alpha)
  {
    if hue < 0.0 || hue > 360.0 then
      Err(ArgumentException("Hue should be between 0 and 360!"))
    else
      var span := HslSpan(lightness);
      var chroma := span * saturation;
      var m := lightness - 0.5 * chroma;
      ScaleWithin(saturation, span);
      ChromaFits(lightness, chroma);
      Ok(ComposeColor(hue, chroma, m, alpha))
  }

  /** The largest chroma a lightness leaves room for: 1 - |2 lightness - 1|. */
  function HslSpan(lightness: real): real
  {
    1.0 - Abs(2.0 * lightness - 1.0)
  }

  /** A chroma no larger than 1 - |2 lightness - 1| fits around the lightness. */
  lemma ChromaFits(lightness: real, chroma: real)
    requires InUnit(lightness) && 0.0 <= chroma <= HslSpan(lightness)
    ensures 0.0 <= lightness - 0.5 * chroma && chroma + (lightness - 0.5 * chroma) <= 1.0
  {
  }

  /** HSV to RGB. Throws ArgumentException exactly when the hue lies outside [0, 360]. */
  function FromHsv(hue: real, saturation: real, value: real, alpha: real): (c: Result<Color>)
    requires InUnit(saturation) && InUnit(value) && InUnit(alpha)
    ensures c.Err? <==> hue < 0.0 || hue > 360.0
    ensures c.Err? ==> c.error.ArgumentException?
    ensures c.Ok? ==> c.value.a == ByteOf(255.0 * alpha)
  {
    if hue < 0.0 || hue > 360.0 then
      Err(ArgumentException("Hue should be between 0 and 360!"))
    else
      var chroma := value * saturation;
      var m := value - chroma;
      HsvOffsets(saturation, value);
      Ok(ComposeColor(hue, chroma, m, alpha))
  }

  /** With saturation and value in [0, 1], HSV's chroma lies in [0, value]. */
  lemma HsvOffsets(saturation: real, value: real)
    requires InUnit(saturation) && InUnit(value)
    ensures 0.0 <= value * saturation <= value
  {
    ScaleWithin(saturation, value);
  }

  /** Zero saturation gives zero chroma, hence a grey, whatever the hue. */
  lemma UnsaturatedIsGrey(hue: real, lightnessOrValue: real, alpha: real)
    requires 0.0 <= hue <= 360.0 && InUnit(lightnessOrValue) && InUnit(alpha)
    ensures FromHsl(hue, 0.0, lightnessOrValue, alpha).Ok?
    ensures IsGrey(FromHsl(hue, 0.0, lightnessOrValue, alpha).value)
    ensures FromHsv(hue, 0.0, lightnessOrValue, alpha).Ok?
    ensures IsGrey(FromHsv(hue, 0.0, lightnessOrValue, alpha).value)
  {
    var l := lightnessOrValue;
    assert HslSpan(l) * 0.0 == 0.0;
    assert l * 0.0 == 0.0;
    assert Secondary(0.0, hue / 60.0) == 0.0;
  }

  /** Hue 360 falls in the last sextant with a zero secondary component and gives the
      same colour as hue 0. */
  lemma FullTurnIsRed(saturation: real, lightnessOrValue: real, alpha: real)
    requires InUnit(saturation) && InUnit(lightnessOrValue) && InUnit(alpha)
    ensures FromHsl(360.0, saturation, lightnessOrValue, alpha) == FromHsl(0.0, saturation, lightnessOrValue, alpha)
    ensures FromHsv(360.0, saturation, lightnessOrValue, alpha) == FromHsv(0.0, saturation, lightnessOrValue, alpha)
  {
    FRemRange(6.0, 2.0);
    assert Trunc(6.0 / 2.0) == 3;
    assert FRem(6.0, 2.0) == 0.0;
    assert FRem(0.0, 2.0) == 0.0;
    forall chroma: real | chroma >= 0.0
      ensures Secondary(chroma, 6.0) == 0.0 && Secondary(chroma, 0.0) == 0.0
    {
    }
  }

  /** HSV's largest channel is the value and its smallest the value less the chroma, each
      scaled to a byte; so every channel lies between the two. */
  lemma HsvExtremes(hue: real, saturation: real, value: real, alpha: real)
    requires 0.0 <= hue <= 360.0
    requires InUnit(saturation) && InUnit(value) && InUnit(alpha)
    ensures FromHsv(hue, saturation, value, alpha).Ok?
    ensures MaxChannel(FromHsv(hue, saturation, value, alpha).value) == ByteOf(255.0 * value)
    ensures MinChannel(FromHsv(hue, saturation, value, alpha).value)
            == ByteOf(255.0 * (value - value * saturation))
  {
    var chroma := value * saturation;
    assert chroma + (value - chroma) == value;
  }

  /** Lightness 1 is white and lightness 0 is black, whatever the hue and saturation. */
  lemma LightnessExtremes(hue: real, saturation: real)
    requires 0.0 <= hue <= 360.0 && InUnit(saturation)
    ensures FromHsl(hue, saturation, 1.0, 1.0) == Ok(Color(255, 255, 255, 255))
    ensures FromHsl(hue, saturation, 0.0, 1.0) == Ok(Color(255, 0, 0, 0))
  {
    assert HslSpan(1.0) * saturation == 0.0;
    assert HslSpan(0.0) * saturation == 0.0;
    assert Secondary(0.0, hue / 60.0) == 0.0;
  }

  /** Full saturation at lightness 0.5 is a pure hue: one channel at 255, one at 0. */
  lemma PureHue(hue: real)
    requires 0.0 <= hue <= 360.0
    ensures FromHsl(hue, 1.0, 0.5, 1.0).Ok?
    ensures MaxChannel(FromHsl(hue, 1.0, 0.5, 1.0).value) == 255
    ensures MinChannel(FromHsl(hue, 1.0, 0.5, 1.0).value) == 0
    ensures FromHsl(hue, 1.0, 0.5, 1.0).value.a == 255
  {
    assert HslSpan(0.5) * 1.0 == 1.0;
  }

  /** Hue 0 at full saturation and half lightness is pure, opaque red. */
  lemma PureRed()
    ensures FromHsl(0.0, 1.0, 0.5, 1.0) == Ok(Color(255, 255, 0, 0))
  {
  }

  /** The colour as a 32-bit pixel word, B in bits 0-7, G in 8-15, R in 16-23 and A in
      24-31, read as C#'s signed int: an alpha of 128 or more makes it negative. */
  function GetBgra8888Value(c: Color): (w: int)
    ensures -0x8000_0000 <= w < 0x8000_0000
    ensures Unsigned(w) == PixelWord(c.b, c.g, c.r, c.a)
  {
    var u := PixelWord(c.b, c.g, c.r, c.a);
    if u < 0x8000_0000 then u else u - 0x1_0000_0000
  }

  /** The unsigned value of four bytes packed from the low byte up. */
  function PixelWord(low: Byte, second: Byte, third: Byte, high: Byte): int
  {
    low + 0x100 * second + 0x1_0000 * third + 0x100_0000 * high
  }

  /** The bits of a 32-bit int read as an unsigned number. */
  function Unsigned(w: int): int
  {
    w % 0x1_0000_0000
  }

  /** Shifting and masking the pixel word recovers each channel. */
  lemma Bgra8888Channels(c: Color)
    ensures Unsigned(GetBgra8888Value(c)) % 0x100 == c.b
    ensures Unsigned(GetBgra8888Value(c)) / 0x100 % 0x100 == c.g
    ensures Unsigned(GetBgra8888Value(c)) / 0x1_0000 % 0x100 == c.r
    ensures Unsigned(GetBgra8888Value(c)) / 0x100_0000 == c.a
  {
    var u := PixelWord(c.b, c.g, c.r, c.a);
    assert u / 0x100 == c.g + 0x100 * c.r + 0x1_0000 * c.a;
    assert u / 0x1_0000 == c.r + 0x100 * c.a;
  }

  /** Different colours give different pixel words. */
  lemma Bgra8888Injective(c: Color, d: Color)
    requires GetBgra8888Value(c) == GetBgra8888Value(d)
    ensures c == d
  {
    Bgra8888Channels(c);
    Bgra8888Channels(d);
  }

  function MaxReal(x: real, y: real): real
  {
    if x >= y then x else y
  }

  function MinReal(x: real, y: real): real
  {
    if x <= y then x else y
  }

  /** RGB to HSV with the max/min/chroma decomposition. Each channel is scaled to [0, 1] by
      the factor 1/255 (written as a division by 255, the same real number).
      The "lightness" it derives the saturation from is half the chroma rather than half of max + min. */
  function ToHsv(rgba: Color): (hsv: HsvColor)
  {
    var r := rgba.r as real / 255.0;
    var g := rgba.g as real / 255.0;
    var b := rgba.b as real / 255.0;
    var max := MaxReal(MaxReal(r, g), b);
    var min := MinReal(MinReal(r, g), b);
    var chroma := max - min;
    var h1 :=
      if chroma == 0.0 then 0.0
      else if max == r then (g - b) / chroma
      else if max == g then 2.0 + (b - r) / chroma
      else 4.0 + (r - g) / chroma;
    var h := 60.0 * h1;
    HsvColor(if h < 0.0 then h + 360.0 else h, HsvSaturation(max, min), max, rgba.a as real / 255.0)
  }

  /** ToHsv's saturation: the chroma over 1 - |2 lightness - 1|, with the lightness taken
      as half of max - min; 0 for a grey. */
  function HsvSaturation(max: real, min: real): real
    requires 0.0 <= max - min <= 1.0
  {
    var chroma := max - min;
    var lightness := 0.5 * (max - min);
    if chroma == 0.0 then 0.0 else chroma / (1.0 - Abs(2.0 * lightness - 1.0))
  }

  lemma RatioWithin(p: real, q: real)
    requires q > 0.0 && -q <= p <= q
    ensures -1.0 <= p / q <= 1.0
  {
    var t := p / q;
    assert t * q == p;
    assert (t - 1.0) * q == p - q <= 0.0;
    assert (t + 1.0) * q == p + q >= 0.0;
  }

  /** Every ToHsv result has its hue in [0, 360) and the other components in [0, 1]; value
      is the largest channel over 255 and alpha the alpha byte over 255. */
  lemma ToHsvRanges(rgba: Color)
    ensures ToHsv(rgba).Valid() && ToHsv(rgba).h < 360.0
    ensures ToHsv(rgba).v == MaxChannel(rgba) as real / 255.0
    ensures ToHsv(rgba).a == rgba.a as real / 255.0
  {
    var r := rgba.r as real / 255.0;
    var g := rgba.g as real / 255.0;
    var b := rgba.b as real / 255.0;
    var max := MaxReal(MaxReal(r, g), b);
    var min := MinReal(MinReal(r, g), b);
    var chroma := max - min;
    if chroma != 0.0 {
      if max == r {
        RatioWithin(g - b, chroma);
      } else if max == g {
        RatioWithin(b - r, chroma);
      } else {
        RatioWithin(r - g, chroma);
      }
      ToHsvSaturationIsOne(rgba);
    }
  }

  /** A grey input has no chroma: hue 0 and saturation 0. */
  lemma ToHsvGrey(rgba: Color)
    requires IsGrey(rgba)
    ensures ToHsv(rgba).h == 0.0 && ToHsv(rgba).s == 0.0
  {
  }

  /** Because the lightness is taken as half the chroma, the saturation of every colour
      that is not grey comes out as exactly 1. */
  lemma ToHsvSaturationIsOne(rgba: Color)
    requires !IsGrey(rgba)
    ensures ToHsv(rgba).s == 1.0
  {
    var r := rgba.r as real / 255.0;
    var g := rgba.g as real / 255.0;
    var b := rgba.b as real / 255.0;
    var max := MaxReal(MaxReal(r, g), b);
    var min := MinReal(MinReal(r, g), b);
    assert 0.0 < max - min <= 1.0;
    assert 1.0 - Abs(2.0 * (0.5 * (max - min)) - 1.0) == max - min;
    assert HsvSaturation(max, min) == 1.0;
  }

  /** Magenta (255, 0, 255) has hue 300, saturation 1 and value 1. */
  lemma ToHsvMagenta()
    ensures ToHsv(Color(255, 255, 0, 255)) == HsvColor(300.0, 1.0, 1.0, 1.0)
  {
  }
}
