/** Rasterisers that fill a writable bitmap's locked framebuffer with the colour picker's
    images: the hue/lightness rectangle and the hue ring. The framebuffer is a row-major
    array of 32-bit int cells; the cell of pixel (x, y) is `pw * y + x`. */
module ColorPickerBitmaps {
  import opened Numerics
  import opened Outcomes
  import opened ColorExtensions

  datatype PixelFormat = Rgb565 | Rgba8888 | Bgra8888

  /** A WritableBitmap together with its locked framebuffer. */
  class WritableBitmap {
    const pixelWidth: nat
    const pixelHeight: nat
    const format: PixelFormat
    const pixels: array<int>

    ghost predicate Valid()
    {
      pixels.Length == pixelWidth * pixelHeight
    }

    /** A fresh bitmap; its cells start at 0 in this model. */
    constructor (width: nat, height: nat, format: PixelFormat)
      ensures Valid() && fresh(pixels)
      ensures pixelWidth == width && pixelHeight == height && this.format == format
      ensures forall i :: 0 <= i < pixels.Length ==> pixels[i] == 0
    {
      pixelWidth := width;
      pixelHeight := height;
      this.format := format;
      pixels := new int[width * height](_ => 0);
    }
  }

  /** The cell of pixel (x, y) lies in the buffer. */
  lemma CellInBuffer(pw: int, ph: int, x: int, y: int)
    requires 0 <= x < pw && 0 <= y < ph
    ensures 0 <= pw * y + x < pw * ph
  {
    assert pw * y + x < pw * y + pw == pw * (y + 1);
    MulLeq(pw, y + 1, ph);
  }

  /** The cell of pixel (x, y) lies in the buffer, and dividing it by the width recovers
      the row and the column. */
  lemma {:induction false} CellIndex(pw: int, ph: int, x: int, y: int)
    requires 0 <= x < pw && 0 <= y < ph
    ensures 0 <= pw * y + x < pw * ph
    ensures (pw * y + x) / pw == y && (pw * y + x) % pw == x
  {
    CellInBuffer(pw, ph, x, y);
    var i := pw * y + x;
    var q, r := i / pw, i % pw;
    assert i == pw * q + r && 0 <= r < pw;
    if q < y {
      MulLeq(pw, q + 1, y);
      assert false;
    } else if q > y {
      MulLeq(pw, y + 1, q);
      assert false;
    }
  }

  lemma MulLeq(a: int, b: int, c: int)
    requires a >= 0 && b <= c
    ensures a * b <= a * c
  {
  }

  /** A cell index below pw * ph lies in one of the ph rows. */
  lemma DivBelow(i: int, pw: int, ph: int)
    requires pw > 0 && 0 <= i < pw * ph
    ensures 0 <= i / pw < ph
  {
    if i / pw >= ph {
      MulLeq(pw, ph, i / pw);
    }
  }

  /** The row-major buffer holding the given rows one after another. */
  function Flatten(rows: seq<seq<int>>): seq<int>
  {
    if |rows| == 0 then [] else rows[0] + Flatten(rows[1..])
  }

  predicate RowsOfWidth(rows: seq<seq<int>>, w: nat)
  {
    forall r :: 0 <= r < |rows| ==> |rows[r]| == w
  }

  lemma {:induction false} FlattenLength(rows: seq<seq<int>>, w: nat)
    requires RowsOfWidth(rows, w)
    ensures |Flatten(rows)| == w * |rows|
  {
    if |rows| > 0 {
      FlattenLength(rows[1..], w);
    }
  }

  /** Cell w * y + x of the flattened buffer is column x of row y. */
  lemma {:induction false} FlattenCell(rows: seq<seq<int>>, w: nat, x: int, y: int)
    requires RowsOfWidth(rows, w) && 0 <= x < w && 0 <= y < |rows|
    ensures w * y + x < |Flatten(rows)| && Flatten(rows)[w * y + x] == rows[y][x]
  {
    FlattenLength(rows, w);
    CellIndex(w, |rows|, x, y);
    if y > 0 {
      FlattenCell(rows[1..], w, x, y - 1);
      assert w * y + x == w + (w * (y - 1) + x);
    }
  }

  // ---------------------------------------------------------------------------------------
  // Hue/lightness rectangle

  /** The hue/lightness core divides by pw - 1 and ph - 1: it needs both dimensions at
      least 2, unless the buffer is empty and nothing is drawn. */
  predicate HueLightnessDims(pw: nat, ph: nat)
  {
    pw == 0 || ph == 0 || (pw >= 2 && ph >= 2)
  }

  /** The hue of column x: 360 x / (pw - 1). */
  function ColumnHue(pw: int, x: int): (hue: real)
    requires pw >= 2 && 0 <= x < pw
    ensures 0.0 <= hue <= 360.0
    ensures x == 0 ==> hue == 0.0
    ensures x == pw - 1 ==> hue == 360.0
  {
    var q := (pw - 1) as real;
    assert 360.0 * x as real <= 360.0 * q;
    DivBounded(360.0 * x as real, q, 360.0);
    DivExact(360.0 * x as real, q, 360.0);
    360.0 * x as real / q
  }

  /** The lightness of row y: (ph - 1 - y) / (ph - 1), from 1 at the top to 0 at the bottom. */
  function RowLightness(ph: int, y: int): (lightness: real)
    requires ph >= 2 && 0 <= y < ph
    ensures InUnit(lightness)
    ensures y == 0 ==> lightness == 1.0
    ensures y == ph - 1 ==> lightness == 0.0
  {
    var q := (ph - 1) as real;
    DivBounded(1.0 * (ph - 1 - y) as real, q, 1.0);
    DivExact(1.0 * (ph - 1 - y) as real, q, 1.0);
    1.0 * (ph - 1 - y) as real / q
  }

  /** A dividend that is exactly k divisors gives the quotient k. */
  lemma DivExact(p: real, q: real, k: real)
    requires q > 0.0
    ensures p == q * k ==> p / q == k
  {
    var t := p / q;
    assert q * t == p;
    assert q * (t - k) == p - q * k;
  }

  lemma DivBounded(p: real, q: real, k: real)
    requires q > 0.0 && 0.0 <= p <= k * q
    ensures 0.0 <= p / q <= k
  {
    var t := p / q;
    assert t * q == p;
    assert (k - t) * q == k * q - p >= 0.0;
  }

  /** The pixel word of (x, y) in the hue/lightness rectangle. */
  function HueLightnessPixel(pw: int, ph: int, saturation: real, x: int, y: int): int
    requires pw >= 2 && ph >= 2 && 0 <= x < pw && 0 <= y < ph && InUnit(saturation)
  {
    var c := FromHsl(ColumnHue(pw, x), saturation, RowLightness(ph, y), 1.0);
    GetBgra8888Value(c.value)
  }

  /** Row y of the rectangle. */
  function HueLightnessRow(pw: nat, ph: nat, saturation: real, y: int): (row: seq<int>)
    requires pw >= 2 && ph >= 2 && 0 <= y < ph && InUnit(saturation)
    ensures |row| == pw
  {
    seq(pw, x requires 0 <= x < pw => HueLightnessPixel(pw, ph, saturation, x, y))
  }

  /** The whole rectangle, row after row. */
  function HueLightnessImage(pw: nat, ph: nat, saturation: real): (image: seq<int>)
    requires HueLightnessDims(pw, ph) && InUnit(saturation)
    ensures |image| == pw * ph
  {
    if pw == 0 || ph == 0 then
      assert pw * ph == 0;
      []
    else
      var rows := seq(ph, y requires 0 <= y < ph => HueLightnessRow(pw, ph, saturation, y));
      FlattenLength(rows, pw);
      Flatten(rows)
  }

  /** `image` is a pw x ph buffer whose cell pw * y + x holds the rectangle's pixel (x, y). */
  ghost predicate IsHueLightnessImage(pw: nat, ph: nat, saturation: real, image: seq<int>)
    requires InUnit(saturation)
  {
    |image| == pw * ph &&
    forall x, y :: pw >= 2 && ph >= 2 && 0 <= x < pw && 0 <= y < ph && pw * y + x < |image| ==>
      image[pw * y + x] == HueLightnessPixel(pw, ph, saturation, x, y)
  }

  /** Cell pw * y + x of the rectangle has the colour of hue 360 x / (pw - 1) at lightness
      (ph - 1 - y) / (ph - 1). */
  lemma HueLightnessCells(pw: nat, ph: nat, saturation: real, x: int, y: int)
    requires pw >= 2 && ph >= 2 && InUnit(saturation) && 0 <= x < pw && 0 <= y < ph
    ensures pw * y + x < |HueLightnessImage(pw, ph, saturation)|
    ensures HueLightnessImage(pw, ph, saturation)[pw * y + x] == HueLightnessPixel(pw, ph, saturation, x, y)
  {
    var rows := seq(ph, y requires 0 <= y < ph => HueLightnessRow(pw, ph, saturation, y));
    FlattenCell(rows, pw, x, y);
  }

  /** The rectangle function meets the cell-by-cell description. */
  lemma HueLightnessImageIs(pw: nat, ph: nat, saturation: real)
    requires HueLightnessDims(pw, ph) && InUnit(saturation)
    ensures IsHueLightnessImage(pw, ph, saturation, HueLightnessImage(pw, ph, saturation))
  {
    forall x, y | pw >= 2 && ph >= 2 && 0 <= x < pw && 0 <= y < ph && pw * y + x < pw * ph
      ensures HueLightnessImage(pw, ph, saturation)[pw * y + x]
              == HueLightnessPixel(pw, ph, saturation, x, y)
    {
      HueLightnessCells(pw, ph, saturation, x, y);
    }
  }

  /** The cell-by-cell description fixes every cell: two buffers that meet it are equal. */
  lemma HueLightnessImageUnique(pw: nat, ph: nat, saturation: real, a: seq<int>, b: seq<int>)
    requires HueLightnessDims(pw, ph) && InUnit(saturation)
    requires IsHueLightnessImage(pw, ph, saturation, a) && IsHueLightnessImage(pw, ph, saturation, b)
    ensures a == b
  {
    forall i | 0 <= i < |a|
      ensures a[i] == b[i]
    {
      DivBelow(i, pw, ph);
      var x, y := i % pw, i / pw;
      assert pw * y + x == i;
      assert a[i] == HueLightnessPixel(pw, ph, saturation, x, y);
    }
  }

  /** The top row is white and the bottom row black, whatever the hue and saturation. */
  lemma HueLightnessEdges(pw: nat, ph: nat, saturation: real, x: int)
    requires pw >= 2 && ph >= 2 && InUnit(saturation) && 0 <= x < pw
    ensures x < |HueLightnessImage(pw, ph, saturation)|
    ensures HueLightnessImage(pw, ph, saturation)[x] == GetBgra8888Value(Color(255, 255, 255, 255))
    ensures HueLightnessImage(pw, ph, saturation)[pw * (ph - 1) + x]
            == GetBgra8888Value(Color(255, 0, 0, 0))
  {
    HueLightnessCells(pw, ph, saturation, x, 0);
    HueLightnessCells(pw, ph, saturation, x, ph - 1);
    LightnessExtremes(ColumnHue(pw, x), saturation);
  }

  /** The rectangle is written into an Rgba8888 buffer with the B,G,R,A packing: the byte
      the format reads as red holds the colour's blue, and the other way round. In a
      two-column buffer of odd height, the left pixel of the middle row is pure red (hue 0,
      saturation 1, lightness 1/2), yet the buffer's red byte there is 0 and its blue byte 255. */
  lemma HueLightnessSwapsRedAndBlue(ph: nat)
    requires ph >= 3 && ph % 2 == 1
    ensures 2 * (ph / 2) < |HueLightnessImage(2, ph, 1.0)|
    ensures var word := HueLightnessImage(2, ph, 1.0)[2 * (ph / 2)];
            Unsigned(word) % 0x100 == 0 && Unsigned(word) / 0x1_0000 % 0x100 == 255
  {
    var y := ph / 2;
    HueLightnessCells(2, ph, 1.0, 0, y);
    DivExact(1.0 * (ph - 1 - y) as real, (ph - 1) as real, 0.5);
    assert RowLightness(ph, y) == 0.5;
    PureRed();
    Bgra8888Channels(Color(255, 255, 0, 0));
  }

  /** Fills the buffer row by row. `image` is the picture it paints, described cell by cell. */
  method RenderColorPickerHueLightnessCore(saturation: real, pw: nat, ph: nat, pixels: array<int>,
                                           ghost image: seq<int>)
    requires pixels.Length == pw * ph && HueLightnessDims(pw, ph) && InUnit(saturation)
    requires IsHueLightnessImage(pw, ph, saturation, image)
    modifies pixels
    ensures pixels[..] == image
  {
    var y := 0;
    while y < ph
      invariant 0 <= y <= ph && pw * y <= pixels.Length
      invariant forall i :: 0 <= i < pw * y ==> pixels[i] == image[i]
    {
      ghost var rowStart := pw * y;
      MulLeq(pw, y + 1, ph);
      // A zero-width buffer has no cell to paint; the lightness is only needed otherwise.
      if pw > 0 {
        var lightness := RowLightness(ph, y);
        var x := 0;
        while x < pw
          invariant 0 <= x <= pw && rowStart + x <= pixels.Length
          invariant forall i :: 0 <= i < rowStart + x ==> pixels[i] == image[i]
        {
          CellInBuffer(pw, ph, x, y);
          var hue := ColumnHue(pw, x);
          var c := FromHsl(hue, saturation, lightness, 1.0);
          pixels[pw * y + x] := GetBgra8888Value(c.value);
          assert pixels[rowStart + x] == HueLightnessPixel(pw, ph, saturation, x, y);
          x := x + 1;
        }
      }
      assert rowStart + pw == pw * (y + 1);
      y := y + 1;
    }
    assert pixels[..] == image;
  }

  /** The blocking entry point: Rgba8888 only, checked before any cell is written. */
  method RenderColorPickerHueLightness(target: WritableBitmap, saturation: real) returns (r: Outcome)
    requires target.Valid() && InUnit(saturation)
    requires HueLightnessDims(target.pixelWidth, target.pixelHeight)
    modifies target.pixels
    ensures r.Fail? <==> target.format != Rgba8888
    ensures r.Fail? ==> r.error.InvalidOperationException? && unchanged(target.pixels)
    ensures r.Pass? ==>
      target.pixels[..] == HueLightnessImage(target.pixelWidth, target.pixelHeight, saturation)
  {
    if target.format != Rgba8888 {
      return Fail(InvalidOperationException("Only Rgba8888 supported!"));
    }
    HueLightnessImageIs(target.pixelWidth, target.pixelHeight, saturation);
    RenderColorPickerHueLightnessCore(saturation, target.pixelWidth, target.pixelHeight, target.pixels,
                                      HueLightnessImage(target.pixelWidth, target.pixelHeight, saturation));
    r := Pass;
  }

  /** The asynchronous entry point: the same check, the same core on a worker. */
  method RenderColorPickerHueLightnessAsync(target: WritableBitmap, saturation: real) returns (r: Outcome)
    requires target.Valid() && InUnit(saturation)
    requires HueLightnessDims(target.pixelWidth, target.pixelHeight)
    modifies target.pixels
    ensures r.Fail? <==> target.format != Rgba8888
    ensures r.Fail? ==> r.error.InvalidOperationException? && unchanged(target.pixels)
    ensures r.Pass? ==>
      target.pixels[..] == HueLightnessImage(target.pixelWidth, target.pixelHeight, saturation)
  {
    if target.format != Rgba8888 {
      return Fail(InvalidOperationException("Only Rgba8888 supported!"));
    }
    HueLightnessImageIs(target.pixelWidth, target.pixelHeight, saturation);
    RenderColorPickerHueLightnessCore(saturation, target.pixelWidth, target.pixelHeight, target.pixels,
                                      HueLightnessImage(target.pixelWidth, target.pixelHeight, saturation));
    r := Pass;
  }

  // ---------------------------------------------------------------------------------------
  // Hue ring

  /** An outer radius argument of 0 stands for half the smaller dimension. */
  function OuterRingRadius(pw: nat, ph: nat, outerRingRadius: int): int
  {
    if outerRingRadius == 0 then MinInt(pw, ph) / 2 else outerRingRadius
  }

  /** An inner radius argument of 0 stands for two thirds of the outer radius, in C#'s
      truncating integer division. */
  function InnerRingRadius(innerRingRadius: int, outer: int): int
  {
    if innerRingRadius == 0 then TruncDiv(Wrap32(outer * 2), 3) else innerRingRadius
  }

  /** The hue of the ring at offset (dx, dy) from the centre: atan2 in degrees turned by 90
      so that 0 is up, brought into [0, 360) by C#'s floating remainder. */
  function RingHue(atan2: (real, real) -> real, dx: int, dy: int): (hue: real)
    requires IsAtan2Degrees(atan2)
    ensures 0.0 <= hue < 360.0
  {
    FRemRange(atan2(dy as real, dx as real) + 90.0 + 360.0, 360.0);
    FRem(atan2(dy as real, dx as real) + 90.0 + 360.0, 360.0)
  }

  /** The ring's pixel word at offset (dx, dy): the fully saturated colour of its hue. */
  function RingColor(atan2: (real, real) -> real, dx: int, dy: int): int
    requires IsAtan2Degrees(atan2)
  {
    GetBgra8888Value(FromHsl(RingHue(atan2, dx, dy), 1.0, 0.5, 1.0).value)
  }

  /** The squared distance of pixel (x, y) from the integer centre (pw / 2, ph / 2), each
      product and the sum wrapping as C#'s `int` arithmetic does. */
  function SquaredDistance(pw: int, ph: int, x: int, y: int): int
  {
    Wrap32(Wrap32((x - pw / 2) * (x - pw / 2)) + Wrap32((y - ph / 2) * (y - ph / 2)))
  }

  /** Whether pixel (x, y) passes the annulus test: inner² <= squared distance <= outer²,
      with the squares of the radii wrapped to 32 bits as well. */
  predicate InRing(pw: int, ph: int, inner: int, outer: int, x: int, y: int)
  {
    Wrap32(inner * inner) <= SquaredDistance(pw, ph, x, y) <= Wrap32(outer * outer)
  }

  /** No wrap-around happens while the radii are at most 46340 (the largest square below
      2^31) and the bitmap is at most 65535 pixels wide and high: the test is then the exact
      annulus. */
  lemma RingTestIsExact(pw: nat, ph: nat, inner: int, outer: int, x: int, y: int)
    requires pw <= 65535 && ph <= 65535 && 0 <= x < pw && 0 <= y < ph
    requires -46340 <= inner <= 46340 && -46340 <= outer <= 46340
    ensures var dx, dy := x - pw / 2, y - ph / 2;
            InRing(pw, ph, inner, outer, x, y)
            <==> inner * inner <= dx * dx + dy * dy <= outer * outer
  {
    var dx, dy := x - pw / 2, y - ph / 2;
    assert -32767 <= dx <= 32767 && -32767 <= dy <= 32767;
    MulBelow(dx, 32767);
    MulBelow(dy, 32767);
    MulBelow(inner, 46340);
    MulBelow(outer, 46340);
  }

  /** |a| <= k gives 0 <= a² <= k². */
  lemma MulBelow(a: int, k: int)
    requires 0 <= k && -k <= a <= k
    ensures 0 <= a * a <= k * k
  {
    if a >= 0 {
      MulLeq(a, a, k);
      MulLeq(k, a, k);
    } else {
      MulLeq(-a, -a, k);
      MulLeq(k, -a, k);
    }
  }

  /** Beyond that bound the squares wrap: on a 4 x 4 bitmap with outer radius 2, an inner
      radius of 50000 squares to a negative number, so the centre pixel is painted although
      it lies far inside the inner circle. */
  lemma LargeInnerRadiusWraps()
    ensures InRing(4, 4, 50000, 2, 2, 2)
    ensures !(50000 * 50000 <= 0)
  {
    assert Wrap32(50000 * 50000) == 2500000000 - 0x1_0000_0000;
  }

  /** The new content of pixel (x, y) of a buffer that held `before`: the ring colour inside
      the annulus, its previous word outside. */
  function RingPixel(pw: nat, ph: nat, inner: int, outer: int, atan2: (real, real) -> real,
                     before: seq<int>, x: int, y: int): int
    requires IsAtan2Degrees(atan2) && |before| == pw * ph && 0 <= x < pw && 0 <= y < ph
  {
    CellInBuffer(pw, ph, x, y);
    if InRing(pw, ph, inner, outer, x, y) then RingColor(atan2, x - pw / 2, y - ph / 2)
    else before[pw * y + x]
  }

  /** Row y of the buffer after drawing the ring with resolved radii over `before`. */
  function HueRingRow(pw: nat, ph: nat, inner: int, outer: int, atan2: (real, real) -> real,
                      before: seq<int>, y: int): (row: seq<int>)
    requires IsAtan2Degrees(atan2) && |before| == pw * ph && 0 <= y < ph
    ensures |row| == pw
  {
    seq(pw, x requires 0 <= x < pw => RingPixel(pw, ph, inner, outer, atan2, before, x, y))
  }

  /** The buffer after drawing the ring with resolved radii over the buffer `before`. */
  function HueRingImage(pw: nat, ph: nat, inner: int, outer: int, atan2: (real, real) -> real,
                        before: seq<int>): (image: seq<int>)
    requires IsAtan2Degrees(atan2) && |before| == pw * ph
    ensures |image| == |before|
  {
    var rows := seq(ph, y requires 0 <= y < ph => HueRingRow(pw, ph, inner, outer, atan2, before, y));
    FlattenLength(rows, pw);
    Flatten(rows)
  }

  /** `image` is `before` with every cell of the annulus repainted, described cell by cell. */
  ghost predicate IsHueRingImage(pw: nat, ph: nat, inner: int, outer: int, atan2: (real, real) -> real,
                                 before: seq<int>, image: seq<int>)
    requires IsAtan2Degrees(atan2)
  {
    |before| == pw * ph && |image| == pw * ph &&
    forall x, y :: 0 <= x < pw && 0 <= y < ph && pw * y + x < |image| ==>
      image[pw * y + x] == RingPixel(pw, ph, inner, outer, atan2, before, x, y)
  }

  /** Cell pw * y + x of the drawn buffer holds the new content of pixel (x, y). */
  lemma HueRingCells(pw: nat, ph: nat, inner: int, outer: int, atan2: (real, real) -> real,
                     before: seq<int>, x: int, y: int)
    requires IsAtan2Degrees(atan2) && |before| == pw * ph && 0 <= x < pw && 0 <= y < ph
    ensures pw * y + x < |before|
    ensures HueRingImage(pw, ph, inner, outer, atan2, before)[pw * y + x]
            == RingPixel(pw, ph, inner, outer, atan2, before, x, y)
  {
    CellInBuffer(pw, ph, x, y);
    var rows := seq(ph, y requires 0 <= y < ph => HueRingRow(pw, ph, inner, outer, atan2, before, y));
    FlattenCell(rows, pw, x, y);
  }

  /** Drawing the ring repaints exactly the annulus: a cell whose pixel lies in it gets the
      ring colour of the pixel's offset from the centre, and every other cell keeps the word
      it held. */
  lemma HueRingOverwritesAnnulus(pw: nat, ph: nat, inner: int, outer: int, atan2: (real, real) -> real,
                                 before: seq<int>, x: int, y: int)
    requires IsAtan2Degrees(atan2) && |before| == pw * ph && 0 <= x < pw && 0 <= y < ph
    ensures pw * y + x < |before|
    ensures InRing(pw, ph, inner, outer, x, y) ==>
              HueRingImage(pw, ph, inner, outer, atan2, before)[pw * y + x]
              == RingColor(atan2, x - pw / 2, y - ph / 2)
    ensures !InRing(pw, ph, inner, outer, x, y) ==>
              HueRingImage(pw, ph, inner, outer, atan2, before)[pw * y + x] == before[pw * y + x]
  {
    HueRingCells(pw, ph, inner, outer, atan2, before, x, y);
  }

  /** The ring function meets the cell-by-cell description. */
  lemma HueRingImageIs(pw: nat, ph: nat, inner: int, outer: int, atan2: (real, real) -> real,
                       before: seq<int>)
    requires IsAtan2Degrees(atan2) && |before| == pw * ph
    ensures IsHueRingImage(pw, ph, inner, outer, atan2, before, HueRingImage(pw, ph, inner, outer, atan2, before))
  {
    forall x, y | 0 <= x < pw && 0 <= y < ph && pw * y + x < |before|
      ensures HueRingImage(pw, ph, inner, outer, atan2, before)[pw * y + x]
              == RingPixel(pw, ph, inner, outer, atan2, before, x, y)
    {
      var rows := seq(ph, y requires 0 <= y < ph => HueRingRow(pw, ph, inner, outer, atan2, before, y));
      FlattenCell(rows, pw, x, y);
      assert rows[y][x] == RingPixel(pw, ph, inner, outer, atan2, before, x, y);
    }
  }

  /** Every ring colour is a pure hue: opaque, one channel 255 and one 0, never rejected by
      FromHsl because the hue lies in [0, 360). */
  lemma RingColorsArePureHues(atan2: (real, real) -> real, dx: int, dy: int)
    requires IsAtan2Degrees(atan2)
    ensures var c := FromHsl(RingHue(atan2, dx, dy), 1.0, 0.5, 1.0);
            c.Ok? && RingColor(atan2, dx, dy) == GetBgra8888Value(c.value)
            && MaxChannel(c.value) == 255 && MinChannel(c.value) == 0
            && Unsigned(RingColor(atan2, dx, dy)) / 0x100_0000 == 0xFF
  {
    var c := FromHsl(RingHue(atan2, dx, dy), 1.0, 0.5, 1.0);
    PureHue(RingHue(atan2, dx, dy));
    Bgra8888Channels(c.value);
  }

  /** Paints the annulus about the buffer's centre, row by row, and leaves every other cell
      alone. A radius argument of 0 selects the default. `image` is the picture it paints,
      described cell by cell. */
  method RenderColorPickerHueRingCore(innerRingRadius: int, outerRingRadius: int, pw: nat, ph: nat,
                                      pixels: array<int>, atan2: (real, real) -> real,
                                      ghost image: seq<int>)
    requires pixels.Length == pw * ph && IsAtan2Degrees(atan2)
    requires var outer := OuterRingRadius(pw, ph, outerRingRadius);
             IsHueRingImage(pw, ph, InnerRingRadius(innerRingRadius, outer), outer, atan2, pixels[..], image)
    modifies pixels
    ensures pixels[..] == image
  {
    var pch := pw / 2;
    var pcv := ph / 2;
    var outer := outerRingRadius;
    var inner := innerRingRadius;
    if outer == 0 {
      outer := MinInt(pw, ph) / 2;
    }
    if inner == 0 {
      inner := TruncDiv(Wrap32(outer * 2), 3);
    }
    var orr2 := Wrap32(outer * outer);
    var irr2 := Wrap32(inner * inner);
    ghost var before := pixels[..];
    assert IsHueRingImage(pw, ph, inner, outer, atan2, before, image);
    var y := 0;
    while y < ph
      invariant 0 <= y <= ph && pw * y <= pixels.Length
      invariant forall i :: 0 <= i < pw * y ==> pixels[i] == image[i]
      invariant forall i :: pw * y <= i < pixels.Length ==> pixels[i] == before[i]
    {
      var x := 0;
      ghost var rowStart := pw * y;
      MulLeq(pw, y + 1, ph);
      while x < pw
        invariant 0 <= x <= pw && rowStart + x <= pixels.Length
        invariant forall i :: 0 <= i < rowStart + x ==> pixels[i] == image[i]
        invariant forall i :: rowStart + x <= i < pixels.Length ==> pixels[i] == before[i]
      {
        CellInBuffer(pw, ph, x, y);
        RenderHueRingPixel(pch, pcv, irr2, orr2, pw, ph, x, y, pixels, atan2, inner, outer, before, image);
        x := x + 1;
      }
      assert rowStart + pw == pw * (y + 1);
      y := y + 1;
    }
    assert pixels[..] == image;
  }

  /** The body of the ring loop for pixel (x, y): the squared distance from the integer
      centre (pch, pcv) is compared with the squared radii, and a pixel inside the annulus
      gets the colour of its angle. Only cell pw * y + x may change. */
  method RenderHueRingPixel(pch: int, pcv: int, irr2: int, orr2: int, pw: nat, ph: nat, x: int, y: int,
                            pixels: array<int>, atan2: (real, real) -> real,
                            ghost inner: int, ghost outer: int, ghost before: seq<int>, ghost image: seq<int>)
    requires pixels.Length == pw * ph && 0 <= x < pw && 0 <= y < ph && pw * y + x < pw * ph
    requires pch == pw / 2 && pcv == ph / 2 && irr2 == Wrap32(inner * inner) && orr2 == Wrap32(outer * outer)
    requires IsAtan2Degrees(atan2) && IsHueRingImage(pw, ph, inner, outer, atan2, before, image)
    requires pixels[pw * y + x] == before[pw * y + x]
    modifies pixels
    ensures pixels[pw * y + x] == image[pw * y + x]
    ensures forall i :: 0 <= i < pixels.Length && i != pw * y + x ==> pixels[i] == old(pixels[i])
  {
    var r2 := Wrap32(Wrap32((x - pch) * (x - pch)) + Wrap32((y - pcv) * (y - pcv)));
    if r2 >= irr2 && r2 <= orr2 {
      var angleDegrees := RingHue(atan2, x - pch, y - pcv);
      var c := FromHsl(angleDegrees, 1.0, 0.5, 1.0);
      pixels[pw * y + x] := GetBgra8888Value(c.value);
    }
    assert image[pw * y + x] == RingPixel(pw, ph, inner, outer, atan2, before, x, y);
  }

  /** The hue-ring entry point: Bgra8888 only, checked before any cell is written. */
  method RenderColorPickerHueRingAsync(target: WritableBitmap, innerRingRadius: int, outerRingRadius: int,
                                       atan2: (real, real) -> real) returns (r: Outcome)
    requires target.Valid() && IsAtan2Degrees(atan2)
    modifies target.pixels
    ensures r.Fail? <==> target.format != Bgra8888
    ensures r.Fail? ==> r.error.InvalidOperationException? && unchanged(target.pixels)
    ensures r.Pass? ==>
      var pw, ph := target.pixelWidth, target.pixelHeight;
      var outer := OuterRingRadius(pw, ph, outerRingRadius);
      target.pixels[..] == HueRingImage(pw, ph, InnerRingRadius(innerRingRadius, outer), outer,
                                        atan2, old(target.pixels[..]))
  {
    if target.format != Bgra8888 {
      return Fail(InvalidOperationException("Only Bgra8888 supported!"));
    }
    var pw, ph := target.pixelWidth, target.pixelHeight;
    ghost var outer := OuterRingRadius(pw, ph, outerRingRadius);
    ghost var inner := InnerRingRadius(innerRingRadius, outer);
    HueRingImageIs(pw, ph, inner, outer, atan2, target.pixels[..]);
    RenderColorPickerHueRingCore(innerRingRadius, outerRingRadius, pw, ph, target.pixels, atan2,
                                 HueRingImage(pw, ph, inner, outer, atan2, target.pixels[..]));
    r := Pass;
  }
}
