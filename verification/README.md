# Hue-ring colour picker, modelled in Dafny

This project models the core of the AvaloniaToolkit colour picker and proves properties of
that model. The core has four parts:

- **Colour arithmetic** (`ColorExtensions.dfy`, `HsvColor.dfy`):
  - HSL and HSV to an 8-bit ARGB colour, over the six hue sextants, with the `(byte)` truncation.
  - RGB to `HsvColor`, by the max/min/chroma decomposition.
  - The packing of a colour into a 32-bit BGRA pixel word.
- **Pixel rasterisers** (`ColorPickerBitmaps.dfy`):
  - A `WritableBitmap` holds a row-major buffer of pixel words with a width, a height and a format tag.
  - The hue/lightness rectangle fills every cell.
  - The hue ring repaints exactly the cells whose pixel lies in the annulus. It uses integer squared distances about the centre `(pw / 2, ph / 2)` and leaves every other cell alone.
  - Both entry points check the buffer's format first.
- **RingSlice** (`RingSlice.dfy`):
  - The shape the picker uses as its thumb. Its property setters store a value and rebuild the outline.
  - A `BeginUpdate`/`EndUpdate` batch and a guard on the effective radii decide when the outline is rebuilt.
  - The outline is one closed figure: an inner arc, a line, and an outer arc.
- **HueRingPicker** (`HueRingPicker.dfy`):
  - The control's property setters, with their validation and the Minimum/Maximum coercion.
  - The mapping from a pointer position to a hue.
  - The thumb layout `UpdateRingThumb` computes.
  - One pass of the loop that regenerates the hue-ring bitmap.

The model keeps the source's quirks as written:

- The hue/lightness rectangle demands an `Rgba8888` buffer but packs B,G,R,A words (`HueLightnessSwapsRedAndBlue`).
- `ToHsv` takes its "lightness" as half the chroma, so every non-grey colour has saturation 1 (`ToHsvSaturationIsOne`).
- A change of Minimum is handled by `OnMaximumChanged`. A negative Minimum therefore stays negative, and `OnMinimumChanged` is never reached (`HueRingPicker.SetMinimum`). `OnMinimumChanged` (AvaloniaToolkit/Controls/ColorPicker/HueRingPicker.cs:367-373) would put a negative Minimum back to 0, but nothing calls it. The model follows the routing at HueRingPicker.cs:160-163.

Modelling choices:

- A C# `double` is a `real`. Where the code tests for NaN or NaN can arise (RingSlice radii, sizes and centre, container bounds), it is `Double = Num(real) | NaN`, with IEEE comparisons: NaN compares false, and `Math.Min` and arithmetic propagate it.
- C#'s truncating `(int)` cast, its integer `/` and its floating `%` are written out (`Trunc`, `TruncDiv`, `FRem`).
- Pixel words are the signed 32-bit `int` the code stores. `Unsigned` reads their bits.
- The ring rasteriser's squared radii, squared distances and `outer * 2` wrap to 32 bits as C#'s unchecked `int` arithmetic does (`Wrap32`). Below radius 46340 and side 65535 the wrap never happens (`RingTestIsExact`); beyond it the test can misfire, e.g. an inner radius of 50000 on a 4 × 4 bitmap paints the centre pixel (`LargeInnerRadiusWraps`).
- `Math.Atan2` (in degrees) is a function parameter known only to lie in [-180, 180]. `Math.Sin` and `Math.Cos` are a `Trig` parameter, and the Pythagorean identity is assumed only where a lemma asks for it.
- A thrown exception is an `Outcome`/`Result` value carrying the exception kind and message.
- Stateful code is written as classes whose methods are proved against specification functions:
  - `RingSlice` against `Step`, `UpdatedPath` and `Outline`.
  - `HueRingPicker.UpdateRingThumb` against `ThumbUpdate`.
  - `HueRingPicker.RunBitmapUpdaterPass` against `RegenerationPass`.
  - The rasteriser loops against `HueLightnessImage` and `HueRingImage`.

## Model

| member | source | states |
|---|---|---|
| Numerics.Trunc | AvaloniaToolkit/Controls/ColorPicker/HueRingPicker.cs:223-225 | the `(int)` cast moves toward zero by less than 1 and keeps the sign of its argument |
| Numerics.TruncDiv | AvaloniaToolkit/Imaging/WritableBitmapColorPickerExtensions.cs:117 | C#'s integer division is the exact quotient truncated toward zero; its remainder is smaller than the divisor in magnitude and has the dividend's sign |
| Numerics.Wrap32 | AvaloniaToolkit/Imaging/WritableBitmapColorPickerExtensions.cs:117-135 | unchecked `int` arithmetic: the result lies in the 32-bit range, differs from the exact value by a multiple of 2^32, and is the exact value when that fits |
| Numerics.FRemRange | AvaloniaToolkit/Controls/ColorPicker/HueRingPicker.cs:289 | C#'s floating `%` of a non-negative dividend by m lies in [0, m) |
| Numerics.MathMin | AvaloniaToolkit/Controls/ColorPicker/HueRingPicker.cs:312-314 | `Math.Min` is NaN when either argument is, and otherwise the smaller argument |
| ColorExtensions.ByteOf | AvaloniaToolkit/Imaging/ColorExtensions.cs:67-70 | the `(byte)` cast of a value in [0, 255] is its integer part |
| ColorExtensions.Secondary | AvaloniaToolkit/Imaging/ColorExtensions.cs:26 | the secondary component lies between 0 and the chroma |
| ColorExtensions.ComposeColor | AvaloniaToolkit/Imaging/ColorExtensions.cs:30-72 | the sextant colour's alpha byte is trunc(255·alpha); its largest channel is trunc(255·(chroma+m)) and its smallest trunc(255·m) |
| ColorExtensions.FromHsl | AvaloniaToolkit/Imaging/ColorExtensions.cs:16-73 | an ArgumentException exactly when hue < 0 or hue > 360; otherwise a colour whose alpha byte is trunc(255·alpha) |
| ColorExtensions.ChromaFits | AvaloniaToolkit/Imaging/ColorExtensions.cs:24-27 | HSL's offset m = lightness − chroma/2 and m + chroma stay in [0, 1] |
| ColorExtensions.FromHsv | AvaloniaToolkit/Imaging/ColorExtensions.cs:137-194 | an ArgumentException exactly when hue < 0 or hue > 360; otherwise a colour whose alpha byte is trunc(255·alpha) |
| ColorExtensions.HsvOffsets | AvaloniaToolkit/Imaging/ColorExtensions.cs:145-148 | HSV's chroma lies in [0, value] |
| ColorExtensions.UnsaturatedIsGrey | AvaloniaToolkit/Imaging/ColorExtensions.cs:24-27 | with saturation 0, FromHsl and FromHsv accept every hue in [0, 360] and give R = G = B |
| ColorExtensions.FullTurnIsRed | AvaloniaToolkit/Imaging/ColorExtensions.cs:25-65 | hue 360 gives the same result as hue 0, in FromHsl and in FromHsv |
| ColorExtensions.HsvExtremes | AvaloniaToolkit/Imaging/ColorExtensions.cs:145-190 | FromHsv's largest channel is trunc(255·value) and its smallest trunc(255·(value − value·saturation)) |
| ColorExtensions.LightnessExtremes | AvaloniaToolkit/Imaging/ColorExtensions.cs:24-69 | lightness 1 gives opaque white and lightness 0 opaque black, for every hue and saturation |
| ColorExtensions.PureHue | AvaloniaToolkit/Imaging/ColorExtensions.cs:24-70 | saturation 1 at lightness 1/2 gives an opaque colour with one channel 255 and one 0 |
| ColorExtensions.PureRed | AvaloniaToolkit/Imaging/ColorExtensions.cs:24-72 | hue 0 at saturation 1 and lightness 1/2 is opaque pure red |
| ColorExtensions.GetBgra8888Value | AvaloniaToolkit/Imaging/ColorExtensions.cs:75-78 | the word is a signed 32-bit int whose bits hold B in 0–7, G in 8–15, R in 16–23 and A in 24–31 |
| ColorExtensions.Bgra8888Channels | AvaloniaToolkit/Imaging/ColorExtensions.cs:75-78 | shifting and masking the word recovers each of the four channels |
| ColorExtensions.Bgra8888Injective | AvaloniaToolkit/Imaging/ColorExtensions.cs:75-78 | two colours with the same word are the same colour |
| ColorExtensions.ToHsvRanges | AvaloniaToolkit/Imaging/ColorExtensions.cs:85-127 | the result meets HsvColor's documented ranges (`HsvColor.Valid`): H lies in [0, 360) and S, V and A in [0, 1]; V is the largest channel / 255 and A the alpha / 255 |
| ColorExtensions.ToHsvGrey | AvaloniaToolkit/Imaging/ColorExtensions.cs:97-100 | a grey input gives H = 0 and S = 0 |
| ColorExtensions.ToHsvSaturationIsOne | AvaloniaToolkit/Imaging/ColorExtensions.cs:114-115 | because the lightness is taken as half the chroma, every non-grey input has S = 1 |
| ColorExtensions.ToHsvMagenta | AvaloniaToolkit/Imaging/ColorExtensions.cs:85-127 | magenta (255, 0, 255) converts to H = 300, S = 1, V = 1, A = 1 |
| ColorPickerBitmaps.WritableBitmap.constructor | AvaloniaToolkit/Controls/ColorPicker/HueRingPicker.cs:227 | a new bitmap has the requested size and format and a fresh buffer of width × height cells |
| ColorPickerBitmaps.CellInBuffer | AvaloniaToolkit/Imaging/WritableBitmapColorPickerExtensions.cs:77 | every index pw·y + x that the loops compute lies in the buffer |
| ColorPickerBitmaps.CellIndex | AvaloniaToolkit/Imaging/WritableBitmapColorPickerExtensions.cs:145 | index pw·y + x is in the buffer and determines its row y and column x |
| ColorPickerBitmaps.ColumnHue | AvaloniaToolkit/Imaging/WritableBitmapColorPickerExtensions.cs:74 | column x's hue 360·x/(pw−1) lies in [0, 360]: 0 in the first column, 360 in the last |
| ColorPickerBitmaps.RowLightness | AvaloniaToolkit/Imaging/WritableBitmapColorPickerExtensions.cs:70 | row y's lightness lies in [0, 1]: 1 on the top row, 0 on the bottom row |
| ColorPickerBitmaps.HueLightnessCells | AvaloniaToolkit/Imaging/WritableBitmapColorPickerExtensions.cs:64-79 | cell pw·y + x of the rectangle holds the packed FromHsl colour of column x's hue at row y's lightness |
| ColorPickerBitmaps.HueLightnessImageIs | AvaloniaToolkit/Imaging/WritableBitmapColorPickerExtensions.cs:64-79 | the rectangle image meets the cell-by-cell description |
| ColorPickerBitmaps.HueLightnessImageUnique | AvaloniaToolkit/Imaging/WritableBitmapColorPickerExtensions.cs:64-79 | the cell-by-cell description fixes the whole buffer |
| ColorPickerBitmaps.HueLightnessEdges | AvaloniaToolkit/Imaging/WritableBitmapColorPickerExtensions.cs:70-77 | the top row is white and the bottom row black |
| ColorPickerBitmaps.HueLightnessSwapsRedAndBlue | AvaloniaToolkit/Imaging/WritableBitmapColorPickerExtensions.cs:28-77 | in an Rgba8888 buffer the pure red pixel of the middle row has red byte 0 and blue byte 255 |
| ColorPickerBitmaps.RenderColorPickerHueLightnessCore | AvaloniaToolkit/Imaging/WritableBitmapColorPickerExtensions.cs:58-80 | the nested loops leave the buffer equal to the rectangle image |
| ColorPickerBitmaps.RenderColorPickerHueLightness | AvaloniaToolkit/Imaging/WritableBitmapColorPickerExtensions.cs:21-34 | InvalidOperationException with nothing written exactly when the format is not Rgba8888; otherwise the buffer is the rectangle image |
| ColorPickerBitmaps.RenderColorPickerHueLightnessAsync | AvaloniaToolkit/Imaging/WritableBitmapColorPickerExtensions.cs:42-56 | the same check and the same buffer as the blocking entry point |
| ColorPickerBitmaps.RingHue | AvaloniaToolkit/Imaging/WritableBitmapColorPickerExtensions.cs:140-141 | the ring's hue (atan2° + 90 + 360) % 360 lies in [0, 360) |
| ColorPickerBitmaps.HueRingCells | AvaloniaToolkit/Imaging/WritableBitmapColorPickerExtensions.cs:130-152 | cell pw·y + x of the drawn buffer holds the new content of pixel (x, y) |
| ColorPickerBitmaps.HueRingOverwritesAnnulus | AvaloniaToolkit/Imaging/WritableBitmapColorPickerExtensions.cs:135-146 | a cell gets the ring colour of its offset from the centre exactly when it passes the 32-bit annulus test inner² ≤ (x−cx)² + (y−cy)² ≤ outer²; every other cell keeps the word it held |
| ColorPickerBitmaps.RingTestIsExact | AvaloniaToolkit/Imaging/WritableBitmapColorPickerExtensions.cs:121-138 | with radii of at most 46340 and sides of at most 65535 the wrapped test is the exact annulus, in both directions |
| ColorPickerBitmaps.LargeInnerRadiusWraps | AvaloniaToolkit/Imaging/WritableBitmapColorPickerExtensions.cs:124-138 | an inner radius of 50000 squares to a negative `int`, so a 4 × 4 ring paints its centre pixel |
| ColorPickerBitmaps.HueRingImageIs | AvaloniaToolkit/Imaging/WritableBitmapColorPickerExtensions.cs:130-152 | the ring image meets the cell-by-cell description |
| ColorPickerBitmaps.RingColorsArePureHues | AvaloniaToolkit/Imaging/WritableBitmapColorPickerExtensions.cs:140-145 | FromHsl never throws for a ring hue; every ring colour is opaque with one channel 255 and one 0 |
| ColorPickerBitmaps.RenderColorPickerHueRingCore | AvaloniaToolkit/Imaging/WritableBitmapColorPickerExtensions.cs:105-153 | after resolving radius arguments of 0 to the defaults, the loops leave the buffer equal to the ring drawn over its old content |
| ColorPickerBitmaps.RenderHueRingPixel | AvaloniaToolkit/Imaging/WritableBitmapColorPickerExtensions.cs:135-146 | one loop step sets cell pw·y + x to the ring image's word and changes no other cell |
| ColorPickerBitmaps.RenderColorPickerHueRingAsync | AvaloniaToolkit/Imaging/WritableBitmapColorPickerExtensions.cs:90-103 | InvalidOperationException with nothing written exactly when the format is not Bgra8888; otherwise the buffer is the ring drawn with outer = min(pw, ph)/2 and inner = outer·2/3 for arguments of 0 |
| RingSlices.InitialState | AvaloniaToolkit/Controls/RingSlice/RingSlice.cs:19-22 | a new RingSlice is invisible, has no outline and no open batch |
| RingSlices.UpdatedPath | AvaloniaToolkit/Controls/RingSlice/RingSlice.cs:173-242 | under the guard (open batch, width 0, effective inner ≤ 0, outer < inner, either NaN) nothing changes; otherwise the shape becomes visible and only its outline changes, to the figure of the current angles and the effective radii (0 < inner ≤ outer) about Center, or about (outer + stroke/2, outer + stroke/2) when Center is null |
| RingSlices.UpdatedPathIdempotent | AvaloniaToolkit/Controls/RingSlice/RingSlice.cs:173-242 | a second path update changes nothing |
| RingSlices.UpdatedPathIgnoresStroke | AvaloniaToolkit/Controls/RingSlice/RingSlice.cs:175-241 | the stroke brush plays no part in the outline |
| RingSlices.StepInBatch | AvaloniaToolkit/Controls/RingSlice/RingSlice.cs:178 | inside an open batch every operation but EndUpdate only stores its value |
| RingSlices.InnerRadiusOutcome | AvaloniaToolkit/Controls/RingSlice/RingSlice.cs:98-103 | the InnerRadius setter throws exactly when the value changed and is negative |
| RingSlices.StepKeepsVisibility | AvaloniaToolkit/Controls/RingSlice/RingSlice.cs:240-241 | no operation hides the shape, and every operation keeps "visible iff it has an outline" |
| RingSlices.RunKeepsVisibility | AvaloniaToolkit/Controls/RingSlice/RingSlice.cs:19-22 | from a new RingSlice, after any operations, the shape is visible exactly when it has an outline, and it never becomes invisible again |
| RingSlices.BatchKeepsOutline | AvaloniaToolkit/Controls/RingSlice/RingSlice.cs:159-186 | between BeginUpdate and EndUpdate the outline and the visibility do not change and the batch stays open |
| RingSlices.BatchThenEnd | AvaloniaToolkit/Controls/RingSlice/RingSlice.cs:159-171 | BeginUpdate, setters, EndUpdate rebuild the outline once, from the settings the batch ends with |
| RingSlices.PolarOnCircle | AvaloniaToolkit/Controls/RingSlice/RingSlice.cs:201-204 | the point (cx + sin θ·r, cy − cos θ·r) lies at distance r from the centre |
| RingSlices.InstalledOutline | AvaloniaToolkit/Controls/RingSlice/RingSlice.cs:190-237 | the outline UpdatePath installs is one closed figure: a clockwise arc, a line, a counter-clockwise arc; each arc's size is its radius, both are large arcs exactly when End − Start ≥ 180, and its corners lie on the inner and outer circles about its centre |
| RingSlices.OutlineOnCircles | AvaloniaToolkit/Controls/RingSlice/RingSlice.cs:200-232 | the start point and the inner arc's end lie on the inner circle; the line's end and the outer arc's end lie on the outer circle |
| RingSlices.DefaultCenterIsRadius | AvaloniaToolkit/Controls/RingSlice/RingSlice.cs:194-198 | without a Center the outline is drawn about (Radius, Radius) |
| RingSlices.RingSlice.constructor | AvaloniaToolkit/Controls/RingSlice/RingSlice.cs:19-22 | a new object is in the initial state: invisible, no outline |
| RingSlices.RingSlice.SetStartAngle | AvaloniaToolkit/Controls/RingSlice/RingSlice.cs:32-42 | a changed angle is stored and the path updated; an equal one changes nothing |
| RingSlices.RingSlice.SetEndAngle | AvaloniaToolkit/Controls/RingSlice/RingSlice.cs:52-62 | a changed angle is stored and the path updated; an equal one changes nothing |
| RingSlices.RingSlice.SetRadius | AvaloniaToolkit/Controls/RingSlice/RingSlice.cs:72-83 | a changed radius is stored, Width and Height become 2·Radius, then the path is updated |
| RingSlices.RingSlice.SetInnerRadius | AvaloniaToolkit/Controls/RingSlice/RingSlice.cs:93-108 | a changed value is stored; the setter throws ArgumentException exactly when the value changed and is negative, and then skips the path update; otherwise the path is updated |
| RingSlices.RingSlice.SetCenter | AvaloniaToolkit/Controls/RingSlice/RingSlice.cs:118-128 | a changed centre is stored and the path updated |
| RingSlices.RingSlice.SetStrokeThickness | AvaloniaToolkit/Controls/RingSlice/RingSlice.cs:132-149 | a changed stroke thickness is stored and the path updated |
| RingSlices.RingSlice.OnSizeChanged | AvaloniaToolkit/Controls/RingSlice/RingSlice.cs:151-154 | a desired-size change updates the path |
| RingSlices.RingSlice.BeginUpdate | AvaloniaToolkit/Controls/RingSlice/RingSlice.cs:159-162 | opens a batch and changes nothing else |
| RingSlices.RingSlice.EndUpdate | AvaloniaToolkit/Controls/RingSlice/RingSlice.cs:167-171 | closes the batch and updates the path once |
| RingSlices.RingSlice.UpdatePath | AvaloniaToolkit/Controls/RingSlice/RingSlice.cs:173-242 | the object's new state is `UpdatedPath` of its old state |
| HueRingPickers.PointerHue | AvaloniaToolkit/Controls/ColorPicker/HueRingPicker.cs:285-290 | the hue under the pointer, (atan2° + 360 + 90) % 360 about the image centre, lies in [0, 360) |
| HueRingPickers.PointerHueMatchesRing | AvaloniaToolkit/Controls/ColorPicker/HueRingPicker.cs:285-290 | on an even-sized image drawn at pixel size, the hue the pointer selects at a pixel is the hue the ring rasteriser paints there |
| HueRingPickers.MaximumAfterChange | AvaloniaToolkit/Controls/ColorPicker/HueRingPicker.cs:375-381 | a Maximum above 360 becomes 360; others are kept |
| HueRingPickers.ThumbUpdateSkips | AvaloniaToolkit/Controls/ColorPicker/HueRingPicker.cs:305-309 | while the container's height or width is ≤ 2·(RingThickness + ThumbBorderThickness) the thumb is left as it was |
| HueRingPickers.ThumbSizedSettings | AvaloniaToolkit/Controls/ColorPicker/HueRingPicker.cs:312-330 | after sizing, the batch is open, Center = (s/2 + b, s/2 + b), Radius = (s + b)/2 − 1, and the outline is untouched |
| HueRingPickers.ThumbAngledInBatch | AvaloniaToolkit/Controls/ColorPicker/HueRingPicker.cs:332-333 | inside the batch the angles Value ∓ ThumbArcAngle/2 are only stored |
| HueRingPickers.ThumbFinishedSettings | AvaloniaToolkit/Controls/ColorPicker/HueRingPicker.cs:332-341 | after the angles and EndUpdate the batch is closed and the outline is that of the settings (or the old one under the guard); the stroke step fails exactly when Value is not in [0, 360] |
| HueRingPickers.ThumbUpdateSettings | AvaloniaToolkit/Controls/ColorPicker/HueRingPicker.cs:298-342 | for a container that fits: the centre, radii and angles above, End − Start = ThumbArcAngle, the large-arc flag only at 180, the outline shown or kept by the guard, failure exactly when Value is not a hue, and otherwise the stroke FromHsv(Value, 0.5, 1) |
| HueRingPickers.ThumbStrokeColour | AvaloniaToolkit/Controls/ColorPicker/HueRingPicker.cs:339-341 | for a hue in [0, 360] the stroke colour has largest channel 255 and smallest 127 |
| HueRingPickers.UnloadedPassStops | AvaloniaToolkit/Controls/ColorPicker/HueRingPicker.cs:196-231 | the loop goes on exactly while the control is loaded, and an unloaded pass renders nothing |
| HueRingPickers.RenderedBitmapFits | AvaloniaToolkit/Controls/ColorPicker/HueRingPicker.cs:200-228 | a pass renders exactly when loaded, the image is present, the bounds are numbers and one of the two samples fits; the bitmap side then fits inside that sample less the border |
| HueRingPickers.RenderedRingThickness | AvaloniaToolkit/Controls/ColorPicker/HueRingPicker.cs:223-228 | with a non-zero inner-radius argument the ring drawn is (int)RingThickness pixels thick |
| HueRingPickers.HueRingPicker.constructor | AvaloniaToolkit/Controls/ColorPicker/HueRingPicker.cs:125-130 | a new control has Minimum 0, Maximum 360, Value 0, no template parts, is not loaded and runs no loop |
| HueRingPickers.HueRingPicker.InitializeMinMaxCoercion | AvaloniaToolkit/Controls/ColorPicker/HueRingPicker.cs:355-365 | Minimum becomes 0 and Maximum 360 |
| HueRingPickers.HueRingPicker.SetMaximum | AvaloniaToolkit/Controls/ColorPicker/HueRingPicker.cs:156-159 | a changed Maximum is stored and then coerced to at most 360 |
| HueRingPickers.HueRingPicker.OnMaximumChanged | AvaloniaToolkit/Controls/ColorPicker/HueRingPicker.cs:375-381 | a new Maximum above 360 sets Maximum to 360; otherwise nothing changes |
| HueRingPickers.HueRingPicker.SetMinimum | AvaloniaToolkit/Controls/ColorPicker/HueRingPicker.cs:160-163 | Minimum takes the new value, even a negative one; a changed Minimum above 360 sets Maximum to 360 |
| HueRingPickers.HueRingPicker.OnMinimumChanged | AvaloniaToolkit/Controls/ColorPicker/HueRingPicker.cs:367-373 | a negative new Minimum sets Minimum to 0; otherwise nothing changes |
| HueRingPickers.HueRingPicker.UpdateRingThumb | AvaloniaToolkit/Controls/ColorPicker/HueRingPicker.cs:298-342 | without a thumb nothing happens; otherwise the thumb's new state and the escaping exception are `ThumbUpdate` of the control's settings and the thumb's old state |
| HueRingPickers.HueRingPicker.SetThumbArcAngle | AvaloniaToolkit/Controls/ColorPicker/HueRingPicker.cs:59-73 | outside [0, 180]: ArgumentException, with angle and thumb unchanged; otherwise stored, and a change relays the thumb |
| HueRingPickers.HueRingPicker.SetThumbBorderThickness | AvaloniaToolkit/Controls/ColorPicker/HueRingPicker.cs:95-105 | stored, and a change relays the thumb |
| HueRingPickers.HueRingPicker.SetRingThickness | AvaloniaToolkit/Controls/ColorPicker/HueRingPicker.cs:40-50 | stored; a change signals the bitmap loop and relays the thumb |
| HueRingPickers.HueRingPicker.SetValue | AvaloniaToolkit/Controls/ColorPicker/HueRingPicker.cs:152-155 | stored, and a change relays the thumb over the new hue |
| HueRingPickers.HueRingPicker.UpdateValueForPoint | AvaloniaToolkit/Controls/ColorPicker/HueRingPicker.cs:285-290 | Value becomes the pointer's hue in [0, 360); relaying the thumb for it cannot fail once the thumb fits |
| HueRingPickers.HueRingPicker.UpdateHueRingImage | AvaloniaToolkit/Controls/ColorPicker/HueRingPicker.cs:345-348 | signals the bitmap loop once |
| HueRingPickers.HueRingPicker.UpdateVisuals | AvaloniaToolkit/Controls/ColorPicker/HueRingPicker.cs:292-296 | signals the bitmap loop and relays the thumb |
| HueRingPickers.HueRingPicker.OnSizeChanged | AvaloniaToolkit/Controls/ColorPicker/HueRingPicker.cs:242-245 | records the container's new bounds, signals the bitmap loop and relays the thumb |
| HueRingPickers.HueRingPicker.OnTemplateApplied | AvaloniaToolkit/Controls/ColorPicker/HueRingPicker.cs:250-262 | records the thumb and the image; without the image, attaching the pointer handlers throws NullReferenceException before any update; otherwise it signals the loop and lays out the new thumb |
| HueRingPickers.HueRingPicker.DelayedUpdateWorkaround | AvaloniaToolkit/Controls/ColorPicker/HueRingPicker.cs:234-240 | relays the thumb |
| HueRingPickers.HueRingPicker.OnLoaded | AvaloniaToolkit/Controls/ColorPicker/HueRingPicker.cs:181-186 | marks the control loaded, signals the loop and starts one more loop |
| HueRingPickers.HueRingPicker.OnUnloaded | AvaloniaToolkit/Controls/ColorPicker/HueRingPicker.cs:188-192 | marks the control unloaded and signals the loop |
| HueRingPickers.HueRingPicker.RunBitmapUpdaterPass | AvaloniaToolkit/Controls/ColorPicker/HueRingPicker.cs:194-232 | the pass does what `RegenerationPass` decides; a render makes a fresh side × side bitmap holding the ring over zeroed cells and installs it; a non-Bgra8888 format fails and ends the loop; the loop ends exactly when the control is unloaded or the render failed |

## Left out

- Doubles are reals, plus NaN where the code tests for it. Infinities, rounding and bit-exact IEEE results are not modelled. Angles and Value are plain reals, so a NaN angle or a NaN Value is not modelled.
- `Math.Atan2`, `Math.Sin` and `Math.Cos` are parameters. Only their range and, where a lemma asks for it, the Pythagorean identity are known.
- Channel arguments of FromHsl/FromHsv (saturation, lightness or value, alpha) are required to lie in [0, 1], their documented range. Out of range, the `(byte)` cast of an unchecked value is not modelled.
- The hue/lightness rasteriser requires both dimensions to be at least 2, or the buffer to be empty. With a width or height of 1 the code divides 0 by 0 and passes NaN to FromHsl, which is not modelled.
- Locking the framebuffer, `Task.Run` offloading and the `await`s are not modelled. The async entry points run their core in place.
- The cells of a fresh `WritableBitmap` are taken to be 0. The framework does not promise this.
- `RenderHueRingPixel` holds the body of the ring core's inner loop. This keeps the loop's proof small and does not change what the loop does.
- The event that wakes the regeneration loop (`AsyncAutoResetEvent`) is not part of this model. Signals are counted (`updateSignals`), how they coalesce into wakes is not modelled, and each wake is one call of `RunBitmapUpdaterPass`.
- `RunBitmapUpdaterPass` covers one pass of the do-while loop, not the loop over time.
- The 50 ms `Task.Delay` before the re-check is modelled as a second sample of the bounds, and the 10 ms delay of `DelayedUpdateWorkaround` is not modelled. The container grid's bounds after the delay are assumed to be numbers.
- `HueRingPickers.RegenerationPass`: the `(int)` casts of the bounds and of RingThickness and the subtraction `hueRingSize / 2 - (int)RingThickness` (HueRingPicker.cs:223-228) are taken in exact arithmetic. A value outside the 32-bit range, where C#'s cast is unspecified and the subtraction wraps, is not modelled.
- The buffer index `pw * y + x` is taken to fit in an `int`, as it does for any bitmap the framework can allocate.
- `HueRingPickers.HueRingPicker.RunBitmapUpdaterPass`: a negative bitmap side renders nothing. It only arises from a negative RingThickness, where the framework would throw.
- The exception an `async void` method lets escape ends that method. What the framework does with it is not modelled.
- Avalonia's `RangeBase` coercion of Value into [Minimum, Maximum], and of Maximum against Minimum, is framework code and is not modelled. Setting Value stores it.
- Avalonia property plumbing (`SetAndRaise`, `DirectProperty`) is reduced to "a changed value is stored and its handler runs".
- Templating, `NameScope.Find`, visual-tree attachment and the wait for loading are not modelled. `OnTemplateApplied` receives the thumb (never null) and whether the image is present, and its post-load continuation runs at once.
- Pointer events and button modifiers are not modelled. `UpdateValueForPoint` receives the position and the image's bounds.
- Layout is not modelled: `OnSizeChanged` receives the container grid's new bounds.
- Brushes, `InvalidateArrange` and drawing are not modelled. The thumb's stroke is kept as its colour.
- The ThumbBorderBrush and ThumbBackground properties are plain stores with no logic and are not modelled.
- The `MeasureOverride`/`MeasureCore` overrides do nothing and are not modelled.
