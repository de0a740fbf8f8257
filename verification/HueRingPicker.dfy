/** The HueRingPicker control: a range control whose Value is a hue in degrees. It maps
    pointer positions to hues, keeps a RingSlice thumb over the current hue, clamps its
    Maximum, and regenerates the hue-ring bitmap in a loop woken by a signal. */
module HueRingPickers {
  import opened Numerics
  import opened Outcomes
  import opened ColorExtensions
  import opened ColorPickerBitmaps
  import opened RingSlices

  /** The control settings UpdateRingThumb reads, with the container grid's bounds. */
  datatype ThumbInputs = ThumbInputs(
    value: real, thumbArcAngle: real, ringThickness: real, thumbBorderThickness: real,
    containerWidth: Double, containerHeight: Double)

  /** The ThumbArcAngle setter's range check. */
  predicate ThumbArcAngleAccepted(angle: real)
  {
    !(angle < 0.0 || angle > 180.0)
  }

  /** The hue the pointer at (px, py) selects: the angle about the image's centre, turned
      so that 0 is up, brought into [0, 360) by C#'s floating remainder. */
  function PointerHue(atan2: (real, real) -> real, imageWidth: real, imageHeight: real,
                      px: real, py: real): (hue: real)
    requires IsAtan2Degrees(atan2)
    ensures 0.0 <= hue < 360.0
  {
    var cx, cy := imageWidth / 2.0, imageHeight / 2.0;
    var angle := atan2(py - cy, px - cx);
    FRemRange(angle + 360.0 + 90.0, 360.0);
    FRem(angle + 360.0 + 90.0, 360.0)
  }

  /** On an image of even width and height drawn at its pixel size, the hue the pointer
      selects at pixel (x, y) is the hue the ring rasteriser paints there. */
  lemma PointerHueMatchesRing(atan2: (real, real) -> real, pw: nat, ph: nat, x: int, y: int)
    requires IsAtan2Degrees(atan2) && pw % 2 == 0 && ph % 2 == 0
    ensures PointerHue(atan2, pw as real, ph as real, x as real, y as real)
            == RingHue(atan2, x - pw / 2, y - ph / 2)
  {
    assert (pw as real) / 2.0 == (pw / 2) as real;
    assert (ph as real) / 2.0 == (ph / 2) as real;
  }

  /** Maximum after a change to `newMaximum`: a value above 360 is put back to 360. */
  function MaximumAfterChange(newMaximum: real): (m: real)
    ensures m <= 360.0
    ensures newMaximum > 360.0 ==> m == 360.0
    ensures newMaximum <= 360.0 ==> m == newMaximum
  {
    if newMaximum > 360.0 then 360.0 else newMaximum
  }

  /** The container is too small for the ring and its thumb border (NaN compares false). */
  predicate ContainerTooSmall(width: Double, height: Double, ringThickness: real, border: real)
  {
    Le(height, Num(2.0 * (ringThickness + border))) || Le(width, Num(2.0 * (ringThickness + border)))
  }

  /** The side of the square the hue ring may occupy: the container less the border. */
  function HueRingSize(width: Double, height: Double, border: real): Double
  {
    MathMin(Sub(width, Num(2.0 * border)), Sub(height, Num(2.0 * border)))
  }

  function ThumbCenter(size: Double, border: real): Point
  {
    Point(Add(Half(size), Num(border)), Add(Half(size), Num(border)))
  }

  /** Half a border larger than the ring, less 1 for overlap. */
  function ThumbRadius(size: Double, border: real): Double
  {
    Sub(Half(Add(size, Num(border))), Num(1.0))
  }

  function ThumbInnerRadius(radius: Double, ringThickness: real, border: real): Double
  {
    Add(Sub(Sub(radius, Num(ringThickness)), Num(border)), Num(2.0))
  }

  /** The container leaves room for the ring, and the thumb's inner radius comes out
      non-negative, so that its setter does not throw. */
  predicate ThumbFits(inputs: ThumbInputs)
  {
    var b := inputs.thumbBorderThickness;
    var size := HueRingSize(inputs.containerWidth, inputs.containerHeight, b);
    !ContainerTooSmall(inputs.containerWidth, inputs.containerHeight, inputs.ringThickness, b)
    && !Lt(ThumbInnerRadius(ThumbRadius(size, b), inputs.ringThickness, b), Num(0.0))
  }

  /** The result of UpdateRingThumb on the thumb: its new state and whether a setter or the
      brush colour threw. */
  datatype ThumbResult = ThumbResult(thumb: SliceState, outcome: Outcome)

  /** UpdateRingThumb on a present thumb. It does nothing while the container is too small.
      Otherwise it sizes the thumb, sets centre, radii and angles inside one update batch,
      and sets the stroke to the hue at half saturation. A negative inner radius throws from
      its setter and leaves the batch open; a hue outside [0, 360] throws from FromHsv after
      the batch has closed. */
  function ThumbUpdate(inputs: ThumbInputs, thumb: SliceState, trig: Trig): ThumbResult
  {
    var b := inputs.thumbBorderThickness;
    if ContainerTooSmall(inputs.containerWidth, inputs.containerHeight, inputs.ringThickness, b)
    then ThumbResult(thumb, Pass)
    else
      var rounded := ThumbSized(inputs, thumb, trig);
      var inner := ThumbInnerRadius(rounded.radius, inputs.ringThickness, b);
      var hollowed := Step(rounded, SliceOp.SetInnerRadius(inner), trig);
      var failure := InnerRadiusOutcome(rounded, inner);
      if failure.Fail? then ThumbResult(hollowed, failure)
      else ThumbFinished(inputs, hollowed, trig)
  }

  /** The first part of UpdateRingThumb: the thumb is sized, its batch opened, and its centre
      and radius set. */
  function ThumbSized(inputs: ThumbInputs, thumb: SliceState, trig: Trig): SliceState
  {
    var b := inputs.thumbBorderThickness;
    var size := HueRingSize(inputs.containerWidth, inputs.containerHeight, b);
    var sized := thumb.(width := Add(size, Num(2.0 * b)), height := Add(size, Num(2.0 * b)));
    var batch := Step(sized, SliceOp.BeginUpdate, trig);
    var centred := Step(batch, SliceOp.SetCenter(Some(ThumbCenter(size, b))), trig);
    Step(centred, SliceOp.SetRadius(ThumbRadius(size, b)), trig)
  }

  /** The last part of UpdateRingThumb: the angles are set about Value, the batch closed, and
      the stroke coloured. */
  function ThumbFinished(inputs: ThumbInputs, s: SliceState, trig: Trig): ThumbResult
  {
    var closed := Step(ThumbAngled(inputs, s, trig), SliceOp.EndUpdate, trig);
    var brush := FromHsv(inputs.value, 0.5, 1.0, 1.0);
    if brush.Err? then ThumbResult(closed, Fail(brush.error))
    else ThumbResult(closed.(stroke := Some(brush.value)), Pass)
  }

  /** The angles of the thumb set about Value, half of ThumbArcAngle to either side. */
  function ThumbAngled(inputs: ThumbInputs, s: SliceState, trig: Trig): SliceState
  {
    var started := Step(s, SliceOp.SetStartAngle(inputs.value - inputs.thumbArcAngle / 2.0), trig);
    Step(started, SliceOp.SetEndAngle(inputs.value + inputs.thumbArcAngle / 2.0), trig)
  }

  /** Inside a batch, setting the angles only stores them. */
  lemma ThumbAngledInBatch(inputs: ThumbInputs, s: SliceState, trig: Trig)
    requires s.isUpdating
    ensures ThumbAngled(inputs, s, trig)
            == s.(startAngle := inputs.value - inputs.thumbArcAngle / 2.0,
                  endAngle := inputs.value + inputs.thumbArcAngle / 2.0)
  {
    var startAngle := inputs.value - inputs.thumbArcAngle / 2.0;
    StepInBatch(s, SliceOp.SetStartAngle(startAngle), trig);
    var started := Step(s, SliceOp.SetStartAngle(startAngle), trig);
    StepInBatch(started, SliceOp.SetEndAngle(inputs.value + inputs.thumbArcAngle / 2.0), trig);
  }

  /** While the container is too small the thumb is left exactly as it was. */
  lemma ThumbUpdateSkips(inputs: ThumbInputs, thumb: SliceState, trig: Trig)
    requires ContainerTooSmall(inputs.containerWidth, inputs.containerHeight, inputs.ringThickness,
                               inputs.thumbBorderThickness)
    ensures ThumbUpdate(inputs, thumb, trig) == ThumbResult(thumb, Pass)
  {
  }

  /** After the first part the batch is open, the centre and radius are the computed ones,
      and the angles and the outline are as they were. */
  lemma ThumbSizedSettings(inputs: ThumbInputs, thumb: SliceState, trig: Trig)
    ensures var b := inputs.thumbBorderThickness;
            var size := HueRingSize(inputs.containerWidth, inputs.containerHeight, b);
            var s := ThumbSized(inputs, thumb, trig);
            s.isUpdating && s.center == Some(ThumbCenter(size, b)) && s.radius == ThumbRadius(size, b)
            && s.data == thumb.data && s.isVisible == thumb.isVisible
  {
    var b := inputs.thumbBorderThickness;
    var size := HueRingSize(inputs.containerWidth, inputs.containerHeight, b);
    var sized := thumb.(width := Add(size, Num(2.0 * b)), height := Add(size, Num(2.0 * b)));
    var batch := Step(sized, SliceOp.BeginUpdate, trig);
    StepInBatch(batch, SliceOp.SetCenter(Some(ThumbCenter(size, b))), trig);
    var centred := Step(batch, SliceOp.SetCenter(Some(ThumbCenter(size, b))), trig);
    StepInBatch(centred, SliceOp.SetRadius(ThumbRadius(size, b)), trig);
  }

  /** From an open batch, the last part leaves the thumb out of its batch with the angles
      set about Value. The thumb then shows the outline of exactly its settings, or, when
      they do not describe a ring, the outline it had before. It fails exactly when Value is
      not a hue, and otherwise strokes the thumb with the hue at half saturation. */
  lemma ThumbFinishedSettings(inputs: ThumbInputs, s: SliceState, trig: Trig)
    requires s.isUpdating
    ensures var r := ThumbFinished(inputs, s, trig);
            var t := r.thumb;
            t == s.(startAngle := t.startAngle, endAngle := t.endAngle, isUpdating := false,
                    data := t.data, isVisible := t.isVisible, stroke := t.stroke)
            && t.startAngle == inputs.value - inputs.thumbArcAngle / 2.0
            && t.endAngle == inputs.value + inputs.thumbArcAngle / 2.0
            && (PathSuppressed(t) ==> t.data == s.data && t.isVisible == s.isVisible)
            && (!PathSuppressed(t) ==> UpdatedPath(t, trig) == t)
            && (r.outcome.Pass? <==> 0.0 <= inputs.value <= 360.0)
            && (r.outcome.Pass? ==> t.stroke == Some(FromHsv(inputs.value, 0.5, 1.0, 1.0).value))
  {
    ThumbAngledInBatch(inputs, s, trig);
    var ended := ThumbAngled(inputs, s, trig);
    var closed := Step(ended, SliceOp.EndUpdate, trig);
    assert closed == UpdatedPath(ended.(isUpdating := false), trig);
    UpdatedPathIdempotent(ended.(isUpdating := false), trig);
    var brush := FromHsv(inputs.value, 0.5, 1.0, 1.0);
    if brush.Ok? {
      UpdatedPathIgnoresStroke(closed, Some(brush.value), trig);
    }
  }

  /** When the container fits and the inner radius comes out non-negative, the thumb ends
      with the computed centre and radii, spans ThumbArcAngle about Value, is out of its
      batch, and shows either the outline of exactly these settings or, when they do not
      describe a ring, the outline it had before. The large-arc flag is set only at 180
      degrees. The call fails exactly when Value is not a hue, and otherwise strokes the
      thumb with the hue at half saturation. */
  lemma ThumbUpdateSettings(inputs: ThumbInputs, thumb: SliceState, trig: Trig)
    requires 0.0 <= inputs.thumbArcAngle <= 180.0 && ThumbFits(inputs)
    ensures var b := inputs.thumbBorderThickness;
            var size := HueRingSize(inputs.containerWidth, inputs.containerHeight, b);
            var r := ThumbUpdate(inputs, thumb, trig);
            var t := r.thumb;
            t.center == Some(ThumbCenter(size, b)) && t.radius == ThumbRadius(size, b)
            && t.innerRadius == ThumbInnerRadius(ThumbRadius(size, b), inputs.ringThickness, b)
            && t.startAngle == inputs.value - inputs.thumbArcAngle / 2.0
            && t.endAngle == inputs.value + inputs.thumbArcAngle / 2.0
            && t.endAngle - t.startAngle == inputs.thumbArcAngle
            && !t.isUpdating
            && (PathSuppressed(t) ==> t.data == thumb.data && t.isVisible == thumb.isVisible)
            && (!PathSuppressed(t) ==>
                  UpdatedPath(t, trig) == t
                  && t.data.value.segments[0].isLargeArc == (inputs.thumbArcAngle == 180.0))
            && (r.outcome.Pass? <==> 0.0 <= inputs.value <= 360.0)
            && (r.outcome.Pass? ==> t.stroke == Some(FromHsv(inputs.value, 0.5, 1.0, 1.0).value))
  {
    var b := inputs.thumbBorderThickness;
    var rounded := ThumbSized(inputs, thumb, trig);
    ThumbSizedSettings(inputs, thumb, trig);
    var inner := ThumbInnerRadius(rounded.radius, inputs.ringThickness, b);
    assert InnerRadiusOutcome(rounded, inner) == Pass;
    var hollowed := Step(rounded, SliceOp.SetInnerRadius(inner), trig);
    StepInBatch(rounded, SliceOp.SetInnerRadius(inner), trig);
    ThumbFinishedSettings(inputs, hollowed, trig);
    var t := ThumbFinished(inputs, hollowed, trig).thumb;
    if !PathSuppressed(t) {
      assert t.data.value.segments[0].isLargeArc == (t.endAngle - t.startAngle >= 180.0);
    }
  }

  /** The thumb's stroke, when it is set, is the hue at half saturation and full value: its
      largest channel is 255 and its smallest 127. */
  lemma ThumbStrokeColour(value: real)
    requires 0.0 <= value <= 360.0
    ensures FromHsv(value, 0.5, 1.0, 1.0).Ok?
    ensures MaxChannel(FromHsv(value, 0.5, 1.0, 1.0).value) == 255
    ensures MinChannel(FromHsv(value, 0.5, 1.0, 1.0).value) == 127
  {
    HsvExtremes(value, 0.5, 1.0, 1.0);
    assert ByteOf(255.0 * 1.0) == 255;
    assert ByteOf(255.0 * (1.0 - 1.0 * 0.5)) == 127;
  }

  /** What one wake of the bitmap updater does: nothing, or render a square bitmap of `side`
      pixels with the given inner-radius argument. */
  datatype PassAction = Skip | Render(side: int, innerRingRadius: int)

  datatype PassResult = PassResult(action: PassAction, loopContinues: bool)

  /** One pass of the regeneration loop after a wake. `width`, `height` are the container's
      bounds when it wakes; `laterWidth`, `laterHeight` are the bounds seen on the single
      re-check after the short delay, used only when the first sample is too small. */
  function RegenerationPass(isLoaded: bool, hasImage: bool, width: Double, height: Double,
                            laterWidth: real, laterHeight: real,
                            ringThickness: real, border: real): PassResult
  {
    if !isLoaded then PassResult(Skip, false)
    else if !hasImage || width.NaN? || height.NaN? then PassResult(Skip, true)
    else
      var firstTooSmall := ContainerTooSmall(width, height, ringThickness, border);
      if firstTooSmall && ContainerTooSmall(Num(laterWidth), Num(laterHeight), ringThickness, border)
      then PassResult(Skip, true)
      else
        var w := if firstTooSmall then laterWidth else width.v;
        var h := if firstTooSmall then laterHeight else height.v;
        var side := Trunc(MinReal(w - 2.0 * border, h - 2.0 * border));
        PassResult(Render(side, TruncDiv(side, 2) - Trunc(ringThickness)), true)
  }

  /** The ring a pass draws into a fresh square bitmap of `side` pixels: the default outer
      radius and the given inner-radius argument, over cells that start at 0. */
  function RenderedHueRing(side: nat, innerRingRadius: int, atan2: (real, real) -> real): seq<int>
    requires IsAtan2Degrees(atan2)
  {
    var outer := OuterRingRadius(side, side, 0);
    HueRingImage(side, side, InnerRingRadius(innerRingRadius, outer), outer, atan2,
                 seq(side * side, _ => 0))
  }

  /** After OnUnloaded, the next wake renders nothing and ends the loop; while loaded, the
      loop goes on after every pass. */
  lemma UnloadedPassStops(isLoaded: bool, hasImage: bool, width: Double, height: Double,
                          laterWidth: real, laterHeight: real, ringThickness: real, border: real)
    ensures var r := RegenerationPass(isLoaded, hasImage, width, height, laterWidth, laterHeight,
                                      ringThickness, border);
            r.loopContinues == isLoaded && (!isLoaded ==> r.action == Skip)
  {
  }

  /** A pass renders exactly when the control is loaded, has its image, its bounds are known,
      and one of the two samples leaves room for the ring. The bitmap then fits inside that
      sample less the border on both sides, and for a non-negative ring thickness its side is
      non-negative and more than twice the thickness less one. */
  lemma RenderedBitmapFits(isLoaded: bool, hasImage: bool, width: Double, height: Double,
                           laterWidth: real, laterHeight: real, ringThickness: real, border: real)
    ensures var r := RegenerationPass(isLoaded, hasImage, width, height, laterWidth, laterHeight,
                                      ringThickness, border);
            r.action.Render? <==>
              isLoaded && hasImage && width.Num? && height.Num?
              && (!ContainerTooSmall(width, height, ringThickness, border)
                  || !ContainerTooSmall(Num(laterWidth), Num(laterHeight), ringThickness, border))
    ensures var r := RegenerationPass(isLoaded, hasImage, width, height, laterWidth, laterHeight,
                                      ringThickness, border);
            r.action.Render? && ringThickness >= 0.0 ==>
              var first := !ContainerTooSmall(width, height, ringThickness, border);
              var w := if first then width.v else laterWidth;
              var h := if first then height.v else laterHeight;
              0 <= r.action.side
              && r.action.side as real <= w - 2.0 * border && r.action.side as real <= h - 2.0 * border
              && 2.0 * ringThickness < r.action.side as real + 1.0
  {
    var r := RegenerationPass(isLoaded, hasImage, width, height, laterWidth, laterHeight,
                              ringThickness, border);
    if r.action.Render? && ringThickness >= 0.0 {
      var first := !ContainerTooSmall(width, height, ringThickness, border);
      var w := if first then width.v else laterWidth;
      var h := if first then height.v else laterHeight;
      var m := MinReal(w - 2.0 * border, h - 2.0 * border);
      assert m > 2.0 * ringThickness >= 0.0;
      assert r.action.side == Trunc(m);
    }
  }

  /** With a non-zero inner-radius argument the rendered ring is (int)RingThickness pixels
      thick: the default outer radius is half the side. */
  lemma RenderedRingThickness(side: nat, ringThickness: real)
    requires TruncDiv(side, 2) - Trunc(ringThickness) != 0
    ensures var outer := OuterRingRadius(side, side, 0);
            outer == side / 2
            && outer - InnerRingRadius(TruncDiv(side, 2) - Trunc(ringThickness), outer)
               == Trunc(ringThickness)
  {
  }

  /** The control. The template parts are the ring thumb and whether the hue-ring image is
      present; the container grid is represented by its bounds, which layout assigns.
      `updateSignals` counts the signals sent to the event that wakes the regeneration loop;
      how signals turn into wakes is not modelled, and each wake runs one pass. `updaterLoops`
      counts the regeneration loops started and not yet ended, and `hueRingBitmap` is the
      image's source. */
  class HueRingPicker {
    var value: real
    var minimum: real
    var maximum: real
    var ringThickness: real
    var thumbArcAngle: real
    var thumbBorderThickness: real
    var containerWidth: Double
    var containerHeight: Double
    var hasHueRingImage: bool
    var hueRingBitmap: WritableBitmap?
    var ringThumb: RingSlice?
    var isLoaded: bool
    var updateSignals: nat
    var updaterLoops: nat

    /** ThumbArcAngle stays in the range its setter accepts, and Maximum never exceeds 360. */
    ghost predicate Valid()
      reads this
    {
      ThumbArcAngleAccepted(thumbArcAngle) && maximum <= 360.0
    }

    /** The settings UpdateRingThumb reads. */
    ghost function Inputs(): ThumbInputs
      reads this
    {
      ThumbInputs(value, thumbArcAngle, ringThickness, thumbBorderThickness,
                  containerWidth, containerHeight)
    }

    /** The range defaults are Minimum 0, Maximum 100 and Value 0; the constructor then
        coerces the range to 0..360. The thumb update it schedules is DelayedUpdateWorkaround. */
    constructor ()
      ensures Valid()
      ensures value == 0.0 && minimum == 0.0 && maximum == 360.0
      ensures ringThickness == 0.0 && thumbArcAngle == 0.0 && thumbBorderThickness == 0.0
      ensures ringThumb == null && !hasHueRingImage && hueRingBitmap == null
      ensures !isLoaded && updateSignals == 0 && updaterLoops == 0
    {
      value, minimum, maximum := 0.0, 0.0, 100.0;
      ringThickness, thumbArcAngle, thumbBorderThickness := 0.0, 0.0, 0.0;
      containerWidth, containerHeight := Num(0.0), Num(0.0);
      hasHueRingImage, hueRingBitmap, ringThumb := false, null, null;
      isLoaded, updateSignals, updaterLoops := false, 0, 0;
      new;
      InitializeMinMaxCoercion();
    }

    /** Sets Minimum to 0 and Maximum to 360. */
    method InitializeMinMaxCoercion()
      requires Valid()
      modifies this`minimum, this`maximum
      ensures Valid()
      ensures minimum == 0.0 && maximum == 360.0
    {
      SetMinimum(0.0);
      SetMaximum(360.0);
    }

    /** The Maximum property: a change is stored and then coerced by OnMaximumChanged. */
    method SetMaximum(newMaximum: real)
      requires Valid()
      modifies this`maximum
      ensures Valid()
      ensures newMaximum != old(maximum) ==> maximum == MaximumAfterChange(newMaximum)
      ensures newMaximum == old(maximum) ==> maximum == old(maximum)
    {
      if newMaximum != maximum {
        var oldMaximum := maximum;
        maximum := newMaximum;
        OnMaximumChanged(oldMaximum, newMaximum);
      }
    }

    /** A Maximum above 360 is put back to 360. The change notification that this raises
        carries 360 and changes nothing further. */
    method OnMaximumChanged(oldMaximum: real, newMaximum: real)
      modifies this`maximum
      ensures old(Valid()) || (old(maximum) == newMaximum && ThumbArcAngleAccepted(thumbArcAngle))
              ==> Valid()
      ensures newMaximum > 360.0 ==> maximum == 360.0
      ensures newMaximum <= 360.0 ==> maximum == old(maximum)
    {
      if newMaximum > 360.0 {
        maximum := 360.0;
      }
    }

    /** The Minimum property. Its change notification is routed to OnMaximumChanged, so a
        Minimum above 360 puts Maximum to 360 and a negative Minimum is kept as it is. */
    method SetMinimum(newMinimum: real)
      requires Valid()
      modifies this`minimum, this`maximum
      ensures Valid()
      ensures minimum == newMinimum
      ensures newMinimum != old(minimum) && newMinimum > 360.0 ==> maximum == 360.0
      ensures newMinimum == old(minimum) || newMinimum <= 360.0 ==> maximum == old(maximum)
    {
      if newMinimum != minimum {
        var oldMinimum := minimum;
        minimum := newMinimum;
        OnMaximumChanged(oldMinimum, newMinimum);
      }
    }

    /** A negative Minimum is put back to 0; no change notification reaches this handler. */
    method OnMinimumChanged(oldMinimum: real, newMinimum: real)
      modifies this`minimum
      ensures newMinimum < 0.0 ==> minimum == 0.0
      ensures newMinimum >= 0.0 ==> minimum == old(minimum)
    {
      if newMinimum < 0.0 {
        minimum := 0.0;
      }
    }

    /** Lays the thumb over the current hue. Absent a thumb it does nothing; otherwise it does
        what ThumbUpdate describes, and the error is the exception it lets escape. */
    method UpdateRingThumb() returns (r: Outcome)
      modifies ringThumb
      ensures ringThumb == null ==> r == Pass
      ensures ringThumb != null ==>
        ThumbResult(ringThumb.State(), r) == ThumbUpdate(Inputs(), old(ringThumb.State()), ringThumb.trig)
    {
      if ringThumb == null {
        return Pass;
      }
      var thumb: RingSlice := ringThumb;
      ghost var before := thumb.State();
      var b := thumbBorderThickness;
      if ContainerTooSmall(containerWidth, containerHeight, ringThickness, b) {
        return Pass;
      }
      SizeRingThumb(thumb);
      r := thumb.SetInnerRadius(ThumbInnerRadius(thumb.radius, ringThickness, b));
      if r.Fail? {
        return;
      }
      TurnRingThumb(thumb);
      thumb.EndUpdate();
      var brush := FromHsv(value, 0.5, 1.0, 1.0);
      if brush.Err? {
        r := Fail(brush.error);
      } else {
        thumb.stroke := Some(brush.value);
      }
    }

    /** The first part of UpdateRingThumb: sizes the thumb, opens its batch, and sets its
        centre and radius. */
    method SizeRingThumb(thumb: RingSlice)
      modifies thumb
      ensures thumb.State() == ThumbSized(Inputs(), old(thumb.State()), thumb.trig)
    {
      ghost var before := thumb.State();
      var b := thumbBorderThickness;
      var size := HueRingSize(containerWidth, containerHeight, b);
      thumb.width := Add(size, Num(2.0 * b));
      thumb.height := Add(size, Num(2.0 * b));
      assert thumb.State() == before.(width := Add(size, Num(2.0 * b)), height := Add(size, Num(2.0 * b)));
      thumb.BeginUpdate();
      thumb.SetCenter(Some(ThumbCenter(size, b)));
      thumb.SetRadius(ThumbRadius(size, b));
    }

    /** The angles of the thumb, set about Value. */
    method TurnRingThumb(thumb: RingSlice)
      modifies thumb
      ensures thumb.State() == ThumbAngled(Inputs(), old(thumb.State()), thumb.trig)
    {
      thumb.SetStartAngle(value - thumbArcAngle / 2.0);
      thumb.SetEndAngle(value + thumbArcAngle / 2.0);
    }

    /** The ThumbArcAngle property: a value outside 0..180 throws and changes nothing; a
        changed value is stored and the thumb relaid. */
    method SetThumbArcAngle(newAngle: real) returns (r: Outcome)
      requires Valid()
      modifies this`thumbArcAngle, ringThumb
      ensures Valid()
      ensures !ThumbArcAngleAccepted(newAngle) ==>
        r == Fail(ArgumentException("ThumbArcAngle only supports values in the 0..180 range."))
        && thumbArcAngle == old(thumbArcAngle) && (ringThumb != null ==> unchanged(ringThumb))
      ensures ThumbArcAngleAccepted(newAngle) ==> thumbArcAngle == newAngle
      ensures ThumbArcAngleAccepted(newAngle) && newAngle == old(thumbArcAngle) ==>
        r == Pass && (ringThumb != null ==> unchanged(ringThumb))
      ensures ThumbArcAngleAccepted(newAngle) && newAngle != old(thumbArcAngle) && ringThumb != null ==>
        ThumbResult(ringThumb.State(), r) == ThumbUpdate(Inputs(), old(ringThumb.State()), ringThumb.trig)
    {
      if newAngle < 0.0 || newAngle > 180.0 {
        return Fail(ArgumentException("ThumbArcAngle only supports values in the 0..180 range."));
      }
      r := Pass;
      if newAngle != thumbArcAngle {
        thumbArcAngle := newAngle;
        r := UpdateRingThumb();
      }
    }

    /** The ThumbBorderThickness property: a changed value is stored and the thumb relaid. */
    method SetThumbBorderThickness(newThickness: real) returns (r: Outcome)
      modifies this`thumbBorderThickness, ringThumb
      ensures thumbBorderThickness == newThickness
      ensures newThickness == old(thumbBorderThickness) ==>
        r == Pass && (ringThumb != null ==> unchanged(ringThumb))
      ensures newThickness != old(thumbBorderThickness) && ringThumb != null ==>
        ThumbResult(ringThumb.State(), r) == ThumbUpdate(Inputs(), old(ringThumb.State()), ringThumb.trig)
    {
      r := Pass;
      if newThickness != thumbBorderThickness {
        thumbBorderThickness := newThickness;
        r := UpdateRingThumb();
      }
    }

    /** The RingThickness property: a changed value is stored and both visuals updated. */
    method SetRingThickness(newThickness: real) returns (r: Outcome)
      modifies this`ringThickness, this`updateSignals, ringThumb
      ensures ringThickness == newThickness
      ensures newThickness == old(ringThickness) ==>
        r == Pass && updateSignals == old(updateSignals)
        && (ringThumb != null ==> unchanged(ringThumb))
      ensures newThickness != old(ringThickness) ==> updateSignals == old(updateSignals) + 1
      ensures newThickness != old(ringThickness) && ringThumb != null ==>
        ThumbResult(ringThumb.State(), r) == ThumbUpdate(Inputs(), old(ringThumb.State()), ringThumb.trig)
    {
      r := Pass;
      if newThickness != ringThickness {
        ringThickness := newThickness;
        r := UpdateVisuals();
      }
    }

    /** The Value property: a changed hue is stored and the thumb relaid over it. */
    method SetValue(newValue: real) returns (r: Outcome)
      modifies this`value, ringThumb
      ensures value == newValue && (ringThumb == null ==> r == Pass)
      ensures newValue == old(value) ==> r == Pass && (ringThumb != null ==> unchanged(ringThumb))
      ensures newValue != old(value) && ringThumb != null ==>
        ThumbResult(ringThumb.State(), r) == ThumbUpdate(Inputs(), old(ringThumb.State()), ringThumb.trig)
    {
      r := Pass;
      if newValue != value {
        value := newValue;
        r := UpdateRingThumb();
      }
    }

    /** Sets Value to the hue under the pointer at (px, py) on an image of the given bounds.
        That hue is in [0, 360), so relaying the thumb for it never fails once the thumb fits. */
    method UpdateValueForPoint(px: real, py: real, imageWidth: real, imageHeight: real,
                               atan2: (real, real) -> real) returns (r: Outcome)
      requires IsAtan2Degrees(atan2)
      modifies this`value, ringThumb
      ensures value == PointerHue(atan2, imageWidth, imageHeight, px, py)
      ensures 0.0 <= value < 360.0
      ensures value != old(value) && ringThumb != null ==>
        ThumbResult(ringThumb.State(), r) == ThumbUpdate(Inputs(), old(ringThumb.State()), ringThumb.trig)
      ensures Valid() && ThumbFits(Inputs()) ==> r == Pass
    {
      ghost var before := if ringThumb == null then InitialState() else ringThumb.State();
      r := SetValue(PointerHue(atan2, imageWidth, imageHeight, px, py));
      if Valid() && ThumbFits(Inputs()) && ringThumb != null {
        ThumbUpdateSettings(Inputs(), before, ringThumb.trig);
      }
    }

    /** Wakes the regeneration loop. */
    method UpdateHueRingImage()
      modifies this`updateSignals
      ensures updateSignals == old(updateSignals) + 1
    {
      updateSignals := updateSignals + 1;
    }

    /** Requests a new bitmap and relays the thumb. */
    method UpdateVisuals() returns (r: Outcome)
      modifies this`updateSignals, ringThumb
      ensures updateSignals == old(updateSignals) + 1
      ensures ringThumb == null ==> r == Pass
      ensures ringThumb != null ==>
        ThumbResult(ringThumb.State(), r) == ThumbUpdate(Inputs(), old(ringThumb.State()), ringThumb.trig)
    {
      UpdateHueRingImage();
      r := UpdateRingThumb();
    }

    /** The control's bounds changed; layout has given the container grid the bounds
        (gridWidth, gridHeight). Both visuals are updated. */
    method OnSizeChanged(gridWidth: Double, gridHeight: Double) returns (r: Outcome)
      modifies this`containerWidth, this`containerHeight, this`updateSignals, ringThumb
      ensures containerWidth == gridWidth && containerHeight == gridHeight
      ensures updateSignals == old(updateSignals) + 1
      ensures ringThumb == null ==> r == Pass
      ensures ringThumb != null ==>
        ThumbResult(ringThumb.State(), r) == ThumbUpdate(Inputs(), old(ringThumb.State()), ringThumb.trig)
    {
      containerWidth, containerHeight := gridWidth, gridHeight;
      r := UpdateVisuals();
    }

    /** The template's parts are found and the image's pointer handlers attached, then, once
        the control is loaded, both visuals are updated. A template without the image makes
        the handler attachment throw after the parts are stored, so nothing is updated. */
    method OnTemplateApplied(thumb: RingSlice, hasImage: bool) returns (r: Outcome)
      modifies this`ringThumb, this`hasHueRingImage, this`updateSignals, thumb
      ensures ringThumb == thumb && hasHueRingImage == hasImage
      ensures !hasImage ==>
                r == Fail(NullReferenceException) && updateSignals == old(updateSignals)
                && thumb.State() == old(thumb.State())
      ensures hasImage ==>
                updateSignals == old(updateSignals) + 1
                && ThumbResult(thumb.State(), r) == ThumbUpdate(Inputs(), old(thumb.State()), thumb.trig)
    {
      ringThumb, hasHueRingImage := thumb, hasImage;
      if !hasImage {
        return Fail(NullReferenceException);
      }
      r := UpdateVisuals();
    }

    /** The deferred thumb update the constructor schedules. */
    method DelayedUpdateWorkaround() returns (r: Outcome)
      modifies ringThumb
      ensures ringThumb == null ==> r == Pass
      ensures ringThumb != null ==>
        ThumbResult(ringThumb.State(), r) == ThumbUpdate(Inputs(), old(ringThumb.State()), ringThumb.trig)
    {
      r := UpdateRingThumb();
    }

    /** Attached and loaded: wake the regeneration loop and start one. */
    method OnLoaded()
      modifies this`isLoaded, this`updateSignals, this`updaterLoops
      ensures isLoaded && updateSignals == old(updateSignals) + 1 && updaterLoops == old(updaterLoops) + 1
    {
      isLoaded := true;
      updateSignals := updateSignals + 1;
      updaterLoops := updaterLoops + 1;
    }

    /** Detached: wake the loop so that it sees the control unloaded and ends. */
    method OnUnloaded()
      modifies this`isLoaded, this`updateSignals
      ensures !isLoaded && updateSignals == old(updateSignals) + 1
    {
      isLoaded := false;
      updateSignals := updateSignals + 1;
    }

    /** One wake of a running regeneration loop, as RegenerationPass describes it.
        `laterWidth`, `laterHeight` are the container's bounds after the short delay, and
        `defaultFormat` the format of a new bitmap. A pass that renders makes a square bitmap,
        draws the ring into it and makes it the image's source; drawing fails on a format other
        than Bgra8888, and that exception ends the loop. */
    method RunBitmapUpdaterPass(laterWidth: real, laterHeight: real, atan2: (real, real) -> real,
                                defaultFormat: PixelFormat) returns (r: Outcome, continues: bool)
      requires updaterLoops > 0 && IsAtan2Degrees(atan2)
      modifies this`hueRingBitmap, this`updaterLoops
      ensures var p := RegenerationPass(isLoaded, hasHueRingImage, containerWidth, containerHeight,
                                        laterWidth, laterHeight, ringThickness, thumbBorderThickness);
              continues == (p.loopContinues && r.Pass?)
              && updaterLoops == (if continues then old(updaterLoops) else old(updaterLoops) - 1)
              && (r.Fail? ==> p.action.Render? && defaultFormat != Bgra8888)
              && (p.action.Render? && p.action.side >= 0 && defaultFormat == Bgra8888 ==> r.Pass?)
      ensures var p := RegenerationPass(isLoaded, hasHueRingImage, containerWidth, containerHeight,
                                        laterWidth, laterHeight, ringThickness, thumbBorderThickness);
              hueRingBitmap != old(hueRingBitmap) ==>
                p.action.Render? && p.action.side >= 0 && r.Pass?
                && hueRingBitmap != null && fresh(hueRingBitmap) && hueRingBitmap.Valid()
                && hueRingBitmap.pixelWidth == p.action.side == hueRingBitmap.pixelHeight
                && hueRingBitmap.pixels[..] == RenderedHueRing(p.action.side, p.action.innerRingRadius, atan2)
      ensures var p := RegenerationPass(isLoaded, hasHueRingImage, containerWidth, containerHeight,
                                        laterWidth, laterHeight, ringThickness, thumbBorderThickness);
              p.action.Render? && p.action.side >= 0 && r.Pass? ==> hueRingBitmap != old(hueRingBitmap)
    {
      var p := RegenerationPass(isLoaded, hasHueRingImage, containerWidth, containerHeight,
                                laterWidth, laterHeight, ringThickness, thumbBorderThickness);
      r := Pass;
      if p.action.Render? && p.action.side >= 0 {
        var side: nat := p.action.side;
        var wb := new WritableBitmap(side, side, defaultFormat);
        assert wb.pixels[..] == seq(side * side, _ => 0);
        r := RenderColorPickerHueRingAsync(wb, p.action.innerRingRadius, 0, atan2);
        if r.Pass? {
          hueRingBitmap := wb;
        }
      }
      continues := p.loopContinues && r.Pass?;
      if !continues {
        updaterLoops := updaterLoops - 1;
      }
    }
  }
}
