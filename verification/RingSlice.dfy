/** The RingSlice shape: a path outlining the part of an annulus between two angles. Its
    settings are stored by property setters; each change that SetAndRaise reports rebuilds
    the outline, unless an update batch is open or the radii do not describe a ring. */
module RingSlices {
  import opened Numerics
  import opened Outcomes
  import opened ColorExtensions

  datatype Option<T> = None | Some(value: T)

  /** A point whose coordinates are C# doubles. */
  datatype Point = Point(x: Double, y: Double)

  datatype Size = Size(width: real, height: real)

  datatype SweepDirection = Clockwise | CounterClockwise

  datatype PathSegment =
    | ArcSegment(point: Point, size: Size, isLargeArc: bool, sweepDirection: SweepDirection)
    | LineSegment(point: Point)

  /** One figure of a path geometry: a start point and the segments drawn from it. */
  datatype PathFigure = PathFigure(startPoint: Point, segments: seq<PathSegment>, isClosed: bool)

  /** Everything a RingSlice holds: its settings, the batching flag, the outline it shows
      (`Data`), its visibility and the colour of its stroke brush. Width and Height are the
      layout sizes, NaN until set. */
  datatype SliceState = SliceState(
    startAngle: real, endAngle: real,
    radius: Double, innerRadius: Double, strokeThickness: Double,
    width: Double, height: Double, center: Option<Point>,
    isUpdating: bool, data: Option<PathFigure>, isVisible: bool, stroke: Option<Color>)

  /** A new RingSlice: all numbers at their defaults, no outline, invisible. */
  function InitialState(): (s: SliceState)
    ensures !s.isVisible && s.data.None? && !s.isUpdating
  {
    SliceState(0.0, 0.0, Num(0.0), Num(0.0), Num(0.0), NaN, NaN, None, false, None, false, None)
  }

  /** The point at `angle` degrees clockwise from twelve o'clock on the circle of radius r
      about c (screen y grows downwards). */
  function PointAt(trig: Trig, c: Point, angle: real, r: real): Point
  {
    Point(Add(c.x, Num(trig.sinDeg(angle) * r)), Sub(c.y, Num(trig.cosDeg(angle) * r)))
  }

  /** p is a finite point at distance |r| from the finite point c. */
  ghost predicate OnCircle(c: Point, p: Point, r: real)
  {
    c.x.Num? && c.y.Num? && p.x.Num? && p.y.Num?
    && (p.x.v - c.x.v) * (p.x.v - c.x.v) + (p.y.v - c.y.v) * (p.y.v - c.y.v) == r * r
  }

  /** The radius of the inner edge once half the stroke is added to it. */
  function EffectiveInner(s: SliceState): (r: Double)
    ensures r.Num? ==> s.strokeThickness.Num?
  {
    Add(s.innerRadius, Half(s.strokeThickness))
  }

  /** The radius of the outer edge once half the stroke is taken from it. */
  function EffectiveOuter(s: SliceState): (r: Double)
    ensures r.Num? ==> s.radius.Num? && s.strokeThickness.Num?
  {
    Sub(s.radius, Half(s.strokeThickness))
  }

  /** UpdatePath's guard: it keeps the previous outline while a batch is open, when the width
      is 0, and when the effective radii are not 0 < inner <= outer (NaN included). */
  predicate PathSuppressed(s: SliceState)
  {
    var inner := EffectiveInner(s);
    var outer := EffectiveOuter(s);
    s.isUpdating || s.width == Num(0.0) || Le(inner, Num(0.0)) || Lt(outer, inner)
    || inner.NaN? || outer.NaN?
  }

  /** The centre the outline is drawn about: Center when it is set, otherwise the point
      (outer + stroke/2, outer + stroke/2). */
  function ResolvedCenter(center: Option<Point>, outer: real, halfStroke: real): Point
  {
    if center.Some? then center.value else Point(Num(outer + halfStroke), Num(outer + halfStroke))
  }

  /** The closed outline: from the inner circle at startAngle, a clockwise arc along the inner
      circle to endAngle, a line out to the outer circle, and a counter-clockwise arc back
      along the outer circle to startAngle. */
  function Outline(trig: Trig, startAngle: real, endAngle: real, inner: real, outer: real, c: Point)
    : PathFigure
  {
    var largeArc := endAngle - startAngle >= 180.0;
    PathFigure(
      PointAt(trig, c, startAngle, inner),
      [ArcSegment(PointAt(trig, c, endAngle, inner), Size(inner, inner), largeArc, Clockwise),
       LineSegment(PointAt(trig, c, endAngle, outer)),
       ArcSegment(PointAt(trig, c, startAngle, outer), Size(outer, outer), largeArc, CounterClockwise)],
      true)
  }

  /** The state after UpdatePath: unchanged when the guard holds, otherwise the outline of
      the current settings is shown. */
  function UpdatedPath(s: SliceState, trig: Trig): (r: SliceState)
    ensures r.isVisible == (s.isVisible || !PathSuppressed(s))
    ensures PathSuppressed(s) ==> r == s
    ensures !PathSuppressed(s) ==>
              0.0 < EffectiveInner(s).v <= EffectiveOuter(s).v
              && r == s.(data := r.data, isVisible := true)
              && r.data == Some(Outline(trig, s.startAngle, s.endAngle,
                                        EffectiveInner(s).v, EffectiveOuter(s).v,
                                        ResolvedCenter(s.center, EffectiveOuter(s).v,
                                                       s.strokeThickness.v / 2.0)))
  {
    if PathSuppressed(s) then s
    else
      var inner := EffectiveInner(s).v;
      var outer := EffectiveOuter(s).v;
      var c := ResolvedCenter(s.center, outer, s.strokeThickness.v / 2.0);
      s.(data := Some(Outline(trig, s.startAngle, s.endAngle, inner, outer, c)), isVisible := true)
  }

  /** Updating the path twice draws nothing new: the second update finds the outline of the
      current settings already shown. */
  lemma UpdatedPathIdempotent(s: SliceState, trig: Trig)
    ensures UpdatedPath(UpdatedPath(s, trig), trig) == UpdatedPath(s, trig)
  {
  }

  /** The stroke brush plays no part in the outline. */
  lemma UpdatedPathIgnoresStroke(s: SliceState, stroke: Option<Color>, trig: Trig)
    ensures UpdatedPath(s.(stroke := stroke), trig) == UpdatedPath(s, trig).(stroke := stroke)
  {
  }

  /** The operations a RingSlice receives: the setters (each an Avalonia property change),
      a change of its desired size, and the two batching calls. */
  datatype SliceOp =
    | SetStartAngle(angle: real)
    | SetEndAngle(angle: real)
    | SetRadius(radius: Double)
    | SetInnerRadius(innerRadius: Double)
    | SetCenter(center: Option<Point>)
    | SetStrokeThickness(thickness: Double)
    | SizeChanged
    | BeginUpdate
    | EndUpdate

  /** The state after one operation. A setter whose value equals the stored one changes
      nothing (SetAndRaise reports no change; NaN equals NaN there). */
  function Step(s: SliceState, op: SliceOp, trig: Trig): SliceState
  {
    match op
    case SetStartAngle(v) =>
      if v == s.startAngle then s else UpdatedPath(s.(startAngle := v), trig)
    case SetEndAngle(v) =>
      if v == s.endAngle then s else UpdatedPath(s.(endAngle := v), trig)
    case SetRadius(v) =>
      if v == s.radius then s
      else UpdatedPath(s.(radius := v, width := Scale(2.0, v), height := Scale(2.0, v)), trig)
    case SetInnerRadius(v) =>
      if v == s.innerRadius then s
      else if Lt(v, Num(0.0)) then s.(innerRadius := v)
      else UpdatedPath(s.(innerRadius := v), trig)
    case SetCenter(v) =>
      if v == s.center then s else UpdatedPath(s.(center := v), trig)
    case SetStrokeThickness(v) =>
      if v == s.strokeThickness then s else UpdatedPath(s.(strokeThickness := v), trig)
    case SizeChanged =>
      UpdatedPath(s, trig)
    case BeginUpdate =>
      s.(isUpdating := true)
    case EndUpdate =>
      UpdatedPath(s.(isUpdating := false), trig)
  }

  /** The settings an operation stores, without any path update. */
  function Stored(s: SliceState, op: SliceOp): SliceState
  {
    match op
    case SetStartAngle(v) => s.(startAngle := v)
    case SetEndAngle(v) => s.(endAngle := v)
    case SetRadius(v) =>
      if v == s.radius then s else s.(radius := v, width := Scale(2.0, v), height := Scale(2.0, v))
    case SetInnerRadius(v) => s.(innerRadius := v)
    case SetCenter(v) => s.(center := v)
    case SetStrokeThickness(v) => s.(strokeThickness := v)
    case SizeChanged => s
    case BeginUpdate => s.(isUpdating := true)
    case EndUpdate => s.(isUpdating := false)
  }

  /** Inside an open batch every operation but EndUpdate only stores its value. */
  lemma StepInBatch(s: SliceState, op: SliceOp, trig: Trig)
    requires s.isUpdating && !op.EndUpdate?
    ensures Step(s, op, trig) == Stored(s, op)
  {
  }

  /** What the InnerRadius setter reports: an ArgumentException for a changed, negative
      value (which has already been stored). */
  function InnerRadiusOutcome(s: SliceState, v: Double): (r: Outcome)
    ensures r.Fail? <==> v != s.innerRadius && v.Num? && v.v < 0.0
  {
    if v != s.innerRadius && Lt(v, Num(0.0))
    then Fail(ArgumentException("InnerRadius can't be a negative value."))
    else Pass
  }

  /** The state after a sequence of operations. */
  function Run(s: SliceState, ops: seq<SliceOp>, trig: Trig): SliceState
    decreases |ops|
  {
    if ops == [] then s else Run(Step(s, ops[0], trig), ops[1..], trig)
  }

  lemma {:induction false} RunAppend(s: SliceState, ops: seq<SliceOp>, op: SliceOp, trig: Trig)
    ensures Run(s, ops + [op], trig) == Step(Run(s, ops, trig), op, trig)
    decreases |ops|
  {
    if ops == [] {
      assert Run(Step(s, op, trig), [], trig) == Step(s, op, trig);
    } else {
      assert (ops + [op])[1..] == ops[1..] + [op];
      RunAppend(Step(s, ops[0], trig), ops[1..], op, trig);
    }
  }

  /** The shape shows an outline exactly when it is visible. */
  predicate VisibleIffDrawn(s: SliceState)
  {
    s.isVisible <==> s.data.Some?
  }

  /** Every operation keeps visibility tied to the outline, and none hides the shape again. */
  lemma StepKeepsVisibility(s: SliceState, op: SliceOp, trig: Trig)
    ensures s.isVisible ==> Step(s, op, trig).isVisible
    ensures VisibleIffDrawn(s) ==> VisibleIffDrawn(Step(s, op, trig))
  {
  }

  /** Starting from a new RingSlice, whatever operations follow, the shape is visible exactly
      when it has an outline; once visible it stays visible. */
  lemma {:induction false} RunKeepsVisibility(s: SliceState, ops: seq<SliceOp>, trig: Trig)
    ensures s.isVisible ==> Run(s, ops, trig).isVisible
    ensures VisibleIffDrawn(s) ==> VisibleIffDrawn(Run(s, ops, trig))
    decreases |ops|
  {
    if ops != [] {
      StepKeepsVisibility(s, ops[0], trig);
      RunKeepsVisibility(Step(s, ops[0], trig), ops[1..], trig);
    }
  }

  /** Inside an open batch, setters and size changes store their values but leave the outline
      and the visibility as they were, and the batch stays open. */
  lemma {:induction false} BatchKeepsOutline(s: SliceState, ops: seq<SliceOp>, trig: Trig)
    requires s.isUpdating && forall i :: 0 <= i < |ops| ==> !ops[i].EndUpdate?
    ensures var r := Run(s, ops, trig);
            r.isUpdating && r.data == s.data && r.isVisible == s.isVisible
    decreases |ops|
  {
    if ops != [] {
      StepInBatch(s, ops[0], trig);
      BatchKeepsOutline(Step(s, ops[0], trig), ops[1..], trig);
    }
  }

  /** BeginUpdate, any setters, then EndUpdate: the outline is rebuilt once, from the settings
      the batch ends with, and the flag is cleared. */
  lemma BatchThenEnd(s: SliceState, ops: seq<SliceOp>, trig: Trig)
    requires forall i :: 0 <= i < |ops| ==> !ops[i].EndUpdate?
    ensures var stored := Run(s, [BeginUpdate] + ops, trig);
            stored.data == s.data && stored.isVisible == s.isVisible
            && Run(s, [BeginUpdate] + ops + [EndUpdate], trig)
               == UpdatedPath(stored.(isUpdating := false), trig)
  {
    var begun := Step(s, BeginUpdate, trig);
    assert ([BeginUpdate] + ops)[1..] == ops;
    assert Run(s, [BeginUpdate] + ops, trig) == Run(begun, ops, trig);
    BatchKeepsOutline(begun, ops, trig);
    RunAppend(s, [BeginUpdate] + ops, EndUpdate, trig);
  }

  /** A point drawn at distance r from c lies on the circle of radius r about c. */
  lemma PolarOnCircle(trig: Trig, c: Point, angle: real, r: real)
    requires Pythagorean(trig) && c.x.Num? && c.y.Num?
    ensures OnCircle(c, PointAt(trig, c, angle, r), r)
  {
    var sn, cs := trig.sinDeg(angle), trig.cosDeg(angle);
    assert sn * sn + cs * cs == 1.0;
    var p := PointAt(trig, c, angle, r);
    assert p.x.v - c.x.v == sn * r && p.y.v - c.y.v == -(cs * r);
    calc {
      (p.x.v - c.x.v) * (p.x.v - c.x.v) + (p.y.v - c.y.v) * (p.y.v - c.y.v);
    ==
      (sn * r) * (sn * r) + (cs * r) * (cs * r);
    ==
      (sn * sn + cs * cs) * (r * r);
    ==
      r * r;
    }
  }

  /** The outline's start point and its inner arc's end lie on the inner circle; the line's
      end and the outer arc's end lie on the outer circle. */
  lemma OutlineOnCircles(trig: Trig, startAngle: real, endAngle: real, inner: real, outer: real,
                         c: Point)
    requires Pythagorean(trig) && c.x.Num? && c.y.Num?
    ensures var f := Outline(trig, startAngle, endAngle, inner, outer, c);
            OnCircle(c, f.startPoint, inner) && OnCircle(c, f.segments[0].point, inner)
            && OnCircle(c, f.segments[1].point, outer) && OnCircle(c, f.segments[2].point, outer)
  {
    PolarOnCircle(trig, c, startAngle, inner);
    PolarOnCircle(trig, c, endAngle, inner);
    PolarOnCircle(trig, c, endAngle, outer);
    PolarOnCircle(trig, c, startAngle, outer);
  }

  /** Without a Center the outline is drawn about (Radius, Radius): half the stroke taken off
      the radius is added back. */
  lemma DefaultCenterIsRadius(s: SliceState)
    requires !PathSuppressed(s) && s.center.None?
    ensures ResolvedCenter(s.center, EffectiveOuter(s).v, s.strokeThickness.v / 2.0)
            == Point(s.radius, s.radius)
  {
  }

  /** The outline UpdatePath installs is one closed figure of three segments: a clockwise
      arc along the inner circle, a line, and a counter-clockwise arc along the outer circle.
      Each arc's size is its own radius, both are large arcs exactly when the slice spans at
      least 180 degrees, and the figure's corners lie on the inner and outer circles about
      the centre it is drawn around. */
  lemma {:induction false} InstalledOutline(s: SliceState, trig: Trig)
    requires !PathSuppressed(s)
    ensures var inner, outer := EffectiveInner(s).v, EffectiveOuter(s).v;
            var c := ResolvedCenter(s.center, outer, s.strokeThickness.v / 2.0);
            var d := UpdatedPath(s, trig).data;
            d.Some? && d.value.isClosed && |d.value.segments| == 3
            && d.value.segments[0].ArcSegment? && d.value.segments[0].sweepDirection == Clockwise
            && d.value.segments[0].size == Size(inner, inner)
            && d.value.segments[1].LineSegment?
            && d.value.segments[2].ArcSegment?
            && d.value.segments[2].sweepDirection == CounterClockwise
            && d.value.segments[2].size == Size(outer, outer)
            && (d.value.segments[0].isLargeArc <==> s.endAngle - s.startAngle >= 180.0)
            && (d.value.segments[2].isLargeArc <==> s.endAngle - s.startAngle >= 180.0)
            && (Pythagorean(trig) && c.x.Num? && c.y.Num? ==>
                  OnCircle(c, d.value.startPoint, inner)
                  && OnCircle(c, d.value.segments[0].point, inner)
                  && OnCircle(c, d.value.segments[1].point, outer)
                  && OnCircle(c, d.value.segments[2].point, outer))
  {
    var inner, outer := EffectiveInner(s).v, EffectiveOuter(s).v;
    var c := ResolvedCenter(s.center, outer, s.strokeThickness.v / 2.0);
    if Pythagorean(trig) && c.x.Num? && c.y.Num? {
      OutlineOnCircles(trig, s.startAngle, s.endAngle, inner, outer, c);
    }
  }

  /** A RingSlice object. Its fields are the state above; `trig` stands for Math.Sin and
      Math.Cos of an angle in degrees. */
  class RingSlice {
    var startAngle: real
    var endAngle: real
    var radius: Double
    var innerRadius: Double
    var strokeThickness: Double
    var width: Double
    var height: Double
    var center: Option<Point>
    var isUpdating: bool
    var data: Option<PathFigure>
    var isVisible: bool
    var stroke: Option<Color>
    const trig: Trig

    ghost function State(): SliceState
      reads this
    {
      SliceState(startAngle, endAngle, radius, innerRadius, strokeThickness, width, height, center,
                 isUpdating, data, isVisible, stroke)
    }

    constructor (trig: Trig)
      ensures State() == InitialState() && this.trig == trig
    {
      startAngle, endAngle := 0.0, 0.0;
      radius, innerRadius, strokeThickness := Num(0.0), Num(0.0), Num(0.0);
      width, height := NaN, NaN;
      center := None;
      isUpdating := false;
      data := None;
      isVisible := false;
      stroke := None;
      this.trig := trig;
    }

    method SetStartAngle(value: real)
      modifies this
      ensures State() == Step(old(State()), SliceOp.SetStartAngle(value), trig)
    {
      if value != startAngle {
        startAngle := value;
        UpdatePath();
      }
    }

    method SetEndAngle(value: real)
      modifies this
      ensures State() == Step(old(State()), SliceOp.SetEndAngle(value), trig)
    {
      if value != endAngle {
        endAngle := value;
        UpdatePath();
      }
    }

    /** A changed radius also sizes the shape to its diameter. */
    method SetRadius(value: Double)
      modifies this
      ensures State() == Step(old(State()), SliceOp.SetRadius(value), trig)
    {
      if value != radius {
        radius := value;
        height := Scale(2.0, radius);
        width := height;
        UpdatePath();
      }
    }

    /** A changed negative value is stored and then rejected, without a path update. */
    method SetInnerRadius(value: Double) returns (r: Outcome)
      modifies this
      ensures State() == Step(old(State()), SliceOp.SetInnerRadius(value), trig)
      ensures r == InnerRadiusOutcome(old(State()), value)
      ensures r.Fail? <==> value != old(innerRadius) && value.Num? && value.v < 0.0
      ensures innerRadius == value
    {
      r := Pass;
      if value != innerRadius {
        innerRadius := value;
        if value.Num? && value.v < 0.0 {
          return Fail(ArgumentException("InnerRadius can't be a negative value."));
        }
        UpdatePath();
      }
    }

    method SetCenter(value: Option<Point>)
      modifies this
      ensures State() == Step(old(State()), SliceOp.SetCenter(value), trig)
    {
      if value != center {
        center := value;
        UpdatePath();
      }
    }

    /** StrokeThickness is a styled property; OnPropertyChanged sees only real changes. */
    method SetStrokeThickness(value: Double)
      modifies this
      ensures State() == Step(old(State()), SliceOp.SetStrokeThickness(value), trig)
    {
      if value != strokeThickness {
        strokeThickness := value;
        UpdatePath();
      }
    }

    /** A change of the desired size. */
    method OnSizeChanged()
      modifies this
      ensures State() == Step(old(State()), SizeChanged, trig)
    {
      UpdatePath();
    }

    method BeginUpdate()
      modifies this
      ensures State() == Step(old(State()), SliceOp.BeginUpdate, trig)
    {
      isUpdating := true;
    }

    method EndUpdate()
      modifies this
      ensures State() == Step(old(State()), SliceOp.EndUpdate, trig)
    {
      isUpdating := false;
      UpdatePath();
    }

    method UpdatePath()
      modifies this
      ensures State() == UpdatedPath(old(State()), trig)
    {
      var inner := Add(innerRadius, Half(strokeThickness));
      var outer := Sub(radius, Half(strokeThickness));
      if isUpdating || width == Num(0.0) || Le(inner, Num(0.0)) || Lt(outer, inner)
         || inner.NaN? || outer.NaN? {
        return;
      }
      var c := if center.Some? then center.value
               else Point(Num(outer.v + strokeThickness.v / 2.0), Num(outer.v + strokeThickness.v / 2.0));
      var startPoint := PointAt(trig, c, startAngle, inner.v);
      var largeArc := endAngle - startAngle >= 180.0;
      var segments: seq<PathSegment> := [];
      segments := segments + [ArcSegment(PointAt(trig, c, endAngle, inner.v), Size(inner.v, inner.v),
                                         largeArc, Clockwise)];
      segments := segments + [LineSegment(PointAt(trig, c, endAngle, outer.v))];
      segments := segments + [ArcSegment(PointAt(trig, c, startAngle, outer.v), Size(outer.v, outer.v),
                                         largeArc, CounterClockwise)];
      assert segments == Outline(trig, startAngle, endAngle, inner.v, outer.v, c).segments;
      data := Some(PathFigure(startPoint, segments, true));
      isVisible := true;
    }
  }
}
