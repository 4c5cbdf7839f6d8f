/**
 * The figures a user places on the plane: a rectangle button ("figure"), a point,
 * and a line given by an anchor and a slope. The three Python classes are the three
 * shapes of one tagged union; methods that update a figure in place are functions
 * from the old figure value to the new one.
 */
module Figures {
  import opened Wrappers
  import opened Geometry

  /** Line.proximity_range: how close, in pixels, the pointer must come to a line. */
  const PROXIMITY_RANGE: int := 4
  /** Point's default radius. */
  const POINT_RADIUS: int := 4
  /** Figure's default size. */
  const FIGURE_SIZE: Vec := Vec(10, 10)

  /** Line.slope: a real number, or the infinity set_slope stores for a vertical line. */
  datatype Slope = Finite(m: real) | Vertical

  /**
   * What differs between the figure classes.
   * RectShape: the rect a Figure hit-tests and moves.
   * PointShape: the radius, and the rect hit-tested for hover, which is the bounding box
   *   of the circle the point's draw call last returned.
   * LineShape: the slope; the intercept b, None where the source holds an infinite or
   *   NaN value; anchorRect, the orig_rect around the anchor that draw records while
   *   the line is hovered; and the setting_slope / initialized sub-state.
   */
  datatype Shape =
    | RectShape(rect: Rect)
    | PointShape(radius: int, rect: Rect)
    | LineShape(slope: Slope, b: Option<real>, anchorRect: Option<Rect>,
                settingSlope: bool, initialized: bool)

  /** A figure: its anchor position, its shape, and the selected / is_hovered flags. */
  datatype Figure = Figure(pos: Vec, shape: Shape, selected: bool, hovered: bool)

  /** The two ways move is called: move(pos=target) or move(rel=delta). */
  datatype MoveArg = MoveTo(target: Vec) | MoveBy(delta: Vec)

  // ---------------------------------------------------------------- construction

  /** Figure(pos, ...): a 10x10 rectangle whose top-left corner is pos. */
  function NewRectFigure(pos: Vec): (f: Figure)
    ensures f.shape.RectShape? && f.pos == pos && !f.selected && !f.hovered
    ensures forall p :: Contains(f.shape.rect, p) <==>
      pos.x <= p.x < pos.x + FIGURE_SIZE.x && pos.y <= p.y < pos.y + FIGURE_SIZE.y
  {
    Figure(pos, RectShape(Rect(pos.x, pos.y, FIGURE_SIZE.x, FIGURE_SIZE.y)), false, false)
  }

  /** Point(pos, ...); drawn is the bounding box of the circle its constructor draws. */
  function NewPoint(pos: Vec, drawn: Rect): (f: Figure)
    ensures f.shape == PointShape(POINT_RADIUS, drawn) && f.pos == pos && !f.selected && !f.hovered
  {
    Figure(pos, PointShape(POINT_RADIUS, drawn), false, false)
  }

  /** Line(pos, ...): horizontal through its anchor, defining its slope, never selected yet. */
  function NewLine(pos: Vec): (f: Figure)
    ensures f.shape.LineShape? && f.pos == pos && f.shape.slope == Finite(0.0)
    ensures f.shape.settingSlope && !f.shape.initialized && f.shape.anchorRect.None?
    ensures !f.selected && !f.hovered
    ensures LineConsistent(f) && OnLine(f.shape.slope, f.shape.b, pos)
  {
    Figure(pos, LineShape(Finite(0.0), Intercept(pos, Finite(0.0)), None, true, false), false, false)
  }

  // ---------------------------------------------------------------- line geometry

  /** Line.set_slope(end): the slope of the line through the anchor and end. */
  function SlopeThrough(anchor: Vec, end: Vec): (s: Slope)
    ensures s.Vertical? <==> end.x == anchor.x
    ensures s.Finite? ==> (end.y - anchor.y) as real == s.m * (end.x - anchor.x) as real
  {
    if end.x == anchor.x then Vertical
    else Finite((end.y - anchor.y) as real / (end.x - anchor.x) as real)
  }

  /** Line.set_b(): the intercept that puts the anchor on the line. */
  function Intercept(anchor: Vec, s: Slope): (b: Option<real>)
    ensures b.Some? <==> s.Finite?
    ensures s.Finite? ==> OnLine(s, b, anchor)
  {
    match s
    case Finite(m) => Some(anchor.y as real - m * anchor.x as real)
    case Vertical => None
  }

  /** p satisfies y = slope * x + b. */
  predicate OnLine(s: Slope, b: Option<real>, p: Vec) {
    s.Finite? && b.Some? && p.y as real == s.m * p.x as real + b.value
  }

  /** A line's intercept agrees with its anchor and slope, as after every set_b. */
  predicate LineConsistent(f: Figure) {
    f.shape.LineShape? ==> f.shape.b == Intercept(f.pos, f.shape.slope)
  }

  /** After set_slope(end) and set_b(), the anchor and end both lie on the line. */
  lemma SlopeThroughBothPoints(anchor: Vec, end: Vec)
    requires end.x != anchor.x
    ensures OnLine(SlopeThrough(anchor, end), Intercept(anchor, SlopeThrough(anchor, end)), anchor)
    ensures OnLine(SlopeThrough(anchor, end), Intercept(anchor, SlopeThrough(anchor, end)), end)
  {
  }

  /** -y + slope * x + b: the numerator of distance_to_line. */
  function Offset(m: real, b: real, p: Vec): real {
    -(p.y as real) + m * p.x as real + b
  }

  /**
   * distance_to_line(p) < proximity_range, squared on both sides so that no square
   * root is needed. False for a vertical line: there the source computes NaN.
   */
  predicate WithinProximity(s: Slope, b: Option<real>, p: Vec) {
    match s
    case Vertical => false
    case Finite(m) =>
      b.Some? &&
      Offset(m, b.value, p) * Offset(m, b.value, p) < (PROXIMITY_RANGE * PROXIMITY_RANGE) as real * (1.0 + m * m)
  }

  function SquaredDistance(p: RVec, q: RVec): real {
    (p.x - q.x) * (p.x - q.x) + (p.y - q.y) * (p.y - q.y)
  }

  /** The foot of the perpendicular from p to the line y = m * x + b. */
  function Foot(m: real, b: real, p: Vec): (q: RVec)
    ensures q.y == m * q.x + b
  {
    var k := 1.0 + m * m;
    var d := Offset(m, b, p) / k;
    assert d * k == Offset(m, b, p);
    RVec(p.x as real - m * d, p.y as real + d)
  }

  /** (1 + m^2) times the squared distance to the foot is the squared offset. */
  lemma FootDistance(m: real, b: real, p: Vec)
    ensures (1.0 + m * m) * SquaredDistance(AsReal(p), Foot(m, b, p)) == Offset(m, b, p) * Offset(m, b, p)
  {
    var k := 1.0 + m * m;
    var e := Offset(m, b, p);
    var d := e / k;
    assert d * k == e;
    var q := Foot(m, b, p);
    assert q == RVec(p.x as real - m * d, p.y as real + d);
    calc {
      k * SquaredDistance(AsReal(p), q);
      k * ((m * d) * (m * d) + d * d);
      (d * k) * (d * k);
      e * e;
    }
  }

  /** The squared distance from p to the point of the line at x, in terms of t = x - p.x. */
  lemma DistanceAlongLine(m: real, b: real, p: Vec, x: real)
    ensures var t := x - p.x as real; var e := Offset(m, b, p);
      SquaredDistance(AsReal(p), RVec(x, m * x + b)) == t * t + (m * t + e) * (m * t + e)
  {
    var t := x - p.x as real;
    assert m * x + b - p.y as real == m * t + Offset(m, b, p);
  }

  /** Lagrange's identity for the two vectors (1, m) and (t, m * t + e). */
  lemma ScaledGap(m: real, t: real, e: real)
    ensures (1.0 + m * m) * (t * t + (m * t + e) * (m * t + e)) - e * e
      == ((1.0 + m * m) * t + m * e) * ((1.0 + m * m) * t + m * e)
  {
  }

  /**
   * The comparison behind FootIsNearest with the geometry abstracted away: k * foot is
   * a square e * e, and k * other exceeds it by another square.
   */
  lemma NearestByScaling(k: real, foot: real, other: real, e: real, sq: real)
    requires k > 0.0 && k * foot == e * e && k * other - e * e == sq * sq
    ensures foot <= other
  {
    assert sq * sq >= 0.0;
    assert k * (other - foot) >= 0.0;
  }

  /** No point of the line y = m * x + b is closer to p than the foot of the perpendicular. */
  lemma FootIsNearest(m: real, b: real, p: Vec, x: real)
    ensures SquaredDistance(AsReal(p), Foot(m, b, p)) <= SquaredDistance(AsReal(p), RVec(x, m * x + b))
  {
    var k := 1.0 + m * m;
    var e := Offset(m, b, p);
    var t := x - p.x as real;
    DistanceAlongLine(m, b, p, x);
    ScaledGap(m, t, e);
    FootDistance(m, b, p);
    NearestByScaling(k, SquaredDistance(AsReal(p), Foot(m, b, p)), SquaredDistance(AsReal(p), RVec(x, m * x + b)),
      e, k * t + m * e);
  }

  /**
   * The squared comparison the model uses is the source's test: the pointer is within
   * proximity_range of the line exactly when its nearest point on the line is.
   */
  lemma ProximityMeansNearestPointClose(m: real, b: real, p: Vec)
    ensures WithinProximity(Finite(m), Some(b), p) <==>
      SquaredDistance(AsReal(p), Foot(m, b, p)) < (PROXIMITY_RANGE * PROXIMITY_RANGE) as real
  {
    var k := 1.0 + m * m;
    var r2 := (PROXIMITY_RANGE * PROXIMITY_RANGE) as real;
    FootDistance(m, b, p);
    var foot := SquaredDistance(AsReal(p), Foot(m, b, p));
    assert foot < r2 <==> k * foot < k * r2;
  }

  // ---------------------------------------------------------------- interaction

  /**
   * check_hover(mouse_pos): updates is_hovered (and a line's sub-state) and returns the
   * new is_hovered, which is r.hovered.
   */
  function CheckHover(f: Figure, mouse: Vec): (r: Figure)
    ensures r.selected == f.selected && r.pos == f.pos
    ensures !f.shape.LineShape? ==> r == f.(hovered := Contains(f.shape.rect, mouse))
    ensures f.shape.LineShape? ==>
      && r.shape.LineShape?
      && r.shape.slope == f.shape.slope && r.shape.b == f.shape.b
      && r.shape.anchorRect == f.shape.anchorRect
      // initialized records that the line has been selected at least once
      && r.shape.initialized == (f.shape.initialized || f.selected)
      && (r.hovered <==> WithinProximity(f.shape.slope, f.shape.b, mouse))
      // while the line is hovered and its anchor circle is known, the sub-mode is reset:
      // dragging (not slope-setting) exactly when the pointer is on the anchor of an
      // initialized line; otherwise the sub-mode is kept
      && (r.hovered && f.shape.anchorRect.Some? ==>
            (r.shape.settingSlope <==> !(Contains(f.shape.anchorRect.value, mouse) && r.shape.initialized)))
      && (!(r.hovered && f.shape.anchorRect.Some?) ==> r.shape.settingSlope == f.shape.settingSlope)
  {
    match f.shape
    case RectShape(rect) => f.(hovered := Contains(rect, mouse))
    case PointShape(_, rect) => f.(hovered := Contains(rect, mouse))
    case LineShape(slope, b, anchorRect, settingSlope, initialized) =>
      var init := f.selected || initialized;
      if WithinProximity(slope, b, mouse) then
        var setting :=
          if anchorRect.Some? then !(Contains(anchorRect.value, mouse) && init) else settingSlope;
        f.(shape := LineShape(slope, b, anchorRect, setting, init), hovered := true)
      else
        f.(shape := LineShape(slope, b, anchorRect, settingSlope, init), hovered := false)
  }

  /** set_state(value): changes the selected flag and nothing else. */
  function SetState(f: Figure, value: bool): (r: Figure)
    ensures r.selected == value && r.(selected := f.selected) == f
  {
    f.(selected := value)
  }

  /** The anchor after Point.move: replaced by the target, or shifted by the delta. */
  function MovedAnchor(pos: Vec, arg: MoveArg): (r: Vec)
    ensures arg.MoveBy? ==> r.x - pos.x == arg.delta.x && r.y - pos.y == arg.delta.y
    ensures arg.MoveTo? ==> r == arg.target
  {
    match arg
    case MoveTo(target) => target
    case MoveBy(delta) => Add(pos, delta)
  }

  /**
   * move(pos=...) / move(rel=...). A line that is setting its slope reads the argument
   * as the point the line must pass through; the source fails on move(rel=...) there.
   */
  function Move(f: Figure, arg: MoveArg): (r: Figure)
    requires f.shape.LineShape? && f.shape.settingSlope ==> arg.MoveTo?
    ensures r.selected == f.selected && r.hovered == f.hovered
    // a rectangle moves its rect, never its pos
    ensures f.shape.RectShape? ==>
      && r.shape.RectShape? && r.pos == f.pos
      && r.shape.rect.width == f.shape.rect.width && r.shape.rect.height == f.shape.rect.height
      && (arg.MoveTo? ==> r.shape.rect.left == arg.target.x && r.shape.rect.top == arg.target.y)
      && (arg.MoveBy? ==> r.shape.rect == Translate(f.shape.rect, arg.delta))
      && (arg.MoveBy? ==> forall p :: Contains(r.shape.rect, Add(p, arg.delta)) <==> Contains(f.shape.rect, p))
    // a point moves its pos, never its rect (only draw refreshes the rect)
    ensures f.shape.PointShape? ==> r == f.(pos := MovedAnchor(f.pos, arg))
    // a line either turns about its anchor or carries its slope along; its anchor stays on it
    ensures f.shape.LineShape? ==>
      && r.shape.LineShape? && LineConsistent(r)
      && r.shape.anchorRect == f.shape.anchorRect
      && r.shape.settingSlope == f.shape.settingSlope && r.shape.initialized == f.shape.initialized
      && (f.shape.settingSlope ==>
            && r.pos == f.pos && r.shape.slope == SlopeThrough(f.pos, arg.target)
            && (arg.target.x != f.pos.x ==> OnLine(r.shape.slope, r.shape.b, arg.target)))
      && (!f.shape.settingSlope ==> r.shape.slope == f.shape.slope && r.pos == MovedAnchor(f.pos, arg))
      && (r.shape.slope.Finite? ==> OnLine(r.shape.slope, r.shape.b, r.pos))
  {
    match f.shape
    case RectShape(rect) =>
      (match arg
       case MoveBy(delta) => f.(shape := RectShape(Translate(rect, delta)))
       case MoveTo(target) => f.(shape := RectShape(MoveTopLeft(rect, target))))
    case PointShape(_, _) =>
      f.(pos := MovedAnchor(f.pos, arg))
    case LineShape(slope, _, anchorRect, settingSlope, initialized) =>
      var pos := if settingSlope then f.pos else MovedAnchor(f.pos, arg);
      var newSlope := if settingSlope then SlopeThrough(f.pos, arg.target) else slope;
      f.(pos := pos, shape := LineShape(newSlope, Intercept(pos, newSlope), anchorRect, settingSlope, initialized))
  }

  /** Moving a rectangle or a point by a delta and back restores it. */
  lemma MoveByAndBack(f: Figure, d: Vec)
    requires !f.shape.LineShape?
    ensures Move(Move(f, MoveBy(d)), MoveBy(Neg(d))) == f
  {
  }

  /**
   * A line of slope 1 through the origin is hovered from (10, 11), about 0.71 pixels
   * away, and not from (10, 20), about 7.07 pixels away.
   */
  lemma LineHoverExample()
    ensures var line := Figure(Vec(0, 0), LineShape(Finite(1.0), Some(0.0), None, false, true), false, false);
      CheckHover(line, Vec(10, 11)).hovered && !CheckHover(line, Vec(10, 20)).hovered
  {
    assert Offset(1.0, 0.0, Vec(10, 11)) == -1.0;
    assert Offset(1.0, 0.0, Vec(10, 20)) == -10.0;
  }

  /** Dragging a point at (100, 100) by (5, -3) puts its anchor at (105, 97). */
  lemma DragPointExample(drawn: Rect)
    ensures Move(NewPoint(Vec(100, 100), drawn), MoveBy(Vec(5, -3))).pos == Vec(105, 97)
  {
  }

  /**
   * The state a draw call leaves behind, given the bounding box the renderer returned:
   * a point's rect is its circle's box; a hovered line's anchorRect is its anchor circle's box.
   */
  function Redrawn(f: Figure, box: Rect): (r: Figure)
    ensures r.selected == f.selected && r.hovered == f.hovered && r.pos == f.pos
    ensures f.shape.RectShape? ==> r == f
    ensures f.shape.PointShape? ==> r.shape == PointShape(f.shape.radius, box)
    ensures f.shape.LineShape? ==>
      && r.shape.LineShape?
      && r.shape == f.shape.(anchorRect := if f.hovered then Some(box) else f.shape.anchorRect)
  {
    match f.shape
    case RectShape(_) => f
    case PointShape(radius, _) => f.(shape := PointShape(radius, box))
    case LineShape(slope, b, anchorRect, settingSlope, initialized) =>
      if f.hovered then f.(shape := LineShape(slope, b, Some(box), settingSlope, initialized)) else f
  }
}
