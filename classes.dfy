/**
 * The older Cartesian_plane: the same figure list and selection rules as the current
 * plane, without hovered_figure, and creating only rectangles and points. The older
 * Line class's move is modelled on its own; that class cannot be built (its draw reads
 * a radius it never sets), so the older plane never holds a line.
 */
module LegacyPlane {
  import opened Wrappers
  import opened Geometry
  import opened GridMapping
  import opened Figures
  import opened Selection
  import Plane

  /** The older new_figure: "figure" and "point" only. */
  function LegacyCreated(kind: string, mouse: Vec, drawn: Rect): (r: Option<Figure>)
    ensures r.Some? <==> kind == "figure" || kind == "point"
    ensures r.Some? ==> !r.value.shape.LineShape?
    ensures r == if kind == "line" then None else Plane.Created(kind, mouse, drawn)
  {
    if kind == "figure" then Some(NewRectFigure(mouse))
    else if kind == "point" then Some(NewPoint(mouse, drawn))
    else None
  }

  /** The older Line: only its anchor position takes part in move. */
  datatype LegacyLine = LegacyLine(pos: Vec)

  /** The older Line.move: pos replaced by a given target, otherwise shifted by the delta. */
  function LegacyLineMove(l: LegacyLine, arg: MoveArg): (r: LegacyLine)
    ensures arg.MoveTo? ==> r.pos == arg.target
    ensures arg.MoveBy? ==> r.pos.x == l.pos.x + arg.delta.x && r.pos.y == l.pos.y + arg.delta.y
  {
    LegacyLine(MovedAnchor(l.pos, arg))
  }

  /** Shifting the older line by d and by -d returns it to where it was. */
  lemma LegacyLineMoveByAndBack(l: LegacyLine, d: Vec)
    ensures LegacyLineMove(LegacyLineMove(l, MoveBy(d)), MoveBy(Neg(d))) == l
  {
  }

  /** Moving the older line to a target twice is moving it once. */
  lemma LegacyLineMoveToIdempotent(l: LegacyLine, t: Vec)
    ensures LegacyLineMove(LegacyLineMove(l, MoveTo(t)), MoveTo(t)) == LegacyLineMove(l, MoveTo(t))
  {
  }

  class CartesianPlane {
    var grid: Grid
    var figures: seq<Figure>
    var selectedFigure: Option<nat>

    /** The selection points into the list, and the list holds no line. */
    ghost predicate Valid()
      reads this
    {
      && (selectedFigure.Some? ==> selectedFigure.value < |figures|)
      && forall k :: 0 <= k < |figures| ==> !figures[k].shape.LineShape?
    }

    constructor(screenWidth: int, screenHeight: int, headerHeight: int)
      ensures Valid()
      ensures NewGrid(screenWidth, screenHeight - headerHeight, Plane.CELL_SIZE, headerHeight) == Some(grid)
      ensures figures == [] && selectedFigure.None?
    {
      grid := NewGrid(screenWidth, screenHeight - headerHeight, Plane.CELL_SIZE, headerHeight).value;
      figures := [];
      selectedFigure := None;
    }

    /** move_figure(pos, rel): moves the selected figure; the caller guarantees a selection. */
    method MoveFigure(pos: Option<Vec>, rel: Option<Vec>)
      requires Valid() && selectedFigure.Some?
      requires pos.Some? || rel.Some?
      modifies this
      ensures selectedFigure == old(selectedFigure) && grid == old(grid)
      ensures Valid()
      ensures var i := old(selectedFigure).value;
        figures == old(figures)[i := Move(old(figures)[i], Plane.MoveChoice(pos, rel))]
    {
      var i := selectedFigure.value;
      figures := figures[i := Move(figures[i], Plane.MoveChoice(pos, rel))];
    }

    /** clear_figures_state: every figure unselected, nothing else changed. */
    method ClearFiguresState()
      requires Valid()
      modifies this
      ensures Valid()
      ensures |figures| == |old(figures)|
      ensures forall k :: 0 <= k < |figures| ==> figures[k] == SetState(old(figures)[k], false)
      ensures selectedFigure == old(selectedFigure) && grid == old(grid)
    {
      var i := 0;
      while i < |figures|
        invariant 0 <= i <= |figures| == |old(figures)|
        invariant forall k :: 0 <= k < i ==> figures[k] == SetState(old(figures)[k], false)
        invariant forall k :: i <= k < |figures| ==> figures[k] == old(figures)[k]
        invariant selectedFigure == old(selectedFigure) && grid == old(grid)
      {
        figures := figures[i := SetState(figures[i], false)];
        i := i + 1;
      }
    }

    /** new_figure(user, type): appends a rectangle or a point; every other string, "line" included, is ignored. */
    method NewFigure(mousePos: Vec, kind: string, drawn: Rect)
      requires Valid()
      modifies this
      ensures Valid()
      ensures figures == Plane.Appended(old(figures), LegacyCreated(kind, mousePos, drawn))
      ensures selectedFigure == old(selectedFigure) && grid == old(grid)
    {
      if kind == "figure" {
        figures := figures + [NewRectFigure(mousePos)];
      } else if kind == "point" {
        figures := figures + [NewPoint(mousePos, drawn)];
      }
    }

    /** check_movement(moving, user): the same four-way rule as the current plane. */
    method CheckMovement(moving: bool, pressed: bool, motion: bool) returns (r: bool)
      ensures selectedFigure.None? ==> !r
      ensures selectedFigure.Some? && pressed ==> r == (motion || moving)
      ensures selectedFigure.Some? && !pressed ==> !r
    {
      if selectedFigure.None? {
        return false;
      } else if pressed {
        if motion {
          r := true;
        } else {
          r := moving;
        }
      } else {
        r := false;
      }
    }

    /**
     * check_figures(user): a drag in progress returns at once; otherwise a release drops
     * the selection, a press clears every selected flag, and on a press every figure under
     * the pointer is flagged selected and the last one becomes selected_figure.
     */
    method CheckFigures(mousePos: Vec, pressed: bool, motion: bool)
      requires Valid()
      modifies this
      ensures Valid()
      ensures grid == old(grid)
      ensures old(selectedFigure).Some? && pressed && motion ==>
        figures == old(figures) && selectedFigure == old(selectedFigure)
      ensures !(old(selectedFigure).Some? && pressed && motion) ==>
        && figures == Frame(old(figures), mousePos, pressed)
        && selectedFigure == (if !pressed then None
                              else if LastHovered(figures).Some? then LastHovered(figures)
                              else old(selectedFigure))
    {
      if selectedFigure.Some? {
        if pressed {
          if motion {
            return;
          }
        } else {
          selectedFigure := None;
        }
      }
      if pressed {
        ClearFiguresState();
      }
      HoverLoop(mousePos, pressed);
      forall k | 0 <= k < |figures|
        ensures figures[k] == Frame(old(figures), mousePos, pressed)[k]
      {
      }
    }

    /** The loop of the older check_figures. */
    method HoverLoop(mousePos: Vec, pressed: bool)
      requires Valid()
      modifies this
      ensures Valid()
      ensures grid == old(grid)
      ensures |figures| == |old(figures)|
      ensures forall k :: 0 <= k < |figures| ==> figures[k] == Visit(old(figures)[k], mousePos, pressed)
      ensures selectedFigure == (if pressed && LastHovered(figures).Some? then LastHovered(figures)
                                 else old(selectedFigure))
    {
      var i := 0;
      while i < |figures|
        invariant 0 <= i <= |figures| == |old(figures)|
        invariant forall k :: 0 <= k < i ==> figures[k] == Visit(old(figures)[k], mousePos, pressed)
        invariant forall k :: i <= k < |figures| ==> figures[k] == old(figures)[k]
        invariant selectedFigure == (if pressed && LastHovered(figures[..i]).Some? then LastHovered(figures[..i])
                                     else old(selectedFigure))
        invariant grid == old(grid)
      {
        ghost var prefix := figures[..i];
        HoverStep(i, mousePos, pressed);
        LastHoveredExtend(prefix, figures[i]);
        assert figures[..i + 1] == prefix + [figures[i]];
        i := i + 1;
      }
      assert figures[..i] == figures;
    }

    /** One turn of the older loop: `if f.check_hover(pos) and pressed`, then select f. */
    method HoverStep(i: nat, mousePos: Vec, pressed: bool)
      requires i < |figures|
      modifies this
      ensures grid == old(grid)
      ensures figures == old(figures)[i := Visit(old(figures)[i], mousePos, pressed)]
      ensures selectedFigure == if figures[i].hovered && pressed then Some(i) else old(selectedFigure)
    {
      var f := CheckHover(figures[i], mousePos);
      if f.hovered && pressed {
        f := SetState(f, true);
        selectedFigure := Some(i);
      }
      figures := figures[i := f];
    }
  }
}
