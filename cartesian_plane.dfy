/**
 * Cartesian_plane: the ordered list of figures, with references to the selected and
 * the hovered figure, updated once per frame from the pointer state. Figures are values
 * in a sequence field; a reference to a figure is its index in that sequence (figures
 * are never removed, so an index stays valid).
 */
module Plane {
  import opened Wrappers
  import opened Geometry
  import opened GridMapping
  import opened Figures
  import opened Selection

  /** The cell size Cartesian_plane passes to Grid.__init__. */
  const CELL_SIZE: int := 20

  /**
   * The figure new_figure appends for a mode string, or None for a string it ignores.
   * drawn is the bounding box the new point's first draw call returns.
   */
  function Created(kind: string, mouse: Vec, drawn: Rect): (r: Option<Figure>)
    ensures r.Some? <==> kind == "figure" || kind == "point" || kind == "line"
    ensures r.Some? ==> r.value.pos == mouse && !r.value.selected && !r.value.hovered && LineConsistent(r.value)
    ensures r.Some? ==> (r.value.shape.RectShape? <==> kind == "figure")
    ensures r.Some? ==> (r.value.shape.PointShape? <==> kind == "point")
    ensures r.Some? ==> (r.value.shape.LineShape? <==> kind == "line")
    ensures kind == "figure" ==> r == Some(NewRectFigure(mouse))
    ensures kind == "point" ==> r == Some(NewPoint(mouse, drawn))
    ensures kind == "line" ==> r == Some(NewLine(mouse))
  {
    if kind == "figure" then Some(NewRectFigure(mouse))
    else if kind == "point" then Some(NewPoint(mouse, drawn))
    else if kind == "line" then Some(NewLine(mouse))
    else None
  }

  /** The figure list after new_figure. */
  function Appended(figs: seq<Figure>, created: Option<Figure>): (r: seq<Figure>)
    ensures |r| == |figs| + (if created.Some? then 1 else 0)
    ensures r[..|figs|] == figs
    ensures created.Some? ==> r[|figs|] == created.value
  {
    match created
    case Some(f) => figs + [f]
    case None => figs
  }

  /** move_figure's choice: move(pos=pos) when pos is given, move(rel=rel) otherwise. */
  function MoveChoice(pos: Option<Vec>, rel: Option<Vec>): (r: MoveArg)
    requires pos.Some? || rel.Some?
    ensures r.MoveTo? <==> pos.Some?
    ensures r.MoveTo? ==> r.target == pos.value
    ensures r.MoveBy? ==> r.delta == rel.value
  {
    if pos.Some? then MoveTo(pos.value) else MoveBy(rel.value)
  }

  class CartesianPlane {
    /** The Grid part of the plane (Cartesian_plane extends Grid). */
    var grid: Grid
    var figures: seq<Figure>
    var selectedFigure: Option<nat>
    var hoveredFigure: Option<nat>

    /** Both references point into the list, and every line's intercept is up to date. */
    ghost predicate Valid()
      reads this
    {
      && (selectedFigure.Some? ==> selectedFigure.value < |figures|)
      && (hoveredFigure.Some? ==> hoveredFigure.value < |figures|)
      && forall k :: 0 <= k < |figures| ==> LineConsistent(figures[k])
    }

    /** Cartesian_plane(screen, header, font): a grid below the header, no figures. */
    constructor(screenWidth: int, screenHeight: int, headerHeight: int)
      ensures Valid()
      ensures NewGrid(screenWidth, screenHeight - headerHeight, CELL_SIZE, headerHeight) == Some(grid)
      ensures figures == [] && selectedFigure.None? && hoveredFigure.None?
    {
      grid := NewGrid(screenWidth, screenHeight - headerHeight, CELL_SIZE, headerHeight).value;
      figures := [];
      selectedFigure := None;
      hoveredFigure := None;
    }

    /** move_figure(pos, rel): moves the selected figure; the caller guarantees a selection. */
    method MoveFigure(pos: Option<Vec>, rel: Option<Vec>)
      requires Valid() && selectedFigure.Some?
      requires pos.Some? || rel.Some?
      requires pos.None? && figures[selectedFigure.value].shape.LineShape? ==>
        !figures[selectedFigure.value].shape.settingSlope
      modifies this
      ensures selectedFigure == old(selectedFigure) && hoveredFigure == old(hoveredFigure)
      ensures grid == old(grid)
      ensures Valid()
      ensures var i := old(selectedFigure).value;
        figures == old(figures)[i := Move(old(figures)[i], MoveChoice(pos, rel))]
    {
      var i := selectedFigure.value;
      figures := figures[i := Move(figures[i], MoveChoice(pos, rel))];
    }

    /** clear_figures_state: every figure unselected, nothing else changed. */
    method ClearFiguresState()
      requires Valid()
      modifies this
      ensures Valid()
      ensures |figures| == |old(figures)|
      ensures forall k :: 0 <= k < |figures| ==> figures[k] == SetState(old(figures)[k], false)
      ensures selectedFigure == old(selectedFigure) && hoveredFigure == old(hoveredFigure)
      ensures grid == old(grid)
    {
      var i := 0;
      while i < |figures|
        invariant 0 <= i <= |figures| == |old(figures)|
        invariant forall k :: 0 <= k < i ==> figures[k] == SetState(old(figures)[k], false)
        invariant forall k :: i <= k < |figures| ==> figures[k] == old(figures)[k]
        invariant selectedFigure == old(selectedFigure) && hoveredFigure == old(hoveredFigure)
        invariant grid == old(grid)
      {
        figures := figures[i := SetState(figures[i], false)];
        i := i + 1;
      }
    }

    /**
     * new_figure(user, type): appends one new, unselected figure at the pointer for
     * "figure", "point" or "line"; any other string changes nothing.
     */
    method NewFigure(mousePos: Vec, kind: string, drawn: Rect)
      requires Valid()
      modifies this
      ensures Valid()
      ensures figures == Appended(old(figures), Created(kind, mousePos, drawn))
      ensures selectedFigure == old(selectedFigure) && hoveredFigure == old(hoveredFigure)
      ensures grid == old(grid)
    {
      if kind == "figure" {
        figures := figures + [NewRectFigure(mousePos)];
      } else if kind == "point" {
        figures := figures + [NewPoint(mousePos, drawn)];
      } else if kind == "line" {
        figures := figures + [NewLine(mousePos)];
      }
    }

    /**
     * check_movement(moving, user). The source tests the bound method check_hover,
     * which is always truthy, so only the button and motion flags matter.
     */
    method CheckMovement(moving: bool, pressed: bool, motion: bool) returns (r: bool)
      ensures selectedFigure.None? ==> !r
      ensures selectedFigure.Some? && pressed && motion ==> r
      ensures selectedFigure.Some? && pressed && !motion ==> r == moving
      ensures selectedFigure.Some? && !pressed ==> !r
    {
      if selectedFigure.None? {
        return false;
      } else if pressed {
        if motion {
          r := true;
        } else {
          r := moving;
        }
      } else {
        r := false;
      }
    }

    /**
     * check_figures(user). A drag in progress (a selection, the button held, the pointer
     * moving) returns at once. Otherwise a release drops the selection, a press clears
     * every selected flag, and each figure in list order is hit-tested: the last hovered
     * one becomes hovered_figure and, on a press, every hovered figure is flagged selected
     * and the last one becomes selected_figure. A press that hits nothing keeps the
     * previous selected_figure although its flag is now cleared.
     */
    method CheckFigures(mousePos: Vec, pressed: bool, motion: bool)
      requires Valid()
      modifies this
      ensures Valid()
      ensures grid == old(grid)
      ensures old(selectedFigure).Some? && pressed && motion ==>
        && figures == old(figures)
        && selectedFigure == old(selectedFigure) && hoveredFigure == old(hoveredFigure)
      ensures !(old(selectedFigure).Some? && pressed && motion) ==>
        && figures == Frame(old(figures), mousePos, pressed)
        && hoveredFigure == LastHovered(figures)
        && selectedFigure == (if !pressed then None
                              else if LastHovered(figures).Some? then LastHovered(figures)
                              else old(selectedFigure))
    {
      if selectedFigure.Some? {
        if pressed {
          if motion {
            return;
          }
        } else {
          selectedFigure := None;
        }
      }
      if pressed {
        ClearFiguresState();
      }
      HoverLoop(mousePos, pressed);
      forall k | 0 <= k < |figures|
        ensures figures[k] == Frame(old(figures), mousePos, pressed)[k]
      {
      }
    }

    /**
     * The loop of check_figures: hit-test each figure in list order; the last hovered
     * one becomes hovered_figure, and on a press each hovered figure is flagged selected
     * and the last becomes selected_figure.
     */
    method HoverLoop(mousePos: Vec, pressed: bool)
      requires Valid()
      modifies this
      ensures Valid()
      ensures grid == old(grid)
      ensures |figures| == |old(figures)|
      ensures forall k :: 0 <= k < |figures| ==> figures[k] == Visit(old(figures)[k], mousePos, pressed)
      ensures hoveredFigure == LastHovered(figures)
      ensures selectedFigure == (if pressed && LastHovered(figures).Some? then LastHovered(figures)
                                 else old(selectedFigure))
    {
      hoveredFigure := None;
      var i := 0;
      while i < |figures|
        invariant 0 <= i <= |figures| == |old(figures)|
        invariant forall k :: 0 <= k < i ==> figures[k] == Visit(old(figures)[k], mousePos, pressed)
        invariant forall k :: i <= k < |figures| ==> figures[k] == old(figures)[k]
        invariant hoveredFigure == LastHovered(figures[..i])
        invariant selectedFigure == (if pressed && LastHovered(figures[..i]).Some? then LastHovered(figures[..i])
                                     else old(selectedFigure))
        invariant grid == old(grid)
      {
        ghost var prefix := figures[..i];
        HoverStep(i, mousePos, pressed);
        LastHoveredExtend(prefix, figures[i]);
        assert figures[..i + 1] == prefix + [figures[i]];
        i := i + 1;
      }
      assert figures[..i] == figures;
      forall k | 0 <= k < |figures|
        ensures LineConsistent(figures[k])
      {
        VisitKeepsLineConsistent(old(figures)[k], mousePos, pressed);
      }
    }

    /** One turn of the loop of check_figures, on the figure at index i. */
    method HoverStep(i: nat, mousePos: Vec, pressed: bool)
      requires i < |figures|
      modifies this
      ensures grid == old(grid)
      ensures figures == old(figures)[i := Visit(old(figures)[i], mousePos, pressed)]
      ensures hoveredFigure == if figures[i].hovered then Some(i) else old(hoveredFigure)
      ensures selectedFigure == if figures[i].hovered && pressed then Some(i) else old(selectedFigure)
    {
      var f := CheckHover(figures[i], mousePos);
      if f.hovered {
        hoveredFigure := Some(i);
        if pressed {
          f := SetState(f, true);
          selectedFigure := Some(i);
        }
      }
      figures := figures[i := f];
    }
  }
}
