/**
 * The pixel-to-Cartesian change of units of the coordinate grid.
 * Rendering (draw_grid) and the two-decimal rounding of the result are not modelled;
 * the mapping is stated over real numbers.
 */
module GridMapping {
  import opened Wrappers
  import opened Geometry

  /** The fields Grid.__init__ stores and derives (font and screen are rendering handles). */
  datatype Grid = Grid(width: int, height: int, cellSize: int, headerHeight: int,
                       screenCenter: Vec, cartesianRange: RVec)

  /**
   * Grid.__init__. None stands for the ZeroDivisionError that computing
   * cartesian_range raises when cell_size is 0.
   */
  function NewGrid(width: int, height: int, cellSize: int, headerHeight: int): (r: Option<Grid>)
    ensures r.Some? <==> cellSize != 0
    ensures r.Some? ==>
      && r.value.width == width && r.value.height == height
      && r.value.cellSize == cellSize && r.value.headerHeight == headerHeight
      // screen_center rounds the half-extent down (floor division by 2)
      && 2 * r.value.screenCenter.x <= width < 2 * r.value.screenCenter.x + 2
      && 2 * r.value.screenCenter.y <= height + headerHeight < 2 * r.value.screenCenter.y + 2
      // cartesian_range is half the extent, counted in cells
      && r.value.cartesianRange.x * (2 * cellSize) as real == width as real
      && r.value.cartesianRange.y * (2 * cellSize) as real == (height + headerHeight) as real
  {
    if cellSize == 0 then None
    else
      var extent := height + headerHeight;
      Some(Grid(width, height, cellSize, headerHeight,
                Vec(width / 2, extent / 2),
                RVec(width as real / (cellSize * 2) as real, extent as real / (cellSize * 2) as real)))
  }

  /** g is a grid as Grid.__init__ builds it. */
  ghost predicate Valid(g: Grid) {
    NewGrid(g.width, g.height, g.cellSize, g.headerHeight) == Some(g)
  }

  /**
   * get_cartesian_coordinates, before rounding. Its contract is the independent
   * description of the mapping: measure from the exact middle of the window (header
   * included, since height + header_height is the window height), count in cells,
   * and point the y axis up.
   */
  function ToCartesian(g: Grid, p: RVec): (c: RVec)
    requires g.cellSize != 0
    ensures Valid(g) ==>
      && c.x == (p.x - g.width as real / 2.0) / g.cellSize as real
      && c.y == ((g.height + g.headerHeight) as real / 2.0 - p.y) / g.cellSize as real
  {
    var cell := g.cellSize as real;
    RVec(p.x / cell - g.cartesianRange.x,
         (g.height as real - p.y + g.headerHeight as real) / cell - g.cartesianRange.y)
  }

  /** The middle of the window maps to the Cartesian origin. */
  lemma CenterMapsToOrigin(g: Grid)
    requires Valid(g)
    ensures ToCartesian(g, RVec(g.width as real / 2.0, (g.height + g.headerHeight) as real / 2.0)) == RVec(0.0, 0.0)
  {
  }

  /** The integer screen_center, where the axes are drawn, is the origin only when the extent is even. */
  lemma ScreenCenterOffset(g: Grid)
    requires Valid(g)
    ensures var c := ToCartesian(g, AsReal(g.screenCenter));
      && c.x == (if g.width % 2 == 0 then 0.0 else -1.0 / (2 * g.cellSize) as real)
      && c.y == (if (g.height + g.headerHeight) % 2 == 0 then 0.0 else 1.0 / (2 * g.cellSize) as real)
  {
    var cell := g.cellSize as real;
    var w, e := g.width, g.height + g.headerHeight;
    assert w == 2 * g.screenCenter.x + w % 2;
    assert e == 2 * g.screenCenter.y + e % 2;
    assert w as real / 2.0 - g.screenCenter.x as real == (w % 2) as real / 2.0;
    assert e as real / 2.0 - g.screenCenter.y as real == (e % 2) as real / 2.0;
    var c := ToCartesian(g, AsReal(g.screenCenter));
    assert c.x == -((w % 2) as real / 2.0) / cell;
    assert c.y == ((e % 2) as real / 2.0) / cell;
    if w % 2 == 1 {
      assert -(1.0 / 2.0) / cell == -1.0 / (2 * g.cellSize) as real;
    }
    if e % 2 == 1 {
      assert (1.0 / 2.0) / cell == 1.0 / (2 * g.cellSize) as real;
    }
  }

  /** One cell to the right raises x by exactly 1; one cell down lowers y by exactly 1. */
  lemma OneCellStep(g: Grid, p: RVec)
    requires Valid(g)
    ensures ToCartesian(g, RVec(p.x + g.cellSize as real, p.y)) == RVec(ToCartesian(g, p).x + 1.0, ToCartesian(g, p).y)
    ensures ToCartesian(g, RVec(p.x, p.y + g.cellSize as real)) == RVec(ToCartesian(g, p).x, ToCartesian(g, p).y - 1.0)
  {
  }

  /** The top-left pixel maps to (-range x, +range y). */
  lemma TopLeftCorner(g: Grid)
    requires Valid(g)
    ensures ToCartesian(g, RVec(0.0, 0.0)) == RVec(-g.cartesianRange.x, g.cartesianRange.y)
  {
  }
}
