/**
 * The per-frame hover and select pass of Cartesian_plane.check_figures, shared by the
 * current plane and its older copy: the figure list it leaves behind, and which figure
 * ends up hovered.
 */
module Selection {
  import opened Wrappers
  import opened Geometry
  import opened Figures

  /** The index of the last figure, in list order, whose hover flag is set. */
  function LastHovered(figs: seq<Figure>): (r: Option<nat>)
    ensures r.Some? ==>
      && r.value < |figs| && figs[r.value].hovered
      && forall k :: r.value < k < |figs| ==> !figs[k].hovered
    ensures r.None? ==> forall k :: 0 <= k < |figs| ==> !figs[k].hovered
  {
    if figs == [] then None
    else if figs[|figs| - 1].hovered then Some(|figs| - 1)
    else LastHovered(figs[..|figs| - 1])
  }

  /** Extending the list by one figure: that figure wins if it is hovered. */
  lemma LastHoveredExtend(figs: seq<Figure>, f: Figure)
    ensures LastHovered(figs + [f]) == if f.hovered then Some(|figs|) else LastHovered(figs)
  {
    assert (figs + [f])[..|figs|] == figs;
  }

  /** A figure as the hover loop finds it: clear_figures_state has run on a press frame. */
  function Prepared(f: Figure, pressed: bool): (r: Figure)
    ensures r.selected == (f.selected && !pressed)
    ensures r.(selected := f.selected) == f
  {
    if pressed then SetState(f, false) else f
  }

  /** One turn of the hover loop: check_hover, then set_state(True) on a hovered press. */
  function Visit(f: Figure, mouse: Vec, pressed: bool): (r: Figure)
    ensures r.pos == f.pos && r.shape == CheckHover(f, mouse).shape
    ensures r.hovered == CheckHover(f, mouse).hovered
    ensures r.selected == (f.selected || (r.hovered && pressed))
  {
    var g := CheckHover(f, mouse);
    if g.hovered && pressed then SetState(g, true) else g
  }

  /** A hover-loop turn keeps the anchor, and a line's intercept, as they were. */
  lemma VisitKeepsLineConsistent(f: Figure, mouse: Vec, pressed: bool)
    requires LineConsistent(f)
    ensures LineConsistent(Visit(f, mouse, pressed)) && Visit(f, mouse, pressed).pos == f.pos
  {
  }

  /** The figure list after the clear and the hover loop of check_figures. */
  function Frame(figs: seq<Figure>, mouse: Vec, pressed: bool): (r: seq<Figure>)
    ensures |r| == |figs|
    ensures forall k :: 0 <= k < |figs| ==> r[k] == Visit(Prepared(figs[k], pressed), mouse, pressed)
  {
    seq(|figs|, k requires 0 <= k < |figs| => Visit(Prepared(figs[k], pressed), mouse, pressed))
  }

  /**
   * What a frame does to each figure: every figure is hit-tested; on a press frame the
   * selected figures are exactly the hovered ones (so several when figures overlap);
   * otherwise no selected flag changes; position, shape geometry and the line invariant
   * are kept.
   */
  lemma FrameFlags(figs: seq<Figure>, mouse: Vec, pressed: bool, k: nat)
    requires k < |figs|
    ensures var f, r := figs[k], Frame(figs, mouse, pressed)[k];
      && r.pos == f.pos
      && r.hovered == CheckHover(f, mouse).hovered
      && (pressed ==> r.selected == r.hovered)
      && (!pressed ==> r.selected == f.selected)
      && (LineConsistent(f) ==> LineConsistent(r))
  {
    var f := figs[k];
    var g := CheckHover(Prepared(f, pressed), mouse);
    assert Frame(figs, mouse, pressed)[k] == (if g.hovered && pressed then SetState(g, true) else g);
    if pressed {
      assert CheckHover(SetState(f, false), mouse).hovered == CheckHover(f, mouse).hovered;
    }
  }

  /**
   * Overlapping figures are all selected by one press: two rectangles at the same
   * place, clicked inside, both end up selected.
   */
  lemma OnePressSelectsBothOverlapping()
    ensures var figs := Frame([NewRectFigure(Vec(0, 0)), NewRectFigure(Vec(0, 0))], Vec(5, 5), true);
      figs[0].selected && figs[1].selected
  {
    var figs := Frame([NewRectFigure(Vec(0, 0)), NewRectFigure(Vec(0, 0))], Vec(5, 5), true);
    FrameFlags([NewRectFigure(Vec(0, 0)), NewRectFigure(Vec(0, 0))], Vec(5, 5), true, 0);
    FrameFlags([NewRectFigure(Vec(0, 0)), NewRectFigure(Vec(0, 0))], Vec(5, 5), true, 1);
  }

  /** The hover test of a frame is the same whether or not the button is pressed. */
  lemma HoverIgnoresPress(figs: seq<Figure>, mouse: Vec)
    ensures forall k :: 0 <= k < |figs| ==>
      Frame(figs, mouse, true)[k].hovered == Frame(figs, mouse, false)[k].hovered
    ensures LastHovered(Frame(figs, mouse, true)) == LastHovered(Frame(figs, mouse, false))
  {
    forall k | 0 <= k < |figs|
      ensures Frame(figs, mouse, true)[k].hovered == Frame(figs, mouse, false)[k].hovered
    {
      FrameFlags(figs, mouse, true, k);
      FrameFlags(figs, mouse, false, k);
    }
    LastHoveredDependsOnFlags(Frame(figs, mouse, true), Frame(figs, mouse, false));
  }

  /** LastHovered reads nothing but the hover flags. */
  lemma {:induction false} LastHoveredDependsOnFlags(a: seq<Figure>, b: seq<Figure>)
    requires |a| == |b|
    requires forall k :: 0 <= k < |a| ==> a[k].hovered == b[k].hovered
    ensures LastHovered(a) == LastHovered(b)
  {
    if a != [] {
      LastHoveredDependsOnFlags(a[..|a| - 1], b[..|b| - 1]);
    }
  }

  /** A press that hits nothing leaves every figure unselected. */
  lemma MissedPressClearsAllFlags(figs: seq<Figure>, mouse: Vec)
    requires LastHovered(Frame(figs, mouse, true)).None?
    ensures forall k :: 0 <= k < |figs| ==> !Frame(figs, mouse, true)[k].selected
  {
    forall k | 0 <= k < |figs| ensures !Frame(figs, mouse, true)[k].selected {
      FrameFlags(figs, mouse, true, k);
    }
  }
}
