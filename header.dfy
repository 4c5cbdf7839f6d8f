/**
 * The header toolbar: a row of named mode buttons above the plane. A press on a hovered
 * button makes it the only selected one and records its name as the active mode; the
 * reserved "intro" button instead clears every button and opens the instructions panel.
 * The buttons dictionary is a sequence in insertion order, keyed by each button's text.
 */
module Toolbar {
  import opened Wrappers
  import opened Geometry

  /** The name of the button that opens the instructions panel. */
  const INTRO: string := "intro"

  /** The default buttons dictionary of Header.__init__, in insertion order. */
  const DEFAULT_LAYOUT: seq<(string, Vec)> := [("line", Vec(400, 2)), ("point", Vec(500, 2)), (INTRO, Vec(300, 2))]

  /** A Button: its text, its rect, and the selected / is_hovered flags. */
  datatype Button = Button(text: string, rect: Rect, selected: bool, hovered: bool)

  /** Button(text, pos, ...): unselected, unhovered, a rect of the given size at pos. */
  function NewButton(text: string, pos: Vec, size: Vec): (b: Button)
    ensures b.text == text && !b.selected && !b.hovered
    ensures b.rect.left == pos.x && b.rect.top == pos.y
    ensures b.rect.width == size.x && b.rect.height == size.y
  {
    Button(text, Rect(pos.x, pos.y, size.x, size.y), false, false)
  }

  /** Button.check_hover: is_hovered becomes rect containment of the pointer; nothing else changes. */
  function ButtonCheckHover(b: Button, mouse: Vec): (r: Button)
    ensures r.hovered <==> Contains(b.rect, mouse)
    ensures r.(hovered := b.hovered) == b
  {
    b.(hovered := Contains(b.rect, mouse))
  }

  /** Button.set_state(value): only the selected flag changes. */
  function ButtonSetState(b: Button, value: bool): (r: Button)
    ensures r.selected == value
    ensures r.(selected := b.selected) == b
  {
    b.(selected := value)
  }

  // ---------------------------------------------------------------- header state

  /** Dictionary keys are unique: no two buttons share a name. */
  ghost predicate DistinctNames(bs: seq<Button>) {
    forall i, j :: 0 <= i < j < |bs| ==> bs[i].text != bs[j].text
  }

  ghost predicate AtMostOneSelected(bs: seq<Button>) {
    forall i, j :: 0 <= i < |bs| && 0 <= j < |bs| && bs[i].selected && bs[j].selected ==> i == j
  }

  /**
   * The toolbar's invariant: unique names, at most one selected button, selected_button
   * names the selected button, and a non-empty selected_button has a selected button.
   */
  ghost predicate Consistent(bs: seq<Button>, selectedButton: string) {
    && DistinctNames(bs)
    && AtMostOneSelected(bs)
    && (forall i :: 0 <= i < |bs| && bs[i].selected ==> bs[i].text == selectedButton)
    && (selectedButton != "" ==> exists i :: 0 <= i < |bs| && bs[i].selected)
  }

  /** The buttons built from a layout of (name, position) pairs. */
  function Buttons(layout: seq<(string, Vec)>, size: Vec): (bs: seq<Button>)
    ensures |bs| == |layout|
    ensures forall k :: 0 <= k < |layout| ==> bs[k] == NewButton(layout[k].0, layout[k].1, size)
  {
    seq(|layout|, k requires 0 <= k < |layout| => NewButton(layout[k].0, layout[k].1, size))
  }

  /** clear_buttons_state on the button list: every button unselected. */
  function ClearAll(bs: seq<Button>): (r: seq<Button>)
    ensures |r| == |bs|
    ensures forall k :: 0 <= k < |bs| ==> r[k] == ButtonSetState(bs[k], false)
  {
    seq(|bs|, k requires 0 <= k < |bs| => ButtonSetState(bs[k], false))
  }

  // ---------------------------------------------------------------- check_buttons, declaratively

  predicate Hit(b: Button, mouse: Vec) {
    Contains(b.rect, mouse)
  }

  predicate IntroHit(b: Button, mouse: Vec) {
    b.text == INTRO && Hit(b, mouse)
  }

  /** The last button before index n whose rect holds the pointer. */
  function LastHitBefore(bs: seq<Button>, mouse: Vec, n: nat): (r: Option<nat>)
    requires n <= |bs|
    ensures r.Some? ==>
      && r.value < n && Hit(bs[r.value], mouse)
      && forall k :: r.value < k < n ==> !Hit(bs[k], mouse)
    ensures r.None? ==> forall k :: 0 <= k < n ==> !Hit(bs[k], mouse)
  {
    if n == 0 then None
    else if Hit(bs[n - 1], mouse) then Some(n - 1)
    else LastHitBefore(bs, mouse, n - 1)
  }

  /** The first "intro" button, from index i on, whose rect holds the pointer. */
  function FirstIntroFrom(bs: seq<Button>, mouse: Vec, i: nat): (r: Option<nat>)
    requires i <= |bs|
    ensures r.Some? ==>
      && i <= r.value < |bs| && IntroHit(bs[r.value], mouse)
      && forall k :: i <= k < r.value ==> !IntroHit(bs[k], mouse)
    ensures r.None? ==> forall k :: i <= k < |bs| ==> !IntroHit(bs[k], mouse)
    decreases |bs| - i
  {
    if i == |bs| then None
    else if IntroHit(bs[i], mouse) then Some(i)
    else FirstIntroFrom(bs, mouse, i + 1)
  }

  /** The button name a search found, or "" when it found none. */
  function NameOf(bs: seq<Button>, k: Option<nat>): string
    requires k.Some? ==> k.value < |bs|
  {
    if k.Some? then bs[k.value].text else ""
  }

  /** What check_buttons leaves behind: the buttons, selected_button, and its two results. */
  datatype Outcome = Outcome(buttons: seq<Button>, selectedButton: string, out: string, introDeployed: bool)

  /**
   * check_buttons(user), stated without its loop. A press on an "intro" button under the
   * pointer stops the scan there: every button is cleared, the panel is deployed, and the
   * result is the name of the last button hit before it, if any. Otherwise, on a press,
   * the last button hit is the only selected one and its name is both the mode and the
   * result. Without a press, or with a press that hits nothing, no selected flag changes.
   * Every button the scan reaches is hover-tested.
   */
  function CheckButtonsSpec(bs: seq<Button>, selectedButton: string, mouse: Vec, pressed: bool): Outcome {
    var intro := if pressed then FirstIntroFrom(bs, mouse, 0) else None;
    var reach := if intro.Some? then intro.value + 1 else |bs|;
    var winner := if pressed && intro.None? then LastHitBefore(bs, mouse, |bs|) else None;
    var cleared := pressed && LastHitBefore(bs, mouse, |bs|).Some?;
    var buttons := seq(|bs|, k requires 0 <= k < |bs| =>
      Button(bs[k].text, bs[k].rect,
             if cleared then winner == Some(k) else bs[k].selected,
             if k < reach then Hit(bs[k], mouse) else bs[k].hovered));
    if intro.Some? then
      Outcome(buttons, "", NameOf(bs, LastHitBefore(bs, mouse, intro.value)), true)
    else if winner.Some? then
      Outcome(buttons, bs[winner.value].text, bs[winner.value].text, false)
    else
      Outcome(buttons, selectedButton, "", false)
  }

  // ---------------------------------------------------------------- properties of check_buttons

  /** check_buttons keeps the toolbar invariant, in every case. */
  lemma CheckButtonsKeepsConsistent(bs: seq<Button>, selectedButton: string, mouse: Vec, pressed: bool)
    requires Consistent(bs, selectedButton)
    ensures var o := CheckButtonsSpec(bs, selectedButton, mouse, pressed);
      Consistent(o.buttons, o.selectedButton)
  {
    var o := CheckButtonsSpec(bs, selectedButton, mouse, pressed);
    var intro := if pressed then FirstIntroFrom(bs, mouse, 0) else None;
    var winner := if pressed && intro.None? then LastHitBefore(bs, mouse, |bs|) else None;
    if winner.Some? {
      assert o.buttons[winner.value].selected;
    } else if o.selectedButton != "" {
      var i :| 0 <= i < |bs| && bs[i].selected;
      assert o.buttons[i].selected;
    }
  }

  /** check_buttons only rewrites flags: names and rects stay as they were. */
  lemma CheckButtonsKeepsLayout(bs: seq<Button>, selectedButton: string, mouse: Vec, pressed: bool)
    ensures var o := CheckButtonsSpec(bs, selectedButton, mouse, pressed);
      && |o.buttons| == |bs|
      && forall k :: 0 <= k < |bs| ==> o.buttons[k].text == bs[k].text && o.buttons[k].rect == bs[k].rect
  {
  }

  /** Without a press no selected flag and no mode changes, every button is hover-tested, and "" is returned. */
  lemma NoPressKeepsSelection(bs: seq<Button>, selectedButton: string, mouse: Vec)
    ensures var o := CheckButtonsSpec(bs, selectedButton, mouse, false);
      && o.selectedButton == selectedButton && o.out == "" && !o.introDeployed
      && forall k :: 0 <= k < |bs| ==>
           o.buttons[k].selected == bs[k].selected && (o.buttons[k].hovered <==> Hit(bs[k], mouse))
  {
  }

  /**
   * A press with no "intro" button under the pointer: if some button is hit, the last
   * one hit is the only selected button and its name is the mode and the result;
   * otherwise nothing changes but the hover flags.
   */
  lemma PressSelectsLastHit(bs: seq<Button>, selectedButton: string, mouse: Vec)
    requires forall k :: 0 <= k < |bs| ==> !IntroHit(bs[k], mouse)
    ensures var o := CheckButtonsSpec(bs, selectedButton, mouse, true);
      && !o.introDeployed
      && (forall k :: 0 <= k < |bs| ==> (o.buttons[k].hovered <==> Hit(bs[k], mouse)))
      && match LastHitBefore(bs, mouse, |bs|)
         case Some(w) =>
           && (forall k :: 0 <= k < |bs| ==> (o.buttons[k].selected <==> k == w))
           && o.selectedButton == o.out == bs[w].text
           && forall k :: w < k < |bs| ==> !Hit(bs[k], mouse)
         case None =>
           && (forall k :: 0 <= k < |bs| ==> o.buttons[k].selected == bs[k].selected)
           && o.selectedButton == selectedButton && o.out == ""
  {
    assert FirstIntroFrom(bs, mouse, 0).None?;
  }

  /**
   * A press on the first "intro" button under the pointer clears every button and the
   * mode and deploys the panel; the buttons after it are not hover-tested this frame.
   */
  lemma IntroPressClearsSelection(bs: seq<Button>, selectedButton: string, mouse: Vec, j: nat)
    requires j < |bs| && IntroHit(bs[j], mouse)
    requires forall k :: 0 <= k < j ==> !IntroHit(bs[k], mouse)
    ensures var o := CheckButtonsSpec(bs, selectedButton, mouse, true);
      && o.introDeployed && o.selectedButton == ""
      && (forall k :: 0 <= k < |bs| ==> !o.buttons[k].selected)
      && (forall k :: 0 <= k <= j ==> (o.buttons[k].hovered <==> Hit(bs[k], mouse)))
      && (forall k :: j < k < |bs| ==> o.buttons[k].hovered == bs[k].hovered)
      && o.out == NameOf(bs, LastHitBefore(bs, mouse, j))
  {
    var intro := FirstIntroFrom(bs, mouse, 0);
    assert intro == Some(j);
    assert LastHitBefore(bs, mouse, |bs|).Some? by {
      assert Hit(bs[j], mouse);
    }
  }

  /**
   * The result of a press on "intro" is not always "": with the "line" button overlapping
   * "intro" and listed first, a press in the overlap returns "line" while no button stays
   * selected and the mode is "".
   */
  lemma IntroPressCanReturnEarlierName()
    ensures var bs := Buttons([("line", Vec(400, 2)), (INTRO, Vec(300, 2))], Vec(104, 36));
      var o := CheckButtonsSpec(bs, "", Vec(401, 10), true);
      && o.introDeployed && o.selectedButton == "" && o.out == "line"
      && !o.buttons[0].selected && !o.buttons[1].selected
  {
    var bs := Buttons([("line", Vec(400, 2)), (INTRO, Vec(300, 2))], Vec(104, 36));
    assert bs[0].text == "line" && bs[1].text == INTRO;
    assert !IntroHit(bs[0], Vec(401, 10)) by {
      assert bs[0].text != INTRO by {
        assert bs[0].text[0] == 'l' && INTRO[0] == 'i';
      }
    }
    IntroPressClearsSelection(bs, "", Vec(401, 10), 1);
  }

  /**
   * Mode toggle on the default toolbar with a 40-pixel header (buttons 104 by 36 pixels): a press on "point"
   * then a press on "line" leaves "line" the only selected button and the mode.
   */
  lemma ModeToggleExample()
    ensures var bs := Buttons(DEFAULT_LAYOUT, Vec(104, 36));
      var first := CheckButtonsSpec(bs, "", Vec(550, 10), true);
      var second := CheckButtonsSpec(first.buttons, first.selectedButton, Vec(450, 10), true);
      && first.selectedButton == "point"
      && second.selectedButton == "line" && second.out == "line"
      && second.buttons[0].selected && !second.buttons[1].selected && !second.buttons[2].selected
  {
    var bs := Buttons(DEFAULT_LAYOUT, Vec(104, 36));
    assert bs[0].text == "line" && bs[1].text == "point" && bs[2].text == INTRO;
    assert !Hit(bs[0], Vec(550, 10)) && Hit(bs[1], Vec(550, 10)) && !Hit(bs[2], Vec(550, 10));
    PressSelectsLastHit(bs, "", Vec(550, 10));
    assert LastHitBefore(bs, Vec(550, 10), 3) == Some(1);
    var first := CheckButtonsSpec(bs, "", Vec(550, 10), true);
    CheckButtonsKeepsLayout(bs, "", Vec(550, 10), true);
    var cs := first.buttons;
    assert Hit(cs[0], Vec(450, 10)) && !Hit(cs[1], Vec(450, 10)) && !Hit(cs[2], Vec(450, 10));
    PressSelectsLastHit(cs, first.selectedButton, Vec(450, 10));
    assert LastHitBefore(cs, Vec(450, 10), 3) == Some(0);
  }

  // ---------------------------------------------------------------- the Header object

  class Header {
    const height: int
    var buttons: seq<Button>
    var selectedButton: string

    ghost predicate Valid()
      reads this
    {
      Consistent(buttons, selectedButton)
    }

    /**
     * Header(height, ..., buttons): one unselected, unhovered button per entry of the
     * layout, in order, and no mode. The instructions panel it deploys is not modelled.
     */
    constructor(height: int, layout: seq<(string, Vec)>, size: Vec)
      requires forall i, j :: 0 <= i < j < |layout| ==> layout[i].0 != layout[j].0
      ensures Valid()
      ensures this.height == height && buttons == Buttons(layout, size) && selectedButton == ""
    {
      this.height := height;
      buttons := Buttons(layout, size);
      selectedButton := "";
    }

    /** clear_buttons_state: every button unselected and no mode. */
    method ClearButtonsState()
      modifies this
      ensures buttons == ClearAll(old(buttons)) && selectedButton == ""
      ensures Valid() <==> DistinctNames(old(buttons))
    {
      var i := 0;
      while i < |buttons|
        invariant 0 <= i <= |buttons| == |old(buttons)|
        invariant forall k :: 0 <= k < i ==> buttons[k] == ButtonSetState(old(buttons)[k], false)
        invariant forall k :: i <= k < |buttons| ==> buttons[k] == old(buttons)[k]
      {
        buttons := buttons[i := ButtonSetState(buttons[i], false)];
        i := i + 1;
      }
      selectedButton := "";
    }

    /**
     * check_buttons(user): scans the buttons in order, hover-testing each, and ends as
     * CheckButtonsSpec states; introDeployed reports the call to deploy_intro. The
     * toolbar invariant holds again afterwards.
     */
    method CheckButtons(mouse: Vec, pressed: bool) returns (out: string, introDeployed: bool)
      requires Valid()
      modifies this
      ensures Valid()
      ensures Outcome(buttons, selectedButton, out, introDeployed)
        == CheckButtonsSpec(old(buttons), old(selectedButton), mouse, pressed)
    {
      out, introDeployed := ScanButtons(mouse, pressed);
      CheckButtonsKeepsConsistent(old(buttons), old(selectedButton), mouse, pressed);
    }

    /** The loop of check_buttons, with its early return on a pressed "intro" button. */
    method ScanButtons(mouse: Vec, pressed: bool) returns (out: string, introDeployed: bool)
      modifies this
      ensures Outcome(buttons, selectedButton, out, introDeployed)
        == CheckButtonsSpec(old(buttons), old(selectedButton), mouse, pressed)
    {
      ghost var bs := buttons;
      ghost var sel := selectedButton;
      out := "";
      introDeployed := false;
      var i := 0;
      while i < |buttons|
        invariant 0 <= i <= |buttons| == |bs|
        invariant pressed ==> forall k :: 0 <= k < i ==> !IntroHit(bs[k], mouse)
        invariant Outcome(buttons, selectedButton, out, false) == Scanned(bs, sel, mouse, pressed, i)
      {
        ScanTurnStops(bs, sel, mouse, pressed, i);
        var stop;
        out, stop := ScanButton(i, mouse, pressed, out);
        if stop {
          introDeployed := true;
          IntroScanResult(bs, sel, mouse, i);
          return;
        }
        ScanStep(bs, sel, mouse, pressed, i);
        i := i + 1;
      }
      ScanResult(bs, sel, mouse, pressed);
    }

    /**
     * One turn of the loop of check_buttons, on button i: hover-test it and, when it is
     * hit by a press, clear every button, then either stop (the "intro" button: stop is
     * the early return) or select it and make its name the mode and the result.
     */
    method ScanButton(i: nat, mouse: Vec, pressed: bool, out0: string) returns (out: string, stop: bool)
      requires i < |buttons|
      modifies this
      ensures Outcome(buttons, selectedButton, out, stop)
        == ScanTurn(Outcome(old(buttons), old(selectedButton), out0, false), i, mouse, pressed)
    {
      out := out0;
      stop := false;
      var v := ButtonCheckHover(buttons[i], mouse);
      buttons := buttons[i := v];
      if v.hovered && pressed {
        ClearButtonsState();
        if v.text == INTRO {
          stop := true;
          return;
        }
        buttons := buttons[i := ButtonSetState(buttons[i], true)];
        selectedButton := v.text;
        out := v.text;
      }
    }

    /** is_mouse_inside(mouse_pos): the open instructions panel captures the pointer everywhere. */
    function IsMouseInside(mouse: Vec, introAlive: bool): (r: bool)
      reads this
      ensures introAlive ==> r
      ensures !introAlive ==> (r <==> mouse.y < height)
    {
      introAlive || mouse.y < height
    }
  }

  // ---------------------------------------------------------------- the loop of check_buttons

  /**
   * The state after check_buttons has scanned the first i buttons without meeting a
   * pressed "intro" button: those i are hover-tested and, on a press, the last one hit
   * so far is the only selected button and the mode.
   */
  function Scanned(bs: seq<Button>, sel: string, mouse: Vec, pressed: bool, i: nat): (o: Outcome)
    requires i <= |bs|
    ensures |o.buttons| == |bs|
  {
    var w := if pressed then LastHitBefore(bs, mouse, i) else None;
    var buttons := seq(|bs|, k requires 0 <= k < |bs| =>
      Button(bs[k].text, bs[k].rect,
             if w.Some? then k == w.value else bs[k].selected,
             if k < i then Hit(bs[k], mouse) else bs[k].hovered));
    Outcome(buttons, if w.Some? then bs[w.value].text else sel, if w.Some? then bs[w.value].text else "", false)
  }

  /**
   * One turn of the loop of check_buttons, on the state o and button i: hover-test the
   * button; when a press hits it, clear every button and the mode, then either stop on
   * "intro" (introDeployed) or select the button and make its name the mode and the result.
   */
  function ScanTurn(o: Outcome, i: nat, mouse: Vec, pressed: bool): (r: Outcome)
    requires i < |o.buttons|
    ensures |r.buttons| == |o.buttons|
  {
    var b := o.buttons[i := ButtonCheckHover(o.buttons[i], mouse)];
    if pressed && Hit(o.buttons[i], mouse) then
      if o.buttons[i].text == INTRO then Outcome(ClearAll(b), "", o.out, true)
      else
        var c := ClearAll(b);
        Outcome(c[i := ButtonSetState(c[i], true)], o.buttons[i].text, o.buttons[i].text, false)
    else
      Outcome(b, o.selectedButton, o.out, false)
  }

  /** A turn of the loop stops exactly on a pressed "intro" button under the pointer. */
  lemma ScanTurnStops(bs: seq<Button>, sel: string, mouse: Vec, pressed: bool, i: nat)
    requires i < |bs|
    ensures ScanTurn(Scanned(bs, sel, mouse, pressed, i), i, mouse, pressed).introDeployed
      <==> pressed && IntroHit(bs[i], mouse)
  {
    var o := Scanned(bs, sel, mouse, pressed, i);
    assert o.buttons[i].text == bs[i].text && o.buttons[i].rect == bs[i].rect;
  }

  /** One turn of the loop on a button that is not a pressed "intro" takes the state after i buttons to the state after i + 1. */
  lemma ScanStep(bs: seq<Button>, sel: string, mouse: Vec, pressed: bool, i: nat)
    requires i < |bs|
    requires pressed ==> !IntroHit(bs[i], mouse)
    ensures ScanTurn(Scanned(bs, sel, mouse, pressed, i), i, mouse, pressed) == Scanned(bs, sel, mouse, pressed, i + 1)
  {
    var p, q := Scanned(bs, sel, mouse, pressed, i), Scanned(bs, sel, mouse, pressed, i + 1);
    var t := ScanTurn(p, i, mouse, pressed);
    assert forall k :: 0 <= k < |bs| ==> t.buttons[k] == q.buttons[k];
  }

  /** The early return of check_buttons on a pressed "intro" button leaves the state CheckButtonsSpec describes. */
  lemma IntroScanResult(bs: seq<Button>, sel: string, mouse: Vec, i: nat)
    requires i < |bs| && IntroHit(bs[i], mouse)
    requires forall k :: 0 <= k < i ==> !IntroHit(bs[k], mouse)
    ensures ScanTurn(Scanned(bs, sel, mouse, true, i), i, mouse, true) == CheckButtonsSpec(bs, sel, mouse, true)
  {
    var t := ScanTurn(Scanned(bs, sel, mouse, true, i), i, mouse, true);
    var o := CheckButtonsSpec(bs, sel, mouse, true);
    IntroPressClearsSelection(bs, sel, mouse, i);
    forall k | 0 <= k < |bs|
      ensures t.buttons[k] == o.buttons[k]
    {
      assert t.buttons[k] == Button(bs[k].text, bs[k].rect, false, if k <= i then Hit(bs[k], mouse) else bs[k].hovered);
    }
    assert t.buttons == o.buttons;
  }

  /** A scan that runs to the end of the buttons leaves the state CheckButtonsSpec describes. */
  lemma ScanResult(bs: seq<Button>, sel: string, mouse: Vec, pressed: bool)
    requires pressed ==> forall k :: 0 <= k < |bs| ==> !IntroHit(bs[k], mouse)
    ensures Scanned(bs, sel, mouse, pressed, |bs|) == CheckButtonsSpec(bs, sel, mouse, pressed)
  {
    var p := Scanned(bs, sel, mouse, pressed, |bs|);
    var o := CheckButtonsSpec(bs, sel, mouse, pressed);
    if pressed {
      assert FirstIntroFrom(bs, mouse, 0).None?;
    }
    assert forall k :: 0 <= k < |bs| ==> p.buttons[k] == o.buttons[k];
  }
}
