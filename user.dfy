/**
 * The input state User keeps between frames: the keys held down (no duplicates), the
 * mouse-button flags, and the pointer's position, motion and delta, folded from the
 * frame's event queue. The queue is a parameter instead of pygame.event.get().
 */
module Input {
  import opened Geometry

  /** The pygame events process_events distinguishes; every other type is OtherEvent. */
  datatype Event =
    | Quit
    | KeyDown(key: int)
    | KeyUp(key: int)
    | MouseButtonDown(button: int, pos: Vec)
    | MouseButtonUp(button: int, pos: Vec)
    | MouseMotion(pos: Vec, rel: Vec)
    | OtherEvent

  /** The fields of a User, with mouse_buttons as a sequence of its three entries. */
  datatype InputState = InputState(
    keysPressed: seq<int>,
    mouseButtonPressed: bool,
    mousePos: Vec,
    mouseMotion: bool,
    mouseRel: Vec,
    mouseButtons: seq<int>)

  /** The state User.__init__ sets up. */
  function Initial(): (s: InputState)
    ensures s.keysPressed == [] && !s.mouseButtonPressed && !s.mouseMotion
    ensures s.mousePos == Vec(0, 0) && s.mouseRel == Vec(0, 0) && s.mouseButtons == [0, 0, 0]
  {
    InputState([], false, Vec(0, 0), false, Vec(0, 0), [0, 0, 0])
  }

  predicate NoDuplicates(s: seq<int>) {
    forall i, j :: 0 <= i < j < |s| ==> s[i] != s[j]
  }

  // ---------------------------------------------------------------- keys

  /** The index of the first occurrence of x, the one list.remove(x) deletes. */
  function FirstIndex(s: seq<int>, x: int): (i: nat)
    requires x in s
    ensures i < |s| && s[i] == x
    ensures forall k :: 0 <= k < i ==> s[k] != x
  {
    if s[0] == x then 0 else 1 + FirstIndex(s[1..], x)
  }

  /** Dropping index i takes out one copy of s[i] and nothing else. */
  lemma DropAtMultiset(s: seq<int>, i: nat)
    requires i < |s|
    ensures multiset(s[..i] + s[i + 1..]) == multiset(s) - multiset{s[i]}
  {
    assert s == s[..i] + [s[i]] + s[i + 1..];
  }

  /** In a duplicate-free list, dropping index i removes s[i] entirely, keeps the rest, and stays duplicate-free. */
  lemma DropAtDistinct(s: seq<int>, i: nat)
    requires i < |s| && NoDuplicates(s)
    ensures NoDuplicates(s[..i] + s[i + 1..])
    ensures forall y :: y in s[..i] + s[i + 1..] <==> y in s && y != s[i]
  {
    var r := s[..i] + s[i + 1..];
    assert forall k :: 0 <= k < |r| ==> r[k] == if k < i then s[k] else s[k + 1];
    forall y ensures y in r <==> y in s && y != s[i] {
      if y in r {
        var k :| 0 <= k < |r| && r[k] == y;
        assert s[if k < i then k else k + 1] == y;
      }
      if y in s && y != s[i] {
        var m :| 0 <= m < |s| && s[m] == y;
        assert r[if m < i then m else m - 1] == y;
      }
    }
  }

  /** list.remove(x): drops the first occurrence of x and keeps the other keys in order. */
  function RemoveFirst(s: seq<int>, x: int): (r: seq<int>)
    requires x in s
    ensures |r| == |s| - 1
    ensures multiset(r) == multiset(s) - multiset{x}
    ensures exists i :: 0 <= i < |s| && s[i] == x && x !in s[..i] && r == s[..i] + s[i + 1..]
  {
    var i := FirstIndex(s, x);
    DropAtMultiset(s, i);
    assert x !in s[..i];
    s[..i] + s[i + 1..]
  }

  /** Removing a key from a duplicate-free list removes it entirely and keeps the rest. */
  lemma RemoveFirstDistinct(s: seq<int>, x: int)
    requires x in s && NoDuplicates(s)
    ensures NoDuplicates(RemoveFirst(s, x))
    ensures forall y :: y in RemoveFirst(s, x) <==> y in s && y != x
  {
    DropAtDistinct(s, FirstIndex(s, x));
  }

  /** handle_key_event on the key list: KEYDOWN appends an absent key, KEYUP removes a present one. */
  function KeyHandled(keys: seq<int>, e: Event): (r: seq<int>)
    requires e.KeyDown? || e.KeyUp?
    ensures e.KeyDown? ==> keys <= r && e.key in r && |r| == (if e.key in keys then |keys| else |keys| + 1)
    ensures e.KeyUp? ==> multiset(r) == multiset(keys) - multiset{e.key}
    ensures e.KeyUp? && e.key !in keys ==> r == keys
    ensures e.KeyUp? && e.key in keys ==>
      exists i :: 0 <= i < |keys| && keys[i] == e.key && e.key !in keys[..i] && r == keys[..i] + keys[i + 1..]
  {
    match e
    case KeyDown(k) => if k in keys then keys else keys + [k]
    case KeyUp(k) => if k in keys then RemoveFirst(keys, k) else keys
  }

  /** The held keys are a duplicate-free list: the set of keys down, in press order. */
  lemma KeyHandledKeepsDistinct(keys: seq<int>, e: Event)
    requires e.KeyDown? || e.KeyUp?
    ensures NoDuplicates(keys) ==> NoDuplicates(KeyHandled(keys, e))
    ensures e.KeyDown? ==> (forall y :: y in KeyHandled(keys, e) <==> y in keys || y == e.key)
    ensures e.KeyUp? && NoDuplicates(keys) ==> (forall y :: y in KeyHandled(keys, e) <==> y in keys && y != e.key)
  {
    if e.KeyUp? && e.key in keys && NoDuplicates(keys) {
      RemoveFirstDistinct(keys, e.key);
    }
  }

  /** Pressing a key that is up and releasing it leaves the list as it was. */
  lemma KeyDownUpRoundTrip(keys: seq<int>, k: int)
    requires k !in keys
    ensures KeyHandled(KeyHandled(keys, KeyDown(k)), KeyUp(k)) == keys
  {
    RemoveLastAppended(keys, k);
  }

  lemma {:induction false} RemoveLastAppended(keys: seq<int>, k: int)
    requires k !in keys
    ensures RemoveFirst(keys + [k], k) == keys
  {
    if keys != [] {
      assert (keys + [k])[1..] == keys[1..] + [k];
      RemoveLastAppended(keys[1..], k);
    }
  }

  // ---------------------------------------------------------------- mouse

  /** pygame numbers mouse buttons from 1; index button - 1 is taken Python's way. */
  predicate ButtonIndexable(button: int) {
    -3 <= button - 1 < 3
  }

  /** The slot of mouse_buttons that index button - 1 reaches, negative indices counting from the end. */
  function ButtonSlot(button: int): (i: nat)
    requires ButtonIndexable(button)
    ensures i < 3
    ensures 1 <= button ==> i == button - 1
    ensures button < 1 ==> i == button + 2
  {
    if button - 1 < 0 then button - 1 + 3 else button - 1
  }

  /** An event process_events can take without raising: button events index mouse_buttons. */
  predicate Handleable(e: Event) {
    (e.MouseButtonDown? || e.MouseButtonUp?) ==> ButtonIndexable(e.button)
  }

  /** handle_mouse_button_event: the pressed flag, the button's slot, and the position. */
  function MouseButtonHandled(s: InputState, e: Event): (r: InputState)
    requires e.MouseButtonDown? || e.MouseButtonUp?
    requires ButtonIndexable(e.button) && |s.mouseButtons| == 3
    ensures r.mouseButtonPressed == e.MouseButtonDown? && r.mousePos == e.pos
    ensures |r.mouseButtons| == 3
    ensures r.mouseButtons[ButtonSlot(e.button)] == (if e.MouseButtonDown? then 1 else 0)
    ensures forall j :: 0 <= j < 3 && j != ButtonSlot(e.button) ==> r.mouseButtons[j] == s.mouseButtons[j]
    ensures r.(mouseButtonPressed := s.mouseButtonPressed, mousePos := s.mousePos,
               mouseButtons := s.mouseButtons) == s
  {
    var slot := ButtonSlot(e.button);
    if e.MouseButtonDown? then
      s.(mouseButtonPressed := true, mouseButtons := s.mouseButtons[slot := 1], mousePos := e.pos)
    else
      s.(mouseButtonPressed := false, mouseButtons := s.mouseButtons[slot := 0], mousePos := e.pos)
  }

  // ---------------------------------------------------------------- the event loop

  /**
   * One non-QUIT event of process_events: the handler for its type, then, for every
   * event that is not MOUSEMOTION, motion off and a zero delta.
   */
  function Step(s: InputState, e: Event): (r: InputState)
    requires !e.Quit? && Handleable(e) && |s.mouseButtons| == 3
    ensures |r.mouseButtons| == 3
    ensures r.mouseMotion <==> e.MouseMotion?
    ensures r.mouseRel == (if e.MouseMotion? then e.rel else Vec(0, 0))
    ensures e.MouseMotion? ==> r.mousePos == e.pos
    ensures !(e.KeyDown? || e.KeyUp?) ==> r.keysPressed == s.keysPressed
    ensures e.KeyDown? || e.KeyUp? ==> r.keysPressed == KeyHandled(s.keysPressed, e)
    ensures NoDuplicates(s.keysPressed) ==> NoDuplicates(r.keysPressed)
    ensures e.MouseButtonDown? || e.MouseButtonUp? ==>
      && r.mouseButtonPressed == e.MouseButtonDown? && r.mousePos == e.pos
      && r.mouseButtons == s.mouseButtons[ButtonSlot(e.button) := if e.MouseButtonDown? then 1 else 0]
    ensures !(e.MouseButtonDown? || e.MouseButtonUp?) ==>
      r.mouseButtonPressed == s.mouseButtonPressed && r.mouseButtons == s.mouseButtons
    ensures !(e.MouseButtonDown? || e.MouseButtonUp? || e.MouseMotion?) ==> r.mousePos == s.mousePos
  {
    match e
    case KeyDown(_) =>
      KeyHandledKeepsDistinct(s.keysPressed, e);
      s.(keysPressed := KeyHandled(s.keysPressed, e), mouseMotion := false, mouseRel := Vec(0, 0))
    case KeyUp(_) =>
      KeyHandledKeepsDistinct(s.keysPressed, e);
      s.(keysPressed := KeyHandled(s.keysPressed, e), mouseMotion := false, mouseRel := Vec(0, 0))
    case MouseButtonDown(_, _) =>
      MouseButtonHandled(s, e).(mouseMotion := false, mouseRel := Vec(0, 0))
    case MouseButtonUp(_, _) =>
      MouseButtonHandled(s, e).(mouseMotion := false, mouseRel := Vec(0, 0))
    case MouseMotion(p, rel) =>
      s.(mouseMotion := true, mousePos := p, mouseRel := rel)
    case OtherEvent =>
      s.(mouseMotion := false, mouseRel := Vec(0, 0))
  }

  /** The events process_events reaches (those up to the first QUIT) can all be handled. */
  predicate Processable(es: seq<Event>) {
    forall i :: 0 <= i < |es| && (forall j :: 0 <= j < i ==> !es[j].Quit?) ==> Handleable(es[i])
  }

  /** process_events over an event queue: the new state and whether the application keeps running. */
  function Run(s: InputState, es: seq<Event>): (InputState, bool)
    requires Processable(es) && |s.mouseButtons| == 3
    decreases |es|
  {
    if es == [] then (s, true)
    else if es[0].Quit? then (s, false)
    else
      assert Handleable(es[0]);
      Run(Step(s, es[0]), es[1..])
  }

  /** Run keeps mouse_buttons three entries long. */
  lemma {:induction false} RunKeepsButtonCount(s: InputState, es: seq<Event>)
    requires Processable(es) && |s.mouseButtons| == 3
    ensures |Run(s, es).0.mouseButtons| == 3
    decreases |es|
  {
    if es != [] && !es[0].Quit? {
      RunKeepsButtonCount(Step(s, es[0]), es[1..]);
    }
  }

  /** process_events returns False exactly when the queue holds a QUIT event. */
  lemma {:induction false} RunningIffNoQuit(s: InputState, es: seq<Event>)
    requires Processable(es) && |s.mouseButtons| == 3
    ensures Run(s, es).1 <==> forall i :: 0 <= i < |es| ==> !es[i].Quit?
    decreases |es|
  {
    if es != [] && !es[0].Quit? {
      RunningIffNoQuit(Step(s, es[0]), es[1..]);
      assert forall i :: 1 <= i < |es| ==> es[i] == es[1..][i - 1];
    }
  }

  /** A QUIT event ends the loop: the events after it are not processed. */
  lemma {:induction false} QuitStopsProcessing(s: InputState, pre: seq<Event>, post: seq<Event>)
    requires forall i :: 0 <= i < |pre| ==> !pre[i].Quit? && Handleable(pre[i])
    requires |s.mouseButtons| == 3
    ensures Processable(pre) && Processable(pre + [Quit] + post)
    ensures Run(s, pre + [Quit] + post) == (Run(s, pre).0, false)
    decreases |pre|
  {
    var es := pre + [Quit] + post;
    assert es[|pre|] == Quit;
    if pre != [] {
      assert es[1..] == pre[1..] + [Quit] + post;
      QuitStopsProcessing(Step(s, pre[0]), pre[1..], post);
    } else {
      assert es[0] == Quit;
    }
  }

  /** The held-keys list never gains a duplicate. */
  lemma {:induction false} RunKeepsKeysDistinct(s: InputState, es: seq<Event>)
    requires Processable(es) && |s.mouseButtons| == 3
    requires NoDuplicates(s.keysPressed)
    ensures NoDuplicates(Run(s, es).0.keysPressed)
    decreases |es|
  {
    if es != [] && !es[0].Quit? {
      RunKeepsKeysDistinct(Step(s, es[0]), es[1..]);
    }
  }

  /**
   * After a queue that does not quit, mouse_motion tells whether the last event was a
   * motion event, and mouse_rel is that event's delta or (0, 0).
   */
  lemma {:induction false} MotionTracksLastEvent(s: InputState, es: seq<Event>)
    requires Processable(es) && |s.mouseButtons| == 3
    requires es != [] && Run(s, es).1
    ensures var last := es[|es| - 1];
      && (Run(s, es).0.mouseMotion <==> last.MouseMotion?)
      && Run(s, es).0.mouseRel == (if last.MouseMotion? then last.rel else Vec(0, 0))
    decreases |es|
  {
    if |es| > 1 {
      assert es[1..][|es[1..]| - 1] == es[|es| - 1];
      MotionTracksLastEvent(Step(s, es[0]), es[1..]);
    }
  }

  /** The pressed flag set by the last button event of es, or pressed if es holds none. */
  function LastPressed(pressed: bool, es: seq<Event>): (r: bool)
    ensures (forall i :: 0 <= i < |es| ==> !(es[i].MouseButtonDown? || es[i].MouseButtonUp?)) ==> r == pressed
    decreases |es|
  {
    if es == [] then pressed
    else
      var last := es[|es| - 1];
      if last.MouseButtonDown? || last.MouseButtonUp? then last.MouseButtonDown?
      else LastPressed(pressed, es[..|es| - 1])
  }

  /** Looking at the first event before the rest: it only matters when the rest holds no button event. */
  lemma {:induction false} LastPressedCons(pressed: bool, e: Event, es: seq<Event>)
    ensures LastPressed(pressed, [e] + es) ==
      LastPressed(if e.MouseButtonDown? || e.MouseButtonUp? then e.MouseButtonDown? else pressed, es)
    decreases |es|
  {
    if es != [] {
      assert ([e] + es)[..|[e] + es| - 1] == [e] + es[..|es| - 1];
      LastPressedCons(pressed, e, es[..|es| - 1]);
    }
  }

  /**
   * After a queue without QUIT, mouse_button_pressed is true exactly when the last button
   * event was MOUSEBUTTONDOWN, and keeps its old value when the queue has no button event.
   */
  lemma {:induction false} RunPressedFollowsLastButtonEvent(s: InputState, es: seq<Event>)
    requires Processable(es) && |s.mouseButtons| == 3
    requires forall i :: 0 <= i < |es| ==> !es[i].Quit?
    ensures Run(s, es).0.mouseButtonPressed == LastPressed(s.mouseButtonPressed, es)
    decreases |es|
  {
    if es != [] {
      assert es == [es[0]] + es[1..];
      LastPressedCons(s.mouseButtonPressed, es[0], es[1..]);
      RunPressedFollowsLastButtonEvent(Step(s, es[0]), es[1..]);
    }
  }

  // ---------------------------------------------------------------- the User object

  class User {
    var keysPressed: seq<int>
    var mouseButtonPressed: bool
    var mousePos: Vec
    var mouseMotion: bool
    var mouseRel: Vec
    /** Left, middle and right button flags. */
    const mouseButtons: array<int>

    ghost predicate Valid()
      reads this
    {
      mouseButtons.Length == 3
    }

    /** The object's fields as an InputState value. */
    function State(): InputState
      reads this, mouseButtons
    {
      InputState(keysPressed, mouseButtonPressed, mousePos, mouseMotion, mouseRel, mouseButtons[..])
    }

    /** User(): nothing held, the pointer at (0, 0) and still. */
    constructor()
      ensures Valid() && fresh(mouseButtons)
      ensures State() == Initial()
    {
      keysPressed := [];
      mouseButtonPressed := false;
      mousePos := Vec(0, 0);
      mouseMotion := false;
      mouseRel := Vec(0, 0);
      mouseButtons := new int[3](_ => 0);
      new;
      assert mouseButtons[..] == [0, 0, 0];
    }

    /** handle_key_event(event). */
    method HandleKeyEvent(e: Event)
      requires e.KeyDown? || e.KeyUp?
      modifies this
      ensures keysPressed == KeyHandled(old(keysPressed), e)
      ensures mouseButtonPressed == old(mouseButtonPressed) && mousePos == old(mousePos)
      ensures mouseMotion == old(mouseMotion) && mouseRel == old(mouseRel)
    {
      if e.KeyDown? {
        if e.key !in keysPressed {
          keysPressed := keysPressed + [e.key];
        }
      } else if e.key in keysPressed {
        keysPressed := RemoveFirst(keysPressed, e.key);
      }
    }

    /** handle_mouse_button_event(event). */
    method HandleMouseButtonEvent(e: Event)
      requires Valid()
      requires e.MouseButtonDown? || e.MouseButtonUp?
      requires ButtonIndexable(e.button)
      modifies this, mouseButtons
      ensures State() == MouseButtonHandled(old(State()), e)
    {
      if e.MouseButtonDown? {
        mouseButtonPressed := true;
        mouseButtons[ButtonSlot(e.button)] := 1;
      } else {
        mouseButtonPressed := false;
        mouseButtons[ButtonSlot(e.button)] := 0;
      }
      mousePos := e.pos;
    }

    /** handle_mouse_motion(event). */
    method HandleMouseMotion(e: Event)
      requires e.MouseMotion?
      modifies this
      ensures mouseMotion && mousePos == e.pos && mouseRel == e.rel
      ensures keysPressed == old(keysPressed) && mouseButtonPressed == old(mouseButtonPressed)
    {
      mouseMotion := true;
      mousePos := e.pos;
      mouseRel := e.rel;
    }

    /** One pass of the loop in process_events, for an event that is not QUIT. */
    method HandleEvent(e: Event)
      requires Valid() && !e.Quit? && Handleable(e)
      modifies this, mouseButtons
      ensures Valid()
      ensures State() == Step(old(State()), e)
    {
      if e.KeyDown? || e.KeyUp? {
        HandleKeyEvent(e);
      } else if e.MouseButtonDown? || e.MouseButtonUp? {
        HandleMouseButtonEvent(e);
      }
      if e.MouseMotion? {
        HandleMouseMotion(e);
      } else {
        mouseMotion := false;
        mouseRel := Vec(0, 0);
      }
    }

    /**
     * process_events(), over the given queue: the fields end as Run says, and the result
     * is False exactly when a QUIT event was met.
     */
    method ProcessEvents(events: seq<Event>) returns (running: bool)
      requires Valid() && Processable(events)
      modifies this, mouseButtons
      ensures Valid()
      ensures (State(), running) == Run(old(State()), events)
    {
      var i := 0;
      while i < |events|
        invariant 0 <= i <= |events|
        invariant Processable(events[i..])
        invariant Run(old(State()), events) == Run(State(), events[i..])
      {
        var e := events[i];
        assert events[i..][0] == e && events[i..][1..] == events[i + 1..];
        if e.Quit? {
          return false;
        }
        HandleEvent(e);
        i := i + 1;
      }
      return true;
    }
  }
}
