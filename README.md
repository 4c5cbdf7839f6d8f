# CartesianPlayground interaction core in Dafny

CartesianPlayground is a pygame drawing playground. The user picks a mode in a header
toolbar ("line", "point", or the "intro" instructions panel) and places figures on a
Cartesian grid. Once placed, figures can be hovered, selected and dragged. This project
models the per-frame interaction state of that program and proves its rules:

- **Input state** (`Input`, user.py): the `User` object folds one frame's event queue
  into:
  - the list of held keys, which never holds a duplicate;
  - the mouse-button flags;
  - the pointer position, motion flag and delta.

  The queue is a parameter. `ProcessEvents` is proved equal to the fold `Run`, and the
  lemmas about `Run` state the event-loop rules.
- **Header toolbar** (`Toolbar`, pygame/interface/header.py): the `Header` class with its
  button list and `selected_button`. The loop of `check_buttons` is proved against
  `CheckButtonsSpec`, a loop-free statement of what it does. Lemmas about that function
  cover:
  - mutually exclusive modes;
  - the early return on "intro";
  - the toolbar invariant.
- **Figures** (`Figures`, figures.py): rectangles, points and lines form one tagged union,
  and each in-place update is a function from the old figure to the new one. This
  covers:
  - hit-testing;
  - `move` by target or by delta;
  - the line's anchor-and-slope geometry;
  - the line's `setting_slope` / `initialized` sub-state.

  The line's hover test compares squared distances. A lemma shows that this is the
  distance from the pointer to the nearest point of the line.
- **Selection rules** (`Selection`): what one frame of `check_figures` does to the figure
  list, as a function shared by the current plane and its older copy.
- **Cartesian plane** (`Plane`, interface/cartesian_plane.py; `LegacyPlane`,
  classes.py): the figure list is a `seq` field. The selected and hovered figures are
  indices into it; figures are never removed, so an index stays valid. The methods
  are proved against `Frame` and `LastHovered`.
- **Grid** (`GridMapping`, grid.py): the fields the grid constructor derives, and the
  pixel-to-Cartesian mapping over reals.

`Geometry` holds pixel vectors and pygame's `Rect.collidepoint`, which is half-open on
the right and bottom edges. `Wrappers` holds `Option`.

### Quirks of the program the model keeps

The model does what the program does, including these behaviours a user may not expect:

- **Several figures can be selected at once.** A press flags every hovered figure as
  selected, although `selected_figure` can name only one of them. `Selection.OnePressSelectsBothOverlapping` shows two
  overlapping rectangles both selected by one click.
- **A press that hits nothing keeps `selected_figure`.** It keeps pointing at its old
  figure although that figure's flag is cleared. See `Plane.CartesianPlane.CheckFigures`
  and `Selection.MissedPressClearsAllFlags`.
- **A press on "intro" can return a name.** `check_buttons` returns `out` there, which is
  the name of an earlier button hit by the same press, if any, rather than "".
  Nothing stays selected, and the mode is "". See `Toolbar.IntroPressCanReturnEarlierName`.
- **The drag test ignores hover.** `check_movement` tests the bound method `check_hover`,
  which is always truthy. So during a press, only the motion flag matters.
- **Mouse-button indexing follows Python.** `mouse_buttons[b-1]` indexes from the end
  for `b-1` in -3..-1. Only button numbers whose index is out of range, such as the
  wheel's 4 and 5, raise. The model accepts exactly the indexable ones.

## Model

| member | source | states |
|---|---|---|
| Geometry.Contains | figures.py:39-44 | `Rect.collidepoint`: inside when left <= x < left + width and top <= y < top + height |
| Geometry.Translate | figures.py:47-48 | `Rect.move_ip`: same size, and a point is inside the moved rect exactly when it was inside the old one before the shift |
| Geometry.MoveTopLeft | figures.py:49-50 | setting `rect.x, rect.y`: same size with the top-left corner at the target, which is inside exactly when the rect is non-empty |
| GridMapping.NewGrid | grid.py:8-16 | fails exactly when `cell_size` is 0; `screen_center` is the floor of half the width and of half `height + header_height`; `cartesian_range` times twice the cell size gives back the extent |
| GridMapping.ToCartesian | grid.py:57-61 | before rounding, grid coordinates are pixel offsets from the exact middle of the window, counted in cells, with y pointing up; total over all pixels |
| GridMapping.CenterMapsToOrigin | grid.py:57-61 | pixel (width/2, (height+header_height)/2) maps to (0, 0) |
| GridMapping.ScreenCenterOffset | grid.py:13 | the integer `screen_center` maps to the origin only for even extents, and is otherwise half a pixel off (1/(2·cell size) grid units) |
| GridMapping.OneCellStep | grid.py:57-61 | `cell_size` pixels right raises x by exactly 1; `cell_size` pixels down lowers y by exactly 1 |
| GridMapping.TopLeftCorner | grid.py:57-61 | pixel (0, 0) maps to (-range x, +range y) |
| Figures.NewRectFigure | figures.py:8-28 | a new Figure is unselected and unhovered, and its rect holds exactly the 10x10 pixels from its position |
| Figures.NewPoint | figures.py:72-87 | a new Point has radius 4, the rect its first draw returns, and no flags set |
| Figures.NewLine | figures.py:105-134 | a new Line has slope 0, `setting_slope` on, `initialized` off, no anchor circle yet, and its anchor on the line |
| Figures.SlopeThrough | figures.py:136-140 | `set_slope(end)` is vertical exactly when `end.x == pos.x`; otherwise slope times the x difference is the y difference |
| Figures.Intercept | figures.py:142-143 | `set_b` gives a finite intercept exactly for a finite slope, and then the anchor is on the line |
| Figures.SlopeThroughBothPoints | figures.py:136-143 | after `set_slope(end)` and `set_b`, both the anchor and `end` are on the line |
| Figures.Foot | figures.py:176-178 | the foot of the perpendicular from the pointer lies on the line |
| Figures.FootDistance | figures.py:176-178 | (1 + m²) times the squared distance to the foot is the squared numerator of `distance_to_line` |
| Figures.FootIsNearest | figures.py:176-178 | no point of the line is closer to the pointer than the foot |
| Figures.WithinProximity | figures.py:176-185 | the hover test of a line, `distance_to_line < proximity_range`, compared in squares; never true for a vertical line or one with no intercept |
| Figures.ProximityMeansNearestPointClose | figures.py:176-185 | the squared hover test holds exactly when the nearest point of the line is within `proximity_range` |
| Figures.CheckHover | figures.py:180-194 | Line.check_hover, and for rects and points Figure.check_hover (figures.py lines 39-44): `is_hovered` becomes rect containment and nothing else changes. Lines: `initialized` becomes `initialized or selected`; hover means within 4 px; `setting_slope` changes only while hovered with a known anchor circle, and then is off exactly when the pointer is on that circle of an initialized line (on otherwise) |
| Figures.SetState | figures.py:52-53 | only `selected` changes, to the given value |
| Figures.MovedAnchor | figures.py:90-94 | `Point.move`: the target replaces `pos`, or `pos` shifts by the delta |
| Figures.Move | figures.py:150-161 | Line.move, with Figure.move and Point.move (figures.py lines 46-50 and 90-94): a rectangle moves its rect, never `pos`; a point moves `pos`, never its rect; a line in slope mode keeps `pos` and turns through the target, otherwise keeps its slope and moves `pos`; the intercept is always recomputed, so the anchor stays on the line |
| Figures.MoveByAndBack | figures.py:90-94 | with Figure.move (figures.py lines 46-50): moving a rectangle or point by d and then by -d restores it |
| Figures.LineHoverExample | figures.py:176-194 | a line of slope 1 through the origin is hovered from (10, 11) and not from (10, 20) |
| Figures.DragPointExample | figures.py:90-94 | a point at (100, 100) dragged by (5, -3) ends at (105, 97) |
| Figures.Redrawn | figures.py:163-174 | Line.draw, and Point.draw at figures.py lines 96-101: a draw call changes only a point's rect and a hovered line's anchor circle, to the box the renderer returned |
| Selection.LastHovered | interface/cartesian_plane.py:96-99 | the last figure in list order that is hovered, or None when no figure is |
| Selection.LastHoveredExtend | interface/cartesian_plane.py:97-99 | one more figure wins exactly when it is hovered |
| Selection.Prepared | interface/cartesian_plane.py:93-94 | a figure as the hover loop meets it: on a press frame `clear_figures_state` has turned its `selected` flag off; nothing else about it changes |
| Selection.Visit | interface/cartesian_plane.py:97-102 | one loop turn: the figure's position and shape are as `check_hover` leaves them, and it is selected when it was or when it is hovered during a press |
| Selection.VisitKeepsLineConsistent | interface/cartesian_plane.py:97-102 | a loop turn keeps the anchor, and keeps each line's intercept matching its anchor and slope |
| Selection.Frame | interface/cartesian_plane.py:93-102 | after the frame's clear and loop, each figure is its hover-tested, press-flagged version |
| Selection.FrameFlags | interface/cartesian_plane.py:93-102 | on a press, the selected figures are exactly the hovered ones; without a press, no selected flag changes; positions and the line invariant are kept |
| Selection.OnePressSelectsBothOverlapping | interface/cartesian_plane.py:97-102 | two overlapping rectangles are both selected by one click |
| Selection.HoverIgnoresPress | interface/cartesian_plane.py:97-99 | which figures are hovered, and the last one, do not depend on the press |
| Selection.LastHoveredDependsOnFlags | interface/cartesian_plane.py:96-99 | the hovered-figure choice reads only the hover flags |
| Selection.MissedPressClearsAllFlags | interface/cartesian_plane.py:93-102 | a press that hits nothing leaves every figure unselected |
| Plane.Created | interface/cartesian_plane.py:51-71 | a figure is created exactly for "figure", "point" or "line", of that kind, at the pointer, unselected and unhovered; it is the constructor's figure: `NewRectFigure`, `NewPoint` or `NewLine` (so a new line is horizontal, defining its slope and not yet initialized) |
| Plane.Appended | interface/cartesian_plane.py:51-71 | the list after `self.figures.append(...)`: the old figures kept as a prefix, followed by the created figure when there is one, and one longer exactly then |
| Plane.MoveChoice | interface/cartesian_plane.py:42-45 | `move(pos=...)` exactly when a target is given, else `move(rel=...)` with the delta |
| Plane.CartesianPlane.constructor | interface/cartesian_plane.py:14-28 | a grid of 20-pixel cells below the header, no figures, nothing selected or hovered |
| Plane.CartesianPlane.MoveFigure | interface/cartesian_plane.py:41-45 | moves only the selected figure, by `move(pos=...)` when a target is given and by `move(rel=...)` otherwise |
| Plane.CartesianPlane.ClearFiguresState | interface/cartesian_plane.py:47-49 | every figure becomes unselected and nothing else changes |
| Plane.CartesianPlane.NewFigure | interface/cartesian_plane.py:51-71 | appends exactly the created figure, or nothing for any other string; existing figures are untouched |
| Plane.CartesianPlane.CheckMovement | interface/cartesian_plane.py:73-82 | false with no selection; true on a press with motion; the incoming value on a press without motion; false on release |
| Plane.CartesianPlane.CheckFigures | interface/cartesian_plane.py:84-102 | a drag changes nothing; otherwise the figures are `Frame` of the old ones, `hovered_figure` is the last hovered, and `selected_figure` is None on release, the last hovered on a press that hits, and unchanged on a press that misses; references stay in the list |
| Plane.CartesianPlane.HoverLoop | interface/cartesian_plane.py:96-102 | the loop visits every figure once, in order, and leaves the last hovered as hovered and, on a press, as selected |
| Plane.CartesianPlane.HoverStep | interface/cartesian_plane.py:97-102 | one turn: hover-test the figure, and on a press select a hovered one |
| LegacyPlane.LegacyCreated | classes.py:145-159 | the older plane creates only rectangles and points: the current plane's result, with "line" ignored |
| LegacyPlane.LegacyLineMove | classes.py:92-96 | the older `Line.move` replaces `pos` with a given target or adds the delta componentwise |
| LegacyPlane.LegacyLineMoveByAndBack | classes.py:92-96 | moving the older line by d and by -d restores it |
| LegacyPlane.LegacyLineMoveToIdempotent | classes.py:92-96 | moving the older line to the same target twice is moving it once |
| LegacyPlane.CartesianPlane.constructor | classes.py:109-122 | the same grid as the current plane, no figures, nothing selected |
| LegacyPlane.CartesianPlane.MoveFigure | classes.py:135-139 | moves only the selected figure, by target or by delta; the list never holds a line |
| LegacyPlane.CartesianPlane.ClearFiguresState | classes.py:141-143 | every figure becomes unselected and nothing else changes |
| LegacyPlane.CartesianPlane.NewFigure | classes.py:145-159 | appends a rectangle or a point; "line" and every other string change nothing |
| LegacyPlane.CartesianPlane.CheckMovement | classes.py:161-170 | the same four-way result as the current plane |
| LegacyPlane.CartesianPlane.CheckFigures | classes.py:172-187 | a drag changes nothing; a release drops the selection; on a press, every hovered figure is flagged and the last becomes `selected_figure`, which is kept when nothing is hit |
| LegacyPlane.CartesianPlane.HoverLoop | classes.py:184-187 | the older loop leaves each figure visited and, on a press, the last hovered selected |
| LegacyPlane.CartesianPlane.HoverStep | classes.py:185-187 | one turn of the older loop |
| Toolbar.NewButton | pygame/interface/header.py:9-28 | a new button is unselected and unhovered, with its rect at `pos` of the given size |
| Toolbar.ButtonCheckHover | pygame/interface/header.py:30-34 | `is_hovered` becomes rect containment of the pointer, and nothing else changes |
| Toolbar.ButtonSetState | pygame/interface/header.py:36-37 | only `selected` changes |
| Toolbar.Buttons | pygame/interface/header.py:71-73 | one new button per dictionary entry, in order |
| Toolbar.ClearAll | pygame/interface/header.py:98-100 | every button is unselected and nothing else changes |
| Toolbar.LastHitBefore | pygame/interface/header.py:105-116 | the last button before a position whose rect holds the pointer |
| Toolbar.FirstIntroFrom | pygame/interface/header.py:105-113 | the first "intro" button under the pointer, where the loop returns |
| Toolbar.CheckButtonsSpec | pygame/interface/header.py:103-118 | the loop-free outcome of `check_buttons`: buttons hover-tested up to the first pressed "intro", selection moved to the last hit on a press, mode and result; its properties are the lemmas below |
| Toolbar.CheckButtonsKeepsConsistent | pygame/interface/header.py:98-118 | `check_buttons` keeps the invariant: unique names, at most one selected button, `selected_button` names it, and a non-empty mode has a selected button |
| Toolbar.CheckButtonsKeepsLayout | pygame/interface/header.py:103-118 | names and rects never change |
| Toolbar.NoPressKeepsSelection | pygame/interface/header.py:103-118 | without a press, no selected flag and no mode change, every button is hover-tested, and "" is returned |
| Toolbar.PressSelectsLastHit | pygame/interface/header.py:105-118 | a press with no "intro" hit makes the last hit button the only selected one and both the mode and the result; a press that hits nothing changes no selection |
| Toolbar.IntroPressClearsSelection | pygame/interface/header.py:105-113 | a press on "intro" clears every button and the mode and deploys the panel; later buttons are not hover-tested; the result is the last name hit before it, or "" |
| Toolbar.IntroPressCanReturnEarlierName | pygame/interface/header.py:108-116 | with "line" overlapping "intro" and listed first, a press in the overlap returns "line" while nothing stays selected |
| Toolbar.ModeToggleExample | pygame/interface/header.py:103-118 | on the default toolbar, pressing "point" then "line" leaves only "line" selected and makes it the mode |
| Toolbar.Header.constructor | pygame/interface/header.py:59-74 | one unselected button per layout entry, and no mode |
| Toolbar.Header.ClearButtonsState | pygame/interface/header.py:98-101 | every button unselected and `selected_button` ""; the invariant then holds exactly when the names are distinct |
| Toolbar.Header.CheckButtons | pygame/interface/header.py:103-118 | ends exactly as `CheckButtonsSpec` states and keeps the invariant |
| Toolbar.Header.ScanButtons | pygame/interface/header.py:105-118 | the loop, with its early return, ends exactly as `CheckButtonsSpec` states |
| Toolbar.Header.ScanButton | pygame/interface/header.py:106-116 | one turn of the loop: hover-test the button, and on a press clear all, then stop at "intro" or select the button |
| Toolbar.Header.IsMouseInside | pygame/interface/header.py:120-123 | true while the instructions panel is alive; otherwise true exactly above the header's bottom edge |
| Toolbar.ScanTurnStops | pygame/interface/header.py:108-113 | a loop turn returns early exactly when the button is "intro", under the pointer, and pressed |
| Toolbar.Scanned | pygame/interface/header.py:105-116 | the toolbar after the loop's first i turns without a pressed "intro": those buttons hover-tested, and on a press the last button hit so far the only selected one, the mode and `out`; the button count is kept |
| Toolbar.ScanTurn | pygame/interface/header.py:106-116 | one loop turn: hover-test the button; on a press that hits it, clear all buttons, then stop on "intro" keeping `out`, or select it and make its name the mode and `out`; the button count is kept |
| Toolbar.ScanStep | pygame/interface/header.py:106-116 | one loop turn on a button other than a pressed "intro" takes the prefix state to the next one |
| Toolbar.IntroScanResult | pygame/interface/header.py:109-113 | the early return on "intro" leaves the state `CheckButtonsSpec` describes |
| Toolbar.ScanResult | pygame/interface/header.py:105-118 | a loop that runs to the end leaves the state `CheckButtonsSpec` describes |
| Input.Initial | user.py:4-10 | no keys, not pressed, pointer at (0, 0), no motion, zero delta, buttons [0, 0, 0] |
| Input.FirstIndex | user.py:39-40 | the position `list.remove` finds: an occurrence of the key with none before it |
| Input.RemoveFirst | user.py:39-40 | `list.remove` drops the first occurrence of the key and keeps the other keys in order: one shorter, the same multiset less that key |
| Input.RemoveFirstDistinct | user.py:39-40 | in a duplicate-free list, removing a key removes it entirely, keeps every other key, and keeps the list duplicate-free |
| Input.KeyHandled | user.py:34-40 | KEYDOWN keeps every held key and makes the key held, growing the list only when it was absent; KEYUP of a held key removes its first occurrence and keeps the other keys in order, and KEYUP of a key that is not held changes nothing |
| Input.KeyHandledKeepsDistinct | user.py:34-40 | KEYDOWN adds an absent key, KEYUP removes a present one, either is a no-op otherwise, and the list stays duplicate-free |
| Input.KeyDownUpRoundTrip | user.py:34-40 | pressing and releasing a key that is up restores the list |
| Input.RemoveLastAppended | user.py:36-40 | removing the key just appended to a list without it gives the list back |
| Input.ButtonSlot | user.py:46-49 | the slot `mouse_buttons[b-1]` reaches, counting negative indices from the end |
| Input.MouseButtonHandled | user.py:42-51 | sets the pressed flag on DOWN and clears it on UP; writes 1 or 0 into the button's slot only; sets the position |
| Input.Step | user.py:18-27 | after one non-QUIT event, motion is on exactly for a motion event, and the delta is that event's or zero; key events apply `KeyHandled` and no other event touches the key list, which stays duplicate-free; a button event sets the pressed flag (on for MOUSEBUTTONDOWN), writes 1 or 0 to its one slot and moves the pointer to the event's position; other events keep the pressed flag and the slots, and only motion and button events move the pointer |
| Input.Run | user.py:12-29 | the fold of `process_events` over the queue, stopping at the first QUIT with False; its properties are the lemmas below |
| Input.RunKeepsButtonCount | user.py:42-51 | `mouse_buttons` keeps three entries |
| Input.RunningIffNoQuit | user.py:14-29 | `process_events` returns False exactly when the queue holds a QUIT event |
| Input.QuitStopsProcessing | user.py:15-17 | events after a QUIT are not processed |
| Input.RunKeepsKeysDistinct | user.py:35-40 | `keys_pressed` never gains a duplicate over a whole queue |
| Input.LastPressed | user.py:42-51 | the pressed flag the last button event of a queue leaves, looked up from the end of the queue, or the old flag when the queue has no button event |
| Input.RunPressedFollowsLastButtonEvent | user.py:12-29 | after a queue without QUIT, `mouse_button_pressed` is on exactly when the last button event was MOUSEBUTTONDOWN, and is unchanged when there was none |
| Input.MotionTracksLastEvent | user.py:23-27 | after a queue that does not quit, `mouse_motion` tells whether the last event was a motion event, and `mouse_rel` is its delta or (0, 0) |
| Input.User.constructor | user.py:4-10 | the fields equal `Initial` |
| Input.User.HandleKeyEvent | user.py:34-40 | the key list changes as `KeyHandled` says, and nothing else changes |
| Input.User.HandleMouseButtonEvent | user.py:42-51 | the state changes as `MouseButtonHandled` says, writing one array slot |
| Input.User.HandleMouseMotion | user.py:53-56 | motion on, with the event's position and delta |
| Input.User.HandleEvent | user.py:18-27 | one pass of the event loop on a non-QUIT event changes the fields exactly as `Step` says |
| Input.User.ProcessEvents | user.py:12-29 | the new fields and the result are exactly `Run` of the old state over the queue |

## Left out

- Rendering is not modelled: every `draw` method, `Grid.draw_grid`, `Header.draw`, and the text of `get_hovered_text`. The bounding boxes a draw call returns (a point's rect, a line's anchor circle) are inputs, given to `Figures.NewPoint` and `Figures.Redrawn`.
- `Header.deploy_intro` and `text_intro.alive()` are pygame_gui widgets, and the `print("intro")` console output of `check_buttons` is not modelled. Deploying is reported as the `introDeployed` result, and liveness is a boolean parameter of `IsMouseInside`.
- `Grid.get_game_coordinates` is not modelled, because it cannot run as written. It compares whole arrays with `>` and calls `.floor()` on an array. So no pixel-to-Cartesian round trip is claimed.
- Figures.SlopeThrough, Figures.Intercept, Figures.SlopeThroughBothPoints, Figures.WithinProximity: the line arithmetic is exact over reals, while the source computes slope, intercept and distance in float64. So in the source the anchor and the target lie on the line, and the 4-pixel hover boundary is decided, only up to rounding (with anchor (0, 0) and target (49, 1), float64 gives (1/49)·49 = 0.9999999999999999, so the target misses the line by one unit in the last place).
- GridMapping.ToCartesian: the two-decimal `round` of the result is not modelled; the mapping is exact over reals.
- Figures.CheckHover: a vertical line (NumPy's infinite slope) gets no intercept and is never hovered. The source computes a NaN distance there, which compares false. The square root of `distance_to_line` is avoided by comparing squares.
- Neither plane class calls `Figures.Redrawn`, because drawing is not modelled. So inside the classes a point's rect stays its creation box, a line's anchor circle stays unknown, and a line's `setting_slope` stays on, so moving a selected line always turns it through the target instead of dragging it.
- Line.set_coords and the `coords` segment are used only by drawing, so they are not modelled.
- Plane.CartesianPlane.MoveFigure: `move(rel=...)` on a line that is still setting its slope is excluded by a precondition. The source raises a TypeError there (it reads `None[0]`).
- Plane.CartesianPlane.MoveFigure and LegacyPlane.CartesianPlane.MoveFigure require at least one of `pos` and `rel`, and a selection. The source fails without them, and its caller checks the selection.
- Figure references are indices into the list. Python object identity and aliasing are not modelled. This is sound because figures are never removed.
- The older `Line` constructor in classes.py cannot complete: its draw reads a `radius` the class never sets. Only its `move` is modelled, and the older plane never creates a line.
- `oldLine` in classes.py is unused legacy code and is not modelled.
- `User.handle_quit` calls `pygame.quit`. Its call is not modelled; a QUIT only ends processing.
- `pygame.event.get()` is replaced by the event queue parameter of `ProcessEvents`.
- Input.ButtonIndexable: button events whose `b-1` is outside -3..2 raise IndexError in the source (the wheel's buttons 4 and 5, for example). They are excluded by precondition.
- The `Header` constructor requires distinct names, as the keys of a dictionary are. The button size is a parameter: its default comes from a configuration constant that is not part of this model.
- Not modelled: app.py's main loop, the camera and face-detection code, and the camera thread. They are rendering, foreign calls and threads, not the interaction state.
