# Circle board: a Dafny model

The BitvaPowerPoint page (`bitva/src/App.js`) lets a user add circles to a
slide. The user clicks circles to select them, drags the selection, and deletes
it with Backspace. Inside the React component is a small state machine over two
values: the ordered list of circle records `{id, size, x, y}` and the set of
selected ids. This project takes that state machine out as pure Dafny functions
and proves what each transition does.

- `shapes.dfy` (`Shapes`) defines the data: `Circle`, `Slide` (the measured
  width and height, whole pixels), `State` (circles and selection) and `Draw`
  (a random number in [0, 1)). It also defines the board invariants:
  `Consistent` (unique ids, selection inside the board) and `AllFit` (every
  circle inside the slide).
- `selection.dfy` (`Selection`) models the click toggle.
- `placement.dfy` (`Placement`) models adding a circle: a diameter from 5% to
  20% of the width, a random corner, and the clock reading as id.
- `removal.dfy` (`Removal`) models deleting the selection and the Backspace
  handler.
- `dragging.dfy` (`Dragging`) models the press/move/release gesture. It also
  has the clamped move of every selected circle to `pointer - offset`.
- `component.dfy` (`Component`) combines the transitions into the corrected
  event machine. Additions go through `AddFresh`, and Backspace filters the
  current list. The module proves that this machine keeps the invariants after
  any sequence of events from mounting. The page as written does not keep
  unique ids (see Findings). It does keep every selected id on the board, and
  `Listener` proves that part.
- `listener.dfy` (`Listener`) models the component as written where it
  differs from the corrected machine. The installed Backspace handler keeps an
  old copy of the circle list, and additions use the clock reading as id even
  when it is already taken (see Findings).

The model keeps three behaviours of the source exactly as written:

- Every selected circle is sent to the same point, `pointer - offset`. Only the
  clamp bound differs per circle, because it depends on the circle's own size.
- The new position does not depend on the old position.
- The selection that moves is the one captured when the mouse went down.

Coordinates are `real`. The slide size, the pointer, the pressed element's
corner, the clock reading and the random draws are all parameters.

## Model

| member | source | states |
|---|---|---|
| Selection.Toggle | bitva/src/App.js:45-55 | the clicked id is selected afterwards exactly when it was not before; every other id keeps its membership; the set grows or shrinks by one |
| Selection.ToggleTwice | bitva/src/App.js:46-54 | clicking the same circle twice restores the original selection |
| Selection.ToggleStaysOnBoard | bitva/src/App.js:45-55 | toggling the id of a circle on the board keeps the selection a subset of the board's ids |
| Placement.Scale | bitva/src/App.js:18-19 | `Math.random() * len` lies between 0 and `len` and never reaches `len`; for a negative length it lies in (len, 0] |
| Placement.NewCircle | bitva/src/App.js:13-20 | the new circle's diameter is in [5%, 20%] of the slide width (below 20% on a nonempty slide); its x keeps it inside horizontally; its y keeps it inside vertically when the diameter fits the height, and is at most 0 when it does not |
| Placement.Add | bitva/src/App.js:12-22 | exactly one circle is appended; earlier circles are unchanged; the selection is unchanged; the ids grow by the new id; the new circle fits the slide exactly when its diameter fits the height |
| Placement.AddKeepsWellformed | bitva/src/App.js:12-22 | adding a circle whose id is not in use keeps ids unique and the selection on the board; on a slide whose height is at least a fifth of its width, every circle stays inside |
| Placement.MaxId | bitva/src/App.js:16 | the result is at least every id on the list, so one past it is unused |
| Placement.FreshId | bitva/src/App.js:16 | the id chosen is not in use; it is the clock reading whenever that reading is not in use |
| Placement.AddFresh | bitva/src/App.js:12-22 | the same as the component's addition whenever the clock reading is new; it always keeps ids unique; it appends one circle and keeps the earlier ones |
| Placement.ClockCollision | bitva/src/App.js:16 | two additions that read the same millisecond produce two circles with the same id |
| Placement.FreshAvoidsCollision | bitva/src/App.js:16 | with fresh ids, the same two additions keep ids unique |
| Removal.Kept | bitva/src/App.js:26 | the filter is never longer than the list; no circle it returns has a selected id; a list on which no id is selected comes back unchanged |
| Removal.KeptAppend | bitva/src/App.js:26 | the filter of a concatenation is the concatenation of the filters, so the filter keeps the original relative order and duplicates |
| Removal.KeptSingleton | bitva/src/App.js:26 | a single circle is kept exactly when its id is unselected; with `KeptAppend` this determines the filter completely |
| Removal.KeptMembers | bitva/src/App.js:26 | a circle remains exactly when it was on the list and its id was not selected |
| Removal.KeptUnique | bitva/src/App.js:26 | filtering a list with unique ids leaves ids unique |
| Removal.UniqueCons | bitva/src/App.js:26 | a list with a circle in front has unique ids exactly when the tail has unique ids and does not contain the front id |
| Removal.CountBound | bitva/src/App.js:26 | every selected id present on the board removes at least one circle |
| Removal.DeleteSelected | bitva/src/App.js:25-28 | the selection is empty afterwards whatever it held; the remaining list is the filter `Kept`, so it holds exactly the unselected circles in their original order; no remaining id was selected |
| Removal.KeyDown | bitva/src/App.js:31-35 | a key other than Backspace changes nothing; Backspace acts exactly as delete-selected |
| Removal.DeleteKeepsWellformed | bitva/src/App.js:25-28 | deleting keeps ids unique, leaves no selected id dangling, and leaves every remaining circle inside the slide |
| Dragging.Clamp | bitva/src/App.js:76-77 | the result is never negative; it is at most the bound when the bound is nonnegative; a value inside [0, bound] is kept; values below 0 saturate at 0 and values above the bound saturate at the bound (or 0 if the bound is negative) |
| Dragging.ClampNearest | bitva/src/App.js:76-77 | on a nonempty range the clamped value is the point of [0, bound] nearest to the target |
| Dragging.ClampIdempotent | bitva/src/App.js:76-77 | clamping twice gives the same result as clamping once |
| Dragging.Place | bitva/src/App.js:71-78 | one moved circle keeps its id and size; its x and y are never negative and stay inside on each axis where its diameter fits; a target at which the circle fits is taken exactly |
| Dragging.MoveSelected | bitva/src/App.js:68-82 | length, order, ids and sizes are kept; unselected circles are returned unchanged; each selected circle's x and y are `pointer - offset` clamped into [0, width - size] and [0, height - size] |
| Dragging.MovedCirclesFit | bitva/src/App.js:71-77 | a moved circle never has a negative x or y, and it is inside the slide on each axis where its diameter fits |
| Dragging.MoveIdempotent | bitva/src/App.js:68-82 | a second move to the same pointer position changes nothing |
| Dragging.MoveForgetsPosition | bitva/src/App.js:71-77 | the result does not depend on where the selected circles were before |
| Dragging.MoveLockstep | bitva/src/App.js:70-77 | all selected circles go to the same target; two of equal size end at the same place; an unclamped one ends exactly at `pointer - offset` |
| Dragging.DragByDelta | bitva/src/App.js:58-77 | with the pointer and the pressed corner both in the slide's frame, a press at the grabbed selected circle's own corner followed by a move of the pointer by d moves that circle by d, saturating at the slide edges |
| Dragging.ViewportDragShifts | bitva/src/App.js:58-77 | as written, with the corner measured in the viewport and the viewport pointer stored as the position, a move by d puts the grabbed circle at its old corner plus the slide's viewport origin plus d, clamped |
| Dragging.ZeroMoveShiftsCircle | bitva/src/App.js:58-77 | on a slide 50 pixels below the viewport top, a press on a circle at y = 0 and a move by nothing store y = 50 |
| Dragging.SlideFrameDragByDelta | bitva/src/App.js:58-77 | taking the pointer into the slide's frame before subtracting the offset makes a move by d move the grabbed circle by d, clamped, wherever the slide sits |
| Dragging.MoveKeepsIds | bitva/src/App.js:68-82 | the board carries the same set of ids before and after a move |
| Dragging.MoveKeepsFit | bitva/src/App.js:71-77 | a move keeps every circle inside the slide when all circles were inside before |
| Dragging.MoveKeepsWellformed | bitva/src/App.js:68-82 | moving keeps the board's ids, so it keeps the board consistent and keeps every circle inside the slide |
| Dragging.Press | bitva/src/App.js:58-62 | a press starts a gesture whose offset plus the pressed element's corner is the pointer, and which captures the selection of that moment |
| Dragging.DragTo | bitva/src/App.js:64-83 | a move with no press under way changes nothing; during a press it moves the captured selection and never changes the current selection |
| Component.Click | bitva/src/App.js:100-114 | a click on a rendered circle toggles that circle's id and never changes the list; a click that reaches no circle changes nothing |
| Component.Step | bitva/src/App.js:12-114 | each event changes only what its handler sets: an addition appends one circle and keeps the rest, and equals `Placement.Add` when the clock reading is unused; a click keeps the list; a key other than Backspace changes nothing, and Backspace clears the selection and leaves the filter `Kept` of the current list, the unselected circles in order; a press keeps the board and captures the selection; a move keeps the selection and does nothing when no press is under way; a release keeps the board and ends the gesture |
| Component.StepKeepsWellformed | bitva/src/App.js:12-93 | every event keeps ids unique and the selection on the board; on a roomy slide every event keeps every circle inside it |
| Component.RunKeepsWellformed | bitva/src/App.js:12-93 | the same holds after any sequence of events |
| Component.MountedBoardStaysWellformed | bitva/src/App.js:5-9 | from mounting on, the board of the corrected machine is always consistent, and on a roomy slide every circle lies inside it |
| Component.AddsAppend | bitva/src/App.js:12-22 | N additions give N more circles appended after the unchanged earlier ones, with the selection unchanged |
| Component.BackspaceKeepsUnselected | bitva/src/App.js:25-35 | Backspace clears the selection and removes exactly the selected circles of the current board |
| Component.ReleaseEndsDrag | bitva/src/App.js:85-89 | after the mouse is released, pointer moves change nothing |
| Component.AddFortyAtHundred | bitva/src/App.js:13-20 | on a 400 by 300 slide the draws 1/3, 5/18 and 5/13 give a circle of diameter 40 at (100, 100) |
| Component.DragIntoCorner | bitva/src/App.js:58-89 | clicking that circle and dragging it from (120, 120) to (500, 500) selects it and stops it at (360, 260) |
| Component.AddSelectDragDelete | bitva/src/App.js:12-93 | the full walk of add, select, drag and Backspace ends with an empty board |
| Listener.StaleKeyDown | bitva/src/App.js:31-42 | the installed handler filters its own copy of the list by the current selection; it agrees with the intended handler when that copy is current |
| Listener.StaleStep | bitva/src/App.js:12-42 | an addition appends the circle `Placement.Add` builds with the clock reading as id; the component as written differs from the intended machine only on Backspace and on an addition whose clock reading is already in use, and agrees with it on Backspace too while the handler's copy is current; Backspace and clicks on circles re-install the handler with the current list, additions and moves do not |
| Listener.StaleStepKeepsSelectionOnBoard | bitva/src/App.js:12-114 | each event of the component as written keeps every selected id on the board |
| Listener.StaleRunKeepsSelectionOnBoard | bitva/src/App.js:5-114 | from a board whose selected ids are all on it, the component as written keeps it so after any sequence of events |
| Listener.SameMillisecondDuplicatesId | bitva/src/App.js:12-22 | two additions at the same clock reading leave the component as written with a duplicate id, while the intended machine keeps ids unique |
| Listener.BackspaceAfterAddWipesBoard | bitva/src/App.js:25-42 | after one addition and a Backspace with nothing selected, the intended machine keeps the circle but the component as written has no circles left |

## Findings

| source | as written | input that shows it | evidently intended | confidence | as-written member | corrected member |
|---|---|---|---|---|---|---|
| bitva/src/App.js:37-42 | the effect that installs `handleKeyDown` lists only `selectedCircleIds` as a dependency, so the installed handler filters the `circles` of the render where the selection last changed | mount, add one circle, press Backspace with nothing selected: the circle disappears. | Backspace removes only the selected circles of the current list | not executed; high | Listener.StaleStep, Listener.BackspaceAfterAddWipesBoard | Component.Step, Component.BackspaceKeepsUnselected |
| bitva/src/App.js:16 | the id is `Date.now()`, whose comment calls it a unique id | two additions in the same millisecond, or after the clock is set back, give two circles with one id. Clicking either one then selects both, and Backspace deletes both | every circle gets an id no other circle has | not executed; low | Placement.Add, Placement.ClockCollision, Listener.SameMillisecondDuplicatesId | Placement.AddFresh, Placement.FreshAvoidsCollision |
| bitva/src/App.js:61-62, 71-77 | the press measures the offset against `getBoundingClientRect()`, in viewport coordinates, and the move stores `clientX - offset` as `x`, which the render at bitva/src/App.js:110-111 reads relative to the slide | the slide is rendered below the add button (bitva/src/App.js:97-99), so its top is below the viewport top, say 50 pixels. Pressing a circle at y = 0 and moving the pointer by nothing moves it to y = 50 | a move of the pointer by d moves the grabbed circle by d | not executed; medium (the stylesheet is not part of this model, so the slide's exact place on the page is not known) | Dragging.ViewportDragShifts, Dragging.ZeroMoveShiftsCircle | Dragging.SlideFrameDragByDelta, Dragging.DragByDelta |

`Component.Step` uses the corrected behaviour in all three cases. Backspace
filters the current list, and additions draw their id through
`Placement.FreshId`, which is the clock reading whenever that value is not in
use yet. Its pointer positions and pressed corners are in the slide's frame,
which is what `SlideFrameDragByDelta` computes from viewport readings.

## Left out

- React machinery (`useState`, `useRef`, `useEffect`), adding and removing the
  `keydown`, `mousemove` and `mouseup` listeners, and the rendered markup
  (bitva/src/App.js:37-42, 85-92, 95-120). These are event plumbing. The one
  consequence of the keyboard effect that changes what Backspace does is
  modelled in `Listener`.
- DOM measurement: `clientWidth`, `clientHeight` and `getBoundingClientRect`
  (bitva/src/App.js:14, 18-19, 61-62, 76-77). The slide size and the pressed
  element's corner are inputs.
- `Math.random()` and `Date.now()`. They are parameters: a `Draw` in [0, 1)
  and an integer clock reading.
- IEEE floating point. Sizes and coordinates are exact reals, so
  `0.2 * w - 0.05 * w` is exactly `0.15 * w` here.
- Coordinate frames. The component's events carry the pointer and the
  pressed corner in the slide's frame. The page's own frame mismatch is a
  finding above. The slide's place on the page is a parameter (`origin`) of
  the lemmas that state that mismatch.
- Dragging.DragByDelta: holds only when the pointer and the pressed corner
  are in the slide's frame. On the page that means the slide's top-left is
  at the viewport origin. `ViewportDragShifts` states what happens otherwise.
- The unused `selectedCircles` local (bitva/src/App.js:67).
- Lost mouse releases. A second press with no release in between leaves two
  move listeners registered, each with its own captured selection. The model
  keeps one gesture, and a second press replaces it.
- Pressing the add button before the slide is mounted, when `slideRef.current`
  is still null (bitva/src/App.js:13). The slide is always given.
- Vertical fit on short slides. When the slide is shorter than the new
  circle's diameter (height below a fifth of the width), `y` is in
  (height - size, 0] and the circle sticks out of the slide. A circle that is
  moved on such a slide clamps to `y = 0`. The comments at
  bitva/src/App.js:18-19 say the position takes the size into account, but the
  code does not keep the circle inside vertically. The model follows the code,
  so the in-slide invariant is proved only for slides where `Roomy` holds.
- A slide whose size changes between events. The page measures
  `clientWidth` and `clientHeight` again on every addition and every move
  (bitva/src/App.js:14, 76-77); `Run` keeps one slide size for a whole
  sequence of events, and `AllFit` is stated against that one size.
- A click and a drag are separate events. The page fires a click on the circle
  after a press and release even when the pointer moved; the caller orders
  these events.
