/** The board component as one state machine: the board state plus the drag
    gesture, driven by the events the page delivers. The add button, a click
    on a rendered circle, a key press, and press/move/release of the mouse on
    the slide are the only inputs; the slide measurement is a parameter. */
module Component {
  import opened Shapes
  import opened Selection
  import opened Placement
  import opened Removal
  import opened Dragging

  /** The inputs the component reacts to. A click names the rendered circle by
      its position in the list; a position past the end is a click on the bare
      slide, which reaches no circle handler. The clock reading and the three
      random draws of an addition travel with the event. */
  datatype Event =
    | AddClicked(now: Id, sizeDraw: Draw, xDraw: Draw, yDraw: Draw)
    | CircleClicked(index: nat)
    | KeyPressed(key: string)
    | MousePressed(pointer: Point, corner: Point)
    | MouseMoved(pointer: Point)
    | MouseReleased

  /** Everything the component remembers between events. */
  datatype App = App(board: State, gesture: Gesture)

  /** The component right after mounting. */
  const Mount := App(Empty, Idle)

  /** `handleCircleClick` on the circle at `index`; a click that reaches no
      circle leaves the selection alone. The circle list is never touched. */
  function Click(s: State, index: nat): (r: State)
    ensures r.circles == s.circles
    ensures index < |s.circles| ==> r.selected == Toggle(s.selected, s.circles[index].id)
    ensures |s.circles| <= index ==> r.selected == s.selected
  {
    if index < |s.circles| then State(s.circles, Toggle(s.selected, s.circles[index].id)) else s
  }

  /** One event. Additions use ids that stay unique (see `AddFresh`); each
      event touches only the part of the component its handler sets. Pointer
      positions and the pressed element's corner are in the slide's frame. */
  function Step(a: App, slide: Slide, e: Event): (r: App)
    ensures e.AddClicked? ==>
              && r.gesture == a.gesture && r.board.selected == a.board.selected
              && |r.board.circles| == |a.board.circles| + 1
              && r.board.circles[..|a.board.circles|] == a.board.circles
              && (e.now !in Ids(a.board.circles) ==> r.board == Add(a.board, slide, e.now, e.sizeDraw, e.xDraw, e.yDraw))
    ensures e.CircleClicked? ==> r.gesture == a.gesture && r.board.circles == a.board.circles
    ensures e.KeyPressed? && e.key != Backspace ==> r == a
    ensures e.KeyPressed? && e.key == Backspace ==>
              && r.gesture == a.gesture && r.board.selected == {}
              && r.board.circles == Kept(a.board.circles, a.board.selected)
              && (forall c :: c in r.board.circles <==> c in a.board.circles && c.id !in a.board.selected)
    ensures e.MousePressed? ==>
              && r.board == a.board && r.gesture.Pressed? && r.gesture.captured == a.board.selected
    ensures e.MouseMoved? ==> r.gesture == a.gesture && r.board.selected == a.board.selected
    ensures e.MouseMoved? && a.gesture.Idle? ==> r == a
    ensures e.MouseReleased? ==> r.board == a.board && r.gesture.Idle?
  {
    match e
    case AddClicked(now, d1, d2, d3) => a.(board := AddFresh(a.board, slide, now, d1, d2, d3))
    case CircleClicked(index) => a.(board := Click(a.board, index))
    case KeyPressed(key) => a.(board := KeyDown(a.board, key))
    case MousePressed(pointer, corner) => a.(gesture := Press(a.board, pointer, corner))
    case MouseMoved(pointer) => a.(board := DragTo(a.gesture, a.board, pointer, slide))
    case MouseReleased => a.(gesture := Idle)
  }

  /** A sequence of events, in order, on a slide of fixed size. */
  function Run(a: App, slide: Slide, es: seq<Event>): App
    decreases |es|
  {
    if es == [] then a else Run(Step(a, slide, es[0]), slide, es[1..])
  }

  /** Every event keeps ids unique and the selection on the board, and on a
      roomy slide keeps every circle inside it. */
  lemma StepKeepsWellformed(a: App, slide: Slide, e: Event)
    ensures Consistent(a.board) ==> Consistent(Step(a, slide, e).board)
    ensures AllFit(a.board.circles, slide) && Roomy(slide) ==> AllFit(Step(a, slide, e).board.circles, slide)
  {
    match e
    case AddClicked(now, d1, d2, d3) =>
    case CircleClicked(index) =>
      if index < |a.board.circles| && Consistent(a.board) {
        assert a.board.circles[index] in a.board.circles;
        ToggleStaysOnBoard(a.board.selected, Ids(a.board.circles), a.board.circles[index].id);
      }
    case KeyPressed(key) =>
      DeleteKeepsWellformed(a.board, slide);
    case MousePressed(pointer, corner) =>
    case MouseMoved(pointer) =>
      if a.gesture.Pressed? {
        MoveKeepsWellformed(a.board, a.gesture.captured, pointer, a.gesture.offset, slide);
      }
    case MouseReleased =>
  }

  /** The board invariants hold after any sequence of events that starts from
      a board where they hold. */
  lemma {:induction false} RunKeepsWellformed(a: App, slide: Slide, es: seq<Event>)
    ensures Consistent(a.board) ==> Consistent(Run(a, slide, es).board)
    ensures AllFit(a.board.circles, slide) && Roomy(slide) ==> AllFit(Run(a, slide, es).board.circles, slide)
    decreases |es|
  {
    if es != [] {
      StepKeepsWellformed(a, slide, es[0]);
      RunKeepsWellformed(Step(a, slide, es[0]), slide, es[1..]);
    }
  }

  /** From mounting on, ids are unique, every selected id names a circle on
      the board, and on a roomy slide every circle lies inside it. */
  lemma MountedBoardStaysWellformed(slide: Slide, es: seq<Event>)
    ensures Consistent(Run(Mount, slide, es).board)
    ensures Roomy(slide) ==> AllFit(Run(Mount, slide, es).board.circles, slide)
  {
    RunKeepsWellformed(Mount, slide, es);
  }

  /** N presses of the add button add N circles at the end of the list and
      leave the circles already there as they were. */
  lemma {:induction false} AddsAppend(a: App, slide: Slide, es: seq<Event>)
    requires forall k :: 0 <= k < |es| ==> es[k].AddClicked?
    ensures |Run(a, slide, es).board.circles| == |a.board.circles| + |es|
    ensures Run(a, slide, es).board.circles[..|a.board.circles|] == a.board.circles
    ensures Run(a, slide, es).board.selected == a.board.selected
    decreases |es|
  {
    if es != [] {
      var next := Step(a, slide, es[0]);
      var n := |a.board.circles|;
      AddsAppend(next, slide, es[1..]);
      var r := Run(next, slide, es[1..]).board.circles;
      assert r[..n] == r[..n + 1][..n];
    }
  }

  /** Backspace removes exactly the selected circles of the board as it is at
      the moment of the key press, and clears the selection. */
  lemma BackspaceKeepsUnselected(a: App, slide: Slide)
    ensures var r := Step(a, slide, KeyPressed(Backspace)).board;
            && r.selected == {}
            && (forall c :: c in a.board.circles && c.id !in a.board.selected ==> c in r.circles)
            && (forall c :: c in r.circles ==> c in a.board.circles && c.id !in a.board.selected)
  {
  }

  /** After the release, pointer moves no longer change anything. */
  lemma ReleaseEndsDrag(a: App, slide: Slide, pointer: Point)
    ensures var released := Step(a, slide, MouseReleased);
            Step(released, slide, MouseMoved(pointer)) == released
  {
  }

  /** The first step of the walk in `AddSelectDragDelete`: on a 400 by 300
      slide the draws 1/3, 5/18 and 5/13 give a circle of diameter 40 at (100, 100). */
  lemma AddFortyAtHundred()
    ensures Step(Mount, Slide(400, 300), AddClicked(7, 1.0 / 3.0, 5.0 / 18.0, 5.0 / 13.0)).board
            == State([Circle(7, 40.0, 100.0, 100.0)], {})
  {
    assert FreshId([], 7) == 7;
    assert NewCircle(Slide(400, 300), 7, 1.0 / 3.0, 5.0 / 18.0, 5.0 / 13.0) == Circle(7, 40.0, 100.0, 100.0);
  }

  /** The walk's drag: the circle is clicked, pressed at (120, 120) with
      its corner at (100, 100), and dragged to (500, 500), where it stops
      against the right and bottom edges at (360, 260). */
  lemma DragIntoCorner(a: App)
    requires a.board == State([Circle(7, 40.0, 100.0, 100.0)], {})
    ensures var slide := Slide(400, 300);
            Run(a, slide, [CircleClicked(0), MousePressed(Point(120.0, 120.0), Point(100.0, 100.0)),
                           MouseMoved(Point(500.0, 500.0)), MouseReleased])
            == App(State([Circle(7, 40.0, 360.0, 260.0)], {7}), Idle)
  {
    var slide := Slide(400, 300);
    var a1 := Step(a, slide, CircleClicked(0));
    assert a1.board == State([Circle(7, 40.0, 100.0, 100.0)], {7});
    var a2 := Step(a1, slide, MousePressed(Point(120.0, 120.0), Point(100.0, 100.0)));
    assert a2 == App(a1.board, Pressed(Point(20.0, 20.0), {7}));
    var a3 := Step(a2, slide, MouseMoved(Point(500.0, 500.0)));
    assert a3.board == State([Circle(7, 40.0, 360.0, 260.0)], {7}) by {
      assert Clamp(480.0, 360.0) == 360.0 && Clamp(480.0, 260.0) == 260.0;
    }
    var drag := [CircleClicked(0), MousePressed(Point(120.0, 120.0), Point(100.0, 100.0)),
                 MouseMoved(Point(500.0, 500.0)), MouseReleased];
    assert drag[1..][1..][1..][1..] == [];
  }

  /** A walk through the component on a 400 by 300 slide: one circle of
      diameter 40 is added at (100, 100), clicked, dragged from (120, 120) to
      (500, 500), where it stops at (360, 260), and then deleted with
      Backspace, which leaves the board empty. */
  lemma AddSelectDragDelete()
    ensures var slide := Slide(400, 300);
            var added := Run(Mount, slide, [AddClicked(7, 1.0 / 3.0, 5.0 / 18.0, 5.0 / 13.0)]);
            var dragged := Run(added, slide, [CircleClicked(0), MousePressed(Point(120.0, 120.0), Point(100.0, 100.0)),
                                              MouseMoved(Point(500.0, 500.0)), MouseReleased]);
            && added.board.circles == [Circle(7, 40.0, 100.0, 100.0)]
            && dragged.board == State([Circle(7, 40.0, 360.0, 260.0)], {7})
            && Run(dragged, slide, [KeyPressed(Backspace)]).board == Empty
  {
    var slide := Slide(400, 300);
    var a0 := Step(Mount, slide, AddClicked(7, 1.0 / 3.0, 5.0 / 18.0, 5.0 / 13.0));
    AddFortyAtHundred();
    DragIntoCorner(a0);
  }
}
