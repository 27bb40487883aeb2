/** The keyboard listener as the component registers it. The effect that
    installs `handleKeyDown` on the window is re-run only when the selection
    set changes, so the installed handler sees the circle list of the render in
    which the selection last changed. Backspace then filters that older list,
    not the current one: circles added since the selection last changed are
    lost. Additions take the clock reading as id as it comes. */
module Listener {
  import opened Shapes
  import opened Selection
  import opened Placement
  import opened Removal
  import opened Dragging
  import opened Component

  /** The mounted component together with the circle list its installed key
      handler closed over. */
  datatype Mounted = Mounted(app: App, listenerCircles: seq<Circle>)

  /** Right after mounting the handler is installed with the empty list. */
  const MountAsWritten := Mounted(Mount, [])

  /** `handleKeyDown` as installed: Backspace filters the handler's own copy
      of the list by the current selection and clears the selection. */
  function StaleKeyDown(listenerCircles: seq<Circle>, s: State, key: string): (r: State)
    ensures key != Backspace ==> r == s
    ensures key == Backspace ==> r.selected == {}
    ensures key == Backspace ==>
              forall c :: c in r.circles <==> c in listenerCircles && c.id !in s.selected
    ensures listenerCircles == s.circles ==> r == KeyDown(s, key)
  {
    KeptMembers(listenerCircles, s.selected);
    if key == Backspace then State(Kept(listenerCircles, s.selected), {}) else s
  }

  /** One event as the component handles it. An addition takes the clock
      reading as id even when a circle already has it. A click on a circle and
      a Backspace give the selection a new set, so the handler is installed
      again with the list of that render; nothing else re-installs it. */
  function StaleStep(m: Mounted, slide: Slide, e: Event): (r: Mounted)
    ensures e.AddClicked? ==> r.app.board == Add(m.app.board, slide, e.now, e.sizeDraw, e.xDraw, e.yDraw)
    ensures !(e.KeyPressed? && e.key == Backspace) && !(e.AddClicked? && e.now in Ids(m.app.board.circles)) ==>
              r.app == Step(m.app, slide, e)
    ensures m.listenerCircles == m.app.board.circles && !(e.AddClicked? && e.now in Ids(m.app.board.circles)) ==>
              r.app == Step(m.app, slide, e)
    ensures e.KeyPressed? && e.key == Backspace ==> r.listenerCircles == r.app.board.circles
    ensures e.CircleClicked? && e.index < |m.app.board.circles| ==> r.listenerCircles == m.app.board.circles
    ensures e.CircleClicked? && |m.app.board.circles| <= e.index ==> r.listenerCircles == m.listenerCircles
    ensures !(e.KeyPressed? && e.key == Backspace) && !e.CircleClicked? ==> r.listenerCircles == m.listenerCircles
  {
    match e
    case AddClicked(now, d1, d2, d3) =>
      Mounted(m.app.(board := Add(m.app.board, slide, now, d1, d2, d3)), m.listenerCircles)
    case KeyPressed(key) =>
      if key == Backspace then
        var b := StaleKeyDown(m.listenerCircles, m.app.board, key);
        Mounted(m.app.(board := b), b.circles)
      else m
    case CircleClicked(index) =>
      var a := Step(m.app, slide, e);
      Mounted(a, if index < |m.app.board.circles| then a.board.circles else m.listenerCircles)
    case _ => Mounted(Step(m.app, slide, e), m.listenerCircles)
  }

  /** A sequence of events as the component handles them. */
  function StaleRun(m: Mounted, slide: Slide, es: seq<Event>): Mounted
    decreases |es|
  {
    if es == [] then m else StaleRun(StaleStep(m, slide, es[0]), slide, es[1..])
  }

  /** The component as written keeps every selected id on the board after
      each event: Backspace empties the selection, an addition only adds ids,
      a click toggles the id of a rendered circle, and a move keeps the ids. */
  lemma StaleStepKeepsSelectionOnBoard(m: Mounted, slide: Slide, e: Event)
    requires m.app.board.selected <= Ids(m.app.board.circles)
    ensures var r := StaleStep(m, slide, e).app.board; r.selected <= Ids(r.circles)
  {
    var b := m.app.board;
    match e
    case CircleClicked(index) =>
      if index < |b.circles| {
        assert b.circles[index] in b.circles;
        ToggleStaysOnBoard(b.selected, Ids(b.circles), b.circles[index].id);
      }
    case MouseMoved(pointer) =>
      if m.app.gesture.Pressed? {
        MoveKeepsIds(b.circles, m.app.gesture.captured, pointer, m.app.gesture.offset, slide);
      }
    case _ =>
  }

  /** From mounting on, the component as written never selects an id that is
      not on the board, although it can give two circles one id. */
  lemma {:induction false} StaleRunKeepsSelectionOnBoard(m: Mounted, slide: Slide, es: seq<Event>)
    requires m.app.board.selected <= Ids(m.app.board.circles)
    ensures var r := StaleRun(m, slide, es).app.board; r.selected <= Ids(r.circles)
    decreases |es|
  {
    if es != [] {
      StaleStepKeepsSelectionOnBoard(m, slide, es[0]);
      StaleRunKeepsSelectionOnBoard(StaleStep(m, slide, es[0]), slide, es[1..]);
    }
  }

  /** Add one circle after mounting and press Backspace with nothing selected:
      the intended behaviour keeps the circle, the installed handler still holds
      the empty list of the first render and wipes the board. */
  lemma BackspaceAfterAddWipesBoard(slide: Slide, now: Id, d1: Draw, d2: Draw, d3: Draw)
    ensures var es := [AddClicked(now, d1, d2, d3), KeyPressed(Backspace)];
            && |Run(Mount, slide, es).board.circles| == 1
            && StaleRun(MountAsWritten, slide, es).app.board.circles == []
  {
    var es := [AddClicked(now, d1, d2, d3), KeyPressed(Backspace)];
    var m1 := StaleStep(MountAsWritten, slide, es[0]);
    assert m1.listenerCircles == [];
    var m2 := StaleStep(m1, slide, es[1]);
    assert m2.app.board.circles == [];
    assert es[1..][1..] == [];
    assert StaleRun(m1, slide, es[1..]) == StaleRun(m2, slide, []);
    assert StaleRun(MountAsWritten, slide, es) == m2;
    var a1 := Step(Mount, slide, es[0]);
    var a2 := Step(a1, slide, es[1]);
    assert a1.board.selected == {};
    assert a2.board.circles == a1.board.circles;
    assert Run(a1, slide, es[1..]) == Run(a2, slide, []);
    assert Run(Mount, slide, es) == a2;
  }

  /** Two additions in the same millisecond: the component as written gives
      both circles the same id, while the intended machine keeps ids unique. */
  lemma SameMillisecondDuplicatesId(slide: Slide, now: Id, d1: Draw, d2: Draw, d3: Draw, e1: Draw, e2: Draw, e3: Draw)
    ensures var es := [AddClicked(now, d1, d2, d3), AddClicked(now, e1, e2, e3)];
            && UniqueIds(Run(Mount, slide, es).board.circles)
            && !UniqueIds(StaleRun(MountAsWritten, slide, es).app.board.circles)
  {
    var es := [AddClicked(now, d1, d2, d3), AddClicked(now, e1, e2, e3)];
    var m1 := StaleStep(MountAsWritten, slide, es[0]);
    var m2 := StaleStep(m1, slide, es[1]);
    assert es[1..][1..] == [];
    assert StaleRun(m1, slide, es[1..]) == StaleRun(m2, slide, []);
    assert StaleRun(MountAsWritten, slide, es) == m2;
    ClockCollision(slide, now, d1, d2, d3, e1, e2, e3);
    MountedBoardStaysWellformed(slide, es);
  }
}
