/** Dragging the selection. A press on the slide records the offset between
    the pointer and the top-left corner of the element under it, together with
    the selection of that moment. Every pointer move while the press lasts puts
    each of those selected circles at `pointer - offset`, clamped so that the
    circle stays on the slide; releasing ends the gesture. */
module Dragging {
  import opened Shapes

  /** `Math.min` on two numbers. */
  function Min(a: real, b: real): real {
    if a <= b then a else b
  }

  /** `Math.max` on two numbers. */
  function Max(a: real, b: real): real {
    if a <= b then b else a
  }

  /** `Math.max(0, Math.min(v, hi))`: `v` pulled into [0, hi]; when `hi` is
      negative the lower bound wins and the result is zero. */
  function Clamp(v: real, hi: real): (r: real)
    ensures 0.0 <= r
    ensures 0.0 <= hi ==> r <= hi
    ensures 0.0 <= v <= hi ==> r == v
    ensures v < 0.0 ==> r == 0.0
    ensures hi < v ==> r == Max(0.0, hi)
  {
    Max(0.0, Min(v, hi))
  }

  /** On a nonempty range the clamp picks the point of [0, hi] nearest to `v`. */
  lemma ClampNearest(v: real, hi: real, z: real)
    requires 0.0 <= hi
    requires 0.0 <= z <= hi
    ensures Dist(Clamp(v, hi), v) <= Dist(z, v)
  {
  }

  /** Distance between two coordinates. */
  function Dist(a: real, b: real): real {
    if a <= b then b - a else a - b
  }

  /** Clamping an already clamped value changes nothing. */
  lemma ClampIdempotent(v: real, hi: real)
    ensures Clamp(Clamp(v, hi), hi) == Clamp(v, hi)
  {
  }

  /** One selected circle after a pointer move: its corner goes to `target`,
      clamped against the slide size minus its own diameter. */
  function Place(c: Circle, target: Point, slide: Slide): (r: Circle)
    ensures r.id == c.id && r.size == c.size
    ensures 0.0 <= r.x && 0.0 <= r.y
    ensures c.size <= slide.width as real ==> r.x <= (slide.width as real) - c.size
    ensures c.size <= slide.height as real ==> r.y <= (slide.height as real) - c.size
    ensures Fits(c.(x := target.x, y := target.y), slide) ==> r.x == target.x && r.y == target.y
  {
    c.(x := Clamp(target.x, (slide.width as real) - c.size),
       y := Clamp(target.y, (slide.height as real) - c.size))
  }

  /** The `setCircles` update of a pointer move: every circle whose id is in
      `captured` is placed at `pointer - offset` (clamped by its own size); the
      others are returned as they were. Ids, sizes, order and length are kept. */
  function MoveSelected(cs: seq<Circle>, captured: set<Id>, pointer: Point, offset: Point, slide: Slide): (r: seq<Circle>)
    ensures |r| == |cs|
    ensures forall i :: 0 <= i < |cs| ==> r[i].id == cs[i].id && r[i].size == cs[i].size
    ensures forall i :: 0 <= i < |cs| && cs[i].id !in captured ==> r[i] == cs[i]
    ensures forall i :: 0 <= i < |cs| && cs[i].id in captured ==>
              && r[i].x == Clamp(pointer.x - offset.x, (slide.width as real) - cs[i].size)
              && r[i].y == Clamp(pointer.y - offset.y, (slide.height as real) - cs[i].size)
  {
    if cs == [] then []
    else
      var head := if cs[0].id in captured then Place(cs[0], Point(pointer.x - offset.x, pointer.y - offset.y), slide) else cs[0];
      var rest := MoveSelected(cs[1..], captured, pointer, offset, slide);
      assert forall i :: 1 <= i < |cs| ==> cs[i] == cs[1..][i - 1];
      [head] + rest
  }

  /** Every moved circle lands inside the slide whenever its diameter fits:
      `0 <= x <= width - size`, and likewise for `y`; `x` and `y` are never
      negative. */
  lemma MovedCirclesFit(cs: seq<Circle>, captured: set<Id>, pointer: Point, offset: Point, slide: Slide, i: int)
    requires 0 <= i < |cs| && cs[i].id in captured
    ensures var c := MoveSelected(cs, captured, pointer, offset, slide)[i];
            && 0.0 <= c.x && 0.0 <= c.y
            && (c.size <= slide.width as real ==> c.x <= (slide.width as real) - c.size)
            && (c.size <= slide.height as real ==> c.y <= (slide.height as real) - c.size)
  {
  }

  /** A second move to the same pointer position changes nothing. */
  lemma MoveIdempotent(cs: seq<Circle>, captured: set<Id>, pointer: Point, offset: Point, slide: Slide)
    ensures var once := MoveSelected(cs, captured, pointer, offset, slide);
            MoveSelected(once, captured, pointer, offset, slide) == once
  {
    var once := MoveSelected(cs, captured, pointer, offset, slide);
    MoveForgetsPosition(once, cs, captured, pointer, offset, slide);
  }

  /** Where a selected circle lands does not depend on where it was: two lists
      that agree on ids, sizes and unselected circles move to the same list. */
  lemma MoveForgetsPosition(cs: seq<Circle>, ds: seq<Circle>, captured: set<Id>, pointer: Point, offset: Point, slide: Slide)
    requires |cs| == |ds|
    requires forall i :: 0 <= i < |cs| ==> cs[i].id == ds[i].id && cs[i].size == ds[i].size
    requires forall i :: 0 <= i < |cs| && cs[i].id !in captured ==> cs[i] == ds[i]
    ensures MoveSelected(cs, captured, pointer, offset, slide) == MoveSelected(ds, captured, pointer, offset, slide)
  {
    var r := MoveSelected(cs, captured, pointer, offset, slide);
    var q := MoveSelected(ds, captured, pointer, offset, slide);
    forall i | 0 <= i < |cs| ensures r[i] == q[i] {
      if cs[i].id in captured {
        assert r[i] == Circle(r[i].id, r[i].size, r[i].x, r[i].y);
        assert q[i] == Circle(q[i].id, q[i].size, q[i].x, q[i].y);
      }
    }
    assert r == q;
  }

  /** All selected circles move in lockstep to the same target: two selected
      circles of equal size end at the same place, and any selected circle
      whose clamp does not engage ends exactly at `pointer - offset`. */
  lemma MoveLockstep(cs: seq<Circle>, captured: set<Id>, pointer: Point, offset: Point, slide: Slide, i: int, j: int)
    requires 0 <= i < |cs| && 0 <= j < |cs|
    requires cs[i].id in captured && cs[j].id in captured
    ensures var r := MoveSelected(cs, captured, pointer, offset, slide);
            && (cs[i].size == cs[j].size ==> r[i].x == r[j].x && r[i].y == r[j].y)
            && (0.0 <= pointer.x - offset.x <= (slide.width as real) - cs[i].size ==> r[i].x == pointer.x - offset.x)
            && (0.0 <= pointer.y - offset.y <= (slide.height as real) - cs[i].size ==> r[i].y == pointer.y - offset.y)
  {
  }

  /** Moving keeps the set of ids on the board. */
  lemma MoveKeepsIds(cs: seq<Circle>, captured: set<Id>, pointer: Point, offset: Point, slide: Slide)
    ensures Ids(MoveSelected(cs, captured, pointer, offset, slide)) == Ids(cs)
  {
    var r := MoveSelected(cs, captured, pointer, offset, slide);
    forall id | id in Ids(cs) ensures id in Ids(r) {
      var c :| c in cs && c.id == id;
      var i :| 0 <= i < |cs| && cs[i] == c;
      assert r[i] in r;
    }
    forall id | id in Ids(r) ensures id in Ids(cs) {
      var c :| c in r && c.id == id;
      var i :| 0 <= i < |r| && r[i] == c;
      assert cs[i] in cs;
    }
  }

  /** Moving keeps every circle of a board on which all circles fit inside
      the slide: a circle that fits has a diameter that fits, so its clamp
      bound is nonnegative. */
  lemma MoveKeepsFit(cs: seq<Circle>, captured: set<Id>, pointer: Point, offset: Point, slide: Slide)
    requires AllFit(cs, slide)
    ensures AllFit(MoveSelected(cs, captured, pointer, offset, slide), slide)
  {
    var r := MoveSelected(cs, captured, pointer, offset, slide);
    forall c | c in r ensures Fits(c, slide) {
      var i :| 0 <= i < |r| && r[i] == c;
      assert cs[i] in cs;
    }
  }

  /** Moving keeps ids and sizes, so it keeps a board consistent; it keeps a
      board on which every circle fits that way. */
  lemma MoveKeepsWellformed(s: State, captured: set<Id>, pointer: Point, offset: Point, slide: Slide)
    ensures Consistent(s) ==> Consistent(State(MoveSelected(s.circles, captured, pointer, offset, slide), s.selected))
    ensures AllFit(s.circles, slide) ==> AllFit(MoveSelected(s.circles, captured, pointer, offset, slide), slide)
  {
    MoveKeepsIds(s.circles, captured, pointer, offset, slide);
    if AllFit(s.circles, slide) {
      MoveKeepsFit(s.circles, captured, pointer, offset, slide);
    }
  }

  /** The drag gesture: idle, or pressed with the offset measured at the press
      and the selection as it was at the press. */
  datatype Gesture = Idle | Pressed(offset: Point, captured: set<Id>)

  /** `handleMouseDown`: the offset is the pointer minus the top-left corner of
      the pressed element's box; the selection of this moment is captured. */
  function Press(s: State, pointer: Point, corner: Point): (g: Gesture)
    ensures g.Pressed? && g.captured == s.selected
    ensures g.offset.x + corner.x == pointer.x && g.offset.y + corner.y == pointer.y
  {
    Pressed(Point(pointer.x - corner.x, pointer.y - corner.y), s.selected)
  }

  /** `handleMouseMove`: nothing happens unless a press is under way; during
      one, the captured selection is moved and the current selection is left
      alone. */
  function DragTo(g: Gesture, s: State, pointer: Point, slide: Slide): (r: State)
    ensures r.selected == s.selected
    ensures g.Idle? ==> r == s
    ensures g.Pressed? ==> r.circles == MoveSelected(s.circles, g.captured, pointer, g.offset, slide)
  {
    match g
    case Idle => s
    case Pressed(offset, captured) => State(MoveSelected(s.circles, captured, pointer, offset, slide), s.selected)
  }

  /** Dragging the grabbed circle: a press at `grab` on a selected circle's
      own corner followed by a move of the pointer by `d` moves that circle
      by `d`, saturating at the slide's edges. */
  lemma DragByDelta(s: State, grab: Point, d: Point, slide: Slide, i: int)
    requires 0 <= i < |s.circles| && s.circles[i].id in s.selected
    ensures var c := s.circles[i];
            var r := DragTo(Press(s, grab, Point(c.x, c.y)), s, Point(grab.x + d.x, grab.y + d.y), slide).circles;
            && r[i].x == Clamp(c.x + d.x, (slide.width as real) - c.size)
            && r[i].y == Clamp(c.y + d.y, (slide.height as real) - c.size)
  {
  }

  /** A viewport point in the frame of a slide whose top-left corner sits at
      `origin` in the viewport. */
  function ToSlide(p: Point, origin: Point): Point {
    Point(p.x - origin.x, p.y - origin.y)
  }

  /** The drag as written on a slide whose top-left corner is at `origin` in
      the viewport: the pressed circle's box is measured in the viewport, and
      the viewport pointer minus the offset is stored as the slide-relative
      position. The grabbed circle lands `origin` away from where a move by
      `d` should put it. */
  lemma ViewportDragShifts(s: State, grab: Point, d: Point, origin: Point, slide: Slide, i: int)
    requires 0 <= i < |s.circles| && s.circles[i].id in s.selected
    ensures var c := s.circles[i];
            var r := DragTo(Press(s, grab, Point(c.x + origin.x, c.y + origin.y)), s,
                            Point(grab.x + d.x, grab.y + d.y), slide).circles;
            && r[i].x == Clamp(c.x + origin.x + d.x, (slide.width as real) - c.size)
            && r[i].y == Clamp(c.y + origin.y + d.y, (slide.height as real) - c.size)
  {
  }

  /** A slide 50 pixels below the top of the viewport: pressing a circle at
      the slide's top edge and moving the pointer by nothing lifts its stored
      position from y = 0 to y = 50. */
  lemma ZeroMoveShiftsCircle()
    ensures var s := State([Circle(7, 40.0, 100.0, 0.0)], {7});
            var g := Press(s, Point(120.0, 70.0), Point(100.0, 50.0));
            DragTo(g, s, Point(120.0, 70.0), Slide(400, 300)).circles == [Circle(7, 40.0, 100.0, 50.0)]
  {
    assert Clamp(50.0, 260.0) == 50.0 && Clamp(100.0, 360.0) == 100.0;
  }

  /** The drag with the pointer taken into the slide's frame before the
      offset is subtracted: a press measured in the viewport followed by a
      move of the pointer by `d` moves the grabbed circle by `d`, wherever the
      slide sits on the page. */
  lemma SlideFrameDragByDelta(s: State, grab: Point, d: Point, origin: Point, slide: Slide, i: int)
    requires 0 <= i < |s.circles| && s.circles[i].id in s.selected
    ensures var c := s.circles[i];
            var r := DragTo(Press(s, grab, Point(c.x + origin.x, c.y + origin.y)), s,
                            ToSlide(Point(grab.x + d.x, grab.y + d.y), origin), slide).circles;
            && r[i].x == Clamp(c.x + d.x, (slide.width as real) - c.size)
            && r[i].y == Clamp(c.y + d.y, (slide.height as real) - c.size)
  {
  }
}
