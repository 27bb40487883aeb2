/** Adding a circle: a random diameter between 5% and 20% of the slide width,
    a random top-left corner that keeps the circle on the slide, and an id
    taken from the millisecond clock. */
module Placement {
  import opened Shapes

  /** A factor in [0, 1) moves a nonnegative length towards zero. */
  lemma ShrinkNonnegative(r: real, len: real)
    requires 0.0 <= r < 1.0 && 0.0 <= len
    ensures 0.0 <= r * len <= len
    ensures 0.0 < len ==> r * len < len
  {
  }

  /** A factor in [0, 1) moves a negative length towards zero. */
  lemma ShrinkNegative(r: real, len: real)
    requires 0.0 <= r < 1.0 && len < 0.0
    ensures len < r * len <= 0.0
  {
    ShrinkNonnegative(r, -len);
  }

  /** `Math.random() * len`: a draw in [0, 1) scales a length to a point
      between zero and the length, never reaching the length itself. */
  function Scale(r: Draw, len: real): (p: real)
    ensures 0.0 <= len ==> 0.0 <= p <= len
    ensures 0.0 < len ==> p < len
    ensures len < 0.0 ==> len < p <= 0.0
  {
    if len < 0.0 then ShrinkNegative(r, len); r * len
    else ShrinkNonnegative(r, len); r * len
  }

  /** The circle `addCircle` builds from the slide measurement, the clock
      reading `id` and three random draws. */
  function NewCircle(slide: Slide, id: Id, sizeDraw: Draw, xDraw: Draw, yDraw: Draw): (c: Circle)
    ensures c.id == id
    ensures 0.05 * (slide.width as real) <= c.size <= 0.2 * (slide.width as real)
    ensures 0 < slide.width ==> c.size < 0.2 * (slide.width as real)
    ensures 0.0 <= c.x <= (slide.width as real) - c.size
    ensures c.size <= slide.height as real ==> 0.0 <= c.y <= (slide.height as real) - c.size
    ensures (slide.height as real) < c.size ==> (slide.height as real) - c.size < c.y <= 0.0
  {
    var w := slide.width as real;
    var size := Scale(sizeDraw, 0.2 * w - 0.05 * w) + 0.05 * w;
    Circle(id, size, Scale(xDraw, w - size), Scale(yDraw, (slide.height as real) - size))
  }

  /** `addCircle` as written: the new circle, with the clock reading as its id,
      goes to the end of the list; nothing else changes. */
  function Add(s: State, slide: Slide, id: Id, sizeDraw: Draw, xDraw: Draw, yDraw: Draw): (r: State)
    ensures r.selected == s.selected
    ensures |r.circles| == |s.circles| + 1
    ensures r.circles[..|s.circles|] == s.circles
    ensures r.circles[|s.circles|].id == id
    ensures Ids(r.circles) == Ids(s.circles) + {id}
    ensures 0.05 * (slide.width as real) <= r.circles[|s.circles|].size <= 0.2 * (slide.width as real)
    ensures Fits(r.circles[|s.circles|], slide) <==> r.circles[|s.circles|].size <= slide.height as real
  {
    var c := NewCircle(slide, id, sizeDraw, xDraw, yDraw);
    var cs := s.circles + [c];
    assert cs[..|s.circles|] == s.circles;
    assert forall d :: d in cs <==> d in s.circles || d == c;
    State(cs, s.selected)
  }

  /** Adding a circle whose id is new keeps the board consistent, and on a
      roomy slide keeps every circle inside it. */
  lemma AddKeepsWellformed(s: State, slide: Slide, id: Id, sizeDraw: Draw, xDraw: Draw, yDraw: Draw)
    requires id !in Ids(s.circles)
    ensures Consistent(s) ==> Consistent(Add(s, slide, id, sizeDraw, xDraw, yDraw))
    ensures AllFit(s.circles, slide) && Roomy(slide) ==>
              AllFit(Add(s, slide, id, sizeDraw, xDraw, yDraw).circles, slide)
  {
    var r := Add(s, slide, id, sizeDraw, xDraw, yDraw);
    var n := |s.circles|;
    assert forall i :: 0 <= i < n ==> r.circles[i] == s.circles[i] by {
      forall i | 0 <= i < n ensures r.circles[i] == s.circles[i] {
        assert r.circles[..n][i] == r.circles[i];
      }
    }
    if Consistent(s) {
      forall i, j | 0 <= i < j < |r.circles| ensures r.circles[i].id != r.circles[j].id {
        if j == n {
          assert s.circles[i] in s.circles;
        }
      }
    }
    if AllFit(s.circles, slide) && Roomy(slide) {
      forall c | c in r.circles ensures Fits(c, slide) {
        var k :| 0 <= k < |r.circles| && r.circles[k] == c;
        if k < n {
          assert s.circles[k] in s.circles;
        }
      }
    }
  }

  /** The largest id on the list, or `floor` if that is larger. */
  function MaxId(cs: seq<Circle>, floor: Id): (m: Id)
    ensures floor <= m
    ensures forall c :: c in cs ==> c.id <= m
  {
    if cs == [] then floor
    else
      var m := MaxId(cs[1..], floor);
      assert forall c :: c in cs ==> c == cs[0] || c in cs[1..];
      if m < cs[0].id then cs[0].id else m
  }

  /** An id for a new circle: the clock reading when no circle carries it yet,
      otherwise one past every id in use. */
  function FreshId(cs: seq<Circle>, now: Id): (id: Id)
    ensures id !in Ids(cs)
    ensures now !in Ids(cs) ==> id == now
    ensures now <= id
  {
    if now !in Ids(cs) then now else MaxId(cs, now) + 1
  }

  /** `addCircle` with ids that stay unique: it agrees with the component
      whenever the clock reading is not in use yet. */
  function AddFresh(s: State, slide: Slide, now: Id, sizeDraw: Draw, xDraw: Draw, yDraw: Draw): (r: State)
    ensures now !in Ids(s.circles) ==> r == Add(s, slide, now, sizeDraw, xDraw, yDraw)
    ensures Consistent(s) ==> Consistent(r)
    ensures AllFit(s.circles, slide) && Roomy(slide) ==> AllFit(r.circles, slide)
    ensures r.selected == s.selected && |r.circles| == |s.circles| + 1
    ensures r.circles[..|s.circles|] == s.circles
  {
    var id := FreshId(s.circles, now);
    AddKeepsWellformed(s, slide, id, sizeDraw, xDraw, yDraw);
    Add(s, slide, id, sizeDraw, xDraw, yDraw)
  }

  /** Two additions that read the same millisecond give two circles with the
      same id, so the list no longer identifies circles uniquely. */
  lemma ClockCollision(slide: Slide, now: Id, d1: Draw, d2: Draw, d3: Draw, e1: Draw, e2: Draw, e3: Draw)
    ensures var s := Add(Add(Empty, slide, now, d1, d2, d3), slide, now, e1, e2, e3);
            |s.circles| == 2 && s.circles[0].id == s.circles[1].id && !UniqueIds(s.circles)
  {
    var s1 := Add(Empty, slide, now, d1, d2, d3);
    var s := Add(s1, slide, now, e1, e2, e3);
    assert s.circles[0] == s.circles[..1][0] == s1.circles[0];
  }

  /** With fresh ids the same two additions keep ids unique. */
  lemma FreshAvoidsCollision(slide: Slide, now: Id, d1: Draw, d2: Draw, d3: Draw, e1: Draw, e2: Draw, e3: Draw)
    ensures var s := AddFresh(AddFresh(Empty, slide, now, d1, d2, d3), slide, now, e1, e2, e3);
            |s.circles| == 2 && UniqueIds(s.circles)
  {
    assert Consistent(Empty);
  }
}
