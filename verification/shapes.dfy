/** The data the circle board works on: circle records, the measured slide they
    are drawn on, the board state, and the invariants a board is meant to keep. */
module Shapes {

  /** Circle identifier. The component takes the millisecond clock reading at
      creation time, an integer. */
  type Id = int

  /** One draw of the platform's random generator, which yields values in [0, 1). */
  type Draw = r: real | 0.0 <= r < 1.0

  /** A position in pixels. */
  datatype Point = Point(x: real, y: real)

  /** A circle: `size` is its diameter, (`x`, `y`) the top-left corner of its
      bounding box relative to the slide. */
  datatype Circle = Circle(id: Id, size: real, x: real, y: real)

  /** The slide as the layout measures it: width and height in whole pixels. */
  datatype Slide = Slide(width: nat, height: nat)

  /** The component state: the circles in drawing order and the selected ids. */
  datatype State = State(circles: seq<Circle>, selected: set<Id>)

  /** The state right after mounting: no circles, nothing selected. */
  const Empty := State([], {})

  /** The ids carried by a list of circles. */
  function Ids(cs: seq<Circle>): set<Id> {
    set c | c in cs :: c.id
  }

  /** No two circles of the list share an id. */
  predicate UniqueIds(cs: seq<Circle>) {
    forall i, j :: 0 <= i < j < |cs| ==> cs[i].id != cs[j].id
  }

  /** The whole circle lies inside the slide. */
  predicate Fits(c: Circle, slide: Slide) {
    && 0.0 <= c.x <= (slide.width as real) - c.size
    && 0.0 <= c.y <= (slide.height as real) - c.size
  }

  /** The largest circle the component can create (a fifth of the width) also
      fits vertically. */
  predicate Roomy(slide: Slide) {
    0.2 * (slide.width as real) <= slide.height as real
  }

  /** Ids are unique and every selected id names a circle on the board. */
  predicate Consistent(s: State) {
    UniqueIds(s.circles) && s.selected <= Ids(s.circles)
  }

  /** Every circle lies inside the slide. */
  predicate AllFit(cs: seq<Circle>, slide: Slide) {
    forall c :: c in cs ==> Fits(c, slide)
  }
}
