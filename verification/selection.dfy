/** The selection tracker: a click on a circle flips its id in or out of the
    selected set. */
module Selection {
  import opened Shapes

  /** The set a click on the circle `id` leaves behind. */
  function Toggle(sel: set<Id>, id: Id): (r: set<Id>)
    ensures id in r <==> id !in sel
    ensures forall j :: j != id ==> (j in r <==> j in sel)
    ensures |r| == if id in sel then |sel| - 1 else |sel| + 1
  {
    if id in sel then sel - {id} else sel + {id}
  }

  /** Clicking the same circle twice restores the selection. */
  lemma ToggleTwice(sel: set<Id>, id: Id)
    ensures Toggle(Toggle(sel, id), id) == sel
  {
  }

  /** Toggling the id of a circle on the board keeps the selection inside the
      board's ids. */
  lemma ToggleStaysOnBoard(sel: set<Id>, ids: set<Id>, id: Id)
    requires sel <= ids
    requires id in ids
    ensures Toggle(sel, id) <= ids
  {
  }
}
