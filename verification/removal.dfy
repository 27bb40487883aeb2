/** Deleting the selection: the circle list is filtered down to the circles
    whose ids are not selected, then the selection is cleared. The key handler
    does this on Backspace and ignores every other key. */
module Removal {
  import opened Shapes

  /** The key name the browser reports for the Backspace key. */
  const Backspace := "Backspace"

  /** The circles whose ids are not in `sel`, in their original order. */
  function Kept(cs: seq<Circle>, sel: set<Id>): (r: seq<Circle>)
    ensures |r| <= |cs|
    ensures forall i :: 0 <= i < |r| ==> r[i].id !in sel
    ensures sel !! Ids(cs) ==> r == cs
  {
    if cs == [] then []
    else if cs[0].id in sel then Kept(cs[1..], sel) else [cs[0]] + Kept(cs[1..], sel)
  }

  /** The filter works piece by piece and keeps the order of the list: the
      filter of a concatenation is the concatenation of the filters. */
  lemma {:induction false} KeptAppend(a: seq<Circle>, b: seq<Circle>, sel: set<Id>)
    ensures Kept(a + b, sel) == Kept(a, sel) + Kept(b, sel)
  {
    if a == [] {
      assert a + b == b;
    } else {
      assert (a + b)[1..] == a[1..] + b;
      KeptAppend(a[1..], b, sel);
    }
  }

  /** A single circle is kept exactly when its id is not selected. Together
      with `KeptAppend` this determines `Kept` completely. */
  lemma KeptSingleton(c: Circle, sel: set<Id>)
    ensures Kept([c], sel) == if c.id in sel then [] else [c]
  {
    assert [c][1..] == [];
  }

  /** A circle survives the filter exactly when it was on the list and its id
      is not selected. */
  lemma {:induction false} KeptMembers(cs: seq<Circle>, sel: set<Id>)
    ensures forall c :: c in Kept(cs, sel) <==> c in cs && c.id !in sel
  {
    if cs != [] {
      KeptMembers(cs[1..], sel);
      assert forall c :: c in cs <==> c == cs[0] || c in cs[1..];
    }
  }

  /** A list with a circle in front has unique ids exactly when the tail has
      and the front id does not occur in the tail. */
  lemma UniqueCons(c: Circle, tl: seq<Circle>)
    ensures UniqueIds([c] + tl) <==> c.id !in Ids(tl) && UniqueIds(tl)
  {
    var cs := [c] + tl;
    if UniqueIds(cs) {
      forall i, j | 0 <= i < j < |tl| ensures tl[i].id != tl[j].id {
        assert tl[i] == cs[i + 1] && tl[j] == cs[j + 1];
      }
      forall d | d in tl ensures d.id != c.id {
        var m :| 0 <= m < |tl| && tl[m] == d;
        assert cs[0] == c && cs[m + 1] == d;
      }
    }
    if c.id !in Ids(tl) && UniqueIds(tl) {
      forall i, j | 0 <= i < j < |cs| ensures cs[i].id != cs[j].id {
        assert cs[j] == tl[j - 1] && cs[j] in tl;
        if 0 < i {
          assert cs[i] == tl[i - 1];
        } else {
          assert cs[j].id in Ids(tl);
        }
      }
    }
  }

  /** Filtering a list whose ids are unique leaves ids unique. */
  lemma {:induction false} KeptUnique(cs: seq<Circle>, sel: set<Id>)
    requires UniqueIds(cs)
    ensures UniqueIds(Kept(cs, sel))
  {
    if cs != [] {
      var tl := cs[1..];
      assert cs == [cs[0]] + tl;
      UniqueCons(cs[0], tl);
      KeptUnique(tl, sel);
      if cs[0].id !in sel {
        KeptMembers(tl, sel);
        assert Ids(Kept(tl, sel)) <= Ids(tl);
        UniqueCons(cs[0], Kept(tl, sel));
      }
    }
  }

  /** `deleteSelectedCircles`: the unselected circles stay, every selected one
      goes, and the selection ends empty whatever it held. */
  function DeleteSelected(s: State): (r: State)
    ensures r.selected == {}
    ensures r.circles == Kept(s.circles, s.selected)
    ensures forall c :: c in r.circles <==> c in s.circles && c.id !in s.selected
    ensures Ids(r.circles) == Ids(s.circles) - s.selected
    ensures |r.circles| + |s.selected * Ids(s.circles)| <= |s.circles|
  {
    var cs := Kept(s.circles, s.selected);
    KeptMembers(s.circles, s.selected);
    assert Ids(cs) == Ids(s.circles) - s.selected by {
      forall id | id in Ids(s.circles) - s.selected ensures id in Ids(cs) {
        var c :| c in s.circles && c.id == id;
        assert c in cs;
      }
    }
    CountBound(s.circles, s.selected);
    State(cs, {})
  }

  /** Each selected id on the board removes at least one circle from the list. */
  lemma {:induction false} CountBound(cs: seq<Circle>, sel: set<Id>)
    ensures |Kept(cs, sel)| + |sel * Ids(cs)| <= |cs|
  {
    if cs != [] {
      CountBound(cs[1..], sel);
      var tail := Ids(cs[1..]);
      assert Ids(cs) == {cs[0].id} + tail by {
        assert forall c :: c in cs <==> c == cs[0] || c in cs[1..];
      }
      if cs[0].id in sel {
        assert sel * Ids(cs) <= sel * tail + {cs[0].id};
        SubsetCard(sel * Ids(cs), sel * tail + {cs[0].id});
      } else {
        assert sel * Ids(cs) == sel * tail;
      }
    }
  }

  /** A subset is no larger than its superset. */
  lemma SubsetCard<T>(a: set<T>, b: set<T>)
    requires a <= b
    ensures |a| <= |b|
  {
    assert b == a + (b - a);
  }

  /** `handleKeyDown`: Backspace deletes the selection; any other key leaves
      the board as it was. */
  function KeyDown(s: State, key: string): (r: State)
    ensures key != Backspace ==> r == s
    ensures key == Backspace ==> r == DeleteSelected(s)
  {
    if key == Backspace then DeleteSelected(s) else s
  }

  /** Deleting keeps ids unique and every remaining circle where it was, so a
      consistent board on which every circle fits stays so. */
  lemma DeleteKeepsWellformed(s: State, slide: Slide)
    ensures UniqueIds(s.circles) ==> Consistent(DeleteSelected(s))
    ensures AllFit(s.circles, slide) ==> AllFit(DeleteSelected(s).circles, slide)
  {
    KeptMembers(s.circles, s.selected);
    if UniqueIds(s.circles) {
      KeptUnique(s.circles, s.selected);
    }
  }
}
