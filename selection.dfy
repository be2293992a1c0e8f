/** The row selection of the results table, shared by
    client/src/pages/HomePage.tsx and
    client/src/components/CrawlResultsDisplay.tsx: a list of record ids
    that a checkbox click toggles and a finished bulk action empties. */
module Selection {

  type Id = int

  /** `selected.filter((urlId) => urlId !== id)`. */
  function Without(selected: seq<Id>, id: Id): (kept: seq<Id>)
    ensures id !in kept
    ensures forall x :: x in kept ==> x in selected
    ensures |kept| <= |selected|
  {
    if selected == [] then []
    else Without(selected[..|selected| - 1], id)
         + if selected[|selected| - 1] == id then [] else [selected[|selected| - 1]]
  }

  /** `handleCheckboxChange(id)`: a present id is removed (every occurrence
      of it), an absent one is appended. */
  function Toggle(selected: seq<Id>, id: Id): (toggled: seq<Id>)
    ensures id in toggled <==> id !in selected
    ensures forall x :: x in toggled ==> x in selected || x == id
  {
    if id in selected then Without(selected, id) else selected + [id]
  }

  /** No id occurs twice. */
  predicate NoDuplicates(selected: seq<Id>)
  {
    forall i, j :: 0 <= i < j < |selected| ==> selected[i] != selected[j]
  }

  /** Removing an id keeps exactly the other ids, each as often as before. */
  lemma {:induction false} WithoutCounts(selected: seq<Id>, id: Id)
    ensures forall x :: multiset(Without(selected, id))[x] == if x == id then 0 else multiset(selected)[x]
  {
    if selected != [] {
      var init, last := selected[..|selected| - 1], selected[|selected| - 1];
      WithoutCounts(init, id);
      assert selected == init + [last];
      assert multiset(selected) == multiset(init) + multiset{last};
      assert multiset(Without(selected, id))
          == multiset(Without(init, id)) + if last == id then multiset{} else multiset{last};
    }
  }

  /** Removing an absent id changes nothing. */
  lemma {:induction false} WithoutAbsent(selected: seq<Id>, id: Id)
    requires id !in selected
    ensures Without(selected, id) == selected
  {
    if selected != [] {
      var init := selected[..|selected| - 1];
      assert id !in init by { assert forall i :: 0 <= i < |init| ==> init[i] == selected[i]; }
      WithoutAbsent(init, id);
    }
  }

  /** Removing an id distributes over concatenation. */
  lemma {:induction false} WithoutAppend(a: seq<Id>, b: seq<Id>, id: Id)
    ensures Without(a + b, id) == Without(a, id) + Without(b, id)
  {
    if b == [] {
      assert a + b == a;
    } else {
      assert (a + b)[..|a + b| - 1] == a + b[..|b| - 1];
      WithoutAppend(a, b[..|b| - 1], id);
    }
  }

  /** Removing an id twice is removing it once. */
  lemma {:induction false} WithoutTwice(selected: seq<Id>, id: Id)
    ensures Without(Without(selected, id), id) == Without(selected, id)
  {
    WithoutCounts(selected, id);
    assert id !in Without(selected, id) by {
      assert multiset(Without(selected, id))[id] == 0;
    }
    WithoutAbsent(Without(selected, id), id);
  }

  /** A toggle flips whether the toggled id is selected, and no other id's. */
  lemma ToggleFlips(selected: seq<Id>, id: Id)
    ensures id in Toggle(selected, id) <==> id !in selected
    ensures forall x :: x != id ==> (x in Toggle(selected, id) <==> x in selected)
  {
    WithoutCounts(selected, id);
    forall x ensures x in Without(selected, id) <==> (x != id && x in selected) {
      assert x in Without(selected, id) <==> multiset(Without(selected, id))[x] > 0;
      assert x in selected <==> multiset(selected)[x] > 0;
    }
  }

  /** The other ids keep their order and their number of occurrences:
      taking the toggled id out of the list before and after gives the
      same list. */
  lemma ToggleKeepsOthers(selected: seq<Id>, id: Id)
    ensures Without(Toggle(selected, id), id) == Without(selected, id)
  {
    if id in selected {
      WithoutTwice(selected, id);
    } else {
      WithoutAppend(selected, [id], id);
      assert Without([id], id) == [];
    }
  }

  /** An absent id is appended at the end, and a second toggle gives back
      the original list. */
  lemma ToggleTwiceRestores(selected: seq<Id>, id: Id)
    requires id !in selected
    ensures Toggle(selected, id) == selected + [id]
    ensures Toggle(Toggle(selected, id), id) == selected
  {
    WithoutAppend(selected, [id], id);
    assert Without([id], id) == [];
    WithoutAbsent(selected, id);
  }

  /** Toggling never introduces a duplicate. */
  lemma ToggleKeepsNoDuplicates(selected: seq<Id>, id: Id)
    requires NoDuplicates(selected)
    ensures NoDuplicates(Toggle(selected, id))
  {
    if id in selected {
      WithoutKeepsNoDuplicates(selected, id);
    }
  }

  /** Removing an id from a list without duplicates leaves a list without
      duplicates, whose ids all come from the original. */
  lemma {:induction false} WithoutKeepsNoDuplicates(selected: seq<Id>, id: Id)
    requires NoDuplicates(selected)
    ensures NoDuplicates(Without(selected, id))
    ensures forall x :: x in Without(selected, id) ==> x in selected
  {
    if selected != [] {
      var init, last := selected[..|selected| - 1], selected[|selected| - 1];
      assert forall i :: 0 <= i < |init| ==> init[i] == selected[i];
      WithoutKeepsNoDuplicates(init, id);
      assert last !in init;
    }
  }
}
