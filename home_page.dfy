/** The home page's client-side rules (client/src/pages/HomePage.tsx):
    the search filter over the crawl results, the row selection, and the
    choice between the empty-state card and the results table. The
    results themselves come from the server; only the fields the page
    reads are modelled. */
module HomePage {
  import opened Text
  import opened Selection

  /** A crawl result as the page sees it. */
  datatype Row = Row(id: Id, url: string, pageTitle: string, status: string)

  /** The page's state: the fetched results, the selected ids, the search term. */
  datatype PageState = PageState(results: seq<Row>, selected: seq<Id>, searchTerm: string)

  /** The search predicate: the term, lower-cased, occurs in the lower-cased
      URL, title or status. */
  predicate Matches(row: Row, term: string): (m: bool)
    ensures term == "" ==> m
  {
    var t := ToLower(term);
    Contains(ToLower(row.url), t) || Contains(ToLower(row.pageTitle), t) || Contains(ToLower(row.status), t)
  }

  /** `filteredCrawlResults`: the matching results, in order. */
  function Filtered(results: seq<Row>, term: string): (kept: seq<Row>)
    ensures |kept| <= |results|
    ensures forall i :: 0 <= i < |kept| ==> kept[i] in results && Matches(kept[i], term)
  {
    if results == [] then []
    else Filtered(results[..|results| - 1], term)
         + if Matches(results[|results| - 1], term) then [results[|results| - 1]] else []
  }

  /** What the page shows. */
  datatype View = EmptyCard | Table(rows: seq<Row>, bulkDisabled: bool)

  /** The empty-state card or the table of matching results, whose bulk
      buttons are disabled while nothing is selected. */
  function Render(st: PageState): (v: View)
    ensures v.EmptyCard? <==> st.results == []
    ensures v.Table? ==> (v.bulkDisabled <==> st.selected == [])
                         && forall i :: 0 <= i < |v.rows| ==> v.rows[i] in st.results
  {
    if |st.results| == 0 then EmptyCard
    else Table(Filtered(st.results, st.searchTerm), |st.selected| == 0)
  }

  /** `handleCheckboxChange(id)`. */
  function CheckboxChange(st: PageState, id: Id): (after: PageState)
    ensures id in after.selected <==> id !in st.selected
    ensures after.(selected := st.selected) == st
  {
    st.(selected := Toggle(st.selected, id))
  }

  /** `handleBulkDelete` / `handleBulkRerun` once the request has finished;
      the list itself is refreshed by the next poll. */
  function BulkActionDone(st: PageState): (after: PageState)
    ensures after.selected == [] && after.(selected := st.selected) == st
  {
    st.(selected := [])
  }

  /** The filter keeps a result exactly when it is one of the results and
      matches the term. */
  lemma {:induction false} FilteredExactly(results: seq<Row>, term: string)
    ensures forall r :: r in Filtered(results, term) <==> r in results && Matches(r, term)
  {
    if results != [] {
      var init := results[..|results| - 1];
      FilteredExactly(init, term);
      assert results == init + [results[|results| - 1]];
    }
  }

  /** Filtering a concatenation filters each part: kept results stay in
      their relative order. */
  lemma {:induction false} FilteredAppend(a: seq<Row>, b: seq<Row>, term: string)
    ensures Filtered(a + b, term) == Filtered(a, term) + Filtered(b, term)
  {
    if b == [] {
      assert a + b == a;
    } else {
      assert (a + b)[..|a + b| - 1] == a + b[..|b| - 1];
      FilteredAppend(a, b[..|b| - 1], term);
    }
  }

  /** An empty search term keeps every result. */
  lemma {:induction false} EmptyTermKeepsAll(results: seq<Row>)
    ensures Filtered(results, "") == results
  {
    if results != [] {
      var init, last := results[..|results| - 1], results[|results| - 1];
      EmptyTermKeepsAll(init);
      assert Matches(last, "");
      assert results == init + [last];
    }
  }

  /** Filtering twice with the same term is filtering once. */
  lemma {:induction false} FilteredIdempotent(results: seq<Row>, term: string)
    ensures Filtered(Filtered(results, term), term) == Filtered(results, term)
  {
    if results != [] {
      var init, last := results[..|results| - 1], results[|results| - 1];
      FilteredIdempotent(init, term);
      FilteredAppend(Filtered(init, term), if Matches(last, term) then [last] else [], term);
    }
  }

  /** The filter ignores letter case in the term. */
  lemma {:induction false} FilterIgnoresTermCase(results: seq<Row>, term: string)
    ensures Filtered(results, ToLower(term)) == Filtered(results, term)
  {
    assert ToLower(ToLower(term)) == ToLower(term);
    if results != [] {
      FilterIgnoresTermCase(results[..|results| - 1], term);
    }
  }

  /** The empty-state card shows exactly when there are no results at all;
      a search that matches nothing still shows the table, with no rows. */
  lemma EmptyCardOnlyWithoutResults(st: PageState)
    ensures Render(st).EmptyCard? <==> st.results == []
    ensures st.results != [] && (forall i :: 0 <= i < |st.results| ==> !Matches(st.results[i], st.searchTerm))
            ==> Render(st) == Table([], |st.selected| == 0)
  {
    FilteredExactly(st.results, st.searchTerm);
    if Filtered(st.results, st.searchTerm) != [] {
      assert Filtered(st.results, st.searchTerm)[0] in Filtered(st.results, st.searchTerm);
    }
  }

  /** After a bulk action the selection is empty and the bulk buttons are
      disabled; nothing else changes. */
  lemma BulkActionClears(st: PageState)
    requires st.results != []
    ensures BulkActionDone(st).selected == []
    ensures Render(BulkActionDone(st)) == Table(Filtered(st.results, st.searchTerm), true)
    ensures BulkActionDone(st).(selected := st.selected) == st
  {
  }

  /** Selecting a row that was not selected enables the bulk buttons;
      a checkbox click changes nothing but the selection. */
  lemma CheckingEnablesBulk(st: PageState, id: Id)
    requires st.results != [] && id !in st.selected
    ensures Render(CheckboxChange(st, id)).bulkDisabled == false
    ensures CheckboxChange(st, id).(selected := st.selected) == st
  {
    ToggleTwiceRestores(st.selected, id);
  }

}
