/** The paginated results view (client/src/components/CrawlResultsDisplay.tsx):
    five results per page, the server asked for the slice at offset
    `(currentPage - 1) * 5`, a Previous link, one link per page and a Next
    link. A link with the "pointer-events-none" class cannot be clicked;
    that is how Previous and Next are disabled. */
module ResultsDisplay {
  import opened Selection

  const ItemsPerPage: nat := 5

  /** `Math.ceil(totalResults / itemsPerPage)`. */
  function TotalPages(totalResults: nat): (pages: nat)
    ensures pages * ItemsPerPage >= totalResults
    ensures pages > 0 ==> (pages - 1) * ItemsPerPage < totalResults
  {
    (totalResults + ItemsPerPage - 1) / ItemsPerPage
  }

  /** The offset the page asks the server for: a whole number of pages,
      not negative from page 1 on. */
  function Offset(currentPage: int): (offset: int)
    ensures offset % ItemsPerPage == 0
    ensures currentPage >= 1 ==> offset >= 0
  {
    (currentPage - 1) * ItemsPerPage
  }

  /** One numbered page link. */
  datatype PageLink = PageLink(number: int, active: bool)

  /** The numbered links `1..totalPages`: one per page, numbered within
      range, and at most one of them active. */
  function PageLinks(totalPages: nat, currentPage: int): (links: seq<PageLink>)
    ensures |links| == totalPages
    ensures forall i :: 0 <= i < |links| ==> 1 <= links[i].number <= totalPages
    ensures forall i, j :: 0 <= i < j < |links| ==> !(links[i].active && links[j].active)
  {
    seq(totalPages, i requires 0 <= i < totalPages => PageLink(i + 1, i + 1 == currentPage))
  }

  /** Previous is disabled on page 1, whose slice starts at offset 0. */
  predicate PrevDisabled(currentPage: int): (disabled: bool)
    ensures disabled ==> Offset(currentPage) == 0
  {
    currentPage == 1
  }

  /** Next is disabled only on the last page, after which the next slice
      would start just past every page. */
  predicate NextDisabled(currentPage: int, totalPages: nat): (disabled: bool)
    ensures disabled ==> Offset(currentPage + 1) == totalPages * ItemsPerPage
  {
    currentPage == totalPages
  }

  /** The view's state. */
  datatype DisplayState = DisplayState(selected: seq<Id>, searchTerm: string, currentPage: int)

  const Initial: DisplayState := DisplayState([], "", 1)

  /** What the user can do. A click on a disabled link does nothing. */
  datatype Event =
    | ClickPrev
    | ClickNext
    | ClickPageLink(index: int)
    | CheckboxChange(id: Id)
    | BulkActionDone
    | SetSearchTerm(term: string)

  /** `paginate(pageNumber)`: the page is set as given, unchecked. */
  function Paginate(st: DisplayState, pageNumber: int): (after: DisplayState)
    ensures after.currentPage == pageNumber
    ensures after.(currentPage := st.currentPage) == st
  {
    st.(currentPage := pageNumber)
  }

  /** One event, with `totalResults` as the server last reported it. The
      page never drops below 1: Previous is disabled on page 1 and the
      links carry numbers from 1 up. */
  function Step(st: DisplayState, totalResults: nat, ev: Event): (after: DisplayState)
    ensures st.currentPage >= 1 ==> after.currentPage >= 1
  {
    var totalPages := TotalPages(totalResults);
    match ev
    case ClickPrev => if PrevDisabled(st.currentPage) then st else Paginate(st, st.currentPage - 1)
    case ClickNext => if NextDisabled(st.currentPage, totalPages) then st else Paginate(st, st.currentPage + 1)
    case ClickPageLink(i) =>
      if 0 <= i < totalPages then Paginate(st, PageLinks(totalPages, st.currentPage)[i].number) else st
    case CheckboxChange(id) => st.(selected := Toggle(st.selected, id))
    case BulkActionDone => st.(selected := [])
    case SetSearchTerm(term) => st.(searchTerm := term)
  }

  /** The page count is the least number of five-result pages that hold
      every result; it is 0 exactly when there are no results. */
  lemma TotalPagesIsCeiling(totalResults: nat, pages: nat)
    requires pages * ItemsPerPage >= totalResults
    ensures TotalPages(totalResults) <= pages
    ensures TotalPages(totalResults) == 0 <==> totalResults == 0
  {
  }

  /** Page 1 asks for offset 0 and consecutive pages are five apart; each
      page from 1 to the last starts inside the results, and every later
      page starts past their end. */
  lemma OffsetsTilePages(totalResults: nat, page: int)
    ensures Offset(1) == 0 && Offset(page + 1) == Offset(page) + ItemsPerPage
    ensures 1 <= page <= TotalPages(totalResults) ==> 0 <= Offset(page) < totalResults
    ensures page > TotalPages(totalResults) ==> Offset(page) >= totalResults
  {
  }

  /** The links are numbered 1 to the page count, and exactly the one for
      the current page is active (none when the current page is out of range). */
  lemma PageLinksNumbering(totalPages: nat, currentPage: int)
    ensures |PageLinks(totalPages, currentPage)| == totalPages
    ensures forall i :: 0 <= i < totalPages ==> PageLinks(totalPages, currentPage)[i].number == i + 1
    ensures forall i :: 0 <= i < totalPages ==>
              (PageLinks(totalPages, currentPage)[i].active <==> i == currentPage - 1)
    ensures (exists i :: 0 <= i < totalPages && PageLinks(totalPages, currentPage)[i].active)
            <==> 1 <= currentPage <= totalPages
  {
    if 1 <= currentPage <= totalPages {
      assert PageLinks(totalPages, currentPage)[currentPage - 1].active;
    }
  }

  /** With no results there are no page links and Next stays enabled on
      the first page, while Previous is disabled there. */
  lemma NoResultsNextEnabled()
    ensures TotalPages(0) == 0 && PageLinks(TotalPages(0), 1) == []
    ensures PrevDisabled(1) && !NextDisabled(1, TotalPages(0))
  {
  }

  /** Selection events touch only the selection, page events only the page,
      and a finished bulk action leaves the selection empty. */
  lemma StepTouchesOneField(st: DisplayState, totalResults: nat, ev: Event)
    ensures ev.CheckboxChange? || ev.BulkActionDone?
            ==> Step(st, totalResults, ev).(selected := st.selected) == st
    ensures ev.BulkActionDone? ==> Step(st, totalResults, ev).selected == []
    ensures ev.ClickPrev? || ev.ClickNext? || ev.ClickPageLink?
            ==> Step(st, totalResults, ev).(currentPage := st.currentPage) == st
    ensures ev.SetSearchTerm? ==> Step(st, totalResults, ev) == st.(searchTerm := ev.term)
  {
  }

  /** A numbered link moves to its own page, which is then the active one. */
  lemma ClickPageLinkActivates(st: DisplayState, totalResults: nat, i: int)
    requires 0 <= i < TotalPages(totalResults)
    ensures var after := Step(st, totalResults, ClickPageLink(i));
      after.currentPage == i + 1
      && PageLinks(TotalPages(totalResults), after.currentPage)[i].active
  {
  }

  // ------------------------------------------------------------------
  // Next past the last page

  /** The pages a user should be able to reach: 1 up to the last page
      (page 1 also when there are no results). */
  predicate InRange(currentPage: int, totalResults: nat)
  {
    1 <= currentPage <= if TotalPages(totalResults) == 0 then 1 else TotalPages(totalResults)
  }

  /** As written, Next is enabled whenever the current page is not exactly
      the page count: with no results, Next leads from page 1 to page 2,
      from there to page 3, and so on, each asking for a slice past the end. */
  lemma NextRunsPastLastPage()
    ensures InRange(Initial.currentPage, 0)
    ensures var once := Step(Initial, 0, ClickNext);
      once.currentPage == 2 && !InRange(once.currentPage, 0) && Offset(once.currentPage) > 0
      && Step(once, 0, ClickNext).currentPage == 3
  {
  }

  /** Next disabled on the last page and beyond it. */
  predicate NextDisabledAtOrPastLast(currentPage: int, totalPages: nat)
  {
    currentPage >= totalPages
  }

  /** With that rule every page move keeps the page in range. */
  lemma BoundedNextStaysInRange(st: DisplayState, totalResults: nat, ev: Event)
    requires InRange(st.currentPage, totalResults)
    ensures var totalPages := TotalPages(totalResults);
      var after := if ev.ClickNext? then
                     (if NextDisabledAtOrPastLast(st.currentPage, totalPages) then st
                      else Paginate(st, st.currentPage + 1))
                   else Step(st, totalResults, ev);
      InRange(after.currentPage, totalResults)
  {
    if ev.ClickPageLink? && 0 <= ev.index < TotalPages(totalResults) {
      PageLinksNumbering(TotalPages(totalResults), st.currentPage);
    }
  }
}
