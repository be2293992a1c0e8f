# Website analyzer: the page analysis engine and the results views

This project models the core of the website analyzer. The server crawls one
URL and fills in a crawl record:

- **Doctype classification.** The trimmed, lower-cased body is searched for an
  ordered table of seven signatures. The first one that occurs names the
  version; if none occurs, the version is "Unknown".
- **Tree walk.** The walk goes over the parsed page. It records the title,
  heading counts, links with their internal/external split, and whether there
  is a login form.
- **Broken-link aggregation.** Every link whose HEAD request answers with status
  400 or more becomes a broken-link entry. The inaccessible count is then set to
  the number of entries.
- **Crawl driver.** It chains these steps, with early exits for fetch, read and
  parse failures.

The model also covers the client's pure rules:

- the home page's search filter and empty state;
- the selection toggle and its clearing after a bulk action;
- the pagination arithmetic and Previous/Next/page-link rules;
- the status-to-emoji table.

The modules are:

| file | module | what it holds |
|---|---|---|
| `text.dfy` | `Text` | substring search, lower-casing of ASCII letters, and white-space trimming |
| `doctype.dfy` | `Doctype` | the signature table, `VersionOf` (the reference function) and the loop `GetHTMLVersion` |
| `models.dfy`, `html.dfy` | `Models`, `Html` | the crawl record (a `Record` value and the in-place `CrawlResult` class) and the parsed-page tree |
| `extract.dfy` | `Extract` | the walk as a pure fold (`Walk`), reference definitions, and the in-place methods `ExtractInfo` / `CheckForLoginForm` |
| `link_check.dfy` | `LinkCheck` | `CheckLinks` on the record, specified by the `Checked` and `Broken` functions |
| `crawler.dfy` | `Crawler` | `Crawl` on the record, specified by the `CrawlOf` function |
| `selection.dfy` | `Selection` | the selection toggle, shared by both results views |
| `home_page.dfy` | `HomePage` | the home page's state, filter and rendering choice |
| `results_display.dfy` | `ResultsDisplay` | the paginated results view as a state machine |
| `emojis.dfy` | `Emojis` | the status marks |

### How the walk is specified

The walk is `extractInfo` together with `checkForLoginForm`. Its model is the
function `Extract.Walk`, which follows the Go recursion node by node. The
in-place method `ExtractInfo` is proved equal to it.

`Walk` is then proved equal to a declarative description:

- the nodes it visits, `Visited`, in document pre-order. `Visited` is all of
  `PreOrder` whenever the record's URL parses (`VisitsEverything`);
- replayed one by one through `Contribute`, which gives each node's own effect
  on the record.

The field-by-field properties are proved about that description.

### Pruning

When the record's own URL fails to parse, an `<a>` with a parseable href
returns from `extractInfo` early. That early return also skips the element's
children. The model keeps this behaviour; it is the `Prunes` predicate.

### Two details of the code the model keeps

- **Added onto.** The walk adds onto the heading counts and link counters
  the record already holds (server/internal/crawler/crawler.go lines 70 and
  87-89). The link check appends to the broken links it already holds
  (line 174). `FreshCrawl` states the values for a record that starts out
  empty.
- **Trimmed at both ends.** The body is trimmed at both ends
  (`strings.TrimSpace`). By `TrimDoesNotMatter`, trimming never changes the
  answer.

## Model

| member | source | states |
|---|---|---|
| Text.Contains | server/internal/crawler/crawler.go:139 | substring search; the empty string occurs in every string (`ContainsIff` gives its positional meaning) |
| Text.ContainsIff | client/src/pages/HomePage.tsx:22-24 | the search succeeds exactly when the string occurs at some position |
| Text.ToLower | server/internal/crawler/crawler.go:123 | the result has the input's length and each character is lower-cased on its own (ASCII letters only) |
| Text.TrimSpace | server/internal/crawler/crawler.go:123 | the result is the body without its leading and trailing white-space runs; it starts and ends with a non-space character |
| Text.TrimmedSearch | server/internal/crawler/crawler.go:123 | for a signature whose first and last characters are not white space, searching the trimmed lower-cased body finds exactly what searching the untrimmed one finds |
| Doctype.FirstMatch | server/internal/crawler/crawler.go:138-144 | the answer is "Unknown" or the version of some table entry |
| Doctype.VersionOf | server/internal/crawler/crawler.go:121-145 | the label is always one of the seven versions or "Unknown" |
| Doctype.GetHTMLVersion | server/internal/crawler/crawler.go:121-145 | the loop returns the version of the first table entry whose keyword occurs in the trimmed, lower-cased body, else "Unknown" (`VersionOf`) |
| Doctype.FirstMatchIsFirst | server/internal/crawler/crawler.go:138-144 | the answer is "Unknown" or the version of an entry that occurs with no earlier entry occurring; "Unknown" when no keyword occurs; a version when some keyword occurs |
| Doctype.VersionOfRange | server/internal/crawler/crawler.go:125-144 | the answer is one of the seven labels or "Unknown", and it is "Unknown" exactly when no signature occurs |
| Doctype.SignatureVersions | server/internal/crawler/crawler.go:129-135 | every version in the table is one of the labels and differs from "Unknown" |
| Doctype.TrimDoesNotMatter | server/internal/crawler/crawler.go:123 | trimming never changes the answer: it is the first match in the lower-cased untrimmed body |
| Doctype.KeywordEnds | server/internal/crawler/crawler.go:129-135 | every keyword starts and ends with a non-space character |
| Doctype.SameHitsSameMatch | server/internal/crawler/crawler.go:138-142 | two texts in which the same keywords occur get the same answer |
| Doctype.DoctypeHtmlWins | server/internal/crawler/crawler.go:129 | wherever "<!doctype html>" occurs, in any letter case, the answer is "HTML5" |
| Doctype.DoctypeAfterPrefix | server/internal/crawler/crawler_test.go:225-254 | "<!DOCTYPE html>" after any prefix (spaces, a newline) is "HTML5" |
| Doctype.EmptyBodyIsUnknown | server/internal/crawler/crawler_test.go:245-249 | the empty body is "Unknown" |
| Doctype.ProfileDoctype | server/internal/crawler/crawler.go:135 | `<!DOCTYPE html profile=` followed by text without '!' or '-' is "HTML5 with profile", because "<!doctype html>" does not occur in it |
| Doctype.ProfileDoctypeExample | server/internal/crawler/crawler_test.go:270-274 | the profile page of the test table is "HTML5 with profile" |
| Extract.Inc | server/internal/crawler/crawler.go:70 | `m[k]++` adds one to key k (a missing key reads as 0) and changes no other key |
| Extract.AnchorLoopResolves | server/internal/crawler/crawler.go:72-91 | when the record's URL parses, the attribute loop appends the resolved parseable hrefs in attribute order and counts each one as internal or external |
| Extract.AnchorLoopWithoutBase | server/internal/crawler/crawler.go:72-82 | when the record's URL does not parse, the loop records nothing and abandons the element exactly when some href parses |
| Extract.AbortSticky | server/internal/crawler/crawler.go:78-82 | once the element is abandoned, the remaining attributes change nothing |
| Extract.NodeStepFacts | server/internal/crawler/crawler.go:63-96 | a node's own step is its `Contribute`ion, its `NodeLinks`, and a descent unless `Prunes` holds |
| Extract.AnchorStepFacts | server/internal/crawler/crawler.go:71-92 | the same for an `<a>` element: its links are its resolved hrefs, and it is pruned exactly when the record's own URL does not parse while some href of the element does |
| Extract.ReplayAppend | server/internal/crawler/crawler.go:98-100 | replaying two node sequences one after the other is replaying their concatenation; the URL never changes |
| Extract.LinksOfAppend | server/internal/crawler/crawler.go:99 | the links of a concatenation are the concatenated links |
| Extract.Walk | server/internal/crawler/crawler.go:61-102 | the recursion over one subtree keeps the record's URL and broken links |
| Extract.WalkAll | server/internal/crawler/crawler.go:98-100 | the same for a list of siblings walked in order |
| Extract.WalkReplays | server/internal/crawler/crawler.go:61-102 | the walk of a subtree is the replay of its visited nodes in pre-order, and its links are theirs |
| Extract.WalkAllReplays | server/internal/crawler/crawler.go:98-100 | the same for a list of siblings walked in order |
| Extract.ReplayFrame | server/internal/crawler/crawler.go:63-96 | only the title, headings, the two link counters and the login flag change |
| Extract.ReplayHeadings | server/internal/crawler/crawler.go:69-70 | every key gains the number of visited h1..h6 elements with that tag (others gain nothing); the new keys are the visited heading tags |
| Extract.HeadingsSeenSnoc | server/internal/crawler/crawler.go:69-70 | the heading tags seen grow by the last node's tag when it is a heading |
| Extract.ReplayLinkCounts | server/internal/crawler/crawler.go:86-90 | the internal and external counters grow by the internal and external hrefs of the visited anchors |
| Extract.ReplayLoginForm | server/internal/crawler/crawler.go:93-94 | the login flag is set exactly when it was set or a visited form holds a password input |
| Extract.ReplayTitle | server/internal/crawler/crawler.go:65-68 | the title is the first child's text of the last visited `<title>` that has a child, or unchanged when there is none |
| Extract.HrefCountSplit | server/internal/crawler/crawler.go:86-90 | each parsed href is counted exactly once, as internal or as external |
| Extract.LinkCountSplit | server/internal/crawler/crawler.go:84-90 | internal plus external link counts equal the number of links recorded |
| Extract.VisitsEverything | server/internal/crawler/crawler.go:78-82 | when the record's URL parses, the walk visits every node in document pre-order |
| Extract.VisitsEverythingAll | server/internal/crawler/crawler.go:98-100 | the same for a list of siblings |
| Extract.WalkHeadings | server/internal/crawler/crawler.go:69-70 | heading counts add onto the existing ones by the number of visited elements of each heading tag; other keys keep their count |
| Extract.WalkLinks | server/internal/crawler/crawler.go:71-100 | the returned links are the visited anchors' resolved hrefs in document order, duplicates kept; the counters grow by the internal/external ones, together by the number of links |
| Extract.WalkLoginForm | server/internal/crawler/crawler.go:93-94 | the login flag ends up set exactly when it was set or a visited form holds a password input; it is never cleared |
| Extract.WalkTitle | server/internal/crawler/crawler.go:65-68 | the last visited `<title>` with a child wins |
| Extract.WalkFrame | server/internal/crawler/crawler.go:61-102 | the walk changes only the title, headings, link counters and login flag |
| Extract.CheckForLoginForm | server/internal/crawler/crawler.go:105-118 | the login flag becomes its old value or-ed with "a password `<input>` at or below the node"; nothing else changes |
| Extract.VisitAnchor | server/internal/crawler/crawler.go:71-92 | the in-place attribute loop ends in the state `AnchorLoop` describes; its early return is the abandonment |
| Extract.VisitNode | server/internal/crawler/crawler.go:63-96 | the in-place `switch` leaves the record, links and descent that `NodeStep` describes |
| Extract.ExtractInfo | server/internal/crawler/crawler.go:61-102 | the record ends as `Walk` leaves it, and the returned links are `Walk`'s |
| Extract.ExtractChildren | server/internal/crawler/crawler.go:98-100 | the in-place children loop leaves the record as `WalkAll` does and returns its links |
| Extract.WalkAllSnoc | server/internal/crawler/crawler.go:98-100 | one more child in the loop walks that child from the record the earlier ones left and appends its links |
| LinkCheck.Broken | server/internal/crawler/crawler.go:153-171 | never more entries than links; every entry is for a listed URL and has status 400 or more |
| LinkCheck.Checked | server/internal/crawler/crawler.go:173-177 | after the check the inaccessible count equals the length of the broken-link list, and the entries held before are kept as its prefix |
| LinkCheck.CheckLinks | server/internal/crawler/crawler.go:148-178 | the record ends as `Checked` describes: the entries appended after the existing ones in link order, and the count set to the new length of the list |
| LinkCheck.BrokenCounts | server/internal/crawler/crawler.go:153-175 | whatever the order, entry (u, s) occurs once for every position whose link is u and whose own HEAD request answers s >= 400; failed requests produce nothing |
| LinkCheck.BrokenMembership | server/internal/crawler/crawler.go:164-166 | an entry is produced exactly when some position holds its URL and that position's request answers its status, 400 or more |
| LinkCheck.DuplicatesCheckedApart | server/internal/crawler/crawler.go:153-158 | each occurrence of a URL gets a request of its own: a URL listed twice whose first request answers 404 and whose second fails gives one entry |
| LinkCheck.NothingBroken | server/internal/crawler/crawler.go:158-166 | when every request fails or answers below 400, nothing is appended |
| Crawler.CrawlOf | server/internal/crawler/crawler.go:18-58 | the crawl returns an error exactly when it leaves status "error", and the message stored is the error's |
| Crawler.Completed | server/internal/crawler/crawler.go:47-57 | a completed record has status "completed", time stamp `now`, and an inaccessible count equal to its number of broken links |
| Crawler.Crawl | server/internal/crawler/crawler.go:18-58 | the record and the returned error are those of `CrawlOf` |
| Crawler.Analyze | server/internal/crawler/crawler.go:36-57 | after the read step, the record and error are those of `CrawlOf` for the body |
| Crawler.Complete | server/internal/crawler/crawler.go:47-57 | after a parse, the record is walked, link-checked and completed as `Completed` describes |
| Crawler.FetchFailure | server/internal/crawler/crawler.go:20-34 | a fetch or read failure returns its error and sets status "error" and the message, changing nothing else |
| Crawler.ParseFailure | server/internal/crawler/crawler.go:36-45 | a parse failure does the same, with the doctype label already stored |
| Crawler.Success | server/internal/crawler/crawler.go:47-57 | a parsed page ends "completed" at time `now` with no error, whatever its HTTP status; its doctype label is stored; broken links are appended and counted with those already held; id, URL, creation time and message are kept |
| Crawler.WalkIgnoresVersion | server/internal/crawler/crawler.go:37-48 | storing the doctype label before the walk does not change the links the walk finds |
| Crawler.FreshCrawl | server/internal/crawler/crawler_test.go:36-54 | for an empty record with a parseable URL, a successful crawl reports per-tag heading counts, the internal/external split of all anchor links, the login flag and the broken-link count of the whole page |
| Crawler.FreshWalk | server/internal/crawler/crawler.go:61-102 | from an empty record whose URL parses, the walk reports the per-tag heading counts, the links and their internal/external split, and the login flag of the whole tree |
| Selection.Without | client/src/pages/HomePage.tsx:42 | the id is gone, no other id is added, and the list does not grow |
| Selection.Toggle | client/src/pages/HomePage.tsx:39-45 | the toggled id is selected afterwards exactly when it was not before, and no id other than it is added |
| Selection.WithoutCounts | client/src/pages/HomePage.tsx:42 | filtering an id out removes every occurrence of it and keeps every other id as often as before |
| Selection.WithoutAbsent | client/src/pages/HomePage.tsx:42 | filtering out an absent id changes nothing |
| Selection.WithoutAppend | client/src/pages/HomePage.tsx:42 | filtering out distributes over concatenation |
| Selection.WithoutTwice | client/src/pages/HomePage.tsx:42 | filtering out twice is filtering out once |
| Selection.ToggleFlips | client/src/pages/HomePage.tsx:39-45 | a toggle flips whether the toggled id is selected and no other id's |
| Selection.ToggleKeepsOthers | client/src/components/CrawlResultsDisplay.tsx:44-50 | every other id keeps its order and multiplicity |
| Selection.ToggleTwiceRestores | client/src/pages/HomePage.tsx:39-45 | an absent id is appended at the end, and toggling it again restores the list |
| Selection.ToggleKeepsNoDuplicates | client/src/pages/HomePage.tsx:39-45 | a selection without duplicates keeps none after a toggle |
| Selection.WithoutKeepsNoDuplicates | client/src/pages/HomePage.tsx:42 | filtering an id out of a list without duplicates leaves one without duplicates, made of original ids |
| HomePage.Matches | client/src/pages/HomePage.tsx:21-25 | an empty term matches every result |
| HomePage.Filtered | client/src/pages/HomePage.tsx:19-26 | the kept results are results that match, and there are no more of them than results |
| HomePage.Render | client/src/pages/HomePage.tsx:59-96 | the empty-state card shows exactly when there are no results; the table's rows are results, and its bulk buttons are disabled exactly when nothing is selected |
| HomePage.CheckboxChange | client/src/pages/HomePage.tsx:39-45 | a checkbox click flips whether the row's id is selected and changes nothing but the selection (`CheckingEnablesBulk` shows it enabling the bulk buttons) |
| HomePage.BulkActionDone | client/src/pages/HomePage.tsx:47-55 | a finished bulk delete or re-run empties the selection and changes nothing else (`BulkActionClears` shows the buttons disabled afterwards) |
| HomePage.FilteredExactly | client/src/pages/HomePage.tsx:19-26 | a result is kept exactly when it matches: the lower-cased term occurs in its lower-cased URL, title or status |
| HomePage.FilteredAppend | client/src/pages/HomePage.tsx:20-25 | filtering a concatenation filters each part, so kept results stay in order |
| HomePage.EmptyTermKeepsAll | client/src/pages/HomePage.tsx:21-24 | an empty term keeps every result |
| HomePage.FilteredIdempotent | client/src/pages/HomePage.tsx:19-26 | filtering twice with one term is filtering once |
| HomePage.FilterIgnoresTermCase | client/src/pages/HomePage.tsx:22-24 | the term's letter case does not matter |
| HomePage.EmptyCardOnlyWithoutResults | client/src/pages/HomePage.tsx:59 | the empty-state card shows exactly when the unfiltered list is empty; a search matching nothing shows an empty table |
| HomePage.BulkActionClears | client/src/pages/HomePage.tsx:47-55 | after a bulk action the selection is empty and the bulk buttons are disabled |
| HomePage.CheckingEnablesBulk | client/src/pages/HomePage.tsx:82-96 | selecting an unselected row enables the bulk buttons; a click changes only the selection |
| ResultsDisplay.Offset | client/src/components/CrawlResultsDisplay.tsx:29 | the offset is a whole number of pages, and not negative from page 1 on |
| ResultsDisplay.PageLinks | client/src/components/CrawlResultsDisplay.tsx:109-118 | one link per page, each numbered within 1..count, and at most one of them active |
| ResultsDisplay.Paginate | client/src/components/CrawlResultsDisplay.tsx:35 | the page becomes the number given, unchecked, and nothing else changes |
| ResultsDisplay.PrevDisabled | client/src/components/CrawlResultsDisplay.tsx:104-107 | Previous is disabled only on page 1, where the slice starts at offset 0 (`NoResultsNextEnabled`, `Step`) |
| ResultsDisplay.NextDisabled | client/src/components/CrawlResultsDisplay.tsx:120-125 | Next is disabled only on the page equal to the page count, whose successor would start just past every page (`NoResultsNextEnabled`, `NextRunsPastLastPage`) |
| ResultsDisplay.Step | client/src/components/CrawlResultsDisplay.tsx:35-60 | one user event; the page never drops below 1 (Previous is disabled on page 1 and the links are numbered from 1) |
| ResultsDisplay.TotalPages | client/src/components/CrawlResultsDisplay.tsx:33 | the page count times five covers every result, and one page fewer does not |
| ResultsDisplay.TotalPagesIsCeiling | client/src/components/CrawlResultsDisplay.tsx:33 | it is the least such count, and 0 exactly when there are no results |
| ResultsDisplay.OffsetsTilePages | client/src/components/CrawlResultsDisplay.tsx:29 | page 1 asks for offset 0 and consecutive pages are five apart; pages 1..count start inside the results and later ones past them |
| ResultsDisplay.PageLinksNumbering | client/src/components/CrawlResultsDisplay.tsx:109-118 | links are numbered 1..count, link i is active iff i is the current page, and some link is active iff the current page is in range |
| ResultsDisplay.NoResultsNextEnabled | client/src/components/CrawlResultsDisplay.tsx:104-125 | with no results there are no page links; Previous is disabled and Next enabled on page 1 |
| ResultsDisplay.StepTouchesOneField | client/src/components/CrawlResultsDisplay.tsx:35-60 | selection events touch only the selection (a bulk action empties it), page events only the page, the search box only the term |
| ResultsDisplay.ClickPageLinkActivates | client/src/components/CrawlResultsDisplay.tsx:109-118 | a page link moves to its page, whose link is then active |
| ResultsDisplay.NextRunsPastLastPage | client/src/components/CrawlResultsDisplay.tsx:120-125 | with no results, Next leads from page 1 to 2 to 3, past the last page |
| ResultsDisplay.BoundedNextStaysInRange | client/src/components/CrawlResultsDisplay.tsx:120-125 | with Next disabled at or past the last page, every event keeps the page in range |
| Emojis.StatusEmoji | client/src/lib/emojis.ts:3-15 | every status gets one of the five marks |
| Emojis.MarksTellStatusesApart | client/src/lib/emojis.ts:4-15 | the four known statuses get four distinct marks; a status gets the unknown mark exactly when it is not known |
| Emojis.KnownMarks | client/src/lib/emojis.ts:5-12 | completed, error, queued and running map to U+2705, U+274C, U+23F3 and U+2699 U+FE0F |

## Left out

- The goroutine fan-out of `checkLinks` (`sync.WaitGroup`, the channel) is not modelled. `CheckLinks` runs the requests one after another in link order. The entries it appends come in link order, whereas the source's order depends on which request finishes first. `BrokenCounts` states what holds for every order.
- The network, the body reader, the HTML parser and the clock are inputs. These are `http.Get`, `io.ReadAll`, `http.Head`, `html.Parse` and `time.Now`. Logging is dropped.
- URL parsing and reference resolution (`url.Parse`, `URL.ResolveReference`, section 5.2 of RFC 3986) are an input pair of functions. Only the parsed host is looked at.
- Text.ToLower: lower-cases the ASCII letters only. Go's `strings.ToLower` and JavaScript's `toLowerCase` also map other Unicode letters.
- The body is a string of characters. Go converts the bytes with `string(bodyBytes)`, and invalid UTF-8 is not modelled.
- Extract.Inc: a record whose heading map is nil would make the Go code panic on the first heading. The model's map is always present.
- Counters are unbounded integers. Go's `int` width is not modelled.
- `html.Node`'s pointer links are modelled as a tree value. The model has no parent or sibling aliasing; the children list is the `FirstChild`/`NextSibling` chain.
- The worker pool, the database, the API handlers, the JSON encoding of the record and the server bootstrap are not part of this model. Neither are the client's data fetching, polling, routing and rendering. The client's results carry only the fields the filter reads.
- ResultsDisplay.Step: Previous and Next are disabled only through the "pointer-events-none" class. The model reads that class as "the click does nothing".
- ResultsDisplay.Step: the total number of results is an input. The view reads it from `useCrawlResults` (client/src/components/CrawlResultsDisplay.tsx:26-33), but the hook in client/src/hooks/useCrawlResults.ts:5-24 takes no options and returns no total. As shipped, the page count is then not a number, and the view is not routed (client/src/App.tsx:11-14). The model describes the view as written for a hook that reports a total.

## Findings

| source | as written | input that shows it | evidently intended | confidence | as-written member | corrected member |
|---|---|---|---|---|---|---|
| client/src/components/CrawlResultsDisplay.tsx:122-124 | Next is disabled only when the current page equals the page count | no results (page count 0) on page 1: Next moves to page 2, then 3, each asking for a slice past the end; this needs a results hook that reports a total, which client/src/hooks/useCrawlResults.ts does not | Next disabled on the last page and beyond it | medium; not executed | ResultsDisplay.NextRunsPastLastPage | ResultsDisplay.BoundedNextStaysInRange |
