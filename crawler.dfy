/** The crawl of one page (`Crawl` in server/internal/crawler/crawler.go):
    fetch, read, classify the doctype, parse, walk the tree, check the
    links, complete. The first three failures end the crawl with status
    "error" and the failure's message.

    The network, the HTML parser and the clock are inputs: what `http.Get`
    and `io.ReadAll` produce, a parse function, the HEAD answers of
    `LinkCheck`, the URL functions of `Extract`, and the time `time.Now`
    reads. */
module Crawler {
  import opened Models
  import opened Html
  import opened Doctype
  import opened Extract
  import opened LinkCheck

  /** What fetching the record's URL and reading the body produce. */
  datatype Fetched = GetFailed(message: string) | ReadFailed(message: string) | Body(body: string)

  /** What `html.Parse` makes of a body. */
  datatype Parsed = ParseFailed(message: string) | Document(root: Node)

  /** The record after a crawl and the error `Crawl` returns (`None` for nil). */
  datatype Outcome = Outcome(rec: Record, err: Option<string>)

  /** The record with status "error" and the given message. */
  function Failed(rec: Record, message: string): Outcome
  {
    Outcome(rec.(status := "error", errorMessage := message), Some(message))
  }

  /** What one crawl does to a record. */
  function CrawlOf(rec: Record, fetched: Fetched, parse: string -> Parsed, lib: UrlLib,
                   head: HeadAnswers, now: Time): (o: Outcome)
    ensures o.err.Some? <==> o.rec.status == "error"
    ensures o.err.Some? ==> o.rec.errorMessage == o.err.value
  {
    match fetched
    case GetFailed(message) => Failed(rec, message)
    case ReadFailed(message) => Failed(rec, message)
    case Body(body) =>
      var versioned := rec.(htmlVersion := VersionOf(body));
      match parse(body)
      case ParseFailed(message) => Failed(versioned, message)
      case Document(root) =>
        Outcome(Completed(versioned, root, lib, head, now), None)
  }

  /** The record after the walk, the link check and the completion. */
  function Completed(rec: Record, root: Node, lib: UrlLib, head: HeadAnswers, now: Time): (r: Record)
    ensures r.status == "completed" && r.updatedAt == now
    ensures r.inaccessibleLinksCount == |r.brokenLinks|
  {
    var walked := Walk(root, rec, lib);
    Checked(walked.rec, walked.links, head).(status := "completed", updatedAt := now)
  }

  /** `Crawl(result)`. */
  method Crawl(result: CrawlResult, fetched: Fetched, parse: string -> Parsed, lib: UrlLib,
               head: HeadAnswers, now: Time) returns (err: Option<string>)
    modifies result
    ensures result.Value() == CrawlOf(old(result.Value()), fetched, parse, lib, head, now).rec
    ensures err == CrawlOf(old(result.Value()), fetched, parse, lib, head, now).err
  {
    if fetched.GetFailed? || fetched.ReadFailed? {
      result.status := "error";
      result.errorMessage := fetched.message;
      return Some(fetched.message);
    }
    err := Analyze(fetched.body, result, parse, lib, head, now);
  }

  /** The steps of `Crawl` after the body has been read. */
  method Analyze(body: string, result: CrawlResult, parse: string -> Parsed, lib: UrlLib,
                 head: HeadAnswers, now: Time) returns (err: Option<string>)
    modifies result
    ensures result.Value() == CrawlOf(old(result.Value()), Body(body), parse, lib, head, now).rec
    ensures err == CrawlOf(old(result.Value()), Body(body), parse, lib, head, now).err
  {
    ghost var start := result.Value();
    var version := GetHTMLVersion(body);
    result.htmlVersion := version;
    ghost var versioned := result.Value();
    assert versioned == start.(htmlVersion := VersionOf(body));
    var doc := parse(body);
    if doc.ParseFailed? {
      result.status := "error";
      result.errorMessage := doc.message;
      return Some(doc.message);
    }
    Complete(doc.root, result, lib, head, now);
    return None;
  }

  /** The steps of `Crawl` after a successful parse. */
  method Complete(root: Node, result: CrawlResult, lib: UrlLib, head: HeadAnswers, now: Time)
    modifies result
    ensures result.Value() == Completed(old(result.Value()), root, lib, head, now)
  {
    var links := ExtractInfo(root, result, lib);
    CheckLinks(links, head, result);
    result.status := "completed";
    result.updatedAt := now;
  }

  /** A failed fetch or read returns its error, sets status "error" and the
      message, and changes nothing else. */
  lemma FetchFailure(rec: Record, fetched: Fetched, parse: string -> Parsed, lib: UrlLib,
                     head: HeadAnswers, now: Time)
    requires !fetched.Body?
    ensures var o := CrawlOf(rec, fetched, parse, lib, head, now);
      && o.err == Some(fetched.message)
      && o.rec.status == "error" && o.rec.errorMessage == fetched.message
      && o.rec.(status := rec.status, errorMessage := rec.errorMessage) == rec
  {
  }

  /** A parse failure does the same, but the doctype label has already
      been stored. */
  lemma ParseFailure(rec: Record, fetched: Fetched, parse: string -> Parsed, lib: UrlLib,
                     head: HeadAnswers, now: Time)
    requires fetched.Body? && parse(fetched.body).ParseFailed?
    ensures var o := CrawlOf(rec, fetched, parse, lib, head, now);
      && o.err == Some(parse(fetched.body).message)
      && o.rec.status == "error" && o.rec.errorMessage == parse(fetched.body).message
      && o.rec.htmlVersion == VersionOf(fetched.body)
      && o.rec.(status := rec.status, errorMessage := rec.errorMessage, htmlVersion := rec.htmlVersion) == rec
  {
  }

  /** A crawl that gets a document completes, whatever the page's own HTTP
      status: status "completed", time stamp `now`, the doctype label, the
      broken links appended and counted with the ones already held, and
      id, URL, creation time and error message untouched. */
  lemma Success(rec: Record, body: string, parse: string -> Parsed, lib: UrlLib,
                head: HeadAnswers, now: Time)
    requires parse(body).Document?
    ensures var o := CrawlOf(rec, Body(body), parse, lib, head, now);
      var links := Walk(parse(body).root, rec, lib).links;
      && o.err == None
      && o.rec.status == "completed" && o.rec.updatedAt == now
      && o.rec.htmlVersion == VersionOf(body)
      && o.rec.brokenLinks == rec.brokenLinks + Broken(links, head)
      && o.rec.inaccessibleLinksCount == |o.rec.brokenLinks|
      && o.rec.id == rec.id && o.rec.url == rec.url && o.rec.createdAt == rec.createdAt
      && o.rec.errorMessage == rec.errorMessage
  {
    var versioned := rec.(htmlVersion := VersionOf(body));
    var root := parse(body).root;
    WalkFrame(root, versioned, lib);
    WalkIgnoresVersion(root, rec, VersionOf(body), lib);
  }

  /** The doctype label is not looked at by the traversal. */
  lemma WalkIgnoresVersion(root: Node, rec: Record, version: string, lib: UrlLib)
    ensures Walk(root, rec.(htmlVersion := version), lib).links == Walk(root, rec, lib).links
  {
    WalkReplays(root, rec, lib);
    WalkReplays(root, rec.(htmlVersion := version), lib);
  }

  /** A record as it is queued (no title, no headings, zero counters, no
      broken links, no login form). */
  predicate Fresh(rec: Record)
  {
    rec.pageTitle == "" && rec.headings == map[] && rec.internalLinksCount == 0
    && rec.externalLinksCount == 0 && rec.inaccessibleLinksCount == 0
    && rec.brokenLinks == [] && !rec.hasLoginForm
  }

  /** A successful crawl of a queued record whose URL parses reports the
      page itself: heading counts are the numbers of h1..h6 elements in the
      whole tree, the two link counters split the links of all anchors, the
      login flag says whether some form holds a password input, and the
      inaccessible count is the number of broken-link entries. */
  lemma FreshCrawl(rec: Record, body: string, parse: string -> Parsed, lib: UrlLib,
                   head: HeadAnswers, now: Time)
    requires Fresh(rec) && lib.parse(rec.url).Some? && parse(body).Document?
    ensures var o := CrawlOf(rec, Body(body), parse, lib, head, now);
      var nodes := PreOrder(parse(body).root);
      var links := LinksOf(nodes, rec.url, lib);
      && (forall k :: k in HeadingTags ==> Get(o.rec.headings, k) == CountTag(nodes, k))
      && o.rec.headings.Keys <= HeadingTags
      && o.rec.internalLinksCount == LinkCount(nodes, rec.url, lib, true)
      && o.rec.externalLinksCount == LinkCount(nodes, rec.url, lib, false)
      && o.rec.internalLinksCount + o.rec.externalLinksCount == |links|
      && o.rec.hasLoginForm == (exists i :: 0 <= i < |nodes| && IsLoginForm(nodes[i]))
      && o.rec.brokenLinks == Broken(links, head)
      && o.rec.inaccessibleLinksCount == |Broken(links, head)|
  {
    var versioned := rec.(htmlVersion := VersionOf(body));
    var root := parse(body).root;
    FreshWalk(root, versioned, lib);
    var w := Walk(root, versioned, lib);
    assert CrawlOf(rec, Body(body), parse, lib, head, now).rec
        == Checked(w.rec, w.links, head).(status := "completed", updatedAt := now);
  }

  /** The walk of a whole page from a queued record whose URL parses. */
  lemma FreshWalk(root: Node, rec: Record, lib: UrlLib)
    requires Fresh(rec) && lib.parse(rec.url).Some?
    ensures var w := Walk(root, rec, lib);
      var nodes := PreOrder(root);
      && w.links == LinksOf(nodes, rec.url, lib)
      && (forall k :: k in HeadingTags ==> Get(w.rec.headings, k) == CountTag(nodes, k))
      && w.rec.headings.Keys <= HeadingTags
      && w.rec.internalLinksCount == LinkCount(nodes, rec.url, lib, true)
      && w.rec.externalLinksCount == LinkCount(nodes, rec.url, lib, false)
      && w.rec.internalLinksCount + w.rec.externalLinksCount == |w.links|
      && w.rec.hasLoginForm == (exists i :: 0 <= i < |nodes| && IsLoginForm(nodes[i]))
      && w.rec.brokenLinks == [] && w.rec.url == rec.url
  {
    VisitsEverything(root, rec.url, lib);
    WalkHeadings(root, rec, lib);
    WalkLinks(root, rec, lib);
    WalkLoginForm(root, rec, lib);
    WalkFrame(root, rec, lib);
    assert HeadingsSeen(PreOrder(root)) <= HeadingTags;
  }
}
