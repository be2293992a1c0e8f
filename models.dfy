/** The crawl record (server/internal/models/crawl.go) and the small
    wrapper type shared by the analyser's modules. */
module Models {

  datatype Option<T> = None | Some(value: T)

  /** A timestamp; the clock itself is an input of the model. */
  type Time = int

  /** One entry of `BrokenLinks`: `{"url": ..., "status_code": ...}`. */
  datatype BrokenLink = BrokenLink(url: string, statusCode: int)

  /** The value of a `CrawlResult` at one moment. */
  datatype Record = Record(
    id: string,
    url: string,
    status: string,
    pageTitle: string,
    htmlVersion: string,
    headings: map<string, int>,
    internalLinksCount: int,
    externalLinksCount: int,
    inaccessibleLinksCount: int,
    brokenLinks: seq<BrokenLink>,
    hasLoginForm: bool,
    errorMessage: string,
    createdAt: Time,
    updatedAt: Time)

  /** The record the crawler receives by pointer and updates in place. */
  class CrawlResult {
    var id: string
    var url: string
    var status: string
    var pageTitle: string
    var htmlVersion: string
    var headings: map<string, int>
    var internalLinksCount: int
    var externalLinksCount: int
    var inaccessibleLinksCount: int
    var brokenLinks: seq<BrokenLink>
    var hasLoginForm: bool
    var errorMessage: string
    var createdAt: Time
    var updatedAt: Time

    /** The record's current value. */
    function Value(): Record
      reads this
    {
      Record(id, url, status, pageTitle, htmlVersion, headings, internalLinksCount,
             externalLinksCount, inaccessibleLinksCount, brokenLinks, hasLoginForm,
             errorMessage, createdAt, updatedAt)
    }
  }
}
