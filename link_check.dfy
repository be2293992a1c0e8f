/** Broken-link aggregation (`checkLinks` in
    server/internal/crawler/crawler.go): every link gets a HEAD request of
    its own; a link whose answer has status 400 or more is appended to the
    record's broken links, a link whose request fails is dropped, and the
    inaccessible-link count is then set to the length of the list.

    The HEAD requests are an input, answered per request: the link at
    position `i` of the list gets `head(i, link)`, `None` when the request
    fails and `Some(status)` otherwise. Two occurrences of one URL are two
    requests and may get different answers. */
module LinkCheck {
  import opened Models

  /** The answer to the HEAD request sent for each position of the link list. */
  type HeadAnswers = (nat, string) -> Option<int>

  /** `resp.StatusCode >= 400`. */
  predicate IsBrokenStatus(status: int)
  {
    status >= 400
  }

  /** The entry, if any, that the request for `link` at position `i` produces. */
  function EntryAt(i: nat, link: string, head: HeadAnswers): seq<BrokenLink>
  {
    match head(i, link)
    case None => []
    case Some(status) => if IsBrokenStatus(status) then [BrokenLink(link, status)] else []
  }

  /** The entries the checks of `links` produce, taken in link order. */
  function Broken(links: seq<string>, head: HeadAnswers): (r: seq<BrokenLink>)
    ensures |r| <= |links|
    ensures forall e :: e in r ==> e.url in links && IsBrokenStatus(e.statusCode)
  {
    if links == [] then []
    else Broken(links[..|links| - 1], head) + EntryAt(|links| - 1, links[|links| - 1], head)
  }

  /** The record after the check: the entries appended to the ones it
      held, and the count set to the length of the whole list. */
  function Checked(rec: Record, links: seq<string>, head: HeadAnswers): (r: Record)
    ensures r.inaccessibleLinksCount == |r.brokenLinks|
    ensures |rec.brokenLinks| <= |r.brokenLinks| && r.brokenLinks[..|rec.brokenLinks|] == rec.brokenLinks
  {
    var all := rec.brokenLinks + Broken(links, head);
    rec.(brokenLinks := all, inaccessibleLinksCount := |all|)
  }

  /** `checkLinks(links, result)`, with the HEAD requests run one after
      another in link order. */
  method CheckLinks(links: seq<string>, head: HeadAnswers, result: CrawlResult)
    modifies result
    ensures result.Value() == Checked(old(result.Value()), links, head)
  {
    ghost var before := result.brokenLinks;
    for i := 0 to |links|
      invariant result.Value() == old(result.Value()).(brokenLinks := before + Broken(links[..i], head))
    {
      assert links[..i + 1][..i] == links[..i];
      var link := links[i];
      var resp := head(i, link);
      if resp.None? {
        continue;
      }
      if IsBrokenStatus(resp.value) {
        result.brokenLinks := result.brokenLinks + [BrokenLink(link, resp.value)];
      }
    }
    assert links[..|links|] == links;
    result.inaccessibleLinksCount := |result.brokenLinks|;
  }

  /** The positions whose request produces the entry `b`: the link there
      is `b`'s URL and its answer is `b`'s status, 400 or more. */
  ghost function Producing(links: seq<string>, head: HeadAnswers, b: BrokenLink): set<nat>
  {
    set i: nat | i < |links| && links[i] == b.url && head(i, links[i]) == Some(b.statusCode)
                 && IsBrokenStatus(b.statusCode)
  }

  /** The positions producing `b` in a list are those of the list without
      its last link, plus the last position when its request produces `b`. */
  lemma ProducingSnoc(links: seq<string>, head: HeadAnswers, b: BrokenLink)
    requires links != []
    ensures var n := |links| - 1;
      var last: set<nat> := if multiset(EntryAt(n, links[n], head))[b] > 0 then {n} else {};
      && Producing(links, head, b) == Producing(links[..n], head, b) + last
      && n !in Producing(links[..n], head, b)
      && multiset(EntryAt(n, links[n], head))[b] == |last|
  {
    var n := |links| - 1;
    var init := links[..n];
    forall i | 0 <= i < n ensures init[i] == links[i] {}
  }

  /** Which entries are produced, and how many of each, whatever order the
      checks finish in: entry `b` occurs once for every position whose
      request produces it; failed requests and statuses below 400 produce
      nothing. */
  lemma {:induction false} BrokenCounts(links: seq<string>, head: HeadAnswers, b: BrokenLink)
    ensures multiset(Broken(links, head))[b] == |Producing(links, head, b)|
  {
    if links != [] {
      var n := |links| - 1;
      BrokenCounts(links[..n], head, b);
      ProducingSnoc(links, head, b);
    }
  }

  /** An entry is produced exactly when the link at some position has its
      URL and that position's request answers with its status, 400 or more. */
  lemma BrokenMembership(links: seq<string>, head: HeadAnswers, b: BrokenLink)
    ensures b in Broken(links, head)
            <==> exists i :: 0 <= i < |links| && links[i] == b.url
                             && head(i, links[i]) == Some(b.statusCode) && IsBrokenStatus(b.statusCode)
  {
    var producing := Producing(links, head, b);
    BrokenCounts(links, head, b);
    if b in Broken(links, head) {
      assert |producing| > 0;
      var i :| i in producing;
      assert 0 <= i < |links| && links[i] == b.url;
    }
    if exists i :: 0 <= i < |links| && links[i] == b.url
                   && head(i, links[i]) == Some(b.statusCode) && IsBrokenStatus(b.statusCode) {
      var i :| 0 <= i < |links| && links[i] == b.url
               && head(i, links[i]) == Some(b.statusCode) && IsBrokenStatus(b.statusCode);
      assert i in producing;
      assert multiset(Broken(links, head))[b] > 0;
    }
  }

  /** Each occurrence of a URL is checked on its own: a URL listed twice
      whose first request answers 404 and whose second fails gives one entry. */
  lemma DuplicatesCheckedApart(u: string)
    ensures Broken([u, u], (i: nat, link: string) => if i == 0 then Some(404) else None)
            == [BrokenLink(u, 404)]
  {
    assert [u, u][..1] == [u];
  }

  /** When every request answers below 400 or fails, nothing is appended. */
  lemma {:induction false} NothingBroken(links: seq<string>, head: HeadAnswers)
    requires forall i :: 0 <= i < |links| ==> head(i, links[i]).None? || !IsBrokenStatus(head(i, links[i]).value)
    ensures Broken(links, head) == []
  {
    if links != [] {
      var n := |links| - 1;
      assert forall i :: 0 <= i < n ==> links[..n][i] == links[i];
      NothingBroken(links[..n], head);
    }
  }
}
