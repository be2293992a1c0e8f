/** One traversal of the parsed page (`extractInfo` and `checkForLoginForm`
    in server/internal/crawler/crawler.go): title, heading counts, links
    with their internal/external classification, and login-form detection,
    all added onto the record the traversal is given.

    URL parsing (`url.Parse`) and reference resolution
    (`URL.ResolveReference`, section 5.2 of RFC 3986) are inputs: a
    partial parse function and a resolution function. */
module Extract {
  import opened Models
  import opened Html

  /** What the crawler reads of a parsed URL: its host. `raw` stands for
      everything else, which only the resolution function looks at. */
  datatype Url = Url(host: string, raw: string)

  /** `url.Parse` (None when it fails) and `base.ResolveReference(ref).String()`. */
  datatype UrlLib = UrlLib(parse: string -> Option<Url>, resolve: (Url, Url) -> string)

  // ------------------------------------------------------------------
  // The traversal, node by node

  const HeadingTags: set<string> := {"h1", "h2", "h3", "h4", "h5", "h6"}

  /** A Go map read: a missing key reads as 0. */
  function Get(m: map<string, int>, k: string): int
  {
    if k in m then m[k] else 0
  }

  /** `m[k]++` on a Go map. */
  function Inc(m: map<string, int>, k: string): (r: map<string, int>)
    ensures r.Keys == m.Keys + {k}
    ensures Get(r, k) == Get(m, k) + 1
    ensures forall j :: j != k ==> Get(r, j) == Get(m, j)
  {
    m[k := Get(m, k) + 1]
  }

  /** An href is internal when its own host is empty or is the base's host. */
  predicate IsInternal(link: Url, base: Url)
  {
    link.host == "" || link.host == base.host
  }

  /** Progress of the attribute loop of one `<a>` element. */
  datatype AnchorState = AnchorState(rec: Record, links: seq<string>, aborted: bool)

  /** One attribute of an `<a>`: an href that parses is resolved against the
      record's URL, appended and counted; if the record's URL itself does not
      parse, the element is abandoned (`return links`). */
  function HrefStep(a: Attr, st: AnchorState, lib: UrlLib): AnchorState
  {
    if st.aborted || a.key != "href" then st
    else match lib.parse(a.val)
      case None => st
      case Some(link) =>
        match lib.parse(st.rec.url)
        case None => st.(aborted := true)
        case Some(base) =>
          var rec := if IsInternal(link, base)
                     then st.rec.(internalLinksCount := st.rec.internalLinksCount + 1)
                     else st.rec.(externalLinksCount := st.rec.externalLinksCount + 1);
          AnchorState(rec, st.links + [lib.resolve(base, link)], false)
  }

  /** The attribute loop over a prefix of the attributes. */
  function AnchorLoop(attrs: seq<Attr>, rec: Record, lib: UrlLib): (st: AnchorState)
    ensures st.rec.url == rec.url && st.rec.brokenLinks == rec.brokenLinks
  {
    if attrs == [] then AnchorState(rec, [], false)
    else HrefStep(attrs[|attrs| - 1], AnchorLoop(attrs[..|attrs| - 1], rec, lib), lib)
  }

  /** `type="password"` among an element's attributes. */
  predicate HasPasswordType(attrs: seq<Attr>)
  {
    exists i :: 0 <= i < |attrs| && attrs[i].key == "type" && attrs[i].val == "password"
  }

  /** A password `<input>` at `n` or anywhere below it (what
      `checkForLoginForm(n, ...)` looks for). */
  predicate PasswordInputIn(n: Node)
    decreases n
  {
    (IsElement(n, "input") && HasPasswordType(n.attrs))
    || exists i :: 0 <= i < |n.children| && PasswordInputIn(n.children[i])
  }

  /** What visiting one node does before its children are visited. */
  datatype NodeState = NodeState(rec: Record, links: seq<string>, descend: bool)

  function NodeStep(n: Node, rec: Record, lib: UrlLib): (st: NodeState)
    ensures st.rec.url == rec.url && st.rec.brokenLinks == rec.brokenLinks
  {
    if n.kind != ElementNode then NodeState(rec, [], true)
    else if n.data == "title" then
      NodeState(if |n.children| > 0 then rec.(pageTitle := n.children[0].data) else rec, [], true)
    else if n.data in HeadingTags then
      NodeState(rec.(headings := Inc(rec.headings, n.data)), [], true)
    else if n.data == "a" then
      var st := AnchorLoop(n.attrs, rec, lib);
      NodeState(st.rec, st.links, !st.aborted)
    else if n.data == "form" then
      NodeState(rec.(hasLoginForm := rec.hasLoginForm || PasswordInputIn(n)), [], true)
    else NodeState(rec, [], true)
  }

  /** The record and link list after the traversal of one subtree. */
  datatype Walked = Walked(rec: Record, links: seq<string>)

  /** `extractInfo(n, result)`: the node itself, then its children in order. */
  function Walk(n: Node, rec: Record, lib: UrlLib): (w: Walked)
    ensures w.rec.url == rec.url && w.rec.brokenLinks == rec.brokenLinks
    decreases n, 1
  {
    var st := NodeStep(n, rec, lib);
    if !st.descend then Walked(st.rec, st.links)
    else
      var w := WalkAll(n.children, st.rec, lib);
      Walked(w.rec, st.links + w.links)
  }

  /** The children loop over a prefix of the children. */
  function WalkAll(cs: seq<Node>, rec: Record, lib: UrlLib): (w: Walked)
    ensures w.rec.url == rec.url && w.rec.brokenLinks == rec.brokenLinks
    decreases cs, 0
  {
    if cs == [] then Walked(rec, [])
    else
      var w := WalkAll(cs[..|cs| - 1], rec, lib);
      var v := Walk(cs[|cs| - 1], w.rec, lib);
      Walked(v.rec, w.links + v.links)
  }

  // ------------------------------------------------------------------
  // Reference definitions: which nodes the traversal visits, and what
  // each visited node contributes on its own

  /** An `<a>` whose subtree the traversal abandons: one of its hrefs parses
      but the record's own URL does not. */
  predicate Prunes(n: Node, url: string, lib: UrlLib)
  {
    IsElement(n, "a") && lib.parse(url).None?
    && exists i :: 0 <= i < |n.attrs| && n.attrs[i].key == "href" && lib.parse(n.attrs[i].val).Some?
  }

  /** The nodes the traversal visits, in document pre-order. */
  function Visited(n: Node, url: string, lib: UrlLib): seq<Node>
    decreases n, 1
  {
    [n] + if Prunes(n, url, lib) then [] else VisitedAll(n.children, url, lib)
  }

  function VisitedAll(cs: seq<Node>, url: string, lib: UrlLib): seq<Node>
    decreases cs, 0
  {
    if cs == [] then []
    else VisitedAll(cs[..|cs| - 1], url, lib) + Visited(cs[|cs| - 1], url, lib)
  }

  /** All nodes of a tree in document pre-order. */
  function PreOrder(n: Node): seq<Node>
    decreases n, 1
  {
    [n] + PreOrderAll(n.children)
  }

  function PreOrderAll(cs: seq<Node>): seq<Node>
    decreases cs, 0
  {
    if cs == [] then [] else PreOrderAll(cs[..|cs| - 1]) + PreOrder(cs[|cs| - 1])
  }

  /** The parsed href of an attribute, if it is an href that parses. */
  function ParsedHref(a: Attr, lib: UrlLib): Option<Url>
  {
    if a.key == "href" then lib.parse(a.val) else None
  }

  /** The resolved hrefs of an attribute list, in order. */
  function Hrefs(attrs: seq<Attr>, base: Url, lib: UrlLib): seq<string>
  {
    if attrs == [] then []
    else Hrefs(attrs[..|attrs| - 1], base, lib)
         + match ParsedHref(attrs[|attrs| - 1], lib)
           case None => []
           case Some(link) => [lib.resolve(base, link)]
  }

  /** How many hrefs of an attribute list parse and are (not) internal. */
  function HrefCount(attrs: seq<Attr>, base: Url, lib: UrlLib, internal: bool): nat
  {
    if attrs == [] then 0
    else HrefCount(attrs[..|attrs| - 1], base, lib, internal)
         + match ParsedHref(attrs[|attrs| - 1], lib)
           case None => 0
           case Some(link) => if IsInternal(link, base) == internal then 1 else 0
  }

  /** The links one visited node contributes. */
  function NodeLinks(m: Node, url: string, lib: UrlLib): seq<string>
  {
    if !IsElement(m, "a") then []
    else match lib.parse(url)
      case None => []
      case Some(base) => Hrefs(m.attrs, base, lib)
  }

  /** How many internal (external) links one visited node contributes. */
  function NodeLinkCount(m: Node, url: string, lib: UrlLib, internal: bool): nat
  {
    if !IsElement(m, "a") then 0
    else match lib.parse(url)
      case None => 0
      case Some(base) => HrefCount(m.attrs, base, lib, internal)
  }

  predicate IsHeading(m: Node)
  {
    m.kind == ElementNode && m.data in HeadingTags
  }

  predicate IsTitleWithText(m: Node)
  {
    IsElement(m, "title") && |m.children| > 0
  }

  predicate IsLoginForm(m: Node)
  {
    IsElement(m, "form") && PasswordInputIn(m)
  }

  /** The record after one visited node's own contribution. */
  function Contribute(m: Node, rec: Record, lib: UrlLib): Record
  {
    rec.(pageTitle := if IsTitleWithText(m) then m.children[0].data else rec.pageTitle,
         headings := if IsHeading(m) then Inc(rec.headings, m.data) else rec.headings,
         internalLinksCount := rec.internalLinksCount + NodeLinkCount(m, rec.url, lib, true),
         externalLinksCount := rec.externalLinksCount + NodeLinkCount(m, rec.url, lib, false),
         hasLoginForm := rec.hasLoginForm || IsLoginForm(m))
  }

  /** The contributions of a sequence of visited nodes, in order. */
  function Replay(ns: seq<Node>, rec: Record, lib: UrlLib): Record
  {
    if ns == [] then rec else Contribute(ns[|ns| - 1], Replay(ns[..|ns| - 1], rec, lib), lib)
  }

  function LinksOf(ns: seq<Node>, url: string, lib: UrlLib): seq<string>
  {
    if ns == [] then [] else LinksOf(ns[..|ns| - 1], url, lib) + NodeLinks(ns[|ns| - 1], url, lib)
  }

  function CountTag(ns: seq<Node>, tag: string): nat
  {
    if ns == [] then 0
    else CountTag(ns[..|ns| - 1], tag) + if IsElement(ns[|ns| - 1], tag) then 1 else 0
  }

  function LinkCount(ns: seq<Node>, url: string, lib: UrlLib, internal: bool): nat
  {
    if ns == [] then 0
    else LinkCount(ns[..|ns| - 1], url, lib, internal) + NodeLinkCount(ns[|ns| - 1], url, lib, internal)
  }

  // ------------------------------------------------------------------
  // The traversal agrees with the reference definitions

  /** The attribute loop of an `<a>` when the record's URL parses: every
      href that parses is resolved, appended and counted once, in
      attribute order. */
  lemma {:induction false} AnchorLoopResolves(attrs: seq<Attr>, rec: Record, lib: UrlLib)
    requires lib.parse(rec.url).Some?
    ensures var base := lib.parse(rec.url).value;
      AnchorLoop(attrs, rec, lib)
        == AnchorState(rec.(internalLinksCount := rec.internalLinksCount + HrefCount(attrs, base, lib, true),
                            externalLinksCount := rec.externalLinksCount + HrefCount(attrs, base, lib, false)),
                       Hrefs(attrs, base, lib), false)
  {
    if attrs != [] {
      AnchorLoopResolves(attrs[..|attrs| - 1], rec, lib);
    }
  }

  /** The attribute loop of an `<a>` when the record's URL does not parse:
      nothing is recorded, and the element is abandoned exactly when one of
      its hrefs parses. */
  lemma {:induction false} AnchorLoopWithoutBase(attrs: seq<Attr>, rec: Record, lib: UrlLib)
    requires lib.parse(rec.url).None?
    ensures AnchorLoop(attrs, rec, lib)
            == AnchorState(rec, [], exists i :: 0 <= i < |attrs| && attrs[i].key == "href" && lib.parse(attrs[i].val).Some?)
  {
    if attrs != [] {
      var init := attrs[..|attrs| - 1];
      AnchorLoopWithoutBase(init, rec, lib);
      assert forall i :: 0 <= i < |init| ==> init[i] == attrs[i];
    }
  }

  /** One node's step is its contribution, its links, and whether its
      subtree is visited. */
  lemma NodeStepFacts(n: Node, rec: Record, lib: UrlLib)
    ensures NodeStep(n, rec, lib)
            == NodeState(Contribute(n, rec, lib), NodeLinks(n, rec.url, lib), !Prunes(n, rec.url, lib))
  {
    if IsElement(n, "a") {
      AnchorStepFacts(n, rec, lib);
    }
  }

  lemma AnchorStepFacts(n: Node, rec: Record, lib: UrlLib)
    requires IsElement(n, "a")
    ensures NodeStep(n, rec, lib)
            == NodeState(Contribute(n, rec, lib), NodeLinks(n, rec.url, lib), !Prunes(n, rec.url, lib))
  {
    if lib.parse(rec.url).Some? {
      AnchorLoopResolves(n.attrs, rec, lib);
    } else {
      AnchorLoopWithoutBase(n.attrs, rec, lib);
    }
  }

  lemma {:induction false} ReplayAppend(a: seq<Node>, b: seq<Node>, rec: Record, lib: UrlLib)
    ensures Replay(a + b, rec, lib) == Replay(b, Replay(a, rec, lib), lib)
    ensures Replay(a, rec, lib).url == rec.url
  {
    if b == [] {
      assert a + b == a;
    } else {
      assert (a + b)[..|a + b| - 1] == a + b[..|b| - 1];
      ReplayAppend(a, b[..|b| - 1], rec, lib);
    }
    if a != [] {
      ReplayAppend(a[..|a| - 1], [], rec, lib);
    }
  }

  lemma {:induction false} LinksOfAppend(a: seq<Node>, b: seq<Node>, url: string, lib: UrlLib)
    ensures LinksOf(a + b, url, lib) == LinksOf(a, url, lib) + LinksOf(b, url, lib)
  {
    if b == [] {
      assert a + b == a;
    } else {
      var init, last := b[..|b| - 1], b[|b| - 1];
      assert (a + b)[..|a + b| - 1] == a + init && (a + b)[|a + b| - 1] == last;
      LinksOfAppend(a, init, url, lib);
      calc {
        LinksOf(a + b, url, lib);
        LinksOf(a + init, url, lib) + NodeLinks(last, url, lib);
        LinksOf(a, url, lib) + LinksOf(init, url, lib) + NodeLinks(last, url, lib);
        LinksOf(a, url, lib) + (LinksOf(init, url, lib) + NodeLinks(last, url, lib));
      }
    }
  }

  /** The traversal of a subtree is the replay of the contributions of the
      nodes it visits, in pre-order, and its link list is their links. */
  lemma {:induction false} WalkReplays(n: Node, rec: Record, lib: UrlLib)
    ensures Walk(n, rec, lib).rec == Replay(Visited(n, rec.url, lib), rec, lib)
    ensures Walk(n, rec, lib).links == LinksOf(Visited(n, rec.url, lib), rec.url, lib)
    decreases n, 1
  {
    NodeStepFacts(n, rec, lib);
    var r1 := Contribute(n, rec, lib);
    assert Replay([n], rec, lib) == r1;
    assert LinksOf([n], rec.url, lib) == NodeLinks(n, rec.url, lib);
    if !Prunes(n, rec.url, lib) {
      var rest := VisitedAll(n.children, rec.url, lib);
      WalkAllReplays(n.children, r1, lib);
      ReplayAppend([n], rest, rec, lib);
      LinksOfAppend([n], rest, rec.url, lib);
    }
  }

  lemma {:induction false} WalkAllReplays(cs: seq<Node>, rec: Record, lib: UrlLib)
    ensures WalkAll(cs, rec, lib).rec == Replay(VisitedAll(cs, rec.url, lib), rec, lib)
    ensures WalkAll(cs, rec, lib).links == LinksOf(VisitedAll(cs, rec.url, lib), rec.url, lib)
    decreases cs, 0
  {
    if cs != [] {
      var init, last := cs[..|cs| - 1], cs[|cs| - 1];
      WalkAllReplays(init, rec, lib);
      var vs := VisitedAll(init, rec.url, lib);
      var w := WalkAll(init, rec, lib);
      ReplayAppend(vs, [], rec, lib);
      WalkReplays(last, w.rec, lib);
      var vl := Visited(last, rec.url, lib);
      ReplayAppend(vs, vl, rec, lib);
      LinksOfAppend(vs, vl, rec.url, lib);
    }
  }

  // ------------------------------------------------------------------
  // What a replay of contributions does, field by field

  /** Tag names of the headings among `ns`. */
  function HeadingsSeen(ns: seq<Node>): set<string>
  {
    set i | 0 <= i < |ns| && IsHeading(ns[i]) :: ns[i].data
  }

  /** Only the title, the headings, the two link counters and the login
      flag change. */
  lemma {:induction false} ReplayFrame(ns: seq<Node>, rec: Record, lib: UrlLib)
    ensures var r := Replay(ns, rec, lib);
      r == rec.(pageTitle := r.pageTitle, headings := r.headings,
                internalLinksCount := r.internalLinksCount,
                externalLinksCount := r.externalLinksCount,
                hasLoginForm := r.hasLoginForm)
  {
    if ns != [] {
      ReplayFrame(ns[..|ns| - 1], rec, lib);
    }
  }

  /** Every heading visited adds one to its own tag's count; no other key
      changes, and the keys that appear are exactly the headings visited. */
  lemma {:induction false} ReplayHeadings(ns: seq<Node>, rec: Record, lib: UrlLib)
    ensures Replay(ns, rec, lib).headings.Keys == rec.headings.Keys + HeadingsSeen(ns)
    ensures forall k :: Get(Replay(ns, rec, lib).headings, k)
                        == Get(rec.headings, k) + if k in HeadingTags then CountTag(ns, k) else 0
  {
    if ns != [] {
      var init, m := ns[..|ns| - 1], ns[|ns| - 1];
      var r0 := Replay(init, rec, lib);
      var r := Replay(ns, rec, lib);
      ReplayHeadings(init, rec, lib);
      assert r.headings == if IsHeading(m) then Inc(r0.headings, m.data) else r0.headings;
      HeadingsSeenSnoc(ns);
      forall k ensures Get(r.headings, k) == Get(rec.headings, k) + if k in HeadingTags then CountTag(ns, k) else 0 {
        assert CountTag(ns, k) == CountTag(init, k) + if IsElement(m, k) then 1 else 0;
      }
    }
  }

  lemma HeadingsSeenSnoc(ns: seq<Node>)
    requires ns != []
    ensures HeadingsSeen(ns) == HeadingsSeen(ns[..|ns| - 1])
                                + if IsHeading(ns[|ns| - 1]) then {ns[|ns| - 1].data} else {}
  {
    var init, m := ns[..|ns| - 1], ns[|ns| - 1];
    assert forall i :: 0 <= i < |init| ==> init[i] == ns[i];
    forall t | t in HeadingsSeen(ns) ensures t in HeadingsSeen(init) + if IsHeading(m) then {m.data} else {} {
      var i :| 0 <= i < |ns| && IsHeading(ns[i]) && ns[i].data == t;
      if i < |init| { assert init[i] == ns[i]; }
    }
  }

  /** The internal (external) counter grows by the number of internal
      (external) links of the visited anchors. */
  lemma {:induction false} ReplayLinkCounts(ns: seq<Node>, rec: Record, lib: UrlLib)
    ensures Replay(ns, rec, lib).internalLinksCount == rec.internalLinksCount + LinkCount(ns, rec.url, lib, true)
    ensures Replay(ns, rec, lib).externalLinksCount == rec.externalLinksCount + LinkCount(ns, rec.url, lib, false)
  {
    if ns != [] {
      ReplayLinkCounts(ns[..|ns| - 1], rec, lib);
      ReplayFrame(ns[..|ns| - 1], rec, lib);
    }
  }

  /** The login flag ends up set exactly when it was set already or some
      visited form holds a password input. */
  lemma {:induction false} ReplayLoginForm(ns: seq<Node>, rec: Record, lib: UrlLib)
    ensures Replay(ns, rec, lib).hasLoginForm
            == (rec.hasLoginForm || exists i :: 0 <= i < |ns| && IsLoginForm(ns[i]))
  {
    if ns != [] {
      var init := ns[..|ns| - 1];
      ReplayLoginForm(init, rec, lib);
      assert forall i :: 0 <= i < |init| ==> init[i] == ns[i];
    }
  }

  /** The title is the text of the last visited `<title>` that has a first
      child, and stays as it was when there is none. */
  lemma ReplayTitle(ns: seq<Node>, rec: Record, lib: UrlLib)
    ensures forall i :: 0 <= i < |ns| && IsTitleWithText(ns[i])
                        && (forall j :: i < j < |ns| ==> !IsTitleWithText(ns[j]))
                        ==> Replay(ns, rec, lib).pageTitle == ns[i].children[0].data
    ensures (forall i :: 0 <= i < |ns| ==> !IsTitleWithText(ns[i]))
            ==> Replay(ns, rec, lib).pageTitle == rec.pageTitle
  {
    forall i | 0 <= i < |ns| && IsTitleWithText(ns[i]) && (forall j :: i < j < |ns| ==> !IsTitleWithText(ns[j]))
      ensures Replay(ns, rec, lib).pageTitle == ns[i].children[0].data
    {
      ReplayTitleLast(ns, rec, lib, i);
    }
    ReplayTitleNone(ns, rec, lib);
  }

  /** The title set by the node at position `i` survives the later nodes
      when none of them is a `<title>` with a child. */
  lemma {:induction false} ReplayTitleLast(ns: seq<Node>, rec: Record, lib: UrlLib, i: int)
    requires 0 <= i < |ns| && IsTitleWithText(ns[i])
    requires forall j :: i < j < |ns| ==> !IsTitleWithText(ns[j])
    ensures Replay(ns, rec, lib).pageTitle == ns[i].children[0].data
  {
    var init := ns[..|ns| - 1];
    if i < |init| {
      assert !IsTitleWithText(ns[|ns| - 1]);
      assert init[i] == ns[i];
      assert forall j :: i < j < |init| ==> init[j] == ns[j];
      ReplayTitleLast(init, rec, lib, i);
    }
  }

  /** With no `<title>` that has a child, the title is left alone. */
  lemma {:induction false} ReplayTitleNone(ns: seq<Node>, rec: Record, lib: UrlLib)
    ensures (forall i :: 0 <= i < |ns| ==> !IsTitleWithText(ns[i]))
            ==> Replay(ns, rec, lib).pageTitle == rec.pageTitle
  {
    if ns != [] {
      var init := ns[..|ns| - 1];
      ReplayTitleNone(init, rec, lib);
      if forall i :: 0 <= i < |ns| ==> !IsTitleWithText(ns[i]) {
        assert forall i :: 0 <= i < |init| ==> init[i] == ns[i];
      }
    }
  }

  /** Every parsed href is either internal or external. */
  lemma {:induction false} HrefCountSplit(attrs: seq<Attr>, base: Url, lib: UrlLib)
    ensures HrefCount(attrs, base, lib, true) + HrefCount(attrs, base, lib, false) == |Hrefs(attrs, base, lib)|
  {
    if attrs != [] {
      HrefCountSplit(attrs[..|attrs| - 1], base, lib);
    }
  }

  /** Every link recorded bumps exactly one of the two counters. */
  lemma {:induction false} LinkCountSplit(ns: seq<Node>, url: string, lib: UrlLib)
    ensures LinkCount(ns, url, lib, true) + LinkCount(ns, url, lib, false) == |LinksOf(ns, url, lib)|
  {
    if ns != [] {
      var m := ns[|ns| - 1];
      LinkCountSplit(ns[..|ns| - 1], url, lib);
      if IsElement(m, "a") && lib.parse(url).Some? {
        HrefCountSplit(m.attrs, lib.parse(url).value, lib);
      }
    }
  }

  // ------------------------------------------------------------------
  // What one traversal does

  /** Without a parse failure of the record's URL nothing is pruned: the
      traversal visits every node of the tree in document pre-order. */
  lemma {:induction false} VisitsEverything(n: Node, url: string, lib: UrlLib)
    requires lib.parse(url).Some?
    ensures Visited(n, url, lib) == PreOrder(n)
    decreases n, 1
  {
    VisitsEverythingAll(n.children, url, lib);
  }

  lemma {:induction false} VisitsEverythingAll(cs: seq<Node>, url: string, lib: UrlLib)
    requires lib.parse(url).Some?
    ensures VisitedAll(cs, url, lib) == PreOrderAll(cs)
    decreases cs, 0
  {
    if cs != [] {
      VisitsEverythingAll(cs[..|cs| - 1], url, lib);
      VisitsEverything(cs[|cs| - 1], url, lib);
    }
  }

  /** Heading counts are added onto the existing ones: each of h1..h6
      grows by the number of visited elements with that tag, every other
      key keeps its count, and the only new keys are visited heading tags. */
  lemma WalkHeadings(n: Node, rec: Record, lib: UrlLib)
    ensures var v := Visited(n, rec.url, lib);
      && Walk(n, rec, lib).rec.headings.Keys == rec.headings.Keys + HeadingsSeen(v)
      && forall k :: Get(Walk(n, rec, lib).rec.headings, k)
                     == Get(rec.headings, k) + if k in HeadingTags then CountTag(v, k) else 0
  {
    WalkReplays(n, rec, lib);
    ReplayHeadings(Visited(n, rec.url, lib), rec, lib);
  }

  /** The links returned are the resolved hrefs of the visited anchors, in
      document order, duplicates kept; the two counters grow by the
      internal and the external ones among them, together by their number. */
  lemma WalkLinks(n: Node, rec: Record, lib: UrlLib)
    ensures var v := Visited(n, rec.url, lib);
      var w := Walk(n, rec, lib);
      && w.links == LinksOf(v, rec.url, lib)
      && w.rec.internalLinksCount == rec.internalLinksCount + LinkCount(v, rec.url, lib, true)
      && w.rec.externalLinksCount == rec.externalLinksCount + LinkCount(v, rec.url, lib, false)
      && (w.rec.internalLinksCount - rec.internalLinksCount)
         + (w.rec.externalLinksCount - rec.externalLinksCount) == |w.links|
  {
    var v := Visited(n, rec.url, lib);
    WalkReplays(n, rec, lib);
    ReplayLinkCounts(v, rec, lib);
    LinkCountSplit(v, rec.url, lib);
  }

  /** The login flag is set exactly when it already was or a visited form
      holds a password input; once set it stays set. */
  lemma WalkLoginForm(n: Node, rec: Record, lib: UrlLib)
    ensures var v := Visited(n, rec.url, lib);
      Walk(n, rec, lib).rec.hasLoginForm == (rec.hasLoginForm || exists i :: 0 <= i < |v| && IsLoginForm(v[i]))
    ensures rec.hasLoginForm ==> Walk(n, rec, lib).rec.hasLoginForm
  {
    WalkReplays(n, rec, lib);
    ReplayLoginForm(Visited(n, rec.url, lib), rec, lib);
  }

  /** The last visited `<title>` with a first child wins. */
  lemma WalkTitle(n: Node, rec: Record, lib: UrlLib)
    ensures var v := Visited(n, rec.url, lib);
      forall i :: 0 <= i < |v| && IsTitleWithText(v[i]) && (forall j :: i < j < |v| ==> !IsTitleWithText(v[j]))
                  ==> Walk(n, rec, lib).rec.pageTitle == v[i].children[0].data
    ensures var v := Visited(n, rec.url, lib);
      (forall i :: 0 <= i < |v| ==> !IsTitleWithText(v[i])) ==> Walk(n, rec, lib).rec.pageTitle == rec.pageTitle
  {
    WalkReplays(n, rec, lib);
    ReplayTitle(Visited(n, rec.url, lib), rec, lib);
  }

  /** The traversal touches no field but the title, the headings, the two
      link counters and the login flag. */
  lemma WalkFrame(n: Node, rec: Record, lib: UrlLib)
    ensures var r := Walk(n, rec, lib).rec;
      r == rec.(pageTitle := r.pageTitle, headings := r.headings,
                internalLinksCount := r.internalLinksCount,
                externalLinksCount := r.externalLinksCount,
                hasLoginForm := r.hasLoginForm)
  {
    WalkReplays(n, rec, lib);
    ReplayFrame(Visited(n, rec.url, lib), rec, lib);
  }

  // ------------------------------------------------------------------
  // The traversal as the crawler runs it, on the record in place

  /** Once the attribute loop has abandoned the element, the remaining
      attributes change nothing. */
  lemma {:induction false} AbortSticky(attrs: seq<Attr>, i: nat, rec: Record, lib: UrlLib)
    requires i <= |attrs| && AnchorLoop(attrs[..i], rec, lib).aborted
    ensures AnchorLoop(attrs, rec, lib) == AnchorLoop(attrs[..i], rec, lib)
  {
    if i < |attrs| {
      var init := attrs[..|attrs| - 1];
      assert init[..i] == attrs[..i];
      AbortSticky(init, i, rec, lib);
    } else {
      assert attrs[..i] == attrs;
    }
  }

  /** `checkForLoginForm(n, result)`: sets the login flag when `n` or a node
      below it is a password `<input>`; an `<input>` that is one stops the
      search below it, which the flag cannot tell apart. */
  method CheckForLoginForm(n: Node, result: CrawlResult)
    modifies result
    ensures result.Value() == old(result.Value()).(hasLoginForm := old(result.hasLoginForm) || PasswordInputIn(n))
    decreases n
  {
    if n.kind == ElementNode && n.data == "input" {
      for i := 0 to |n.attrs|
        invariant forall k :: 0 <= k < i ==> !(n.attrs[k].key == "type" && n.attrs[k].val == "password")
        invariant result.Value() == old(result.Value())
      {
        if n.attrs[i].key == "type" && n.attrs[i].val == "password" {
          result.hasLoginForm := true;
          return;
        }
      }
    }
    for j := 0 to |n.children|
      invariant result.Value() == old(result.Value()).(hasLoginForm := old(result.hasLoginForm)
                                    || exists k :: 0 <= k < j && PasswordInputIn(n.children[k]))
    {
      CheckForLoginForm(n.children[j], result);
    }
  }

  /** The `case "a"` arm of `extractInfo`: the attribute loop, on the
      record in place. `abandoned` is its early `return links`. */
  method VisitAnchor(n: Node, result: CrawlResult, lib: UrlLib) returns (links: seq<string>, abandoned: bool)
    modifies result
    ensures AnchorLoop(n.attrs, old(result.Value()), lib) == AnchorState(result.Value(), links, abandoned)
  {
    ghost var start := result.Value();
    links := [];
    for i := 0 to |n.attrs|
      invariant AnchorLoop(n.attrs[..i], start, lib) == AnchorState(result.Value(), links, false)
    {
      assert n.attrs[..i + 1][..i] == n.attrs[..i];
      var attr := n.attrs[i];
      assert AnchorLoop(n.attrs[..i + 1], start, lib) == HrefStep(attr, AnchorLoop(n.attrs[..i], start, lib), lib);
      if attr.key == "href" {
        var link := lib.parse(attr.val);
        if link.None? {
          continue;
        }
        var baseUrl := lib.parse(result.url);
        if baseUrl.None? {
          AbortSticky(n.attrs, i + 1, start, lib);
          return links, true;
        }
        links := links + [lib.resolve(baseUrl.value, link.value)];
        if IsInternal(link.value, baseUrl.value) {
          result.internalLinksCount := result.internalLinksCount + 1;
        } else {
          result.externalLinksCount := result.externalLinksCount + 1;
        }
      }
    }
    assert n.attrs[..|n.attrs|] == n.attrs;
    abandoned := false;
  }

  /** The `switch` of `extractInfo`: the node's own effect on the record.
      `descend` is false after the early return of the `<a>` arm. */
  method VisitNode(n: Node, result: CrawlResult, lib: UrlLib) returns (links: seq<string>, descend: bool)
    modifies result
    ensures NodeStep(n, old(result.Value()), lib) == NodeState(result.Value(), links, descend)
  {
    links, descend := [], true;
    if n.kind == ElementNode {
      if n.data == "title" {
        if |n.children| > 0 {
          result.pageTitle := n.children[0].data;
        }
      } else if n.data in HeadingTags {
        result.headings := result.headings[n.data := Get(result.headings, n.data) + 1];
      } else if n.data == "a" {
        var abandoned;
        links, abandoned := VisitAnchor(n, result, lib);
        descend := !abandoned;
      } else if n.data == "form" {
        CheckForLoginForm(n, result);
      }
    }
  }

  /** One more child in the children loop. */
  lemma WalkAllSnoc(cs: seq<Node>, j: int, rec: Record, lib: UrlLib)
    requires 0 <= j < |cs|
    ensures var w := WalkAll(cs[..j], rec, lib);
      var v := Walk(cs[j], w.rec, lib);
      WalkAll(cs[..j + 1], rec, lib) == Walked(v.rec, w.links + v.links)
  {
    assert cs[..j + 1][..j] == cs[..j];
  }

  /** `extractInfo(n, result)`: updates the record as the traversal of `n`
      does and returns the traversal's links. */
  method ExtractInfo(n: Node, result: CrawlResult, lib: UrlLib) returns (links: seq<string>)
    modifies result
    ensures result.Value() == Walk(n, old(result.Value()), lib).rec
    ensures links == Walk(n, old(result.Value()), lib).links
    decreases n, 1
  {
    var descend;
    links, descend := VisitNode(n, result, lib);
    if descend {
      var rest := ExtractChildren(n.children, result, lib);
      links := links + rest;
    }
  }

  /** The children loop of `extractInfo`: each child in turn, its links
      appended. */
  method ExtractChildren(cs: seq<Node>, result: CrawlResult, lib: UrlLib) returns (links: seq<string>)
    modifies result
    ensures result.Value() == WalkAll(cs, old(result.Value()), lib).rec
    ensures links == WalkAll(cs, old(result.Value()), lib).links
    decreases cs, 0
  {
    ghost var start := result.Value();
    links := [];
    for j := 0 to |cs|
      invariant result.Value() == WalkAll(cs[..j], start, lib).rec
      invariant links == WalkAll(cs[..j], start, lib).links
    {
      WalkAllSnoc(cs, j, start, lib);
      var sub := ExtractInfo(cs[j], result, lib);
      links := links + sub;
    }
    assert cs[..|cs|] == cs;
  }
}
