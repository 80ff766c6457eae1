/** Category discovery of scrapePublic.js: the link filter of
    `extractCategoryLinksFromPage` and the level-by-level search of
    `getAllCategoryUrlsFromRoot`, followed by the classifier pass. */
module Discovery {
  import opened Seqs
  import opened JsText
  import opened Helpers

  // ------------------------------------------------------- the link filter

  /** The test every anchor must pass: under the scanned page's path, under
      `/cat/`, not a product page, no query, no fragment, not the bare `/cat/`. */
  predicate KeepLink(pagePath: string, u: Url) {
    StartsWith(u.path, pagePath)
    && StartsWith(u.path, "/cat/")
    && !Contains(u.path, "/p/")
    && u.search == ""
    && u.hash == ""
    && !EndsWith(u.path, "/cat/")
  }

  /** A kept link lies strictly below `/cat/`: the bare `/cat/` and `/cat` are refused. */
  lemma KeepLinkBelowCat(pagePath: string, u: Url)
    requires KeepLink(pagePath, u)
    ensures |u.path| > |"/cat/"| && u.path[..5] == "/cat/"
    ensures u.path != "/cat" && u.path != "/cat/"
  {
    if |u.path| == 5 {
      assert false;
    }
  }

  /** A link kept under a page is kept under every prefix of that page's
      path: the filter only narrows as the search descends. */
  lemma KeepLinkNarrows(outer: string, inner: string, u: Url)
    requires StartsWith(inner, outer) && KeepLink(inner, u)
    ensures KeepLink(outer, u)
  {
    PrefixTransitive(u.path, inner, outer);
  }

  /** An anchor that parses and passes `KeepLink`; one whose `new URL` throws is dropped. */
  function KeepTest(pagePath: string): Href -> bool {
    (h: Href) => h.Parsed? && KeepLink(pagePath, h.url)
  }

  /** The `Array.from(new Set(cleaned))` returned from inside the page. */
  function CleanedLinks(pagePath: string, anchors: seq<Href>): (r: seq<Href>)
    ensures NoDup(r)
    ensures forall h :: h in r <==> h in anchors && h.Parsed? && KeepLink(pagePath, h.url)
  {
    Dedup(Filter(anchors, KeepTest(pagePath)))
  }

  /** `toHttps` applied to every element. */
  function ToHttpsAll(xs: seq<Href>): (r: seq<Href>)
    ensures |r| == |xs| && forall i :: 0 <= i < |xs| ==> r[i] == ToHttps(xs[i])
    ensures forall h :: h in xs ==> ToHttps(h) in r
  {
    var r := seq(|xs|, i requires 0 <= i < |xs| => ToHttps(xs[i]));
    assert forall i :: 0 <= i < |xs| ==> r[i] == ToHttps(xs[i]);
    r
  }

  /** Canonicalising kept links keeps them: the filter reads only the path,
      the query and the fragment, which `toHttps` does not touch. */
  lemma KeptAfterToHttps(pagePath: string, links: seq<Href>)
    requires forall h :: h in links ==> h.Parsed? && KeepLink(pagePath, h.url)
    ensures forall h :: h in ToHttpsAll(links) ==> Canonical(h) && KeepLink(pagePath, h.url)
  {
    var r := ToHttpsAll(links);
    forall h | h in r ensures Canonical(h) && KeepLink(pagePath, h.url) {
      var i :| 0 <= i < |r| && r[i] == h;
      assert links[i] in links;
    }
  }

  /** Every canonicalised cleaned link is the canonical form of a kept anchor. */
  lemma KeptFromAnchors(pagePath: string, anchors: seq<Href>)
    ensures forall h :: h in ToHttpsAll(CleanedLinks(pagePath, anchors)) ==>
              exists a :: a in anchors && a.Parsed? && KeepLink(pagePath, a.url) && h == ToHttps(a)
  {
    var cleaned := CleanedLinks(pagePath, anchors);
    forall h | h in ToHttpsAll(cleaned)
      ensures exists a :: a in anchors && a.Parsed? && KeepLink(pagePath, a.url) && h == ToHttps(a)
    {
      var i :| 0 <= i < |cleaned| && ToHttpsAll(cleaned)[i] == h;
      assert cleaned[i] in cleaned;
    }
  }

  /** `extractCategoryLinksFromPage(browser, pageUrl)`: the cleaned links of
      the page, canonicalised. `None` is the exception thrown when `pageUrl`
      itself does not parse. */
  function ExtractCategoryLinks(web: Web, pageUrl: Href): (r: Option<seq<Href>>)
    ensures r.None? <==> pageUrl.Unparsed?
    ensures r.Some? ==> forall h :: h in r.value ==> Canonical(h) && KeepLink(pageUrl.url.path, h.url)
    ensures r.Some? ==> forall a :: a in web(pageUrl).anchors && a.Parsed? && KeepLink(pageUrl.url.path, a.url)
                          ==> ToHttps(a) in r.value
    ensures r.Some? ==> forall h :: h in r.value ==> exists a :: a in web(pageUrl).anchors && a.Parsed?
                                                           && KeepLink(pageUrl.url.path, a.url) && h == ToHttps(a)
    ensures r.Some? ==> r.value == ToHttpsAll(CleanedLinks(pageUrl.url.path, web(pageUrl).anchors))
  {
    match pageUrl
    case Unparsed(_) => None
    case Parsed(p) =>
      var cleaned := CleanedLinks(p.path, web(pageUrl).anchors);
      KeptAfterToHttps(p.path, cleaned);
      KeptFromAnchors(p.path, web(pageUrl).anchors);
      Some(ToHttpsAll(cleaned))
  }

  /** The set built at line 87 is free of duplicates, but canonicalising
      afterwards can merge two of its members: a page that links the same
      category once over `https` and once over `http` hands the search the
      same URL twice. */
  lemma ExtractedLinksMayRepeat(web: Web, page: Href, a: Href)
    requires page.Parsed? && a.Parsed? && KeepLink(page.url.path, a.url) && a.url.scheme != "http"
    requires web(page).anchors == [a, Parsed(a.url.(scheme := "http"))]
    ensures ExtractCategoryLinks(web, page) == Some([ToHttps(a), ToHttps(a)])
  {
    var b := Parsed(a.url.(scheme := "http"));
    var anchors := [a, b];
    var keep := KeepTest(page.url.path);
    assert keep(a) && keep(b);
    assert anchors[1..] == [b] && [b][1..] == [];
    assert Filter(anchors, keep) == anchors;
    DedupOfDistinct(anchors);
    assert ToHttpsAll(anchors) == [ToHttps(a), ToHttps(a)];
  }

  /** The links the search takes from one scanned page: none when the
      extraction throws (the `catch` at line 128). */
  function PageLinks(web: Web, url: Href): seq<Href> {
    match ExtractCategoryLinks(web, url)
    case Some(links) => links
    case None => []
  }

  /** The children the search adds for one scanned page (lines 121-126):
      the extracted links, passed once more through `toHttps`. */
  function Children(web: Web, url: Href): seq<Href> {
    ToHttpsAll(PageLinks(web, url))
  }

  /** Every child is canonical and lies under the scanned page's path. */
  lemma ChildUnderPage(web: Web, url: Href, x: Href)
    requires x in Children(web, url)
    ensures url.Parsed? && Canonical(x) && KeepLink(url.url.path, x.url)
  {
    var links := ExtractCategoryLinks(web, url).value;
    var i :| 0 <= i < |links| && ToHttpsAll(links)[i] == x;
    assert links[i] in links;
  }

  // ------------------------------------------------- the search, as values

  /** One scanned page: its URL and the level it was scanned at. */
  datatype Visit = Visit(url: Href, depth: nat)

  /** The search state: the `seen` set, the `result` set (insertion order
      kept) and a log of the pages scanned so far. */
  datatype Crawl = Crawl(seen: set<Href>, result: seq<Href>, visits: seq<Visit>)

  /** The link extraction the search runs on each page, as a function from
      a page URL to its children. */
  type Extract = Href -> seq<Href>

  /** The extraction of `getAllCategoryUrlsFromRoot` on the site `web`. */
  function ChildrenOf(web: Web): Extract {
    (u: Href) => Children(web, u)
  }

  /** The test `!seen.has(child)`. */
  function Unseen(seen: set<Href>): Href -> bool {
    (h: Href) => h !in seen
  }

  /** The inner loop over one page's children (lines 122-126): every child
      enters `result`; those not yet seen are queued for the next level. */
  function AddChildren(children: seq<Href>, seen: set<Href>, result: seq<Href>, next: seq<Href>): (r: (seq<Href>, seq<Href>))
    ensures result <= r.0 && (NoDup(result) ==> NoDup(r.0))
    ensures forall x :: x in r.0 <==> x in result || x in children
    ensures r.1 == next + Filter(children, Unseen(seen))
    decreases |children|
  {
    if children == [] then (result, next)
    else
      var child := children[0];
      var queued := if child in seen then next else next + [child];
      FilterCons(children, Unseen(seen));
      assert queued + Filter(children[1..], Unseen(seen)) == next + Filter(children, Unseen(seen));
      AddChildren(children[1..], seen, Insert(result, child), queued)
  }

  /** One pass of the loop over a level's frontier (lines 116-129): a URL
      already seen is skipped; otherwise it is marked seen, scanned, and its
      children added. */
  function ScanOne(kids: Extract, url: Href, depth: nat, c: Crawl, next: seq<Href>): (r: (Crawl, seq<Href>))
    ensures url in c.seen ==> r == (c, next)
    ensures url !in c.seen ==> r.0.seen == c.seen + {url} && r.0.visits == c.visits + [Visit(url, depth)]
    ensures NoDup(c.result) ==> NoDup(r.0.result)
    ensures forall x :: x in r.0.result <==> x in c.result || (url !in c.seen && x in kids(url))
    ensures url !in c.seen ==> r.1 == next + Filter(kids(url), Unseen(c.seen + {url}))
  {
    if url in c.seen then (c, next)
    else
      var seen := c.seen + {url};
      var added := AddChildren(kids(url), seen, c.result, next);
      (Crawl(seen, added.0, c.visits + [Visit(url, depth)]), added.1)
  }

  /** The loop over one level's frontier (lines 115-130). */
  function ScanLevel(kids: Extract, frontier: seq<Href>, depth: nat, c: Crawl, next: seq<Href>): (Crawl, seq<Href>)
    decreases |frontier|
  {
    if frontier == [] then (c, next)
    else
      var step := ScanOne(kids, frontier[0], depth, c, next);
      ScanLevel(kids, frontier[1..], depth, step.0, step.1)
  }

  /** The level loop (lines 113-133): scan levels while the frontier is
      non-empty and the level is at most `maxDepth`. */
  function Levels(kids: Extract, frontier: seq<Href>, depth: nat, maxDepth: nat, c: Crawl): Crawl
    decreases maxDepth - depth
  {
    if frontier == [] || depth > maxDepth then c
    else
      var level := ScanLevel(kids, frontier, depth, c, []);
      Levels(kids, level.1, depth + 1, maxDepth, level.0)
  }

  /** The whole search of `web` from `root`. */
  function Discover(web: Web, root: Href, maxDepth: nat): Crawl {
    Levels(ChildrenOf(web), [root], 0, maxDepth, Crawl({}, [], []))
  }

  /** The classifier as the filter pass applies it: load `toHttps(url)`, then classify. */
  predicate IsListUrl(web: Web, url: Href) {
    IsProductList(web(ToHttps(url)))
  }

  /** The filter pass classifies the same page `pageHasProductList` would
      load for the canonical URL. */
  lemma ListTestIsCanonicalClassifier(web: Web, url: Href)
    ensures IsListUrl(web, url) == PageHasProductList(web, ToHttps(url))
    ensures IsListUrl(web, url) <==> web(ToHttps(url)).hasTiles || web(ToHttps(url)).hasSeeMore
  {
  }

  function ListTest(web: Web): Href -> bool {
    (u: Href) => IsListUrl(web, u)
  }

  /** What `getAllCategoryUrlsFromRoot` returns (lines 135-161). */
  function ListingUrls(web: Web, root: Href, maxDepth: nat): seq<Href> {
    Dedup(Filter(Discover(web, root, maxDepth).result, ListTest(web)))
  }

  // ------------------------------------------------------ the search, run

  /** The loop over one page's links (lines 122-126), updating `result` and `next`. */
  method AddLinks(found: seq<Href>, seen: set<Href>, result0: seq<Href>, next0: seq<Href>)
    returns (result: seq<Href>, next: seq<Href>)
    ensures (result, next) == AddChildren(ToHttpsAll(found), seen, result0, next0)
    ensures NoDup(result0) ==> NoDup(result)
    ensures forall x :: x in result <==> x in result0 || x in ToHttpsAll(found)
  {
    result, next := result0, next0;
    ghost var children := ToHttpsAll(found);
    var j := 0;
    assert children[0..] == children;
    while j < |found|
      invariant 0 <= j <= |found|
      invariant AddChildren(children[j..], seen, result, next) == AddChildren(children, seen, result0, next0)
    {
      assert children[j..][1..] == children[j + 1..];
      var child := ToHttps(found[j]);
      if child !in seen {
        next := next + [child];
      }
      result := Insert(result, child);
      j := j + 1;
    }
    assert children[j..] == [];
  }

  /** The classifier pass (lines 136-161): keep, in `result` order, the URLs
      whose canonical page is a listing, then drop repeats. */
  method KeepListings(web: Web, result: seq<Href>) returns (targets: seq<Href>)
    ensures targets == Dedup(Filter(result, ListTest(web)))
    ensures NoDup(targets)
    ensures forall u :: u in targets <==> u in result && IsListUrl(web, u)
    ensures NoDup(result) ==> targets == Filter(result, ListTest(web))
  {
    var filtered: seq<Href> := [];
    for k := 0 to |result|
      invariant filtered == Filter(result[..k], ListTest(web))
    {
      var url := result[k];
      assert result[..k + 1] == result[..k] + [url];
      FilterAppend(result[..k], url, ListTest(web));
      var isList := IsProductList(web(ToHttps(url)));
      if isList {
        filtered := filtered + [url];
      }
    }
    assert result[..|result|] == result;
    if NoDup(result) {
      DedupOfDistinct(filtered);
    }
    targets := Dedup(filtered);
  }

  /** `getAllCategoryUrlsFromRoot(browser, rootUrl, maxDepth)`, with the
      browser replaced by `web`. */
  method GetAllCategoryUrlsFromRoot(web: Web, rootUrl: Href, maxDepth: nat) returns (targets: seq<Href>)
    ensures targets == ListingUrls(web, rootUrl, maxDepth)
    ensures NoDup(targets)
    ensures forall u :: u in targets <==> u in Discover(web, rootUrl, maxDepth).result && IsListUrl(web, u)
  {
    var seen: set<Href> := {};
    var result: seq<Href> := [];
    ghost var visits: seq<Visit> := [];
    var frontier := [rootUrl];
    var depth: nat := 0;
    while frontier != [] && depth <= maxDepth
      invariant Levels(ChildrenOf(web), frontier, depth, maxDepth, Crawl(seen, result, visits)) == Discover(web, rootUrl, maxDepth)
      decreases maxDepth - depth
    {
      var next: seq<Href> := [];
      ghost var start := Crawl(seen, result, visits);
      var i := 0;
      assert frontier[0..] == frontier;
      while i < |frontier|
        invariant 0 <= i <= |frontier|
        invariant ScanLevel(ChildrenOf(web), frontier[i..], depth, Crawl(seen, result, visits), next)
                  == ScanLevel(ChildrenOf(web), frontier, depth, start, [])
      {
        var url := frontier[i];
        assert frontier[i..][1..] == frontier[i + 1..];
        if url !in seen {
          seen := seen + {url};
          visits := visits + [Visit(url, depth)];
          var extracted := ExtractCategoryLinks(web, url);
          var found := match extracted case Some(l) => l case None => [];
          result, next := AddLinks(found, seen, result, next);
        }
        i := i + 1;
      }
      assert frontier[i..] == [];
      frontier := next;
      depth := depth + 1;
    }
    targets := KeepListings(web, result);
  }
}
