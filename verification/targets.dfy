/** Smart target selection in scrapePublic.js (lines 187-208): which
    category pages the run scrapes. */
module Targets {
  import opened Seqs
  import opened JsText
  import opened Helpers
  import opened Discovery
  import opened DiscoveryProps

  /** The three ways the targets are chosen. */
  datatype Mode = FullSite | SinglePage | Subtree

  /** `u => u.startsWith(rootHttps)`, the subtree filter on the URL strings. */
  function UnderRootTest(rootText: string): Href -> bool {
    (u: Href) => StartsWith(Serialize(u), rootText)
  }

  /** Smart target selection. The root is canonicalised first; `/cat` or
      `/cat/` means the whole category tree; a root that already lists
      products is scraped alone, without any discovery; any other root is
      crawled and the listings are cut down to the URLs whose text starts
      with the root's text. */
  method SelectTargets(web: Web, root: Href, maxDepth: nat) returns (mode: Mode, targets: seq<Href>)
    ensures var r := ToHttps(root);
            && (mode == FullSite <==> IsRootCat(r))
            && (mode == SinglePage <==> !IsRootCat(r) && PageHasProductList(web, r))
            && (mode == FullSite ==> targets == ListingUrls(web, r, maxDepth))
            && (mode == SinglePage ==> targets == [r])
            && (mode == Subtree ==> targets == Filter(ListingUrls(web, r, maxDepth), UnderRootTest(Serialize(r))))
    ensures NoDup(targets)
    ensures forall u :: u in targets ==> IsListUrl(web, u)
  {
    var rootHttps := ToHttps(root);
    if IsRootCat(rootHttps) {
      mode := FullSite;
      targets := GetAllCategoryUrlsFromRoot(web, rootHttps, maxDepth);
    } else if PageHasProductList(web, rootHttps) {
      mode := SinglePage;
      targets := [rootHttps];
      ToHttpsIdempotent(root);
    } else {
      mode := Subtree;
      var all := GetAllCategoryUrlsFromRoot(web, rootHttps, maxDepth);
      targets := Filter(all, UnderRootTest(Serialize(rootHttps)));
    }
  }

  /** A canonical URL with no query or fragment whose path extends the
      root's path has a text that extends the root's text. */
  lemma SerializedUnderRoot(u: Href, r: Href)
    requires Canonical(u) && u.url.search == "" && u.url.hash == ""
    requires Canonical(r) && r.url.search == "" && r.url.hash == ""
    requires StartsWith(u.url.path, r.url.path)
    ensures StartsWith(Serialize(u), Serialize(r))
  {
    var head := CanonicalScheme + "://" + CanonicalHost;
    assert Serialize(u) == head + u.url.path;
    assert Serialize(r) == head + r.url.path;
    PrefixUnderCommonHead(head, u.url.path, r.url.path);
  }

  /** Subtree mode keeps every listing the crawl found when the root has no
      query and no fragment: each discovered URL is canonical, has neither,
      and its path extends the root's, so its text extends the root's. */
  lemma SubtreeFilterKeepsAll(web: Web, root: Href, maxDepth: nat)
    requires root.Parsed? && root.url.search == "" && root.url.hash == ""
    ensures var r := ToHttps(root);
            Filter(ListingUrls(web, r, maxDepth), UnderRootTest(Serialize(r))) == ListingUrls(web, r, maxDepth)
  {
    var r := ToHttps(root);
    var listed := ListingUrls(web, r, maxDepth);
    var result := Discover(web, r, maxDepth).result;
    assert forall u :: u in listed ==> u in result by {
      ListingUrlsAreClassifiedResult(web, r, maxDepth);
    }
    DiscoveredUnderRoot(web, r, maxDepth);
    forall u | u in listed ensures UnderRootTest(Serialize(r))(u) {
      SerializedUnderRoot(u, r);
    }
    FilterKeepsAll(listed, UnderRootTest(Serialize(r)));
  }
}
