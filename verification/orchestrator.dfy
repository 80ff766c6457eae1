/** The top level of scrapePublic.js: choose the category pages to scrape,
    scrape each in turn into one product list, and write that list as CSV. */
module Orchestrator {
  import opened Seqs
  import opened Helpers
  import opened Discovery
  import opened DiscoveryProps
  import opened Pagination
  import opened Extraction
  import opened Targets
  import opened Scraping
  import opened TargetLoop
  import opened ProductExport

  /** Steps 1 and 2 and the CSV write of the script, in order. `content` is
      the text handed to the file write, `None` when the run never gets
      there because some target's "see more" loop never exits. */
  method Run(web: Web, site: Site, root: Href, maxDepth: nat)
    returns (mode: Mode, targets: seq<Href>, allProducts: seq<Product>, content: Option<string>)
    ensures var r := ToHttps(root);
            && (mode == FullSite <==> IsRootCat(r))
            && (mode == SinglePage <==> !IsRootCat(r) && PageHasProductList(web, r))
            && (mode == FullSite ==> targets == ListingUrls(web, r, maxDepth))
            && (mode == Subtree ==> targets == Filter(ListingUrls(web, r, maxDepth), UnderRootTest(Serialize(r))))
    ensures NoDup(targets)
    ensures forall u :: u in targets ==> IsListUrl(web, u)
    ensures mode == SinglePage ==> targets == [ToHttps(root)]
    ensures mode != SinglePage ==> forall u :: u in targets ==> u in ListingUrls(web, ToHttps(root), maxDepth)
    ensures content.Some? <==> forall k :: 0 <= k < |targets| ==> Settles(site(ToHttps(targets[k])).probes)
    ensures content.Some? ==> allProducts == AllProducts(site, targets) && content.value == ProductsCsv(allProducts)
    ensures (forall u :: web(u).anchors == []) && mode != SinglePage ==>
              targets == [] && allProducts == [] && content == Some("")
  {
    mode, targets := SelectTargets(web, root, maxDepth);
    NoLinksNoTargets(web, ToHttps(root), maxDepth);
    var passes, finished;
    allProducts, passes, finished := ScrapeTargets(site, targets);
    if finished {
      content := Some(ProductsCsv(allProducts));
    } else {
      content := None;
    }
  }
}
