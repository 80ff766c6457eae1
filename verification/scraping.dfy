/** The loop over the target pages in scrapePublic.js (lines 211-375):
    each page is opened at its canonical address, paginated, and its cards
    mapped to products, which are appended to one list. */
module Scraping {
  import opened Seqs
  import opened Helpers
  import opened Pagination
  import opened Extraction

  /** What a target's page shows: the observations the "see more" loop
      makes, and the product tiles present once that loop has ended. */
  datatype ListingPage = ListingPage(probes: seq<Probe>, cards: seq<Card>)

  /** The site as the scraping loop sees it, by the address `page.goto` is given. */
  type Site = Href -> ListingPage

  /** The cards of each target's page, opened at `toHttps(url)`. */
  function PageCards(site: Site, targets: seq<Href>): (pages: seq<seq<Card>>)
    ensures |pages| == |targets|
    ensures forall i :: 0 <= i < |targets| ==> pages[i] == site(ToHttps(targets[i])).cards
  {
    seq(|targets|, i requires 0 <= i < |targets| => site(ToHttps(targets[i])).cards)
  }

  /** The products of each target's page. */
  function PageProducts(site: Site, targets: seq<Href>): (pages: seq<seq<Product>>)
    ensures |pages| == |targets|
    ensures forall i :: 0 <= i < |targets| ==> pages[i] == ExtractProducts(site(ToHttps(targets[i])).cards)
  {
    seq(|targets|, i requires 0 <= i < |targets| => ExtractProducts(site(ToHttps(targets[i])).cards))
  }

  /** `allProducts` after the loop: each target's products, in target order. */
  function AllProducts(site: Site, targets: seq<Href>): seq<Product> {
    Flatten(PageProducts(site, targets))
  }

  /** A product of one page's cards is the product of one of its cards. */
  lemma ExtractedFromCard(cards: seq<Card>, p: Product)
    requires p in ExtractProducts(cards)
    ensures exists c :: c in cards && p == MapCard(c)
  {
    var j :| 0 <= j < |cards| && ExtractProducts(cards)[j] == p;
    assert cards[j] in cards;
  }

  /** Every product comes from a card of some target's page. */
  lemma AllProductsFromCards(site: Site, targets: seq<Href>)
    ensures forall p :: p in AllProducts(site, targets) ==>
              exists i, c :: 0 <= i < |targets| && c in site(ToHttps(targets[i])).cards && p == MapCard(c)
  {
    var pages := PageProducts(site, targets);
    forall p | p in AllProducts(site, targets)
      ensures exists i, c :: 0 <= i < |targets| && c in site(ToHttps(targets[i])).cards && p == MapCard(c)
    {
      InFlatten(pages, p);
      var i :| 0 <= i < |pages| && p in pages[i];
      ExtractedFromCard(site(ToHttps(targets[i])).cards, p);
    }
  }

  /** Every card of every target's page yields its product. */
  lemma CardsAllScraped(site: Site, targets: seq<Href>)
    ensures forall i, c :: 0 <= i < |targets| && c in site(ToHttps(targets[i])).cards ==>
              MapCard(c) in AllProducts(site, targets)
  {
    var pages := PageProducts(site, targets);
    forall i, c | 0 <= i < |targets| && c in site(ToHttps(targets[i])).cards
      ensures MapCard(c) in AllProducts(site, targets)
    {
      var cards := site(ToHttps(targets[i])).cards;
      var j :| 0 <= j < |cards| && cards[j] == c;
      assert pages[i][j] == MapCard(c);
      InFlatten(pages, MapCard(c));
    }
  }

  /** One product per card, over all targets. */
  lemma AllProductsCount(site: Site, targets: seq<Href>)
    ensures |AllProducts(site, targets)| == TotalLength(PageCards(site, targets))
  {
    FlattenLength(PageProducts(site, targets));
    TotalLengthSame(PageProducts(site, targets), PageCards(site, targets));
  }
}

/** The loop over the targets itself, apart from the facts about what it
    collects. */
module TargetLoop {
  import opened Seqs
  import opened Helpers
  import opened Pagination
  import opened Extraction
  import opened Scraping

  /** What the "see more" loop does on each target's page. */
  function PassesOf(site: Site, targets: seq<Href>): seq<seq<Pass>> {
    seq(|targets|, i requires 0 <= i < |targets| => Drive(site(ToHttps(targets[i])).probes))
  }

  /** Every target's page lets the "see more" loop exit. */
  predicate AllSettle(site: Site, targets: seq<Href>) {
    forall i :: 0 <= i < |targets| ==> Settles(site(ToHttps(targets[i])).probes)
  }

  /** What one more target adds to each of the three. */
  lemma OneMoreTarget(site: Site, targets: seq<Href>, k: nat)
    requires k < |targets|
    ensures var page := site(ToHttps(targets[k]));
            && PassesOf(site, targets[..k + 1]) == PassesOf(site, targets[..k]) + [Drive(page.probes)]
            && (AllSettle(site, targets[..k + 1]) <==> AllSettle(site, targets[..k]) && Settles(page.probes))
            && AllProducts(site, targets[..k + 1]) == AllProducts(site, targets[..k]) + ExtractProducts(page.cards)
  {
    var pre, post := targets[..k], targets[..k + 1];
    assert post[..k] == pre && post[k] == targets[k];
    assert PageProducts(site, post)[..k] == PageProducts(site, pre);
    assert AllSettle(site, post) <==> AllSettle(site, pre) && Settles(site(ToHttps(post[k])).probes);
  }

  /** One target (lines 226-370): open `toHttps(url)`, run the "see more"
      loop, and map the cards once that loop has ended. */
  method ScrapeTarget(site: Site, url: Href) returns (made: seq<Pass>, stopped: bool, products: seq<Product>)
    ensures made == Drive(site(ToHttps(url)).probes)
    ensures stopped <==> Settles(site(ToHttps(url)).probes)
    ensures stopped ==> products == ExtractProducts(site(ToHttps(url)).cards)
  {
    var safeUrl := ToHttps(url);
    var page := site(safeUrl);
    made, stopped := SeeMoreLoop(page.probes);
    products := [];
    if stopped {
      products := ExtractProducts(page.cards);
    }
  }

  /** The loop over the targets (lines 214-375): open `toHttps(url)`, run the
      "see more" loop, map the cards, push the products. `passes[k]` is what
      the "see more" loop did on the k-th target. The `while (true)` loop has
      no exit on a page that never settles, so the run gets no further than
      the first such target, the last one in `passes`: `finished` is then
      false, and `allProducts` holds what the earlier targets pushed. */
  method ScrapeTargets(site: Site, targets: seq<Href>)
    returns (allProducts: seq<Product>, passes: seq<seq<Pass>>, finished: bool)
    ensures finished ==> passes == PassesOf(site, targets) && AllSettle(site, targets)
                         && allProducts == AllProducts(site, targets)
    ensures !finished ==> 1 <= |passes| <= |targets| && passes == PassesOf(site, targets[..|passes|])
                          && AllSettle(site, targets[..|passes| - 1])
                          && !Settles(site(ToHttps(targets[|passes| - 1])).probes)
                          && allProducts == AllProducts(site, targets[..|passes| - 1])
  {
    allProducts, passes, finished := [], [], true;
    var k := 0;
    while k < |targets|
      invariant 0 <= k <= |targets|
      invariant passes == PassesOf(site, targets[..k]) && AllSettle(site, targets[..k])
      invariant allProducts == AllProducts(site, targets[..k])
    {
      var made, stopped, products := ScrapeTarget(site, targets[k]);
      OneMoreTarget(site, targets, k);
      passes := passes + [made];
      if !stopped {
        finished := false;
        return;
      }
      allProducts := allProducts + products;
      k := k + 1;
    }
    assert targets[..k] == targets;
  }
}
