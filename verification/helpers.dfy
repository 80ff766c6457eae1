/** helpers/helpers.js: URL canonicalisation, the root-category test, the
    product-listing classifier, the scroll loop and the cookie-consent click. */
module Helpers {
  import opened Seqs
  import opened JsText

  /** The parts of a WHATWG `URL` object the scraper reads or writes.
      `search` and `hash` are as the URL API reports them: `"?…"`/`"#…"`, or
      `""` when absent or empty. */
  datatype Url = Url(scheme: string, host: string, path: string, search: string, hash: string)

  /** A URL string: either `new URL(s)` succeeded, or it threw. */
  datatype Href = Parsed(url: Url) | Unparsed(raw: string)

  const CanonicalScheme: string := "https"
  const CanonicalHost: string := "www.public.gr"

  /** `u.toString()` (no port or credentials in this model). */
  function Serialize(h: Href): string {
    match h
    case Parsed(u) => u.scheme + "://" + u.host + u.path + u.search + u.hash
    case Unparsed(raw) => raw
  }

  /** Scheme and host are the canonical ones. */
  predicate Canonical(h: Href) {
    h.Parsed? && h.url.scheme == CanonicalScheme && h.url.host == CanonicalHost
  }

  /** `toHttps`: overwrite protocol and hostname, keep everything else; an
      unparseable string comes back unchanged. */
  function ToHttps(h: Href): (r: Href)
    ensures h.Parsed? ==> Canonical(r)
                          && r.url.path == h.url.path
                          && r.url.search == h.url.search
                          && r.url.hash == h.url.hash
    ensures h.Unparsed? ==> r == h
  {
    match h
    case Parsed(u) => Parsed(u.(scheme := CanonicalScheme, host := CanonicalHost))
    case Unparsed(_) => h
  }

  /** `toHttps` only writes constants, so applying it twice is applying it once. */
  lemma ToHttpsIdempotent(h: Href)
    ensures ToHttps(ToHttps(h)) == ToHttps(h)
  {
  }

  /** A canonical URL is a fixed point of `toHttps`. */
  lemma ToHttpsCanonical(h: Href)
    requires Canonical(h)
    ensures ToHttps(h) == h
  {
  }

  /** `isRootCat`: the path is exactly `/cat` or `/cat/`; false when parsing fails. */
  predicate IsRootCat(h: Href) {
    h.Parsed? && (h.url.path == "/cat" || h.url.path == "/cat/")
  }

  /** Only the path counts: a query does not stop `/cat/` being the root, a
      subcategory is not the root, and a string that does not parse is not. */
  lemma RootCatIsPathOnly()
    ensures IsRootCat(Parsed(Url("https", "www.public.gr", "/cat/", "?page=2", "")))
    ensures IsRootCat(Parsed(Url("http", "public.gr", "/cat", "", "#top")))
    ensures !IsRootCat(Parsed(Url("https", "www.public.gr", "/cat/computers", "", "")))
    ensures !IsRootCat(Unparsed("::"))
  {
  }

  /** `isRootCat` looks only at the path: canonicalising does not change it. */
  lemma IsRootCatAfterToHttps(h: Href)
    ensures IsRootCat(ToHttps(h)) == IsRootCat(h)
  {
  }

  // ----------------------------------------------------------- the page

  /** What a loaded, settled page shows the scraper: the resolved `href` of
      every `a[href]` in document order, and the two classifier signals
      (`.product-tile-container` present, `[label="Δες περισσότερα"]` present). */
  datatype Page = Page(anchors: seq<Href>, hasTiles: bool, hasSeeMore: bool)

  /** The browser: the page a navigation to a URL settles on. A navigation
      that fails leaves a page too (an empty one, typically). */
  type Web = Href -> Page

  /** The classifier of `pageHasProductList` (and of the discovery filter
      pass): either signal alone makes a listing page. */
  function IsProductList(p: Page): (r: bool)
    ensures p.hasTiles ==> r
    ensures p.hasSeeMore ==> r
    ensures !p.hasTiles && !p.hasSeeMore ==> !r
  {
    p.hasTiles || p.hasSeeMore
  }

  /** `pageHasProductList(browser, url)`: load `url` as given and classify it. */
  function PageHasProductList(web: Web, url: Href): (r: bool)
    ensures r <==> web(url).hasTiles || web(url).hasSeeMore
  {
    IsProductList(web(url))
  }

  // ------------------------------------------------------------ autoScroll

  const ScrollStep: int := 350

  /** After tick `k` (counting from 0) the scroll total reaches the target
      observed at that tick. */
  predicate ScrollDone(k: nat, scrollHeight: int, innerHeight: int) {
    ScrollStep * (k + 1) >= scrollHeight - innerHeight
  }

  /** `autoScroll`: every timer tick reads `document.body.scrollHeight`,
      scrolls by 350 and stops at the first tick whose running total reaches
      `scrollHeight - innerHeight`. `heights[k]` is the height read at tick
      `k`; the timer runs only as long as `heights` lasts, and `finished` is
      false when it ran out first. */
  method AutoScroll(heights: seq<int>, innerHeight: int) returns (ticks: nat, totalHeight: int, finished: bool)
    ensures totalHeight == ScrollStep * ticks
    ensures ticks <= |heights|
    ensures finished ==> ticks >= 1 && ScrollDone(ticks - 1, heights[ticks - 1], innerHeight)
    ensures forall k :: 0 <= k < ticks - 1 ==> !ScrollDone(k, heights[k], innerHeight)
    ensures !finished ==> ticks == |heights| && forall k :: 0 <= k < |heights| ==> !ScrollDone(k, heights[k], innerHeight)
    ensures |heights| > 0 ==> ticks >= 1
  {
    totalHeight, ticks, finished := 0, 0, false;
    while ticks < |heights| && !finished
      invariant ticks <= |heights|
      invariant totalHeight == ScrollStep * ticks
      invariant finished ==> ticks >= 1 && ScrollDone(ticks - 1, heights[ticks - 1], innerHeight)
      invariant forall k :: 0 <= k < ticks - 1 ==> !ScrollDone(k, heights[k], innerHeight)
      invariant !finished ==> forall k :: 0 <= k < ticks ==> !ScrollDone(k, heights[k], innerHeight)
      decreases |heights| - ticks
    {
      var scrollHeight := heights[ticks];
      totalHeight := totalHeight + ScrollStep;
      ticks := ticks + 1;
      if totalHeight >= scrollHeight - innerHeight {
        finished := true;
      }
    }
  }

  /** On a page whose height does not change, the scroll stops after
      `max(1, ceil((scrollHeight - innerHeight) / 350))` ticks. */
  lemma {:induction false} AutoScrollStaticTicks(scrollHeight: int, innerHeight: int)
    ensures var need := scrollHeight - innerHeight;
            var n := if need <= ScrollStep then 1 else (need + ScrollStep - 1) / ScrollStep;
            n >= 1 && ScrollDone(n - 1, scrollHeight, innerHeight)
            && forall k :: 0 <= k < n - 1 ==> !ScrollDone(k, scrollHeight, innerHeight)
  {
    var need := scrollHeight - innerHeight;
    if need > ScrollStep {
      var n := (need + ScrollStep - 1) / ScrollStep;
      assert ScrollStep * n >= need;
      assert ScrollStep * (n - 1) < need;
      forall k | 0 <= k < n - 1 ensures !ScrollDone(k, scrollHeight, innerHeight) {
        assert ScrollStep * (k + 1) <= ScrollStep * (n - 1);
      }
    }
  }

  // ----------------------------------------------------- acceptCookiesIfAny

  /** The consent-button selectors, tried in this order. */
  const CookieSelectors: seq<string> := [
    "#onetrust-accept-btn-handler",
    "button#onetrust-accept-btn-handler",
    "button[aria-label*=\"Αποδοχ\"]",
    "button:has-text(\"Αποδοχ\")",
    "button:has-text(\"Αποδέχομαι\")"
  ]

  /** What `page.$(selector)` does: finds a button, finds none, or throws
      (an invalid selector, for one). */
  datatype Query = Found | Missing | Throws

  /** `acceptCookiesIfAny`: walk `CookieSelectors` in order, skip the ones that
      match nothing or throw, click the first button found and stop. The
      click's own failure is swallowed. `clicked` lists the selectors whose
      button was clicked. */
  method AcceptCookiesIfAny(query: string -> Query) returns (clicked: seq<string>)
    ensures query(CookieSelectors[0]) == Found ==> clicked == [CookieSelectors[0]]
    ensures |clicked| <= 1
    ensures |clicked| == 1 <==> exists i :: 0 <= i < |CookieSelectors| && query(CookieSelectors[i]) == Found
    ensures |clicked| == 1 ==> exists i :: 0 <= i < |CookieSelectors| && clicked[0] == CookieSelectors[i]
                                       && query(CookieSelectors[i]) == Found
                                       && forall j :: 0 <= j < i ==> query(CookieSelectors[j]) != Found
  {
    clicked := [];
    var i := 0;
    while i < |CookieSelectors|
      invariant 0 <= i <= |CookieSelectors|
      invariant clicked == []
      invariant forall j :: 0 <= j < i ==> query(CookieSelectors[j]) != Found
    {
      var outcome := query(CookieSelectors[i]);
      if outcome == Found {
        clicked := [CookieSelectors[i]];
        return;
      }
      i := i + 1;
    }
  }
}
