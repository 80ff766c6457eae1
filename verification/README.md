# public-scraper in Dafny

A model of the core of a Puppeteer scraper for the product catalogue of
www.public.gr, with proofs about it. The scraper does four things:

1. **Discovery.** It finds the category pages to scrape. This is a bounded
   breadth-first search over `/cat/` links. It keeps only links under the
   scanned page's path, drops product pages, queries and fragments, and
   canonicalises every URL to `https://www.public.gr`. A classifier pass
   then keeps the pages that look like product listings.
2. **Mode selection.** The start URL decides the mode:
   - the whole tree when it is `/cat` or `/cat/`;
   - that page alone when it already lists products;
   - otherwise the crawled subtree, cut down by a string-prefix test.
3. **Scraping.** For each target page, it clicks "Δες περισσότερα" until the
   button is gone and the viewport is at the bottom. Then it maps every
   product tile to a record through ordered fallback chains for title, link,
   code, price, availability, specs and image.
4. **Export.** It writes the records as CSV: all fields quoted, quotes
   doubled, headers from the first record.

The browser is an oracle: `Web` gives the page a URL settles on (its anchors
and the two classifier signals), and `Site` gives each target page's
pagination observations and product tiles. Pagination, `autoScroll` and the
cookie banner are driven by explicit observation sequences. URLs are records
`Url(scheme, host, path, search, hash)`; a string that does not parse is
`Unparsed`. Each element of a tile carries the set of selectors it matches.

The modules follow the program:
- `Helpers` is `helpers/helpers.js`.
- `Discovery` and `DiscoveryProps` are the search and its properties.
- `Pagination` is the "see more" loop.
- `Extraction` is the card map.
- `CsvExport` is `utils/export.js`.
- `Targets`, `Scraping`, `ProductExport` and `Orchestrator` are the main
  script.
- `Seqs` and `JsText` hold the sequence and string operations of JavaScript
  the others use.

Some behaviours of the program that the model keeps as they are:
- `toHttps` keeps the query and the fragment; it rewrites only the scheme
  and the host.
- The availability fallback takes the leftmost phrase in the text, not the
  first phrase of the list.
- Only availability goes through `norm`. Title, link, price and specs are
  only trimmed.
- The subtree filter is a prefix test on URL strings. It keeps every
  discovered listing when the start URL has no query and no fragment.
- The "see more" loop has no exit other than a settled page, so a target
  whose page never settles stops the run there: no later target is
  scraped and no CSV is written.

## Model

| member | source | states |
|---|---|---|
| Helpers.ToHttps | helpers/helpers.js:4-13 | a parsed URL comes back on scheme `https` and host `www.public.gr` with path, query and fragment unchanged; an unparseable string comes back as it was |
| Helpers.ToHttpsIdempotent | helpers/helpers.js:4-13 | canonicalising twice is canonicalising once |
| Helpers.ToHttpsCanonical | helpers/helpers.js:4-13 | a URL already on the canonical scheme and host is left alone |
| Helpers.RootCatIsPathOnly | helpers/helpers.js:97-104 | only the path decides the root-of-tree test: `/cat/?page=2` and `http://public.gr/cat#top` are the root, `/cat/computers` is not, and a string that does not parse is not |
| Helpers.IsRootCatAfterToHttps | helpers/helpers.js:97-104 | the root-of-tree test gives the same answer before and after canonicalising |
| Helpers.IsProductList | helpers/helpers.js:119-123 | a page is a listing if it has product tiles or a "see more" control, and not otherwise |
| Helpers.PageHasProductList | helpers/helpers.js:105-126 | the page loaded at the URL as given is a listing exactly when it shows product tiles or a "see more" control |
| Helpers.AutoScroll | helpers/helpers.js:63-79 | after `t` ticks the scroll total is 350·t; the timer stops at the first tick whose total reaches that tick's `scrollHeight - innerHeight`; no earlier tick reached its target; when the observations run out, no tick did |
| Helpers.AutoScrollStaticTicks | helpers/helpers.js:66-76 | on a page of fixed height the scroll ends after max(1, ⌈(scrollHeight - innerHeight)/350⌉) ticks, and not before |
| Helpers.AcceptCookiesIfAny | helpers/helpers.js:81-95 | over the site's consent-button selectors: at most one button is clicked; one is clicked exactly when some selector finds a button; it is the first selector in order that does, and selectors that throw are skipped; the OneTrust button, when present, is the one clicked |
| Discovery.CleanedLinks | scrapePublic.js:71-87 | no repeats; an anchor is kept exactly when it parses and its path is under the scanned page's path and under `/cat/`, holds no `/p/`, has no query or fragment, and does not end in `/cat/` |
| Discovery.KeepLinkBelowCat | scrapePublic.js:76-82 | a kept link lies strictly below `/cat/`: its path is longer than `/cat/`, starts with it, and is neither `/cat` nor `/cat/` |
| Discovery.KeepLinkNarrows | scrapePublic.js:77-78 | a link kept under a page is kept under every prefix of that page's path, so the filter only narrows as the search descends |
| Discovery.ToHttpsAll | scrapePublic.js:91-98 | element-wise `toHttps`, same length, every input's canonical form present |
| Discovery.ExtractCategoryLinks | scrapePublic.js:34-103 | fails exactly when the page URL does not parse; otherwise the result is the de-duplicated kept anchors, in order, each canonicalised: every returned link is canonical, passes the link filter and is the canonical form of a kept anchor, and every kept anchor's canonical form is returned |
| Discovery.ExtractedLinksMayRepeat | scrapePublic.js:87-98 | because the set is built before canonicalising, a page linking one category over `https` and `http` returns the same URL twice |
| Discovery.ChildUnderPage | scrapePublic.js:73-98 | every child taken from a scanned page is canonical and passes the link filter for that page's path |
| Discovery.AddChildren | scrapePublic.js:121-125 | `result` gains exactly the children and stays free of repeats; `next` gains exactly the children not yet seen, in the order found |
| Discovery.ScanOne | scrapePublic.js:115-126 | a seen URL changes nothing; an unseen one is marked seen and its visit recorded at the current depth; its children are added to `result`, and those not seen are appended to `next` in order |
| Discovery.AddLinks | scrapePublic.js:122-126 | the loop over one page's links computes `AddChildren` of the canonicalised links, keeping `result` free of repeats |
| Discovery.KeepListings | scrapePublic.js:136-161 | the classifier pass keeps, in `result` order and without repeats, exactly the URLs whose canonical page is a listing |
| Discovery.ListTestIsCanonicalClassifier | scrapePublic.js:147-158 | the filter pass classifies exactly the page `pageHasProductList` would load for the canonical URL: a listing when it shows tiles or a "see more" control |
| Discovery.GetAllCategoryUrlsFromRoot | scrapePublic.js:107-162 | returns `ListingUrls`: no repeats, and a URL is returned exactly when the search discovered it and its page is a listing |
| DiscoveryProps.DiscoverScansOnce | scrapePublic.js:113-118 | each URL is scanned at most once, `seen` is exactly the scanned URLs, and no scan happens deeper than `maxDepth` |
| DiscoveryProps.ScanLevelKeeps | scrapePublic.js:114-128 | the pass over one level's frontier keeps `result` free of repeats and equal to the children of the scanned pages, `seen` equal to the scanned URLs with none scanned twice, every scanned page at its level, and `next` made of children of pages scanned at this level |
| DiscoveryProps.LevelStep | scrapePublic.js:112-132 | one turn of the level loop takes the invariant at level d, frontier at level d, to level d + 1 with `next` as the frontier |
| DiscoveryProps.LevelsFacts | scrapePublic.js:112-132 | from any state satisfying the level invariant, the level loop ends where `result` is the children of the scanned pages, `seen` the scanned URLs, every scan at its level and none deeper than `maxDepth` |
| DiscoveryProps.DiscoverFacts | scrapePublic.js:107-132 | the search from the root ends in that state |
| DiscoveryProps.ScanVisitsGrow | scrapePublic.js:114-128 | a level's pass only appends scans |
| DiscoveryProps.VisitsOnlyGrow | scrapePublic.js:112-132 | the level loop only appends scans |
| DiscoveryProps.ScanLevelCovers | scrapePublic.js:114-128 | the pass over a level loses no child: each child of a scanned page was scanned at most one level below it, waits in this level's frontier, or is queued in `next` |
| DiscoveryProps.NextLevelCovered | scrapePublic.js:130-131 | at the end of a level the queued children become the next frontier, and no child is lost |
| DiscoveryProps.LevelsCover | scrapePublic.js:112-132 | once the level loop stops, every child of a page scanned below `maxDepth` has been scanned, at most one level deeper than that page |
| DiscoveryProps.SearchComplete | scrapePublic.js:107-132 | the same for the level loop from the root, for any link extraction |
| DiscoveryProps.DiscoverComplete | scrapePublic.js:107-132 | the search misses nothing it had the depth to reach: every child of a page scanned below `maxDepth` is scanned, at a level at most one below that page |
| DiscoveryProps.DiscoverResultIsChildren | scrapePublic.js:119-126 | `result` has no repeats and is exactly the children of the scanned pages, including those found at the last level |
| DiscoveryProps.DiscoverLevels | scrapePublic.js:110-132 | the root is the only page at level 0, and every page scanned at level d > 0 is a child of a page scanned at level d - 1 |
| DiscoveryProps.DiscoverScansRootFirst | scrapePublic.js:110-117 | the first page scanned is the root, at level 0 |
| DiscoveryProps.DiscoveredUnderRoot | scrapePublic.js:73-83 | every discovered URL is canonical, has no query or fragment, and its path extends the root's path, although each test is made against the scanned page |
| DiscoveryProps.ListingUrlsAreClassifiedResult | scrapePublic.js:136-161 | the returned list is `result` filtered by the classifier, without repeats |
| DiscoveryProps.NoLinksNoTargets | scrapePublic.js:107-162 | a site whose pages carry no links yields no discovered URL and no target |
| Pagination.PassOf | scrapePublic.js:243-263 | a pass stops exactly when there is no button and the viewport is at the bottom; it clicks exactly when the button is there; the fallback mouse click happens exactly when the click threw and a box exists |
| Pagination.Drive | scrapePublic.js:236-267 | one pass per observation, each as `PassOf` says; no stop before the last pass; fewer passes than observations only when the last pass stopped |
| Pagination.DriveStopsAtFirstExit | scrapePublic.js:244-250 | the loop stops exactly when some observation shows no button at the bottom, and at the first such observation |
| Pagination.SettlesSomewhere | scrapePublic.js:236-267 | a page settles exactly when some observation shows no button at the bottom of the page |
| Pagination.SaturatesAfterClicks | scrapePublic.js:236-267 | with the button present for exactly k passes and then gone at the bottom, the loop clicks k times and stops on pass k + 1 |
| Pagination.ButtonMeansClick | scrapePublic.js:253-263 | a pass with the button present clicks and never ends the loop |
| Pagination.SeeMoreLoop | scrapePublic.js:236-267 | the `while (true)` loop makes exactly the passes of `Drive`; it stopped exactly when the page settles, and its last pass then is a stop |
| Extraction.QuerySelector | scrapePublic.js:313-315 | a selector group finds the first element in document order that matches any alternative, and nothing when none matches |
| Extraction.TextAt | scrapePublic.js:281-282 | the trimmed `textContent` of the first element in document order matching the selector, `""` when none matches |
| Extraction.FirstText | scrapePublic.js:279-286 | the first selector, in list order, with non-empty trimmed text; none exactly when every selector's text is empty |
| Extraction.PickFirstText | scrapePublic.js:279-286 | the result is trimmed; it is empty exactly when no selector's element has text, and otherwise it is the text of the first selector, in list order, that has some |
| Extraction.FirstAttr | scrapePublic.js:292 | the `\|\|` chain of attributes: empty exactly when all are, otherwise the first non-empty one in order |
| Extraction.SrcsetBest | scrapePublic.js:297-298 | the chosen `srcset` URL holds no comma or space and does not start with whitespace |
| Extraction.SrcsetPicksLast | scrapePublic.js:295-299 | for a `srcset` ending in `, url descriptor`, the last candidate's URL is chosen |
| Extraction.ImageTestAcceptsAnyCharBeforeExtension | scrapePublic.js:303 | the unescaped `.` lets `/img/photoJPG?w=200` pass the extension test; `/img/photo.webp` passes and `""` fails |
| Extraction.ImgCandidate | scrapePublic.js:290-294 | the first tier reads the card's first `img`: the first non-empty of its `src`, `data-src`, `data-lazy`; `""` when the card has no `img` |
| Extraction.ImgAttributeOrder | scrapePublic.js:292 | on the first `img`, `src` wins over `data-src`, which wins over `data-lazy` |
| Extraction.SrcsetCandidate | scrapePublic.js:295-300 | the second tier is the chosen candidate of the `srcset` of the first `picture source[srcset]`, `""` when there is none; it holds no comma or space |
| Extraction.ScanCandidate | scrapePublic.js:301-304 | the third tier is empty exactly when no `img`/`source` candidate passes the extension test; otherwise it is the first passing candidate in document order |
| Extraction.PickImage | scrapePublic.js:289-305 | the first tier when it is non-empty, else the second when it is non-empty, else the third; empty exactly when all three are |
| Extraction.MatchAt | scrapePublic.js:342 | the first alternative, in list order, that starts at a position, or none when no alternative does |
| Extraction.Leftmost | scrapePublic.js:342 | the regular expression's match is at the leftmost position where some phrase starts |
| Extraction.KeywordFallback | scrapePublic.js:341-343 | a non-empty result is the phrase matching at the leftmost position where any phrase occurs, the first in list order at that position; with non-empty phrases the result is empty only when no phrase occurs in the text |
| Extraction.LeftmostBeatsListOrder | scrapePublic.js:342 | in `Μη διαθέσιμο / Άμεσα Διαθέσιμο` the fallback yields `Μη διαθέσιμο`, though `Άμεσα Διαθέσιμο` is listed first |
| Extraction.StrongText | scrapePublic.js:334-335 | the `textContent` of the first element matching the selector, `""` when there is none |
| Extraction.MarkedAvailability | scrapePublic.js:333-337 | `norm` of the primary `strong` text when that is non-empty, else `norm` of the fallback one; always in normal form |
| Extraction.Availability | scrapePublic.js:333-344 | a non-empty marked text wins; otherwise the keyword fallback on `norm` of the card's `innerText`; the result is empty, in normal form, or one of the four phrases |
| Extraction.CodeOf | scrapePublic.js:320 | the code holds no `/`, ends the link, follows the link's last `/`, and is the whole link when the link has no `/` |
| Extraction.OwnSpecs | scrapePublic.js:348 | the trimmed `innerText` of the first `.product-specs`, `""` when there is none |
| Extraction.Specs | scrapePublic.js:347-351 | the trimmed `.product-specs` text when it is non-empty, else `pickFirstText` over `.specs, .features, .chips, .attributes`; empty exactly when both are |
| Extraction.Title | scrapePublic.js:313-316 | the trimmed `textContent` of the first element in document order matching any alternative of the title/link group, `""` when none matches |
| Extraction.Link | scrapePublic.js:313-317 | the trimmed `href` of that same element, `""` when none matches |
| Extraction.MapCard | scrapePublic.js:311-366 | each field is its extractor's result: title, link, price over the six price selectors, availability, specs and image; the code is the last path segment of the link, holds no `/` and ends the link |
| Extraction.MissingPrice | scrapePublic.js:323-330 | a card where no price selector finds text keeps its row, with price `""` and every other field as usual |
| Extraction.ExtractProducts | scrapePublic.js:277-367 | one record per card, in card order, each the card's map |
| JsText.Trim | scrapePublic.js:282 | the result is a slice of the input with only whitespace removed at both ends, and is itself trimmed |
| JsText.Norm | scrapePublic.js:308 | the result is in normal form, keeps exactly the input's non-whitespace characters in order, and keeps exactly its words |
| JsText.Words | scrapePublic.js:308 | the reference definition of words, the maximal runs of non-whitespace: every word is non-empty and starts with a non-whitespace character |
| JsText.Collapse | scrapePublic.js:308 | `replace(/\s+/g, ' ')` leaves single spaces only, keeps the non-whitespace characters and the words, and keeps whether the text starts with whitespace |
| JsText.TrimWords | scrapePublic.js:308 | `trim` keeps the words |
| JsText.NormJoinsWords | scrapePublic.js:308 | `norm(s)` is the words of `s` joined by single spaces |
| JsText.NormalizedJoinsWords | scrapePublic.js:308 | text in normal form is its own words joined by single spaces |
| JsText.NormEmpty | scrapePublic.js:308 | `norm` is empty exactly on whitespace-only input |
| JsText.NormIdempotent | scrapePublic.js:308 | `norm(norm(s)) == norm(s)` |
| JsText.NormOfNormalized | scrapePublic.js:308 | text already in normal form is a fixed point of `norm` |
| JsText.LastIndexOf | scrapePublic.js:320 | -1 exactly when the character is absent; otherwise a position holding it with none after |
| JsText.Split | scrapePublic.js:298 | never empty; no part holds the separator; the first part is a prefix of the input; joining the parts with the separator gives the input back |
| JsText.SplitLastPart | scrapePublic.js:298 | the last part, which `pop` takes, is the text after the last separator |
| JsText.SplitJoin | utils/export.js:10 | splitting a join on its separator gives the parts back when none holds it |
| CsvExport.Lookup | utils/export.js:8 | `r[h]` is `undefined` when no entry has the key, and otherwise the value of the first entry holding it |
| CsvExport.LookupFirstKey | utils/export.js:8 | the first entry holding a key is the one read |
| CsvExport.Quote | utils/export.js:5 | an escaped value starts and ends with `"` and holds an LF only if its text does |
| CsvExport.Escape | utils/export.js:5 | `null` and `undefined` are written as `""`; every field is quoted and at least as long as its text plus the quotes; a text without quotes is written unchanged between them |
| CsvExport.EscapeRoundTrip | utils/export.js:5 | reading an escaped field gives back `String(v ?? '')` exactly, for any text |
| CsvExport.Table | utils/export.js:4-9 | the header row is the first row's keys, then one row of texts per record under those keys |
| CsvExport.ExportToCsv | utils/export.js:3 | missing or empty rows give the empty content |
| CsvExport.ParseLineOfLine | utils/export.js:7-8 | a line of escaped fields joined by commas reads back as its texts |
| CsvExport.ExportRoundTrip | utils/export.js:2-11 | reading the content back gives the table: the first row's keys, then every row's texts |
| CsvExport.ExportShape | utils/export.js:6-10 | the content has one line per row plus the header, the header reads back as the keys, and every line has one field per key |
| CsvExport.MissingKeyIsEmptyField | utils/export.js:5-8 | a key the row lacks is written as `""` |
| CsvExport.NoTrailingNewline | utils/export.js:10 | non-empty content never ends with a line break; its last character is a quote |
| CsvExport.ZeroKeysContent | utils/export.js:4-10 | when the first row has no keys, every line is empty and the content is one LF per row, ending in a line break |
| Targets.SelectTargets | scrapePublic.js:192-208 | full-site mode exactly for `/cat` or `/cat/`, targets = the discovered listings; single-page mode exactly when the canonical root is not the tree root but lists products, target = the root alone; subtree mode otherwise, targets = the listings whose URL text starts with the root's; targets never repeat and are all listing pages |
| Targets.SerializedUnderRoot | scrapePublic.js:205 | a canonical URL without query or fragment whose path extends the root's has a text that starts with the root's text |
| Targets.SubtreeFilterKeepsAll | scrapePublic.js:203-206 | for a start URL without query or fragment the subtree filter keeps every discovered listing |
| TargetLoop.ScrapeTargets | scrapePublic.js:214-375 | when every target's page settles, the passes are each page's `Drive` and `allProducts` is each target's records in target order; otherwise the run ends at the first target whose page never settles, holding the records of the targets before it |
| TargetLoop.ScrapeTarget | scrapePublic.js:226-370 | one target: the loop makes the passes `Drive` gives for the page at `toHttps(url)`; it stops exactly when the page settles, and the records are then the map of the page's cards |
| TargetLoop.OneMoreTarget | scrapePublic.js:214-375 | scraping one more target appends its passes and its records, and the run has settled so far exactly when it had before and this page settles |
| Scraping.AllProductsFromCards | scrapePublic.js:311-370 | every accumulated record is the map of some card of some target page |
| Scraping.CardsAllScraped | scrapePublic.js:311-370 | every card of every target page contributes its record |
| Scraping.AllProductsCount | scrapePublic.js:311-370 | the number of records is the total number of cards over the target pages |
| ProductExport.ProductRow | scrapePublic.js:357-365 | a record's keys are `Κωδικός, Τίτλος, Τιμή, Διαθεσιμότητα, Specs, Εικόνα, Link`, in that order |
| ProductExport.ProductRowTexts | scrapePublic.js:357-365 | looking each key up in a record gives that record's field for it |
| ProductExport.ProductsCsvRoundTrip | scrapePublic.js:381 | reading the CSV of the records back gives the seven keys, then each record's seven fields |
| ProductExport.AvailabilityOneLine | scrapePublic.js:333-344 | the availability field never holds an LF |
| Orchestrator.Run | scrapePublic.js:187-381 | the mode is full-site exactly when the canonical root is the tree root, single-page exactly when it is not but its page is a listing, and subtree otherwise; the targets are then all discovered listings, the canonical root alone, or the discovered listings whose text starts with the root's text; they hold no repeats and every one is a listing page; content is written exactly when every target's page settles, and then the records are those of the targets and the content is their CSV; on a site without links, the other modes produce no target, no record and empty content |

## Left out

- Browser plumbing is not modelled:
  - user agent, language headers and the `webdriver` override;
  - the warm-up tab;
  - the search guards and overlay dismissal (`installSearchGuards`, `dismissSearchOverlay`);
  - `scrollIntoView`, the half-screen scroll before each pass, and every `sleep` and navigation timeout.
  None of these changes what is scraped once a page has settled, and `Web`/`Site` give the settled page.
- Pagination.PassOf, Discovery.KeepListings, TargetLoop.ScrapeTargets and Orchestrator.Run do not model a browser call that throws. The calls are `page.$` and the bottom test in the "see more" loop (scrapePublic.js:243-248), `scrollIntoView` (:254), `boundingBox` and `mouse.click` in the fallback click (:259-261), `$$eval` (:277), the classifier's `evaluate` (:150-154) and `pageHasProductList`'s `evaluate` (helpers.js:119-123). None is guarded and the main function has no `catch`, so such a throw ends the run with no CSV written. In the model every observation is available and the box click always goes through.
- The retry loop at scrapePublic.js:53-60 (wait for a `/cat/` anchor, else scroll) only affects when anchors appear. The model reads the anchors of the settled page.
- Helpers.Url: an empty query `?` or fragment `#` is identified with an absent one, as `search` and `hash` report both as `""`. In the program, `…/cat/x#` and `…/cat/x` are different strings. Both pass the link filter, both stay in the `Set`, and both are scanned, classified and scraped, so that page's records are written twice. The model has one URL for both and writes the records once.
- Strings are sequences of Unicode scalar values, while JavaScript strings are sequences of UTF-16 code units, so a lone surrogate cannot be represented. Every separator, selector and phrase the scraper matches lies in the Basic Multilingual Plane, so no result of the model depends on this.
- URL parsing is abstracted. `new URL` either yields the five components or throws (`Unparsed`). Relative resolution against the origin, ports, credentials and percent-encoding are not modelled, and `toString` is the concatenation of the components.
- CSS selector matching is abstracted. Each element lists the selectors it matches, so `:has-text`, attribute substring selectors and descendant combinators are not evaluated.
- The DOM growth caused by each click is not modelled. A page's cards are the tiles present once the "see more" loop has ended. The loop has no iteration cap, so a finite observation sequence stands for the page's behaviour. A run that exhausts it has not settled: `SeeMoreLoop` reports this with `stopped == false`, `ScrapeTargets` ends the run at that target, and `Run` writes no CSV.
- The pixel arithmetic of the bounding-box click (scrapePublic.js:259-262) is reduced to "a box exists".
- The JSON snapshot, the `fs` calls and the console output are left out. The CSV content is modelled as the string that would be written.
- The optional enrichment pass (scrapePublic.js:383-423) is left out. It starts after the CSV is written and reads `cardsData`, which is never defined. The `filter` call at scrapePublic.js:393 throws a `ReferenceError`, so the run ends there and `browser.close()` (:428) is never reached. The CSV content is unaffected.
- CSV values other than strings, `null` and `undefined` are not modelled. Every field the scraper writes is a string.
- The ordering of integer-like keys in `Object.keys` is not modelled. Keys are taken in insertion order, which is the order for every key this scraper writes.
- The `autoScroll` timer period (180 ms) is not modelled. Each tick's `scrollHeight` reading is an element of a sequence.
- CsvExport.ExportRoundTrip: proved only when no key or text holds an LF. The exporter does quote an LF correctly, but the reader used here splits the content into lines before reading fields. Titles and specs may hold LFs; availability never does (`AvailabilityOneLine`).
- ProductExport.ProductsCsvRoundTrip: same restriction, every field without an LF.
- Targets.SubtreeFilterKeepsAll: proved only for a start URL without query or fragment. With one, the prefix test compares against text no discovered URL carries, and the filter can drop every target.
- CsvExport.Lookup: `r[h]` on a plain object also reads its prototype chain, so a key the row lacks but that names an `Object.prototype` member (`toString`, `constructor`, …) gives that member rather than `undefined`. The model gives `undefined`. Every row the scraper writes carries all seven keys, so this never arises there.
- CsvExport.MissingKeyIsEmptyField: holds in the source only for keys that do not name an `Object.prototype` member, for the reason given under `CsvExport.Lookup`.
- Helpers.ToHttps: the URL standard refuses `u.protocol = 'https:'` for a non-special scheme (`mailto:`, `javascript:`) and for a `file:` URL with an empty host, leaving the scheme as it was. The model rewrites the scheme of every parsed URL. The links the scraper feeds it are `http`/`https` page links.
- CsvExport.ExportRoundTrip: also assumes the first row has at least one key. With none, the content is one LF per row and ends in a line break (`ZeroKeysContent`). Every product row has seven keys.
- CsvExport.ExportShape: the same assumption of at least one key.
- CsvExport.NoTrailingNewline: the same assumption; with no keys the content does end in a line break (`ZeroKeysContent`).
- Extraction.SrcsetBest: states only the shape of the chosen URL. Which candidate is chosen is stated by `SrcsetPicksLast`, for a `srcset` whose last candidate is a URL followed by a descriptor.
