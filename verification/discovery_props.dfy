/** What the category search of scrapePublic.js:107-162 guarantees, proved
    about its specification `Discovery.Discover` / `Discovery.ListingUrls`
    (which `Discovery.GetAllCategoryUrlsFromRoot` is proved to compute).
    The search invariants are proved for any link extraction `kids`; the
    promises at the end instantiate them with the site's own. */
module DiscoveryProps {
  import opened Seqs
  import opened JsText
  import opened Helpers
  import opened Discovery

  /** The URLs of the scanned pages. */
  ghost function UrlsOf(vs: seq<Visit>): set<Href> {
    set v | v in vs :: v.url
  }

  /** No page was scanned twice. */
  ghost predicate DistinctUrls(vs: seq<Visit>) {
    forall i, j :: 0 <= i < j < |vs| ==> vs[i].url != vs[j].url
  }

  /** The union of `f` over the visits `vs`. */
  ghost function Collect(f: Visit -> set<Href>, vs: seq<Visit>): set<Href>
    decreases |vs|
  {
    if vs == [] then {} else Collect(f, vs[..|vs| - 1]) + f(vs[|vs| - 1])
  }

  ghost function KidsOf(kids: Extract): Visit -> set<Href> {
    (v: Visit) => set x | x in kids(v.url)
  }

  ghost function KidsAtOf(kids: Extract, d: nat): Visit -> set<Href> {
    (v: Visit) => if v.depth == d then set x | x in kids(v.url) else {}
  }

  /** The children of all the scanned pages `vs`. */
  ghost function Kids(kids: Extract, vs: seq<Visit>): set<Href> {
    Collect(KidsOf(kids), vs)
  }

  /** The children of the pages of `vs` scanned at level `d`. */
  ghost function KidsAt(kids: Extract, vs: seq<Visit>, d: nat): set<Href> {
    Collect(KidsAtOf(kids, d), vs)
  }

  /** `u` belongs to level `depth`: the root at level 0, otherwise a child of
      a page scanned at the level before. */
  ghost predicate AtLevel(kids: Extract, root: Href, vs: seq<Visit>, depth: nat, u: Href) {
    (depth == 0 && u == root) || (depth > 0 && u in KidsAt(kids, vs, depth - 1))
  }

  /** What holds of the search state once it stops. */
  ghost predicate CrawlInv(kids: Extract, root: Href, maxDepth: nat, c: Crawl) {
    && NoDup(c.result)
    && c.seen == UrlsOf(c.visits) && DistinctUrls(c.visits)
    && (forall v :: v in c.visits ==> v.depth <= maxDepth)
    && (forall x :: x in c.result <==> x in Kids(kids, c.visits))
    && (forall v :: v in c.visits ==> AtLevel(kids, root, c.visits, v.depth, v.url))
  }

  /** What holds at the top of each level. */
  ghost predicate LevelInv(kids: Extract, root: Href, maxDepth: nat, frontier: seq<Href>, depth: nat, c: Crawl) {
    && CrawlInv(kids, root, maxDepth, c)
    && (forall v :: v in c.visits ==> v.depth < depth)
    && (forall u :: u in frontier ==> AtLevel(kids, root, c.visits, depth, u))
  }

  // ------------------------------------------------------- unions of children

  lemma {:induction false} CollectAppend(f: Visit -> set<Href>, a: seq<Visit>, b: seq<Visit>)
    ensures Collect(f, a + b) == Collect(f, a) + Collect(f, b)
    decreases |b|
  {
    if b == [] {
      assert a + b == a;
    } else {
      CollectAppend(f, a, b[..|b| - 1]);
      assert (a + b)[..|a + b| - 1] == a + b[..|b| - 1];
    }
  }

  lemma CollectOne(f: Visit -> set<Href>, v: Visit)
    ensures Collect(f, [v]) == f(v)
  {
    assert [v][..0] == [];
  }

  lemma {:induction false} CollectMember(f: Visit -> set<Href>, vs: seq<Visit>, x: Href)
    ensures x in Collect(f, vs) <==> exists v :: v in vs && x in f(v)
    decreases |vs|
  {
    if vs != [] {
      var init, last := vs[..|vs| - 1], vs[|vs| - 1];
      CollectMember(f, init, x);
      assert forall v :: v in vs <==> v in init || v == last by {
        assert vs == init + [last];
      }
    }
  }

  lemma {:induction false} CollectAgree(f: Visit -> set<Href>, g: Visit -> set<Href>, vs: seq<Visit>)
    requires forall v :: v in vs ==> f(v) == g(v)
    ensures Collect(f, vs) == Collect(g, vs)
    decreases |vs|
  {
    if vs != [] {
      assert forall v :: v in vs[..|vs| - 1] ==> v in vs;
      CollectAgree(f, g, vs[..|vs| - 1]);
    }
  }

  lemma KidsMember(kids: Extract, vs: seq<Visit>, x: Href)
    ensures x in Kids(kids, vs) <==> exists v :: v in vs && x in kids(v.url)
  {
    CollectMember(KidsOf(kids), vs, x);
    if x in Kids(kids, vs) {
      var v :| v in vs && x in KidsOf(kids)(v);
      assert x in kids(v.url);
    }
    if exists v :: v in vs && x in kids(v.url) {
      var v :| v in vs && x in kids(v.url);
      assert x in KidsOf(kids)(v);
    }
  }

  lemma KidsAtMember(kids: Extract, vs: seq<Visit>, d: nat, x: Href)
    ensures x in KidsAt(kids, vs, d) <==> exists v :: v in vs && v.depth == d && x in kids(v.url)
  {
    CollectMember(KidsAtOf(kids, d), vs, x);
    if x in KidsAt(kids, vs, d) {
      var v :| v in vs && x in KidsAtOf(kids, d)(v);
      assert v.depth == d && x in kids(v.url);
    }
    if exists v :: v in vs && v.depth == d && x in kids(v.url) {
      var v :| v in vs && v.depth == d && x in kids(v.url);
      assert x in KidsAtOf(kids, d)(v);
    }
  }

  lemma AtLevelGrows(kids: Extract, root: Href, vs: seq<Visit>, ws: seq<Visit>, depth: nat, u: Href)
    requires vs <= ws && AtLevel(kids, root, vs, depth, u)
    ensures AtLevel(kids, root, ws, depth, u)
  {
    if depth > 0 {
      assert ws == vs + ws[|vs|..];
      CollectAppend(KidsAtOf(kids, depth - 1), vs, ws[|vs|..]);
    }
  }

  // ------------------------------------------------------------ one level

  /** Scanning one more, unseen URL keeps `seen` equal to the scanned URLs
      and the scanned URLs distinct. */
  lemma ScanOneMore(seen: set<Href>, visits: seq<Visit>, v: Visit)
    requires seen == UrlsOf(visits) && DistinctUrls(visits) && v.url !in seen
    ensures seen + {v.url} == UrlsOf(visits + [v]) && DistinctUrls(visits + [v])
  {
    var vs := visits + [v];
    assert UrlsOf(vs) == UrlsOf(visits) + {v.url};
    forall i, j | 0 <= i < j < |vs| ensures vs[i].url != vs[j].url {
      if j == |visits| {
        assert vs[i] in visits;
      } else {
        assert vs[i] == visits[i] && vs[j] == visits[j];
      }
    }
  }

  /** The part of `ScanInv` about the state alone: `result` has no repeats
      and holds the children of the scanned pages; `seen` is the scanned URLs. */
  ghost predicate ScanState(kids: Extract, c: Crawl) {
    && NoDup(c.result)
    && c.seen == UrlsOf(c.visits) && DistinctUrls(c.visits)
    && (forall x :: x in c.result <==> x in Kids(kids, c.visits))
  }

  /** The part of `ScanInv` about levels: every page scanned so far is at a
      level no deeper than this one, the frontier still to scan is at this
      level, and `next` holds children of pages scanned at this level. */
  ghost predicate ScanLevels(kids: Extract, root: Href, frontier: seq<Href>, depth: nat, c: Crawl, next: seq<Href>) {
    && (forall v :: v in c.visits ==> v.depth <= depth && AtLevel(kids, root, c.visits, v.depth, v.url))
    && (forall u :: u in frontier ==> AtLevel(kids, root, c.visits, depth, u))
    && (forall x :: x in next ==> x in KidsAt(kids, c.visits, depth))
  }

  /** What holds before each pass of the loop over a level's frontier. */
  ghost predicate ScanInv(kids: Extract, root: Href, frontier: seq<Href>, depth: nat, c: Crawl, next: seq<Href>) {
    ScanState(kids, c) && ScanLevels(kids, root, frontier, depth, c, next)
  }

  /** Scanning an unseen URL of the frontier: the children sets grow by its children. */
  lemma ScanOneKids(kids: Extract, url: Href, depth: nat, c: Crawl, next: seq<Href>)
    requires url !in c.seen
    ensures var c1 := ScanOne(kids, url, depth, c, next).0;
            && Kids(kids, c1.visits) == Kids(kids, c.visits) + set x | x in kids(url)
            && KidsAt(kids, c1.visits, depth) == KidsAt(kids, c.visits, depth) + set x | x in kids(url)
  {
    var v := Visit(url, depth);
    CollectAppend(KidsOf(kids), c.visits, [v]);
    CollectOne(KidsOf(kids), v);
    CollectAppend(KidsAtOf(kids, depth), c.visits, [v]);
    CollectOne(KidsAtOf(kids, depth), v);
  }

  lemma ScanOneState(kids: Extract, url: Href, depth: nat, c: Crawl, next: seq<Href>)
    requires ScanState(kids, c)
    ensures ScanState(kids, ScanOne(kids, url, depth, c, next).0)
  {
    if url !in c.seen {
      ScanOneMore(c.seen, c.visits, Visit(url, depth));
      ScanOneKids(kids, url, depth, c, next);
    }
  }

  lemma ScanOneLevels(kids: Extract, root: Href, frontier: seq<Href>, depth: nat, c: Crawl, next: seq<Href>)
    requires frontier != [] && ScanLevels(kids, root, frontier, depth, c, next)
    ensures var step := ScanOne(kids, frontier[0], depth, c, next);
            ScanLevels(kids, root, frontier[1..], depth, step.0, step.1)
  {
    var url := frontier[0];
    var step := ScanOne(kids, url, depth, c, next);
    var c1, n1 := step.0, step.1;
    assert forall u :: u in frontier[1..] ==> u in frontier;
    if url !in c.seen {
      ScanOneKids(kids, url, depth, c, next);
      assert c.visits <= c1.visits;
      forall v | v in c1.visits ensures v.depth <= depth && AtLevel(kids, root, c1.visits, v.depth, v.url) {
        if v in c.visits {
          AtLevelGrows(kids, root, c.visits, c1.visits, v.depth, v.url);
        } else {
          assert v == Visit(url, depth);
          AtLevelGrows(kids, root, c.visits, c1.visits, depth, url);
        }
      }
      forall u | u in frontier[1..] ensures AtLevel(kids, root, c1.visits, depth, u) {
        AtLevelGrows(kids, root, c.visits, c1.visits, depth, u);
      }
    }
  }

  /** One pass of the loop over a level's frontier keeps `ScanInv`. */
  lemma ScanOneKeeps(kids: Extract, root: Href, frontier: seq<Href>, depth: nat, c: Crawl, next: seq<Href>)
    requires frontier != [] && ScanInv(kids, root, frontier, depth, c, next)
    ensures var step := ScanOne(kids, frontier[0], depth, c, next);
            ScanInv(kids, root, frontier[1..], depth, step.0, step.1)
  {
    ScanOneState(kids, frontier[0], depth, c, next);
    ScanOneLevels(kids, root, frontier, depth, c, next);
  }

  /** The loop over a level's frontier keeps `ScanInv` to the end. */
  lemma {:induction false} ScanLevelKeeps(kids: Extract, root: Href, frontier: seq<Href>, depth: nat, c: Crawl, next: seq<Href>)
    requires ScanInv(kids, root, frontier, depth, c, next)
    ensures var level := ScanLevel(kids, frontier, depth, c, next);
            ScanInv(kids, root, [], depth, level.0, level.1)
    decreases |frontier|
  {
    if frontier != [] {
      ScanOneKeeps(kids, root, frontier, depth, c, next);
      var step := ScanOne(kids, frontier[0], depth, c, next);
      ScanLevelKeeps(kids, root, frontier[1..], depth, step.0, step.1);
      assert ScanLevel(kids, frontier, depth, c, next) == ScanLevel(kids, frontier[1..], depth, step.0, step.1);
    }
  }

  /** Scanning one level takes the invariant at level `depth` to level `depth + 1`. */
  lemma LevelStep(kids: Extract, root: Href, maxDepth: nat, frontier: seq<Href>, depth: nat, c: Crawl)
    requires LevelInv(kids, root, maxDepth, frontier, depth, c) && depth <= maxDepth
    ensures var level := ScanLevel(kids, frontier, depth, c, []);
            LevelInv(kids, root, maxDepth, level.1, depth + 1, level.0)
  {
    assert ScanInv(kids, root, frontier, depth, c, []);
    ScanLevelKeeps(kids, root, frontier, depth, c, []);
  }

  /** One turn of the level loop. */
  lemma LevelsUnfold(kids: Extract, frontier: seq<Href>, depth: nat, maxDepth: nat, c: Crawl)
    requires frontier != [] && depth <= maxDepth
    ensures var level := ScanLevel(kids, frontier, depth, c, []);
            Levels(kids, frontier, depth, maxDepth, c) == Levels(kids, level.1, depth + 1, maxDepth, level.0)
  {
  }

  /** The level loop keeps the invariant and ends in a state satisfying `CrawlInv`. */
  lemma {:induction false} LevelsFacts(kids: Extract, root: Href, maxDepth: nat, frontier: seq<Href>, depth: nat, c: Crawl)
    requires LevelInv(kids, root, maxDepth, frontier, depth, c)
    ensures CrawlInv(kids, root, maxDepth, Levels(kids, frontier, depth, maxDepth, c))
    decreases maxDepth - depth, 1
  {
    if frontier == [] || depth > maxDepth {
      assert Levels(kids, frontier, depth, maxDepth, c) == c;
    } else {
      LevelsFactsStep(kids, root, maxDepth, frontier, depth, c);
    }
  }

  lemma {:induction false} LevelsFactsStep(kids: Extract, root: Href, maxDepth: nat, frontier: seq<Href>, depth: nat, c: Crawl)
    requires LevelInv(kids, root, maxDepth, frontier, depth, c) && frontier != [] && depth <= maxDepth
    ensures CrawlInv(kids, root, maxDepth, Levels(kids, frontier, depth, maxDepth, c))
    decreases maxDepth - depth, 0
  {
    LevelStep(kids, root, maxDepth, frontier, depth, c);
    LevelsUnfold(kids, frontier, depth, maxDepth, c);
    var level := ScanLevel(kids, frontier, depth, c, []);
    LevelsFacts(kids, root, maxDepth, level.1, depth + 1, level.0);
  }

  lemma DiscoverFacts(web: Web, root: Href, maxDepth: nat)
    ensures CrawlInv(ChildrenOf(web), root, maxDepth, Discover(web, root, maxDepth))
  {
    var c := Crawl({}, [], []);
    assert UrlsOf(c.visits) == {};
    assert Kids(ChildrenOf(web), c.visits) == {};
    LevelsFacts(ChildrenOf(web), root, maxDepth, [root], 0, c);
  }

  lemma {:induction false} ScanVisitsGrow(kids: Extract, frontier: seq<Href>, depth: nat, c: Crawl, next: seq<Href>)
    ensures c.visits <= ScanLevel(kids, frontier, depth, c, next).0.visits
    decreases |frontier|
  {
    if frontier != [] {
      var step := ScanOne(kids, frontier[0], depth, c, next);
      ScanVisitsGrow(kids, frontier[1..], depth, step.0, step.1);
    }
  }

  lemma {:induction false} VisitsOnlyGrow(kids: Extract, frontier: seq<Href>, depth: nat, maxDepth: nat, c: Crawl)
    ensures c.visits <= Levels(kids, frontier, depth, maxDepth, c).visits
    decreases maxDepth - depth
  {
    if frontier != [] && depth <= maxDepth {
      ScanVisitsGrow(kids, frontier, depth, c, []);
      var level := ScanLevel(kids, frontier, depth, c, []);
      VisitsOnlyGrow(kids, level.1, depth + 1, maxDepth, level.0);
    }
  }

  /** `u` parses and its path extends the root's. */
  ghost predicate UnderRoot(root: Href, u: Href) {
    root.Parsed? && u.Parsed? && StartsWith(u.url.path, root.url.path)
  }

  /** A page scanned at any level lies under the root, by induction on its level. */
  lemma {:induction false} VisitUnderRoot(web: Web, root: Href, vs: seq<Visit>, v: Visit)
    requires root.Parsed? && v in vs
    requires forall w :: w in vs ==> AtLevel(ChildrenOf(web), root, vs, w.depth, w.url)
    ensures UnderRoot(root, v.url)
    decreases v.depth
  {
    assert AtLevel(ChildrenOf(web), root, vs, v.depth, v.url);
    if v.depth == 0 {
      assert root.url.path[..|root.url.path|] == root.url.path;
    } else {
      KidsAtMember(ChildrenOf(web), vs, v.depth - 1, v.url);
      var p :| p in vs && p.depth == v.depth - 1 && v.url in ChildrenOf(web)(p.url);
      VisitUnderRoot(web, root, vs, p);
      ChildUnderPage(web, p.url, v.url);
      PrefixTransitive(v.url.url.path, p.url.url.path, root.url.path);
    }
  }

  // --------------------------------------------------------- completeness

  /** `x` was scanned at some level no deeper than `d`. */
  ghost predicate ScannedBy(c: Crawl, x: Href, d: nat) {
    exists w :: w in c.visits && w.url == x && w.depth <= d
  }

  /** Every URL seen so far was scanned at a level no deeper than `depth`. */
  ghost predicate SeenWithin(c: Crawl, depth: nat) {
    forall u :: u in c.seen ==> ScannedBy(c, u, depth)
  }

  /** No child is lost: every child of a page scanned at level `d` has
      been scanned at a level no deeper than `d + 1`, or waits in the rest
      of this level's frontier (a child of the level before), or was queued
      in `next` (a child of this level). */
  ghost predicate Covered(kids: Extract, frontier: seq<Href>, depth: nat, c: Crawl, next: seq<Href>) {
    forall v, x :: v in c.visits && x in kids(v.url) ==>
      ScannedBy(c, x, v.depth + 1) || (v.depth + 1 == depth && x in frontier) || (v.depth == depth && x in next)
  }

  /** `Covered` at one scanned page and one of its children. */
  lemma CoveredAt(kids: Extract, frontier: seq<Href>, depth: nat, c: Crawl, next: seq<Href>, v: Visit, x: Href)
    requires Covered(kids, frontier, depth, c, next) && v in c.visits && x in kids(v.url)
    ensures ScannedBy(c, x, v.depth + 1) || (v.depth + 1 == depth && x in frontier) || (v.depth == depth && x in next)
  {
    var d := v.depth + 1;
    assert ScannedBy(c, x, d) || (d == depth && x in frontier) || (v.depth == depth && x in next);
  }

  /** A scan recorded in `c` is still recorded in any later state. */
  lemma ScannedStays(c: Crawl, c1: Crawl, x: Href, d: nat)
    requires c.visits <= c1.visits && ScannedBy(c, x, d)
    ensures ScannedBy(c1, x, d)
  {
    var w :| w in c.visits && w.url == x && w.depth <= d;
    assert w in c1.visits;
  }

  /** Skipping a URL already seen keeps `Covered`. */
  lemma CoverSkip(kids: Extract, frontier: seq<Href>, depth: nat, c: Crawl, next: seq<Href>)
    requires frontier != [] && frontier[0] in c.seen && SeenWithin(c, depth)
    requires Covered(kids, frontier, depth, c, next)
    ensures Covered(kids, frontier[1..], depth, c, next)
  {
    forall v, x | v in c.visits && x in kids(v.url)
      ensures ScannedBy(c, x, v.depth + 1) || (v.depth + 1 == depth && x in frontier[1..]) || (v.depth == depth && x in next)
    {
      CoveredAt(kids, frontier, depth, c, next, v, x);
      if v.depth + 1 == depth && x == frontier[0] {
        assert ScannedBy(c, x, depth);
      } else if v.depth + 1 == depth && x in frontier {
        assert x in frontier[1..];
      }
    }
  }

  /** Scanning an unseen URL keeps `SeenWithin`. */
  lemma SeenScan(url: Href, depth: nat, c: Crawl, c1: Crawl)
    requires SeenWithin(c, depth)
    requires c1.seen == c.seen + {url} && c1.visits == c.visits + [Visit(url, depth)]
    ensures SeenWithin(c1, depth)
  {
    forall u | u in c1.seen ensures ScannedBy(c1, u, depth) {
      if u == url {
        assert Visit(url, depth) in c1.visits;
      } else {
        ScannedStays(c, c1, u, depth);
      }
    }
  }

  /** Scanning an unseen URL keeps `Covered`: its unseen children go to `next`. */
  lemma CoverScan(kids: Extract, frontier: seq<Href>, depth: nat, c: Crawl, next: seq<Href>, c1: Crawl, n1: seq<Href>)
    requires frontier != [] && frontier[0] !in c.seen && SeenWithin(c, depth)
    requires Covered(kids, frontier, depth, c, next)
    requires c1.seen == c.seen + {frontier[0]} && c1.visits == c.visits + [Visit(frontier[0], depth)]
    requires n1 == next + Filter(kids(frontier[0]), Unseen(c1.seen))
    ensures Covered(kids, frontier[1..], depth, c1, n1)
  {
    var url := frontier[0];
    SeenScan(url, depth, c, c1);
    forall v, x | v in c1.visits && x in kids(v.url)
      ensures ScannedBy(c1, x, v.depth + 1) || (v.depth + 1 == depth && x in frontier[1..]) || (v.depth == depth && x in n1)
    {
      if v in c.visits {
        if ScannedBy(c, x, v.depth + 1) {
          ScannedStays(c, c1, x, v.depth + 1);
        } else if v.depth + 1 == depth && x == url {
          assert Visit(url, depth) in c1.visits;
        } else if v.depth + 1 == depth && x in frontier {
          assert x in frontier[1..];
        } else {
          assert x in n1;
        }
      } else {
        assert v == Visit(url, depth);
        if x in c1.seen {
          assert ScannedBy(c1, x, depth);
        } else {
          assert Unseen(c1.seen)(x);
          assert x in Filter(kids(url), Unseen(c1.seen));
          assert x in n1;
        }
      }
    }
  }

  /** One pass of the loop over a level's frontier keeps `Covered` and `SeenWithin`. */
  lemma ScanOneCovers(kids: Extract, frontier: seq<Href>, depth: nat, c: Crawl, next: seq<Href>)
    requires frontier != [] && Covered(kids, frontier, depth, c, next) && SeenWithin(c, depth)
    ensures var step := ScanOne(kids, frontier[0], depth, c, next);
            Covered(kids, frontier[1..], depth, step.0, step.1) && SeenWithin(step.0, depth)
  {
    var step := ScanOne(kids, frontier[0], depth, c, next);
    if frontier[0] in c.seen {
      CoverSkip(kids, frontier, depth, c, next);
    } else {
      CoverScan(kids, frontier, depth, c, next, step.0, step.1);
      SeenScan(frontier[0], depth, c, step.0);
    }
  }

  /** The loop over a level's frontier keeps `Covered` and `SeenWithin` to the end. */
  lemma {:induction false} ScanLevelCovers(kids: Extract, frontier: seq<Href>, depth: nat, c: Crawl, next: seq<Href>)
    requires Covered(kids, frontier, depth, c, next) && SeenWithin(c, depth)
    ensures var level := ScanLevel(kids, frontier, depth, c, next);
            Covered(kids, [], depth, level.0, level.1) && SeenWithin(level.0, depth)
    decreases |frontier|
  {
    if frontier != [] {
      ScanOneCovers(kids, frontier, depth, c, next);
      var step := ScanOne(kids, frontier[0], depth, c, next);
      ScanLevelCovers(kids, frontier[1..], depth, step.0, step.1);
    }
  }

  /** At the end of a level, `next` is the frontier of the level after. */
  lemma NextLevelCovered(kids: Extract, depth: nat, c: Crawl, next: seq<Href>)
    requires Covered(kids, [], depth, c, next) && SeenWithin(c, depth)
    ensures Covered(kids, next, depth + 1, c, []) && SeenWithin(c, depth + 1)
  {
    forall u | u in c.seen ensures ScannedBy(c, u, depth + 1) {
      ScannedStays(c, c, u, depth);
      var w :| w in c.visits && w.url == u && w.depth <= depth;
    }
    forall v, x | v in c.visits && x in kids(v.url)
      ensures ScannedBy(c, x, v.depth + 1) || (v.depth + 1 == depth + 1 && x in next)
    {
      CoveredAt(kids, [], depth, c, next, v, x);
    }
  }

  /** Every child of a page scanned below level `maxDepth` has been scanned,
      at most one level deeper. */
  ghost predicate CompleteBelow(kids: Extract, maxDepth: nat, e: Crawl) {
    forall v, x :: v in e.visits && v.depth < maxDepth && x in kids(v.url) ==> ScannedBy(e, x, v.depth + 1)
  }

  /** Once the level loop stops, every child of a page scanned below the
      last level has been scanned, at most one level deeper. */
  lemma {:induction false} LevelsCover(kids: Extract, maxDepth: nat, frontier: seq<Href>, depth: nat, c: Crawl)
    requires Covered(kids, frontier, depth, c, []) && SeenWithin(c, depth) && depth <= maxDepth + 1
    ensures CompleteBelow(kids, maxDepth, Levels(kids, frontier, depth, maxDepth, c))
    decreases maxDepth - depth, 1
  {
    if frontier != [] && depth <= maxDepth {
      LevelsCoverStep(kids, maxDepth, frontier, depth, c);
    } else {
      assert Levels(kids, frontier, depth, maxDepth, c) == c;
      forall v, x | v in c.visits && v.depth < maxDepth && x in kids(v.url) ensures ScannedBy(c, x, v.depth + 1) {
        CoveredAt(kids, frontier, depth, c, [], v, x);
      }
    }
  }

  lemma {:induction false} LevelsCoverStep(kids: Extract, maxDepth: nat, frontier: seq<Href>, depth: nat, c: Crawl)
    requires Covered(kids, frontier, depth, c, []) && SeenWithin(c, depth)
    requires frontier != [] && depth <= maxDepth
    ensures CompleteBelow(kids, maxDepth, Levels(kids, frontier, depth, maxDepth, c))
    decreases maxDepth - depth, 0
  {
    ScanLevelCovers(kids, frontier, depth, c, []);
    var level := ScanLevel(kids, frontier, depth, c, []);
    NextLevelCovered(kids, depth, level.0, level.1);
    LevelsUnfold(kids, frontier, depth, maxDepth, c);
    LevelsCover(kids, maxDepth, level.1, depth + 1, level.0);
  }

  // ------------------------------------------------- the search's promises

  /** Each URL is scanned at most once, and only levels `0..maxDepth` are scanned. */
  lemma DiscoverScansOnce(web: Web, root: Href, maxDepth: nat)
    ensures var c := Discover(web, root, maxDepth);
            && DistinctUrls(c.visits)
            && c.seen == UrlsOf(c.visits)
            && forall v :: v in c.visits ==> v.depth <= maxDepth
  {
    DiscoverFacts(web, root, maxDepth);
  }

  /** `result` holds no repeats and is exactly the set of children of the
      scanned pages, those of the pages at level `maxDepth` included (they
      enter `result` but are never scanned). */
  lemma DiscoverResultIsChildren(web: Web, root: Href, maxDepth: nat)
    ensures var c := Discover(web, root, maxDepth);
            && NoDup(c.result)
            && forall x :: x in c.result <==> exists v :: v in c.visits && x in Children(web, v.url)
  {
    var c := Discover(web, root, maxDepth);
    DiscoverFacts(web, root, maxDepth);
    forall x ensures x in c.result <==> exists v :: v in c.visits && x in Children(web, v.url) {
      KidsMember(ChildrenOf(web), c.visits, x);
    }
  }

  /** The level loop from the root, for any link extraction, loses no child
      of a page scanned below the last level. */
  lemma SearchComplete(kids: Extract, root: Href, maxDepth: nat, v: Visit, x: Href)
    requires var c := Levels(kids, [root], 0, maxDepth, Crawl({}, [], []));
             v in c.visits && v.depth < maxDepth && x in kids(v.url)
    ensures ScannedBy(Levels(kids, [root], 0, maxDepth, Crawl({}, [], [])), x, v.depth + 1)
  {
    LevelsCover(kids, maxDepth, [root], 0, Crawl({}, [], []));
  }

  /** The search misses nothing it had the depth to reach: every child of a
      page scanned below level `maxDepth` is itself scanned, at most one
      level deeper than that page. */
  lemma DiscoverComplete(web: Web, root: Href, maxDepth: nat)
    ensures var c := Discover(web, root, maxDepth);
            forall v, x :: v in c.visits && v.depth < maxDepth && x in Children(web, v.url) ==>
              exists w :: w in c.visits && w.url == x && w.depth <= v.depth + 1
  {
    var kids := ChildrenOf(web);
    var c := Discover(web, root, maxDepth);
    forall v, x | v in c.visits && v.depth < maxDepth && x in Children(web, v.url)
      ensures exists w :: w in c.visits && w.url == x && w.depth <= v.depth + 1
    {
      assert x in kids(v.url);
      SearchComplete(kids, root, maxDepth, v, x);
    }
  }

  /** Levels are genuine breadth-first levels: the root is the only page at
      level 0, and every page at level `d > 0` is a child of a page scanned at
      level `d - 1`. */
  lemma DiscoverLevels(web: Web, root: Href, maxDepth: nat)
    ensures var c := Discover(web, root, maxDepth);
            forall v :: v in c.visits ==>
              (v.depth == 0 ==> v.url == root)
              && (v.depth > 0 ==> exists p :: p in c.visits && p.depth == v.depth - 1 && v.url in Children(web, p.url))
  {
    var c := Discover(web, root, maxDepth);
    DiscoverFacts(web, root, maxDepth);
    forall v | v in c.visits
      ensures v.depth == 0 ==> v.url == root
      ensures v.depth > 0 ==> exists p :: p in c.visits && p.depth == v.depth - 1 && v.url in Children(web, p.url)
    {
      assert AtLevel(ChildrenOf(web), root, c.visits, v.depth, v.url);
      if v.depth > 0 {
        KidsAtMember(ChildrenOf(web), c.visits, v.depth - 1, v.url);
      }
    }
  }

  /** The root page is always the first one scanned. */
  lemma DiscoverScansRootFirst(web: Web, root: Href, maxDepth: nat)
    ensures var c := Discover(web, root, maxDepth);
            |c.visits| >= 1 && c.visits[0] == Visit(root, 0)
  {
    var kids := ChildrenOf(web);
    var c0 := Crawl({}, [], []);
    var step := ScanOne(kids, root, 0, c0, []);
    assert step.0.visits == [Visit(root, 0)];
    assert [root][1..] == [];
    var level := ScanLevel(kids, [root], 0, c0, []);
    assert level == ScanLevel(kids, [], 0, step.0, step.1);
    assert level == step;
    assert Discover(web, root, maxDepth) == Levels(kids, level.1, 1, maxDepth, level.0);
    VisitsOnlyGrow(kids, level.1, 1, maxDepth, level.0);
  }

  /** The prefix test is made against the page being scanned, not the root,
      yet by transitivity every discovered URL lies under the root's path;
      and every discovered URL is on the canonical scheme and host. */
  lemma DiscoveredUnderRoot(web: Web, root: Href, maxDepth: nat)
    ensures var c := Discover(web, root, maxDepth);
            forall x :: x in c.result ==>
              Canonical(x) && x.url.search == "" && x.url.hash == ""
              && (root.Parsed? ==> StartsWith(x.url.path, root.url.path))
  {
    var c := Discover(web, root, maxDepth);
    DiscoverFacts(web, root, maxDepth);
    forall x | x in c.result
      ensures Canonical(x) && x.url.search == "" && x.url.hash == ""
              && (root.Parsed? ==> StartsWith(x.url.path, root.url.path))
    {
      KidsMember(ChildrenOf(web), c.visits, x);
      var v :| v in c.visits && x in ChildrenOf(web)(v.url);
      ChildUnderPage(web, v.url, x);
      if root.Parsed? {
        VisitUnderRoot(web, root, c.visits, v);
        PrefixTransitive(x.url.path, v.url.url.path, root.url.path);
      }
    }
  }

  /** The returned list is exactly the members of `result` the classifier
      accepts, in `result` order; the final set conversion changes nothing. */
  lemma ListingUrlsAreClassifiedResult(web: Web, root: Href, maxDepth: nat)
    ensures var result := Discover(web, root, maxDepth).result;
            && ListingUrls(web, root, maxDepth) == Filter(result, ListTest(web))
            && NoDup(ListingUrls(web, root, maxDepth))
            && forall u :: u in ListingUrls(web, root, maxDepth) <==> u in result && IsProductList(web(ToHttps(u)))
  {
    var result := Discover(web, root, maxDepth).result;
    DiscoverFacts(web, root, maxDepth);
    DedupOfDistinct(Filter(result, ListTest(web)));
  }

  /** A site whose pages carry no links yields no categories at all. */
  lemma NoLinksNoTargets(web: Web, root: Href, maxDepth: nat)
    ensures (forall u :: web(u).anchors == []) ==> Discover(web, root, maxDepth).result == []
    ensures (forall u :: web(u).anchors == []) ==> ListingUrls(web, root, maxDepth) == []
  {
    if forall u :: web(u).anchors == [] {
      var c := Discover(web, root, maxDepth);
      DiscoverFacts(web, root, maxDepth);
      forall u ensures Children(web, u) == [] {
        if u.Parsed? {
          assert CleanedLinks(u.url.path, web(u).anchors) == [];
        }
      }
      forall x ensures x !in c.result {
        KidsMember(ChildrenOf(web), c.visits, x);
      }
      NoMembersEmpty(c.result);
    }
  }
}
