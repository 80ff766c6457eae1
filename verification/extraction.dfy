/** The per-card field extraction of scrapePublic.js (the callback of
    `$$eval('.product-tile-container', …)`): `pickFirstText`, `pickImage`,
    `norm`, the availability fallback, the product code and the card map.
    A card is the list of its descendant elements in document order; CSS
    matching is abstracted into the set of selectors each element matches. */
module Extraction {
  import opened Seqs
  import opened JsText

  /** One element of a card: the selectors it matches, its `textContent`, its
      `innerText`, its attributes (`getAttribute` gives `null` for a missing
      name) and its `href` property (`""` on an element without one). */
  datatype Element = Element(matches: set<string>, textContent: string, innerText: string,
                             attrs: map<string, string>, href: string)

  /** A `.product-tile-container`: its descendants in document order and its own `innerText`. */
  datatype Card = Card(elements: seq<Element>, innerText: string)

  /** `e` matches some selector of the comma-separated group. */
  predicate MatchesAny(e: Element, group: seq<string>) {
    exists i :: 0 <= i < |group| && group[i] in e.matches
  }

  /** `card.querySelector(group)`, as a position in `card.elements`: the
      first element in document order that matches ANY alternative of the
      group, not the first alternative that matches some element. */
  function QuerySelector(card: Card, group: seq<string>): (r: Option<nat>)
    ensures r.Some? ==> r.value < |card.elements| && MatchesAny(card.elements[r.value], group)
                        && forall k :: 0 <= k < r.value ==> !MatchesAny(card.elements[k], group)
    ensures r.None? <==> forall i :: 0 <= i < |card.elements| ==> !MatchesAny(card.elements[i], group)
  {
    First(card.elements, (e: Element) => MatchesAny(e, group))
  }

  // ------------------------------------------------------------ pickFirstText

  /** `el && el.textContent && el.textContent.trim()` for `el = root.querySelector(sel)`,
      read as a string (every falsy value is `""`). */
  function TextAt(card: Card, sel: string): (t: string)
    ensures Trimmed(t)
    ensures QuerySelector(card, [sel]).None? ==> t == ""
    ensures QuerySelector(card, [sel]).Some? ==> t == Trim(card.elements[QuerySelector(card, [sel]).value].textContent)
  {
    match QuerySelector(card, [sel])
    case Some(i) => Trim(card.elements[i].textContent)
    case None => ""
  }

  /** The first non-empty string of `texts`, or `""`: a chain of `||`, or a
      loop returning the first truthy value. */
  function FirstNonEmpty(texts: seq<string>): (r: string)
    ensures r == "" <==> forall i :: 0 <= i < |texts| ==> texts[i] == ""
    ensures r != "" ==> exists i :: 0 <= i < |texts| && r == texts[i] && forall j :: 0 <= j < i ==> texts[j] == ""
    ensures r == "" || r in texts
  {
    match First(texts, (t: string) => t != "")
    case Some(i) => texts[i]
    case None => ""
  }

  /** The trimmed text under each selector, in list order. */
  function SelectorTexts(card: Card, sels: seq<string>): (texts: seq<string>)
    ensures |texts| == |sels|
    ensures forall i :: 0 <= i < |sels| ==> texts[i] == TextAt(card, sels[i])
  {
    seq(|sels|, i requires 0 <= i < |sels| => TextAt(card, sels[i]))
  }

  /** The position, in list order, of the first selector whose element has
      non-empty trimmed text. */
  function FirstText(card: Card, sels: seq<string>): (r: Option<nat>)
    ensures r.Some? ==> r.value < |sels| && TextAt(card, sels[r.value]) != ""
                        && forall k :: 0 <= k < r.value ==> TextAt(card, sels[k]) == ""
    ensures r.None? <==> forall k :: 0 <= k < |sels| ==> TextAt(card, sels[k]) == ""
  {
    First(SelectorTexts(card, sels), (t: string) => t != "")
  }

  /** `pickFirstText(root, sels)`: the trimmed text of the first selector, in
      list order, whose element has non-empty trimmed text; `''` when there
      is none. */
  function PickFirstText(card: Card, sels: seq<string>): (r: string)
    ensures Trimmed(r)
    ensures r == "" <==> forall k :: 0 <= k < |sels| ==> TextAt(card, sels[k]) == ""
    ensures r != "" ==> exists i :: 0 <= i < |sels| && r == TextAt(card, sels[i])
                                    && forall k :: 0 <= k < i ==> TextAt(card, sels[k]) == ""
  {
    match FirstText(card, sels)
    case Some(i) => TextAt(card, sels[i])
    case None => ""
  }

  // --------------------------------------------------------------- pickImage

  /** `e.getAttribute(name)`, with `null` read as `""` (both are falsy). */
  function Attr(e: Element, name: string): string {
    if name in e.attrs then e.attrs[name] else ""
  }

  /** `e.getAttribute(names[0]) || e.getAttribute(names[1]) || …`: the first
      non-empty one, or `""`. */
  function FirstAttr(e: Element, names: seq<string>): (r: string)
    ensures r == "" <==> forall i :: 0 <= i < |names| ==> Attr(e, names[i]) == ""
    ensures r != "" ==> exists i :: 0 <= i < |names| && r == Attr(e, names[i])
                                    && forall j :: 0 <= j < i ==> Attr(e, names[j]) == ""
  {
    var texts := seq(|names|, i requires 0 <= i < |names| => Attr(e, names[i]));
    assert forall i :: 0 <= i < |names| ==> texts[i] == Attr(e, names[i]);
    FirstNonEmpty(texts)
  }

  const ImgAttrs: seq<string> := ["src", "data-src", "data-lazy"]
  const ScanAttrs: seq<string> := ["src", "data-src", "srcset"]

  /** `srcset.split(',').map(s => s.trim().split(' ')[0]).pop()`: the URL of
      the last candidate. `split` never returns an empty list, so `pop`
      always yields a string. */
  function SrcsetBest(srcset: string): (r: string)
    ensures ',' !in r && ' ' !in r
    ensures r != "" ==> !IsSpace(r[0])
  {
    var parts := Split(srcset, ',');
    var candidate := Trim(parts[|parts| - 1]);
    assert ',' !in candidate by {
      assert parts[|parts| - 1][Leading(parts[|parts| - 1])..Leading(parts[|parts| - 1]) + |candidate|] == candidate;
    }
    var r := Split(candidate, ' ')[0];
    assert r == candidate[..|r|];
    r
  }

  /** The URL of one candidate, read back from its text. */
  lemma CandidateUrl(url: string, descriptor: string)
    requires url != [] && forall k :: 0 <= k < |url| ==> !IsSpace(url[k])
    requires descriptor != [] && Trimmed(descriptor)
    ensures Split(Trim(" " + url + " " + descriptor), ' ')[0] == url
  {
    var m := url + " " + descriptor;
    assert " " + url + " " + descriptor == " " + m + "";
    TrimOfPadded(" ", m, "");
    assert ' ' !in url by {
      assert IsSpace(' ');
    }
    assert m == url + [' '] + descriptor;
    SplitAtSeparator(url, ' ', descriptor);
  }

  /** The last candidate of a `srcset` wins: its URL, without the descriptor. */
  lemma SrcsetPicksLast(front: string, url: string, descriptor: string)
    requires url != [] && forall k :: 0 <= k < |url| ==> !IsSpace(url[k]) && url[k] != ','
    requires descriptor != [] && Trimmed(descriptor) && ',' !in descriptor
    ensures SrcsetBest(front + ", " + url + " " + descriptor) == url
  {
    var last := " " + url + " " + descriptor;
    assert ',' !in url;
    assert ',' !in last;
    assert front + ", " + url + " " + descriptor == front + [','] + last;
    var parts := Split(front + [','] + last, ',');
    SplitLastPart(front, ',', last);
    assert parts[|parts| - 1] == last;
    CandidateUrl(url, descriptor);
    assert SrcsetBest(front + [','] + last) == Split(Trim(last), ' ')[0];
  }

  /** The extensions of the test `/.(webp|jpg|jpeg|png)(\?|$)/i`. */
  const ImageExtensions: seq<string> := ["webp", "jpg", "jpeg", "png"]

  /** The `i` flag's folding, for the characters that can matter here. */
  function LowerAscii(c: char): char {
    if 'A' <= c <= 'Z' then (c as int + 32) as char else c
  }

  predicate EqualsIgnoreCase(a: string, b: string) {
    |a| == |b| && forall i :: 0 <= i < |a| ==> LowerAscii(a[i]) == LowerAscii(b[i])
  }

  /** The regular expression matches at position `p` with extension `ext`:
      one character other than a line terminator (the pattern's `.` is not
      escaped), the extension in any case, then `?` or the end of the string
      (no `m` flag). */
  predicate ExtensionAt(s: string, p: nat, ext: string) {
    p + 1 + |ext| <= |s|
    && !IsLineTerminator(s[p])
    && EqualsIgnoreCase(s[p + 1..p + 1 + |ext|], ext)
    && (p + 1 + |ext| == |s| || s[p + 1 + |ext|] == '?')
  }

  predicate HasImageExtension(s: string) {
    exists p: nat, k :: p < |s| && 0 <= k < |ImageExtensions| && ExtensionAt(s, p, ImageExtensions[k])
  }

  /** Since the `.` is any character, a URL with no dot before its extension passes too. */
  lemma ImageTestAcceptsAnyCharBeforeExtension()
    ensures HasImageExtension("/img/photoJPG?w=200")
    ensures HasImageExtension("/img/photo.webp")
    ensures !HasImageExtension("")
  {
    var s := "/img/photoJPG?w=200";
    assert s[10..13] == "JPG";
    assert ExtensionAt(s, 9, ImageExtensions[1]);
    var t := "/img/photo.webp";
    assert t[11..15] == "webp";
    assert ExtensionAt(t, 10, ImageExtensions[0]);
  }

  /** Tier 1: the first `img` of the card, its `src`, `data-src` or `data-lazy`. */
  function ImgCandidate(card: Card): (r: string)
    ensures r != "" ==> exists e, i :: e in card.elements && "img" in e.matches
                                       && 0 <= i < |ImgAttrs| && r == Attr(e, ImgAttrs[i])
    ensures QuerySelector(card, ["img"]).None? ==> r == ""
    ensures QuerySelector(card, ["img"]).Some? ==> r == FirstAttr(card.elements[QuerySelector(card, ["img"]).value], ImgAttrs)
  {
    match QuerySelector(card, ["img"])
    case Some(i) =>
      assert MatchesAny(card.elements[i], ["img"]);
      FirstAttr(card.elements[i], ImgAttrs)
    case None => ""
  }

  /** The first `img`'s `src` wins over its `data-src`, which wins over its `data-lazy`. */
  lemma ImgAttributeOrder(card: Card)
    requires QuerySelector(card, ["img"]).Some?
    ensures var e := card.elements[QuerySelector(card, ["img"]).value];
            && (Attr(e, "src") != "" ==> ImgCandidate(card) == Attr(e, "src"))
            && (Attr(e, "src") == "" && Attr(e, "data-src") != "" ==> ImgCandidate(card) == Attr(e, "data-src"))
            && (Attr(e, "src") == "" && Attr(e, "data-src") == "" ==> ImgCandidate(card) == Attr(e, "data-lazy"))
  {
    var e := card.elements[QuerySelector(card, ["img"]).value];
    assert ImgAttrs[0] == "src" && ImgAttrs[1] == "data-src" && ImgAttrs[2] == "data-lazy";
    var r := FirstAttr(e, ImgAttrs);
    if r != "" {
      var i :| 0 <= i < |ImgAttrs| && r == Attr(e, ImgAttrs[i]) && forall j :: 0 <= j < i ==> Attr(e, ImgAttrs[j]) == "";
      assert i == 0 || Attr(e, "src") == "";
    }
  }

  /** Tier 2: the best `srcset` candidate of the first `picture source[srcset]`. */
  function SrcsetCandidate(card: Card): (r: string)
    ensures ',' !in r && ' ' !in r
    ensures QuerySelector(card, ["picture source[srcset]"]).None? ==> r == ""
    ensures QuerySelector(card, ["picture source[srcset]"]).Some? ==>
              r == SrcsetBest(Attr(card.elements[QuerySelector(card, ["picture source[srcset]"]).value], "srcset"))
  {
    match QuerySelector(card, ["picture source[srcset]"])
    case Some(i) => SrcsetBest(Attr(card.elements[i], "srcset"))
    case None => ""
  }

  /** The element's candidate in the last tier: `src || data-src || srcset || ''`. */
  function ScanAttr(e: Element): string {
    FirstAttr(e, ScanAttrs)
  }

  /** An element the last tier accepts: an `img` or `source` whose candidate passes the extension test. */
  predicate ScanHit(e: Element) {
    MatchesAny(e, ["img", "source"]) && HasImageExtension(ScanAttr(e))
  }

  /** Tier 3: `querySelectorAll('img, source')`, mapped to candidates, then
      `find` with the extension test. */
  function ScanCandidate(card: Card): (r: string)
    ensures r != "" ==> HasImageExtension(r)
    ensures r == "" <==> forall i :: 0 <= i < |card.elements| ==> !ScanHit(card.elements[i])
    ensures r != "" ==> exists i :: 0 <= i < |card.elements| && ScanHit(card.elements[i])
                                    && r == ScanAttr(card.elements[i])
                                    && forall k :: 0 <= k < i ==> !ScanHit(card.elements[k])
  {
    match First(card.elements, ScanHit)
    case Some(i) =>
      assert !HasImageExtension("");
      ScanAttr(card.elements[i])
    case None => ""
  }

  /** `pickImage(root)`: the first non-empty of the three tiers, in order, else `''`. */
  function PickImage(card: Card): (r: string)
    ensures r == "" <==> ImgCandidate(card) == "" && SrcsetCandidate(card) == "" && ScanCandidate(card) == ""
    ensures ImgCandidate(card) != "" ==> r == ImgCandidate(card)
    ensures ImgCandidate(card) == "" && SrcsetCandidate(card) != "" ==> r == SrcsetCandidate(card)
    ensures ImgCandidate(card) == "" && SrcsetCandidate(card) == "" ==> r == ScanCandidate(card)
    ensures r != "" && r != ImgCandidate(card) && r != SrcsetCandidate(card) ==> HasImageExtension(r)
  {
    var img := ImgCandidate(card);
    if img != "" then img
    else
      var best := SrcsetCandidate(card);
      if best != "" then best
      else ScanCandidate(card)
  }

  // ------------------------------------------------------------ availability

  /** The phrases of the fallback `match`, in the order of the alternation. */
  const AvailabilityPhrases: seq<string> := ["Άμεσα Διαθέσιμο", "Διαθέσιμο με παραγγελία", "Μη διαθέσιμο", "Εξαντλημένο"]

  /** The first alternative, in list order, that matches at position `p`. */
  function MatchAt(txt: string, p: nat, phrases: seq<string>): (r: Option<nat>)
    requires p <= |txt|
    ensures r.Some? ==> r.value < |phrases| && StartsWith(txt[p..], phrases[r.value])
                        && forall j :: 0 <= j < r.value ==> !StartsWith(txt[p..], phrases[j])
    ensures r.None? ==> forall j :: 0 <= j < |phrases| ==> !StartsWith(txt[p..], phrases[j])
  {
    First(phrases, (ph: string) => StartsWith(txt[p..], ph))
  }

  /** Where a match starts and which phrase it is. */
  datatype Hit = Hit(pos: nat, phrase: nat)

  /** `txt.match(/a|b|…/)` searching from `from`: the leftmost position where
      some alternative matches, and at that position the first alternative
      in list order. */
  function Leftmost(txt: string, phrases: seq<string>, from: nat): (r: Option<Hit>)
    requires from <= |txt|
    ensures r.Some? ==> from <= r.value.pos <= |txt| && MatchAt(txt, r.value.pos, phrases) == Some(r.value.phrase)
                        && forall q :: from <= q < r.value.pos ==> MatchAt(txt, q, phrases).None?
    ensures r.None? ==> forall q :: from <= q <= |txt| ==> MatchAt(txt, q, phrases).None?
    decreases |txt| - from
  {
    match MatchAt(txt, from, phrases)
    case Some(k) => Some(Hit(from, k))
    case None => if from == |txt| then None else Leftmost(txt, phrases, from + 1)
  }

  /** `hit ? hit[0] : ''` for `hit = txt.match(/a|b|…/)`: the phrase found
      first, or `''` when no phrase occurs anywhere. */
  function KeywordFallback(txt: string, phrases: seq<string>): (r: string)
    ensures r != "" ==> r in phrases
    ensures r != "" ==> exists p: nat :: p <= |txt| && MatchAt(txt, p, phrases).Some?
                          && r == phrases[MatchAt(txt, p, phrases).value]
                          && forall q :: 0 <= q < p ==> MatchAt(txt, q, phrases).None?
    ensures r == "" && (forall j :: 0 <= j < |phrases| ==> phrases[j] != "") ==>
              forall q, j :: 0 <= q <= |txt| && 0 <= j < |phrases| ==> !StartsWith(txt[q..], phrases[j])
  {
    match Leftmost(txt, phrases, 0)
    case Some(hit) => phrases[hit.phrase]
    case None =>
      forall q, j | 0 <= q <= |txt| && 0 <= j < |phrases| ensures !StartsWith(txt[q..], phrases[j]) {
        assert MatchAt(txt, q, phrases).None?;
      }
      ""
  }

  /** The leftmost occurrence wins over list order: in this text the third
      phrase occurs before the first one, and is the one reported. */
  lemma LeftmostBeatsListOrder()
    ensures KeywordFallback("Μη διαθέσιμο / Άμεσα Διαθέσιμο", AvailabilityPhrases) == "Μη διαθέσιμο"
  {
    var txt := "Μη διαθέσιμο / Άμεσα Διαθέσιμο";
    assert txt[0..][..|AvailabilityPhrases[2]|] == AvailabilityPhrases[2];
    assert txt[0..][0] != AvailabilityPhrases[0][0];
    assert txt[0..][0] != AvailabilityPhrases[1][0];
    assert MatchAt(txt, 0, AvailabilityPhrases) == Some(2);
  }

  /** `el?.textContent` for the element at `q`, read as a string. */
  function TextContentOf(card: Card, q: Option<nat>): string {
    match q
    case Some(i) => if i < |card.elements| then card.elements[i].textContent else ""
    case None => ""
  }

  /** The `textContent` of the first element matching `sel`, or `""`. */
  function StrongText(card: Card, sel: string): (t: string)
    ensures QuerySelector(card, [sel]).None? ==> t == ""
    ensures QuerySelector(card, [sel]).Some? ==> t == card.elements[QuerySelector(card, [sel]).value].textContent
  {
    TextContentOf(card, QuerySelector(card, [sel]))
  }

  const PrimaryAvailability := ".availability-container strong"
  const FallbackAvailability := "app-product-list-availability strong"

  /** `norm` of the first non-empty of the two `strong` texts. */
  function MarkedAvailability(card: Card): (r: string)
    ensures Normalized(r)
    ensures StrongText(card, PrimaryAvailability) != "" ==> r == Norm(StrongText(card, PrimaryAvailability))
    ensures StrongText(card, PrimaryAvailability) == "" ==> r == Norm(StrongText(card, FallbackAvailability))
  {
    var first := StrongText(card, PrimaryAvailability);
    Norm(if first != "" then first else StrongText(card, FallbackAvailability))
  }

  /** The availability of a card: the marked text when that is non-empty,
      else the leftmost phrase found in `norm` of the card's `innerText`, else `''`. */
  function Availability(card: Card): (r: string)
    ensures r == "" || Normalized(r) || r in AvailabilityPhrases
    ensures MarkedAvailability(card) != "" ==> r == MarkedAvailability(card)
    ensures MarkedAvailability(card) == "" ==> r == KeywordFallback(Norm(card.innerText), AvailabilityPhrases)
  {
    var marked := MarkedAvailability(card);
    if marked != "" then marked
    else KeywordFallback(Norm(card.innerText), AvailabilityPhrases)
  }

  // ---------------------------------------------------------------- the card

  /** The title/link selector group: one `querySelector` call. */
  const TitleLinkSelectors: seq<string> := [
    "h3.product__title a", ".tile-title a[href]", "a.product__title", "a[title]", "a[href*=\"/p/\"]"
  ]

  const PriceSelectors: seq<string> := [
    "app-product-price .product__price",
    "[class*=\"product-prices\"] .product__price",
    ".product__price--large",
    ".product__price--main",
    ".price__current",
    "[data-automation-id=\"productPrice\"]"
  ]

  const SpecsSelectors: seq<string> := [".specs", ".features", ".chips", ".attributes"]

  /** `link ? link.substring(link.lastIndexOf('/') + 1) : ''`: the last path
      segment of the product link. */
  function CodeOf(link: string): (r: string)
    ensures '/' !in r
    ensures EndsWith(link, r)
    ensures |r| < |link| ==> link[|link| - |r| - 1] == '/'
    ensures '/' !in link ==> r == link
  {
    if link == "" then ""
    else link[LastIndexOf(link, '/') + 1..]
  }

  /** `card.querySelector('.product-specs')?.innerText?.trim()`, read as a string. */
  function OwnSpecs(card: Card): (t: string)
    ensures Trimmed(t)
    ensures QuerySelector(card, [".product-specs"]).None? ==> t == ""
    ensures QuerySelector(card, [".product-specs"]).Some? ==> t == Trim(card.elements[QuerySelector(card, [".product-specs"]).value].innerText)
  {
    match QuerySelector(card, [".product-specs"])
    case Some(i) => Trim(card.elements[i].innerText)
    case None => ""
  }

  /** The specs snippet: the trimmed `innerText` of `.product-specs`, else
      `pickFirstText` over the fallback selectors. */
  function Specs(card: Card): (r: string)
    ensures Trimmed(r)
    ensures OwnSpecs(card) != "" ==> r == OwnSpecs(card)
    ensures OwnSpecs(card) == "" ==> r == PickFirstText(card, SpecsSelectors)
    ensures r == "" <==> OwnSpecs(card) == "" && forall k :: 0 <= k < |SpecsSelectors| ==> TextAt(card, SpecsSelectors[k]) == ""
  {
    var own := OwnSpecs(card);
    if own != "" then own else PickFirstText(card, SpecsSelectors)
  }

  /** One product row, field by field. */
  datatype Product = Product(code: string, title: string, price: string, availability: string,
                             specs: string, image: string, link: string)

  /** The trimmed text of the first element of the title/link group. */
  function Title(card: Card): (r: string)
    ensures Trimmed(r)
    ensures QuerySelector(card, TitleLinkSelectors).None? ==> r == ""
    ensures QuerySelector(card, TitleLinkSelectors).Some? ==> r == Trim(card.elements[QuerySelector(card, TitleLinkSelectors).value].textContent)
  {
    Trim(match QuerySelector(card, TitleLinkSelectors) case Some(i) => card.elements[i].textContent case None => "")
  }

  /** The trimmed `href` of the same element. */
  function Link(card: Card): (r: string)
    ensures Trimmed(r)
    ensures QuerySelector(card, TitleLinkSelectors).None? ==> r == ""
    ensures QuerySelector(card, TitleLinkSelectors).Some? ==> r == Trim(card.elements[QuerySelector(card, TitleLinkSelectors).value].href)
  {
    Trim(match QuerySelector(card, TitleLinkSelectors) case Some(i) => card.elements[i].href case None => "")
  }

  /** The callback of `cards.map`. */
  function MapCard(card: Card): (p: Product)
    ensures p.title == Title(card) && p.link == Link(card) && p.code == CodeOf(p.link)
    ensures p.price == PickFirstText(card, PriceSelectors) && p.availability == Availability(card)
    ensures p.specs == Specs(card) && p.image == PickImage(card)
    ensures '/' !in p.code && EndsWith(p.link, p.code)
    ensures Trimmed(p.title) && Trimmed(p.link) && Trimmed(p.price)
    ensures p.availability == "" || Normalized(p.availability) || p.availability in AvailabilityPhrases
  {
    var link := Link(card);
    Product(CodeOf(link), Title(card), PickFirstText(card, PriceSelectors), Availability(card),
            Specs(card), PickImage(card), link)
  }

  /** A card none of whose price selectors finds text keeps its row: the
      price is `''` and every other field is read as usual. */
  lemma MissingPrice(card: Card)
    requires forall k :: 0 <= k < |PriceSelectors| ==> TextAt(card, PriceSelectors[k]) == ""
    ensures var p := MapCard(card);
            && p.price == ""
            && p == Product(CodeOf(Link(card)), Title(card), "", Availability(card), Specs(card), PickImage(card), Link(card))
  {
  }

  /** `cards.map(card => …)`. */
  function ExtractProducts(cards: seq<Card>): (ps: seq<Product>)
    ensures |ps| == |cards|
    ensures forall i :: 0 <= i < |cards| ==> ps[i] == MapCard(cards[i])
  {
    seq(|cards|, i requires 0 <= i < |cards| => MapCard(cards[i]))
  }
}
