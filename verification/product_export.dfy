/** The products as `exportToCSV` writes them (scrapePublic.js line 381):
    one object per product with seven keys, in the order the card map
    builds them. */
module ProductExport {
  import opened Seqs
  import opened JsText
  import opened Extraction
  import opened CsvExport

  /** The keys of the product object, in insertion order. */
  const ProductKeys: seq<string> := ["Κωδικός", "Τίτλος", "Τιμή", "Διαθεσιμότητα", "Specs", "Εικόνα", "Link"]

  /** No two keys of the product object are the same. */
  lemma ProductKeysDistinct()
    ensures NoDup(ProductKeys)
  {
  }

  /** No key of the product object holds an LF. */
  lemma ProductKeysOneLine()
    ensures forall i :: 0 <= i < |ProductKeys| ==> '\n' !in ProductKeys[i]
  {
  }

  /** A product's texts, in key order. */
  function ProductFields(p: Product): (fs: seq<string>)
    ensures |fs| == |ProductKeys|
  {
    [p.code, p.title, p.price, p.availability, p.specs, p.image, p.link]
  }

  /** The object `cards.map` builds for a product: each key with its text,
      in the order the object literal lists them. */
  function ProductRow(p: Product): (row: Row)
    ensures Keys(row) == ProductKeys
  {
    seq(|ProductKeys|, i requires 0 <= i < |ProductKeys| => Entry(ProductKeys[i], Str(ProductFields(p)[i])))
  }

  /** Looking each key up in a product's row gives that product's text for it. */
  lemma ProductRowTexts(p: Product)
    ensures RowTexts(ProductRow(p), ProductKeys) == ProductFields(p)
  {
    var row := ProductRow(p);
    ProductKeysDistinct();
    forall i | 0 <= i < |row| ensures Lookup(row, ProductKeys[i]) == Str(ProductFields(p)[i]) {
      assert forall j :: 0 <= j < i ==> row[j].key == ProductKeys[j] != ProductKeys[i];
      LookupFirstKey(row, i);
    }
  }

  function ProductRows(ps: seq<Product>): (rows: seq<Row>)
    ensures |rows| == |ps| && forall i :: 0 <= i < |ps| ==> rows[i] == ProductRow(ps[i])
  {
    seq(|ps|, i requires 0 <= i < |ps| => ProductRow(ps[i]))
  }

  /** `exportToCSV(allProducts, …)`: the content written. */
  function ProductsCsv(ps: seq<Product>): (content: string)
    ensures ps == [] ==> content == ""
  {
    ExportToCsv(Some(ProductRows(ps)))
  }

  /** A product none of whose texts holds an LF. */
  predicate OneLine(p: Product) {
    forall f :: f in ProductFields(p) ==> '\n' !in f
  }

  /** The table the exporter writes for products: the seven keys, then
      each product's texts. */
  function ProductTable(ps: seq<Product>): (t: seq<seq<string>>)
    ensures |t| == |ps| + 1 && t[0] == ProductKeys
    ensures forall i :: 0 <= i < |ps| ==> t[i + 1] == ProductFields(ps[i])
  {
    [ProductKeys] + seq(|ps|, i requires 0 <= i < |ps| => ProductFields(ps[i]))
  }

  /** The exporter's table of the product rows is the product table. */
  lemma TableOfProducts(ps: seq<Product>)
    requires ps != []
    ensures Table(ProductRows(ps)) == ProductTable(ps)
  {
    var t := Table(ProductRows(ps));
    forall i | 0 <= i < |ps| ensures t[i + 1] == ProductFields(ps[i]) {
      ProductRowTexts(ps[i]);
    }
  }

  /** Reading the CSV back gives the seven keys, then each product's texts. */
  lemma ProductsCsvRoundTrip(ps: seq<Product>)
    requires ps != []
    requires forall i :: 0 <= i < |ps| ==> OneLine(ps[i])
    ensures ParseCsv(ProductsCsv(ps)) == Some(ProductTable(ps))
  {
    var rows := ProductRows(ps);
    var t := ProductTable(ps);
    TableOfProducts(ps);
    ProductKeysOneLine();
    forall i, j | 0 <= i < |t| && 0 <= j < |t[i]| ensures '\n' !in t[i][j] {
      if i > 0 {
        assert t[i][j] in ProductFields(ps[i - 1]);
      }
    }
    ExportRoundTrip(rows);
  }

  /** `norm`'s output holds no LF: every blank in it is a plain space. */
  lemma NormalizedOneLine(s: string)
    requires Normalized(s)
    ensures '\n' !in s
  {
    if '\n' in s {
      var k :| 0 <= k < |s| && s[k] == '\n';
      assert IsSpace(s[k]);
    }
  }

  /** None of the fixed availability phrases holds an LF. */
  lemma PhrasesOneLine(a: string)
    requires a in AvailabilityPhrases
    ensures '\n' !in a
  {
  }

  /** The availability text never holds an LF: it is either `norm`'s output
      or one of the fixed phrases. */
  lemma AvailabilityOneLine(card: Card)
    ensures '\n' !in MapCard(card).availability
  {
    var a := MapCard(card).availability;
    if a in AvailabilityPhrases {
      PhrasesOneLine(a);
    } else if a != "" {
      NormalizedOneLine(a);
    }
  }
}
