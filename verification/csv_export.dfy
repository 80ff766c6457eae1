/** utils/export.js: the content `exportToCSV(rows, filepath)` writes.
    Every field is quoted and its quotes doubled, as in section 2 of RFC 4180;
    fields are separated by `,` and lines by a single LF, with no line
    ending after the last line. A reader for that format is defined here too,
    and reading the content back is proved to give the table. */
module CsvExport {
  import opened Seqs
  import opened JsText

  /** A JavaScript value as the exporter sees it: a string, `null` or `undefined`. */
  datatype Value = Str(s: string) | Null | Undefined

  /** `String(v ?? '')`. */
  function Text(v: Value): string {
    match v
    case Str(s) => s
    case _ => ""
  }

  /** One own property of a row object. */
  datatype Entry = Entry(key: string, value: Value)

  /** A row object: its properties in key order. */
  type Row = seq<Entry>

  /** `Object.keys(row)`. */
  function Keys(row: Row): (ks: seq<string>)
    ensures |ks| == |row| && forall i :: 0 <= i < |row| ==> ks[i] == row[i].key
  {
    seq(|row|, i requires 0 <= i < |row| => row[i].key)
  }

  /** Entry `i` is the first entry of `row` holding `key`. */
  predicate FirstHolder(row: Row, key: string, i: nat) {
    i < |row| && row[i].key == key && forall j :: 0 <= j < i ==> row[j].key != key
  }

  /** `row[key]`: the value of the first entry holding the key, `undefined`
      when there is none. */
  function Lookup(row: Row, key: string): (v: Value)
    ensures (forall i :: 0 <= i < |row| ==> row[i].key != key) ==> v == Undefined
    ensures (exists i :: 0 <= i < |row| && row[i].key == key) ==>
              exists i: nat :: FirstHolder(row, key, i) && row[i].value == v
    decreases |row|
  {
    if row == [] then Undefined
    else if row[0].key == key then
      assert FirstHolder(row, key, 0);
      row[0].value
    else
      var v := Lookup(row[1..], key);
      FirstHolderShift(row, key, v);
      v
  }

  lemma FirstHolderShift(row: Row, key: string, v: Value)
    requires row != [] && row[0].key != key
    requires (exists i :: 0 <= i < |row[1..]| && row[1..][i].key == key) ==>
               exists i: nat :: FirstHolder(row[1..], key, i) && row[1..][i].value == v
    ensures (forall i :: 0 <= i < |row| ==> row[i].key != key) ==> forall i :: 0 <= i < |row[1..]| ==> row[1..][i].key != key
    ensures (exists i :: 0 <= i < |row| && row[i].key == key) ==>
              exists i: nat :: FirstHolder(row, key, i) && row[i].value == v
  {
    if exists i :: 0 <= i < |row| && row[i].key == key {
      var i :| 0 <= i < |row| && row[i].key == key;
      assert row[1..][i - 1].key == key;
      var k: nat :| FirstHolder(row[1..], key, k) && row[1..][k].value == v;
      assert row[k + 1] == row[1..][k];
      assert forall j :: 1 <= j < k + 1 ==> row[j] == row[1..][j - 1];
      assert FirstHolder(row, key, k + 1);
    }
  }

  /** The first entry holding a key is the one `row[key]` reads. */
  lemma {:induction false} LookupFirstKey(row: Row, i: nat)
    requires i < |row| && forall j :: 0 <= j < i ==> row[j].key != row[i].key
    ensures Lookup(row, row[i].key) == row[i].value
    decreases i
  {
    if i > 0 {
      assert forall j :: 0 <= j < i - 1 ==> row[1..][j] == row[j + 1];
      LookupFirstKey(row[1..], i - 1);
    }
  }

  // ---------------------------------------------------------------- escaping

  /** `t.replace(/"/g, '""')`. */
  function DoubleQuotes(t: string): (r: string)
    ensures '\n' !in t ==> '\n' !in r
    ensures |r| >= |t|
    decreases |t|
  {
    if t == [] then []
    else (if t[0] == '"' then "\"\"" else [t[0]]) + DoubleQuotes(t[1..])
  }

  /** A text without quotes needs no doubling. */
  lemma {:induction false} DoubleQuotesNoQuote(t: string)
    ensures '"' !in t ==> DoubleQuotes(t) == t
    decreases |t|
  {
    if t != [] && '"' !in t {
      DoubleQuotesNoQuote(t[1..]);
      assert [t[0]] + t[1..] == t;
    }
  }

  /** The template literal of `escape`: the text in quotes, its quotes doubled. */
  function Quote(t: string): (r: string)
    ensures |r| >= 2 && r[0] == '"' && r[|r| - 1] == '"'
    ensures '\n' !in t ==> '\n' !in r
  {
    "\"" + DoubleQuotes(t) + "\""
  }

  /** `escape(v)`: a missing value becomes `""`. */
  function Escape(v: Value): (r: string)
    ensures v == Null || v == Undefined ==> r == "\"\""
    ensures |r| >= |Text(v)| + 2 && r[0] == '"' && r[|r| - 1] == '"'
    ensures '"' !in Text(v) ==> r == "\"" + Text(v) + "\""
  {
    DoubleQuotesNoQuote(Text(v));
    Quote(Text(v))
  }

  // ----------------------------------------------------------------- reading

  /** Reads the inside of a quoted field whose opening quote is already
      consumed: `""` stands for a quote, a lone `"` closes the field. Returns
      the text and what follows the closing quote; `None` if it never closes. */
  function ReadQuoted(s: string): (r: Option<(string, string)>)
    ensures r.Some? ==> |r.value.1| < |s|
    decreases |s|
  {
    if s == [] then None
    else if s[0] == '"' && (|s| < 2 || s[1] != '"') then Some(("", s[1..]))
    else
      var skip := if s[0] == '"' then 2 else 1;
      match ReadQuoted(s[skip..])
      case None => None
      case Some(p) => Some(([s[0]] + p.0, p.1))
  }

  /** Reads one quoted field at the start of `s`. */
  function ReadField(s: string): (r: Option<(string, string)>)
    ensures r.Some? ==> |r.value.1| < |s|
  {
    if s != [] && s[0] == '"' then ReadQuoted(s[1..]) else None
  }

  /** Reads one line: quoted fields separated by `,`. */
  function ParseLine(s: string): Option<seq<string>>
    decreases |s|
  {
    match ReadField(s)
    case None => None
    case Some(p) =>
      if p.1 == [] then Some([p.0])
      else if p.1[0] != ',' then None
      else
        match ParseLine(p.1[1..])
        case None => None
        case Some(rest) => Some([p.0] + rest)
  }

  function ParseLines(lines: seq<string>): Option<seq<seq<string>>>
    decreases |lines|
  {
    if lines == [] then Some([])
    else
      match ParseLine(lines[0])
      case None => None
      case Some(fields) =>
        match ParseLines(lines[1..])
        case None => None
        case Some(rest) => Some([fields] + rest)
  }

  /** Reads a whole content string: split on LF, then read every line. */
  function ParseCsv(content: string): Option<seq<seq<string>>> {
    ParseLines(Split(content, '\n'))
  }

  // ----------------------------------------------------------------- writing

  function QuoteAll(texts: seq<string>): (r: seq<string>)
    ensures |r| == |texts| && forall i :: 0 <= i < |texts| ==> r[i] == Quote(texts[i])
  {
    seq(|texts|, i requires 0 <= i < |texts| => Quote(texts[i]))
  }

  /** `fields.map(escape).join(',')` for fields whose texts are `texts`. */
  function Line(texts: seq<string>): string {
    Join(QuoteAll(texts), ',')
  }

  /** The texts of one row under the headers: `String(r[h] ?? '')` for each header. */
  function RowTexts(row: Row, headers: seq<string>): (ts: seq<string>)
    ensures |ts| == |headers| && forall i :: 0 <= i < |headers| ==> ts[i] == Text(Lookup(row, headers[i]))
  {
    seq(|headers|, i requires 0 <= i < |headers| => Text(Lookup(row, headers[i])))
  }

  /** The table the content stands for: the keys of the first row, then
      every row's texts under those keys. */
  function Table(rows: seq<Row>): (t: seq<seq<string>>)
    requires rows != []
    ensures |t| == |rows| + 1 && t[0] == Keys(rows[0])
    ensures forall i :: 1 <= i < |t| ==> t[i] == RowTexts(rows[i - 1], Keys(rows[0]))
  {
    var headers := Keys(rows[0]);
    [headers] + seq(|rows|, i requires 0 <= i < |rows| => RowTexts(rows[i], headers))
  }

  /** The array `lines`: one line per row of the table. */
  function Lines(rows: seq<Row>): (ls: seq<string>)
    requires rows != []
    ensures |ls| == |rows| + 1 && forall i :: 0 <= i < |ls| ==> ls[i] == Line(Table(rows)[i])
  {
    var t := Table(rows);
    seq(|t|, i requires 0 <= i < |t| => Line(t[i]))
  }

  /** `exportToCSV(rows, …)`: the string written to the file. `None` is a
      `null` or `undefined` `rows`. */
  function ExportToCsv(rows: Option<seq<Row>>): (content: string)
    ensures rows.None? || rows.value == [] ==> content == ""
  {
    if rows.None? || rows.value == [] then ""
    else Join(Lines(rows.value), '\n')
  }

  // --------------------------------------------------------------- round trip

  /** A quoted field is read back to its text, whatever follows it, as long
      as that does not start with another quote. */
  lemma {:induction false} ReadQuotedDoubled(t: string, rest: string)
    requires rest == [] || rest[0] != '"'
    ensures ReadQuoted(DoubleQuotes(t) + "\"" + rest) == Some((t, rest))
    decreases |t|
  {
    var s := DoubleQuotes(t) + "\"" + rest;
    if t == [] {
      assert s == "\"" + rest;
      assert s[1..] == rest;
    } else {
      var head := if t[0] == '"' then "\"\"" else [t[0]];
      assert s == head + (DoubleQuotes(t[1..]) + "\"" + rest);
      assert s[|head|..] == DoubleQuotes(t[1..]) + "\"" + rest;
      ReadQuotedDoubled(t[1..], rest);
      assert [t[0]] + t[1..] == t;
    }
  }

  /** Un-escaping recovers `String(v ?? '')`. */
  lemma EscapeRoundTrip(v: Value)
    ensures ReadField(Escape(v)) == Some((Text(v), ""))
  {
    var t := Text(v);
    assert Escape(v)[1..] == DoubleQuotes(t) + "\"" + "";
    ReadQuotedDoubled(t, "");
  }

  /** A line written from `texts` reads back as `texts`. */
  lemma {:induction false} ParseLineOfLine(texts: seq<string>)
    requires |texts| >= 1
    ensures ParseLine(Line(texts)) == Some(texts)
    decreases |texts|
  {
    var q := Quote(texts[0]);
    if |texts| == 1 {
      assert Line(texts) == q;
      assert q[1..] == DoubleQuotes(texts[0]) + "\"" + "";
      ReadQuotedDoubled(texts[0], "");
      assert ReadField(q) == Some((texts[0], ""));
      assert texts == [texts[0]];
    } else {
      var tail := Join(QuoteAll(texts[1..]), ',');
      assert QuoteAll(texts)[1..] == QuoteAll(texts[1..]);
      assert Line(texts) == q + [','] + tail;
      assert (q + [','] + tail)[1..] == DoubleQuotes(texts[0]) + "\"" + ([','] + tail);
      ReadQuotedDoubled(texts[0], [','] + tail);
      assert ReadField(Line(texts)) == Some((texts[0], [','] + tail));
      assert ([','] + tail)[1..] == tail;
      ParseLineOfLine(texts[1..]);
      assert ParseLine(Line(texts)) == Some([texts[0]] + texts[1..]);
      assert [texts[0]] + texts[1..] == texts;
    }
  }

  /** A line of texts free of LF is free of LF. */
  lemma {:induction false} LineHasNoNewline(texts: seq<string>)
    requires forall i :: 0 <= i < |texts| ==> '\n' !in texts[i]
    ensures '\n' !in Line(texts)
    decreases |texts|
  {
    if |texts| > 1 {
      assert QuoteAll(texts)[1..] == QuoteAll(texts[1..]);
      LineHasNoNewline(texts[1..]);
    }
  }

  lemma {:induction false} ParseLinesOfLines(t: seq<seq<string>>)
    requires forall i :: 0 <= i < |t| ==> |t[i]| >= 1
    ensures ParseLines(seq(|t|, i requires 0 <= i < |t| => Line(t[i]))) == Some(t)
    decreases |t|
  {
    var ls := seq(|t|, i requires 0 <= i < |t| => Line(t[i]));
    if t != [] {
      ParseLineOfLine(t[0]);
      ParseLinesOfLines(t[1..]);
      assert ls[1..] == seq(|t[1..]|, i requires 0 <= i < |t[1..]| => Line(t[1..][i]));
      assert [t[0]] + t[1..] == t;
    }
  }

  /** No text of the table holds an LF. */
  ghost predicate SingleLineTexts(rows: seq<Row>)
    requires rows != []
  {
    forall i, j :: 0 <= i < |Table(rows)| && 0 <= j < |Table(rows)[i]| ==> '\n' !in Table(rows)[i][j]
  }

  /** Reading the content back gives the table: the first row's keys, then
      each row's texts under those keys, one line per row. This needs at
      least one key, and no LF inside a key or a text: the exporter quotes
      such an LF but the lines are split on it. */
  lemma ExportRoundTrip(rows: seq<Row>)
    requires rows != [] && |rows[0]| >= 1
    requires SingleLineTexts(rows)
    ensures ParseCsv(ExportToCsv(Some(rows))) == Some(Table(rows))
  {
    var t := Table(rows);
    var ls := Lines(rows);
    forall i | 0 <= i < |ls| ensures '\n' !in ls[i] {
      LineHasNoNewline(t[i]);
    }
    SplitJoin(ls, '\n');
    assert ls == seq(|t|, i requires 0 <= i < |t| => Line(t[i]));
    ParseLinesOfLines(t);
  }

  /** The content has `rows.length + 1` lines, the first holds the keys of
      the first row, and every line has one field per key. */
  lemma ExportShape(rows: seq<Row>)
    requires rows != [] && |rows[0]| >= 1
    requires SingleLineTexts(rows)
    ensures var lines := Split(ExportToCsv(Some(rows)), '\n');
            && |lines| == |rows| + 1
            && ParseLine(lines[0]) == Some(Keys(rows[0]))
            && forall i :: 0 <= i < |lines| ==> ParseLine(lines[i]).Some? && |ParseLine(lines[i]).value| == |rows[0]|
  {
    var t := Table(rows);
    var ls := Lines(rows);
    forall i | 0 <= i < |ls| ensures '\n' !in ls[i] {
      LineHasNoNewline(t[i]);
    }
    SplitJoin(ls, '\n');
    forall i | 0 <= i < |ls| ensures ParseLine(ls[i]) == Some(t[i]) {
      ParseLineOfLine(t[i]);
    }
  }

  /** A key the row lacks is written as an empty quoted field. */
  lemma MissingKeyIsEmptyField(row: Row, key: string)
    requires forall i :: 0 <= i < |row| ==> row[i].key != key
    ensures Escape(Lookup(row, key)) == "\"\""
  {
  }

  /** With no keys in the first row every line is empty, so the content is
      one LF per row and ends in a line break. */
  lemma ZeroKeysContent(rows: seq<Row>)
    requires rows != [] && rows[0] == []
    ensures ExportToCsv(Some(rows)) == seq(|rows|, _ => '\n')
  {
    var ls := Lines(rows);
    forall i | 0 <= i < |ls| ensures ls[i] == "" {
      assert Table(rows)[i] == [];
    }
    JoinOfEmpties(ls, '\n');
  }

  /** Joining `n + 1` empty strings gives `n` separators. */
  lemma {:induction false} JoinOfEmpties(parts: seq<string>, c: char)
    requires parts != [] && forall i :: 0 <= i < |parts| ==> parts[i] == ""
    ensures Join(parts, c) == seq(|parts| - 1, _ => c)
    decreases |parts|
  {
    if |parts| > 1 {
      JoinOfEmpties(parts[1..], c);
      assert parts[0] == "";
      assert [c] + seq(|parts| - 2, _ => c) == seq(|parts| - 1, _ => c);
    }
  }

  /** The content never ends with a line break when there is at least one key. */
  lemma NoTrailingNewline(rows: seq<Row>)
    requires rows != [] && |rows[0]| >= 1
    ensures var content := ExportToCsv(Some(rows));
            content != "" && content[|content| - 1] == '"'
  {
    var ls := Lines(rows);
    var content := ExportToCsv(Some(rows));
    var last := Table(rows)[|ls| - 1];
    var line, q := ls[|ls| - 1], QuoteAll(last)[|last| - 1];
    JoinEndsWithLast(ls, '\n');
    JoinEndsWithLast(QuoteAll(last), ',');
    assert line[|line| - 1] == q[|q| - 1];
    assert content[|content| - 1] == line[|line| - 1];
  }
}
