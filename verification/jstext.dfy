/** The JavaScript string built-ins the scraper relies on, over `string`
    (a sequence of Unicode scalar values). */
module JsText {

  /** A character matched by the regular-expression class `\s` and removed by
      `String.prototype.trim`: the ECMAScript WhiteSpace and LineTerminator
      code points. */
  predicate IsSpace(c: char) {
    c == ' ' || c == '\t' || c == '\n' || c == '\r' || c == '\U{B}' || c == '\U{C}'
    || c == '\U{A0}' || c == '\U{1680}' || ('\U{2000}' <= c <= '\U{200A}')
    || c == '\U{2028}' || c == '\U{2029}' || c == '\U{202F}' || c == '\U{205F}'
    || c == '\U{3000}' || c == '\U{FEFF}'
  }

  /** A character the regular-expression `.` does not match (no `s` flag). */
  predicate IsLineTerminator(c: char) {
    c == '\n' || c == '\r' || c == '\U{2028}' || c == '\U{2029}'
  }

  predicate StartsWith(s: string, prefix: string) {
    |prefix| <= |s| && s[..|prefix|] == prefix
  }

  predicate EndsWith(s: string, suffix: string) {
    |suffix| <= |s| && s[|s| - |suffix|..] == suffix
  }

  /** `s.includes(sub)`. */
  predicate Contains(s: string, sub: string)
    decreases |s|
  {
    StartsWith(s, sub) || (|s| > 0 && Contains(s[1..], sub))
  }

  /** A prefix of a prefix is a prefix. */
  lemma PrefixTransitive(a: string, b: string, c: string)
    requires StartsWith(a, b) && StartsWith(b, c)
    ensures StartsWith(a, c)
  {
    assert a[..|c|] == a[..|b|][..|c|];
  }

  /** Putting the same text in front of both keeps one a prefix of the other. */
  lemma PrefixUnderCommonHead(head: string, a: string, b: string)
    requires StartsWith(a, b)
    ensures StartsWith(head + a, head + b)
  {
    assert (head + a)[..|head + b|] == head + a[..|b|];
  }

  // ---------------------------------------------------------------- trim

  function TrimStart(s: string): (r: string)
    ensures |r| <= |s| && r == s[|s| - |r|..]
    ensures forall k :: 0 <= k < |s| - |r| ==> IsSpace(s[k])
    ensures r != [] ==> !IsSpace(r[0])
    decreases |s|
  {
    if |s| > 0 && IsSpace(s[0]) then TrimStart(s[1..]) else s
  }

  function TrimEnd(s: string): (r: string)
    ensures |r| <= |s| && r == s[..|r|]
    ensures forall k :: |r| <= k < |s| ==> IsSpace(s[k])
    ensures r != [] ==> !IsSpace(r[|r| - 1])
    decreases |s|
  {
    if |s| > 0 && IsSpace(s[|s| - 1]) then TrimEnd(s[..|s| - 1]) else s
  }

  /** The number of whitespace characters `trim` drops at the front. */
  function Leading(s: string): (n: nat)
    ensures n <= |s|
  {
    |s| - |TrimStart(s)|
  }

  /** No whitespace at either end. */
  predicate Trimmed(s: string) {
    s != [] ==> !IsSpace(s[0]) && !IsSpace(s[|s| - 1])
  }

  /** `String.prototype.trim`: the slice of `s` left after dropping the
      whitespace at both ends. */
  function Trim(s: string): (r: string)
    ensures Leading(s) + |r| <= |s| && r == s[Leading(s)..Leading(s) + |r|]
    ensures forall k :: 0 <= k < Leading(s) ==> IsSpace(s[k])
    ensures forall k :: Leading(s) + |r| <= k < |s| ==> IsSpace(s[k])
    ensures Trimmed(r)
  {
    TrimEnd(TrimStart(s))
  }

  /** Only whitespace. */
  predicate AllSpace(s: string) {
    forall k :: 0 <= k < |s| ==> IsSpace(s[k])
  }

  lemma TrimEmpty(s: string)
    ensures Trim(s) == [] <==> AllSpace(s)
  {
    if !AllSpace(s) {
      var k :| 0 <= k < |s| && !IsSpace(s[k]);
      assert Leading(s) <= k < Leading(s) + |Trim(s)|;
    }
  }

  // ------------------------------------------------------- normalisation

  /** The characters of `s` that are not whitespace, in order. */
  function NonSpace(s: string): string
    decreases |s|
  {
    if s == [] then [] else (if IsSpace(s[0]) then [] else [s[0]]) + NonSpace(s[1..])
  }

  lemma {:induction false} NonSpaceAppend(a: string, b: string)
    ensures NonSpace(a + b) == NonSpace(a) + NonSpace(b)
    decreases |a|
  {
    if a != [] {
      assert (a + b)[1..] == a[1..] + b;
      NonSpaceAppend(a[1..], b);
    } else {
      assert a + b == b;
    }
  }

  lemma {:induction false} NonSpaceOfSpaces(s: string)
    requires AllSpace(s)
    ensures NonSpace(s) == []
    decreases |s|
  {
    if s != [] { NonSpaceOfSpaces(s[1..]); }
  }

  /** Every whitespace character is a plain space, and no two are adjacent. */
  predicate SingleSpaced(s: string) {
    forall k :: 0 <= k < |s| && IsSpace(s[k]) ==> s[k] == ' ' && (k + 1 < |s| ==> !IsSpace(s[k + 1]))
  }

  /** Text in the form `norm` produces: no whitespace at either end, and every
      whitespace character is a plain space followed by a non-space. */
  predicate Normalized(s: string) {
    (s != [] ==> !IsSpace(s[0]) && !IsSpace(s[|s| - 1])) && SingleSpaced(s)
  }

  /** Whitespace around a string adds nothing to its non-space characters. */
  lemma NonSpaceAround(front: string, r: string, back: string)
    requires AllSpace(front) && AllSpace(back)
    ensures NonSpace(front + r + back) == NonSpace(r)
  {
    NonSpaceAppend(front + r, back);
    NonSpaceAppend(front, r);
    NonSpaceOfSpaces(front);
    NonSpaceOfSpaces(back);
  }

  /** `trimStart` drops whitespace only. */
  lemma TrimStartNonSpace(s: string)
    ensures NonSpace(TrimStart(s)) == NonSpace(s)
  {
    var rest := TrimStart(s);
    var d := |s| - |rest|;
    SliceThree(s, d, |s|);
    AllSpaceSlice(s, 0, d);
    assert rest == s[d..|s|];
    NonSpaceAround(s[..d], rest, s[|s|..]);
  }

  lemma SingleSpacedCons(c: char, t: string)
    requires SingleSpaced(t)
    requires IsSpace(c) ==> c == ' ' && (t != [] ==> !IsSpace(t[0]))
    ensures SingleSpaced([c] + t)
  {
    var s := [c] + t;
    forall k | 0 <= k < |s| && IsSpace(s[k]) ensures s[k] == ' ' && (k + 1 < |s| ==> !IsSpace(s[k + 1])) {
      if k > 0 {
        assert s[k] == t[k - 1];
        if k + 1 < |s| { assert s[k + 1] == t[k]; }
      }
    }
  }

  /** The words of `s`: its maximal runs of non-whitespace characters, in order. */
  function Words(s: string): (ws: seq<string>)
    ensures s != [] && !IsSpace(s[0]) ==> ws != [] && ws[0] != [] && ws[0][0] == s[0]
    ensures forall i :: 0 <= i < |ws| ==> ws[i] != [] && !IsSpace(ws[i][0])
    decreases |s|
  {
    if s == [] then []
    else if IsSpace(s[0]) then Words(s[1..])
    else
      var rest := Words(s[1..]);
      if |s| > 1 && !IsSpace(s[1]) then [[s[0]] + rest[0]] + rest[1..]
      else [[s[0]]] + rest
  }

  lemma {:induction false} WordsOfSpaces(s: string)
    requires AllSpace(s)
    ensures Words(s) == []
    decreases |s|
  {
    if s != [] {
      WordsOfSpaces(s[1..]);
    }
  }

  /** Whitespace in front adds no word. */
  lemma {:induction false} WordsAfterSpaces(a: string, t: string)
    requires AllSpace(a)
    ensures Words(a + t) == Words(t)
    decreases |a|
  {
    if a != [] {
      assert (a + t)[1..] == a[1..] + t;
      WordsAfterSpaces(a[1..], t);
    } else {
      assert a + t == t;
    }
  }

  /** Whitespace behind adds no word. */
  lemma {:induction false} WordsBeforeSpaces(t: string, b: string)
    requires AllSpace(b)
    ensures Words(t + b) == Words(t)
    decreases |t|
  {
    if t == [] {
      assert t + b == b;
      WordsOfSpaces(b);
    } else {
      assert (t + b)[1..] == t[1..] + b;
      WordsBeforeSpaces(t[1..], b);
      if |t| == 1 && b != [] {
        assert (t + b)[1] == b[0];
      } else if |t| > 1 {
        assert (t + b)[1] == t[1];
      }
    }
  }

  /** `s.replace(/\s+/g, ' ')`: every maximal run of whitespace becomes one space. */
  function Collapse(s: string): (r: string)
    ensures SingleSpaced(r)
    ensures s == [] ==> r == []
    ensures s != [] && !IsSpace(s[0]) ==> r != [] && r[0] == s[0]
    ensures s != [] && IsSpace(s[0]) ==> r != [] && r[0] == ' '
    ensures NonSpace(r) == NonSpace(s)
    ensures Words(r) == Words(s)
    decreases |s|
  {
    if s == [] then []
    else if IsSpace(s[0]) then
      var rest := TrimStart(s[1..]);
      TrimStartNonSpace(s[1..]);
      var c := Collapse(rest);
      SingleSpacedCons(' ', c);
      TrimStartWords(s[1..]);
      assert ([' '] + c)[1..] == c;
      [' '] + c
    else
      var c := Collapse(s[1..]);
      SingleSpacedCons(s[0], c);
      assert ([s[0]] + c)[1..] == c;
      [s[0]] + c
  }

  /** `trimStart` keeps the words. */
  lemma TrimStartWords(s: string)
    ensures Words(TrimStart(s)) == Words(s)
  {
    var rest := TrimStart(s);
    var d := |s| - |rest|;
    AllSpaceSlice(s, 0, d);
    assert s == s[..d] + rest;
    WordsAfterSpaces(s[..d], rest);
  }

  /** A slice made only of whitespace positions is whitespace. */
  lemma AllSpaceSlice(s: string, lo: nat, hi: nat)
    requires lo <= hi <= |s|
    requires forall k :: lo <= k < hi ==> IsSpace(s[k])
    ensures AllSpace(s[lo..hi])
  {
    forall k | 0 <= k < hi - lo ensures IsSpace(s[lo..hi][k]) {
      assert s[lo..hi][k] == s[lo + k];
    }
  }

  /** Trimming text padded with whitespace on both sides gives the text back. */
  lemma TrimOfPadded(a: string, m: string, b: string)
    requires AllSpace(a) && AllSpace(b) && m != [] && Trimmed(m)
    ensures Trim(a + m + b) == m
  {
    var s := a + m + b;
    var i, r := Leading(s), Trim(s);
    assert forall k :: 0 <= k < |a| ==> s[k] == a[k];
    assert forall k :: |a| + |m| <= k < |s| ==> s[k] == b[k - |a| - |m|];
    assert s[|a|] == m[0] && s[|a| + |m| - 1] == m[|m| - 1];
    assert i <= |a| < i + |r|;
    assert r[0] == s[i] && r[|r| - 1] == s[i + |r| - 1];
    assert i == |a| && i + |r| == |a| + |m|;
    assert s[|a|..|a| + |m|] == m;
  }

  /** `s` is the whitespace `trim` drops at the front, what it keeps, and
      the whitespace it drops at the back. */
  lemma TrimParts(s: string)
    ensures var i, r := Leading(s), Trim(s);
            && s == s[..i] + r + s[i + |r|..]
            && AllSpace(s[..i]) && AllSpace(s[i + |r|..])
  {
    var i, r := Leading(s), Trim(s);
    var j := i + |r|;
    assert j <= |s| && r == s[i..j];
    SliceThree(s, i, j);
    AllSpaceSlice(s, 0, i);
    AllSpaceSlice(s, j, |s|);
  }

  lemma SliceThree(s: string, i: nat, j: nat)
    requires i <= j <= |s|
    ensures s == s[..i] + s[i..j] + s[j..]
    ensures s[..i] == s[0..i] && s[j..] == s[j..|s|]
  {
  }

  /** Trimming drops whitespace only. */
  lemma TrimNonSpace(c: string)
    ensures NonSpace(Trim(c)) == NonSpace(c)
  {
    var i, r := Leading(c), Trim(c);
    TrimParts(c);
    NonSpaceAround(c[..i], r, c[i + |r|..]);
  }

  /** Trimming text whose whitespace is single spaces yields normal text. */
  lemma TrimCollapsed(c: string)
    requires SingleSpaced(c)
    ensures Normalized(Trim(c))
  {
    var r, i := Trim(c), Leading(c);
    SingleSpacedSlice(c, i, i + |r|);
  }

  lemma SingleSpacedSlice(s: string, lo: nat, hi: nat)
    requires lo <= hi <= |s| && SingleSpaced(s)
    ensures SingleSpaced(s[lo..hi])
  {
    var t := s[lo..hi];
    forall k | 0 <= k < |t| && IsSpace(t[k]) ensures t[k] == ' ' && (k + 1 < |t| ==> !IsSpace(t[k + 1])) {
      assert t[k] == s[lo + k];
      if k + 1 < |t| { assert t[k + 1] == s[lo + k + 1]; }
    }
  }

  /** `norm` of scrapePublic.js: collapse whitespace runs, then trim. */
  function Norm(s: string): (r: string)
    ensures Normalized(r)
    ensures NonSpace(r) == NonSpace(s)
    ensures Words(r) == Words(s)
  {
    var c := Collapse(s);
    TrimNonSpace(c);
    TrimCollapsed(c);
    TrimWords(c);
    Trim(c)
  }

  /** Trimming keeps the words. */
  lemma TrimWords(c: string)
    ensures Words(Trim(c)) == Words(c)
  {
    var i, r := Leading(c), Trim(c);
    TrimParts(c);
    WordsAround(c[..i], r, c[i + |r|..]);
  }

  /** Whitespace around a string adds no word. */
  lemma WordsAround(front: string, r: string, back: string)
    requires AllSpace(front) && AllSpace(back)
    ensures Words(front + r + back) == Words(r)
  {
    assert front + r + back == front + (r + back);
    WordsAfterSpaces(front, r + back);
    WordsBeforeSpaces(r, back);
  }

  /** `norm(s)` is the words of `s` joined by single spaces. */
  lemma NormJoinsWords(s: string)
    ensures Norm(s) == Join(Words(s), ' ')
  {
    NormalizedJoinsWords(Norm(s));
  }

  /** Normal text is its own words joined by single spaces. */
  lemma {:induction false} NormalizedJoinsWords(s: string)
    requires Normalized(s)
    ensures s == Join(Words(s), ' ')
    decreases |s|
  {
    if s != [] {
      var t := s[1..];
      if t == [] {
        assert Words(s) == [[s[0]]];
      } else if IsSpace(t[0]) {
        assert t[0] == ' ';
        var u := t[1..];
        assert |s| >= 3 && u == s[2..] && u[0] == s[2];
        SingleSpacedSlice(s, 2, |s|);
        NormalizedJoinsWords(u);
        assert Words(t) == Words(u);
        assert Words(s) == [[s[0]]] + Words(u);
        assert s == [s[0]] + [' '] + u;
      } else {
        SingleSpacedSlice(s, 1, |s|);
        NormalizedJoinsWords(t);
        var w := Words(t);
        assert Words(s) == [[s[0]] + w[0]] + w[1..];
        JoinPrepend([s[0]], w, ' ');
        assert s == [s[0]] + t;
      }
    }
  }

  /** Gluing text onto the first part glues it onto the join. */
  lemma JoinPrepend(x: string, parts: seq<string>, c: char)
    requires parts != []
    ensures Join([x + parts[0]] + parts[1..], c) == x + Join(parts, c)
  {
    var glued := [x + parts[0]] + parts[1..];
    assert glued[1..] == parts[1..];
  }

  /** `norm` yields the empty string exactly on whitespace-only input. */
  lemma NormEmpty(s: string)
    ensures Norm(s) == [] <==> AllSpace(s)
  {
    NonSpaceEmpty(s);
    NonSpaceEmpty(Norm(s));
  }

  lemma {:induction false} NonSpaceEmpty(s: string)
    ensures NonSpace(s) == [] <==> AllSpace(s)
    decreases |s|
  {
    if s != [] {
      NonSpaceEmpty(s[1..]);
      assert AllSpace(s) <==> IsSpace(s[0]) && AllSpace(s[1..]) by {
        if IsSpace(s[0]) && AllSpace(s[1..]) {
          forall k | 0 <= k < |s| ensures IsSpace(s[k]) {
            if k > 0 { assert s[k] == s[1..][k - 1]; }
          }
        }
      }
    }
  }

  /** Normalising text that is already normal changes nothing, so `norm` is idempotent. */
  lemma NormIdempotent(s: string)
    ensures Norm(Norm(s)) == Norm(s)
  {
    NormOfNormalized(Norm(s));
  }

  lemma NormOfNormalized(s: string)
    requires Normalized(s)
    ensures Norm(s) == s
  {
    CollapseNormalized(s);
    assert TrimStart(s) == s;
    assert TrimEnd(s) == s;
  }

  lemma {:induction false} CollapseNormalized(s: string)
    requires SingleSpaced(s) && (s != [] ==> !IsSpace(s[|s| - 1]))
    ensures Collapse(s) == s
    decreases |s|
  {
    if s != [] {
      var t := s[1..];
      SingleSpacedSlice(s, 1, |s|);
      CollapseNormalized(t);
      assert s == [s[0]] + t;
      if IsSpace(s[0]) {
        assert |s| > 1 && !IsSpace(t[0]);
        assert TrimStart(t) == t;
        assert s[0] == ' ';
        assert Collapse(s) == [' '] + Collapse(t);
      } else {
        assert Collapse(s) == [s[0]] + Collapse(t);
      }
    }
  }

  // --------------------------------------------------------- searching

  /** `s.lastIndexOf(c)`: the last position of `c`, or -1. */
  function LastIndexOf(s: string, c: char): (r: int)
    ensures -1 <= r < |s|
    ensures r == -1 <==> c !in s
    ensures r >= 0 ==> s[r] == c && c !in s[r + 1..]
    decreases |s|
  {
    if s == [] then -1
    else if s[|s| - 1] == c then |s| - 1
    else
      var r := LastIndexOf(s[..|s| - 1], c);
      assert s == s[..|s| - 1] + [s[|s| - 1]];
      assert r >= 0 ==> s[r + 1..] == s[..|s| - 1][r + 1..] + [s[|s| - 1]];
      r
  }

  // ---------------------------------------------------- split and join

  /** `s.split(c)` for a one-character separator: never empty. */
  function Split(s: string, c: char): (r: seq<string>)
    ensures |r| >= 1
    ensures forall i :: 0 <= i < |r| ==> c !in r[i]
    ensures StartsWith(s, r[0])
    ensures Join(r, c) == s
    decreases |s|
  {
    if s == [] then [""]
    else
      var rest := Split(s[1..], c);
      assert s == [s[0]] + s[1..];
      if s[0] == c then
        assert ([""] + rest)[1..] == rest;
        [""] + rest
      else
        JoinPrepend([s[0]], rest, c);
        [[s[0]] + rest[0]] + rest[1..]
  }

  /** `parts.join(c)`. */
  function Join(parts: seq<string>, c: char): (r: string)
    decreases |parts|
  {
    if parts == [] then ""
    else if |parts| == 1 then parts[0]
    else parts[0] + [c] + Join(parts[1..], c)
  }

  /** A join ends with its last part. */
  lemma {:induction false} JoinEndsWithLast(parts: seq<string>, c: char)
    requires |parts| >= 1
    ensures EndsWith(Join(parts, c), parts[|parts| - 1])
    decreases |parts|
  {
    if |parts| > 1 {
      JoinEndsWithLast(parts[1..], c);
      var j, last := Join(parts[1..], c), parts[|parts| - 1];
      var whole := parts[0] + [c] + j;
      assert whole[|whole| - |last|..] == j[|j| - |last|..];
    }
  }

  lemma {:induction false} SplitNoSeparator(p: string, c: char)
    requires c !in p
    ensures Split(p, c) == [p]
    decreases |p|
  {
    if p != [] {
      SplitNoSeparator(p[1..], c);
      assert [p[0]] + p[1..] == p;
    }
  }

  lemma {:induction false} SplitAtSeparator(p: string, c: char, rest: string)
    requires c !in p
    ensures Split(p + [c] + rest, c) == [p] + Split(rest, c)
    decreases |p|
  {
    if p == [] {
      assert p + [c] + rest == [c] + rest;
      assert ([c] + rest)[1..] == rest;
    } else {
      assert (p + [c] + rest)[1..] == p[1..] + [c] + rest;
      SplitAtSeparator(p[1..], c, rest);
      assert [p[0]] + p[1..] == p;
    }
  }

  /** The last part of a split is what follows the last separator. */
  lemma {:induction false} SplitLastPart(s: string, c: char, t: string)
    requires c !in t
    ensures var r := Split(s + [c] + t, c);
            |r| >= 2 && r[|r| - 1] == t
    decreases |s|
  {
    if s == [] {
      assert s + [c] + t == [c] + t;
      assert ([c] + t)[1..] == t;
      SplitNoSeparator(t, c);
    } else {
      assert (s + [c] + t)[1..] == s[1..] + [c] + t;
      SplitLastPart(s[1..], c, t);
    }
  }

  /** Splitting a join on its separator gives back the parts, when no part
      contains the separator. */
  lemma {:induction false} SplitJoin(parts: seq<string>, c: char)
    requires |parts| >= 1
    requires forall i :: 0 <= i < |parts| ==> c !in parts[i]
    ensures Split(Join(parts, c), c) == parts
    decreases |parts|
  {
    if |parts| == 1 {
      SplitNoSeparator(parts[0], c);
    } else {
      SplitJoin(parts[1..], c);
      SplitAtSeparator(parts[0], c, Join(parts[1..], c));
      assert [parts[0]] + parts[1..] == parts;
    }
  }
}
