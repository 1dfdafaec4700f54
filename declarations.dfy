/** The declaration extractor: finding `class`/`struct` heads that have an
    inheritance colon (DECL_RE and re.finditer) and turning each into
    (child, base) pairs (parse_declarations). */
module Declarations {
  import opened Text
  import BaseList
  import BaseName

  /** One (child, base) pair; the source uses a bare tuple. */
  datatype Pair = Pair(child: string, parent: string)

  /** Where one match of DECL_RE lies in the text: the match starts at
      `start` (the keyword), group 1 is text[nameStart..nameEnd], the
      inheritance colon is at `colon`, group 2 is text[basesStart..close]
      and the match ends with the '{' at `close`. */
  datatype Head = Head(start: nat, nameStart: nat, nameEnd: nat, colon: nat, basesStart: nat, close: nat)

  /** The positions of a head are in order and inside the text. */
  predicate Fits(text: string, h: Head) {
    h.start < h.nameStart < h.nameEnd <= h.colon < h.basesStart < h.close < |text|
  }

  /** Group 1: the declared (child) class name. */
  function Name(text: string, h: Head): string
    requires Fits(text, h)
  {
    text[h.nameStart..h.nameEnd]
  }

  /** Group 2: the raw base list. */
  function Bases(text: string, h: Head): string
    requires Fits(text, h)
  {
    text[h.basesStart..h.close]
  }

  predicate StartsWith(text: string, i: nat, word: string) {
    i + |word| <= |text| && text[i..i + |word|] == word
  }

  /** The end of the run of word characters that starts at i. */
  function SkipWord(text: string, i: nat): (j: nat)
    requires i <= |text|
    ensures i <= j <= |text|
    ensures forall k :: i <= k < j ==> IsWordChar(text[k])
    ensures j == |text| || !IsWordChar(text[j])
    decreases |text| - i
  {
    if i < |text| && IsWordChar(text[i]) then SkipWord(text, i + 1) else i
  }

  /** The first '{' or ';' at or after i, or |text| when there is none. */
  function FindStop(text: string, i: nat): (j: nat)
    requires i <= |text|
    ensures i <= j <= |text|
    ensures forall k :: i <= k < j ==> text[k] != '{' && text[k] != ';'
    ensures j == |text| || text[j] == '{' || text[j] == ';'
    decreases |text| - i
  {
    if i < |text| && text[i] != '{' && text[i] != ';' then FindStop(text, i + 1) else i
  }

  /** The first ')' at or after i, or |text| when there is none. */
  function FindCloseParen(text: string, i: nat): (j: nat)
    requires i <= |text|
    ensures i <= j <= |text|
    ensures forall k :: i <= k < j ==> text[k] != ')'
    ensures j == |text| || text[j] == ')'
    decreases |text| - i
  {
    if i < |text| && text[i] != ')' then FindCloseParen(text, i + 1) else i
  }

  /** `(?:class|struct)` at p: the index just after the keyword. There is
      no word boundary in the pattern, so the keyword may end a longer
      identifier. */
  function KeywordEnd(text: string, p: nat): (r: Option<nat>)
    ensures r.Some? ==> p < r.value <= |text|
  {
    if StartsWith(text, p, "class") then Some(p + 5)
    else if StartsWith(text, p, "struct") then Some(p + 6)
    else None
  }

  /** One decoration token `\w+(?:\([^)]*\))?\s+` at q: where the token
      after it starts. Neither `\w+` nor `[^)]*` nor `\s+` can give back
      characters usefully (what follows must be `(`, `)`, whitespace or a
      word character), so this match is the only one. */
  function MacroEnd(text: string, q: nat): (r: Option<nat>)
    requires q <= |text|
    ensures r.Some? ==> q < r.value <= |text| && IsSpace(text[r.value - 1])
  {
    var w := SkipWord(text, q);
    if w == q then None
    else if w < |text| && text[w] == '(' then
      var c := FindCloseParen(text, w + 1);
      if c + 1 < |text| && IsSpace(text[c + 1]) then Some(SkipSpace(text, c + 1)) else None
    else if w < |text| && IsSpace(text[w]) then Some(SkipSpace(text, w))
    else None
  }

  /** `\s*(?:final\s*)?:` after the class name ending at e: the index of
      the inheritance colon. */
  function ColonAfter(text: string, e: nat): (r: Option<nat>)
    requires e <= |text|
    ensures r.Some? ==> e <= r.value < |text| && text[r.value] == ':'
  {
    var t := SkipSpace(text, e);
    if t < |text| && text[t] == ':' then Some(t)
    else if StartsWith(text, t, "final") then
      var u := SkipSpace(text, t + 5);
      if u < |text| && text[u] == ':' then Some(u) else None
    else None
  }

  /** `(\w+)\s*(?:final\s*)?:\s*([^{;]+)\{` with the class name starting at
      q (which follows whitespace). The name is the whole word at q: a
      shorter name cannot reach any other colon. The base list runs from
      the first non-space after the colon to the first '{' or ';', which
      must be '{'; when only whitespace separates the colon from that '{',
      `\s*` gives back its last character to `[^{;]+`. */
  function NameAndBases(text: string, p: nat, q: nat): (r: Option<Head>)
    requires p < q <= |text|
    ensures r.Some? ==> r.value.start == p && r.value.nameStart == q && Fits(text, r.value)
    ensures r.Some? ==> text[r.value.colon] == ':'
  {
    var ne := SkipWord(text, q);
    if ne == q then None
    else
      match ColonAfter(text, ne)
      case None => None
      case Some(c) =>
        var w := SkipSpace(text, c + 1);
        var e := FindStop(text, w);
        if e < |text| && text[e] == '{' && c + 1 < e then
          Some(Head(p, q, ne, c, if w < e then w else e - 1, e))
        else None
  }

  /** The lazy loop `(?:decoration\s+)*?` followed by the rest: the class
      name is tried at q first, and only when that fails is one decoration
      token consumed and the next token tried. */
  function HeadFrom(text: string, p: nat, q: nat): (r: Option<Head>)
    requires p < q <= |text|
    ensures r.Some? ==> r.value.start == p && q <= r.value.nameStart && Fits(text, r.value)
    ensures r.Some? ==> text[r.value.colon] == ':'
    decreases |text| - q
  {
    match NameAndBases(text, p, q)
    case Some(h) => Some(h)
    case None =>
      match MacroEnd(text, q)
      case None => None
      case Some(q') => HeadFrom(text, p, q')
  }

  /** DECL_RE matched starting exactly at p. */
  function HeadAt(text: string, p: nat): (r: Option<Head>)
    ensures r.Some? ==> r.value.start == p && Fits(text, r.value)
    ensures r.Some? ==> text[r.value.colon] == ':'
  {
    match KeywordEnd(text, p)
    case None => None
    case Some(k) =>
      var s := SkipSpace(text, k);
      if s == k then None else HeadFrom(text, p, s)
  }

  /** The gap between the class name and the colon: whitespace, or the
      word `final` with whitespace around it. */
  predicate FinalGap(g: string) {
    AllSpace(g)
    || exists a :: 0 <= a <= |g| - 5 && AllSpace(g[..a]) && g[a..a + 5] == "final" && AllSpace(g[a + 5..])
  }

  /** One decoration token `\w+(?:\([^)]*\))?\s+` occupying text[a..b]: a
      word ending at w, an optional parenthesised group ending at c, then
      whitespace up to b. */
  predicate DecorationToken(text: string, a: nat, w: nat, c: nat, b: nat) {
    && a < w <= c < b <= |text|
    && (forall k :: a <= k < w ==> IsWordChar(text[k]))
    && (c == w || (w + 2 <= c && text[w] == '(' && text[c - 1] == ')' && forall k :: w < k < c - 1 ==> text[k] != ')'))
    && (forall k :: c <= k < b ==> IsSpace(text[k]))
  }

  /** text[s..n] is a run of zero or more decoration tokens. */
  ghost predicate Decorations(text: string, s: nat, n: nat)
    decreases n
  {
    s == n || exists a, w, c :: s <= a < n && DecorationToken(text, a, w, c, n) && Decorations(text, s, a)
  }

  /** text[p..n] is `(?:class|struct)\s+` followed by decoration tokens, so
      that the class name may start at n. */
  ghost predicate Lead(text: string, p: nat, n: nat) {
    && n <= |text|
    && KeywordEnd(text, p).Some?
    && var k := KeywordEnd(text, p).value;
      exists s :: k < s <= n && (forall i :: k <= i < s ==> IsSpace(text[i])) && Decorations(text, s, n)
  }

  /** What any match of DECL_RE looks like: the keyword, whitespace and
      decoration tokens, the class name as a whole word, an optional
      `final`, the colon, whitespace, then a non-empty base list free of
      '{' and ';' that ends at the '{'. */
  ghost predicate MatchesPattern(text: string, h: Head) {
    && Fits(text, h)
    && Lead(text, h.start, h.nameStart)
    && AllWord(text[h.nameStart..h.nameEnd])
    && !IsWordChar(text[h.nameEnd])
    && FinalGap(text[h.nameEnd..h.colon])
    && text[h.colon] == ':'
    && AllSpace(text[h.colon + 1..h.basesStart])
    && (forall i :: h.colon < i < h.close ==> text[i] != '{' && text[i] != ';')
    && text[h.close] == '{'
  }

  lemma ColonAfterShape(text: string, e: nat)
    requires e <= |text| && ColonAfter(text, e).Some?
    ensures FinalGap(text[e..ColonAfter(text, e).value])
  {
    var c := ColonAfter(text, e).value;
    var t := SkipSpace(text, e);
    if t == c {
      SpaceSlice(text, e, c);
    } else {
      assert StartsWith(text, t, "final") && t + 5 <= SkipSpace(text, t + 5) == c;
      SpaceSlice(text, e, t);
      SpaceSlice(text, t + 5, c);
      FinalGapAt(text, e, t, c);
    }
  }

  /** The gap text[e..c] is whitespace, `final`, whitespace. */
  lemma FinalGapAt(text: string, e: nat, t: nat, c: nat)
    requires e <= t && t + 5 <= c <= |text|
    requires AllSpace(text[e..t]) && text[t..t + 5] == "final" && AllSpace(text[t + 5..c])
    ensures FinalGap(text[e..c])
  {
    var g, a := text[e..c], t - e;
    SliceOfSlice(text, e, c, 0, a);
    SliceOfSlice(text, e, c, a, a + 5);
    SliceOfSlice(text, e, c, a + 5, c - e);
    assert g[..a] == text[e..t] && g[a..a + 5] == text[t..t + 5] && g[a + 5..] == text[t + 5..c];
  }

  lemma SpaceSlice(text: string, a: nat, b: nat)
    requires a <= |text| && a <= b <= SkipSpace(text, a)
    ensures AllSpace(text[a..b])
  {
    forall k | 0 <= k < b - a ensures IsSpace(text[a..b][k]) {
      assert text[a..b][k] == text[a + k];
    }
  }

  lemma SliceOfSlice(s: string, i: nat, j: nat, k: nat, l: nat)
    requires i <= j <= |s| && k <= l <= j - i
    ensures s[i..j][k..l] == s[i + k..i + l]
  {
    var u, v := s[i..j][k..l], s[i + k..i + l];
    forall m | 0 <= m < |u| ensures u[m] == v[m] {
      assert u[m] == s[i + k + m];
    }
  }

  lemma NameAndBasesShape(text: string, p: nat, q: nat)
    requires p < q <= |text| && Lead(text, p, q)
    requires NameAndBases(text, p, q).Some?
    ensures MatchesPattern(text, NameAndBases(text, p, q).value)
  {
    var h := NameAndBases(text, p, q).value;
    var ne := SkipWord(text, q);
    ColonAfterShape(text, ne);
    var c := ColonAfter(text, ne).value;
    var w := SkipSpace(text, c + 1);
    var e := FindStop(text, w);
    assert h.colon == c && h.close == e;
    NoStopInBases(text, c, e);
    ShapeFromParts(text, h);
  }

  /** MatchesPattern, with its two runs of characters stated position by
      position rather than as slices. */
  lemma ShapeFromParts(text: string, h: Head)
    requires Fits(text, h) && Lead(text, h.start, h.nameStart) && !IsWordChar(text[h.nameEnd])
    requires forall k :: h.nameStart <= k < h.nameEnd ==> IsWordChar(text[k])
    requires FinalGap(text[h.nameEnd..h.colon]) && text[h.colon] == ':'
    requires forall k :: h.colon < k < h.basesStart ==> IsSpace(text[k])
    requires forall k :: h.colon < k < h.close ==> text[k] != '{' && text[k] != ';'
    requires text[h.close] == '{'
    ensures MatchesPattern(text, h)
  {
    var name, gap := text[h.nameStart..h.nameEnd], text[h.colon + 1..h.basesStart];
    forall k | 0 <= k < |name| ensures IsWordChar(name[k]) {
      assert name[k] == text[h.nameStart + k];
    }
    forall k | 0 <= k < |gap| ensures IsSpace(gap[k]) {
      assert gap[k] == text[h.colon + 1 + k];
    }
  }

  /** Between the colon and the first '{' or ';' after the whitespace that
      follows it, there is neither. */
  lemma NoStopInBases(text: string, c: nat, e: nat)
    requires c < |text| && e == FindStop(text, SkipSpace(text, c + 1))
    ensures forall i :: c < i < e ==> text[i] != '{' && text[i] != ';'
  {
    var w := SkipSpace(text, c + 1);
    forall i | c < i < e ensures text[i] != '{' && text[i] != ';' {
      if i < w {
        assert IsSpace(text[i]);
      }
    }
  }

  lemma {:induction false} HeadFromShape(text: string, p: nat, q: nat)
    requires p < q <= |text| && Lead(text, p, q)
    requires HeadFrom(text, p, q).Some?
    ensures MatchesPattern(text, HeadFrom(text, p, q).value)
    decreases |text| - q
  {
    if NameAndBases(text, p, q).Some? {
      NameAndBasesShape(text, p, q);
    } else {
      LeadMacro(text, p, q);
      HeadFromShape(text, p, MacroEnd(text, q).value);
    }
  }

  /** Soundness of the matcher: whatever it finds has the shape DECL_RE
      describes. In particular a head with no colon before its '{', or
      whose base list meets ';' first, is never matched. */
  lemma HeadAtShape(text: string, p: nat)
    requires HeadAt(text, p).Some?
    ensures MatchesPattern(text, HeadAt(text, p).value)
  {
    var k := KeywordEnd(text, p).value;
    LeadStart(text, p);
    HeadFromShape(text, p, SkipSpace(text, k));
  }

  /** The keyword and the whitespace after it lead to a name. */
  lemma LeadStart(text: string, p: nat)
    requires KeywordEnd(text, p).Some?
    requires var k := KeywordEnd(text, p).value; SkipSpace(text, k) > k
    ensures Lead(text, p, SkipSpace(text, KeywordEnd(text, p).value))
  {
    var k := KeywordEnd(text, p).value;
    var s := SkipSpace(text, k);
    assert Decorations(text, s, s);
  }

  /** A decoration token consumed by the lazy loop extends the lead. */
  lemma LeadMacro(text: string, p: nat, q: nat)
    requires q <= |text| && Lead(text, p, q) && MacroEnd(text, q).Some?
    ensures Lead(text, p, MacroEnd(text, q).value)
  {
    var k := KeywordEnd(text, p).value;
    var s :| k < s <= q && (forall i :: k <= i < s ==> IsSpace(text[i])) && Decorations(text, s, q);
    var q' := MacroEnd(text, q).value;
    var w, c := MacroToken(text, q);
    DecorationsSnoc(text, s, q, w, c, q');
  }

  /** What MacroEnd consumes is one decoration token. */
  lemma MacroToken(text: string, q: nat) returns (w: nat, c: nat)
    requires q <= |text| && MacroEnd(text, q).Some?
    ensures DecorationToken(text, q, w, c, MacroEnd(text, q).value)
  {
    w := SkipWord(text, q);
    c := if text[w] == '(' then FindCloseParen(text, w + 1) + 1 else w;
  }

  lemma DecorationsSnoc(text: string, s: nat, a: nat, w: nat, c: nat, n: nat)
    requires s <= a && Decorations(text, s, a) && DecorationToken(text, a, w, c, n)
    ensures Decorations(text, s, n)
  {
  }

  // ---------------------------------------------------------------------
  // re.finditer: leftmost, non-overlapping matches

  /** The outcome of trying a pattern at each position of a text. A match
      found at p starts at p and ends, with its '{', inside the text. */
  predicate TableOk(m: seq<Option<Head>>) {
    forall p :: 0 <= p < |m| && m[p].Some? ==> m[p].value.start == p < m[p].value.close < |m|
  }

  /** DECL_RE tried at each of the first n positions of the text. */
  function MatchesBelow(text: string, n: nat): (m: seq<Option<Head>>)
    requires n <= |text|
    ensures |m| == n
    ensures forall p :: 0 <= p < n && m[p].Some? ==> m[p].value.start == p < m[p].value.close < |text|
  {
    if n == 0 then [] else MatchesBelow(text, n - 1) + [HeadAt(text, n - 1)]
  }

  /** DECL_RE tried at every position of the text. */
  function MatchTable(text: string): (m: seq<Option<Head>>)
    ensures |m| == |text| && TableOk(m)
  {
    MatchesBelow(text, |text|)
  }

  lemma {:induction false} MatchesBelowAt(text: string, n: nat, p: nat)
    requires p < n <= |text|
    ensures MatchesBelow(text, n)[p] == HeadAt(text, p)
  {
    if p < n - 1 {
      MatchesBelowAt(text, n - 1, p);
    }
  }

  lemma MatchTableAt(text: string, p: nat)
    requires p < |text|
    ensures MatchTable(text)[p] == HeadAt(text, p)
  {
    MatchesBelowAt(text, |text|, p);
  }

  /** The matches re.finditer reports when searching from pos: try the
      pattern at pos; on success report the match and resume after its
      '{', otherwise move one character on. */
  function Scan(m: seq<Option<Head>>, pos: nat): (heads: seq<Head>)
    requires TableOk(m)
    ensures forall k :: 0 <= k < |heads| ==> pos <= heads[k].start < |m|
    decreases |m| - pos
  {
    if pos >= |m| then []
    else
      match m[pos]
      case Some(h) => [h] + Scan(m, h.close + 1)
      case None => Scan(m, pos + 1)
  }

  /** Matches do not overlap: each one ends before the next one starts. */
  predicate InOrder(heads: seq<Head>) {
    forall i, j :: 0 <= i < j < |heads| ==> heads[i].close < heads[j].start
  }

  /** The scan reports its matches in order, none overlapping the next. */
  lemma {:induction false} ScanInOrder(m: seq<Option<Head>>, pos: nat)
    requires TableOk(m)
    ensures InOrder(Scan(m, pos))
    decreases |m| - pos
  {
    if pos < |m| {
      match m[pos]
      case Some(h) =>
        var rest := Scan(m, h.close + 1);
        ScanInOrder(m, h.close + 1);
        forall i, j | 0 <= i < j < |[h] + rest| ensures ([h] + rest)[i].close < ([h] + rest)[j].start {
          assert ([h] + rest)[j] == rest[j - 1];
          if i > 0 {
            assert ([h] + rest)[i] == rest[i - 1];
          }
        }
      case None =>
        ScanInOrder(m, pos + 1);
    }
  }

  /** Every match the scan reports is the table's entry at its start. */
  lemma {:induction false} ScanReportsTable(m: seq<Option<Head>>, pos: nat)
    requires TableOk(m)
    ensures forall h :: h in Scan(m, pos) ==> h.start < |m| && m[h.start] == Some(h)
    decreases |m| - pos
  {
    if pos < |m| {
      match m[pos]
      case Some(h) =>
        ScanReportsTable(m, h.close + 1);
      case None =>
        ScanReportsTable(m, pos + 1);
    }
  }

  /** The pattern matches at no position of [lo, hi). */
  predicate NoMatchIn(m: seq<Option<Head>>, lo: nat, hi: nat) {
    forall q :: lo <= q < hi && q < |m| ==> m[q].None?
  }

  /** h is the first match at or after from. */
  predicate FoundAfter(m: seq<Option<Head>>, from: nat, h: Head) {
    from <= h.start < |m| && m[h.start] == Some(h) && NoMatchIn(m, from, h.start)
  }

  /** The finditer contract, independently of how the search is carried
      out: the first reported match is the leftmost one from pos, the rest
      are what the search reports when it resumes just after that match's
      '{', and when nothing is reported nothing matches. */
  predicate IsScan(m: seq<Option<Head>>, pos: nat, heads: seq<Head>)
    decreases |heads|
  {
    if heads == [] then NoMatchIn(m, pos, |m|)
    else FoundAfter(m, pos, heads[0]) && IsScan(m, heads[0].close + 1, heads[1..])
  }

  /** The scan meets the finditer contract. */
  lemma {:induction false} ScanIsScan(m: seq<Option<Head>>, pos: nat)
    requires TableOk(m)
    ensures IsScan(m, pos, Scan(m, pos))
    decreases |m| - pos
  {
    if pos < |m| {
      match m[pos]
      case Some(h) =>
        ScanIsScan(m, h.close + 1);
        assert ([h] + Scan(m, h.close + 1))[1..] == Scan(m, h.close + 1);
      case None =>
        ScanIsScan(m, pos + 1);
    }
  }

  /** Two scans from the same position agree on their first match. */
  lemma ScanHeadsAgree(m: seq<Option<Head>>, pos: nat, a: seq<Head>, b: seq<Head>)
    requires IsScan(m, pos, a) && IsScan(m, pos, b)
    ensures a == [] <==> b == []
    ensures a != [] && b != [] ==> a[0] == b[0]
  {
    if a != [] {
      assert FoundAfter(m, pos, a[0]);
    }
    if b != [] {
      assert FoundAfter(m, pos, b[0]);
    }
  }

  lemma {:induction false} ScansAgree(m: seq<Option<Head>>, pos: nat, a: seq<Head>, b: seq<Head>)
    requires IsScan(m, pos, a) && IsScan(m, pos, b)
    ensures a == b
    decreases |a|
  {
    ScanHeadsAgree(m, pos, a, b);
    if a != [] {
      ScansAgree(m, a[0].close + 1, a[1..], b[1..]);
      assert a == [a[0]] + a[1..] && b == [b[0]] + b[1..];
    }
  }

  /** The finditer contract pins the matches down: whatever meets it is
      the scan. */
  lemma ScanIsUnique(m: seq<Option<Head>>, pos: nat, heads: seq<Head>)
    requires TableOk(m) && IsScan(m, pos, heads)
    ensures heads == Scan(m, pos)
  {
    ScanIsScan(m, pos);
    ScansAgree(m, pos, heads, Scan(m, pos));
  }

  /** One step of the scan, as the search loop takes it. */
  lemma ScanStep(m: seq<Option<Head>>, pos: nat)
    requires TableOk(m) && pos < |m|
    ensures m[pos].Some? ==> Scan(m, pos) == [m[pos].value] + Scan(m, m[pos].value.close + 1)
    ensures m[pos].None? ==> Scan(m, pos) == Scan(m, pos + 1)
  {
  }

  /** What the search loop knows: the matches found before pos followed by
      the ones a scan from pos reports are all the matches. */
  ghost predicate Searched(m: seq<Option<Head>>, pos: nat, heads: seq<Head>)
    requires TableOk(m)
  {
    Scan(m, 0) == heads + Scan(m, pos)
  }

  /** One turn of the search loop keeps Searched: a match at pos is added
      and the search resumes after its '{', otherwise it moves one on. */
  lemma SearchStep(m: seq<Option<Head>>, pos: nat, heads: seq<Head>)
    requires TableOk(m) && pos < |m| && Searched(m, pos, heads)
    ensures m[pos].Some? ==> Searched(m, m[pos].value.close + 1, heads + [m[pos].value])
    ensures m[pos].None? ==> Searched(m, pos + 1, heads)
  {
    ScanStep(m, pos);
    if m[pos].Some? {
      var h := m[pos].value;
      assert heads + ([h] + Scan(m, h.close + 1)) == (heads + [h]) + Scan(m, h.close + 1);
    }
  }

  /** One attempt of DECL_RE at pos, as the search loop makes it. */
  method TryMatch(text: string, pos: nat) returns (r: Option<Head>)
    requires pos < |text|
    ensures r == MatchTable(text)[pos]
  {
    r := HeadAt(text, pos);
    MatchTableAt(text, pos);
  }

  /** The search loop of re.finditer over DECL_RE. */
  method FindHeads(text: string) returns (heads: seq<Head>)
    ensures heads == Scan(MatchTable(text), 0)
  {
    ghost var m := MatchTable(text);
    heads := [];
    var pos := 0;
    while pos < |text|
      invariant Searched(m, pos, heads)
      decreases |text| - pos
    {
      var r := TryMatch(text, pos);
      SearchStep(m, pos, heads);
      match r
      case Some(h) =>
        heads := heads + [h];
        pos := h.close + 1;
      case None =>
        pos := pos + 1;
    }
  }

  /** Every match the scan reports is what the matcher finds at its start. */
  lemma ScanMatches(text: string)
    ensures forall h :: h in Scan(MatchTable(text), 0) ==> HeadAt(text, h.start) == Some(h)
  {
    var m := MatchTable(text);
    ScanReportsTable(m, 0);
    forall h | h in Scan(m, 0) ensures HeadAt(text, h.start) == Some(h) {
      MatchTableAt(text, h.start);
    }
  }

  /** Every match the scan reports lies inside the text. */
  lemma ScanFits(text: string)
    ensures forall h :: h in Scan(MatchTable(text), 0) ==> Fits(text, h)
    ensures var heads := Scan(MatchTable(text), 0);
      forall k :: 0 <= k < |heads| ==> Fits(text, heads[k])
  {
    ScanMatches(text);
    var heads := Scan(MatchTable(text), 0);
    forall k | 0 <= k < |heads| ensures Fits(text, heads[k]) {
      assert heads[k] in heads;
    }
  }

  // ---------------------------------------------------------------------
  // parse_declarations

  /** The pairs one declaration contributes: its name paired with the base
      name read from each segment that yields one, in segment order. */
  function SegmentPairs(child: string, segments: seq<string>): (ps: seq<Pair>)
    ensures |ps| <= |segments|
    ensures forall i :: 0 <= i < |ps| ==> ps[i].child == child
    ensures forall i :: 0 <= i < |ps| ==> ps[i].parent != [] && AllWord(ps[i].parent)
  {
    if segments == [] then []
    else
      var rest := SegmentPairs(child, segments[..|segments| - 1]);
      match BaseName.ExtractBaseName(segments[|segments| - 1])
      case None => rest
      case Some(b) => rest + [Pair(child, b)]
  }

  /** The pairs of a list of declarations, declaration by declaration. */
  function HeadPairs(text: string, heads: seq<Head>): (ps: seq<Pair>)
    requires forall h :: h in heads ==> Fits(text, h)
  {
    if heads == [] then []
    else
      var h := heads[|heads| - 1];
      HeadPairs(text, heads[..|heads| - 1]) + SegmentPairs(Name(text, h), BaseList.Segments(Bases(text, h)))
  }

  lemma HeadPairsSnoc(text: string, heads: seq<Head>, k: nat)
    requires k < |heads| && forall h :: h in heads ==> Fits(text, h)
    ensures HeadPairs(text, heads[..k + 1])
      == HeadPairs(text, heads[..k]) + SegmentPairs(Name(text, heads[k]), BaseList.Segments(Bases(text, heads[k])))
  {
    assert heads[..k + 1][..k] == heads[..k];
  }

  /** The matches re.finditer reports for DECL_RE over the whole text. */
  function DeclaredHeads(text: string): (heads: seq<Head>)
    ensures forall k :: 0 <= k < |heads| ==> Fits(text, heads[k])
    ensures forall h :: h in heads ==> Fits(text, h)
  {
    ScanFits(text);
    Scan(MatchTable(text), 0)
  }

  /** What parse_declarations returns for a text. */
  function DeclarationPairs(text: string): seq<Pair> {
    HeadPairs(text, DeclaredHeads(text))
  }

  /** parse_declarations: for every match, split its base list and pair
      the class name with each base name read from a segment. */
  method ParseDeclarations(text: string) returns (pairs: seq<Pair>)
    ensures pairs == DeclarationPairs(text)
  {
    var heads := FindHeads(text);
    ScanFits(text);
    pairs := [];
    for k := 0 to |heads|
      invariant pairs == HeadPairs(text, heads[..k])
    {
      var h := heads[k];
      assert h in heads;
      var child := text[h.nameStart..h.nameEnd];
      var segments := BaseList.SplitBaseList(text[h.basesStart..h.close]);
      var found := CollectBasePairs(child, segments);
      HeadPairsSnoc(text, heads, k);
      pairs := pairs + found;
    }
    assert heads[..|heads|] == heads;
  }

  /** The inner loop of parse_declarations: the pairs one declaration
      contributes, segment by segment. */
  method CollectBasePairs(child: string, segments: seq<string>) returns (found: seq<Pair>)
    ensures found == SegmentPairs(child, segments)
  {
    found := [];
    for j := 0 to |segments|
      invariant found == SegmentPairs(child, segments[..j])
    {
      var base := BaseName.ExtractBaseName(segments[j]);
      assert segments[..j + 1][..j] == segments[..j];
      if base.Some? {
        found := found + [Pair(child, base.value)];
      }
    }
    assert segments[..|segments|] == segments;
  }

  /** What _extract_base_name reads from each segment, in order. */
  function BaseNames(segments: seq<string>): (r: seq<Option<string>>)
    ensures |r| == |segments|
  {
    if segments == [] then []
    else BaseNames(segments[..|segments| - 1]) + [BaseName.ExtractBaseName(segments[|segments| - 1])]
  }

  lemma {:induction false} BaseNamesAt(segments: seq<string>, i: nat)
    requires i < |segments|
    ensures BaseNames(segments)[i] == BaseName.ExtractBaseName(segments[i])
  {
    if i < |segments| - 1 {
      BaseNamesAt(segments[..|segments| - 1], i);
    }
  }

  /** Some segment of the list names base b. */
  predicate NamesBase(segments: seq<string>, b: string) {
    Some(b) in BaseNames(segments)
  }

  /** A declaration contributes a pair exactly when the pair holds its
      name and the base name read from one of its segments. */
  lemma {:induction false} SegmentPairsMembers(child: string, segments: seq<string>, p: Pair)
    ensures p in SegmentPairs(child, segments) <==> (p.child == child && NamesBase(segments, p.parent))
    decreases |segments|
  {
    if segments != [] {
      SegmentPairsMembers(child, segments[..|segments| - 1], p);
    }
  }

  /** The pairs each declaration contributes, one group per declaration. */
  function Groups(text: string, heads: seq<Head>): (gs: seq<seq<Pair>>)
    requires forall h :: h in heads ==> Fits(text, h)
    ensures |gs| == |heads|
  {
    if heads == [] then []
    else
      var h := heads[|heads| - 1];
      Groups(text, heads[..|heads| - 1]) + [SegmentPairs(Name(text, h), BaseList.Segments(Bases(text, h)))]
  }

  lemma {:induction false} GroupsAt(text: string, heads: seq<Head>, k: nat)
    requires k < |heads| && forall h :: h in heads ==> Fits(text, h)
    ensures Groups(text, heads)[k] == SegmentPairs(Name(text, heads[k]), BaseList.Segments(Bases(text, heads[k])))
  {
    if k < |heads| - 1 {
      var init := heads[..|heads| - 1];
      assert forall h :: h in init ==> h in heads;
      GroupsAt(text, init, k);
    }
  }

  /** Groups concatenated in order. */
  function Concat(gs: seq<seq<Pair>>): seq<Pair> {
    if gs == [] then [] else Concat(gs[..|gs| - 1]) + gs[|gs| - 1]
  }

  lemma {:induction false} ConcatMembers(gs: seq<seq<Pair>>, p: Pair)
    ensures p in Concat(gs) <==> exists k :: 0 <= k < |gs| && p in gs[k]
    decreases |gs|
  {
    if gs != [] {
      var init := gs[..|gs| - 1];
      ConcatMembers(init, p);
      if exists k :: 0 <= k < |init| && p in init[k] {
        var k :| 0 <= k < |init| && p in init[k];
        assert gs[k] == init[k];
      }
      if exists k :: 0 <= k < |gs| && p in gs[k] {
        var k :| 0 <= k < |gs| && p in gs[k];
        if k < |init| {
          assert init[k] == gs[k];
        }
      }
    }
  }

  lemma {:induction false} HeadPairsConcat(text: string, heads: seq<Head>)
    requires forall h :: h in heads ==> Fits(text, h)
    ensures HeadPairs(text, heads) == Concat(Groups(text, heads))
    decreases |heads|
  {
    if heads != [] {
      var init := heads[..|heads| - 1];
      assert forall h :: h in init ==> h in heads;
      HeadPairsConcat(text, init);
      assert Groups(text, heads)[..|heads| - 1] == Groups(text, init);
    }
  }

  /** The pairs of a list of declarations are those of its members. */
  lemma HeadPairsMembers(text: string, heads: seq<Head>, p: Pair)
    requires forall h :: h in heads ==> Fits(text, h)
    ensures p in HeadPairs(text, heads) <==>
      exists k :: 0 <= k < |heads| &&
        p.child == Name(text, heads[k]) && NamesBase(BaseList.Segments(Bases(text, heads[k])), p.parent)
  {
    var gs := Groups(text, heads);
    HeadPairsConcat(text, heads);
    ConcatMembers(gs, p);
    forall k | 0 <= k < |heads|
      ensures p in gs[k] <==> p.child == Name(text, heads[k]) && NamesBase(BaseList.Segments(Bases(text, heads[k])), p.parent)
    {
      GroupsAt(text, heads, k);
      SegmentPairsMembers(Name(text, heads[k]), BaseList.Segments(Bases(text, heads[k])), p);
    }
  }

  /** parse_declarations reports (child, base) exactly when the k-th match
      of DECL_RE, for some k, names child and some segment of its base
      list names base. */
  lemma DeclarationPairsMembers(text: string, p: Pair)
    ensures var heads := DeclaredHeads(text);
      p in DeclarationPairs(text) <==>
        exists k :: 0 <= k < |heads| &&
          p.child == Name(text, heads[k]) && NamesBase(BaseList.Segments(Bases(text, heads[k])), p.parent)
  {
    HeadPairsMembers(text, DeclaredHeads(text), p);
  }

  /** The name of every declaration the scan reports is a whole word. */
  lemma DeclaredNameIsWord(text: string, h: Head)
    requires h in DeclaredHeads(text)
    ensures Name(text, h) != [] && AllWord(Name(text, h))
  {
    ScanMatches(text);
    HeadAtShape(text, h.start);
  }

  /** A base name read from a segment is a run of word characters. */
  lemma NamedBaseIsWord(segments: seq<string>, b: string)
    requires NamesBase(segments, b)
    ensures b != [] && AllWord(b)
  {
    var i :| 0 <= i < |segments| && BaseNames(segments)[i] == Some(b);
    BaseNamesAt(segments, i);
  }

  /** Both halves of every reported pair are identifiers: the class name
      is a whole word of the text, the base name a run of word characters. */
  lemma PairsAreIdentifiers(text: string, p: Pair)
    requires p in DeclarationPairs(text)
    ensures p.child != [] && AllWord(p.child) && p.parent != [] && AllWord(p.parent)
  {
    DeclarationPairsMembers(text, p);
    var heads := DeclaredHeads(text);
    var k :| 0 <= k < |heads| &&
      p.child == Name(text, heads[k]) && NamesBase(BaseList.Segments(Bases(text, heads[k])), p.parent);
    DeclaredNameIsWord(text, heads[k]);
    NamedBaseIsWord(BaseList.Segments(Bases(text, heads[k])), p.parent);
  }

  /** A table with no match from pos on gives an empty scan. */
  lemma {:induction false} NoMatchNoScan(m: seq<Option<Head>>, pos: nat)
    requires TableOk(m) && NoMatchIn(m, pos, |m|)
    ensures Scan(m, pos) == []
    decreases |m| - pos
  {
    if pos < |m| {
      NoMatchNoScan(m, pos + 1);
    }
  }

  /** Text in which neither keyword occurs yields no pairs. */
  lemma NoKeywordNoPairs(text: string)
    requires forall p :: 0 <= p < |text| ==> !StartsWith(text, p, "class") && !StartsWith(text, p, "struct")
    ensures DeclarationPairs(text) == []
  {
    var m := MatchTable(text);
    forall q | 0 <= q < |m| ensures m[q].None? {
      MatchTableAt(text, q);
    }
    NoMatchNoScan(m, 0);
  }

  /** Every match needs the inheritance colon, so text without ':' (a
      class with no base list) yields no pairs. */
  lemma NoColonNoPairs(text: string)
    requires forall k :: 0 <= k < |text| ==> text[k] != ':'
    ensures DeclarationPairs(text) == []
  {
    var m := MatchTable(text);
    forall q | 0 <= q < |m| ensures m[q].None? {
      MatchTableAt(text, q);
    }
    NoMatchNoScan(m, 0);
  }
}
