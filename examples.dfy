/** Worked inputs taken from the fixtures and docstrings of the extractor,
    with what the model computes for them. */
module Examples {
  import opened Text
  import BaseList
  import BaseName
  import opened Declarations

  // ---------------------------------------------------------------------
  // Reusable steps: one declaration per text, one or two segments per base
  // list, and `public Name...` segments.

  /** A text whose only match starts at its first character and ends with
      its last one reports that match and nothing else. */
  lemma OnlyHead(text: string, h: Head)
    requires HeadAt(text, 0) == Some(h) && h.close == |text| - 1
    ensures DeclaredHeads(text) == [h]
  {
    var m := MatchTable(text);
    MatchTableAt(text, 0);
    assert Scan(m, 0) == [h] + Scan(m, |text|);
  }

  /** `class Name : bases {` with only whitespace between the parts (no
      decoration, no `final`): the name runs over [q, ne), the colon is at
      c, the base list runs from w to the closing '{'. */
  lemma ClassHeadAlone(text: string, q: nat, ne: nat, c: nat, w: nat)
    requires 5 < q < ne <= c < w < |text| - 1
    requires text[0..5] == "class"
    requires (forall k :: 5 <= k < q ==> IsSpace(text[k])) && IsWordChar(text[q])
    requires (forall k :: q <= k < ne ==> IsWordChar(text[k])) && !IsWordChar(text[ne])
    requires (forall k :: ne <= k < c ==> IsSpace(text[k])) && text[c] == ':'
    requires (forall k :: c < k < w ==> IsSpace(text[k])) && !IsSpace(text[w])
    requires forall k :: w <= k < |text| - 1 ==> text[k] != '{' && text[k] != ';'
    requires text[|text| - 1] == '{'
    ensures DeclaredHeads(text) == [Head(0, q, ne, c, w, |text| - 1)]
  {
    ClassNameAt(text, q, ne, c);
    ClassBasesAt(text, c, w);
    ClassKeywordAt(text, q);
    ClassHeadAt(text, q, ne, c, w);
    OnlyHead(text, Head(0, q, ne, c, w, |text| - 1));
  }

  lemma ClassKeywordAt(text: string, q: nat)
    requires 5 < q < |text| && text[0..5] == "class"
    requires (forall k :: 5 <= k < q ==> IsSpace(text[k])) && !IsSpace(text[q])
    ensures KeywordEnd(text, 0) == Some(5) && SkipSpace(text, 5) == q
  {
    SkipSpaceAt(text, 5, q);
  }

  /** The parts found where they are make the whole match. */
  lemma ClassHeadAt(text: string, q: nat, ne: nat, c: nat, w: nat)
    requires 5 < q < ne <= c < w < |text| - 1 && text[|text| - 1] == '{'
    requires KeywordEnd(text, 0) == Some(5) && SkipSpace(text, 5) == q
    requires SkipWord(text, q) == ne && ColonAfter(text, ne) == Some(c)
    requires SkipSpace(text, c + 1) == w && FindStop(text, w) == |text| - 1
    ensures HeadAt(text, 0) == Some(Head(0, q, ne, c, w, |text| - 1))
  {
    NameAndBasesAt(text, 0, q, ne, c, w, |text| - 1);
  }

  lemma NameAndBasesAt(text: string, p: nat, q: nat, ne: nat, c: nat, w: nat, e: nat)
    requires p < q < ne <= c < w < e < |text| && text[e] == '{'
    requires SkipWord(text, q) == ne && ColonAfter(text, ne) == Some(c)
    requires SkipSpace(text, c + 1) == w && FindStop(text, w) == e
    ensures NameAndBases(text, p, q) == Some(Head(p, q, ne, c, w, e))
  {
  }

  lemma ClassNameAt(text: string, q: nat, ne: nat, c: nat)
    requires q < ne <= c < |text|
    requires (forall k :: q <= k < ne ==> IsWordChar(text[k])) && !IsWordChar(text[ne])
    requires (forall k :: ne <= k < c ==> IsSpace(text[k])) && text[c] == ':'
    ensures SkipWord(text, q) == ne && ColonAfter(text, ne) == Some(c)
  {
    SkipSpaceAt(text, ne, c);
  }

  lemma ClassBasesAt(text: string, c: nat, w: nat)
    requires c < w < |text| - 1
    requires (forall k :: c < k < w ==> IsSpace(text[k])) && !IsSpace(text[w])
    requires forall k :: w <= k < |text| - 1 ==> text[k] != '{' && text[k] != ';'
    requires text[|text| - 1] == '{'
    ensures SkipSpace(text, c + 1) == w && FindStop(text, w) == |text| - 1
  {
    SkipSpaceAt(text, c + 1, w);
  }

  /** The text of a one-line declaration `class <name><gap>:<sp><bases>{`. */
  function Declaration(name: string, gap: string, sp: string, bases: string): (text: string)
    ensures |text| == 8 + |name| + |gap| + |sp| + |bases|
  {
    "class " + name + gap + ":" + sp + bases + "{"
  }

  /** A declaration whose name is an identifier, whose gaps are whitespace
      and whose base list holds no '{' or ';' is matched once, with that
      name and that base list. */
  lemma ClassDecl(name: string, gap: string, sp: string, bases: string) returns (h: Head)
    requires name != [] && AllWord(name) && AllSpace(gap) && sp != [] && AllSpace(sp)
    requires bases != [] && !IsSpace(bases[0])
    requires forall k :: 0 <= k < |bases| ==> bases[k] != '{' && bases[k] != ';'
    ensures var text := Declaration(name, gap, sp, bases);
      DeclaredHeads(text) == [h] && Fits(text, h) && Name(text, h) == name && Bases(text, h) == bases
  {
    var text := Declaration(name, gap, sp, bases);
    var ne := 6 + |name|;
    var c := ne + |gap|;
    var w := c + 1 + |sp|;
    h := Head(0, 6, ne, c, w, |text| - 1);
    DeclarationParts(name, gap, sp, bases);
    ClassHeadAlone(text, 6, ne, c, w);
  }

  /** Where each part of a declaration lies in its text. */
  lemma DeclarationParts(name: string, gap: string, sp: string, bases: string)
    ensures var text := Declaration(name, gap, sp, bases);
      var ne := 6 + |name|;
      var c := ne + |gap|;
      var w := c + 1 + |sp|;
      && text[0..6] == "class " && text[6..ne] == name && text[ne..c] == gap && text[c] == ':'
      && text[c + 1..w] == sp && text[w..|text| - 1] == bases && text[|text| - 1] == '{'
  {
  }

  /** With no comma anywhere, the list is never cut. */
  lemma {:induction false} NoCommaNoCuts(b: string, n: nat)
    requires n <= |b| && forall k :: 0 <= k < |b| ==> b[k] != ','
    ensures BaseList.Cuts(b, n) == []
  {
    if n > 0 {
      NoCommaNoCuts(b, n - 1);
    }
  }

  /** Over a stretch without angle brackets the depth does not move. */
  lemma {:induction false} DepthFlat(b: string, i: nat, j: nat)
    requires i <= j <= |b| && forall k :: i <= k < j ==> b[k] != '<' && b[k] != '>'
    ensures BaseList.Depth(b, j) == BaseList.Depth(b, i)
  {
    if j > i {
      DepthFlat(b, i, j - 1);
    }
  }

  /** A list whose one comma comes before any angle bracket is cut at that
      comma only. */
  lemma OnlyComma(b: string, c: nat)
    requires c < |b| && b[c] == ','
    requires forall k :: 0 <= k < c ==> b[k] != '<' && b[k] != '>'
    requires forall k :: 0 <= k < |b| && b[k] == ',' ==> k == c
    ensures BaseList.Cuts(b, |b|) == [c]
  {
    DepthFlat(b, 0, c);
    BaseList.OneSeparator(b, c);
  }

  /** An uncut list is one segment: itself, stripped. */
  lemma OneSegmentAt(b: string, e: nat)
    requires 0 < e <= |b| && forall k :: 0 <= k < |b| ==> b[k] != ','
    requires !IsSpace(b[0]) && !IsSpace(b[e - 1]) && forall k :: e <= k < |b| ==> IsSpace(b[k])
    ensures BaseList.Segments(b) == [b[..e]]
  {
    NoCommaNoCuts(b, |b|);
    assert b[0..] == b[0..|b|] == b;
    BaseList.SegmentsCount(b);
    BaseList.SegmentIsStrippedSlice(b, 0);
    StripBetween(b, 0, e);
  }

  /** A list cut once, at c, is two segments: the text before the cut
      ending at e0, and the text after it running over [a1, e1), each
      without its surrounding whitespace. */
  lemma TwoSegmentsAt(b: string, c: nat, e0: nat, a1: nat, e1: nat)
    requires 0 < e0 <= c < a1 < e1 <= |b|
    requires BaseList.Cuts(b, |b|) == [c]
    requires !IsSpace(b[0]) && !IsSpace(b[e0 - 1]) && (forall k :: e0 <= k < c ==> IsSpace(b[k]))
    requires (forall k :: c < k < a1 ==> IsSpace(b[k])) && !IsSpace(b[a1]) && !IsSpace(b[e1 - 1])
    requires forall k :: e1 <= k < |b| ==> IsSpace(b[k])
    ensures BaseList.Segments(b) == [b[..e0], b[a1..e1]]
  {
    SegmentsTwo(b, c, a1);
    SegmentBeforeCut(b, c, e0);
    SegmentAfterCut(b, c, a1, e1);
  }

  lemma SegmentsTwo(b: string, c: nat, a1: nat)
    requires c < a1 < |b| && BaseList.Cuts(b, |b|) == [c] && !IsSpace(b[a1])
    ensures |BaseList.Segments(b)| == 2
  {
    assert b[c + 1..][a1 - c - 1] == b[a1];
    BaseList.SegmentsCount(b);
  }

  lemma SegmentBeforeCut(b: string, c: nat, e0: nat)
    requires 0 < e0 <= c < |b| && BaseList.Cuts(b, |b|) == [c] && |BaseList.Segments(b)| == 2
    requires !IsSpace(b[0]) && !IsSpace(b[e0 - 1]) && (forall k :: e0 <= k < c ==> IsSpace(b[k]))
    ensures BaseList.Segments(b)[0] == b[..e0]
  {
    var cs := BaseList.Cuts(b, |b|);
    assert BaseList.PieceStart(cs, 0) == 0 && BaseList.PieceEnd(cs, 0, |b|) == c;
    SegmentIsSlice(b, 0, 0, c, 0, e0);
    assert b[0..e0] == b[..e0];
  }

  lemma SegmentAfterCut(b: string, c: nat, a1: nat, e1: nat)
    requires c < a1 < e1 <= |b| && BaseList.Cuts(b, |b|) == [c] && |BaseList.Segments(b)| == 2
    requires (forall k :: c < k < a1 ==> IsSpace(b[k])) && !IsSpace(b[a1]) && !IsSpace(b[e1 - 1])
    requires forall k :: e1 <= k < |b| ==> IsSpace(b[k])
    ensures BaseList.Segments(b)[1] == b[a1..e1]
  {
    var cs := BaseList.Cuts(b, |b|);
    assert BaseList.PieceStart(cs, 1) == c + 1 && BaseList.PieceEnd(cs, 1, |b|) == |b|;
    SegmentIsSlice(b, 1, c + 1, |b|, a1, e1);
  }

  /** Segment k, cut out of b[s..t], is b[a..e] when only whitespace
      surrounds that slice. */
  lemma SegmentIsSlice(b: string, k: nat, s: nat, t: nat, a: nat, e: nat)
    requires k < |BaseList.Segments(b)| && k <= |BaseList.Cuts(b, |b|)|
    requires BaseList.PieceStart(BaseList.Cuts(b, |b|), k) == s && BaseList.PieceEnd(BaseList.Cuts(b, |b|), k, |b|) == t
    requires s <= a < e <= t <= |b|
    requires (forall i :: s <= i < a ==> IsSpace(b[i])) && !IsSpace(b[a])
    requires !IsSpace(b[e - 1]) && forall i :: e <= i < t ==> IsSpace(b[i])
    ensures BaseList.Segments(b)[k] == b[a..e]
  {
    BaseList.SegmentIsStrippedSlice(b, k);
    StripSlice(b, s, t, a, e);
  }

  /** Stripping b[s..t] keeps b[a..e] when only whitespace lies between. */
  lemma StripSlice(b: string, s: nat, t: nat, a: nat, e: nat)
    requires s <= a < e <= t <= |b|
    requires (forall k :: s <= k < a ==> IsSpace(b[k])) && !IsSpace(b[a])
    requires !IsSpace(b[e - 1]) && forall k :: e <= k < t ==> IsSpace(b[k])
    ensures Strip(b[s..t]) == b[a..e]
  {
    var p := b[s..t];
    assert forall k :: 0 <= k < a - s ==> IsSpace(p[k]);
    assert forall k :: e - s <= k < |p| ==> IsSpace(p[k]);
    StripBetween(p, a - s, e - s);
    SliceOfSlice(b, s, t, a - s, e - s);
  }

  /** A base list of two entries, `<s0><g0>,<g1><s1><trail>`. */
  function TwoBases(s0: string, g0: string, g1: string, s1: string, trail: string): (b: string)
    ensures |b| == |s0| + |g0| + 1 + |g1| + |s1| + |trail|
  {
    s0 + g0 + "," + g1 + s1 + trail
  }

  /** Where each part of a two-entry base list lies in it. */
  lemma TwoBasesParts(s0: string, g0: string, g1: string, s1: string, trail: string)
    ensures var b := TwoBases(s0, g0, g1, s1, trail);
      var c := |s0| + |g0|;
      var a1 := c + 1 + |g1|;
      var e1 := a1 + |s1|;
      && (forall k :: 0 <= k < |s0| ==> b[k] == s0[k])
      && (forall k :: |s0| <= k < c ==> b[k] == g0[k - |s0|])
      && b[c] == ','
      && (forall k :: c < k < a1 ==> b[k] == g1[k - c - 1])
      && (forall k :: a1 <= k < e1 ==> b[k] == s1[k - a1])
      && (forall k :: e1 <= k < |b| ==> b[k] == trail[k - e1])
      && b[..|s0|] == s0 && b[a1..e1] == s1
  {
  }

  /** Two stripped entries around one separating comma are the two
      segments. */
  lemma TwoSegmentsOf(s0: string, g0: string, g1: string, s1: string, trail: string)
    requires s0 != [] && IsStripped(s0) && s1 != [] && IsStripped(s1)
    requires AllSpace(g0) && AllSpace(g1) && AllSpace(trail)
    requires var b := TwoBases(s0, g0, g1, s1, trail); BaseList.Cuts(b, |b|) == [|s0| + |g0|]
    ensures BaseList.Segments(TwoBases(s0, g0, g1, s1, trail)) == [s0, s1]
  {
    var b := TwoBases(s0, g0, g1, s1, trail);
    var c := |s0| + |g0|;
    var a1 := c + 1 + |g1|;
    TwoBasesParts(s0, g0, g1, s1, trail);
    TwoSegmentsAt(b, c, |s0|, a1, a1 + |s1|);
  }

  /** Without angle brackets in the first entry and with no other comma,
      the list is cut at its one comma. */
  lemma PlainTwoBases(s0: string, g0: string, g1: string, s1: string, trail: string)
    requires AllSpace(g0) && AllSpace(g1) && AllSpace(trail)
    requires forall k :: 0 <= k < |s0| ==> s0[k] != ',' && s0[k] != '<' && s0[k] != '>'
    requires forall k :: 0 <= k < |s1| ==> s1[k] != ','
    ensures var b := TwoBases(s0, g0, g1, s1, trail); BaseList.Cuts(b, |b|) == [|s0| + |g0|]
  {
    TwoBasesParts(s0, g0, g1, s1, trail);
    OnlyComma(TwoBases(s0, g0, g1, s1, trail), |s0| + |g0|);
  }

  /** Entries free of '{' and ';' make a list free of them, starting with
      the first entry's first character. */
  lemma TwoBasesNoStop(s0: string, g0: string, g1: string, s1: string, trail: string)
    requires s0 != [] && AllSpace(g0) && AllSpace(g1) && AllSpace(trail)
    requires forall k :: 0 <= k < |s0| ==> s0[k] != '{' && s0[k] != ';'
    requires forall k :: 0 <= k < |s1| ==> s1[k] != '{' && s1[k] != ';'
    ensures var b := TwoBases(s0, g0, g1, s1, trail);
      b[0] == s0[0] && forall k :: 0 <= k < |b| ==> b[k] != '{' && b[k] != ';'
  {
    TwoBasesParts(s0, g0, g1, s1, trail);
  }

  /** A base list entry `public <n><tail>`. */
  function Public(n: string, tail: string): string {
    "public " + n + tail
  }

  /** Such an entry is stripped and free of '{' and ';' when its tail is;
      commas and angle brackets can only come from its tail. */
  lemma PublicShape(n: string, tail: string)
    requires n != [] && AllWord(n)
    requires tail == [] || !IsSpace(tail[|tail| - 1])
    requires forall k :: 0 <= k < |tail| ==> tail[k] != '{' && tail[k] != ';'
    ensures var s := Public(n, tail);
      && s != [] && IsStripped(s) && (forall k :: 0 <= k < |s| ==> s[k] != '{' && s[k] != ';')
      && (forall k :: 0 <= k < 7 + |n| ==> s[k] != ',' && s[k] != '<' && s[k] != '>')
      && (forall k :: 7 + |n| <= k < |s| ==> s[k] == tail[k - 7 - |n|])
  {
    var s := Public(n, tail);
    assert forall k :: 0 <= k < 7 ==> s[k] == "public "[k];
    assert forall k :: 7 <= k < 7 + |n| ==> s[k] == n[k - 7];
    assert forall k :: 7 + |n| <= k < |s| ==> s[k] == tail[k - 7 - |n|];
  }

  /** A capitalised word is no specifier (every specifier is lower case). */
  lemma Capitalized(w: string)
    requires w != [] && 'A' <= w[0] <= 'Z'
    ensures w !in BaseName.Specifiers
  {
  }

  /** `public `, a capitalised identifier, then anything that does not go
      on with a word character (template arguments, a qualifier, more
      tokens) names that identifier. */
  lemma PublicLead(n: string, tail: string)
    requires n != [] && AllWord(n) && 'A' <= n[0] <= 'Z'
    requires tail == [] || !IsWordChar(tail[0])
    ensures BaseName.ExtractBaseName(Public(n, tail)) == Some(n)
  {
    var u := n + tail;
    var first := FirstWordFrom(n, tail);
    assert Public(n, tail) == "public " + u;
    PublicWords(u);
    Capitalized(first);
    var tokens := ["public"] + Words(u);
    assert tokens[1..] == Words(u);
    assert BaseName.NonSpecifiers(tokens)[0] == first;
  }

  lemma PublicWords(u: string)
    ensures Words("public " + u) == ["public"] + Words(u)
  {
    assert "public " + u == "public" + (" " + u);
    assert NoSpace("public") && IsSpace((" " + u)[0]);
    WordsCons("public", " " + u);
    BaseName.WordsAfterOneSpace(u);
  }

  /** The first word of n + tail, for an identifier n, begins with n and
      has n as its leading word. */
  lemma FirstWordFrom(n: string, tail: string) returns (first: string)
    requires n != [] && AllWord(n)
    requires tail == [] || !IsWordChar(tail[0])
    ensures Words(n + tail) != [] && Words(n + tail)[0] == first
    ensures first != [] && first[0] == n[0] && LeadingWord(first) == n
  {
    var u := n + tail;
    var m := NonSpaceRun(n, tail);
    SkipSpaceAt(u, 0, 0);
    WordsStep(u, 0, m);
    first := u[0..m];
    var rest := tail[..m - |n|];
    assert first == n + rest;
    LeadingWordAppend(n, rest);
    WholeWord(n);
  }

  /** The run of non-whitespace at the start of n + tail covers n. */
  lemma NonSpaceRun(n: string, tail: string) returns (m: nat)
    requires n != [] && AllWord(n)
    ensures |n| <= m <= |n + tail| && SkipNonSpace(n + tail, 0) == m
  {
    var u := n + tail;
    m := SkipNonSpace(u, 0);
    assert forall k :: 0 <= k < |n| ==> u[k] == n[k] && !IsSpace(u[k]);
  }

  /** An identifier is its own leading word. */
  lemma WholeWord(n: string)
    requires AllWord(n)
    ensures LeadingWord(n) == n
  {
  }

  lemma SegmentPairsSnoc(child: string, init: seq<string>, last: string, n: string)
    requires BaseName.ExtractBaseName(last) == Some(n)
    ensures SegmentPairs(child, init + [last]) == SegmentPairs(child, init) + [Pair(child, n)]
  {
    assert (init + [last])[..|init|] == init;
  }

  lemma HeadPairsOne(text: string, h: Head)
    requires Fits(text, h)
    ensures HeadPairs(text, [h]) == SegmentPairs(Name(text, h), BaseList.Segments(Bases(text, h)))
  {
    assert [h][..0] == [];
  }

  /** A text with a single match yields that declaration's pairs. */
  lemma OneDeclaration(text: string, h: Head)
    requires DeclaredHeads(text) == [h] && Fits(text, h)
    ensures DeclarationPairs(text) == SegmentPairs(Name(text, h), BaseList.Segments(Bases(text, h)))
  {
    HeadPairsOne(text, h);
  }

  lemma OneDeclarationOneBase(text: string, h: Head, s0: string, n0: string)
    requires DeclaredHeads(text) == [h] && Fits(text, h)
    requires BaseList.Segments(Bases(text, h)) == [s0]
    requires BaseName.ExtractBaseName(s0) == Some(n0)
    ensures DeclarationPairs(text) == [Pair(Name(text, h), n0)]
  {
    OneDeclaration(text, h);
    SegmentPairsSnoc(Name(text, h), [], s0, n0);
    assert [] + [s0] == [s0];
  }

  lemma OneDeclarationTwoBases(text: string, h: Head, s0: string, s1: string, n0: string, n1: string)
    requires DeclaredHeads(text) == [h] && Fits(text, h)
    requires BaseList.Segments(Bases(text, h)) == [s0, s1]
    requires BaseName.ExtractBaseName(s0) == Some(n0) && BaseName.ExtractBaseName(s1) == Some(n1)
    ensures DeclarationPairs(text) == [Pair(Name(text, h), n0), Pair(Name(text, h), n1)]
  {
    OneDeclaration(text, h);
    TwoNamedSegments(Name(text, h), s0, s1, n0, n1);
  }

  lemma TwoNamedSegments(child: string, s0: string, s1: string, n0: string, n1: string)
    requires BaseName.ExtractBaseName(s0) == Some(n0) && BaseName.ExtractBaseName(s1) == Some(n1)
    ensures SegmentPairs(child, [s0, s1]) == [Pair(child, n0), Pair(child, n1)]
  {
    assert [s0, s1][..1] == [s0] && [s0][..0] == [];
    assert SegmentPairs(child, [s0]) == [Pair(child, n0)];
  }

  /** `public <n><tail>`, with n a capitalised identifier and the tail
      neither going on with a word character nor ending in whitespace. */
  predicate PublicEntry(n: string, tail: string) {
    && n != [] && AllWord(n) && 'A' <= n[0] <= 'Z'
    && (tail == [] || (!IsWordChar(tail[0]) && !IsSpace(tail[|tail| - 1])))
    && forall k :: 0 <= k < |tail| ==> tail[k] != '{' && tail[k] != ';'
  }

  /** A declaration whose base list is one `public` entry yields one pair. */
  lemma OnePublicDecl(name: string, gap: string, sp: string, n0: string, t0: string, trail: string)
    requires name != [] && AllWord(name) && AllSpace(gap) && sp != [] && AllSpace(sp)
    requires PublicEntry(n0, t0) && AllSpace(trail)
    requires forall k :: 0 <= k < |t0| ==> t0[k] != ','
    ensures DeclarationPairs(Declaration(name, gap, sp, Public(n0, t0) + trail)) == [Pair(name, n0)]
  {
    OnePublicBase(n0, t0, trail);
    PublicLead(n0, t0);
    var b := Public(n0, t0) + trail;
    var h := ClassDecl(name, gap, sp, b);
    OneDeclarationOneBase(Declaration(name, gap, sp, b), h, Public(n0, t0), n0);
  }

  /** One `public` entry followed by whitespace is one segment. */
  lemma OnePublicBase(n0: string, t0: string, trail: string)
    requires PublicEntry(n0, t0) && AllSpace(trail)
    requires forall k :: 0 <= k < |t0| ==> t0[k] != ','
    ensures var b := Public(n0, t0) + trail;
      && BaseList.Segments(b) == [Public(n0, t0)]
      && b != [] && !IsSpace(b[0]) && forall k :: 0 <= k < |b| ==> b[k] != '{' && b[k] != ';'
  {
    var s0 := Public(n0, t0);
    var b := s0 + trail;
    PublicShape(n0, t0);
    assert forall k :: 0 <= k < |s0| ==> b[k] == s0[k];
    assert forall k :: |s0| <= k < |b| ==> b[k] == trail[k - |s0|];
    OneSegmentAt(b, |s0|);
    assert b[..|s0|] == s0;
  }

  /** A declaration whose base list is two `public` entries, cut at the
      comma between them, yields one pair per entry, in order. */
  lemma TwoPublicDecl(name: string, gap: string, sp: string, n0: string, t0: string,
                      g0: string, g1: string, n1: string, t1: string, trail: string)
    requires name != [] && AllWord(name) && AllSpace(gap) && sp != [] && AllSpace(sp)
    requires PublicEntry(n0, t0) && PublicEntry(n1, t1)
    requires AllSpace(g0) && AllSpace(g1) && AllSpace(trail)
    requires var b := TwoBases(Public(n0, t0), g0, g1, Public(n1, t1), trail);
      BaseList.Cuts(b, |b|) == [|Public(n0, t0)| + |g0|]
    ensures var b := TwoBases(Public(n0, t0), g0, g1, Public(n1, t1), trail);
      DeclarationPairs(Declaration(name, gap, sp, b)) == [Pair(name, n0), Pair(name, n1)]
  {
    TwoPublicBases(n0, t0, g0, g1, n1, t1, trail);
    PublicLead(n0, t0);
    PublicLead(n1, t1);
    var b := TwoBases(Public(n0, t0), g0, g1, Public(n1, t1), trail);
    var h := ClassDecl(name, gap, sp, b);
    OneDeclarationTwoBases(Declaration(name, gap, sp, b), h, Public(n0, t0), Public(n1, t1), n0, n1);
  }

  /** Two `public` entries cut at the comma between them are two segments. */
  lemma TwoPublicBases(n0: string, t0: string, g0: string, g1: string, n1: string, t1: string, trail: string)
    requires PublicEntry(n0, t0) && PublicEntry(n1, t1)
    requires AllSpace(g0) && AllSpace(g1) && AllSpace(trail)
    requires var b := TwoBases(Public(n0, t0), g0, g1, Public(n1, t1), trail);
      BaseList.Cuts(b, |b|) == [|Public(n0, t0)| + |g0|]
    ensures var b := TwoBases(Public(n0, t0), g0, g1, Public(n1, t1), trail);
      && BaseList.Segments(b) == [Public(n0, t0), Public(n1, t1)]
      && b != [] && !IsSpace(b[0]) && forall k :: 0 <= k < |b| ==> b[k] != '{' && b[k] != ';'
  {
    var s0, s1 := Public(n0, t0), Public(n1, t1);
    PublicShape(n0, t0);
    PublicShape(n1, t1);
    TwoSegmentsOf(s0, g0, g1, s1, trail);
    TwoBasesNoStop(s0, g0, g1, s1, trail);
  }

  /** Two `public` entries whose first has no angle brackets and neither
      has a comma are cut at the comma between them. */
  lemma PlainPublicBases(n0: string, t0: string, g0: string, g1: string, n1: string, t1: string, trail: string)
    requires PublicEntry(n0, t0) && PublicEntry(n1, t1)
    requires AllSpace(g0) && AllSpace(g1) && AllSpace(trail)
    requires forall k :: 0 <= k < |t0| ==> t0[k] != ',' && t0[k] != '<' && t0[k] != '>'
    requires forall k :: 0 <= k < |t1| ==> t1[k] != ','
    ensures var b := TwoBases(Public(n0, t0), g0, g1, Public(n1, t1), trail);
      BaseList.Cuts(b, |b|) == [|Public(n0, t0)| + |g0|]
  {
    PublicShape(n0, t0);
    PublicShape(n1, t1);
    PlainTwoBases(Public(n0, t0), g0, g1, Public(n1, t1), trail);
  }

  // ---------------------------------------------------------------------
  // `class FlyingDog : public Dog, public Flyable {` (FlyingDog.h, line 5)

  const FlyingDogBases := TwoBases(Public("Dog", ""), "", " ", Public("Flyable", ""), " ")
  const FlyingDog := Declaration("FlyingDog", " ", " ", FlyingDogBases)

  /** The multiple-inheritance fixture gives one pair per base, in order. */
  lemma FlyingDogPairs()
    ensures DeclarationPairs(FlyingDog) == [Pair("FlyingDog", "Dog"), Pair("FlyingDog", "Flyable")]
  {
    PlainPublicBases("Dog", "", "", " ", "Flyable", "", " ");
    TwoPublicDecl("FlyingDog", " ", " ", "Dog", "", "", " ", "Flyable", "", " ");
  }

  // ---------------------------------------------------------------------
  // `class MultilineChild\n    : public Dog\n    , public Flyable {`
  // (MultilineChild.h, lines 5-7): a declaration spread over three lines

  const MultiBases := TwoBases(Public("Dog", ""), "\n    ", " ", Public("Flyable", ""), " ")
  const Multi := Declaration("MultilineChild", "\n    ", " ", MultiBases)

  /** A head spread over several lines gives the same pairs as on one:
      the line breaks before ':' and ',' are whitespace like any other. */
  lemma MultiPairs()
    ensures DeclarationPairs(Multi) == [Pair("MultilineChild", "Dog"), Pair("MultilineChild", "Flyable")]
  {
    PlainPublicBases("Dog", "", "\n    ", " ", "Flyable", "", " ");
    TwoPublicDecl("MultilineChild", "\n    ", " ", "Dog", "", "\n    ", " ", "Flyable", "", " ");
  }

  // ---------------------------------------------------------------------
  // `class StaticObjectInterface : public Base {` (Feature.h, line 6)

  const InterfaceBases := Public("Base", "") + " "
  const Interface := Declaration("StaticObjectInterface", " ", " ", InterfaceBases)

  /** A single base gives a single pair. */
  lemma InterfacePairs()
    ensures DeclarationPairs(Interface) == [Pair("StaticObjectInterface", "Base")]
  {
    OnePublicDecl("StaticObjectInterface", " ", " ", "Base", "", " ");
  }

  // ---------------------------------------------------------------------
  // `class Flyable {` (Flyable.h, line 3): no base list

  const Flyable := "class Flyable {"

  /** A class without bases contributes no pair. */
  lemma FlyablePairs()
    ensures DeclarationPairs(Flyable) == []
  {
    NoColonNoPairs(Flyable);
  }

  // ---------------------------------------------------------------------
  // `class __declspec(dllexport) Widget final : public Base {`: one
  // decoration token with a parenthesised argument before the name, and
  // `final` before the colon

  const WidgetMacro := "__declspec(dllexport) "
  const Widget := "class " + WidgetMacro + "Widget" + " final : " + InterfaceBases + "{"

  /** Where the parts of five concatenated strings lie. */
  lemma FiveParts(a: string, b: string, c: string, d: string, e: string)
    ensures var s := a + b + c + d + e;
      && s[|a|..|a| + |b|] == b && s[|a| + |b|..|a| + |b| + |c|] == c
      && s[|a| + |b| + |c|..|a| + |b| + |c| + |d|] == d
  {
  }

  /** The keyword and the decoration token. */
  lemma WidgetLeadChars()
    ensures var t := Widget;
      && |t| == 56 && t[0..5] == "class" && IsSpace(t[5])
      && (forall k :: 6 <= k < 16 ==> IsWordChar(t[k])) && t[16] == '('
      && (forall k :: 17 <= k < 26 ==> t[k] != ')') && t[26] == ')' && IsSpace(t[27])
  {
  }

  /** The name, `final`, the colon and the base list. */
  lemma WidgetNameChars()
    ensures var t := Widget;
      && |t| == 56 && (forall k :: 28 <= k < 34 ==> IsWordChar(t[k])) && IsSpace(t[34])
      && t[35..40] == "final" && IsSpace(t[40]) && t[41] == ':' && IsSpace(t[42]) && !IsSpace(t[43])
      && (forall k :: 43 <= k < 55 ==> t[k] != '{' && t[k] != ';') && t[55] == '{'
  {
    FiveParts("class " + WidgetMacro, "Widget", " final : ", InterfaceBases, "{");
    SliceOfSlice(Widget, 34, 43, 1, 6);
  }

  /** The name is not tried at `__declspec`, which is followed by '(':
      the token and its argument are consumed as a decoration instead. */
  lemma WidgetDecoration()
    ensures NameAndBases(Widget, 0, 6) == None && MacroEnd(Widget, 6) == Some(28)
  {
    var t := Widget;
    WidgetLeadChars();
    assert SkipWord(t, 6) == 16;
    SkipSpaceAt(t, 16, 16);
    assert t[16..21][0] == t[16];
    assert FindCloseParen(t, 17) == 26;
    SkipSpaceAt(t, 27, 28);
  }

  /** At `Widget` the name, `final` and the colon all match. */
  lemma WidgetName()
    ensures NameAndBases(Widget, 0, 28) == Some(Head(0, 28, 34, 41, 43, 55))
  {
    var t := Widget;
    WidgetNameChars();
    assert SkipWord(t, 28) == 34;
    SkipSpaceAt(t, 34, 35);
    SkipSpaceAt(t, 40, 41);
    assert ColonAfter(t, 34) == Some(41);
    SkipSpaceAt(t, 42, 43);
    assert FindStop(t, 43) == 55;
  }

  lemma WidgetHead()
    ensures DeclaredHeads(Widget) == [Head(0, 28, 34, 41, 43, 55)]
  {
    var t := Widget;
    WidgetLeadChars();
    WidgetDecoration();
    WidgetName();
    SkipSpaceAt(t, 5, 6);
    assert HeadFrom(t, 0, 28) == Some(Head(0, 28, 34, 41, 43, 55));
    assert HeadAt(t, 0) == Some(Head(0, 28, 34, 41, 43, 55));
    OnlyHead(t, Head(0, 28, 34, 41, 43, 55));
  }

  /** The decoration and `final` are skipped: the pair names `Widget`. */
  lemma WidgetPairs()
    ensures DeclarationPairs(Widget) == [Pair("Widget", "Base")]
  {
    var h := Head(0, 28, 34, 41, 43, 55);
    WidgetHead();
    FiveParts("class " + WidgetMacro, "Widget", " final : ", InterfaceBases, "{");
    assert Name(Widget, h) == "Widget" && Bases(Widget, h) == InterfaceBases;
    OnePublicBase("Base", "", " ");
    PublicLead("Base", "");
    OneDeclarationOneBase(Widget, h, Public("Base", ""), "Base");
  }

  // ---------------------------------------------------------------------
  // `class Feature : public StaticObjectInterface<Feature, Animal>, public Flyable {`
  // (Feature.h, line 9): a comma inside template arguments

  const FeatureArgs := "<Feature, Animal>"
  const FeatureBases := TwoBases(Public("StaticObjectInterface", FeatureArgs), "", " ", Public("Flyable", ""), " ")
  const Feature := Declaration("Feature", " ", " ", FeatureBases)

  /** Where the brackets and commas of the template arguments lie. */
  lemma FeatureArgsChars()
    ensures var t := FeatureArgs;
      && |t| == 17 && t[0] == '<' && t[8] == ',' && t[16] == '>'
      && forall k :: 0 <= k < |t| && (t[k] == ',' || t[k] == '<' || t[k] == '>') ==> k == 0 || k == 8 || k == 16
  {
  }

  /** The same positions within the whole base list. */
  lemma FeatureChars()
    ensures var b := FeatureBases;
      && |b| == 62 && b[28] == '<' && b[36] == ',' && b[44] == '>' && b[45] == ','
      && (forall k :: 0 <= k < 28 ==> b[k] != '<' && b[k] != '>')
      && (forall k :: 29 <= k < 44 ==> b[k] != '<' && b[k] != '>')
      && (forall k :: 0 <= k < |b| && b[k] == ',' ==> k == 36 || k == 45)
  {
    var s0, s1 := Public("StaticObjectInterface", FeatureArgs), Public("Flyable", "");
    PublicShape("StaticObjectInterface", FeatureArgs);
    PublicShape("Flyable", "");
    TwoBasesParts(s0, "", " ", s1, " ");
    FeatureArgsChars();
  }

  /** The comma between `Feature` and `Animal` is read at depth one and
      does not cut the list; the one after `>` does. */
  lemma FeatureCuts()
    ensures BaseList.Cuts(FeatureBases, |FeatureBases|) == [45]
  {
    var b := FeatureBases;
    FeatureChars();
    DepthFlat(b, 0, 28);
    assert BaseList.Depth(b, 29) == 1;
    DepthFlat(b, 29, 36);
    DepthFlat(b, 29, 44);
    assert BaseList.Depth(b, 45) == 0;
    assert !BaseList.IsSeparator(b, 36);
    BaseList.OneSeparator(b, 45);
  }

  /** A templated base is reported by its template name, and its
      arguments add no pair. */
  lemma FeaturePairs()
    ensures DeclarationPairs(Feature) == [Pair("Feature", "StaticObjectInterface"), Pair("Feature", "Flyable")]
  {
    FeatureCuts();
    TwoPublicDecl("Feature", " ", " ", "StaticObjectInterface", FeatureArgs, "", " ", "Flyable", "", " ");
  }

  // ---------------------------------------------------------------------
  // `class CRTPChild : public Animal, public CRTPBase<CRTPChild> {`
  // (CRTPChild.h, line 5)

  const CrtpBases := TwoBases(Public("Animal", ""), "", " ", Public("CRTPBase", "<CRTPChild>"), " ")
  const Crtp := Declaration("CRTPChild", " ", " ", CrtpBases)

  /** A base that takes the child as its template argument is still
      reported by its template name: the child is not its own parent. */
  lemma CrtpPairs()
    ensures DeclarationPairs(Crtp) == [Pair("CRTPChild", "Animal"), Pair("CRTPChild", "CRTPBase")]
  {
    PlainPublicBases("Animal", "", "", " ", "CRTPBase", "<CRTPChild>", " ");
    TwoPublicDecl("CRTPChild", " ", " ", "Animal", "", "", " ", "CRTPBase", "<CRTPChild>", " ");
  }

  // ---------------------------------------------------------------------
  // _extract_base_name("virtual public Base<T>") == "Base"

  const VirtualSegment := "virtual public Base<T>"
  const VirtualTokens := ["virtual", "public", "Base<T>"]

  lemma VirtualSegmentJoined()
    ensures BaseName.JoinSpaces(VirtualTokens) == VirtualSegment
  {
    BaseName.JoinSpacesCons(VirtualTokens);
    BaseName.JoinSpacesCons(VirtualTokens[1..]);
    assert VirtualTokens[1..][1..] == ["Base<T>"];
  }

  lemma VirtualSegmentWords()
    ensures Words(VirtualSegment) == VirtualTokens
  {
    VirtualSegmentJoined();
    assert forall i :: 0 <= i < |VirtualTokens| ==> VirtualTokens[i] != [] && NoSpace(VirtualTokens[i]);
    BaseName.WordsJoinSpaces(VirtualTokens);
  }

  lemma VirtualSegmentFiltered()
    ensures BaseName.NonSpecifiers(VirtualTokens) == [VirtualTokens[2]]
  {
    assert VirtualTokens[0] in BaseName.Specifiers && VirtualTokens[1] in BaseName.Specifiers;
    Capitalized(VirtualTokens[2]);
    assert VirtualTokens[1..][1..] == [VirtualTokens[2]] && VirtualTokens[1..][1..][1..] == [];
  }

  lemma TemplateNameCut()
    ensures LeadingWord(VirtualTokens[2]) == "Base"
  {
    var w := VirtualTokens[2];
    assert w[..4] == "Base" && !IsWordChar(w[4]);
    assert AllWord(w[..4]);
    var r := LeadingWord(w);
    assert r == w[..|r|];
  }

  /** Both specifiers are dropped and the template arguments cut off. */
  lemma VirtualBaseName()
    ensures BaseName.ExtractBaseName(VirtualSegment) == Some("Base")
  {
    VirtualSegmentWords();
    VirtualSegmentFiltered();
    TemplateNameCut();
  }

  // ---------------------------------------------------------------------
  // _split_base_list("A<B,C>, D") == ["A<B,C>", "D"]

  const TemplateList := "A<B,C>, D"

  lemma TemplateListCuts()
    ensures BaseList.Cuts(TemplateList, |TemplateList|) == [6]
  {
    assert BaseList.Depth(TemplateList, 2) == 1;
    assert BaseList.Depth(TemplateList, 5) == 1;
    assert BaseList.Depth(TemplateList, 6) == 0;
    assert BaseList.Cuts(TemplateList, 6) == [];
    assert BaseList.Cuts(TemplateList, 7) == [6];
  }

  lemma TemplateListAsSlices()
    ensures BaseList.Segments(TemplateList) == [TemplateList[..6], TemplateList[8..9]]
  {
    var b := TemplateList;
    TemplateListCuts();
    assert !IsSpace(b[0]) && !IsSpace(b[5]) && IsSpace(b[7]) && !IsSpace(b[8]);
    TwoSegmentsAt(b, 6, 6, 8, 9);
  }

  lemma TemplateListSlices()
    ensures TemplateList[..6] == "A<B,C>" && TemplateList[8..9] == "D"
  {
  }

  /** The comma inside the angle brackets does not split the list. */
  lemma TemplateListSegments()
    ensures BaseList.Segments(TemplateList) == ["A<B,C>", "D"]
  {
    TemplateListAsSlices();
    TemplateListSlices();
  }
}
