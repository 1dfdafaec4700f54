/** Character classes, whitespace stripping and splitting, and Python's
    string ordering, as used by the declaration extractor and the tree builder. */
module Text {

  datatype Option<T> = None | Some(value: T)

  /** Python's str.isspace(), which is also what the regex class \s matches
      on str patterns. */
  predicate IsSpace(c: char) {
    ('\t' <= c <= '\r') || ('\U{1C}' <= c <= '\U{1F}') || c == ' '
    || c == '\U{85}' || c == '\U{A0}' || c == '\U{1680}'
    || ('\U{2000}' <= c <= '\U{200A}') || c == '\U{2028}' || c == '\U{2029}'
    || c == '\U{202F}' || c == '\U{205F}' || c == '\U{3000}'
  }

  /** The regex class \w, restricted to ASCII. */
  predicate IsWordChar(c: char) {
    ('a' <= c <= 'z') || ('A' <= c <= 'Z') || ('0' <= c <= '9') || c == '_'
  }

  predicate AllSpace(s: string) {
    forall i :: 0 <= i < |s| ==> IsSpace(s[i])
  }

  predicate NoSpace(s: string) {
    forall i :: 0 <= i < |s| ==> !IsSpace(s[i])
  }

  predicate AllWord(s: string) {
    forall i :: 0 <= i < |s| ==> IsWordChar(s[i])
  }

  /** Neither end of s is whitespace. */
  predicate IsStripped(s: string) {
    s == [] || (!IsSpace(s[0]) && !IsSpace(s[|s| - 1]))
  }

  /** The end of the run of whitespace that starts at i: the first index
      at or after i that is not whitespace, or |s|. */
  function SkipSpace(s: string, i: nat): (j: nat)
    requires i <= |s|
    ensures i <= j <= |s|
    ensures forall k :: i <= k < j ==> IsSpace(s[k])
    ensures j == |s| || !IsSpace(s[j])
    decreases |s| - i
  {
    if i < |s| && IsSpace(s[i]) then SkipSpace(s, i + 1) else i
  }

  /** The end of the run of non-whitespace that starts at i. */
  function SkipNonSpace(s: string, i: nat): (j: nat)
    requires i <= |s|
    ensures i <= j <= |s|
    ensures forall k :: i <= k < j ==> !IsSpace(s[k])
    ensures j == |s| || IsSpace(s[j])
    decreases |s| - i
  {
    if i < |s| && !IsSpace(s[i]) then SkipNonSpace(s, i + 1) else i
  }

  /** The start of the run of whitespace that ends at e: the index just
      past the last character before e that is not whitespace, or 0. */
  function BackSpace(s: string, e: nat): (j: nat)
    requires e <= |s|
    ensures j <= e
    ensures forall k :: j <= k < e ==> IsSpace(s[k])
    ensures j == 0 || !IsSpace(s[j - 1])
  {
    if e > 0 && IsSpace(s[e - 1]) then BackSpace(s, e - 1) else e
  }

  /** The three runs end exactly where their defining property says. */
  lemma SkipSpaceAt(s: string, i: nat, j: nat)
    requires i <= j <= |s| && (forall k :: i <= k < j ==> IsSpace(s[k]))
    requires j == |s| || !IsSpace(s[j])
    ensures SkipSpace(s, i) == j
  {
  }

  lemma SkipNonSpaceAt(s: string, i: nat, j: nat)
    requires i <= j <= |s| && (forall k :: i <= k < j ==> !IsSpace(s[k]))
    requires j == |s| || IsSpace(s[j])
    ensures SkipNonSpace(s, i) == j
  {
  }

  lemma BackSpaceAt(s: string, e: nat, j: nat)
    requires j <= e <= |s| && (forall k :: j <= k < e ==> IsSpace(s[k]))
    requires j == 0 || !IsSpace(s[j - 1])
    ensures BackSpace(s, e) == j
  {
  }

  /** str.strip(): s without the whitespace at either end (StripBetween
      says which slice that is). */
  function Strip(s: string): (r: string)
    ensures IsStripped(r)
    ensures r == [] <==> AllSpace(s)
  {
    var a := SkipSpace(s, 0);
    if a == |s| then []
    else
      var e := BackSpace(s, |s|);
      assert a < e;
      s[a..e]
  }

  /** Strip keeps exactly the part between leading and trailing whitespace
      whose ends are not whitespace. */
  lemma StripBetween(s: string, a: nat, e: nat)
    requires a < e <= |s|
    requires forall k :: 0 <= k < a ==> IsSpace(s[k])
    requires forall k :: e <= k < |s| ==> IsSpace(s[k])
    requires !IsSpace(s[a]) && !IsSpace(s[e - 1])
    ensures Strip(s) == s[a..e]
  {
    SkipSpaceAt(s, 0, a);
    BackSpaceAt(s, |s|, e);
  }

  /** str.split() with no separator: the maximal whitespace-free runs of s,
      in order. */
  function Words(s: string): (ws: seq<string>)
    ensures forall i :: 0 <= i < |ws| ==> ws[i] != [] && NoSpace(ws[i])
    ensures AllSpace(s) <==> ws == []
    decreases |s|
  {
    var a := SkipSpace(s, 0);
    if a == |s| then []
    else
      var n := SkipNonSpace(s, a);
      assert s[a..n][0] == s[a];
      [s[a..n]] + Words(s[n..])
  }

  /** The first word of s is the run of non-whitespace at the first
      non-whitespace character. */
  lemma WordsStep(s: string, a: nat, n: nat)
    requires a < |s| && SkipSpace(s, 0) == a && SkipNonSpace(s, a) == n
    ensures Words(s) == [s[a..n]] + Words(s[n..])
  {
  }

  lemma WordsNone(s: string)
    requires SkipSpace(s, 0) == |s|
    ensures Words(s) == []
  {
  }

  /** Leading whitespace does not change the words. */
  lemma WordsAfterSpace(sp: string, s: string)
    requires AllSpace(sp)
    ensures Words(sp + s) == Words(s)
  {
    var a := SkipSpace(s, 0);
    assert SkipSpace(sp + s, 0) == |sp| + a by {
      SkipSpaceAt(sp + s, 0, |sp| + a);
    }
    if a < |s| {
      WordsAfterSpaceWord(sp, s, a);
    } else {
      WordsNone(s);
      WordsNone(sp + s);
    }
  }

  lemma WordsAfterSpaceWord(sp: string, s: string, a: nat)
    requires a < |s| && SkipSpace(s, 0) == a && SkipSpace(sp + s, 0) == |sp| + a
    ensures Words(sp + s) == Words(s)
  {
    var t := sp + s;
    var n := SkipNonSpace(s, a);
    assert SkipNonSpace(t, |sp| + a) == |sp| + n by {
      SkipNonSpaceAt(t, |sp| + a, |sp| + n);
    }
    ShiftedSlices(sp, s, a, n);
    WordsAgree(t, s, |sp| + a, |sp| + n, a, n);
  }

  /** Two texts whose first words agree and whose rests agree have the
      same words. */
  lemma WordsAgree(t: string, s: string, at: nat, nt: nat, a: nat, n: nat)
    requires at < |t| && SkipSpace(t, 0) == at && SkipNonSpace(t, at) == nt
    requires a < |s| && SkipSpace(s, 0) == a && SkipNonSpace(s, a) == n
    requires t[at..nt] == s[a..n] && t[nt..] == s[n..]
    ensures Words(t) == Words(s)
  {
    WordsStep(s, a, n);
    WordsStep(t, at, nt);
  }

  lemma ShiftedSlices(sp: string, s: string, a: nat, n: nat)
    requires a <= n <= |s|
    ensures (sp + s)[|sp| + a..|sp| + n] == s[a..n] && (sp + s)[|sp| + n..] == s[n..]
  {
  }

  /** A whitespace-free token followed by whitespace or the end is the
      first word. */
  lemma WordsCons(w: string, s: string)
    requires w != [] && NoSpace(w) && (s == [] || IsSpace(s[0]))
    ensures Words(w + s) == [w] + Words(s)
  {
    var t := w + s;
    SkipSpaceAt(t, 0, 0);
    SkipNonSpaceAt(t, 0, |w|);
    assert t[0..|w|] == w && t[|w|..] == s;
  }

  /** The longest prefix of s made of word characters (what `\w+`, or
      nothing, matches at the start of s). */
  function LeadingWord(s: string): (w: string)
    ensures w <= s && AllWord(w)
    ensures |w| == |s| || !IsWordChar(s[|w|])
  {
    if s == [] || !IsWordChar(s[0]) then []
    else
      var w := [s[0]] + LeadingWord(s[1..]);
      assert s == [s[0]] + s[1..];
      w
  }

  /** Appending text that does not begin with a word character does not
      change the leading word. */
  lemma {:induction false} LeadingWordAppend(s: string, t: string)
    requires t == [] || !IsWordChar(t[0])
    ensures LeadingWord(s + t) == LeadingWord(s)
  {
    if s == [] {
      assert s + t == t;
    } else if IsWordChar(s[0]) {
      assert (s + t)[1..] == s[1..] + t;
      LeadingWordAppend(s[1..], t);
    }
  }

  /** Python's `a < b` on str: lexicographic by code point, a proper prefix
      coming first. */
  predicate LexLess(a: string, b: string)
    decreases |a|
  {
    if b == [] then false
    else if a == [] then true
    else if a[0] != b[0] then a[0] < b[0]
    else LexLess(a[1..], b[1..])
  }

  predicate LexLessEq(a: string, b: string) {
    a == b || LexLess(a, b)
  }

  lemma {:induction false} LexLessIrreflexive(a: string)
    ensures !LexLess(a, a)
  {
    if a != [] {
      LexLessIrreflexive(a[1..]);
    }
  }

  lemma {:induction false} LexLessTransitive(a: string, b: string, c: string)
    requires LexLess(a, b) && LexLess(b, c)
    ensures LexLess(a, c)
  {
    if a != [] && a[0] == b[0] && b[0] == c[0] {
      LexLessTransitive(a[1..], b[1..], c[1..]);
    }
  }

  lemma {:induction false} LexLessTotal(a: string, b: string)
    requires a != b
    ensures LexLess(a, b) || LexLess(b, a)
  {
    if a != [] && b != [] && a[0] == b[0] {
      assert a == [a[0]] + a[1..] && b == [b[0]] + b[1..];
      LexLessTotal(a[1..], b[1..]);
    }
  }

  lemma LexLessAsymmetric(a: string, b: string)
    requires LexLess(a, b)
    ensures !LexLess(b, a)
  {
    if LexLess(b, a) {
      LexLessTransitive(a, b, a);
      LexLessIrreflexive(a);
    }
  }

  predicate SortedLex(s: seq<string>) {
    forall i, j :: 0 <= i < j < |s| ==> LexLessEq(s[i], s[j])
  }

  /** Strictly increasing: sorted and free of duplicates. */
  predicate StrictlySortedLex(s: seq<string>) {
    forall i, j :: 0 <= i < j < |s| ==> LexLess(s[i], s[j])
  }

  /** Every element of a sorted list is at least its head. */
  lemma SortedHeadIsLeast(s: seq<string>, y: string)
    requires SortedLex(s) && s != [] && y in multiset(s)
    ensures LexLessEq(s[0], y)
  {
    var j :| 0 <= j < |s| && s[j] == y;
    if j > 0 {
      assert LexLessEq(s[0], s[j]);
    }
  }

  function Insert(x: string, s: seq<string>): (r: seq<string>)
    requires SortedLex(s)
    ensures SortedLex(r)
    ensures multiset(r) == multiset(s) + multiset{x}
  {
    if s == [] then [x]
    else if LexLessEq(x, s[0]) then
      InsertFront(x, s);
      [x] + s
    else
      var rest := Insert(x, s[1..]);
      InsertBehind(x, s, rest);
      [s[0]] + rest
  }

  lemma InsertFront(x: string, s: seq<string>)
    requires SortedLex(s) && s != [] && LexLessEq(x, s[0])
    ensures SortedLex([x] + s)
  {
    forall j | 0 < j < |s| ensures LexLessEq(x, s[j]) {
      if x != s[0] && s[0] != s[j] {
        LexLessTransitive(x, s[0], s[j]);
      }
    }
  }

  lemma InsertBehind(x: string, s: seq<string>, rest: seq<string>)
    requires SortedLex(s) && s != [] && !LexLessEq(x, s[0])
    requires SortedLex(rest) && multiset(rest) == multiset(s[1..]) + multiset{x}
    ensures SortedLex([s[0]] + rest)
    ensures multiset([s[0]] + rest) == multiset(s) + multiset{x}
  {
    assert s == [s[0]] + s[1..];
    LexLessTotal(x, s[0]);
    forall j | 0 <= j < |rest| ensures LexLessEq(s[0], rest[j]) {
      var y := rest[j];
      assert y in multiset(rest);
      if y != x {
        assert y in multiset(s);
        SortedHeadIsLeast(s, y);
      }
    }
    var r := [s[0]] + rest;
    forall i, j | 0 <= i < j < |r| ensures LexLessEq(r[i], r[j]) {
      if i > 0 {
        assert r[i] == rest[i - 1] && r[j] == rest[j - 1];
      }
    }
  }

  /** Python's sorted() on a list of str. */
  function SortNames(s: seq<string>): (r: seq<string>)
    ensures SortedLex(r)
    ensures multiset(r) == multiset(s)
  {
    if s == [] then []
    else
      assert s == [s[0]] + s[1..];
      Insert(s[0], SortNames(s[1..]))
  }
}
