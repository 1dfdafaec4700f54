/** Reading the base-class name out of one segment of a base list
    (_extract_base_name). */
module BaseName {
  import opened Text

  /** The tokens dropped from a segment before the name is read. */
  const Specifiers: set<string> := {"public", "protected", "private", "virtual"}

  /** The tokens that are not access specifiers or `virtual`, in order: the
      first one kept is the first token that is not a specifier. */
  function NonSpecifiers(tokens: seq<string>): (r: seq<string>)
    ensures |r| <= |tokens|
    ensures forall t :: t in r <==> t in tokens && t !in Specifiers
    ensures (forall i :: 0 <= i < |tokens| ==> tokens[i] != []) ==>
      forall i :: 0 <= i < |r| ==> r[i] != []
    ensures r != [] ==> exists i :: 0 <= i < |tokens| && r[0] == tokens[i] && forall j :: 0 <= j < i ==> tokens[j] in Specifiers
  {
    if tokens == [] then []
    else
      var rest := NonSpecifiers(tokens[1..]);
      assert tokens == [tokens[0]] + tokens[1..];
      if tokens[0] in Specifiers then rest else [tokens[0]] + rest
  }

  /** The tokens joined with single spaces (" ".join). */
  function JoinSpaces(tokens: seq<string>): string {
    if tokens == [] then ""
    else if |tokens| == 1 then tokens[0]
    else tokens[0] + " " + JoinSpaces(tokens[1..])
  }

  /** Splitting undoes joining: whitespace-free, non-empty tokens joined
      with single spaces split back into the same tokens. */
  lemma {:induction false} WordsJoinSpaces(tokens: seq<string>)
    requires forall i :: 0 <= i < |tokens| ==> tokens[i] != [] && NoSpace(tokens[i])
    ensures Words(JoinSpaces(tokens)) == tokens
  {
    if |tokens| == 1 {
      WordsOfToken(tokens[0]);
    } else if |tokens| > 1 {
      var tail := tokens[1..];
      forall i | 0 <= i < |tail| ensures tail[i] != [] && NoSpace(tail[i]) {
        assert tail[i] == tokens[i + 1];
      }
      WordsJoinSpaces(tail);
      WordsJoinStep(tokens);
    }
  }

  lemma WordsOfToken(w: string)
    requires w != [] && NoSpace(w)
    ensures Words(w) == [w]
  {
    WordsCons(w, []);
    assert w + [] == w;
  }

  lemma JoinSpacesCons(tokens: seq<string>)
    requires |tokens| > 1
    ensures JoinSpaces(tokens) == tokens[0] + (" " + JoinSpaces(tokens[1..]))
  {
  }

  lemma WordsAfterOneSpace(s: string)
    ensures Words(" " + s) == Words(s)
  {
    WordsAfterSpace(" ", s);
  }

  lemma WordsJoinStep(tokens: seq<string>)
    requires |tokens| > 1 && tokens[0] != [] && NoSpace(tokens[0])
    requires Words(JoinSpaces(tokens[1..])) == tokens[1..]
    ensures Words(JoinSpaces(tokens)) == tokens
  {
    var rest := JoinSpaces(tokens[1..]);
    JoinSpacesCons(tokens);
    WordsCons(tokens[0], " " + rest);
    WordsAfterOneSpace(rest);
    assert [tokens[0]] + tokens[1..] == tokens;
  }

  /** The joined text begins with the first token followed by a space or
      the end, so its leading word is the first token's. */
  lemma JoinSpacesLeadingWord(tokens: seq<string>)
    requires tokens != []
    ensures LeadingWord(JoinSpaces(tokens)) == LeadingWord(tokens[0])
  {
    if |tokens| > 1 {
      assert JoinSpaces(tokens) == tokens[0] + (" " + JoinSpaces(tokens[1..]));
      LeadingWordAppend(tokens[0], " " + JoinSpaces(tokens[1..]));
    } else {
      assert JoinSpaces(tokens) == tokens[0] + "";
    }
  }

  /** _extract_base_name: the leading identifier of what is left once the
      specifier tokens are removed, or None. The name is the first
      remaining token's run of word characters, so template arguments and
      `::` qualifiers are cut off; None when every token is a specifier or
      that token does not start with a word character. */
  function ExtractBaseName(segment: string): (r: Option<string>)
    ensures var rest := NonSpecifiers(Words(segment));
      r.None? <==> (rest == [] || !IsWordChar(rest[0][0]))
    ensures var rest := NonSpecifiers(Words(segment));
      r.Some? ==> rest != [] && r.value == LeadingWord(rest[0])
    ensures r.Some? ==> r.value != [] && AllWord(r.value)
  {
    var filtered := NonSpecifiers(Words(segment));
    if filtered == [] then None
    else
      var nameText := JoinSpaces(filtered);
      JoinSpacesLeadingWord(filtered);
      var w := LeadingWord(nameText);
      if w == [] then None else Some(w)
  }

  /** On a segment that is whitespace-free tokens separated by single
      spaces, the name is read from the first token that is not a
      specifier. */
  lemma ExtractFromTokens(tokens: seq<string>)
    requires forall i :: 0 <= i < |tokens| ==> tokens[i] != [] && NoSpace(tokens[i])
    ensures var rest := NonSpecifiers(tokens);
      ExtractBaseName(JoinSpaces(tokens))
        == if rest == [] || !IsWordChar(rest[0][0]) then None else Some(LeadingWord(rest[0]))
  {
    WordsJoinSpaces(tokens);
  }

  /** A specifier followed by a plain identifier names that identifier:
      `public Dog` gives `Dog`. */
  lemma SpecifierThenName(spec: string, name: string)
    requires spec in Specifiers && name !in Specifiers
    requires name != [] && AllWord(name)
    ensures ExtractBaseName(spec + " " + name) == Some(name)
  {
    var tokens := [spec, name];
    assert NoSpace(spec);
    ExtractFromTokens(tokens);
    JoinSpacesCons(tokens);
    assert tokens[1..] == [name];
    assert NonSpecifiers(tokens[1..][1..]) == [];
    assert NonSpecifiers(tokens) == [name];
    assert LeadingWord(name) == name;
  }
}
