/** Splitting the raw base-class list of a declaration on the commas that
    are not inside template angle brackets (_split_base_list). */
module BaseList {
  import opened Text

  /** What one character does to the angle-bracket depth. */
  function Step(c: char): int {
    if c == '<' then 1 else if c == '>' then -1 else 0
  }

  /** The depth in force when raw[n] is read: the number of '<' minus the
      number of '>' in raw[..n]. Nothing keeps it from going negative. */
  function Depth(raw: string, n: nat): int
    requires n <= |raw|
  {
    if n == 0 then 0 else Depth(raw, n - 1) + Step(raw[n - 1])
  }

  /** raw[i] is a comma read at depth exactly zero: the list is split there. */
  predicate IsSeparator(raw: string, i: int) {
    0 <= i < |raw| && raw[i] == ',' && Depth(raw, i) == 0
  }

  /** The separator positions in raw[..n] (CutsComplete: all of them;
      CutsAscending: in increasing order). */
  function Cuts(raw: string, n: nat): (cs: seq<nat>)
    requires n <= |raw|
    ensures forall k :: 0 <= k < |cs| ==> cs[k] < n && IsSeparator(raw, cs[k])
  {
    if n == 0 then []
    else Cuts(raw, n - 1) + (if IsSeparator(raw, n - 1) then [n - 1] else [])
  }

  /** The positions in cs strictly increase. */
  predicate Ascending(cs: seq<nat>) {
    forall k, l :: 0 <= k < l < |cs| ==> cs[k] < cs[l]
  }

  lemma {:induction false} CutsAscending(raw: string, n: nat)
    requires n <= |raw|
    ensures Ascending(Cuts(raw, n))
  {
    if n > 0 {
      CutsAscending(raw, n - 1);
      var cs := Cuts(raw, n - 1);
      var last: seq<nat> := if IsSeparator(raw, n - 1) then [n - 1] else [];
      assert Cuts(raw, n) == cs + last;
      forall k, l | 0 <= k < l < |cs + last| ensures (cs + last)[k] < (cs + last)[l] {
        assert (cs + last)[k] == cs[k] && cs[k] < n - 1;
        if l < |cs| {
          assert (cs + last)[l] == cs[l];
        } else {
          assert (cs + last)[l] == n - 1;
        }
      }
    }
  }

  /** Every separator below n is among the cuts of raw[..n]. */
  lemma {:induction false} CutsComplete(raw: string, n: nat, i: nat)
    requires i < n <= |raw| && IsSeparator(raw, i)
    ensures i in Cuts(raw, n)
  {
    if i < n - 1 {
      CutsComplete(raw, n - 1, i);
    }
  }

  function PieceStart(cs: seq<nat>, k: nat): nat
    requires k <= |cs|
  {
    if k == 0 then 0 else cs[k - 1] + 1
  }

  /** The pieces of raw[..n] left between separators, unstripped: reading a
      separator opens a new empty piece, any other character extends the
      last one. PieceIsSlice states which slice of raw each piece is. */
  function Pieces(raw: string, n: nat): (ps: seq<string>)
    requires n <= |raw|
    ensures |ps| == |Cuts(raw, n)| + 1
  {
    if n == 0 then [""]
    else
      var ps := Pieces(raw, n - 1);
      if IsSeparator(raw, n - 1) then ps + [""]
      else ps[..|ps| - 1] + [ps[|ps| - 1] + [raw[n - 1]]]
  }

  function PieceEnd(cs: seq<nat>, k: nat, n: nat): nat
    requires k <= |cs|
  {
    if k < |cs| then cs[k] else n
  }

  /** Piece k is exactly the text between separator k - 1 (or the start)
      and separator k (or the end). */
  lemma {:induction false} PieceIsSlice(raw: string, n: nat, k: nat)
    requires n <= |raw| && k <= |Cuts(raw, n)|
    ensures var cs := Cuts(raw, n);
      PieceStart(cs, k) <= PieceEnd(cs, k, n) <= n
      && Pieces(raw, n)[k] == raw[PieceStart(cs, k)..PieceEnd(cs, k, n)]
    decreases n, 1
  {
    if n > 0 {
      if IsSeparator(raw, n - 1) {
        PieceIsSliceAfterCut(raw, n, k);
      } else {
        PieceIsSliceAfterOther(raw, n, k);
      }
    }
  }

  lemma {:induction false} PieceIsSliceAfterCut(raw: string, n: nat, k: nat)
    requires 0 < n <= |raw| && k <= |Cuts(raw, n)| && IsSeparator(raw, n - 1)
    ensures var cs := Cuts(raw, n);
      PieceStart(cs, k) <= PieceEnd(cs, k, n) <= n
      && Pieces(raw, n)[k] == raw[PieceStart(cs, k)..PieceEnd(cs, k, n)]
    decreases n, 0
  {
    var cs, cs' := Cuts(raw, n - 1), Cuts(raw, n);
    assert cs' == cs + [n - 1];
    if k <= |cs| {
      PieceIsSlice(raw, n - 1, k);
      assert PieceStart(cs', k) == PieceStart(cs, k);
    }
  }

  lemma {:induction false} PieceIsSliceAfterOther(raw: string, n: nat, k: nat)
    requires 0 < n <= |raw| && k <= |Cuts(raw, n)| && !IsSeparator(raw, n - 1)
    ensures var cs := Cuts(raw, n);
      PieceStart(cs, k) <= PieceEnd(cs, k, n) <= n
      && Pieces(raw, n)[k] == raw[PieceStart(cs, k)..PieceEnd(cs, k, n)]
    decreases n, 0
  {
    var cs := Cuts(raw, n - 1);
    assert Cuts(raw, n) == cs;
    PieceIsSlice(raw, n - 1, k);
    if k == |cs| {
      assert raw[PieceStart(cs, k)..n] == raw[PieceStart(cs, k)..n - 1] + [raw[n - 1]];
    }
  }

  /** Each string stripped, in order. */
  function StripEach(ps: seq<string>): (r: seq<string>)
    ensures |r| == |ps|
    ensures forall k :: 0 <= k < |ps| ==> r[k] == Strip(ps[k])
  {
    if ps == [] then [] else StripEach(ps[..|ps| - 1]) + [Strip(ps[|ps| - 1])]
  }

  /** The segments _split_base_list returns: every piece stripped, except
      that the last one is dropped when it strips to nothing. */
  function Segments(raw: string): seq<string> {
    var ps := Pieces(raw, |raw|);
    var tail := Strip(ps[|ps| - 1]);
    StripEach(ps[..|ps| - 1]) + (if tail == "" then [] else [tail])
  }

  /** Segment k is the text between separator k - 1 (or the start) and
      separator k (or the end), with surrounding whitespace removed. */
  lemma SegmentIsStrippedSlice(raw: string, k: nat)
    requires k < |Segments(raw)|
    ensures var cs := Cuts(raw, |raw|);
      PieceStart(cs, k) <= PieceEnd(cs, k, |raw|) <= |raw|
      && Segments(raw)[k] == Strip(raw[PieceStart(cs, k)..PieceEnd(cs, k, |raw|)])
  {
    PieceIsSlice(raw, |raw|, k);
  }

  /** There is one segment per separator, plus one more unless the text
      after the last separator is all whitespace. */
  lemma SegmentsCount(raw: string)
    ensures var cs := Cuts(raw, |raw|);
      |Segments(raw)| == |cs| + (if AllSpace(raw[PieceStart(cs, |cs|)..]) then 0 else 1)
  {
    var cs := Cuts(raw, |raw|);
    var ps := Pieces(raw, |raw|);
    PieceIsSlice(raw, |raw|, |cs|);
    var last := raw[PieceStart(cs, |cs|)..];
    assert ps[|ps| - 1] == last;
    assert Strip(last) == [] <==> AllSpace(last);
    assert |StripEach(ps[..|ps| - 1])| == |cs|;
  }

  /** Joining pieces with commas (the inverse of cutting at separators). */
  function JoinCommas(ps: seq<string>): string
    requires ps != []
  {
    if |ps| == 1 then ps[0]
    else JoinCommas(ps[..|ps| - 1]) + [','] + ps[|ps| - 1]
  }

  /** No character is lost or reordered: the pieces of raw[..n], joined
      back with commas, give raw[..n]. */
  lemma {:induction false} PiecesJoin(raw: string, n: nat)
    requires n <= |raw|
    ensures JoinCommas(Pieces(raw, n)) == raw[..n]
  {
    if n == 0 {
      assert Pieces(raw, 0) == [""];
    } else {
      PiecesJoin(raw, n - 1);
      var ps := Pieces(raw, n - 1);
      var m := |Cuts(raw, n - 1)|;
      assert raw[..n] == raw[..n - 1] + [raw[n - 1]];
      if !IsSeparator(raw, n - 1) {
        JoinCommasExtendLast(ps, raw[n - 1]);
      }
    }
  }

  lemma {:induction false} JoinCommasExtendLast(ps: seq<string>, c: char)
    requires ps != []
    ensures JoinCommas(ps[..|ps| - 1] + [ps[|ps| - 1] + [c]]) == JoinCommas(ps) + [c]
  {
    var qs := ps[..|ps| - 1] + [ps[|ps| - 1] + [c]];
    assert qs[..|qs| - 1] == ps[..|ps| - 1];
  }

  /** The only commas a piece holds are ones read inside angle brackets (or
      below zero): no piece straddles a separator. */
  lemma PiecesHaveNoSeparator(raw: string, k: nat, j: nat)
    requires k < |Cuts(raw, |raw|)| + 1
    requires var cs := Cuts(raw, |raw|);
      PieceStart(cs, k) <= j < (if k < |cs| then cs[k] else |raw|)
    ensures !IsSeparator(raw, j)
  {
    var cs := Cuts(raw, |raw|);
    if IsSeparator(raw, j) {
      CutsComplete(raw, |raw|, j);
      CutsAscending(raw, |raw|);
      assert false;
    }
  }

  /** Depth only rises on '<': over a stretch with no '<' it never goes up. */
  lemma {:induction false} DepthNonIncreasing(raw: string, i: nat, j: nat)
    requires i <= j <= |raw|
    requires forall k :: i <= k < j ==> raw[k] != '<'
    ensures Depth(raw, j) <= Depth(raw, i)
  {
    if j > i {
      DepthNonIncreasing(raw, i, j - 1);
    }
  }

  /** A stray '>' drives the depth below zero, and until a '<' brings it
      back no later comma splits the list. */
  lemma NoSplitBelowZero(raw: string, i: nat, j: nat)
    requires i <= j < |raw|
    requires Depth(raw, i) < 0
    requires forall k :: i <= k < j ==> raw[k] != '<'
    ensures !IsSeparator(raw, j)
  {
    DepthNonIncreasing(raw, i, j);
  }

  /** Without angle brackets the depth stays zero, so every comma splits
      the list. */
  lemma {:induction false} PlainListDepth(raw: string, n: nat)
    requires n <= |raw| && forall k :: 0 <= k < n ==> raw[k] != '<' && raw[k] != '>'
    ensures Depth(raw, n) == 0
  {
    if n > 0 {
      PlainListDepth(raw, n - 1);
    }
  }

  /** A list with exactly one separator is cut there and nowhere else. */
  lemma OneSeparator(raw: string, c: nat)
    requires IsSeparator(raw, c)
    requires forall i :: 0 <= i < |raw| && i != c ==> !IsSeparator(raw, i)
    ensures Cuts(raw, |raw|) == [c]
  {
    OneSeparatorPrefix(raw, c, |raw|);
  }

  lemma {:induction false} OneSeparatorPrefix(raw: string, c: nat, n: nat)
    requires n <= |raw| && IsSeparator(raw, c)
    requires forall i :: 0 <= i < |raw| && i != c ==> !IsSeparator(raw, i)
    ensures Cuts(raw, n) == if c < n then [c] else []
  {
    if n > 0 {
      OneSeparatorPrefix(raw, c, n - 1);
    }
  }

  /** One character of the pass: how the depth and the pieces move on, in
      the terms the loop of SplitBaseList tests. */
  lemma PiecesStep(raw: string, i: nat, depth: int, done: seq<string>, current: string)
    requires i < |raw| && depth == Depth(raw, i) && Pieces(raw, i) == done + [current]
    ensures Depth(raw, i + 1) == depth + Step(raw[i])
    ensures raw[i] == ',' && depth == 0 ==> Pieces(raw, i + 1) == (done + [current]) + [""]
    ensures !(raw[i] == ',' && depth == 0) ==> Pieces(raw, i + 1) == done + [current + [raw[i]]]
  {
    assert (done + [current])[..|done|] == done;
  }

  lemma StripEachSnoc(done: seq<string>, current: string)
    ensures StripEach(done + [current]) == StripEach(done) + [Strip(current)]
  {
    assert (done + [current])[..|done|] == done;
  }

  /** The segments, given the finished pieces and the last one. */
  lemma SegmentsFromPieces(raw: string, done: seq<string>, current: string)
    requires Pieces(raw, |raw|) == done + [current]
    ensures Segments(raw) == StripEach(done) + (if Strip(current) == "" then [] else [Strip(current)])
  {
    assert (done + [current])[..|done|] == done;
  }

  /** What the pass of SplitBaseList knows after reading raw[..i]: the depth
      there, the pieces so far (the finished ones and the one being read) and
      the stripped finished ones. */
  ghost predicate Scanned(raw: string, i: nat, depth: int, done: seq<string>, current: string, parts: seq<string>)
    requires i <= |raw|
  {
    depth == Depth(raw, i) && Pieces(raw, i) == done + [current] && parts == StripEach(done)
  }

  /** _split_base_list: one pass over the characters keeping the depth, the
      piece being read and the finished segments. */
  method SplitBaseList(raw: string) returns (parts: seq<string>)
    ensures parts == Segments(raw)
  {
    parts := [];
    var depth := 0;
    var current := "";
    ghost var done: seq<string> := [];
    for i := 0 to |raw|
      invariant Scanned(raw, i, depth, done, current, parts)
    {
      PiecesStep(raw, i, depth, done, current);
      var ch := raw[i];
      if ch == '<' {
        depth := depth + 1;
        current := current + [ch];
        assert Scanned(raw, i + 1, depth, done, current, parts);
      } else if ch == '>' {
        depth := depth - 1;
        current := current + [ch];
        assert Scanned(raw, i + 1, depth, done, current, parts);
      } else if ch == ',' && depth == 0 {
        StripEachSnoc(done, current);
        parts := parts + [Strip(current)];
        done := done + [current];
        current := "";
        assert Scanned(raw, i + 1, depth, done, current, parts);
      } else {
        current := current + [ch];
        assert Scanned(raw, i + 1, depth, done, current, parts);
      }
    }
    SegmentsFromPieces(raw, done, current);
    var tail := Strip(current);
    if tail != "" {
      parts := parts + [tail];
    }
  }
}
