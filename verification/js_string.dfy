/**
 JavaScript's `String.prototype.split` with a non-empty string separator
 (ECMAScript 2015, section 21.1.3.17): the input is scanned left to right,
 each leftmost occurrence of the separator is cut out, matches never overlap,
 and empty pieces are kept.

 Strings are `seq<char>`; one `char` stands for one UTF-16 code unit that is
 not a surrogate, so strings holding surrogate code units have no image here.
 Positions are indices into the whole input, as in the standard's algorithm
 (`p` is where the current piece starts, `q` where a match is tried).
 */
module JsString {

  datatype Option<+T> = None | Some(value: T)

  /** `sep` occurs in `s` starting at index `i`. */
  predicate OccursAt(s: string, sep: string, i: int)
  {
    0 <= i && i + |sep| <= |s| && s[i..i + |sep|] == sep
  }

  /** `sep` occurs somewhere in `s`. */
  predicate Contains(s: string, sep: string)
  {
    exists i :: 0 <= i <= |s| && OccursAt(s, sep, i)
  }

  /** No occurrence of `sep` in `s` starts at an index in `lo..hi`. */
  predicate NoMatchIn(s: string, sep: string, lo: int, hi: int)
  {
    forall j :: lo <= j < hi ==> !OccursAt(s, sep, j)
  }

  /** No occurrence of `sep` in `p + sep` starts before the appended copy:
      a left-to-right scan of `p + sep` meets its first match exactly at `|p|`. */
  predicate FirstAtEnd(p: string, sep: string)
  {
    NoMatchIn(p + sep, sep, 0, |p|)
  }

  /** Occurrences in the suffix `s[p..]` are the occurrences of `s` from `p` on. */
  lemma OccursAtSuffix(s: string, sep: string, p: nat, j: nat)
    requires p <= |s|
    ensures OccursAt(s[p..], sep, j) <==> OccursAt(s, sep, p + j)
  {
    if p + j + |sep| <= |s| {
      assert s[p..][j..j + |sep|] == s[p + j..p + j + |sep|];
    }
  }

  /** Occurrences in the slice `s[p..n]` are the occurrences of `s` from `p`
      on that end by `n`. */
  lemma OccursAtSlice(s: string, sep: string, p: nat, n: nat, j: nat)
    requires p <= n <= |s|
    ensures OccursAt(s[p..n], sep, j) <==> (OccursAt(s, sep, p + j) && p + j + |sep| <= n)
  {
    if p + j + |sep| <= n {
      var t := s[p..n];
      assert forall k :: j <= k < j + |sep| ==> t[k] == s[p + k];
      assert t[j..j + |sep|] == s[p + j..p + j + |sep|];
    }
  }

  /** `String.prototype.indexOf(sep, from)`: the leftmost occurrence of `sep`
      at or after index `from`, None standing for -1 (`IndexFromSpec`). */
  function IndexFrom(s: string, sep: string, from: nat): (r: Option<nat>)
    requires |sep| > 0
    ensures r.Some? ==> from <= r.value && r.value + |sep| <= |s|
    decreases |s| - from
  {
    if from + |sep| > |s| then None
    else if OccursAt(s, sep, from) then Some(from)
    else IndexFrom(s, sep, from + 1)
  }

  /** What `IndexFrom` finds: an occurrence with none between `from` and it,
      or, when it finds nothing, no occurrence from `from` on. */
  lemma {:induction false} IndexFromSpec(s: string, sep: string, from: nat)
    requires |sep| > 0
    ensures IndexFrom(s, sep, from).Some? ==>
              OccursAt(s, sep, IndexFrom(s, sep, from).value) && NoMatchIn(s, sep, from, IndexFrom(s, sep, from).value)
    ensures IndexFrom(s, sep, from).None? ==> NoMatchIn(s, sep, from, |s|)
    decreases |s| - from
  {
    if from + |sep| > |s| {
    } else if OccursAt(s, sep, from) {
    } else {
      IndexFromSpec(s, sep, from + 1);
    }
  }

  /** The leftmost occurrence is unique: an occurrence at or after `from` with
      none between is the one `IndexFrom` finds. */
  lemma IndexFromIsLeftmost(s: string, sep: string, from: nat, i: nat)
    requires |sep| > 0 && from <= i
    requires OccursAt(s, sep, i) && NoMatchIn(s, sep, from, i)
    ensures IndexFrom(s, sep, from) == Some(i)
  {
    IndexFromSpec(s, sep, from);
  }

  /** Sequence concatenation is associative; stated once so that proofs
      about long sequences of pieces need not rediscover it. */
  lemma AppendAssoc<T>(a: seq<T>, b: seq<T>, c: seq<T>)
    ensures (a + b) + c == a + (b + c)
  {
  }

  /** A non-empty sequence is its head followed by its tail. */
  lemma HeadTail<T>(xs: seq<T>)
    requires |xs| >= 1
    ensures [xs[0]] + xs[1..] == xs
  {
  }

  /** Array.prototype.join: the pieces with one copy of `sep` between neighbours. */
  function Join(pieces: seq<string>, sep: string): string
    decreases |pieces|
  {
    if |pieces| == 0 then []
    else if |pieces| == 1 then pieces[0]
    else pieces[0] + sep + Join(pieces[1..], sep)
  }

  /** The pieces of `s[p..]`: cut at the leftmost occurrence of `sep` from `p`
      on, then carry on right after it. */
  function SplitFrom(s: string, sep: string, p: nat): (pieces: seq<string>)
    requires |sep| > 0 && p <= |s|
    ensures |pieces| >= 1
    decreases |s| - p
  {
    match IndexFrom(s, sep, p)
    case None => [s[p..]]
    case Some(i) => [s[p..i]] + SplitFrom(s, sep, i + |sep|)
  }

  /** One unfolding of `SplitFrom` at the match `i` the scan from `p` finds. */
  lemma SplitFromAt(s: string, sep: string, p: nat, i: nat)
    requires |sep| > 0 && p <= |s| && IndexFrom(s, sep, p) == Some(i)
    ensures SplitFrom(s, sep, p) == [s[p..i]] + SplitFrom(s, sep, i + |sep|)
  {
  }

  /** `String.prototype.split(sep)`: cut `s` at every leftmost, non-overlapping
      occurrence of `sep`, keeping empty pieces. There is always at least one
      piece; the pieces join back into `s` (`StringSplitJoin`), none of them
      holds the separator (`StringSplitPiecesFree`), and they are the only
      such leftmost decomposition (`StringSplitCharacterization`). */
  function StringSplit(s: string, sep: string): (pieces: seq<string>)
    requires |sep| > 0
    ensures |pieces| >= 1
  {
    SplitFrom(s, sep, 0)
  }

  lemma {:induction false} SplitFromJoin(s: string, sep: string, p: nat)
    requires |sep| > 0 && p <= |s|
    ensures Join(SplitFrom(s, sep, p), sep) == s[p..]
    decreases |s| - p
  {
    IndexFromSpec(s, sep, p);
    match IndexFrom(s, sep, p)
    case None =>
    case Some(i) =>
      var e := i + |sep|;
      SplitFromJoin(s, sep, e);
      var pieces := SplitFrom(s, sep, p);
      assert pieces[1..] == SplitFrom(s, sep, e);
      assert s[i..e] == sep;
      assert s[p..i] + sep + s[e..] == s[p..];
  }

  /** Round trip: joining the pieces with the separator gives back the input. */
  lemma StringSplitJoin(s: string, sep: string)
    requires |sep| > 0
    ensures Join(StringSplit(s, sep), sep) == s
  {
    SplitFromJoin(s, sep, 0);
  }

  /** A slice of `s` in which the scan found no match holds no occurrence. */
  lemma NoMatchSlice(s: string, sep: string, p: nat, n: nat, hi: int)
    requires p <= n <= |s| && n - |sep| < hi
    requires NoMatchIn(s, sep, p, hi)
    ensures !Contains(s[p..n], sep)
  {
    forall j: nat | j <= n - p
      ensures !OccursAt(s[p..n], sep, j)
    {
      OccursAtSlice(s, sep, p, n, j);
    }
  }

  lemma {:induction false} SplitFromPiecesFree(s: string, sep: string, p: nat)
    requires |sep| > 0 && p <= |s|
    ensures forall k :: 0 <= k < |SplitFrom(s, sep, p)| ==> !Contains(SplitFrom(s, sep, p)[k], sep)
    decreases |s| - p
  {
    IndexFromSpec(s, sep, p);
    match IndexFrom(s, sep, p)
    case None =>
      NoMatchSlice(s, sep, p, |s|, |s|);
      assert s[p..|s|] == s[p..];
    case Some(i) =>
      var e := i + |sep|;
      SplitFromPiecesFree(s, sep, e);
      NoMatchSlice(s, sep, p, i, i);
      SplitFromAt(s, sep, p, i);
  }

  /** No piece of a split holds the separator. */
  lemma StringSplitPiecesFree(s: string, sep: string)
    requires |sep| > 0
    ensures forall k :: 0 <= k < |StringSplit(s, sep)| ==> !Contains(StringSplit(s, sep)[k], sep)
  {
    SplitFromPiecesFree(s, sep, 0);
  }

  /** The pieces a leftmost, non-overlapping scan produces: each piece but the
      last runs up to the first occurrence of `sep` after it, and the last holds none. */
  predicate LeftmostPieces(pieces: seq<string>, sep: string)
  {
    && |pieces| >= 1
    && (forall k :: 0 <= k < |pieces| - 1 ==> FirstAtEnd(pieces[k], sep))
    && !Contains(pieces[|pieces| - 1], sep)
  }

  /** The first piece the scan cuts at a match `i` runs up to the first
      occurrence after it. */
  lemma FirstPieceAtEnd(s: string, sep: string, p: nat, i: nat)
    requires |sep| > 0 && p <= i && OccursAt(s, sep, i) && NoMatchIn(s, sep, p, i)
    ensures FirstAtEnd(s[p..i], sep)
  {
    var e := i + |sep|;
    assert s[p..i] + sep == s[p..e];
    forall j: nat | j < i - p
      ensures !OccursAt(s[p..e], sep, j)
    {
      OccursAtSlice(s, sep, p, e, j);
    }
  }

  /** Putting a piece that runs up to the first occurrence after it in front
      of leftmost pieces gives leftmost pieces. */
  lemma LeftmostCons(a: string, sep: string, rest: seq<string>)
    requires FirstAtEnd(a, sep) && LeftmostPieces(rest, sep)
    ensures LeftmostPieces([a] + rest, sep)
  {
    var pieces := [a] + rest;
    forall k | 0 <= k < |pieces| - 1
      ensures FirstAtEnd(pieces[k], sep)
    {
      if k > 0 {
        assert pieces[k] == rest[k - 1];
      }
    }
    assert pieces[|pieces| - 1] == rest[|rest| - 1];
  }

  lemma {:induction false} SplitFromIsLeftmost(s: string, sep: string, p: nat)
    requires |sep| > 0 && p <= |s|
    ensures LeftmostPieces(SplitFrom(s, sep, p), sep)
    decreases |s| - p
  {
    match IndexFrom(s, sep, p)
    case None =>
      LastPieceLeftmost(s, sep, p);
    case Some(i) =>
      SplitFromIsLeftmost(s, sep, i + |sep|);
      CutPieceLeftmost(s, sep, p, i);
  }

  lemma LastPieceLeftmost(s: string, sep: string, p: nat)
    requires |sep| > 0 && p <= |s| && IndexFrom(s, sep, p).None?
    ensures LeftmostPieces(SplitFrom(s, sep, p), sep)
  {
    IndexFromSpec(s, sep, p);
    NoMatchSlice(s, sep, p, |s|, |s|);
    assert s[p..|s|] == s[p..];
  }

  lemma CutPieceLeftmost(s: string, sep: string, p: nat, i: nat)
    requires |sep| > 0 && p <= |s| && IndexFrom(s, sep, p) == Some(i)
    requires LeftmostPieces(SplitFrom(s, sep, i + |sep|), sep)
    ensures LeftmostPieces(SplitFrom(s, sep, p), sep)
  {
    IndexFromSpec(s, sep, p);
    FirstPieceAtEnd(s, sep, p, i);
    SplitFromAt(s, sep, p, i);
    LeftmostCons(s[p..i], sep, SplitFrom(s, sep, i + |sep|));
  }

  /** A piece running up to the first occurrence after it makes the scan of
      `s` from `p` match right after that piece. */
  lemma FirstAtEndMatches(s: string, sep: string, p: nat, a: string)
    requires |sep| > 0 && p + |a| + |sep| <= |s|
    requires s[p..p + |a| + |sep|] == a + sep
    requires FirstAtEnd(a, sep)
    ensures IndexFrom(s, sep, p) == Some(p + |a|)
    ensures s[p..p + |a|] == a
  {
    var n := p + |a| + |sep|;
    forall j | p <= j < p + |a|
      ensures !OccursAt(s, sep, j)
    {
      OccursAtSlice(s, sep, p, n, j - p);
    }
    OccursAtSlice(s, sep, p, n, |a|);
    assert (a + sep)[|a|..|a| + |sep|] == sep;
    IndexFromIsLeftmost(s, sep, p, p + |a|);
    assert s[p..p + |a|] == s[p..n][..|a|];
  }

  /** The first of several joined pieces that runs up to the first occurrence
      after it is where the scan of `s` from `p` makes its first cut. */
  lemma JoinedFirstPiece(s: string, sep: string, p: nat, pieces: seq<string>)
    requires |sep| > 0 && p <= |s| && |pieces| >= 2
    requires Join(pieces, sep) == s[p..] && FirstAtEnd(pieces[0], sep)
    ensures IndexFrom(s, sep, p) == Some(p + |pieces[0]|)
    ensures p + |pieces[0]| + |sep| <= |s|
    ensures s[p..p + |pieces[0]|] == pieces[0]
    ensures Join(pieces[1..], sep) == s[p + |pieces[0]| + |sep|..]
  {
    var a := pieces[0];
    var e := p + |a| + |sep|;
    var rest := Join(pieces[1..], sep);
    assert s[p..] == a + sep + rest;
    assert s[p..e] == s[p..][..|a| + |sep|];
    FirstAtEndMatches(s, sep, p, a);
    assert s[e..] == s[p..][|a| + |sep|..];
  }

  /** A remainder holding no occurrence is split into itself alone. */
  lemma RemainderIsSplit(s: string, sep: string, p: nat)
    requires |sep| > 0 && p <= |s| && !Contains(s[p..], sep)
    ensures SplitFrom(s, sep, p) == [s[p..]]
  {
    IndexFromSpec(s, sep, p);
    if IndexFrom(s, sep, p).Some? {
      var i := IndexFrom(s, sep, p).value;
      OccursAtSuffix(s, sep, p, i - p);
      assert false;
    }
  }

  lemma {:induction false} LeftmostPiecesAreSplit(s: string, sep: string, p: nat, pieces: seq<string>)
    requires |sep| > 0 && p <= |s|
    requires Join(pieces, sep) == s[p..] && LeftmostPieces(pieces, sep)
    ensures SplitFrom(s, sep, p) == pieces
    decreases |pieces|
  {
    if |pieces| == 1 {
      RemainderIsSplit(s, sep, p);
    } else {
      var i := p + |pieces[0]|;
      JoinedFirstPiece(s, sep, p, pieces);
      SplitFromAt(s, sep, p, i);
      assert LeftmostPieces(pieces[1..], sep);
      LeftmostPiecesAreSplit(s, sep, i + |sep|, pieces[1..]);
      HeadTail(pieces);
    }
  }

  /** The split of `s` is the one decomposition of `s` into leftmost pieces. */
  lemma StringSplitCharacterization(s: string, sep: string, pieces: seq<string>)
    requires |sep| > 0
    ensures StringSplit(s, sep) == pieces <==> (Join(pieces, sep) == s && LeftmostPieces(pieces, sep))
  {
    assert s[0..] == s;
    if StringSplit(s, sep) == pieces {
      StringSplitJoin(s, sep);
      SplitFromIsLeftmost(s, sep, 0);
    }
    if Join(pieces, sep) == s && LeftmostPieces(pieces, sep) {
      LeftmostPiecesAreSplit(s, sep, 0, pieces);
    }
  }

  /** Cutting at a first occurrence: when `a + sep` has its first match at `|a|`,
      the split of `a + sep + rest` is `a` followed by the split of `rest`. */
  lemma StringSplitCut(a: string, sep: string, rest: string)
    requires |sep| > 0
    requires FirstAtEnd(a, sep)
    ensures StringSplit(a + sep + rest, sep) == [a] + StringSplit(rest, sep)
  {
    var pieces := [a] + StringSplit(rest, sep);
    var tail := StringSplit(rest, sep);
    StringSplitCharacterization(rest, sep, tail);
    assert pieces[1..] == tail;
    assert LeftmostPieces(pieces, sep);
    StringSplitCharacterization(a + sep + rest, sep, pieces);
  }

  /** Number of occurrences a left-to-right scan of `s` from index `p` meets,
      resuming after the end of each one it finds. */
  function CountFrom(s: string, sep: string, p: nat): nat
    requires |sep| > 0
    decreases |s| - p
  {
    if p + |sep| > |s| then 0
    else if OccursAt(s, sep, p) then 1 + CountFrom(s, sep, p + |sep|)
    else CountFrom(s, sep, p + 1)
  }

  /** Number of non-overlapping occurrences of `sep` found scanning `s` left to right. */
  function MatchCount(s: string, sep: string): nat
    requires |sep| > 0
  {
    CountFrom(s, sep, 0)
  }

  /** Without a match at `p`, the scan from `p` cuts where the scan from `p + 1` does. */
  lemma SplitFromSkip(s: string, sep: string, p: nat)
    requires |sep| > 0 && p < |s| && !OccursAt(s, sep, p)
    ensures |SplitFrom(s, sep, p)| == |SplitFrom(s, sep, p + 1)|
  {
    assert IndexFrom(s, sep, p) == IndexFrom(s, sep, p + 1);
  }

  lemma {:induction false} SplitFromLength(s: string, sep: string, p: nat)
    requires |sep| > 0 && p <= |s|
    ensures |SplitFrom(s, sep, p)| == CountFrom(s, sep, p) + 1
    decreases |s| - p
  {
    if p + |sep| > |s| {
    } else if OccursAt(s, sep, p) {
      assert IndexFrom(s, sep, p) == Some(p);
      SplitFromLength(s, sep, p + |sep|);
    } else {
      SplitFromSkip(s, sep, p);
      SplitFromLength(s, sep, p + 1);
    }
  }

  /** The split has one piece more than there are occurrences found left to right. */
  lemma StringSplitLength(s: string, sep: string)
    requires |sep| > 0
    ensures |StringSplit(s, sep)| == MatchCount(s, sep) + 1
  {
    SplitFromLength(s, sep, 0);
  }

  /** A match at `q`, with none between `p` and `q`, closes the piece `s[p..q]`
      and the scan resumes right after the match. */
  lemma ScanCut(s: string, sep: string, done: seq<string>, p: nat, q: nat)
    requires |sep| > 0 && p <= q && OccursAt(s, sep, q) && NoMatchIn(s, sep, p, q)
    requires done + SplitFrom(s, sep, p) == StringSplit(s, sep)
    ensures (done + [s[p..q]]) + SplitFrom(s, sep, q + |sep|) == StringSplit(s, sep)
  {
    IndexFromIsLeftmost(s, sep, p, q);
    SplitFromAt(s, sep, p, q);
    AppendAssoc(done, [s[p..q]], SplitFrom(s, sep, q + |sep|));
  }

  /** With no match from `p` on, the rest of the input is the last piece. */
  lemma ScanEnd(s: string, sep: string, done: seq<string>, p: nat)
    requires |sep| > 0 && p <= |s| && NoMatchIn(s, sep, p, |s|)
    requires done + SplitFrom(s, sep, p) == StringSplit(s, sep)
    ensures done + [s[p..]] == StringSplit(s, sep)
  {
    IndexFromSpec(s, sep, p);
    assert IndexFrom(s, sep, p).None?;
  }

  /** `String.prototype.split` as ECMAScript 2015 section 21.1.3.17 writes it
      for a string separator: `p` is where the current piece starts, `q` the
      position SplitMatcher is tried at; a match at `q` ends the piece and both
      resume after it. */
  method SplitByString(s: string, sep: string) returns (pieces: seq<string>)
    requires |sep| > 0
    ensures pieces == StringSplit(s, sep)
  {
    if |s| == 0 {
      // SplitMatcher(S, 0, R) fails on the empty string: the answer is [S].
      return [s];
    }
    pieces := [];
    var p, q := 0, 0;
    while q < |s|
      invariant 0 <= p <= q <= |s|
      invariant NoMatchIn(s, sep, p, q)
      invariant pieces + SplitFrom(s, sep, p) == StringSplit(s, sep)
      decreases |s| - q
    {
      if OccursAt(s, sep, q) {
        // SplitMatcher(S, q, R) succeeds: the match ends at e = q + |sep|,
        // which is past p because the separator is non-empty, so the
        // standard's e == p case never arises.
        var e := q + |sep|;
        ScanCut(s, sep, pieces, p, q);
        pieces := pieces + [s[p..q]];
        p, q := e, e;
      } else {
        q := q + 1;
      }
    }
    ScanEnd(s, sep, pieces, p);
    pieces := pieces + [s[p..]];
  }
}
