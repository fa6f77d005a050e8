/**
 The `smart-split` tokeniser with a string separator: the input is split with
 `String.prototype.split` and the separator is put back between neighbouring
 pieces, so the result alternates piece, separator, piece, ..., piece.
 */
module SmartSplit {
  import opened JsString

  /** All the strings of `parts` laid end to end. */
  function Concat(parts: seq<string>): string
    decreases |parts|
  {
    if |parts| == 0 then [] else parts[0] + Concat(parts[1..])
  }

  /** The array the loop builds from the pieces: every piece but the last is
      followed by one copy of the separator, and the last piece closes it. */
  function Interleave(pieces: seq<string>, sep: string): (r: seq<string>)
    requires |pieces| >= 1
    ensures |r| == 2 * |pieces| - 1
    ensures forall i :: 0 <= i < |r| && i % 2 == 0 ==> r[i] == pieces[i / 2]
    ensures forall i :: 0 <= i < |r| && i % 2 == 1 ==> r[i] == sep
    decreases |pieces|
  {
    if |pieces| == 1 then [pieces[0]]
    else
      var rest := Interleave(pieces[1..], sep);
      var r := [pieces[0], sep] + rest;
      assert forall i :: 2 <= i < |r| ==> r[i] == rest[i - 2];
      assert forall i :: 2 <= i < |r| && i % 2 == 0 ==> pieces[i / 2] == pieces[1..][(i - 2) / 2];
      r
  }

  /** Laying the interleaved array end to end is joining the pieces with the separator. */
  lemma {:induction false} InterleaveConcat(pieces: seq<string>, sep: string)
    requires |pieces| >= 1
    ensures Concat(Interleave(pieces, sep)) == Join(pieces, sep)
    decreases |pieces|
  {
    if |pieces| > 1 {
      var rest := Interleave(pieces[1..], sep);
      InterleaveConcat(pieces[1..], sep);
      assert pieces == [pieces[0]] + pieces[1..];
      InterleaveCons(pieces[0], pieces[1..], sep);
      ConcatPair(pieces[0], sep, rest);
      AppendAssoc(pieces[0], sep, Join(pieces[1..], sep));
    }
  }

  /** Laying out two strings followed by more strings. */
  lemma ConcatPair(a: string, b: string, rest: seq<string>)
    ensures Concat([a, b] + rest) == a + (b + Concat(rest))
  {
    assert ([a, b] + rest)[1..] == [b] + rest;
    assert ([b] + rest)[1..] == rest;
  }

  /** The pieces of an alternating array: its elements at even indices. */
  function EvenElements(r: seq<string>): (pieces: seq<string>)
    requires |r| % 2 == 1
    ensures |pieces| == |r| / 2 + 1
    ensures forall k :: 0 <= k < |pieces| ==> pieces[k] == r[2 * k]
    decreases |r|
  {
    if |r| == 1 then [r[0]]
    else
      var rest := EvenElements(r[2..]);
      assert forall k :: 1 <= k < |rest| + 1 ==> r[2 * k] == r[2..][2 * (k - 1)];
      [r[0]] + rest
  }

  /** An array of odd length holding the separator at every odd index. */
  predicate Alternates(r: seq<string>, sep: string)
  {
    |r| % 2 == 1 && forall i :: 0 <= i < |r| && i % 2 == 1 ==> r[i] == sep
  }

  /** An alternating array is the interleaving of its even-index elements. */
  lemma AlternatesIsInterleave(r: seq<string>, sep: string)
    requires Alternates(r, sep)
    ensures Interleave(EvenElements(r), sep) == r
  {
    var pieces := EvenElements(r);
    var t := Interleave(pieces, sep);
    forall i | 0 <= i < |r|
      ensures t[i] == r[i]
    {
      if i % 2 == 0 {
        assert t[i] == pieces[i / 2];
        assert 2 * (i / 2) == i;
      }
    }
  }

  /** The even-index elements of an interleaving are the pieces it was built from. */
  lemma EvenElementsOfInterleave(pieces: seq<string>, sep: string)
    requires |pieces| >= 1
    ensures EvenElements(Interleave(pieces, sep)) == pieces
  {
    var r := Interleave(pieces, sep);
    var e := EvenElements(r);
    forall k | 0 <= k < |pieces|
      ensures e[k] == pieces[k]
    {
      assert e[k] == r[2 * k];
      assert (2 * k) / 2 == k;
    }
  }

  /** `split(input, sep)` with a string separator, as index.js lines 19-28
      compute it: split the input, then put the separator back between
      neighbouring pieces. */
  function Split(input: string, sep: string): (r: seq<string>)
    requires |sep| > 0
    ensures Alternates(r, sep)
  {
    Interleave(StringSplit(input, sep), sep)
  }

  /** The output laid end to end reproduces the input. */
  lemma SplitRoundTrip(input: string, sep: string)
    requires |sep| > 0
    ensures Concat(Split(input, sep)) == input
  {
    InterleaveConcat(StringSplit(input, sep), sep);
    StringSplitJoin(input, sep);
  }

  /** The output has 2k + 1 elements for the k occurrences found left to right,
      the separator at every odd index and no occurrence of it at any even index. */
  lemma SplitShape(input: string, sep: string)
    requires |sep| > 0
    ensures |Split(input, sep)| == 2 * MatchCount(input, sep) + 1
    ensures forall i :: 0 <= i < |Split(input, sep)| && i % 2 == 1 ==> Split(input, sep)[i] == sep
    ensures forall i :: 0 <= i < |Split(input, sep)| && i % 2 == 0 ==> !Contains(Split(input, sep)[i], sep)
  {
    var pieces := StringSplit(input, sep);
    StringSplitLength(input, sep);
    StringSplitPiecesFree(input, sep);
    var r := Split(input, sep);
    forall i | 0 <= i < |r| && i % 2 == 0
      ensures !Contains(r[i], sep)
    {
      assert r[i] == pieces[i / 2];
    }
  }

  /** The tokenisations the split produces: alternating, laid end to end the
      input, and its pieces those of a leftmost, non-overlapping scan. */
  predicate Tokenises(r: seq<string>, input: string, sep: string)
  {
    Alternates(r, sep) && Concat(r) == input && LeftmostPieces(EvenElements(r), sep)
  }

  /** `Split` returns exactly the tokenisation of its input. */
  lemma SplitCharacterization(input: string, sep: string, r: seq<string>)
    requires |sep| > 0
    ensures Split(input, sep) == r <==> Tokenises(r, input, sep)
  {
    var pieces := StringSplit(input, sep);
    if Split(input, sep) == r {
      SplitRoundTrip(input, sep);
      EvenElementsOfInterleave(pieces, sep);
      StringSplitCharacterization(input, sep, pieces);
    }
    if Tokenises(r, input, sep) {
      var even := EvenElements(r);
      AlternatesIsInterleave(r, sep);
      InterleaveConcat(even, sep);
      StringSplitCharacterization(input, sep, even);
    }
  }

  /** An input without the separator comes back as the one-element array
      holding it, and only such an input does. */
  lemma SplitNoSeparator(input: string, sep: string)
    requires |sep| > 0
    ensures !Contains(input, sep) <==> Split(input, sep) == [input]
  {
    if !Contains(input, sep) {
      StringSplitCharacterization(input, sep, [input]);
    }
    if Split(input, sep) == [input] {
      SplitShape(input, sep);
    }
  }

  /** `s` ends with `sep`. */
  predicate EndsWith(s: string, sep: string)
  {
    |sep| <= |s| && s[|s| - |sep|..] == sep
  }

  /** The input starts with the separator exactly when the output opens with
      an empty piece followed by the separator. */
  lemma SplitLeadingSeparator(input: string, sep: string)
    requires |sep| > 0
    ensures OccursAt(input, sep, 0) <==> (|Split(input, sep)| >= 3 && Split(input, sep)[0] == [])
  {
    var r := Split(input, sep);
    var pieces := StringSplit(input, sep);
    if OccursAt(input, sep, 0) {
      IndexFromIsLeftmost(input, sep, 0, 0);
      SplitFromAt(input, sep, 0, 0);
      assert r[0] == pieces[0];
    }
    if |r| >= 3 && r[0] == [] {
      SplitRoundTrip(input, sep);
      assert r == [r[0]] + r[1..];
      assert r[1..] == [r[1]] + r[2..];
      assert Concat(r) == sep + Concat(r[2..]);
      assert input[..|sep|] == sep;
    }
  }

  /** The last element is what follows the last occurrence the split cut at:
      the input ends with it, it holds no occurrence, and when there are
      several elements the separator comes right before it. It is exactly the
      text after the earlier elements laid end to end, that is after the last
      cut, which need not be the last occurrence when occurrences overlap. */
  lemma SplitLastPiece(input: string, sep: string)
    requires |sep| > 0
    ensures var r := Split(input, sep);
            var last := r[|r| - 1];
            && |last| <= |input|
            && input[|input| - |last|..] == last
            && !Contains(last, sep)
            && (|r| > 1 ==> EndsWith(input[..|input| - |last|], sep))
            && |Concat(r[..|r| - 1])| <= |input|
            && last == input[|Concat(r[..|r| - 1])|..]
  {
    var r := Split(input, sep);
    var n := |r| - 1;
    SplitRoundTrip(input, sep);
    SplitShape(input, sep);
    ConcatSnoc(r[..n], r[n]);
    assert r[..n] + [r[n]] == r;
    if n > 0 {
      ConcatSnoc(r[..n - 1], r[n - 1]);
      assert r[..n - 1] + [r[n - 1]] == r[..n];
    }
  }

  /** Laying out `parts` then `last` is laying out `parts` and appending `last`. */
  lemma {:induction false} ConcatSnoc(parts: seq<string>, last: string)
    ensures Concat(parts + [last]) == Concat(parts) + last
    decreases |parts|
  {
    if |parts| > 0 {
      ConcatSnoc(parts[1..], last);
      assert (parts + [last])[1..] == parts[1..] + [last];
    }
  }

  /** A suffix of `s` at least as long as `sep`, of a string ending with
      `sep`, holds `sep` at its own end. */
  lemma SuffixKeepsEnding(s: string, sep: string, last: string)
    requires |last| <= |s| && s[|s| - |last|..] == last
    requires EndsWith(s, sep) && |sep| <= |last|
    ensures OccursAt(last, sep, |last| - |sep|)
  {
    assert last[|last| - |sep|..] == s[|s| - |sep|..];
  }

  /** A trailing separator leaves a last piece shorter than the separator
      (empty for a one-character separator); an empty last piece after at
      least one separator means the input ends with the separator. */
  lemma SplitTrailingSeparator(input: string, sep: string)
    requires |sep| > 0
    ensures var r := Split(input, sep);
            && (EndsWith(input, sep) ==> |r[|r| - 1]| < |sep|)
            && (|sep| == 1 && EndsWith(input, sep) ==> r[|r| - 1] == [])
            && (|r| > 1 && r[|r| - 1] == [] ==> EndsWith(input, sep))
  {
    var r := Split(input, sep);
    var last := r[|r| - 1];
    SplitLastPiece(input, sep);
    if EndsWith(input, sep) && |last| >= |sep| {
      SuffixKeepsEnding(input, sep, last);
      assert Contains(last, sep);
    }
    if |r| > 1 && last == [] {
      assert input[..|input| - |last|] == input;
    }
  }

  /** Putting one piece in front of several puts it and one separator in
      front of their interleaving. */
  lemma InterleaveCons(piece: string, rest: seq<string>, sep: string)
    requires |rest| >= 1
    ensures Interleave([piece] + rest, sep) == [piece, sep] + Interleave(rest, sep)
  {
    assert ([piece] + rest)[1..] == rest;
  }

  /** A cut at the leftmost occurrence after `a`: the output is `a`, the
      separator, then the output for the rest, so the split restarts right
      after every occurrence it cuts at. */
  lemma SplitCut(a: string, sep: string, rest: string)
    requires |sep| > 0 && FirstAtEnd(a, sep)
    ensures Split(a + sep + rest, sep) == [a, sep] + Split(rest, sep)
  {
    StringSplitCut(a, sep, rest);
    InterleaveCons(a, StringSplit(rest, sep), sep);
  }

  /** Two adjacent separators, the first of them the first occurrence after
      `a`, put an empty piece between them. Stated at the first cut;
      `SplitCut` carries it to any later cut. */
  lemma SplitAdjacentSeparators(a: string, sep: string, b: string)
    requires |sep| > 0 && FirstAtEnd(a, sep)
    ensures Split(a + sep + sep + b, sep) == [a, sep, [], sep] + Split(b, sep)
  {
    var rest := StringSplit(b, sep);
    assert FirstAtEnd([], sep);
    assert [] + sep + b == sep + b;
    StringSplitCut([], sep, b);
    assert a + sep + sep + b == a + sep + (sep + b);
    StringSplitCut(a, sep, sep + b);
    InterleaveCons([], rest, sep);
    InterleaveCons(a, [[]] + rest, sep);
  }

  /** One turn of the loop in `SplitLoop`: pushing a piece and a separator
      keeps the output so far followed by the interleaving of the remaining
      pieces equal to the whole interleaving. */
  lemma LoopStep(results: seq<string>, pieces: seq<string>, sep: string, i: nat)
    requires i < |pieces| - 1
    requires results + Interleave(pieces[i..], sep) == Interleave(pieces, sep)
    ensures (results + [pieces[i]] + [sep]) + Interleave(pieces[i + 1..], sep) == Interleave(pieces, sep)
  {
    assert pieces[i..] == [pieces[i]] + pieces[i + 1..];
    InterleaveCons(pieces[i], pieces[i + 1..], sep);
    assert results + [pieces[i]] + [sep] == results + [pieces[i], sep];
    AppendAssoc(results, [pieces[i], sep], Interleave(pieces[i + 1..], sep));
  }

  /** The loop of index.js lines 20-27 over the pieces `String.prototype.split`
      returns: push each piece but the last followed by the separator, then
      push the last piece. */
  method SplitLoop(input: string, sep: string) returns (results: seq<string>)
    requires |sep| > 0
    ensures results == Split(input, sep)
    ensures Concat(results) == input
  {
    var splits := SplitByString(input, sep);
    results := [];
    var i := 0;
    var l := |splits|;
    while i < l - 1
      invariant 0 <= i <= l - 1
      invariant results + Interleave(splits[i..], sep) == Interleave(splits, sep)
    {
      var item := splits[i];
      LoopStep(results, splits, sep, i);
      results := results + [item];
      results := results + [sep];
      i := i + 1;
    }
    assert splits[l - 1..] == [splits[l - 1]];
    results := results + [splits[l - 1]];
    SplitRoundTrip(input, sep);
  }
}
