/**
 The string-separator cases of the `smart-split` test file, stated as facts
 about the model: single-space separators with leading, trailing, adjacent
 and interior spaces, and a two-character separator whose occurrences overlap.
 */
module SmartSplitExamples {
  import opened JsString
  import opened SmartSplit

  /** Where the separator's first character is absent from `s[lo..]`, no
      occurrence starts at `lo` or later. */
  lemma HeadAbsent(s: string, sep: string, lo: nat)
    requires |sep| > 0 && lo <= |s|
    requires sep[0] !in s[lo..]
    ensures NoMatchIn(s, sep, lo, |s| + 1)
  {
    forall j | lo <= j < |s| + 1
      ensures !OccursAt(s, sep, j)
    {
      if j + |sep| <= |s| {
        assert s[j..j + |sep|][0] == s[j];
        assert s[lo..][j - lo] == s[j];
      }
    }
  }

  /** A piece without the separator's first character contains no occurrence
      and ends at the leftmost occurrence when the separator follows it. */
  lemma HeadFree(a: string, sep: string)
    requires |sep| > 0 && sep[0] !in a
    ensures !Contains(a, sep) && FirstAtEnd(a, sep)
  {
    assert a[0..] == a;
    HeadAbsent(a, sep, 0);
    forall j | 0 <= j < |a|
      ensures !OccursAt(a + sep, sep, j)
    {
      assert (a + sep)[j] == a[j];
      if j + |sep| <= |a + sep| {
        assert (a + sep)[j..j + |sep|][0] == a[j];
      }
    }
  }

  /** Splitting at a one-character separator: the text before its first
      occurrence, then the split of the rest. */
  lemma OneCharCut(a: string, c: char, rest: string)
    requires c !in a
    ensures StringSplit(a + [c] + rest, [c]) == [a] + StringSplit(rest, [c])
  {
    HeadFree(a, [c]);
    StringSplitCut(a, [c], rest);
  }

  /** Text without the separator's character is split into itself alone. */
  lemma OneCharWhole(a: string, c: char)
    requires c !in a
    ensures StringSplit(a, [c]) == [a]
  {
    HeadFree(a, [c]);
    SplitNoSeparator(a, [c]);
  }

  /** A lone space, and two adjacent spaces, give empty pieces around them. */
  lemma SpacesOnly()
    ensures Split(" ", " ") == ["", " ", ""]
    ensures Split("  ", " ") == ["", " ", "", " ", ""]
  {
    var c := ' ';
    OneCharWhole("", c);
    assert " " == "" + [c] + "";
    OneCharCut("", c, "");
    assert "  " == "" + [c] + " ";
    OneCharCut("", c, " ");
  }

  /** Text without a space is returned whole. */
  lemma NoSpace()
    ensures Split("test", " ") == ["test"]
  {
    OneCharWhole("test", ' ');
  }

  /** A trailing space leaves an empty last piece. */
  lemma TrailingSpace()
    ensures Split("test ", " ") == ["test", " ", ""]
  {
    var c := ' ';
    OneCharWhole("", c);
    assert "test " == "test" + [c] + "";
    OneCharCut("test", c, "");
  }

  /** One interior space separates two words. */
  lemma OneInteriorSpace()
    ensures Split("test test", " ") == ["test", " ", "test"]
  {
    var c := ' ';
    OneCharWhole("test", c);
    assert "test test" == "test" + [c] + "test";
    OneCharCut("test", c, "test");
  }

  /** Two words followed by a trailing space. */
  lemma TwoWordsTrailingSpace()
    ensures Split("test test ", " ") == ["test", " ", "test", " ", ""]
  {
    var c := ' ';
    OneCharWhole("", c);
    assert "test " == "test" + [c] + "";
    OneCharCut("test", c, "");
    assert "test test " == "test" + [c] + "test ";
    OneCharCut("test", c, "test ");
  }

  /** Two adjacent interior spaces give an empty piece between them. */
  lemma AdjacentSpaces()
    ensures Split("test  test", " ") == ["test", " ", "", " ", "test"]
  {
    HeadFree("test", " ");
    SplitNoSeparator("test", " ");
    assert "test  test" == "test" + " " + " " + "test";
    SplitAdjacentSeparators("test", " ", "test");
  }

  /** Adjacent spaces after a later cut: `SplitCut` steps over the first
      word, then the adjacent pair gives its empty piece. */
  lemma AdjacentSpacesAfterCut()
    ensures Split("a b  c", " ") == ["a", " ", "b", " ", "", " ", "c"]
  {
    HeadFree("a", " ");
    HeadFree("b", " ");
    SplitNoSeparator("c", " ");
    assert "b  c" == "b" + " " + " " + "c";
    SplitAdjacentSeparators("b", " ", "c");
    assert "a b  c" == "a" + " " + "b  c";
    SplitCut("a", " ", "b  c");
  }

  /** Three words, two separators. */
  lemma ThreeWords()
    ensures Split("test test test", " ") == ["test", " ", "test", " ", "test"]
  {
    HeadFree("test", " ");
    SplitNoSeparator("test", " ");
    assert "test test" == "test" + " " + "test";
    SplitCut("test", " ", "test");
    assert "test test test" == "test" + " " + "test test";
    SplitCut("test", " ", "test test");
  }

  /** Matching is leftmost and does not overlap: in "xxx" the separator "xx"
      is found at 0 only, leaving "x" as the last piece. */
  lemma OverlappingSeparator()
    ensures Split("xx", "xx") == ["", "xx", ""]
    ensures Split("xxx", "xx") == ["", "xx", "x"]
    ensures Split("xxxx", "xx") == ["", "xx", "", "xx", ""]
  {
    assert FirstAtEnd("", "xx");
    assert "xx" == "" + "xx" + "";
    StringSplitCut("", "xx", "");
    assert "xxx" == "" + "xx" + "x";
    StringSplitCut("", "xx", "x");
    assert !OccursAt("x", "xx", 0);
    assert "xxxx" == "" + "xx" + "xx";
    StringSplitCut("", "xx", "xx");
  }

  /** Three "x" inside a text: the odd "x" stays with the text after it. */
  lemma OddRunInText()
    ensures Split("testxxxtest", "xx") == ["test", "xx", "xtest"]
  {
    HeadFree("test", "xx");
    assert "xtest"[1..] == "test";
    HeadAbsent("xtest", "xx", 1);
    assert "xtest"[0..2][1] == 't';
    SplitNoSeparator("xtest", "xx");
    assert "testxxxtest" == "test" + "xx" + "xtest";
    StringSplitCut("test", "xx", "xtest");
  }

  /** Four "x" inside a text: two occurrences with an empty piece between. */
  lemma EvenRunInText()
    ensures Split("testxxxxtest", "xx") == ["test", "xx", "", "xx", "test"]
  {
    HeadFree("test", "xx");
    SplitNoSeparator("test", "xx");
    assert "testxxxxtest" == "test" + "xx" + "xx" + "test";
    SplitAdjacentSeparators("test", "xx", "test");
  }
}
