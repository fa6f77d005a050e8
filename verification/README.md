# smart-split, string separator

`smart-split` is a small tokeniser: `split(input, separator)` cuts `input`
at each leftmost, non-overlapping occurrence of `separator` and keeps those
occurrences in the output. The result alternates piece, separator, piece, ..., piece. This
project models the branch taken when the separator is a string
(`node_modules/smart-split/index.js` lines 19-28). It also models the
JavaScript operation that branch relies on: `String.prototype.split` with a
string separator, as section 21.1.3.17 of ECMAScript 2015 defines it. That
operation finds the leftmost occurrence, cuts there, and carries on right
after it, so the occurrences it cuts at never overlap and empty pieces are kept.

Three files, one module each:

- `js_string.dfy` (module `JsString`) models the string primitives:
  - occurrence of a separator at an index, and the search for the next one (`IndexFrom`);
  - `Array.prototype.join` (`Join`);
  - the split itself, in two forms. `StringSplit` is the recursive "find,
    cut, recurse" definition. `SplitByString` follows the specification's
    index loop over `p` and `q`, and is proved to agree with `StringSplit`.
  - The file proves the properties of the split:
    - joining its pieces gives the input back;
    - no piece contains the separator;
    - it has exactly one more piece than there are leftmost non-overlapping occurrences;
    - it is characterised completely: it is the only list of pieces that joins back to the input and in which every piece but the last ends at the leftmost occurrence, and the last piece holds none.
- `smart_split.dfy` (module `SmartSplit`) models `split` itself:
  - `Interleave` is the array the loop at lines 22-27 builds, and `Split` applies it to the split pieces;
  - `SplitLoop` is the loop written as a method;
  - the remaining lemmas state the promised properties: round trip, shape, characterisation, no-occurrence input, leading, trailing and adjacent separators, and the last piece.
- `smart_split_examples.dfy` (module `SmartSplitExamples`) proves the
  expected outputs of the string-separator tests, and the overlap
  examples of the test file, for the string branch.

Strings are `seq<char>`: one `char` stands for one UTF-16 code unit that is not a surrogate. The separator must be non-empty (`|sep| > 0`).

## Model

| member | source | states |
|---|---|---|
| JsString.IndexFromSpec | node_modules/smart-split/index.js:20 | The search from `from` returns the position of an occurrence with none before it from `from` on, or reports that no occurrence starts at `from` or later. |
| JsString.IndexFromIsLeftmost | node_modules/smart-split/index.js:20 | An occurrence at `i` with none in `[from, i)` is exactly what the search from `from` finds. |
| JsString.StringSplitJoin | node_modules/smart-split/index.js:20 | Joining the pieces of `split` with the separator reproduces the input. |
| JsString.StringSplitPiecesFree | node_modules/smart-split/index.js:20 | No piece returned by `split` contains the separator. |
| JsString.StringSplitCharacterization | node_modules/smart-split/index.js:20 | The pieces of `split` are exactly the list that joins back to the input, where every piece but the last meets its first occurrence only at its end (leftmost), and the last holds none. This holds in both directions. |
| JsString.StringSplitCut | node_modules/smart-split/index.js:20 | If the separator's leftmost occurrence in `a + sep + rest` is right after `a`, then `split` returns `a` followed by the split of `rest`. This is the non-overlapping restart after a match. |
| JsString.StringSplitLength | node_modules/smart-split/index.js:20 | `split` returns one more piece than the number of left-to-right non-overlapping occurrences. |
| JsString.StringSplit | node_modules/smart-split/index.js:20 | A split at a non-empty separator always has at least one piece. |
| JsString.SplitByString | node_modules/smart-split/index.js:20 | The p/q scanning loop of the language's split algorithm returns exactly the pieces of the recursive leftmost split. An empty input gives one empty piece. |
| SmartSplit.Interleave | node_modules/smart-split/index.js:22-27 | The built array has 2n-1 elements: piece `k` sits at index `2k` and the separator at every odd index. |
| SmartSplit.InterleaveConcat | node_modules/smart-split/index.js:22-27 | Concatenating the built array equals joining the pieces with the separator. |
| SmartSplit.AlternatesIsInterleave | node_modules/smart-split/index.js:22-27 | Every odd-length array with the separator at odd indices is the interleaving of its even-index elements. |
| SmartSplit.EvenElementsOfInterleave | node_modules/smart-split/index.js:22-27 | The even-index elements of an interleaving are the pieces it was built from. |
| SmartSplit.Split | node_modules/smart-split/index.js:19-28 | The output of `split` with a string separator has odd length and the separator at every odd index. |
| SmartSplit.SplitRoundTrip | node_modules/smart-split/index.js:20-27 | Concatenating all output elements in order reproduces the input exactly. |
| SmartSplit.SplitShape | node_modules/smart-split/index.js:22-27 | The output has 2k+1 elements for the k non-overlapping occurrences found left to right. Odd indices hold the separator, and no even-index element contains it. |
| SmartSplit.SplitCharacterization | node_modules/smart-split/index.js:19-28 | The output is exactly the alternating array that concatenates to the input and whose pieces are cut at leftmost, non-overlapping occurrences. This holds in both directions. |
| SmartSplit.SplitNoSeparator | node_modules/smart-split/index.js:20-27 | The output is `[input]` exactly when the input holds no occurrence of the separator. |
| SmartSplit.SplitLeadingSeparator | node_modules/smart-split/index.js:20-24 | The input starts with the separator exactly when the output has at least three elements and begins with an empty piece. |
| SmartSplit.SplitLastPiece | node_modules/smart-split/index.js:27 | The output is never empty. Its last element is a suffix of the input with no occurrence in it, and it is exactly the input after the earlier elements laid end to end, that is the text after the last cut. When there is more than one element, the separator comes right before it. |
| SmartSplit.SplitTrailingSeparator | node_modules/smart-split/index.js:27 | A trailing separator leaves a last piece shorter than the separator, which is empty for a one-character separator. Conversely, an empty last piece after at least one occurrence means the input ends with the separator. |
| SmartSplit.SplitCut | node_modules/smart-split/index.js:20-26 | A cut at the leftmost occurrence after `a` gives `[a, sep]` followed by the output for the rest. So the output restarts after every cut, and properties stated at the first cut carry to later ones. |
| SmartSplit.SplitAdjacentSeparators | node_modules/smart-split/index.js:20-25 | Two adjacent separators after a leftmost-cut piece `a` produce `[a, sep, "", sep]` followed by the split of the rest: an empty piece between them. |
| SmartSplit.LoopStep | node_modules/smart-split/index.js:22-26 | One loop turn, pushing a piece and then the separator, keeps "output so far, then the interleaving of the remaining pieces" equal to the whole interleaving. |
| SmartSplit.SplitLoop | node_modules/smart-split/index.js:20-27 | The loop over the split pieces, followed by the push of the last piece, returns `Split(input, sep)`, and that output concatenates back to the input. |
| SmartSplitExamples.SpacesOnly | node_modules/smart-split/test.js:7-8 | `' '` gives `['', ' ', '']` and `'  '` gives `['', ' ', '', ' ', '']`. |
| SmartSplitExamples.NoSpace | node_modules/smart-split/test.js:9 | `'test'` gives `['test']`. |
| SmartSplitExamples.TrailingSpace | node_modules/smart-split/test.js:10 | `'test '` gives `['test', ' ', '']`. |
| SmartSplitExamples.OneInteriorSpace | node_modules/smart-split/test.js:11 | `'test test'` gives `['test', ' ', 'test']`. |
| SmartSplitExamples.TwoWordsTrailingSpace | node_modules/smart-split/test.js:12 | `'test test '` gives `['test', ' ', 'test', ' ', '']`. |
| SmartSplitExamples.AdjacentSpaces | node_modules/smart-split/test.js:13 | `'test  test'` gives `['test', ' ', '', ' ', 'test']`. |
| SmartSplitExamples.AdjacentSpacesAfterCut | node_modules/smart-split/index.js:20-26 | Not one of the test file's vectors: `'a b  c'` gives `['a', ' ', 'b', ' ', '', ' ', 'c']`: the adjacent pair after a later cut, reached by chaining `SplitCut` and `SplitAdjacentSeparators`. |
| SmartSplitExamples.ThreeWords | node_modules/smart-split/test.js:14 | `'test test test'` gives `['test', ' ', 'test', ' ', 'test']`. |
| SmartSplitExamples.OverlappingSeparator | node_modules/smart-split/test.js:40-42 | With the string separator `'xx'`, the string branch gives the outputs these tests expect of the regex `/xx/`. `'xx'` gives `['', 'xx', '']`, `'xxx'` gives `['', 'xx', 'x']`, and `'xxxx'` gives `['', 'xx', '', 'xx', '']`, so matching is leftmost and non-overlapping. |
| SmartSplitExamples.OddRunInText | node_modules/smart-split/test.js:43 | `'testxxxtest'` split at `'xx'` gives `['test', 'xx', 'xtest']`. |
| SmartSplitExamples.EvenRunInText | node_modules/smart-split/test.js:44 | `'testxxxxtest'` split at `'xx'` gives `['test', 'xx', '', 'xx', 'test']`. |

## Left out

- The regular-expression branch (`index.js` lines 8-18) is not modelled. It depends on the JavaScript RegExp engine, `exec` and `lastIndex`. That includes its zero-width-match error at line 15 and the flag-dropping `toString().slice(1, -1)` rebuild of the pattern. No regex engine is part of this model.
- `isRegExp` (lines 1-3) is not modelled. It is a run-time type test through `Object.prototype.toString`. The model starts from the string branch, so the test is not needed.
- The empty separator is left out: every member that splits or searches requires `|sep| > 0`. With `''`, `String.prototype.split` splits into single code units. For an empty input it returns `[]`, and line 27 then reads `splits[-1]`, which is `undefined`. The tests never exercise this case.
- The `limit` argument of `String.prototype.split` is not modelled. It is never passed here, so it defaults to 2^32-1 and would only truncate arrays of more than four billion pieces.
- Strings holding surrogate code units are not modelled. JavaScript strings are sequences of UTF-16 code units, but a Dafny `char` is a Unicode scalar value and cannot be a surrogate. So a character outside the Basic Multilingual Plane (two surrogate code units, such as an emoji) has no image here. Neither does a split at a lone surrogate: `'\u{1F600}'.split('\uD83D')` gives `['', '\uDE00']`. Every other code unit is one `char`, with no encoding or normalisation.
- Separators that are not strings are not modelled. The branch at line 19 runs for every separator that is not a RegExp. `String.prototype.split` converts a number with ToString, but line 25 pushes the unconverted value, so `split('a1b', 1)` gives `['a', 1, 'b']`. An `undefined` separator gives `[input]`.
- Mutation of the `results` array by `push` is modelled as appending to an immutable sequence.
- The `node_modules/elliptical/test/choice.jsx` test file is not modelled. The grammar elements and traversal it exercises (`../src/element`, `./_util`) are not part of this model.
- The mocha/chai test runner is not modelled. The expected outputs of the string tests are stated as lemmas instead.
- SmartSplit.SplitTrailingSeparator: an empty last piece is promised only for one-character separators. With a longer separator, a trailing occurrence can overlap the previous match and go unfound. `'xxx'` split at `'xx'` ends with `'xx'`, yet its last piece is `'x'`. For that reason the general statement is only that the last piece is shorter than the separator.
- SmartSplit.SplitAdjacentSeparators: stated for an adjacent pair at the first cut only. `SmartSplit.SplitCut` carries it to any later cut, because the output after a cut is the output for the rest (see `SmartSplitExamples.AdjacentSpacesAfterCut`).
