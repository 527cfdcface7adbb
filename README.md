# Talmud scraper: merging Sefaria sentences with HebrewBooks lines

The scraper fetches each page of a tractate from HebrewBooks. There the main
text comes as display lines, with some of its text in `<span>`s, which are
wrapped in square brackets. It
fetches the same page from Sefaria, where the text comes as sentences. Both
are joined into one string: Sefaria's sentences with `|`, HebrewBooks' lines
with `<br>`. The two strings are then diffed character by character. Walking
the edit script produces a merged string that carries both the sentence
markers and the line markers. Finally the merged string is split back along
each marker and compared with the inputs.

This project models that core in Dafny:

- `js_string.dfy` (module `JsString`): the JavaScript string built-ins the core
  uses, written as left-to-right scans over `seq<char>`. These are
  `includes`, `indexOf`, `replaceAll` and `split` with a string pattern,
  `join`, `trim` and `toLowerCase`.
- `match_sefaria.dfy` (module `MatchSefaria`) covers:
  - `processHebrew`;
  - the `diff.forEach` walk of `merge`, as a loop method proved against the
    fold `MergedText`;
  - `compareTextArrays`, as a loop method proved against `Mismatches`;
  - `verifyMerged`;
  - `merge` itself;
  - `checkForException`, over an abstract override table.
- `merge_properties.dfy` (module `MergeProperties`): how each kind of part is
  rendered, how the walk composes, and the compared indices. It also has a
  concrete diff, with a whole sentence removed, that makes `verifyMerged`
  throw.
- `pre_aligned.dfy` (module `PreAligned`): a round-trip theorem. Suppose both
  sources hold the same words and differ only in where sentences and display
  lines end. Then, for the edit script that exchanges only the separators,
  the diff rebuilds both joined strings, and the merged string splits back
  into the sentences and the lines, up to one leading space on a sentence
  piece and one trailing space on a line piece. `trim` removes those spaces,
  so `verifyMerged` reports no index on either side. The theorem holds for
  that aligned script only: `ShiftedScriptMismatch` gives an equally short
  edit script of a pre-aligned pair after which `verifyMerged` reports
  mismatches, so the round trip depends on how the diff library breaks ties.
- `scraper_index.dfy` (module `Scraper`) covers:
  - `incrementDaf`, with `Number` and `String` on page references;
  - the page references a tractate's crawl requests;
  - `linesArray`;
  - the callback that wraps every `<span>` in square brackets.
- `wrappers.dfy` (module `Wrappers`): `Option` and `Result`.

The character diff comes from an external library. Here it is an input
`seq<Part>`. `IsEditScript(diff, a, b)` states the library's guarantee: the
equal and removed runs rebuild `a`, and the equal and added runs rebuild `b`.
A thrown JavaScript error is an `Err` of a `Result`.

`verifyMerged` calls `compareTextArrays`, so it is a method here
(`VerifyMerged`). The function `Verification` gives its result, and
`VerifyMerged` is proved equal to it.

## Model

| member | source | states |
|---|---|---|
| MatchSefaria.StripTags | scraper/match-sefaria.js:28 | the tag pattern leaves a text no longer than its input, made only of the input's characters, with no `<` that has a `>` after it; what it keeps is stated by StripOneTag and StripTagFree |
| MatchSefaria.StripLeadingTag | scraper/match-sefaria.js:28 | a tag at the start, from `<` to the first `>`, is removed with everything inside it |
| MatchSefaria.StripOneTag | scraper/match-sefaria.js:28 | `p + "<" + t + ">" + q` with no `<` in `p` and no `>` in `t` strips to `p` followed by the stripping of `q`: the tag goes, the text before it stays |
| MatchSefaria.StripTagFree | scraper/match-sefaria.js:28 | a text the pattern cannot match comes back unchanged |
| MatchSefaria.ProcessHebrew | scraper/match-sefaria.js:27-30 | the result holds no en dash, no geresh and nothing the tag pattern could still match |
| MatchSefaria.ProcessHebrewSteps | scraper/match-sefaria.js:27-30 | for every text, the result is the tag-stripped text with every en dash deleted and then every geresh turned into `'`, all other characters kept in order |
| JsString.ReplaceCharIsDelete | scraper/match-sefaria.js:29 | `replaceAll` of one character by `""` deletes each of its occurrences and keeps every other character in order |
| JsString.ReplaceCharIsMap | scraper/match-sefaria.js:30 | `replaceAll` of one character by one character is the position-by-position substitution |
| MatchSefaria.ProcessAll | scraper/match-sefaria.js:51 | `sefariaLines.map(processHebrew)`: same length, each element processed at its own index |
| MatchSefaria.ProcessHebrewIdempotent | scraper/match-sefaria.js:27-30 | applying `processHebrew` twice gives what applying it once gives |
| MatchSefaria.ProcessHebrewPlain | scraper/match-sefaria.js:27-30 | a text without `<`, en dash and geresh passes through unchanged |
| MatchSefaria.MergeParts | scraper/match-sefaria.js:35-50 | the `+=` loop over the parts builds exactly the fold `MergedText` of the per-part outputs |
| MatchSefaria.CompareTextArrays | scraper/match-sefaria.js:58-75 | throws exactly when the lengths differ; otherwise returns exactly `Mismatches`, the indices where trimmed, single-pass-collapsed elements differ |
| MatchSefaria.VerifyMerged | scraper/match-sefaria.js:77-89 | the sentence view and then the line view are compared; the result, including which comparison throws, is `Verification` |
| MatchSefaria.Merge | scraper/match-sefaria.js:26-56 | throws exactly when `verifyMerged` on the merged string throws; otherwise returns the merged string and its issues; for an edit script of the two joined strings, `merged` has no more `\|` than the Sefaria string |
| MatchSefaria.SefariaString | scraper/match-sefaria.js:33 | definition: the sentences joined by `\|`, then processed as a whole |
| MatchSefaria.HbString | scraper/match-sefaria.js:34 | definition: the display lines joined by `<br>` |
| MatchSefaria.PartOutput | scraper/match-sefaria.js:37-49 | definition: a removed part gives `\|` if it holds one, else nothing; an added part gives its marks; an equal part gives its text (properties in RemovedPartMarker, AddedPartMarkers, PartSentenceMarkers) |
| MatchSefaria.AddedMarks | scraper/match-sefaria.js:41-46 | definition: `] `, then `<br>`, then `[`, each only when its flag is set, in that order (properties in MarksIncluded) |
| MatchSefaria.MergedText | scraper/match-sefaria.js:35-50 | definition: the outputs of the parts concatenated in order, starting from `""` (properties in MergedAppend, SentenceMarkersBound, AllEqualMerge) |
| MatchSefaria.Normalize | scraper/match-sefaria.js:64-65 | definition: trim, then one pass of `'  '` to `' '` (property in NormalizeIsSinglePass) |
| MatchSefaria.Mismatches | scraper/match-sefaria.js:63-74 | definition: the indices below `n` at which the normalised elements differ, appended in increasing order (properties in MismatchesExactly, MismatchesIncreasing) |
| MatchSefaria.Compared | scraper/match-sefaria.js:58-75 | definition: a size mismatch for arrays of different lengths, otherwise the mismatching indices (property in CompareWithSelf) |
| MatchSefaria.SentenceView | scraper/match-sefaria.js:78 | definition: `<br>` replaced by a space, then split at `\|` (properties in ViewSizes, SentenceViewMatches) |
| MatchSefaria.LineView | scraper/match-sefaria.js:79 | definition: `\|` replaced by a space, then split at `<br>` (properties in ViewSizes, LineViewMatches) |
| MatchSefaria.Verification | scraper/match-sefaria.js:77-89 | definition: compare the sentence view, then the line view; the first size mismatch is thrown, otherwise both index lists are returned (properties in PreAlignedRoundTrip, MissingSentenceThrows) |
| MatchSefaria.PartSentenceMarkers | scraper/match-sefaria.js:36-49 | an equal part passes all its `\|`, a removed part at most one, an added part none |
| MatchSefaria.SentenceMarkersKept | scraper/match-sefaria.js:36-49 | the `\|`s of the merged string plus those lost in removed parts are exactly the `\|`s of the Sefaria side of the diff |
| MatchSefaria.NoLostMarkers | scraper/match-sefaria.js:37-39 | no `\|` is lost exactly when no removed part holds more than one |
| MatchSefaria.SentenceMarkersBound | scraper/match-sefaria.js:33-49 | the merged string has at most as many `\|` as the Sefaria side, and equally many if and only if every removed part holds at most one |
| MatchSefaria.CheckForException | scraper/match-sefaria.js:91-98 | with no override registered for (lower-cased tractate, daf, text) the inputs come back unchanged; otherwise the override's result |
| MatchSefaria.CheckForExceptionIgnoresCase | scraper/match-sefaria.js:92 | spellings of the tractate that lower-case alike select the same override |
| MergeProperties.MergedSnoc | scraper/match-sefaria.js:36-50 | one more part appends exactly that part's output |
| MergeProperties.MergedAppend | scraper/match-sefaria.js:36-50 | walking a concatenated diff is walking its halves one after the other |
| MergeProperties.OldTextAppend | scraper/match-sefaria.js:34 | the Sefaria side of a concatenated diff is the concatenation of the halves' Sefaria sides |
| MergeProperties.NewTextAppend | scraper/match-sefaria.js:34 | the same for the HebrewBooks side |
| MergeProperties.AllEqualMerge | scraper/match-sefaria.js:47-49 | a diff of equal parts only is copied verbatim: the merged string equals both compared strings |
| MergeProperties.IdenticalInputsMerge | scraper/match-sefaria.js:33-49 | when the diff of the two joined strings is all equal parts, the merged string is the processed, `\|`-joined Sefaria string |
| MergeProperties.AddedPartMarkers | scraper/match-sefaria.js:40-46 | an added part's output holds `]`, `<br>` and `[` exactly when the part does, and never a `\|` |
| MergeProperties.MarksIncluded | scraper/match-sefaria.js:41-46 | the three marks `] `, `<br>`, `[` appear in the output exactly when their flags are set, and no `\|` appears |
| MergeProperties.RemovedPartMarker | scraper/match-sefaria.js:37-39 | a removed part's output is one `\|` if the part holds one, and empty otherwise |
| MergeProperties.ViewSizes | scraper/match-sefaria.js:78-79 | the sentence view has one more element than the merged string has `\|`, the line view one more than it has `<br>` |
| MergeProperties.MismatchesIncreasing | scraper/match-sefaria.js:63-74 | the collected indices are strictly increasing and below the length |
| MergeProperties.MismatchesExactly | scraper/match-sefaria.js:63-74 | an index is collected if and only if the normalised elements at it differ |
| MergeProperties.MismatchesMarked | scraper/match-sefaria.js:63-74 | the loop's accumulator is the in-order list of the positions flagged as differing |
| MergeProperties.MismatchesSelf | scraper/match-sefaria.js:63-66 | comparing an array with itself collects nothing |
| MergeProperties.CompareWithSelf | scraper/match-sefaria.js:58-75 | comparing an array with itself neither throws nor reports an index |
| MergeProperties.NormalizeIsSinglePass | scraper/match-sefaria.js:64-65 | `replaceAll('  ', ' ')` is one pass: three spaces become two, so `a   b` and `a b` still differ |
| MergeProperties.MissingSentenceThrows | scraper/match-sefaria.js:33-62 | for sentences `a`, `b`, `c` and the line `ac`, the diff that removes `\|b\|` is a valid edit script, the merged string is `a\|c`, and `verifyMerged` throws a size mismatch (2 pieces against 3 sentences) |
| PreAligned.GapOutput | scraper/match-sefaria.js:37-49 | the parts of each separator exchange merge into ` `, `\|`, `<br>` or `\|<br>`, and rebuild the separator on both sides |
| PreAligned.MergedNext | scraper/match-sefaria.js:36-50 | a word followed by a separator contributes the word, then the separator's mark, to all three texts |
| PreAligned.AlignedSides | scraper/match-sefaria.js:33-34 | the aligned edit script rebuilds the `\|`-joined sentences and the `<br>`-joined lines |
| PreAligned.SentenceViewMatches | scraper/match-sefaria.js:78 | the sentence view of the merged string has one piece per sentence: the first is equal to it, and each later one differs only by a leading space |
| PreAligned.LineViewMatches | scraper/match-sefaria.js:79 | the line view of the merged string has one piece per line: each differs at most by a trailing space |
| PreAligned.NoMismatchesWhenTrimsAgree | scraper/match-sefaria.js:63-66 | elements whose trimmed forms agree are never reported |
| PreAligned.PreAlignedRoundTrip | scraper/match-sefaria.js:33-89 | for words free of markers and of `processHebrew`'s targets, the aligned diff (the one that exchanges only the separators) is an edit script of the two joined strings, and `verifyMerged` of its merged string returns no index on either side |
| PreAligned.ShiftedScriptMismatch | scraper/match-sefaria.js:33-89 | another edit script of the pre-aligned pair `x\|y z` / `x y<br>z`, with as many removed and added characters as the aligned one, merges to `x\| <br>z`, and `verifyMerged` then reports sentence 1 and line 0: the round trip needs the aligned script |
| JsString.Includes | scraper/match-sefaria.js:38 | definition: `t` occurs in `s` as a contiguous piece (property in IncludesChar) |
| JsString.IncludesChar | scraper/match-sefaria.js:38 | a one-character `includes` is membership of that character |
| JsString.ReplaceAll | scraper/match-sefaria.js:29-30 | definition: one left-to-right pass, each occurrence replaced and the replacement never scanned again (properties in ReplaceAllPrefixFree, ReplaceCharIsMap, ReplaceCharIsDelete) |
| JsString.Join | scraper/match-sefaria.js:33-34 | definition: the parts with the separator between consecutive ones, `""` for no parts |
| JsString.Trim | scraper/match-sefaria.js:64-65 | definition: leading and trailing ECMAScript whitespace removed (properties in TrimIdempotent, TrimChars) |
| JsString.ToLower | scraper/match-sefaria.js:92 | `toLowerCase` on ASCII: same length, each upper-case letter lowered, every other character kept |
| JsString.Split | scraper/match-sefaria.js:78-79 | `split` returns one more piece than the scan finds separators |
| JsString.IndexOf | scraper/index.js:20 | the first position of the character, or -1 exactly when it does not occur |
| JsString.SplitPiecesFree | scraper/index.js:53 | no piece of a split on a character contains that character |
| JsString.TrimIdempotent | scraper/index.js:54 | trimming a trimmed text changes nothing |
| JsString.TrimChars | scraper/index.js:54 | trimming adds no character |
| Scraper.ToNumber | scraper/index.js:22 | definition: `Number(s)` on page references: whitespace trimmed, `""` is 0, decimal digits are their value, anything else NaN (property in NumberRoundTrip) |
| Scraper.NumberToString | scraper/index.js:24-26 | definition: `String(x)`: the decimal digits of a number, `NaN` for NaN (property in NumberTextHasNoB) |
| Scraper.NumberTextHasNoB | scraper/index.js:24-26 | `String(x)` never holds a `b` |
| Scraper.IncrementDaf | scraper/index.js:19-27 | definition: with a `b`, the number before it plus one as text; without, the number then `b` (properties in IncrementFront, IncrementBack, IncrementAlternates) |
| Scraper.IncrementAlternates | scraper/index.js:19-27 | for every input: the result holds a `b` if and only if the input does not, and a result from an input without `b` ends in `b` |
| Scraper.NatToString | scraper/index.js:24 | `String(n)`: at least one digit, only digits, no leading zero |
| Scraper.NumberRoundTrip | scraper/index.js:22 | `Number(String(n)) == n` |
| Scraper.IncrementFront | scraper/index.js:19-27 | `incrementDaf("N") == "Nb"` |
| Scraper.IncrementBack | scraper/index.js:19-27 | `incrementDaf("Nb") == String(N+1)` |
| Scraper.IncrementTwice | scraper/index.js:19-27 | two increments take `"N"` to `String(N+1)` |
| Scraper.IncrementFrontNotANumber | scraper/index.js:20-26 | a reference without `b` that `Number` reads as NaN steps to `"NaNb"` |
| Scraper.IncrementBackNotANumber | scraper/index.js:20-26 | a reference with `b` whose text before the first `b` `Number` reads as NaN steps to `"NaN"` |
| Scraper.IncrementNotANumber | scraper/index.js:20-26 | instances: `"x"` steps to `"NaNb"` and `"xb"` to `"NaN"` |
| Scraper.IncrementNextSide | scraper/index.js:19-27 | `incrementDaf` takes each side of a page to the next side |
| Scraper.DafAt | scraper/index.js:30-42 | definition: the side `k` steps after the front of page 2, spelled `N` or `Nb` (properties in DafsFollowIncrement, DafsEnumerateSides) |
| Scraper.DafsFollowIncrement | scraper/index.js:30-42 | the crawl's references start at `'2'`, and each is `incrementDaf` of the one before |
| Scraper.DafsEnumerateSides | scraper/index.js:30-42 | the crawl's references run `2, 2b, 3, 3b, …`: request `2q` is `2+q`, request `2q+1` is `(2+q)b` |
| Scraper.TrimAll | scraper/index.js:54 | `map(line => line.trim())`: same length, each element trimmed |
| Scraper.NonEmpty | scraper/index.js:54 | `filter(line => line)`: never longer than its input (a single element is kept exactly when non-empty in NonEmptySingle; with NonEmptyAppend this pins the result; NonEmptyPieces bounds what is kept) |
| Scraper.NonEmptySingle | scraper/index.js:54 | one element is kept exactly when it is non-empty, so no non-empty element is dropped |
| Scraper.NonEmptyPieces | scraper/index.js:54 | the filter keeps only non-empty elements, each taken from the input |
| Scraper.NonEmptyAppend | scraper/index.js:54 | the filter keeps order: filtering a concatenation concatenates the filtered halves |
| Scraper.LinesArray | scraper/index.js:49-57 | definition: `[]` for a missing or empty text, otherwise split at newlines, trim each piece, keep the non-empty ones (properties in LinesClean, LinesOfLine, LinesAppend, LinesRoundTrip) |
| Scraper.LinesClean | scraper/index.js:49-57 | a missing or empty text gives no lines; every line is non-empty, trimmed and free of newlines |
| Scraper.LinesOfLine | scraper/index.js:49-57 | a text without a newline gives its trim as its one line, or no line when the trim is blank; with LinesAppend this gives the lines of every text |
| Scraper.LinesAppend | scraper/index.js:50-56 | the lines of two texts joined by a newline are the first text's lines, then the second's |
| Scraper.LinesRoundTrip | scraper/index.js:49-57 | clean lines joined by newlines split back into exactly those lines |
| Scraper.WrapSpan | scraper/index.js:63-77 | the span's text sits between `[` and `]`; a leading newline is repeated before `[`, a trailing one after `]`; length, bracket and newline counts grow accordingly |
| Scraper.SpanCounts | scraper/index.js:64-75 | the wrapped text has one more `[` and one more `]`, and one more newline for each newline end of the text |

## Left out

- Fetching: `textURI`, `getText`, `httpGet`, `loadPage` and the JSON decoding of Sefaria's answer are I/O. The line lists they produce are the inputs of the model.
- `Diff.diffChars` is an external library. Its result is an input sequence of parts. `IsEditScript` states the one guarantee used, that the parts rebuild both compared strings. Minimality of the diff is not modelled.
- The `exceptions` table comes from a file outside the scraper. It is an abstract map from lower-cased tractate, daf and text type to functions on the two line lists.
- Cheerio's HTML parsing and selection are left out. `$(this).text()` is the string `WrapSpan` receives. `.html()` is the optional string `LinesArray` receives (`None` where it returns null).
- The async generator `tractatePages` is left out, and so are `processPage`, `mergeText`, `mergeMain`, `mergeRashi` and `mergeTosafot`. The only part of the generator that is modelled is the sequence of page references it requests (`DafAt`).
- `console.log` output of `compareTextArrays`, `verifyMerged`, `mergeMain` and `processPage` is left out.
- Scraper.ToNumber: only decimal digits with surrounding whitespace, or whitespace alone, are read as numbers. A sign, a decimal point, hexadecimal, an exponent or `Infinity` gives NaN here, although JavaScript reads them as numbers. Page references are plain decimals, so none of these forms arise.
- Scraper.NatToString: numbers are unbounded naturals. The exponent notation JavaScript uses from 10^21 on, and the loss of precision beyond 2^53, are not modelled.
- JsString.ToLower: only the ASCII letters are lowered. The tractate names it is applied to are ASCII.
- There is no state machine for commentary headers, bodies or spill-over in this code, so none is modelled.
