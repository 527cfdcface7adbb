/**
  The primary-text merger of scraper/match-sefaria.js: the Sefaria text (one
  string per sentence) and the HebrewBooks text (one string per display line)
  are joined with their own markers, diffed character by character, and the
  edit script is walked into one merged string that carries both markers.
  The merged string is then split back into both views and compared with the
  inputs.

  The character diff itself comes from an external library; here it is an
  input, a sequence of `Part`s, and `IsEditScript` states what the library
  guarantees about it.
*/
module MatchSefaria {
  import opened JsString
  import opened Wrappers

  /** The marker between HebrewBooks display lines. */
  const LineSep: String := "<br>"
  /** The marker between Sefaria sentences. */
  const SentenceSep: String := "|"

  // ---------------------------------------------------------------------
  // processHebrew

  /** No `<` is followed, anywhere later, by a `>`: there is nothing left for the tag pattern to match. */
  predicate TagFree(s: String)
    decreases |s|
  {
    s == [] || ((s[0] == '<' ==> '>' !in s[1..]) && TagFree(s[1..]))
  }

  /** `s.replace(/<[^>]*>/g, "")`: each `<` that has a `>` after it is removed together with everything up to that first `>`. */
  function StripTags(s: String): (r: String)
    ensures |r| <= |s|
    ensures forall x :: x in r ==> x in s
    ensures TagFree(r)
    decreases |s|
  {
    if s == [] then []
    else if s[0] == '<' && '>' in s[1..] then
      var k := IndexOf(s[1..], '>');
      StripTags(s[k + 2..])
    else
      [s[0]] + StripTags(s[1..])
  }

  /** The en dash that `processHebrew` deletes. */
  const EnDash: char := '\U{2013}'
  /** The Hebrew geresh that `processHebrew` turns into an apostrophe. */
  const Geresh: char := '\U{05F3}'

  /** `processHebrew`: strip tags, delete en dashes, turn each geresh into `'`. */
  function ProcessHebrew(s: String): (r: String)
    ensures EnDash !in r && Geresh !in r
    ensures TagFree(r)
  {
    var stripped := StripTags(s);
    var noDash := ReplaceAll(stripped, [EnDash], []);
    ReplaceCharChars(stripped, EnDash, []);
    TagFreeReplace(stripped, EnDash, []);
    var r := ReplaceAll(noDash, [Geresh], "'");
    ReplaceCharChars(noDash, Geresh, "'");
    TagFreeReplace(noDash, Geresh, "'");
    r
  }

  /** `sefariaLines.map(processHebrew)` */
  function ProcessAll(lines: seq<String>): (r: seq<String>)
    ensures |r| == |lines|
    ensures forall i :: 0 <= i < |lines| ==> r[i] == ProcessHebrew(lines[i])
  {
    seq(|lines|, i requires 0 <= i < |lines| => ProcessHebrew(lines[i]))
  }

  /** The Sefaria side of the diff: the sentences joined by `|`, then normalised as a whole. */
  function SefariaString(sefariaLines: seq<String>): String
  {
    ProcessHebrew(Join(sefariaLines, SentenceSep))
  }

  /** The HebrewBooks side of the diff: the display lines joined by `<br>`. */
  function HbString(hbLines: seq<String>): String
  {
    Join(hbLines, LineSep)
  }

  lemma {:induction false} TagFreeAppend(p: String, q: String)
    requires TagFree(p) && TagFree(q)
    requires '<' in p ==> '>' !in q
    ensures TagFree(p + q)
    decreases |p|
  {
    if p == [] {
      assert p + q == q;
    } else {
      assert (p + q)[1..] == p[1..] + q;
      TagFreeAppend(p[1..], q);
    }
  }

  /** Deleting or replacing a character other than `<` and `>` by text without them keeps a string tag-free. */
  lemma {:induction false} TagFreeReplace(s: String, c: char, r: String)
    requires TagFree(s) && c != '<' && c != '>' && '<' !in r && '>' !in r
    ensures TagFree(ReplaceAll(s, [c], r))
    decreases |s|
  {
    if s != [] {
      assert s[..1] == [s[0]];
      TagFreeReplace(s[1..], c, r);
      var tail := ReplaceAll(s[1..], [c], r);
      ReplaceCharChars(s[1..], c, r);
      if s[0] == c {
        NoOpenTagFree(r);
        TagFreeAppend(r, tail);
      } else {
        TagFreeAppend([s[0]], tail);
      }
    }
  }

  lemma {:induction false} NoOpenTagFree(s: String)
    requires '<' !in s
    ensures TagFree(s)
    decreases |s|
  {
    if s != [] {
      NoOpenTagFree(s[1..]);
    }
  }

  /** On a tag-free text the tag pattern matches nothing. */
  lemma {:induction false} StripTagFree(s: String)
    requires TagFree(s)
    ensures StripTags(s) == s
    decreases |s|
  {
    if s != [] {
      StripTagFree(s[1..]);
    }
  }

  /** A tag at the start is removed together with everything inside it. */
  lemma StripLeadingTag(t: String, q: String)
    requires '>' !in t
    ensures StripTags("<" + t + ">" + q) == StripTags(q)
  {
    var s := "<" + t + ">" + q;
    var rest := t + ">" + q;
    assert s[0] == '<' && s[1..] == rest;
    assert rest[|t|] == '>' && rest[..|t|] == t;
    var k := IndexOf(rest, '>');
    assert k == |t|;
    assert s[k + 2..] == q;
  }

  /** A tag is removed together with everything inside it; the text before it, which holds no `<`, is kept. */
  lemma {:induction false} StripOneTag(p: String, t: String, q: String)
    requires '<' !in p && '>' !in t
    ensures StripTags(p + "<" + t + ">" + q) == p + StripTags(q)
    decreases |p|
  {
    var s := p + "<" + t + ">" + q;
    if p == [] {
      assert s == "<" + t + ">" + q;
      StripLeadingTag(t, q);
    } else {
      assert s[0] == p[0] && s[0] != '<';
      assert s[1..] == p[1..] + "<" + t + ">" + q;
      StripOneTag(p[1..], t, q);
      var tail := StripTags(q);
      calc {
        StripTags(s);
        [p[0]] + (p[1..] + tail);
        ([p[0]] + p[1..]) + tail;
        { assert [p[0]] + p[1..] == p; }
        p + tail;
      }
    }
  }

  /** `processHebrew` strips the tags, then deletes every en dash and turns every geresh into `'`, keeping everything else in order. */
  lemma ProcessHebrewSteps(s: String)
    ensures ProcessHebrew(s) == MapChar(DeleteChar(StripTags(s), EnDash), Geresh, '\'')
  {
    ReplaceCharIsDelete(StripTags(s), EnDash);
    ReplaceCharIsMap(DeleteChar(StripTags(s), EnDash), Geresh, '\'');
  }

  /** Replacing a character that does not occur changes nothing. */
  lemma ReplaceAbsentChar(s: String, c: char, r: String)
    requires c !in s
    ensures ReplaceAll(s, [c], r) == s
  {
    ReplaceAllPrefixFree(s, [], [c], r);
    assert s + [] == s;
  }

  /** `processHebrew` leaves a text without `<`, en dash and geresh as it is. */
  lemma ProcessHebrewPlain(s: String)
    requires '<' !in s && EnDash !in s && Geresh !in s
    ensures ProcessHebrew(s) == s
  {
    NoOpenTagFree(s);
    StripTagFree(s);
    ReplaceAbsentChar(s, EnDash, []);
    ReplaceAbsentChar(s, Geresh, "'");
  }

  /** Applying `processHebrew` twice gives what applying it once gives. */
  lemma ProcessHebrewIdempotent(s: String)
    ensures ProcessHebrew(ProcessHebrew(s)) == ProcessHebrew(s)
  {
    var t := ProcessHebrew(s);
    StripTagFree(t);
    ReplaceAbsentChar(t, EnDash, []);
    ReplaceAbsentChar(t, Geresh, "'");
  }

  // ---------------------------------------------------------------------
  // The edit-script walk

  /** One run of `Diff.diffChars(sefariaString, hbString)`. */
  datatype Part = Equal(value: String) | Added(value: String) | Removed(value: String)

  /** The text of the parts a diff keeps from its first string: equal and removed runs. */
  function OldText(diff: seq<Part>): String
  {
    if diff == [] then []
    else OldText(diff[..|diff| - 1]) + (if diff[|diff| - 1].Added? then [] else diff[|diff| - 1].value)
  }

  /** The text of the parts a diff builds its second string from: equal and added runs. */
  function NewText(diff: seq<Part>): String
  {
    if diff == [] then []
    else NewText(diff[..|diff| - 1]) + (if diff[|diff| - 1].Removed? then [] else diff[|diff| - 1].value)
  }

  /** What the diff library promises: the parts rebuild both compared strings. */
  predicate IsEditScript(diff: seq<Part>, a: String, b: String)
  {
    OldText(diff) == a && NewText(diff) == b
  }

  /** What one part appends to `merged`. */
  function PartOutput(part: Part): String
  {
    match part
    case Removed(v) => if Includes(v, SentenceSep) then SentenceSep else []
    case Added(v) => AddedMarks(Includes(v, "]"), Includes(v, LineSep), Includes(v, "["))
    case Equal(v) => v
  }

  /** What an added part appends: `] ` for a closing bracket, the line marker, `[` for an opening bracket. */
  function AddedMarks(close: bool, line: bool, open: bool): String
  {
    (if close then "] " else []) + (if line then LineSep else []) + (if open then "[" else [])
  }

  /** The merged string after walking the parts in order. */
  function MergedText(diff: seq<Part>): String
  {
    if diff == [] then [] else MergedText(diff[..|diff| - 1]) + PartOutput(diff[|diff| - 1])
  }

  /** The `diff.forEach` loop of `merge`, appending to `merged` part by part. */
  method MergeParts(diff: seq<Part>) returns (merged: String)
    ensures merged == MergedText(diff)
  {
    merged := "";
    for i := 0 to |diff|
      invariant merged == MergedText(diff[..i])
    {
      var part := diff[i];
      assert diff[..i + 1][..i] == diff[..i];
      ghost var before := merged;
      if part.Removed? {
        if Includes(part.value, SentenceSep) {
          merged := merged + SentenceSep;
        }
      } else if part.Added? {
        ghost var close: String, line: String, open: String := [], [], [];
        if Includes(part.value, "]") {
          merged := merged + "] ";
          close := "] ";
        }
        if Includes(part.value, LineSep) {
          merged := merged + LineSep;
          line := LineSep;
        }
        if Includes(part.value, "[") {
          merged := merged + "[";
          open := "[";
        }
        assert merged == before + (close + line + open);
      } else {
        merged := merged + part.value;
      }
      assert merged == before + PartOutput(part);
    }
    assert diff[..|diff|] == diff;
  }

  // ---------------------------------------------------------------------
  // Verification

  /** `compareTextArrays`' view of one element: trimmed, then one pass of `'  '` to `' '`. */
  function Normalize(s: String): String
  {
    ReplaceAll(Trim(s), "  ", " ")
  }

  /** The indices below `n` at which the normalised elements differ, in increasing order. */
  function Mismatches(a: seq<String>, b: seq<String>, n: nat): seq<nat>
    requires n <= |a| && n <= |b|
  {
    if n == 0 then []
    else Mismatches(a, b, n - 1) + (if Normalize(a[n - 1]) != Normalize(b[n - 1]) then [n - 1] else [])
  }

  /** What `compareTextArrays` throws when the arrays differ in length. */
  datatype CompareError = SizeMismatch(splitLength: nat, originalLength: nat)

  /** The result `compareTextArrays` returns or throws. */
  function Compared(splitArr: seq<String>, originalArr: seq<String>): Result<seq<nat>, CompareError>
  {
    if |splitArr| != |originalArr| then Err(SizeMismatch(|splitArr|, |originalArr|))
    else Ok(Mismatches(splitArr, originalArr, |splitArr|))
  }

  /** `compareTextArrays`: throws on a length mismatch, otherwise collects the differing indices. */
  method CompareTextArrays(splitArr: seq<String>, originalArr: seq<String>) returns (r: Result<seq<nat>, CompareError>)
    ensures r.Err? <==> |splitArr| != |originalArr|
    ensures r.Err? ==> r.error == SizeMismatch(|splitArr|, |originalArr|)
    ensures r.Ok? ==> r.value == Mismatches(splitArr, originalArr, |splitArr|)
  {
    if |splitArr| != |originalArr| {
      return Err(SizeMismatch(|splitArr|, |originalArr|));
    }
    var diffs: seq<nat> := [];
    var i := 0;
    while i < |splitArr|
      invariant 0 <= i <= |splitArr|
      invariant diffs == Mismatches(splitArr, originalArr, i)
    {
      var currSplit := Normalize(splitArr[i]);
      var currOriginal := Normalize(originalArr[i]);
      assert Mismatches(splitArr, originalArr, i + 1)
          == diffs + (if currSplit != currOriginal then [i] else []);
      if currSplit != currOriginal {
        diffs := diffs + [i];
      }
      i := i + 1;
    }
    return Ok(diffs);
  }

  /** The sentence view: line markers become spaces, then split at sentence markers. */
  function SentenceView(merged: String): seq<String>
  {
    Split(ReplaceAll(merged, LineSep, " "), SentenceSep)
  }

  /** The line view: sentence markers become spaces, then split at line markers. */
  function LineView(merged: String): seq<String>
  {
    Split(ReplaceAll(merged, SentenceSep, " "), LineSep)
  }

  /** The differing indices of both views. */
  datatype Issues = Issues(sefaria: seq<nat>, hb: seq<nat>)

  /** What `verifyMerged` returns, or throws from the first comparison that throws. */
  function Verification(merged: String, sefariaArray: seq<String>, hbArray: seq<String>): Result<Issues, CompareError>
  {
    var sentences := Compared(SentenceView(merged), sefariaArray);
    if sentences.Err? then Err(sentences.error)
    else
      var lines := Compared(LineView(merged), hbArray);
      if lines.Err? then Err(lines.error) else Ok(Issues(sentences.value, lines.value))
  }

  /** `verifyMerged`: compares the sentence view, then the line view. */
  method VerifyMerged(merged: String, sefariaArray: seq<String>, hbArray: seq<String>) returns (r: Result<Issues, CompareError>)
    ensures r == Verification(merged, sefariaArray, hbArray)
  {
    var splitBySentence := Split(ReplaceAll(merged, LineSep, " "), SentenceSep);
    var splitByLine := Split(ReplaceAll(merged, SentenceSep, " "), LineSep);
    var sefariaDiffs := CompareTextArrays(splitBySentence, sefariaArray);
    if sefariaDiffs.Err? {
      return Err(sefariaDiffs.error);
    }
    var hbDiffs := CompareTextArrays(splitByLine, hbArray);
    if hbDiffs.Err? {
      return Err(hbDiffs.error);
    }
    return Ok(Issues(sefariaDiffs.value, hbDiffs.value));
  }

  /** `merge`'s result: the merged string and the verification report. */
  datatype Merged = Merged(merged: String, issues: Issues)

  /**
    `merge`, given the edit script that `Diff.diffChars` returned for the
    Sefaria string and the HebrewBooks string. It throws exactly when
    `verifyMerged` throws; when the script rebuilds the Sefaria string, the
    merged string has no more sentence markers than that string.
  */
  method Merge(sefariaLines: seq<String>, hbLines: seq<String>, diff: seq<Part>) returns (r: Result<Merged, CompareError>)
    ensures r.Err? <==> Verification(MergedText(diff), ProcessAll(sefariaLines), hbLines).Err?
    ensures r.Ok? ==> r.value.merged == MergedText(diff)
    ensures r.Ok? ==> Verification(r.value.merged, ProcessAll(sefariaLines), hbLines) == Ok(r.value.issues)
    ensures r.Ok? && IsEditScript(diff, SefariaString(sefariaLines), HbString(hbLines)) ==>
      Count(r.value.merged, SentenceSep) <= Count(SefariaString(sefariaLines), SentenceSep)
  {
    var merged := MergeParts(diff);
    SentenceMarkersBound(diff);
    var issues := VerifyMerged(merged, ProcessAll(sefariaLines), hbLines);
    if issues.Err? {
      return Err(issues.error);
    }
    return Ok(Merged(merged, issues.value));
  }

  // ---------------------------------------------------------------------
  // Sentence markers through the walk (used by Merge's contract)

  /** The `|`s a part contributes: all of an equal part's, at most one for a removed part, none for an added part. */
  lemma PartSentenceMarkers(part: Part)
    ensures Count(PartOutput(part), SentenceSep) ==
      match part
      case Equal(v) => Count(v, SentenceSep)
      case Removed(v) => if Count(v, SentenceSep) > 0 then 1 else 0
      case Added(_) => 0
  {
    match part
    case Equal(v) =>
    case Removed(v) =>
      CountIncludes(v, SentenceSep);
    case Added(v) =>
      assert '|' !in PartOutput(part);
      CountAbsentChar(PartOutput(part), '|');
  }

  /** The `|`s the walk loses: for each removed part, all but one of its `|`s. */
  function LostMarkers(diff: seq<Part>): nat
  {
    if diff == [] then 0
    else
      var last := diff[|diff| - 1];
      LostMarkers(diff[..|diff| - 1])
      + (if last.Removed? && Count(last.value, SentenceSep) > 0 then Count(last.value, SentenceSep) - 1 else 0)
  }

  /** Every `|` of the Sefaria side reaches the merged string, except the extra ones in removed parts. */
  lemma {:induction false} SentenceMarkersKept(diff: seq<Part>)
    ensures Count(MergedText(diff), SentenceSep) + LostMarkers(diff) == Count(OldText(diff), SentenceSep)
    decreases |diff|
  {
    if diff != [] {
      var init, last := diff[..|diff| - 1], diff[|diff| - 1];
      SentenceMarkersKept(init);
      CountAppendChar(MergedText(init), PartOutput(last), '|');
      CountAppendChar(OldText(init), if last.Added? then [] else last.value, '|');
      PartSentenceMarkers(last);
      if last.Added? {
        CountAbsentChar([], '|');
      }
    }
  }

  /** The walk loses no `|` exactly when no removed part holds more than one. */
  lemma {:induction false} NoLostMarkers(diff: seq<Part>)
    ensures LostMarkers(diff) == 0 <==>
      forall i :: 0 <= i < |diff| && diff[i].Removed? ==> Count(diff[i].value, SentenceSep) <= 1
    decreases |diff|
  {
    if diff != [] {
      var init := diff[..|diff| - 1];
      NoLostMarkers(init);
      assert forall i :: 0 <= i < |init| ==> init[i] == diff[i];
    }
  }

  /**
    The merged string holds at most as many `|` as the Sefaria string, and
    exactly as many when every removed part holds at most one.
  */
  lemma SentenceMarkersBound(diff: seq<Part>)
    ensures Count(MergedText(diff), SentenceSep) <= Count(OldText(diff), SentenceSep)
    ensures Count(MergedText(diff), SentenceSep) == Count(OldText(diff), SentenceSep) <==>
      forall i :: 0 <= i < |diff| && diff[i].Removed? ==> Count(diff[i].value, SentenceSep) <= 1
  {
    SentenceMarkersKept(diff);
    NoLostMarkers(diff);
  }

  // ---------------------------------------------------------------------
  // checkForException

  /** The pair of line lists an override receives and returns. */
  datatype Texts = Texts(sefaria: seq<String>, hb: seq<String>)

  /** A registered correction: rewrites the Sefaria lines and the HebrewBooks lines. */
  type Override = (seq<String>, seq<String>) -> Texts

  /** The override table, keyed by lower-cased tractate, then daf, then text type. */
  type ExceptionTable = map<String, map<String, map<String, Override>>>

  predicate HasOverride(table: ExceptionTable, tractate: String, daf: String, text: String)
  {
    var key := ToLower(tractate);
    key in table && daf in table[key] && text in table[key][daf]
  }

  /** `checkForException`: the registered override's result, or the inputs unchanged. */
  function CheckForException(table: ExceptionTable, tractate: String, daf: String, text: String,
                             sefariaLines: seq<String>, hbLines: seq<String>): (r: Texts)
    ensures !HasOverride(table, tractate, daf, text) ==> r == Texts(sefariaLines, hbLines)
    ensures HasOverride(table, tractate, daf, text) ==>
      r == table[ToLower(tractate)][daf][text](sefariaLines, hbLines)
  {
    var key := ToLower(tractate);
    if key in table && daf in table[key] && text in table[key][daf] then
      var result := table[key][daf][text](sefariaLines, hbLines);
      Texts(result.sefaria, result.hb)
    else
      Texts(sefariaLines, hbLines)
  }

  /** The tractate is looked up case-insensitively: any spelling with the same lower case finds the same override. */
  lemma CheckForExceptionIgnoresCase(table: ExceptionTable, tractate: String, daf: String, text: String,
                                     sefariaLines: seq<String>, hbLines: seq<String>)
    ensures CheckForException(table, ToLower(tractate), daf, text, sefariaLines, hbLines)
         == CheckForException(table, tractate, daf, text, sefariaLines, hbLines)
  {
    assert ToLower(ToLower(tractate)) == ToLower(tractate);
  }
}
