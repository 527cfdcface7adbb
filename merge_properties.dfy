/**
  Properties of the primary-text merger: how each kind of diff part reaches
  the merged string, what identical inputs produce, how many pieces the two
  reconstructed views have, and what `compareTextArrays` reports.
*/
module MergeProperties {
  import opened JsString
  import opened Wrappers
  import opened MatchSefaria

  /** Regrouping a concatenation; a proof step for the append lemmas below. */
  lemma ConcatAssoc(a: String, b: String, c: String)
    ensures (a + b) + c == a + (b + c)
  {
  }

  /** Appending one part appends its output. */
  lemma MergedSnoc(diff: seq<Part>, part: Part)
    ensures MergedText(diff + [part]) == MergedText(diff) + PartOutput(part)
  {
    assert (diff + [part])[..|diff|] == diff;
  }

  /** The walk over a diff is the walk over its first half followed by the walk over its second half. */
  lemma {:induction false} MergedAppend(p: seq<Part>, q: seq<Part>)
    ensures MergedText(p + q) == MergedText(p) + MergedText(q)
    decreases |q|
  {
    if q == [] {
      assert p + q == p;
    } else {
      var init, last := q[..|q| - 1], q[|q| - 1];
      assert q == init + [last];
      assert p + q == (p + init) + [last];
      MergedAppend(p, init);
      MergedSnoc(p + init, last);
      MergedSnoc(init, last);
      ConcatAssoc(MergedText(p), MergedText(init), PartOutput(last));
    }
  }

  lemma OldSnoc(diff: seq<Part>, part: Part)
    ensures OldText(diff + [part]) == OldText(diff) + (if part.Added? then [] else part.value)
  {
    assert (diff + [part])[..|diff|] == diff;
  }

  lemma NewSnoc(diff: seq<Part>, part: Part)
    ensures NewText(diff + [part]) == NewText(diff) + (if part.Removed? then [] else part.value)
  {
    assert (diff + [part])[..|diff|] == diff;
  }

  /** The Sefaria side of a diff is read off its halves in order. */
  lemma {:induction false} OldTextAppend(p: seq<Part>, q: seq<Part>)
    ensures OldText(p + q) == OldText(p) + OldText(q)
    decreases |q|
  {
    if q == [] {
      assert p + q == p;
    } else {
      var init, last := q[..|q| - 1], q[|q| - 1];
      assert q == init + [last];
      assert p + q == (p + init) + [last];
      OldTextAppend(p, init);
      OldSnoc(p + init, last);
      OldSnoc(init, last);
      ConcatAssoc(OldText(p), OldText(init), if last.Added? then [] else last.value);
    }
  }

  /** The HebrewBooks side of a diff is read off its halves in order. */
  lemma {:induction false} NewTextAppend(p: seq<Part>, q: seq<Part>)
    ensures NewText(p + q) == NewText(p) + NewText(q)
    decreases |q|
  {
    if q == [] {
      assert p + q == p;
    } else {
      var init, last := q[..|q| - 1], q[|q| - 1];
      assert q == init + [last];
      assert p + q == (p + init) + [last];
      NewTextAppend(p, init);
      NewSnoc(p + init, last);
      NewSnoc(init, last);
      ConcatAssoc(NewText(p), NewText(init), if last.Removed? then [] else last.value);
    }
  }

  /** A diff of equal parts only is copied verbatim: the merged string is both compared strings. */
  lemma {:induction false} AllEqualMerge(diff: seq<Part>)
    requires forall i :: 0 <= i < |diff| ==> diff[i].Equal?
    ensures MergedText(diff) == OldText(diff) == NewText(diff)
    decreases |diff|
  {
    if diff != [] {
      AllEqualMerge(diff[..|diff| - 1]);
    }
  }

  /** For identical inputs the diff is all equal parts and the merged string is the processed, `|`-joined Sefaria string. */
  lemma IdenticalInputsMerge(sefariaLines: seq<String>, hbLines: seq<String>, diff: seq<Part>)
    requires IsEditScript(diff, SefariaString(sefariaLines), HbString(hbLines))
    requires forall i :: 0 <= i < |diff| ==> diff[i].Equal?
    ensures MergedText(diff) == SefariaString(sefariaLines) == HbString(hbLines)
  {
    AllEqualMerge(diff);
  }

  /**
    An added part contributes a `]`, a line marker and a `[` exactly when it
    holds one, and never a sentence marker.
  */
  lemma AddedPartMarkers(v: String)
    ensures var out := PartOutput(Added(v));
      (Includes(out, "]") <==> Includes(v, "]"))
      && (Includes(out, LineSep) <==> Includes(v, LineSep))
      && (Includes(out, "[") <==> Includes(v, "["))
      && !Includes(out, SentenceSep)
  {
    MarksIncluded(Includes(v, "]"), Includes(v, LineSep), Includes(v, "["));
  }

  /** The marks of an added part hold each marker exactly when its flag is set. */
  lemma MarksIncluded(close: bool, line: bool, open: bool)
    ensures var out := AddedMarks(close, line, open);
      (Includes(out, "]") <==> close)
      && (Includes(out, LineSep) <==> line)
      && (Includes(out, "[") <==> open)
      && !Includes(out, SentenceSep)
  {
    MarksBrackets(close, line, open);
    MarksLine(close, line, open);
  }

  /** The marks, as their three pieces (a proof step for the two lemmas below). */
  lemma MarksSplit(close: bool, line: bool, open: bool)
    ensures AddedMarks(close, line, open)
      == (if close then "] " else []) + ((if line then LineSep else []) + (if open then "[" else []))
  {
  }

  /** The brackets appear exactly when their flags are set; the sentence marker never does. */
  lemma MarksBrackets(close: bool, line: bool, open: bool)
    ensures var out := AddedMarks(close, line, open);
      (Includes(out, "]") <==> close) && (Includes(out, "[") <==> open) && !Includes(out, SentenceSep)
  {
    MarksSplit(close, line, open);
    var out := AddedMarks(close, line, open);
    IncludesChar(out, ']');
    IncludesChar(out, '[');
    IncludesChar(out, '|');
  }

  /** The line marker appears exactly when its flag is set. */
  lemma MarksLine(close: bool, line: bool, open: bool)
    ensures Includes(AddedMarks(close, line, open), LineSep) <==> line
  {
    MarksSplit(close, line, open);
    var out := AddedMarks(close, line, open);
    var c: String := if close then "] " else [];
    if line {
      assert out[|c|..][..4] == LineSep;
      IncludesSuffix(out, |c|, LineSep);
    } else {
      IncludesChar(out, '<');
    }
  }

  /** A removed part contributes one sentence marker if it held any, and nothing else. */
  lemma RemovedPartMarker(v: String)
    ensures var out := PartOutput(Removed(v));
      (out == SentenceSep <==> Count(v, SentenceSep) > 0)
      && (out == [] <==> Count(v, SentenceSep) == 0)
  {
    CountIncludes(v, SentenceSep);
  }

  /** The sentence view has one piece more than there are `|`, the line view one more than there are `<br>`. */
  lemma ViewSizes(merged: String)
    ensures |SentenceView(merged)| == Count(merged, SentenceSep) + 1
    ensures |LineView(merged)| == Count(merged, LineSep) + 1
  {
    CountReplaceAllChar(merged, LineSep, " ", '|');
    ReplaceCharIsMap(merged, '|', ' ');
    CountMapChar(merged, '|', ' ', LineSep);
  }

  /** Every element is below `n`, and the elements strictly increase. */
  predicate IncreasingBelow(r: seq<nat>, n: nat)
  {
    (forall i :: 0 <= i < |r| ==> r[i] < n)
    && (forall i, j :: 0 <= i < j < |r| ==> r[i] < r[j])
  }

  /** Whether the normalised elements differ, position by position, over the common length. */
  function DiffFlags(a: seq<String>, b: seq<String>): (flags: seq<bool>)
    ensures |flags| == if |a| <= |b| then |a| else |b|
  {
    var m := if |a| <= |b| then |a| else |b|;
    seq(m, i requires 0 <= i < m => Normalize(a[i]) != Normalize(b[i]))
  }

  /** The indices below `n` whose flag is set, in increasing order. */
  function Marked(flags: seq<bool>, n: nat): seq<nat>
    requires n <= |flags|
  {
    if n == 0 then [] else Marked(flags, n - 1) + (if flags[n - 1] then [n - 1] else [])
  }

  /** The comparison loop collects exactly the positions whose flag is set. */
  lemma {:induction false} MismatchesMarked(a: seq<String>, b: seq<String>, n: nat)
    requires n <= |a| && n <= |b|
    ensures Mismatches(a, b, n) == Marked(DiffFlags(a, b), n)
    decreases n
  {
    if n > 0 {
      MismatchesMarked(a, b, n - 1);
      assert DiffFlags(a, b)[n - 1] == (Normalize(a[n - 1]) != Normalize(b[n - 1]));
    }
  }

  lemma {:induction false} MarkedIncreasing(flags: seq<bool>, n: nat)
    requires n <= |flags|
    ensures IncreasingBelow(Marked(flags, n), n)
    decreases n
  {
    if n > 0 {
      MarkedIncreasing(flags, n - 1);
      IncreasingExtend(Marked(flags, n - 1), n - 1);
    }
  }

  lemma {:induction false} MarkedExactly(flags: seq<bool>, n: nat, k: nat)
    requires n <= |flags|
    ensures k in Marked(flags, n) <==> k < n && flags[k]
    decreases n
  {
    if n > 0 {
      MarkedExactly(flags, n - 1, k);
      var prev := Marked(flags, n - 1);
      assert k in prev + [n - 1] <==> k in prev || k == n - 1;
    }
  }

  /** The indices `compareTextArrays` collects are increasing and below the length. */
  lemma MismatchesIncreasing(a: seq<String>, b: seq<String>, n: nat)
    requires n <= |a| && n <= |b|
    ensures IncreasingBelow(Mismatches(a, b, n), n)
  {
    MismatchesMarked(a, b, n);
    MarkedIncreasing(DiffFlags(a, b), n);
  }

  lemma IncreasingExtend(r: seq<nat>, n: nat)
    requires IncreasingBelow(r, n)
    ensures IncreasingBelow(r, n + 1) && IncreasingBelow(r + [n], n + 1)
  {
    var r' := r + [n];
    forall i, j | 0 <= i < j < |r'| ensures r'[i] < r'[j] {
      assert r'[i] == r[i];
      if j < |r| {
        assert r'[j] == r[j];
      }
    }
  }

  /** An index is collected exactly when the normalised elements there differ. */
  lemma MismatchesExactly(a: seq<String>, b: seq<String>, n: nat, k: nat)
    requires n <= |a| && n <= |b|
    ensures k in Mismatches(a, b, n) <==> k < n && Normalize(a[k]) != Normalize(b[k])
  {
    MismatchesMarked(a, b, n);
    MarkedExactly(DiffFlags(a, b), n, k);
    if k < n {
      assert DiffFlags(a, b)[k] == (Normalize(a[k]) != Normalize(b[k]));
    }
  }

  lemma {:induction false} MismatchesSelf(a: seq<String>, n: nat)
    requires n <= |a|
    ensures Mismatches(a, a, n) == []
    decreases n
  {
    if n > 0 {
      MismatchesSelf(a, n - 1);
    }
  }

  /** Comparing an array with itself neither throws nor reports anything. */
  lemma CompareWithSelf(a: seq<String>)
    ensures Compared(a, a) == Ok([])
  {
    MismatchesSelf(a, |a|);
  }

  /** `replaceAll('  ', ' ')` is one pass: a run of three spaces keeps two, so it still differs from one space. */
  lemma NormalizeIsSinglePass()
    ensures Normalize("a   b") == "a  b"
    ensures Normalize("a   b") != Normalize("a b")
  {
    VisibleNotWhitespace('a');
    VisibleNotWhitespace('b');
    assert Trim("a   b") == "a   b";
    assert Trim("a b") == "a b";
    assert ReplaceAll("b", "  ", " ") == "b";
    assert ReplaceAll(" b", "  ", " ") == " b" by {
      assert " b"[..2] == " b" && " b"[1..] == "b";
      assert " b" != "  " by { assert " b"[1] != "  "[1]; }
    }
    assert ReplaceAll("   b", "  ", " ") == "  b" by {
      assert "   b"[..2] == "  " && "   b"[2..] == " b";
    }
    assert ReplaceAll("a   b", "  ", " ") == "a  b" by {
      assert "a   b"[..2] != "  " && "a   b"[1..] == "   b";
    }
    assert ReplaceAll("a b", "  ", " ") == "a b" by {
      assert "a b"[..2] != "  " && "a b"[1..] == " b";
    }
  }

  /** A diff of "a|b|c" against "ac" in which the middle sentence is removed whole. */
  const MissingSentenceDiff: seq<Part> := [Equal("a"), Removed("|b|"), Equal("c")]

  lemma MissingSentenceScript()
    ensures OldText(MissingSentenceDiff) == "a|b|c" && NewText(MissingSentenceDiff) == "ac"
  {
    var diff := MissingSentenceDiff;
    assert diff[..2] == [Equal("a"), Removed("|b|")] && diff[..2][..1] == [Equal("a")];
    assert diff[..1][..0] == [];
    assert NewText(diff[..1]) == NewText([]) + "a";
    assert OldText(diff[..1]) == "a" && NewText(diff[..1]) == "a";
    assert NewText(diff[..2]) == NewText(diff[..1]) + [];
    assert OldText(diff[..2]) == "a|b|" && NewText(diff[..2]) == "a";
  }

  lemma MissingSentenceMerged()
    ensures MergedText(MissingSentenceDiff) == "a|c"
  {
    var diff := MissingSentenceDiff;
    assert diff[..2] == [Equal("a"), Removed("|b|")] && diff[..2][..1] == [Equal("a")];
    assert diff[..1][..0] == [];
    assert "|b|"[..1] == SentenceSep;
    assert PartOutput(Removed("|b|")) == "|";
    assert MergedText(diff[..1]) == "a";
    assert MergedText(diff[..2]) == "a|";
  }

  lemma MissingSentenceView()
    ensures |SentenceView("a|c")| == 2
  {
    assert ReplaceAll("a|c", LineSep, " ") == "a|c";
    assert Count("a|c", SentenceSep) == 1 by {
      assert "a|c"[..1][0] == 'a';
      assert "a|c"[..1] != "|" && "a|c"[1..] == "|c";
      assert "|c"[..1] == "|" && "|c"[1..] == "c";
    }
  }

  /**
    A sentence that HebrewBooks lacks entirely ("b" between "a" and "c")
    leaves a removed part holding two `|`; the walk keeps one of them, the
    sentence view comes out one piece short, and `verifyMerged` throws
    instead of reporting the missing sentence.
  */
  lemma MissingSentenceThrows()
    ensures IsEditScript(MissingSentenceDiff, SefariaString(["a", "b", "c"]), HbString(["ac"]))
    ensures MergedText(MissingSentenceDiff) == "a|c"
    ensures Verification(MergedText(MissingSentenceDiff), ProcessAll(["a", "b", "c"]), ["ac"])
            == Err(SizeMismatch(2, 3))
  {
    assert Join(["a", "b", "c"], SentenceSep) == "a|b|c";
    ProcessHebrewPlain("a|b|c");
    MissingSentenceScript();
    MissingSentenceMerged();
    MissingSentenceView();
  }
}
