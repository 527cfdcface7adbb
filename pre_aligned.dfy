/**
  The round trip of the primary-text merger for pre-aligned inputs: both
  sources hold the same words, and differ only in where Sefaria ends a
  sentence (`|` instead of a space) and where HebrewBooks ends a display line
  (`<br>` instead of a space). For the edit script that matches the words and
  exchanges only the separators, the merged string splits back into exactly
  the Sefaria sentences and exactly the HebrewBooks lines, up to the trimming
  that `compareTextArrays` applies, so `verifyMerged` reports no index.
*/
module PreAligned {
  import opened JsString
  import opened Wrappers
  import opened MatchSefaria
  import opened MergeProperties

  /** What separates two consecutive words: a sentence end in Sefaria, a line end in HebrewBooks, both or neither. */
  datatype Gap = Gap(sentenceBreak: bool, lineBreak: bool)

  /** A run of words with the separator after each word but the last. */
  datatype Doc = Last(word: String) | Next(word: String, gap: Gap, rest: Doc)

  /** A word that neither marker, nor tag stripping, nor `processHebrew`'s substitutions touch. */
  predicate Plain(w: String)
  {
    '|' !in w && '<' !in w && EnDash !in w && Geresh !in w
  }

  predicate PlainDoc(d: Doc)
  {
    match d
    case Last(w) => Plain(w)
    case Next(w, _, rest) => Plain(w) && PlainDoc(rest)
  }

  /** The Sefaria units: words joined by spaces, cut at each sentence break. */
  function Sentences(d: Doc): (r: seq<String>)
    ensures |r| >= 1
  {
    match d
    case Last(w) => [w]
    case Next(w, g, rest) =>
      var s := Sentences(rest);
      if g.sentenceBreak then [w] + s else [w + " " + s[0]] + s[1..]
  }

  /** The HebrewBooks display lines: words joined by spaces, cut at each line break. */
  function Lines(d: Doc): (r: seq<String>)
    ensures |r| >= 1
  {
    match d
    case Last(w) => [w]
    case Next(w, g, rest) =>
      var s := Lines(rest);
      if g.lineBreak then [w] + s else [w + " " + s[0]] + s[1..]
  }

  /** The runs a separator gives: a shared space is equal; otherwise Sefaria's separator is removed and HebrewBooks' added. */
  function GapParts(g: Gap): seq<Part>
  {
    match g
    case Gap(false, false) => [Equal(" ")]
    case Gap(true, false) => [Removed("|"), Added(" ")]
    case Gap(false, true) => [Removed(" "), Added("<br>")]
    case Gap(true, true) => [Removed("|"), Added("<br>")]
  }

  /** The edit script that keeps every word and exchanges only the separators. */
  function AlignedDiff(d: Doc): seq<Part>
  {
    match d
    case Last(w) => [Equal(w)]
    case Next(w, g, rest) => [Equal(w)] + GapParts(g) + AlignedDiff(rest)
  }

  /** What the walk writes for a separator: the space, the sentence marker, the line marker, or both markers. */
  function GapMark(g: Gap): String
  {
    match g
    case Gap(false, false) => " "
    case Gap(true, false) => "|"
    case Gap(false, true) => "<br>"
    case Gap(true, true) => "|" + "<br>"
  }

  // ---------------------------------------------------------------------
  // The merged string of an aligned diff

  /** The Sefaria text of a separator: the sentence marker or the space. */
  function GapOld(g: Gap): String
  {
    if g.sentenceBreak then "|" else " "
  }

  /** The HebrewBooks text of a separator: the line marker or the space. */
  function GapNew(g: Gap): String
  {
    if g.lineBreak then "<br>" else " "
  }

  lemma SpaceOutputs()
    ensures PartOutput(Equal(" ")) == " "
    ensures PartOutput(Removed(" ")) == []
    ensures PartOutput(Added(" ")) == []
  {
    IncludesChar(" ", '|');
    IncludesChar(" ", ']');
    IncludesChar(" ", '[');
    assert !Includes(" ", LineSep);
  }

  lemma MarkerOutputs()
    ensures PartOutput(Removed("|")) == "|"
    ensures PartOutput(Added("<br>")) == "<br>"
  {
    assert Includes("|", SentenceSep);
    assert "<br>"[..4] == LineSep;
    assert Includes("<br>", LineSep);
    IncludesChar("<br>", ']');
    IncludesChar("<br>", '[');
  }

  lemma OnePart(p: Part)
    ensures MergedText([p]) == PartOutput(p)
    ensures OldText([p]) == if p.Added? then [] else p.value
    ensures NewText([p]) == if p.Removed? then [] else p.value
  {
    assert [p][..0] == [];
  }

  lemma TwoParts(p: Part, q: Part)
    ensures MergedText([p, q]) == PartOutput(p) + PartOutput(q)
    ensures OldText([p, q]) == (if p.Added? then [] else p.value) + (if q.Added? then [] else q.value)
    ensures NewText([p, q]) == (if p.Removed? then [] else p.value) + (if q.Removed? then [] else q.value)
  {
    assert [p, q][..1] == [p];
    OnePart(p);
  }

  /** A plain gap stays a space on all three texts. */
  lemma SpaceGapOutput()
    ensures MergedText([Equal(" ")]) == " "
    ensures OldText([Equal(" ")]) == " " && NewText([Equal(" ")]) == " "
  {
    SpaceOutputs();
    OnePart(Equal(" "));
  }

  /** A sentence break becomes the sentence marker, a space on the Hebrew side. */
  lemma SentenceGapOutput()
    ensures MergedText([Removed("|"), Added(" ")]) == "|"
    ensures OldText([Removed("|"), Added(" ")]) == "|" && NewText([Removed("|"), Added(" ")]) == " "
  {
    SpaceOutputs();
    MarkerOutputs();
    TwoParts(Removed("|"), Added(" "));
    assert "|" + [] == "|" && [] + " " == " ";
  }

  /** A line break becomes the line marker, a space on the Sefaria side. */
  lemma LineGapOutput()
    ensures MergedText([Removed(" "), Added("<br>")]) == "<br>"
    ensures OldText([Removed(" "), Added("<br>")]) == " " && NewText([Removed(" "), Added("<br>")]) == "<br>"
  {
    SpaceOutputs();
    MarkerOutputs();
    TwoParts(Removed(" "), Added("<br>"));
    assert [] + "<br>" == "<br>" && " " + [] == " ";
  }

  /** A gap that breaks both sentence and line carries both markers. */
  lemma BothGapOutput()
    ensures MergedText([Removed("|"), Added("<br>")]) == "|" + "<br>"
    ensures OldText([Removed("|"), Added("<br>")]) == "|" && NewText([Removed("|"), Added("<br>")]) == "<br>"
  {
    MarkerOutputs();
    TwoParts(Removed("|"), Added("<br>"));
    assert "|" + [] == "|" && [] + "<br>" == "<br>";
  }

  lemma GapOutput(g: Gap)
    ensures MergedText(GapParts(g)) == GapMark(g)
    ensures OldText(GapParts(g)) == GapOld(g)
    ensures NewText(GapParts(g)) == GapNew(g)
  {
    match g
    case Gap(false, false) => SpaceGapOutput();
    case Gap(true, false) => SentenceGapOutput();
    case Gap(false, true) => LineGapOutput();
    case Gap(true, true) => BothGapOutput();
  }

  /** A diff that starts with an equal word: the word, then the rest, on all three texts. */
  lemma EqualCons(w: String, gap: seq<Part>, tail: seq<Part>)
    ensures MergedText([Equal(w)] + gap + tail) == w + MergedText(gap) + MergedText(tail)
    ensures OldText([Equal(w)] + gap + tail) == w + OldText(gap) + OldText(tail)
    ensures NewText([Equal(w)] + gap + tail) == w + NewText(gap) + NewText(tail)
  {
    var head := [Equal(w)];
    OnePart(Equal(w));
    MergedAppend(head + gap, tail);
    MergedAppend(head, gap);
    OldTextAppend(head + gap, tail);
    OldTextAppend(head, gap);
    NewTextAppend(head + gap, tail);
    NewTextAppend(head, gap);
  }

  /** The merged string of an aligned diff: each word followed by the mark of its separator. */
  lemma MergedNext(w: String, g: Gap, rest: Doc)
    ensures MergedText(AlignedDiff(Next(w, g, rest))) == w + GapMark(g) + MergedText(AlignedDiff(rest))
    ensures OldText(AlignedDiff(Next(w, g, rest))) == w + GapOld(g) + OldText(AlignedDiff(rest))
    ensures NewText(AlignedDiff(Next(w, g, rest))) == w + GapNew(g) + NewText(AlignedDiff(rest))
  {
    EqualCons(w, GapParts(g), AlignedDiff(rest));
    GapOutput(g);
  }

  // ---------------------------------------------------------------------
  // The aligned diff is an edit script of the two joined strings

  lemma JoinCons(x: String, s: seq<String>, sep: String)
    requires |s| >= 1
    ensures Join([x] + s, sep) == x + sep + Join(s, sep)
  {
    assert ([x] + s)[1..] == s;
  }

  lemma JoinGlue(x: String, s: seq<String>, sep: String)
    requires |s| >= 1
    ensures Join([x + s[0]] + s[1..], sep) == x + Join(s, sep)
  {
    var t := [x + s[0]] + s[1..];
    if |s| > 1 {
      assert t[1..] == s[1..];
    }
  }

  lemma {:induction false} AlignedSides(d: Doc)
    ensures OldText(AlignedDiff(d)) == Join(Sentences(d), SentenceSep)
    ensures NewText(AlignedDiff(d)) == Join(Lines(d), LineSep)
    decreases d
  {
    match d
    case Last(w) =>
      assert [Equal(w)][..0] == [];
    case Next(w, g, rest) =>
      AlignedSides(rest);
      MergedNext(w, g, rest);
      var s, l := Sentences(rest), Lines(rest);
      if g.sentenceBreak {
        JoinCons(w, s, SentenceSep);
      } else {
        JoinGlue(w + " ", s, SentenceSep);
      }
      if g.lineBreak {
        JoinCons(w, l, LineSep);
      } else {
        JoinGlue(w + " ", l, LineSep);
      }
  }

  /** The joined Sefaria string holds nothing `processHebrew` would change. */
  lemma {:induction false} SefariaSideClean(d: Doc)
    requires PlainDoc(d)
    ensures var j := Join(Sentences(d), SentenceSep); '<' !in j && EnDash !in j && Geresh !in j
    decreases d
  {
    match d
    case Last(w) =>
    case Next(w, g, rest) =>
      SefariaSideClean(rest);
      AlignedSides(d);
      AlignedSides(rest);
      MergedNext(w, g, rest);
  }

  /** Every Sefaria unit is plain, so `processHebrew` maps the units to themselves. */
  lemma {:induction false} SentencesPlain(d: Doc)
    requires PlainDoc(d)
    ensures forall i :: 0 <= i < |Sentences(d)| ==> Plain(Sentences(d)[i])
    decreases d
  {
    match d
    case Last(w) =>
    case Next(w, g, rest) =>
      SentencesPlain(rest);
  }

  lemma ProcessAllPlain(units: seq<String>)
    requires forall i :: 0 <= i < |units| ==> Plain(units[i])
    ensures ProcessAll(units) == units
  {
    forall i | 0 <= i < |units| ensures ProcessAll(units)[i] == units[i] {
      ProcessHebrewPlain(units[i]);
    }
  }

  // ---------------------------------------------------------------------
  // Splitting after a word

  /** A word followed by a space stays in the first piece. */
  lemma SplitAfterSpace(w: String, x: String, sep: String)
    requires |sep| > 0 && sep[0] != ' ' && sep[0] !in w
    ensures Split(w + " " + x, sep) == [w + " " + Split(x, sep)[0]] + Split(x, sep)[1..]
  {
    SplitPrefixFree(w + " ", x, sep);
  }

  /** A word followed by the separator is a piece of its own. */
  lemma SplitAfterSep(w: String, x: String, sep: String)
    requires |sep| > 0 && sep[0] !in w
    ensures Split(w + sep + x, sep) == [w] + Split(x, sep)
  {
    assert w + sep + x == w + (sep + x);
    SplitPrefixFree(w, sep + x, sep);
    SplitLeadingSep(sep, x);
    assert w + [] == w;
  }

  // ---------------------------------------------------------------------
  // The sentence view

  /** After a word and a space, the sentence view continues the first piece. */
  lemma SentenceViewAfterSpace(w: String, m: String)
    requires Plain(w)
    ensures SentenceView(w + " " + m) == [w + " " + SentenceView(m)[0]] + SentenceView(m)[1..]
  {
    ReplaceAllPrefixFree(w + " ", m, LineSep, " ");
    SplitAfterSpace(w, ReplaceAll(m, LineSep, " "), SentenceSep);
  }

  /** A line marker alone reads as a space in the sentence view. */
  lemma SentenceViewAfterLine(w: String, m: String)
    requires Plain(w)
    ensures SentenceView(w + "<br>" + m) == [w + " " + SentenceView(m)[0]] + SentenceView(m)[1..]
  {
    var x := ReplaceAll(m, LineSep, " ");
    assert w + "<br>" + m == w + (LineSep + m);
    ReplaceAllPrefixFree(w, LineSep + m, LineSep, " ");
    ReplaceLeadingPat(LineSep, m, " ");
    assert w + (" " + x) == w + " " + x;
    SplitAfterSpace(w, x, SentenceSep);
  }

  /** A sentence marker ends the word's piece. */
  lemma SentenceViewAfterSep(w: String, m: String)
    requires Plain(w)
    ensures SentenceView(w + "|" + m) == [w] + SentenceView(m)
  {
    ReplaceAllPrefixFree(w + "|", m, LineSep, " ");
    SplitAfterSep(w, ReplaceAll(m, LineSep, " "), SentenceSep);
  }

  /** Both markers end the word's piece, and the next piece starts with the space the line marker became. */
  lemma SentenceViewAfterBoth(w: String, m: String)
    requires Plain(w)
    ensures SentenceView(w + ("|" + "<br>") + m)
         == [w] + ([" " + SentenceView(m)[0]] + SentenceView(m)[1..])
  {
    var x := ReplaceAll(m, LineSep, " ");
    assert w + ("|" + "<br>") + m == (w + "|") + (LineSep + m);
    ReplaceAllPrefixFree(w + "|", LineSep + m, LineSep, " ");
    ReplaceLeadingPat(LineSep, m, " ");
    assert (w + "|") + (" " + x) == w + SentenceSep + (" " + x);
    SplitAfterSep(w, " " + x, SentenceSep);
    SplitPrefixFree(" ", x, SentenceSep);
  }

  /** The sentence view of a word, a separator and a merged tail, in terms of the tail's view. */
  function SentenceViewStep(w: String, g: Gap, v: seq<String>): seq<String>
    requires |v| >= 1
  {
    if !g.sentenceBreak then [w + " " + v[0]] + v[1..]
    else if g.lineBreak then [w] + ([" " + v[0]] + v[1..])
    else [w] + v
  }

  lemma SentenceViewNext(w: String, g: Gap, m: String)
    requires Plain(w)
    ensures SentenceView(w + GapMark(g) + m) == SentenceViewStep(w, g, SentenceView(m))
  {
    match g
    case Gap(false, false) => SentenceViewAfterSpace(w, m);
    case Gap(true, false) => SentenceViewAfterSep(w, m);
    case Gap(false, true) => SentenceViewAfterLine(w, m);
    case Gap(true, true) => SentenceViewAfterBoth(w, m);
  }

  /** The view matches the units: the first exactly, each later one up to a leading space. */
  predicate SentencesMatch(v: seq<String>, s: seq<String>)
  {
    |v| == |s| >= 1 && v[0] == s[0]
    && forall i :: 1 <= i < |v| ==> v[i] == s[i] || v[i] == " " + s[i]
  }

  lemma SentencesMatchStep(w: String, g: Gap, v: seq<String>, rest: Doc)
    requires SentencesMatch(v, Sentences(rest))
    ensures SentencesMatch(SentenceViewStep(w, g, v), Sentences(Next(w, g, rest)))
  {
    var s := Sentences(rest);
    var v', s' := SentenceViewStep(w, g, v), Sentences(Next(w, g, rest));
    if !g.sentenceBreak {
      forall i | 1 <= i < |v'| ensures v'[i] == s'[i] || v'[i] == " " + s'[i] {
        assert v'[i] == v[i] && s'[i] == s[i];
      }
    } else {
      forall i | 1 <= i < |v'| ensures v'[i] == s'[i] || v'[i] == " " + s'[i] {
        assert s'[i] == s[i - 1];
        if i > 1 || !g.lineBreak { assert v'[i] == v[i - 1]; }
      }
    }
  }

  lemma {:induction false} SentenceViewMatches(d: Doc)
    requires PlainDoc(d)
    ensures SentencesMatch(SentenceView(MergedText(AlignedDiff(d))), Sentences(d))
    decreases d
  {
    match d
    case Last(w) =>
      OnePart(Equal(w));
      ReplaceAllPrefixFree(w, [], LineSep, " ");
      SplitPrefixFree(w, [], SentenceSep);
      assert w + [] == w;
    case Next(w, g, rest) =>
      SentenceViewMatches(rest);
      var m := MergedText(AlignedDiff(rest));
      MergedNext(w, g, rest);
      SentenceViewNext(w, g, m);
      SentencesMatchStep(w, g, SentenceView(m), rest);
  }

  // ---------------------------------------------------------------------
  // The line view

  /** After a word and a space, the line view continues the first piece. */
  lemma LineViewAfterSpace(w: String, m: String)
    requires Plain(w)
    ensures LineView(w + " " + m) == [w + " " + LineView(m)[0]] + LineView(m)[1..]
  {
    ReplaceAllPrefixFree(w + " ", m, SentenceSep, " ");
    SplitAfterSpace(w, ReplaceAll(m, SentenceSep, " "), LineSep);
  }

  /** A sentence marker alone reads as a space in the line view. */
  lemma LineViewAfterSep(w: String, m: String)
    requires Plain(w)
    ensures LineView(w + "|" + m) == [w + " " + LineView(m)[0]] + LineView(m)[1..]
  {
    var y := ReplaceAll(m, SentenceSep, " ");
    assert w + "|" + m == w + (SentenceSep + m);
    ReplaceAllPrefixFree(w, SentenceSep + m, SentenceSep, " ");
    ReplaceLeadingPat(SentenceSep, m, " ");
    assert w + (" " + y) == w + " " + y;
    SplitAfterSpace(w, y, LineSep);
  }

  /** A line marker ends the word's piece. */
  lemma LineViewAfterLine(w: String, m: String)
    requires Plain(w)
    ensures LineView(w + "<br>" + m) == [w] + LineView(m)
  {
    ReplaceAllPrefixFree(w + "<br>", m, SentenceSep, " ");
    SplitAfterSep(w, ReplaceAll(m, SentenceSep, " "), LineSep);
  }

  /** Both markers end the word's piece, which keeps the space the sentence marker became. */
  lemma LineViewAfterBoth(w: String, m: String)
    requires Plain(w)
    ensures LineView(w + ("|" + "<br>") + m) == [w + " "] + LineView(m)
  {
    var y := ReplaceAll(m, SentenceSep, " ");
    assert w + ("|" + "<br>") + m == w + (SentenceSep + (LineSep + m));
    ReplaceAllPrefixFree(w, SentenceSep + (LineSep + m), SentenceSep, " ");
    ReplaceLeadingPat(SentenceSep, LineSep + m, " ");
    ReplaceAllPrefixFree(LineSep, m, SentenceSep, " ");
    assert w + (" " + (LineSep + y)) == (w + " ") + LineSep + y;
    SplitAfterSep(w + " ", y, LineSep);
  }

  /** The line view of a word, a separator and a merged tail, in terms of the tail's view. */
  function LineViewStep(w: String, g: Gap, v: seq<String>): seq<String>
    requires |v| >= 1
  {
    if !g.lineBreak then [w + " " + v[0]] + v[1..]
    else if g.sentenceBreak then [w + " "] + v
    else [w] + v
  }

  lemma LineViewNext(w: String, g: Gap, m: String)
    requires Plain(w)
    ensures LineView(w + GapMark(g) + m) == LineViewStep(w, g, LineView(m))
  {
    match g
    case Gap(false, false) => LineViewAfterSpace(w, m);
    case Gap(true, false) => LineViewAfterSep(w, m);
    case Gap(false, true) => LineViewAfterLine(w, m);
    case Gap(true, true) => LineViewAfterBoth(w, m);
  }

  /** The view matches the lines, each up to a trailing space. */
  predicate LinesMatch(v: seq<String>, l: seq<String>)
  {
    |v| == |l| >= 1 && forall i :: 0 <= i < |v| ==> v[i] == l[i] || v[i] == l[i] + " "
  }

  lemma LinesMatchStep(w: String, g: Gap, v: seq<String>, rest: Doc)
    requires LinesMatch(v, Lines(rest))
    ensures LinesMatch(LineViewStep(w, g, v), Lines(Next(w, g, rest)))
  {
    var l := Lines(rest);
    var v', l' := LineViewStep(w, g, v), Lines(Next(w, g, rest));
    if !g.lineBreak {
      forall i | 0 <= i < |v'| ensures v'[i] == l'[i] || v'[i] == l'[i] + " " {
        if i == 0 {
          assert v[0] == l[0] || v[0] == l[0] + " ";
          assert w + " " + (l[0] + " ") == w + " " + l[0] + " ";
        } else {
          assert v'[i] == v[i] && l'[i] == l[i];
        }
      }
    } else {
      forall i | 0 <= i < |v'| ensures v'[i] == l'[i] || v'[i] == l'[i] + " " {
        if i > 0 { assert v'[i] == v[i - 1] && l'[i] == l[i - 1]; }
      }
    }
  }

  lemma {:induction false} LineViewMatches(d: Doc)
    requires PlainDoc(d)
    ensures LinesMatch(LineView(MergedText(AlignedDiff(d))), Lines(d))
    decreases d
  {
    match d
    case Last(w) =>
      OnePart(Equal(w));
      ReplaceAllPrefixFree(w, [], SentenceSep, " ");
      SplitPrefixFree(w, [], LineSep);
      assert w + [] == w;
    case Next(w, g, rest) =>
      LineViewMatches(rest);
      var m := MergedText(AlignedDiff(rest));
      MergedNext(w, g, rest);
      LineViewNext(w, g, m);
      LinesMatchStep(w, g, LineView(m), rest);
  }

  // ---------------------------------------------------------------------
  // The comparison

  /** Elements that agree after trimming compare equal in `compareTextArrays`. */
  lemma {:induction false} NoMismatchesWhenTrimsAgree(v: seq<String>, s: seq<String>, n: nat)
    requires n <= |v| && n <= |s|
    requires forall i :: 0 <= i < n ==> Trim(v[i]) == Trim(s[i])
    ensures Mismatches(v, s, n) == []
    decreases n
  {
    if n > 0 {
      NoMismatchesWhenTrimsAgree(v, s, n - 1);
    }
  }

  lemma SentencesTrimAgree(v: seq<String>, s: seq<String>)
    requires SentencesMatch(v, s)
    ensures Mismatches(v, s, |v|) == []
  {
    forall i | 0 <= i < |v| ensures Trim(v[i]) == Trim(s[i]) {
      if v[i] != s[i] {
        TrimLeadingSpace(s[i]);
      }
    }
    NoMismatchesWhenTrimsAgree(v, s, |v|);
  }

  lemma LinesTrimAgree(v: seq<String>, l: seq<String>)
    requires LinesMatch(v, l)
    ensures Mismatches(v, l, |v|) == []
  {
    forall i | 0 <= i < |v| ensures Trim(v[i]) == Trim(l[i]) {
      if v[i] != l[i] {
        TrimTrailingSpace(l[i]);
      }
    }
    NoMismatchesWhenTrimsAgree(v, l, |v|);
  }

  /**
    Round trip of the primary merge: for pre-aligned inputs the aligned diff
    is an edit script of the two joined strings, and verifying its merged
    string reports no differing sentence and no differing line.
  */
  lemma PreAlignedRoundTrip(d: Doc)
    requires PlainDoc(d)
    ensures IsEditScript(AlignedDiff(d), SefariaString(Sentences(d)), HbString(Lines(d)))
    ensures Verification(MergedText(AlignedDiff(d)), ProcessAll(Sentences(d)), Lines(d)) == Ok(Issues([], []))
  {
    AlignedSides(d);
    SefariaSideClean(d);
    ProcessHebrewPlain(Join(Sentences(d), SentenceSep));
    SentencesPlain(d);
    ProcessAllPlain(Sentences(d));
    var m := MergedText(AlignedDiff(d));
    SentenceViewMatches(d);
    LineViewMatches(d);
    SentencesTrimAgree(SentenceView(m), Sentences(d));
    LinesTrimAgree(LineView(m), Lines(d));
  }

  // ---------------------------------------------------------------------
  // The round trip needs the aligned script

  /**
    Another edit script of the pre-aligned pair "x|y z" / "x y<br>z" (the
    sentences "x", "y z" and the lines "x y", "z"): it removes "|y" and adds
    "y<br>" instead of exchanging only the separators, with as many removed
    and added characters as the aligned script.
  */
  const ShiftedDiff: seq<Part> := [Equal("x"), Removed("|y"), Equal(" "), Added("y<br>"), Equal("z")]

  lemma ShiftedScript()
    ensures OldText(ShiftedDiff) == "x|y z" && NewText(ShiftedDiff) == "x y<br>z"
  {
    var diff := ShiftedDiff;
    assert diff[..4] == [Equal("x"), Removed("|y"), Equal(" "), Added("y<br>")];
    assert diff[..4][..3] == [Equal("x"), Removed("|y"), Equal(" ")];
    assert diff[..4][..3][..2] == [Equal("x"), Removed("|y")];
    assert diff[..4][..3][..2][..1] == [Equal("x")];
    assert diff[..4][..3][..2][..1][..0] == [];
    assert OldText([Equal("x")]) == OldText([]) + "x";
    assert NewText([Equal("x")]) == NewText([]) + "x";
    assert OldText([Equal("x"), Removed("|y")]) == "x" + "|y";
    assert NewText([Equal("x"), Removed("|y")]) == "x" + [];
    assert OldText(diff[..4]) == "x|y" + " " + [];
    assert NewText(diff[..4]) == "x" + " " + "y<br>";
  }

  lemma ShiftedOutputs()
    ensures PartOutput(Removed("|y")) == SentenceSep
    ensures PartOutput(Added("y<br>")) == LineSep
  {
    assert "|y"[..1] == SentenceSep;
    var v := "y<br>";
    assert !Includes(v, "]") by { IncludesChar(v, ']'); }
    assert !Includes(v, "[") by { IncludesChar(v, '['); }
    assert Includes(v, LineSep) by {
      assert v[1..][..4] == LineSep;
    }
  }

  lemma ShiftedMerged()
    ensures MergedText(ShiftedDiff) == "x| <br>z"
  {
    var diff := ShiftedDiff;
    assert diff[..4] == [Equal("x"), Removed("|y"), Equal(" "), Added("y<br>")];
    assert diff[..4][..3] == [Equal("x"), Removed("|y"), Equal(" ")];
    assert diff[..4][..3][..2] == [Equal("x"), Removed("|y")];
    assert diff[..4][..3][..2][..1] == [Equal("x")];
    assert diff[..4][..3][..2][..1][..0] == [];
    ShiftedOutputs();
    assert "x" + "|" == "x|";
    assert "x|" + " " == "x| ";
    assert "x| " + "<br>" == "x| <br>";
    assert "x| <br>" + "z" == "x| <br>z";
    assert MergedText([Equal("x")]) == [] + "x";
    assert MergedText(diff[..4][..3][..2]) == "x" + "|";
    assert MergedText(diff[..4][..3]) == "x|" + " ";
    assert MergedText(diff[..4]) == "x| " + "<br>";
  }

  lemma ShiftedSentenceReplace()
    ensures ReplaceAll("x| <br>z", LineSep, " ") == "x|  z"
  {
    ReplaceLeadingPat(LineSep, "z", " ");
    assert LineSep + "z" == "<br>z";
    assert ReplaceAll("z", LineSep, " ") == "z";
    ReplaceSkip(' ', "<br>z", LineSep, " ");
    assert [' '] + "<br>z" == " <br>z";
    ReplaceSkip('|', " <br>z", LineSep, " ");
    assert ['|'] + " <br>z" == "| <br>z";
    ReplaceSkip('x', "| <br>z", LineSep, " ");
    assert ['x'] + "| <br>z" == "x| <br>z";
    assert " " + "z" == " z";
    assert [' '] + " z" == "  z";
    assert ['|'] + "  z" == "|  z";
    assert ['x'] + "|  z" == "x|  z";
  }

  lemma ShiftedSentenceSplit()
    ensures Split("x|  z", SentenceSep) == ["x", "  z"]
  {
    SplitAbsentChar("  z", '|');
    SplitLeadingSep(SentenceSep, "  z");
    assert SentenceSep + "  z" == "|  z";
    var rest := Split("|  z", SentenceSep);
    assert rest == [[], "  z"];
    SplitSkip('x', "|  z", SentenceSep);
    assert ['x'] + "|  z" == "x|  z";
    assert ['x'] + rest[0] == "x" && rest[1..] == ["  z"];
  }

  lemma ShiftedSentenceView()
    ensures SentenceView("x| <br>z") == ["x", "  z"]
  {
    ShiftedSentenceReplace();
    ShiftedSentenceSplit();
  }

  lemma ShiftedLineReplaceTail()
    ensures ReplaceAll("| <br>z", SentenceSep, " ") == "  <br>z"
  {
    ReplaceAbsentChar("<br>z", '|', " ");
    ReplaceSkip(' ', "<br>z", SentenceSep, " ");
    assert [' '] + "<br>z" == " <br>z";
    ReplaceLeadingPat(SentenceSep, " <br>z", " ");
    assert SentenceSep + " <br>z" == "| <br>z";
    assert " " + " <br>z" == "  <br>z";
  }

  lemma ShiftedLineReplace()
    ensures ReplaceAll("x| <br>z", SentenceSep, " ") == "x  <br>z"
  {
    ShiftedLineReplaceTail();
    ReplaceSkip('x', "| <br>z", SentenceSep, " ");
    assert ['x'] + "| <br>z" == "x| <br>z";
    assert ['x'] + "  <br>z" == "x  <br>z";
  }

  lemma ShiftedLineSplit()
    ensures Split("x  <br>z", LineSep) == ["x  ", "z"]
  {
    SplitLeadingSep(LineSep, "z");
    assert LineSep + "z" == "<br>z";
    var r0 := Split("<br>z", LineSep);
    assert r0 == [[], "z"];
    SplitSkip(' ', "<br>z", LineSep);
    assert [' '] + "<br>z" == " <br>z";
    var r1 := Split(" <br>z", LineSep);
    assert [' '] + r0[0] == " " && r0[1..] == ["z"];
    assert r1 == [" ", "z"];
    SplitSkip(' ', " <br>z", LineSep);
    assert [' '] + " <br>z" == "  <br>z";
    var r2 := Split("  <br>z", LineSep);
    assert [' '] + r1[0] == "  " && r1[1..] == ["z"];
    assert r2 == ["  ", "z"];
    SplitSkip('x', "  <br>z", LineSep);
    assert ['x'] + "  <br>z" == "x  <br>z";
    assert ['x'] + r2[0] == "x  ";
  }

  lemma ShiftedTrims()
    ensures Trim("x") == "x" && Trim("z") == "z" && Trim("y z") == "y z" && Trim("x y") == "x y"
    ensures Trim("  z") == "z" && Trim("x  ") == "x"
  {
    VisibleNotWhitespace('x');
    VisibleNotWhitespace('y');
    VisibleNotWhitespace('z');
    TrimTrimmed("z");
    TrimTrimmed("x");
    TrimTrimmed("y z");
    TrimTrimmed("x y");
    TrimLeadingSpace(" z");
    TrimLeadingSpace("z");
    assert [' '] + " z" == "  z" && [' '] + "z" == " z";
    TrimTrailingSpace("x ");
    TrimTrailingSpace("x");
    assert "x " + [' '] == "x  " && "x" + [' '] == "x ";
  }

  /** Three-character texts with single spaces have no double space to collapse. */
  lemma ShiftedCollapse()
    ensures ReplaceAll("y z", "  ", " ") == "y z" && ReplaceAll("x y", "  ", " ") == "x y"
  {
    assert ReplaceAll("z", "  ", " ") == "z" && ReplaceAll("y", "  ", " ") == "y";
    assert ReplaceAll(" z", "  ", " ") == " z" by {
      assert " z"[..2] != "  " by { assert " z"[1] != "  "[1]; }
      assert " z"[1..] == "z";
    }
    assert ReplaceAll(" y", "  ", " ") == " y" by {
      assert " y"[..2] != "  " by { assert " y"[1] != "  "[1]; }
      assert " y"[1..] == "y";
    }
    ReplaceSkip('y', " z", "  ", " ");
    ReplaceSkip('x', " y", "  ", " ");
    assert ['y'] + " z" == "y z" && ['x'] + " y" == "x y";
  }

  lemma ShiftedNormalized()
    ensures Normalize("x") == Normalize("x") && Normalize("z") == Normalize("z")
    ensures Normalize("  z") == "z" && Normalize("y z") == "y z"
    ensures Normalize("x  ") == "x" && Normalize("x y") == "x y"
  {
    ShiftedTrims();
    ShiftedCollapse();
    assert ReplaceAll("z", "  ", " ") == "z" && ReplaceAll("x", "  ", " ") == "x";
  }

  lemma ShiftedLineView()
    ensures LineView("x| <br>z") == ["x  ", "z"]
  {
    ShiftedLineReplace();
    ShiftedLineSplit();
  }

  lemma ShiftedCompared()
    ensures Compared(["x", "  z"], ["x", "y z"]) == Ok([1])
    ensures Compared(["x  ", "z"], ["x y", "z"]) == Ok([0])
  {
    ShiftedNormalized();
    var a, b := ["x", "  z"], ["x", "y z"];
    assert Mismatches(a, b, 0) == [];
    assert Normalize(a[0]) == Normalize(b[0]);
    assert Mismatches(a, b, 1) == [];
    assert Normalize(a[1]) != Normalize(b[1]);
    assert Mismatches(a, b, 2) == [] + [1];
    assert |a| == |b| == 2;
    assert Compared(a, b) == Ok(Mismatches(a, b, 2));
    assert Mismatches(a, b, 2) == [1];
    assert Compared(["x", "  z"], ["x", "y z"]) == Ok([1]);
    var c, d := ["x  ", "z"], ["x y", "z"];
    assert Mismatches(c, d, 0) == [];
    assert Normalize(c[0]) != Normalize(d[0]);
    assert Mismatches(c, d, 1) == [] + [0];
    assert Normalize(c[1]) == Normalize(d[1]);
    assert Mismatches(c, d, 2) == [0] + [];
    assert |c| == |d| == 2;
    assert Compared(c, d) == Ok(Mismatches(c, d, 2));
    assert Mismatches(c, d, 2) == [0];
    assert Compared(["x  ", "z"], ["x y", "z"]) == Ok([0]);
  }

  /**
    The round trip depends on the script: this equally short script of a
    pre-aligned pair moves the word "y" into the removed and added runs, so
    "y" is lost from both views and `verifyMerged` reports sentence 1 and
    line 0.
  */
  lemma ShiftedInputs()
    ensures SefariaString(["x", "y z"]) == "x|y z" && HbString(["x y", "z"]) == "x y<br>z"
    ensures ProcessAll(["x", "y z"]) == ["x", "y z"]
  {
    assert Join(["x", "y z"], SentenceSep) == "x|y z";
    assert Join(["x y", "z"], LineSep) == "x y<br>z";
    ProcessHebrewPlain("x|y z");
    ProcessHebrewPlain("x");
    ProcessHebrewPlain("y z");
  }

  lemma ShiftedScriptMismatch()
    ensures IsEditScript(ShiftedDiff, SefariaString(["x", "y z"]), HbString(["x y", "z"]))
    ensures MergedText(ShiftedDiff) == "x| <br>z"
    ensures Verification(MergedText(ShiftedDiff), ProcessAll(["x", "y z"]), ["x y", "z"]) == Ok(Issues([1], [0]))
  {
    ShiftedInputs();
    ShiftedScript();
    ShiftedMerged();
    ShiftedSentenceView();
    ShiftedLineView();
    ShiftedCompared();
  }
}
