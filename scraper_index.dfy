/**
  The string helpers of the HebrewBooks page crawler: the page-reference
  successor `incrementDaf`, the line splitter `linesArray`, and the callback
  that wraps each `<span>` of the main text in square brackets.
*/
module Scraper {
  import opened JsString
  import opened Wrappers

  // ---------------------------------------------------------------------
  // Numbers as `Number(s)` and `String(n)` see page references

  /** A JavaScript number as it arises from a page reference: a natural number, or NaN. */
  datatype JsNumber = Num(n: nat) | NaN

  predicate IsDigit(c: char)
  {
    '0' <= c <= '9'
  }

  predicate AllDigits(s: String)
  {
    forall i :: 0 <= i < |s| ==> IsDigit(s[i])
  }

  function DigitValue(c: char): (d: nat)
    requires IsDigit(c)
    ensures d < 10
  {
    c as int - '0' as int
  }

  function DigitChar(d: nat): (c: char)
    requires d < 10
    ensures IsDigit(c) && DigitValue(c) == d
  {
    (d + '0' as int) as char
  }

  /** The value of a run of decimal digits, most significant first. */
  function ParseDecimal(s: String): nat
    requires AllDigits(s)
    decreases |s|
  {
    if s == [] then 0 else 10 * ParseDecimal(s[..|s| - 1]) + DigitValue(s[|s| - 1])
  }

  /** `Number(s)`: whitespace around the text is ignored, the empty text is 0, digits are their value, anything else is NaN. */
  function ToNumber(s: String): JsNumber
  {
    var t := Trim(s);
    if t == [] then Num(0)
    else if AllDigits(t) then Num(ParseDecimal(t))
    else NaN
  }

  /** `String(n)` of a natural number: its decimal digits without leading zeros. */
  function NatToString(n: nat): (r: String)
    ensures |r| >= 1 && AllDigits(r)
    ensures |r| > 1 ==> r[0] != '0'
  {
    if n < 10 then [DigitChar(n)] else NatToString(n / 10) + [DigitChar(n % 10)]
  }

  /** `String(x)`, and the text `x + 'b'` builds before its suffix. */
  function NumberToString(x: JsNumber): String
  {
    match x
    case Num(n) => NatToString(n)
    case NaN => "NaN"
  }

  /** `x + 1`; NaN stays NaN. */
  function Successor(x: JsNumber): JsNumber
  {
    match x
    case Num(n) => Num(n + 1)
    case NaN => NaN
  }

  /** Reading the digits back gives the number. */
  lemma {:induction false} ParseNatToString(n: nat)
    ensures ParseDecimal(NatToString(n)) == n
  {
    if n >= 10 {
      ParseNatToString(n / 10);
      var r := NatToString(n);
      assert r[..|r| - 1] == NatToString(n / 10);
    }
  }

  /** `Number(String(n)) == n` for a natural number. */
  lemma NumberRoundTrip(n: nat)
    ensures ToNumber(NatToString(n)) == Num(n)
  {
    var r := NatToString(n);
    VisibleNotWhitespace(r[0]);
    VisibleNotWhitespace(r[|r| - 1]);
    TrimTrimmed(r);
    ParseNatToString(n);
  }

  // ---------------------------------------------------------------------
  // incrementDaf

  /** The next page reference: `N` is followed by its back side `Nb`, and `Nb` by the page `N+1`. */
  function IncrementDaf(daf: String): String
  {
    var bIndex := IndexOf(daf, 'b');
    if bIndex > -1 then NumberToString(Successor(ToNumber(daf[..bIndex])))
    else NumberToString(ToNumber(daf)) + "b"
  }

  /** `String(x)` never holds a `b`: it is digits or `NaN`. */
  lemma NumberTextHasNoB(x: JsNumber)
    ensures 'b' !in NumberToString(x)
  {
    if x.Num? {
      var r := NatToString(x.n);
      assert forall i :: 0 <= i < |r| ==> IsDigit(r[i]);
    }
  }

  /** `incrementDaf` alternates sides: a reference with a `b` is followed by one without, and one without by one ending in `b`. */
  lemma IncrementAlternates(daf: String)
    ensures 'b' in IncrementDaf(daf) <==> 'b' !in daf
    ensures 'b' !in daf ==> IncrementDaf(daf)[|IncrementDaf(daf)| - 1] == 'b'
  {
    var k := IndexOf(daf, 'b');
    if k > -1 {
      NumberTextHasNoB(Successor(ToNumber(daf[..k])));
    } else {
      NumberTextHasNoB(ToNumber(daf));
    }
  }

  /** The front side `N` of a page is followed by its back side `Nb`. */
  lemma IncrementFront(n: nat)
    ensures IncrementDaf(NatToString(n)) == NatToString(n) + "b"
  {
    var r := NatToString(n);
    assert forall i :: 0 <= i < |r| ==> IsDigit(r[i]);
    NumberRoundTrip(n);
  }

  /** The back side `Nb` of a page is followed by the next page `N+1`. */
  lemma IncrementBack(n: nat)
    ensures IncrementDaf(NatToString(n) + "b") == NatToString(n + 1)
  {
    var r := NatToString(n);
    var daf := r + "b";
    var k := IndexOf(daf, 'b');
    assert daf[|r|] == 'b' && daf[..|r|] == r;
    assert forall i :: 0 <= i < |r| ==> IsDigit(daf[i]);
    assert k == |r|;
    assert daf[..k] == r;
    NumberRoundTrip(n);
  }

  /** Two steps from page `N` reach page `N+1`. */
  lemma IncrementTwice(n: nat)
    ensures IncrementDaf(IncrementDaf(NatToString(n))) == NatToString(n + 1)
  {
    IncrementFront(n);
    IncrementBack(n);
  }

  /** One side of a page: the front `N` or the back `Nb`. */
  datatype PageSide = PageSide(page: nat, back: bool)

  /** How a page reference spells a side. */
  function SideText(side: PageSide): String
  {
    if side.back then NatToString(side.page) + "b" else NatToString(side.page)
  }

  /** The side after `side`: the back of the same page, or the front of the next one. */
  function NextSide(side: PageSide): PageSide
  {
    if side.back then PageSide(side.page + 1, false) else PageSide(side.page, true)
  }

  /** The side `k` steps after the front of page 2, where every tractate starts. */
  function SideAfter(k: nat): PageSide
  {
    if k == 0 then PageSide(2, false) else NextSide(SideAfter(k - 1))
  }

  /** The page reference of the `k`-th request of a tractate's crawl. */
  function DafAt(k: nat): String
  {
    SideText(SideAfter(k))
  }

  /** `incrementDaf` steps from each side to the next one. */
  lemma IncrementNextSide(side: PageSide)
    ensures IncrementDaf(SideText(side)) == SideText(NextSide(side))
  {
    if side.back {
      IncrementBack(side.page);
    } else {
      IncrementFront(side.page);
    }
  }

  /** The sides run `2, 2b, 3, 3b, …`: step `2q` is the front of page `2 + q`, step `2q + 1` its back. */
  lemma {:induction false} SidesAlternate(q: nat)
    ensures SideAfter(2 * q) == PageSide(2 + q, false)
    ensures SideAfter(2 * q + 1) == PageSide(2 + q, true)
  {
    if q > 0 {
      SidesAlternate(q - 1);
      assert SideAfter(2 * q) == NextSide(SideAfter(2 * (q - 1) + 1));
    }
    assert SideAfter(2 * q + 1) == NextSide(SideAfter(2 * q));
  }

  /** The crawl requests `2, 2b, 3, 3b, …` without gaps or repeats. */
  lemma DafsEnumerateSides(q: nat)
    ensures DafAt(2 * q) == NatToString(2 + q)
    ensures DafAt(2 * q + 1) == NatToString(2 + q) + "b"
  {
    SidesAlternate(q);
  }

  /** The crawl starts at `'2'`, and `incrementDaf` takes each request to the next. */
  lemma DafsFollowIncrement(k: nat)
    ensures DafAt(0) == "2"
    ensures IncrementDaf(DafAt(k)) == DafAt(k + 1)
  {
    assert NatToString(2) == "2";
    IncrementNextSide(SideAfter(k));
  }

  /** A front-side reference that is not a number steps to `'NaNb'`. */
  lemma IncrementFrontNotANumber(daf: String)
    requires 'b' !in daf && ToNumber(daf) == NaN
    ensures IncrementDaf(daf) == "NaNb"
  {
  }

  /** A back-side reference whose page is not a number steps to `'NaN'`. */
  lemma IncrementBackNotANumber(daf: String)
    requires 'b' in daf && ToNumber(daf[..IndexOf(daf, 'b')]) == NaN
    ensures IncrementDaf(daf) == "NaN"
  {
  }

  /** For instance, `'x'` steps to `'NaNb'` and `'xb'` to `'NaN'`. */
  lemma IncrementNotANumber()
    ensures IncrementDaf("x") == "NaNb"
    ensures IncrementDaf("xb") == "NaN"
  {
    VisibleNotWhitespace('x');
    TrimTrimmed("x");
    assert !AllDigits("x");
    IncrementFrontNotANumber("x");
    assert "xb"[..IndexOf("xb", 'b')] == "x";
    IncrementBackNotANumber("xb");
  }

  // ---------------------------------------------------------------------
  // linesArray

  /** Every piece trimmed, in order. */
  function TrimAll(pieces: seq<String>): (r: seq<String>)
    ensures |r| == |pieces|
    ensures forall i :: 0 <= i < |pieces| ==> r[i] == Trim(pieces[i])
  {
    seq(|pieces|, i requires 0 <= i < |pieces| => Trim(pieces[i]))
  }

  /** The non-empty pieces, in order. */
  function NonEmpty(pieces: seq<String>): (r: seq<String>)
    ensures |r| <= |pieces|
  {
    if pieces == [] then []
    else (if pieces[0] == [] then [] else [pieces[0]]) + NonEmpty(pieces[1..])
  }

  /** `linesArray(html)`: nothing for a missing or empty text, otherwise its trimmed non-blank lines. */
  function LinesArray(html: Option<String>): seq<String>
  {
    if html.None? || html.value == [] then []
    else NonEmpty(TrimAll(Split(html.value, "\n")))
  }

  /** Filtering keeps only non-empty pieces, each one taken from the input. */
  lemma {:induction false} NonEmptyPieces(pieces: seq<String>)
    ensures forall i :: 0 <= i < |NonEmpty(pieces)| ==> NonEmpty(pieces)[i] != [] && NonEmpty(pieces)[i] in pieces
    decreases |pieces|
  {
    if pieces != [] {
      NonEmptyPieces(pieces[1..]);
      var r := NonEmpty(pieces);
      var head := if pieces[0] == [] then [] else [pieces[0]];
      assert r == head + NonEmpty(pieces[1..]);
      forall i | 0 <= i < |r| ensures r[i] != [] && r[i] in pieces {
        if i >= |head| {
          assert r[i] == NonEmpty(pieces[1..])[i - |head|];
          assert r[i] in pieces[1..];
        }
      }
    }
  }

  lemma TrimAllAppend(p: seq<String>, q: seq<String>)
    ensures TrimAll(p + q) == TrimAll(p) + TrimAll(q)
  {
  }

  lemma {:induction false} NonEmptyAppend(p: seq<String>, q: seq<String>)
    ensures NonEmpty(p + q) == NonEmpty(p) + NonEmpty(q)
    decreases |p|
  {
    if p == [] {
      assert p + q == q;
    } else {
      NonEmptyAppend(p[1..], q);
      var head := if p[0] == [] then [] else [p[0]];
      assert (p + q)[0] == p[0] && (p + q)[1..] == p[1..] + q;
      assert NonEmpty(p + q) == head + NonEmpty(p[1..] + q);
      assert NonEmpty(p) == head + NonEmpty(p[1..]);
    }
  }

  /** A single piece is kept exactly when it is non-empty. */
  lemma NonEmptySingle(x: String)
    ensures NonEmpty([x]) == if x == [] then [] else [x]
  {
    assert [x][1..] == [];
  }

  /** The empty text takes the same path as any other: splitting it gives one blank line. */
  lemma LinesOfText(s: String)
    ensures LinesArray(Some(s)) == NonEmpty(TrimAll(Split(s, "\n")))
  {
    if s == [] {
      assert Split(s, "\n") == [[]];
      assert TrimAll([[]]) == [[]];
      assert NonEmpty([[]]) == [];
    }
  }

  /** Every line is non-empty, trimmed and free of newlines; a missing or empty text has no lines. */
  lemma LinesClean(html: Option<String>)
    ensures html.None? || html == Some([]) ==> LinesArray(html) == []
    ensures forall i :: 0 <= i < |LinesArray(html)| ==>
      var l := LinesArray(html)[i]; l != [] && Trim(l) == l && '\n' !in l
  {
    if html.Some? && html.value != [] {
      var pieces := Split(html.value, "\n");
      var r := LinesArray(html);
      SplitPiecesFree(html.value, '\n');
      NonEmptyPieces(TrimAll(pieces));
      forall i | 0 <= i < |r| ensures Trim(r[i]) == r[i] && '\n' !in r[i] {
        var j :| 0 <= j < |pieces| && r[i] == Trim(pieces[j]);
        TrimIdempotent(pieces[j]);
        if '\n' in r[i] {
          TrimChars(pieces[j], '\n');
        }
      }
    }
  }

  /** Lines keep their order: the lines of two texts joined by a newline are the lines of the first, then of the second. */
  lemma LinesAppend(a: String, b: String)
    ensures LinesArray(Some(a + "\n" + b)) == LinesArray(Some(a)) + LinesArray(Some(b))
  {
    LinesOfText(a);
    LinesOfText(b);
    LinesOfText(a + "\n" + b);
    SplitAtChar(a, b, '\n');
    TrimAllAppend(Split(a, "\n"), Split(b, "\n"));
    NonEmptyAppend(TrimAll(Split(a, "\n")), TrimAll(Split(b, "\n")));
  }

  /** A line that `linesArray` returns unchanged: non-empty, trimmed, without a newline. */
  predicate CleanLine(l: String)
  {
    l != [] && Trim(l) == l && '\n' !in l
  }

  /** A text without a newline is one line: its trim, or nothing when that is blank. */
  lemma LinesOfLine(l: String)
    requires '\n' !in l
    ensures LinesArray(Some(l)) == if Trim(l) == [] then [] else [Trim(l)]
  {
    LinesOfText(l);
    SplitAbsentChar(l, '\n');
    assert TrimAll([l]) == [Trim(l)];
    NonEmptySingle(Trim(l));
  }

  /** Joining clean lines with newlines and splitting again gives the same lines back. */
  lemma {:induction false} LinesRoundTrip(ls: seq<String>)
    requires forall i :: 0 <= i < |ls| ==> CleanLine(ls[i])
    ensures LinesArray(Some(Join(ls, "\n"))) == ls
    decreases |ls|
  {
    if |ls| == 1 {
      SplitAbsentChar(ls[0], '\n');
      assert TrimAll([ls[0]]) == [ls[0]];
      assert NonEmpty([ls[0]]) == [ls[0]] + NonEmpty([]);
    } else if |ls| > 1 {
      LinesRoundTrip(ls[1..]);
      LinesRoundTrip([ls[0]]);
      LinesAppend(ls[0], Join(ls[1..], "\n"));
      assert [ls[0]] + ls[1..] == ls;
    }
  }

  // ---------------------------------------------------------------------
  // The span wrapper

  predicate StartsWithNewline(s: String)
  {
    |s| > 0 && s[0] == '\n'
  }

  predicate EndsWithNewline(s: String)
  {
    |s| > 0 && s[|s| - 1] == '\n'
  }

  /** How many characters come before the text in the wrapped span: `\n[` or `[`. */
  function Opening(text: String): nat
  {
    if StartsWithNewline(text) then 2 else 1
  }

  /**
    The `.replaceWith` callback on a `<span>` of the main text: the span's
    text goes between `[` and `]`; a newline at its start is repeated before
    the `[`, and one at its end is repeated after the `]`.
  */
  method WrapSpan(text: String) returns (inner: String)
    ensures |inner| == |text| + 2 + (if StartsWithNewline(text) then 1 else 0) + (if EndsWithNewline(text) then 1 else 0)
    ensures StartsWithNewline(text) ==> inner[..2] == "\n["
    ensures !StartsWithNewline(text) ==> inner[..1] == "["
    ensures inner[Opening(text)..Opening(text) + |text|] == text
    ensures EndsWithNewline(text) ==> inner[|inner| - 2..] == "]\n"
    ensures !EndsWithNewline(text) ==> inner[|inner| - 1..] == "]"
    ensures Count(inner, "[") == Count(text, "[") + 1 && Count(inner, "]") == Count(text, "]") + 1
    ensures Count(inner, "\n") == Count(text, "\n")
      + (if StartsWithNewline(text) then 1 else 0) + (if EndsWithNewline(text) then 1 else 0)
  {
    inner := text;
    if |inner| > 0 && inner[0] == '\n' {
      inner := "\n[" + inner;
    } else {
      inner := "[" + inner;
    }
    var started := inner;
    if inner[|inner| - 1] == '\n' {
      inner := inner + "]\n";
    } else {
      inner := inner + "]";
    }
    assert started[|started| - 1] == '\n' <==> EndsWithNewline(text) by {
      if text != [] {
        assert started[|started| - 1] == text[|text| - 1];
      }
    }
    SpanCounts(text, started, inner);
  }

  /** The bracket and newline counts of a wrapped span, character by character. */
  lemma SpanCounts(text: String, started: String, inner: String)
    requires started == (if StartsWithNewline(text) then "\n[" else "[") + text
    requires inner == started + (if EndsWithNewline(text) then "]\n" else "]")
    ensures Count(inner, "[") == Count(text, "[") + 1 && Count(inner, "]") == Count(text, "]") + 1
    ensures Count(inner, "\n") == Count(text, "\n")
      + (if StartsWithNewline(text) then 1 else 0) + (if EndsWithNewline(text) then 1 else 0)
  {
    var open := if StartsWithNewline(text) then "\n[" else "[";
    var close := if EndsWithNewline(text) then "]\n" else "]";
    CountAppendChar(started, close, '[');
    CountAppendChar(started, close, ']');
    CountAppendChar(started, close, '\n');
    CountAppendChar(open, text, '[');
    CountAppendChar(open, text, ']');
    CountAppendChar(open, text, '\n');
    PairCounts('\n', '[', '[');
    PairCounts('\n', '[', ']');
    PairCounts('\n', '[', '\n');
    PairCounts(']', '\n', '[');
    PairCounts(']', '\n', ']');
    PairCounts(']', '\n', '\n');
    SingleCount('[', '[');
    SingleCount('[', ']');
    SingleCount('[', '\n');
    SingleCount(']', '[');
    SingleCount(']', ']');
    SingleCount(']', '\n');
  }

  /** A one-character text holds the character once, and the others not at all. */
  lemma SingleCount(x: char, c: char)
    ensures Count([x], [c]) == if x == c then 1 else 0
  {
    assert [x][..1] == [x] && [x][1..] == [];
  }

  lemma PairCounts(x: char, y: char, c: char)
    ensures Count([x, y], [c]) == (if x == c then 1 else 0) + (if y == c then 1 else 0)
  {
    assert [x, y] == [x] + [y];
    CountAppendChar([x], [y], c);
    SingleCount(x, c);
    SingleCount(y, c);
  }

}
