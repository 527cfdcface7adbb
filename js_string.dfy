/**
  The JavaScript string built-ins the scraper relies on, written out as scans
  over `seq<char>`: `includes`, `replaceAll` and `split` with a string pattern
  (one left-to-right pass over non-overlapping occurrences), `join`, `trim` and
  `toLowerCase`. Patterns are never empty in the scraper, so each of these
  requires a non-empty pattern.
*/
module JsString {

  type String = seq<char>

  /** `s.includes(t)`: `t` occurs in `s` as a contiguous piece. */
  predicate Includes(s: String, t: String)
    decreases |s|
  {
    |t| <= |s| && (s[..|t|] == t || (|s| > 0 && Includes(s[1..], t)))
  }

  /** `s.indexOf(c)`: the first position of `c`, or -1 when `c` does not occur. */
  function IndexOf(s: String, c: char): (r: int)
    ensures -1 <= r < |s|
    ensures r == -1 <==> c !in s
    ensures r >= 0 ==> s[r] == c && c !in s[..r]
  {
    if s == [] then -1
    else if s[0] == c then 0
    else
      var k := IndexOf(s[1..], c);
      if k == -1 then -1 else k + 1
  }

  /** Number of occurrences of `sep` that a left-to-right scan finds without overlap. */
  function Count(s: String, sep: String): nat
    requires |sep| > 0
    decreases |s|
  {
    if |s| < |sep| then 0
    else if s[..|sep|] == sep then 1 + Count(s[|sep|..], sep)
    else Count(s[1..], sep)
  }

  /** `s.replaceAll(pat, rep)`: one pass, replaced text is never scanned again. */
  function ReplaceAll(s: String, pat: String, rep: String): String
    requires |pat| > 0
    decreases |s|
  {
    if |s| < |pat| then s
    else if s[..|pat|] == pat then rep + ReplaceAll(s[|pat|..], pat, rep)
    else [s[0]] + ReplaceAll(s[1..], pat, rep)
  }

  /** `s.split(sep)`: the pieces between the occurrences `Count` finds, so one more piece than occurrences. */
  function Split(s: String, sep: String): (r: seq<String>)
    requires |sep| > 0
    ensures |r| == Count(s, sep) + 1
    decreases |s|
  {
    if |s| < |sep| then [s]
    else if s[..|sep|] == sep then [[]] + Split(s[|sep|..], sep)
    else
      var rest := Split(s[1..], sep);
      [[s[0]] + rest[0]] + rest[1..]
  }

  /** `parts.join(sep)`; the join of no parts is the empty string. */
  function Join(parts: seq<String>, sep: String): String
  {
    if |parts| == 0 then []
    else if |parts| == 1 then parts[0]
    else parts[0] + sep + Join(parts[1..], sep)
  }

  /** The characters ECMAScript's `trim` removes: WhiteSpace and LineTerminator. */
  const WhitespaceChars: String := " \t\n\r\U{B}\U{C}\U{A0}\U{1680}\U{2000}\U{2001}\U{2002}\U{2003}\U{2004}\U{2005}\U{2006}\U{2007}\U{2008}\U{2009}\U{200A}\U{2028}\U{2029}\U{202F}\U{205F}\U{3000}\U{FEFF}"

  /** `c` is one of the whitespace characters from position `i` on. */
  predicate WhitespaceFrom(c: char, i: nat)
    decreases |WhitespaceChars| - i
  {
    i < |WhitespaceChars| && (c == WhitespaceChars[i] || WhitespaceFrom(c, i + 1))
  }

  predicate IsWhitespace(c: char)
  {
    WhitespaceFrom(c, 0)
  }

  lemma {:induction false} WhitespaceFromChars(c: char, i: nat)
    ensures WhitespaceFrom(c, i) <==> exists j :: i <= j < |WhitespaceChars| && WhitespaceChars[j] == c
    decreases |WhitespaceChars| - i
  {
    if i < |WhitespaceChars| {
      WhitespaceFromChars(c, i + 1);
    }
  }

  /** The printable ASCII characters other than the space are not whitespace. */
  lemma VisibleNotWhitespace(c: char)
    requires '!' <= c <= '~'
    ensures !IsWhitespace(c)
  {
    WhitespaceFromChars(c, 0);
    assert forall j :: 0 <= j < |WhitespaceChars| ==> WhitespaceChars[j] < '!' || WhitespaceChars[j] > '~';
  }

  /** `s.trimStart()`: `s` without its leading whitespace. */
  function TrimStart(s: String): String
    decreases |s|
  {
    if s != [] && IsWhitespace(s[0]) then TrimStart(s[1..]) else s
  }

  /** `s.trimEnd()`: `s` without its trailing whitespace. */
  function TrimEnd(s: String): String
    decreases |s|
  {
    if s != [] && IsWhitespace(s[|s| - 1]) then TrimEnd(s[..|s| - 1]) else s
  }

  /** `s.trim()`: `s` without its leading and trailing whitespace. */
  function Trim(s: String): String
  {
    TrimEnd(TrimStart(s))
  }

  /** `s.toLowerCase()` on the ASCII letters. */
  function ToLower(s: String): (r: String)
    ensures |r| == |s|
    ensures forall i :: 0 <= i < |s| ==> r[i] == (if 'A' <= s[i] <= 'Z' then s[i] - 'A' + 'a' else s[i])
  {
    seq(|s|, i requires 0 <= i < |s| => if 'A' <= s[i] <= 'Z' then s[i] - 'A' + 'a' else s[i])
  }

  /** Every `c` of `s` changed into `d`, position by position. */
  function MapChar(s: String, c: char, d: char): (r: String)
    ensures |r| == |s|
    ensures forall i :: 0 <= i < |s| ==> r[i] == if s[i] == c then d else s[i]
  {
    seq(|s|, i requires 0 <= i < |s| => if s[i] == c then d else s[i])
  }

  // ---------------------------------------------------------------------
  // Facts about the scans

  /** A scan counts an occurrence exactly when the pattern is present at all. */
  lemma {:induction false} CountIncludes(s: String, t: String)
    requires |t| > 0
    ensures Count(s, t) > 0 <==> Includes(s, t)
    decreases |s|
  {
    if |s| >= |t| && s[..|t|] != t {
      CountIncludes(s[1..], t);
      assert Count(s, t) == Count(s[1..], t);
      assert Includes(s, t) == Includes(s[1..], t);
    }
  }

  /** A one-character text is included exactly when that character occurs. */
  lemma {:induction false} IncludesChar(s: String, c: char)
    ensures Includes(s, [c]) <==> c in s
    decreases |s|
  {
    if s != [] {
      IncludesChar(s[1..], c);
      assert s == [s[0]] + s[1..];
    }
  }

  /** A one-character pattern cannot straddle a seam, so its count adds up over concatenation. */
  lemma {:induction false} CountAppendChar(a: String, b: String, c: char)
    ensures Count(a + b, [c]) == Count(a, [c]) + Count(b, [c])
    decreases |a|
  {
    if a != [] {
      CountAppendChar(a[1..], b, c);
      assert (a + b)[1..] == a[1..] + b;
      assert (a + b)[..1] == a[..1];
    } else {
      assert a + b == b;
    }
  }

  /** A text whose first character cannot start the pattern keeps that character. */
  lemma ReplaceSkip(c: char, rest: String, pat: String, rep: String)
    requires |pat| > 0 && c != pat[0]
    ensures ReplaceAll([c] + rest, pat, rep) == [c] + ReplaceAll(rest, pat, rep)
  {
    var s := [c] + rest;
    assert s[1..] == rest;
    if |s| >= |pat| {
      assert s[..|pat|][0] != pat[0];
    } else {
      assert ReplaceAll(rest, pat, rep) == rest;
    }
  }

  /** A text whose first character cannot start the separator adds that character to its first piece. */
  lemma SplitSkip(c: char, rest: String, sep: String)
    requires |sep| > 0 && c != sep[0]
    ensures Split([c] + rest, sep) == [[c] + Split(rest, sep)[0]] + Split(rest, sep)[1..]
  {
    var s := [c] + rest;
    assert s[1..] == rest;
    if |s| >= |sep| {
      assert s[..|sep|][0] != sep[0];
    } else {
      assert Split(rest, sep) == [rest];
    }
  }

  /** A text that does not hold the pattern's first character is copied by `replaceAll` unchanged. */
  lemma {:induction false} ReplaceAllPrefixFree(a: String, b: String, pat: String, rep: String)
    requires |pat| > 0 && pat[0] !in a
    ensures ReplaceAll(a + b, pat, rep) == a + ReplaceAll(b, pat, rep)
    decreases |a|
  {
    if a != [] {
      ReplaceAllPrefixFree(a[1..], b, pat, rep);
      ReplaceSkip(a[0], a[1..] + b, pat, rep);
      assert [a[0]] + (a[1..] + b) == a + b;
      assert a == [a[0]] + a[1..];
    } else {
      assert a + b == b;
    }
  }

  /** A text that does not hold the separator's first character ends up whole in the first piece. */
  lemma {:induction false} SplitPrefixFree(a: String, b: String, sep: String)
    requires |sep| > 0 && sep[0] !in a
    ensures Split(a + b, sep) == [a + Split(b, sep)[0]] + Split(b, sep)[1..]
    decreases |a|
  {
    if a == [] {
      assert a + b == b;
      var r := Split(b, sep);
      assert a + r[0] == r[0];
      assert [r[0]] + r[1..] == r;
    } else {
      SplitPrefixFree(a[1..], b, sep);
      var t := a[1..] + b;
      SplitSkip(a[0], t, sep);
      assert [a[0]] + t == a + b;
      var rest := Split(t, sep);
      var head := Split(b, sep)[0];
      calc {
        [a[0]] + rest[0];
        [a[0]] + (a[1..] + head);
        ([a[0]] + a[1..]) + head;
        { assert [a[0]] + a[1..] == a; }
        a + head;
      }
    }
  }

  /** A text includes whatever a suffix of it includes. */
  lemma {:induction false} IncludesSuffix(s: String, k: nat, t: String)
    requires k <= |s| && Includes(s[k..], t)
    ensures Includes(s, t)
    decreases k
  {
    if k > 0 {
      assert s[1..][k - 1..] == s[k..];
      IncludesSuffix(s[1..], k - 1, t);
    }
  }

  /** A text that starts with the separator has an empty first piece. */
  lemma SplitLeadingSep(sep: String, b: String)
    requires |sep| > 0
    ensures Split(sep + b, sep) == [[]] + Split(b, sep)
  {
    var s := sep + b;
    assert s[..|sep|] == sep && s[|sep|..] == b;
  }

  /** A text that starts with the pattern has it replaced first. */
  lemma ReplaceLeadingPat(pat: String, b: String, rep: String)
    requires |pat| > 0
    ensures ReplaceAll(pat + b, pat, rep) == rep + ReplaceAll(b, pat, rep)
  {
    var s := pat + b;
    assert s[..|pat|] == pat && s[|pat|..] == b;
  }

  /** Splitting on one character cuts at every occurrence, so it distributes over a joining occurrence. */
  lemma {:induction false} SplitAtChar(a: String, b: String, c: char)
    ensures Split(a + [c] + b, [c]) == Split(a, [c]) + Split(b, [c])
    decreases |a|
  {
    var s := a + [c] + b;
    if a == [] {
      assert s[..1] == [c] && s[1..] == b;
    } else {
      assert s[1..] == a[1..] + [c] + b;
      assert s[..1] == a[..1];
      SplitAtChar(a[1..], b, c);
    }
  }

  /** With a one-character pattern and replacement, `replaceAll` is a position-wise substitution. */
  lemma {:induction false} ReplaceCharIsMap(s: String, c: char, d: char)
    ensures ReplaceAll(s, [c], [d]) == MapChar(s, c, d)
    decreases |s|
  {
    if s != [] {
      ReplaceCharIsMap(s[1..], c, d);
      assert s[..1] == [s[0]];
      assert MapChar(s, c, d) == [if s[0] == c then d else s[0]] + MapChar(s[1..], c, d);
    }
  }

  /** `s` with every `c` taken out, character by character. */
  function DeleteChar(s: String, c: char): String
    decreases |s|
  {
    if s == [] then [] else (if s[0] == c then [] else [s[0]]) + DeleteChar(s[1..], c)
  }

  /** Replacing a character by nothing deletes each of its occurrences and keeps every other character in order. */
  lemma {:induction false} ReplaceCharIsDelete(s: String, c: char)
    ensures ReplaceAll(s, [c], []) == DeleteChar(s, c)
    decreases |s|
  {
    if s != [] {
      ReplaceCharIsDelete(s[1..], c);
      assert s[..1] == [s[0]];
    }
  }

  /** Substituting characters that the separator does not use leaves its occurrences where they were. */
  lemma {:induction false} CountMapChar(s: String, c: char, d: char, sep: String)
    requires |sep| > 0 && c !in sep && d !in sep
    ensures Count(MapChar(s, c, d), sep) == Count(s, sep)
    decreases |s|
  {
    var m := MapChar(s, c, d);
    if |s| >= |sep| {
      var k := |sep|;
      assert m[..k] == sep <==> s[..k] == sep by {
        if s[..k] == sep {
          assert forall i :: 0 <= i < k ==> m[..k][i] == sep[i];
        }
        if m[..k] == sep {
          forall i | 0 <= i < k ensures s[..k][i] == sep[i] {
            assert m[i] == sep[i] && sep[i] in sep;
          }
        }
      }
      if s[..k] == sep {
        CountMapChar(s[k..], c, d, sep);
        assert m[k..] == MapChar(s[k..], c, d);
      } else {
        CountMapChar(s[1..], c, d, sep);
        assert m[1..] == MapChar(s[1..], c, d);
      }
    }
  }

  /** Replacing a pattern by a text, neither holding `c`, keeps the number of `c`. */
  lemma {:induction false} CountReplaceAllChar(s: String, pat: String, rep: String, c: char)
    requires |pat| > 0 && c !in pat && c !in rep
    ensures Count(ReplaceAll(s, pat, rep), [c]) == Count(s, [c])
    decreases |s|
  {
    if |s| >= |pat| {
      var k := |pat|;
      if s[..k] == pat {
        CountReplaceAllChar(s[k..], pat, rep, c);
        CountAppendChar(rep, ReplaceAll(s[k..], pat, rep), c);
        CountAppendChar(s[..k], s[k..], c);
        assert s[..k] + s[k..] == s;
        CountAbsentChar(rep, c);
        CountAbsentChar(pat, c);
      } else {
        CountReplaceAllChar(s[1..], pat, rep, c);
        CountAppendChar([s[0]], ReplaceAll(s[1..], pat, rep), c);
        CountAppendChar([s[0]], s[1..], c);
        assert [s[0]] + s[1..] == s;
      }
    } else {
      assert ReplaceAll(s, pat, rep) == s;
    }
  }

  lemma {:induction false} CountAbsentChar(s: String, c: char)
    requires c !in s
    ensures Count(s, [c]) == 0
    decreases |s|
  {
    if s != [] {
      assert s[..1] != [c] by { assert s[..1][0] == s[0]; }
      CountAbsentChar(s[1..], c);
    }
  }

  /** A one-character `replaceAll` works piecewise over concatenation. */
  lemma {:induction false} ReplaceCharAppend(a: String, b: String, c: char, r: String)
    ensures ReplaceAll(a + b, [c], r) == ReplaceAll(a, [c], r) + ReplaceAll(b, [c], r)
    decreases |a|
  {
    if a != [] {
      ReplaceCharAppend(a[1..], b, c, r);
      assert (a + b)[1..] == a[1..] + b;
      assert (a + b)[..1] == a[..1];
    } else {
      assert a + b == b;
    }
  }

  /** After a one-character `replaceAll`, every character comes from the input (other than `c`) or from `r`. */
  lemma {:induction false} ReplaceCharChars(s: String, c: char, r: String)
    ensures forall x :: x in ReplaceAll(s, [c], r) ==> (x in s && x != c) || x in r
    decreases |s|
  {
    if s != [] {
      ReplaceCharChars(s[1..], c, r);
      assert s[..1] == [s[0]];
    }
  }

  /** `trimStart` leaves a suffix of the input that starts with no whitespace. */
  lemma {:induction false} TrimStartFacts(s: String)
    ensures |TrimStart(s)| <= |s| && TrimStart(s) == s[|s| - |TrimStart(s)|..]
    ensures TrimStart(s) == [] || !IsWhitespace(TrimStart(s)[0])
    decreases |s|
  {
    if s != [] && IsWhitespace(s[0]) {
      TrimStartFacts(s[1..]);
      assert s[1..][|s| - 1 - |TrimStart(s)|..] == s[|s| - |TrimStart(s)|..];
    }
  }

  /** `trimEnd` leaves a prefix of the input that ends with no whitespace. */
  lemma {:induction false} TrimEndFacts(s: String)
    ensures |TrimEnd(s)| <= |s| && TrimEnd(s) == s[..|TrimEnd(s)|]
    ensures TrimEnd(s) == [] || !IsWhitespace(TrimEnd(s)[|TrimEnd(s)| - 1])
    decreases |s|
  {
    if s != [] && IsWhitespace(s[|s| - 1]) {
      TrimEndFacts(s[..|s| - 1]);
      assert s[..|s| - 1][..|TrimEnd(s)|] == s[..|TrimEnd(s)|];
    }
  }

  /** What `trim` returns has no whitespace at either end. */
  lemma TrimEnds(s: String)
    ensures Trim(s) == [] || (!IsWhitespace(Trim(s)[0]) && !IsWhitespace(Trim(s)[|Trim(s)| - 1]))
  {
    var t := TrimStart(s);
    TrimStartFacts(s);
    TrimEndFacts(t);
    if Trim(s) != [] {
      assert Trim(s)[0] == t[0];
    }
  }

  /** A leading space is trimmed away. */
  lemma TrimLeadingSpace(s: String)
    ensures Trim([' '] + s) == Trim(s)
  {
    assert ([' '] + s)[1..] == s;
  }

  /** A trailing space is trimmed away. */
  lemma TrimTrailingSpace(s: String)
    ensures Trim(s + [' ']) == Trim(s)
  {
    var t := TrimStart(s);
    TrimStartAppendSpace(s);
    if t != [] {
      assert (t + [' '])[..|t|] == t;
    }
  }

  lemma {:induction false} TrimStartAppendSpace(s: String)
    ensures TrimStart(s + [' ']) == if TrimStart(s) == [] then [] else TrimStart(s) + [' ']
    decreases |s|
  {
    if s != [] {
      assert (s + [' '])[1..] == s[1..] + [' '];
      TrimStartAppendSpace(s[1..]);
    } else {
      assert TrimStart([' ']) == TrimStart([]);
    }
  }

  /** Trimming keeps only characters of the input. */
  lemma TrimChars(s: String, x: char)
    requires x in Trim(s)
    ensures x in s
  {
    var t := TrimStart(s);
    TrimStartFacts(s);
    TrimEndFacts(t);
    assert x in t;
  }

  /** A string with no whitespace at either end is its own trim. */
  lemma TrimTrimmed(s: String)
    requires s == [] || (!IsWhitespace(s[0]) && !IsWhitespace(s[|s| - 1]))
    ensures Trim(s) == s
  {
  }

  /** `trim` is idempotent. */
  lemma TrimIdempotent(s: String)
    ensures Trim(Trim(s)) == Trim(s)
  {
    TrimEnds(s);
    TrimTrimmed(Trim(s));
  }

  /** A text without the separator's character is split into itself alone. */
  lemma SplitAbsentChar(s: String, c: char)
    requires c !in s
    ensures Split(s, [c]) == [s]
  {
    SplitPrefixFree(s, [], [c]);
    assert s + [] == s;
  }

  /** No piece of a split on a character holds that character. */
  lemma {:induction false} SplitPiecesFree(s: String, c: char)
    ensures forall i :: 0 <= i < |Split(s, [c])| ==> c !in Split(s, [c])[i]
    decreases |s|
  {
    if |s| >= 1 {
      SplitPiecesFree(s[1..], c);
      if s[..1] != [c] {
        assert s[0] != c by { assert s[..1][0] == s[0]; }
      }
    }
  }
}
