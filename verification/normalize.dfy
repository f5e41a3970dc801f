/**
  `normalize`: four `replaceAll` passes over the text.
    1. `\s+`        -> " "   every whitespace run becomes one space;
    2. `^\s+`       -> ""    a leading space goes;
    3. `\s+$`       -> ""    a trailing space goes;
    4. `[^\.!?:]$`  -> "$0." a full stop is added unless the text already
                             ends with `.`, `!`, `?` or `:`.
  Each pass is modelled as the left-to-right scan `replaceAll` performs, and
  `$` as Java's anchor without MULTILINE, which also matches just before a
  line terminator that ends the input.
 */
module Normalizer {
  import opened Text

  /** The class `[\.!?:]`: characters after which no full stop is added. */
  predicate IsTerminalMark(c: char) {
    c == '.' || c == '!' || c == '?' || c == ':'
  }

  /** Length of the run of `\s` characters starting at `i`. */
  function SpaceRun(s: string, i: nat): (n: nat)
    requires i <= |s|
    ensures i + n <= |s|
    ensures forall k :: i <= k < i + n ==> IsSpace(s[k])
    ensures i + n == |s| || !IsSpace(s[i + n])
    decreases |s| - i
  {
    if i < |s| && IsSpace(s[i]) then 1 + SpaceRun(s, i + 1) else 0
  }

  // ---------------------------------------------------------------------------
  // Pass 1: replaceAll("\\s+", " ")

  function CollapseFrom(s: string, i: nat): (r: string)
    requires i <= |s|
    ensures |r| == 0 <==> i == |s|
    decreases |s| - i
  {
    if i == |s| then []
    else if IsSpace(s[i]) then [' '] + CollapseFrom(s, i + SpaceRun(s, i))
    else [s[i]] + CollapseFrom(s, i + 1)
  }

  /** `' '` is the only whitespace character of `r`. */
  predicate BlanksOnly(r: string) {
    forall k :: 0 <= k < |r| && IsSpace(r[k]) ==> r[k] == ' '
  }

  /** `r` never has two spaces in a row. */
  predicate NoDoubleSpace(r: string) {
    forall k :: 0 <= k < |r| - 1 ==> !(r[k] == ' ' && r[k + 1] == ' ')
  }

  /** Pass 1 leaves `' '` as the only whitespace, never two spaces in a row,
      and no line terminator that the input did not have. */
  lemma {:induction false} CollapseFromTidy(s: string, i: nat)
    requires i <= |s|
    ensures BlanksOnly(CollapseFrom(s, i)) && NoDoubleSpace(CollapseFrom(s, i))
    ensures |CollapseFrom(s, i)| > 0 ==> (CollapseFrom(s, i)[0] == ' ' <==> IsSpace(s[i]))
    ensures (forall k :: i <= k < |s| ==> !IsUnicodeLineBreak(s[k])) ==> AllDots(CollapseFrom(s, i))
    decreases |s| - i
  {
    if i < |s| {
      var j := if IsSpace(s[i]) then i + SpaceRun(s, i) else i + 1;
      CollapseFromTidy(s, j);
      var r := CollapseFrom(s, i);
      var t := CollapseFrom(s, j);
      assert r == [r[0]] + t;
      assert |t| > 0 ==> r[1] == t[0];
      forall k | 0 < k < |r|
        ensures r[k] == t[k - 1]
      {
      }
    }
  }


  function Collapse(s: string): string {
    CollapseFrom(s, 0)
  }

  // ---------------------------------------------------------------------------
  // Pass 2: replaceAll("^\\s+", ""); `^` only matches at the start of the input.

  function TrimStart(s: string): (r: string)
    ensures |r| <= |s| && r == s[|s| - |r|..]
    ensures forall k :: 0 <= k < |s| - |r| ==> IsSpace(s[k])
    ensures |r| == 0 <==> forall k :: 0 <= k < |s| ==> IsSpace(s[k])
    ensures |r| > 0 ==> !IsSpace(r[0])
  {
    s[SpaceRun(s, 0)..]
  }

  // ---------------------------------------------------------------------------
  // Pass 3: replaceAll("\\s+$", "")

  /** Java's `$` without MULTILINE at position `p`: the end of the input, or
      just before a line terminator that ends it (`\r\n` counting as one, and
      never between its two characters). */
  predicate EndAnchor(s: string, p: nat)
    ensures p == |s| ==> EndAnchor(s, p)
    ensures EndAnchor(s, p) ==> |s| - 2 <= p <= |s|
  {
    || p == |s|
    || (p + 1 == |s| && IsLineTerminator(s[p]) && !(s[p] == '\n' && p > 0 && s[p - 1] == '\r'))
    || (p + 2 == |s| && s[p] == '\r' && s[p + 1] == '\n')
  }

  /** Greedy backtracking of `\s+$` from a run starting at `i`: the longest end
      `k`, not beyond `top`, after which `$` holds. */
  function BacktrackEnd(s: string, i: nat, top: nat): (r: Option<nat>)
    ensures r.Some? ==> i < r.value <= top && EndAnchor(s, r.value)
    ensures r.Some? ==> forall p :: r.value < p <= top ==> !EndAnchor(s, p)
    ensures r.None? ==> forall p :: i < p <= top ==> !EndAnchor(s, p)
    decreases top
  {
    if top <= i then None
    else if EndAnchor(s, top) then Some(top)
    else BacktrackEnd(s, i, top - 1)
  }

  /** Where a match of `\s+$` starting at `i` ends, if there is one. */
  function TrailingMatch(s: string, i: nat): (r: Option<nat>)
    requires i < |s|
    ensures r.Some? ==> i < r.value <= |s| && EndAnchor(s, r.value)
    ensures r.Some? ==> forall k :: i <= k < r.value ==> IsSpace(s[k])
  {
    if IsSpace(s[i]) then BacktrackEnd(s, i, i + SpaceRun(s, i)) else None
  }

  function TrimEndFrom(s: string, i: nat): (r: string)
    decreases |s| - i
  {
    if i >= |s| then []
    else match TrailingMatch(s, i)
      case Some(k) => TrimEndFrom(s, k)
      case None => [s[i]] + TrimEndFrom(s, i + 1)
  }

  function TrimEnd(s: string): string {
    TrimEndFrom(s, 0)
  }

  // ---------------------------------------------------------------------------
  // Pass 4: replaceAll("[^\\.!?:]$", "$0.")

  function PunctuateFrom(s: string, i: nat): (r: string)
    ensures |r| == 0 <==> i >= |s|
    ensures i < |s| ==> r[0] == s[i] && IsTerminalMark(r[|r| - 1])
    decreases |s| - i
  {
    if i >= |s| then []
    else if !IsTerminalMark(s[i]) && EndAnchor(s, i + 1) then [s[i], '.'] + PunctuateFrom(s, i + 1)
    else [s[i]] + PunctuateFrom(s, i + 1)
  }

  function Punctuate(s: string): string {
    PunctuateFrom(s, 0)
  }

  /** `normalize`. Whatever the input: the result is empty exactly when the
      input is all whitespace, and otherwise starts with a non-whitespace
      character and ends with one of `.`, `!`, `?`, `:`. */
  function Normalize(s: string): (r: string)
    ensures |r| == 0 <==> forall k :: 0 <= k < |s| ==> IsSpace(s[k])
    ensures |r| > 0 ==> !IsSpace(r[0]) && IsTerminalMark(r[|r| - 1])
  {
    var collapsed := Collapse(s);
    var trimmed := TrimStart(collapsed);
    CollapseKeepsContent(s);
    TrimEndKeepsHead(trimmed);
    Punctuate(TrimEnd(trimmed))
  }

  /** Some non-whitespace character survives collapsing exactly when the input has one. */
  lemma CollapseKeepsContent(s: string)
    ensures (forall k :: 0 <= k < |Collapse(s)| ==> IsSpace(Collapse(s)[k]))
        <==> (forall k :: 0 <= k < |s| ==> IsSpace(s[k]))
  {
    var r := Collapse(s);
    if |s| > 0 {
      if IsSpace(s[0]) {
        var n := SpaceRun(s, 0);
        assert r == [' '] + CollapseFrom(s, n);
        if n < |s| {
          assert !IsSpace(r[1]) && !IsSpace(s[n]);
        }
      } else {
        assert !IsSpace(r[0]);
      }
    }
  }

  /** Pass 3 never removes a first character that is not whitespace. */
  lemma TrimEndKeepsHead(s: string)
    ensures |s| > 0 && !IsSpace(s[0]) ==> |TrimEnd(s)| > 0 && TrimEnd(s)[0] == s[0]
  {
  }

  // ---------------------------------------------------------------------------
  // Without line terminators, `$` is the end of the text and passes 3 and 4
  // take their familiar meaning.

  lemma EndAnchorAtEnd(s: string, p: nat)
    requires AllDots(s)
    ensures EndAnchor(s, p) <==> p == |s|
  {
    if p + 1 == |s| {
      assert !IsLineTerminator(s[p]);
    }
    if p + 2 == |s| {
      assert !IsLineTerminator(s[p]);
    }
  }

  /** Position just after the last non-whitespace character. */
  function ContentEnd(s: string): (e: nat)
    ensures e <= |s|
    ensures e == 0 || !IsSpace(s[e - 1])
    ensures forall k :: e <= k < |s| ==> IsSpace(s[k])
  {
    if |s| == 0 || !IsSpace(s[|s| - 1]) then |s| else ContentEnd(s[..|s| - 1])
  }

  lemma {:induction false} TrimEndFromUpTo(s: string, i: nat)
    requires AllDots(s) && i <= ContentEnd(s)
    ensures TrimEndFrom(s, i) == s[i..ContentEnd(s)]
    decreases ContentEnd(s) - i
  {
    var e := ContentEnd(s);
    if i == e {
      if e < |s| {
        var n := SpaceRun(s, e);
        assert e + n == |s|;
        EndAnchorAtEnd(s, |s|);
        assert TrailingMatch(s, e) == Some(|s|);
      }
    } else {
      if IsSpace(s[i]) {
        var n := SpaceRun(s, i);
        assert i + n < e;
        var m := BacktrackEnd(s, i, i + n);
        if m.Some? {
          EndAnchorAtEnd(s, m.value);
        }
        assert m.None?;
      }
      assert TrailingMatch(s, i).None?;
      TrimEndFromUpTo(s, i + 1);
      assert s[i..e] == [s[i]] + s[i + 1..e];
    }
  }

  /** Without line terminators, pass 3 removes exactly the trailing whitespace. */
  lemma TrimEndDropsTrailingSpace(s: string)
    requires AllDots(s)
    ensures var r := TrimEnd(s);
      && |r| <= |s| && r == s[..|r|]
      && (|r| == 0 || !IsSpace(r[|r| - 1]))
      && (forall k :: |r| <= k < |s| ==> IsSpace(s[k]))
  {
    TrimEndFromUpTo(s, 0);
  }

  lemma {:induction false} PunctuateFromPlain(s: string, i: nat)
    requires AllDots(s) && i <= |s|
    ensures PunctuateFrom(s, i) == s[i..] + (if i < |s| && !IsTerminalMark(s[|s| - 1]) then "." else "")
    decreases |s| - i
  {
    if i < |s| {
      EndAnchorAtEnd(s, i + 1);
      PunctuateFromPlain(s, i + 1);
      assert s[i..] == [s[i]] + s[i + 1..];
      if i + 1 < |s| {
        assert PunctuateFrom(s, i) == [s[i]] + PunctuateFrom(s, i + 1);
      }
    }
  }

  /** Without line terminators, pass 4 appends a full stop exactly when the text
      is not empty and does not already end with `.`, `!`, `?` or `:`. */
  lemma PunctuatePlain(s: string)
    requires AllDots(s)
    ensures Punctuate(s) == if |s| > 0 && !IsTerminalMark(s[|s| - 1]) then s + "." else s
  {
    PunctuateFromPlain(s, 0);
    assert s[0..] == s;
  }

  // ---------------------------------------------------------------------------
  // The same passes read through the words of the text: every maximal run of
  // `\s` between two words becomes one space, the runs at both ends go, and a
  // full stop ends the sentence unless a mark already does.

  /** Length of the run of non-`\s` characters starting at `i`. */
  function WordRun(s: string, i: nat): (n: nat)
    requires i <= |s|
    ensures i + n <= |s|
    ensures forall k :: i <= k < i + n ==> !IsSpace(s[k])
    ensures i + n == |s| || IsSpace(s[i + n])
    decreases |s| - i
  {
    if i < |s| && !IsSpace(s[i]) then 1 + WordRun(s, i + 1) else 0
  }

  /** A word: a non-empty text without `\s`. */
  predicate IsWord(w: string) {
    |w| > 0 && forall k :: 0 <= k < |w| ==> !IsSpace(w[k])
  }

  /** The words of `s[i..]`, in order. */
  function WordsFrom(s: string, i: nat): (ws: seq<string>)
    requires i <= |s|
    ensures forall j :: 0 <= j < |ws| ==> IsWord(ws[j])
    ensures i < |s| && !IsSpace(s[i]) ==> |ws| > 0
    decreases |s| - i
  {
    if i == |s| then []
    else if IsSpace(s[i]) then WordsFrom(s, i + 1)
    else
      var n := WordRun(s, i);
      [s[i..i + n]] + WordsFrom(s, i + n)
  }

  function Words(s: string): seq<string> {
    WordsFrom(s, 0)
  }

  /** The words separated by single spaces. */
  function Join(ws: seq<string>): (r: string)
    ensures |ws| > 0 && IsWord(ws[0]) ==> |r| > 0 && r[0] == ws[0][0]
    ensures |ws| > 0 && IsWord(ws[|ws| - 1]) ==> |r| > 0 && r[|r| - 1] == ws[|ws| - 1][|ws[|ws| - 1]| - 1]
  {
    if |ws| == 0 then []
    else if |ws| == 1 then ws[0]
    else
      assert ws[1..][|ws| - 2] == ws[|ws| - 1];
      ws[0] + " " + Join(ws[1..])
  }

  /** A run of whitespace holds no word. */
  lemma {:induction false} WordsSkipSpaces(s: string, i: nat, n: nat)
    requires i + n <= |s| && forall k :: i <= k < i + n ==> IsSpace(s[k])
    ensures WordsFrom(s, i) == WordsFrom(s, i + n)
    decreases n
  {
    if n > 0 {
      WordsSkipSpaces(s, i + 1, n - 1);
    }
  }

  /** Pass 1 copies a word as it is. */
  lemma {:induction false} CollapseThroughWord(s: string, i: nat, n: nat)
    requires i + n <= |s| && forall k :: i <= k < i + n ==> !IsSpace(s[k])
    ensures CollapseFrom(s, i) == s[i..i + n] + CollapseFrom(s, i + n)
    decreases n
  {
    if n > 0 {
      CollapseThroughWord(s, i + 1, n - 1);
      assert CollapseFrom(s, i) == [s[i]] + CollapseFrom(s, i + 1);
      assert s[i..i + n] == [s[i]] + s[i + 1..i + n];
    }
  }

  /** The space pass 1 leaves for whitespace before the first word of `s[i..]`. */
  function LeadingGap(s: string, i: nat): string
    requires i <= |s|
  {
    if i < |s| && IsSpace(s[i]) then " " else ""
  }

  /** The space pass 1 leaves for whitespace after the last word of `s[i..]`. */
  function TrailingGap(s: string, i: nat): string
    requires i <= |s|
  {
    if |WordsFrom(s, i)| > 0 && IsSpace(s[|s| - 1]) then " " else ""
  }

  lemma JoinCons(w: string, rest: seq<string>)
    requires |rest| > 0
    ensures Join([w] + rest) == w + " " + Join(rest)
  {
    assert ([w] + rest)[1..] == rest;
  }

  /** Pass 1 turns a run of `\s` into one space and goes on after the run ... */
  lemma CollapseGap(s: string, i: nat, n: nat)
    requires i < |s| && IsSpace(s[i]) && n == SpaceRun(s, i)
    ensures CollapseFrom(s, i) == [' '] + CollapseFrom(s, i + n)
  {
  }

  /** ... where the words and the trailing gap are those after the run. */
  lemma WordsAfterGap(s: string, i: nat, n: nat)
    requires i < |s| && IsSpace(s[i]) && n == SpaceRun(s, i)
    ensures WordsFrom(s, i) == WordsFrom(s, i + n)
    ensures TrailingGap(s, i) == TrailingGap(s, i + n)
  {
    WordsSkipSpaces(s, i, n);
  }

  /** A word of `s` starting at `i` is copied by pass 1 ... */
  lemma CollapseWord(s: string, i: nat, m: nat)
    requires i < |s| && !IsSpace(s[i]) && m == WordRun(s, i)
    ensures CollapseFrom(s, i) == s[i..i + m] + CollapseFrom(s, i + m)
  {
    CollapseThroughWord(s, i, m);
  }

  /** ... and is the first of the words from `i`. */
  lemma FirstWord(s: string, i: nat, m: nat)
    requires i < |s| && !IsSpace(s[i]) && m == WordRun(s, i)
    ensures WordsFrom(s, i) == [s[i..i + m]] + WordsFrom(s, i + m)
  {
  }

  /** The gluing step of a space run: only sequence algebra. */
  lemma GlueGap(x: string, c: string, j: string, t: string)
    requires x == [' '] + c && c == [] + j + t
    ensures x == " " + j + t
  {
  }

  /** The gluing step of a word and the space after it. */
  lemma GlueSpace(x: string, w: string, b: string, c: string)
    requires x == w + b && b == [' '] + c
    ensures x == w + ([' '] + c)
  {
  }

  /** The gluing step of a word followed by further words. */
  lemma GlueWord(x: string, w: string, c: string, j: string, jw: string, t: string)
    requires x == w + c && c == [' '] + ([] + j + t) && jw == w + " " + j
    ensures x == [] + jw + t
  {
  }

  /** The words from a word of length `m` followed by a run of `\s` of length `n`. */
  lemma WordThenGap(s: string, i: nat, m: nat, n: nat)
    requires i < |s| && !IsSpace(s[i]) && m == WordRun(s, i) && i + m < |s| && n == SpaceRun(s, i + m)
    ensures WordsFrom(s, i) == [s[i..i + m]] + WordsFrom(s, i + m + n)
  {
    FirstWord(s, i, m);
    WordsAfterGap(s, i + m, n);
  }

  /** Pass 1 from `i` is the leading gap, the words joined by single spaces
      and the trailing gap. */
  predicate CollapsesToWords(s: string, i: nat)
    requires i <= |s|
  {
    CollapseFrom(s, i) == LeadingGap(s, i) + Join(WordsFrom(s, i)) + TrailingGap(s, i)
  }

  /** One space run of pass 1, of length `n`, given the rest. */
  lemma CollapseGapStep(s: string, i: nat, n: nat)
    requires i < |s| && IsSpace(s[i]) && n == SpaceRun(s, i)
    requires CollapsesToWords(s, i + n)
    ensures CollapsesToWords(s, i)
  {
    CollapseGap(s, i, n);
    WordsAfterGap(s, i, n);
    assert LeadingGap(s, i + n) == [];
    GlueGap(CollapseFrom(s, i), CollapseFrom(s, i + n), Join(WordsFrom(s, i + n)), TrailingGap(s, i + n));
  }

  /** Pass 1 over a word of length `m` and the run of `n` whitespace after it. */
  lemma CollapseWordGap(s: string, i: nat, m: nat, n: nat)
    requires i + m < |s| && (forall k :: i <= k < i + m ==> !IsSpace(s[k]))
    requires IsSpace(s[i + m]) && n == SpaceRun(s, i + m)
    ensures CollapseFrom(s, i) == s[i..i + m] + ([' '] + CollapseFrom(s, i + m + n))
  {
    CollapseThroughWord(s, i, m);
    CollapseGap(s, i + m, n);
    GlueSpace(CollapseFrom(s, i), s[i..i + m], CollapseFrom(s, i + m), CollapseFrom(s, i + m + n));
  }

  /** The trailing gap is decided by the words after the first one. */
  lemma TrailingAfterWord(s: string, i: nat, m: nat, n: nat)
    requires i < |s| && !IsSpace(s[i]) && m == WordRun(s, i) && i + m < |s| && n == SpaceRun(s, i + m)
    requires i + m + n < |s|
    ensures TrailingGap(s, i) == TrailingGap(s, i + m + n)
  {
    WordThenGap(s, i, m, n);
    assert |WordsFrom(s, i + m + n)| > 0;
  }

  /** A word of length `m` and a run of `\s` of length `n` followed by more
      words, given those words. */
  lemma CollapseWordThenMore(s: string, i: nat, m: nat, n: nat)
    requires i < |s| && !IsSpace(s[i]) && m == WordRun(s, i) && i + m < |s| && n == SpaceRun(s, i + m)
    requires i + m + n < |s|
    requires CollapsesToWords(s, i + m + n)
    ensures CollapsesToWords(s, i)
  {
    var w := s[i..i + m];
    var rest := WordsFrom(s, i + m + n);
    assert LeadingGap(s, i + m + n) == [];
    CollapseWordGap(s, i, m, n);
    WordThenGap(s, i, m, n);
    TrailingAfterWord(s, i, m, n);
    JoinCons(w, rest);
    GlueWord(CollapseFrom(s, i), w, [' '] + CollapseFrom(s, i + m + n), Join(rest), Join([w] + rest), TrailingGap(s, i + m + n));
  }

  /** The last word, of length `m`, at the very end of the text ... */
  lemma CollapseLastWordAtEnd(s: string, i: nat, m: nat)
    requires i < |s| && !IsSpace(s[i]) && m == WordRun(s, i) && i + m == |s|
    ensures CollapsesToWords(s, i)
  {
    var w := s[i..i + m];
    CollapseWord(s, i, m);
    FirstWord(s, i, m);
    assert CollapseFrom(s, i + m) == [] && WordsFrom(s, i + m) == [];
    assert !IsSpace(s[|s| - 1]);
    GlueLast(CollapseFrom(s, i), w, CollapseFrom(s, i + m), WordsFrom(s, i), WordsFrom(s, i + m), "");
  }

  /** ... or followed by whitespace only. */
  lemma CollapseLastWordSpaced(s: string, i: nat, m: nat, n: nat)
    requires i < |s| && !IsSpace(s[i]) && m == WordRun(s, i) && i + m < |s| && n == SpaceRun(s, i + m)
    requires i + m + n == |s|
    ensures CollapsesToWords(s, i)
  {
    var w := s[i..i + m];
    CollapseWordGap(s, i, m, n);
    WordThenGap(s, i, m, n);
    assert CollapseFrom(s, i + m + n) == [] && WordsFrom(s, i + m + n) == [];
    assert IsSpace(s[|s| - 1]);
    GlueLast(CollapseFrom(s, i), w, [' '] + CollapseFrom(s, i + m + n), WordsFrom(s, i), WordsFrom(s, i + m + n), " ");
  }

  /** The gluing step of the last word: only sequence algebra. */
  lemma GlueLast(x: string, w: string, c: string, ws: seq<string>, none: seq<string>, t: string)
    requires x == w + c && c == t && ws == [w] + none && none == []
    ensures x == [] + Join(ws) + t
  {
    assert ws == [w];
  }

  /** Pass 1 read through the words: each run of `\s` between two words
      becomes one space, and a run at either end becomes one space too. */
  lemma {:induction false} CollapseWordsFrom(s: string, i: nat)
    requires i <= |s|
    ensures CollapsesToWords(s, i)
    decreases |s| - i, 1
  {
    if i < |s| {
      if IsSpace(s[i]) {
        var n := SpaceRun(s, i);
        CollapseWordsFrom(s, i + n);
        CollapseGapStep(s, i, n);
      } else {
        CollapseWordsFromWord(s, i);
      }
    }
  }

  /** The case of `CollapseWordsFrom` where a word starts at `i`. */
  lemma {:induction false} CollapseWordsFromWord(s: string, i: nat)
    requires i < |s| && !IsSpace(s[i])
    ensures CollapsesToWords(s, i)
    decreases |s| - i, 0
  {
    var m := WordRun(s, i);
    if i + m == |s| {
      CollapseLastWordAtEnd(s, i, m);
    } else {
      var n := SpaceRun(s, i + m);
      if i + m + n < |s| {
        CollapseWordsFrom(s, i + m + n);
        CollapseWordThenMore(s, i, m, n);
      } else {
        CollapseLastWordSpaced(s, i, m, n);
      }
    }
  }

  lemma CollapseWords(s: string)
    ensures Collapse(s) == LeadingGap(s, 0) + Join(Words(s)) + TrailingGap(s, 0)
  {
    CollapseWordsFrom(s, 0);
  }

  /** Pass 2 drops the leading gap. */
  lemma TrimStartWords(s: string)
    ensures TrimStart(Collapse(s)) == Join(Words(s)) + TrailingGap(s, 0)
  {
    CollapseWords(s);
    var c := Collapse(s);
    var j := Join(Words(s));
    if LeadingGap(s, 0) == " " {
      assert c == " " + (j + TrailingGap(s, 0));
      if |j| > 0 {
        assert c[1] == j[0];
      }
      assert SpaceRun(c, 0) == 1;
    } else if |j| > 0 {
      assert c[0] == j[0];
    }
  }

  /** Pass 3 drops the trailing gap. */
  lemma TrimEndWords(j: string, gap: string)
    requires AllDots(j + gap) && (|j| == 0 || !IsSpace(j[|j| - 1]))
    requires gap == "" || (gap == " " && |j| > 0)
    ensures TrimEnd(j + gap) == j
  {
    var t := j + gap;
    TrimEndDropsTrailingSpace(t);
    var r := TrimEnd(t);
    if |j| > 0 {
      assert t[|j| - 1] == j[|j| - 1];
    }
    if gap == " " {
      assert t[|j|] == ' ';
    }
    assert t[..|j|] == j;
  }

  /** Without U+0085, U+2028 and U+2029, `normalize` joins the words of the
      text with single spaces and adds a full stop unless the last word ends
      with `.`, `!`, `?` or `:`; a text without words gives the empty text. */
  lemma NormalizeWords(s: string)
    requires ValidText(s)
    ensures var j := Join(Words(s));
      Normalize(s) == if |j| > 0 && !IsTerminalMark(j[|j| - 1]) then j + "." else j
  {
    var ws := Words(s);
    var j := Join(ws);
    var gap := TrailingGap(s, 0);
    TrimStartWords(s);
    var c := Collapse(s);
    var t1 := TrimStart(c);
    CollapseFromTidy(s, 0);
    assert Tidy(c);
    TidySlice(c, |c| - |t1|, |c|);
    assert t1 == j + gap;
    if |ws| == 0 {
      assert gap == "";
    }
    TrimEndWords(j, gap);
    TidySlice(t1, 0, |j|);
    assert t1[..|j|] == j;
    PunctuatePlain(j);
  }

  // ---------------------------------------------------------------------------
  // Normal form, fixed points and idempotence.

  /** No line terminators, `' '` as the only whitespace, never two spaces in a row. */
  predicate Tidy(t: string) {
    && AllDots(t)
    && BlanksOnly(t)
    && NoDoubleSpace(t)
  }

  lemma TidySlice(t: string, j: nat, m: nat)
    requires Tidy(t) && j <= m <= |t|
    ensures Tidy(t[j..m])
  {
    var u := t[j..m];
    forall k | 0 <= k < |u| - 1 ensures !(u[k] == ' ' && u[k + 1] == ' ') {
      assert u[k] == t[j + k] && u[k + 1] == t[j + k + 1];
    }
  }

  /** A full stop appended to a tidy text keeps it tidy. */
  lemma TidyStop(t: string)
    requires Tidy(t)
    ensures Tidy(t + ".")
  {
    var u := t + ".";
    forall k | 0 <= k < |u| - 1 ensures !(u[k] == ' ' && u[k + 1] == ' ') {
      if k + 1 < |t| {
        assert u[k] == t[k] && u[k + 1] == t[k + 1];
      }
    }
  }

  /** The shape of a normalized text: tidy, no leading space, and a final
      `.`, `!`, `?` or `:` unless it is empty. */
  predicate IsNormal(t: string) {
    && Tidy(t)
    && (|t| > 0 ==> t[0] != ' ' && IsTerminalMark(t[|t| - 1]))
  }

  /** Text without U+0085, U+2028 and U+2029 normalizes to the normal form. */
  lemma NormalizeIsNormal(s: string)
    requires ValidText(s)
    ensures IsNormal(Normalize(s))
  {
    var c := Collapse(s);
    CollapseFromTidy(s, 0);
    assert Tidy(c);
    var t1 := TrimStart(c);
    TidySlice(c, |c| - |t1|, |c|);
    assert Tidy(t1);
    TrimEndDropsTrailingSpace(t1);
    var t2 := TrimEnd(t1);
    TidySlice(t1, 0, |t2|);
    assert Tidy(t2);
    PunctuatePlain(t2);
    TrimEndKeepsHead(t1);
    if |t2| > 0 && !IsTerminalMark(t2[|t2| - 1]) {
      TidyStop(t2);
    }
  }

  /** The normal form less its line-terminator clause: `' '` as the only
      whitespace, never two spaces in a row, no leading space, and a final
      `.`, `!`, `?` or `:` unless the text is empty. */
  predicate Settled(t: string) {
    && BlanksOnly(t)
    && NoDoubleSpace(t)
    && (|t| > 0 ==> t[0] != ' ' && IsTerminalMark(t[|t| - 1]))
  }

  lemma SpacedSlice(t: string, j: nat, m: nat)
    requires BlanksOnly(t) && NoDoubleSpace(t) && j <= m <= |t|
    ensures BlanksOnly(t[j..m]) && NoDoubleSpace(t[j..m])
  {
    var u := t[j..m];
    forall k | 0 <= k < |u| - 1 ensures !(u[k] == ' ' && u[k + 1] == ' ') {
      assert u[k] == t[j + k] && u[k + 1] == t[j + k + 1];
    }
  }

  /** Pass 3, whatever line terminators the text holds, keeps `' '` the only
      whitespace and never doubled, and starts with a space only where the
      text read from `i` does. */
  lemma {:induction false} TrimEndFromTidy(t: string, i: nat)
    requires BlanksOnly(t) && NoDoubleSpace(t)
    ensures BlanksOnly(TrimEndFrom(t, i)) && NoDoubleSpace(TrimEndFrom(t, i))
    ensures |TrimEndFrom(t, i)| > 0 && TrimEndFrom(t, i)[0] == ' ' ==> i < |t| && t[i] == ' '
    decreases |t| - i
  {
    if i < |t| {
      match TrailingMatch(t, i)
      case Some(k) =>
        if i + 1 < |t| {
          assert !(t[i] == ' ' && t[i + 1] == ' ');
        }
        assert SpaceRun(t, i) == 1;
        TrimEndFromTidy(t, k);
      case None =>
        TrimEndFromTidy(t, i + 1);
        var r := TrimEndFrom(t, i);
        var rest := TrimEndFrom(t, i + 1);
        assert r == [t[i]] + rest;
        forall k | 0 <= k < |r| - 1 ensures !(r[k] == ' ' && r[k + 1] == ' ') {
          if k > 0 {
            assert r[k] == rest[k - 1] && r[k + 1] == rest[k];
          } else if r[1] == ' ' {
            assert rest[0] == ' ';
          }
        }
        forall k | 0 <= k < |r| && IsSpace(r[k]) ensures r[k] == ' ' {
          if k > 0 {
            assert r[k] == rest[k - 1];
          }
        }
    }
  }

  /** Pass 4 likewise keeps `' '` the only whitespace and never doubled. */
  lemma {:induction false} PunctuateFromTidy(t: string, i: nat)
    requires BlanksOnly(t) && NoDoubleSpace(t)
    ensures BlanksOnly(PunctuateFrom(t, i)) && NoDoubleSpace(PunctuateFrom(t, i))
    decreases |t| - i
  {
    if i < |t| {
      PunctuateFromTidy(t, i + 1);
      var r := PunctuateFrom(t, i);
      var rest := PunctuateFrom(t, i + 1);
      if !IsTerminalMark(t[i]) && EndAnchor(t, i + 1) {
        assert r == [t[i], '.'] + rest;
        forall k | 0 <= k < |r| - 1 ensures !(r[k] == ' ' && r[k + 1] == ' ') {
          if k > 1 {
            assert r[k] == rest[k - 2] && r[k + 1] == rest[k - 1];
          } else if k == 1 {
            assert r[1] == '.';
          }
        }
        forall k | 0 <= k < |r| && IsSpace(r[k]) ensures r[k] == ' ' {
          if k > 1 {
            assert r[k] == rest[k - 2];
          }
        }
      } else {
        assert r == [t[i]] + rest;
        forall k | 0 <= k < |r| - 1 ensures !(r[k] == ' ' && r[k + 1] == ' ') {
          if k > 0 {
            assert r[k] == rest[k - 1] && r[k + 1] == rest[k];
          } else {
            assert r[1] == rest[0] == t[i + 1];
            assert !(t[i] == ' ' && t[i + 1] == ' ');
          }
        }
        forall k | 0 <= k < |r| && IsSpace(r[k]) ensures r[k] == ' ' {
          if k > 0 {
            assert r[k] == rest[k - 1];
          }
        }
      }
    }
  }

  /** Whatever the input, line terminators included, `normalize` leaves `' '`
      as the only whitespace, never two in a row, no leading space, and a
      final terminal mark. */
  lemma NormalizeSettled(s: string)
    ensures Settled(Normalize(s))
  {
    var c := Collapse(s);
    CollapseFromTidy(s, 0);
    var t1 := TrimStart(c);
    SpacedSlice(c, |c| - |t1|, |c|);
    assert t1 == c[|c| - |t1|..|c|];
    TrimEndFromTidy(t1, 0);
    var t2 := TrimEnd(t1);
    PunctuateFromTidy(t2, 0);
    assert Normalize(s) == Punctuate(t2);
  }

  lemma {:induction false} CollapseFromFixed(t: string, i: nat)
    requires Settled(t) && i <= |t|
    ensures CollapseFrom(t, i) == t[i..]
    decreases |t| - i
  {
    if i < |t| {
      if IsSpace(t[i]) {
        assert SpaceRun(t, i) == 1 by {
          if i + 1 < |t| {
            assert !(t[i] == ' ' && t[i + 1] == ' ');
          }
        }
      }
      CollapseFromFixed(t, i + SpaceRun(t, i) + if IsSpace(t[i]) then 0 else 1);
      assert t[i..] == [t[i]] + t[i + 1..];
    }
  }

  /** In settled text no `\s+$` matches: every space sits between two words. */
  lemma {:induction false} TrimEndFromFixed(t: string, i: nat)
    requires Settled(t) && i <= |t|
    ensures TrimEndFrom(t, i) == t[i..]
    decreases |t| - i
  {
    if i < |t| {
      if IsSpace(t[i]) {
        assert i + 1 < |t|;
        assert !(t[i] == ' ' && t[i + 1] == ' ');
        assert SpaceRun(t, i) == 1;
        assert !EndAnchor(t, i + 1);
      }
      assert TrailingMatch(t, i).None?;
      TrimEndFromFixed(t, i + 1);
      assert t[i..] == [t[i]] + t[i + 1..];
    }
  }

  /** In settled text `[^.!?:]$` never matches: `$` can only hold at the end. */
  lemma {:induction false} PunctuateFromFixed(t: string, i: nat)
    requires Settled(t) && i <= |t|
    ensures PunctuateFrom(t, i) == t[i..]
    decreases |t| - i
  {
    if i < |t| {
      assert IsTerminalMark(t[i]) || !EndAnchor(t, i + 1);
      PunctuateFromFixed(t, i + 1);
      assert t[i..] == [t[i]] + t[i + 1..];
    }
  }

  /** Settled text, and so text in normal form, is returned unchanged. */
  lemma NormalFixed(t: string)
    requires Settled(t)
    ensures Normalize(t) == t
  {
    CollapseFromFixed(t, 0);
    assert Collapse(t) == t;
    assert TrimStart(t) == t;
    TrimEndFromFixed(t, 0);
    PunctuateFromFixed(t, 0);
  }

  /** `normalize` is idempotent. */
  lemma NormalizeIdempotent(s: string)
    ensures Normalize(Normalize(s)) == Normalize(s)
  {
    NormalizeSettled(s);
    NormalFixed(Normalize(s));
  }

  /** ... and its fixed points are exactly the texts in normal form. */
  lemma FixedIffNormal(t: string)
    requires ValidText(t)
    ensures Normalize(t) == t <==> IsNormal(t)
  {
    if IsNormal(t) {
      NormalFixed(t);
    } else {
      NormalizeIsNormal(t);
    }
  }
}
