/**
  Character classes and literal matching shared by the whole model.

  The source relies on `java.util.regex` with fixed patterns; the pieces of
  regex semantics those patterns need are stated here once:
  - `\s` is the ASCII class `[ \t\n\x0B\f\r]`;
  - `.` is any character except a line terminator (`\n`, `\r`, U+0085,
    U+2028, U+2029);
  - `CASE_INSENSITIVE` without `UNICODE_CASE` folds ASCII letters only.
 */
module Text {

  datatype Option<+T> = None | Some(value: T)

  /** Java's `\s` without UNICODE_CHARACTER_CLASS. */
  predicate IsSpace(c: char) {
    c == ' ' || c == '\t' || c == '\n' || c == '\U{B}' || c == '\U{C}' || c == '\r'
  }

  /** The line terminators that are not whitespace for `\s`. */
  predicate IsUnicodeLineBreak(c: char) {
    c == '\U{85}' || c == '\U{2028}' || c == '\U{2029}'
  }

  /** The characters the regex `.` refuses to match. */
  predicate IsLineTerminator(c: char) {
    c == '\n' || c == '\r' || IsUnicodeLineBreak(c)
  }

  /** Every character of `s` is matched by the regex `.`, so `.*` can consume all of it. */
  predicate AllDots(s: seq<char>) {
    forall i :: 0 <= i < |s| ==> !IsLineTerminator(s[i])
  }

  /** Text holding no U+0085, U+2028 or U+2029: the alphabet the model accepts
      from a user, since Java's `$` may match just before such a character. */
  predicate ValidText(s: seq<char>) {
    forall i :: 0 <= i < |s| ==> !IsUnicodeLineBreak(s[i])
  }

  /** `[a-z]`: lower-case ASCII letters, no accented letter. */
  predicate IsAsciiLower(c: char) {
    'a' <= c <= 'z'
  }

  /** ASCII-only lower-casing, the folding CASE_INSENSITIVE applies without UNICODE_CASE. */
  function Lower(c: char): (r: char)
    ensures !('A' <= c <= 'Z') ==> r == c
    ensures 'A' <= c <= 'Z' ==> IsAsciiLower(r) && r as int == c as int + 32
  {
    if 'A' <= c <= 'Z' then (c as int + 32) as char else c
  }

  /** `s` holds the literal `lit` at position `i`. */
  predicate LiteralAt(s: seq<char>, i: nat, lit: seq<char>) {
    i + |lit| <= |s| && AgreesFrom(s, i, lit, 0)
  }

  /** `s[i + j] == lit[j]` for every `j` from `k` on; checked character by character. */
  predicate AgreesFrom(s: seq<char>, i: nat, lit: seq<char>, k: nat)
    requires i + |lit| <= |s|
    decreases |lit| - k
  {
    k >= |lit| || (s[i + k] == lit[k] && AgreesFrom(s, i, lit, k + 1))
  }

  /** `s` holds `lit` at position `i` up to ASCII case. */
  predicate LiteralAtCI(s: seq<char>, i: nat, lit: seq<char>) {
    i + |lit| <= |s| && AgreesFromCI(s, i, lit, 0)
  }

  predicate AgreesFromCI(s: seq<char>, i: nat, lit: seq<char>, k: nat)
    requires i + |lit| <= |s|
    decreases |lit| - k
  {
    k >= |lit| || (Lower(s[i + k]) == Lower(lit[k]) && AgreesFromCI(s, i, lit, k + 1))
  }

  lemma {:induction false} AgreesFromIff(s: seq<char>, i: nat, lit: seq<char>, k: nat)
    requires i + |lit| <= |s|
    ensures AgreesFrom(s, i, lit, k) <==> forall j :: k <= j < |lit| ==> s[i + j] == lit[j]
    ensures AgreesFromCI(s, i, lit, k) <==> forall j :: k <= j < |lit| ==> Lower(s[i + j]) == Lower(lit[j])
    decreases |lit| - k
  {
    if k < |lit| {
      AgreesFromIff(s, i, lit, k + 1);
    }
  }

  /** The character-by-character definition is plain slice equality. */
  lemma LiteralAtSlice(s: seq<char>, i: nat, lit: seq<char>)
    ensures LiteralAt(s, i, lit) <==> i + |lit| <= |s| && s[i..i + |lit|] == lit
  {
    if i + |lit| <= |s| {
      AgreesFromIff(s, i, lit, 0);
    }
  }

  /** ... and the case-insensitive one is slice equality after folding. */
  lemma LiteralAtCIChars(s: seq<char>, i: nat, lit: seq<char>)
    ensures LiteralAtCI(s, i, lit) <==>
      i + |lit| <= |s| && forall j :: 0 <= j < |lit| ==> Lower(s[i + j]) == Lower(lit[j])
  {
    if i + |lit| <= |s| {
      AgreesFromIff(s, i, lit, 0);
    }
  }

  /** Any text holds itself at position 0, up to case. */
  lemma LiteralAtCISelf(s: seq<char>)
    ensures LiteralAtCI(s, 0, s)
  {
    LiteralAtCIChars(s, 0, s);
  }

  /** A case-insensitive occurrence at `i` is one at the start of the slice it covers. */
  lemma LiteralAtCISlice(s: seq<char>, i: nat, lit: seq<char>)
    ensures LiteralAtCI(s, i, lit) <==> i + |lit| <= |s| && LiteralAtCI(s[i..i + |lit|], 0, lit)
  {
    LiteralAtCIChars(s, i, lit);
    if i + |lit| <= |s| {
      LiteralAtCIChars(s[i..i + |lit|], 0, lit);
    }
  }

  /** An occurrence in `b` is an occurrence in `a + b + c`, shifted by `|a|`, and back. */
  lemma LiteralAtCIConcat(a: seq<char>, b: seq<char>, c: seq<char>, k: nat, lit: seq<char>)
    requires k + |lit| <= |b|
    ensures LiteralAtCI(a + b + c, |a| + k, lit) <==> LiteralAtCI(b, k, lit)
  {
    var t := a + b + c;
    LiteralAtCIChars(t, |a| + k, lit);
    LiteralAtCIChars(b, k, lit);
  }

  /** Java's `indexOf(t, from)`: the first position at or after `from` where `t` occurs, or -1. */
  function IndexOf(s: seq<char>, t: seq<char>, from: nat): (r: int)
    ensures r == -1 || from <= r <= |s|
    ensures r >= 0 ==> LiteralAt(s, r, t)
    ensures forall i :: from <= i && (r == -1 || i < r) ==> !LiteralAt(s, i, t)
    decreases |s| + 1 - from
  {
    if from > |s| then -1
    else if LiteralAt(s, from, t) then from
    else IndexOf(s, t, from + 1)
  }

  /** Java's `String.contains`, which is `indexOf(t) >= 0`. */
  predicate Contains(s: seq<char>, t: seq<char>) {
    IndexOf(s, t, 0) >= 0
  }

  lemma ContainsIff(s: seq<char>, t: seq<char>)
    ensures Contains(s, t) <==> exists i :: 0 <= i && LiteralAt(s, i, t)
  {
  }

  /** A text lacking some character of `t` does not contain `t`. */
  lemma AbsentCharNotContained(s: seq<char>, t: seq<char>, c: char)
    requires c in t && c !in s
    ensures !Contains(s, t)
  {
    var k :| 0 <= k < |t| && t[k] == c;
    forall i: nat ensures !LiteralAt(s, i, t) {
      LiteralAtSlice(s, i, t);
      if i + |t| <= |s| {
        assert s[i..i + |t|][k] != t[k];
      }
    }
  }

  /** `indexOf` up to ASCII case: the first position at or after `from` where
      `t` occurs case-insensitively, or -1. */
  function IndexOfCI(s: seq<char>, t: seq<char>, from: nat): (r: int)
    ensures r == -1 || from <= r <= |s|
    ensures r >= 0 ==> LiteralAtCI(s, r, t)
    ensures forall i :: from <= i && (r == -1 || i < r) ==> !LiteralAtCI(s, i, t)
    decreases |s| + 1 - from
  {
    if from > |s| then -1
    else if LiteralAtCI(s, from, t) then from
    else IndexOfCI(s, t, from + 1)
  }

  /** `t` occurs in `s` up to ASCII case. */
  predicate ContainsCI(s: seq<char>, t: seq<char>) {
    IndexOfCI(s, t, 0) >= 0
  }
}
