/**
  The fixed regular expressions of the reply cascade and of the name lookup,
  each as a hand-written matcher. All are matched with `matches()` (the whole
  text must fit) and, except the question detector, with CASE_INSENSITIVE.
  Each matcher comes with a lemma stating the text it accepts as a
  concatenation, which is how the regex reads.
 */
module Patterns {
  import opened Text

  /** `Je m'appelle `, compared up to ASCII case. */
  const Introduction := "je m'appelle "
  /** `Quel est mon nom \?`. */
  const NameQuestion := "quel est mon nom ?"
  /** The fixed head of `Qui est le plus (.*) \?`. */
  const SuperlativeHead := "qui est le plus "
  /** The fixed head of `(Je .*)\.`. */
  const Subject := "je "

  lemma AllDotsConcat(a: string, b: string)
    ensures AllDots(a + b) <==> AllDots(a) && AllDots(b)
  {
    if AllDots(a) && AllDots(b) {
      forall i | 0 <= i < |a + b| ensures !IsLineTerminator((a + b)[i]) {
        if i >= |a| {
          assert (a + b)[i] == b[i - |a|];
        }
      }
    }
    if AllDots(a + b) {
      forall i | 0 <= i < |a| ensures !IsLineTerminator(a[i]) {
        assert (a + b)[i] == a[i];
      }
      forall i | 0 <= i < |b| ensures !IsLineTerminator(b[i]) {
        assert (a + b)[|a| + i] == b[i];
      }
    }
  }

  /** A text holding `lit` up to case at its start. */
  lemma LiteralAtCIPrefix(p: string, rest: string, lit: string)
    requires |p| == |lit| && LiteralAtCI(p, 0, lit)
    ensures LiteralAtCI(p + rest, 0, lit)
  {
    LiteralAtCIChars(p, 0, lit);
    LiteralAtCIChars(p + rest, 0, lit);
    forall j | 0 <= j < |lit| ensures Lower((p + rest)[j]) == Lower(lit[j]) {
      assert (p + rest)[j] == p[j];
    }
  }

  /** ... and, conversely, every prefix of such a text at least as long as
      `lit` holds it. */
  lemma LiteralAtCIHead(t: string, lit: string, n: nat)
    requires LiteralAtCI(t, 0, lit) && |lit| <= n <= |t|
    ensures LiteralAtCI(t[..n], 0, lit)
  {
    LiteralAtCIChars(t, 0, lit);
    LiteralAtCIChars(t[..n], 0, lit);
  }

  /** An introduction in any case holds no line terminator ... */
  lemma IntroductionAllDots(q: string)
    requires |q| == 13 && LiteralAtCI(q, 0, Introduction)
    ensures AllDots(q)
  {
    LiteralAtCIChars(q, 0, Introduction);
    assert AllDots(Introduction);
    forall j | 0 <= j < 13 ensures !IsLineTerminator(q[j]) {
      assert !IsLineTerminator(Introduction[j]);
      assert Lower(q[j]) == Lower(Introduction[j]);
    }
  }

  /** ... and starts with the subject `je `, in the same case. */
  lemma IntroductionSpelling(q: string)
    requires |q| == 13 && LiteralAtCI(q, 0, Introduction)
    ensures AllDots(q) && LiteralAtCI(q, 0, Subject)
  {
    IntroductionAllDots(q);
    LiteralAtCIChars(q, 0, Introduction);
    LiteralAtCIChars(q, 0, Subject);
    forall j | 0 <= j < 3 ensures Lower(q[j]) == Lower(Subject[j]) {
      assert Subject[j] == Introduction[j];
    }
  }

  // ---------------------------------------------------------------------------
  // Rule 1: `.*Je m'appelle (.*)\.`, not anchored by its leading `.*`.

  /** The last position at or before `i` where the introduction occurs. */
  function LastIntroduction(t: string, i: nat): (r: Option<nat>)
    ensures r.Some? ==> r.value <= i && LiteralAtCI(t, r.value, Introduction)
    ensures forall j: nat :: (r.None? || r.value < j) && j <= i ==> !LiteralAtCI(t, j, Introduction)
    decreases i
  {
    if LiteralAtCI(t, i, Introduction) then Some(i)
    else if i == 0 then None
    else LastIntroduction(t, i - 1)
  }

  /** The group of rule 1: greedy `.*` settles on the last introduction that
      still leaves room for the final `.`. */
  function NameIntroduction(t: string): (r: Option<string>)
    ensures r.Some? ==> AllDots(r.value) && |r.value| < |t| && t[|t| - 1] == '.'
  {
    if |t| < 14 || !AllDots(t) || t[|t| - 1] != '.' then None
    else match LastIntroduction(t, |t| - 14)
      case None => None
      case Some(i) => Some(t[i + 13..|t| - 1])
  }

  /** No introduction, in any case, occurs in `n`. */
  predicate NoIntroduction(n: string) {
    forall k: nat :: k < |n| ==> !LiteralAtCI(n, k, Introduction)
  }

  /** `t` reads as `p`, an introduction spelled `q` in any case, the name `n`
      holding no further introduction, and a full stop. */
  predicate IntroducedAs(t: string, p: string, q: string, n: string) {
    && |q| == 13 && LiteralAtCI(q, 0, Introduction)
    && AllDots(p) && AllDots(n) && NoIntroduction(n)
    && t == p + q + n + "."
  }

  /** Rule 1 read as the regex: the text is some text `p`, an introduction
      spelled `q` in any case, a name `n` and a full stop; greedy `.*` makes
      `n` the part after the LAST introduction. */
  lemma NameIntroductionIff(t: string, n: string)
    ensures NameIntroduction(t) == Some(n) <==> exists p: string, q: string :: IntroducedAs(t, p, q, n)
  {
    if NameIntroduction(t) == Some(n) {
      NameIntroductionSplit(t);
      var i := LastIntroduction(t, |t| - 14).value;
      assert IntroducedAs(t, t[..i], t[i..i + 13], n);
    }
    if exists p: string, q: string :: IntroducedAs(t, p, q, n) {
      var p: string, q: string :| IntroducedAs(t, p, q, n);
      IntroductionAfterLast(p, q, n);
    }
  }

  /** The forward direction of `NameIntroductionIff`: the text cut at the last introduction. */
  lemma NameIntroductionSplit(t: string)
    requires NameIntroduction(t).Some?
    ensures var i := LastIntroduction(t, |t| - 14).value;
      var p, q, n := t[..i], t[i..i + 13], NameIntroduction(t).value;
      && |q| == 13 && LiteralAtCI(q, 0, Introduction)
      && AllDots(p) && AllDots(n) && NoIntroduction(n)
      && t == p + q + n + "."
  {
    var i := LastIntroduction(t, |t| - 14).value;
    var p, q, n := t[..i], t[i..i + 13], NameIntroduction(t).value;
    assert t == p + q + n + ".";
    LiteralAtCISlice(t, i, Introduction);
    AllDotsConcat(p + q, n + ".");
    AllDotsConcat(p, q);
    NothingAfterLast(p, q, n);
  }

  /** After the last introduction, the name holds no other. */
  lemma NothingAfterLast(p: string, q: string, n: string)
    requires |q| == 13
    requires forall j: nat :: |p| < j <= |p + q + n + "."| - 14 ==> !LiteralAtCI(p + q + n + ".", j, Introduction)
    ensures NoIntroduction(n)
  {
    forall k: nat | k < |n| ensures !LiteralAtCI(n, k, Introduction) {
      if k + 13 <= |n| {
        LiteralAtCIConcat(p + q, n, ".", k, Introduction);
        assert p + q + n + "." == (p + q) + n + ".";
      }
    }
  }

  /** An introduction cannot start inside another one: only its first letter folds to `j`. */
  lemma NoIntroductionInside(t: string, i: nat, j: nat)
    requires LiteralAtCI(t, i, Introduction) && i < j < i + 13
    ensures !LiteralAtCI(t, j, Introduction)
  {
    LiteralAtCIChars(t, i, Introduction);
    LiteralAtCIChars(t, j, Introduction);
    assert forall k :: 1 <= k < 13 ==> Lower(Introduction[k]) != 'j';
    assert Lower(t[j]) == Lower(Introduction[j - i]);
  }

  /** The last occurrence up to `top` is `i` when nothing occurs after it. */
  lemma LastIntroductionIs(t: string, top: nat, i: nat)
    requires i <= top && LiteralAtCI(t, i, Introduction)
    requires forall j: nat :: i < j <= top ==> !LiteralAtCI(t, j, Introduction)
    ensures LastIntroduction(t, top) == Some(i)
  {
  }

  /** The text `p + q + n + "."` of the backward direction, in parts. */
  lemma JoinedAllDots(p: string, q: string, n: string)
    requires |q| == 13 && LiteralAtCI(q, 0, Introduction) && AllDots(p) && AllDots(n)
    ensures AllDots(p + q + n + ".")
  {
    IntroductionSpelling(q);
    AllDotsConcat(p, q);
    AllDotsConcat(p + q, n);
    AllDotsConcat(p + q + n, ".");
  }

  lemma JoinedIntroduction(p: string, q: string, n: string)
    requires |q| == 13 && LiteralAtCI(q, 0, Introduction)
    ensures LiteralAtCI(p + q + n + ".", |p|, Introduction)
  {
    LiteralAtCIConcat(p, q, n + ".", 0, Introduction);
    assert p + q + n + "." == p + q + (n + ".");
  }

  lemma JoinedNothingAfter(p: string, q: string, n: string, j: nat)
    requires |q| == 13 && LiteralAtCI(q, 0, Introduction) && NoIntroduction(n)
    requires |p| < j && j + 14 <= |p + q + n + "."|
    ensures !LiteralAtCI(p + q + n + ".", j, Introduction)
  {
    if j < |p| + 13 {
      JoinedIntroduction(p, q, n);
      NoIntroductionInside(p + q + n + ".", |p|, j);
    } else {
      LiteralAtCIConcat(p + q, n, ".", j - |p| - 13, Introduction);
    }
  }

  /** The backward direction of `NameIntroductionIff`. */
  lemma IntroductionAfterLast(p: string, q: string, n: string)
    requires |q| == 13 && LiteralAtCI(q, 0, Introduction)
    requires AllDots(p) && AllDots(n) && NoIntroduction(n)
    ensures NameIntroduction(p + q + n + ".") == Some(n)
  {
    var t := p + q + n + ".";
    var i := |p|;
    JoinedAllDots(p, q, n);
    JoinedIntroduction(p, q, n);
    forall j: nat | i < j <= |t| - 14 ensures !LiteralAtCI(t, j, Introduction) {
      JoinedNothingAfter(p, q, n, j);
    }
    LastIntroductionIs(t, |t| - 14, i);
    assert t[i + 13..|t| - 1] == n;
  }

  // ---------------------------------------------------------------------------
  // The name lookup's pattern `Je m'appelle (.*)\.`, anchored by `matches()`.

  function DeclaredName(t: string): (r: Option<string>)
    ensures r.Some? ==> AllDots(r.value) && |r.value| + 14 == |t|
  {
    if |t| >= 14 && LiteralAtCI(t, 0, Introduction) && t[|t| - 1] == '.' && AllDots(t[13..|t| - 1])
    then Some(t[13..|t| - 1])
    else None
  }

  /** A declared name splits the text into introduction, name and full stop ... */
  lemma DeclaredNameSplit(t: string)
    requires DeclaredName(t).Some?
    ensures var q := t[..13];
      LiteralAtCI(q, 0, Introduction) && t == q + DeclaredName(t).value + "."
  {
    LiteralAtCIHead(t, Introduction, 13);
    assert t == t[..13] + t[13..|t| - 1] + ".";
  }

  /** ... and such a text declares the name. */
  lemma DeclaredNameJoin(q: string, n: string)
    requires |q| == 13 && LiteralAtCI(q, 0, Introduction) && AllDots(n)
    ensures DeclaredName(q + n + ".") == Some(n)
  {
    var t := q + n + ".";
    LiteralAtCIPrefix(q, n + ".", Introduction);
    assert t == q + (n + ".");
    assert t[13..|t| - 1] == n;
  }

  /** The anchored pattern read as the regex: an introduction in any case, a
      name, a full stop, and nothing before. */
  lemma DeclaredNameIff(t: string, n: string)
    ensures DeclaredName(t) == Some(n) <==>
      exists q: string :: |q| == 13 && LiteralAtCI(q, 0, Introduction) && AllDots(n) && t == q + n + "."
  {
    if DeclaredName(t) == Some(n) {
      DeclaredNameSplit(t);
      assert |t[..13]| == 13;
    }
    if exists q: string :: |q| == 13 && LiteralAtCI(q, 0, Introduction) && AllDots(n) && t == q + n + "." {
      var q: string :| |q| == 13 && LiteralAtCI(q, 0, Introduction) && AllDots(n) && t == q + n + ".";
      DeclaredNameJoin(q, n);
    }
  }

  /** A declared name is also introduced: the anchored pattern is the
      unanchored one with an empty `.*` prefix, but the unanchored one picks
      the last introduction. */
  lemma DeclaredIsIntroduced(t: string)
    requires DeclaredName(t).Some?
    ensures NameIntroduction(t).Some?
  {
    DeclaredNameSplit(t);
    JoinedAllDots([], t[..13], DeclaredName(t).value);
    assert [] + t[..13] + DeclaredName(t).value + "." == t;
    assert LastIntroduction(t, |t| - 14).Some?;
  }

  // ---------------------------------------------------------------------------
  // Rule 2: `Quel est mon nom \?`.

  /** The whole text is the question in any case; folding leaves its `?` alone. */
  predicate IsNameQuestion(t: string)
    ensures IsNameQuestion(t) ==> |t| == 18 && t[17] == '?'
  {
    if |t| == 18 && LiteralAtCI(t, 0, NameQuestion) then
      LiteralAtCIChars(t, 0, NameQuestion);
      assert Lower(t[17]) == Lower(NameQuestion[17]);
      true
    else false
  }

  // ---------------------------------------------------------------------------
  // Rule 3: `Qui est le plus (.*) \?`.

  function Superlative(t: string): (r: Option<string>)
    ensures r.Some? ==> AllDots(r.value) && |r.value| + 18 == |t|
  {
    if |t| >= 18 && LiteralAtCI(t, 0, SuperlativeHead) && t[|t| - 2] == ' ' && t[|t| - 1] == '?'
      && AllDots(t[16..|t| - 2])
    then Some(t[16..|t| - 2])
    else None
  }

  lemma SuperlativeIff(t: string, x: string)
    ensures Superlative(t) == Some(x) <==>
      exists h: string :: |h| == 16 && LiteralAtCI(h, 0, SuperlativeHead) && AllDots(x) && t == h + x + " ?"
  {
    if Superlative(t) == Some(x) {
      SuperlativeSplit(t);
    }
    if exists h: string :: |h| == 16 && LiteralAtCI(h, 0, SuperlativeHead) && AllDots(x) && t == h + x + " ?" {
      var h: string :| |h| == 16 && LiteralAtCI(h, 0, SuperlativeHead) && AllDots(x) && t == h + x + " ?";
      SuperlativeJoin(h, x);
    }
  }

  lemma SuperlativeSplit(t: string)
    requires Superlative(t).Some?
    ensures var h := t[..16];
      LiteralAtCI(h, 0, SuperlativeHead) && t == h + Superlative(t).value + " ?"
  {
    LiteralAtCIHead(t, SuperlativeHead, 16);
    assert t[|t| - 2..] == [t[|t| - 2], t[|t| - 1]];
  }

  lemma SuperlativeJoin(h: string, x: string)
    requires |h| == 16 && LiteralAtCI(h, 0, SuperlativeHead) && AllDots(x)
    ensures Superlative(h + x + " ?") == Some(x)
  {
    var t := h + x + " ?";
    LiteralAtCIPrefix(h, x + " ?", SuperlativeHead);
    assert t == h + (x + " ?");
    assert t[16..|t| - 2] == x;
  }

  // ---------------------------------------------------------------------------
  // Rule 4: `(Je .*)\.`; the group keeps the subject.

  function Reflection(t: string): (r: Option<string>)
    ensures r.Some? ==> |r.value| + 1 == |t| && LiteralAtCI(r.value, 0, Subject)
  {
    if |t| >= 4 && LiteralAtCI(t, 0, Subject) && t[|t| - 1] == '.' && AllDots(t[3..|t| - 1])
    then
      LiteralAtCIHead(t, Subject, |t| - 1);
      Some(t[..|t| - 1])
    else None
  }

  lemma ReflectionIff(t: string, g: string)
    ensures Reflection(t) == Some(g) <==>
      |g| >= 3 && LiteralAtCI(g, 0, Subject) && AllDots(g[3..]) && t == g + "."
  {
    if |g| >= 3 && LiteralAtCI(g, 0, Subject) && AllDots(g[3..]) && t == g + "." {
      LiteralAtCIHead(g, Subject, 3);
      LiteralAtCIPrefix(g[..3], g[3..] + ".", Subject);
      assert t == g[..3] + (g[3..] + ".");
      assert t[3..|t| - 1] == g[3..];
    }
  }

  // ---------------------------------------------------------------------------
  // Rule 5: `.*\?`, case-sensitive.

  predicate IsQuestion(t: string)
    ensures IsQuestion(t) <==> exists x: string :: AllDots(x) && t == x + "?"
  {
    if |t| >= 1 && t[|t| - 1] == '?' && AllDots(t[..|t| - 1]) then
      assert t == t[..|t| - 1] + "?";
      true
    else false
  }
}
