/**
  First-person to second-person ("vous") rewriting, as `firstToSecondPerson`
  does it: a fixed sequence of rewrites, each applied to the whole text by a
  left-to-right scan that replaces non-overlapping matches and resumes after
  each one, the way Java's `replaceAll` and `replace` do. No rewrite looks at
  word boundaries, and these patterns are case-sensitive apart from `[Jj]`.
 */
module PersonConverter {
  import opened Text

  /** An irregular verb: its first-person singular and second-person plural forms. */
  datatype Verb = Verb(firstSingular: string, secondPlural: string)

  /** The irregular verb table, in its fixed order. */
  const Verbs: seq<Verb> := [
    Verb("suis", "êtes"),
    Verb("vais", "allez"),
    Verb("dis", "dites"),
    Verb("ai", "avez"),
    Verb("fais", "faites"),
    Verb("sais", "savez"),
    Verb("peux", "pouvez"),
    Verb("dois", "devez")
  ]

  /** One rewrite of the text.
      - `Conjugation(e, x)` is the regex `[Jj]e ([a-z]*)e ` (with `e` the final
        letter) replaced by `vous $1x `;
      - `Irregular(v)` is the regex `[Jj]e <first>` replaced by `vous <second>`;
      - `Literal(t, r)` is `String.replace(t, r)`. */
  datatype Rewrite =
    | Conjugation(ending: char, suffix: string)
    | Irregular(verb: Verb)
    | Literal(target: string, replacement: string)

  /** Rewrites whose matches are never empty (every rewrite of the converter is one). */
  predicate WellFormed(rw: Rewrite) {
    match rw
    case Conjugation(e, _) => IsAsciiLower(e)
    case Irregular(_) => true
    case Literal(t, _) => |t| > 0
  }

  /** A match found at some position: how many characters it consumes and what replaces them. */
  datatype Match = Match(length: nat, output: string)

  /** The subject `[Jj]e ` at position `i`. */
  predicate SubjectAt(s: string, i: nat) {
    LiteralAt(s, i, "Je ") || LiteralAt(s, i, "je ")
  }

  /** Length of the run of `[a-z]` characters starting at `i`. */
  function LowerRun(s: string, i: nat): (n: nat)
    requires i <= |s|
    ensures i + n <= |s|
    ensures forall k :: i <= k < i + n ==> IsAsciiLower(s[k])
    ensures i + n == |s| || !IsAsciiLower(s[i + n])
    decreases |s| - i
  {
    if i < |s| && IsAsciiLower(s[i]) then 1 + LowerRun(s, i + 1) else 0
  }

  /** What `[Jj]e ([a-z]*)<ending> ` matches at `i`: greedy `[a-z]*` can only
      succeed with the whole `[a-z]` run, whose last letter must be `ending`
      and which must be followed by a space. */
  function ConjugationAt(s: string, i: nat, ending: char, suffix: string): Option<Match> {
    if !SubjectAt(s, i) then None
    else
      var n := LowerRun(s, i + 3);
      if n >= 1 && s[i + 3 + n - 1] == ending && i + 3 + n < |s| && s[i + 3 + n] == ' '
      then Some(Match(n + 4, "vous " + s[i + 3..i + 3 + n - 1] + suffix + " "))
      else None
  }

  /** The text the regex `[Jj]e ([a-z]*)<ending> ` describes, with the group of
      length `k`, at position `i`. */
  predicate ConjugationShape(s: string, i: nat, k: nat, ending: char) {
    && SubjectAt(s, i)
    && i + 3 + k + 2 <= |s|
    && (forall j :: i + 3 <= j < i + 3 + k ==> IsAsciiLower(s[j]))
    && s[i + 3 + k] == ending
    && s[i + 3 + k + 1] == ' '
  }

  /** The scanner agrees with the regex: it matches exactly when some split of the
      text fits the pattern, that split is unique, and the replacement carries its group. */
  lemma ConjugationIsRegex(s: string, i: nat, ending: char, suffix: string)
    requires IsAsciiLower(ending)
    ensures ConjugationAt(s, i, ending, suffix).Some? <==> exists k: nat :: ConjugationShape(s, i, k, ending)
    ensures forall k: nat :: ConjugationShape(s, i, k, ending) ==>
      ConjugationAt(s, i, ending, suffix) == Some(Match(k + 5, "vous " + s[i + 3..i + 3 + k] + suffix + " "))
  {
    if SubjectAt(s, i) {
      var n := LowerRun(s, i + 3);
      forall k: nat | ConjugationShape(s, i, k, ending)
        ensures k + 1 == n
      {
        assert !IsAsciiLower(s[i + 3 + k + 1]);
      }
      if ConjugationAt(s, i, ending, suffix).Some? {
        assert ConjugationShape(s, i, n - 1, ending);
      }
    }
  }

  /** What a rewrite matches at position `i`, if anything. */
  function MatchAt(rw: Rewrite, s: string, i: nat): (r: Option<Match>)
    requires WellFormed(rw)
    ensures r.Some? ==> 1 <= r.value.length && i + r.value.length <= |s|
    ensures r.Some? && !rw.Literal? ==> SubjectAt(s, i)
    ensures r.Some? && rw.Literal? ==> LiteralAt(s, i, rw.target)
  {
    match rw
    case Conjugation(e, suffix) => ConjugationAt(s, i, e, suffix)
    case Irregular(v) =>
      if SubjectAt(s, i) && LiteralAt(s, i + 3, v.firstSingular)
      then Some(Match(3 + |v.firstSingular|, "vous " + v.secondPlural))
      else None
    case Literal(t, rep) =>
      if LiteralAt(s, i, t) then Some(Match(|t|, rep)) else None
  }

  /** No match of `rw` starts at or after `i`. */
  predicate Quiet(rw: Rewrite, s: string, i: nat)
    requires WellFormed(rw)
  {
    forall k :: i <= k < |s| ==> MatchAt(rw, s, k).None?
  }

  /** Replace every match of `rw` in `s[i..]`, scanning left to right; where
      no match starts from `i` on, the rest of the text is copied as it is. */
  function ApplyFrom(rw: Rewrite, s: string, i: nat): (r: string)
    requires WellFormed(rw)
    ensures Quiet(rw, s, i) ==> r == if i <= |s| then s[i..] else []
    decreases |s| - i
  {
    if i >= |s| then []
    else match MatchAt(rw, s, i)
      case Some(m) => m.output + ApplyFrom(rw, s, i + m.length)
      case None =>
        assert s[i..] == [s[i]] + s[i + 1..];
        [s[i]] + ApplyFrom(rw, s, i + 1)
  }

  /** `replaceAll`/`replace` of one rewrite: text where the rewrite never
      matches comes back unchanged. */
  function Apply(rw: Rewrite, s: string): (r: string)
    requires WellFormed(rw)
    ensures Quiet(rw, s, 0) ==> r == s
  {
    ApplyFrom(rw, s, 0)
  }

  /** The irregular table applied entry by entry, from entry `k` on; text in
      which no rewrite of the converter can fire goes through unchanged. */
  function ApplyVerbs(k: nat, s: string): (r: string)
    ensures Inert(s) ==> r == s
    decreases |Verbs| - k
  {
    if k >= |Verbs| then s
    else
      InertApplied(Irregular(Verbs[k]), s);
      ApplyVerbs(k + 1, Apply(Irregular(Verbs[k]), s))
  }

  /** The literal replacements of possessives and `moi`, in their order; no
      `moi` is left afterwards. */
  function Possessives(s: string): (r: string)
    ensures !Contains(r, "moi")
  {
    var before := Apply(Literal("mes ", "vos "),
      Apply(Literal("ma ", "votre "),
        Apply(Literal("mon ", "votre "), s)));
    MoiReplacedEverywhere(before);
    Apply(Literal("moi", "vous"), before)
  }

  /** `firstToSecondPerson`: `-e` verbs, the irregular table in order, `-s` verbs,
      then the possessives and `moi`; the result never contains `moi`. */
  function FirstToSecondPerson(s: string): (r: string)
    ensures !Contains(r, "moi")
  {
    var conjugated := Apply(Conjugation('e', "ez"), s);
    var irregular := ApplyVerbs(0, conjugated);
    var second := Apply(Conjugation('s', "ssez"), irregular);
    Possessives(second)
  }

  // ---------------------------------------------------------------------------
  // Where nothing can match, nothing changes.

  /** No rewrite of the converter can fire at position `i`: no `[Jj]e ` and
      none of `mon `, `ma `, `mes `, `moi` starts there. */
  predicate InertAt(s: string, i: nat) {
    && !SubjectAt(s, i)
    && !LiteralAt(s, i, "mon ") && !LiteralAt(s, i, "ma ")
    && !LiteralAt(s, i, "mes ") && !LiteralAt(s, i, "moi")
  }

  /** The first letters of `Je `, `je `, `mon `, `ma `, `mes ` and `moi`. */
  predicate MayStartRewrite(c: char) {
    c == 'J' || c == 'j' || c == 'm'
  }

  /** `InertAt` holds at every position from `i` on, checked position by
      position and in full only where a rewrite could start. */
  predicate InertFrom(s: string, i: nat)
    decreases |s| - i
  {
    i >= |s| || ((!MayStartRewrite(s[i]) || InertAt(s, i)) && InertFrom(s, i + 1))
  }

  lemma InertAtByFirstChar(s: string, i: nat)
    requires i < |s| && !MayStartRewrite(s[i])
    ensures InertAt(s, i)
  {
  }

  predicate Inert(s: string) {
    InertFrom(s, 0)
  }

  /** The rewrites `firstToSecondPerson` uses. */
  predicate ConverterRewrite(rw: Rewrite) {
    WellFormed(rw) && (rw.Literal? ==> rw.target in {"mon ", "ma ", "mes ", "moi"})
  }

  lemma {:induction false} InertUnchanged(rw: Rewrite, s: string, i: nat)
    requires ConverterRewrite(rw) && InertFrom(s, i)
    ensures ApplyFrom(rw, s, i) == if i <= |s| then s[i..] else []
    decreases |s| - i
  {
    if i < |s| {
      if !MayStartRewrite(s[i]) {
        InertAtByFirstChar(s, i);
      }
      InertUnchanged(rw, s, i + 1);
      assert s[i..] == [s[i]] + s[i + 1..];
    }
  }

  /** A rewrite of the converter leaves inert text as it is. */
  lemma InertApplied(rw: Rewrite, s: string)
    requires ConverterRewrite(rw)
    ensures Inert(s) ==> Apply(rw, s) == s
  {
    if Inert(s) {
      InertUnchanged(rw, s, 0);
    }
  }

  /** `String.replace` leaves text without its target as it is. */
  lemma AbsentTargetUnchanged(t: string, r: string, s: string)
    requires |t| > 0 && !Contains(s, t)
    ensures Apply(Literal(t, r), s) == s
  {
    ContainsIff(s, t);
    assert Quiet(Literal(t, r), s, 0);
  }

  lemma PossessivesUnchanged(s: string)
    requires !Contains(s, "mon ") && !Contains(s, "ma ") && !Contains(s, "mes ") && !Contains(s, "moi")
    ensures Possessives(s) == s
  {
    AbsentTargetUnchanged("mon ", "votre ", s);
    AbsentTargetUnchanged("ma ", "votre ", s);
    AbsentTargetUnchanged("mes ", "vos ", s);
    AbsentTargetUnchanged("moi", "vous", s);
  }

  /** None of the irregular entries `k..m-1` follows a subject at position 0. */
  predicate NoVerbBetween(s: string, k: nat, m: nat)
    requires m <= |Verbs|
    decreases m - k
  {
    k >= m || (!LiteralAt(s, 3, Verbs[k].firstSingular) && NoVerbBetween(s, k + 1, m))
  }

  /** When the only subject is at the start and entries `k..m-1` do not follow
      it, those entries change nothing. */
  lemma {:induction false} VerbsSkip(k: nat, m: nat, s: string)
    requires m <= |Verbs| && InertFrom(s, 1) && NoVerbBetween(s, k, m)
    ensures k <= m ==> ApplyVerbs(k, s) == ApplyVerbs(m, s)
    decreases m - k
  {
    if k < m {
      var rw := Irregular(Verbs[k]);
      InertUnchanged(rw, s, 1);
      assert Apply(rw, s) == s;
      VerbsSkip(k + 1, m, s);
    }
  }

  /** Inert text goes through every stage from irregular entry `k` on unchanged. */
  lemma InertFromVerb(k: nat, s: string)
    requires Inert(s)
    ensures Possessives(Apply(Conjugation('s', "ssez"), ApplyVerbs(k, s))) == s
  {
    InertUnchanged(Conjugation('s', "ssez"), s, 0);
    InertIff(s);
    PossessivesUnchanged(s);
  }

  lemma {:induction false} InertFromIff(s: string, i: nat)
    ensures InertFrom(s, i) <==> forall k :: i <= k < |s| ==> InertAt(s, k)
    decreases |s| - i
  {
    if i < |s| {
      InertFromIff(s, i + 1);
    }
  }

  /** Inertness is exactly the absence of the six literals the rewrites start with. */
  lemma InertIff(s: string)
    ensures Inert(s) <==>
      && !Contains(s, "Je ") && !Contains(s, "je ")
      && !Contains(s, "mon ") && !Contains(s, "ma ") && !Contains(s, "mes ") && !Contains(s, "moi")
  {
    InertFromIff(s, 0);
    ContainsIff(s, "Je ");
    ContainsIff(s, "je ");
    ContainsIff(s, "mon ");
    ContainsIff(s, "ma ");
    ContainsIff(s, "mes ");
    ContainsIff(s, "moi");
    if Inert(s) {
      forall i: nat | i < |s|
        ensures InertAt(s, i)
      {
      }
      forall t | t in ["Je ", "je ", "mon ", "ma ", "mes ", "moi"]
        ensures !Contains(s, t)
      {
        ContainsIff(s, t);
        forall i: nat
          ensures !LiteralAt(s, i, t)
        {
          if i < |s| {
            assert InertAt(s, i);
          }
        }
      }
    } else {
      var k :| 0 <= k < |s| && !InertAt(s, k);
      assert LiteralAt(s, k, "Je ") || LiteralAt(s, k, "je ") || LiteralAt(s, k, "mon ")
        || LiteralAt(s, k, "ma ") || LiteralAt(s, k, "mes ") || LiteralAt(s, k, "moi");
    }
  }

  /** Text with no `[Jj]e ` and none of `mon `, `ma `, `mes `, `moi` is returned as is. */
  lemma PersonUnchanged(s: string)
    requires !Contains(s, "Je ") && !Contains(s, "je ")
    requires !Contains(s, "mon ") && !Contains(s, "ma ") && !Contains(s, "mes ") && !Contains(s, "moi")
    ensures FirstToSecondPerson(s) == s
  {
    InertIff(s);
    InertUnchanged(Conjugation('e', "ez"), s, 0);
    InertFromVerb(0, s);
  }

  // ---------------------------------------------------------------------------
  // No `moi` survives: the last rewrite replaces each one by `vous`.

  /** A character of the `moi` rewrite's output that is not the `v` of a
      `vous` is a character of the input copied where no `moi` starts. */
  lemma HeadOfMoiRewrite(s: string, i: nat)
    ensures var out := ApplyFrom(Literal("moi", "vous"), s, i);
      |out| > 0 && out[0] != 'v' ==>
        i < |s| && !LiteralAt(s, i, "moi") && out[0] == s[i]
        && out[1..] == ApplyFrom(Literal("moi", "vous"), s, i + 1)
  {
  }

  lemma {:induction false} NoMoiFrom(s: string, i: nat)
    ensures var out := ApplyFrom(Literal("moi", "vous"), s, i);
      forall p :: 0 <= p && p + 2 < |out| ==> !(out[p] == 'm' && out[p + 1] == 'o' && out[p + 2] == 'i')
    decreases |s| - i
  {
    var moi := Literal("moi", "vous");
    if i < |s| {
      var out := ApplyFrom(moi, s, i);
      match MatchAt(moi, s, i)
      case Some(m) =>
        NoMoiFrom(s, i + 3);
        assert out == "vous" + ApplyFrom(moi, s, i + 3);
      case None =>
        NoMoiFrom(s, i + 1);
        var rest := ApplyFrom(moi, s, i + 1);
        assert out == [s[i]] + rest;
        HeadOfMoiRewrite(s, i + 1);
        HeadOfMoiRewrite(s, i + 2);
        LiteralAtSlice(s, i, "moi");
    }
  }

  /** Replacing every `moi` by `vous` leaves no `moi`. */
  lemma MoiReplacedEverywhere(s: string)
    ensures !Contains(Apply(Literal("moi", "vous"), s), "moi")
  {
    var out := Apply(Literal("moi", "vous"), s);
    assert out == ApplyFrom(Literal("moi", "vous"), s, 0);
    NoMoiFrom(s, 0);
    forall p: nat ensures !LiteralAt(out, p, "moi") {
      LiteralAtSlice(out, p, "moi");
      if p + 3 <= |out| {
        assert out[p..p + 3] == [out[p], out[p + 1], out[p + 2]];
      }
    }
  }
}
