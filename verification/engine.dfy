/**
  `generateElizaResponse`: the text is normalized, then tried against an
  ordered cascade of patterns; the first that matches gives the reply.
  The random choices (`pickRandom` and three `nextBoolean` calls) come from
  a `Draws` value, so every reply is a function of the transcript, the text
  and the draws.
 */
module Eliza {
  import opened Text
  import opened Normalizer
  import opened PersonConverter
  import opened Patterns
  import opened Transcript
  import opened NameFinder

  /** The outcomes of the random calls one reply may make: the index drawn by
      `pickRandom` (reduced modulo the number of options) and the three coin flips. */
  datatype Draws = Draws(pick: nat, first: bool, second: bool, third: bool)

  const ReflectionOpeners: seq<string> :=
    ["Pourquoi dites-vous que ", "Pourquoi pensez-vous que ", "Êtes-vous sûr que "]
  const QuestionReplies: seq<string> :=
    ["Je vous renvoie la question.", "Ici, c'est moi qui pose les questions."]
  const Weather := "Il fait beau aujourd'hui, vous ne trouvez pas ?"
  const Puzzled := "Je ne comprends pas."
  const Hum := "Hmmm, hmm ..."
  const DefaultHead := "Qu'est-ce qui vous fait dire cela"

  /** `pickRandom`: one of the options, chosen by the draw. */
  function Pick(options: seq<string>, pick: nat): (r: string)
    requires |options| > 0
    ensures r in options
  {
    options[pick % |options|]
  }

  lemma PickReaches(options: seq<string>, k: nat)
    requires k < |options|
    ensures Pick(options, k) == options[k]
  {
  }

  /** The reply when nothing else applies: the fixed question, then `, ` and
      the name when there is one, then ` ?`. The name can be read back from it. */
  function DefaultReply(name: Option<string>): (r: string)
    ensures |r| >= |DefaultHead| + 2 && r[..|DefaultHead|] == DefaultHead && r[|r| - 2..] == " ?"
    ensures name.None? <==> |r| == |DefaultHead| + 2
    ensures r[|DefaultHead|] == if name.Some? then ',' else ' '
    ensures name.Some? ==>
      && |r| == |DefaultHead| + 4 + |name.value|
      && r[|DefaultHead|..|DefaultHead| + 2] == ", "
      && r[|DefaultHead| + 2..|r| - 2] == name.value
  {
    match name
    case Some(n) =>
      var r := DefaultHead + ", " + n + " ?";
      assert r[|DefaultHead| + 2..|r| - 2] == n;
      r
    case None => DefaultHead + " ?"
  }

  /** ... so distinct names, or a name and none, never give the same default reply. */
  lemma DefaultReplyInjective(a: Option<string>, b: Option<string>)
    requires DefaultReply(a) == DefaultReply(b)
    ensures a == b
  {
  }

  /** The answer to "Quel est mon nom ?". */
  function NameAnswer(name: Option<string>): string {
    match name
    case Some(n) => "Votre nom est " + n + "."
    case None => "Je ne connais pas votre nom."
  }

  /** The cascade on normalized text `t`, the user's name as the transcript
      gives it, and the draws. Whatever the draws, the reply is one of the
      replies of the first rule that fits `t`. */
  function ReplyTo(t: string, name: Option<string>, d: Draws): (r: string)
    ensures r in Replies(t, name)
  {
    match NameIntroduction(t)
    case Some(n) => "Bonjour " + n + "."
    case None =>
      if IsNameQuestion(t) then NameAnswer(name)
      else match Superlative(t)
        case Some(x) => "Le plus " + x + " est bien sûr votre enseignant de MIF01!"
        case None =>
          match Reflection(t)
          case Some(g) => Pick(ReflectionOpeners, d.pick) + FirstToSecondPerson(g) + " ?"
          case None =>
            if IsQuestion(t) then Pick(QuestionReplies, d.pick)
            else if d.first then Weather
            else if d.second then Puzzled
            else if d.third then Hum
            else DefaultReply(name)
  }

  /** `generateElizaResponse`. The transcript matters only through the user's
      name, and the reply is one the rules allow for the normalized text. */
  function GenerateElizaResponse(log: seq<Message>, userMessage: string, d: Draws): (r: string)
    ensures r in Replies(Normalize(userMessage), UserName(log))
  {
    ReplyTo(Normalize(userMessage), UserName(log), d)
  }

  // ---------------------------------------------------------------------------
  // The replies the cascade can give, whatever the draws.

  /** Every reply the cascade may give for `t`: one for the first three rules,
      a choice among fixed options for the others. */
  function Replies(t: string, name: Option<string>): set<string> {
    if NameIntroduction(t).Some? then {"Bonjour " + NameIntroduction(t).value + "."}
    else if IsNameQuestion(t) then {NameAnswer(name)}
    else if Superlative(t).Some? then
      {"Le plus " + Superlative(t).value + " est bien sûr votre enseignant de MIF01!"}
    else if Reflection(t).Some? then
      set o | o in ReflectionOpeners :: o + FirstToSecondPerson(Reflection(t).value) + " ?"
    else if IsQuestion(t) then set o | o in QuestionReplies
    else {Weather, Puzzled, Hum, DefaultReply(name)}
  }

  /** Each of the replies of `Replies` is given by some draws. */
  lemma RepliesReachable(t: string, name: Option<string>, r: string)
    requires r in Replies(t, name)
    ensures exists d: Draws :: ReplyTo(t, name, d) == r
  {
    if NameIntroduction(t).Some? || IsNameQuestion(t) || Superlative(t).Some? {
      assert ReplyTo(t, name, Draws(0, false, false, false)) == r;
    } else if Reflection(t).Some? {
      var g := Reflection(t).value;
      var k :| 0 <= k < 3 && r == ReflectionOpeners[k] + FirstToSecondPerson(g) + " ?";
      PickReaches(ReflectionOpeners, k);
      assert ReplyTo(t, name, Draws(k, false, false, false)) == r;
    } else if IsQuestion(t) {
      var k :| 0 <= k < 2 && r == QuestionReplies[k];
      PickReaches(QuestionReplies, k);
      assert ReplyTo(t, name, Draws(k, false, false, false)) == r;
    } else if r == Weather {
      assert ReplyTo(t, name, Draws(0, true, false, false)) == r;
    } else if r == Puzzled {
      assert ReplyTo(t, name, Draws(0, false, true, false)) == r;
    } else if r == Hum {
      assert ReplyTo(t, name, Draws(0, false, false, true)) == r;
    } else {
      assert ReplyTo(t, name, Draws(0, false, false, false)) == r;
    }
  }

  // ---------------------------------------------------------------------------
  // Precedence between the rules.

  /** `Je m'appelle X.` also fits the reflection rule `(Je .*)\.`, but the
      introduction rule comes first: the reply is a greeting. */
  lemma IntroductionBeatsReflection(q: string, n: string, name: Option<string>, d: Draws)
    requires |q| == 13 && LiteralAtCI(q, 0, Introduction) && AllDots(n) && NoIntroduction(n)
    ensures Reflection(q + n + ".").Some?
    ensures ReplyTo(q + n + ".", name, d) == "Bonjour " + n + "."
  {
    IntroductionAfterLast([], q, n);
    assert [] + q + n + "." == q + n + ".";
    IntroductionIsReflection(q, n);
  }

  lemma IntroductionIsReflection(q: string, n: string)
    requires |q| == 13 && LiteralAtCI(q, 0, Introduction) && AllDots(n)
    ensures Reflection(q + n + ".").Some?
  {
    var t := q + n + ".";
    IntroductionSpelling(q);
    LiteralAtCIConcat([], q, n + ".", 0, Subject);
    assert [] + q + (n + ".") == t;
    assert q == q[..3] + q[3..];
    AllDotsConcat(q[..3], q[3..]);
    assert t[3..|t| - 1] == q[3..] + n;
    AllDotsConcat(q[3..], n);
  }

  /** The introduction rule is not anchored: text before the introduction is
      allowed, and the greeting uses the part after the last introduction. */
  lemma GreetingAnywhere(p: string, q: string, n: string, name: Option<string>, d: Draws)
    requires |q| == 13 && LiteralAtCI(q, 0, Introduction)
    requires AllDots(p) && AllDots(n) && NoIntroduction(n)
    ensures ReplyTo(p + q + n + ".", name, d) == "Bonjour " + n + "."
  {
    IntroductionAfterLast(p, q, n);
  }

  /** "Quel est mon nom ?", in any case, is answered from the user's name. */
  lemma NameQuestionAnswered(t: string, name: Option<string>, d: Draws)
    requires IsNameQuestion(t)
    ensures ReplyTo(t, name, d) == NameAnswer(name)
  {
  }

  /** Text ending with a full stop fits none of the rules that end with `?`. */
  lemma FullStopIsNoQuestion(t: string)
    requires |t| > 0 && t[|t| - 1] == '.'
    ensures !IsNameQuestion(t) && Superlative(t).None? && !IsQuestion(t)
  {
  }

  /** "Qui est le plus X ?", in any case, echoes X. */
  lemma SuperlativeEchoed(h: string, x: string, name: Option<string>, d: Draws)
    requires |h| == 16 && LiteralAtCI(h, 0, SuperlativeHead) && AllDots(x)
    ensures ReplyTo(h + x + " ?", name, d) == "Le plus " + x + " est bien sûr votre enseignant de MIF01!"
  {
    var t := h + x + " ?";
    SuperlativeJoin(h, x);
    LiteralAtCIChars(h, 0, SuperlativeHead);
    LiteralAtCIChars(t, 0, NameQuestion);
    assert Lower(t[2]) == Lower(h[2]) == 'i';
  }

  /** Text of the reflection rule gets one of the three openers, the text in
      the second person, and " ?". */
  lemma ReflectionReplies(t: string, name: Option<string>, d: Draws)
    requires NameIntroduction(t).None? && Reflection(t).Some?
    ensures ReplyTo(t, name, d) in
      set o | o in ReflectionOpeners :: o + FirstToSecondPerson(Reflection(t).value) + " ?"
  {
    FullStopIsNoQuestion(t);
    var o := Pick(ReflectionOpeners, d.pick);
    assert ReplyTo(t, name, d) == o + FirstToSecondPerson(Reflection(t).value) + " ?";
  }

  /** A question that no earlier rule takes gets one of exactly two replies. */
  lemma QuestionReplied(t: string, name: Option<string>, d: Draws)
    requires IsQuestion(t) && !IsNameQuestion(t) && Superlative(t).None?
    ensures ReplyTo(t, name, d) in QuestionReplies
  {
  }

  /** Text no rule takes gets, in this order of the coin flips, a remark on the
      weather, an admission of confusion, a hum, or the default reply. */
  lemma FallbackReplies(t: string, name: Option<string>, d: Draws)
    requires NameIntroduction(t).None? && !IsNameQuestion(t) && Superlative(t).None?
    requires Reflection(t).None? && !IsQuestion(t)
    ensures ReplyTo(t, name, d) ==
      if d.first then Weather else if d.second then Puzzled else if d.third then Hum else DefaultReply(name)
  {
  }

  /** The reply never depends on more of the transcript than the user's name. */
  lemma TranscriptOnlyThroughName(a: seq<Message>, b: seq<Message>, m: string, d: Draws)
    requires UserName(a) == UserName(b)
    ensures GenerateElizaResponse(a, m, d) == GenerateElizaResponse(b, m, d)
  {
  }
}
