/**
  Concrete conversations with `generateElizaResponse`, whatever the draws,
  and a text that `normalize` does not bring to normal form.
 */
module ElizaExamples {
  import opened Text
  import opened Normalizer
  import opened Patterns
  import opened Transcript
  import opened NameFinder
  import opened Eliza

  const Question := "a question???"
  const Greeting := "Salut, je m'appelle Alice."
  const BobIntroduction := "Je m'appelle Bob."
  const AskName := "Quel est mon nom ?"
  const BobLog := [Message(0, BobIntroduction, User)]

  lemma QuestionIsNormal()
    ensures IsNormal(Question)
  {
    assert forall k :: 0 <= k < |Question| ==> Question[k] != '\n' && Question[k] != '\r';
    assert Question[1] == ' ';
  }

  /** Text ending in `???` is a question: whatever the draws, the reply is one
      of the two answers to a question. */
  lemma QuestionAnswered(log: seq<Message>, d: Draws)
    ensures GenerateElizaResponse(log, Question, d) in QuestionReplies
  {
    QuestionIsNormal();
    NormalTextReplied(log, Question, d);
    assert IsQuestion(Question);
    QuestionReplied(Question, UserName(log), d);
  }

  lemma GreetingIsNormal()
    ensures IsNormal(Greeting)
  {
    assert forall k :: 0 <= k < |Greeting| ==> !IsLineTerminator(Greeting[k]);
    assert forall k :: 0 <= k < |Greeting| && IsSpace(Greeting[k]) ==> k == 6 || k == 9 || k == 19;
  }

  lemma GreetingSplits()
    ensures Greeting == "Salut, " + Introduction + "Alice" + "."
  {
  }

  lemma GreetingNotAnchored()
    ensures !LiteralAtCI(Greeting, 0, Introduction)
  {
    LiteralAtCIChars(Greeting, 0, Introduction);
    assert Lower(Greeting[0]) != Lower(Introduction[0]);
  }

  /** Text already in normal form goes to the cascade as it is. */
  lemma NormalTextReplied(log: seq<Message>, t: string, d: Draws)
    requires IsNormal(t)
    ensures GenerateElizaResponse(log, t, d) == ReplyTo(t, UserName(log), d)
  {
    NormalFixed(t);
  }

  lemma GreetingReply(name: Option<string>, d: Draws)
    ensures ReplyTo(Greeting, name, d) == "Bonjour Alice."
  {
    GreetingSplits();
    LiteralAtCISelf(Introduction);
    assert AllDots("Salut, ") && AllDots("Alice");
    GreetingAnywhere("Salut, ", Introduction, "Alice", name, d);
  }

  /** An introduction after other words is greeted ... */
  lemma GreetingInsideSentence(log: seq<Message>, d: Draws)
    ensures GenerateElizaResponse(log, Greeting, d) == "Bonjour Alice."
  {
    GreetingIsNormal();
    NormalTextReplied(log, Greeting, d);
    GreetingReply(UserName(log), d);
  }

  /** ... but only a message that is wholly an introduction gives the user a
      name: after it, the user is still nameless. */
  lemma GreetingGivesNoName()
    ensures UserName([Message(0, Greeting, User)]) == None
  {
    GreetingNotAnchored();
    assert DeclaredName(Greeting) == None;
    ScanAppend([], Message(0, Greeting, User), None);
    assert [] + [Message(0, Greeting, User)] == [Message(0, Greeting, User)];
  }

  lemma BobDeclared()
    ensures DeclaredName(BobIntroduction) == Some("Bob")
  {
    var q := "Je m'appelle ";
    assert LiteralAtCI(q, 0, Introduction) by {
      assert AgreesFromCI(q, 0, Introduction, 9);
      assert AgreesFromCI(q, 0, Introduction, 5);
      assert AgreesFromCI(q, 0, Introduction, 0);
    }
    assert AllDots("Bob");
    assert BobIntroduction == q + "Bob" + ".";
    DeclaredNameIff(BobIntroduction, "Bob");
  }

  lemma AskNameFacts()
    ensures IsNormal(AskName) && IsNameQuestion(AskName)
  {
    assert forall k :: 0 <= k < |AskName| ==> AskName[k] != '\n' && AskName[k] != '\r';
    assert AgreesFromCI(AskName, 0, NameQuestion, 12);
    assert AgreesFromCI(AskName, 0, NameQuestion, 6);
    assert AgreesFromCI(AskName, 0, NameQuestion, 0);
  }

  lemma BobRemembered()
    ensures UserName(BobLog) == Some("Bob")
  {
    BobDeclared();
    NewDeclarationWins([], 0, BobIntroduction);
    assert [] + [Message(0, BobIntroduction, User)] == BobLog;
  }

  lemma AskNameIsNoIntroduction()
    ensures NameIntroduction(AskName).None?
  {
    assert AskName[|AskName| - 1] == '?';
  }

  lemma AskNameReply(name: Option<string>, d: Draws)
    ensures ReplyTo(AskName, name, d) == NameAnswer(name)
  {
    AskNameFacts();
    NameQuestionAnswered(AskName, name, d);
  }

  lemma NameAsked(log: seq<Message>, n: string, d: Draws)
    requires UserName(log) == Some(n)
    ensures GenerateElizaResponse(log, AskName, d) == "Votre nom est " + n + "."
  {
    AskNameFacts();
    NormalTextReplied(log, AskName, d);
    AskNameReply(Some(n), d);
  }

  lemma BobAnswer()
    ensures "Votre nom est " + "Bob" + "." == "Votre nom est Bob."
  {
  }

  /** After `Je m'appelle Bob.`, the name question is answered with `Bob`. */
  lemma NameRemembered(d: Draws)
    ensures GenerateElizaResponse(BobLog, AskName, d) == "Votre nom est Bob."
  {
    BobRemembered();
    NameAsked(BobLog, "Bob", d);
    BobAnswer();
  }

  // ---------------------------------------------------------------------------
  // A final U+2028 (line separator): `$` holds both before and after it.

  const Separated := "a\U{2028}"

  lemma SeparatedStages()
    ensures Collapse(Separated) == Separated
    ensures TrimStart(Separated) == Separated
    ensures TrimEnd(Separated) == Separated
  {
    assert !IsSpace(Separated[0]) && !IsSpace(Separated[1]);
    assert CollapseFrom(Separated, 1) == Separated[1..];
    assert TrimEndFrom(Separated, 1) == Separated[1..];
  }

  /** `[^.!?:]$` matches twice: at `a`, since `$` holds before a final line
      terminator, and at the separator itself, so two full stops are added
      and the result ends in a line terminator: not in normal form. */
  lemma SeparatorGetsTwoStops()
    ensures Normalize(Separated) == "a.\U{2028}."
    ensures !IsNormal(Normalize(Separated))
  {
    SeparatedStages();
    assert EndAnchor(Separated, 1) && EndAnchor(Separated, 2);
    assert PunctuateFrom(Separated, 1) == "\U{2028}.";
    assert !AllDots("a.\U{2028}.") by {
      assert IsLineTerminator("a.\U{2028}."[2]);
    }
  }
}
