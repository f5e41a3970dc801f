/**
  The reply and search strategies beside the engine: the default reply as a
  strategy of its own, the farewell reply and the plain substring search,
  each with the cases its unit tests pin down.
 */
module Strategies {
  import opened Text
  import opened Normalizer
  import opened Patterns
  import opened Transcript
  import opened NameFinder
  import opened Eliza

  // ---------------------------------------------------------------------------
  // DefaultResponseStrategy

  /** `DefaultResponseStrategy.generateResponse`: the default reply for the
      user's name in the transcript; the user's message plays no part. */
  function DefaultResponse(messages: seq<Message>, userMessage: string): (r: string)
    ensures |r| >= |DefaultHead| + 2 && r[..|DefaultHead|] == DefaultHead && r[|r| - 2..] == " ?"
    ensures UserName(messages).None? <==> |r| == |DefaultHead| + 2
    ensures UserName(messages).None? <==> r[|DefaultHead|] == ' '
    ensures UserName(messages).Some? ==>
      && |r| == |DefaultHead| + 4 + |UserName(messages).value|
      && r[|DefaultHead|..|DefaultHead| + 2] == ", "
      && r[|DefaultHead| + 2..|r| - 2] == UserName(messages).value
  {
    DefaultReply(UserName(messages))
  }

  /** The strategy is the engine's last branch: when no rule takes the text
      and every coin flip comes out false, the engine gives the same reply. */
  lemma DefaultResponseIsEngineDefault(messages: seq<Message>, userMessage: string, pick: nat)
    requires var t := Normalize(userMessage);
      && NameIntroduction(t).None? && !IsNameQuestion(t) && Superlative(t).None?
      && Reflection(t).None? && !IsQuestion(t)
    ensures GenerateElizaResponse(messages, userMessage, Draws(pick, false, false, false))
      == DefaultResponse(messages, userMessage)
  {
    FallbackReplies(Normalize(userMessage), UserName(messages), Draws(pick, false, false, false));
  }

  /** Two transcripts get the same default reply exactly when they name the
      user alike, whatever each user message says. */
  lemma DefaultResponseOnlyNameMatters(a: seq<Message>, b: seq<Message>, u: string, v: string)
    ensures DefaultResponse(a, u) == DefaultResponse(b, v) <==> UserName(a) == UserName(b)
  {
    if DefaultResponse(a, u) == DefaultResponse(b, v) {
      DefaultReplyInjective(UserName(a), UserName(b));
    }
  }

  // ---------------------------------------------------------------------------
  // The farewell strategy

  const ByeHead := "Oh non, c'est trop triste de se quitter"

  /** The farewell reply: the user's name, when known, goes between
      `quitter ` and ` !`. */
  function ByeResponse(messages: seq<Message>, userMessage: string): (r: string)
    ensures |r| >= |ByeHead| + 2 && r[..|ByeHead|] == ByeHead && r[|r| - 2..] == " !"
    ensures UserName(messages).None? <==> |r| == |ByeHead| + 2
    ensures UserName(messages).Some? ==>
      r[|ByeHead|] == ' ' && r[|ByeHead| + 1..|r| - 2] == UserName(messages).value
  {
    match UserName(messages)
    case Some(n) =>
      var r := ByeHead + " " + n + " !";
      assert r[|ByeHead| + 1..|r| - 2] == n;
      r
    case None => ByeHead + " !"
  }

  /** Two transcripts get the same farewell exactly when they name the user alike. */
  lemma ByeResponseOnlyNameMatters(a: seq<Message>, b: seq<Message>, u: string, v: string)
    ensures ByeResponse(a, u) == ByeResponse(b, v) <==> UserName(a) == UserName(b)
  {
  }

  /** Messages from Eliza never change the farewell. */
  lemma ByeIgnoresEliza(messages: seq<Message>, id: int, text: string, userMessage: string)
    ensures ByeResponse(messages + [Message(id, text, Eliza)], userMessage) == ByeResponse(messages, userMessage)
  {
    ElizaMessageIgnored(messages, id, text);
  }

  // The fixture of the farewell tests: one user message without a name, two
  // messages from Eliza.
  const ByeText0 := "a test text !"
  const ByeText1 := "a new test text !"
  const ByeText2 := "another one !"
  const ByeFixture := [Message(0, ByeText0, User), Message(1, ByeText1, Eliza), Message(2, ByeText2, Eliza)]
  const Abdennour := "Je m'appelle abdennour."

  /** No message of the fixture gives a name. */
  lemma ByeFixtureNameless()
    ensures UserName(ByeFixture) == None
  {
    var m0 := Message(0, ByeText0, User);
    assert !LiteralAtCI(ByeText0, 0, Introduction) by {
      assert Lower(ByeText0[0]) != Lower(Introduction[0]);
      LiteralAtCIChars(ByeText0, 0, Introduction);
    }
    assert DeclaredName(ByeText0) == None;
    ScanAppend([], m0, None);
    assert [] + [m0] == [m0];
    ElizaMessageIgnored([m0], 1, ByeText1);
    ElizaMessageIgnored([m0] + [Message(1, ByeText1, Eliza)], 2, ByeText2);
    assert [m0] + [Message(1, ByeText1, Eliza)] + [Message(2, ByeText2, Eliza)] == ByeFixture;
  }

  /** The farewell when nobody gave a name. */
  lemma ByeWithoutName()
    ensures ByeResponse(ByeFixture, "Au revoir.") == "Oh non, c'est trop triste de se quitter !"
  {
    ByeFixtureNameless();
  }

  /** `Je m'appelle abdennour.` declares the name `abdennour`. */
  lemma AbdennourDeclared()
    ensures DeclaredName(Abdennour) == Some("abdennour")
  {
    var q := "Je m'appelle ";
    assert LiteralAtCI(q, 0, Introduction) by {
      assert AgreesFromCI(q, 0, Introduction, 9);
      assert AgreesFromCI(q, 0, Introduction, 5);
      assert AgreesFromCI(q, 0, Introduction, 0);
    }
    assert AllDots("abdennour");
    assert Abdennour == q + "abdennour" + ".";
    DeclaredNameIff(Abdennour, "abdennour");
  }

  /** The farewell once the user has said `Je m'appelle abdennour.`. */
  lemma ByeWithName()
    ensures ByeResponse(ByeFixture + [Message(3, Abdennour, User)], "Au revoir.")
      == "Oh non, c'est trop triste de se quitter abdennour !"
  {
    AbdennourDeclared();
    NewDeclarationWins(ByeFixture, 3, Abdennour);
    ByeWithNameText();
  }

  lemma ByeWithNameText()
    ensures ByeHead + " " + "abdennour" + " !" == "Oh non, c'est trop triste de se quitter abdennour !"
  {
  }

  // ---------------------------------------------------------------------------
  // The substring search strategy

  /** The messages whose text contains the query, in order: the query is a
      plain string, not a pattern, and compared up to ASCII case. */
  function SubStringSearch(messages: seq<Message>, query: string): (r: seq<Message>)
    ensures IsSubsequence(r, messages)
    ensures forall m :: m in r <==> m in messages && ContainsCI(m.text, query)
  {
    Matching(messages, t => ContainsCI(t, query))
  }

  /** A query holding a character that is no letter and that the text lacks
      is not contained in it, in any case. */
  lemma AbsentMarkNotContained(s: string, query: string, c: char)
    requires c in query && c !in s && !('A' <= c <= 'Z') && !('a' <= c <= 'z')
    ensures !ContainsCI(s, query)
  {
    var k :| 0 <= k < |query| && query[k] == c;
    forall i: nat ensures !LiteralAtCI(s, i, query) {
      LiteralAtCIChars(s, i, query);
      if i + |query| <= |s| {
        assert s[i + k] in s;
        assert Lower(s[i + k]) != Lower(query[k]);
      }
    }
  }

  /** The search keeps, in order, the messages the test accepts. */
  lemma MatchingThree(a: Message, b: Message, c: Message, found: string -> bool)
    ensures Matching([a, b, c], found) ==
      (if found(a.text) then [a] else []) + (if found(b.text) then [b] else [])
        + (if found(c.text) then [c] else [])
  {
    assert [a, b, c][1..] == [b, c];
    assert [b, c][1..] == [c];
    assert [c][1..] == [];
    assert Matching([c], found) == if found(c.text) then [c] else [];
    assert Matching([b, c], found) == (if found(b.text) then [b] else []) + Matching([c], found);
  }

  // The fixture of the search tests.
  const Hello := "Hello, how are you?"
  const Well := "I'm doing well, thank you!"
  const Joke := "Can you tell me a joke?"
  const SearchFixture := [Message(0, Hello, User), Message(1, Well, Eliza), Message(2, Joke, User)]

  /** `Hello, how are you?` has a `w`, but not followed by an `e`. */
  lemma HelloHasNoWe()
    ensures !ContainsCI(Hello, "we")
  {
    assert forall k :: 0 <= k < |Hello| && k != 9 ==> Hello[k] != 'w' && Hello[k] != 'W';
    assert Hello[10] == ' ';
    forall i: nat ensures !LiteralAtCI(Hello, i, "we") {
      LiteralAtCIChars(Hello, i, "we");
      if i + 2 <= |Hello| {
        if i == 9 {
          assert Lower(Hello[i + 1]) != Lower("we"[1]);
        } else {
          assert Lower(Hello[i]) != Lower("we"[0]);
        }
      }
    }
  }

  lemma WellHasWe()
    ensures ContainsCI(Well, "we")
  {
    assert Well[10] == 'w' && Well[11] == 'e';
    assert AgreesFromCI(Well, 10, "we", 1);
    assert LiteralAtCI(Well, 10, "we");
  }

  lemma JokeHasNoWe()
    ensures !ContainsCI(Joke, "we")
  {
    assert ('w' as int - 32) as char == 'W';
    assert 'w' !in Joke && 'W' !in Joke;
    NoFoldedChar(Joke, "we", 'w');
  }

  lemma WeFacts()
    ensures !ContainsCI(Hello, "we") && ContainsCI(Well, "we") && !ContainsCI(Joke, "we")
  {
    HelloHasNoWe();
    WellHasWe();
    JokeHasNoWe();
  }

  /** Searching the fixture for `we` finds only Eliza's `I'm doing well, thank you!`. */
  lemma SearchWe()
    ensures SubStringSearch(SearchFixture, "we") == [Message(1, Well, Eliza)]
  {
    WeFacts();
    MatchingThree(Message(0, Hello, User), Message(1, Well, Eliza), Message(2, Joke, User), t => ContainsCI(t, "we"));
  }

  lemma StarFacts()
    ensures !ContainsCI(Hello, "ho.*") && !ContainsCI(Well, "ho.*") && !ContainsCI(Joke, "ho.*")
  {
    assert "ho.*"[3] == '*';
    assert '*' !in Hello;
    AbsentMarkNotContained(Hello, "ho.*", '*');
    assert '*' !in Well;
    AbsentMarkNotContained(Well, "ho.*", '*');
    assert '*' !in Joke;
    AbsentMarkNotContained(Joke, "ho.*", '*');
  }

  /** `ho.*` is taken literally: no message holds a `*`, so nothing is found. */
  lemma SearchStarIsLiteral()
    ensures SubStringSearch(SearchFixture, "ho.*") == []
  {
    StarFacts();
    MatchingThree(Message(0, Hello, User), Message(1, Well, Eliza), Message(2, Joke, User), t => ContainsCI(t, "ho.*"));
  }

  /** `I'm doing well, thank you!` has an `h`, but not followed by an `o`. */
  lemma WellHasNoHo()
    ensures !ContainsCI(Well, "ho")
  {
    assert forall k :: 0 <= k < |Well| && k != 17 ==> Well[k] != 'h' && Well[k] != 'H';
    assert Well[18] == 'a';
    forall i: nat ensures !LiteralAtCI(Well, i, "ho") {
      LiteralAtCIChars(Well, i, "ho");
      if i + 2 <= |Well| {
        if i == 17 {
          assert Lower(Well[i + 1]) != Lower("ho"[1]);
        } else {
          assert Lower(Well[i]) != Lower("ho"[0]);
        }
      }
    }
  }

  lemma HelloHasHo()
    ensures ContainsCI(Hello, "ho")
  {
    assert Hello[7] == 'h' && Hello[8] == 'o';
    assert AgreesFromCI(Hello, 7, "ho", 1);
    assert LiteralAtCI(Hello, 7, "ho");
  }

  lemma JokeHasNoHo()
    ensures !ContainsCI(Joke, "ho")
  {
    assert ('h' as int - 32) as char == 'H';
    assert 'h' !in Joke && 'H' !in Joke;
    NoFoldedChar(Joke, "ho", 'h');
  }

  lemma HoFacts()
    ensures ContainsCI(Hello, "ho") && !ContainsCI(Well, "ho") && !ContainsCI(Joke, "ho")
  {
    HelloHasHo();
    WellHasNoHo();
    JokeHasNoHo();
  }

  /** By contrast, `search` in `MessageProcessor` compiles the query as a
      case-insensitive pattern, where `.*` may match nothing: there `ho.*` is
      found wherever `ho` is, in any case, and the fixture's first message has it. */
  lemma PatternSearchFindsHo()
    ensures Matching(SearchFixture, t => ContainsCI(t, "ho")) == [Message(0, Hello, User)]
  {
    HoFacts();
    MatchingThree(Message(0, Hello, User), Message(1, Well, Eliza), Message(2, Joke, User), t => ContainsCI(t, "ho"));
  }

  /** A query holding a lower-case letter that the text lacks in both cases
      is not contained in it, in any case. */
  lemma NoFoldedChar(s: string, query: string, c: char)
    requires 'a' <= c <= 'z' && c in query && c !in s && (c as int - 32) as char !in s
    ensures !ContainsCI(s, query)
  {
    var k :| 0 <= k < |query| && query[k] == c;
    forall i: nat ensures !LiteralAtCI(s, i, query) {
      LiteralAtCIChars(s, i, query);
      if i + |query| <= |s| {
        assert s[i + k] in s;
        assert Lower(s[i + k]) != Lower(query[k]);
      }
    }
  }
}
