/**
  Worked inputs of `firstToSecondPerson`. Each small lemma evaluates one stage
  on one concrete text; the example lemmas chain the stages.
 */
module PersonExamples {
  import opened Text
  import opened PersonConverter

  const SuisIn := "Je suis content"
  const SuisOut := "vous êtes content"
  const MangeIn := "Je mange beaucoup"
  const MangeOut := "vous mangez beaucoup"
  const FinisIn := "je finis "
  const FinisOut := "vous finissez "
  const DisIn := "je dis "
  const DisOut := "vous dites "
  const MangeEnd := "Je mange"

  /** A rewrite that does not match at the start of a text inert after its
      first character leaves the text unchanged. */
  lemma NoMatchAtStart(rw: Rewrite, s: string)
    requires ConverterRewrite(rw) && |s| > 0 && MatchAt(rw, s, 0).None? && InertFrom(s, 1)
    ensures Apply(rw, s) == s
  {
    InertUnchanged(rw, s, 1);
    assert s == [s[0]] + s[1..];
  }

  /** A rewrite matching at the start of a text inert after the match
      replaces the match and keeps the rest. */
  lemma MatchAtStart(rw: Rewrite, s: string, m: Match)
    requires ConverterRewrite(rw) && MatchAt(rw, s, 0) == Some(m) && InertFrom(s, m.length)
    ensures Apply(rw, s) == m.output + s[m.length..]
  {
    InertUnchanged(rw, s, m.length);
  }

  // "Je suis content": only the irregular table fires.

  lemma SuisTail()
    ensures InertFrom(SuisIn, 1)
  {
    assert InertFrom(SuisIn, 13);
    assert InertFrom(SuisIn, 11);
    assert InertFrom(SuisIn, 9);
    assert InertFrom(SuisIn, 7);
    assert InertFrom(SuisIn, 5);
    assert InertFrom(SuisIn, 3);
  }

  lemma SuisResultInert()
    ensures Inert(SuisOut)
  {
    assert InertFrom(SuisOut, 15);
    assert InertFrom(SuisOut, 13);
    assert InertFrom(SuisOut, 11);
    assert InertFrom(SuisOut, 9);
    assert InertFrom(SuisOut, 7);
    assert InertFrom(SuisOut, 5);
    assert InertFrom(SuisOut, 3);
    assert InertFrom(SuisOut, 1);
  }

  lemma SuisNoE()
    ensures MatchAt(Conjugation('e', "ez"), SuisIn, 0).None?
  {
    assert LowerRun(SuisIn, 7) == 0;
    assert LowerRun(SuisIn, 3) == 4;
    assert SuisIn[6] == 's';
  }

  lemma SuisStageE()
    ensures Apply(Conjugation('e', "ez"), SuisIn) == SuisIn
  {
    SuisTail();
    SuisNoE();
    NoMatchAtStart(Conjugation('e', "ez"), SuisIn);
  }

  lemma SuisMatch()
    ensures MatchAt(Irregular(Verbs[0]), SuisIn, 0) == Some(Match(7, "vous êtes"))
    ensures "vous êtes" + SuisIn[7..] == SuisOut
  {
    assert Verbs[0] == Verb("suis", "êtes");
    assert "vous " + "êtes" == "vous êtes";
    assert SubjectAt(SuisIn, 0);
    assert LiteralAt(SuisIn, 3, "suis") by {
      LiteralAtSlice(SuisIn, 3, "suis");
    }
  }

  lemma SuisStageVerb()
    ensures Apply(Irregular(Verbs[0]), SuisIn) == SuisOut
  {
    SuisTail();
    SuisMatch();
    MatchAtStart(Irregular(Verbs[0]), SuisIn, Match(7, "vous êtes"));
  }

  lemma ExampleSuis()
    ensures FirstToSecondPerson(SuisIn) == SuisOut
  {
    SuisStageE();
    SuisStageVerb();
    SuisResultInert();
    InertFromVerb(1, SuisOut);
  }

  // "Je mange beaucoup": the generic `-e` rewrite fires.

  lemma MangeTail()
    ensures InertFrom(MangeIn, 9)
  {
    assert InertFrom(MangeIn, 15);
    assert InertFrom(MangeIn, 13);
    assert InertFrom(MangeIn, 11);
  }

  lemma MangeResultInert()
    ensures Inert(MangeOut)
  {
    assert InertFrom(MangeOut, 18);
    assert InertFrom(MangeOut, 16);
    assert InertFrom(MangeOut, 14);
    assert InertFrom(MangeOut, 12);
    assert InertFrom(MangeOut, 10);
    assert InertFrom(MangeOut, 8);
    assert InertFrom(MangeOut, 6);
    assert InertFrom(MangeOut, 4);
    assert InertFrom(MangeOut, 2);
  }

  lemma MangeRun()
    ensures LowerRun(MangeIn, 3) == 5
  {
    assert LowerRun(MangeIn, 8) == 0;
  }

  lemma MangeMatch()
    ensures MatchAt(Conjugation('e', "ez"), MangeIn, 0) == Some(Match(9, "vous mangez "))
  {
    MangeRun();
    assert SubjectAt(MangeIn, 0);
    assert MangeIn[7] == 'e' && MangeIn[8] == ' ';
    assert MangeIn[3..7] == "mang";
    assert "vous " + "mang" + "ez" + " " == "vous mangez ";
  }

  lemma MangeJoin()
    ensures "vous mangez " + MangeIn[9..] == MangeOut
  {
    assert MangeIn[9..] == "beaucoup";
  }

  lemma MangeStageE()
    ensures Apply(Conjugation('e', "ez"), MangeIn) == MangeOut
  {
    MangeTail();
    MangeMatch();
    MatchAtStart(Conjugation('e', "ez"), MangeIn, Match(9, "vous mangez "));
    MangeJoin();
  }

  lemma ExampleMange()
    ensures FirstToSecondPerson(MangeIn) == MangeOut
  {
    MangeStageE();
    MangeResultInert();
    InertFromVerb(0, MangeOut);
  }

  // "je finis ": no irregular entry applies, the generic `-s` rewrite fires.

  lemma FinisFacts()
    ensures InertFrom(FinisIn, 1)
    ensures NoVerbBetween(FinisIn, 0, |Verbs|)
    ensures Inert(FinisOut)
  {
    assert InertFrom(FinisOut, 12);
    assert InertFrom(FinisOut, 10);
    assert InertFrom(FinisOut, 8);
    assert InertFrom(FinisOut, 6);
    assert InertFrom(FinisOut, 4);
    assert InertFrom(FinisOut, 2);
    assert InertFrom(FinisIn, 7);
    assert InertFrom(FinisIn, 5);
    assert InertFrom(FinisIn, 3);
  }

  lemma FinisRun()
    ensures LowerRun(FinisIn, 3) == 5 && FinisIn[7] == 's' && FinisIn[8] == ' '
  {
    assert LowerRun(FinisIn, 8) == 0;
  }

  lemma FinisStageE()
    ensures Apply(Conjugation('e', "ez"), FinisIn) == FinisIn
  {
    FinisFacts();
    FinisRun();
    assert MatchAt(Conjugation('e', "ez"), FinisIn, 0).None?;
    NoMatchAtStart(Conjugation('e', "ez"), FinisIn);
  }

  lemma FinisStageVerbs()
    ensures ApplyVerbs(0, FinisIn) == FinisIn
  {
    FinisFacts();
    VerbsSkip(0, |Verbs|, FinisIn);
  }

  lemma FinisMatch()
    ensures MatchAt(Conjugation('s', "ssez"), FinisIn, 0) == Some(Match(9, "vous finissez "))
  {
    FinisRun();
    assert SubjectAt(FinisIn, 0);
    assert FinisIn[3..7] == "fini";
    assert "vous " + "fini" + "ssez" + " " == "vous finissez ";
  }

  lemma FinisStageS()
    ensures Apply(Conjugation('s', "ssez"), FinisIn) == FinisOut
  {
    FinisMatch();
    MatchAtStart(Conjugation('s', "ssez"), FinisIn, Match(9, "vous finissez "));
    assert FinisIn[9..] == [];
  }

  lemma ExampleFinis()
    ensures FirstToSecondPerson(FinisIn) == FinisOut
  {
    FinisStageE();
    FinisStageVerbs();
    FinisStageS();
    FinisFacts();
    InertIff(FinisOut);
    PossessivesUnchanged(FinisOut);
  }

  // "je dis ": the irregular entry wins over the `-s` rewrite that would give "vous dissez ".

  lemma DisResultInert()
    ensures Inert(DisOut)
  {
    assert InertFrom(DisOut, 9);
    assert InertFrom(DisOut, 7);
    assert InertFrom(DisOut, 5);
    assert InertFrom(DisOut, 3);
    assert InertFrom(DisOut, 1);
  }

  lemma DisFacts()
    ensures InertFrom(DisIn, 1)
    ensures NoVerbBetween(DisIn, 0, 2)
    ensures Inert(DisOut)
  {
    assert InertFrom(DisIn, 5);
    assert InertFrom(DisIn, 3);
    DisResultInert();
  }

  lemma DisStageE()
    ensures Apply(Conjugation('e', "ez"), DisIn) == DisIn
  {
    DisFacts();
    assert LowerRun(DisIn, 6) == 0;
    assert LowerRun(DisIn, 3) == 3;
    assert MatchAt(Conjugation('e', "ez"), DisIn, 0).None?;
    NoMatchAtStart(Conjugation('e', "ez"), DisIn);
  }

  lemma DisMatch()
    ensures MatchAt(Irregular(Verbs[2]), DisIn, 0) == Some(Match(6, "vous dites"))
    ensures "vous dites" + DisIn[6..] == DisOut
  {
    assert Verbs[2] == Verb("dis", "dites");
    assert "vous " + "dites" == "vous dites";
    assert SubjectAt(DisIn, 0);
    assert LiteralAt(DisIn, 3, "dis") by {
      LiteralAtSlice(DisIn, 3, "dis");
    }
  }

  lemma DisStageVerb()
    ensures Apply(Irregular(Verbs[2]), DisIn) == DisOut
  {
    DisFacts();
    DisMatch();
    MatchAtStart(Irregular(Verbs[2]), DisIn, Match(6, "vous dites"));
  }

  lemma ExampleDis()
    ensures FirstToSecondPerson(DisIn) == DisOut
  {
    DisStageE();
    DisFacts();
    VerbsSkip(0, 2, DisIn);
    DisStageVerb();
    InertFromVerb(3, DisOut);
  }

  // "Je mange": without a trailing space neither generic rewrite fires.

  lemma MangeEndTail()
    ensures InertFrom(MangeEnd, 1)
  {
    assert InertFrom(MangeEnd, 6);
    assert InertFrom(MangeEnd, 4);
    assert InertFrom(MangeEnd, 2);
  }

  lemma MangeEndNoPossessive()
    ensures !Contains(MangeEnd, "mon ") && !Contains(MangeEnd, "ma ")
    ensures !Contains(MangeEnd, "mes ") && !Contains(MangeEnd, "moi")
  {
    assert 'o' !in MangeEnd && 's' !in MangeEnd;
    AbsentCharNotContained(MangeEnd, "mon ", 'o');
    AbsentCharNotContained(MangeEnd, "mes ", 's');
    AbsentCharNotContained(MangeEnd, "moi", 'o');
    assert forall i :: 0 <= i < |MangeEnd| && i != 3 ==> MangeEnd[i] != 'm';
    forall i: nat ensures !LiteralAt(MangeEnd, i, "ma ") {
      LiteralAtSlice(MangeEnd, i, "ma ");
      if i + 3 <= |MangeEnd| {
        if i == 3 {
          assert MangeEnd[i..i + 3][2] != "ma "[2];
        } else {
          assert MangeEnd[i..i + 3][0] != "ma "[0];
        }
      }
    }
    ContainsIff(MangeEnd, "ma ");
  }

  lemma MangeEndNoVerb()
    ensures NoVerbBetween(MangeEnd, 0, |Verbs|)
  {
    forall k | 0 <= k < |Verbs| ensures !LiteralAt(MangeEnd, 3, Verbs[k].firstSingular) {
      var v := Verbs[k].firstSingular;
      assert v[0] != 'm';
      LiteralAtSlice(MangeEnd, 3, v);
      if 3 + |v| <= |MangeEnd| {
        assert MangeEnd[3..3 + |v|][0] != v[0];
      }
    }
    assert NoVerbBetween(MangeEnd, 8, 8);
    assert NoVerbBetween(MangeEnd, 6, 8);
    assert NoVerbBetween(MangeEnd, 4, 8);
    assert NoVerbBetween(MangeEnd, 2, 8);
  }

  lemma MangeEndFacts()
    ensures InertFrom(MangeEnd, 1)
    ensures NoVerbBetween(MangeEnd, 0, |Verbs|)
    ensures !Contains(MangeEnd, "mon ") && !Contains(MangeEnd, "ma ")
    ensures !Contains(MangeEnd, "mes ") && !Contains(MangeEnd, "moi")
  {
    MangeEndTail();
    MangeEndNoVerb();
    MangeEndNoPossessive();
  }

  lemma MangeEndRun()
    ensures LowerRun(MangeEnd, 3) == 5 && |MangeEnd| == 8
  {
    assert LowerRun(MangeEnd, 8) == 0;
  }

  lemma MangeEndStageE()
    ensures Apply(Conjugation('e', "ez"), MangeEnd) == MangeEnd
  {
    MangeEndFacts();
    MangeEndRun();
    assert MatchAt(Conjugation('e', "ez"), MangeEnd, 0).None?;
    NoMatchAtStart(Conjugation('e', "ez"), MangeEnd);
  }

  lemma MangeEndStageVerbs()
    ensures ApplyVerbs(0, MangeEnd) == MangeEnd
  {
    MangeEndFacts();
    VerbsSkip(0, |Verbs|, MangeEnd);
  }

  lemma MangeEndStageS()
    ensures Apply(Conjugation('s', "ssez"), MangeEnd) == MangeEnd
  {
    MangeEndFacts();
    MangeEndRun();
    assert MatchAt(Conjugation('s', "ssez"), MangeEnd, 0).None?;
    NoMatchAtStart(Conjugation('s', "ssez"), MangeEnd);
  }

  lemma ExampleMangeAtEnd()
    ensures FirstToSecondPerson(MangeEnd) == MangeEnd
  {
    MangeEndStageE();
    MangeEndStageVerbs();
    MangeEndStageS();
    MangeEndFacts();
    PossessivesUnchanged(MangeEnd);
  }
}
