/**
  `getUserName`: the name a user gave with a message that is wholly
  `Je m'appelle <name>.` (any case), the latest such message winning.
 */
module NameFinder {
  import opened Text
  import opened Patterns
  import opened Transcript

  /** The name `m` declares, if it is a user message matching the anchored pattern. */
  function Declared(m: Message): Option<string> {
    if m.sender == User then DeclaredName(m.text) else None
  }

  /** The loop of `getUserName`: every matching user message overwrites the
      result, so it ends without a name exactly when it started without one
      and no message declared one. */
  function ScanNames(log: seq<Message>, acc: Option<string>): (r: Option<string>)
    ensures r.None? <==> acc.None? && forall i :: 0 <= i < |log| ==> Declared(log[i]).None?
    decreases |log|
  {
    if |log| == 0 then acc
    else
      assert forall i :: 0 < i < |log| ==> log[1..][i - 1] == log[i];
      ScanNames(log[1..], if Declared(log[0]).Some? then Declared(log[0]) else acc)
  }

  /** `getUserName`, with `None` for Java's `null`. */
  function UserName(log: seq<Message>): (r: Option<string>)
    ensures r.Some? ==> exists i :: 0 <= i < |log| && log[i].sender == User && DeclaredName(log[i].text) == r
  {
    LastDeclarationWins(log, None);
    ScanNames(log, None)
  }

  /** The loop ends holding the last declaration, or what it started with if there is none. */
  lemma {:induction false} LastDeclarationWins(log: seq<Message>, acc: Option<string>)
    ensures var r := ScanNames(log, acc);
      || (r == acc && forall i :: 0 <= i < |log| ==> Declared(log[i]).None?)
      || exists i :: 0 <= i < |log| && r == Declared(log[i]) && r.Some?
           && forall j :: i < j < |log| ==> Declared(log[j]).None?
    decreases |log|
  {
    if |log| > 0 {
      var acc' := if Declared(log[0]).Some? then Declared(log[0]) else acc;
      LastDeclarationWins(log[1..], acc');
      var r := ScanNames(log, acc);
      if exists i :: 0 <= i < |log[1..]| && r == Declared(log[1..][i]) && r.Some?
           && forall j :: i < j < |log[1..]| ==> Declared(log[1..][j]).None?
      {
        var i :| 0 <= i < |log[1..]| && r == Declared(log[1..][i]) && r.Some?
           && forall j :: i < j < |log[1..]| ==> Declared(log[1..][j]).None?;
        assert log[1..][i] == log[i + 1];
        forall j | i + 1 < j < |log| ensures Declared(log[j]).None? {
          assert log[1..][j - 1] == log[j];
        }
      } else if Declared(log[0]).Some? {
        forall j | 0 < j < |log| ensures Declared(log[j]).None? {
          assert log[1..][j - 1] == log[j];
        }
      } else {
        forall j | 0 <= j < |log| ensures Declared(log[j]).None? {
          if j > 0 {
            assert log[1..][j - 1] == log[j];
          }
        }
      }
    }
  }

  /** The name is the one declared by the last declaring user message, and
      there is none exactly when no user message declares one. */
  lemma UserNameIsLastDeclaration(log: seq<Message>)
    ensures UserName(log).None? <==> forall i :: 0 <= i < |log| ==> Declared(log[i]).None?
    ensures UserName(log).Some? ==>
      exists i :: 0 <= i < |log| && UserName(log) == Declared(log[i])
        && forall j :: i < j < |log| ==> Declared(log[j]).None?
  {
    LastDeclarationWins(log, None);
  }

  lemma {:induction false} ScanAppend(log: seq<Message>, m: Message, acc: Option<string>)
    ensures ScanNames(log + [m], acc) ==
      if Declared(m).Some? then Declared(m) else ScanNames(log, acc)
    decreases |log|
  {
    if |log| == 0 {
      assert (log + [m])[1..] == [];
    } else {
      assert (log + [m])[1..] == log[1..] + [m];
      var acc' := if Declared(log[0]).Some? then Declared(log[0]) else acc;
      ScanAppend(log[1..], m, acc');
    }
  }

  /** A message from Eliza never changes the user's name. */
  lemma ElizaMessageIgnored(log: seq<Message>, id: int, text: string)
    ensures UserName(log + [Message(id, text, Eliza)]) == UserName(log)
  {
    ScanAppend(log, Message(id, text, Eliza), None);
  }

  /** A user message declaring a name makes it the user's name, whatever came before. */
  lemma NewDeclarationWins(log: seq<Message>, id: int, text: string)
    requires DeclaredName(text).Some?
    ensures UserName(log + [Message(id, text, User)]) == DeclaredName(text)
  {
    ScanAppend(log, Message(id, text, User), None);
  }
}
