/**
  The conversation kept by `MessageProcessor`: an ordered list of messages,
  with `addMessage`, `deleteMessage` and `search`.
 */
module Transcript {
  import opened Text
  import opened Normalizer

  datatype Sender = User | Eliza

  /** A message. Its id is whatever the message was created with; where ids
      come from is not part of this model. */
  datatype Message = Message(id: int, text: string, sender: Sender)

  /** `s` is `t` with some elements left out and the rest in order. */
  predicate IsSubsequence<T(==)>(s: seq<T>, t: seq<T>)
    decreases |t|
  {
    if |s| == 0 then true
    else if |t| == 0 then false
    else (s[0] == t[0] && IsSubsequence(s[1..], t[1..])) || IsSubsequence(s, t[1..])
  }

  lemma {:induction false} SubsequenceMembers<T>(s: seq<T>, t: seq<T>)
    requires IsSubsequence(s, t)
    ensures |s| <= |t|
    ensures forall x :: x in s ==> x in t
    decreases |t|
  {
    if |s| > 0 {
      if s[0] == t[0] && IsSubsequence(s[1..], t[1..]) {
        SubsequenceMembers(s[1..], t[1..]);
        forall x | x in s ensures x in t {
          if x != s[0] {
            assert x in s[1..];
          }
        }
      } else {
        SubsequenceMembers(s, t[1..]);
      }
    }
  }

  /** Keeping or dropping the head of `t` keeps a subsequence. */
  lemma SubsequenceCons<T>(x: T, s: seq<T>, t: seq<T>)
    requires IsSubsequence(s, t)
    ensures IsSubsequence([x] + s, [x] + t)
    ensures IsSubsequence(s, [x] + t)
  {
    assert ([x] + s)[1..] == s;
    assert ([x] + t)[1..] == t;
  }

  /** A subsequence of the tail is a subsequence of the whole. */
  lemma SubsequenceAfterHead<T>(s: seq<T>, t: seq<T>)
    requires |t| > 0 && IsSubsequence(s, t[1..])
    ensures IsSubsequence(s, t)
  {
    SubsequenceCons(t[0], s, t[1..]);
    assert [t[0]] + t[1..] == t;
  }

  // ---------------------------------------------------------------------------
  // addMessage

  /** `addMessage`: normalizes the text, appends the message and returns it. */
  function AddMessage(log: seq<Message>, id: int, text: string, sender: Sender): (r: (seq<Message>, Message))
    ensures |r.0| == |log| + 1 && r.0[..|log|] == log && r.0[|log|] == r.1
    ensures r.1.text == Normalize(text) && r.1.id == id && r.1.sender == sender
  {
    var m := Message(id, Normalize(text), sender);
    (log + [m], m)
  }

  /** Every stored text is in normal form. */
  predicate Canonical(log: seq<Message>) {
    forall i :: 0 <= i < |log| ==> IsNormal(log[i].text)
  }

  /** Adding text without U+0085, U+2028 and U+2029 keeps every stored text normal. */
  lemma AddKeepsCanonical(log: seq<Message>, id: int, text: string, sender: Sender)
    requires Canonical(log) && ValidText(text)
    ensures Canonical(AddMessage(log, id, text, sender).0)
  {
    NormalizeIsNormal(text);
  }

  // ---------------------------------------------------------------------------
  // deleteMessage

  /** `deleteMessage`: `removeIf` on the id. */
  function DeleteMessage(log: seq<Message>, id: int): (r: seq<Message>)
    ensures IsSubsequence(r, log)
    ensures forall m :: m in r <==> m in log && m.id != id
  {
    if |log| == 0 then []
    else
      var rest := DeleteMessage(log[1..], id);
      SubsequenceAfterHead(rest, log);
      if log[0].id == id then rest
      else
        SubsequenceCons(log[0], rest, log[1..]);
        assert [log[0]] + log[1..] == log;
        [log[0]] + rest
  }

  /** Every copy of a message with the id goes, every copy of any other stays. */
  lemma {:induction false} DeleteCounts(log: seq<Message>, id: int, m: Message)
    ensures multiset(DeleteMessage(log, id))[m] == if m.id == id then 0 else multiset(log)[m]
  {
    if |log| > 0 {
      DeleteCounts(log[1..], id, m);
      assert log == [log[0]] + log[1..];
      assert multiset(log) == multiset([log[0]]) + multiset(log[1..]);
    }
  }

  /** No message has the id: nothing to delete. */
  lemma {:induction false} DeleteAbsent(log: seq<Message>, id: int)
    requires forall m :: m in log ==> m.id != id
    ensures DeleteMessage(log, id) == log
  {
    if |log| > 0 {
      DeleteAbsent(log[1..], id);
      assert [log[0]] + log[1..] == log;
    }
  }

  /** Deleting twice is deleting once. */
  lemma DeleteIdempotent(log: seq<Message>, id: int)
    ensures DeleteMessage(DeleteMessage(log, id), id) == DeleteMessage(log, id)
  {
    DeleteAbsent(DeleteMessage(log, id), id);
  }

  lemma {:induction false} DeleteAppend(log: seq<Message>, m: Message, id: int)
    ensures DeleteMessage(log + [m], id) == DeleteMessage(log, id) + (if m.id == id then [] else [m])
  {
    if |log| == 0 {
      assert (log + [m])[1..] == [];
    } else {
      assert (log + [m])[1..] == log[1..] + [m];
      DeleteAppend(log[1..], m, id);
    }
  }

  /** Deleting a message just added under a fresh id gives back the transcript. */
  lemma DeleteUndoesAdd(log: seq<Message>, id: int, text: string, sender: Sender)
    requires forall m :: m in log ==> m.id != id
    ensures DeleteMessage(AddMessage(log, id, text, sender).0, id) == log
  {
    DeleteAppend(log, Message(id, Normalize(text), sender), id);
    DeleteAbsent(log, id);
  }

  // ---------------------------------------------------------------------------
  // search

  /** The messages of `log` whose text the search pattern finds, in order. */
  function Matching(log: seq<Message>, found: string -> bool): (r: seq<Message>)
    ensures IsSubsequence(r, log)
    ensures forall m :: m in r <==> m in log && found(m.text)
  {
    if |log| == 0 then []
    else
      var rest := Matching(log[1..], found);
      SubsequenceAfterHead(rest, log);
      if found(log[0].text) then
        SubsequenceCons(log[0], rest, log[1..]);
        assert [log[0]] + log[1..] == log;
        [log[0]] + rest
      else rest
  }

  /** The search keeps every copy of a message it finds and no copy of one it
      does not: the result is the transcript's multiset filtered by `found`. */
  lemma {:induction false} MatchingCounts(log: seq<Message>, found: string -> bool, m: Message)
    ensures multiset(Matching(log, found))[m] == if found(m.text) then multiset(log)[m] else 0
  {
    if |log| > 0 {
      MatchingCounts(log[1..], found, m);
      assert log == [log[0]] + log[1..];
      assert multiset(log) == multiset([log[0]]) + multiset(log[1..]);
    }
  }

  /** `search`: one pass over the transcript keeping, in order, every message
      the pattern finds. `found` stands for `matcher.find()` of the query
      compiled with CASE_INSENSITIVE. */
  method Search(log: seq<Message>, found: string -> bool) returns (result: seq<Message>)
    ensures result == Matching(log, found)
    ensures IsSubsequence(result, log)
    ensures forall m :: m in result <==> m in log && found(m.text)
  {
    result := [];
    var i := 0;
    while i < |log|
      invariant 0 <= i <= |log|
      invariant result + Matching(log[i..], found) == Matching(log, found)
    {
      assert log[i..][1..] == log[i + 1..];
      if found(log[i].text) {
        result := result + [log[i]];
      }
      i := i + 1;
    }
    assert log[i..] == [];
  }
}
