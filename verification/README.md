# Eliza-GPT core in Dafny

A model of the conversation engine of Eliza-GPT, a French-speaking Eliza
chatbot. `MessageProcessor` keeps the transcript, normalizes what the user
types, answers it through an ordered cascade of regular expressions, turns
first-person sentences into the second person, and finds the user's name in
the transcript. Beside it sit the default reply strategy, a farewell strategy
and a plain substring search, of which the model gives what their unit tests
fix.

Modules, one per part of the program:

- `Text` (`text.dfy`): Java's whitespace class `\s`, the line terminators
  `.` excludes, ASCII case folding (`CASE_INSENSITIVE` without
  `UNICODE_CASE`), literal occurrence tests, `indexOf` and `contains`.
- `Normalizer` (`normalize.dfy`): `normalize`, one function per
  `replaceAll`, with Java's `$` (no `MULTILINE`) written out: end of input,
  or just before a final line terminator (`\r\n` counting as one).
- `PersonConverter` (`person.dfy`), with `PersonExamples`: `firstToSecondPerson`
  and the `VERBS` table as a sequence of rewrites, each a left-to-right,
  non-overlapping scan like `replaceAll`/`replace`.
- `Patterns` (`patterns.dfy`): the fixed patterns of the cascade and of
  `getUserName`, each with a lemma giving exactly the texts it accepts.
- `Transcript` (`transcript.dfy`): messages, `addMessage`, `deleteMessage`,
  `search`.
- `NameFinder` (`names.dfy`): `getUserName`.
- `Eliza` (`engine.dfy`), with `ElizaExamples`: `generateElizaResponse`,
  `pickRandom`.
- `Strategies` (`strategies.dfy`): `DefaultResponseStrategy`, the farewell
  and substring-search strategies and their test cases.

Randomness enters as a `Draws` value: the index `pickRandom` draws (taken
modulo the number of options) and the three `nextBoolean` results, so a
reply is a function of the transcript, the text and the draws. Java's
`null` is `None`. The pattern given to `search` is a parameter `found`
standing for `matcher.find()` on each message text.

## Model

| member | source | states |
|---|---|---|
| Normalizer.Normalize | eliza-gpt/src/main/java/fr/univ_lyon1/info/m1/elizagpt/model/MessageProcessor.java:20-25 | the result is empty exactly when every input character is Java whitespace; otherwise it starts with a non-whitespace character and ends with `.`, `!`, `?` or `:` |
| Normalizer.CollapseFrom | eliza-gpt/src/main/java/fr/univ_lyon1/info/m1/elizagpt/model/MessageProcessor.java:21 | `\s+` → `" "` read from a position: the output is empty exactly when nothing is left to read |
| Normalizer.CollapseFromTidy | eliza-gpt/src/main/java/fr/univ_lyon1/info/m1/elizagpt/model/MessageProcessor.java:21 | the only whitespace pass 1 leaves is `' '`, never two in a row; the output starts with a space exactly when the input does; input without U+0085/U+2028/U+2029 gives output without line terminators |
| Normalizer.CollapseWords | eliza-gpt/src/main/java/fr/univ_lyon1/info/m1/elizagpt/model/MessageProcessor.java:21 | pass 1 gives the words of the input, in order, joined by single spaces, with one space in front when the input starts with whitespace and one behind when it ends with whitespace after a word |
| Normalizer.CollapseKeepsContent | eliza-gpt/src/main/java/fr/univ_lyon1/info/m1/elizagpt/model/MessageProcessor.java:21 | collapsing keeps a text all-whitespace, and keeps it not all-whitespace |
| Normalizer.TrimStart | eliza-gpt/src/main/java/fr/univ_lyon1/info/m1/elizagpt/model/MessageProcessor.java:22 | `^\s+` → `""`: a suffix of the input, everything cut is whitespace, empty exactly when the input is all whitespace, otherwise starting with non-whitespace |
| Normalizer.TrimStartWords | eliza-gpt/src/main/java/fr/univ_lyon1/info/m1/elizagpt/model/MessageProcessor.java:21-22 | after passes 1 and 2 the text is the words joined by single spaces, followed by the trailing space of pass 1 if any |
| Normalizer.EndAnchor | eliza-gpt/src/main/java/fr/univ_lyon1/info/m1/elizagpt/model/MessageProcessor.java:23-24 | `$` without MULTILINE holds at the end of the text, and only at position `n - 2`, `n - 1` or `n` of a text of length `n` |
| Normalizer.BacktrackEnd | eliza-gpt/src/main/java/fr/univ_lyon1/info/m1/elizagpt/model/MessageProcessor.java:23 | the greedy `\s+` followed by `$` backs off to the largest end position not beyond the run where `$` holds, and there is none past it |
| Normalizer.TrailingMatch | eliza-gpt/src/main/java/fr/univ_lyon1/info/m1/elizagpt/model/MessageProcessor.java:23 | a match of `\s+$` starting at a position covers only whitespace and ends where `$` holds |
| Normalizer.EndAnchorAtEnd | eliza-gpt/src/main/java/fr/univ_lyon1/info/m1/elizagpt/model/MessageProcessor.java:23-24 | in text without line terminators, `$` (no MULTILINE) holds only at the very end |
| Normalizer.TrimEndDropsTrailingSpace | eliza-gpt/src/main/java/fr/univ_lyon1/info/m1/elizagpt/model/MessageProcessor.java:23 | on text without line terminators, `\s+$` → `""` removes exactly the trailing whitespace: the result is a prefix ending in non-whitespace and everything cut is whitespace |
| Normalizer.TrimEndWords | eliza-gpt/src/main/java/fr/univ_lyon1/info/m1/elizagpt/model/MessageProcessor.java:23 | pass 3 drops the single trailing space left after the words and nothing else |
| Normalizer.PunctuateFrom | eliza-gpt/src/main/java/fr/univ_lyon1/info/m1/elizagpt/model/MessageProcessor.java:24 | `[^.!?:]$` → `$0.`: output is empty exactly for empty input, keeps the first character, and ends with a terminal mark |
| Normalizer.PunctuatePlain | eliza-gpt/src/main/java/fr/univ_lyon1/info/m1/elizagpt/model/MessageProcessor.java:24 | on text without line terminators, a full stop is appended exactly when the text is non-empty and does not end with `.`, `!`, `?` or `:`; otherwise the text is returned as is |
| Normalizer.NormalizeIsNormal | eliza-gpt/src/main/java/fr/univ_lyon1/info/m1/elizagpt/model/MessageProcessor.java:20-25 | for text without U+0085, U+2028, U+2029, the result is in normal form: no line terminator, `' '` as only whitespace and never doubled, no leading space, a terminal mark at the end |
| Normalizer.NormalizeWords | eliza-gpt/src/main/java/fr/univ_lyon1/info/m1/elizagpt/model/MessageProcessor.java:20-25 | for text without U+0085, U+2028, U+2029, `normalize` gives the input's words joined by single spaces, with a full stop added when there are words and the last does not end with `.`, `!`, `?` or `:` |
| Normalizer.TrimEndFromTidy | eliza-gpt/src/main/java/fr/univ_lyon1/info/m1/elizagpt/model/MessageProcessor.java:23 | whatever line terminators the text holds, if `' '` is its only whitespace and never doubled, the same holds after `\s+$` → `""`, and the result starts with a space only where the text does |
| Normalizer.PunctuateFromTidy | eliza-gpt/src/main/java/fr/univ_lyon1/info/m1/elizagpt/model/MessageProcessor.java:24 | likewise `[^.!?:]$` → `$0.` keeps `' '` the only whitespace and never doubled |
| Normalizer.NormalizeSettled | eliza-gpt/src/main/java/fr/univ_lyon1/info/m1/elizagpt/model/MessageProcessor.java:20-25 | for every text, line terminators included, the result has `' '` as only whitespace, never two in a row, no leading space, and a terminal mark at the end |
| Normalizer.CollapseFromFixed | eliza-gpt/src/main/java/fr/univ_lyon1/info/m1/elizagpt/model/MessageProcessor.java:21 | `\s+` → `" "` leaves such text unchanged: every whitespace is already a single `' '` |
| Normalizer.TrimEndFromFixed | eliza-gpt/src/main/java/fr/univ_lyon1/info/m1/elizagpt/model/MessageProcessor.java:23 | `\s+$` → `""` leaves such text unchanged: `$` never follows a space in it |
| Normalizer.PunctuateFromFixed | eliza-gpt/src/main/java/fr/univ_lyon1/info/m1/elizagpt/model/MessageProcessor.java:24 | `[^.!?:]$` → `$0.` leaves such text unchanged: `$` holds only after its final mark |
| Normalizer.NormalFixed | eliza-gpt/src/main/java/fr/univ_lyon1/info/m1/elizagpt/model/MessageProcessor.java:20-25 | text with `' '` as only whitespace, never doubled, no leading space and a terminal mark at the end (in particular text in normal form) is returned unchanged |
| Normalizer.NormalizeIdempotent | eliza-gpt/src/main/java/fr/univ_lyon1/info/m1/elizagpt/model/MessageProcessor.java:20-25 | normalizing twice gives what normalizing once gives, for every text |
| Normalizer.FixedIffNormal | eliza-gpt/src/main/java/fr/univ_lyon1/info/m1/elizagpt/model/MessageProcessor.java:20-25 | the texts `normalize` leaves unchanged are exactly those in normal form (text without U+0085, U+2028, U+2029) |
| PersonConverter.LowerRun | eliza-gpt/src/main/java/fr/univ_lyon1/info/m1/elizagpt/model/MessageProcessor.java:176 | the greedy `[a-z]*` of the conjugation patterns: a maximal run of lower-case ASCII letters |
| PersonConverter.ConjugationIsRegex | eliza-gpt/src/main/java/fr/univ_lyon1/info/m1/elizagpt/model/MessageProcessor.java:176 | the scanner for `[Jj]e ([a-z]*)<e or s> ` matches at a position exactly when some split of the text fits the regex, and then the replacement is `vous ` + group + suffix + space (shape shared with line 183) |
| PersonConverter.MatchAt | eliza-gpt/src/main/java/fr/univ_lyon1/info/m1/elizagpt/model/MessageProcessor.java:175-187 | a match of any of the converter's rewrites consumes at least one character inside the text; verb rewrites start at `Je `/`je `, literal ones at their target |
| PersonConverter.ApplyFrom | eliza-gpt/src/main/java/fr/univ_lyon1/info/m1/elizagpt/model/MessageProcessor.java:175-187 | the left-to-right scan of `replaceAll`/`replace` from a position: where no match starts from there on, the rest of the text is copied unchanged |
| PersonConverter.Apply | eliza-gpt/src/main/java/fr/univ_lyon1/info/m1/elizagpt/model/MessageProcessor.java:175-187 | one whole-text replacement returns text in which the rewrite never matches unchanged |
| PersonConverter.ApplyVerbs | eliza-gpt/src/main/java/fr/univ_lyon1/info/m1/elizagpt/model/MessageProcessor.java:177-181 | the irregular-verb loop, entries in table order, leaves text in which no rewrite of the converter can fire unchanged |
| PersonConverter.Possessives | eliza-gpt/src/main/java/fr/univ_lyon1/info/m1/elizagpt/model/MessageProcessor.java:184-187 | the four literal replacements, in order, leave no `moi` in the result: the last one removes each and `vous` never creates one |
| PersonConverter.FirstToSecondPerson | eliza-gpt/src/main/java/fr/univ_lyon1/info/m1/elizagpt/model/MessageProcessor.java:174-189 | `firstToSecondPerson` never returns text containing `moi` |
| PersonConverter.InertUnchanged | eliza-gpt/src/main/java/fr/univ_lyon1/info/m1/elizagpt/model/MessageProcessor.java:175-187 | from a position where no `[Jj]e `, `mon `, `ma `, `mes `, `moi` starts anywhere after, every rewrite copies the rest unchanged |
| PersonConverter.AbsentTargetUnchanged | eliza-gpt/src/main/java/fr/univ_lyon1/info/m1/elizagpt/model/MessageProcessor.java:184-187 | `String.replace` leaves a text without its target unchanged |
| PersonConverter.PossessivesUnchanged | eliza-gpt/src/main/java/fr/univ_lyon1/info/m1/elizagpt/model/MessageProcessor.java:184-187 | text containing none of `mon `, `ma `, `mes `, `moi` passes the four literal replacements unchanged |
| PersonConverter.InertIff | eliza-gpt/src/main/java/fr/univ_lyon1/info/m1/elizagpt/model/MessageProcessor.java:174-189 | no rewrite can fire anywhere exactly when the text contains none of `Je `, `je `, `mon `, `ma `, `mes `, `moi` |
| PersonConverter.PersonUnchanged | eliza-gpt/src/main/java/fr/univ_lyon1/info/m1/elizagpt/model/MessageProcessor.java:174-189 | `firstToSecondPerson` returns text containing none of `Je `, `je `, `mon `, `ma `, `mes `, `moi` unchanged |
| PersonConverter.MoiReplacedEverywhere | eliza-gpt/src/main/java/fr/univ_lyon1/info/m1/elizagpt/model/MessageProcessor.java:187 | `replace("moi", "vous")` on any text leaves no `moi` behind |
| PersonExamples.ExampleSuis | eliza-gpt/src/main/java/fr/univ_lyon1/info/m1/elizagpt/model/MessageProcessor.java:177-181 | `Je suis content` becomes `vous êtes content` through the irregular table |
| PersonExamples.ExampleMange | eliza-gpt/src/main/java/fr/univ_lyon1/info/m1/elizagpt/model/MessageProcessor.java:176 | `Je mange beaucoup` becomes `vous mangez beaucoup` through the `-e` rule |
| PersonExamples.ExampleFinis | eliza-gpt/src/main/java/fr/univ_lyon1/info/m1/elizagpt/model/MessageProcessor.java:183 | `je finis ` becomes `vous finissez ` through the `-s` rule |
| PersonExamples.ExampleDis | eliza-gpt/src/main/java/fr/univ_lyon1/info/m1/elizagpt/model/MessageProcessor.java:177-183 | `je dis ` becomes `vous dites `: the table entry fires before the `-s` rule could |
| PersonExamples.ExampleMangeAtEnd | eliza-gpt/src/main/java/fr/univ_lyon1/info/m1/elizagpt/model/MessageProcessor.java:176 | `Je mange` stays as it is: the `-e` rule needs a space after the verb |
| Patterns.NameIntroduction | eliza-gpt/src/main/java/fr/univ_lyon1/info/m1/elizagpt/model/MessageProcessor.java:93-97 | the group of `.*Je m'appelle (.*)\.` (any case, whole text): when present it holds no line terminator and is shorter than the text |
| Patterns.NameIntroductionIff | eliza-gpt/src/main/java/fr/univ_lyon1/info/m1/elizagpt/model/MessageProcessor.java:93-97 | a name `n` is found exactly when the text is `p` + `Je m'appelle ` (any case) + `n` + `.` with `p`, `n` free of line terminators and `n` holding no further introduction: the greedy `.*` takes the last one |
| Patterns.NameIntroductionSplit | eliza-gpt/src/main/java/fr/univ_lyon1/info/m1/elizagpt/model/MessageProcessor.java:93-97 | when the introduction rule finds a name, the text cuts at the last introduction into a line-terminator-free prefix, the introduction, the name and the full stop |
| Patterns.IntroductionAfterLast | eliza-gpt/src/main/java/fr/univ_lyon1/info/m1/elizagpt/model/MessageProcessor.java:93-97 | with text before the introduction and a name without another introduction, the name found is exactly that name |
| Patterns.DeclaredName | eliza-gpt/src/main/java/fr/univ_lyon1/info/m1/elizagpt/model/MessageProcessor.java:159-168 | the group of the anchored `Je m'appelle (.*)\.` holds no line terminator and is 14 characters shorter than the text |
| Patterns.DeclaredNameIff | eliza-gpt/src/main/java/fr/univ_lyon1/info/m1/elizagpt/model/MessageProcessor.java:159-168 | the anchored `Je m'appelle (.*)\.` of `getUserName` yields `n` exactly when the text is `Je m'appelle ` (any case) + `n` + `.` with `n` free of line terminators |
| Patterns.DeclaredIsIntroduced | eliza-gpt/src/main/java/fr/univ_lyon1/info/m1/elizagpt/model/MessageProcessor.java:93-97 | a message that declares a name is also greeted by the introduction rule |
| Patterns.IsNameQuestion | eliza-gpt/src/main/java/fr/univ_lyon1/info/m1/elizagpt/model/MessageProcessor.java:99-101 | `Quel est mon nom \?` (any case, whole text) accepts only 18-character texts ending with `?` |
| Patterns.Superlative | eliza-gpt/src/main/java/fr/univ_lyon1/info/m1/elizagpt/model/MessageProcessor.java:109-111 | the group of `Qui est le plus (.*) \?` holds no line terminator and is 18 characters shorter than the text |
| Patterns.SuperlativeIff | eliza-gpt/src/main/java/fr/univ_lyon1/info/m1/elizagpt/model/MessageProcessor.java:109-113 | `Qui est le plus (.*) \?` yields `x` exactly when the text is the head (any case) + `x` + ` ?` with `x` free of line terminators |
| Patterns.SuperlativeJoin | eliza-gpt/src/main/java/fr/univ_lyon1/info/m1/elizagpt/model/MessageProcessor.java:109-113 | building the text from the head and `x` gives `x` back |
| Patterns.Reflection | eliza-gpt/src/main/java/fr/univ_lyon1/info/m1/elizagpt/model/MessageProcessor.java:115-117 | the group of `(Je .*)\.` is the text without its final full stop and starts with `je ` in any case |
| Patterns.ReflectionIff | eliza-gpt/src/main/java/fr/univ_lyon1/info/m1/elizagpt/model/MessageProcessor.java:115-124 | `(Je .*)\.` yields `g` exactly when `g` starts with `je ` (any case), has no line terminator after it, and the text is `g` + `.` |
| Patterns.IsQuestion | eliza-gpt/src/main/java/fr/univ_lyon1/info/m1/elizagpt/model/MessageProcessor.java:127-129 | `.*\?` (case-sensitive, whole text) matches exactly the texts `x` + `?` with `x` free of line terminators |
| Transcript.AddMessage | eliza-gpt/src/main/java/fr/univ_lyon1/info/m1/elizagpt/model/MessageProcessor.java:59-64 | the transcript grows by one at the end, keeping every earlier message, and the returned message is the stored one, with the normalized text and the given sender |
| Transcript.AddKeepsCanonical | eliza-gpt/src/main/java/fr/univ_lyon1/info/m1/elizagpt/model/MessageProcessor.java:59-64 | if every stored text is in normal form, it stays so after adding text without U+0085, U+2028, U+2029 |
| Transcript.DeleteMessage | eliza-gpt/src/main/java/fr/univ_lyon1/info/m1/elizagpt/model/MessageProcessor.java:66-68 | the result keeps order and holds exactly the messages whose id differs from the one given |
| Transcript.DeleteCounts | eliza-gpt/src/main/java/fr/univ_lyon1/info/m1/elizagpt/model/MessageProcessor.java:66-68 | every copy of a message with the id is removed and every copy of any other message is kept |
| Transcript.DeleteAbsent | eliza-gpt/src/main/java/fr/univ_lyon1/info/m1/elizagpt/model/MessageProcessor.java:66-68 | deleting an id no message has changes nothing |
| Transcript.DeleteIdempotent | eliza-gpt/src/main/java/fr/univ_lyon1/info/m1/elizagpt/model/MessageProcessor.java:66-68 | deleting the same id twice is deleting it once |
| Transcript.DeleteUndoesAdd | eliza-gpt/src/main/java/fr/univ_lyon1/info/m1/elizagpt/model/MessageProcessor.java:59-68 | deleting a message just added under an unused id gives back the transcript |
| Transcript.Matching | eliza-gpt/src/main/java/fr/univ_lyon1/info/m1/elizagpt/model/MessageProcessor.java:70-82 | the messages the pattern finds, in transcript order, and no others |
| Transcript.MatchingCounts | eliza-gpt/src/main/java/fr/univ_lyon1/info/m1/elizagpt/model/MessageProcessor.java:70-82 | every copy of a message the pattern finds is kept and no copy of any other |
| Transcript.Search | eliza-gpt/src/main/java/fr/univ_lyon1/info/m1/elizagpt/model/MessageProcessor.java:70-82 | the loop keeps, in order, exactly the messages the pattern finds (loop invariant against `Matching`) |
| NameFinder.UserName | eliza-gpt/src/main/java/fr/univ_lyon1/info/m1/elizagpt/model/MessageProcessor.java:157-172 | a name returned was declared by some user message |
| NameFinder.ScanNames | eliza-gpt/src/main/java/fr/univ_lyon1/info/m1/elizagpt/model/MessageProcessor.java:165-171 | the loop over the user messages ends without a name exactly when it started without one and no message declares one |
| NameFinder.UserNameIsLastDeclaration | eliza-gpt/src/main/java/fr/univ_lyon1/info/m1/elizagpt/model/MessageProcessor.java:157-172 | there is no name exactly when no user message declares one; otherwise the name is that of the last declaring user message |
| NameFinder.ElizaMessageIgnored | eliza-gpt/src/main/java/fr/univ_lyon1/info/m1/elizagpt/model/MessageProcessor.java:161-163 | appending a message from Eliza never changes the user's name |
| NameFinder.NewDeclarationWins | eliza-gpt/src/main/java/fr/univ_lyon1/info/m1/elizagpt/model/MessageProcessor.java:165-170 | appending a user message that declares a name makes it the user's name, whatever came before |
| Eliza.Pick | eliza-gpt/src/main/java/fr/univ_lyon1/info/m1/elizagpt/model/MessageProcessor.java:192-194 | `pickRandom` returns one of the options |
| Eliza.PickReaches | eliza-gpt/src/main/java/fr/univ_lyon1/info/m1/elizagpt/model/MessageProcessor.java:192-194 | every option is returned for some draw |
| Eliza.ReplyTo | eliza-gpt/src/main/java/fr/univ_lyon1/info/m1/elizagpt/model/MessageProcessor.java:92-153 | whatever the draws, the reply to normalized text is one of those the first rule that fits it allows |
| Eliza.GenerateElizaResponse | eliza-gpt/src/main/java/fr/univ_lyon1/info/m1/elizagpt/model/MessageProcessor.java:85-154 | the reply to what the user typed is one of those the first rule that fits the normalized text allows, for the user's name in the transcript |
| Eliza.DefaultReply | eliza-gpt/src/main/java/fr/univ_lyon1/info/m1/elizagpt/model/MessageProcessor.java:148-153 | with a name, the reply is `Qu'est-ce qui vous fait dire cela, ` + the name + ` ?`; without one, `Qu'est-ce qui vous fait dire cela ?`; the two cases are told apart by the character after the head |
| Eliza.DefaultReplyInjective | eliza-gpt/src/main/java/fr/univ_lyon1/info/m1/elizagpt/model/MessageProcessor.java:149-153 | different names, or a name and none, never give the same default reply |
| Eliza.RepliesReachable | eliza-gpt/src/main/java/fr/univ_lyon1/info/m1/elizagpt/model/MessageProcessor.java:85-154 | every reply the first fitting rule allows is given for some draws |
| Eliza.IntroductionBeatsReflection | eliza-gpt/src/main/java/fr/univ_lyon1/info/m1/elizagpt/model/MessageProcessor.java:93-124 | `Je m'appelle X.` fits the reflection rule too, but gets the greeting, since that rule comes first |
| Eliza.IntroductionIsReflection | eliza-gpt/src/main/java/fr/univ_lyon1/info/m1/elizagpt/model/MessageProcessor.java:93-124 | every `Je m'appelle X.` with a line-terminator-free `X` is also taken by the reflection pattern `(Je .*)\.` |
| Eliza.GreetingAnywhere | eliza-gpt/src/main/java/fr/univ_lyon1/info/m1/elizagpt/model/MessageProcessor.java:93-97 | text before the introduction does not stop the greeting, which names what follows the last introduction |
| Eliza.NameQuestionAnswered | eliza-gpt/src/main/java/fr/univ_lyon1/info/m1/elizagpt/model/MessageProcessor.java:99-107 | `Quel est mon nom ?` in any case is answered from the user's name, or with `Je ne connais pas votre nom.` |
| Eliza.FullStopIsNoQuestion | eliza-gpt/src/main/java/fr/univ_lyon1/info/m1/elizagpt/model/MessageProcessor.java:99-135 | text ending with `.` fits none of the rules whose pattern ends with `?` |
| Eliza.SuperlativeEchoed | eliza-gpt/src/main/java/fr/univ_lyon1/info/m1/elizagpt/model/MessageProcessor.java:109-113 | `Qui est le plus X ?` in any case is answered with `Le plus X est bien sûr votre enseignant de MIF01!` |
| Eliza.ReflectionReplies | eliza-gpt/src/main/java/fr/univ_lyon1/info/m1/elizagpt/model/MessageProcessor.java:115-124 | text of the reflection rule gets one of the three openers, the text in the second person, and ` ?` |
| Eliza.QuestionReplied | eliza-gpt/src/main/java/fr/univ_lyon1/info/m1/elizagpt/model/MessageProcessor.java:127-135 | a question no earlier rule takes gets one of exactly two replies |
| Eliza.FallbackReplies | eliza-gpt/src/main/java/fr/univ_lyon1/info/m1/elizagpt/model/MessageProcessor.java:138-153 | text no rule takes gets, in the order of the coin flips, the weather remark, the confusion, the hum, or the default reply |
| Eliza.TranscriptOnlyThroughName | eliza-gpt/src/main/java/fr/univ_lyon1/info/m1/elizagpt/model/MessageProcessor.java:85-154 | two transcripts that give the user the same name get the same reply |
| Strategies.DefaultResponse | eliza-gpt/src/main/java/fr/univ_lyon1/info/m1/elizagpt/model/response/DefaultResponseStrategy.java:13-18 | the reply starts with `Qu'est-ce qui vous fait dire cela` and ends with ` ?`; with a name, the text between `, ` and ` ?` is the name, without one the head is followed by ` ?` directly |
| Strategies.DefaultResponseIsEngineDefault | eliza-gpt/src/main/java/fr/univ_lyon1/info/m1/elizagpt/model/response/DefaultResponseStrategy.java:13-18 | the strategy agrees with the engine's last branch when no rule fits and every coin flip is false |
| Strategies.DefaultResponseOnlyNameMatters | eliza-gpt/src/main/java/fr/univ_lyon1/info/m1/elizagpt/model/response/DefaultResponseStrategy.java:13-18 | two transcripts get the same default reply exactly when they give the user the same name, whatever the user message |
| Strategies.ByeResponse | eliza-gpt/src/test/java/fr/univ_lyon1/info/m1/elizagpt/model/response/strategies/ByeResponseStrategyTest.java:24-38 | the farewell starts with `Oh non, c'est trop triste de se quitter` and ends with ` !`; it is no longer than that exactly when no name is known, and otherwise carries the name after a space |
| Strategies.ByeResponseOnlyNameMatters | eliza-gpt/src/test/java/fr/univ_lyon1/info/m1/elizagpt/model/response/strategies/ByeResponseStrategyTest.java:24-38 | two transcripts get the same farewell exactly when they give the user the same name |
| Strategies.ByeIgnoresEliza | eliza-gpt/src/test/java/fr/univ_lyon1/info/m1/elizagpt/model/response/strategies/ByeResponseStrategyTest.java:19-21 | messages from Eliza never change the farewell |
| Strategies.ByeWithoutName | eliza-gpt/src/test/java/fr/univ_lyon1/info/m1/elizagpt/model/response/strategies/ByeResponseStrategyTest.java:24-31 | the fixture, whose only user message declares no name, gets `Oh non, c'est trop triste de se quitter !` |
| Strategies.ByeWithName | eliza-gpt/src/test/java/fr/univ_lyon1/info/m1/elizagpt/model/response/strategies/ByeResponseStrategyTest.java:32-38 | after `Je m'appelle abdennour.` the farewell is `Oh non, c'est trop triste de se quitter abdennour !` |
| Strategies.SubStringSearch | eliza-gpt/src/test/java/fr/univ_lyon1/info/m1/elizagpt/model/search/strategies/SubStringSearchStrategyTest.java:27-38 | the messages whose text contains the query as plain text, up to ASCII case, in order, and no others |
| Strategies.SearchWe | eliza-gpt/src/test/java/fr/univ_lyon1/info/m1/elizagpt/model/search/strategies/SubStringSearchStrategyTest.java:30-33 | searching the fixture for `we` returns only `I'm doing well, thank you!` |
| Strategies.SearchStarIsLiteral | eliza-gpt/src/test/java/fr/univ_lyon1/info/m1/elizagpt/model/search/strategies/SubStringSearchStrategyTest.java:35-37 | searching the fixture for `ho.*` returns nothing: no text holds a `*` |
| Strategies.PatternSearchFindsHo | eliza-gpt/src/main/java/fr/univ_lyon1/info/m1/elizagpt/model/MessageProcessor.java:70-82 | keeps exactly the messages holding `ho` in any case, which is what a find of `ho.*` accepts since `.*` may match nothing: the fixture's `Hello, how are you?` |
| ElizaExamples.NormalTextReplied | eliza-gpt/src/main/java/fr/univ_lyon1/info/m1/elizagpt/model/MessageProcessor.java:87 | text already in normal form reaches the rules unchanged |
| ElizaExamples.QuestionAnswered | eliza-gpt/src/test/java/fr/univ_lyon1/info/m1/elizagpt/model/response/handlers/QuestionResponseHandlerTest.java:21-27 | `a question???` gets `Je vous renvoie la question.` or `Ici, c'est moi qui pose les questions.`, whatever the draws |
| ElizaExamples.GreetingInsideSentence | eliza-gpt/src/main/java/fr/univ_lyon1/info/m1/elizagpt/model/MessageProcessor.java:93-97 | `Salut, je m'appelle Alice.` is greeted with `Bonjour Alice.` |
| ElizaExamples.GreetingGivesNoName | eliza-gpt/src/main/java/fr/univ_lyon1/info/m1/elizagpt/model/MessageProcessor.java:157-172 | ... yet that message gives the user no name, since `getUserName` needs the whole message to be the introduction |
| ElizaExamples.NameRemembered | eliza-gpt/src/main/java/fr/univ_lyon1/info/m1/elizagpt/model/MessageProcessor.java:99-104 | after `Je m'appelle Bob.`, `Quel est mon nom ?` is answered with `Votre nom est Bob.` |
| ElizaExamples.SeparatorGetsTwoStops | eliza-gpt/src/main/java/fr/univ_lyon1/info/m1/elizagpt/model/MessageProcessor.java:24 | `a` followed by U+2028 normalizes to `a.`, U+2028, `.`: `$` holds before the final line separator and at the end, so the result is not in normal form |

## Left out

- The view (`JfxView`), the observer interface (`Observer`) and the search
  update payload (`SearchUpdate`): user interface plumbing, no logic of the core.
- `Verb` as a class with getters: the model's `Verb` datatype holds the same two strings.
- `java.util.Random`: the draws are parameters; their distribution is not modelled.
- Message ids: `Message` carries the id it is given; how the Java class
  assigns ids is not part of this model, so `deleteMessage` is modelled for any ids.
- `search` with an arbitrary regular expression: the general regex engine is
  not modelled; the pattern's `find()` is the parameter `found`, and an
  invalid pattern's `PatternSyntaxException` is not modelled.
- `getMessages` and the constructor: plain accessors.
- `UserNameFinder`, `ByeResponseStrategy` and `SubStringSearchStrategy` are
  not part of this model as source: `DefaultResponseStrategy` is modelled with
  `UserNameFinder.getUserName` taken to be `MessageProcessor.getUserName`; the
  farewell reply and the substring search are written from their tests. The
  tests fix that the query is plain text (`ho.*` finds nothing), not whether
  case counts: both of their cases hold either way. The model assumes the
  search ignores ASCII case, as the regex search of `MessageProcessor` does.
- The singleton test of the search strategies (`getInstance` returning the
  same object): object identity is not modelled.
- UTF-16: strings are sequences of characters; surrogate pairs and
  characters outside the Basic Multilingual Plane are not modelled.
- Normalizer.NormalizeIsNormal: proved only for text without U+0085, U+2028 and
  U+2029, because Java's `$` also matches just before such a final
  character, so `a` followed by U+2028 normalizes to `a.`, U+2028, `.`, which is not in
  normal form (`ElizaExamples.SeparatorGetsTwoStops`).
- Normalizer.NormalizeWords: proved for the same text only, for the same reason.
- Normalizer.FixedIffNormal: proved for the same text only, for the same reason.
- Transcript.AddKeepsCanonical: proved for the same text only, for the same reason.
- PersonConverter.PersonUnchanged: states only the text that is returned
  unchanged; the output for other text is given by the function itself and
  by the worked examples, not by a closed formula.
