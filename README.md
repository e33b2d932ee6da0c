# Spelling-quiz tutor: the quiz engine in Dafny

This project models the quiz engine of a small console spelling tutor (`app.py`).
The tutor reads a catalog of words and sorts it hardest first. A process-wide
`state` record holds a cursor into the catalog, a per-round counter, the word
under test and the score. Seven actions read and update that record:

- `get_next_word`, `get_current` and `check_spelling`;
- `get_definition`, `get_origin` and `get_sentence`, which rely on the case-insensitive lookup `_get_row`;
- `get_progress`.

A dialogue interpreter may call these actions and answer each input line.
`extract_assistant_text` pulls the interpreter's text out of whatever shape of
response it returned. When that text is empty, or the interpreter failed, the
deterministic fallback `run_local_engine` answers instead. The console loop
stops once a reply contains "Round complete" or "Stopping the quiz".

The modules follow that structure:

- `Text`: the Python string built-ins the engine relies on. These are `str.strip`
  (over Python's whitespace set), `str.lower`, the substring test `in`,
  `"\n".join` and the decimal formatting of a score.
- `Catalog`: a row with its difficulty defaulted to 5, and the stable
  hardest-first sort. It also holds `_get_row` and the three hint lookups with
  their fixed placeholders.
- `Actions`: the `state` record as a `Session` value, each action as a function
  from the state before the call to the reply and the state after it, and the
  invariant every reachable state satisfies.
- `Responses`: the interpreter's response as a loosely typed value (`Json`:
  null, bool, number, string, list, dict). `extract_assistant_text` is both a
  function and a method with the source's filtering loop. "Raises" is modelled
  as `None`.
- `Engine`: `run_local_engine`, one turn of the console loop and the loop over
  a sequence of turns. It proves when the loop stops, that the state invariant
  holds throughout, and that the score stays behind the words served.
- `Tutor`: class `Quiz`, whose fields are the `state` record. Its methods update
  those fields in place, as the source does. Each method is proved equal to the
  corresponding function above.

The loop's stop test is Python's `in`, applied to whatever value is shown. For
a string that is a substring test, for a list an element test and for a dict a
key test. For a number or a bool it raises `TypeError`, which nothing catches
(`Exit.Crash`). That can happen when the interpreter's `content` is a truthy
number (`Engine.NumericContentCrashes`).

## Model

| member | source | states |
|---|---|---|
| Text.StripSpec | app.py:55 | `strip()` removes exactly the surrounding whitespace: the result is an infix of the input, framed by whitespace only, that neither starts nor ends with whitespace; it is empty exactly when the input is all whitespace |
| Text.NormalizeIdempotent | app.py:27-29 | the comparison key `strip().lower()` is stable: normalising a normalised string changes nothing |
| Text.Strip | app.py:224 | `str.strip()`: defined by cutting the leading and the trailing whitespace run; what it removes is stated by `Text.StripSpec` |
| Text.Lower | app.py:27 | `str.lower()`, character by character (ASCII letters only, see "Left out") |
| Text.Normalize | app.py:27-29 | the comparison key `strip().lower()` shared by `_get_row`, `check_spelling` and the dispatch of `run_local_engine`; stability is `Text.NormalizeIdempotent` |
| Text.NatToString | app.py:76-77 | the f-string rendering of a count: decimal digits, no leading zero, and the digits read back left to right (`DecimalValue`, defined independently) give the number printed |
| Text.NatToStringInjective | app.py:77 | two counts print the same exactly when they are equal |
| Text.JoinContainsParts | app.py:145-146 | every part joined with `"\n"` occurs in the joined string |
| Catalog.ToRecord | app.py:11-14 | a row keeps its texts and gets difficulty 5 when the column is missing or does not parse |
| Catalog.Insert | app.py:18 | inserting into a hardest-first list keeps it hardest first |
| Catalog.InsertPermutes | app.py:18 | inserting adds exactly that record: the result is a permutation of the list and the record |
| Catalog.SortHardestFirst | app.py:18 | the sort's result is hardest first and a permutation of its input |
| Catalog.HardestFirstOrdersAll | app.py:18 | in the sorted catalog every word is at least as hard as every later word |
| Catalog.SortKeepsTies | app.py:18 | the sort is stable: words of equal difficulty keep their relative order |
| Catalog.Load | app.py:8-18 | the catalog holds one record per row, hardest first, and is a permutation of the defaulted rows |
| Catalog.FirstKeyFromFinds | app.py:28-31 | the scan returns the first position from `from` whose normalised word equals the key, or none when no later word matches |
| Catalog.FindRow | app.py:24-31 | `_get_row` returns the first record whose word matches the query once both are stripped and lower-cased; it returns none exactly when the query is empty or no record matches |
| Catalog.Placeholder | app.py:61-73 | every placeholder reply is non-empty |
| Catalog.Hint | app.py:61-73 | a hint is never empty and is either the placeholder or a field of some catalog record |
| Catalog.HintOfKnownWord | app.py:61-73 | for a known word the hint is the first matching record's field when that field is non-empty, else the placeholder |
| Catalog.HintOfUnknownWord | app.py:61-73 | an empty query or an unknown word gets the placeholder |
| Actions.NextWord | app.py:37-45 | `get_next_word` as a function from the state to the reply and the new state, by the two cases of line 39; its behaviour is stated by `ExhaustedStaysExhausted`, `NextWordAdvances`, `NextWordKeepsInv` and `ServeInOrder` |
| Actions.ExhaustedStaysExhausted | app.py:39-40 | once five words are served or the catalog is used up, `get_next_word` returns "" and leaves all four fields as they were, so every further call returns "" too |
| Actions.NextWordAdvances | app.py:41-45 | otherwise it returns the word under the cursor, makes it current, moves cursor and round counter on by exactly one and leaves the score alone |
| Actions.NextWordKeepsInv | app.py:37-45 | `get_next_word` keeps the invariant: cursor equals round counter, neither passes its bound, the current word is the last served; the cursor never moves back |
| Actions.ServeInOrder | app.py:37-45 | n calls serve the next catalog words in order, never more than the round and the catalog have left, and "" for every further call |
| Actions.FirstRoundServesCatalogPrefix | app.py:20-45 | a fresh session serves the first min(n, 5, catalog size) words of the sorted catalog |
| Actions.Current | app.py:48-50 | `get_current`: the current word, "" when there is none; stated for reachable states by `CurrentIsLastServed` |
| Actions.CurrentIsLastServed | app.py:48-50 | in a reachable state `get_current` returns the word served last, or "" before the first advance |
| Actions.CheckSpelling | app.py:53-58 | `check_spelling` as a function from the state to the verdict and the new state; its behaviour is stated by `CheckSpellingCounts` and `CheckSpellingKeepsInv` |
| Actions.CheckSpellingCounts | app.py:53-58 | the verdict is true exactly when attempt and word agree once stripped and lower-cased; the score rises by one exactly then; no other field ever changes |
| Actions.CheckSpellingKeepsInv | app.py:53-58 | `check_spelling` keeps the state invariant, leaves cursor and round counter alone and never lowers the score |
| Actions.CheckSpellingIgnoresCaseAndSpace | app.py:55 | "Beautiful" is accepted for " beautiful " |
| Actions.CheckSpellingRejectsMisspelling | app.py:55 | "beatiful" is rejected for "beautiful" |
| Actions.Progress | app.py:76-77 | `get_progress`: the f-string of line 77; that it shows the score and the round count is `ProgressShowsScore` |
| Actions.ProgressShowsScore | app.py:76-77 | two states have the same progress text exactly when they agree on score and round count |
| Actions.Perform | app.py:114-123 | one call of one of the seven registered actions, by cases on the action; `ReadOnlyActions` and `ActionsKeepInv` state its effect |
| Actions.PerformAll | app.py:229-230 | the state after the interpreter's action calls for one input, in order; `ActionsKeepInv` states what it keeps |
| Actions.ReadOnlyActions | app.py:48-77 | `get_current`, the three hint actions and `get_progress` leave the state unchanged |
| Actions.PerformKeepsInv | app.py:37-77 | any single action call keeps the invariant and lowers neither cursor, round counter nor score |
| Actions.ActionsKeepInv | app.py:37-77 | whatever actions are called, in any order, the invariant holds and cursor, round counter and score never go down |
| Responses.MessageText | app.py:142 | `m.get("content") or m.get("text") or ""` |
| Responses.MessageList | app.py:137 | `resp.get("messages") or resp.get("output", {}).get("messages", [])`, with none for the `AttributeError` when `output` is not a dict |
| Responses.Extract | app.py:129-153 | `extract_assistant_text`, by the cases of the source; its behaviour is stated by `ContentFirst`, `MessagesJoined`, `NonDictIsEmpty`, `RoleTaggedDictTakenByContentRule` and `UsableIff`, and the loop is `ExtractAssistantText` |
| Responses.AssistantParts | app.py:139-144 | every collected part is truthy |
| Responses.ContentFirst | app.py:131-134 | a truthy top-level `content` is returned before anything else is looked at |
| Responses.MessagesJoined | app.py:137-146 | otherwise the assistant and bot texts of `messages` (or `output.messages`) are returned, joined with newlines, in list order |
| Responses.JoinedReplyHasEveryPart | app.py:139-146 | each assistant or bot text occurs in the joined reply |
| Responses.NonDictIsEmpty | app.py:131-153 | anything but a dict yields "" |
| Responses.RoleTaggedDictTakenByContentRule | app.py:149-150 | a role-tagged dict with truthy content is already answered by the first rule, so the role-tagged rule never decides |
| Responses.UsableIff | app.py:129-153 | the extraction yields something to show exactly when the response is a dict with a truthy `content` or with assistant or bot text in its message list |
| Responses.ExtractAssistantText | app.py:129-153 | the filtering loop computes the extraction: the value returned, or failure when `output` is not a dict or a part is not a string |
| Engine.Classify | app.py:158-193 | which branch of `run_local_engine` the input takes, by the if-chain on the stripped, lower-cased input |
| Engine.AdvanceWith | app.py:182-187 | serve the next word after a fixed introduction, or report the round complete; `AdvancingCommands` and `AdvanceWithStopsIff` state it |
| Engine.Judge | app.py:193-212 | the spelling-attempt branch; `WrongAttempt`, `RightAttempt`, `JudgeBeforeStart`, `JudgeKeepsInv`, `JudgeStopsIff` and `JudgeScore` state it |
| Engine.LocalEngine | app.py:156-212 | `run_local_engine`, by cases on `Classify`; its behaviour is stated by the lemmas below |
| Engine.ClassifyIgnoresCaseAndSpace | app.py:158 | the dispatch reads its input stripped and lower-cased; re-normalising changes nothing |
| Engine.ReadOnlyCommands | app.py:167-191 | definition, origin, sentence and the stop words leave the state unchanged and answer with the labelled hint for the current word or with "Stopping the quiz. " and the score |
| Engine.AdvancingCommands | app.py:160-187 | start synonyms and next change the state only through one `get_next_word`, answer with the banner or "Next word: " and the word, and report the round complete when it returns "" |
| Engine.WrongAttempt | app.py:204-212 | a wrong attempt at the current word gets the retry prompt and changes nothing |
| Engine.RightAttempt | app.py:204-210 | a right attempt scores one, advances once, and answers "✅ Correct!" followed by the next word or the round-complete report |
| Engine.AttemptIsJudged | app.py:193-212 | input that is no command is answered by the spelling-attempt branch |
| Engine.AttemptBeforeStart | app.py:193-212 | with no current word an attempt serves a word first and reports the round complete when there is none; otherwise its reply and new state are exactly those of the same attempt at the word just served, so a right attempt answers "✅ Correct!" and the next word or the round-complete report, and a wrong one the retry prompt |
| Engine.JudgeBeforeStart | app.py:193-212 | the spelling-attempt branch with no current word: the round-complete report when no word is left, and otherwise the reply and new state of the same attempt judged against the word just served, which is then current |
| Engine.LocalEngineKeepsInv | app.py:156-212 | the local engine keeps the state invariant; cursor, round counter and score never go down |
| Engine.LocalEngineAnswers | app.py:156-212 | the local engine's reply is never empty |
| Engine.Stops | app.py:241 | the stop test on a string reply: it contains "Round complete" or "Stopping the quiz" |
| Engine.ExitAfter | app.py:241-242 | the stop test on whatever value is shown: `Stops` for a string, an element test for a list, a key test for a dict, and a `TypeError` for a number or a bool |
| Engine.RoundOverStops | app.py:241-242 | a round-complete report stops the loop |
| Engine.StoppingStops | app.py:241-242 | a stop report stops the loop |
| Engine.LocalEngineStopsIff | app.py:241-242 | with a catalog whose words are non-empty and whose texts avoid both phrases, a local reply stops the loop exactly on a stop command, or when a word is asked for and the round has none left |
| Engine.LocalEngineScore | app.py:204-210 | a local reply never lets the score pass the words served, and the score catches up with them only on a reply that stops the loop |
| Engine.DelegatedText | app.py:229-233 | `tutor_text` after the try block: the extracted value, or "" when the interpreter or the extraction raised |
| Engine.Step | app.py:224-242 | one iteration of the loop, by the cases of lines 225, 236 and 241; `BlankLineSkipped`, `StepReconciles`, `NumericContentCrashes`, `LocalReplyStopsIff` and `StepKeepsInv` state it |
| Engine.Run | app.py:223-242 | the loop over a sequence of turns, ending at the first reply that stops it or when the input runs out; `RunKeepsInv`, `RunStopsOnce` and `OfflineScoreBound` state it |
| Engine.BlankLineSkipped | app.py:224-226 | a line that is blank once stripped is skipped with no reply and no state change; any other line gets a reply |
| Engine.StepReconciles | app.py:229-239 | whenever the interpreter produced something truthy, the reply shown is what `extract_assistant_text` returned; otherwise the local engine answers from the state the interpreter's actions left; the stop test applies to the reply shown, which is never empty |
| Engine.NumericContentCrashes | app.py:241 | a truthy numeric `content` is shown, and the stop test then raises |
| Engine.LocalReplyStopsIff | app.py:236-242 | a local reply cannot make the stop test raise; with a catalog whose words are non-empty and whose texts avoid both phrases, it stops the loop exactly when the local engine ends the quiz |
| Engine.StepKeepsInv | app.py:223-237 | one turn keeps the invariant whatever the interpreter did; cursor, round counter and score never go down |
| Engine.RunKeepsInv | app.py:223-242 | every state of a session satisfies the invariant, and cursor, round counter and score never go down |
| Engine.RunStopsOnce | app.py:223-242 | at most one reply per line; every reply but the last lets the loop go on, and the last one ends it exactly when the input did not simply run out |
| Engine.RunUnfolds | app.py:223-242 | one pass of the loop: a line that gets no reply adds nothing, a reply that ends the loop is the last one printed, and any other reply is followed by whatever the rest of the lines produce |
| Engine.OfflineScoreBound | app.py:223-242 | a session answered by the local engine alone never scores more than the words it served |
| Engine.OfflineStep | app.py:223-242 | one turn the local engine answers keeps the invariant and the score within the words served, and keeps the score behind them unless the reply ends the session |
| Tutor.Quiz.constructor | app.py:8-21 | the catalog is the loaded, sorted rows and the state starts at zero with no current word |
| Tutor.Quiz.GetNextWord | app.py:37-45 | updates the fields in place exactly as `get_next_word` does and keeps the invariant |
| Tutor.Quiz.GetCurrent | app.py:48-50 | `get_current` on the fields; in a valid state, the word served last, or "" before the first advance |
| Tutor.Quiz.CheckSpelling | app.py:53-58 | returns "true" or "false" as the verdict and bumps the score in place exactly on "true" |
| Tutor.Quiz.GetRow | app.py:24-31 | the linear scan returns the first matching record, as `FindRow` |
| Tutor.Quiz.GetDefinition | app.py:61-63 | the definition hint |
| Tutor.Quiz.GetOrigin | app.py:66-68 | the origin hint |
| Tutor.Quiz.GetSentence | app.py:71-73 | the example-sentence hint |
| Tutor.Quiz.GetProgress | app.py:76-77 | "Score this round: correct/in_round." |
| Tutor.Quiz.AnswerHint | app.py:167-180 | the definition, origin and sentence branches answer with the label and the hint for the current word, changing nothing |
| Tutor.Quiz.JudgeAttempt | app.py:193-212 | the spelling-attempt branch, run on the fields in place |
| Tutor.Quiz.RunLocalEngine | app.py:156-212 | the local engine run on the fields in place: its reply and new state are the local engine's |
| Tutor.Quiz.Perform | app.py:37-77 | one action call by the interpreter, on the fields in place |
| Tutor.Quiz.PerformAll | app.py:229-231 | the interpreter's action calls for one input, in order |
| Tutor.Quiz.TakeTurn | app.py:223-242 | one loop iteration on the fields in place: skip, delegate or fall back, then the stop test |
| Tutor.AfterAppend | app.py:239 | replies printed one after another: printing a list and then one more reply gives the same transcript as printing the longer list |
| Tutor.Quiz.RunSession | app.py:223-242 | the loop over the input lines produces the session's replies, final state and ending |

## Left out

- Reading `words.csv` (file I/O and `int()` parsing) is left out. The model starts from the parsed rows: difficulty is `None` when the column is missing or does not parse, and an absent text column reads as "". A row with no `word` value is not modelled.
- Text.Lower: models Python's `str.lower()` for ASCII letters only. Other letters keep their case.
- The guardrails library is not part of this model. That covers its configuration, the `DummyLLM` stub and the action registration. Each call of `rails.generate` is an input to a turn: the list of actions the interpreter called, in order, and its response, or none when it raised. What the interpreter decides is not modelled.
- Console I/O is left out. Input lines are a given sequence of turns, and the "[no response]" stand-in is shown never to be needed for local replies. Running out of input ends the session normally; a real `input()` would raise `EOFError`.
- Response numbers are integers. Floats are not modelled, and only their truthiness matters here.
- Engine.LocalEngineStopsIff: assumes every catalog word is non-empty and no catalog text contains "Round complete" or "Stopping the quiz". Otherwise a hint or a served word could end the session early.
- Engine.LocalReplyStopsIff: assumes the same of the catalog, for the same reason.
- Engine.OfflineScoreBound: covers sessions the local engine alone answers. Interpreter calls of `check_spelling` can raise the score without bound.
