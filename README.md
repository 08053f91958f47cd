# Quiz engine of the JavaScript training app, in Dafny

This project models the engine of a small React quiz trainer, `App` in `src/App.jsx`,
together with its static question bank in `src/data/questionBank.js`. The engine has four parts:

- **The answer judge.** `checkAnswer` lower-cases and trims both the learner's answer and the
  correct answer. Multiple-choice and code-completion questions then need an exact match.
  Every other question type accepts an answer that contains the first twenty characters
  of the correct answer.
- **The progress record.** The `stats` object counts visited days, the current streak,
  today's answers, all answers, correct and incorrect answers, and the `reviewLater` id list.
  It has two updaters: the day rollover run on mount, and the bookkeeping of a submitted answer.
- **Question selection.** `selectNewQuestion` works in five steps:
  - it drops the answered ids;
  - it filters by mode;
  - it narrows by topic when that leaves something;
  - it falls back to the whole bank, clearing the history, when nothing is left;
  - it picks `Math.floor(Math.random() * n)`.
- **The session handlers.** These are `startTraining`, `handleSubmitAnswer`,
  `handleSimilarQuestion` and `handleNextQuestion`, plus the two setters the components call
  (`setCurrentMode` from the sidebar, `setUserAnswer` from the answer inputs).

Modules, one file each:

| file | module | what it holds |
|---|---|---|
| `wrappers.dfy` | `Wrappers` | `Option` |
| `js_text.dfy` | `JsText` | `toLowerCase`, `trim`, `substring(0, n)`, `includes` |
| `js_arrays.dfy` | `JsArrays` | `filter` and `[...new Set(xs)]` |
| `question_bank.dfy` | `QuestionBank` | the `Question` record, the three shipped entries, their invariants |
| `judge.dfy` | `Judge` | `checkAnswer` and its laws |
| `progress.dfy` | `Progress` | the `stats` record, the rollover and submit updaters, laws over histories |
| `selection.dfy` | `Selection` | the candidate chain of `selectNewQuestion` as a pure function, and the pick |
| `app.dfy` | `App` | class `Trainer`: the React state of `App` and its handlers as methods |

The pure parts of the source are Dafny functions, and lemmas prove their laws.
`checkAnswer`, the `filter`/`includes` chains and the `setStats` updater callbacks are pure.
The handlers update React state, so they are methods of the class `Trainer`.
The class's fields are the state variables of `App`. Each handler is one atomic update.
Each method's `ensures` gives the complete new state in terms of the pure functions.
`Trainer.Session()` bundles the session fields for that purpose. `Valid()` says the bank is
non-empty and the current question, if any, is one of its entries.

External inputs become parameters:
- `Math.random()` is `rand: real` with `0 <= rand < 1`.
- The date is an integer day number, and "yesterday" is `today - 1`.
- The stored progress record is the constructor's `stored` argument.

Behaviour of the code worth knowing, all of it kept in the model:

- **Mode strings.** Only the literal modes `"easy"`, `"advanced"` and `"review"` filter.
  The sidebar offers `"reviewlater"` and `"mostimportant"`, and those reach the default branch,
  which only drops answered ids. `Selection.ReviewLaterModeOnBank` shows this on the shipped
  bank.
- **The `"review"` branch.** It filters the whole bank by the review list, so it ignores the
  answered history.
- **Exhausted candidates.** When no candidate is left, the code always serves a bank entry,
  drawn from the whole bank rather than the mode's subset. So an empty review list in
  `"review"` mode serves an arbitrary bank question and clears the history
  (`Selection.EmptyReviewListFallsBack`).
  The model returns the reset as `Pick.historyCleared`.
- **Starting.** `startTraining` does not clear the answered history.
- **Similar questions.** `handleSimilarQuestion` selects whenever there is a current
  question, whether or not feedback is showing.
- **A missing current question.** Suppose `currentQuestion` is still `null`. A non-blank
  submit (through `checkAnswer`) and a similar-question request then both throw a `TypeError`
  before any state changes. The model returns `Rejected`, or `ok == false`, and leaves the
  state unchanged.

## Model

| member | source | states |
|---|---|---|
| JsText.IsSpace | src/App.jsx:104-105 | exactly the ECMAScript WhiteSpace and LineTerminator characters that `trim` strips |
| JsText.LowerChar | src/App.jsx:104-105 | each capital `A`–`Z` becomes its own lower-case letter, the result is never a capital, and every other character, in particular whitespace, is unchanged |
| JsText.ToLower | src/App.jsx:104-105 | same length, and each character is lower-cased in place |
| JsText.ToLowerAppend | src/App.jsx:104-105 | lower-casing distributes over concatenation |
| JsText.ToLowerIdempotent | src/App.jsx:104-105 | lower-casing twice is lower-casing once |
| JsText.ToLowerCaseless | src/App.jsx:104-105 | strings equal up to letter case have the same lower-case form |
| JsText.ToLowerKeepsLowerCase | src/App.jsx:104-105 | a string with no capitals is its own lower-case form |
| JsText.TrimStart | src/App.jsx:104-105 | the result is a suffix, everything dropped is whitespace, and the result does not start with whitespace |
| JsText.TrimEnd | src/App.jsx:104-105 | the result is a prefix, everything dropped is whitespace, and the result does not end with whitespace |
| JsText.Trim | src/App.jsx:104-105 | the result is a slice of the input with only whitespace before and after it (with `TrimEnds`, it is the unique such slice) |
| JsText.TrimEnds | src/App.jsx:104-105 | the trimmed string is empty or starts and ends with a non-whitespace character |
| JsText.TrimEmptyIffAllSpace | src/App.jsx:84 | `!s.trim()` holds exactly when every character is whitespace |
| JsText.AllSpaceTrimStart | src/App.jsx:84 | an all-whitespace string trims to empty at the front |
| JsText.TrimStartSkipsSpace | src/App.jsx:104-105 | leading whitespace does not change the front-trimmed result |
| JsText.TrimEndSkipsSpace | src/App.jsx:104-105 | trailing whitespace does not change the end-trimmed result |
| JsText.TrimStartAppend | src/App.jsx:104-105 | front-trimming a string that is not all whitespace commutes with appending |
| JsText.TrimPadded | src/App.jsx:104-105 | surrounding whitespace never changes what `trim` returns |
| JsText.TrimKeepsCore | src/App.jsx:104-105 | a non-empty string with non-whitespace ends is its own trim |
| JsText.TrimKeepsInterior | src/App.jsx:104-105 | a stretch with non-whitespace ends survives trimming as a substring |
| JsText.TrimOfEmbedded | src/App.jsx:104-112 | the trimmed form of a piece of `x + c + y` occurs in the trimmed whole |
| JsText.Prefix | src/App.jsx:112 | `substring(0, n)` has length `min(n, len)` and is a prefix |
| JsText.Contains | src/App.jsx:112 | `includes` holds exactly when the string occurs at some offset |
| JsText.ContainsPrefix | src/App.jsx:112 | any prefix of an occurring string occurs too |
| JsText.ContainsSelf | src/App.jsx:112 | every string contains itself |
| JsText.ContainsEmpty | src/App.jsx:112 | every string contains the empty string |
| JsArrays.Filter | src/App.jsx:55-66 | no longer than the input; an element is kept exactly when it is in the input and passes |
| JsArrays.FilterNone | src/App.jsx:55-66 | when nothing passes the result is empty |
| JsArrays.FilterAll | src/App.jsx:55-66 | when everything passes the result is the input |
| JsArrays.FilterSingle | src/App.jsx:65-68 | on a duplicate-free list that only `x` passes, the result is `[x]` |
| JsArrays.FilterAppend | src/App.jsx:55-66 | filtering distributes over concatenation |
| JsArrays.FilterIsSubsequence | src/App.jsx:98 | the kept elements keep their relative order |
| JsArrays.FilterKeepsNoDuplicates | src/App.jsx:98 | filtering a duplicate-free list leaves it duplicate-free |
| JsArrays.Distinct | src/App.jsx:99 | `[...new Set(xs)]` has no duplicates, the same members, and leaves a duplicate-free list as it is |
| JsArrays.DistinctAppend | src/App.jsx:99 | de-duplicating a duplicate-free list plus `x` gives the list, with `x` appended only when it was absent |
| QuestionBank.Bank | src/data/questionBank.js:1-47 | the three entries in source order, every field as written; `BankInvariants` states their invariants |
| QuestionBank.BankInvariants | src/data/questionBank.js:1-47 | the bank is non-empty with distinct ids, topics and entries; each multiple-choice entry lists options including its answer; the code-completion entry (id 3) has no options; difficulties are easy or advanced |
| QuestionBank.TopicDeterminesEntry | src/data/questionBank.js:7-38 | with unique topics, a topic names at most one entry |
| Judge.CheckAnswer | src/App.jsx:103-114 | an answer with the correct answer's normal form is right for every type, and for multiple-choice and code-completion nothing else is; `ExactTypesMatchNormalized` and `LenientTypesMatchPrefix` give each branch exactly |
| Judge.Normalize | src/App.jsx:104-105 | the normal form is a slice of the lower-cased input with only whitespace around it |
| Judge.NormalizePlain | src/App.jsx:104-105 | a non-empty string without capitals or surrounding whitespace is its own normal form |
| Judge.ExactTypesMatchNormalized | src/App.jsx:107-110 | multiple-choice and code-completion answers are right exactly when the normal forms are equal |
| Judge.LenientTypesMatchPrefix | src/App.jsx:111-113 | other types are right exactly when the first `min(20, len)` normalised characters of the correct answer occur in the normalised answer |
| Judge.AcceptsCorrectAnswer | src/App.jsx:103-114 | the correct answer itself is accepted for every type |
| Judge.AcceptsPaddedCaseVariant | src/App.jsx:103-110 | an answer equal to the correct one up to case, with any whitespace padding, is accepted |
| Judge.LenientAcceptsContainingAnswer | src/App.jsx:111-113 | a lenient-type answer containing the whole normalised correct answer is accepted |
| Judge.LenientAcceptsSurroundedAnswer | src/App.jsx:104-113 | a lenient-type answer that embeds the correct answer between any text is accepted |
| Judge.ExactRejectsOtherPlainAnswer | src/App.jsx:107-110 | an exact-type question rejects a different plain answer |
| Judge.MultipleChoiceExample | src/App.jsx:103-108 | `" LET "` is accepted for question 1, whose answer is `"let"` |
| Judge.WrongChoiceExample | src/App.jsx:107-108 | `"var"` is rejected when the answer is `"let"` |
| Judge.CodeCompletionExample | src/App.jsx:109-110 | `" USESTATE "` is accepted when the answer is `"useState"` |
| Judge.FreeTextExample | src/App.jsx:111-113 | a free-text answer embedding the correct sentence is accepted |
| Progress.InitialStats | src/App.jsx:20-29 | the default record is consistent, dated today, with one visited day, a streak of 1, nothing answered and an empty review list |
| Progress.Rollover | src/App.jsx:32-47 | dates the record today, keeps the answer counts and the review list, and keeps consistency |
| Progress.StreakLaw | src/App.jsx:34-45 | same day: unchanged; otherwise one more visited day, today's count zero, and the streak grows by one after yesterday and restarts at 1 after any other day |
| Progress.RolloverIdempotent | src/App.jsx:34 | a second rollover on the same day changes nothing |
| Progress.ConsecutiveVisits | src/App.jsx:37-44 | visiting on `k` consecutive days raises the streak and the visited days by `k` |
| Progress.UpdateReview | src/App.jsx:97-99 | the id is on the new list exactly when the answer was wrong; other ids keep their membership; a duplicate-free list stays so, and after a wrong answer the list never has duplicates |
| Progress.CorrectAnswerKeepsOthers | src/App.jsx:98 | after a correct answer the list is a subsequence of the old one, holding every other id as often as before |
| Progress.IncorrectAnswerAppends | src/App.jsx:99 | after a wrong answer a duplicate-free list is unchanged if it held the id, and gets the id appended otherwise |
| Progress.Record | src/App.jsx:91-100 | today's and the total count rise by one, exactly one of correct/incorrect rises, days, streak and date stay, the review list is `UpdateReview`'s, and consistency is kept |
| Progress.ReviewQueueLaw | src/App.jsx:97-99 | over a history of answers an id is on the list exactly when its latest answer was wrong, or, never answered, when it was on it at the start |
| Progress.ReplayCounts | src/App.jsx:91-96 | a history of answers adds its length to the total and its correct answers to the correct count, and keeps consistency |
| Selection.PickIndex | src/App.jsx:77 | `Math.floor(rand * n)` is an index below `n` |
| Selection.PickIndexUniform | src/App.jsx:77 | index `i` is picked exactly for `rand` in `[i/n, (i+1)/n)` |
| Selection.PickIndexAt | src/App.jsx:77 | `rand = i/n` is in range and picks index `i` |
| Selection.Unanswered | src/App.jsx:55 | exactly the bank entries whose id is not in the history |
| Selection.ModeFiltered | src/App.jsx:55-63 | only bank entries; on the review list in `"review"` mode, unanswered in every other mode; `ModeFilterMembership` gives each mode exactly |
| Selection.HasTopic | src/App.jsx:65 | the JavaScript truthiness of `similarTopic`: present and non-empty; `TopicNarrowing` states what it switches on |
| Selection.Narrowed | src/App.jsx:65-70 | only candidates survive, and the list is empty exactly when the candidates were; `TopicNarrowing` gives the rest |
| Selection.Available | src/App.jsx:55-70 | only bank entries, and empty exactly when the mode step leaves nothing, whatever the topic |
| Selection.Select | src/App.jsx:54-78 | the pick is a bank entry; the history is reset exactly when no candidate is left, and otherwise the pick is a candidate; `CandidateIsPicked` and `ExhaustedFallsBackToBank` show that every candidate, or every bank entry after a reset, can be served |
| Selection.ModeFilterMembership | src/App.jsx:55-63 | what each mode admits: review ids from the whole bank in `"review"`, otherwise unanswered entries of the mode's difficulty |
| Selection.OtherModesIgnoreFilters | src/App.jsx:55-63 | any other mode string only drops answered ids |
| Selection.TopicNarrowing | src/App.jsx:65-70 | a topic keeps exactly its questions when there are any, and leaves the candidates alone otherwise or when absent or empty |
| Selection.DifficultyModePick | src/App.jsx:55-60 | in easy or advanced mode, while an unanswered entry of that difficulty is left, the pick has the difficulty, is unanswered, and the history stays |
| Selection.ReviewModePick | src/App.jsx:61-62 | in `"review"` mode, while a review id is in the bank, the pick is on the review list whatever the history |
| Selection.CandidateIsPicked | src/App.jsx:72-77 | while candidates remain, `rand = k/n` serves the `k`-th candidate without a reset, so every candidate can be served |
| Selection.ExhaustedFallsBackToBank | src/App.jsx:72-77 | with no candidate left every bank entry can be picked and the history is reset |
| Selection.EmptyReviewListFallsBack | src/App.jsx:61-75 | `"review"` mode with an empty review list always resets the history |
| Selection.SingleQuestionBank | src/App.jsx:54-78 | in `"random"` mode a one-entry bank always serves that entry, resetting the history exactly when it was answered |
| Selection.UniqueTopicNarrowing | src/App.jsx:65-70 | with unique topics, over a duplicate-free candidate list drawn from the bank, the narrowing to `q`'s topic yields `[q]` when `q` is a candidate and is dropped otherwise |
| Selection.TwoQuestionEasyExample | src/App.jsx:55-58 | easy mode over one easy and one advanced entry serves the easy one |
| Selection.EasyModeOnBank | src/App.jsx:57-58 | on the shipped bank with no history, easy mode picks id 1 or 3 |
| Selection.AdvancedModeOnBank | src/App.jsx:59-60 | on the shipped bank with no history, advanced mode picks id 2 |
| Selection.AdvancedModePickShaped | src/App.jsx:59-60 | on any bank shaped like the shipped one, advanced mode with no history serves the advanced entry without a reset |
| Selection.ReviewLaterModeOnBank | src/App.jsx:61-63 | on the shipped bank with only id 2 flagged and `rand = 0`, `"reviewlater"` still serves id 1 (`OtherModesIgnoreFilters` gives the general fact) |
| Selection.SimilarTopicPick | src/App.jsx:65-70 | on a duplicate-free bank with unique topics, asking for `q`'s topic serves `q` alone when the mode step admits it and is ignored otherwise |
| Selection.SimilarTopicOnBank | src/App.jsx:65-70 | on the shipped bank a similar-question request serves `q` again when the mode admits it, and otherwise ignores the topic |
| Selection.EasyCandidatesFresh | src/App.jsx:55-58 | easy mode with no history offers ids 1 and 3 in bank order |
| Selection.EasyCandidatesAfterFirst | src/App.jsx:55-58 | easy mode after id 1 offers only id 3 |
| Selection.EasyCandidatesAfterBoth | src/App.jsx:55-58 | easy mode after ids 1 and 3 offers nothing |
| Selection.EasyCandidatesOnBank | src/App.jsx:55-58 | the three facts above on the shipped bank |
| Selection.EasySequenceOnBank | src/App.jsx:54-78 | with `rand = 0` easy mode serves id 1, then id 3 (also when asking for id 1's topic), then id 1 again with the history reset |
| Selection.EasySequenceShaped | src/App.jsx:54-78 | the same three picks on any bank shaped like the shipped one with unique topics |
| App.Trainer.constructor | src/App.jsx:11-29 | starts on the welcome screen in random mode with no question, an empty draft, no feedback and no history |
| App.Trainer.CheckStreak | src/App.jsx:32-47 | the record becomes its rollover to today; the session is unchanged |
| App.Trainer.ChooseMode | src/components/Sidebar.jsx:26 | only the mode changes |
| App.Trainer.TypeAnswer | src/components/TrainingScreen.jsx:65 | only the draft answer changes |
| App.Trainer.SelectNewQuestion | src/App.jsx:54-81 | serves `Select`'s pick, clears the draft and the feedback, empties the history exactly on reset, and leaves the rest alone |
| App.Trainer.StartTraining | src/App.jsx:49-52 | selects as above with no topic and switches to the training screen |
| App.Trainer.HandleSubmitAnswer | src/App.jsx:83-101 | a blank answer changes nothing; a missing question is rejected with nothing changed; otherwise the verdict is `CheckAnswer`'s, feedback shows it, the id is appended to the history and the record is `Record`'s update |
| App.Trainer.ShowVerdict | src/App.jsx:87-100 | the judged branch: feedback, history append and record update, nothing else |
| App.Trainer.HandleSimilarQuestion | src/App.jsx:116-118 | with a current question, selects narrowed to its topic; without one, fails with nothing changed |
| App.Trainer.HandleNextQuestion | src/App.jsx:120-122 | selects as above with no topic |

`App.Walkthrough` strings a session over a one-entry bank through the handlers' contracts alone:
- a visit on the next day raises the streak to 2;
- training starts on the entry;
- the correct answer is judged right and recorded;
- the next question resets the exhausted history.

## Left out

- Rendering, styling and the view components. Their only logic is conditional display.
- The theme toggle and its DOM class side effect (`src/App.jsx:124-131`): browser I/O.
- `sidebarOpen`: a display flag.
- Persistence through `useLocalStorage`. The hook is not part of this model. The stored
  record is a constructor argument, and writes are not modelled.
- React's asynchronous state batching. Each handler is one atomic update.
- The sidebar's extra `selectNewQuestion` on a mode change during training
  (`src/components/Sidebar.jsx:26-29`). Through a stale closure that call still sees the
  previous `currentMode`, so it selects under the old mode. `Trainer.ChooseMode` only sets the
  mode; calling `SelectNewQuestion` after it would select under the new mode, which is not
  what the source does.
- The accuracy percentage in the sidebar: floating-point division and rounding.
- `motivationalQuotes` and the random quote on the welcome screen: display strings.
- `toDateString()` formatting. Dates are day numbers.
- Selection.PickIndex: `rand * n` is exact real arithmetic. The model does not capture the
  rounding of the double product.
- JsText.ToLower: lower-cases ASCII `A`–`Z` only. The model does not capture Unicode case
  mapping, including mappings that change the length.
- JsText.Prefix: a Dafny `char` is a Unicode scalar value. The model does not capture
  `substring`'s UTF-16 code units, which differ only outside the Basic Multilingual Plane.
- The `question`, `explanation`, `analogy` and `teachingTip` texts are carried as data. No
  operation of the engine reads them.
