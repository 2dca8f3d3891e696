# MBTI quiz engine — a Dafny model

This project models the engine of a single-page MBTI-style personality quiz.
The page asks a fixed bank of forced-choice questions. Each question probes one
of four dichotomies (EI, SN, TF, JP) and offers options "A" and "B". The engine
keeps three pieces of state: the current question index, the answer map (question
id to "A"/"B") and a flag that says whether the results are showing. From that
state it derives the following values on every read:

- a tally of the eight letters, folded over the bank;
- the four-letter type, present only once every question is answered, with ties
  going to E, S, T and J;
- a percentage split for each dichotomy;
- a progress percentage capped at 100;
- the profile looked up for the type.

Five handlers change the state: select an option, next, back, jump to a question,
and reset.

Files:

- `QuizData.dfy` (module `QuizData`): letters, dichotomies, answer values, the
  letter table, the sixteen type codes and the abstract question bank. The bank is
  a non-empty sequence of `(id, dimension)` with distinct ids.
- `Scoring.dfy` (module `Scoring`): the pure part. It holds the tally fold, the
  resolved type, the rounding, the percentage split, the progress and the profile
  lookup, together with the lemmas about them.
- `Navigation.dfy` (module `Navigation`): class `Quiz`, which holds the three
  state fields. Its methods are the five handlers.

`Math.round` is modelled exactly, in integers, as rounding half up. `Round(x, d)` is
the integer `r` with `d(2r-1) <= 2x < d(2r+1)`.

## Model

| member | source | states |
|---|---|---|
| `QuizData.LetterFor` | app/src/app/page.tsx:23-31 | option A maps to the first letter of its dichotomy and option B to the second, and that letter is the one the results panel shows on that side of the axis (the `left.code` / `right.code` pairs of `dichotomyMeta`) |
| `QuizData.LetterForInjective` | app/src/app/page.tsx:23-31 | no two (dichotomy, answer) entries of the letter table share a letter |
| `QuizData.LetterForCovers` | app/src/app/page.tsx:23-31 | each of the eight letters is an entry of the letter table |
| `QuizData.MbtiTypesAreTheSixteen` | app/src/app/page.tsx:93-100 | a string is a four-letter code (one letter of each pair, in axis order) exactly when it is one of the sixteen type keys |
| `Scoring.Tally.Bump` | app/src/app/page.tsx:82-83 | recording a vote adds exactly 1 to that letter and leaves the other seven counts unchanged |
| `Scoring.Tallied` | app/src/app/page.tsx:76-85 | the reduce from any accumulator adds, for each letter, the number of answered questions whose answer maps to that letter; an unanswered question adds nothing |
| `Scoring.Scores` | app/src/app/page.tsx:75-86 | starting from the zero tally, each letter's count is the number of answered questions whose answer maps to it through the letter table |
| `Scoring.AxisCountsAnswered` | app/src/app/page.tsx:75-86 | for every axis, left count plus right count equals the number of answered questions on that axis |
| `Scoring.AnsweredByAxis` | app/src/app/page.tsx:76-85 | the answered questions on the four axes add up to all answered questions |
| `Scoring.CountsSumToAnswered` | app/src/app/page.tsx:75-86 | the eight counts of the tally add up to the number of answered questions: each answer adds exactly one vote |
| `Scoring.AnsweredAmongBound` | app/src/app/page.tsx:66 | the number of answered questions never exceeds the bank size, and it reaches it exactly when every question is answered |
| `Scoring.AnswerCountMeansComplete` | app/src/app/page.tsx:66 | when every answer key is a question id of a bank with distinct ids, the number of answer keys is the number of answered questions; it is at most the bank size, and it equals the bank size exactly when every question is answered |
| `Scoring.SelectReflectsLatest` | app/src/app/page.tsx:117-119 | after selecting `v` for `q`, each count is the count without `q`'s answer plus one for the letter `v` maps to on `q`'s axis, so only the latest choice counts |
| `Scoring.PersonalityType` | app/src/app/page.tsx:88-101 | the type is absent exactly when the answer count differs from the bank size; when present it is one letter of each pair in axis order, and each position holds the first letter exactly when that letter's count is `>=` the second's (ties give E/S/T/J) |
| `Scoring.TypeDefinedIffComplete` | app/src/app/page.tsx:88-91 | for answers keyed by the bank's ids, the type is present exactly when every question of the bank has an answer |
| `Scoring.ResolvedTypeIsAProfileKey` | app/src/app/page.tsx:100-105 | every resolved type is one of the sixteen keys of the profile table |
| `Scoring.AllAYieldsESTJ` | app/src/app/page.tsx:93-100 | answering "A" on every question of a bank with distinct ids yields `ESTJ` |
| `Scoring.AllBYieldsINFP` | app/src/app/page.tsx:93-100 | answering "B" on every question yields `INFP`, provided every axis has at least one question |
| `Scoring.NoAnswers` | app/src/app/page.tsx:107-115 | with no answers every count is zero, every split is 0% / 0% and the type is absent |
| `Scoring.Round` | app/src/app/page.tsx:112-113 | `x/d` rounded half up: the result `r` satisfies `r - 1/2 <= x/d < r + 1/2` |
| `Scoring.RoundMonotone` | app/src/app/page.tsx:112-113 | rounding preserves order |
| `Scoring.Percent` | app/src/app/page.tsx:112-113 | `100x/d` rounded half up; at most 100 when `x <= d`, at least 100 when `x >= d` |
| `Scoring.SplitSum` | app/src/app/page.tsx:110-114 | the two independently rounded sides of a non-empty axis add up to 100 or 101 |
| `Scoring.PercentageFor` | app/src/app/page.tsx:107-115 | 0 / 0 when the axis has no votes; otherwise each side is its share of the axis total rounded half up, both lie in [0, 100], they sum to 100 or 101, and the side with the larger or equal count gets the larger or equal percentage |
| `Scoring.Progress` | app/src/app/page.tsx:67 | progress lies in [0, 100]; it is 0 with no answers, 100 once the answers reach the total, and otherwise the answered share rounded half up |
| `Scoring.ProfileFor` | app/src/app/page.tsx:103-105 | a profile is returned exactly when a type is present and is a key of the table, and it is that key's entry; with a table that covers the sixteen types, every four-letter code finds a profile |
| `Scoring.ProfileShownIffTyped` | app/src/app/page.tsx:103-105 | with a table that covers the sixteen types, a profile is shown exactly when a type is resolved |
| `Navigation.Quiz.constructor` | app/src/app/page.tsx:61-63 | the initial state: index 0, no answers, results hidden |
| `Navigation.Quiz.CurrentQuestion` | app/src/app/page.tsx:69-70 | there is no current question while the results show; otherwise it is `bank[currentIndex]`, which the invariant keeps inside the bank |
| `Navigation.Quiz.SelectedValue` | app/src/app/page.tsx:71-73 | the selected value is present exactly when a question is on screen and has an answer, and it is that answer; `Select` on the question on screen makes the picked option the selected value |
| `Navigation.Quiz.SessionProgress` | app/src/app/page.tsx:65-67 | given the session invariant the cap at 100 never acts: progress is exactly the answered share rounded half up; it is 0 with no answers and 100 once every question is answered |
| `Navigation.Quiz.Select` | app/src/app/page.tsx:117-119 | sets `responses[q.id] := v` and keeps every other entry, the index and the results flag; re-selecting the recorded value changes nothing; picking an option on the question on screen makes it that question's selected value (what enables Continue, page.tsx:254); the tally then counts only the latest choice for `q` |
| `Navigation.Quiz.Next` | app/src/app/page.tsx:121-127 | on the last index it shows the results and keeps the index; otherwise the index goes up by one (the `min` with the last index never binds) and the flag stays; the answers stay; the index stays in range |
| `Navigation.Quiz.Back` | app/src/app/page.tsx:129-131 | the index goes down by one, or stays at 0; the answers and the flag stay |
| `Navigation.Quiz.Navigate` | app/src/app/page.tsx:133-136 | the index becomes exactly `index`, the results are hidden and the answers stay |
| `Navigation.Quiz.Reset` | app/src/app/page.tsx:138-142 | the answers are emptied, the index is 0 and the results are hidden; the type is then absent, the progress is 0 and every count is 0 |

Three behaviours of the code worth noting:

- `handleNext` and `handleBack` do not look at the results flag. Back keeps the flag as it is. Next on the last index sets the flag even if it is already set.
- `handleNavigate` does not clamp its index. The model requires an in-range index, because all three callers pass one (app/src/app/page.tsx:215, 378, 403).
- Answering "B" everywhere yields INFP only when every axis has at least one question. On an axis with no question both counts are 0, and the tie gives the first letter. `AllBYieldsINFP` states this hypothesis.

## Left out

- Rendering is not modelled: the JSX, the styling, the dichotomy labels and descriptions of `dichotomyMeta` (only its letter codes are modelled, as `QuizData.DisplayCodes`), the progress bar width and the highlighting of the active letter (app/src/app/page.tsx:33-58, 144-520). They are presentation only.
- The button guards are not modelled. Back is disabled at index 0 and Next until the current question has an answer. These are checks in the UI, not engine behaviour, and the handlers are modelled without them.
- app/src/app/layout.tsx is not part of this model. It holds metadata, font loading and the HTML shell, with no logic.
- The question bank and the profile table come from `../data/questions` and `../data/mbti`, which are not part of this model. The bank is a parameter: any non-empty sequence of `(id, dimension)` with distinct ids. The profile table is any map whose keys cover the sixteen type codes.
- `useMemo` caching and React's state setters are not modelled. Each derived value is a plain function of the current state, and each handler updates its fields at once.
- `Math.round` on floating point is not modelled. The model rounds exactly, half up. On the floating-point value `(x / d) * 100` the result can differ when that value lands within rounding error of a .5 boundary.
- Scoring.Progress: the model requires a non-empty bank. With an empty bank the source would divide by zero and show NaN, but the bank is static and not empty.
- JavaScript object keys are strings. The model keys answers by integer id. The count of keys is the same.
