# Geography quiz: verified model of the scoring core and the answer loop

A Dafny model of a four-option multiple-choice quiz that runs on the command line.
It covers the pure quiz logic (`isValidChoice`, `checkAnswer`, `calculateScore`,
`getPercentage`, `printQuestion`), the question record types, and the interactive run
(`runQuiz`). The run reads lines until one is a valid letter, scores it, and reports a
percentage at the end. The model also covers the entry-point script's hard-coded bank of
ten questions, its copy of the answer gate (`isCheckId`) and its older copy of the loop
(`main`).

Modules, one per source file, plus `Text` for the string primitives:

- `Types` (`types.dfy`, src/types.ts): `ChoiceId` is a closed four-constructor datatype.
  `Option` and `Question` are records. `WellFormed` is what the question banks promise
  beyond the record type.
- `Text` (`text.dfy`): `trim` and `toUpperCase` restricted to ASCII, and decimal rendering.
- `QuizLogic` (`quiz_logic.dfy`, src/quizLogic.ts): the gate, the correctness check, the
  score as a left fold, the rounded percentage and question rendering.
- `Cli` (`cli.dfy`, src/cli.ts): `runQuiz` as a pure function `Run(quiz, lines)` over a
  finite sequence of input lines.
- `Bank` (`bank.dfy`, src/index.ts): the `QUESTIONS` constant, `isCheckId`, and the `main`
  loop as an imperative method with loop invariants.

Every operation has a partner that it is proved against:
- the score is proved equal to a count of matching positions (`MatchIndices`);
- the run's answers are proved to be the letters of the accepted lines (`Accepted`), in
  order;
- `main`'s loop is proved to keep the same score as `Run`;
- the percentage is proved to be the unique integer the rounding condition picks.

Two edge cases of the code, which the model reproduces:
- `calculateScore` runs `reduce` over the answers and reads `questions[index].correct`
  (src/quizLogic.ts:22-24). An answer list longer than the question list therefore throws
  a TypeError when it reads past the last question. The mismatched-length test at
  src/test/integration.test.ts:162-167 tries only a shorter answer list. `CalculateScore`
  requires `|answers| <= |questions|`, and `ScoreOrThrow` models the throw.
- `getPercentage(0, 0)` computes `Math.round(0 / 0 * 100)`, which is NaN
  (src/quizLogic.ts:27-29). `Run` reports `NotANumber` for an empty quiz.

## Model

| member | source | states |
|---|---|---|
| Types.LetterStringInjective | src/types.ts:1 | the four letters are spelled differently and every ChoiceId is one of A, B, C, D |
| Types.CoverageImpliesDistinct | src/test/integration.test.ts:80-95 | four options that cover all four letters repeat none, so each id appears once |
| Types.CorrectLabelsOneOption | src/types.ts:8-13 | when option ids are distinct and include the correct letter, as in every well-formed question, the correct letter labels exactly one option |
| Text.Trim | src/cli.ts:35 | the result is the infix of the line after its leading whitespace; everything cut off is whitespace; the result neither starts nor ends with whitespace; it is empty exactly for an all-blank line |
| Text.TrimUnique | src/cli.ts:35 | any non-blank infix with only whitespace around it is what trim returns |
| Text.TrimIdempotent | src/cli.ts:35 | trimming twice is trimming once |
| Text.TrimIgnoresPadding | src/cli.ts:35 | whitespace added on either side does not change the trimmed text |
| Text.Upper | src/quizLogic.ts:11 | upper-casing keeps the length and maps each character to its ASCII capital |
| Text.UpperTrimCommute | src/cli.ts:35 | trimming and upper-casing commute, so `trim().toUpperCase()` gives the same text in either order |
| Text.UpperIdempotent | src/cli.ts:35 | upper-casing an upper-cased string changes nothing, so the gate's own upper-casing is harmless after the caller's |
| Text.DecimalRoundTrip | src/quizLogic.ts:4 | the numeral rendered into a header reads back as the number |
| QuizLogic.IsValidChoiceExactly | src/quizLogic.ts:10-12 | the gate accepts exactly "A".."D" and "a".."d", and every accepted string has length 1, so no trimming happens inside it |
| QuizLogic.IsValidChoiceCases | src/test/quizLogic.test.ts:30-42 | A to D and a, d pass; "E", "1", "", "AB" and " A " are refused |
| QuizLogic.GuardAdmitsNonChoice | src/quizLogic.ts:10-12 | "a" passes the gate declared as `userInput is ChoiceId` but is not a ChoiceId literal |
| QuizLogic.ParseChoice | src/quizLogic.ts:10-12 | a string yields a ChoiceId exactly when it passes the gate, and the ChoiceId's literal is the upper-cased string |
| QuizLogic.ParseLetterRoundTrip | src/test/integration.test.ts:30-33 | a letter's own literal, in either case, passes the gate and parses back to that letter |
| QuizLogic.ExactlyOneChoiceAccepted | src/quizLogic.ts:14-16 | of the four letters, exactly the question's correct one is accepted |
| QuizLogic.CalculateScore | src/quizLogic.ts:18-25 | needs no more answers than questions, because the source throws past the end; the score is between 0 and the number of answers |
| QuizLogic.ScoreCountsMatches | src/quizLogic.ts:22-24 | the score equals the number of positions whose answer is the question's correct letter |
| QuizLogic.ScoreAppend | src/quizLogic.ts:22-24 | scoring one more answer adds 1 exactly when it is correct |
| QuizLogic.ScoreIgnoresLaterQuestions | src/quizLogic.ts:22-24 | appending questions leaves the score unchanged |
| QuizLogic.ScoreExtremes | src/test/quizLogic.test.ts:88-102 | full marks exactly when every answer is correct; 0 exactly when every answer is wrong |
| QuizLogic.ScoreCases | src/test/quizLogic.test.ts:81-117 | the unit tests' cases: all correct 4, all wrong 0, mixed 2, empty 0 |
| QuizLogic.ScoreOrThrow | src/quizLogic.ts:22-24 | a call completes exactly when there are no more answers than questions, and then returns the matching count; otherwise it throws |
| QuizLogic.GetPercentage | src/quizLogic.ts:27-29 | for a positive total, the result is the integer nearest 100·score/total, the upper one on a tie |
| QuizLogic.PercentageUnique | src/quizLogic.ts:28 | only one integer meets the rounding condition |
| QuizLogic.PercentageRange | src/quizLogic.ts:27-29 | for 0 ≤ score ≤ total the percentage is in [0, 100]: 0 for score 0 and 100 for full marks |
| QuizLogic.PercentageMonotone | src/quizLogic.ts:27-29 | a higher score never gives a lower percentage |
| QuizLogic.PercentageCases | src/test/quizLogic.test.ts:126-131 | 10/10 is 100, 0/10 is 0, 5/10 is 50, 7/10 is 70, 3/10 is 30, 1/3 is 33 |
| QuizLogic.RenderQuestion | src/quizLogic.ts:3-8 | `printQuestion` as the lines it logs: a header, then one line per option in display order, each made of that option's letter, ": " and the option's text (the header's layout is stated by `RenderedHeaderShowsNumber`) |
| QuizLogic.OptionLine | src/quizLogic.ts:5-7 | an option line is its letter, then ": ", then exactly the option's text |
| QuizLogic.RenderedHeaderShowsNumber | src/quizLogic.ts:4 | the header is a newline and "Q", the 1-based question number, "/", the question count, ": " and the prompt, with nothing else; both numbers read back as the values they render |
| QuizLogic.RenderedOptionsCoverLetters | src/quizLogic.ts:3-8 | a question whose four options cover A to D, as every well-formed one does, renders as five lines, and each letter labels one of them |
| Cli.AcceptLine | src/cli.ts:35-40 | one answer line: trimmed, upper-cased, gated and cast to a ChoiceId; its behaviour is stated by `Cli.AcceptLineSound` |
| Cli.AcceptLineSound | src/cli.ts:35-40 | a line is accepted exactly when its trimmed, upper-cased form passes the gate; the ChoiceId it is cast to has that form as its literal |
| Cli.AcceptLineIgnoresPadding | src/cli.ts:35 | whitespace around a line never changes whether it is accepted or which letter it gives |
| Cli.AcceptLineOfLetter | src/cli.ts:35-36 | a letter typed alone, upper or lower case, is accepted as that letter |
| Cli.PaddedLowercaseAccepted | src/cli.ts:35 | a lower-case letter padded with whitespace, such as " b ", is accepted as the upper-case letter |
| Cli.ReadAnswer | src/cli.ts:33-38 | the retry loop: it consumes the rejected lines and the accepted one, and reading resumes right after the accepted line; which line is taken is stated by `Cli.ReadAnswerFindsFirstAccepted` |
| Cli.ReadAnswerFindsFirstAccepted | src/cli.ts:33-38 | the line the retry loop takes is the first accepted one, every line before it was rejected, and input runs dry exactly when no line is accepted |
| Cli.ReadAnswerSkipsRejected | src/cli.ts:34-38 | a rejected line costs exactly one retry and changes nothing else |
| Cli.ReadAnswerAppend | src/cli.ts:33-38 | once some lines hold an accepted one, lines typed after them do not change the answer read, only what is left to read |
| Cli.ReadAnswerPastExhausted | src/cli.ts:33-38 | lines that are all rejected are read past as if they were not there: the same answer and the same remaining lines |
| Cli.OneRetry | src/cli.ts:34-38 | "E" then "b" gives B after one retry |
| Cli.Loop | src/cli.ts:27-49 | the running score always equals the score of the answers so far and never exceeds the questions asked; the loop finishes exactly when every question has an answer |
| Cli.LoopStep | src/cli.ts:29-47 | one turn answers question number \|answers\| and keeps the score equal to the score of the answers |
| Cli.LoopTakesAccepted | src/cli.ts:29-49 | from any point, the loop records the next accepted letters in order, as many as questions remain |
| Cli.Run | src/cli.ts:21-57 | score = calculateScore(answers, quiz) ≤ \|answers\| ≤ \|quiz\|; it finishes exactly with \|quiz\| answers; the final percentage is the rounded score/total in [0, 100], or NaN for an empty quiz |
| Cli.RunAnswersAreAccepted | src/cli.ts:29-49 | questions are answered once each, in order, by the accepted lines; the run finishes exactly when there are enough accepted lines; the score is the score of those lines |
| Cli.RejectedLineIgnored | src/cli.ts:29-49 | a rejected line typed while any question is still waiting (fewer accepted lines before it than questions) leaves the whole run unchanged: same answers, score, remaining lines and percentage |
| Cli.LoopDropsRejected | src/cli.ts:29-49 | from any point of the loop, a rejected line typed before the last question is answered leaves where the loop stops unchanged |
| Cli.AllCorrectRun | src/cli.ts:42-53 | typing every correct letter finishes with score = \|quiz\| and percentage 100 |
| Bank.BankShape | src/index.ts:18-134 | the bank holds 10 questions with correct letters C,A,A,B,C,B,C,B,D,B |
| Bank.BankWellFormed | src/index.ts:18-134 | every bank question has options A to D once each, its correct letter among them and no blank option text |
| Bank.BankPromptsDistinct | src/index.ts:18-134 | no prompt appears twice |
| Bank.IsCheckIdIsValidChoice | src/index.ts:153-155 | the script's copy of the gate accepts exactly what `isValidChoice` accepts |
| Bank.StringComparisonIsCheckAnswer | src/index.ts:177 | comparing the normalised answer string with the correct letter decides the same as `checkAnswer` on the accepted letter |
| Bank.MainLoop | src/index.ts:163-188 | the older loop finishes exactly when there is an accepted line for every question; its score never exceeds the bank size and equals the score `runQuiz` computes from the same lines |
| Bank.AnswerKeyScoresFull | src/index.ts:18-134 | the answer key scores 10/10, and typing it runs to score 10 and 100% |

## Left out

- Terminal I/O is not modelled: `readline`, `ask`, `rl.question`, `rl.close` and the `require.main` entry points. Input is a `seq<string>` of lines, and closing the interface has no counterpart.
- Console text is not modelled: the banner, the try-again prompt, the correct/wrong feedback with its emoji, the explanation line and the framed summary. Only `printQuestion` is rendered, as a list of lines. `printQuestions` in src/index.ts:136-139 is a second renderer that differs only in spacing, and it is left out.
- Text.Trim: removes only the six ASCII whitespace characters. ECMAScript's `trim` also removes non-ASCII spaces such as U+00A0 and U+FEFF.
- Text.Upper: upper-cases only ASCII letters. Full Unicode `toUpperCase` can change string length (`ß` becomes `SS`), and that is not modelled.
- QuizLogic.GetPercentage: rounds the exact rational 100·score/total half up, which agrees with every value src/test/quizLogic.test.ts:126-131 asserts. The source rounds the IEEE-754 double `score / total * 100`, which can land just below a .5 tie (57/200, for one). A total of 0 is excluded by the precondition; `Cli.Run` reports that case as `NotANumber`.
- Cli.Run: when the lines run out during a question, the run ends as `OutOfInput`. The source instead waits forever for another line, and endless invalid input never returns.
- Bank.MainLoop: when the lines run out during a question, the loop stops with `finished` false. The script instead waits for another line (src/index.ts:171-175), as `runQuiz` does.
- The `./questions` module that `cli.ts` imports is not part of this model. `Run` takes any question list, and the concrete bank is the `QUESTIONS` constant of src/index.ts.
- The test files and their runner (timing, `process.exit`) are not modelled. Their assertions appear above as lemmas.

## Findings

| source | as written | input that shows it | evidently intended | confidence | as-written member | corrected member |
|---|---|---|---|---|---|---|
| src/quizLogic.ts:10-12 | `isValidChoice` is declared as the type guard `userInput is ChoiceId` but is case-insensitive, so the guard narrows strings that are not ChoiceId literals | `"a"` passes, and TypeScript then types it as `ChoiceId`, yet it is none of "A", "B", "C", "D" | passing the gate should deliver the ChoiceId the input denotes, which is its upper-cased form | medium (harmless in `runQuiz`, which upper-cases first); not executed | QuizLogic.GuardAdmitsNonChoice | QuizLogic.ParseChoice |
