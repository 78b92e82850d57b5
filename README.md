# Typing challenge: the typing engine, the entry form and the scoreboard

A Dafny model of the logic in a browser typing-speed test with three parts:

- An entry form collects the player's name, email, job title and company.
- A game screen shows a target sentence, colours each character as the player types and keeps live metrics. These are characters per second (cps), per-word accuracy, a live error count and a tally of mistyped words. When the typed text equals the sentence the game ends.
- The finished result is posted to a remote table as a list of cells. A scoreboard folds each fetched record's cells into a map and projects it onto a row. It then sorts the rows by their stored `total`, highest first, and numbers them from 1.

## Modules

- `JsText` (`text.dfy`) states the JavaScript built-ins the code relies on over `seq<char>`:
  - the ECMAScript whitespace class;
  - `trim`;
  - `split(' ')`, which keeps empty pieces;
  - `Math.round` of an exact quotient, as `RoundDiv(n, d) = floor(n / d + 1/2)`.
- `Cells` (`cells.dfy`) is the record shape of the remote table: a cell is a column id and a value, either text or a number.
- `PlayerForm` (`player_form.dfy`) models `src/pages/GameForm.js`:
  - the email pattern `\S+@\S+\.\S+`, as a one-pass matcher proved equal to a position predicate;
  - `validateForm`, as a method that fills an error map;
  - a `FormScreen` class whose `HandleChange` and `HandleSubmit` update the form record and the messages.
- `TypingSession` (`typing_session.dfy`) models `src/pages/TypingGame.js`. The thirteen state fields the handlers compute (twelve `useState` fields and the `previousInputLength` ref) are gathered in a `Snapshot`; the `error`, `snackbarOpen` and `snackbarMessage` fields and the input ref are not.
  - The change handler is the pure transition `AfterInput`. Its live part is `Typed`.
  - The imperative methods `TrackInput` and `InputHandler` run the handler's steps and are proved equal to that transition. The error loop is the method `CountErrors`.
  - The class `Session` holds the fields and commits each transition with `SetState`.
  - `Replay` runs a sequence of input events. Lemmas give what stays true along any run.
- `Leaderboard` (`leaderboard.dfy`) models `src/components/Leaderboard.js`:
  - the `reduce` fold, as a function and a loop;
  - the projection, and the one-row-per-record `map`;
  - the sort, as a stable insertion sort on an array proved equal to a function, with permutation, order and stability lemmas;
  - the rank numbering;
  - the round trip of the record the game screen posts.
- `Scenarios` (`scenarios.dfy`) gives concrete runs: two events giving 0.5 cps, and the one-event lag of accuracy behind the typo tally.

## Modelling decisions

- **Stale closure.** The handler reads `startTime`, `totalCharactersTyped`, `totalTypos` and `targetText` from the render that created it. So every new value in `AfterInput` is computed from the snapshot before the event.
  - The accuracy written by the event that records a typo still uses the old tally (`Scenarios.AccuracyLagsOneEvent`).
  - The final cps uses the count before the completing keystroke.
- **Time.** `Date.now()` is an integer millisecond parameter `now`, one value per event. The model requires `now > 0` and, once the clock runs, `now` later than the start. At `now` equal to the start the speed would divide by zero; at `now` earlier than the start it would come out negative.
- **Speed units.** `cps` is kept in tenths: `DeciCps(count, ms) = RoundDiv(10000 * count, ms)` is `Math.round((count / (ms / 1000)) * 10)`. The posted value is `cps / 10`.
- **Null start.** If the first event already completes the game, `startTime` is still `null` and JavaScript reads it as 0. That is `NullAsZero`. Nothing has been counted yet, so the final cps is 0 (`TypingSession.CompletingFirstEventHasNoSpeed`).
- **Numbers.** Cell numbers are exact reals. The posted time is `(endTime - startTime) / 1000`.
- **Speed of a short run.**
  - One event that enters the whole sentence gives cps 0. In the same handler call it starts the clock and completes the game: the old start is null, so the elapsed time is `now`, and the old keystroke count is 0.
  - Two events, "a" at t and "abc" at t + 2000 ms, give 0.5 (`Scenarios.TwoEventsGiveHalfCharPerSecond`).
  - The final cps uses the keystroke count from before the completing event, because the handler reads a stale closure.

## Model

| member | source | states |
|---|---|---|
| JsText.TrimStartShape | src/pages/GameForm.js:41 | the leading-whitespace half of `trim` keeps a suffix, drops only whitespace and stops at a non-whitespace character |
| JsText.TrimEndShape | src/pages/GameForm.js:41 | the trailing half keeps a prefix, drops only whitespace and stops at a non-whitespace character |
| JsText.TrimIsInfix | src/pages/GameForm.js:41 | `trim` keeps an infix whose outside parts are all whitespace; a non-empty result starts and ends with non-whitespace |
| JsText.TrimEmptyIffBlank | src/pages/GameForm.js:41 | `!s.trim()` holds exactly when every character of `s` is whitespace |
| JsText.Split | src/pages/TypingGame.js:125 | `split(' ')` yields one piece more than there are spaces, so never an empty array |
| JsText.SplitShape | src/pages/TypingGame.js:124 | no piece holds a space, and joining the pieces with spaces gives the input back |
| JsText.SplitAtSpace | src/pages/TypingGame.js:124 | splitting `a + " " + b` splits the two sides independently |
| JsText.SplitJoin | src/pages/TypingGame.js:125 | splitting undoes joining when no piece holds a space |
| JsText.SplitNoSpace | src/pages/TypingGame.js:125 | a string without spaces splits into itself |
| JsText.RoundDivBounds | src/pages/TypingGame.js:109 | `Math.round(n / d)` lies within half a unit of `n / d`, with halves rounding up |
| JsText.RoundDivUnique | src/pages/TypingGame.js:137 | only one integer meets the rounding bounds |
| JsText.RoundDivMonotone | src/pages/TypingGame.js:137 | rounding keeps the order of quotients |
| TypingSession.MismatchesIn | src/pages/TypingGame.js:114-119 | the errors among the first `n` positions number at most `n` |
| TypingSession.Mismatches | src/pages/TypingGame.js:114-119 | the error count is at most the input length |
| TypingSession.CountErrors | src/pages/TypingGame.js:114-120 | the `for` loop returns the number of positions that differ from the target or lie past its end |
| TypingSession.NoMismatchesIn | src/pages/TypingGame.js:115-118 | the count over a prefix is 0 exactly when no position in it differs |
| TypingSession.NoErrorsIffPrefix | src/pages/TypingGame.js:114-120 | the error count is 0 exactly when the input is a prefix of the target |
| TypingSession.CharColors | src/pages/TypingGame.js:276-282 | one colour per target character: default exactly at untyped positions, green exactly where the typed character matches, red otherwise |
| TypingSession.AllGreenIffTyped | src/pages/TypingGame.js:276-282 | the whole sentence is green exactly when the input starts with it |
| TypingSession.MismatchesInColors | src/pages/TypingGame.js:114-119 | the errors among the first `n` positions are the red characters there plus the positions past the target |
| TypingSession.ErrorsAreRedPlusOverflow | src/pages/TypingGame.js:114-120 | the error counter equals the red characters shown plus the typed characters past the end of the target |
| TypingSession.WordPastEndIsTypo | src/pages/TypingGame.js:123-131 | a completed word whose index is past the target's word count is always a typo |
| TypingSession.TrimPlainPrefix | src/pages/TypingGame.js:124-126 | trimming a correct prefix of a plain sentence that ends in a space gives the prefix before a space |
| TypingSession.CorrectPrefixIsNoTypo | src/pages/TypingGame.js:122-132 | typing a plain sentence correctly up to a space never counts a typo |
| TypingSession.AccuracyBounds | src/pages/TypingGame.js:135-137 | accuracy is the percentage of words not counted as typos, rounded |
| TypingSession.AccuracyWithoutTypos | src/pages/TypingGame.js:137 | with no typos the accuracy is 100 |
| TypingSession.AccuracyAntitone | src/pages/TypingGame.js:137 | more typos never raise the accuracy |
| TypingSession.AccuracyInRange | src/pages/TypingGame.js:137 | while typos do not outnumber words, accuracy lies in 0..100 |
| TypingSession.AccuracyNotClamped | src/pages/TypingGame.js:137 | nothing clamps it at 0: one word and two typos give -100 |
| TypingSession.DeciCpsBounds | src/pages/TypingGame.js:108-109 | the speed in tenths is ten times the characters per elapsed second, rounded |
| TypingSession.DeciCpsOfNothing | src/pages/TypingGame.js:145 | with nothing counted the speed is 0 whatever the elapsed time |
| TypingSession.ResultCells | src/pages/TypingGame.js:206-243 | the posted record has nine cells with pairwise distinct column ids |
| TypingSession.InitialIsConsistent | src/pages/TypingGame.js:24-40 | the initial state meets the session invariant |
| TypingSession.InputKeepsConsistent | src/pages/TypingGame.js:90-150 | an input event keeps the invariant: the length ref tracks the input, errors match it, nothing is counted before the clock starts, the game is over exactly when an end time is set and then the input is the sentence, and the start is not after the end |
| TypingSession.CompletingFirstEventHasNoSpeed | src/pages/TypingGame.js:141-146 | when the first event already completes the game, the `null` start reads as 0 and the final cps is 0 |
| TypingSession.EventCountsOneKeystroke | src/pages/TypingGame.js:97-102 | an event adds exactly one to the count when it lengthens the input, however many characters it adds, and none otherwise; the length ref becomes the new length |
| TypingSession.ClockStartsOnce | src/pages/TypingGame.js:104-111 | the clock starts exactly on the first event with some input and is never moved; that event leaves cps alone; later events set cps from the count before the event |
| TypingSession.TypoOnlyOnCompletedWord | src/pages/TypingGame.js:122-132 | the typo tally grows by at most one; it grows exactly when the input ends in a space and its last word differs from the target word at that index |
| TypingSession.AccuracyFromEarlierTypos | src/pages/TypingGame.js:134-138 | the accuracy written is the rounded share computed from the tally before the event, so 100 until an earlier event recorded a typo |
| TypingSession.CompletesExactlyOnTarget | src/pages/TypingGame.js:140-149 | the game ends exactly when the input equals the sentence; that event sets the end time and the results flag, and sets cps from the earlier count and start |
| TypingSession.FinishedIgnoresInput | src/pages/TypingGame.js:91 | once the game is complete, any further events change no field at all |
| TypingSession.ReplayCounters | src/pages/TypingGame.js:90-150 | over any run of events the sentence is fixed, a started clock is never moved, and the typo tally and keystroke count never drop and grow by at most one per event |
| TypingSession.ReplayKeepsConsistent | src/pages/TypingGame.js:90-150 | any run of events keeps the session invariant |
| TypingSession.TrackInput | src/pages/TypingGame.js:93-138 | the live part of the handler, run step by step, equals the live transition; its word check (`CheckCompletedWord`) decides exactly the completed-wrong-word condition |
| TypingSession.InputHandler | src/pages/TypingGame.js:90-150 | the whole handler, run step by step on the render it saw, equals the transition `AfterInput` |
| TypingSession.Session.constructor | src/pages/TypingGame.js:24-40 | a new screen with its sentence is in the initial state and meets the invariant |
| TypingSession.Session.SetState | src/pages/TypingGame.js:94-148 | the queued setter calls take effect together: the state becomes the given snapshot |
| TypingSession.Session.HandleInputChange | src/pages/TypingGame.js:90-150 | the new state is `AfterInput` of the old one, and the invariant is kept |
| TypingSession.Session.Restart | src/pages/TypingGame.js:181-192 | every field returns to its initial value; the sentence is the newly fetched one, or the old one when the fetch failed |
| TypingSession.Session.SubmissionCells | src/pages/TypingGame.js:197-243 | the posted cells, with time as end minus start, have distinct column ids |
| PlayerForm.WithField | src/pages/GameForm.js:26-29 | the named field takes the new value and every other field keeps its own |
| PlayerForm.ClearError | src/pages/GameForm.js:31-36 | the named field's message becomes `''` if present; the other entries and the key set are unchanged |
| PlayerForm.EmailTest | src/pages/GameForm.js:49 | the one-pass matcher accepts exactly the strings with a non-whitespace run, `@`, a non-whitespace run, `.`, and a non-whitespace character |
| PlayerForm.AtRunStep | src/pages/GameForm.js:49 | one more character extends the `\S+@\S+` state exactly as the matcher's flag update does |
| PlayerForm.MatchedStep | src/pages/GameForm.js:49 | one more character extends the matched state exactly as the matcher's flag update does |
| PlayerForm.MatchedWithinIsShape | src/pages/GameForm.js:49 | a match found anywhere in the string is the unanchored pattern |
| PlayerForm.CheckEmail | src/pages/GameForm.js:47-51 | a blank email gets "Email is required" without consulting the pattern; a non-blank one that fails the pattern gets "Email is invalid"; otherwise no message |
| PlayerForm.Validate | src/pages/GameForm.js:39-59 | a field has a message exactly when its own check fails, with exactly that check's message; blank email is "required" and is not matched; the map is empty exactly when all five fields are non-blank and the email matches |
| PlayerForm.ReportsEveryField | src/pages/GameForm.js:41-57 | the five independent per-field checks together give the whole validation result |
| PlayerForm.EmptyReportsIffAccepted | src/pages/GameForm.js:39-59 | an error map that reports every field is empty exactly when the form is acceptable |
| PlayerForm.AcceptedIffNoFieldError | src/pages/GameForm.js:39-59 | the form is acceptable exactly when no field has a message |
| PlayerForm.FormScreen.constructor | src/pages/GameForm.js:15-22 | the form starts with five empty fields and no messages |
| PlayerForm.FormScreen.HandleChange | src/pages/GameForm.js:24-37 | only the named field changes; only its non-empty message is cleared |
| PlayerForm.FormScreen.HandleSubmit | src/pages/GameForm.js:61-80 | the form data is handed on, field for field, exactly when it validates; otherwise the messages are replaced by the fresh ones and nothing is handed on |
| Leaderboard.FoldCells | src/components/Leaderboard.js:38-41 | the accumulating fold equals the map built in list order |
| Leaderboard.CellMapKeys | src/components/Leaderboard.js:38-41 | an id is in the map exactly when some cell carries it |
| Leaderboard.CellMapLastWins | src/components/Leaderboard.js:38-41 | an id maps to the value of the last cell carrying it |
| Leaderboard.DistinctCellMap | src/components/Leaderboard.js:38-41 | with distinct ids every cell's value survives the fold |
| Leaderboard.ParseInt | src/components/Leaderboard.js:49 | a number loses only its fraction, toward zero |
| Leaderboard.ParseIntOfInteger | src/components/Leaderboard.js:49 | an integer count reads back unchanged |
| Leaderboard.TotalFromItsOwnCell | src/components/Leaderboard.js:50 | writing any column other than `total` never changes the row's total |
| Leaderboard.TotalIsStored | src/components/Leaderboard.js:50 | a stored numeric total is the row's total |
| Leaderboard.Transform | src/components/Leaderboard.js:37-52 | one row per fetched record, in fetch order, each the projection of that record's folded cells |
| Leaderboard.InsertDesc | src/components/Leaderboard.js:55 | an insertion step adds exactly one row and keeps every total numeric |
| Leaderboard.SortByTotal | src/components/Leaderboard.js:55 | the sort keeps the length and every total numeric |
| Leaderboard.InsertAt | src/components/Leaderboard.js:55 | insertion puts the row after every row with a total at least its own and before the smaller ones |
| Leaderboard.InsertPermutes | src/components/Leaderboard.js:55 | insertion adds the row to the multiset and loses nothing |
| Leaderboard.SortPermutes | src/components/Leaderboard.js:55 | the sorted rows are a permutation of the projected rows |
| Leaderboard.InsertKeepsDescending | src/components/Leaderboard.js:55 | inserting into a descending list keeps it descending |
| Leaderboard.SortIsDescending | src/components/Leaderboard.js:55 | after the sort, totals never increase from first to last |
| Leaderboard.WithTotalAppend | src/components/Leaderboard.js:55 | the rows with a given total of a concatenation are those of each part in order |
| Leaderboard.WithTotalNone | src/components/Leaderboard.js:55 | a list with no row of a given total has none to keep in order |
| Leaderboard.InsertStable | src/components/Leaderboard.js:55 | insertion places a row behind every earlier row with the same total |
| Leaderboard.InsertPoint | src/components/Leaderboard.js:55 | the insertion search finds the place behind all rows with a total at least the new one |
| Leaderboard.SortIsStable | src/components/Leaderboard.js:55 | rows with equal totals keep their fetch order |
| Leaderboard.InsertInPlace | src/components/Leaderboard.js:55 | the in-place shifting step leaves the prefix equal to the insertion function's result and the rest untouched |
| Leaderboard.SortByTotalInPlace | src/components/Leaderboard.js:55 | the in-place sort leaves the array equal to the sort function of its old contents |
| Leaderboard.Ranked | src/components/Leaderboard.js:115-117 | the table shows each row, in order, beside a rank |
| Leaderboard.RanksAreOneToN | src/components/Leaderboard.js:115-117 | ranks run from 1 to n, strictly increasing, first 1 and last n |
| Leaderboard.LoadResults | src/components/Leaderboard.js:37-57 | the results array is fresh and holds the projected rows sorted by total |
| Leaderboard.SubmissionFolds | src/components/Leaderboard.js:38-41 | folding the record the game posts gives exactly its nine column ids, each with the posted value |
| Leaderboard.SubmissionReadsBack | src/components/Leaderboard.js:43-51 | the posted record projects back to the player's name, cps, accuracy, time and character count, with no total |
| Scenarios.TwoEventsGiveHalfCharPerSecond | src/pages/TypingGame.js:97-149 | "a" at 1 s and "abc" at 3 s finish the game with 0.5 cps, two keystrokes and no errors |
| Scenarios.WordsOfTheCatSat | src/pages/TypingGame.js:125 | "the cat sat" splits into its three words |
| Scenarios.CotIsATypo | src/pages/TypingGame.js:122-132 | "the cot " completes a wrong second word |
| Scenarios.AccuracyLagsOneEvent | src/pages/TypingGame.js:122-138 | the event that records the typo still writes accuracy 100; the next writes 67 |

## Left out

- Network I/O is not modelled: the sentence fetches, the result POST and the scoreboard fetch. The model also leaves out environment-variable checks, snackbars and navigation. The fetched sentence and the fetched records are parameters.
- `Math.random` sentence choice is not modelled. The chosen sentence is a parameter.
- `Date.now()` is not modelled. It is a parameter, one value per input event; the source reads the clock twice in a completing event, and the model uses one value for both.
- `TypingSession.Session.HandleInputChange`, `TypingSession.InputHandler`, `TypingSession.TrackInput` and `TypingSession.AfterInput`: these require `now > 0` and, once the clock has started, `now` later than the start. At `now` equal to the start the source divides by zero and shows `Infinity` or `NaN`; at `now` earlier than the start it shows a negative cps. Neither case is modelled.
- Double-precision arithmetic is not modelled: the handler computes cps and accuracy in IEEE-754 doubles (src/pages/TypingGame.js lines 108-109, 137 and 144-145), and the model computes them over exact integers and rationals before rounding, so results that double rounding would shift by one unit are not captured.
- `Leaderboard.ParseFloat`: it does not parse text. A text cell reads as `NaN` (`None`), and IEEE-754 rounding and `toFixed` formatting are left out.
- `Leaderboard.ParseInt`: it works on numbers only. Text parsing goes the way of `ParseFloat`, and the number-to-string step of `parseInt` is left out, which matters for |x| ≥ 1e21 and for 0 < |x| < 1e-6: there the string has exponent form, so `parseInt(5e-7)` is 5 where the model gives 0.
- `TypingSession.CorrectPrefixIsNoTypo` and `TypingSession.TrimPlainPrefix`: these require a plain sentence, one that starts with non-whitespace and holds no whitespace other than `' '`. For some other sentences the code counts a typo even on correct typing: those that start with whitespace, or that hold whitespace other than `' '` just before a space. With target `" the cat"`, typing `" the "` trims to `"the"`, splits into `["the"]` and compares it with the target's first piece `""`; with target `"ab\t c"`, typing `"ab\t "` trims to `"ab"`, which differs from the piece `"ab\t"`. The model's `CompletesWrongWord` follows the code there; only the no-typo promise is limited to plain sentences.
- `Leaderboard.LoadResults` and `Leaderboard.SortByTotalInPlace`: these require every total to be a number. A `NaN` total makes the comparator inconsistent and the order unspecified, and that case is not modelled.
- The sort is modelled as a stable insertion sort. The engine's own algorithm is not modelled; Array.prototype.sort must be stable (ECMA-262, 2019 and later), so the result is the same.
- The score formula shown in the page text is not modelled, because no code computes it. `total` is only read back.
- `restart` ordering is not modelled. The fetch of a new sentence is asynchronous; the model applies the fetched sentence, or keeps the old one when the fetch fails, together with the field reset.
- `handleSelect`, the result dialog and its close handler, and the snackbars are presentation only. They are not modelled; the `showResults` and `gameComplete` flags are.
- The `completedWords` value is computed but never used, so it is not modelled.
- Strings are sequences of Dafny characters. JavaScript counts UTF-16 code units, so lengths differ for characters outside the Basic Multilingual Plane.
- src/pages/HomePage.js, src/pages/LeaderboardPage.js and src/components/Layout.js hold only layout and routing, so they are not modelled.
