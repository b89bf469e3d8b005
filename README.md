# Typing session of typing-practice2, in Dafny

This project models the typing-session engine of the React component `TypingPracticeApp`. The
component shows a sample text and takes keystrokes. It compares the typed input with the text
character by character. It reports live statistics: words per minute, accuracy, the elapsed time
and the error count.

Session rules:

- The session moves from `waiting` to `playing` on the first accepted key.
- A single Pause/Resume button toggles between `playing` and `paused`.
- The session becomes `completed` when the input is as long as the text.
- "Reset", "Try Again" and "New Text" return the session to `waiting`.
- The half-second timer adds time only while playing.

The model has four layers:

- `JsString`: the JavaScript string operations the component relies on: `trim`, `split(' ')`,
  `slice(0, -1)`, `Number.prototype.toString` and `padStart`.
- `Stats`: the derived values:
  - the error recount;
  - `calculateStats` (words per minute and accuracy, with `Math.round` done exactly on integers);
  - `formatTime`;
  - the per-character classes of `renderText`;
  - the progress percentage.
- `SessionModel`: the component's state variables as one value `State`. Every event is a function
  from the state before to the state after. The statistics effect reruns exactly when `userInput`,
  `timeElapsed` or `errors` changed, which is React's dependency rule. One invariant `Inv` holds in
  every reachable state, and lemmas state what each event does.
- `TypingPractice`: the component as a class `TypingPracticeApp`.
  - Its fields are the state variables, and every handler is a method that updates them in place.
  - Each method is proved to reach exactly the state the matching `SessionModel` function gives.
  - Each handler is proved to keep the invariant. The two helpers `CalculateStats` and `AcceptKey`
    state only their new state; the handlers that call them restore the invariant.
  - The error-counting loop of `handleKeyDown` is the method `CountErrors`, proved with its loop invariant.

Elapsed time is counted in half-second timer ticks (`halfTicks`). A `timeElapsed` of `t` seconds
is `2 * t` ticks. `Math.random` is replaced by a sequence of draws given as a parameter; each draw
is an index into the difficulty's pool. Sample texts are a constructor parameter.

Behaviour of the code to note, which the model keeps as written:

- An empty or whitespace-only input counts as one word, because `''.split(' ')` has one piece.
  `Stats.WordCountIsSpacesPlusOne` states this.
- The word count does not split on runs of whitespace. `split(' ')` splits on single spaces, so
  two consecutive spaces count an empty word.
- Pause and resume are one toggle button. Clicking it while waiting or completed changes nothing
  (the button is also disabled then).
- An empty text is not rejected. Before the difficulty effect picks the first text, `currentText`
  is `''`. There the progress is `NaN` in JavaScript (`None` here), and "completed exactly when the
  text is fully typed" holds only for a non-empty text.

## Model

| member | source | states |
|---|---|---|
| JsString.TrimStartSpec | src/TypingPracticeApp.jsx:39 | leading-whitespace removal leaves the suffix of the input after its whitespace, which does not start with whitespace |
| JsString.TrimEndSpec | src/TypingPracticeApp.jsx:39 | trailing-whitespace removal leaves the prefix before the trailing whitespace, which does not end with whitespace |
| JsString.TrimIsInnerSlice | src/TypingPracticeApp.jsx:39 | `trim` keeps exactly the stretch between leading and trailing whitespace; it is empty exactly when the input is blank |
| JsString.Split | src/TypingPracticeApp.jsx:39 | `split` on a one-character separator always yields at least one piece |
| JsString.SplitPiecesAvoidSeparator | src/TypingPracticeApp.jsx:39 | no piece of `split` contains the separator |
| JsString.JoinSplit | src/TypingPracticeApp.jsx:39 | joining the pieces with the separator gives back the input |
| JsString.SplitCount | src/TypingPracticeApp.jsx:39 | `split` yields one piece more than the separator occurs |
| JsString.DropLast | src/TypingPracticeApp.jsx:83 | `slice(0, -1)` of a non-empty string plus its last character is the string; the empty string stays empty |
| JsString.NatToString | src/TypingPracticeApp.jsx:131 | `toString` of a whole number is a non-empty run of digits with no leading zero except for 0 itself |
| JsString.NatToStringValue | src/TypingPracticeApp.jsx:131 | reading the digits back gives the number |
| JsString.PadStart | src/TypingPracticeApp.jsx:131 | `padStart` yields the longer of the string and the width, ending in the string and filled in front |
| JsString.LeadingZerosValue | src/TypingPracticeApp.jsx:131 | leading zeros do not change the value of a digit string |
| Stats.RoundRatioSpec | src/TypingPracticeApp.jsx:43 | `Math.round(num / den)` is within one half of the quotient, a half rounding up |
| Stats.Mismatches | src/TypingPracticeApp.jsx:91-96 | the error count never exceeds the input length |
| Stats.MismatchesStep | src/TypingPracticeApp.jsx:91-96 | one more position adds one error exactly when it differs from the text or lies past it |
| Stats.MismatchesZeroIffPrefix | src/TypingPracticeApp.jsx:91-96 | no errors exactly when the input is a prefix of the text |
| Stats.MismatchesAllDiffer | src/TypingPracticeApp.jsx:91-96 | when every position differs, the errors equal the input length |
| Stats.WordCount | src/TypingPracticeApp.jsx:39 | the word count is at least one |
| Stats.WordCountIsSpacesPlusOne | src/TypingPracticeApp.jsx:39 | the word count is the spaces inside the trimmed input plus one, so a blank input counts one word |
| Stats.WpmIsRoundedRate | src/TypingPracticeApp.jsx:38-45 | WPM is the words per elapsed minute rounded to the nearest integer, never negative |
| Stats.Accuracy | src/TypingPracticeApp.jsx:47 | accuracy is 0 with no input; within 0..100; 100 with no errors; 0 when every character is wrong |
| Stats.AccuracyIsRoundedShare | src/TypingPracticeApp.jsx:47 | accuracy is the correct share of the typed characters as a percentage rounded to the nearest integer |
| Stats.FullAccuracyDespiteErrors | src/TypingPracticeApp.jsx:47 | 100% shown with errors needs at least 200 typed characters per error |
| Stats.FormatTimeReadsBack | src/TypingPracticeApp.jsx:128-132 | the `m:ss` display reads back as the elapsed whole seconds, with two-digit seconds below 60 |
| Stats.ReadClockParts | src/TypingPracticeApp.jsx:131 | `m:ss` with digit minutes and two-digit seconds below 60 reads as minutes times 60 plus seconds |
| Stats.PaddedValue | src/TypingPracticeApp.jsx:131 | padding a one- or two-digit string to two places with zeros keeps its value |
| Stats.Progress | src/TypingPracticeApp.jsx:218 | progress is undefined exactly for an empty text; otherwise 0..100, 0 with no input, 100 when the input fills the text |
| Stats.WrongCountUpTo | src/TypingPracticeApp.jsx:135-153 | among the first characters, the red ones are the errors among the typed ones there |
| Stats.RenderWrongIsErrors | src/TypingPracticeApp.jsx:135-153 | the number of characters rendered red equals the error count |
| Stats.CursorCountUpTo | src/TypingPracticeApp.jsx:135-153 | the cursor class marks at most the cursor position, and only past the typed input |
| Stats.RenderSingleCursor | src/TypingPracticeApp.jsx:135-153 | while the input is incomplete exactly one character, the next to type, carries the cursor class; none once complete |
| SessionModel.InvConsequences | src/TypingPracticeApp.jsx:7-17 | in every reachable state errors ≤ input ≤ text, accuracy within 0..100, and on a non-empty text completed exactly when the text is fully typed |
| SessionModel.PickFromPool | src/TypingPracticeApp.jsx:120-126 | the picked text comes from the difficulty's pool and, in a pool of several texts, differs from the current one |
| SessionModel.PickSucceeds | src/TypingPracticeApp.jsx:120-126 | the retry loop ends at the first draw landing on another text, or on the only one |
| SessionModel.PickNeverEndsOnUniformPool | src/TypingPracticeApp.jsx:122 | when every text of a pool of several equals the current one, no draws end the retry loop |
| SessionModel.InitialInv | src/TypingPracticeApp.jsx:7-17 | the initial state values satisfy the session invariant |
| SessionModel.KeyDownKeepsInv | src/TypingPracticeApp.jsx:68-104 | a keystroke followed by the statistics effect keeps the invariant |
| SessionModel.ResetEstablishesInv | src/TypingPracticeApp.jsx:107-118 | reset establishes the invariant from any state whatever |
| SessionModel.PauseClickKeepsInv | src/TypingPracticeApp.jsx:231-237 | the pause button keeps the invariant |
| SessionModel.TickKeepsInv | src/TypingPracticeApp.jsx:24-34 | a timer tick followed by the statistics effect keeps the invariant |
| SessionModel.NewTextEstablishesInv | src/TypingPracticeApp.jsx:254-257 | a new text followed by reset establishes the invariant from any state |
| SessionModel.DifficultyChangeKeepsInv | src/TypingPracticeApp.jsx:54-57 | changing the difficulty keeps the invariant |
| SessionModel.BackspaceModeChangeKeepsInv | src/TypingPracticeApp.jsx:294-301 | changing the backspace setting keeps the invariant |
| SessionModel.IgnoredKeys | src/TypingPracticeApp.jsx:69-73 | keys change nothing while paused or completed, a disabled or empty-input Backspace changes nothing, nor does any other multi-character key name |
| SessionModel.AcceptedKey | src/TypingPracticeApp.jsx:73-102 | an accepted key removes the last character (Backspace) or appends the key while the text is longer; the session has started; Completed exactly when the input fills the text; errors recounted; text, clock and settings untouched |
| SessionModel.ResetClears | src/TypingPracticeApp.jsx:107-114 | reset clears input, clock, errors, WPM, accuracy and cursor and returns to Waiting, keeping the text and settings; new text is reset on the new text |
| SessionModel.PauseClickToggles | src/TypingPracticeApp.jsx:231-237 | the button swaps Playing and Paused, changes nothing else, and two clicks undo each other |
| SessionModel.TickAdvancesOnlyWhilePlaying | src/TypingPracticeApp.jsx:24-34 | a tick while playing adds half a second, recomputes WPM and changes nothing else; otherwise nothing changes |
| SessionModel.ApplyKeepsInv | src/TypingPracticeApp.jsx:68-118 | every event keeps the invariant |
| SessionModel.RunKeepsInv | src/TypingPracticeApp.jsx:68-118 | every run of events from a state satisfying the invariant ends in one satisfying it |
| SessionModel.ReachableInv | src/TypingPracticeApp.jsx:7-17 | every state reachable from the initial values satisfies the invariant |
| SessionModel.ClockCountsOnlyPlaying | src/TypingPracticeApp.jsx:24-34 | over ticks and pause clicks the clock advances by exactly the ticks spent playing, the input is unchanged, and the status follows the clicks |
| SessionModel.TypeOneKey | src/TypingPracticeApp.jsx:73-102 | one more character typed into an unfinished session extends the input by it and keeps the invariant |
| SessionModel.TypingFromFresh | src/TypingPracticeApp.jsx:68-104 | typing a string from a fresh session leaves it as the input with its errors recounted: Playing part-way, Completed once the text is filled |
| SessionModel.TypingTextExactly | src/TypingPracticeApp.jsx:68-104 | typing the text exactly completes with no error and 100% accuracy |
| SessionModel.TypingAllWrong | src/TypingPracticeApp.jsx:68-104 | typing every character wrong completes with every character an error and 0% accuracy |
| SessionModel.TypingCaxAgainstCat | src/TypingPracticeApp.jsx:68-104 | typing "cax" against "cat" completes with one error and 67% accuracy |
| TypingPractice.CountErrors | src/TypingPracticeApp.jsx:91-96 | the loop counts exactly the positions where the new input differs from the text; at most the input length |
| TypingPractice.TypingPracticeApp.constructor | src/TypingPracticeApp.jsx:7-17 | the fields hold the initial `useState` values, which satisfy the invariant |
| TypingPractice.TypingPracticeApp.CalculateStats | src/TypingPracticeApp.jsx:37-51 | WPM is set only while time has elapsed and accuracy always, from the current input, time and errors |
| TypingPractice.TypingPracticeApp.HandleKeyDown | src/TypingPracticeApp.jsx:68-104 | the new state is the keystroke's model transition followed by the statistics effect, and the invariant is kept |
| TypingPractice.TypingPracticeApp.AcceptKey | src/TypingPracticeApp.jsx:76-102 | the setters of an accepted key, in order, reach the model's state with a later `setStatus` winning |
| TypingPractice.TypingPracticeApp.ResetTest | src/TypingPracticeApp.jsx:107-118 | the new state is the reset state followed by the statistics effect, and the invariant holds from any state |
| TypingPractice.TypingPracticeApp.PauseButtonClick | src/TypingPracticeApp.jsx:231-237 | the status toggles as the model says and the invariant is kept |
| TypingPractice.TypingPracticeApp.TimerTick | src/TypingPracticeApp.jsx:24-34 | the interval adds half a second only while playing, followed by the statistics effect; invariant kept |
| TypingPractice.TypingPracticeApp.GetRandomText | src/TypingPracticeApp.jsx:120-126 | the retry loop returns the model's pick: a text of the pool, other than the current one when the pool has several |
| TypingPractice.TypingPracticeApp.NewTextClick | src/TypingPracticeApp.jsx:254-257 | the picked text becomes current and the session is reset; invariant kept |
| TypingPractice.TypingPracticeApp.SetDifficulty | src/TypingPracticeApp.jsx:54-57 | a new difficulty picks a text from its pool and resets; the same difficulty changes nothing |
| TypingPractice.TypingPracticeApp.SetBackspaceMode | src/TypingPracticeApp.jsx:294-301 | only the backspace setting changes; invariant kept |
| TypingPractice.TypingPracticeApp.ElapsedTimeText | src/TypingPracticeApp.jsx:189 | the clock display reads back as the elapsed whole seconds |
| TypingPractice.TypingPracticeApp.RenderText | src/TypingPracticeApp.jsx:135-153 | the classes are those of `renderText`, one per text character; a character is red exactly when it was typed and differs from the input there; red ones number the errors; exactly one cursor, after the input, while the session is not complete |
| TypingPractice.TypingPracticeApp.ProgressPercent | src/TypingPracticeApp.jsx:218 | progress is the rounded percentage of the text typed; it exists exactly for a non-empty text, lies in 0..100, is 100 when completed and 0 while waiting |

## Left out

- Floating point: `timeElapsed / 60`, the divisions before `Math.round` and the progress ratio are computed exactly on integers. Rounding errors of doubles are not modelled.
- UTF-16: the component measures, indexes and slices strings in UTF-16 code units (`e.key.length` at line 73, `.length` at lines 84, 100 and 218, `newInput[i]` and `currentText[i]` at line 93, `slice(0, -1)` at line 83, `split('')` at line 136). The model counts characters. For text and keys within the Basic Multilingual Plane the two agree. A key outside it is accepted here but ignored by the component. A text containing a character outside it can be completed here but never in the component, whose text then has two code units for the character that no single key can supply.
- `e.preventDefault()` and the focus handling are not modelled: the focus effect, the `focus()` call in `resetTest`, and the text area's `tabIndex`. They move the browser focus and change no session state.
- React scheduling is reduced to a fixed order. Each handler's setters apply in order, and the statistics effect follows whenever its dependencies changed. StrictMode's double run of effects in development is not modelled, and neither is the `setInterval` timing itself. A tick is an event that fires only while playing, which is what the timer effect arranges.
- The settings-panel toggle (`showSettings`) and all markup and styling are presentation, not session state. The progress bar's width is the unrounded progress ratio.
- SampleText.js is not part of this model; the pools are a constructor parameter, and the pool of the current difficulty is assumed to exist. An empty pool is excluded: `getRandomText` would return `undefined` and the render would then fail at line 136. `ValidDraws` admits no draw on an empty pool, so `Pick` is `None` there, and `NewTextClick` and `SetDifficulty` require `Pick` to give a text. App.jsx and main.jsx (the page shell and the React entry point) are not part of this model.
- The first run of the difficulty effect, on mount, is `NewTextClick` called after the constructor.
- SessionModel.Pick: `Math.random` is a finite sequence of draws. When the draws run out before the retry loop ends, the result is `None`, not a loop that keeps drawing. `NewTextClick` and `SetDifficulty` require draws that end the loop. `PickNeverEndsOnUniformPool` states when no draws can.
- SessionModel.InvConsequences: "completed exactly when the whole text is typed" is stated only for a non-empty text. Before the first text is picked the text is empty and the status is `waiting`.
- TypingPractice.TypingPracticeApp.RenderText: the one-cursor clause is stated only for a non-empty text that is not completed. A completed session has no cursor class (`Stats.RenderSingleCursor`).
