/** The typing session of `TypingPracticeApp` as a state machine over plain values. Each
    event handler is a function from the state before to the state after; the effect that
    recomputes the statistics runs after an event exactly when one of its dependencies
    (`userInput`, `timeElapsed`, `errors`) changed, as React reruns it. */
module SessionModel {
  import opened Wrappers
  import opened JsString
  import opened Stats

  datatype Status = Waiting | Playing | Paused | Completed

  /** The backspace setting: `'enable'` or `'disable'`. */
  datatype BackspaceMode = Enable | Disable

  /** The component's state variables. `halfTicks` is `timeElapsed` in half seconds. */
  datatype State = State(
    userInput: string,
    halfTicks: nat,
    errors: nat,
    wpm: int,
    accuracy: int,
    status: Status,
    backspaceMode: BackspaceMode,
    difficulty: string,
    currentText: string,
    currentIndex: int)

  /** The initial `useState` values, before the difficulty effect picks the first text. */
  function Initial(): State {
    State("", 0, 0, 0, 0, Waiting, Enable, "easy", "", 0)
  }

  /** The invariant of every state the component reaches. */
  predicate Inv(s: State) {
    && |s.userInput| <= |s.currentText|
    && s.errors == Mismatches(s.userInput, s.currentText)
    && s.currentIndex == |s.userInput|
    && (s.status == Waiting ==> s.userInput == "" && s.halfTicks == 0)
    && (s.status == Playing || s.status == Paused ==> |s.userInput| < |s.currentText|)
    && (s.status == Completed ==> |s.userInput| == |s.currentText|)
    && s.accuracy == Accuracy(|s.userInput|, s.errors)
    && s.wpm == (if s.halfTicks > 0 then Wpm(s.userInput, s.halfTicks) else 0)
  }

  /** What the invariant means for the display: errors never exceed the input, the input
      never exceeds the text, and on a non-empty text the session is complete exactly when
      the whole text has been typed. */
  lemma InvConsequences(s: State)
    requires Inv(s)
    ensures s.errors <= |s.userInput| <= |s.currentText|
    ensures 0 <= s.accuracy <= 100
    ensures |s.currentText| > 0 ==> (s.status == Completed <==> |s.userInput| == |s.currentText|)
  {
  }

  // ----- the statistics effect (calculateStats) -----

  /** `calculateStats`: WPM only while some time has elapsed, accuracy always. */
  function WithStats(s: State): State {
    var wpm := if s.halfTicks > 0 then Wpm(s.userInput, s.halfTicks) else s.wpm;
    s.(wpm := wpm, accuracy := Accuracy(|s.userInput|, s.errors))
  }

  /** The effect `useEffect(() => calculateStats(), [calculateStats])` after an event that
      turned `before` into `after`. */
  function StatsEffect(before: State, after: State): State {
    if after.userInput == before.userInput && after.halfTicks == before.halfTicks && after.errors == before.errors
    then after
    else WithStats(after)
  }

  // ----- handleKeyDown -----

  /** The key is taken: one character, or Backspace with something to delete and backspace enabled. */
  predicate Accepts(s: State, key: string) {
    |key| == 1 || (key == "Backspace" && |s.userInput| > 0 && s.backspaceMode == Enable)
  }

  /** The input after an accepted key: Backspace drops the last character, any other key is
      appended while the text is longer than the input. */
  function EditedInput(s: State, key: string): string {
    if key == "Backspace" then DropLast(s.userInput)
    else if s.status != Completed && |s.currentText| > |s.userInput| then s.userInput + key
    else s.userInput
  }

  /** The setters `handleKeyDown` calls, applied in order: a later `setStatus` wins. */
  function HandleKey(s: State, key: string): State {
    if s.status == Paused || s.status == Completed then s
    else if Accepts(s, key) then
      var started := if s.status == Waiting then Playing else s.status;
      var newInput := EditedInput(s, key);
      s.(userInput := newInput,
         currentIndex := |newInput|,
         errors := Mismatches(newInput, s.currentText),
         status := if |newInput| == |s.currentText| then Completed else started)
    else s
  }

  function AfterKeyDown(s: State, key: string): State {
    StatsEffect(s, HandleKey(s, key))
  }

  // ----- resetTest, the pause button, the timer, new text, settings -----

  /** The setters of `resetTest`. */
  function ResetFields(s: State): State {
    s.(userInput := "", halfTicks := 0, errors := 0, wpm := 0, accuracy := 0,
       status := Waiting, currentIndex := 0)
  }

  function AfterReset(s: State): State {
    StatsEffect(s, ResetFields(s))
  }

  /** The pause button: playing pauses, paused resumes, anything else stays. */
  function AfterPauseClick(s: State): State {
    if s.status == Playing then s.(status := Paused)
    else if s.status == Paused then s.(status := Playing)
    else s
  }

  /** One firing of the half-second interval, which is scheduled only while playing. */
  function AfterTick(s: State): State {
    if s.status == Playing then StatsEffect(s, s.(halfTicks := s.halfTicks + 1)) else s
  }

  /** `setCurrentText(text)` followed by `resetTest()`: the "New Text" buttons and the
      difficulty effect, with `text` the one `getRandomText` picked. */
  function AfterNewText(s: State, text: string): State {
    AfterReset(s.(currentText := text))
  }

  /** Choosing difficulty `d`: the difficulty effect runs only when the value changes. */
  function AfterDifficultyChange(s: State, d: string, text: string): State {
    if d == s.difficulty then s else AfterNewText(s.(difficulty := d), text)
  }

  function AfterBackspaceModeChange(s: State, mode: BackspaceMode): State {
    s.(backspaceMode := mode)
  }

  // ----- getRandomText -----

  /** Every draw of `Math.floor(Math.random() * pool.length)` is an index into the pool. */
  predicate ValidDraws(pool: seq<string>, draws: seq<nat>) {
    forall i :: 0 <= i < |draws| ==> draws[i] < |pool|
  }

  /** `getRandomText` fed the random draws `draws`: the first drawn text that differs from
      `current`, or the first drawn text at all when the pool has at most one entry; None
      when the draws run out first (the loop would go on drawing). */
  function Pick(pool: seq<string>, current: string, draws: seq<nat>): Option<string>
    requires ValidDraws(pool, draws)
  {
    if draws == [] then None
    else if pool[draws[0]] != current || |pool| <= 1 then Some(pool[draws[0]])
    else Pick(pool, current, draws[1..])
  }

  /** The picked text comes from the pool and, in a pool of more than one text, is not the current one. */
  lemma {:induction false} PickFromPool(pool: seq<string>, current: string, draws: seq<nat>)
    requires ValidDraws(pool, draws)
    ensures Pick(pool, current, draws).Some? ==> Pick(pool, current, draws).value in pool
    ensures Pick(pool, current, draws).Some? && |pool| > 1 ==> Pick(pool, current, draws).value != current
  {
    if draws != [] && !(pool[draws[0]] != current || |pool| <= 1) {
      PickFromPool(pool, current, draws[1..]);
    }
  }

  /** A text is picked as soon as one draw lands on a text other than the current one
      (or on the only one). */
  lemma {:induction false} PickSucceeds(pool: seq<string>, current: string, draws: seq<nat>, j: nat)
    requires ValidDraws(pool, draws)
    requires j < |draws| && (pool[draws[j]] != current || |pool| <= 1)
    ensures Pick(pool, current, draws).Some?
  {
    if j > 0 && pool[draws[0]] == current && |pool| > 1 {
      PickSucceeds(pool, current, draws[1..], j - 1);
    }
  }

  /** In a pool of several texts that all equal the current one, no sequence of draws ends
      the retry loop. */
  lemma {:induction false} PickNeverEndsOnUniformPool(pool: seq<string>, current: string, draws: seq<nat>)
    requires ValidDraws(pool, draws)
    requires |pool| > 1 && forall i :: 0 <= i < |pool| ==> pool[i] == current
    ensures Pick(pool, current, draws) == None
  {
    if draws != [] {
      PickNeverEndsOnUniformPool(pool, current, draws[1..]);
    }
  }

  // ----- the invariant is kept by every event -----

  lemma InitialInv()
    ensures Inv(Initial())
  {
  }

  lemma KeyDownKeepsInv(s: State, key: string)
    requires Inv(s)
    ensures Inv(AfterKeyDown(s, key))
  {
  }

  /** Reset establishes the invariant from any state whatever, whatever the text. */
  lemma ResetEstablishesInv(s: State)
    ensures Inv(AfterReset(s))
  {
  }

  lemma PauseClickKeepsInv(s: State)
    requires Inv(s)
    ensures Inv(AfterPauseClick(s))
  {
  }

  lemma TickKeepsInv(s: State)
    requires Inv(s)
    ensures Inv(AfterTick(s))
  {
  }

  lemma NewTextEstablishesInv(s: State, text: string)
    ensures Inv(AfterNewText(s, text))
  {
    ResetEstablishesInv(s.(currentText := text));
  }

  lemma DifficultyChangeKeepsInv(s: State, d: string, text: string)
    requires Inv(s)
    ensures Inv(AfterDifficultyChange(s, d, text))
  {
    if d != s.difficulty {
      NewTextEstablishesInv(s.(difficulty := d), text);
    }
  }

  lemma BackspaceModeChangeKeepsInv(s: State, mode: BackspaceMode)
    requires Inv(s)
    ensures Inv(AfterBackspaceModeChange(s, mode))
  {
  }

  // ----- what a keystroke does -----

  /** Keys are ignored while paused or completed, a Backspace that is disabled or has nothing
      to delete is ignored, and so is every other key name longer than one character. */
  lemma IgnoredKeys(s: State, key: string)
    ensures s.status == Paused || s.status == Completed ==> AfterKeyDown(s, key) == s
    ensures key == "Backspace" && (s.backspaceMode == Disable || s.userInput == "") ==> AfterKeyDown(s, key) == s
    ensures |key| != 1 && key != "Backspace" ==> AfterKeyDown(s, key) == s
  {
  }

  /** An accepted key changes the input by exactly one character: Backspace removes the last
      one, a character is appended while the text is longer than the input. The session has
      started, the status is Completed exactly when the input fills the text, the errors are
      recounted, and the text, the settings and the clock are untouched. */
  lemma AcceptedKey(s: State, key: string)
    requires s.status == Waiting || s.status == Playing
    requires Accepts(s, key)
    ensures var t := AfterKeyDown(s, key);
      && (key == "Backspace" ==> |s.userInput| > 0 && t.userInput + [s.userInput[|s.userInput| - 1]] == s.userInput)
      && (key != "Backspace" && |s.userInput| < |s.currentText| ==> t.userInput == s.userInput + key)
      && (key != "Backspace" && |s.userInput| >= |s.currentText| ==> t.userInput == s.userInput)
      && t.status != Waiting && t.status != Paused
      && (t.status == Completed <==> |t.userInput| == |s.currentText|)
      && t.errors == Mismatches(t.userInput, s.currentText)
      && t.currentIndex == |t.userInput|
      && t.currentText == s.currentText && t.halfTicks == s.halfTicks
      && t.backspaceMode == s.backspaceMode && t.difficulty == s.difficulty
  {
  }

  /** The reset state: cleared input, clock, counters and statistics, Waiting, cursor at the
      start; the text and the settings are kept. New text does the same on the new text. */
  lemma ResetClears(s: State, text: string)
    ensures var t := AfterReset(s);
      && t.userInput == "" && t.halfTicks == 0 && t.errors == 0 && t.wpm == 0 && t.accuracy == 0
      && t.status == Waiting && t.currentIndex == 0
      && t.currentText == s.currentText && t.backspaceMode == s.backspaceMode && t.difficulty == s.difficulty
    ensures AfterNewText(s, text) == AfterReset(s).(currentText := text)
  {
  }

  /** The pause button swaps Playing and Paused and touches nothing else. */
  lemma PauseClickToggles(s: State)
    ensures AfterPauseClick(s).status ==
      (match s.status case Playing => Paused case Paused => Playing case other => other)
    ensures AfterPauseClick(s) == s.(status := AfterPauseClick(s).status)
    ensures AfterPauseClick(AfterPauseClick(s)) == s
  {
  }

  /** A tick adds half a second exactly while playing; otherwise nothing happens. */
  lemma TickAdvancesOnlyWhilePlaying(s: State)
    requires Inv(s)
    ensures AfterTick(s).halfTicks == if s.status == Playing then s.halfTicks + 1 else s.halfTicks
    ensures s.status != Playing ==> AfterTick(s) == s
    ensures AfterTick(s).userInput == s.userInput && AfterTick(s).status == s.status
    ensures s.status == Playing ==> AfterTick(s).wpm == Wpm(s.userInput, s.halfTicks + 1)
    ensures s.status == Playing ==>
      AfterTick(s) == s.(halfTicks := s.halfTicks + 1, wpm := Wpm(s.userInput, s.halfTicks + 1))
  {
  }

  // ----- runs of events -----

  datatype Event =
    | KeyDown(key: string)
    | TimerTick
    | PauseClick
    | ResetClick
    | NewTextClick(text: string)
    | DifficultyChange(difficulty: string, text: string)
    | BackspaceModeChange(mode: BackspaceMode)

  function Apply(s: State, e: Event): State {
    match e
    case KeyDown(key) => AfterKeyDown(s, key)
    case TimerTick => AfterTick(s)
    case PauseClick => AfterPauseClick(s)
    case ResetClick => AfterReset(s)
    case NewTextClick(text) => AfterNewText(s, text)
    case DifficultyChange(d, text) => AfterDifficultyChange(s, d, text)
    case BackspaceModeChange(mode) => AfterBackspaceModeChange(s, mode)
  }

  function Run(s: State, events: seq<Event>): State
    decreases |events|
  {
    if events == [] then s else Run(Apply(s, events[0]), events[1..])
  }

  lemma ApplyKeepsInv(s: State, e: Event)
    requires Inv(s)
    ensures Inv(Apply(s, e))
  {
    match e
    case KeyDown(key) => KeyDownKeepsInv(s, key);
    case TimerTick => TickKeepsInv(s);
    case PauseClick => PauseClickKeepsInv(s);
    case ResetClick => ResetEstablishesInv(s);
    case NewTextClick(text) => NewTextEstablishesInv(s, text);
    case DifficultyChange(d, text) => DifficultyChangeKeepsInv(s, d, text);
    case BackspaceModeChange(mode) => BackspaceModeChangeKeepsInv(s, mode);
  }

  /** Every state reached from a state satisfying the invariant satisfies it; in particular
      every state reached from the initial one. */
  lemma {:induction false} RunKeepsInv(s: State, events: seq<Event>)
    requires Inv(s)
    ensures Inv(Run(s, events))
    decreases |events|
  {
    if events != [] {
      ApplyKeepsInv(s, events[0]);
      RunKeepsInv(Apply(s, events[0]), events[1..]);
    }
  }

  lemma ReachableInv(events: seq<Event>)
    ensures Inv(Run(Initial(), events))
  {
    InitialInv();
    RunKeepsInv(Initial(), events);
  }

  /** The half-seconds the clock should add over `events` made of ticks and pause clicks,
      starting playing or paused: the ticks that fall while playing. */
  function PlayingTicks(events: seq<Event>, playing: bool): nat {
    if events == [] then 0
    else if events[0] == TimerTick then (if playing then 1 else 0) + PlayingTicks(events[1..], playing)
    else if events[0] == PauseClick then PlayingTicks(events[1..], !playing)
    else PlayingTicks(events[1..], playing)
  }

  /** Whether the session is playing after the pause clicks among `events`. */
  function PlayingAfter(events: seq<Event>, playing: bool): bool {
    if events == [] then playing
    else PlayingAfter(events[1..], if events[0] == PauseClick then !playing else playing)
  }

  /** Over ticks and pause clicks the clock advances by the ticks spent playing, whatever the
      time spent paused, and the input does not change. */
  lemma {:induction false} ClockCountsOnlyPlaying(s: State, events: seq<Event>)
    requires Inv(s) && (s.status == Playing || s.status == Paused)
    requires forall i :: 0 <= i < |events| ==> events[i] == TimerTick || events[i] == PauseClick
    ensures Run(s, events).halfTicks == s.halfTicks + PlayingTicks(events, s.status == Playing)
    ensures Run(s, events).userInput == s.userInput
    ensures Run(s, events).status == if PlayingAfter(events, s.status == Playing) then Playing else Paused
    decreases |events|
  {
    if events != [] {
      var t := Apply(s, events[0]);
      ApplyKeepsInv(s, events[0]);
      ClockCountsOnlyPlaying(t, events[1..]);
    }
  }

  // ----- typing a whole string -----

  /** The keys of `w`, one character each, pressed in order. */
  function TypeKeys(s: State, w: string): State {
    if w == [] then s else AfterKeyDown(TypeKeys(s, w[..|w| - 1]), [w[|w| - 1]])
  }

  /** One more character typed into a session that is not finished extends the input by it. */
  lemma TypeOneKey(t: State, c: char)
    requires Inv(t) && (t.status == Waiting || t.status == Playing)
    requires |t.userInput| < |t.currentText|
    ensures var u := AfterKeyDown(t, [c]);
      && Inv(u)
      && u.userInput == t.userInput + [c]
      && u.errors == Mismatches(u.userInput, t.currentText)
      && u.currentText == t.currentText && u.halfTicks == t.halfTicks
      && u.status == (if |u.userInput| == |t.currentText| then Completed else Playing)
  {
    assert [c] != "Backspace";
    AcceptedKey(t, [c]);
    KeyDownKeepsInv(t, [c]);
  }

  /** From a fresh session, typing `w` (no longer than the text) leaves exactly `w` as input
      with its errors recounted: Playing part-way, Completed once the text is filled. */
  lemma {:induction false} TypingFromFresh(s: State, w: string)
    requires Inv(s) && s.status == Waiting && |w| <= |s.currentText|
    ensures var t := TypeKeys(s, w);
      && Inv(t)
      && t.userInput == w && t.errors == Mismatches(w, s.currentText)
      && t.currentText == s.currentText && t.halfTicks == 0
      && t.status == (if w == [] then Waiting else if |w| == |s.currentText| then Completed else Playing)
  {
    if w != [] {
      var p, c := w[..|w| - 1], w[|w| - 1];
      var t := TypeKeys(s, p);
      assert TypeKeys(s, w) == AfterKeyDown(t, [c]);
      assert p + [c] == w;
      TypingFromFresh(s, p);
      TypeOneKey(t, c);
    }
  }

  /** Typing the text exactly completes the session with no error and full accuracy. */
  lemma TypingTextExactly(s: State)
    requires Inv(s) && s.status == Waiting && |s.currentText| > 0
    ensures var t := TypeKeys(s, s.currentText);
      t.status == Completed && t.errors == 0 && t.accuracy == 100
  {
    TypingFromFresh(s, s.currentText);
    MismatchesZeroIffPrefix(s.currentText, s.currentText);
  }

  /** Typing as many characters as the text, each one wrong, completes the session with every
      character an error and zero accuracy. */
  lemma TypingAllWrong(s: State, w: string)
    requires Inv(s) && s.status == Waiting && |s.currentText| > 0
    requires |w| == |s.currentText| && forall i :: 0 <= i < |w| ==> w[i] != s.currentText[i]
    ensures var t := TypeKeys(s, w);
      t.status == Completed && t.errors == |w| && t.accuracy == 0
  {
    TypingFromFresh(s, w);
    MismatchesAllDiffer(w, s.currentText);
  }

  /** Typing "cax" against "cat" completes with one error and 67% accuracy. */
  lemma TypingCaxAgainstCat(s: State)
    requires Inv(s) && s.status == Waiting && s.currentText == "cat"
    ensures var t := TypeKeys(s, "cax");
      t.userInput == "cax" && t.errors == 1 && t.status == Completed && t.accuracy == 67
  {
    TypingFromFresh(s, "cax");
    assert Mismatches("cax", "cat") == 1 by {
      assert "cax"[..2] == "ca" && "ca"[..1] == "c" && "c"[..0] == "";
    }
  }
}
