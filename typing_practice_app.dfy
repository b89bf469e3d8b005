/** `TypingPracticeApp` as an object: its state variables are fields, each event handler is
    a method that assigns the fields in the order the handler calls the setters, and the
    effects the handler triggers run right after it. Every method is proved to produce the
    state the matching function of SessionModel describes. */
module TypingPractice {
  import opened Wrappers
  import opened JsString
  import opened Stats
  import opened SessionModel

  /** The error recount of `handleKeyDown`: one pass over the new input, counting the
      positions where it differs from the text. */
  method CountErrors(newInput: string, currentText: string) returns (errorCount: nat)
    ensures errorCount == Mismatches(newInput, currentText)
    ensures errorCount <= |newInput|
  {
    errorCount := 0;
    var i := 0;
    while i < |newInput|
      invariant 0 <= i <= |newInput|
      invariant errorCount == Mismatches(newInput[..i], currentText)
    {
      MismatchesStep(newInput, currentText, i);
      if i >= |currentText| || newInput[i] != currentText[i] {
        errorCount := errorCount + 1;
      }
      i := i + 1;
    }
    assert newInput[..i] == newInput;
  }

  class TypingPracticeApp {
    /** The sample texts by difficulty (`sampleTexts` of SampleText.js). */
    const sampleTexts: map<string, seq<string>>

    var userInput: string
    var halfTicks: nat
    var errors: nat
    var wpm: int
    var accuracy: int
    var status: Status
    var backspaceMode: BackspaceMode
    var difficulty: string
    var currentText: string
    var currentIndex: int

    /** The current state as a value. */
    function Snapshot(): State
      reads this
    {
      State(userInput, halfTicks, errors, wpm, accuracy, status, backspaceMode, difficulty, currentText, currentIndex)
    }

    /** The session invariant, and the difficulty is one the settings offer. */
    ghost predicate Valid()
      reads this
    {
      Inv(Snapshot()) && difficulty in sampleTexts
    }

    /** The initial `useState` values; the difficulty effect has not picked a text yet. */
    constructor (sampleTexts: map<string, seq<string>>)
      requires "easy" in sampleTexts
      ensures Valid()
      ensures this.sampleTexts == sampleTexts
      ensures Snapshot() == Initial()
    {
      this.sampleTexts := sampleTexts;
      userInput := "";
      halfTicks := 0;
      errors := 0;
      wpm := 0;
      accuracy := 0;
      status := Waiting;
      backspaceMode := Enable;
      difficulty := "easy";
      currentText := "";
      currentIndex := 0;
      new;
      InitialInv();
    }

    /** `calculateStats`, run by its effect. */
    method CalculateStats()
      modifies this`wpm, this`accuracy
      ensures Snapshot() == WithStats(old(Snapshot()))
    {
      if halfTicks > 0 {
        wpm := Wpm(userInput, halfTicks);
      }
      accuracy := Accuracy(|userInput|, errors);
    }

    /** `handleKeyDown`, followed by the statistics effect when the input or the errors changed. */
    method HandleKeyDown(key: string)
      requires Valid()
      modifies this
      ensures Valid()
      ensures Snapshot() == AfterKeyDown(old(Snapshot()), key)
    {
      ghost var before := Snapshot();
      if status == Paused || status == Completed {
        KeyDownKeepsInv(before, key);
        return;
      }
      if |key| == 1 || (key == "Backspace" && |userInput| > 0 && backspaceMode == Enable) {
        var previousInput, previousErrors := userInput, errors;
        AcceptKey(key);
        if userInput != previousInput || errors != previousErrors {
          CalculateStats();
        }
      }
      KeyDownKeepsInv(before, key);
    }

    /** The setters `handleKeyDown` calls once it has taken the key: start the session,
        edit the input, move the cursor, recount the errors, detect completion. */
    method AcceptKey(key: string)
      requires status == Waiting || status == Playing
      requires Accepts(Snapshot(), key)
      modifies this`status, this`userInput, this`currentIndex, this`errors
      ensures Snapshot() == HandleKey(old(Snapshot()), key)
    {
      ghost var before := Snapshot();
      var renderedStatus := status;
      if status == Waiting {
        status := Playing;
      }
      var newInput := userInput;
      if key == "Backspace" {
        newInput := DropLast(userInput);
      } else if renderedStatus != Completed && |currentText| > |userInput| {
        newInput := userInput + key;
      }
      assert newInput == EditedInput(before, key);
      userInput := newInput;
      currentIndex := |newInput|;
      var errorCount := CountErrors(newInput, currentText);
      errors := errorCount;
      if |newInput| == |currentText| {
        status := Completed;
      }
    }

    /** `resetTest`, followed by the statistics effect. Callable in any state, whatever the
        current text. */
    method ResetTest()
      requires difficulty in sampleTexts
      modifies this
      ensures Valid()
      ensures Snapshot() == AfterReset(old(Snapshot()))
    {
      ghost var before := Snapshot();
      var changed := userInput != "" || halfTicks != 0 || errors != 0;
      userInput := "";
      halfTicks := 0;
      errors := 0;
      wpm := 0;
      accuracy := 0;
      status := Waiting;
      currentIndex := 0;
      assert Snapshot() == ResetFields(before);
      if changed {
        CalculateStats();
      }
      ResetEstablishesInv(before);
    }

    /** The Pause/Resume button. */
    method PauseButtonClick()
      requires Valid()
      modifies this`status
      ensures Valid()
      ensures Snapshot() == AfterPauseClick(old(Snapshot()))
    {
      PauseClickKeepsInv(Snapshot());
      if status == Playing {
        status := Paused;
      } else if status == Paused {
        status := Playing;
      }
    }

    /** The interval callback `setTimeElapsed(prev => prev + 0.5)`, live only while playing,
        followed by the statistics effect. */
    method TimerTick()
      requires Valid()
      modifies this
      ensures Valid()
      ensures Snapshot() == AfterTick(old(Snapshot()))
    {
      TickKeepsInv(Snapshot());
      if status == Playing {
        halfTicks := halfTicks + 1;
        CalculateStats();
      }
    }

    /** `getRandomText(d)`, with the draws of `Math.random` given: draw a text, and draw again
        while it equals the current text and the pool has more than one entry. None when the
        draws run out before the loop ends. */
    method GetRandomText(d: string, draws: seq<nat>) returns (r: Option<string>)
      requires d in sampleTexts && ValidDraws(sampleTexts[d], draws)
      ensures r == Pick(sampleTexts[d], currentText, draws)
      ensures r.Some? ==> r.value in sampleTexts[d]
      ensures r.Some? && |sampleTexts[d]| > 1 ==> r.value != currentText
    {
      var pool := sampleTexts[d];
      PickFromPool(pool, currentText, draws);
      if |draws| == 0 {
        return None;
      }
      var k := 0;
      var ret := pool[draws[k]];
      while ret == currentText && |pool| > 1
        invariant 0 <= k < |draws|
        invariant ret == pool[draws[k]]
        invariant Pick(pool, currentText, draws) == Pick(pool, currentText, draws[k..])
        decreases |draws| - k
      {
        assert draws[k..][1..] == draws[k + 1..];
        k := k + 1;
        if k == |draws| {
          return None;
        }
        ret := pool[draws[k]];
      }
      r := Some(ret);
    }

    /** `setCurrentText(getRandomText(difficulty)); resetTest()`: the "New Text" buttons, and
        the body of the difficulty effect. The draws must end the retry loop. */
    method NewTextClick(draws: seq<nat>)
      requires Valid()
      requires ValidDraws(sampleTexts[difficulty], draws)
      requires Pick(sampleTexts[difficulty], currentText, draws).Some?
      modifies this
      ensures Valid()
      ensures Snapshot() == AfterNewText(old(Snapshot()), old(Pick(sampleTexts[difficulty], currentText, draws)).value)
    {
      var text := GetRandomText(difficulty, draws);
      currentText := text.value;
      ResetTest();
    }

    /** The difficulty select: `setDifficulty(d)`, and the difficulty effect when it changed. */
    method SetDifficulty(d: string, draws: seq<nat>)
      requires Valid()
      requires d in sampleTexts && ValidDraws(sampleTexts[d], draws)
      requires d != difficulty ==> Pick(sampleTexts[d], currentText, draws).Some?
      modifies this
      ensures Valid()
      ensures d != old(difficulty) ==>
        Snapshot() == AfterDifficultyChange(old(Snapshot()), d, old(Pick(sampleTexts[d], currentText, draws)).value)
      ensures d == old(difficulty) ==> Snapshot() == old(Snapshot())
    {
      if d != difficulty {
        difficulty := d;
        NewTextClick(draws);
      }
    }

    /** The backspace select: `setBackspaceMode(mode)`. */
    method SetBackspaceMode(mode: BackspaceMode)
      requires Valid()
      modifies this`backspaceMode
      ensures Valid()
      ensures Snapshot() == AfterBackspaceModeChange(old(Snapshot()), mode)
    {
      BackspaceModeChangeKeepsInv(Snapshot(), mode);
      backspaceMode := mode;
    }

    /** `formatTime(timeElapsed)`, as the stats dashboard shows it. */
    method ElapsedTimeText() returns (r: string)
      ensures ReadClock(r) == Some(halfTicks / 2)
    {
      r := FormatTime(halfTicks);
      FormatTimeReadsBack(halfTicks);
    }

    /** The classes `renderText` gives the characters of the text. */
    method RenderText() returns (classes: seq<CharClass>)
      requires Valid()
      ensures classes == RenderClasses(currentText, userInput, currentIndex)
      ensures |classes| == |currentText|
      ensures forall i :: 0 <= i < |classes| ==>
        (classes[i] == Wrong <==> i < |userInput| && userInput[i] != currentText[i])
      ensures CountClass(classes, Wrong, |classes|) == errors
      ensures status != Completed && |currentText| > 0 ==>
        CountClass(classes, Cursor, |classes|) == 1 && classes[|userInput|] == Cursor
    {
      classes := RenderClasses(currentText, userInput, currentIndex);
      RenderWrongIsErrors(currentText, userInput, currentIndex);
      RenderSingleCursor(currentText, userInput);
    }

    /** The progress percentage, None where JavaScript shows `NaN`. */
    method ProgressPercent() returns (r: Option<int>)
      requires Valid()
      ensures r == Progress(|userInput|, |currentText|)
      ensures r.Some? <==> |currentText| > 0
      ensures r.Some? ==> 0 <= r.value <= 100
      ensures r.Some? && status == Completed ==> r.value == 100
      ensures r.Some? && status == Waiting ==> r.value == 0
    {
      r := Progress(|userInput|, |currentText|);
    }
  }
}
