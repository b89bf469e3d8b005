/** The values the typing screen derives from the session: the error recount, words per
    minute, accuracy, the clock display, the per-character highlight and the progress bar.
    Elapsed time is counted in half-second timer ticks, so a `timeElapsed` of `t` seconds is
    `2 * t` ticks, and JavaScript's floating-point divisions are done exactly on integers. */
module Stats {
  import opened Wrappers
  import opened JsString

  /** `Math.round(num / den)`: the integer nearest to `num / den`, a half rounded up. */
  function RoundRatio(num: int, den: nat): int
    requires den > 0
  {
    (2 * num + den) / (2 * den)
  }

  /** RoundRatio is within a half of `num / den`, a half rounding up: `r - 1/2 <= num / den < r + 1/2`. */
  lemma RoundRatioSpec(num: int, den: nat)
    requires den > 0
    ensures var r := RoundRatio(num, den); 2 * den * r <= 2 * num + den < 2 * den * (r + 1)
  {
    var q := RoundRatio(num, den);
    assert 2 * den * q == (2 * num + den) - (2 * num + den) % (2 * den);
  }

  /** Position `i` of the typed input is an error: it differs from the text there, or the
      text has no character there (JavaScript compares against `undefined`). */
  predicate Differs(input: string, text: string, i: nat)
    requires i < |input|
  {
    i >= |text| || input[i] != text[i]
  }

  /** The full positional recount of errors: how many positions of `input` differ from `text`. */
  function Mismatches(input: string, text: string): (n: nat)
    ensures n <= |input|
  {
    if input == [] then 0
    else Mismatches(input[..|input| - 1], text) + (if Differs(input, text, |input| - 1) then 1 else 0)
  }

  /** Mismatches extends position by position: the count for a longer prefix adds the new position. */
  lemma MismatchesStep(input: string, text: string, i: nat)
    requires i < |input|
    ensures Mismatches(input[..i + 1], text)
         == Mismatches(input[..i], text) + (if Differs(input, text, i) then 1 else 0)
  {
    assert input[..i + 1][..i] == input[..i];
  }

  /** No error at all exactly when the input is a prefix of the text. */
  lemma {:induction false} MismatchesZeroIffPrefix(input: string, text: string)
    ensures Mismatches(input, text) == 0 <==> |input| <= |text| && input == text[..|input|]
  {
    if input != [] {
      var p := input[..|input| - 1];
      MismatchesZeroIffPrefix(p, text);
      assert input == p + [input[|input| - 1]];
      if |input| <= |text| && input == text[..|input|] {
        assert p == text[..|p|];
      }
    }
  }

  /** Every position an error: the count is the input's length. */
  lemma {:induction false} MismatchesAllDiffer(input: string, text: string)
    requires forall i :: 0 <= i < |input| ==> Differs(input, text, i)
    ensures Mismatches(input, text) == |input|
  {
    if input != [] {
      var p := input[..|input| - 1];
      assert forall i :: 0 <= i < |p| ==> Differs(p, text, i) by {
        forall i | 0 <= i < |p| ensures Differs(p, text, i) {
          assert p[i] == input[i] && Differs(input, text, i);
        }
      }
      MismatchesAllDiffer(p, text);
    }
  }

  /** `userInput.trim().split(' ').length`. */
  function WordCount(input: string): (n: nat)
    ensures n >= 1
  {
    |Split(Trim(input), ' ')|
  }

  /** The word count is one more than the number of spaces inside the trimmed input, so runs
      of spaces count an empty word each and a blank input counts one word. */
  lemma WordCountIsSpacesPlusOne(input: string)
    ensures WordCount(input) == Occurrences(Trim(input), ' ') + 1
    ensures (forall i :: 0 <= i < |input| ==> IsWhitespace(input[i])) ==> WordCount(input) == 1
  {
    SplitCount(Trim(input), ' ');
    TrimIsInnerSlice(input);
  }

  /** `Math.round(wordsTyped / timeInMinutes)` with `timeInMinutes = (halfTicks / 2) / 60`,
      that is words times 120 over half-ticks, rounded. */
  function Wpm(input: string, halfTicks: nat): (r: int)
    requires halfTicks > 0
  {
    RoundRatio(120 * WordCount(input), halfTicks)
  }

  /** WPM is the typed words per elapsed minute rounded to the nearest integer, never negative. */
  lemma WpmIsRoundedRate(input: string, halfTicks: nat)
    requires halfTicks > 0
    ensures var r := Wpm(input, halfTicks);
      && r >= 0
      && 2 * halfTicks * r <= 240 * WordCount(input) + halfTicks < 2 * halfTicks * (r + 1)
  {
    var r := Wpm(input, halfTicks);
    RoundRatioSpec(120 * WordCount(input), halfTicks);
    ScaledLess(2 * halfTicks, -1, r);
  }

  /** `Math.round(((charactersTyped - errors) / charactersTyped) * 100)`, or 0 for no input. */
  function Accuracy(charactersTyped: nat, errors: nat): (r: int)
    ensures charactersTyped == 0 ==> r == 0
    ensures errors <= charactersTyped ==> 0 <= r <= 100
    ensures charactersTyped > 0 && errors == 0 ==> r == 100
    ensures charactersTyped > 0 && errors == charactersTyped ==> r == 0
  {
    if charactersTyped > 0 then
      var r := RoundRatio(100 * (charactersTyped - errors), charactersTyped);
      RoundRatioSpec(100 * (charactersTyped - errors), charactersTyped);
      PercentRange(charactersTyped, charactersTyped - errors, r);
      r
    else 0
  }

  /** Accuracy is the share of correct characters as a percentage rounded to the nearest integer. */
  lemma AccuracyIsRoundedShare(charactersTyped: nat, errors: nat)
    requires charactersTyped > 0
    ensures var r := Accuracy(charactersTyped, errors);
      2 * charactersTyped * r <= 200 * (charactersTyped - errors) + charactersTyped < 2 * charactersTyped * (r + 1)
  {
    RoundRatioSpec(100 * (charactersTyped - errors), charactersTyped);
  }

  /** Rounding lets accuracy show 100 with errors, but only on an input of at least 200
      characters per error. */
  lemma FullAccuracyDespiteErrors(charactersTyped: nat, errors: nat)
    requires 0 < errors <= charactersTyped && Accuracy(charactersTyped, errors) == 100
    ensures charactersTyped >= 200 * errors
  {
    AccuracyIsRoundedShare(charactersTyped, errors);
  }

  /** Multiplying by a positive factor keeps a strict order both ways. */
  lemma ScaledLess(k: int, a: int, b: int)
    requires k > 0
    ensures k * a < k * b <==> a < b
  {
    if a < b {
      assert k * b - k * a == k * (b - a);
    } else {
      assert k * a - k * b == k * (a - b);
    }
  }

  /** A part `part` of `whole`, as a rounded percentage, lies in 0..100 and hits both ends. */
  lemma PercentRange(whole: nat, part: int, r: int)
    requires whole > 0
    requires 2 * whole * r <= 200 * part + whole < 2 * whole * (r + 1)
    ensures 0 <= part <= whole ==> 0 <= r <= 100
    ensures part == whole ==> r == 100
    ensures part == 0 ==> r == 0
  {
    var k := 2 * whole;
    if 0 <= part <= whole {
      ScaledLess(k, 0, r + 1);
      ScaledLess(k, r, 101);
    }
    if part == whole {
      ScaledLess(k, 100, r + 1);
    }
    if part == 0 {
      ScaledLess(k, r, 1);
    }
  }

  /** `formatTime(seconds)`: whole minutes, a colon, and the whole seconds within the minute
      padded to two digits (`Math.floor(seconds / 60)`, `Math.floor(seconds % 60)`). */
  function FormatTime(halfTicks: nat): string {
    var mins := halfTicks / 120;
    var secs := (halfTicks % 120) / 2;
    NatToString(mins) + ":" + PadStart(NatToString(secs), 2, '0')
  }

  /** A number below 100 prints in at most two digits. */
  lemma NatToStringBelow100(n: nat)
    requires n < 100
    ensures |NatToString(n)| <= 2
  {
    if n >= 10 {
      assert NatToString(n) == NatToString(n / 10) + [DigitChar(n % 10)];
    }
  }

  /** The whole seconds split into minutes and seconds below 60. */
  lemma MinutesAndSeconds(halfTicks: nat)
    ensures (halfTicks % 120) / 2 < 60
    ensures (halfTicks / 120) * 60 + (halfTicks % 120) / 2 == halfTicks / 2
  {
  }

  /** Reads a clock display `m:ss` back as a number of seconds: digits, a colon, exactly two
      digits below 60. None for anything else. */
  function ReadClock(r: string): Option<nat> {
    if |r| >= 4 && r[|r| - 3] == ':' && AllDigits(r[..|r| - 3]) && AllDigits(r[|r| - 2..])
       && DecimalValue(r[|r| - 2..]) < 60
    then Some(DecimalValue(r[..|r| - 3]) * 60 + DecimalValue(r[|r| - 2..]))
    else None
  }

  /** The clock display reads back as the elapsed whole seconds. */
  lemma FormatTimeReadsBack(halfTicks: nat)
    ensures ReadClock(FormatTime(halfTicks)) == Some(halfTicks / 2)
  {
    var mins, secs := halfTicks / 120, (halfTicks % 120) / 2;
    MinutesAndSeconds(halfTicks);
    var m, d := NatToString(mins), NatToString(secs);
    NatToStringBelow100(secs);
    PaddedValue(d);
    var p := PadStart(d, 2, '0');
    assert FormatTime(halfTicks) == m + ":" + p;
    NatToStringValue(mins);
    NatToStringValue(secs);
    ReadClockParts(m, p);
  }

  /** `m:p`, with `m` digits and `p` two digits below 60, reads back as `m` minutes and `p` seconds. */
  lemma ReadClockParts(m: string, p: string)
    requires |m| >= 1 && AllDigits(m)
    requires |p| == 2 && AllDigits(p) && DecimalValue(p) < 60
    ensures ReadClock(m + ":" + p) == Some(DecimalValue(m) * 60 + DecimalValue(p))
  {
    ColonSplit(m, p);
  }

  /** Padding a digit string to two places with zeros keeps its value. */
  lemma PaddedValue(d: string)
    requires 1 <= |d| <= 2 && AllDigits(d)
    ensures var p := PadStart(d, 2, '0'); |p| == 2 && AllDigits(p) && DecimalValue(p) == DecimalValue(d)
  {
    var p := PadStart(d, 2, '0');
    var z := p[..|p| - |d|];
    assert p == z + d;
    LeadingZerosValue(z, d);
  }

  /** The two parts of `m:p` are found again around the colon. */
  lemma ColonSplit(m: string, p: string)
    requires |p| == 2
    ensures var r := m + ":" + p; |r| == |m| + 3 && r[|r| - 3] == ':' && r[..|r| - 3] == m && r[|r| - 2..] == p
  {
    var r := m + ":" + p;
    assert r[..|r| - 3] == m;
    assert r[|r| - 2..] == p;
  }

  /** `Math.round((userInput.length / currentText.length) * 100)`, None where JavaScript
      gives `NaN` or `Infinity` because the text is empty. */
  function Progress(inputLength: nat, textLength: nat): (r: Option<int>)
    ensures r.Some? <==> textLength > 0
    ensures r.Some? && inputLength <= textLength ==> 0 <= r.value <= 100
    ensures r.Some? && inputLength == 0 ==> r.value == 0
    ensures r.Some? && inputLength == textLength ==> r.value == 100
  {
    if textLength == 0 then None
    else
      var r := RoundRatio(100 * inputLength, textLength);
      RoundRatioSpec(100 * inputLength, textLength);
      PercentRange(textLength, inputLength, r);
      Some(r)
  }

  /** The highlight `renderText` gives one character of the text. */
  datatype CharClass = Correct | Wrong | Cursor | Pending

  function Classify(text: string, input: string, cursor: int, i: nat): CharClass
    requires i < |text|
  {
    if i < |input| then (if input[i] == text[i] then Correct else Wrong)
    else if i == cursor then Cursor
    else Pending
  }

  /** `currentText.split('').map(...)`: one class per character of the text. */
  function RenderClasses(text: string, input: string, cursor: int): seq<CharClass> {
    seq(|text|, i requires 0 <= i < |text| => Classify(text, input, cursor, i))
  }

  /** How many of the first `k` classes are `c`. */
  function CountClass(classes: seq<CharClass>, c: CharClass, k: nat): nat
    requires k <= |classes|
  {
    if k == 0 then 0 else CountClass(classes, c, k - 1) + (if classes[k - 1] == c then 1 else 0)
  }

  /** Among the first `k` characters, the red ones are the errors among the first `k` typed ones. */
  lemma {:induction false} WrongCountUpTo(text: string, input: string, cursor: int, k: nat)
    requires |input| <= |text| && k <= |text|
    ensures var n := if k < |input| then k else |input|;
      CountClass(RenderClasses(text, input, cursor), Wrong, k) == Mismatches(input[..n], text)
  {
    if k > 0 {
      WrongCountUpTo(text, input, cursor, k - 1);
      if k <= |input| {
        MismatchesStep(input, text, k - 1);
      }
    }
  }

  /** The number of red characters is the error count. */
  lemma RenderWrongIsErrors(text: string, input: string, cursor: int)
    requires |input| <= |text|
    ensures CountClass(RenderClasses(text, input, cursor), Wrong, |text|) == Mismatches(input, text)
  {
    WrongCountUpTo(text, input, cursor, |text|);
    assert input[..|input|] == input;
  }

  /** Among the first `k` characters, the cursor class marks at most the cursor position, and
      only when it lies past the typed input. */
  lemma {:induction false} CursorCountUpTo(text: string, input: string, cursor: int, k: nat)
    requires k <= |text|
    ensures CountClass(RenderClasses(text, input, cursor), Cursor, k)
         == if |input| <= cursor < k then 1 else 0
  {
    if k > 0 {
      CursorCountUpTo(text, input, cursor, k - 1);
    }
  }

  /** While the input is incomplete and the cursor sits at its end, exactly one character,
      the next to type, carries the cursor class; on a complete input none does. */
  lemma RenderSingleCursor(text: string, input: string)
    requires |input| <= |text|
    ensures |input| < |text| ==>
      (CountClass(RenderClasses(text, input, |input|), Cursor, |text|) == 1
       && RenderClasses(text, input, |input|)[|input|] == Cursor)
    ensures |input| == |text| ==> CountClass(RenderClasses(text, input, |input|), Cursor, |text|) == 0
  {
    CursorCountUpTo(text, input, |input|, |text|);
  }
}
