/** The game screen's typing engine (src/pages/TypingGame.js): the session
    state, the input-change handler with its live metrics, the restart, the
    per-character colouring of the target text, and the result record
    handed to the scoring table.

    Times are integer millisecond timestamps passed in by the caller.
    `cps` is kept in tenths of a character per second (`Math.round(x * 10)
    / 10` leaves exactly one decimal), `accuracy` in whole percent. */
module TypingSession {
  import opened JsText
  import opened Wrappers
  import opened Cells
  import PlayerForm

  // ----- Live error count (lines 113-120) -----

  /** Position `i` of the input counts as an error: it does not match the
      target, or lies past the target's end (where `targetText[i]` is
      `undefined`). */
  predicate MismatchAt(input: string, target: string, i: int)
    requires 0 <= i < |input|
  {
    i >= |target| || input[i] != target[i]
  }

  /** Number of mismatching positions among the first `n` of the input. */
  function MismatchesIn(input: string, target: string, n: int): (r: nat)
    requires 0 <= n <= |input|
    ensures r <= n
  {
    if n == 0 then 0
    else MismatchesIn(input, target, n - 1) + (if MismatchAt(input, target, n - 1) then 1 else 0)
  }

  function Mismatches(input: string, target: string): (r: nat)
    ensures r <= |input|
  {
    MismatchesIn(input, target, |input|)
  }

  /** The accumulating `for` loop that computes `errors`. */
  method CountErrors(input: string, target: string) returns (n: nat)
    ensures n == Mismatches(input, target)
  {
    n := 0;
    var i := 0;
    while i < |input|
      invariant 0 <= i <= |input|
      invariant n == MismatchesIn(input, target, i)
    {
      if i >= |target| || input[i] != target[i] {
        n := n + 1;
      }
      i := i + 1;
    }
  }

  lemma {:induction false} NoMismatchesIn(input: string, target: string, n: int)
    requires 0 <= n <= |input|
    ensures MismatchesIn(input, target, n) == 0
            <==> forall i :: 0 <= i < n ==> !MismatchAt(input, target, i)
  {
    if n > 0 {
      NoMismatchesIn(input, target, n - 1);
    }
  }

  /** No error is shown exactly when the input is a prefix of the target. */
  lemma NoErrorsIffPrefix(input: string, target: string)
    ensures Mismatches(input, target) == 0
            <==> |input| <= |target| && input == target[..|input|]
  {
    NoMismatchesIn(input, target, |input|);
    if Mismatches(input, target) == 0 {
      assert input == target[..|input|] by {
        forall i | 0 <= i < |input| ensures input[i] == target[..|input|][i] {
          assert !MismatchAt(input, target, i);
        }
      }
    }
    if |input| <= |target| && input == target[..|input|] {
      forall i | 0 <= i < |input| ensures !MismatchAt(input, target, i) {
        assert input[i] == target[..|input|][i];
      }
    }
  }

  // ----- Colouring of the target text (lines 276-288) -----

  datatype Color = Inherit | Green | Red

  /** `renderText`: one colour per target character; untyped positions keep
      the default colour, typed ones are green when they match and red
      otherwise. */
  function CharColors(targetText: string, userInput: string): (r: seq<Color>)
    ensures |r| == |targetText|
    ensures forall i :: 0 <= i < |r| ==> (r[i] == Inherit <==> i >= |userInput|)
    ensures forall i :: 0 <= i < |r| ==>
              (r[i] == Green <==> i < |userInput| && userInput[i] == targetText[i])
  {
    seq(|targetText|, i requires 0 <= i < |targetText| =>
      if i < |userInput| then (if userInput[i] == targetText[i] then Green else Red)
      else Inherit)
  }

  function RedCount(c: seq<Color>): nat {
    if c == [] then 0 else RedCount(c[..|c| - 1]) + (if c[|c| - 1] == Red then 1 else 0)
  }

  /** The whole target shows green exactly when the input starts with it. */
  lemma AllGreenIffTyped(targetText: string, userInput: string)
    ensures (forall i :: 0 <= i < |targetText| ==> CharColors(targetText, userInput)[i] == Green)
            <==> |targetText| <= |userInput| && userInput[..|targetText|] == targetText
  {
    var c := CharColors(targetText, userInput);
    if |userInput| < |targetText| {
      assert c[|userInput|] == Inherit;
    }
    if (forall i :: 0 <= i < |targetText| ==> c[i] == Green) && |targetText| <= |userInput| {
      assert userInput[..|targetText|] == targetText by {
        forall i | 0 <= i < |targetText|
          ensures userInput[..|targetText|][i] == targetText[i]
        {
          assert c[i] == Green;
        }
      }
    }
    if |targetText| <= |userInput| && userInput[..|targetText|] == targetText {
      forall i | 0 <= i < |targetText| ensures c[i] == Green {
        assert userInput[i] == userInput[..|targetText|][i];
      }
    }
  }

  lemma {:induction false} RedCountNoRedTail(c: seq<Color>, k: int)
    requires 0 <= k <= |c|
    requires forall i :: k <= i < |c| ==> c[i] != Red
    ensures RedCount(c) == RedCount(c[..k])
  {
    if |c| > k {
      RedCountNoRedTail(c[..|c| - 1], k);
      assert c[..|c| - 1][..k] == c[..k];
    } else {
      assert c[..k] == c;
    }
  }

  lemma {:induction false} MismatchesInColors(targetText: string, userInput: string, n: int)
    requires 0 <= n <= |userInput|
    ensures var m := if n <= |targetText| then n else |targetText|;
            MismatchesIn(userInput, targetText, n)
              == RedCount(CharColors(targetText, userInput)[..m]) + (n - m)
  {
    var c := CharColors(targetText, userInput);
    if n > 0 {
      MismatchesInColors(targetText, userInput, n - 1);
      if n <= |targetText| {
        assert c[..n][..n - 1] == c[..n - 1];
      }
    }
  }

  /** The error counter is the number of red characters plus the typed
      characters that run past the end of the target. */
  lemma ErrorsAreRedPlusOverflow(targetText: string, userInput: string)
    ensures Mismatches(userInput, targetText)
            == RedCount(CharColors(targetText, userInput))
               + (if |userInput| > |targetText| then |userInput| - |targetText| else 0)
  {
    var c := CharColors(targetText, userInput);
    MismatchesInColors(targetText, userInput, |userInput|);
    if |userInput| <= |targetText| {
      RedCountNoRedTail(c, |userInput|);
    } else {
      assert c[..|targetText|] == c;
    }
  }

  // ----- Word-completion typos (lines 122-132) -----

  /** The check run when the input ends with a space: the last piece of the
      trimmed input, split on spaces, differs from the target's piece at the
      same index, or there is no such target piece. */
  predicate CompletesWrongWord(newInput: string, targetText: string) {
    EndsWithSpace(newInput)
    && var typed := Split(Trim(newInput));
       var words := Split(targetText);
       var k := |typed| - 1;
       k >= |words| || typed[k] != words[k]
  }

  /** A word index past the target's word count is always a typo. */
  lemma WordPastEndIsTypo(newInput: string, targetText: string)
    requires EndsWithSpace(newInput)
    requires |Split(Trim(newInput))| > |Split(targetText)|
    ensures CompletesWrongWord(newInput, targetText)
  {
  }

  /** A sentence the typo check reads the intended way: it starts with a
      non-whitespace character and its only whitespace is `' '`. */
  ghost predicate PlainSentence(t: string) {
    && |t| > 0 && !IsWhitespace(t[0])
    && forall i :: 0 <= i < |t| && IsWhitespace(t[i]) ==> t[i] == ' '
  }

  /** Trimming a plain sentence's prefix that ends in a space gives a
      shorter prefix that is followed by a space. */
  lemma TrimPlainPrefix(targetText: string, k: int) returns (j: int)
    requires PlainSentence(targetText)
    requires 0 < k <= |targetText| && targetText[k - 1] == ' '
    ensures 0 < j < k && Trim(targetText[..k]) == targetText[..j] && targetText[j] == ' '
  {
    var p := targetText[..k];
    assert p[0] == targetText[0];
    assert TrimStart(p) == p;
    var r := TrimEnd(p);
    TrimEndShape(p);
    assert Trim(p) == r;
    j := |r|;
    assert AllWhitespace(p[j..]);
    assert p[j..][0] == targetText[j];
    assert IsWhitespace(targetText[j]);
  }

  /** Typing a plain sentence correctly up to a space never counts a typo. */
  lemma CorrectPrefixIsNoTypo(targetText: string, k: int)
    requires PlainSentence(targetText)
    requires 0 < k <= |targetText| && targetText[k - 1] == ' '
    ensures !CompletesWrongWord(targetText[..k], targetText)
  {
    var j := TrimPlainPrefix(targetText, k);
    var q, rest := targetText[..j], targetText[j + 1..];
    assert targetText == q + " " + rest;
    SplitAtSpace(q, rest);
    var typed := Split(q);
    assert typed[|typed| - 1] == Split(targetText)[|typed| - 1];
  }

  // ----- Accuracy and speed (lines 104-111, 134-138, 141-146) -----

  /** `Math.round(((totalWords - typos) / totalWords) * 100)`. */
  function Accuracy(totalWords: nat, typos: nat): int
    requires totalWords >= 1
  {
    RoundDiv(100 * (totalWords - typos), totalWords)
  }

  /** The accuracy is the percentage of typo-free words, rounded. */
  lemma AccuracyBounds(totalWords: nat, typos: nat)
    requires totalWords >= 1
    ensures var r := Accuracy(totalWords, typos);
            2 * totalWords * r - totalWords <= 200 * (totalWords - typos) < 2 * totalWords * r + totalWords
  {
    RoundDivBounds(100 * (totalWords - typos), totalWords);
  }

  lemma AccuracyWithoutTypos(totalWords: nat)
    requires totalWords >= 1
    ensures Accuracy(totalWords, 0) == 100
  {
    RoundDivUnique(100 * totalWords, totalWords, 100);
  }

  /** More typos never raise the accuracy. */
  lemma AccuracyAntitone(totalWords: nat, t1: nat, t2: nat)
    requires totalWords >= 1 && t1 <= t2
    ensures Accuracy(totalWords, t2) <= Accuracy(totalWords, t1)
  {
    RoundDivMonotone(100 * (totalWords - t2), 100 * (totalWords - t1), totalWords);
  }

  /** Between 0 and 100 while the typos do not outnumber the words. */
  lemma AccuracyInRange(totalWords: nat, typos: nat)
    requires totalWords >= 1 && typos <= totalWords
    ensures 0 <= Accuracy(totalWords, typos) <= 100
  {
    AccuracyWithoutTypos(totalWords);
    AccuracyAntitone(totalWords, 0, typos);
    AccuracyAntitone(totalWords, typos, totalWords);
    RoundDivUnique(0, totalWords, 0);
  }

  /** No floor at zero: one word and two typos give -100. */
  lemma AccuracyNotClamped()
    ensures Accuracy(1, 2) == -100
  {
  }

  /** `Math.round((count / (elapsedMs / 1000)) * 10)`: the speed in tenths of
      a character per second. */
  function DeciCps(count: nat, elapsedMs: int): int
    requires elapsedMs > 0
  {
    RoundDiv(10000 * count, elapsedMs)
  }

  /** Ten times the characters per elapsed second, rounded. */
  lemma DeciCpsBounds(count: nat, elapsedMs: int)
    requires elapsedMs > 0
    ensures var r := DeciCps(count, elapsedMs);
            2 * elapsedMs * r - elapsedMs <= 20000 * count < 2 * elapsedMs * r + elapsedMs
  {
    RoundDivBounds(10000 * count, elapsedMs);
  }

  lemma DeciCpsOfNothing(elapsedMs: int)
    requires elapsedMs > 0
    ensures DeciCps(0, elapsedMs) == 0
  {
    RoundDivUnique(0, elapsedMs, 0);
  }

  /** A JavaScript `null` timestamp used in arithmetic counts as 0. */
  function NullAsZero(t: Option<int>): int {
    if t.Some? then t.value else 0
  }

  // ----- The result record (lines 204-245) -----

  /** The nine cells posted for a finished game. */
  function ResultCells(user: PlayerForm.Form, cpsTenths: int, accuracy: int,
                       elapsedMs: int, numofchars: nat): (r: seq<Cell>)
    ensures |r| == 9 && DistinctIds(r)
  {
    [ Cell("firstName", Str(user.firstName)),
      Cell("lastName", Str(user.lastName)),
      Cell("email", Str(user.email)),
      Cell("jobTitle", Str(user.jobTitle)),
      Cell("companyName", Str(user.companyName)),
      Cell("cps", Num(cpsTenths as real / 10.0)),
      Cell("accuracy", Num(accuracy as real)),
      Cell("time", Num(elapsedMs as real / 1000.0)),
      Cell("numofchars", Num(numofchars as real)) ]
  }

  // ----- The session -----

  /** The value of every state field of the game screen. */
  datatype Snapshot = Snapshot(
    targetText: string, userInput: string, cursorPosition: nat,
    startTime: Option<int>, endTime: Option<int>,
    gameComplete: bool, showResults: bool,
    cps: int, accuracy: int, errors: nat,
    totalTypos: nat, totalCharactersTyped: nat, previousInputLength: nat)

  /** Every field other than the target at its initial value (lines 24-40,
      and the resets of lines 181-192). */
  function InitialSnapshot(targetText: string): Snapshot {
    Snapshot(targetText, "", 0, None, None, false, false, 0, 100, 0, 0, 0, 0)
  }

  /** What every handler keeps true: the length ref tracks the input, the
      error count is that of the current input, a started clock holds a
      positive timestamp, nothing is counted before the clock starts, the
      game is over exactly when the end time is set and then the input is
      the target, and the end is not before the start. */
  predicate Consistent(s: Snapshot) {
    && s.previousInputLength == |s.userInput|
    && s.errors == Mismatches(s.userInput, s.targetText)
    && (s.startTime.Some? ==> s.startTime.value > 0)
    && (s.totalCharactersTyped > 0 ==> s.startTime.Some?)
    && (s.gameComplete <==> s.endTime.Some?)
    && (s.gameComplete ==> s.userInput == s.targetText)
    && (s.startTime.Some? && s.endTime.Some? ==> s.startTime.value <= s.endTime.value)
  }

  /** `Date.now()` is positive and, once the clock has started, later than
      the start (otherwise the speed would divide by zero or less). */
  predicate ClockAfter(s: Snapshot, now: int) {
    now > 0 && (s.startTime.Some? ==> now > s.startTime.value)
  }

  /** The live part of `handleInputChange` (lines 90-138): input, caret,
      keystroke count, length ref, start time, speed, errors, typos and
      accuracy. Every new value is computed from the fields as they were
      before the event, because the handler's closure sees the state of the
      last render. */
  function Typed(s: Snapshot, newInput: string, caret: nat, now: int): Snapshot
    requires ClockAfter(s, now)
  {
    // The `if (!startTime && ...) ... else if (startTime)` pair: the event
    // that starts the clock leaves the speed alone.
    s.(userInput := newInput,
       cursorPosition := caret,
       totalCharactersTyped := s.totalCharactersTyped
                               + (if |newInput| > s.previousInputLength then 1 else 0),
       previousInputLength := |newInput|,
       startTime := if s.startTime.None? && |newInput| > 0 then Some(now) else s.startTime,
       cps := if s.startTime.Some? then DeciCps(s.totalCharactersTyped, now - s.startTime.value)
              else s.cps,
       errors := Mismatches(newInput, s.targetText),
       totalTypos := s.totalTypos + (if CompletesWrongWord(newInput, s.targetText) then 1 else 0),
       accuracy := Accuracy(|Split(s.targetText)|, s.totalTypos))
  }

  /** `handleInputChange` (lines 90-150) on a snapshot: nothing once the game
      is over; otherwise the live update, and when the input now equals the
      target, the end time, the final speed (from the earlier count and
      start, `null` read as 0) and the results view (lines 141-149). */
  function AfterInput(s: Snapshot, newInput: string, caret: nat, now: int): Snapshot
    requires ClockAfter(s, now)
  {
    if s.gameComplete then s
    else if newInput == s.targetText then
      Typed(s, newInput, caret, now).(
        endTime := Some(now),
        cps := DeciCps(s.totalCharactersTyped, now - NullAsZero(s.startTime)),
        gameComplete := true,
        showResults := true)
    else Typed(s, newInput, caret, now)
  }

  lemma InitialIsConsistent(targetText: string)
    ensures Consistent(InitialSnapshot(targetText))
  {
  }

  lemma InputKeepsConsistent(s: Snapshot, newInput: string, caret: nat, now: int)
    requires Consistent(s) && ClockAfter(s, now)
    ensures Consistent(AfterInput(s, newInput, caret, now))
  {
  }

  /** When the very first event already completes the game (the whole
      sentence pasted at once), the start still reads as `null`, so the
      elapsed time is `now - 0`; nothing has been counted yet, so the final
      speed is 0. */
  lemma CompletingFirstEventHasNoSpeed(s: Snapshot, caret: nat, now: int)
    requires Consistent(s) && ClockAfter(s, now)
    requires !s.gameComplete && s.startTime.None?
    ensures AfterInput(s, s.targetText, caret, now).cps == 0
    ensures AfterInput(s, s.targetText, caret, now).gameComplete
  {
    DeciCpsOfNothing(now);
  }

  /** Keystrokes, not characters, are counted: an event that lengthens the
      input adds exactly one whatever its size, any other adds none, and the
      length ref then holds the new length (lines 98-102). */
  lemma EventCountsOneKeystroke(s: Snapshot, newInput: string, caret: nat, now: int)
    requires ClockAfter(s, now) && !s.gameComplete
    ensures var r := AfterInput(s, newInput, caret, now);
            && (r.totalCharactersTyped == s.totalCharactersTyped + 1 <==> |newInput| > s.previousInputLength)
            && (r.totalCharactersTyped == s.totalCharactersTyped <==> |newInput| <= s.previousInputLength)
            && r.previousInputLength == |newInput|
  {
  }

  /** The clock starts on the first event with some input and is never
      moved afterwards; the starting event leaves the speed as it was, and
      a later one that does not finish the game sets the speed from the
      count before the event (lines 104-111). */
  lemma ClockStartsOnce(s: Snapshot, newInput: string, caret: nat, now: int)
    requires ClockAfter(s, now) && !s.gameComplete
    ensures var r := AfterInput(s, newInput, caret, now);
            && (r.startTime == Some(now) && s.startTime.None? <==> s.startTime.None? && |newInput| > 0)
            && (s.startTime.None? && |newInput| == 0 ==> r.startTime.None?)
            && (s.startTime.Some? ==> r.startTime == s.startTime)
            && (s.startTime.None? && newInput != s.targetText ==> r.cps == s.cps)
            && (s.startTime.Some? && newInput != s.targetText ==>
                  r.cps == DeciCps(s.totalCharactersTyped, now - s.startTime.value))
  {
  }

  /** The typo tally grows by at most one per event, and only on an event
      whose input ends in a space and whose last word is wrong (lines
      122-132). */
  lemma TypoOnlyOnCompletedWord(s: Snapshot, newInput: string, caret: nat, now: int)
    requires ClockAfter(s, now) && !s.gameComplete
    ensures var r := AfterInput(s, newInput, caret, now);
            && s.totalTypos <= r.totalTypos <= s.totalTypos + 1
            && (r.totalTypos == s.totalTypos + 1 <==> CompletesWrongWord(newInput, s.targetText))
            && (r.totalTypos > s.totalTypos ==> EndsWithSpace(newInput))
  {
  }

  /** The accuracy an event writes is computed from the tally before it:
      the rounded share of words not yet counted as typos, so 100 until a
      typo has been recorded by an earlier event (lines 134-138). */
  lemma AccuracyFromEarlierTypos(s: Snapshot, newInput: string, caret: nat, now: int)
    requires ClockAfter(s, now) && !s.gameComplete
    ensures var r := AfterInput(s, newInput, caret, now);
            var w := |Split(s.targetText)|;
            && 2 * w * r.accuracy - w <= 200 * (w - s.totalTypos) < 2 * w * r.accuracy + w
            && (s.totalTypos == 0 ==> r.accuracy == 100)
  {
    AccuracyBounds(|Split(s.targetText)|, s.totalTypos);
    AccuracyWithoutTypos(|Split(s.targetText)|);
  }

  /** The game ends exactly on the event whose input equals the target;
      that event records its time as the end, shows the results and sets
      the final speed from the count and start before the event (lines
      141-149). */
  lemma CompletesExactlyOnTarget(s: Snapshot, newInput: string, caret: nat, now: int)
    requires ClockAfter(s, now) && !s.gameComplete
    ensures var r := AfterInput(s, newInput, caret, now);
            && (r.gameComplete <==> newInput == s.targetText)
            && (r.gameComplete ==> && r.endTime == Some(now) && r.showResults
                                   && r.cps == DeciCps(s.totalCharactersTyped, now - NullAsZero(s.startTime)))
            && (!r.gameComplete ==> r.endTime == s.endTime && r.showResults == s.showResults)
  {
  }

  /** One `onChange` event: the new input value, the caret and the time. */
  datatype InputEvent = InputEvent(newInput: string, caret: nat, now: int)

  /** Each event of the sequence comes at a time the clock allows. */
  predicate ClockRuns(s: Snapshot, events: seq<InputEvent>)
    decreases |events|
  {
    events == []
    || (&& ClockAfter(s, events[0].now)
        && ClockRuns(AfterInput(s, events[0].newInput, events[0].caret, events[0].now), events[1..]))
  }

  /** The state after handling the events in order. */
  function Replay(s: Snapshot, events: seq<InputEvent>): Snapshot
    requires ClockRuns(s, events)
    decreases |events|
  {
    if events == [] then s
    else Replay(AfterInput(s, events[0].newInput, events[0].caret, events[0].now), events[1..])
  }

  /** A finished game stays exactly as it is whatever is typed next. */
  lemma {:induction false} FinishedIgnoresInput(s: Snapshot, events: seq<InputEvent>)
    requires s.gameComplete && ClockRuns(s, events)
    ensures Replay(s, events) == s
    decreases |events|
  {
    if events != [] {
      FinishedIgnoresInput(s, events[1..]);
    }
  }

  /** Across any run of events: the target never changes, the clock is never
      moved once started, the typo tally never drops and the character
      count never drops, and each grows by at most one per event. */
  lemma {:induction false} ReplayCounters(s: Snapshot, events: seq<InputEvent>)
    requires ClockRuns(s, events)
    decreases |events|
    ensures var t := Replay(s, events);
            && t.targetText == s.targetText
            && (s.startTime.Some? ==> t.startTime == s.startTime)
            && s.totalTypos <= t.totalTypos <= s.totalTypos + |events|
            && s.totalCharactersTyped <= t.totalCharactersTyped <= s.totalCharactersTyped + |events|
  {
    if events != [] {
      var e := events[0];
      ReplayCounters(AfterInput(s, e.newInput, e.caret, e.now), events[1..]);
    }
  }

  lemma {:induction false} ReplayKeepsConsistent(s: Snapshot, events: seq<InputEvent>)
    requires Consistent(s) && ClockRuns(s, events)
    ensures Consistent(Replay(s, events))
    decreases |events|
  {
    if events != [] {
      var e := events[0];
      InputKeepsConsistent(s, e.newInput, e.caret, e.now);
      ReplayKeepsConsistent(AfterInput(s, e.newInput, e.caret, e.now), events[1..]);
    }
  }

  /** The word check of lines 122-132. */
  method CheckCompletedWord(newInput: string, targetText: string) returns (wrong: bool)
    ensures wrong == CompletesWrongWord(newInput, targetText)
  {
    wrong := false;
    if EndsWithSpace(newInput) {
      var typedWords := Split(Trim(newInput));
      var targetWords := Split(targetText);
      var index := |typedWords| - 1;
      if index >= |targetWords| || typedWords[index] != targetWords[index] {
        wrong := true;
      }
    }
  }

  /** Lines 90-138 run against the render the closure saw: the values the
      live part of the handler hands to the state setters. */
  method TrackInput(s: Snapshot, newInput: string, caret: nat, now: int) returns (next: Snapshot)
    requires ClockAfter(s, now)
    ensures next == Typed(s, newInput, caret, now)
  {
    var counted := s.totalCharactersTyped;
    if |newInput| > s.previousInputLength {
      counted := counted + 1;
    }
    var newStart, newCps := s.startTime, s.cps;
    if s.startTime.None? && |newInput| > 0 {
      newStart := Some(now);
    } else if s.startTime.Some? {
      newCps := DeciCps(s.totalCharactersTyped, now - s.startTime.value);
    }
    var newErrors := CountErrors(newInput, s.targetText);
    var newTypos := s.totalTypos;
    var wrongWord := CheckCompletedWord(newInput, s.targetText);
    if wrongWord {
      newTypos := newTypos + 1;
    }
    var newAccuracy := Accuracy(|Split(s.targetText)|, s.totalTypos);
    next := s.(userInput := newInput, cursorPosition := caret,
               totalCharactersTyped := counted, previousInputLength := |newInput|,
               startTime := newStart, cps := newCps, errors := newErrors,
               totalTypos := newTypos, accuracy := newAccuracy);
  }

  /** The whole of `handleInputChange` (lines 90-150) on the render its
      closure saw: the snapshot React renders next. */
  method InputHandler(s: Snapshot, newInput: string, caret: nat, now: int) returns (next: Snapshot)
    requires ClockAfter(s, now)
    ensures next == AfterInput(s, newInput, caret, now)
  {
    if s.gameComplete {
      return s;
    }
    next := TrackInput(s, newInput, caret, now);
    if newInput == s.targetText {
      next := next.(endTime := Some(now),
                    cps := DeciCps(s.totalCharactersTyped, now - NullAsZero(s.startTime)),
                    gameComplete := true, showResults := true);
    }
  }

  /** The game screen's state, field by field as the component holds it. */
  class Session {
    var targetText: string
    var userInput: string
    var cursorPosition: nat
    var startTime: Option<int>
    var endTime: Option<int>
    var gameComplete: bool
    var showResults: bool
    /** Tenths of a character per second. */
    var cps: int
    var accuracy: int
    var errors: nat
    var totalTypos: nat
    var totalCharactersTyped: nat
    /** The `previousInputLength` ref. */
    var previousInputLength: nat

    function State(): Snapshot
      reads this
    {
      Snapshot(targetText, userInput, cursorPosition, startTime, endTime,
               gameComplete, showResults, cps, accuracy, errors,
               totalTypos, totalCharactersTyped, previousInputLength)
    }

    ghost predicate Valid()
      reads this
    {
      Consistent(State())
    }

    /** The screen once its first sentence has arrived (lines 24-40, 79). */
    constructor (sentence: string)
      ensures Valid() && State() == InitialSnapshot(sentence)
    {
      targetText := sentence;
      userInput := "";
      cursorPosition := 0;
      startTime, endTime := None, None;
      gameComplete, showResults := false, false;
      cps, accuracy := 0, 100;
      errors, totalTypos, totalCharactersTyped, previousInputLength := 0, 0, 0, 0;
      InitialIsConsistent(sentence);
    }

    /** The queued setter calls taking effect: every field gets its new
        value at once. */
    method SetState(next: Snapshot)
      modifies this
      ensures State() == next
    {
      targetText, userInput, cursorPosition := next.targetText, next.userInput, next.cursorPosition;
      startTime, endTime := next.startTime, next.endTime;
      gameComplete, showResults := next.gameComplete, next.showResults;
      cps, accuracy, errors := next.cps, next.accuracy, next.errors;
      totalTypos, totalCharactersTyped := next.totalTypos, next.totalCharactersTyped;
      previousInputLength := next.previousInputLength;
    }

    /** `handleInputChange` (lines 90-150): the handler runs on the current
        render and its updates are applied together. */
    method HandleInputChange(newInput: string, caret: nat, now: int)
      requires Valid() && ClockAfter(State(), now)
      modifies this
      ensures Valid()
      ensures State() == AfterInput(old(State()), newInput, caret, now)
    {
      InputKeepsConsistent(State(), newInput, caret, now);
      var next := InputHandler(State(), newInput, caret, now);
      SetState(next);
    }

    /** The state-reset part of `handleRestart` (lines 181-192). `newTarget`
        is the sentence the fetch delivered, or `None` when it failed and
        the old sentence stays. */
    method Restart(newTarget: Option<string>)
      modifies this
      ensures Valid()
      ensures State() == InitialSnapshot(if newTarget.Some? then newTarget.value else old(targetText))
    {
      var sentence := targetText;
      if newTarget.Some? {
        sentence := newTarget.value;
      }
      InitialIsConsistent(sentence);
      SetState(InitialSnapshot(sentence));
    }

    /** `(endTime - startTime)`, with `null` read as 0, in milliseconds. */
    function ElapsedMs(): int
      reads this
    {
      NullAsZero(endTime) - NullAsZero(startTime)
    }

    /** The cells `submitToGridly` posts for player `user`. */
    function SubmissionCells(user: PlayerForm.Form): (r: seq<Cell>)
      reads this
      ensures DistinctIds(r)
    {
      ResultCells(user, cps, accuracy, ElapsedMs(), |targetText|)
    }
  }
}
