/** Concrete runs of the typing screen's input handler. */
module Scenarios {
  import opened Wrappers
  import opened TypingSession
  import opened JsText

  /** Typing "a" at one second and then pasting the rest of "abc" two
      seconds later: one counted character over two seconds, 0.5 characters
      per second. The first event only starts the clock. */
  lemma TwoEventsGiveHalfCharPerSecond()
    ensures var s := Replay(InitialSnapshot("abc"),
                            [InputEvent("a", 1, 1000), InputEvent("abc", 3, 3000)]);
            && s.gameComplete && s.showResults
            && s.startTime == Some(1000) && s.endTime == Some(3000)
            && s.cps == 5 && s.totalCharactersTyped == 2 && s.errors == 0
  {
    var s0 := InitialSnapshot("abc");
    var s1 := AfterInput(s0, "a", 1, 1000);
    assert s1.startTime == Some(1000) && s1.totalCharactersTyped == 1 && s1.cps == 0;
    var s2 := AfterInput(s1, "abc", 3, 3000);
    assert s2.cps == DeciCps(1, 2000);
    assert DeciCps(1, 2000) == 5;
    var evs := [InputEvent("a", 1, 1000), InputEvent("abc", 3, 3000)];
    assert evs[1..][1..] == [];
    assert ClockRuns(s0, evs);
    assert Replay(s0, evs) == s2;
  }

  /** The three words of "the cat sat". */
  lemma WordsOfTheCatSat()
    ensures Split("the cat sat") == ["the", "cat", "sat"]
  {
    var words := ["the", "cat", "sat"];
    SplitJoin(words);
    assert Join(words) == "the cat sat";
  }

  /** "the cot " completes a second word that is not "cat". */
  lemma CotIsATypo()
    ensures CompletesWrongWord("the cot ", "the cat sat")
  {
    var p := "the cot ";
    assert !IsWhitespace(p[0]);
    assert TrimStart(p) == p;
    assert IsWhitespace(p[|p| - 1]);
    assert p[..|p| - 1] == "the cot";
    assert TrimEnd(p) == TrimEnd("the cot");
    assert !IsWhitespace('t');
    assert Trim(p) == "the cot";
    assert Split("the cot") == ["the", "cot"] by {
      SplitJoin(["the", "cot"]);
      assert Join(["the", "cot"]) == "the cot";
    }
    WordsOfTheCatSat();
  }

  /** In "the cat sat", completing the word "cot" with a space counts a
      typo, but the accuracy the same event writes is still the one computed
      from the earlier count: 100. The next event writes 2 of 3 words, 67. */
  lemma AccuracyLagsOneEvent()
    ensures var s := Snapshot("the cat sat", "the cot", 7, Some(100), None, false, false,
                              0, 100, 1, 0, 7, 7);
            var s1 := AfterInput(s, "the cot ", 8, 200);
            var s2 := AfterInput(s1, "the cot s", 9, 300);
            && s1.totalTypos == 1 && s1.accuracy == 100
            && s2.totalTypos == 1 && s2.accuracy == 67
  {
    WordsOfTheCatSat();
    CotIsATypo();
    assert !EndsWithSpace("the cot s");
    AccuracyWithoutTypos(3);
    RoundDivUnique(200, 3, 67);
  }
}
