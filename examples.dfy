/**
 * A worked instance of the parser's two tolerances, odd spacing and mixed
 * case: "  become   HoSt " is the same command as "BECOME HOST".
 */
module CommandExamples {
  import opened Text
  import opened Commands

  lemma BecomeHostExample()
    ensures Parse("  become   HoSt ") == Ok(BecomeHost)
    ensures Parse("BECOME HOST") == Ok(BecomeHost)
  {
    OddSpacingWords();
    PlainWords();
    UpperBecome();
    UpperHost();
    assert Classify(["become", "HoSt"]) == BecomeHost;
    assert Classify(["BECOME", "HOST"]) == BecomeHost;
  }

  lemma OddSpacingWords()
    ensures SplitWhitespace("  become   HoSt ") == ["become", "HoSt"]
  {
    var ws, gs := ["become", "HoSt"], ["  ", "   ", " "];
    assert Layout(ws, gs) == "  become   HoSt ";
    assert IsWord(ws[0]) && IsWord(ws[1]);
    assert ValidGaps(ws, gs);
    SplitLayout(ws, gs);
  }

  lemma PlainWords()
    ensures SplitWhitespace("BECOME HOST") == ["BECOME", "HOST"]
  {
    var ws, gs := ["BECOME", "HOST"], ["", " ", ""];
    assert Layout(ws, gs) == "BECOME HOST";
    assert IsWord(ws[0]) && IsWord(ws[1]);
    assert ValidGaps(ws, gs);
    SplitLayout(ws, gs);
  }

  lemma UpperBecome()
    ensures ToUpper("become") == ToUpper("BECOME") == "BECOME"
  {
    LowerBecome();
    ToUpperKeyword("BECOME");
  }

  lemma LowerBecome()
    ensures ToUpper("become") == "BECOME"
  {
  }

  lemma UpperHost()
    ensures ToUpper("HoSt") == ToUpper("HOST") == "HOST"
  {
    MixedHost();
    ToUpperKeyword("HOST");
  }

  lemma MixedHost()
    ensures ToUpper("HoSt") == "HOST"
  {
  }
}
