/** Worked runs of the tokenizer on small texts. Each turn of the scan loop is
    its own lemma, stating the state the turn leads to; the scan of the whole
    text chains them, and the post-passes are then evaluated on the result. */
module Scenarios {
  import opened Chars
  import opened Tags
  import opened Tokens
  import opened Scanner
  import opened Repair
  import opened Interactions
  import opened Ordering
  import opened TokenParser

  // ---------------------------------------------------------------------------
  // "a__b__c": one strong span

  const StrongText: string := "a__b__c"
  const StrongSpan: Token := Token(Some(Strong), Some(0), 1, Some(4), Flags(false, true))

  lemma StrongTextStep1()
    ensures Run(StrongText, Start) == Run(StrongText, ScanState(1, [Root], 0, []))
  {
    IsMarkHereCases(StrongText, 0);
    assert Step(StrongText, Start) == ScanState(1, [Root], 0, []);
  }

  lemma StrongTextStep2()
    ensures Run(StrongText, ScanState(1, [Root], 0, [])) == Run(StrongText, ScanState(3, [Root, NewChild(Strong, 0, 1)], 1, []))
  {
    IsMarkHereCases(StrongText, 1);
    assert Step(StrongText, ScanState(1, [Root], 0, [])) == ScanState(3, [Root, NewChild(Strong, 0, 1)], 1, []);
  }

  lemma StrongTextStep3()
    ensures Run(StrongText, ScanState(3, [Root, NewChild(Strong, 0, 1)], 1, [])) == Run(StrongText, ScanState(4, [Root, StrongSpan.(end := None)], 1, []))
  {
    IsMarkHereCases(StrongText, 3);
    assert Step(StrongText, ScanState(3, [Root, NewChild(Strong, 0, 1)], 1, [])) == ScanState(4, [Root, StrongSpan.(end := None)], 1, []);
  }

  lemma StrongTextStep4()
    ensures Run(StrongText, ScanState(4, [Root, StrongSpan.(end := None)], 1, [])) == Run(StrongText, ScanState(6, [Root, StrongSpan], 0, [1]))
  {
    IsMarkHereCases(StrongText, 4);
    assert Step(StrongText, ScanState(4, [Root, StrongSpan.(end := None)], 1, [])) == ScanState(6, [Root, StrongSpan], 0, [1]);
  }

  lemma StrongTextStep5()
    ensures Run(StrongText, ScanState(6, [Root, StrongSpan], 0, [1])) == Run(StrongText, ScanState(7, [Root, StrongSpan], 0, [1]))
  {
    IsMarkHereCases(StrongText, 6);
    assert Step(StrongText, ScanState(6, [Root, StrongSpan], 0, [1])) == ScanState(7, [Root, StrongSpan], 0, [1]);
  }

  lemma StrongScan()
    ensures Scan(StrongText) == ScanState(7, [Root, StrongSpan], 0, [1])
  {
    StrongTextStep1(); StrongTextStep2(); StrongTextStep3(); StrongTextStep4(); StrongTextStep5();
  }

  /** "a__b__c" reports one strong span, from the mark at index 1 to the mark
      at index 4, with no parent. */
  lemma StrongScenario()
    ensures Parse(StrongText) == ParseResult([Root, StrongSpan.(parent := None)], [1])
  {
    StrongScan();
    assert Repaired([Root, StrongSpan], [1]) == [Root, StrongSpan.(parent := None)];
  }

  // ---------------------------------------------------------------------------
  // "_a__b__c_": a strong span inside an em span is dropped

  const NestedText: string := "_a__b__c_"
  const EmOpen: Token := Token(Some(Em), Some(0), 0, None, Flags(false, true))
  const StrongOpen: Token := Token(Some(Strong), Some(1), 2, None, Flags(false, true))
  const StrongDone: Token := StrongOpen.(end := Some(5))
  const EmDone: Token := EmOpen.(end := Some(8))

  lemma NestedTextStep1()
    ensures Run(NestedText, Start) == Run(NestedText, ScanState(1, [Root, NewChild(Em, 0, 0)], 1, []))
  {
    IsMarkHereCases(NestedText, 0);
    assert Step(NestedText, Start) == ScanState(1, [Root, NewChild(Em, 0, 0)], 1, []);
  }

  lemma NestedTextStep2()
    ensures Run(NestedText, ScanState(1, [Root, NewChild(Em, 0, 0)], 1, [])) == Run(NestedText, ScanState(2, [Root, EmOpen], 1, []))
  {
    IsMarkHereCases(NestedText, 1);
    assert Step(NestedText, ScanState(1, [Root, NewChild(Em, 0, 0)], 1, [])) == ScanState(2, [Root, EmOpen], 1, []);
  }

  lemma NestedTextStep3()
    ensures Run(NestedText, ScanState(2, [Root, EmOpen], 1, [])) == Run(NestedText, ScanState(4, [Root, EmOpen, NewChild(Strong, 1, 2)], 2, []))
  {
    IsMarkHereCases(NestedText, 2);
    assert Step(NestedText, ScanState(2, [Root, EmOpen], 1, [])) == ScanState(4, [Root, EmOpen, NewChild(Strong, 1, 2)], 2, []);
  }

  lemma NestedTextStep4()
    ensures Run(NestedText, ScanState(4, [Root, EmOpen, NewChild(Strong, 1, 2)], 2, [])) == Run(NestedText, ScanState(5, [Root, EmOpen, StrongOpen], 2, []))
  {
    IsMarkHereCases(NestedText, 4);
    assert Step(NestedText, ScanState(4, [Root, EmOpen, NewChild(Strong, 1, 2)], 2, [])) == ScanState(5, [Root, EmOpen, StrongOpen], 2, []);
  }

  lemma NestedTextStep5()
    ensures Run(NestedText, ScanState(5, [Root, EmOpen, StrongOpen], 2, [])) == Run(NestedText, ScanState(7, [Root, EmOpen, StrongDone], 1, [2]))
  {
    IsMarkHereCases(NestedText, 5);
    assert Step(NestedText, ScanState(5, [Root, EmOpen, StrongOpen], 2, [])) == ScanState(7, [Root, EmOpen, StrongDone], 1, [2]);
  }

  lemma NestedTextStep6()
    ensures Run(NestedText, ScanState(7, [Root, EmOpen, StrongDone], 1, [2])) == Run(NestedText, ScanState(8, [Root, EmOpen, StrongDone], 1, [2]))
  {
    IsMarkHereCases(NestedText, 7);
    assert Step(NestedText, ScanState(7, [Root, EmOpen, StrongDone], 1, [2])) == ScanState(8, [Root, EmOpen, StrongDone], 1, [2]);
  }

  lemma NestedTextStep7()
    ensures Run(NestedText, ScanState(8, [Root, EmOpen, StrongDone], 1, [2])) == Run(NestedText, ScanState(9, [Root, EmDone, StrongDone], 0, [2, 1]))
  {
    IsMarkHereCases(NestedText, 8);
    assert Step(NestedText, ScanState(8, [Root, EmOpen, StrongDone], 1, [2])) == ScanState(9, [Root, EmDone, StrongDone], 0, [2, 1]);
  }

  lemma NestedFilter()
    ensures RemoveIncorrectInteractedTokens([Root, EmDone.(parent := None), StrongDone], [2, 1]) == [1]
  {
    var repaired := [Root, EmDone.(parent := None), StrongDone];
    assert StrongUnderEm(repaired, 2) && !StrongUnderEm(repaired, 1);
    assert [2, 1][1..] == [1] && [1][1..] == [];
  }

  lemma NestedScan()
    ensures Scan(NestedText) == ScanState(9, [Root, EmDone, StrongDone], 0, [2, 1])
  {
    NestedTextStep1(); NestedTextStep2(); NestedTextStep3(); NestedTextStep4();
    NestedTextStep5(); NestedTextStep6(); NestedTextStep7();
  }

  /** "_a__b__c_": the scan closes the strong span (indices 2 to 5) and then
      the em span (0 to 8); the strong span keeps the closed em span as its
      parent and is dropped by the interaction rule, so only the em span is
      reported. */
  lemma NestedScenario()
    ensures Parse(NestedText) == ParseResult([Root, EmDone.(parent := None), StrongDone], [1])
  {
    NestedScan();
    assert Repaired([Root, EmDone, StrongDone], [2, 1]) == [Root, EmDone.(parent := None), StrongDone];
    NestedFilter();
  }

  // ---------------------------------------------------------------------------
  // "# a\n": a heading closed by the line feed

  const HeadingText: string := "# a\n"
  const HeadingToken: Token := NewChild(Heading, 0, 0).(end := Some(3))

  lemma HeadingTextStep1()
    ensures Run(HeadingText, Start) == Run(HeadingText, ScanState(2, [Root, NewChild(Heading, 0, 0)], 1, []))
  {
    IsMarkHereCases(HeadingText, 0);
    assert Step(HeadingText, Start) == ScanState(2, [Root, NewChild(Heading, 0, 0)], 1, []);
  }

  lemma HeadingTextStep2()
    ensures Run(HeadingText, ScanState(2, [Root, NewChild(Heading, 0, 0)], 1, [])) == Run(HeadingText, ScanState(3, [Root, NewChild(Heading, 0, 0)], 1, []))
  {
    IsMarkHereCases(HeadingText, 2);
    assert Step(HeadingText, ScanState(2, [Root, NewChild(Heading, 0, 0)], 1, [])) == ScanState(3, [Root, NewChild(Heading, 0, 0)], 1, []);
  }

  lemma HeadingTextStep3()
    ensures Run(HeadingText, ScanState(3, [Root, NewChild(Heading, 0, 0)], 1, [])) == Run(HeadingText, ScanState(4, [Root, HeadingToken], 0, [1]))
  {
    IsMarkHereCases(HeadingText, 3);
    assert Step(HeadingText, ScanState(3, [Root, NewChild(Heading, 0, 0)], 1, [])) == ScanState(4, [Root, HeadingToken], 0, [1]);
  }

  lemma HeadingScan()
    ensures Scan(HeadingText) == ScanState(4, [Root, HeadingToken], 0, [1])
  {
    HeadingTextStep1(); HeadingTextStep2(); HeadingTextStep3();
  }

  /** "# a\n" reports one heading from index 0 to the line feed at index 3. */
  lemma HeadingScenario()
    ensures Parse(HeadingText) == ParseResult([Root, HeadingToken.(parent := None)], [1])
  {
    HeadingScan();
    assert Repaired([Root, HeadingToken], [1]) == [Root, HeadingToken.(parent := None)];
  }

  // ---------------------------------------------------------------------------
  // "__a": a span that never closes

  const UnclosedText: string := "__a"

  lemma UnclosedTextStep1()
    ensures Run(UnclosedText, Start) == Run(UnclosedText, ScanState(2, [Root, NewChild(Strong, 0, 0)], 1, []))
  {
    IsMarkHereCases(UnclosedText, 0);
    assert Step(UnclosedText, Start) == ScanState(2, [Root, NewChild(Strong, 0, 0)], 1, []);
  }

  lemma UnclosedTextStep2()
    ensures Run(UnclosedText, ScanState(2, [Root, NewChild(Strong, 0, 0)], 1, [])) == Run(UnclosedText, ScanState(3, [Root, NewChild(Strong, 0, 0).(flags := Flags(false, true))], 1, []))
  {
    IsMarkHereCases(UnclosedText, 2);
    assert Step(UnclosedText, ScanState(2, [Root, NewChild(Strong, 0, 0)], 1, [])) == ScanState(3, [Root, NewChild(Strong, 0, 0).(flags := Flags(false, true))], 1, []);
  }

  lemma UnclosedScan()
    ensures Scan(UnclosedText).finished == []
  {
    UnclosedTextStep1(); UnclosedTextStep2();
  }

  /** "__a" opens a strong span that is still open at the end of the text, so
      nothing is reported. */
  lemma UnclosedScenario()
    ensures Parse(UnclosedText).tokens == []
  {
    UnclosedScan();
  }

  // ---------------------------------------------------------------------------
  // "__ __": marks followed by white space never open

  const SpacedText: string := "__ __"

  lemma SpacedTextStep1()
    ensures Run(SpacedText, Start) == Run(SpacedText, ScanState(1, [Root], 0, []))
  {
    IsMarkHereCases(SpacedText, 0);
    assert Step(SpacedText, Start) == ScanState(1, [Root], 0, []);
  }

  lemma SpacedTextStep2()
    ensures Run(SpacedText, ScanState(1, [Root], 0, [])) == Run(SpacedText, ScanState(2, [Root], 0, []))
  {
    IsMarkHereCases(SpacedText, 1);
    assert Step(SpacedText, ScanState(1, [Root], 0, [])) == ScanState(2, [Root], 0, []);
  }

  lemma SpacedTextStep3()
    ensures Run(SpacedText, ScanState(2, [Root], 0, [])) == Run(SpacedText, ScanState(3, [Root], 0, []))
  {
    IsMarkHereCases(SpacedText, 2);
    assert Step(SpacedText, ScanState(2, [Root], 0, [])) == ScanState(3, [Root], 0, []);
  }

  lemma SpacedTextStep4()
    ensures Run(SpacedText, ScanState(3, [Root], 0, [])) == Run(SpacedText, ScanState(4, [Root], 0, []))
  {
    IsMarkHereCases(SpacedText, 3);
    assert Step(SpacedText, ScanState(3, [Root], 0, [])) == ScanState(4, [Root], 0, []);
  }

  lemma SpacedTextStep5()
    ensures Run(SpacedText, ScanState(4, [Root], 0, [])) == Run(SpacedText, ScanState(5, [Root], 0, []))
  {
    IsMarkHereCases(SpacedText, 4);
    assert Step(SpacedText, ScanState(4, [Root], 0, [])) == ScanState(5, [Root], 0, []);
  }

  lemma SpacedScan()
    ensures Scan(SpacedText).finished == []
  {
    SpacedTextStep1(); SpacedTextStep2(); SpacedTextStep3(); SpacedTextStep4(); SpacedTextStep5();
  }

  /** "__ __": no mark can open, since each is followed by white space or by
      the end of the text; nothing is reported. */
  lemma SpacedScenario()
    ensures Parse(SpacedText).tokens == []
  {
    SpacedScan();
  }

  // ---------------------------------------------------------------------------
  // "a_b_c": one em span

  const EmText: string := "a_b_c"
  const EmSpan: Token := Token(Some(Em), Some(0), 1, Some(3), Flags(false, true))

  lemma EmTextStep1()
    ensures Run(EmText, Start) == Run(EmText, ScanState(1, [Root], 0, []))
  {
    IsMarkHereCases(EmText, 0);
    assert Step(EmText, Start) == ScanState(1, [Root], 0, []);
  }

  lemma EmTextStep2()
    ensures Run(EmText, ScanState(1, [Root], 0, [])) == Run(EmText, ScanState(2, [Root, NewChild(Em, 0, 1)], 1, []))
  {
    IsMarkHereCases(EmText, 1);
    assert Step(EmText, ScanState(1, [Root], 0, [])) == ScanState(2, [Root, NewChild(Em, 0, 1)], 1, []);
  }

  lemma EmTextStep3()
    ensures Run(EmText, ScanState(2, [Root, NewChild(Em, 0, 1)], 1, [])) == Run(EmText, ScanState(3, [Root, EmSpan.(end := None)], 1, []))
  {
    IsMarkHereCases(EmText, 2);
    assert Step(EmText, ScanState(2, [Root, NewChild(Em, 0, 1)], 1, [])) == ScanState(3, [Root, EmSpan.(end := None)], 1, []);
  }

  lemma EmTextStep4()
    ensures Run(EmText, ScanState(3, [Root, EmSpan.(end := None)], 1, [])) == Run(EmText, ScanState(4, [Root, EmSpan], 0, [1]))
  {
    IsMarkHereCases(EmText, 3);
    assert Step(EmText, ScanState(3, [Root, EmSpan.(end := None)], 1, [])) == ScanState(4, [Root, EmSpan], 0, [1]);
  }

  lemma EmTextStep5()
    ensures Run(EmText, ScanState(4, [Root, EmSpan], 0, [1])) == Run(EmText, ScanState(5, [Root, EmSpan], 0, [1]))
  {
    IsMarkHereCases(EmText, 4);
    assert Step(EmText, ScanState(4, [Root, EmSpan], 0, [1])) == ScanState(5, [Root, EmSpan], 0, [1]);
  }

  lemma EmScan()
    ensures Scan(EmText) == ScanState(5, [Root, EmSpan], 0, [1])
  {
    EmTextStep1(); EmTextStep2(); EmTextStep3(); EmTextStep4(); EmTextStep5();
  }

  /** "a_b_c" reports one em span, from index 1 to index 3, with no parent. */
  lemma EmScenario()
    ensures Parse(EmText) == ParseResult([Root, EmSpan.(parent := None)], [1])
  {
    EmScan();
    assert Repaired([Root, EmSpan], [1]) == [Root, EmSpan.(parent := None)];
  }

  // ---------------------------------------------------------------------------
  // "\\_\\_a\\_\\_": every mark character escaped

  const EscapedText: string := "\\_\\_a\\_\\_"

  lemma EscapedTextStep1()
    ensures Run(EscapedText, Start) == Run(EscapedText, ScanState(2, [Root], 0, []))
  {
    IsMarkHereCases(EscapedText, 0);
    assert Step(EscapedText, Start) == ScanState(2, [Root], 0, []);
  }

  lemma EscapedTextStep2()
    ensures Run(EscapedText, ScanState(2, [Root], 0, [])) == Run(EscapedText, ScanState(4, [Root], 0, []))
  {
    IsMarkHereCases(EscapedText, 2);
    assert Step(EscapedText, ScanState(2, [Root], 0, [])) == ScanState(4, [Root], 0, []);
  }

  lemma EscapedTextStep3()
    ensures Run(EscapedText, ScanState(4, [Root], 0, [])) == Run(EscapedText, ScanState(5, [Root], 0, []))
  {
    IsMarkHereCases(EscapedText, 4);
    assert Step(EscapedText, ScanState(4, [Root], 0, [])) == ScanState(5, [Root], 0, []);
  }

  lemma EscapedTextStep4()
    ensures Run(EscapedText, ScanState(5, [Root], 0, [])) == Run(EscapedText, ScanState(7, [Root], 0, []))
  {
    IsMarkHereCases(EscapedText, 5);
    assert Step(EscapedText, ScanState(5, [Root], 0, [])) == ScanState(7, [Root], 0, []);
  }

  lemma EscapedTextStep5()
    ensures Run(EscapedText, ScanState(7, [Root], 0, [])) == Run(EscapedText, ScanState(9, [Root], 0, []))
  {
    IsMarkHereCases(EscapedText, 7);
    assert Step(EscapedText, ScanState(7, [Root], 0, [])) == ScanState(9, [Root], 0, []);
  }

  lemma EscapedScan()
    ensures Scan(EscapedText).finished == []
  {
    EscapedTextStep1(); EscapedTextStep2(); EscapedTextStep3(); EscapedTextStep4(); EscapedTextStep5();
  }

  /** With each underscore escaped, no mark is seen and nothing is reported. */
  lemma EscapedScenario()
    ensures Parse(EscapedText).tokens == []
  {
    EscapedScan();
  }
}
