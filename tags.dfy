/** The tag table of the tokenizer: three mark kinds in a fixed order, their
    marks and labels, the hooks that decide whether a mark may open or close a
    span, the per-character hook that sets a token's flags, the interaction
    rules, and mark detection at a text position. */
module Tags {
  import opened Chars

  datatype Tag = Strong | Em | Heading

  /** The per-token booleans (`CustomBools`): whether a white-space character
      and whether a letter were seen while the token was innermost. */
  datatype Flags = Flags(hasSpace: bool, hasLetter: bool)

  const NoFlags: Flags := Flags(false, false)

  /** What the per-character hook asks of the scanner. */
  datatype CharOutcome = Continue | PopToParent

  /** A cross-token rule: the token's parent must not carry this label. */
  datatype InteractionRule = ParentLabelIsNot(forbidden: string)

  /** `Environment.NewLine`, fixed to a line feed. */
  const NewLine: string := "\n"

  /** The table, in declaration order: this order decides mark detection. */
  const Tags: seq<Tag> := [Strong, Em, Heading]

  function OpenMark(tag: Tag): (m: string)
    ensures 1 <= |m| <= 2
  {
    match tag
    case Strong => "__"
    case Em => "_"
    case Heading => "# "
  }

  function CloseMark(tag: Tag): (m: string)
    ensures 1 <= |m| <= 2
  {
    match tag
    case Strong => "__"
    case Em => "_"
    case Heading => NewLine
  }

  function Label(tag: Tag): string {
    match tag
    case Strong => "strong"
    case Em => "em"
    case Heading => "h1"
  }

  function Rules(tag: Tag): seq<InteractionRule> {
    match tag
    case Strong => [ParentLabelIsNot("em")]
    case Em => []
    case Heading => []
  }

  /** The heading's open hook: every character from `startInd` down to index 1
      is white space (index 0 is never looked at). */
  predicate OnlyWhiteSpaceDownTo1(text: string, startInd: nat)
    requires startInd < |text|
  {
    forall j :: 1 <= j <= startInd ==> IsWhiteSpace(text[j])
  }

  /** The open hook, asked with the index where the opening mark starts. An
      emphasis mark opens only when a non-white-space character follows it;
      a heading can always open at index 0. */
  predicate CanOpen(tag: Tag, text: string, startInd: nat)
    requires startInd < |text|
    ensures tag != Heading ==>
      (CanOpen(tag, text, startInd) <==>
        startInd + |OpenMark(tag)| < |text| && !IsWhiteSpace(text[startInd + |OpenMark(tag)|]))
    ensures tag == Heading && startInd == 0 ==> CanOpen(tag, text, startInd)
  {
    match tag
    case Strong => NonWhiteAt(text, startInd + |OpenMark(tag)|)
    case Em => NonWhiteAt(text, startInd + |OpenMark(tag)|)
    case Heading => OnlyWhiteSpaceDownTo1(text, startInd)
  }

  /** The close hook, asked with the index where the closing mark starts. An
      emphasis mark closes only right after a non-white-space character; a
      heading always closes. */
  predicate CanClose(tag: Tag, text: string, endInd: int)
    ensures CanClose(tag, text, endInd) <==>
      tag == Heading || (0 < endInd <= |text| && !IsWhiteSpace(text[endInd - 1]))
  {
    match tag
    case Strong => NonWhiteAt(text, endInd - 1)
    case Em => NonWhiteAt(text, endInd - 1)
    case Heading => true
  }

  /** The emphasis acceptance rule: a letter was seen, and if a white-space
      character was seen then neither character just outside the marks is a
      non-white-space character. */
  predicate AcceptEmphasis(tag: Tag, start: int, flags: Flags, text: string, endInd: int)
    ensures AcceptEmphasis(tag, start, flags, text, endInd) ==> flags.hasLetter
    ensures flags.hasLetter && !flags.hasSpace ==> AcceptEmphasis(tag, start, flags, text, endInd)
  {
    flags.hasLetter &&
    (!(NonWhiteAt(text, start - 1) || NonWhiteAt(text, endInd + |CloseMark(tag)|))
     || !flags.hasSpace)
  }

  /** The final acceptance hook, asked once a close is otherwise allowed. */
  predicate Accept(tag: Tag, start: int, flags: Flags, text: string, endInd: int)
    ensures tag == Heading ==> Accept(tag, start, flags, text, endInd)
    ensures tag != Heading && Accept(tag, start, flags, text, endInd) ==> flags.hasLetter
  {
    match tag
    case Strong => AcceptEmphasis(tag, start, flags, text, endInd)
    case Em => AcceptEmphasis(tag, start, flags, text, endInd)
    case Heading => true
  }

  /** The per-character hook: the emphasis tags record white space and letters;
      no tag ever asks to be abandoned, and no flag is ever cleared. */
  function OnChar(tag: Tag, flags: Flags, ch: char): (r: (Flags, CharOutcome))
    ensures r.1 == Continue
    ensures flags.hasSpace ==> r.0.hasSpace
    ensures flags.hasLetter ==> r.0.hasLetter
    ensures r.0.hasSpace ==> flags.hasSpace || (tag != Heading && IsWhiteSpace(ch))
    ensures r.0.hasLetter ==> flags.hasLetter || (tag != Heading && IsLetter(ch))
    ensures tag != Heading ==> (IsWhiteSpace(ch) ==> r.0.hasSpace) && (IsLetter(ch) ==> r.0.hasLetter)
  {
    match tag
    case Heading => (flags, Continue)
    case _ =>
      var withSpace := if IsWhiteSpace(ch) then flags.(hasSpace := true) else flags;
      var withLetter := if IsLetter(ch) then withSpace.(hasLetter := true) else withSpace;
      (withLetter, Continue)
  }

  /** The heading's open hook as the source writes it: a loop from `startInd`
      down to 1 that fails on the first non-white-space character. */
  method CanOpenHeading(text: string, startInd: nat) returns (ok: bool)
    requires startInd < |text|
    ensures ok <==> forall j :: 1 <= j <= startInd ==> IsWhiteSpace(text[j])
  {
    var i := startInd;
    while i > 0
      invariant 0 <= i <= startInd
      invariant forall j :: i < j <= startInd ==> IsWhiteSpace(text[j])
    {
      if !IsWhiteSpace(text[i]) {
        return false;
      }
      i := i - 1;
    }
    return true;
  }

  /** A heading opening mark ("# ") only opens at index 0, because the hook
      starts its check on the '#' itself. */
  lemma {:induction false} HeadingOpensOnlyAtStart(text: string, i: nat)
    requires ContainsAt(text, OpenMark(Heading), i)
    ensures CanOpen(Heading, text, i) <==> i == 0
  {
    assert text[i..i + 2][0] == '#';
    if i > 0 {
      assert !IsWhiteSpace(text[i]);
    }
  }

  /** A mark found at a position: its tag, and whether it was the open mark. */
  datatype Mark = Mark(tag: Tag, isStart: bool)

  /** The mark `m` matches at `index`: its tag's close mark when `m.isStart`
      is false, its open mark (and not its close mark) otherwise. */
  predicate MarkMatches(text: string, index: int, m: Mark) {
    if m.isStart then
      ContainsAt(text, OpenMark(m.tag), index) && !ContainsAt(text, CloseMark(m.tag), index)
    else
      ContainsAt(text, CloseMark(m.tag), index)
  }

  predicate NoMarkOf(text: string, index: int, tag: Tag) {
    !ContainsAt(text, CloseMark(tag), index) && !ContainsAt(text, OpenMark(tag), index)
  }

  /** The first-match search of `IsMarkHere` over a list of tags: per tag the
      close mark first, then the open mark; the first tag that matches wins. */
  function FindMark(text: string, index: int, tags: seq<Tag>): (r: Option<Mark>)
    ensures r.None? <==> forall n :: 0 <= n < |tags| ==> NoMarkOf(text, index, tags[n])
    ensures r.Some? ==> MarkMatches(text, index, r.value)
    ensures r.Some? ==>
      exists n :: 0 <= n < |tags| && tags[n] == r.value.tag && (forall p :: 0 <= p < n ==> NoMarkOf(text, index, tags[p]))
  {
    if tags == [] then None
    else if ContainsAt(text, CloseMark(tags[0]), index) then Some(Mark(tags[0], false))
    else if ContainsAt(text, OpenMark(tags[0]), index) then Some(Mark(tags[0], true))
    else
      var r := FindMark(text, index, tags[1..]);
      assert forall n :: 1 <= n < |tags| ==> tags[n] == tags[1..][n - 1];
      r
  }

  /** `IsMarkHere`: the mark at `index`, searching the table in order. */
  function IsMarkHere(text: string, index: int): (r: Option<Mark>)
    ensures r.None? <==> forall n :: 0 <= n < |Tags| ==> NoMarkOf(text, index, Tags[n])
    ensures r.Some? ==> MarkMatches(text, index, r.value)
  {
    FindMark(text, index, Tags)
  }

  /** Mark detection on this table, with the search unrolled. */
  lemma IsMarkHereUnrolled(text: string, i: int)
    ensures IsMarkHere(text, i) ==
      if ContainsAt(text, "__", i) then Some(Mark(Strong, false))
      else if ContainsAt(text, "_", i) then Some(Mark(Em, false))
      else if ContainsAt(text, "\n", i) then Some(Mark(Heading, false))
      else if ContainsAt(text, "# ", i) then Some(Mark(Heading, true))
      else None
  {
    var rest := FindMark(text, i, [Heading]);
    assert [Heading][1..] == [];
    assert rest == if ContainsAt(text, "\n", i) then Some(Mark(Heading, false))
      else if ContainsAt(text, "# ", i) then Some(Mark(Heading, true)) else None;
    var fromEm := FindMark(text, i, [Em, Heading]);
    assert [Em, Heading][1..] == [Heading];
    assert fromEm == if ContainsAt(text, "_", i) then Some(Mark(Em, false)) else rest;
    assert Tags[1..] == [Em, Heading];
  }

  /** What mark detection yields on this table: "__" is always a strong close
      mark, a lone "_" an em close mark, "\n" a heading close mark, "# " the
      only open mark; every other position has none. */
  lemma {:induction false} IsMarkHereCases(text: string, i: int)
    requires 0 <= i < |text|
    ensures IsMarkHere(text, i) == Some(Mark(Strong, false)) <==>
      i + 1 < |text| && text[i] == '_' && text[i + 1] == '_'
    ensures IsMarkHere(text, i) == Some(Mark(Em, false)) <==>
      text[i] == '_' && !(i + 1 < |text| && text[i + 1] == '_')
    ensures IsMarkHere(text, i) == Some(Mark(Heading, false)) <==> text[i] == '\n'
    ensures IsMarkHere(text, i) == Some(Mark(Heading, true)) <==>
      i + 1 < |text| && text[i] == '#' && text[i + 1] == ' '
    ensures IsMarkHere(text, i).None? <==>
      text[i] != '_' && text[i] != '\n' && !(i + 1 < |text| && text[i] == '#' && text[i + 1] == ' ')
    ensures IsMarkHere(text, i).Some? ==>
      (IsMarkHere(text, i).value.isStart <==> IsMarkHere(text, i).value.tag == Heading && text[i] == '#')
  {
    IsMarkHereUnrolled(text, i);
    ContainsAtChars(text, "__", i);
    ContainsAtChars(text, "_", i);
    ContainsAtChars(text, "\n", i);
    ContainsAtChars(text, "# ", i);
  }
}
