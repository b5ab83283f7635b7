/** `TokenParser.ParseTokens`: the scan, the parent repair, the interaction
    filter and the ordering by start, and what the whole pipeline guarantees
    about the tokens it reports. */
module TokenParser {
  import opened Chars
  import opened Tags
  import opened Tokens
  import opened Scanner
  import opened Repair
  import opened Interactions
  import opened Ordering
  import opened Nesting
  import opened Feeding

  /** The reported tokens are indices into the arena, whose entries carry the
      repaired parent links. */
  datatype ParseResult = ParseResult(arena: seq<Token>, tokens: seq<nat>)

  /** What the scan leaves behind: the finished list names closed tokens of
      the arena, each once. */
  lemma ScanFinished(text: string)
    ensures WellLinked(Scan(text).arena)
    ensures InArena(Scan(text).arena, Scan(text).finished)
    ensures FinishedTokens(Scan(text).arena, Scan(text).finished)
  {
    ScanInvariant(text);
  }

  /** The pipeline of `ParseTokens` on values. */
  function Parse(text: string): (r: ParseResult)
    ensures |r.arena| == |Scan(text).arena| && InArena(r.arena, r.tokens)
    ensures SortedByStart(r.arena, r.tokens)
    ensures forall k :: k in r.tokens ==> k in Scan(text).finished
  {
    var st := Scan(text);
    ScanFinished(text);
    var arena := Repaired(st.arena, st.finished);
    RepairedLinks(st.arena, st.finished);
    var kept := RemoveIncorrectInteractedTokens(arena, st.finished);
    MultisetKeepsMembers(OrderByStart(arena, kept), kept);
    ParseResult(arena, OrderByStart(arena, kept))
  }

  /** `ParseTokens` as the source sequences it. */
  method ParseTokens(text: string) returns (result: ParseResult)
    ensures result == Parse(text)
  {
    var arena, tokens := FindTokens(text);
    ScanFinished(text);
    arena := RemoveUnreadyParents(arena, tokens);
    RepairedLinks(Scan(text).arena, tokens);
    tokens := RemoveIncorrectInteractedTokens(arena, tokens);
    result := ParseResult(arena, OrderByStart(arena, tokens));
  }

  // ---------------------------------------------------------------------------
  // What the reported tokens are

  /** A span of `text` as the hooks accepted it: it starts at a mark of its tag
      where the open hook held, and ends at a later close mark of its tag where
      the close and accept hooks held, with the opening mark before the end. */
  predicate Recognised(text: string, t: Token) {
    match (t.tag, t.end)
    case (Some(tag), Some(e)) =>
      && t.start < |text|
      && (ContainsAt(text, OpenMark(tag), t.start) || ContainsAt(text, CloseMark(tag), t.start))
      && CanOpen(tag, text, t.start)
      && t.start + |OpenMark(tag)| <= e
      && ContainsAt(text, CloseMark(tag), e)
      && CanClose(tag, text, e)
      && Accept(tag, t.start, t.flags, text, e)
    case _ => false
  }

  /** A token of the scan's arena, seen after the repair: only its parent link
      differs. */
  lemma RepairedToken(text: string, k: nat)
    requires k < |Scan(text).arena|
    ensures var st := Scan(text);
      k < |Parse(text).arena| && Parse(text).arena[k] == st.arena[k].(parent := Parse(text).arena[k].parent)
  {
    ScanFinished(text);
    RepairOnlyRelinks(Scan(text).arena, Scan(text).finished);
  }

  /** A token is reported exactly when the scan closed it and it is not a
      strong span directly under an em span; a token still open at the end of
      the text is never reported. */
  lemma {:induction false} ParseReportsClosedTokens(text: string, k: nat)
    ensures var st := Scan(text); var r := Parse(text);
      k in r.tokens <==>
        && 0 < k < |st.arena|
        && IsClosed(st.arena[k])
        && !StrongUnderEm(r.arena, k)
  {
    var st := Scan(text);
    var r := Parse(text);
    ScanInvariant(text);
    ScanFinished(text);
    RepairedLinks(st.arena, st.finished);
    var kept := RemoveIncorrectInteractedTokens(r.arena, st.finished);
    MultisetKeepsMembers(r.tokens, kept);
  }

  /** A reported token's flags say exactly whether a letter and whether a
      white-space character was handed to it while it was innermost, and
      those characters lie between its marks. */
  lemma ParseFlagsRecordFedCharacters(text: string, k: nat)
    ensures var r := Parse(text); var fed := Fed(text);
      k in r.tokens ==>
        && 0 < k < |r.arena|
        && FlagsRecord(text, r.arena[k], fed, k)
        && (forall j :: j in fed && fed[j] == k ==> Plain(text, j) && InsideMarks(r.arena[k], j))
  {
    if k in Parse(text).tokens {
      ParseReportsClosedTokens(text, k);
      RepairedToken(text, k);
      ScanFlagsRecordFedCharacters(text);
    }
  }

  /** Every reported token is a span the hooks accepted, lying inside the text. */
  lemma ParseReportsRecognisedSpans(text: string)
    ensures var r := Parse(text);
      forall n :: 0 <= n < |r.tokens| ==>
        && 0 < r.tokens[n] < |r.arena|
        && Recognised(text, r.arena[r.tokens[n]])
        && r.arena[r.tokens[n]].end.value + |CloseMark(r.arena[r.tokens[n]].tag.value)| <= |text|
  {
    var st := Scan(text);
    var r := Parse(text);
    ScanInvariant(text);
    forall n | 0 <= n < |r.tokens|
      ensures 0 < r.tokens[n] < |r.arena| && Recognised(text, r.arena[r.tokens[n]])
      ensures r.arena[r.tokens[n]].end.value + |CloseMark(r.arena[r.tokens[n]].tag.value)| <= |text|
    {
      var k := r.tokens[n];
      ParseReportsClosedTokens(text, k);
      RepairedToken(text, k);
      assert TokenConsistent(text, st.arena[k], st.i);
    }
  }

  /** The report is sorted by start, strictly, with no token twice; and it is
      the only such arrangement of the surviving tokens, so the tie rule of
      the sort never matters. */
  lemma {:induction false} ParseIsOrderedByStart(text: string)
    ensures var r := Parse(text);
      && InArena(r.arena, r.tokens)
      && NoDuplicates(r.tokens)
      && (forall a, b :: 0 <= a < b < |r.tokens| ==> r.arena[r.tokens[a]].start < r.arena[r.tokens[b]].start)
    ensures var st := Scan(text); var r := Parse(text);
      forall s: seq<nat> :: InArena(r.arena, s) && multiset(s) == multiset(r.tokens) && SortedByStart(r.arena, s) ==> s == r.tokens
  {
    var st := Scan(text);
    var r := Parse(text);
    ScanInvariant(text);
    ScanFinished(text);
    RepairedLinks(st.arena, st.finished);
    RepairOnlyRelinks(st.arena, st.finished);
    var kept := RemoveIncorrectInteractedTokens(r.arena, st.finished);
    KeepAllowedNoDuplicates(r.arena, st.finished);
    OrderKeepsNoDuplicates(r.arena, kept);
    ParseReportsRecognisedSpans(text);
    assert StartsDistinct(r.arena, r.tokens) by {
      forall a, b | 0 <= a < |r.tokens| && 0 <= b < |r.tokens| && r.tokens[a] < r.tokens[b]
        ensures r.arena[r.tokens[a]].start < r.arena[r.tokens[b]].start
      {
        assert st.arena[r.tokens[a]].start < st.arena[r.tokens[b]].start;
      }
    }
    SortedDistinctIsStrict(r.arena, r.tokens);
    forall s: seq<nat> | InArena(r.arena, s) && multiset(s) == multiset(r.tokens) && SortedByStart(r.arena, s)
      ensures s == r.tokens
    {
      SortedPermutationUnique(r.arena, r.tokens, s);
    }
  }

  /** Every reported token hangs under its nearest closed ancestor of the scan,
      or under nothing; that parent opened before it and was itself closed by
      the scan. */
  lemma {:induction false} ParseParentsAreClosedAncestors(text: string)
    ensures var st := Scan(text); var r := Parse(text);
      forall n :: 0 <= n < |r.tokens| ==>
        && r.tokens[n] < |st.arena|
        && r.arena[r.tokens[n]].parent == NearestClosedAncestor(st.arena, r.tokens[n])
        && match r.arena[r.tokens[n]].parent
           case None => true
           case Some(p) =>
             p < r.tokens[n] && IsClosed(r.arena[p]) && p in st.finished
             && r.arena[p].start < r.arena[r.tokens[n]].start
  {
    var st := Scan(text);
    var r := Parse(text);
    ScanInvariant(text);
    ScanFinished(text);
    RepairOnlyRelinks(st.arena, st.finished);
    forall n | 0 <= n < |r.tokens|
      ensures r.tokens[n] < |st.arena|
      ensures r.arena[r.tokens[n]].parent == NearestClosedAncestor(st.arena, r.tokens[n])
      ensures match r.arena[r.tokens[n]].parent
           case None => true
           case Some(p) =>
             p < r.tokens[n] && IsClosed(r.arena[p]) && p in st.finished
             && r.arena[p].start < r.arena[r.tokens[n]].start
    {
      var k := r.tokens[n];
      ParseReportsClosedTokens(text, k);
      assert k in st.finished;
      match r.arena[k].parent
      case None =>
      case Some(p) =>
        assert IsClosed(st.arena[p]);
        assert 0 < p;
    }
  }

  /** Reported spans nest like brackets: a reported token keeps the token it
      was opened inside as its parent when that token closed, and has no
      parent otherwise; a parent's body holds the whole child span, both
      marks included. */
  lemma {:induction false} ParseSpansNest(text: string)
    ensures var st := Scan(text); var r := Parse(text);
      forall n :: 0 <= n < |r.tokens| ==>
        var k := r.tokens[n];
        && 0 < k < |st.arena|
        && var p := st.arena[k].parent.value;
           && r.arena[k].parent == (if IsClosed(st.arena[p]) then Some(p) else None)
           && (IsClosed(st.arena[p]) ==> 0 < p && InBody(r.arena[k], r.arena[p]) && IsClosed(r.arena[p]))
  {
    var st := Scan(text);
    var r := Parse(text);
    ScanNested(text);
    ParseParentsAreClosedAncestors(text);
    forall n | 0 <= n < |r.tokens|
      ensures 0 < r.tokens[n] < |st.arena|
      ensures var k := r.tokens[n]; var p := st.arena[k].parent.value;
        && r.arena[k].parent == (if IsClosed(st.arena[p]) then Some(p) else None)
        && (IsClosed(st.arena[p]) ==> 0 < p && InBody(r.arena[k], r.arena[p]) && IsClosed(r.arena[p]))
    {
      var k := r.tokens[n];
      ParseReportsClosedTokens(text, k);
      NearestClosedIsParentOrNone(text, k);
      var p := st.arena[k].parent.value;
      if IsClosed(st.arena[p]) {
        assert InBody(st.arena[k], st.arena[p]);
        RepairedToken(text, k);
        RepairedToken(text, p);
      }
    }
  }

  /** A reported strong or em span has a letter between its marks, a
      non-white-space character right after its opening mark and one right
      before its closing mark. */
  lemma ParseEmphasisHasLetter(text: string)
    ensures var r := Parse(text);
      forall n :: 0 <= n < |r.tokens| && r.arena[r.tokens[n]].tag in {Some(Strong), Some(Em)} ==>
        var t := r.arena[r.tokens[n]];
        && t.end.Some?
        && LetterIn(text, t.start + |OpenMark(t.tag.value)|, t.end.value)
        && NonWhiteAt(text, t.start + |OpenMark(t.tag.value)|)
        && NonWhiteAt(text, t.end.value - 1)
  {
    var st := Scan(text);
    var r := Parse(text);
    ScanInvariant(text);
    ParseReportsRecognisedSpans(text);
    forall n | 0 <= n < |r.tokens| && r.arena[r.tokens[n]].tag in {Some(Strong), Some(Em)}
      ensures LetterIn(text, r.arena[r.tokens[n]].start + |OpenMark(r.arena[r.tokens[n]].tag.value)|, r.arena[r.tokens[n]].end.value)
    {
      var k := r.tokens[n];
      ParseReportsClosedTokens(text, k);
      RepairedToken(text, k);
      assert TokenConsistent(text, st.arena[k], st.i);
    }
  }

  /** A recognised heading span starts at index 0 or at a line feed, and
      ends at a line feed. */
  lemma HeadingSpan(text: string, t: Token)
    requires Recognised(text, t) && t.tag == Some(Heading)
    ensures t.start < |text| && (t.start == 0 || text[t.start] == '\n')
    ensures t.end.Some? && t.end.value < |text| && text[t.end.value] == '\n'
  {
    ContainsAtChars(text, NewLine, t.end.value);
    ContainsAtChars(text, NewLine, t.start);
    if ContainsAt(text, OpenMark(Heading), t.start) {
      HeadingOpensOnlyAtStart(text, t.start);
    }
  }

  /** A reported heading starts at index 0, or at a line feed (a close mark
      of the heading taken as an opening when nothing but white space stands
      between index 1 and it), and ends at a line feed. */
  lemma ParseHeadingPlacement(text: string)
    ensures var r := Parse(text);
      forall n :: 0 <= n < |r.tokens| && r.arena[r.tokens[n]].tag == Some(Heading) ==>
        var t := r.arena[r.tokens[n]];
        && t.start < |text| && (t.start == 0 || text[t.start] == '\n')
        && t.end.Some? && t.end.value < |text| && text[t.end.value] == '\n'
  {
    var r := Parse(text);
    ParseReportsRecognisedSpans(text);
    forall n | 0 <= n < |r.tokens| && r.arena[r.tokens[n]].tag == Some(Heading)
      ensures r.arena[r.tokens[n]].start < |text|
      ensures r.arena[r.tokens[n]].start == 0 || text[r.arena[r.tokens[n]].start] == '\n'
      ensures r.arena[r.tokens[n]].end.Some? && r.arena[r.tokens[n]].end.value < |text|
      ensures text[r.arena[r.tokens[n]].end.value] == '\n'
    {
      HeadingSpan(text, r.arena[r.tokens[n]]);
    }
  }

  /** Text whose every other character, from the first, is a backslash
      yields no token. */
  lemma ParseOfEscapedText(text: string)
    requires forall j :: 0 <= j < |text| && j % 2 == 0 ==> text[j] == Escape
    ensures Parse(text).tokens == []
  {
    EscapedTextMakesNoToken(text, Start);
  }
}
