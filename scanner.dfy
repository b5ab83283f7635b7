/** The single forward scan of `FindTokens`. `Step` is one turn of the source's
    `for` loop, `Run` repeats it to the end of the text, and `FindTokens` is the
    loop itself, proved to compute `Scan`. `Inv` is what holds at every loop
    head; `StepKeepsInvariant` is its preservation. */
module Scanner {
  import opened Chars
  import opened Tags
  import opened Tokens

  /** The loop's variables: the scan index, the arena of all tokens created so
      far, the index of the innermost open token, and the finished tokens in
      the order they were closed (the source's `tokens` list). */
  datatype ScanState = ScanState(i: nat, arena: seq<Token>, current: nat, finished: seq<nat>)

  const Start: ScanState := ScanState(0, [Root], 0, [])

  predicate Shaped(st: ScanState) {
    WellLinked(st.arena) && st.current < |st.arena|
  }

  /** The test of `TryCloseToken`: the innermost token has the matched tag, and
      the tag's close and accept hooks both hold at `i`. */
  predicate CanCloseToken(t: Token, tag: Tag, text: string, i: int) {
    t.tag == Some(tag) && CanClose(tag, text, i) && Accept(tag, t.start, t.flags, text, i)
  }

  /** The two-stage attempt on a matched mark: a close mark is first tried as
      the close of the innermost token, and only if that fails, like an open
      mark, as the open of a child. */
  datatype Attempt = CloseCurrent | OpenChild | NotTaken

  function TryMark(text: string, t: Token, m: Mark, i: nat): (r: Attempt)
    requires i < |text|
    ensures r == CloseCurrent <==> !m.isStart && CanCloseToken(t, m.tag, text, i)
    ensures r == OpenChild ==> CanOpen(m.tag, text, i)
    ensures r == NotTaken <==> !CanOpen(m.tag, text, i) && (m.isStart || !CanCloseToken(t, m.tag, text, i))
  {
    if !m.isStart && CanCloseToken(t, m.tag, text, i) then CloseCurrent
    else if CanOpen(m.tag, text, i) then OpenChild
    else NotTaken
  }

  /** A character that is no mark goes to the innermost token's hook. */
  function FeedChar(ch: char, st: ScanState): (r: ScanState)
    requires Shaped(st)
    ensures Shaped(r) && r.i == st.i + 1
  {
    var (t, outcome) := ProcessChar(st.arena[st.current], ch);
    var current := if outcome == PopToParent then ParentOrSelf(t, st.current) else st.current;
    st.(i := st.i + 1, arena := st.arena[st.current := t], current := current)
  }

  /** `TryCloseToken` succeeded: the innermost token ends at the scan index,
      joins the finished list, and the scan pops past closed tokens. */
  function CloseInnermost(st: ScanState, tag: Tag): (r: ScanState)
    requires Shaped(st) && st.arena[st.current].tag.Some?
    ensures Shaped(r) && r.i == st.i + |CloseMark(tag)|
  {
    var arena := st.arena[st.current := st.arena[st.current].(end := Some(st.i))];
    ScanState(st.i + |CloseMark(tag)|, arena, PopClosed(arena, st.current), st.finished + [st.current])
  }

  /** `TryOpenChildToken` succeeded: a child of the innermost token opens at
      the scan index and becomes the innermost token. */
  function OpenInnermost(st: ScanState, tag: Tag): (r: ScanState)
    requires Shaped(st)
    ensures Shaped(r) && r.i == st.i + |OpenMark(tag)|
  {
    ScanState(st.i + |OpenMark(tag)|, st.arena + [NewChild(tag, st.current, st.i)], |st.arena|, st.finished)
  }

  /** One turn of the loop at index `st.i`, with the index the next turn starts
      from (the source's `ref i` adjustment followed by the loop's `i++`). */
  function Step(text: string, st: ScanState): (r: ScanState)
    requires st.i < |text| && Shaped(st)
    ensures Shaped(r) && st.i < r.i <= st.i + 2
  {
    if text[st.i] == Escape then
      // the backslash and the character after it are skipped unseen
      st.(i := st.i + 2)
    else
      match IsMarkHere(text, st.i)
      case None => FeedChar(text[st.i], st)
      case Some(m) =>
        match TryMark(text, st.arena[st.current], m, st.i)
        case CloseCurrent => CloseInnermost(st, m.tag)
        case OpenChild => OpenInnermost(st, m.tag)
        case NotTaken => st.(i := st.i + 1)
  }

  /** The loop from state `st` to the end of the text. */
  function Run(text: string, st: ScanState): (r: ScanState)
    requires Shaped(st)
    ensures Shaped(r) && st.i <= r.i && |text| <= r.i
    decreases |text| - st.i
  {
    if st.i < |text| then Run(text, Step(text, st)) else st
  }

  /** The whole scan, from the root and index 0. It ends with every closed
      token in the finished list exactly once, and the innermost token open. */
  function Scan(text: string): (r: ScanState)
    ensures Shaped(r) && |text| <= r.i
    ensures FinishedExactlyClosed(r.arena, r.finished) && !IsClosed(r.arena[r.current])
  {
    InvAtStart(text);
    RunKeepsInvariant(text, Start);
    Run(text, Start)
  }

  // ---------------------------------------------------------------------------
  // The loop invariant

  ghost predicate LetterIn(text: string, lo: int, hi: int) {
    exists j :: lo <= j < hi && 0 <= j < |text| && IsLetter(text[j])
  }

  ghost predicate SpaceIn(text: string, lo: int, hi: int) {
    exists j :: lo <= j < hi && 0 <= j < |text| && IsWhiteSpace(text[j])
  }

  /** Each flag that is set was set by a character of `text[lo..hi]`. */
  ghost predicate FlagsWitnessed(text: string, f: Flags, lo: int, hi: int) {
    (f.hasLetter ==> LetterIn(text, lo, hi)) && (f.hasSpace ==> SpaceIn(text, lo, hi))
  }

  /** What is known of a non-root token once the scan has reached index `i`:
      it starts at a mark of its tag where the open hook held, its body starts
      after the opening mark; if it is closed, it ends at its close mark where
      the close and accept hooks held; its flags were set by characters of its
      body. */
  ghost predicate TokenConsistent(text: string, t: Token, i: nat) {
    match t.tag
    case None => false
    case Some(tag) =>
      var body := t.start + |OpenMark(tag)|;
      && t.start < |text|
      && (ContainsAt(text, OpenMark(tag), t.start) || ContainsAt(text, CloseMark(tag), t.start))
      && CanOpen(tag, text, t.start)
      && body <= i
      && match t.end
         case None => FlagsWitnessed(text, t.flags, body, i)
         case Some(e) =>
           && body <= e
           && ContainsAt(text, CloseMark(tag), e)
           && e + |CloseMark(tag)| <= i
           && CanClose(tag, text, e)
           && Accept(tag, t.start, t.flags, text, e)
           && FlagsWitnessed(text, t.flags, body, e)
  }

  /** The finished list holds each closed token exactly once, and nothing else. */
  ghost predicate FinishedExactlyClosed(arena: seq<Token>, finished: seq<nat>) {
    && (forall n :: 0 <= n < |finished| ==> finished[n] < |arena| && IsClosed(arena[finished[n]]))
    && (forall k :: 0 <= k < |arena| && IsClosed(arena[k]) ==> k in finished)
    && NoDuplicates(finished)
  }

  /** Tokens are created in the order of their opening marks. */
  ghost predicate StartsIncreasing(arena: seq<Token>) {
    forall a, b :: 0 < a < b < |arena| ==> arena[a].start < arena[b].start
  }

  ghost predicate AllConsistent(text: string, arena: seq<Token>, i: nat) {
    forall k :: 0 < k < |arena| ==> TokenConsistent(text, arena[k], i)
  }

  ghost predicate Inv(text: string, st: ScanState) {
    && Shaped(st)
    && st.i <= |text| + 1
    && !IsClosed(st.arena[st.current])
    && FinishedExactlyClosed(st.arena, st.finished)
    && StartsIncreasing(st.arena)
    && AllConsistent(text, st.arena, st.i)
  }

  lemma InvAtStart(text: string)
    ensures Inv(text, Start)
  {
  }

  /** Advancing the scan index keeps every token consistent. */
  lemma TokenConsistentGrows(text: string, t: Token, i: nat, i': nat)
    requires TokenConsistent(text, t, i) && i <= i'
    ensures TokenConsistent(text, t, i')
  {
    if t.end.None? && t.flags.hasLetter {
      var j :| t.start + |OpenMark(t.tag.value)| <= j < i && 0 <= j < |text| && IsLetter(text[j]);
      assert LetterIn(text, t.start + |OpenMark(t.tag.value)|, i');
    }
    if t.end.None? && t.flags.hasSpace {
      var j :| t.start + |OpenMark(t.tag.value)| <= j < i && 0 <= j < |text| && IsWhiteSpace(text[j]);
      assert SpaceIn(text, t.start + |OpenMark(t.tag.value)|, i');
    }
  }

  lemma ArenaConsistentGrows(text: string, arena: seq<Token>, i: nat, i': nat)
    requires AllConsistent(text, arena, i) && i <= i'
    ensures AllConsistent(text, arena, i')
  {
    forall k | 0 < k < |arena|
      ensures TokenConsistent(text, arena[k], i')
    {
      TokenConsistentGrows(text, arena[k], i, i');
    }
  }

  lemma ArenaConsistentReplace(text: string, arena: seq<Token>, c: nat, t: Token, i: nat)
    requires AllConsistent(text, arena, i) && 0 < c < |arena| && TokenConsistent(text, t, i)
    ensures AllConsistent(text, arena[c := t], i)
  {
  }

  lemma ArenaConsistentAppend(text: string, arena: seq<Token>, t: Token, i: nat)
    requires AllConsistent(text, arena, i) && TokenConsistent(text, t, i)
    ensures AllConsistent(text, arena + [t], i)
  {
  }

  /** Changing only a token's flags keeps the arena's links, the finished list
      and the order of starts as they were. */
  lemma FlagUpdateKeepsShape(arena: seq<Token>, finished: seq<nat>, c: nat, t: Token)
    requires WellLinked(arena) && c < |arena| && t == arena[c].(flags := t.flags)
    requires FinishedExactlyClosed(arena, finished) && StartsIncreasing(arena)
    ensures WellLinked(arena[c := t])
    ensures FinishedExactlyClosed(arena[c := t], finished) && StartsIncreasing(arena[c := t])
  {
  }

  /** The hook sets a flag only for a character that shows it. */
  lemma FeedCharKeepsToken(text: string, was: Token, i: nat)
    requires i < |text| && TokenConsistent(text, was, i) && !IsClosed(was)
    ensures TokenConsistent(text, ProcessChar(was, text[i]).0, i + 1)
  {
    var t := ProcessChar(was, text[i]).0;
    var body := was.start + |OpenMark(was.tag.value)|;
    TokenConsistentGrows(text, was, i, i + 1);
    if t.flags.hasLetter && !was.flags.hasLetter {
      assert LetterIn(text, body, i + 1);
    }
    if t.flags.hasSpace && !was.flags.hasSpace {
      assert SpaceIn(text, body, i + 1);
    }
  }

  lemma FeedCharOnlyTouchesFlags(ch: char, st: ScanState)
    requires Shaped(st)
    ensures FeedChar(ch, st) == st.(i := st.i + 1, arena := st.arena[st.current := ProcessChar(st.arena[st.current], ch).0])
  {
  }

  /** A plain character updates only the flags of the innermost token, and only
      with what that character shows. */
  lemma CharStepKeepsInvariant(text: string, st: ScanState)
    requires Inv(text, st) && st.i < |text|
    ensures Inv(text, FeedChar(text[st.i], st))
  {
    var i, c := st.i, st.current;
    var t := ProcessChar(st.arena[c], text[i]).0;
    var r := FeedChar(text[i], st);
    FeedCharOnlyTouchesFlags(text[i], st);
    FlagUpdateKeepsShape(st.arena, st.finished, c, t);
    ArenaConsistentGrows(text, st.arena, i, i + 1);
    if c > 0 {
      FeedCharKeepsToken(text, st.arena[c], i);
      ArenaConsistentReplace(text, st.arena, c, t, i + 1);
    } else {
      assert r.arena == st.arena;
    }
  }

  /** The closed token's record: it ends at its close mark where both hooks held. */
  lemma CloseKeepsToken(text: string, t: Token, tag: Tag, i: nat)
    requires i < |text| && TokenConsistent(text, t, i) && !IsClosed(t)
    requires CanCloseToken(t, tag, text, i) && ContainsAt(text, CloseMark(tag), i)
    ensures TokenConsistent(text, t.(end := Some(i)), i + |CloseMark(tag)|)
  {
  }

  lemma CloseKeepsFinished(arena: seq<Token>, finished: seq<nat>, c: nat, i: nat)
    requires FinishedExactlyClosed(arena, finished) && c < |arena| && !IsClosed(arena[c])
    ensures FinishedExactlyClosed(arena[c := arena[c].(end := Some(i))], finished + [c])
  {
    assert c !in finished;
  }

  /** A successful close finishes the innermost token and nothing else. */
  lemma CloseStepKeepsInvariant(text: string, st: ScanState, tag: Tag)
    requires Inv(text, st) && st.i < |text|
    requires CanCloseToken(st.arena[st.current], tag, text, st.i) && ContainsAt(text, CloseMark(tag), st.i)
    ensures Inv(text, CloseInnermost(st, tag))
  {
    var i, c := st.i, st.current;
    var t := st.arena[c];
    var r := CloseInnermost(st, tag);
    assert c != 0;
    ArenaConsistentGrows(text, st.arena, i, r.i);
    CloseKeepsToken(text, t, tag, i);
    ArenaConsistentReplace(text, st.arena, c, t.(end := Some(i)), r.i);
    CloseKeepsFinished(st.arena, st.finished, c, i);
    assert StartsIncreasing(r.arena);
  }

  /** Every token created so far opened before the scan index. */
  lemma StartsBeforeIndex(text: string, arena: seq<Token>, i: nat)
    requires AllConsistent(text, arena, i)
    ensures forall k :: 0 < k < |arena| ==> arena[k].start < i
  {
    forall k | 0 < k < |arena|
      ensures arena[k].start < i
    {
      assert TokenConsistent(text, arena[k], i);
    }
  }

  /** A successful open appends a child of the innermost token, whose opening
      mark lies after every earlier token's. */
  lemma OpenStepKeepsInvariant(text: string, st: ScanState, tag: Tag)
    requires Inv(text, st) && st.i < |text|
    requires CanOpen(tag, text, st.i)
    requires ContainsAt(text, OpenMark(tag), st.i) || ContainsAt(text, CloseMark(tag), st.i)
    ensures Inv(text, OpenInnermost(st, tag))
  {
    var i, c := st.i, st.current;
    var child := NewChild(tag, c, i);
    var r := OpenInnermost(st, tag);
    StartsBeforeIndex(text, st.arena, i);
    ArenaConsistentGrows(text, st.arena, i, r.i);
    assert TokenConsistent(text, child, r.i);
    ArenaConsistentAppend(text, st.arena, child, r.i);
    assert StartsIncreasing(r.arena);
  }

  /** At every loop head the innermost token is the root or still open, every
      closed token sits in the finished list once, and each token is consistent
      with the text read so far. */
  lemma StepKeepsInvariant(text: string, st: ScanState)
    requires Inv(text, st) && st.i < |text|
    ensures Inv(text, Step(text, st))
  {
    var i := st.i;
    if text[i] == Escape {
      ArenaConsistentGrows(text, st.arena, i, i + 2);
    } else {
      match IsMarkHere(text, i)
      case None =>
        CharStepKeepsInvariant(text, st);
      case Some(m) =>
        assert MarkMatches(text, i, m);
        match TryMark(text, st.arena[st.current], m, i)
        case CloseCurrent =>
          CloseStepKeepsInvariant(text, st, m.tag);
        case OpenChild =>
          OpenStepKeepsInvariant(text, st, m.tag);
        case NotTaken =>
          ArenaConsistentGrows(text, st.arena, i, i + 1);
    }
  }

  lemma {:induction false} RunKeepsInvariant(text: string, st: ScanState)
    requires Inv(text, st)
    ensures Inv(text, Run(text, st))
    decreases |text| - st.i
  {
    if st.i < |text| {
      StepKeepsInvariant(text, st);
      RunKeepsInvariant(text, Step(text, st));
    }
  }

  /** The state the scan ends in satisfies the invariant. */
  lemma ScanInvariant(text: string)
    ensures Inv(text, Scan(text))
  {
    InvAtStart(text);
    RunKeepsInvariant(text, Start);
  }

  // ---------------------------------------------------------------------------
  // Properties of a single turn

  /** A backslash makes the turn skip itself and the next character: nothing is
      matched, no hook runs, no token changes. */
  lemma EscapeSkipsTwo(text: string, st: ScanState)
    requires st.i < |text| && Shaped(st) && text[st.i] == Escape
    ensures Step(text, st) == st.(i := st.i + 2)
  {
  }

  /** A token is finished exactly when a close mark of the innermost token's
      own tag is found and that token's close and accept hooks hold; the token
      finished is always the innermost one. */
  lemma StepFinishesOnlyInnermost(text: string, st: ScanState)
    requires st.i < |text| && Shaped(st)
    ensures var r := Step(text, st);
      (r.finished != st.finished <==>
        text[st.i] != Escape &&
        exists tag :: IsMarkHere(text, st.i) == Some(Mark(tag, false)) &&
          CanCloseToken(st.arena[st.current], tag, text, st.i))
    ensures var r := Step(text, st);
      r.finished == st.finished || r.finished == st.finished + [st.current]
  {
    var r := Step(text, st);
    if text[st.i] != Escape && IsMarkHere(text, st.i).Some? {
      var m := IsMarkHere(text, st.i).value;
      if !m.isStart && CanCloseToken(st.arena[st.current], m.tag, text, st.i) {
        assert r.finished == st.finished + [st.current];
        assert |r.finished| > |st.finished|;
      }
    }
  }

  /** How a turn that meets a mark continues, by the outcome of the attempt. */
  lemma StepOnMark(text: string, st: ScanState, m: Mark)
    requires st.i < |text| && Shaped(st)
    requires text[st.i] != Escape && IsMarkHere(text, st.i) == Some(m)
    ensures Step(text, st) ==
      match TryMark(text, st.arena[st.current], m, st.i)
      case CloseCurrent => CloseInnermost(st, m.tag)
      case OpenChild => OpenInnermost(st, m.tag)
      case NotTaken => st.(i := st.i + 1)
  {
  }

  lemma RunUnfolds(text: string, st: ScanState)
    requires st.i < |text| && Shaped(st)
    ensures Run(text, st) == Run(text, Step(text, st))
  {
  }

  /** Text in which every character at an even index is a backslash produces
      no token at all. */
  lemma {:induction false} EscapedTextMakesNoToken(text: string, st: ScanState)
    requires Shaped(st) && st.i % 2 == 0
    requires forall j :: 0 <= j < |text| && j % 2 == 0 ==> text[j] == Escape
    ensures Run(text, st).arena == st.arena && Run(text, st).finished == st.finished
    decreases |text| - st.i
  {
    if st.i < |text| {
      EscapedTextMakesNoToken(text, Step(text, st));
    }
  }

  // ---------------------------------------------------------------------------
  // The loop as the source writes it

  /** `while (current.EndCloseMark != -1) current = current.Parent;` */
  method PopClosedTokens(arena: seq<Token>, c: nat) returns (current: nat)
    requires WellLinked(arena) && c < |arena|
    ensures current == PopClosed(arena, c)
  {
    current := c;
    while IsClosed(arena[current])
      invariant current < |arena| && PopClosed(arena, current) == PopClosed(arena, c)
      decreases current
    {
      current := arena[current].parent.value;
    }
  }

  /** The open hook of `tag`, evaluated as the source does (the heading's by
      its loop). */
  method CanOpenAt(tag: Tag, text: string, i: nat) returns (ok: bool)
    requires i < |text|
    ensures ok == CanOpen(tag, text, i)
  {
    if tag == Heading {
      ok := CanOpenHeading(text, i);
    } else {
      ok := CanOpen(tag, text, i);
    }
  }

  /** `Token.TryCloseToken` on the innermost token: when it has the matched
      tag and both hooks hold, it ends at `i`, joins the finished list and the
      scan index moves past the close mark; otherwise nothing changes. */
  method TryCloseToken(tag: Tag, text: string, arena: seq<Token>, current: nat, i: nat, tokens: seq<nat>)
    returns (closed: bool, arena': seq<Token>, i': nat, tokens': seq<nat>)
    requires WellLinked(arena) && current < |arena|
    ensures closed == CanCloseToken(arena[current], tag, text, i)
    ensures closed ==>
      arena' == arena[current := arena[current].(end := Some(i))] && i' == i + |CloseMark(tag)| && tokens' == tokens + [current]
    ensures closed ==> WellLinked(arena') && current < |arena'|
    ensures !closed ==> arena' == arena && i' == i && tokens' == tokens
  {
    var t := arena[current];
    closed := t.tag == Some(tag) && CanClose(tag, text, i) && Accept(tag, t.start, t.flags, text, i);
    if closed {
      arena' := arena[current := t.(end := Some(i))];
      i' := i + |CloseMark(tag)|;
      tokens' := tokens + [current];
    } else {
      arena', i', tokens' := arena, i, tokens;
    }
  }

  /** `Token.TryOpenChildToken` on the innermost token: when the open hook
      holds, a child opens at `i`, becomes the innermost token and the scan
      index moves past the tag's open mark; otherwise the scan moves on by
      one character. (The source's `i++` of the loop is folded in.) */
  method TryOpenChildToken(tag: Tag, text: string, arena: seq<Token>, current: nat, i: nat)
    returns (current': nat, arena': seq<Token>, i': nat)
    requires i < |text| && WellLinked(arena) && current < |arena|
    ensures CanOpen(tag, text, i) ==>
      current' == |arena| && arena' == arena + [NewChild(tag, current, i)] && i' == i + |OpenMark(tag)|
    ensures !CanOpen(tag, text, i) ==> current' == current && arena' == arena && i' == i + 1
  {
    var canOpen := CanOpenAt(tag, text, i);
    if canOpen {
      arena' := arena + [NewChild(tag, current, i)];
      current' := |arena|;
      i' := i + |OpenMark(tag)|;
    } else {
      current', arena', i' := current, arena, i + 1;
    }
  }

  /** `FindTokens`: scans `text` once, left to right, and returns the arena of
      every token it created together with the finished tokens in closing
      order. */
  method FindTokens(text: string) returns (arena: seq<Token>, tokens: seq<nat>)
    ensures arena == Scan(text).arena && tokens == Scan(text).finished
  {
    arena, tokens := [Root], [];
    var current: nat := 0;
    var i: nat := 0;
    while i < |text|
      invariant Shaped(ScanState(i, arena, current, tokens))
      invariant Run(text, ScanState(i, arena, current, tokens)) == Scan(text)
      decreases |text| - i
    {
      ghost var before := ScanState(i, arena, current, tokens);
      RunUnfolds(text, before);
      if text[i] == Escape {
        i := i + 2;
        continue;
      }
      var mark := IsMarkHere(text, i);
      if mark.None? {
        var (t, outcome) := ProcessChar(arena[current], text[i]);
        arena := arena[current := t];
        if outcome == PopToParent {
          current := ParentOrSelf(t, current);
        }
        i := i + 1;
        assert ScanState(i, arena, current, tokens) == FeedChar(text[before.i], before);
        continue;
      }
      var tag := mark.value.tag;
      StepOnMark(text, before, mark.value);
      if !mark.value.isStart {
        var closed;
        closed, arena, i, tokens := TryCloseToken(tag, text, arena, current, i, tokens);
        if closed {
          current := PopClosedTokens(arena, current);
          assert ScanState(i, arena, current, tokens) == CloseInnermost(before, tag);
          continue;
        }
      }
      assert ScanState(i, arena, current, tokens) == before;
      current, arena, i := TryOpenChildToken(tag, text, arena, current, i);
      if CanOpen(tag, text, before.i) {
        assert TryMark(text, before.arena[before.current], mark.value, before.i) == OpenChild;
        assert ScanState(i, arena, current, tokens) == OpenInnermost(before, tag);
      } else {
        assert TryMark(text, before.arena[before.current], mark.value, before.i) == NotTaken;
        assert ScanState(i, arena, current, tokens) == before.(i := before.i + 1);
      }
    }
  }
}
