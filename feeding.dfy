/** Which characters each token's per-character hook was handed. `StepFed`
    records, alongside one turn of the scan, the position a plain character
    is fed to the innermost token at; escapes, marks and characters fed while
    a child was innermost are not recorded for a token. The flags of a token
    then say exactly what its fed characters show. */
module Feeding {
  import opened Chars
  import opened Tags
  import opened Tokens
  import opened Scanner

  /** For each position handed to a per-character hook so far, the index of
      the token it was handed to. Being a map, it gives every position at most
      one token. */
  type Feeds = map<nat, nat>

  /** The record after one turn: a plain character is recorded as fed to the
      innermost token; nothing else is recorded. */
  ghost function StepFed(text: string, st: ScanState, fed: Feeds): (r: Feeds)
    requires st.i < |text| && Shaped(st)
  {
    if text[st.i] == Escape then fed
    else
      match IsMarkHere(text, st.i)
      case None => fed[st.i := st.current]
      case Some(_) => fed
  }

  /** The record at the end of the loop started in `st` with record `fed`. */
  ghost function RunFed(text: string, st: ScanState, fed: Feeds): (r: Feeds)
    requires Shaped(st)
    decreases |text| - st.i
  {
    if st.i < |text| then RunFed(text, Step(text, st), StepFed(text, st, fed)) else fed
  }

  /** The record of the whole scan. */
  ghost function Fed(text: string): (r: Feeds) {
    RunFed(text, Start, map[])
  }

  /** A character the scan hands to a hook: no backslash and no mark. */
  predicate Plain(text: string, j: nat) {
    j < |text| && text[j] != Escape && IsMarkHere(text, j).None?
  }

  ghost predicate LetterFed(text: string, fed: Feeds, k: nat) {
    exists j :: j in fed && fed[j] == k && j < |text| && IsLetter(text[j])
  }

  ghost predicate SpaceFed(text: string, fed: Feeds, k: nat) {
    exists j :: j in fed && fed[j] == k && j < |text| && IsWhiteSpace(text[j])
  }

  /** Token `k`'s flags are exactly what the characters fed to it show; a
      heading records nothing. */
  ghost predicate FlagsRecord(text: string, t: Token, fed: Feeds, k: nat) {
    && (t.flags.hasLetter <==> t.tag != Some(Heading) && LetterFed(text, fed, k))
    && (t.flags.hasSpace <==> t.tag != Some(Heading) && SpaceFed(text, fed, k))
  }

  /** A fed position lies in the token's body: after its opening mark and,
      once closed, before its closing mark. */
  predicate InsideMarks(t: Token, j: nat) {
    t.tag.Some? ==> t.start + |OpenMark(t.tag.value)| <= j && (t.end.Some? ==> j < t.end.value)
  }

  /** Position `j` is a plain character before the scan index `i`, fed to a
      token of the arena, inside that token's marks. */
  predicate FedWell(text: string, arena: seq<Token>, i: nat, j: nat, k: nat) {
    j < i && Plain(text, j) && k < |arena| && InsideMarks(arena[k], j)
  }

  ghost predicate FedInv(text: string, st: ScanState, fed: Feeds) {
    && (forall j :: j in fed ==> FedWell(text, st.arena, st.i, j, fed[j]))
    && (forall k :: 0 < k < |st.arena| ==> FlagsRecord(text, st.arena[k], fed, k))
  }

  lemma FedInvAtStart(text: string)
    ensures FedInv(text, Start, map[])
  {
  }

  /** Recording position `i` for token `c` adds a letter to `c`'s characters
      exactly when the character there is one, and changes no other token's. */
  lemma LetterFedAdd(text: string, fed: Feeds, i: nat, c: nat, k: nat)
    requires i !in fed
    ensures LetterFed(text, fed[i := c], k) <==> LetterFed(text, fed, k) || (k == c && i < |text| && IsLetter(text[i]))
  {
    if LetterFed(text, fed, k) {
      var j :| j in fed && fed[j] == k && j < |text| && IsLetter(text[j]);
      assert j in fed[i := c] && fed[i := c][j] == k;
    }
    if k == c && i < |text| && IsLetter(text[i]) {
      assert i in fed[i := c] && fed[i := c][i] == k;
    }
  }

  lemma SpaceFedAdd(text: string, fed: Feeds, i: nat, c: nat, k: nat)
    requires i !in fed
    ensures SpaceFed(text, fed[i := c], k) <==> SpaceFed(text, fed, k) || (k == c && i < |text| && IsWhiteSpace(text[i]))
  {
    if SpaceFed(text, fed, k) {
      var j :| j in fed && fed[j] == k && j < |text| && IsWhiteSpace(text[j]);
      assert j in fed[i := c] && fed[i := c][j] == k;
    }
    if k == c && i < |text| && IsWhiteSpace(text[i]) {
      assert i in fed[i := c] && fed[i := c][i] == k;
    }
  }

  /** Feeding a plain character to the innermost token records it for that
      token, and its flags follow. */
  lemma FeedKeepsRecord(text: string, st: ScanState, fed: Feeds)
    requires Shaped(st) && FedInv(text, st, fed) && Plain(text, st.i)
    requires !IsClosed(st.arena[st.current]) && InsideMarks(st.arena[st.current], st.i)
    ensures FedInv(text, FeedChar(text[st.i], st), fed[st.i := st.current])
  {
    var i, c := st.i, st.current;
    var r := FeedChar(text[i], st);
    var fed' := fed[i := c];
    FeedCharOnlyTouchesFlags(text[i], st);
    assert i !in fed;
    forall j | j in fed'
      ensures FedWell(text, r.arena, r.i, j, fed'[j])
    {
      if j != i {
        assert FedWell(text, st.arena, st.i, j, fed[j]);
      }
    }
    forall k | 0 < k < |r.arena|
      ensures FlagsRecord(text, r.arena[k], fed', k)
    {
      assert FlagsRecord(text, st.arena[k], fed, k);
      LetterFedAdd(text, fed, i, c, k);
      SpaceFedAdd(text, fed, i, c, k);
    }
  }

  /** Closing the innermost token: everything fed to it lies before its
      closing mark. */
  lemma CloseKeepsRecord(text: string, st: ScanState, fed: Feeds, tag: Tag)
    requires Shaped(st) && FedInv(text, st, fed) && st.arena[st.current].tag.Some?
    ensures FedInv(text, CloseInnermost(st, tag), fed)
  {
    var r := CloseInnermost(st, tag);
    forall j | j in fed
      ensures FedWell(text, r.arena, r.i, j, fed[j])
    {
      assert FedWell(text, st.arena, st.i, j, fed[j]);
    }
    forall k | 0 < k < |r.arena|
      ensures FlagsRecord(text, r.arena[k], fed, k)
    {
      assert FlagsRecord(text, st.arena[k], fed, k);
    }
  }

  /** An opened child has nothing fed to it yet: every recorded position lies
      before its opening mark. */
  lemma OpenKeepsRecord(text: string, st: ScanState, fed: Feeds, tag: Tag)
    requires Shaped(st) && FedInv(text, st, fed)
    ensures FedInv(text, OpenInnermost(st, tag), fed)
  {
    var r := OpenInnermost(st, tag);
    var n := |st.arena|;
    forall j | j in fed
      ensures FedWell(text, r.arena, r.i, j, fed[j])
    {
      assert FedWell(text, st.arena, st.i, j, fed[j]);
    }
    forall k | 0 < k < |r.arena|
      ensures FlagsRecord(text, r.arena[k], fed, k)
    {
      if k < n {
        assert FlagsRecord(text, st.arena[k], fed, k);
      }
    }
  }

  /** The index moves on and nothing is recorded. */
  lemma SkipKeepsRecord(text: string, st: ScanState, fed: Feeds, i: nat)
    requires Shaped(st) && FedInv(text, st, fed) && st.i <= i
    ensures FedInv(text, st.(i := i), fed)
  {
    forall j | j in fed
      ensures FedWell(text, st.arena, i, j, fed[j])
    {
      assert FedWell(text, st.arena, st.i, j, fed[j]);
    }
  }

  lemma StepKeepsRecord(text: string, st: ScanState, fed: Feeds)
    requires Inv(text, st) && FedInv(text, st, fed) && st.i < |text|
    ensures FedInv(text, Step(text, st), StepFed(text, st, fed))
  {
    var i := st.i;
    if text[i] == Escape {
      SkipKeepsRecord(text, st, fed, i + 2);
    } else {
      match IsMarkHere(text, i)
      case None =>
        if st.current > 0 {
          assert TokenConsistent(text, st.arena[st.current], i);
        }
        FeedKeepsRecord(text, st, fed);
      case Some(m) =>
        match TryMark(text, st.arena[st.current], m, i)
        case CloseCurrent =>
          CloseKeepsRecord(text, st, fed, m.tag);
        case OpenChild =>
          OpenKeepsRecord(text, st, fed, m.tag);
        case NotTaken =>
          SkipKeepsRecord(text, st, fed, i + 1);
    }
  }

  lemma {:induction false} RunKeepsRecord(text: string, st: ScanState, fed: Feeds)
    requires Inv(text, st) && FedInv(text, st, fed)
    ensures FedInv(text, Run(text, st), RunFed(text, st, fed))
    decreases |text| - st.i
  {
    if st.i < |text| {
      StepKeepsInvariant(text, st);
      StepKeepsRecord(text, st, fed);
      RunKeepsRecord(text, Step(text, st), StepFed(text, st, fed));
    }
  }

  /** After the scan, each token's flags say exactly whether a letter and
      whether a white-space character was fed to it while it was innermost;
      each fed character is a plain character inside the marks of the one
      token it was fed to. */
  lemma ScanFlagsRecordFedCharacters(text: string)
    ensures var st := Scan(text); var fed := Fed(text);
      && (forall k :: 0 < k < |st.arena| ==> FlagsRecord(text, st.arena[k], fed, k))
      && (forall j :: j in fed ==> Plain(text, j) && fed[j] < |st.arena| && InsideMarks(st.arena[fed[j]], j))
  {
    InvAtStart(text);
    FedInvAtStart(text);
    RunKeepsRecord(text, Start, map[]);
    var st := Scan(text);
    var fed := Fed(text);
    forall j | j in fed
      ensures Plain(text, j) && fed[j] < |st.arena| && InsideMarks(st.arena[fed[j]], j)
    {
      assert FedWell(text, st.arena, st.i, j, fed[j]);
    }
  }
}
