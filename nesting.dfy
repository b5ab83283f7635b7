/** The shape of the token tree during the scan: tokens open and close like
    brackets. Only the innermost token and its ancestors are ever open, so
    the pop after a close goes up exactly one level, and a finished token's
    span lies inside the body of its parent's span. */
module Nesting {
  import opened Chars
  import opened Tags
  import opened Tokens
  import opened Scanner

  /** Child `c` lies inside the body of its parent `p`: it opens after the
      parent's opening mark, and once the parent is closed the child is
      closed too, with its closing mark ending no later than where the
      parent's closing mark begins. */
  predicate InBody(c: Token, p: Token) {
    && c.tag.Some? && p.tag.Some?
    && p.start + |OpenMark(p.tag.value)| <= c.start
    && (IsClosed(p) ==> IsClosed(c) && c.end.value + |CloseMark(c.tag.value)| <= p.end.value)
  }

  /** Every token created between token `k`'s parent and `k` is closed. */
  ghost predicate ClosedBetween(arena: seq<Token>, k: nat)
    requires WellLinked(arena) && 0 < k < |arena|
  {
    forall j :: arena[k].parent.value < j < k ==> IsClosed(arena[j])
  }

  ghost predicate Nested(st: ScanState)
    requires Shaped(st)
  {
    && (forall k :: st.current < k < |st.arena| ==> IsClosed(st.arena[k]))
    && (forall k :: 0 < k < |st.arena| ==> ClosedBetween(st.arena, k))
    && (forall k :: 0 < k < |st.arena| && st.arena[k].parent.value > 0 ==>
          InBody(st.arena[k], st.arena[st.arena[k].parent.value]))
  }

  lemma NestedAtStart()
    ensures Nested(Start)
  {
  }

  /** Tokens that differ only in their flags. */
  predicate SameButFlags(a: seq<Token>, b: seq<Token>) {
    |a| == |b| && forall k :: 0 <= k < |a| ==> a[k] == b[k].(flags := a[k].flags)
  }

  lemma NestedIgnoresFlags(st: ScanState, st': ScanState)
    requires Shaped(st) && Shaped(st') && Nested(st)
    requires SameButFlags(st.arena, st'.arena) && st'.current == st.current
    ensures Nested(st')
  {
    forall k | 0 < k < |st'.arena|
      ensures ClosedBetween(st'.arena, k)
    {
      assert ClosedBetween(st.arena, k);
    }
    forall k | 0 < k < |st'.arena| && st'.arena[k].parent.value > 0
      ensures InBody(st'.arena[k], st'.arena[st'.arena[k].parent.value])
    {
      assert InBody(st.arena[k], st.arena[st.arena[k].parent.value]);
    }
  }

  /** An opened child sits after its parent's opening mark, and everything
      created after the parent is already closed. */
  lemma OpenKeepsNested(text: string, st: ScanState, tag: Tag)
    requires Inv(text, st) && Nested(st)
    ensures Nested(OpenInnermost(st, tag))
  {
    var c := st.current;
    var r := OpenInnermost(st, tag);
    var n := |st.arena|;
    if c > 0 {
      assert TokenConsistent(text, st.arena[c], st.i);
    }
    forall k | 0 < k < |r.arena|
      ensures ClosedBetween(r.arena, k)
    {
      if k < n {
        assert ClosedBetween(st.arena, k);
      }
    }
  }

  /** A closed token's parent is still open, so the pop after the close stops
      at the parent: the loop of `FindTokens` that pops past closed tokens
      always goes up exactly one level. */
  lemma CloseReturnsToParent(text: string, st: ScanState, tag: Tag)
    requires Inv(text, st) && Nested(st) && st.arena[st.current].tag.Some?
    ensures st.current > 0
    ensures CloseInnermost(st, tag).current == st.arena[st.current].parent.value
  {
    var c := st.current;
    var p := st.arena[c].parent.value;
    if p > 0 {
      assert InBody(st.arena[c], st.arena[p]);
    }
    var arena := st.arena[c := st.arena[c].(end := Some(st.i))];
    assert PopClosed(arena, c) == PopClosed(arena, p);
  }

  /** Closing the innermost token keeps every parent's body around its
      children: the children of the closed token are all closed already, and
      their close marks lie before the scan index. */
  lemma CloseKeepsBodies(text: string, st: ScanState, tag: Tag)
    requires Inv(text, st) && Nested(st) && st.arena[st.current].tag.Some?
    ensures var r := CloseInnermost(st, tag);
      forall k :: 0 < k < |r.arena| && r.arena[k].parent.value > 0 ==>
        InBody(r.arena[k], r.arena[r.arena[k].parent.value])
  {
    var c := st.current;
    var r := CloseInnermost(st, tag);
    forall k | 0 < k < |r.arena| && r.arena[k].parent.value > 0
      ensures InBody(r.arena[k], r.arena[r.arena[k].parent.value])
    {
      assert InBody(st.arena[k], st.arena[st.arena[k].parent.value]);
      if st.arena[k].parent.value == c {
        assert TokenConsistent(text, st.arena[k], st.i);
      }
    }
  }

  /** Closing the innermost token keeps the spans nested. */
  lemma CloseKeepsNested(text: string, st: ScanState, tag: Tag)
    requires Inv(text, st) && Nested(st) && st.arena[st.current].tag.Some?
    ensures Nested(CloseInnermost(st, tag))
  {
    var c := st.current;
    var r := CloseInnermost(st, tag);
    CloseReturnsToParent(text, st, tag);
    CloseKeepsBodies(text, st, tag);
    assert ClosedBetween(st.arena, c);
    forall k | 0 < k < |r.arena|
      ensures ClosedBetween(r.arena, k)
    {
      assert ClosedBetween(st.arena, k);
    }
  }

  lemma StepKeepsNested(text: string, st: ScanState)
    requires Inv(text, st) && Nested(st) && st.i < |text|
    ensures Nested(Step(text, st))
  {
    var i := st.i;
    if text[i] != Escape {
      match IsMarkHere(text, i)
      case None =>
        FeedCharOnlyTouchesFlags(text[i], st);
        NestedIgnoresFlags(st, FeedChar(text[i], st));
      case Some(m) =>
        match TryMark(text, st.arena[st.current], m, i)
        case CloseCurrent =>
          CloseKeepsNested(text, st, m.tag);
        case OpenChild =>
          OpenKeepsNested(text, st, m.tag);
        case NotTaken =>
    }
  }

  lemma {:induction false} RunKeepsNested(text: string, st: ScanState)
    requires Inv(text, st) && Nested(st)
    ensures Nested(Run(text, st))
    decreases |text| - st.i
  {
    if st.i < |text| {
      StepKeepsInvariant(text, st);
      StepKeepsNested(text, st);
      RunKeepsNested(text, Step(text, st));
    }
  }

  lemma ScanNested(text: string)
    ensures Nested(Scan(text))
  {
    InvAtStart(text);
    NestedAtStart();
    RunKeepsNested(text, Start);
  }

  /** An open token has no closed ancestor: the walk of the parent repair
      from an open token finds nothing. */
  lemma {:induction false} OpenTokenHasOpenAncestors(st: ScanState, k: nat)
    requires Shaped(st) && Nested(st) && k < |st.arena| && !IsClosed(st.arena[k])
    ensures NearestClosedAncestor(st.arena, k) == None
    decreases k
  {
    if k > 0 {
      var p := st.arena[k].parent.value;
      if p > 0 {
        assert InBody(st.arena[k], st.arena[p]);
      }
      OpenTokenHasOpenAncestors(st, p);
    }
  }

  /** After the scan, the nearest closed ancestor of a token is its own parent
      when that parent closed, and none otherwise. */
  lemma NearestClosedIsParentOrNone(text: string, k: nat)
    requires 0 < k < |Scan(text).arena|
    ensures var arena := Scan(text).arena; var p := arena[k].parent.value;
      NearestClosedAncestor(arena, k) == if IsClosed(arena[p]) then Some(p) else None
  {
    ScanNested(text);
    var st := Scan(text);
    var p := st.arena[k].parent.value;
    if !IsClosed(st.arena[p]) {
      OpenTokenHasOpenAncestors(st, p);
    }
  }
}
