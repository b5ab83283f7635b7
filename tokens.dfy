/** Tokens and the arena that holds them. A token refers to its parent by an
    index into the arena; index 0 holds the root, the context that exists
    before any mark has opened. A parent is always created before its child,
    so a parent index is smaller than the child's, which keeps every parent
    walk finite. */
module Tokens {
  import opened Chars
  import opened Tags

  /** One token: its tag (none for the root), its parent, the index of its
      opening mark, the index of its closing mark (none while it is open, the
      source's -1) and its flags. */
  datatype Token = Token(tag: Option<Tag>, parent: Option<nat>, start: nat, end: Option<nat>, flags: Flags)

  const Root: Token := Token(None, None, 0, None, NoFlags)

  function NewChild(tag: Tag, parent: nat, start: nat): (t: Token) {
    Token(Some(tag), Some(parent), start, None, NoFlags)
  }

  predicate NoDuplicates(s: seq<nat>) {
    forall a, b :: 0 <= a < b < |s| ==> s[a] != s[b]
  }

  /** Every index of `ts` names a token of the arena. */
  predicate InArena(arena: seq<Token>, ts: seq<nat>) {
    forall n :: 0 <= n < |ts| ==> ts[n] < |arena|
  }

  predicate IsClosed(t: Token) {
    t.end.Some?
  }

  /** Every parent link points strictly towards the front of the arena. */
  predicate ParentsBelow(arena: seq<Token>) {
    forall k :: 0 <= k < |arena| && arena[k].parent.Some? ==> arena[k].parent.value < k
  }

  /** The arena while the text is being scanned: the root sits at index 0 and
      is never closed; every other token has a tag and a parent before it. */
  predicate WellLinked(arena: seq<Token>) {
    && |arena| > 0
    && arena[0].tag.None?
    && arena[0].parent.None?
    && arena[0].end.None?
    && (forall k :: 0 < k < |arena| ==> arena[k].tag.Some? && arena[k].parent.Some?)
    && ParentsBelow(arena)
  }

  /** `Token.ProcessChar`: the root ignores the character; any other token
      hands it to its tag's per-character hook. */
  function ProcessChar(t: Token, ch: char): (r: (Token, CharOutcome))
    ensures r.0 == t.(flags := r.0.flags)
    ensures t.tag.None? ==> r == (t, Continue)
    ensures r.1 == Continue
    ensures t.tag.Some? ==> (r.0.flags.hasLetter <==> t.flags.hasLetter || (t.tag != Some(Heading) && IsLetter(ch)))
    ensures t.tag.Some? ==> (r.0.flags.hasSpace <==> t.flags.hasSpace || (t.tag != Some(Heading) && IsWhiteSpace(ch)))
  {
    match t.tag
    case None => (t, Continue)
    case Some(tag) =>
      var (flags, outcome) := OnChar(tag, t.flags, ch);
      (t.(flags := flags), outcome)
  }

  /** Where `current = current.Parent` leads from token `t` at index `c`. */
  function ParentOrSelf(t: Token, c: nat): nat {
    match t.parent
    case Some(p) => p
    case None => c
  }

  /** The scanner's `while (current.EndCloseMark != -1) current = current.Parent`:
      the nearest token at or above `c` that is still open. */
  function PopClosed(arena: seq<Token>, c: nat): (r: nat)
    requires WellLinked(arena) && c < |arena|
    ensures r <= c && !IsClosed(arena[r])
    ensures !IsClosed(arena[c]) ==> r == c
    decreases c
  {
    if IsClosed(arena[c]) then PopClosed(arena, arena[c].parent.value) else c
  }

  /** The ancestors of token `k`, from its parent upwards. */
  function Ancestors(arena: seq<Token>, k: nat): (a: seq<nat>)
    requires ParentsBelow(arena) && k < |arena|
    ensures forall n :: 0 <= n < |a| ==> a[n] < k
    decreases k
  {
    match arena[k].parent
    case None => []
    case Some(p) => [p] + Ancestors(arena, p)
  }

  /** The walk of `RemoveUnreadyParents`: from token `k`, step up while the
      parent is still open; the answer is the parent where the walk stopped. */
  function NearestClosedAncestor(arena: seq<Token>, k: nat): (r: Option<nat>)
    requires ParentsBelow(arena) && k < |arena|
    ensures r.Some? ==> r.value < k && IsClosed(arena[r.value])
    decreases k
  {
    match arena[k].parent
    case None => None
    case Some(p) => if IsClosed(arena[p]) then Some(p) else NearestClosedAncestor(arena, p)
  }

  /** The walk finds exactly the first closed token in the ancestor chain of
      `k`, or none when every ancestor is open. */
  lemma {:induction false} NearestClosedIsFirstClosedAncestor(arena: seq<Token>, k: nat)
    requires ParentsBelow(arena) && k < |arena|
    ensures var a := Ancestors(arena, k);
      match NearestClosedAncestor(arena, k)
      case None => forall n :: 0 <= n < |a| ==> !IsClosed(arena[a[n]])
      case Some(p) =>
        p < k && IsClosed(arena[p]) &&
        exists m :: 0 <= m < |a| && a[m] == p && forall n :: 0 <= n < m ==> !IsClosed(arena[a[n]])
    decreases k
  {
    match arena[k].parent
    case None =>
    case Some(p) =>
      var a := Ancestors(arena, k);
      assert a == [p] + Ancestors(arena, p);
      if IsClosed(arena[p]) {
        assert a[0] == p;
      } else {
        NearestClosedIsFirstClosedAncestor(arena, p);
        var b := Ancestors(arena, p);
        assert forall n :: 0 < n < |a| ==> a[n] == b[n - 1];
        match NearestClosedAncestor(arena, p)
        case None =>
        case Some(q) =>
          var m :| 0 <= m < |b| && b[m] == q && forall n :: 0 <= n < m ==> !IsClosed(arena[b[n]]);
          assert a[m + 1] == q;
      }
  }
}
