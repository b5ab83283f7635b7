/** The first post-pass, `RemoveUnreadyParents`: every finished token is
    relinked to its nearest ancestor that was closed, so that a token never
    hangs under a span that did not close. The arena is a value here; the
    source overwrites each token's `Parent` field in place, which the method
    models by returning the updated arena. */
module Repair {
  import opened Chars
  import opened Tokens

  /** Token `k` after the pass: finished tokens get their nearest closed
      ancestor as parent, every other token is left alone. */
  function Relinked(arena: seq<Token>, tokens: seq<nat>, k: nat): Token
    requires ParentsBelow(arena) && k < |arena|
  {
    if k in tokens then arena[k].(parent := NearestClosedAncestor(arena, k)) else arena[k]
  }

  /** The arena after the pass, stated without any order of visiting. */
  function Repaired(arena: seq<Token>, tokens: seq<nat>): (r: seq<Token>)
    requires ParentsBelow(arena)
    ensures |r| == |arena|
    ensures forall k :: 0 <= k < |arena| ==> r[k] == arena[k].(parent := r[k].parent)
    ensures forall k :: 0 <= k < |arena| && k !in tokens ==> r[k] == arena[k]
  {
    seq(|arena|, k requires 0 <= k < |arena| => Relinked(arena, tokens, k))
  }

  /** The finished list as the scanner leaves it: in range, closed, each once. */
  predicate FinishedTokens(arena: seq<Token>, tokens: seq<nat>) {
    && (forall n :: 0 <= n < |tokens| ==> tokens[n] < |arena| && IsClosed(arena[tokens[n]]))
    && NoDuplicates(tokens)
  }

  /** `RemoveUnreadyParents`: visits the finished tokens in list order and,
      for each, walks up while the parent is still open, then links the token
      to the parent where the walk stopped. Relinking a token never disturbs a
      later walk, since a walk only passes through open tokens and only closed
      ones are relinked; so the result is the order-free `Repaired`. */
  method RemoveUnreadyParents(arena: seq<Token>, tokens: seq<nat>) returns (repaired: seq<Token>)
    requires ParentsBelow(arena) && FinishedTokens(arena, tokens)
    ensures repaired == Repaired(arena, tokens)
  {
    repaired := arena;
    for n := 0 to |tokens|
      invariant |repaired| == |arena|
      invariant forall k :: 0 <= k < |arena| ==>
        repaired[k] == if k in tokens[..n] then Relinked(arena, tokens, k) else arena[k]
    {
      var k := tokens[n];
      assert k !in tokens[..n];
      var cur: nat := k;
      while repaired[cur].parent.Some? && !IsClosed(repaired[repaired[cur].parent.value])
        invariant cur < |arena| && repaired[cur] == arena[cur]
        invariant NearestClosedAncestor(arena, cur) == NearestClosedAncestor(arena, k)
        decreases cur
      {
        var p := repaired[cur].parent.value;
        assert p !in tokens[..n];
        cur := p;
      }
      repaired := repaired[k := repaired[k].(parent := repaired[cur].parent)];
      assert tokens[..n + 1] == tokens[..n] + [k];
    }
    assert tokens[..|tokens|] == tokens;
  }

  /** The pass changes parent links and nothing else, and only those of the
      finished tokens. */
  lemma RepairOnlyRelinks(arena: seq<Token>, tokens: seq<nat>)
    requires ParentsBelow(arena)
    ensures var r := Repaired(arena, tokens);
      && |r| == |arena|
      && (forall k :: 0 <= k < |arena| ==> r[k] == arena[k].(parent := r[k].parent))
      && (forall k :: 0 <= k < |arena| && k !in tokens ==> r[k] == arena[k])
  {
  }

  /** Each finished token's new parent is the first closed token on its
      original chain of ancestors, or none when the whole chain was open (as
      it is for a token directly under the root). */
  lemma {:induction false} RepairedParentIsFirstClosedAncestor(arena: seq<Token>, tokens: seq<nat>, k: nat)
    requires ParentsBelow(arena) && k < |arena| && k in tokens
    ensures var r := Repaired(arena, tokens); var a := Ancestors(arena, k);
      match r[k].parent
      case None => forall n :: 0 <= n < |a| ==> !IsClosed(arena[a[n]])
      case Some(p) =>
        p < k && IsClosed(arena[p]) &&
        exists m :: 0 <= m < |a| && a[m] == p && forall n :: 0 <= n < m ==> !IsClosed(arena[a[n]])
  {
    NearestClosedIsFirstClosedAncestor(arena, k);
  }

  /** After the pass every parent link still points towards the front, and a
      finished token's parent is none or a token that was closed. */
  lemma RepairedLinks(arena: seq<Token>, tokens: seq<nat>)
    requires ParentsBelow(arena)
    ensures ParentsBelow(Repaired(arena, tokens))
    ensures var r := Repaired(arena, tokens);
      forall k :: 0 <= k < |r| && k in tokens && r[k].parent.Some? ==> IsClosed(r[r[k].parent.value])
  {
    var r := Repaired(arena, tokens);
    forall k | 0 <= k < |r| && r[k].parent.Some?
      ensures r[k].parent.value < k
    {
      if k in tokens {
        assert r[k].parent == NearestClosedAncestor(arena, k);
      }
    }
  }

  /** The pass depends on which tokens are finished, not on their order. */
  lemma RepairOrderFree(arena: seq<Token>, tokens: seq<nat>, tokens': seq<nat>)
    requires ParentsBelow(arena) && multiset(tokens) == multiset(tokens')
    ensures Repaired(arena, tokens) == Repaired(arena, tokens')
  {
    forall k | 0 <= k < |arena|
      ensures Relinked(arena, tokens, k) == Relinked(arena, tokens', k)
    {
      assert k in tokens <==> k in multiset(tokens);
      assert k in tokens' <==> k in multiset(tokens');
    }
  }

  /** Running the pass a second time changes nothing: every relinked parent
      is already closed or none. */
  lemma RepairIdempotent(arena: seq<Token>, tokens: seq<nat>)
    requires ParentsBelow(arena)
    ensures ParentsBelow(Repaired(arena, tokens))
    ensures Repaired(Repaired(arena, tokens), tokens) == Repaired(arena, tokens)
  {
    RepairedLinks(arena, tokens);
    var r := Repaired(arena, tokens);
    forall k | 0 <= k < |r|
      ensures Relinked(r, tokens, k) == r[k]
    {
      if k in tokens {
        match r[k].parent
        case None =>
        case Some(p) =>
          assert IsClosed(r[p]);
      }
    }
  }
}
