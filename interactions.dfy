/** The second post-pass, `RemoveIncorrectInterractedTokens`: a finished token
    survives when every interaction rule of its tag holds. The only rule in the
    table reads the token's (repaired) parent link, so the rules are evaluated
    on the arena; the list handed to each rule is never read. */
module Interactions {
  import opened Chars
  import opened Tags
  import opened Tokens

  /** One rule on token `k`: `token.Parent?.Tag?.HtmlTag != forbidden`. A
      missing parent or a parent without a tag (the root) yields null, which
      differs from every label. */
  predicate RuleHolds(arena: seq<Token>, k: nat, rule: InteractionRule)
    requires ParentsBelow(arena) && k < |arena|
    ensures arena[k].parent.None? ==> RuleHolds(arena, k, rule)
    ensures !RuleHolds(arena, k, rule) ==>
      arena[k].parent.Some? && arena[arena[k].parent.value].tag.Some? &&
      Label(arena[arena[k].parent.value].tag.value) == rule.forbidden
  {
    match arena[k].parent
    case None => true
    case Some(p) =>
      match arena[p].tag
      case None => true
      case Some(ptag) => Label(ptag) != rule.forbidden
  }

  /** `t.Tag.TagInteractionRules.All(rule => rule(t, tokens))`; a token
      without a tag has no rules. */
  predicate Allowed(arena: seq<Token>, k: nat)
    requires ParentsBelow(arena) && k < |arena|
    ensures Allowed(arena, k) <==> !StrongUnderEm(arena, k)
  {
    match arena[k].tag
    case None => true
    case Some(tag) =>
      StrongRuleIsNotUnderEm(arena, k);
      forall n :: 0 <= n < |Rules(tag)| ==> RuleHolds(arena, k, Rules(tag)[n])
  }

  /** `s` is `t` with some elements dropped and the rest kept in order. */
  ghost predicate IsSubsequence(s: seq<nat>, t: seq<nat>)
    decreases |t|
  {
    if s == [] then true
    else if t == [] then false
    else (s[0] == t[0] && IsSubsequence(s[1..], t[1..])) || IsSubsequence(s, t[1..])
  }

  /** The `Where` of the filter, one token at a time. */
  function KeepAllowed(arena: seq<Token>, ts: seq<nat>): (r: seq<nat>)
    requires ParentsBelow(arena) && InArena(arena, ts)
    ensures InArena(arena, r)
    ensures forall k :: k in r <==> k in ts && Allowed(arena, k)
    ensures IsSubsequence(r, ts)
  {
    if ts == [] then []
    else
      var rest := KeepAllowed(arena, ts[1..]);
      if Allowed(arena, ts[0]) then [ts[0]] + rest
      else
        assert rest == [] || rest[0] in ts[1..];
        rest
  }

  /** `RemoveIncorrectInterractedTokens` on the finished list. */
  function RemoveIncorrectInteractedTokens(arena: seq<Token>, tokens: seq<nat>): (r: seq<nat>)
    requires ParentsBelow(arena) && InArena(arena, tokens)
    ensures forall k :: k in r <==> k in tokens && !StrongUnderEm(arena, k)
    ensures IsSubsequence(r, tokens)
  {
    KeepAllowed(arena, tokens)
  }

  /** Token `k` is a strong span directly under an em span. */
  predicate StrongUnderEm(arena: seq<Token>, k: nat)
    requires ParentsBelow(arena) && k < |arena|
  {
    arena[k].tag == Some(Strong) && arena[k].parent.Some? && arena[arena[k].parent.value].tag == Some(Em)
  }

  /** The strong tag's one rule fails exactly when the parent is an em token. */
  lemma StrongRuleIsNotUnderEm(arena: seq<Token>, k: nat)
    requires ParentsBelow(arena) && k < |arena|
    ensures arena[k].tag == Some(Strong) ==>
      (RuleHolds(arena, k, Rules(Strong)[0]) <==> !StrongUnderEm(arena, k))
  {
    assert Rules(Strong)[0] == ParentLabelIsNot("em");
    match arena[k].parent
    case None =>
    case Some(p) =>
      match arena[p].tag
      case None =>
      case Some(ptag) =>
        assert Label(ptag) == "em" <==> ptag == Em;
  }

  /** Filtering drops no duplicates into the list. */
  lemma {:induction false} KeepAllowedNoDuplicates(arena: seq<Token>, ts: seq<nat>)
    requires ParentsBelow(arena) && InArena(arena, ts) && NoDuplicates(ts)
    ensures NoDuplicates(KeepAllowed(arena, ts))
    decreases |ts|
  {
    if ts != [] {
      assert NoDuplicates(ts[1..]);
      KeepAllowedNoDuplicates(arena, ts[1..]);
      var r := KeepAllowed(arena, ts);
      if Allowed(arena, ts[0]) {
        assert ts[0] !in ts[1..];
        assert ts[0] !in KeepAllowed(arena, ts[1..]);
        assert forall n :: 0 < n < |r| ==> r[n] == KeepAllowed(arena, ts[1..])[n - 1];
      }
    }
  }

  /** The rules read only the arena, which the filter does not change, so
      filtering a second time keeps every token. */
  lemma {:induction false} FilterIdempotent(arena: seq<Token>, ts: seq<nat>)
    requires ParentsBelow(arena) && InArena(arena, ts)
    ensures KeepAllowed(arena, KeepAllowed(arena, ts)) == KeepAllowed(arena, ts)
  {
    KeepAllAllowed(arena, KeepAllowed(arena, ts));
  }

  lemma {:induction false} KeepAllAllowed(arena: seq<Token>, ts: seq<nat>)
    requires ParentsBelow(arena) && InArena(arena, ts)
    requires forall n :: 0 <= n < |ts| ==> Allowed(arena, ts[n])
    ensures KeepAllowed(arena, ts) == ts
    decreases |ts|
  {
    if ts != [] {
      KeepAllAllowed(arena, ts[1..]);
      assert [ts[0]] + ts[1..] == ts;
    }
  }
}
