/** The last step of `ParseTokens`: `OrderBy(t => t.StartOpenMark)`, a sort of
    the surviving tokens by the index of their opening mark. It is written as
    an insertion sort; since the tokens of one scan have pairwise different
    start indices, the sorted order is the only one, whatever the tie rule. */
module Ordering {
  import opened Tokens

  predicate SortedByStart(arena: seq<Token>, ts: seq<nat>)
    requires InArena(arena, ts)
  {
    forall a, b :: 0 <= a < b < |ts| ==> arena[ts[a]].start <= arena[ts[b]].start
  }

  /** Different tokens of `ts` have different start indices. */
  predicate StartsDistinct(arena: seq<Token>, ts: seq<nat>)
    requires InArena(arena, ts)
  {
    forall a, b :: 0 <= a < |ts| && 0 <= b < |ts| && ts[a] != ts[b] ==> arena[ts[a]].start != arena[ts[b]].start
  }

  /** Puts `k` into the sorted list `ts`, after every token that does not
      start later. */
  function Insert(arena: seq<Token>, k: nat, ts: seq<nat>): (r: seq<nat>)
    requires k < |arena| && InArena(arena, ts) && SortedByStart(arena, ts)
    ensures InArena(arena, r) && SortedByStart(arena, r)
    ensures multiset(r) == multiset(ts) + multiset{k}
    ensures |r| == |ts| + 1
    ensures r != [] && (r[0] == k || (ts != [] && r[0] == ts[0]))
    decreases |ts|
  {
    if ts == [] || arena[k].start < arena[ts[0]].start then [k] + ts
    else
      var rest := Insert(arena, k, ts[1..]);
      assert ts == [ts[0]] + ts[1..];
      [ts[0]] + rest
  }

  /** `OrderBy(t => t.StartOpenMark)`. */
  function OrderByStart(arena: seq<Token>, ts: seq<nat>): (r: seq<nat>)
    requires InArena(arena, ts)
    ensures InArena(arena, r) && SortedByStart(arena, r)
    ensures multiset(r) == multiset(ts)
    decreases |ts|
  {
    if ts == [] then []
    else
      assert ts == [ts[0]] + ts[1..];
      Insert(arena, ts[0], OrderByStart(arena, ts[1..]))
  }

  /** With distinct start indices, a sorted permutation is strictly increasing. */
  lemma SortedDistinctIsStrict(arena: seq<Token>, ts: seq<nat>)
    requires InArena(arena, ts) && SortedByStart(arena, ts) && StartsDistinct(arena, ts) && NoDuplicates(ts)
    ensures forall a, b :: 0 <= a < b < |ts| ==> arena[ts[a]].start < arena[ts[b]].start
  {
  }

  lemma MultisetKeepsMembers(s: seq<nat>, t: seq<nat>)
    requires multiset(s) == multiset(t)
    ensures forall x :: x in s <==> x in t
  {
    forall x
      ensures x in s <==> x in t
    {
      assert x in s <==> x in multiset(s);
      assert x in t <==> x in multiset(t);
    }
  }

  lemma TailMultiset(s: seq<nat>, t: seq<nat>)
    requires s != [] && t != [] && s[0] == t[0] && multiset(s) == multiset(t)
    ensures multiset(s[1..]) == multiset(t[1..])
  {
    assert s == [s[0]] + s[1..];
    assert t == [t[0]] + t[1..];
    assert multiset(s) == multiset{s[0]} + multiset(s[1..]);
    assert multiset(t) == multiset{s[0]} + multiset(t[1..]);
    forall x
      ensures multiset(s[1..])[x] == multiset(t[1..])[x]
    {
      assert multiset(s)[x] == multiset{s[0]}[x] + multiset(s[1..])[x];
      assert multiset(t)[x] == multiset{s[0]}[x] + multiset(t[1..])[x];
    }
  }

  /** Both sorted arrangements start with the token of smallest start. */
  lemma HeadsAgree(arena: seq<Token>, s: seq<nat>, t: seq<nat>)
    requires InArena(arena, s) && InArena(arena, t) && s != [] && t != []
    requires multiset(s) == multiset(t) && StartsDistinct(arena, s)
    requires SortedByStart(arena, s) && SortedByStart(arena, t)
    ensures s[0] == t[0]
  {
    MultisetKeepsMembers(s, t);
    assert t[0] in t && s[0] in s;
    var m :| 0 <= m < |s| && s[m] == t[0];
    var m' :| 0 <= m' < |t| && t[m'] == s[0];
    assert arena[s[0]].start <= arena[s[m]].start;
    assert arena[t[0]].start <= arena[t[m']].start;
  }

  /** Two sorted arrangements of the same tokens agree when the tokens have
      distinct start indices: sorting by start decides the order completely,
      so any sort, stable or not, gives this one. */
  lemma {:induction false} SortedPermutationUnique(arena: seq<Token>, s: seq<nat>, t: seq<nat>)
    requires InArena(arena, s) && InArena(arena, t)
    requires multiset(s) == multiset(t) && StartsDistinct(arena, s)
    requires SortedByStart(arena, s) && SortedByStart(arena, t)
    ensures s == t
    decreases |s|
  {
    assert |s| == |multiset(s)| == |t|;
    if s != [] {
      HeadsAgree(arena, s, t);
      TailMultiset(s, t);
      assert forall n :: 0 <= n < |s[1..]| ==> s[1..][n] == s[n + 1];
      SortedPermutationUnique(arena, s[1..], t[1..]);
      assert s == [s[0]] + s[1..] && t == [t[0]] + t[1..];
    }
  }

  /** Sorting keeps the list free of repeated tokens. */
  lemma OrderKeepsNoDuplicates(arena: seq<Token>, ts: seq<nat>)
    requires InArena(arena, ts) && NoDuplicates(ts)
    ensures NoDuplicates(OrderByStart(arena, ts))
  {
    var r := OrderByStart(arena, ts);
    forall a, b | 0 <= a < b < |r|
      ensures r[a] != r[b]
    {
      if r[a] == r[b] {
        assert multiset(r)[r[a]] >= 2 by {
          assert r == r[..b] + r[b..];
          assert r[a] in r[..b];
          assert r[b] in r[b..];
        }
        NoDuplicatesCountsOne(ts, r[a]);
      }
    }
  }

  lemma {:induction false} NoDuplicatesCountsOne(ts: seq<nat>, x: nat)
    requires NoDuplicates(ts)
    ensures multiset(ts)[x] <= 1
    decreases |ts|
  {
    if ts != [] {
      assert ts == [ts[0]] + ts[1..];
      assert NoDuplicates(ts[1..]);
      NoDuplicatesCountsOne(ts[1..], x);
      if ts[0] == x {
        assert x !in ts[1..];
      }
    }
  }
}
