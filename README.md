# Markdown token parser, modelled in Dafny

This project models `TokenParser` from a small Markdown-to-HTML converter
written in C#. The parser turns a text into a list of tokens. Each token is an
inline span: strong (`__`), em (`_`) or a level-1 heading (`# ` up to a line
feed). A token records:

- where its opening mark starts and where its closing mark starts;
- its parent token;
- two flags: whether white space and whether a letter was seen inside it.

`ParseTokens` works in four stages, each a module here:

| stage | source | module |
|---|---|---|
| one left-to-right scan that opens and closes tokens | `FindTokens`, `IsMarkHere` | `Scanner`, `Nesting` |
| each finished token relinked to its nearest closed ancestor | `RemoveUnreadyParents` | `Repair` |
| tokens that break an interaction rule dropped | `RemoveIncorrectInterractedTokens` | `Interactions` |
| the survivors ordered by start index | `OrderBy` in `ParseTokens` | `Ordering` |

The tag table with its hooks is `Tags`. `Chars` holds the character classes and
the string helpers. `Tokens` holds the token record and the parent walks.
`TokenParser` composes the pipeline and proves what its output satisfies.
`Scenarios` works through small inputs turn by turn.

Tokens live in an arena: a sequence with the root context at index 0. A parent
is an index into the arena. The source's `-1` "not closed" end is `None`.
Parents are always created before their children, so every parent index is
smaller than its child's.

The scan has two forms:

- `Scanner.Step` and `Scanner.Run` are functions: one turn of the loop, and the
  loop to the end of the text.
- `Scanner.FindTokens` is the loop as the source writes it. It is proved to end
  in the state `Scan` computes.

What the scan keeps true at every loop head is `Scanner.Inv` and
`Nesting.Nested`:

- the innermost token is the root or still open;
- each closed token is in the finished list exactly once;
- every token's marks and hooks agree with the text;
- spans nest like brackets.

A heading can open in two ways. "# " opens one only at index 0: the open
hook tests every character from the mark down to index 1, and the '#' itself
is not white space. A line feed is a heading close mark, and when the
innermost token is not a heading, that close fails and the same position is
tried as an open. The heading's open hook then accepts when index 1 up to
that position is all white space. So a heading can also start at a line feed
without any "# ". `TokenParser.ParseHeadingPlacement` states where reported
headings start and end.

A token's flags say exactly what was handed to it. `Feeding` keeps, next to
the scan, a record of which token each plain character was handed to (a
plain character is neither a backslash nor a mark). A token's flags are set
exactly when a letter, or white space, was handed to it. Characters handed
to a child while the child was innermost do not count for the parent.

## Model

| member | source | states |
|---|---|---|
| Chars.TryGetChar | cs/Markdown/TokenParser.cs:25-26 | a character is returned exactly when the index is in range, and it is the character at that index |
| Chars.ContainsAtChars | cs/Markdown/TokenParser.cs:158-165 | a mark occurs at an index exactly when it fits in the text and matches character by character |
| Tags.OpenMark | cs/Markdown/TokenParser.cs:20-88 | each tag's opening mark ("__", "_", "# ") is one or two characters long |
| Tags.CloseMark | cs/Markdown/TokenParser.cs:20-88 | each tag's closing mark ("__", "_", line feed) is one or two characters long |
| Tags.CanOpen | cs/Markdown/TokenParser.cs:24-26 | a strong or em mark may open exactly when a non-white-space character directly follows it; a heading may always open at index 0 |
| Tags.CanClose | cs/Markdown/TokenParser.cs:27-29 | a strong or em mark may close exactly when a non-white-space character directly precedes it; a heading close is always allowed |
| Tags.AcceptEmphasis | cs/Markdown/TokenParser.cs:30-36 | a span is accepted only if a letter was seen in it, and always when a letter and no white space were seen |
| Tags.Accept | cs/Markdown/TokenParser.cs:30-36 | an accepted strong or em span saw a letter; a heading, whose hook at line 85 always answers yes, is always accepted |
| Tags.OnChar | cs/Markdown/TokenParser.cs:37-44 | the per-character hook never asks for a pop and never clears a flag; for strong and em it sets hasSpace on white space and hasLetter on a letter, and sets nothing on any other character; the heading hook sets nothing |
| Tags.CanOpenHeading | cs/Markdown/TokenParser.cs:77-83 | the heading's open loop succeeds exactly when every character from the start index down to index 1 is white space |
| Tags.HeadingOpensOnlyAtStart | cs/Markdown/TokenParser.cs:77-83 | where "# " occurs, the heading may open exactly when it is at index 0, because the loop tests the '#' itself |
| Tags.FindMark | cs/Markdown/TokenParser.cs:154-176 | the search finds nothing exactly when no tag's close or open mark occurs; a found mark occurs there (the close mark, or the open mark when the close mark does not) and belongs to the first tag in table order that has one |
| Tags.IsMarkHere | cs/Markdown/TokenParser.cs:154-176 | no mark is reported exactly when no tag's close or open mark occurs at the index; a reported mark occurs there |
| Tags.IsMarkHereUnrolled | cs/Markdown/TokenParser.cs:154-176 | on this table the search tests "__", then "_", then a line feed, each reported as a close mark, then "# " as an open mark |
| Tags.IsMarkHereCases | cs/Markdown/TokenParser.cs:154-176 | "__" is always a strong close mark; a lone "_" is an em close mark; a line feed is a heading close mark; "# " is the only open mark; any other character is no mark |
| Tokens.ProcessChar | cs/Markdown/TokenParser.cs:37-44 | feeding a character changes only the token's flags; the root is left as it is; the result is always to continue; a strong or em token gains hasLetter exactly on a letter and hasSpace exactly on white space, and keeps flags already set; a heading's flags never change |
| Tokens.PopClosed | cs/Markdown/TokenParser.cs:133-134 | the pop loop stops at an open token at or above its start, and stays put when the start is open |
| Tokens.NearestClosedAncestor | cs/Markdown/TokenParser.cs:147-150 | the walk, when it finds a parent, finds a closed token that was created earlier |
| Tokens.NearestClosedIsFirstClosedAncestor | cs/Markdown/TokenParser.cs:147-150 | the walk finds exactly the first closed token on the ancestor chain, or none when the whole chain is open |
| Scanner.FeedChar | cs/Markdown/TokenParser.cs:122-127 | a plain character keeps the arena well linked and moves the scan on by one |
| Scanner.TryMark | cs/Markdown/TokenParser.cs:129-138 | a matched mark closes the innermost token exactly when it is a close mark and the close test holds; otherwise it opens a child exactly when the open hook holds; otherwise it is passed over |
| Scanner.CloseInnermost | cs/Markdown/TokenParser.cs:129-136 | a successful close keeps the arena well linked and moves the scan past the close mark |
| Scanner.OpenInnermost | cs/Markdown/TokenParser.cs:138 | a successful open keeps the arena well linked and moves the scan past the tag's open mark |
| Scanner.Step | cs/Markdown/TokenParser.cs:114-139 | every turn of the loop moves the scan forward by one or two characters and keeps the arena well linked |
| Scanner.Run | cs/Markdown/TokenParser.cs:114-139 | the loop reaches the end of the text |
| Scanner.Scan | cs/Markdown/TokenParser.cs:110-141 | the scan reaches the end of the text; every closed token is in the finished list exactly once, and the innermost token is still open |
| Scanner.InvAtStart | cs/Markdown/TokenParser.cs:112-113 | the invariant holds for the root alone with an empty finished list |
| Scanner.CharStepKeepsInvariant | cs/Markdown/TokenParser.cs:122-127 | a plain character keeps the invariant: it only sets flags of the innermost token, each witnessed by that character |
| Scanner.CloseStepKeepsInvariant | cs/Markdown/TokenParser.cs:129-136 | a close keeps the invariant: the innermost token ends at its close mark where both hooks held and joins the finished list once |
| Scanner.OpenStepKeepsInvariant | cs/Markdown/TokenParser.cs:138 | an open keeps the invariant: the new child starts at a mark of its tag where the open hook held, after every earlier token |
| Scanner.StepKeepsInvariant | cs/Markdown/TokenParser.cs:114-139 | every turn of the loop keeps the invariant |
| Scanner.RunKeepsInvariant | cs/Markdown/TokenParser.cs:114-139 | the loop from any state satisfying the invariant ends in one that does |
| Scanner.ScanInvariant | cs/Markdown/TokenParser.cs:110-141 | the finished list is exactly the closed tokens, each once; the innermost token is open; every token is consistent with the text |
| Scanner.EscapeSkipsTwo | cs/Markdown/TokenParser.cs:116-120 | a backslash skips itself and the next character: no mark test, no hook call, no change to any token |
| Scanner.StepFinishesOnlyInnermost | cs/Markdown/TokenParser.cs:129-136 | a turn finishes a token exactly when a close mark of the innermost token's own tag passes that token's close and accept hooks; only the innermost token is ever finished |
| Scanner.EscapedTextMakesNoToken | cs/Markdown/TokenParser.cs:116-120 | when every other character from the first is a backslash, the scan creates and finishes nothing |
| Scanner.PopClosedTokens | cs/Markdown/TokenParser.cs:133-134 | the pop loop computes the nearest open token at or above its start |
| Scanner.CanOpenAt | cs/Markdown/TokenParser.cs:77-83 | the open hook, with the heading's evaluated by its loop, agrees with the hook's definition |
| Scanner.TryCloseToken | cs/Markdown/TokenParser.cs:131 | the close succeeds exactly when the innermost token has the matched tag and both hooks hold; then that token ends at the index, joins the list and the index moves past the mark; otherwise nothing changes |
| Scanner.TryOpenChildToken | cs/Markdown/TokenParser.cs:138 | when the open hook holds, a child of the innermost token opens at the index and becomes innermost; otherwise only the index moves on by one |
| Scanner.FindTokens | cs/Markdown/TokenParser.cs:110-141 | the loop ends with the arena and finished list that the turn-by-turn scan computes |
| Nesting.OpenKeepsNested | cs/Markdown/TokenParser.cs:138 | an opened child starts inside its parent's body, and every token created after the parent is closed already |
| Nesting.CloseReturnsToParent | cs/Markdown/TokenParser.cs:133-134 | after a close, the pop loop goes up exactly one level, to the closed token's parent |
| Nesting.CloseKeepsNested | cs/Markdown/TokenParser.cs:129-136 | a close keeps spans nested: the closed token's children all closed before it |
| Nesting.StepKeepsNested | cs/Markdown/TokenParser.cs:114-139 | every turn of the loop keeps the spans nested |
| Nesting.ScanNested | cs/Markdown/TokenParser.cs:110-141 | after the scan only the innermost token and its ancestors can be open; a child of a closed token is closed and lies inside its parent's body |
| Nesting.OpenTokenHasOpenAncestors | cs/Markdown/TokenParser.cs:148-149 | the repair walk from an open token finds no closed ancestor |
| Nesting.NearestClosedIsParentOrNone | cs/Markdown/TokenParser.cs:143-152 | after the scan, the repair walk gives a token its own parent when that parent closed, and none otherwise |
| Repair.RemoveUnreadyParents | cs/Markdown/TokenParser.cs:143-152 | the in-order, in-place pass gives each finished token its nearest closed ancestor as parent and leaves every other token as it was |
| Repair.Repaired | cs/Markdown/TokenParser.cs:143-152 | the repair keeps the arena's length, changes parent links only, and leaves every token outside the finished list as it was |
| Repair.RepairOnlyRelinks | cs/Markdown/TokenParser.cs:150 | the repair changes parent links only, and only those of finished tokens |
| Repair.RepairedParentIsFirstClosedAncestor | cs/Markdown/TokenParser.cs:147-150 | a repaired parent is the first closed token on the original ancestor chain, or none when all of the chain is open |
| Repair.RepairedLinks | cs/Markdown/TokenParser.cs:143-152 | after repair, parents still point towards the front of the arena, and a finished token's parent is none or closed |
| Repair.RepairOrderFree | cs/Markdown/TokenParser.cs:145 | the repair does not depend on the order of the finished list |
| Repair.RepairIdempotent | cs/Markdown/TokenParser.cs:143-152 | repairing a second time changes nothing |
| Interactions.KeepAllowed | cs/Markdown/TokenParser.cs:101-108 | the filter keeps a token exactly when it is in the list and all of its tag's rules hold, in the list's order |
| Interactions.RuleHolds | cs/Markdown/TokenParser.cs:47 | a token without a parent meets every rule; a rule fails only when the parent has a tag whose label is the forbidden one |
| Interactions.StrongRuleIsNotUnderEm | cs/Markdown/TokenParser.cs:47 | on a strong token, its one rule holds exactly when the parent is not an em token |
| Interactions.Allowed | cs/Markdown/TokenParser.cs:104-106 | a token meets all of its tag's rules exactly when it is not a strong token whose parent is em |
| Interactions.RemoveIncorrectInteractedTokens | cs/Markdown/TokenParser.cs:101-108 | a token is kept exactly when it is in the list and is not a strong token whose parent is em; the kept tokens stay in list order |
| Interactions.KeepAllowedNoDuplicates | cs/Markdown/TokenParser.cs:101-108 | filtering a list without repeats gives a list without repeats |
| Interactions.FilterIdempotent | cs/Markdown/TokenParser.cs:101-108 | filtering the filtered list removes nothing more |
| Ordering.Insert | cs/Markdown/TokenParser.cs:96-98 | inserting into a list sorted by start keeps it sorted and adds exactly that token |
| Ordering.OrderByStart | cs/Markdown/TokenParser.cs:96-98 | the result is sorted by start index and is a permutation of the input |
| Ordering.SortedDistinctIsStrict | cs/Markdown/TokenParser.cs:96-98 | with distinct start indices, the sorted list is strictly increasing |
| Ordering.SortedPermutationUnique | cs/Markdown/TokenParser.cs:96-98 | with distinct start indices, two sorted arrangements of the same tokens are equal, so the sort's tie rule never matters |
| Ordering.OrderKeepsNoDuplicates | cs/Markdown/TokenParser.cs:96-98 | sorting a list without repeats gives a list without repeats |
| TokenParser.ParseTokens | cs/Markdown/TokenParser.cs:91-99 | the method runs scan, repair, filter and sort in the source's order and returns the pipeline's result |
| TokenParser.Parse | cs/Markdown/TokenParser.cs:91-99 | the result keeps the scan's arena length, names only tokens the scan finished, and is sorted by start |
| Feeding.FeedKeepsRecord | cs/Markdown/TokenParser.cs:122-127 | a plain character is recorded for the innermost token only; that token's flags follow from the recorded characters |
| Feeding.CloseKeepsRecord | cs/Markdown/TokenParser.cs:129-136 | after a close, every character recorded for the closed token lies before its close mark |
| Feeding.OpenKeepsRecord | cs/Markdown/TokenParser.cs:138 | an opened child starts with no recorded characters and no flags |
| Feeding.StepKeepsRecord | cs/Markdown/TokenParser.cs:114-139 | every turn of the loop keeps each token's flags equal to what its recorded characters show |
| Feeding.RunKeepsRecord | cs/Markdown/TokenParser.cs:114-139 | the record stays exact to the end of the loop |
| Feeding.ScanFlagsRecordFedCharacters | cs/Markdown/TokenParser.cs:37-44 | after the scan, a strong or em token has hasLetter exactly when a letter was handed to it, and hasSpace exactly when white space was; a heading has neither; each handed character is a plain character inside the marks of the one token it was handed to |
| TokenParser.ParseReportsClosedTokens | cs/Markdown/TokenParser.cs:91-99 | a token is reported exactly when the scan closed it and it is not a strong span whose parent is em; a token still open at the end is never reported |
| TokenParser.ParseReportsRecognisedSpans | cs/Markdown/TokenParser.cs:20-88 | every reported token starts at a mark of its tag where the open hook held, and ends at a later close mark where the close and accept hooks held; the close mark ends inside the text |
| TokenParser.ParseIsOrderedByStart | cs/Markdown/TokenParser.cs:96-98 | the report has no repeats and is strictly increasing by start, and no other sorted arrangement of it exists |
| TokenParser.ParseParentsAreClosedAncestors | cs/Markdown/TokenParser.cs:143-152 | a reported token's parent is its nearest closed ancestor from the scan, or none; that parent was created earlier, starts earlier and was finished by the scan |
| TokenParser.ParseSpansNest | cs/Markdown/TokenParser.cs:110-152 | a reported token keeps its scan parent when that parent closed and has none otherwise; a kept parent's body holds the whole child span, both marks included |
| TokenParser.ParseEmphasisHasLetter | cs/Markdown/TokenParser.cs:24-36 | a reported strong or em span has a letter between its marks, a non-white-space character after its opening mark and one before its closing mark |
| TokenParser.ParseFlagsRecordFedCharacters | cs/Markdown/TokenParser.cs:37-44 | a reported token's flags are exactly what the characters handed to it show, and those characters lie between its marks |
| TokenParser.HeadingSpan | cs/Markdown/TokenParser.cs:75-86 | a recognised heading starts at index 0 or at a line feed, and ends at a line feed |
| TokenParser.ParseHeadingPlacement | cs/Markdown/TokenParser.cs:75-86 | a reported heading starts at index 0 or at a line feed, and ends at a line feed |
| TokenParser.ParseOfEscapedText | cs/Markdown/TokenParser.cs:116-120 | text in which every other character from the first is a backslash yields no token |
| Scenarios.StrongScenario | cs/Markdown/TokenParser.cs:22-48 | "a__b__c" yields one strong token from index 1 to index 4 with no parent |
| Scenarios.EmScenario | cs/Markdown/TokenParser.cs:50-73 | "a_b_c" yields one em token from index 1 to index 3 with no parent |
| Scenarios.NestedScenario | cs/Markdown/TokenParser.cs:45-48 | in "_a__b__c_" both spans close, and the strong span is dropped because its parent is em |
| Scenarios.HeadingScenario | cs/Markdown/TokenParser.cs:75-87 | "# a" followed by a line feed yields one heading from index 0 to index 3 |
| Scenarios.UnclosedScenario | cs/Markdown/TokenParser.cs:110-141 | "__a" yields nothing: the strong span is still open when the text ends |
| Scenarios.SpacedScenario | cs/Markdown/TokenParser.cs:24-26 | "__ __" yields nothing: no mark is followed by a non-white-space character |
| Scenarios.EscapedScenario | cs/Markdown/TokenParser.cs:116-120 | with every underscore escaped, nothing is reported |

## Left out

- `Token.cs` is not part of this model. `TryCloseToken`, `TryOpenChildToken`,
  `ProcessChar` and the string helpers `TryGetChar` and `ContainsItOnIndex`
  are modelled from how `FindTokens` uses them.
- Scan index after a mark: the model assumes a successful close or open leaves
  the next turn on the first character after the mark. A failed attempt moves
  on by one character. An open advances by the length of the tag's opening
  mark, even when the text matched was the close mark. So a heading opened by
  a line feed also skips the next character. How far `TryOpenChildToken`
  moves the index is the part of this that depends on `Token.cs`.
- `Environment.NewLine` is fixed to a line feed. On platforms where it is
  "\r\n", the close mark would be two characters.
- `char.IsLetter` is approximated by ASCII, Latin-1 and Cyrillic letters.
  `char.IsWhiteSpace` follows .NET's list. Characters are Unicode scalar
  values, not UTF-16 code units, so surrogate pairs are not modelled.
- Object identity and in-place updates of `Token` objects are modelled as an
  arena of token values. `RemoveUnreadyParents` returns the updated arena
  instead of writing each `Parent` field. The loop still reads the updated
  arena as it goes, like the source does.
- Interaction rules are given the whole token list but read only the
  token's parent. The model evaluates them on the arena alone.
- `OrderBy` is stable, but stability is not modelled: the sort here is an
  insertion sort. `Ordering.SortedPermutationUnique` shows that the tie rule
  cannot matter, because reported tokens have distinct start indices.
- The per-character hook's "pop to parent" answer is kept in `FeedChar`. No
  tag's hook ever gives it (`Tags.OnChar`), so the invariants never have to
  cover that path.
- HTML rendering, the labels' meaning and the unused imports are not part of
  the model. Only the labels' equality is used, by the interaction rule.
- External changes to the public `Tags` list are not modelled: the table is
  the three fixed tags.
