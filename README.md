# Shadow-piercing query and focus helpers, modelled in Dafny

This project models three utilities of the accessibility interaction-test
addon for Storybook. They work across shadow DOM boundaries:

- `querySelectorAll(selector, context)` walks the composed tree. Every node
  the walk reaches is yielded, shadow hosts and slots included. A shadow
  host's unslotted light children, and an assigned slot's fallback
  children, are never reached. Below a shadow host it visits the
  shadow root's children instead of the host's light children. Below a slot
  it visits the assigned elements when anything is assigned (nothing when
  only text is), and the slot's own fallback children otherwise. Below the
  document it visits the document element. The walk is depth-first, in
  document order. The function returns, once each, the elements that match
  a parsed CSS selector. The matcher reads the selector's tokens right to
  left and follows the same composed tree upwards (`getParent`) and through
  `previousElementSibling`.
- `getActiveElement()` follows the focused element into nested shadow roots.
- `userEventTab()` and `userEventShiftTab()` move focus to the next or the
  previous visible focusable element, in the order `querySelectorAll` gives.

The modules are:

- `Dom`: the snapshot of the page, with `getChildren` and `getParent`.
- `ComposedWalk`: the pre-order walk and the `ElementIterator` class.
- `Selector`: the parsed selector, `getLastNonCombinatorNodes` and
  `attachSourceIfNecessary`.
- `Matcher`: `matchesSelector` and the three walks it uses.
- `Query`: `getMatchingElements`, `query` and `querySelectorAll`.
- `ActiveElement`: `getActiveElement`.
- `FocusOrder`: the Tab helpers, with focus as a field of the `FocusState`
  class.
- `Seqs` and `Wrappers` hold helpers.

Each loop of the source is a method proved equal to a specification
function. The combinator branch inside the loop of `matchesSelector` is its
own method, `Matcher.Combinator`, which hands the loop its next element and
index. The lemmas state what those functions mean.

The matcher is modelled as written. Three of its behaviours differ from CSS:

- After a `>` combinator, the index drops by two. The token just before the
  `>` is skipped, and the rest of the preceding compound is checked again on
  the parent. When the selector before `>` ends in a compound, this changes
  nothing (`Matcher.ChildStep`).
- `+` and `~` check the preceding compound on a sibling. They then go on
  matching the remaining tokens against the same element, not the sibling
  (`Matcher.AdjacentSiblingCombinator`). So `A + B + C` checks `A` and `B` on
  the same sibling (`Matcher.AdjacentChainSameSibling`), and `h1 + h2 + p`
  matches nothing (`Matcher.AdjacentTagChainNeverMatches`).
- Combinator values other than the four above are passed over. So are
  node types the matcher has no branch for, such as `*`
  (`Query.UniversalSelector`).

`getActiveElement` returns nothing when a focused shadow host has no focused
element inside its shadow root, not the host itself
(`ActiveElement.FocusedHostReportsNothing`). The same happens right after
Tab or Shift+Tab focuses a candidate that hosts a shadow root: the next call
finds nothing focused, so Tab starts again from the first candidate and
Shift+Tab does nothing (`FocusOrder.FocusOnHostRestarts`).

## Model

| member | source | states |
|---|---|---|
| Dom.Children | src/a11y-tests/utils/query-selector-all.ts:14-33 | every effective child is a node of the snapshot; which children each kind of node has is stated by the `ComposedWalk` lemmas on hosts, slots and the document |
| Dom.Parent | src/a11y-tests/utils/query-selector-all.ts:75-94 | the effective parent, when there is one, is a node of the snapshot |
| Dom.ParentElement | src/a11y-tests/utils/query-selector-all.ts:85-86 | `parentElement` is present exactly when the light parent exists and is an element, and then it is that parent |
| Dom.RootNode | src/a11y-tests/utils/query-selector-all.ts:89 | `getRootNode()` is a node without a light parent, ranked no lower than the node; `Dom.RootNodeOnChain` places it on the node's own chain |
| Dom.LightChain | src/a11y-tests/utils/query-selector-all.ts:89 | definition: the `parentNode` chain that `getRootNode()` climbs, the node first (`Dom.RootNodeOnChain`) |
| Dom.RootNodeOnChain | src/a11y-tests/utils/query-selector-all.ts:89 | `getRootNode()` is the last node of the node's `parentNode` chain, which starts at the node and steps from each node to its light parent |
| Dom.LightParentIsParent | src/a11y-tests/utils/query-selector-all.ts:85-86 | outside the slotted case, an element whose light parent is an element has that parent as its parent |
| Dom.PreviousElementSibling | src/a11y-tests/utils/query-selector-all.ts:108 | `previousElementSibling` is absent or a node of the snapshot |
| Dom.PrecedingSiblings | src/a11y-tests/utils/query-selector-all.ts:107-115 | the chain of previous siblings consists of nodes of the snapshot |
| Dom.Ancestors | src/a11y-tests/utils/query-selector-all.ts:96-104 | the chain of `getParent` consists of nodes of the snapshot |
| Dom.AncestorsAbove | src/a11y-tests/utils/query-selector-all.ts:96-104 | every ancestor lies strictly above the element, so the upward walk ends and never meets the element again |
| Dom.SlottedParent | src/a11y-tests/utils/query-selector-all.ts:78-84 | a slotted non-slot element has its slot's parent element as parent, whatever its light parent is |
| Dom.ShadowTopParentIsHost | src/a11y-tests/utils/query-selector-all.ts:88-93 | an element at the top of a shadow tree has the shadow host as parent |
| Dom.DocumentChildHasNoParent | src/a11y-tests/utils/query-selector-all.ts:85-94 | the child of the document has no parent, so the upward walk stops there |
| Dom.PreviousSiblingOfChild | src/a11y-tests/utils/query-selector-all.ts:107-115 | from the j-th child, `previousElementSibling` is the (j-1)-th child, and the chain is the earlier children, nearest first |
| ComposedWalk.Tree | src/a11y-tests/utils/query-selector-all.ts:42-58 | definition: a node followed by the walks of its effective children, in order; the lemmas below state its properties |
| ComposedWalk.Forest | src/a11y-tests/utils/query-selector-all.ts:42-58 | definition: the subtrees of a list of nodes, one after the other; what the iterator has still to yield is this over its stack read from the top (`ComposedWalk.PopExpands`) |
| ComposedWalk.Walk | src/a11y-tests/utils/query-selector-all.ts:35-40 | definition: the walk below the context, without the context; `ComposedWalk.WalkMembers` states what it holds |
| ComposedWalk.ForestBelowFloor | src/a11y-tests/utils/query-selector-all.ts:42-58 | the walk from a stack only yields nodes of the snapshot, none shallower than the shallowest node on the stack |
| ComposedWalk.TreeBelow | src/a11y-tests/utils/query-selector-all.ts:42-58 | a subtree holds only nodes at or below its root |
| ComposedWalk.ForestAppend | src/a11y-tests/utils/query-selector-all.ts:52-54 | walking two stacks' worth of roots is walking one after the other |
| ComposedWalk.WalkExcludesContext | src/a11y-tests/utils/query-selector-all.ts:37-40 | the iterator never yields the context: everything it yields lies strictly below it |
| ComposedWalk.ForestMembers | src/a11y-tests/utils/query-selector-all.ts:42-58 | a node is walked exactly when it lies in the subtree of one of the roots |
| ComposedWalk.WalkMembers | src/a11y-tests/utils/query-selector-all.ts:35-58 | the walk yields exactly the effective children of the context and everything below them |
| ComposedWalk.ShadowHostWalk | src/a11y-tests/utils/query-selector-all.ts:18-20 | walking below a shadow host is walking below its shadow root |
| ComposedWalk.SlotWalk | src/a11y-tests/utils/query-selector-all.ts:21-28 | a slot renders its assigned elements when anything is assigned, nothing when only text is, its fallback children otherwise |
| ComposedWalk.DocumentWalk | src/a11y-tests/utils/query-selector-all.ts:15-17 | from the document the walk is the tree of the document element |
| ComposedWalk.ElementIterator.constructor | src/a11y-tests/utils/query-selector-all.ts:37-40 | a new iterator has the walk below the context still to yield |
| ComposedWalk.ElementIterator.Next | src/a11y-tests/utils/query-selector-all.ts:42-58 | `next()` yields the first node still to yield and removes it, or nothing once the walk is exhausted |
| ComposedWalk.PopExpands | src/a11y-tests/utils/query-selector-all.ts:44-55 | popping a node and pushing its children in reverse leaves its subtree's remainder in front of what was below it |
| Selector.LastCompound | src/a11y-tests/utils/query-selector-all.ts:63-73 | the trailing compound is no longer than the tokens; `Selector.LastCompoundSpec` states what it is |
| Selector.LastCompoundSpec | src/a11y-tests/utils/query-selector-all.ts:61-73 | the trailing compound is a suffix without combinators that cannot be extended to the left |
| Selector.LastCompoundAt | src/a11y-tests/utils/query-selector-all.ts:61-73 | a combinator-free suffix starting after a combinator or at the start is the trailing compound |
| Selector.GetLastNonCombinatorNodes | src/a11y-tests/utils/query-selector-all.ts:63-73 | the loop collects backwards to the first combinator and its reversal is the trailing compound |
| Selector.Lower | src/a11y-tests/utils/query-selector-all.ts:131 | definition: ASCII `toLowerCase`, character by character (`Selector.LowerSpec`, `Selector.LowerEqualIff`) |
| Selector.LowerSpec | src/a11y-tests/utils/query-selector-all.ts:131 | `toLowerCase` keeps the length, leaves no ASCII capital, and changes each character only in its case |
| Selector.LowerIdempotent | src/a11y-tests/utils/query-selector-all.ts:131 | lower-casing a lower-cased tag name changes nothing |
| Selector.LowerEqualIff | src/a11y-tests/utils/query-selector-all.ts:131 | the tag test passes exactly when the two names have the same length and agree character by character up to ASCII case |
| Selector.SplitLines | src/a11y-tests/utils/query-selector-all.ts:256 | `split('\n')` gives at least one piece and no piece holds a newline |
| Selector.JoinSplitLines | src/a11y-tests/utils/query-selector-all.ts:256 | joining the split lines with newlines gives the selector back |
| Selector.SplitJoinLines | src/a11y-tests/utils/query-selector-all.ts:256 | splitting a join of newline-free lines gives the lines back |
| Selector.LineSlice | src/a11y-tests/utils/query-selector-all.ts:260-263 | definition: the `substring` of one line, from the start column on the first line and up to the end column on the last |
| Selector.LineSlices | src/a11y-tests/utils/query-selector-all.ts:258-264 | definition: the line slices of a range of lines, concatenated as the loop appends them (`Selector.LineSlicesNoNewline`) |
| Selector.SourceText | src/a11y-tests/utils/query-selector-all.ts:258-264 | definition: the string the line loop builds for one clause (`Selector.SourceTextHasNoNewline`, `Selector.SingleLineSourceText`, `Selector.ClauseSourceIsSelectorText`) |
| Selector.Prefix | src/a11y-tests/utils/query-selector-all.ts:265 | definition: `:` for a pseudo-class, `[` for an attribute clause |
| Selector.WithSource | src/a11y-tests/utils/query-selector-all.ts:255-266 | definition: one token after the update: a clause gets its prefix and source text, any other token is unchanged (`Selector.AttachSource`) |
| Selector.Substring | src/a11y-tests/utils/query-selector-all.ts:263 | `substring` with indices inside the string is the slice between them, and never yields characters outside the string |
| Selector.SourceCodeOf | src/a11y-tests/utils/query-selector-all.ts:256-265 | the line loop produces the delimiter followed by the clause's text, line slices concatenated |
| Selector.LineSlicesNoNewline | src/a11y-tests/utils/query-selector-all.ts:259-264 | the concatenated line slices contain no newline |
| Selector.SourceTextHasNoNewline | src/a11y-tests/utils/query-selector-all.ts:256-264 | the recovered text of a clause never contains a newline, even for a clause spread over lines |
| Selector.SingleLineSourceText | src/a11y-tests/utils/query-selector-all.ts:259-264 | a clause on one line is that line's substring between its columns |
| Selector.ClauseSourceIsSelectorText | src/a11y-tests/utils/query-selector-all.ts:256-265 | in a one-line selector, the source code given to a clause is exactly the selector's text from its `:` or `[` to its last character |
| Selector.AttachSource | src/a11y-tests/utils/query-selector-all.ts:250-271 | the AST keeps its shape, every non-clause token is untouched, every clause keeps its span and gets its prefixed source text |
| Selector.AttachSourceIfNecessary | src/a11y-tests/utils/query-selector-all.ts:250-271 | the loop over alternatives and tokens yields the AST with sources attached |
| Matcher.SimpleHolds | src/a11y-tests/utils/query-selector-all.ts:122-139 | definition: the id, class, tag (case-insensitive) and pseudo/attribute tests of one token; combinators and other nodes hold trivially |
| Matcher.Compound | src/a11y-tests/utils/query-selector-all.ts:119-139 | definition: every token of a compound holds on the element (`Matcher.CompoundSnoc`, `Matcher.MatchesCompound`) |
| Matcher.Matches | src/a11y-tests/utils/query-selector-all.ts:117-194 | definition: the verdict of `matchesSelector`, which `Matcher.MatchesSelector` computes and the combinator lemmas characterise |
| Matcher.MatchRest | src/a11y-tests/utils/query-selector-all.ts:119-192 | definition: the outcome of the loop from the state where the tokens before index `n` are still to be read, right to left; a token that fails ends in false |
| Matcher.CombinatorRest | src/a11y-tests/utils/query-selector-all.ts:140-190 | definition: what each combinator at index `i` decides or continues with, including the index steps of `>`, `+` and `~` |
| Matcher.AncestorTree | src/a11y-tests/utils/query-selector-all.ts:207-229 | definition: the first ancestor matching the compound, then the retry from it; `Matcher.AncestorTreeExists` states its meaning |
| Matcher.FirstMatch | src/a11y-tests/utils/query-selector-all.ts:96-115 | the first matching node, when there is one, is a node of the list |
| Matcher.GetFirstMatchingAncestor | src/a11y-tests/utils/query-selector-all.ts:96-105 | the loop returns the nearest ancestor matching the tokens, or nothing |
| Matcher.GetFirstMatchingPreviousSibling | src/a11y-tests/utils/query-selector-all.ts:107-115 | the loop returns the nearest previous sibling matching the tokens, or nothing |
| Matcher.EvaluateAncestorTree | src/a11y-tests/utils/query-selector-all.ts:207-229 | the restart loop over matching ancestors computes the ancestor-tree verdict |
| Matcher.MatchesSelector | src/a11y-tests/utils/query-selector-all.ts:117-194 | the right-to-left loop returns the specified match verdict for every token list |
| Matcher.Combinator | src/a11y-tests/utils/query-selector-all.ts:140-191 | a combinator either decides the match or hands the loop the element and index it continues with, and both agree with the specification |
| Matcher.PrecedingSiblingsStep | src/a11y-tests/utils/query-selector-all.ts:113 | the previous-sibling chain is the previous sibling followed by its own chain |
| Matcher.FirstMatchFinds | src/a11y-tests/utils/query-selector-all.ts:96-115 | no match means no node of the list matches; a match is a matching node with no matching node before it |
| Matcher.AncestorsSuffix | src/a11y-tests/utils/query-selector-all.ts:103 | the ancestors of the j-th ancestor are the ancestors after it |
| Matcher.AncestorTreeExists | src/a11y-tests/utils/query-selector-all.ts:196-229 | the ancestor-tree walk succeeds exactly when some ancestor matches both the compound and the tokens before it |
| Matcher.AncestorTreeFrom | src/a11y-tests/utils/query-selector-all.ts:216-226 | from the nearest ancestor matching the compound, success is that ancestor matching the rest or a later one matching both |
| Matcher.CompoundSnoc | src/a11y-tests/utils/query-selector-all.ts:119-139 | a compound with one more token holds exactly when the compound and the token hold |
| Matcher.MatchRestPrefix | src/a11y-tests/utils/query-selector-all.ts:119-120 | the loop never reads tokens at or past its index |
| Matcher.CombinatorRestPrefix | src/a11y-tests/utils/query-selector-all.ts:140-191 | a combinator step never reads tokens at or past its index |
| Matcher.TrailingCompound | src/a11y-tests/utils/query-selector-all.ts:119-139 | combinator-free tokens are checked one by one on the current element before anything else happens |
| Matcher.MatchesCompound | src/a11y-tests/utils/query-selector-all.ts:117-139 | a selector without combinators matches exactly when every token holds, and the empty selector matches everything |
| Matcher.SplitAtLastCompound | src/a11y-tests/utils/query-selector-all.ts:117-194 | matching is matching the trailing compound and, on the same element, the tokens before it |
| Matcher.CombinatorSplit | src/a11y-tests/utils/query-selector-all.ts:144-150 | where the parts of `pre <comb> c` sit in the token list |
| Matcher.UnfoldCombinator | src/a11y-tests/utils/query-selector-all.ts:119-191 | `pre <comb> c` matches when `c` holds on the element and the combinator's branch succeeds |
| Matcher.DescendantRest | src/a11y-tests/utils/query-selector-all.ts:142-155 | a descendant combinator hands over to the ancestor-tree walk with the compound and what precedes it |
| Matcher.OrphanChildRest | src/a11y-tests/utils/query-selector-all.ts:159-164 | a child combinator fails on an element without a parent |
| Matcher.ChildRest | src/a11y-tests/utils/query-selector-all.ts:156-168 | a child combinator checks the compound on the parent, then continues there one token further back |
| Matcher.AdjacentWithoutSiblingRest | src/a11y-tests/utils/query-selector-all.ts:172-174 | an adjacent-sibling combinator fails on an element without a previous sibling |
| Matcher.AdjacentRest | src/a11y-tests/utils/query-selector-all.ts:169-177 | an adjacent-sibling combinator checks the compound on the previous sibling, then continues on the same element past the compound |
| Matcher.GeneralRest | src/a11y-tests/utils/query-selector-all.ts:178-189 | a general-sibling combinator needs some previous sibling to match the compound, then continues on the same element past the compound |
| Matcher.DescendantCombinator | src/a11y-tests/utils/query-selector-all.ts:142-155 | `pre c` matches exactly when `c` holds and some ancestor across slots and shadow roots matches `pre` |
| Matcher.ChildCombinator | src/a11y-tests/utils/query-selector-all.ts:156-168 | `pre > c`, with `pre` ending in a compound, matches exactly when `c` holds and the parent matches `pre` |
| Matcher.ChildStep | src/a11y-tests/utils/query-selector-all.ts:166-167 | skipping the token before `>` loses nothing when `pre` ends in a compound |
| Matcher.ChildStepCompound | src/a11y-tests/utils/query-selector-all.ts:166-167 | the same, for the parent and a selector ending in a compound |
| Matcher.AdjacentSiblingCombinator | src/a11y-tests/utils/query-selector-all.ts:169-177 | `pre + c` matches exactly when `c` holds, the previous sibling matches the compound before `+`, and the element itself matches the rest |
| Matcher.GeneralSiblingCombinator | src/a11y-tests/utils/query-selector-all.ts:178-189 | `pre ~ c` matches exactly when `c` holds, some previous sibling matches the compound before `~`, and the element itself matches the rest |
| Matcher.AdjacentChainSameSibling | src/a11y-tests/utils/query-selector-all.ts:169-177 | `a + b + c` matches exactly when `c` holds and the one previous sibling matches both `a` and `b` |
| Matcher.AdjacentTagChainNeverMatches | src/a11y-tests/utils/query-selector-all.ts:169-177 | a chain of two `+` over two different tag names matches no element |
| Query.Hits | src/a11y-tests/utils/query-selector-all.ts:238-243 | definition: the copies of one element the inner loop pushes (`Query.HitsSpec`) |
| Query.Recorded | src/a11y-tests/utils/query-selector-all.ts:231-246 | definition: the hits of every walked element, in walk order (`Query.RecordedMembers`) |
| Query.Filter | src/a11y-tests/utils/query-selector-all.ts:231-246 | definition: the walked elements that match some alternative, once per occurrence in the walk (`Query.FilterMembers`, `Query.FilterOrder`) |
| Query.MatchesAny | src/a11y-tests/utils/query-selector-all.ts:238-242 | definition: some comma-separated alternative matches the element (`Query.HitsSpec`) |
| Query.ContextOf | src/a11y-tests/utils/query-selector-all.ts:287 | definition: the given context, or the document when none is given |
| Query.QueryElements | src/a11y-tests/utils/query-selector-all.ts:279-283 | definition: the recorded matches of the selector with sources attached, from the context |
| Query.QueryResult | src/a11y-tests/utils/query-selector-all.ts:285-296 | definition: the recorded matches through the `Set`; `Query.QuerySelectorAllSpec` states what it holds |
| Query.PushMatches | src/a11y-tests/utils/query-selector-all.ts:238-243 | the inner loop pushes the element once per matching alternative |
| Query.GetMatchingElements | src/a11y-tests/utils/query-selector-all.ts:231-246 | draining the iterator records, for each node still to yield, one copy per matching alternative, and leaves the iterator empty |
| Query.RecordedStep | src/a11y-tests/utils/query-selector-all.ts:237-244 | one round of the outer loop moves the yielded element's hits from what is still to record to what has been |
| Query.HitsSnoc | src/a11y-tests/utils/query-selector-all.ts:238-243 | trying one more alternative appends the element when it matches |
| Query.HitsSpec | src/a11y-tests/utils/query-selector-all.ts:238-243 | only the element itself is pushed, and it is pushed at least once exactly when it matches some alternative |
| Query.RecordedMembers | src/a11y-tests/utils/query-selector-all.ts:231-246 | an element is recorded exactly when the walk yields it and it matches some alternative |
| Query.FilterMembers | src/a11y-tests/utils/query-selector-all.ts:231-246 | the reference answer holds exactly the walked elements that match, without repeats when the walk has none |
| Query.FilterHas | src/a11y-tests/utils/query-selector-all.ts:231-246 | an element of the reference answer is walked and matches |
| Query.FilterOrder | src/a11y-tests/utils/query-selector-all.ts:231-246 | the reference answer keeps walk order |
| Query.FilterAll | src/a11y-tests/utils/query-selector-all.ts:231-246 | when every element matches, the reference answer is the whole walk |
| Query.DedupeRecorded | src/a11y-tests/utils/query-selector-all.ts:289-295 | after the `Set`, one copy per matching alternative gives the same answer as one copy per matching element |
| Query.QueryMethod | src/a11y-tests/utils/query-selector-all.ts:279-283 | `query` attaches sources, walks from the context and records the matches |
| Query.QuerySelectorAll | src/a11y-tests/utils/query-selector-all.ts:285-296 | `querySelectorAll` is the recorded matches through a `Set` |
| Query.QuerySelectorAllSpec | src/a11y-tests/utils/query-selector-all.ts:285-296 | the result repeats no element; it holds exactly the elements below the context, in the composed tree, that match some alternative; it keeps walk order; without repeats in the walk it is exactly the matching walk |
| Query.UniversalSelector | src/a11y-tests/utils/query-selector-all.ts:117-194 | `*` returns every element of the walk, each once |
| Seqs.IndexOf | src/a11y-tests/utils/user-event-tab.ts:23-26 | `indexOf` is -1 exactly when the value is absent, and otherwise its first position |
| Seqs.IndexOfTail | src/a11y-tests/utils/user-event-tab.ts:25 | past a different first element, `indexOf` is one more than in the tail |
| Seqs.Reversed | src/a11y-tests/utils/query-selector-all.ts:72 | `reverse()` keeps the length and mirrors the positions |
| Seqs.ReversedPush | src/a11y-tests/utils/query-selector-all.ts:52-54 | a push onto the stack comes first in its reversal |
| Seqs.DedupeFrom | src/a11y-tests/utils/query-selector-all.ts:294-295 | definition: inserting a sequence into a `Set` that already holds `seen`; the `DedupeFrom` lemmas state its properties |
| Seqs.Dedupe | src/a11y-tests/utils/query-selector-all.ts:294-295 | `Array.from(new Set(s))` repeats nothing, holds exactly the elements of `s`, in order of first occurrence |
| Seqs.DedupeFromMembers | src/a11y-tests/utils/query-selector-all.ts:294-295 | the `Set` keeps each new element once and nothing else |
| Seqs.DedupeFromSound | src/a11y-tests/utils/query-selector-all.ts:294-295 | the `Set` yields no repeats and only new elements of the input |
| Seqs.DedupeFromComplete | src/a11y-tests/utils/query-selector-all.ts:294-295 | every new element of the input is kept |
| Seqs.DedupeFromOrder | src/a11y-tests/utils/query-selector-all.ts:294-295 | the `Set` keeps first-occurrence order |
| Seqs.DedupeFromDistinct | src/a11y-tests/utils/query-selector-all.ts:294-295 | a sequence without repeats comes out of the `Set` unchanged |
| Seqs.DedupeFromSeen | src/a11y-tests/utils/query-selector-all.ts:294-295 | inserting elements already in the `Set` changes nothing |
| ActiveElement.GetActiveElement | src/a11y-tests/utils/get-active-element.ts:3-17 | nothing when the root has no active element; otherwise nothing or an element without a shadow root, lying below the root |
| ActiveElement.UnshadowedActiveElement | src/a11y-tests/utils/get-active-element.ts:14-15 | a focused element without a shadow root is the answer |
| ActiveElement.ShadowedActiveElement | src/a11y-tests/utils/get-active-element.ts:12-13 | a focused shadow host defers to its shadow root |
| ActiveElement.FocusedHostReportsNothing | src/a11y-tests/utils/get-active-element.ts:6-13 | a focused host with nothing focused in its shadow root yields nothing |
| FocusOrder.VisibleFocusable | src/a11y-tests/utils/user-event-tab.ts:10-18 | definition: the `IFRAME` filter, then the `checkVisibility()` filter (`FocusOrder.VisibleFocusableSpec`) |
| FocusOrder.Eligible | src/a11y-tests/utils/user-event-tab.ts:11-17 | definition: the element is not an `IFRAME` and `checkVisibility()` holds for it, the two conditions the filters keep (`FocusOrder.VisibleFocusableSpec`) |
| FocusOrder.Candidates | src/a11y-tests/utils/user-event-tab.ts:5-21 | definition: the two filters applied to `querySelectorAll(focusable, document.body)` (`FocusOrder.CandidatesSpec`) |
| FocusOrder.TabTarget | src/a11y-tests/utils/user-event-tab.ts:32-37 | definition: the candidate at the current index plus one, if there is one (`FocusOrder.TabFromIndex`) |
| FocusOrder.ShiftTabTarget | src/a11y-tests/utils/user-event-tab.ts:45-50 | definition: the candidate at the current index minus one, if there is one (`FocusOrder.ShiftTabFromIndex`) |
| FocusOrder.VisibleFocusableSpec | src/a11y-tests/utils/user-event-tab.ts:5-21 | the filters keep exactly the visible non-iframe elements, in order, without adding repeats |
| FocusOrder.VisibleKept | src/a11y-tests/utils/user-event-tab.ts:10-18 | a kept element is an input element that is visible and not an iframe |
| FocusOrder.VisibleComplete | src/a11y-tests/utils/user-event-tab.ts:10-18 | every visible non-iframe input element is kept |
| FocusOrder.VisibleDistinct | src/a11y-tests/utils/user-event-tab.ts:10-18 | the filters add no repeats |
| FocusOrder.VisibleOrder | src/a11y-tests/utils/user-event-tab.ts:10-18 | the filters keep the input order |
| FocusOrder.CandidatesSpec | src/a11y-tests/utils/user-event-tab.ts:5-21 | the candidates repeat nothing and are exactly the visible non-iframe elements below the body that match the focusable selector |
| FocusOrder.CurrentIndex | src/a11y-tests/utils/user-event-tab.ts:23-26 | the index is -1 exactly when nothing is focused or the focused element is not a candidate, and otherwise its first position |
| FocusOrder.TabFromIndex | src/a11y-tests/utils/user-event-tab.ts:29-40 | Tab from the i-th candidate goes to the next one, and nowhere from the last |
| FocusOrder.ShiftTabFromIndex | src/a11y-tests/utils/user-event-tab.ts:42-53 | Shift+Tab from the i-th candidate goes to the previous one, and nowhere from the first |
| FocusOrder.FromOutside | src/a11y-tests/utils/user-event-tab.ts:23-53 | from outside the list, Tab enters at the first candidate and Shift+Tab does nothing |
| FocusOrder.TargetsAreCandidates | src/a11y-tests/utils/user-event-tab.ts:29-53 | focus only ever moves to a candidate, and never when there are none |
| FocusOrder.TabThenShiftTab | src/a11y-tests/utils/user-event-tab.ts:29-53 | among distinct candidates, the Shift+Tab target of the Tab target is the start; `FocusState` follows it only when the Tab target hosts no shadow root (see `FocusOrder.FocusOnHostRestarts`) |
| FocusOrder.ShiftTabThenTab | src/a11y-tests/utils/user-event-tab.ts:29-53 | among distinct candidates, the Tab target of the Shift+Tab target is the start; `FocusState` follows it only when the Shift+Tab target hosts no shadow root |
| FocusOrder.AfterFocus | src/a11y-tests/utils/user-event-tab.ts:38 | definition: what `getActiveElement()` reports after `focus()` on the target: the target, or nothing when it hosts a shadow root |
| FocusOrder.AfterFocusIsReported | src/a11y-tests/utils/get-active-element.ts:3-17 | when a root's active element is the focused target, and a focused host has nothing focused in its shadow root, `getActiveElement` reports exactly `AfterFocus` |
| FocusOrder.FocusOnHostRestarts | src/a11y-tests/utils/user-event-tab.ts:23-53 | after focus lands on a shadow host, the next Tab goes to the first candidate and Shift+Tab does nothing |
| FocusOrder.FocusState.constructor | src/a11y-tests/utils/user-event-tab.ts:23-26 | focus starts where `getActiveElement()` finds it from the document |
| FocusOrder.FocusState.VisibleFocusableElements | src/a11y-tests/utils/user-event-tab.ts:5-21 | the method computes the candidate list, all of it in the snapshot |
| FocusOrder.FocusState.Tab | src/a11y-tests/utils/user-event-tab.ts:29-40 | the focus becomes what `getActiveElement()` reports after focusing the Tab target (nothing for a shadow host) when there is a target, and otherwise stays; the focus never rests on a shadow host |
| FocusOrder.FocusState.ShiftTab | src/a11y-tests/utils/user-event-tab.ts:42-53 | the focus becomes what `getActiveElement()` reports after focusing the Shift+Tab target (nothing for a shadow host) when there is a target, and otherwise stays; the focus never rests on a shadow host |

## Left out

- Parsing: postcss-selector-parser is not part of this model. `query` takes the parsed selector (a list of alternatives, each a list of tokens) as a parameter, next to the selector text. Syntax errors the parser throws are not modelled.
- Nested selectors inside pseudo-classes (such as `:not(.a)`) are not walked by the model's `attachSourceIfNecessary`. Those inner nodes are never read by the matcher, which sends the whole pseudo-class to `element.matches`.
- `attachSourceIfNecessary` writes into the parser's nodes in place. The model rebuilds the token lists instead, so aliasing of AST nodes is not captured.
- `element.matches`, `checkVisibility()` and the `nodeName` of an element are values stored in each node of the snapshot. The native matcher can throw on bad source text, and that is not modelled.
- Selector.Substring: indices count characters, not UTF-16 code units; columns after a character outside the Basic Multilingual Plane differ from the source's, so `Selector.LineSlice` and `Selector.SourceCodeOf` cut such lines at other positions than the source does.
- Selector.SpanReadable: the spans are assumed to come from parsing the same selector text, so every line they name exists; the TypeError the source would throw on a span past the last line is not modelled.
- Selector.Lower: models `toLowerCase` on ASCII letters only. Full Unicode case mapping is not modelled.
- The IE fallback where `children` is undefined is not modelled: every node has a list of children.
- `focus()` is modelled by `FocusOrder.AfterFocus`: the focused element of `FocusState` becomes what `getActiveElement()` reports afterwards. This assumes a focused shadow host has nothing focused inside its shadow root; a host created with `delegatesFocus`, which passes focus on into its shadow tree, is not modelled. The snapshot's `activeElement` fields are not rewritten.
- The focusable selector module is not part of this model. Its parsed form and its text are fields of `FocusState`.
- A missing `document.body` is not modelled. The body is a node of the snapshot.
- The `async`/`await` plumbing of the Tab helpers is not modelled; each helper runs to completion against a fixed snapshot.
- The `rank` and `height` fields of the snapshot are not part of the DOM. They make explicit the finite depth of a real document that the source's walks rely on to terminate.
