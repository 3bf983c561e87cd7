/** `matchesSelector` and the three walks it relies on
    (`getFirstMatchingAncestor`, `getFirstMatchingPreviousSibling`,
    `evaluateAncestorTree`). Each is a method that follows the source's loop,
    proved equal to a specification function; the lemmas below say what the
    specification functions mean for each combinator. */
module Matcher {
  import opened Wrappers
  import opened Seqs
  import opened Dom
  import opened Selector

  /** One non-combinator token checked against element `e`: ids compare
      exactly, classes by membership, tag names case-insensitively, pseudo
      and attribute clauses through the native matcher on their recovered
      source text; any other token type is not checked at all. */
  predicate SimpleHolds(dom: Snapshot, e: NodeId, t: Token)
    requires e in dom.nodes
  {
    var d := dom.nodes[e];
    match t
    case IdToken(v) => d.id == v
    case ClassToken(v) => v in d.classList
    case TagToken(v) => Lower(d.tagName) == Lower(v)
    case PseudoToken(_, _, code) => d.matchesClause(code)
    case AttributeToken(_, _, code) => d.matchesClause(code)
    case CombinatorToken(_) => true
    case OtherToken(_) => true
  }

  /** Every token of a compound holds on `e`. */
  predicate Compound(dom: Snapshot, e: NodeId, c: seq<Token>)
    requires e in dom.nodes
  {
    forall k :: 0 <= k < |c| ==> SimpleHolds(dom, e, c[k])
  }

  /** `matchesSelector(e, { nodes: toks })`. */
  function Matches(dom: Snapshot, e: NodeId, toks: seq<Token>): bool
    requires WellFormed(dom) && e in dom.nodes
    decreases |toks|, 2, 0, 0
  {
    MatchRest(dom, e, toks, |toks|)
  }

  /** The outcome of the loop of `matchesSelector` from the state where the
      current element is `e` and the tokens `toks[..n]` are still to be read,
      right to left. */
  function MatchRest(dom: Snapshot, e: NodeId, toks: seq<Token>, n: nat): bool
    requires WellFormed(dom) && e in dom.nodes && n <= |toks|
    decreases |toks|, 1, n, 1
  {
    if n == 0 then true
    else if !toks[n - 1].CombinatorToken? then SimpleHolds(dom, e, toks[n - 1]) && MatchRest(dom, e, toks, n - 1)
    else CombinatorRest(dom, e, toks, n - 1)
  }

  /** The loop of `matchesSelector` on reaching the combinator at index `i`.
      A descendant combinator decides the match there and then. The others
      check the compound just before them on the parent or on a previous
      sibling; `>` then moves to the parent and skips one more token, while
      `+` and `~` skip the compound and stay on the same element. A
      combinator of any other value is passed over. */
  function CombinatorRest(dom: Snapshot, e: NodeId, toks: seq<Token>, i: nat): bool
    requires WellFormed(dom) && e in dom.nodes && i < |toks| && toks[i].CombinatorToken?
    decreases |toks|, 1, i + 1, 0
  {
    var v := toks[i].value;
    var pre := LastCompound(toks[..i]);
    if v == " " then
      AncestorTree(dom, e, pre, toks[..i - |pre|])
    else if v == ">" then
      match Parent(dom, e)
      case None => false
      case Some(p) => Matches(dom, p, pre) && MatchRest(dom, p, toks, if i >= 1 then i - 1 else 0)
    else if v == "+" then
      match PreviousElementSibling(dom, e)
      case None => false
      case Some(s) => Matches(dom, s, pre) && MatchRest(dom, e, toks, i - |pre|)
    else if v == "~" then
      FirstMatch(dom, PrecedingSiblings(dom, e), pre).Some? && MatchRest(dom, e, toks, i - |pre|)
    else
      MatchRest(dom, e, toks, i)
  }

  /** The first node of `list` that matches `nodes`. */
  function FirstMatch(dom: Snapshot, list: seq<NodeId>, nodes: seq<Token>): (r: Option<NodeId>)
    requires WellFormed(dom) && AllIn(dom, list)
    ensures r.Some? ==> r.value in list
    decreases |nodes|, 3, |list|, 0
  {
    if list == [] then None
    else if Matches(dom, list[0], nodes) then Some(list[0])
    else FirstMatch(dom, list[1..], nodes)
  }

  /** `evaluateAncestorTree(e, last, before)`: find the nearest ancestor
      matching `last`; succeed if it also matches `before`, otherwise go on
      from that ancestor. */
  function AncestorTree(dom: Snapshot, e: NodeId, last: seq<Token>, before: seq<Token>): bool
    requires WellFormed(dom) && e in dom.nodes
    decreases |last| + |before| + 1, 0, dom.nodes[e].rank, 0
  {
    AncestorsAbove(dom, e);
    match FirstMatch(dom, Ancestors(dom, e), last)
    case None => false
    case Some(a) => Matches(dom, a, before) || AncestorTree(dom, a, last, before)
  }

  /** `getFirstMatchingAncestor`. */
  method GetFirstMatchingAncestor(dom: Snapshot, e: NodeId, nodes: seq<Token>) returns (r: Option<NodeId>)
    requires WellFormed(dom) && e in dom.nodes
    ensures r == FirstMatch(dom, Ancestors(dom, e), nodes)
    decreases |nodes|, 5
  {
    assert NodeRanked(dom, e);
    var ancestor := Parent(dom, e);
    ghost var rest := Ancestors(dom, e);
    while ancestor.Some?
      invariant ancestor.None? ==> rest == []
      invariant ancestor.Some? ==> ancestor.value in dom.nodes && rest == [ancestor.value] + Ancestors(dom, ancestor.value)
      invariant FirstMatch(dom, Ancestors(dom, e), nodes) == FirstMatch(dom, rest, nodes)
      decreases |rest|
    {
      var a := ancestor.value;
      var m := MatchesSelector(dom, a, nodes);
      if m {
        return ancestor;
      }
      assert NodeRanked(dom, a);
      ancestor := Parent(dom, a);
      rest := rest[1..];
    }
    return None;
  }

  /** `getFirstMatchingPreviousSibling`: follows `previousElementSibling`. */
  method GetFirstMatchingPreviousSibling(dom: Snapshot, e: NodeId, nodes: seq<Token>) returns (r: Option<NodeId>)
    requires WellFormed(dom) && e in dom.nodes
    ensures r == FirstMatch(dom, PrecedingSiblings(dom, e), nodes)
    decreases |nodes|, 5
  {
    PrecedingSiblingsStep(dom, e);
    var sibling := PreviousElementSibling(dom, e);
    ghost var rest := PrecedingSiblings(dom, e);
    while sibling.Some?
      invariant sibling.None? ==> rest == []
      invariant sibling.Some? ==> sibling.value in dom.nodes && rest == [sibling.value] + PrecedingSiblings(dom, sibling.value)
      invariant FirstMatch(dom, PrecedingSiblings(dom, e), nodes) == FirstMatch(dom, rest, nodes)
      decreases |rest|
    {
      var s := sibling.value;
      var m := MatchesSelector(dom, s, nodes);
      if m {
        return sibling;
      }
      PrecedingSiblingsStep(dom, s);
      sibling := PreviousElementSibling(dom, s);
      rest := rest[1..];
    }
    return None;
  }

  /** `evaluateAncestorTree`. */
  method EvaluateAncestorTree(dom: Snapshot, e: NodeId, last: seq<Token>, before: seq<Token>) returns (r: bool)
    requires WellFormed(dom) && e in dom.nodes
    ensures r == AncestorTree(dom, e, last, before)
    decreases |last| + |before| + 1, 2
  {
    var ancestor := GetFirstMatchingAncestor(dom, e, last);
    if ancestor.None? {
      return false;
    }
    while ancestor.Some?
      invariant ancestor.Some? ==> ancestor.value in dom.nodes
      invariant ancestor.Some? ==>
        AncestorTree(dom, e, last, before) == (Matches(dom, ancestor.value, before) || AncestorTree(dom, ancestor.value, last, before))
      invariant ancestor.None? ==> !AncestorTree(dom, e, last, before)
      decreases if ancestor.Some? then dom.nodes[ancestor.value].rank + 1 else 0
    {
      var a := ancestor.value;
      var m := MatchesSelector(dom, a, before);
      if m {
        return true;
      }
      AncestorsAbove(dom, a);
      ancestor := GetFirstMatchingAncestor(dom, a, last);
    }
    return false;
  }

  /** The loop state of `matchesSelector` as a count of tokens still to read:
      the index can drop to -2 after a `>`. */
  function Pending(i: int): nat {
    if i < 0 then 0 else i + 1
  }

  /** `matchesSelector`. */
  method MatchesSelector(dom: Snapshot, e: NodeId, toks: seq<Token>) returns (r: bool)
    requires WellFormed(dom) && e in dom.nodes
    ensures r == Matches(dom, e, toks)
    decreases |toks|, 4
  {
    var element := e;
    var i := |toks| - 1;
    while i >= 0
      invariant -2 <= i < |toks|
      invariant element in dom.nodes
      invariant Matches(dom, e, toks) == MatchRest(dom, element, toks, Pending(i))
      decreases i + 2
    {
      var node := toks[i];
      var d := dom.nodes[element];
      assert Pending(i) == i + 1;
      match node {
      case IdToken(v) =>
        if d.id != v {
          return false;
        }
      case ClassToken(v) =>
        if v !in d.classList {
          return false;
        }
      case TagToken(v) =>
        if Lower(d.tagName) != Lower(v) {
          return false;
        }
      case PseudoToken(_, _, code) =>
        if !d.matchesClause(code) {
          return false;
        }
      case AttributeToken(_, _, code) =>
        if !d.matchesClause(code) {
          return false;
        }
      case CombinatorToken(_) =>
        assert MatchRest(dom, element, toks, i + 1) == CombinatorRest(dom, element, toks, i);
        var verdict, next, j := Combinator(dom, element, toks, i);
        if verdict.Some? {
          return verdict.value;
        }
        element, i := next, j;
      case OtherToken(_) =>
      }
      i := i - 1;
    }
    return true;
  }

  /** The combinator branch of the loop of `matchesSelector`, for the
      combinator at index `i`: either the verdict of the whole match
      (`Some`), or the element and index the loop goes on with (`None`). */
  method Combinator(dom: Snapshot, element: NodeId, toks: seq<Token>, i: nat)
    returns (verdict: Option<bool>, next: NodeId, j: int)
    requires WellFormed(dom) && element in dom.nodes && i < |toks| && toks[i].CombinatorToken?
    ensures verdict.Some? ==> verdict.value == CombinatorRest(dom, element, toks, i)
    ensures verdict.None? ==> -1 <= j <= i && next in dom.nodes
    ensures verdict.None? ==> CombinatorRest(dom, element, toks, i) == MatchRest(dom, next, toks, Pending(j - 1))
    decreases |toks|, 3
  {
    var value := toks[i].value;
    next, j := element, i;
    if value == " " {
      var lastNonCombinatorNodes := GetLastNonCombinatorNodes(toks[..i]);
      var nodesBefore := toks[..i - |lastNonCombinatorNodes|];
      var r := EvaluateAncestorTree(dom, element, lastNonCombinatorNodes, nodesBefore);
      return Some(r), next, j;
    } else if value == ">" {
      var precedingNodes := GetLastNonCombinatorNodes(toks[..i]);
      var ancestor := Parent(dom, element);
      if ancestor.None? {
        return Some(false), next, j;
      }
      var m := MatchesSelector(dom, ancestor.value, precedingNodes);
      if !m {
        return Some(false), next, j;
      }
      next, j := ancestor.value, i - 1;
    } else if value == "+" {
      var precedingNodes := GetLastNonCombinatorNodes(toks[..i]);
      var sibling := PreviousElementSibling(dom, element);
      if sibling.None? {
        return Some(false), next, j;
      }
      var m := MatchesSelector(dom, sibling.value, precedingNodes);
      if !m {
        return Some(false), next, j;
      }
      j := i - |precedingNodes|;
    } else if value == "~" {
      var precedingNodes := GetLastNonCombinatorNodes(toks[..i]);
      var sibling := GetFirstMatchingPreviousSibling(dom, element, precedingNodes);
      if sibling.None? {
        return Some(false), next, j;
      }
      j := i - |precedingNodes|;
    }
    verdict := None;
  }

  /** `previousElementSibling` is the first of the preceding siblings, and
      the rest of them precede it. */
  lemma PrecedingSiblingsStep(dom: Snapshot, e: NodeId)
    requires WellFormed(dom) && e in dom.nodes
    ensures PrecedingSiblings(dom, e) == match PreviousElementSibling(dom, e)
      case None => []
      case Some(s) => [s] + PrecedingSiblings(dom, s)
  {
    assert NodeClosed(dom, e);
    match dom.nodes[e].parentNode
    case None =>
    case Some(p) =>
      assert NodeClosed(dom, p);
      var cs := dom.nodes[p].children;
      var k := IndexOf(cs, e);
      if k > 0 {
        PreviousSiblingOfChild(dom, p, k);
        PreviousSiblingOfChild(dom, p, k - 1);
        assert cs[..k] == cs[..k - 1] + [cs[k - 1]];
        ReversedPush(cs[..k - 1], cs[k - 1]);
      }
  }

  /** `FirstMatch` is the first matching node of the list, and `None` when
      no node of it matches. */
  lemma {:induction false} FirstMatchFinds(dom: Snapshot, list: seq<NodeId>, nodes: seq<Token>)
    requires WellFormed(dom) && AllIn(dom, list)
    ensures FirstMatch(dom, list, nodes).None? ==>
      forall k :: 0 <= k < |list| ==> !Matches(dom, list[k], nodes)
    ensures FirstMatch(dom, list, nodes).Some? ==>
      exists j :: 0 <= j < |list| && list[j] == FirstMatch(dom, list, nodes).value
        && Matches(dom, list[j], nodes) && forall k :: 0 <= k < j ==> !Matches(dom, list[k], nodes)
    decreases |list|
  {
    if list != [] && !Matches(dom, list[0], nodes) {
      var tail := list[1..];
      FirstMatchFinds(dom, tail, nodes);
      assert forall k :: 0 < k < |list| ==> list[k] == tail[k - 1];
      if FirstMatch(dom, tail, nodes).Some? {
        var j :| 0 <= j < |tail| && tail[j] == FirstMatch(dom, tail, nodes).value
          && Matches(dom, tail[j], nodes) && forall k :: 0 <= k < j ==> !Matches(dom, tail[k], nodes);
        assert list[j + 1] == tail[j];
      }
    } else if list != [] {
      assert list[0] == FirstMatch(dom, list, nodes).value;
    }
  }

  /** The ancestors of the `j`-th ancestor are the ones after it. */
  lemma {:induction false} AncestorsSuffix(dom: Snapshot, e: NodeId, j: nat)
    requires WellFormed(dom) && e in dom.nodes && j < |Ancestors(dom, e)|
    ensures Ancestors(dom, e)[j] in dom.nodes
    ensures Ancestors(dom, Ancestors(dom, e)[j]) == Ancestors(dom, e)[j + 1..]
    decreases j
  {
    assert NodeRanked(dom, e);
    var p := Parent(dom, e).value;
    assert Ancestors(dom, e) == [p] + Ancestors(dom, p);
    if j > 0 {
      AncestorsSuffix(dom, p, j - 1);
      assert Ancestors(dom, e)[j] == Ancestors(dom, p)[j - 1];
      assert Ancestors(dom, e)[j + 1..] == Ancestors(dom, p)[j..];
    }
  }

  /** `evaluateAncestorTree` succeeds exactly when some ancestor matches both
      the compound and the selector before it: restarting from each matching
      ancestor visits them all. */
  lemma {:induction false} AncestorTreeExists(dom: Snapshot, e: NodeId, last: seq<Token>, before: seq<Token>)
    requires WellFormed(dom) && e in dom.nodes
    ensures AncestorTree(dom, e, last, before) <==>
      exists k :: 0 <= k < |Ancestors(dom, e)| && Matches(dom, Ancestors(dom, e)[k], last)
        && Matches(dom, Ancestors(dom, e)[k], before)
    decreases dom.nodes[e].rank, 1
  {
    var anc := Ancestors(dom, e);
    FirstMatchFinds(dom, anc, last);
    if FirstMatch(dom, anc, last).None? {
      assert !AncestorTree(dom, e, last, before);
    } else {
      var j :| 0 <= j < |anc| && anc[j] == FirstMatch(dom, anc, last).value && Matches(dom, anc[j], last)
        && forall k :: 0 <= k < j ==> !Matches(dom, anc[k], last);
      AncestorTreeFrom(dom, e, last, before, j);
    }
  }

  /** The step of `AncestorTreeExists` from the nearest ancestor matching
      `last`, the `j`-th. */
  lemma {:induction false} AncestorTreeFrom(dom: Snapshot, e: NodeId, last: seq<Token>, before: seq<Token>, j: nat)
    requires WellFormed(dom) && e in dom.nodes
    requires j < |Ancestors(dom, e)| && FirstMatch(dom, Ancestors(dom, e), last) == Some(Ancestors(dom, e)[j])
    requires Matches(dom, Ancestors(dom, e)[j], last)
    requires forall k :: 0 <= k < j ==> !Matches(dom, Ancestors(dom, e)[k], last)
    ensures AncestorTree(dom, e, last, before) <==>
      exists k :: 0 <= k < |Ancestors(dom, e)| && Matches(dom, Ancestors(dom, e)[k], last)
        && Matches(dom, Ancestors(dom, e)[k], before)
    decreases dom.nodes[e].rank, 0
  {
    var anc := Ancestors(dom, e);
    var a := anc[j];
    AncestorsAbove(dom, e);
    assert AncestorTree(dom, e, last, before) == (Matches(dom, a, before) || AncestorTree(dom, a, last, before));
    AncestorsSuffix(dom, e, j);
    var above := Ancestors(dom, a);
    assert forall k :: j < k < |anc| ==> anc[k] == above[k - j - 1];
    AncestorTreeExists(dom, a, last, before);
    if Matches(dom, a, before) {
      assert Matches(dom, anc[j], last) && Matches(dom, anc[j], before);
    } else if AncestorTree(dom, a, last, before) {
      var k :| 0 <= k < |above| && Matches(dom, above[k], last) && Matches(dom, above[k], before);
      assert anc[k + j + 1] == above[k];
    } else {
      forall k | 0 <= k < |anc| && Matches(dom, anc[k], last)
        ensures !Matches(dom, anc[k], before)
      {
        if j < k {
          assert above[k - j - 1] == anc[k];
        }
      }
    }
  }

  /** Every token of `c + [t]` holds when every token of `c` and `t` hold. */
  lemma CompoundSnoc(dom: Snapshot, e: NodeId, c: seq<Token>, t: Token)
    requires e in dom.nodes
    ensures Compound(dom, e, c + [t]) == (Compound(dom, e, c) && SimpleHolds(dom, e, t))
  {
    if Compound(dom, e, c) && SimpleHolds(dom, e, t) {
      forall k | 0 <= k < |c + [t]| ensures SimpleHolds(dom, e, (c + [t])[k]) {
        if k < |c| { assert (c + [t])[k] == c[k]; }
      }
    }
    if Compound(dom, e, c + [t]) {
      forall k | 0 <= k < |c| ensures SimpleHolds(dom, e, c[k]) {
        assert (c + [t])[k] == c[k];
      }
      assert (c + [t])[|c|] == t;
    }
  }

  /** Reading the tokens `toks[..n]` never looks at a token at or after `n`. */
  lemma {:induction false} MatchRestPrefix(dom: Snapshot, e: NodeId, toks: seq<Token>, m: nat, n: nat)
    requires WellFormed(dom) && e in dom.nodes && n <= m <= |toks|
    ensures MatchRest(dom, e, toks, n) == MatchRest(dom, e, toks[..m], n)
    decreases n, 1
  {
    if n > 0 {
      assert toks[..m][n - 1] == toks[n - 1];
      if !toks[n - 1].CombinatorToken? {
        MatchRestPrefix(dom, e, toks, m, n - 1);
      } else {
        CombinatorRestPrefix(dom, e, toks, m, n - 1);
      }
    }
  }

  lemma {:induction false} CombinatorRestPrefix(dom: Snapshot, e: NodeId, toks: seq<Token>, m: nat, i: nat)
    requires WellFormed(dom) && e in dom.nodes && i < m <= |toks| && toks[i].CombinatorToken?
    ensures toks[..m][i] == toks[i]
    ensures CombinatorRest(dom, e, toks, i) == CombinatorRest(dom, e, toks[..m], i)
    decreases i + 1, 0
  {
    var v := toks[i].value;
    assert toks[..m][i] == toks[i];
    assert toks[..m][..i] == toks[..i];
    var pre := LastCompound(toks[..i]);
    assert toks[..m][..i - |pre|] == toks[..i - |pre|];
    if v == " " {
    } else if v == ">" {
      match Parent(dom, e)
      case None =>
      case Some(p) => MatchRestPrefix(dom, p, toks, m, if i >= 1 then i - 1 else 0);
    } else if v == "+" || v == "~" {
      MatchRestPrefix(dom, e, toks, m, i - |pre|);
    } else {
      MatchRestPrefix(dom, e, toks, m, i);
    }
  }

  /** The trailing `m` tokens before `n`, when none is a combinator, are all
      checked against the current element before anything else happens. */
  lemma {:induction false} TrailingCompound(dom: Snapshot, e: NodeId, toks: seq<Token>, n: nat, m: nat)
    requires WellFormed(dom) && e in dom.nodes && m <= n <= |toks|
    requires NoCombinator(toks[n - m..n])
    ensures MatchRest(dom, e, toks, n) == (Compound(dom, e, toks[n - m..n]) && MatchRest(dom, e, toks, n - m))
    decreases m
  {
    if m > 0 {
      var c := toks[n - m..n];
      assert c[m - 1] == toks[n - 1];
      assert c == toks[n - m..n - 1] + [toks[n - 1]];
      var init := toks[n - m..n - 1];
      assert NoCombinator(init) by {
        forall k | 0 <= k < |init| ensures !init[k].CombinatorToken? {
          assert init[k] == c[k];
        }
      }
      TrailingCompound(dom, e, toks, n - 1, m - 1);
      CompoundSnoc(dom, e, toks[n - m..n - 1], toks[n - 1]);
    } else {
      assert toks[n..n] == [];
    }
  }

  /** A compound (a selector without combinators) matches exactly the
      elements that satisfy each of its tokens; the empty selector matches
      every element. */
  lemma MatchesCompound(dom: Snapshot, e: NodeId, c: seq<Token>)
    requires WellFormed(dom) && e in dom.nodes && NoCombinator(c)
    ensures Matches(dom, e, c) == Compound(dom, e, c)
  {
    assert c[0..|c|] == c;
    TrailingCompound(dom, e, c, |c|, |c|);
  }

  /** Matching a selector is matching its trailing compound and, on the same
      element, the part before it. */
  lemma SplitAtLastCompound(dom: Snapshot, e: NodeId, toks: seq<Token>)
    requires WellFormed(dom) && e in dom.nodes
    ensures Matches(dom, e, toks) ==
      (Matches(dom, e, LastCompound(toks)) && Matches(dom, e, toks[..|toks| - |LastCompound(toks)|]))
  {
    var last := LastCompound(toks);
    LastCompoundSpec(toks);
    var k := |toks| - |last|;
    assert toks[k..|toks|] == last;
    TrailingCompound(dom, e, toks, |toks|, |last|);
    MatchesCompound(dom, e, last);
    MatchRestPrefix(dom, e, toks, k, k);
  }

  /** Where the parts of `pre <comb> c` sit in the token list. */
  lemma CombinatorSplit(pre: seq<Token>, v: string, c: seq<Token>)
    ensures (pre + [CombinatorToken(v)] + c)[..|pre|] == pre
    ensures (pre + [CombinatorToken(v)] + c)[|pre|] == CombinatorToken(v)
    ensures (pre + [CombinatorToken(v)] + c)[|pre| + 1..|pre| + 1 + |c|] == c
  {
    var toks := pre + [CombinatorToken(v)] + c;
    assert toks[..|pre|] == pre;
    assert toks[|pre| + 1..|toks|] == c;
  }

  /** A selector `pre <comb> c` matches when its trailing compound `c` holds
      on `e` and the combinator's branch succeeds. */
  lemma UnfoldCombinator(dom: Snapshot, e: NodeId, pre: seq<Token>, v: string, c: seq<Token>)
    requires WellFormed(dom) && e in dom.nodes && NoCombinator(c)
    ensures Matches(dom, e, pre + [CombinatorToken(v)] + c) ==
      (Compound(dom, e, c) && CombinatorRest(dom, e, pre + [CombinatorToken(v)] + c, |pre|))
  {
    var toks := pre + [CombinatorToken(v)] + c;
    var n := |toks|;
    var i := |pre|;
    CombinatorSplit(pre, v, c);
    assert toks[n - |c|..n] == c;
    TrailingCompound(dom, e, toks, n, |c|);
    assert Matches(dom, e, toks) == (Compound(dom, e, c) && MatchRest(dom, e, toks, i + 1));
    assert MatchRest(dom, e, toks, i + 1) == CombinatorRest(dom, e, toks, i);
  }

  /* The branch `CombinatorRest` takes for each combinator value. */

  lemma DescendantRest(dom: Snapshot, e: NodeId, toks: seq<Token>, i: nat)
    requires WellFormed(dom) && e in dom.nodes && i < |toks| && toks[i] == CombinatorToken(" ")
    ensures CombinatorRest(dom, e, toks, i)
      == AncestorTree(dom, e, LastCompound(toks[..i]), toks[..i - |LastCompound(toks[..i])|])
  {
  }

  lemma OrphanChildRest(dom: Snapshot, e: NodeId, toks: seq<Token>, i: nat)
    requires WellFormed(dom) && e in dom.nodes && i < |toks| && toks[i] == CombinatorToken(">")
    requires Parent(dom, e).None?
    ensures !CombinatorRest(dom, e, toks, i)
  {
  }

  lemma ChildRest(dom: Snapshot, e: NodeId, toks: seq<Token>, i: nat)
    requires WellFormed(dom) && e in dom.nodes && i < |toks| && toks[i] == CombinatorToken(">")
    requires Parent(dom, e).Some?
    ensures CombinatorRest(dom, e, toks, i)
      == (Matches(dom, Parent(dom, e).value, LastCompound(toks[..i]))
          && MatchRest(dom, Parent(dom, e).value, toks, if i >= 1 then i - 1 else 0))
  {
  }

  lemma AdjacentWithoutSiblingRest(dom: Snapshot, e: NodeId, toks: seq<Token>, i: nat)
    requires WellFormed(dom) && e in dom.nodes && i < |toks| && toks[i] == CombinatorToken("+")
    requires PreviousElementSibling(dom, e).None?
    ensures !CombinatorRest(dom, e, toks, i)
  {
  }

  lemma AdjacentRest(dom: Snapshot, e: NodeId, toks: seq<Token>, i: nat)
    requires WellFormed(dom) && e in dom.nodes && i < |toks| && toks[i] == CombinatorToken("+")
    requires PreviousElementSibling(dom, e).Some?
    ensures CombinatorRest(dom, e, toks, i)
      == (Matches(dom, PreviousElementSibling(dom, e).value, LastCompound(toks[..i]))
          && MatchRest(dom, e, toks, i - |LastCompound(toks[..i])|))
  {
  }

  lemma GeneralRest(dom: Snapshot, e: NodeId, toks: seq<Token>, i: nat)
    requires WellFormed(dom) && e in dom.nodes && i < |toks| && toks[i] == CombinatorToken("~")
    ensures CombinatorRest(dom, e, toks, i)
      == (FirstMatch(dom, PrecedingSiblings(dom, e), LastCompound(toks[..i])).Some?
          && MatchRest(dom, e, toks, i - |LastCompound(toks[..i])|))
  {
  }

  /** The descendant combinator `pre c`: `e` satisfies `c` and some
      ancestor, at any distance across slots and shadow roots, matches `pre`. */
  lemma DescendantCombinator(dom: Snapshot, e: NodeId, pre: seq<Token>, c: seq<Token>)
    requires WellFormed(dom) && e in dom.nodes && NoCombinator(c)
    ensures Matches(dom, e, pre + [CombinatorToken(" ")] + c) <==>
      Compound(dom, e, c) && exists k :: 0 <= k < |Ancestors(dom, e)| && Matches(dom, Ancestors(dom, e)[k], pre)
  {
    UnfoldCombinator(dom, e, pre, " ", c);
    CombinatorSplit(pre, " ", c);
    var toks := pre + [CombinatorToken(" ")] + c;
    var last := LastCompound(pre);
    var before := pre[..|pre| - |last|];
    DescendantRest(dom, e, toks, |pre|);
    assert toks[..|pre| - |last|] == before;
    AncestorTreeExists(dom, e, last, before);
    var anc := Ancestors(dom, e);
    forall k | 0 <= k < |anc|
      ensures Matches(dom, anc[k], pre) == (Matches(dom, anc[k], last) && Matches(dom, anc[k], before))
    {
      SplitAtLastCompound(dom, anc[k], pre);
    }
  }

  /** The child combinator `pre > c`: `e` satisfies `c` and its parent
      matches `pre` (when `pre` does not itself end in a combinator). */
  lemma ChildCombinator(dom: Snapshot, e: NodeId, pre: seq<Token>, c: seq<Token>)
    requires WellFormed(dom) && e in dom.nodes && NoCombinator(c)
    requires pre == [] || !pre[|pre| - 1].CombinatorToken?
    ensures Matches(dom, e, pre + [CombinatorToken(">")] + c) <==>
      Compound(dom, e, c) && Parent(dom, e).Some? && Matches(dom, Parent(dom, e).value, pre)
  {
    UnfoldCombinator(dom, e, pre, ">", c);
    CombinatorSplit(pre, ">", c);
    var toks := pre + [CombinatorToken(">")] + c;
    if Parent(dom, e).Some? {
      ChildRest(dom, e, toks, |pre|);
      ChildStep(dom, Parent(dom, e).value, pre, toks);
    } else {
      OrphanChildRest(dom, e, toks, |pre|);
    }
  }

  /** The state the child combinator leaves the loop in, moved to the parent
      with one token skipped, comes to matching `pre` on the parent when `pre`
      ends in a compound. */
  lemma ChildStep(dom: Snapshot, p: NodeId, pre: seq<Token>, toks: seq<Token>)
    requires WellFormed(dom) && p in dom.nodes
    requires |pre| < |toks| && toks[..|pre|] == pre
    requires pre == [] || !pre[|pre| - 1].CombinatorToken?
    ensures (Matches(dom, p, LastCompound(pre)) && MatchRest(dom, p, toks, if |pre| >= 1 then |pre| - 1 else 0))
      == Matches(dom, p, pre)
  {
    if pre == [] {
      assert LastCompound(pre) == [];
      assert Matches(dom, p, []) && MatchRest(dom, p, toks, 0);
    } else {
      MatchRestPrefix(dom, p, toks, |pre|, |pre| - 1);
      ChildStepCompound(dom, p, pre);
    }
  }

  /** `ChildStep` for a selector ending in a compound: skipping its last
      token loses nothing, because the compound is checked whole first. */
  lemma ChildStepCompound(dom: Snapshot, p: NodeId, pre: seq<Token>)
    requires WellFormed(dom) && p in dom.nodes
    requires pre != [] && !pre[|pre| - 1].CombinatorToken?
    ensures (Matches(dom, p, LastCompound(pre)) && MatchRest(dom, p, pre, |pre| - 1)) == Matches(dom, p, pre)
  {
    var last := LastCompound(pre);
    LastCompoundSpec(pre);
    var m := |last|;
    var n := |pre|;
    assert m >= 1;
    assert pre[n - m..n] == last;
    TrailingCompound(dom, p, pre, n, m);
    assert Matches(dom, p, pre) == (Compound(dom, p, last) && MatchRest(dom, p, pre, n - m));
    var init := pre[n - m..n - 1];
    assert NoCombinator(init) by {
      forall k | 0 <= k < |init| ensures !init[k].CombinatorToken? {
        assert init[k] == last[k];
      }
    }
    var n1, m1 := n - 1, m - 1;
    assert n1 - m1 == n - m;
    assert pre[n1 - m1..n1] == init;
    TrailingCompound(dom, p, pre, n1, m1);
    MatchesCompound(dom, p, last);
    assert last == init + [pre[n - 1]];
    CompoundSnoc(dom, p, init, pre[n - 1]);
  }

  /** The adjacent-sibling combinator `pre + c`: `e` satisfies `c`, its
      previous element sibling satisfies the compound just before the `+`,
      and whatever comes before that compound is matched against `e` itself,
      not against the sibling. */
  lemma AdjacentSiblingCombinator(dom: Snapshot, e: NodeId, pre: seq<Token>, c: seq<Token>)
    requires WellFormed(dom) && e in dom.nodes && NoCombinator(c)
    ensures Matches(dom, e, pre + [CombinatorToken("+")] + c) <==>
      Compound(dom, e, c) && PreviousElementSibling(dom, e).Some?
      && Matches(dom, PreviousElementSibling(dom, e).value, LastCompound(pre))
      && Matches(dom, e, pre[..|pre| - |LastCompound(pre)|])
  {
    UnfoldCombinator(dom, e, pre, "+", c);
    CombinatorSplit(pre, "+", c);
    var toks := pre + [CombinatorToken("+")] + c;
    if PreviousElementSibling(dom, e).Some? {
      AdjacentRest(dom, e, toks, |pre|);
    } else {
      AdjacentWithoutSiblingRest(dom, e, toks, |pre|);
    }
    var k := |pre| - |LastCompound(pre)|;
    MatchRestPrefix(dom, e, toks, k, k);
    assert toks[..k] == pre[..k];
  }

  /** The general-sibling combinator `pre ~ c`: `e` satisfies `c`, some
      preceding sibling satisfies the compound just before the `~`, and the
      rest is again matched against `e` itself. */
  lemma GeneralSiblingCombinator(dom: Snapshot, e: NodeId, pre: seq<Token>, c: seq<Token>)
    requires WellFormed(dom) && e in dom.nodes && NoCombinator(c)
    ensures Matches(dom, e, pre + [CombinatorToken("~")] + c) <==>
      Compound(dom, e, c)
      && (exists k :: 0 <= k < |PrecedingSiblings(dom, e)| && Matches(dom, PrecedingSiblings(dom, e)[k], LastCompound(pre)))
      && Matches(dom, e, pre[..|pre| - |LastCompound(pre)|])
  {
    UnfoldCombinator(dom, e, pre, "~", c);
    CombinatorSplit(pre, "~", c);
    var toks := pre + [CombinatorToken("~")] + c;
    GeneralRest(dom, e, toks, |pre|);
    var k := |pre| - |LastCompound(pre)|;
    MatchRestPrefix(dom, e, toks, k, k);
    assert toks[..k] == pre[..k];
    FirstMatchFinds(dom, PrecedingSiblings(dom, e), LastCompound(pre));
  }

  /** Because `+` does not move to the sibling, a chain `A + B + C` of two
      adjacent-sibling combinators checks both compounds `A` and `B` on the
      same element, the one just before `e`. */
  lemma AdjacentChainSameSibling(dom: Snapshot, e: NodeId, a: seq<Token>, b: seq<Token>, c: seq<Token>)
    requires WellFormed(dom) && e in dom.nodes
    requires NoCombinator(a) && NoCombinator(b) && NoCombinator(c)
    ensures Matches(dom, e, a + [CombinatorToken("+")] + b + [CombinatorToken("+")] + c) <==>
      Compound(dom, e, c) && PreviousElementSibling(dom, e).Some?
      && Matches(dom, PreviousElementSibling(dom, e).value, a)
      && Matches(dom, PreviousElementSibling(dom, e).value, b)
  {
    var pre := a + [CombinatorToken("+")] + b;
    assert a + [CombinatorToken("+")] + b + [CombinatorToken("+")] + c == pre + [CombinatorToken("+")] + c;
    assert pre[|a| + 1..] == b;
    LastCompoundAt(pre, |a| + 1);
    var first := a + [CombinatorToken("+")] + [];
    assert pre[..|pre| - |LastCompound(pre)|] == first;
    AdjacentSiblingCombinator(dom, e, pre, c);
    assert a[0..] == a;
    LastCompoundAt(a, 0);
    assert a[..|a| - |LastCompound(a)|] == [];
    AdjacentSiblingCombinator(dom, e, a, []);
    assert Matches(dom, e, []) && Compound(dom, e, []);
  }

  /** So `h1 + h2 + p`, or any such chain over two different tag names,
      matches no element at all. */
  lemma AdjacentTagChainNeverMatches(dom: Snapshot, e: NodeId, a: string, b: string, x: string)
    requires WellFormed(dom) && e in dom.nodes && Lower(a) != Lower(b)
    ensures !Matches(dom, e, [TagToken(a)] + [CombinatorToken("+")] + [TagToken(b)] + [CombinatorToken("+")] + [TagToken(x)])
  {
    AdjacentChainSameSibling(dom, e, [TagToken(a)], [TagToken(b)], [TagToken(x)]);
    if PreviousElementSibling(dom, e).Some? {
      var s := PreviousElementSibling(dom, e).value;
      MatchesCompound(dom, s, [TagToken(a)]);
      MatchesCompound(dom, s, [TagToken(b)]);
    }
  }
}
