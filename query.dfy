/** `getMatchingElements`, `query` and `querySelectorAll`: walk the composed
    tree from the context, record every element once per comma-separated
    alternative it matches, and drop the repeats in first-seen order. */
module Query {
  import opened Wrappers
  import opened Seqs
  import opened Dom
  import opened ComposedWalk
  import opened Selector
  import opened Matcher

  /** `e` matches at least one alternative of the group. */
  predicate MatchesAny(dom: Snapshot, e: NodeId, group: Group)
    requires WellFormed(dom) && e in dom.nodes
  {
    exists k :: 0 <= k < |group| && Matches(dom, e, group[k])
  }

  /** What the inner loop of `getMatchingElements` pushes for `e`: one copy
      of `e` per alternative that matches it, in the order of the group. */
  function Hits(dom: Snapshot, e: NodeId, group: Group): seq<NodeId>
    requires WellFormed(dom) && e in dom.nodes
    decreases |group|
  {
    if group == [] then []
    else Hits(dom, e, group[..|group| - 1]) + (if Matches(dom, e, group[|group| - 1]) then [e] else [])
  }

  /** Everything `getMatchingElements` pushes while the iterator yields `walk`. */
  function Recorded(dom: Snapshot, walk: seq<NodeId>, group: Group): seq<NodeId>
    requires WellFormed(dom) && AllIn(dom, walk)
    decreases |walk|
  {
    if walk == [] then [] else Hits(dom, walk[0], group) + Recorded(dom, walk[1..], group)
  }

  /** The reference answer: the elements of `walk` that match some
      alternative, each where the walk reaches it. */
  function Filter(dom: Snapshot, walk: seq<NodeId>, group: Group): seq<NodeId>
    requires WellFormed(dom) && AllIn(dom, walk)
    decreases |walk|
  {
    if walk == [] then []
    else (if MatchesAny(dom, walk[0], group) then [walk[0]] else []) + Filter(dom, walk[1..], group)
  }

  /** The context a query starts from: the given one, or `document`. */
  function ContextOf(dom: Snapshot, context: Option<NodeId>): NodeId {
    if context.Some? then context.value else dom.document
  }

  /** What `query(selector, context)` returns for the parsed `group`. */
  function QueryElements(dom: Snapshot, selector: string, group: Group, context: Option<NodeId>): seq<NodeId>
    requires WellFormed(dom) && RefIn(dom, context) && SpansReadable(selector, group)
  {
    var ctx := ContextOf(dom, context);
    ForestBelowFloor(dom, Children(dom, ctx));
    Recorded(dom, Walk(dom, ctx), AttachSource(selector, group))
  }

  /** What `querySelectorAll(selector, context)` returns. */
  function QueryResult(dom: Snapshot, selector: string, group: Group, context: Option<NodeId>): seq<NodeId>
    requires WellFormed(dom) && RefIn(dom, context) && SpansReadable(selector, group)
  {
    Dedupe(QueryElements(dom, selector, group, context))
  }

  /** `getMatchingElements`: drains the iterator, trying every alternative
      on every element it yields. */
  method GetMatchingElements(it: ElementIterator, group: Group) returns (results: seq<NodeId>)
    requires it.Valid()
    modifies it
    ensures it.Valid() && it.Remaining() == []
    ensures AllIn(it.dom, old(it.Remaining()))
    ensures results == Recorded(it.dom, old(it.Remaining()), group)
  {
    var dom := it.dom;
    ForestBelowFloor(dom, Reversed(it.queue));
    ghost var walk := it.Remaining();
    results := [];
    var element := it.Next();
    ghost var todo := if element.Some? then [element.value] + it.Remaining() else [];
    while element.Some?
      invariant it.Valid() && it.dom == dom && AllIn(dom, walk) && AllIn(dom, todo)
      invariant element.Some? ==> todo == [element.value] + it.Remaining()
      invariant element.None? ==> it.Remaining() == [] && todo == []
      invariant Recorded(dom, walk, group) == results + Recorded(dom, todo, group)
      decreases |todo|
    {
      var e := element.value;
      ghost var after := it.Remaining();
      ForestBelowFloor(dom, Reversed(it.queue));
      RecordedStep(dom, walk, todo, e, after, group, results);
      results := PushMatches(dom, e, group, results);
      element := it.Next();
      todo := after;
    }
    assert results + [] == results;
  }

  /** The inner loop of `getMatchingElements`: push `e` once for each
      alternative of the group that it matches. */
  method PushMatches(dom: Snapshot, e: NodeId, group: Group, results: seq<NodeId>) returns (r: seq<NodeId>)
    requires WellFormed(dom) && e in dom.nodes
    ensures r == results + Hits(dom, e, group)
  {
    r := results;
    var k := 0;
    while k < |group|
      invariant 0 <= k <= |group|
      invariant r == results + Hits(dom, e, group[..k])
    {
      HitsSnoc(dom, e, group, k);
      var m := MatchesSelector(dom, e, group[k]);
      if m {
        r := r + [e];
      }
      k := k + 1;
    }
    assert group[..|group|] == group;
  }

  /** One round of the outer loop of `getMatchingElements`: the hits of the
      element just yielded move from what is still to record to what has been. */
  lemma RecordedStep(dom: Snapshot, walk: seq<NodeId>, todo: seq<NodeId>, e: NodeId, after: seq<NodeId>,
                     group: Group, results: seq<NodeId>)
    requires WellFormed(dom) && AllIn(dom, walk) && AllIn(dom, todo) && todo == [e] + after
    requires Recorded(dom, walk, group) == results + Recorded(dom, todo, group)
    ensures e in dom.nodes && AllIn(dom, after)
    ensures Recorded(dom, walk, group) == (results + Hits(dom, e, group)) + Recorded(dom, after, group)
  {
    assert todo[0] == e && todo[1..] == after;
  }

  lemma HitsSnoc(dom: Snapshot, e: NodeId, group: Group, k: nat)
    requires WellFormed(dom) && e in dom.nodes && k < |group|
    ensures Hits(dom, e, group[..k + 1])
      == Hits(dom, e, group[..k]) + (if Matches(dom, e, group[k]) then [e] else [])
  {
    assert group[..k + 1][..k] == group[..k];
  }

  /** `query`: parse (the parsed group is given), attach the clause sources,
      and collect the matches of a fresh walk from the context. */
  method QueryMethod(dom: Snapshot, selector: string, group: Group, context: Option<NodeId>)
    returns (elements: seq<NodeId>)
    requires WellFormed(dom) && RefIn(dom, context) && SpansReadable(selector, group)
    ensures elements == QueryElements(dom, selector, group, context)
  {
    var ast := AttachSourceIfNecessary(group, selector);
    var it := new ElementIterator(dom, ContextOf(dom, context));
    elements := GetMatchingElements(it, ast);
  }

  /** `querySelectorAll`: the elements of `query`, through a `Set`. */
  method QuerySelectorAll(dom: Snapshot, selector: string, group: Group, context: Option<NodeId>)
    returns (r: seq<NodeId>)
    requires WellFormed(dom) && RefIn(dom, context) && SpansReadable(selector, group)
    ensures r == QueryResult(dom, selector, group, context)
  {
    var elements := QueryMethod(dom, selector, group, context);
    r := Dedupe(elements);
  }

  /** An element is pushed once for each alternative it matches: some copies
      exactly when it matches one of them, and nothing else. */
  lemma {:induction false} HitsSpec(dom: Snapshot, e: NodeId, group: Group)
    requires WellFormed(dom) && e in dom.nodes
    ensures forall i :: 0 <= i < |Hits(dom, e, group)| ==> Hits(dom, e, group)[i] == e
    ensures |Hits(dom, e, group)| > 0 <==> MatchesAny(dom, e, group)
    decreases |group|
  {
    if group != [] {
      var init := group[..|group| - 1];
      HitsSpec(dom, e, init);
      assert forall k :: 0 <= k < |init| ==> init[k] == group[k];
      if MatchesAny(dom, e, group) && !Matches(dom, e, group[|group| - 1]) {
        var k :| 0 <= k < |group| && Matches(dom, e, group[k]);
        assert init[k] == group[k];
      }
    }
  }

  /** `getMatchingElements` pushes only elements of the walk that match some
      alternative, and every such element at least once. */
  lemma {:induction false} RecordedMembers(dom: Snapshot, walk: seq<NodeId>, group: Group)
    requires WellFormed(dom) && AllIn(dom, walk)
    ensures forall i :: 0 <= i < |Recorded(dom, walk, group)| ==>
      Recorded(dom, walk, group)[i] in walk && MatchesAny(dom, Recorded(dom, walk, group)[i], group)
    ensures forall i :: 0 <= i < |walk| && MatchesAny(dom, walk[i], group) ==> walk[i] in Recorded(dom, walk, group)
    decreases |walk|
  {
    if walk != [] {
      var h := Hits(dom, walk[0], group);
      var rest := Recorded(dom, walk[1..], group);
      HitsSpec(dom, walk[0], group);
      RecordedMembers(dom, walk[1..], group);
      assert forall i :: 1 <= i < |walk| ==> walk[i] == walk[1..][i - 1];
      assert Recorded(dom, walk, group) == h + rest;
      assert forall i :: 0 <= i < |h + rest| ==> (h + rest)[i] == if i < |h| then h[i] else rest[i - |h|];
      if MatchesAny(dom, walk[0], group) {
        assert (h + rest)[0] == walk[0];
      }
    }
  }

  /** The reference answer holds exactly the matching elements of the walk,
      in walk order, and repeats none when the walk repeats none. */
  lemma {:induction false} FilterMembers(dom: Snapshot, walk: seq<NodeId>, group: Group)
    requires WellFormed(dom) && AllIn(dom, walk)
    ensures forall i :: 0 <= i < |Filter(dom, walk, group)| ==>
      Filter(dom, walk, group)[i] in walk && MatchesAny(dom, Filter(dom, walk, group)[i], group)
    ensures forall i :: 0 <= i < |walk| && MatchesAny(dom, walk[i], group) ==> walk[i] in Filter(dom, walk, group)
    ensures NoDuplicates(walk) ==> NoDuplicates(Filter(dom, walk, group))
    decreases |walk|
  {
    if walk != [] {
      var rest := Filter(dom, walk[1..], group);
      FilterMembers(dom, walk[1..], group);
      assert forall i :: 1 <= i < |walk| ==> walk[i] == walk[1..][i - 1];
      if MatchesAny(dom, walk[0], group) {
        assert Filter(dom, walk, group) == [walk[0]] + rest;
        assert NoDuplicates(walk) ==> walk[0] !in walk[1..];
      } else {
        assert Filter(dom, walk, group) == rest;
      }
    }
  }

  /** Pushing an element once per matching alternative instead of once makes
      no difference after the `Set`: the deduplicated recording is the
      deduplicated reference answer. */
  lemma {:induction false} DedupeRecorded(dom: Snapshot, seen: set<NodeId>, walk: seq<NodeId>, group: Group)
    requires WellFormed(dom) && AllIn(dom, walk)
    ensures DedupeFrom(seen, Recorded(dom, walk, group)) == DedupeFrom(seen, Filter(dom, walk, group))
    decreases |walk|
  {
    if walk != [] {
      var w := walk[0];
      var h := Hits(dom, w, group);
      var recRest := Recorded(dom, walk[1..], group);
      var filRest := Filter(dom, walk[1..], group);
      HitsSpec(dom, w, group);
      assert Recorded(dom, walk, group) == h + recRest;
      if h == [] {
        assert h + recRest == recRest;
        assert Filter(dom, walk, group) == filRest;
        DedupeRecorded(dom, seen, walk[1..], group);
      } else {
        assert Filter(dom, walk, group) == [w] + filRest;
        if w in seen {
          DedupeFromSeen(seen, h, recRest);
          DedupeFromSeen(seen, [w], filRest);
          DedupeRecorded(dom, seen, walk[1..], group);
        } else {
          assert (h + recRest)[0] == w;
          assert (h + recRest)[1..] == h[1..] + recRest;
          assert ([w] + filRest)[1..] == filRest;
          DedupeFromSeen(seen + {w}, h[1..], recRest);
          DedupeRecorded(dom, seen + {w}, walk[1..], group);
        }
      }
    }
  }

  /** The reference answer keeps the walk's order: of two of its elements,
      the one it lists first is reached first by the walk. */
  lemma {:induction false} FilterOrder(dom: Snapshot, walk: seq<NodeId>, group: Group, a: NodeId, b: NodeId)
    requires WellFormed(dom) && AllIn(dom, walk)
    requires a in Filter(dom, walk, group) && b in Filter(dom, walk, group)
    requires IndexOf(Filter(dom, walk, group), a) < IndexOf(Filter(dom, walk, group), b)
    ensures IndexOf(walk, a) < IndexOf(walk, b)
    decreases |walk|
  {
    var w := walk[0];
    var rest := Filter(dom, walk[1..], group);
    FilterHas(dom, walk, group, a);
    FilterHas(dom, walk, group, b);
    if MatchesAny(dom, w, group) {
      assert Filter(dom, walk, group) == [w] + rest;
      if a == w {
        assert b != w;
        IndexOfTail(walk, b);
      } else {
        assert b != w;
        IndexOfTail([w] + rest, a);
        IndexOfTail([w] + rest, b);
        assert ([w] + rest)[1..] == rest;
        IndexOfTail(walk, a);
        IndexOfTail(walk, b);
        FilterOrder(dom, walk[1..], group, a, b);
      }
    } else {
      assert Filter(dom, walk, group) == rest;
      IndexOfTail(walk, a);
      IndexOfTail(walk, b);
      FilterOrder(dom, walk[1..], group, a, b);
    }
  }

  /** An element of the reference answer is an element of the walk that
      matches some alternative. */
  lemma {:induction false} FilterHas(dom: Snapshot, walk: seq<NodeId>, group: Group, x: NodeId)
    requires WellFormed(dom) && AllIn(dom, walk) && x in Filter(dom, walk, group)
    ensures x in walk && x in dom.nodes && MatchesAny(dom, x, group)
    decreases |walk|
  {
    var rest := Filter(dom, walk[1..], group);
    if x != walk[0] || !MatchesAny(dom, walk[0], group) {
      assert x in rest;
      FilterHas(dom, walk[1..], group, x);
    }
  }

  /** `querySelectorAll`: every element at most once; exactly the elements
      below the context, in the composed tree, that match some alternative;
      in the order of the depth-first walk; and, when the walk repeats no
      element, precisely the matching elements of the walk in walk order. */
  lemma QuerySelectorAllSpec(dom: Snapshot, selector: string, group: Group, context: Option<NodeId>)
    requires WellFormed(dom) && RefIn(dom, context) && SpansReadable(selector, group)
    ensures ContextOf(dom, context) in dom.nodes
    ensures AllIn(dom, Walk(dom, ContextOf(dom, context)))
    ensures NoDuplicates(QueryResult(dom, selector, group, context))
    ensures AllIn(dom, QueryResult(dom, selector, group, context))
    ensures forall x :: x in QueryResult(dom, selector, group, context) <==>
      x in Walk(dom, ContextOf(dom, context)) && x in dom.nodes && MatchesAny(dom, x, AttachSource(selector, group))
    ensures forall i, j :: 0 <= i < j < |QueryResult(dom, selector, group, context)| ==>
      IndexOf(Walk(dom, ContextOf(dom, context)), QueryResult(dom, selector, group, context)[i])
        < IndexOf(Walk(dom, ContextOf(dom, context)), QueryResult(dom, selector, group, context)[j])
    ensures NoDuplicates(Walk(dom, ContextOf(dom, context))) ==>
      QueryResult(dom, selector, group, context) == Filter(dom, Walk(dom, ContextOf(dom, context)), AttachSource(selector, group))
  {
    var ctx := ContextOf(dom, context);
    var walk := Walk(dom, ctx);
    var ast := AttachSource(selector, group);
    ForestBelowFloor(dom, Children(dom, ctx));
    var fil := Filter(dom, walk, ast);
    var r := QueryResult(dom, selector, group, context);
    DedupeRecorded(dom, {}, walk, ast);
    assert r == Dedupe(fil);
    FilterMembers(dom, walk, ast);
    forall x | x in r
      ensures x in walk && x in dom.nodes && MatchesAny(dom, x, ast)
    {
      var i :| 0 <= i < |r| && r[i] == x;
    }
    forall x | x in walk && x in dom.nodes && MatchesAny(dom, x, ast)
      ensures x in r
    {
      var i :| 0 <= i < |walk| && walk[i] == x;
      var k :| 0 <= k < |fil| && fil[k] == x;
    }
    forall i, j | 0 <= i < j < |r|
      ensures IndexOf(walk, r[i]) < IndexOf(walk, r[j])
    {
      FilterOrder(dom, walk, ast, r[i], r[j]);
    }
    if NoDuplicates(walk) {
      DedupeFromDistinct({}, fil);
    }
  }

  /** The universal selector `*`, which the matcher passes over, returns
      every element of the walk, each once. */
  lemma UniversalSelector(dom: Snapshot, selector: string, kind: string, context: Option<NodeId>)
    requires WellFormed(dom) && RefIn(dom, context)
    ensures SpansReadable(selector, [[OtherToken(kind)]])
    ensures QueryResult(dom, selector, [[OtherToken(kind)]], context) == Dedupe(Walk(dom, ContextOf(dom, context)))
  {
    var group: Group := [[OtherToken(kind)]];
    var ast := AttachSource(selector, group);
    assert !IsClause(group[0][0]);
    assert ast[0][0] == group[0][0];
    assert |ast| == 1 && |ast[0]| == 1;
    assert ast[0] == group[0];
    assert ast == group;
    var ctx := ContextOf(dom, context);
    ForestBelowFloor(dom, Children(dom, ctx));
    var walk := Walk(dom, ctx);
    DedupeRecorded(dom, {}, walk, group);
    forall x | x in dom.nodes ensures MatchesAny(dom, x, group) {
      assert Matches(dom, x, group[0]);
    }
    FilterAll(dom, walk, group);
  }

  /** When every element matches, the reference answer is the whole walk. */
  lemma {:induction false} FilterAll(dom: Snapshot, walk: seq<NodeId>, group: Group)
    requires WellFormed(dom) && AllIn(dom, walk)
    requires forall x :: x in dom.nodes ==> MatchesAny(dom, x, group)
    ensures Filter(dom, walk, group) == walk
    decreases |walk|
  {
    if walk != [] {
      FilterAll(dom, walk[1..], group);
    }
  }
}
