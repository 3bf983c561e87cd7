/** The composed-tree walk of `query-selector-all.ts`: the order in which
    `ElementIterator` yields nodes (pre-order, depth first, over
    `getChildren`), and the iterator itself, a class over an explicit stack. */
module ComposedWalk {
  import opened Wrappers
  import opened Seqs
  import opened Dom

  /** The least rank in `s`, or one past the height bound when `s` is empty;
      it bounds how deep a walk from `s` can still go. */
  function Floor(dom: Snapshot, s: seq<NodeId>): (r: nat)
    requires Closed(dom) && AllIn(dom, s)
    ensures r <= dom.height + 1
    ensures forall i :: 0 <= i < |s| ==> r <= dom.nodes[s[i]].rank
    ensures r == dom.height + 1 || exists i :: 0 <= i < |s| && r == dom.nodes[s[i]].rank
  {
    if s == [] then dom.height + 1
    else
      assert NodeClosed(dom, s[0]);
      var f := Floor(dom, s[1..]);
      var here := dom.nodes[s[0]].rank;
      assert forall i :: 1 <= i < |s| ==> s[i] == s[1..][i - 1];
      if here <= f then here else f
  }

  /** The subtree rooted at `n` in pre-order: `n`, then the subtrees of its
      effective children, left to right. */
  function Tree(dom: Snapshot, n: NodeId): (r: seq<NodeId>)
    requires WellFormed(dom) && n in dom.nodes
    decreases dom.height + 1 - dom.nodes[n].rank, 0, 0
  {
    assert NodeClosed(dom, n) && NodeRanked(dom, n);
    var cs := Children(dom, n);
    assert Floor(dom, cs) > dom.nodes[n].rank;
    [n] + Forest(dom, cs)
  }

  /** The subtrees of the nodes of `s`, one after the other. */
  function Forest(dom: Snapshot, s: seq<NodeId>): (r: seq<NodeId>)
    requires WellFormed(dom) && AllIn(dom, s)
    decreases dom.height + 1 - Floor(dom, s), 1, |s|
  {
    if s == [] then []
    else
      assert Floor(dom, s[1..]) >= Floor(dom, s) by {
        assert forall i :: 0 <= i < |s[1..]| ==> s[1..][i] == s[i + 1];
      }
      Tree(dom, s[0]) + Forest(dom, s[1..])
  }

  /** What `new ElementIterator(context)` goes on to yield: every node below
      the context, in pre-order, the context itself excluded. */
  function Walk(dom: Snapshot, context: NodeId): (r: seq<NodeId>)
    requires WellFormed(dom) && context in dom.nodes
  {
    Forest(dom, Children(dom, context))
  }

  lemma {:induction false} ForestAppend(dom: Snapshot, a: seq<NodeId>, b: seq<NodeId>)
    requires WellFormed(dom) && AllIn(dom, a) && AllIn(dom, b)
    ensures AllIn(dom, a + b)
    ensures Forest(dom, a + b) == Forest(dom, a) + Forest(dom, b)
    decreases |a|
  {
    if a != [] {
      assert (a + b)[1..] == a[1..] + b;
      ForestAppend(dom, a[1..], b);
    } else {
      assert a + b == b;
    }
  }

  /** Every node of a walk from `s` is at least as deep as the shallowest node of `s`. */
  lemma {:induction false} ForestBelowFloor(dom: Snapshot, s: seq<NodeId>)
    requires WellFormed(dom) && AllIn(dom, s)
    ensures AllIn(dom, Forest(dom, s))
    ensures forall i :: 0 <= i < |Forest(dom, s)| ==> Floor(dom, s) <= dom.nodes[Forest(dom, s)[i]].rank
    decreases dom.height + 1 - Floor(dom, s), 1, |s|
  {
    if s != [] {
      TreeBelow(dom, s[0]);
      assert Floor(dom, s[1..]) >= Floor(dom, s) by {
        assert forall i :: 0 <= i < |s[1..]| ==> s[1..][i] == s[i + 1];
      }
      ForestBelowFloor(dom, s[1..]);
      var t, f := Tree(dom, s[0]), Forest(dom, s[1..]);
      assert Forest(dom, s) == t + f;
      forall i | 0 <= i < |t + f| ensures (t + f)[i] in dom.nodes && Floor(dom, s) <= dom.nodes[(t + f)[i]].rank {
        if i >= |t| { assert (t + f)[i] == f[i - |t|]; }
      }
    }
  }

  lemma {:induction false} TreeBelow(dom: Snapshot, n: NodeId)
    requires WellFormed(dom) && n in dom.nodes
    ensures AllIn(dom, Tree(dom, n))
    ensures forall i :: 0 <= i < |Tree(dom, n)| ==> dom.nodes[n].rank <= dom.nodes[Tree(dom, n)[i]].rank
    decreases dom.height + 1 - dom.nodes[n].rank, 0, 0
  {
    assert NodeClosed(dom, n) && NodeRanked(dom, n);
    var cs := Children(dom, n);
    assert Floor(dom, cs) > dom.nodes[n].rank;
    ForestBelowFloor(dom, cs);
    var f := Forest(dom, cs);
    assert Tree(dom, n) == [n] + f;
    forall i | 0 <= i < |[n] + f| ensures ([n] + f)[i] in dom.nodes && dom.nodes[n].rank <= dom.nodes[([n] + f)[i]].rank {
      if i > 0 { assert ([n] + f)[i] == f[i - 1]; }
    }
  }

  /** The walk never yields its context: everything it yields lies strictly
      below the context. */
  lemma WalkExcludesContext(dom: Snapshot, context: NodeId)
    requires WellFormed(dom) && context in dom.nodes
    ensures forall i :: 0 <= i < |Walk(dom, context)| ==>
      Walk(dom, context)[i] in dom.nodes && dom.nodes[context].rank < dom.nodes[Walk(dom, context)[i]].rank
    ensures context !in Walk(dom, context)
  {
    assert NodeClosed(dom, context) && NodeRanked(dom, context);
    var cs := Children(dom, context);
    assert Floor(dom, cs) > dom.nodes[context].rank;
    ForestBelowFloor(dom, cs);
  }

  /** Pre-order: a node is in a forest walk exactly when it is one of the
      roots or lies in the subtree of one of them. */
  lemma {:induction false} ForestMembers(dom: Snapshot, s: seq<NodeId>, x: NodeId)
    requires WellFormed(dom) && AllIn(dom, s)
    ensures x in Forest(dom, s) <==> exists i :: 0 <= i < |s| && x in Tree(dom, s[i])
    decreases |s|
  {
    if s != [] {
      ForestMembers(dom, s[1..], x);
      assert forall i :: 1 <= i < |s| ==> s[i] == s[1..][i - 1];
      if x in Tree(dom, s[0]) {
        assert 0 < |s| && x in Tree(dom, s[0]);
      }
      if exists i :: 0 <= i < |s| && x in Tree(dom, s[i]) {
        var i :| 0 <= i < |s| && x in Tree(dom, s[i]);
        if i > 0 { assert x in Tree(dom, s[1..][i - 1]); }
      }
    }
  }

  /** The walk from a context yields exactly the effective children of the
      context and everything below them. */
  lemma WalkMembers(dom: Snapshot, context: NodeId, x: NodeId)
    requires WellFormed(dom) && context in dom.nodes
    ensures x in Walk(dom, context) <==>
      exists c :: c in Children(dom, context) && (x == c || x in Walk(dom, c))
  {
    var cs := Children(dom, context);
    ForestMembers(dom, cs, x);
    forall c | c in cs ensures Tree(dom, c) == [c] + Walk(dom, c) { }
    if x in Walk(dom, context) {
      var i :| 0 <= i < |cs| && x in Tree(dom, cs[i]);
      assert x in [cs[i]] + Walk(dom, cs[i]);
    }
    if exists c :: c in cs && (x == c || x in Walk(dom, c)) {
      var c :| c in cs && (x == c || x in Walk(dom, c));
      var i :| 0 <= i < |cs| && cs[i] == c;
      assert x in Tree(dom, cs[i]);
    }
  }

  /** A shadow host is walked through its shadow root: its light children
      are replaced by the shadow root's children. */
  lemma ShadowHostWalk(dom: Snapshot, h: NodeId)
    requires WellFormed(dom) && h in dom.nodes && dom.nodes[h].shadowRoot.Some?
    ensures dom.nodes[h].shadowRoot.value in dom.nodes
    ensures Walk(dom, h) == Walk(dom, dom.nodes[h].shadowRoot.value)
  {
    assert NodeClosed(dom, h) && NodeShaped(dom, h);
    var sr := dom.nodes[h].shadowRoot.value;
    assert NodeShaped(dom, sr);
  }

  /** A slot renders its assigned elements when anything is assigned to it
      (none at all when only text is), and its fallback children otherwise. */
  lemma SlotWalk(dom: Snapshot, slot: NodeId)
    requires WellFormed(dom) && slot in dom.nodes
    requires dom.nodes[slot].isSlot && dom.nodes[slot].shadowRoot.None?
    ensures AllIn(dom, dom.nodes[slot].assignedElements) && AllIn(dom, dom.nodes[slot].children)
    ensures dom.nodes[slot].assignedNodeCount > 0 ==>
      Walk(dom, slot) == Forest(dom, dom.nodes[slot].assignedElements)
    ensures dom.nodes[slot].assignedNodeCount == 0 ==>
      Walk(dom, slot) == Forest(dom, dom.nodes[slot].children)
    ensures dom.nodes[slot].assignedNodeCount > 0 && dom.nodes[slot].assignedElements == [] ==>
      Walk(dom, slot) == []
  {
    assert NodeShaped(dom, slot) && NodeClosed(dom, slot);
  }

  /** From the document the walk starts at the document element. */
  lemma DocumentWalk(dom: Snapshot)
    requires WellFormed(dom) && dom.nodes[dom.document].documentElement.Some?
    ensures dom.nodes[dom.document].documentElement.value in dom.nodes
    ensures Walk(dom, dom.document) == Tree(dom, dom.nodes[dom.document].documentElement.value)
  {
    assert NodeClosed(dom, dom.document);
    var html := dom.nodes[dom.document].documentElement.value;
    assert Forest(dom, [html]) == Tree(dom, html) + Forest(dom, []);
  }

  /** `ElementIterator`: a stack (`queue`, top at the end) of nodes still
      to expand. Popping a node yields it and pushes its effective children
      in reverse order, so the first child is expanded next. */
  class ElementIterator {
    const dom: Snapshot
    var queue: seq<NodeId>

    ghost predicate Valid()
      reads this
    {
      WellFormed(dom) && AllIn(dom, queue)
    }

    /** The nodes the iterator has still to yield, in order. */
    ghost function Remaining(): seq<NodeId>
      reads this
      requires Valid()
    {
      Forest(dom, Reversed(queue))
    }

    /** The constructor pushes the context and discards it with one `next()`. */
    constructor (dom: Snapshot, context: NodeId)
      requires WellFormed(dom) && context in dom.nodes
      ensures Valid() && this.dom == dom
      ensures Remaining() == Walk(dom, context)
    {
      this.dom := dom;
      queue := [context];
      new;
      assert Reversed(queue) == [context];
      assert Forest(dom, [context]) == Tree(dom, context) + Forest(dom, []);
      var root := Next();
    }

    /** `next()`: the next node of the walk, or `None` once it is exhausted. */
    method Next() returns (node: Option<NodeId>)
      requires Valid()
      modifies this
      ensures Valid()
      ensures old(Remaining()) == [] ==> node.None? && Remaining() == []
      ensures old(Remaining()) != [] ==>
        node == Some(old(Remaining())[0]) && Remaining() == old(Remaining())[1..]
    {
      if queue == [] {
        node := None;
        return;
      }
      var n := queue[|queue| - 1];
      var rest := queue[..|queue| - 1];
      ghost var below := Reversed(rest);
      assert queue == rest + [n];
      ReversedPush(rest, n);
      node := Some(n);
      var children := Children(dom, n);
      var stack := rest;
      var i := |children|;
      while i > 0
        invariant 0 <= i <= |children|
        invariant AllIn(dom, stack)
        invariant Reversed(stack) == children[i..] + below
      {
        i := i - 1;
        ReversedPush(stack, children[i]);
        assert children[i..] == [children[i]] + children[i + 1..];
        stack := stack + [children[i]];
      }
      queue := stack;
      PopExpands(dom, n, below);
    }
  }

  /** Popping `n` off the stack yields `n` and leaves its children's subtrees
      in front of what was below it. */
  lemma PopExpands(dom: Snapshot, n: NodeId, below: seq<NodeId>)
    requires WellFormed(dom) && n in dom.nodes && AllIn(dom, below)
    ensures AllIn(dom, [n] + below) && AllIn(dom, Children(dom, n) + below)
    ensures Forest(dom, [n] + below) == [n] + Forest(dom, Children(dom, n) + below)
  {
    var cs := Children(dom, n);
    assert ([n] + below)[1..] == below;
    assert Forest(dom, [n] + below) == Tree(dom, n) + Forest(dom, below);
    ForestAppend(dom, cs, below);
  }
}
