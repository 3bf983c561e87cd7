/** A point-in-time snapshot of the DOM that the query engine reads, and the
    two projection functions of `query-selector-all.ts`: `getChildren`
    (effective children under shadow roots and slots) and `getParent`
    (effective parent across slot and shadow boundaries). */
module Dom {
  import opened Wrappers
  import opened Seqs

  type NodeId = nat

  datatype NodeKind = DocumentNode | ElementNode | ShadowRootNode

  /** One node of the snapshot, with the properties the source reads from it.
      `children` is the node's `children` collection (element children);
      `assignedNodeCount` is `assignedNodes().length`, which also counts text
      nodes, and `assignedElements` is `assignedElements()`; `isSlot` stands
      for "has an `assignedElements` method"; `matchesClause` is the native
      `element.matches(sourceText)`; `visible` is `checkVisibility()`;
      `activeElement` is the `activeElement` of a document or shadow root.
      `rank` is the node's depth in the rendered tree: every node strictly
      below another has a larger rank, which is what makes every walk of the
      engine finite. */
  datatype Node = Node(
    kind: NodeKind,
    id: string,
    tagName: string,
    classList: set<string>,
    parentNode: Option<NodeId>,
    children: seq<NodeId>,
    documentElement: Option<NodeId>,
    shadowRoot: Option<NodeId>,
    host: Option<NodeId>,
    isSlot: bool,
    assignedNodeCount: nat,
    assignedElements: seq<NodeId>,
    assignedSlot: Option<NodeId>,
    matchesClause: string -> bool,
    visible: bool,
    activeElement: Option<NodeId>,
    rank: nat)

  /** The whole snapshot: the nodes by identity, the global `document`, and a
      bound on every rank. */
  datatype Snapshot = Snapshot(nodes: map<NodeId, Node>, document: NodeId, height: nat)

  predicate RefIn(dom: Snapshot, o: Option<NodeId>) {
    o.Some? ==> o.value in dom.nodes
  }

  predicate AllIn(dom: Snapshot, s: seq<NodeId>) {
    forall i :: 0 <= i < |s| ==> s[i] in dom.nodes
  }

  /** Every reference held by node `n` leads to a node of the snapshot. */
  predicate NodeClosed(dom: Snapshot, n: NodeId)
    requires n in dom.nodes
  {
    var d := dom.nodes[n];
    && RefIn(dom, d.parentNode) && AllIn(dom, d.children)
    && RefIn(dom, d.documentElement) && RefIn(dom, d.shadowRoot) && RefIn(dom, d.host)
    && AllIn(dom, d.assignedElements) && RefIn(dom, d.assignedSlot)
    && RefIn(dom, d.activeElement)
    && d.rank <= dom.height
  }

  predicate Closed(dom: Snapshot) {
    && dom.document in dom.nodes
    && forall n {:trigger NodeClosed(dom, n)} :: n in dom.nodes ==> NodeClosed(dom, n)
  }

  /** A node's light-tree parent lies above it. */
  predicate ParentNodeAbove(dom: Snapshot, n: NodeId)
    requires Closed(dom) && n in dom.nodes
  {
    assert NodeClosed(dom, n);
    dom.nodes[n].parentNode.Some? ==> dom.nodes[dom.nodes[n].parentNode.value].rank < dom.nodes[n].rank
  }

  predicate LightRanked(dom: Snapshot)
    requires Closed(dom)
  {
    forall n {:trigger ParentNodeAbove(dom, n)} :: n in dom.nodes ==> ParentNodeAbove(dom, n)
  }

  /** The properties only certain kinds of node have. */
  predicate NodeShaped(dom: Snapshot, n: NodeId)
    requires Closed(dom) && n in dom.nodes
  {
    assert NodeClosed(dom, n);
    var d := dom.nodes[n];
    && (d.documentElement.Some? ==> d.kind == DocumentNode)
    && (d.shadowRoot.Some? ==> d.kind == ElementNode && dom.nodes[d.shadowRoot.value].kind == ShadowRootNode)
    && (d.host.Some? <==> d.kind == ShadowRootNode)
    && (d.isSlot ==> d.kind == ElementNode)
    && (d.kind != ElementNode ==> d.parentNode.None?)
    && |d.assignedElements| <= d.assignedNodeCount
  }

  /** `children` and `parentNode` agree, and no child is listed twice. */
  predicate SiblingsConsistent(dom: Snapshot, n: NodeId)
    requires Closed(dom) && n in dom.nodes
  {
    assert NodeClosed(dom, n);
    var cs := dom.nodes[n].children;
    && NoDuplicates(cs)
    && forall i :: 0 <= i < |cs| ==> dom.nodes[cs[i]].parentNode == Some(n)
  }

  /** The rendered tree is finite and acyclic: effective children lie below,
      and effective parents, shadow roots and active elements are ranked
      consistently with it. */
  predicate NodeRanked(dom: Snapshot, n: NodeId)
    requires Closed(dom) && LightRanked(dom) && n in dom.nodes
  {
    assert NodeClosed(dom, n);
    var d := dom.nodes[n];
    && (forall c :: c in Children(dom, n) ==> d.rank < dom.nodes[c].rank)
    && (Parent(dom, n).Some? ==> dom.nodes[Parent(dom, n).value].rank < d.rank)
    && (d.shadowRoot.Some? ==> d.rank < dom.nodes[d.shadowRoot.value].rank)
    && (d.activeElement.Some? ==> d.rank < dom.nodes[d.activeElement.value].rank)
  }

  /** The invariants every real DOM satisfies, which the model assumes of a snapshot. */
  predicate WellFormed(dom: Snapshot) {
    && Closed(dom)
    && LightRanked(dom)
    && dom.nodes[dom.document].kind == DocumentNode
    && (forall n {:trigger NodeShaped(dom, n)} :: n in dom.nodes ==> NodeShaped(dom, n))
    && (forall n {:trigger SiblingsConsistent(dom, n)} :: n in dom.nodes ==> SiblingsConsistent(dom, n))
    && (forall n {:trigger NodeRanked(dom, n)} :: n in dom.nodes ==> NodeRanked(dom, n))
  }

  /** `getChildren`: a document yields its document element; a shadow host
      its shadow root's children instead of its own; a slot its assigned
      elements when anything (even only text) is assigned to it, otherwise
      its fallback children; any other node its children. */
  function Children(dom: Snapshot, n: NodeId): (r: seq<NodeId>)
    requires Closed(dom) && n in dom.nodes
    ensures AllIn(dom, r)
  {
    assert NodeClosed(dom, n);
    var d := dom.nodes[n];
    if d.documentElement.Some? then [d.documentElement.value]
    else if d.shadowRoot.Some? then
      assert NodeClosed(dom, d.shadowRoot.value);
      dom.nodes[d.shadowRoot.value].children
    else if d.isSlot then
      if d.assignedNodeCount > 0 then d.assignedElements else d.children
    else d.children
  }

  /** `parentElement`: the light-tree parent when that parent is an element. */
  function ParentElement(dom: Snapshot, n: NodeId): (r: Option<NodeId>)
    requires Closed(dom) && n in dom.nodes
    ensures r.Some? ==> r.value in dom.nodes && r == dom.nodes[n].parentNode
    ensures r.Some? <==> dom.nodes[n].parentNode.Some? && dom.nodes[dom.nodes[n].parentNode.value].kind == ElementNode
  {
    assert NodeClosed(dom, n);
    match dom.nodes[n].parentNode
    case Some(p) => if dom.nodes[p].kind == ElementNode then Some(p) else None
    case None => None
  }

  /** `getRootNode()`: the top of the light tree that holds `n` (a document,
      a shadow root, or the root of a detached subtree). */
  function RootNode(dom: Snapshot, n: NodeId): (r: NodeId)
    requires Closed(dom) && LightRanked(dom) && n in dom.nodes
    ensures r in dom.nodes && dom.nodes[r].parentNode.None?
    ensures dom.nodes[r].rank <= dom.nodes[n].rank
    decreases dom.nodes[n].rank
  {
    assert NodeClosed(dom, n) && ParentNodeAbove(dom, n);
    match dom.nodes[n].parentNode
    case None => n
    case Some(p) => RootNode(dom, p)
  }

  /** The light-tree chain from `n` upwards through `parentNode`, `n` first. */
  function LightChain(dom: Snapshot, n: NodeId): seq<NodeId>
    requires Closed(dom) && LightRanked(dom) && n in dom.nodes
    decreases dom.nodes[n].rank
  {
    assert NodeClosed(dom, n) && ParentNodeAbove(dom, n);
    match dom.nodes[n].parentNode
    case None => [n]
    case Some(p) => [n] + LightChain(dom, p)
  }

  /** `getRootNode()` is the top of `n`'s own `parentNode` chain: the chain
      starts at `n`, each node's light parent is the next node, and the
      root is the last one. */
  lemma {:induction false} RootNodeOnChain(dom: Snapshot, n: NodeId)
    requires Closed(dom) && LightRanked(dom) && n in dom.nodes
    ensures RootNode(dom, n) in LightChain(dom, n)
    ensures RootNode(dom, n) == LightChain(dom, n)[|LightChain(dom, n)| - 1]
    ensures LightChain(dom, n)[0] == n
    ensures forall i :: 0 <= i < |LightChain(dom, n)| - 1 ==>
      LightChain(dom, n)[i] in dom.nodes && dom.nodes[LightChain(dom, n)[i]].parentNode == Some(LightChain(dom, n)[i + 1])
    decreases dom.nodes[n].rank
  {
    assert NodeClosed(dom, n) && ParentNodeAbove(dom, n);
    match dom.nodes[n].parentNode
    case None =>
    case Some(p) =>
      RootNodeOnChain(dom, p);
      var c := LightChain(dom, n);
      var up := LightChain(dom, p);
      assert c == [n] + up;
      forall i | 0 <= i < |c| - 1
        ensures c[i] in dom.nodes && dom.nodes[c[i]].parentNode == Some(c[i + 1])
      {
        if i > 0 {
          assert c[i] == up[i - 1] && c[i + 1] == up[i];
        }
      }
  }

  /** `getParent`. */
  function Parent(dom: Snapshot, e: NodeId): (r: Option<NodeId>)
    requires Closed(dom) && LightRanked(dom) && e in dom.nodes
    ensures RefIn(dom, r)
  {
    assert NodeClosed(dom, e);
    var d := dom.nodes[e];
    if !d.isSlot && d.assignedSlot.Some? && ParentElement(dom, d.assignedSlot.value).Some? then
      ParentElement(dom, d.assignedSlot.value)
    else if ParentElement(dom, e).Some? then
      ParentElement(dom, e)
    else
      var root := RootNode(dom, e);
      assert NodeClosed(dom, root);
      if root != dom.document then dom.nodes[root].host else None
  }

  /** `previousElementSibling`: the element just before `e` in its light parent's children. */
  function PreviousElementSibling(dom: Snapshot, e: NodeId): (r: Option<NodeId>)
    requires Closed(dom) && e in dom.nodes
    ensures RefIn(dom, r)
  {
    assert NodeClosed(dom, e);
    match dom.nodes[e].parentNode
    case None => None
    case Some(p) =>
      assert NodeClosed(dom, p);
      var cs := dom.nodes[p].children;
      var k := IndexOf(cs, e);
      if k > 0 then Some(cs[k - 1]) else None
  }

  /** The siblings before `e` in its light parent's children, nearest first:
      the chain `previousElementSibling` walks. */
  function PrecedingSiblings(dom: Snapshot, e: NodeId): (r: seq<NodeId>)
    requires Closed(dom) && e in dom.nodes
    ensures AllIn(dom, r)
  {
    assert NodeClosed(dom, e);
    match dom.nodes[e].parentNode
    case None => []
    case Some(p) =>
      assert NodeClosed(dom, p);
      var cs := dom.nodes[p].children;
      var k := IndexOf(cs, e);
      if k > 0 then Reversed(cs[..k]) else []
  }

  /** The chain of `getParent` from `e` upwards, nearest first. */
  function Ancestors(dom: Snapshot, e: NodeId): (r: seq<NodeId>)
    requires WellFormed(dom) && e in dom.nodes
    ensures AllIn(dom, r)
    decreases dom.nodes[e].rank
  {
    assert NodeRanked(dom, e);
    match Parent(dom, e)
    case None => []
    case Some(p) => [p] + Ancestors(dom, p)
  }

  /** The effective parent lies strictly above: no node is its own ancestor,
      and every ancestor is ranked above `e`. */
  lemma {:induction false} AncestorsAbove(dom: Snapshot, e: NodeId)
    requires WellFormed(dom) && e in dom.nodes
    ensures forall i :: 0 <= i < |Ancestors(dom, e)| ==>
      dom.nodes[Ancestors(dom, e)[i]].rank < dom.nodes[e].rank
    ensures e !in Ancestors(dom, e)
    decreases dom.nodes[e].rank
  {
    assert NodeRanked(dom, e);
    match Parent(dom, e)
    case None =>
    case Some(p) =>
      AncestorsAbove(dom, p);
      var a := Ancestors(dom, e);
      assert a == [p] + Ancestors(dom, p);
      forall i | 0 <= i < |a| ensures dom.nodes[a[i]].rank < dom.nodes[e].rank {
        if i > 0 { assert a[i] == Ancestors(dom, p)[i - 1]; }
      }
  }

  /** A slotted element that is not itself a slot has as parent the element
      that holds its slot, not its light-tree parent. */
  lemma SlottedParent(dom: Snapshot, e: NodeId, slot: NodeId, p: NodeId)
    requires Closed(dom) && LightRanked(dom) && e in dom.nodes
    requires !dom.nodes[e].isSlot && dom.nodes[e].assignedSlot == Some(slot)
    requires slot in dom.nodes && dom.nodes[slot].parentNode == Some(p)
    requires p in dom.nodes && dom.nodes[p].kind == ElementNode
    ensures Parent(dom, e) == Some(p)
  {
  }

  /** Outside the slotted case, an element whose light parent is an
      element has that parent as its parent. */
  lemma LightParentIsParent(dom: Snapshot, e: NodeId, p: NodeId)
    requires Closed(dom) && LightRanked(dom) && e in dom.nodes && p in dom.nodes
    requires dom.nodes[e].parentNode == Some(p) && dom.nodes[p].kind == ElementNode
    requires dom.nodes[e].isSlot || dom.nodes[e].assignedSlot.None? ||
      (dom.nodes[e].assignedSlot.value in dom.nodes && ParentElement(dom, dom.nodes[e].assignedSlot.value).None?)
    ensures Parent(dom, e) == Some(p)
  {
  }

  /** An element at the top of a shadow tree (and not slotted elsewhere)
      has the shadow host as parent. */
  lemma {:induction false} ShadowTopParentIsHost(dom: Snapshot, e: NodeId, sr: NodeId, h: NodeId)
    requires WellFormed(dom) && e in dom.nodes && sr in dom.nodes
    requires dom.nodes[e].assignedSlot.None?
    requires dom.nodes[e].parentNode == Some(sr)
    requires dom.nodes[sr].kind == ShadowRootNode && dom.nodes[sr].host == Some(h)
    ensures Parent(dom, e) == Some(h)
  {
    assert NodeShaped(dom, sr);
    assert RootNode(dom, sr) == sr;
    assert RootNode(dom, e) == sr;
  }

  /** A child of the document (the `<html>` element) has no parent: the
      upward walk stops at document level. */
  lemma {:induction false} DocumentChildHasNoParent(dom: Snapshot, e: NodeId)
    requires WellFormed(dom) && e in dom.nodes
    requires dom.nodes[e].assignedSlot.None?
    requires dom.nodes[e].parentNode == Some(dom.document)
    ensures Parent(dom, e).None?
  {
    assert NodeShaped(dom, dom.document);
    assert RootNode(dom, dom.document) == dom.document;
    assert RootNode(dom, e) == dom.document;
  }

  /** In a well-formed snapshot `previousElementSibling` steps one place
      back through the parent's children, so following it from the `j`-th
      child visits exactly the children before it, nearest first. */
  lemma PreviousSiblingOfChild(dom: Snapshot, p: NodeId, j: nat)
    requires WellFormed(dom) && p in dom.nodes && j < |dom.nodes[p].children|
    ensures dom.nodes[p].children[j] in dom.nodes
    ensures PreviousElementSibling(dom, dom.nodes[p].children[j])
      == if j > 0 then Some(dom.nodes[p].children[j - 1]) else None
    ensures PrecedingSiblings(dom, dom.nodes[p].children[j]) == Reversed(dom.nodes[p].children[..j])
  {
    assert NodeClosed(dom, p) && SiblingsConsistent(dom, p);
    var cs := dom.nodes[p].children;
    assert IndexOf(cs, cs[j]) == j;
  }
}
