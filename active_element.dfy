/** `getActiveElement`: `document.activeElement` stops at the outermost
    shadow host, so the focused element is found by following each focused
    host into its shadow root and asking that root for its active element. */
module ActiveElement {
  import opened Wrappers
  import opened Dom

  /** Only documents and shadow roots have an active element, and it is
      always an element. */
  predicate FocusShaped(dom: Snapshot)
    requires Closed(dom)
  {
    forall n {:trigger dom.nodes[n].activeElement} :: n in dom.nodes && dom.nodes[n].activeElement.Some? ==>
      (assert NodeClosed(dom, n);
       dom.nodes[n].kind != ElementNode && dom.nodes[dom.nodes[n].activeElement.value].kind == ElementNode)
  }

  /** The active element below `root` (a document or a shadow root): none
      when `root` has no active element; the active element itself when it
      hosts no shadow root; otherwise whatever its shadow root reports, which
      is none when nothing inside that shadow root has focus. Each step goes
      one shadow level down, which the ranks of the snapshot measure. */
  function GetActiveElement(dom: Snapshot, root: NodeId): (r: Option<NodeId>)
    requires WellFormed(dom) && FocusShaped(dom) && root in dom.nodes
    ensures dom.nodes[root].activeElement.None? ==> r.None?
    ensures r.Some? ==> r.value in dom.nodes
    ensures r.Some? ==> dom.nodes[r.value].kind == ElementNode && dom.nodes[r.value].shadowRoot.None?
    ensures r.Some? ==> dom.nodes[root].rank < dom.nodes[r.value].rank
    decreases dom.height - dom.nodes[root].rank
  {
    assert NodeClosed(dom, root) && NodeRanked(dom, root);
    match dom.nodes[root].activeElement
    case None => None
    case Some(active) =>
      assert NodeClosed(dom, active) && NodeRanked(dom, active);
      match dom.nodes[active].shadowRoot
      case None => Some(active)
      case Some(shadow) =>
        assert NodeClosed(dom, shadow);
        GetActiveElement(dom, shadow)
  }

  /** A focused element that hosts no shadow root is the answer. */
  lemma UnshadowedActiveElement(dom: Snapshot, root: NodeId, active: NodeId)
    requires WellFormed(dom) && FocusShaped(dom) && root in dom.nodes && active in dom.nodes
    requires dom.nodes[root].activeElement == Some(active)
    requires dom.nodes[active].shadowRoot.None?
    ensures GetActiveElement(dom, root) == Some(active)
  {
    assert NodeClosed(dom, root);
  }

  /** A focused shadow host defers to its shadow root. */
  lemma ShadowedActiveElement(dom: Snapshot, root: NodeId, active: NodeId, shadow: NodeId)
    requires WellFormed(dom) && FocusShaped(dom) && root in dom.nodes && active in dom.nodes && shadow in dom.nodes
    requires dom.nodes[root].activeElement == Some(active)
    requires dom.nodes[active].shadowRoot == Some(shadow)
    ensures GetActiveElement(dom, root) == GetActiveElement(dom, shadow)
  {
    assert NodeClosed(dom, root);
  }

  /** A shadow host that has focus itself, with nothing focused inside its
      shadow root, is reported as no active element at all, not as the host. */
  lemma FocusedHostReportsNothing(dom: Snapshot, root: NodeId, active: NodeId, shadow: NodeId)
    requires WellFormed(dom) && FocusShaped(dom) && root in dom.nodes && active in dom.nodes && shadow in dom.nodes
    requires dom.nodes[root].activeElement == Some(active)
    requires dom.nodes[active].shadowRoot == Some(shadow)
    requires dom.nodes[shadow].activeElement.None?
    ensures GetActiveElement(dom, root).None?
  {
    ShadowedActiveElement(dom, root, active, shadow);
  }
}
