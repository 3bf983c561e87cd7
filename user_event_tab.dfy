/** `userEventTab` and `userEventShiftTab`: keyboard focus moves to the next
    or previous element of the visible focusable elements under
    `document.body`, in `querySelectorAll` order, starting from the element
    `getActiveElement` reports. */
module FocusOrder {
  import opened Wrappers
  import opened Seqs
  import opened Dom
  import opened Selector
  import opened ComposedWalk
  import opened Query
  import opened ActiveElement

  /** The two filters of `getVisibleFocusableElements`, applied one after the
      other: drop `IFRAME` elements (an element's `nodeName` is its
      `tagName`), then keep the ones `checkVisibility()` accepts. */
  function VisibleFocusable(dom: Snapshot, elements: seq<NodeId>): seq<NodeId>
    requires AllIn(dom, elements)
  {
    if elements == [] then []
    else
      var e := elements[0];
      var rest := VisibleFocusable(dom, elements[1..]);
      if dom.nodes[e].tagName != "IFRAME" && dom.nodes[e].visible then [e] + rest else rest
  }

  /** The element passes both filters: it is not an `IFRAME` and it is visible. */
  predicate Eligible(dom: Snapshot, e: NodeId)
    requires e in dom.nodes
  {
    dom.nodes[e].tagName != "IFRAME" && dom.nodes[e].visible
  }

  /** The filter keeps exactly the eligible elements, in order, and repeats
      none when its input repeats none. */
  lemma VisibleFocusableSpec(dom: Snapshot, elements: seq<NodeId>)
    requires AllIn(dom, elements)
    ensures forall x :: x in VisibleFocusable(dom, elements) <==> x in elements && x in dom.nodes && Eligible(dom, x)
    ensures NoDuplicates(elements) ==> NoDuplicates(VisibleFocusable(dom, elements))
    ensures forall a, b ::
      (a in VisibleFocusable(dom, elements) && b in VisibleFocusable(dom, elements)
       && IndexOf(VisibleFocusable(dom, elements), a) < IndexOf(VisibleFocusable(dom, elements), b))
      ==> IndexOf(elements, a) < IndexOf(elements, b)
  {
    var r := VisibleFocusable(dom, elements);
    forall x | x in r ensures x in elements && x in dom.nodes && Eligible(dom, x) {
      VisibleKept(dom, elements, x);
    }
    forall x | x in elements && x in dom.nodes && Eligible(dom, x) ensures x in r {
      VisibleComplete(dom, elements, x);
    }
    if NoDuplicates(elements) {
      VisibleDistinct(dom, elements);
    }
    forall a, b | a in r && b in r && IndexOf(r, a) < IndexOf(r, b)
      ensures IndexOf(elements, a) < IndexOf(elements, b)
    {
      VisibleOrder(dom, elements, a, b);
    }
  }

  lemma {:induction false} VisibleKept(dom: Snapshot, elements: seq<NodeId>, x: NodeId)
    requires AllIn(dom, elements) && x in VisibleFocusable(dom, elements)
    ensures x in elements && x in dom.nodes && Eligible(dom, x)
    decreases |elements|
  {
    if x != elements[0] || !Eligible(dom, x) {
      assert x in VisibleFocusable(dom, elements[1..]);
      VisibleKept(dom, elements[1..], x);
    }
  }

  lemma {:induction false} VisibleComplete(dom: Snapshot, elements: seq<NodeId>, x: NodeId)
    requires AllIn(dom, elements) && x in elements && x in dom.nodes && Eligible(dom, x)
    ensures x in VisibleFocusable(dom, elements)
    decreases |elements|
  {
    if x != elements[0] {
      IndexOfTail(elements, x);
      VisibleComplete(dom, elements[1..], x);
    }
  }

  lemma {:induction false} VisibleDistinct(dom: Snapshot, elements: seq<NodeId>)
    requires AllIn(dom, elements) && NoDuplicates(elements)
    ensures NoDuplicates(VisibleFocusable(dom, elements))
    decreases |elements|
  {
    if elements != [] {
      var e := elements[0];
      var tail := elements[1..];
      var rest := VisibleFocusable(dom, tail);
      VisibleDistinct(dom, tail);
      if Eligible(dom, e) {
        if e in rest {
          VisibleKept(dom, tail, e);
        }
        var r := [e] + rest;
        assert forall i :: 1 <= i < |r| ==> r[i] == rest[i - 1];
      }
    }
  }

  lemma {:induction false} VisibleOrder(dom: Snapshot, elements: seq<NodeId>, a: NodeId, b: NodeId)
    requires AllIn(dom, elements)
    requires a in VisibleFocusable(dom, elements) && b in VisibleFocusable(dom, elements)
    requires IndexOf(VisibleFocusable(dom, elements), a) < IndexOf(VisibleFocusable(dom, elements), b)
    ensures IndexOf(elements, a) < IndexOf(elements, b)
    decreases |elements|
  {
    var e := elements[0];
    var rest := VisibleFocusable(dom, elements[1..]);
    VisibleKept(dom, elements, a);
    VisibleKept(dom, elements, b);
    if Eligible(dom, e) {
      assert VisibleFocusable(dom, elements) == [e] + rest;
      if a == e {
        assert b != e;
        IndexOfTail(elements, b);
      } else {
        assert b != e;
        IndexOfTail([e] + rest, a);
        IndexOfTail([e] + rest, b);
        assert ([e] + rest)[1..] == rest;
        IndexOfTail(elements, a);
        IndexOfTail(elements, b);
        VisibleOrder(dom, elements[1..], a, b);
      }
    } else {
      assert VisibleFocusable(dom, elements) == rest;
      IndexOfTail(elements, a);
      IndexOfTail(elements, b);
      VisibleOrder(dom, elements[1..], a, b);
    }
  }

  /** `getVisibleFocusableElements`: the focusable elements under
      `document.body` (`focusable` is the parsed focusable selector, `text`
      its source text), minus iframes and invisible elements. */
  function Candidates(dom: Snapshot, text: string, focusable: Group, body: NodeId): seq<NodeId>
    requires WellFormed(dom) && body in dom.nodes && SpansReadable(text, focusable)
  {
    QuerySelectorAllSpec(dom, text, focusable, Some(body));
    VisibleFocusable(dom, QueryResult(dom, text, focusable, Some(body)))
  }

  /** Focus only ever lands on an eligible matching element of the composed
      tree below the body, each of which appears once in the candidate list. */
  lemma CandidatesSpec(dom: Snapshot, text: string, focusable: Group, body: NodeId)
    requires WellFormed(dom) && body in dom.nodes && SpansReadable(text, focusable)
    ensures NoDuplicates(Candidates(dom, text, focusable, body))
    ensures forall x :: x in Candidates(dom, text, focusable, body) <==>
      x in Walk(dom, body) && x in dom.nodes && MatchesAny(dom, x, AttachSource(text, focusable)) && Eligible(dom, x)
  {
    var all := QueryResult(dom, text, focusable, Some(body));
    QuerySelectorAllSpec(dom, text, focusable, Some(body));
    VisibleFocusableSpec(dom, all);
  }

  /** `getCurrentIndex`: the position of the focused element in the list,
      -1 when nothing is focused or the focused element is not listed. */
  function CurrentIndex(elements: seq<NodeId>, active: Option<NodeId>): (r: int)
    ensures -1 <= r < |elements|
    ensures r == -1 <==> active.None? || active.value !in elements
    ensures 0 <= r ==> active == Some(elements[r]) && forall k :: 0 <= k < r ==> elements[k] != active.value
  {
    match active
    case None => -1
    case Some(a) => IndexOf(elements, a)
  }

  /** The element Tab focuses, if any: the one after the current index. */
  function TabTarget(elements: seq<NodeId>, active: Option<NodeId>): Option<NodeId> {
    var next := CurrentIndex(elements, active) + 1;
    if next < |elements| then Some(elements[next]) else None
  }

  /** The element Shift+Tab focuses, if any: the one before the current
      index, which does not exist for the first element nor, since the index
      is then -2, for an unlisted one. */
  function ShiftTabTarget(elements: seq<NodeId>, active: Option<NodeId>): Option<NodeId> {
    var previous := CurrentIndex(elements, active) - 1;
    if 0 <= previous then Some(elements[previous]) else None
  }

  /** Tab from the `i`-th of distinct candidates goes to the next one, and
      nowhere from the last. */
  lemma TabFromIndex(elements: seq<NodeId>, i: int)
    requires NoDuplicates(elements) && 0 <= i < |elements|
    ensures TabTarget(elements, Some(elements[i])) == if i + 1 < |elements| then Some(elements[i + 1]) else None
  {
    assert CurrentIndex(elements, Some(elements[i])) == i;
  }

  /** Shift+Tab from the `i`-th of distinct candidates goes to the previous
      one, and nowhere from the first. */
  lemma ShiftTabFromIndex(elements: seq<NodeId>, i: int)
    requires NoDuplicates(elements) && 0 <= i < |elements|
    ensures ShiftTabTarget(elements, Some(elements[i])) == if 0 < i then Some(elements[i - 1]) else None
  {
    assert CurrentIndex(elements, Some(elements[i])) == i;
  }

  /** From outside the list, Tab enters at the first candidate and Shift+Tab
      does nothing. */
  lemma FromOutside(elements: seq<NodeId>, active: Option<NodeId>)
    requires active.None? || active.value !in elements
    ensures TabTarget(elements, active) == if elements == [] then None else Some(elements[0])
    ensures ShiftTabTarget(elements, active).None?
  {
  }

  /** Whatever is focused, a target is always one of the candidates, and
      with no candidates there is none. */
  lemma TargetsAreCandidates(elements: seq<NodeId>, active: Option<NodeId>)
    ensures TabTarget(elements, active).Some? ==> TabTarget(elements, active).value in elements
    ensures ShiftTabTarget(elements, active).Some? ==> ShiftTabTarget(elements, active).value in elements
    ensures elements == [] ==> TabTarget(elements, active).None? && ShiftTabTarget(elements, active).None?
  {
  }

  /** Among distinct candidates, Shift+Tab undoes a Tab taken from a listed
      element. */
  lemma TabThenShiftTab(elements: seq<NodeId>, active: Option<NodeId>)
    requires NoDuplicates(elements)
    requires active.Some? && active.value in elements && TabTarget(elements, active).Some?
    ensures ShiftTabTarget(elements, TabTarget(elements, active)) == active
  {
    var i := CurrentIndex(elements, active);
    ShiftTabFromIndex(elements, i + 1);
  }

  /** Among distinct candidates, Tab undoes a Shift+Tab. */
  lemma ShiftTabThenTab(elements: seq<NodeId>, active: Option<NodeId>)
    requires NoDuplicates(elements)
    requires ShiftTabTarget(elements, active).Some?
    ensures TabTarget(elements, ShiftTabTarget(elements, active)) == active
  {
    var i := CurrentIndex(elements, active);
    TabFromIndex(elements, i - 1);
  }

  /** What `getActiveElement()` reports once `focus()` has been called on
      `target`: the target itself, or nothing when the target hosts a shadow
      root, since focusing the host leaves nothing focused inside that root. */
  function AfterFocus(dom: Snapshot, target: NodeId): Option<NodeId>
    requires target in dom.nodes
  {
    if dom.nodes[target].shadowRoot.None? then Some(target) else None
  }

  /** `AfterFocus` agrees with `getActiveElement`: when `root`'s active
      element is the focused target, and a focused shadow host has nothing
      focused inside its shadow root, `getActiveElement` reports exactly
      `AfterFocus`. */
  lemma AfterFocusIsReported(dom: Snapshot, root: NodeId, target: NodeId)
    requires WellFormed(dom) && FocusShaped(dom) && root in dom.nodes && target in dom.nodes
    requires dom.nodes[root].activeElement == Some(target)
    requires dom.nodes[target].shadowRoot.Some? ==>
      dom.nodes[target].shadowRoot.value in dom.nodes && dom.nodes[dom.nodes[target].shadowRoot.value].activeElement.None?
    ensures GetActiveElement(dom, root) == AfterFocus(dom, target)
  {
    match dom.nodes[target].shadowRoot
    case None => UnshadowedActiveElement(dom, root, target);
    case Some(shadow) => FocusedHostReportsNothing(dom, root, target, shadow);
  }

  /** After focus lands on a shadow host, nothing is reported as focused, so
      the next Tab starts again from the first candidate and Shift+Tab does
      nothing. */
  lemma FocusOnHostRestarts(dom: Snapshot, elements: seq<NodeId>, host: NodeId)
    requires host in dom.nodes && dom.nodes[host].shadowRoot.Some?
    ensures TabTarget(elements, AfterFocus(dom, host)) == if elements == [] then None else Some(elements[0])
    ensures ShiftTabTarget(elements, AfterFocus(dom, host)).None?
  {
    FromOutside(elements, AfterFocus(dom, host));
  }

  /** The page as the two helpers see it: a fixed snapshot, the parsed
      focusable selector, `document.body`, and the element focus rests on,
      which is what `getActiveElement()` reports and what `focus()` moves. */
  class FocusState {
    const dom: Snapshot
    const text: string
    const focusable: Group
    const body: NodeId
    var focused: Option<NodeId>

    ghost predicate Valid()
      reads this
    {
      && WellFormed(dom) && FocusShaped(dom) && body in dom.nodes && SpansReadable(text, focusable)
      && RefIn(dom, focused)
      && (focused.Some? ==> focused.value in dom.nodes && dom.nodes[focused.value].shadowRoot.None?)
    }

    /** Focus starts where `getActiveElement()` finds it from the document. */
    constructor(dom: Snapshot, text: string, focusable: Group, body: NodeId)
      requires WellFormed(dom) && FocusShaped(dom) && body in dom.nodes && SpansReadable(text, focusable)
      ensures Valid()
      ensures this.dom == dom && this.text == text && this.focusable == focusable && this.body == body
      ensures focused == GetActiveElement(dom, dom.document)
    {
      this.dom := dom;
      this.text := text;
      this.focusable := focusable;
      this.body := body;
      focused := GetActiveElement(dom, dom.document);
    }

    /** `getVisibleFocusableElements`, run against the current page. */
    method VisibleFocusableElements() returns (elements: seq<NodeId>)
      requires Valid()
      ensures elements == Candidates(dom, text, focusable, body)
      ensures AllIn(dom, elements)
    {
      var all := QuerySelectorAll(dom, text, focusable, Some(body));
      QuerySelectorAllSpec(dom, text, focusable, Some(body));
      elements := VisibleFocusable(dom, all);
      VisibleFocusableSpec(dom, all);
    }

    /** `userEventTab`: focus the candidate after the focused one, if there
        is one; what `getActiveElement()` then reports is `AfterFocus`. */
    method Tab()
      requires Valid()
      modifies this
      ensures Valid()
      ensures AllIn(dom, Candidates(dom, text, focusable, body))
      ensures var target := TabTarget(Candidates(dom, text, focusable, body), old(focused));
        focused == if target.Some? then AfterFocus(dom, target.value) else old(focused)
    {
      var elements := VisibleFocusableElements();
      var index := CurrentIndex(elements, focused);
      var nextIndex := index + 1;
      if nextIndex < |elements| {
        focused := AfterFocus(dom, elements[nextIndex]);
      }
    }

    /** `userEventShiftTab`: focus the candidate before the focused one, if
        there is one; what `getActiveElement()` then reports is `AfterFocus`. */
    method ShiftTab()
      requires Valid()
      modifies this
      ensures Valid()
      ensures AllIn(dom, Candidates(dom, text, focusable, body))
      ensures var target := ShiftTabTarget(Candidates(dom, text, focusable, body), old(focused));
        focused == if target.Some? then AfterFocus(dom, target.value) else old(focused)
    {
      var elements := VisibleFocusableElements();
      var index := CurrentIndex(elements, focused);
      var previousIndex := index - 1;
      if 0 <= previousIndex {
        focused := AfterFocus(dom, elements[previousIndex]);
      }
    }
  }
}
