/**
 * The page as the exporter sees it: the candidate message elements in
 * document order, which of them each message selector matches, and the
 * selection checkboxes the exporter injects into them.
 *
 * CSS matching is not modelled: `matchesOf[i]` is given, and lists the
 * positions of the elements `querySelectorAll(MessageSelectors[i])` returns,
 * in document order.
 */
module Dom {
  import opened Wrappers
  import opened Selection
  import opened Export

  /** The message selectors, in priority order. */
  const MessageSelectors := [
    ".w-full.flex.flex-col.items-start.gap-4.whitespace-pre-wrap",
    "[data-message-author-role]",
    ".text-message-content",
    ".message-content",
    "div[class*=\"message\"]",
    "div[class*=\"chat\"]"
  ]

  /**
   * A child of a message element: the injected `.claude-export-checkbox-wrapper`
   * holding one `.claude-export-checkbox` with its `checked` flag, or a node of
   * the host page's own, known only by identity.
   */
  datatype Child = Wrapper(checked: bool) | Host(id: nat)

  /**
   * A message element: its children in order and what
   * `closest('[data-message-author-role]')` finds from inside it (the injected
   * wrapper carries no such attribute, so a checkbox in the element finds the
   * same container as the element itself).
   */
  datatype Element = Element(children: seq<Child>, container: Option<RoleContainer>)

  // ---------------------------------------------------------------------------
  // Checkboxes of an element and of the page
  // ---------------------------------------------------------------------------

  /** Number of checkboxes among the children. */
  function MarkerCount(children: seq<Child>): nat
  {
    if |children| == 0 then 0
    else (if children[0].Wrapper? then 1 else 0) + MarkerCount(children[1..])
  }

  /** `message.querySelector('.claude-export-checkbox')` finds something. */
  predicate HasMarker(e: Element)
  {
    exists k :: 0 <= k < |e.children| && e.children[k].Wrapper?
  }

  /** An element has a checkbox exactly when it has a positive number of them. */
  lemma {:induction false} HasMarkerIffCount(children: seq<Child>)
    ensures MarkerCount(children) > 0 <==> exists k :: 0 <= k < |children| && children[k].Wrapper?
  {
    if |children| > 0 {
      HasMarkerIffCount(children[1..]);
      if !children[0].Wrapper? && exists k :: 0 <= k < |children| && children[k].Wrapper? {
        var k :| 0 <= k < |children| && children[k].Wrapper?;
        assert children[1..][k - 1].Wrapper?;
      }
    }
  }

  /** The checkboxes among the children, in document order, each seeing the element's container. */
  function BoxesIn(children: seq<Child>, container: Option<RoleContainer>): (boxes: seq<CheckboxNode>)
    ensures |boxes| == MarkerCount(children)
  {
    if |children| == 0 then []
    else
      (if children[0].Wrapper? then [CheckboxNode(children[0].checked, container)] else [])
      + BoxesIn(children[1..], container)
  }

  /** `document.querySelectorAll('.claude-export-checkbox')`: every checkbox of the page, in document order. */
  function Checkboxes(els: seq<Element>): (boxes: seq<CheckboxNode>)
    ensures |boxes| == MarkerTotal(els)
  {
    if |els| == 0 then [] else BoxesIn(els[0].children, els[0].container) + Checkboxes(els[1..])
  }

  /** Number of checkboxes held by all the elements together. */
  function MarkerTotal(els: seq<Element>): nat
  {
    if |els| == 0 then 0 else MarkerCount(els[0].children) + MarkerTotal(els[1..])
  }

  /** The page-wide invariant: no element carries more than one checkbox. */
  predicate AtMostOneMarker(els: seq<Element>)
  {
    forall k :: 0 <= k < |els| ==> MarkerCount(els[k].children) <= 1
  }

  // ---------------------------------------------------------------------------
  // addCheckboxToMessage
  // ---------------------------------------------------------------------------

  /**
   * `addCheckboxToMessage(message)`: leaves an element that already holds a
   * checkbox alone; otherwise inserts one unchecked wrapper as its first child,
   * keeping every existing child in order.
   */
  function WithMarker(e: Element): (r: Element)
    ensures r.container == e.container
    ensures HasMarker(r)
    ensures MarkerCount(r.children) == if HasMarker(e) then MarkerCount(e.children) else 1
    ensures HasMarker(e) ==> r == e
    ensures !HasMarker(e) ==> |r.children| == |e.children| + 1 && r.children[0] == Wrapper(false)
    ensures r.children[|r.children| - |e.children|..] == e.children
  {
    HasMarkerIffCount(e.children);
    if HasMarker(e) then e
    else
      var r := e.(children := [Wrapper(false)] + e.children);
      assert r.children[0].Wrapper?;
      assert r.children[1..] == e.children;
      r
  }

  /** Injecting twice is injecting once: the second call finds the checkbox and changes nothing. */
  lemma WithMarkerIdempotent(e: Element)
    ensures WithMarker(WithMarker(e)) == WithMarker(e)
  {
  }

  /** Applied twice to an element without a checkbox, the injection leaves exactly one. */
  lemma InjectTwiceLeavesOne(e: Element)
    requires MarkerCount(e.children) == 0
    ensures MarkerCount(WithMarker(WithMarker(e)).children) == 1
  {
    HasMarkerIffCount(e.children);
  }

  // ---------------------------------------------------------------------------
  // addCheckboxesToMessages
  // ---------------------------------------------------------------------------

  /** Index of the first selector, in priority order, that matches at least one element. */
  function FirstNonEmpty(lists: seq<seq<nat>>): (r: Option<nat>)
    ensures r.Some? ==> r.value < |lists| && |lists[r.value]| > 0
    ensures r.Some? ==> forall j :: 0 <= j < r.value ==> |lists[j]| == 0
    ensures r.None? <==> forall j :: 0 <= j < |lists| ==> |lists[j]| == 0
  {
    if |lists| == 0 then None
    else if |lists[0]| > 0 then Some(0)
    else
      match FirstNonEmpty(lists[1..])
      case None =>
        assert forall j :: 1 <= j < |lists| ==> lists[j] == lists[1..][j - 1];
        None
      case Some(i) =>
        assert forall j :: 1 <= j <= i ==> lists[j] == lists[1..][j - 1];
        Some(i + 1)
  }

  /** The elements one pass injects into: everything the chosen selector matches, or nothing. */
  function Targets(matchesOf: seq<seq<nat>>): (ts: seq<nat>)
    ensures ts == [] <==> forall j :: 0 <= j < |matchesOf| ==> |matchesOf[j]| == 0
    ensures ts != [] ==> exists i :: 0 <= i < |matchesOf| && ts == matchesOf[i] && forall j :: 0 <= j < i ==> |matchesOf[j]| == 0
  {
    match FirstNonEmpty(matchesOf)
    case None => []
    case Some(i) => matchesOf[i]
  }

  /** The page after injecting into every element whose position is listed in `ts`. */
  function InjectedInto(els: seq<Element>, ts: seq<nat>): seq<Element>
  {
    seq(|els|, k requires 0 <= k < |els| => if k in ts then WithMarker(els[k]) else els[k])
  }

  /** One more injection, into element `t`, extends the list of injected positions by `t`, repeated or not. */
  lemma InjectedIntoStep(els: seq<Element>, ts: seq<nat>, t: nat)
    requires t < |els|
    ensures InjectedInto(els, ts)[t := WithMarker(InjectedInto(els, ts)[t])] == InjectedInto(els, ts + [t])
  {
    var before := InjectedInto(els, ts);
    var a := before[t := WithMarker(before[t])];
    var b := InjectedInto(els, ts + [t]);
    assert |a| == |b| == |els|;
    forall k | 0 <= k < |els|
      ensures a[k] == b[k]
    {
      if k == t {
        assert t in ts + [t];
        assert b[k] == WithMarker(els[k]);
        if t in ts {
          WithMarkerIdempotent(els[k]);
        }
      } else {
        assert (k in ts + [t]) == (k in ts);
      }
    }
  }

  /** Reference definition of one `addCheckboxesToMessages()` pass over the page. */
  function InjectionPass(els: seq<Element>, matchesOf: seq<seq<nat>>): (r: seq<Element>)
    ensures |r| == |els|
    ensures forall k :: 0 <= k < |els| ==> r[k].container == els[k].container
    ensures forall k :: 0 <= k < |els| && k in Targets(matchesOf) ==> HasMarker(r[k])
    ensures forall k :: 0 <= k < |els| && k !in Targets(matchesOf) ==> r[k] == els[k]
  {
    InjectedInto(els, Targets(matchesOf))
  }

  /**
   * After a pass every element the chosen selector matches holds a checkbox,
   * exactly one if it held at most one before; every other element is
   * unchanged; and the at-most-one-checkbox invariant is kept.
   */
  lemma InjectionPassEffect(els: seq<Element>, matchesOf: seq<seq<nat>>)
    ensures |InjectionPass(els, matchesOf)| == |els|
    ensures forall k :: 0 <= k < |els| && k in Targets(matchesOf) ==>
      HasMarker(InjectionPass(els, matchesOf)[k]) &&
      (MarkerCount(els[k].children) <= 1 ==> MarkerCount(InjectionPass(els, matchesOf)[k].children) == 1)
    ensures forall k :: 0 <= k < |els| && k !in Targets(matchesOf) ==> InjectionPass(els, matchesOf)[k] == els[k]
    ensures AtMostOneMarker(els) ==> AtMostOneMarker(InjectionPass(els, matchesOf))
  {
    forall k | 0 <= k < |els| && k in Targets(matchesOf)
      ensures MarkerCount(els[k].children) <= 1 ==> MarkerCount(InjectionPass(els, matchesOf)[k].children) == 1
    {
      HasMarkerIffCount(els[k].children);
    }
  }

  /** When no selector matches anything, a pass adds no checkbox anywhere. */
  lemma NoMatchNoChange(els: seq<Element>, matchesOf: seq<seq<nat>>)
    requires forall j :: 0 <= j < |matchesOf| ==> |matchesOf[j]| == 0
    ensures InjectionPass(els, matchesOf) == els
  {
  }

  /** Re-running the pass, as every mutation notification does, changes nothing more. */
  lemma InjectionPassIdempotent(els: seq<Element>, matchesOf: seq<seq<nat>>)
    ensures InjectionPass(InjectionPass(els, matchesOf), matchesOf) == InjectionPass(els, matchesOf)
  {
  }

  // ---------------------------------------------------------------------------
  // selectAllMessages
  // ---------------------------------------------------------------------------

  /** A child after `checkbox.checked = select`: checkboxes take the value, other nodes stay. */
  function Rechecked(c: Child, select: bool): Child
  {
    if c.Wrapper? then Wrapper(select) else c
  }

  function RecheckedAll(children: seq<Child>, select: bool): seq<Child>
  {
    seq(|children|, y requires 0 <= y < |children| => Rechecked(children[y], select))
  }

  function SetChecked(e: Element, select: bool): Element
  {
    e.(children := RecheckedAll(e.children, select))
  }

  /** Reference definition of `selectAllMessages(select)` over the page. */
  function SetAllChecked(els: seq<Element>, select: bool): (r: seq<Element>)
    ensures |r| == |els|
    ensures forall x :: 0 <= x < |els| ==> r[x].container == els[x].container && |r[x].children| == |els[x].children|
    ensures forall x, y :: 0 <= x < |els| && 0 <= y < |els[x].children| ==>
      if els[x].children[y].Wrapper? then r[x].children[y] == Wrapper(select) else r[x].children[y] == els[x].children[y]
  {
    seq(|els|, x requires 0 <= x < |els| => SetChecked(els[x], select))
  }

  /** The same checkboxes with every `checked` flag set to `select`. */
  function AllSetTo(boxes: seq<CheckboxNode>, select: bool): seq<CheckboxNode>
  {
    seq(|boxes|, k requires 0 <= k < |boxes| => boxes[k].(checked := select))
  }

  lemma {:induction false} BoxesInSetChecked(children: seq<Child>, container: Option<RoleContainer>, select: bool)
    ensures BoxesIn(RecheckedAll(children, select), container) == AllSetTo(BoxesIn(children, container), select)
  {
    if |children| > 0 {
      assert RecheckedAll(children, select)[1..] == RecheckedAll(children[1..], select);
      BoxesInSetChecked(children[1..], container, select);
    }
  }

  /**
   * `selectAllMessages(select)` leaves the page's checkboxes, their order and
   * their containers exactly as they were and sets every one to `select`.
   */
  lemma {:induction false} SelectAllCheckboxes(els: seq<Element>, select: bool)
    ensures Checkboxes(SetAllChecked(els, select)) == AllSetTo(Checkboxes(els), select)
  {
    if |els| > 0 {
      var sa := SetAllChecked(els, select);
      BoxesInSetChecked(els[0].children, els[0].container, select);
      assert sa[0] == SetChecked(els[0], select);
      assert sa[1..] == SetAllChecked(els[1..], select);
      assert Checkboxes(sa) == BoxesIn(sa[0].children, sa[0].container) + Checkboxes(sa[1..]);
      SelectAllCheckboxes(els[1..], select);
      var a := BoxesIn(els[0].children, els[0].container);
      var b := Checkboxes(els[1..]);
      assert BoxesIn(sa[0].children, sa[0].container) == AllSetTo(a, select);
      assert Checkboxes(els) == a + b;
      assert AllSetTo(a + b, select) == AllSetTo(a, select) + AllSetTo(b, select);
    }
  }

  /** The filter of an all-checked sequence keeps everything, of an all-unchecked one nothing. */
  lemma {:induction false} CheckedBoxesAllSet(boxes: seq<CheckboxNode>, select: bool)
    ensures CheckedBoxes(AllSetTo(boxes, select)) == if select then AllSetTo(boxes, select) else []
  {
    if |boxes| > 0 {
      var n := |boxes| - 1;
      assert AllSetTo(boxes, select)[..n] == AllSetTo(boxes[..n], select);
      CheckedBoxesAllSet(boxes[..n], select);
    }
  }

  /** After "Deselect All" nothing is selected, and every export only shows the please-select notice. */
  lemma DeselectAllBlocksExport(els: seq<Element>)
    ensures GetSelectedMessages(Checkboxes(SetAllChecked(els, false))) == []
    ensures CopyToClipboard(GetSelectedMessages(Checkboxes(SetAllChecked(els, false)))) == Alert(SelectFirstNotice)
    ensures ExportAsTxt(GetSelectedMessages(Checkboxes(SetAllChecked(els, false)))) == Alert(SelectFirstNotice)
    ensures ExportAsMarkdown(GetSelectedMessages(Checkboxes(SetAllChecked(els, false)))) == Alert(SelectFirstNotice)
  {
    SelectAllCheckboxes(els, false);
    CheckedBoxesAllSet(Checkboxes(els), false);
  }

  /** After "Select All" the selection holds one record per checkbox of the page, in document order. */
  lemma SelectAllSelectsEvery(els: seq<Element>)
    ensures |GetSelectedMessages(Checkboxes(SetAllChecked(els, true)))| == |Checkboxes(els)|
    ensures forall k :: 0 <= k < |Checkboxes(els)| ==>
      GetSelectedMessages(Checkboxes(SetAllChecked(els, true)))[k] == ToRecord(Checkboxes(els)[k])
  {
    SelectAllCheckboxes(els, true);
    CheckedBoxesAllSet(Checkboxes(els), true);
  }

  // ---------------------------------------------------------------------------
  // The page
  // ---------------------------------------------------------------------------

  /** The live document: message elements updated in place by the exporter's methods. */
  class Page {
    var elements: seq<Element>
    const matchesOf: seq<seq<nat>>

    /** One match list per selector, each naming elements of the page. */
    ghost predicate Valid()
      reads this
    {
      && |matchesOf| == |MessageSelectors|
      && forall i, k :: 0 <= i < |matchesOf| && 0 <= k < |matchesOf[i]| ==> matchesOf[i][k] < |elements|
    }

    constructor (elements: seq<Element>, matchesOf: seq<seq<nat>>)
      requires |matchesOf| == |MessageSelectors|
      requires forall i, k :: 0 <= i < |matchesOf| && 0 <= k < |matchesOf[i]| ==> matchesOf[i][k] < |elements|
      ensures Valid()
      ensures this.elements == elements && this.matchesOf == matchesOf
    {
      this.elements := elements;
      this.matchesOf := matchesOf;
    }

    /** `getSelectedMessages()` on the current page. */
    function SelectedMessages(): (ms: seq<Message>)
      reads this
      ensures |ms| <= MarkerTotal(elements)
    {
      GetSelectedMessages(Checkboxes(elements))
    }

    /** `selectAllMessages(select)`: every checkbox, in document order, gets `checked = select`; nothing else changes. */
    method SelectAllMessages(select: bool)
      requires Valid()
      modifies this
      ensures Valid()
      ensures elements == SetAllChecked(old(elements), select)
      ensures !select ==> SelectedMessages() == []
      ensures select ==> |SelectedMessages()| == MarkerTotal(elements)
    {
      var i := 0;
      while i < |elements|
        invariant 0 <= i <= |elements| == |old(elements)|
        invariant forall x :: 0 <= x < i ==> elements[x] == SetChecked(old(elements)[x], select)
        invariant forall x :: i <= x < |elements| ==> elements[x] == old(elements)[x]
      {
        var e := elements[i];
        var children := e.children;
        var j := 0;
        while j < |children|
          invariant 0 <= j <= |children| == |e.children|
          invariant forall y :: 0 <= y < j ==> children[y] == Rechecked(e.children[y], select)
          invariant forall y :: j <= y < |children| ==> children[y] == e.children[y]
        {
          if children[j].Wrapper? {
            children := children[j := Wrapper(select)];
          }
          j := j + 1;
        }
        assert children == SetChecked(e, select).children;
        elements := elements[i := e.(children := children)];
        i := i + 1;
      }
      assert elements == SetAllChecked(old(elements), select);
      if select {
        SelectAllSelectsEvery(old(elements));
        SelectAllCheckboxes(old(elements), select);
      } else {
        DeselectAllBlocksExport(old(elements));
      }
    }

    /** `addCheckboxToMessage(message)` on the element at position `i`. */
    method AddCheckboxToMessage(i: nat)
      requires Valid() && i < |elements|
      modifies this
      ensures Valid()
      ensures elements == old(elements)[i := WithMarker(old(elements)[i])]
    {
      var message := elements[i];
      if HasMarker(message) {
        return;
      }
      elements := elements[i := message.(children := [Wrapper(false)] + message.children)];
    }

    /**
     * `addCheckboxesToMessages()`: takes the first selector, in priority
     * order, that matches anything and injects a checkbox into every element
     * it matches; when none matches, the page is left as it is.
     */
    method AddCheckboxesToMessages()
      requires Valid()
      modifies this
      ensures Valid()
      ensures elements == InjectionPass(old(elements), matchesOf)
    {
      var messages: seq<nat> := [];
      var s := 0;
      while s < |MessageSelectors|
        invariant 0 <= s <= |MessageSelectors|
        invariant messages == []
        invariant forall j :: 0 <= j < s ==> |matchesOf[j]| == 0
      {
        if |matchesOf[s]| > 0 {
          messages := matchesOf[s];
          break;
        }
        s := s + 1;
      }
      assert messages == Targets(matchesOf);
      if |messages| == 0 {
        return;
      }
      var k := 0;
      while k < |messages|
        invariant 0 <= k <= |messages|
        invariant Valid()
        invariant elements == InjectedInto(old(elements), messages[..k])
      {
        InjectedIntoStep(old(elements), messages[..k], messages[k]);
        AddCheckboxToMessage(messages[k]);
        assert messages[..k + 1] == messages[..k] + [messages[k]];
        k := k + 1;
      }
      assert messages[..k] == messages;
    }
  }
}
