/**
 * The message collector (`getSelectedMessages`): the checked selection
 * checkboxes, in document order, each turned into a `{role, content}` record.
 */
module Selection {
  import opened Wrappers
  import opened Text

  /** One exported record: the raw author-role string and the message text. */
  datatype Message = Message(role: string, content: string)

  /**
   * What `checkbox.closest('[data-message-author-role]')` finds: the value of
   * its `data-message-author-role` attribute and, when the container has a
   * `.prose` descendant, that descendant's `textContent`.
   */
  datatype RoleContainer = RoleContainer(authorRole: string, prose: Option<string>)

  /** A `.claude-export-checkbox` as the collector sees it: its `checked` flag and its enclosing role container, if any. */
  datatype CheckboxNode = CheckboxNode(checked: bool, container: Option<RoleContainer>)

  /** The role used when there is no container or its attribute is empty. */
  const UnknownRole := "unknown"

  /** `messageContainer?.getAttribute('data-message-author-role') || 'unknown'`. */
  function RoleOf(container: Option<RoleContainer>): (role: string)
    ensures role != ""
    ensures container.Some? && container.value.authorRole != "" ==> role == container.value.authorRole
    ensures container.None? || container.value.authorRole == "" ==> role == UnknownRole
  {
    if container.Some? && container.value.authorRole != "" then container.value.authorRole else UnknownRole
  }

  /** `contentElement ? contentElement.textContent.trim() : ''`. */
  function ContentOf(container: Option<RoleContainer>): (content: string)
    ensures IsTrimmed(content)
    ensures container.None? || container.value.prose.None? ==> content == ""
    ensures container.Some? && container.value.prose.Some? ==> content == Trim(container.value.prose.value)
  {
    match container
    case None => ""
    case Some(c) =>
      match c.prose
      case None => ""
      case Some(text) => Trim(text)
  }

  /** The record built for one checked checkbox. */
  function ToRecord(box: CheckboxNode): (m: Message)
    ensures m.role != "" && IsTrimmed(m.content)
  {
    Message(RoleOf(box.container), ContentOf(box.container))
  }

  /** `querySelectorAll('.claude-export-checkbox:checked')`: the checked boxes, in document order. */
  function CheckedBoxes(boxes: seq<CheckboxNode>): (r: seq<CheckboxNode>)
    ensures |r| <= |boxes|
    ensures forall k :: 0 <= k < |r| ==> r[k].checked
    ensures forall p :: 0 <= p < |boxes| && boxes[p].checked ==> boxes[p] in r
  {
    if |boxes| == 0 then []
    else
      var n := |boxes| - 1;
      var front := CheckedBoxes(boxes[..n]);
      assert forall p :: 0 <= p < n ==> boxes[..n][p] == boxes[p];
      front + (if boxes[n].checked then [boxes[n]] else [])
  }

  /** `getSelectedMessages()`: one record per checked checkbox, in query order. */
  function GetSelectedMessages(boxes: seq<CheckboxNode>): (r: seq<Message>)
    ensures |r| <= |boxes|
    ensures forall k :: 0 <= k < |r| ==> r[k].role != "" && IsTrimmed(r[k].content)
  {
    var checked := CheckedBoxes(boxes);
    seq(|checked|, k requires 0 <= k < |checked| => ToRecord(checked[k]))
  }

  /**
   * Reference definition of the selection: the positions of the checked
   * boxes in increasing (document) order, every checked position included.
   */
  function CheckedPositions(boxes: seq<CheckboxNode>): (ps: seq<nat>)
    ensures forall k :: 0 <= k < |ps| ==> ps[k] < |boxes| && boxes[ps[k]].checked
    ensures forall k, l :: 0 <= k < l < |ps| ==> ps[k] < ps[l]
    ensures forall p :: 0 <= p < |boxes| && boxes[p].checked ==> p in ps
  {
    if |boxes| == 0 then []
    else
      var n := |boxes| - 1;
      var front := CheckedPositions(boxes[..n]);
      front + (if boxes[n].checked then [n] else [])
  }

  /** Number of checked boxes. */
  function CountChecked(boxes: seq<CheckboxNode>): nat
  {
    if |boxes| == 0 then 0
    else CountChecked(boxes[..|boxes| - 1]) + (if boxes[|boxes| - 1].checked then 1 else 0)
  }

  /** The filter keeps exactly the checked boxes at the reference positions, in order. */
  lemma {:induction false} CheckedBoxesAtPositions(boxes: seq<CheckboxNode>)
    ensures |CheckedBoxes(boxes)| == |CheckedPositions(boxes)| == CountChecked(boxes)
    ensures forall k :: 0 <= k < |CheckedBoxes(boxes)| ==> CheckedBoxes(boxes)[k] == boxes[CheckedPositions(boxes)[k]]
  {
    if |boxes| > 0 {
      var n := |boxes| - 1;
      CheckedBoxesAtPositions(boxes[..n]);
      assert forall p :: 0 <= p < |CheckedPositions(boxes[..n])| ==> boxes[..n][CheckedPositions(boxes[..n])[p]] == boxes[CheckedPositions(boxes[..n])[p]];
    }
  }

  /**
   * `getSelectedMessages` returns exactly one record per checked checkbox, in
   * document order, and drops none: record `k` is built from the `k`-th
   * checked box.
   */
  lemma SelectedInDocumentOrder(boxes: seq<CheckboxNode>)
    ensures |GetSelectedMessages(boxes)| == CountChecked(boxes) == |CheckedPositions(boxes)|
    ensures forall k :: 0 <= k < |GetSelectedMessages(boxes)| ==>
      GetSelectedMessages(boxes)[k] == ToRecord(boxes[CheckedPositions(boxes)[k]])
  {
    CheckedBoxesAtPositions(boxes);
  }

  /** Nothing is selected exactly when no box is checked. */
  lemma SelectionEmptyIff(boxes: seq<CheckboxNode>)
    ensures GetSelectedMessages(boxes) == [] <==> forall p :: 0 <= p < |boxes| ==> !boxes[p].checked
  {
    SelectedInDocumentOrder(boxes);
    if GetSelectedMessages(boxes) == [] {
      assert CheckedPositions(boxes) == [];
    } else {
      assert boxes[CheckedPositions(boxes)[0]].checked;
    }
  }
}
