/**
 * The plain caret mapper of the contenteditable editor: offsets count text
 * characters only. `GetCaretPosition` turns the browser's focus into a
 * character offset; `FindNode` and `MoveCaret` turn an offset back into a
 * node and an offset inside it.
 */
module Editor {
  import opened Wrappers
  import opened Dom

  /** What a node visited by `countChars` adds: a text node its length, an element nothing. */
  function TextWeight(n: Node): nat
  {
    if n.Text? then n.length else 0
  }

  /**
   * `countChars`: the number of text characters before node `target` in
   * document order, starting from `count`; all of them when no node is the
   * target (the selection has no focus node).
   */
  function CountChars(nodes: seq<Node>, target: Option<nat>, count: nat): nat
    decreases ListSize(nodes)
  {
    if nodes == [] then count
    else
      var head, tail := nodes[0], nodes[1..];
      ListSizeCons(nodes);
      if target == Some(head.id) then count
      else if head.Text? then CountChars(tail, target, count + head.length)
      else
        ListSizeOpen(nodes);
        CountChars(head.children + tail, target, count)
  }

  /**
   * `countChars` adds up the text lengths of the nodes before the target in
   * document order; without a target it adds up all text.
   */
  lemma {:induction false} CountCharsWalk(nodes: seq<Node>, target: Option<nat>, count: nat)
    ensures target.None? ==> CountChars(nodes, target, count) == count + ListTextLength(nodes)
    ensures target.Some? ==>
              CountChars(nodes, target, count) == count + WeightBefore(Walk(nodes, IsElement), target.value, TextWeight)
    decreases ListSize(nodes)
  {
    if nodes != [] {
      var head, tail := nodes[0], nodes[1..];
      ListSizeCons(nodes);
      WalkCons(nodes, IsElement);
      if target != Some(head.id) {
        if head.Text? {
          CountCharsWalk(tail, target, count + head.length);
        } else {
          ListSizeOpen(nodes);
          CountCharsWalk(head.children + tail, target, count);
          ListTextLengthAppend(head.children, tail);
          assert Walk(nodes, IsElement)[1..] == Walk(head.children + tail, IsElement);
        }
      }
    }
  }

  /** `getCaretPosition`: the character offset of the caret, 0 without a selection. */
  function GetCaretPosition(editor: Node, selection: Option<Selection>): nat
  {
    match selection
    case None => 0
    case Some(Selection(focusNode, focusOffset)) => CountChars([editor], focusNode, 0) + focusOffset
  }

  /**
   * The leaf search of `moveCaret`: the first childless node, in document
   * order, at which the running text length reaches `caretPosition`, paired
   * with by how much it overshoots; None past the end.
   */
  function FindNode(nodes: seq<Node>, caretPosition: int, count: int): Option<(Node, int)>
    decreases ListSize(nodes)
  {
    if nodes == [] then None
    else
      var head, tail := nodes[0], nodes[1..];
      ListSizeCons(nodes);
      if HasChildNodes(head) then
        ListSizeOpen(nodes);
        FindNode(head.children + tail, caretPosition, count)
      else
        var addedCount := count + TextContentLength(head);
        var diff := addedCount - caretPosition;
        if 0 <= diff then Some((head, diff))
        else FindNode(tail, caretPosition, addedCount)
  }

  /** `findNode` is the scan over the childless nodes of the tree, weighted by text length. */
  lemma {:induction false} FindNodeLeaves(nodes: seq<Node>, caretPosition: int, count: int)
    ensures FindNode(nodes, caretPosition, count) ==
              FirstReaching(Leaves(nodes, HasChildNodes), TextContentLength, caretPosition, count)
    decreases ListSize(nodes)
  {
    if nodes != [] {
      var head, tail := nodes[0], nodes[1..];
      LeavesCons(nodes, HasChildNodes);
      ListSizeCons(nodes);
      if HasChildNodes(head) {
        ListSizeOpen(nodes);
        FindNodeLeaves(head.children + tail, caretPosition, count);
      } else {
        FindNodeLeaves(tail, caretPosition, count + TextContentLength(head));
        assert Leaves(nodes, HasChildNodes)[1..] == Leaves(tail, HasChildNodes);
      }
    }
  }

  /** The childless nodes hold all the text: their text lengths add up to that of the whole worklist. */
  lemma {:induction false} LeavesHoldAllText(nodes: seq<Node>)
    ensures SumWeights(Leaves(nodes, HasChildNodes), TextContentLength) == ListTextLength(nodes)
    decreases ListSize(nodes)
  {
    if nodes != [] {
      var head, tail := nodes[0], nodes[1..];
      LeavesCons(nodes, HasChildNodes);
      ListSizeCons(nodes);
      if HasChildNodes(head) {
        ListSizeOpen(nodes);
        LeavesHoldAllText(head.children + tail);
        ListTextLengthAppend(head.children, tail);
      } else {
        LeavesHoldAllText(tail);
        assert Leaves(nodes, HasChildNodes)[1..] == Leaves(tail, HasChildNodes);
      }
    }
  }

  /** The node `findNode` returns is a node of the tree. */
  lemma {:induction false} FindNodeInWalk(nodes: seq<Node>, caretPosition: int, count: int)
    requires FindNode(nodes, caretPosition, count).Some?
    ensures FindNode(nodes, caretPosition, count).value.0 in Walk(nodes, IsElement)
    decreases ListSize(nodes)
  {
    var head, tail := nodes[0], nodes[1..];
    WalkCons(nodes, IsElement);
    ListSizeCons(nodes);
    if HasChildNodes(head) {
      ListSizeOpen(nodes);
      FindNodeInWalk(head.children + tail, caretPosition, count);
    } else if FindNode(nodes, caretPosition, count) != Some((head, count + TextContentLength(head) - caretPosition)) {
      FindNodeInWalk(tail, caretPosition, count + TextContentLength(head));
      assert Walk(nodes, IsElement) == WalkOf(head, IsElement) + Walk(tail, IsElement);
    }
  }

  /**
   * `moveCaret`: the node and the offset inside it where the caret goes for
   * character offset `caretPosition`; None when there is no selection or the
   * offset lies past the end of the text.
   */
  function MoveCaret(editor: Node, caretPosition: int, selection: Option<Selection>): Option<(Node, int)>
  {
    if selection.None? then None
    else
      match FindNode([editor], caretPosition, 0)
      case None => None
      case Some((targetNode, diff)) => Some((targetNode, TextContentLength(targetNode) - diff))
  }

  /**
   * `moveCaret` places the caret exactly when there is a selection and the
   * offset is at most the text length; it lands in the first childless node
   * whose running text length reaches the offset, and for an offset that is
   * not negative, at an offset inside that node's text.
   */
  lemma MoveCaretSpec(editor: Node, caretPosition: int, selection: Option<Selection>)
    ensures MoveCaret(editor, caretPosition, selection).None? <==>
              selection.None? || TextContentLength(editor) < caretPosition
    ensures MoveCaret(editor, caretPosition, selection).Some? ==>
              var leaves := Leaves([editor], HasChildNodes);
              exists i :: 0 <= i < |leaves| &&
                RunningTotal(leaves, TextContentLength, 0, i) >= caretPosition &&
                (forall j :: 0 <= j < i ==> RunningTotal(leaves, TextContentLength, 0, j) < caretPosition) &&
                MoveCaret(editor, caretPosition, selection) ==
                  Some((leaves[i], TextContentLength(leaves[i]) - (RunningTotal(leaves, TextContentLength, 0, i) - caretPosition)))
    ensures 0 <= caretPosition && MoveCaret(editor, caretPosition, selection).Some? ==>
              var (n, offset) := MoveCaret(editor, caretPosition, selection).value;
              !HasChildNodes(n) && 0 <= offset <= TextContentLength(n)
  {
    var leaves := Leaves([editor], HasChildNodes);
    FindNodeLeaves([editor], caretPosition, 0);
    FirstReachingNone(leaves, TextContentLength, caretPosition, 0);
    LeavesNonEmpty([editor], HasChildNodes);
    LeavesHoldAllText([editor]);
    assert ListTextLength([editor]) == TextContentLength(editor) + ListTextLength([]);
    if selection.Some? && FindNode([editor], caretPosition, 0).Some? {
      FirstReachingFound(leaves, TextContentLength, caretPosition, 0);
      if 0 <= caretPosition {
        FirstReachingBounds(leaves, TextContentLength, caretPosition, 0);
        LeavesAreChildless([editor]);
      }
    }
  }

  /** The nodes the search stops at have no children. */
  lemma {:induction false} LeavesAreChildless(nodes: seq<Node>)
    ensures forall n :: n in Leaves(nodes, HasChildNodes) ==> !HasChildNodes(n)
    decreases ListSize(nodes)
  {
    if nodes != [] {
      LeavesCons(nodes, HasChildNodes);
      ListSizeCons(nodes);
      if HasChildNodes(nodes[0]) {
        ListSizeOpen(nodes);
        LeavesAreChildless(nodes[0].children + nodes[1..]);
      } else {
        LeavesAreChildless(nodes[1..]);
      }
    }
  }

  /**
   * At a boundary between two text nodes the earlier one wins: when the text
   * up to and including leaf `i` is exactly `caretPosition` long, and no
   * earlier leaf reaches it, the caret goes to the end of leaf `i`.
   */
  lemma BoundaryPrefersEarlierNode(editor: Node, caretPosition: int, selection: Option<Selection>, i: nat)
    requires selection.Some?
    requires i < |Leaves([editor], HasChildNodes)|
    requires RunningTotal(Leaves([editor], HasChildNodes), TextContentLength, 0, i) == caretPosition
    requires forall j :: 0 <= j < i ==> RunningTotal(Leaves([editor], HasChildNodes), TextContentLength, 0, j) < caretPosition
    ensures var leaf := Leaves([editor], HasChildNodes)[i];
            MoveCaret(editor, caretPosition, selection) == Some((leaf, TextContentLength(leaf)))
  {
    FindNodeLeaves([editor], caretPosition, 0);
    FirstReachingAt(Leaves([editor], HasChildNodes), TextContentLength, caretPosition, 0, i);
  }

  /**
   * Finding a node and counting back to it agree: the characters before the
   * node found plus the offset `moveCaret` puts the caret at is the offset
   * searched for.
   */
  lemma {:induction false} FindThenCount(nodes: seq<Node>, caretPosition: int, count: nat)
    requires UniqueIds(nodes)
    requires count <= caretPosition
    requires FindNode(nodes, caretPosition, count).Some?
    ensures var (leaf, diff) := FindNode(nodes, caretPosition, count).value;
            CountChars(nodes, Some(leaf.id), count) + (TextContentLength(leaf) - diff) == caretPosition
    decreases ListSize(nodes)
  {
    var head, tail := nodes[0], nodes[1..];
    var (leaf, diff) := FindNode(nodes, caretPosition, count).value;
    WalkCons(nodes, IsElement);
    ListSizeCons(nodes);
    assert head in Walk(nodes, IsElement);
    if HasChildNodes(head) {
      ListSizeOpen(nodes);
      var rest := head.children + tail;
      DistinctIdsSplit([head], Walk(rest, IsElement));
      FindNodeInWalk(rest, caretPosition, count);
      FindThenCount(rest, caretPosition, count);
    } else {
      var added := count + TextContentLength(head);
      if 0 > added - caretPosition {
        assert Walk(nodes, IsElement) == WalkOf(head, IsElement) + Walk(tail, IsElement);
        DistinctIdsSplit(WalkOf(head, IsElement), Walk(tail, IsElement));
        assert FindNode(nodes, caretPosition, count) == FindNode(tail, caretPosition, added);
        FindNodeInWalk(tail, caretPosition, added);
        assert head in WalkOf(head, IsElement);
        assert head.id != leaf.id;
        FindThenCount(tail, caretPosition, added);
        if head.Element? {
          assert head.children == [] && head.children + tail == tail;
          assert TextContentLength(head) == ListTextLength(head.children) == 0;
          assert CountChars(nodes, Some(leaf.id), count) == CountChars(head.children + tail, Some(leaf.id), count);
        }
        assert CountChars(nodes, Some(leaf.id), count) == CountChars(tail, Some(leaf.id), added);
      }
    }
  }

  /**
   * Moving the caret and reading it back gives the same character offset,
   * for every offset from 0 to the text length, in a tree whose node ids are
   * unique.
   */
  lemma MoveThenGetCaret(editor: Node, caretPosition: int, selection: Option<Selection>)
    requires UniqueIds([editor])
    requires 0 <= caretPosition <= TextContentLength(editor)
    requires selection.Some?
    ensures MoveCaret(editor, caretPosition, selection).Some?
    ensures var (n, offset) := MoveCaret(editor, caretPosition, selection).value;
            0 <= offset && GetCaretPosition(editor, Some(Selection(Some(n.id), offset))) == caretPosition
  {
    MoveCaretSpec(editor, caretPosition, selection);
    FindThenCount([editor], caretPosition, 0);
  }
}
