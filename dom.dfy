/**
 * An abstract model of the rendered editor tree, and the document-order
 * walks that both caret mappers are built from.
 *
 * A DOM node is either a text node, of which only the length of its content
 * matters, or an element with a tag name, an "atomic" flag (the element
 * carries `contenteditable="false"`) and its child nodes. `id` stands for the
 * node's identity, which the source compares with `===`.
 */
module Dom {
  import opened Wrappers

  datatype Node =
    | Text(id: nat, length: nat)
    | Element(id: nat, name: string, atomic: bool, children: seq<Node>)

  /**
   * The document selection, which the caret functions read: the focus node,
   * by id (absent when the selection has no range), and the focus offset.
   * A missing selection (`document.getSelection()` returning null) is None
   * where a selection is taken.
   */
  datatype Selection = Selection(focusNode: Option<nat>, focusOffset: nat)

  /** `node.hasChildNodes()`: text nodes never have children. */
  predicate HasChildNodes(n: Node)
  {
    n.Element? && |n.children| > 0
  }

  /** Holds of every element; with it, a walk visits every node of the tree. */
  predicate IsElement(n: Node)
  {
    n.Element?
  }

  /** `node.textContent.length`: the lengths of all descendant text nodes. */
  function TextContentLength(n: Node): nat
  {
    match n
    case Text(_, len) => len
    case Element(_, _, _, cs) => ListTextLength(cs)
  }

  function ListTextLength(ns: seq<Node>): nat
  {
    if ns == [] then 0 else TextContentLength(ns[0]) + ListTextLength(ns[1..])
  }

  /** Number of nodes; the termination measure of the worklist walks. */
  function Size(n: Node): nat
  {
    match n
    case Text(_, _) => 1
    case Element(_, _, _, cs) => 1 + ListSize(cs)
  }

  function ListSize(ns: seq<Node>): nat
  {
    if ns == [] then 0 else Size(ns[0]) + ListSize(ns[1..])
  }

  /** The size of a worklist is that of its head plus that of its tail; a head's children weigh less than it. */
  lemma ListSizeCons(ns: seq<Node>)
    requires ns != []
    ensures ListSize(ns) == Size(ns[0]) + ListSize(ns[1..])
    ensures ns[0].Element? ==> Size(ns[0]) == 1 + ListSize(ns[0].children)
    ensures Size(ns[0]) >= 1
  {
  }

  /** Replacing the head of a worklist by its children shrinks the worklist. */
  lemma ListSizeOpen(ns: seq<Node>)
    requires ns != [] && ns[0].Element?
    ensures ListSize(ns[0].children + ns[1..]) < ListSize(ns)
  {
    ListSizeCons(ns);
    ListSizeAppend(ns[0].children, ns[1..]);
  }

  lemma {:induction false} ListSizeAppend(a: seq<Node>, b: seq<Node>)
    ensures ListSize(a + b) == ListSize(a) + ListSize(b)
  {
    if a == [] {
      assert a + b == b;
    } else {
      assert (a + b)[1..] == a[1..] + b;
      ListSizeAppend(a[1..], b);
    }
  }

  lemma {:induction false} ListTextLengthAppend(a: seq<Node>, b: seq<Node>)
    ensures ListTextLength(a + b) == ListTextLength(a) + ListTextLength(b)
  {
    if a == [] {
      assert a + b == b;
    } else {
      assert (a + b)[1..] == a[1..] + b;
      ListTextLengthAppend(a[1..], b);
    }
  }

  /**
   * The nodes a worklist walk visits, in the order it visits them: each node
   * is visited, and when `descend` holds of an element its children are
   * visited right after it, before the rest of the worklist.
   */
  function Walk(ns: seq<Node>, descend: Node -> bool): seq<Node>
  {
    if ns == [] then [] else WalkOf(ns[0], descend) + Walk(ns[1..], descend)
  }

  function WalkOf(n: Node, descend: Node -> bool): seq<Node>
  {
    if n.Element? && descend(n) then [n] + Walk(n.children, descend) else [n]
  }

  lemma {:induction false} WalkAppend(a: seq<Node>, b: seq<Node>, descend: Node -> bool)
    ensures Walk(a + b, descend) == Walk(a, descend) + Walk(b, descend)
  {
    if a == [] {
      assert a + b == b;
    } else {
      assert (a + b)[1..] == a[1..] + b;
      WalkAppend(a[1..], b, descend);
    }
  }

  /** Unfolding the head of a worklist: what replacing an element by its children does. */
  lemma WalkCons(ns: seq<Node>, descend: Node -> bool)
    requires ns != []
    ensures ns[0].Element? && descend(ns[0]) ==>
              Walk(ns, descend) == [ns[0]] + Walk(ns[0].children + ns[1..], descend)
    ensures !(ns[0].Element? && descend(ns[0])) ==>
              Walk(ns, descend) == [ns[0]] + Walk(ns[1..], descend)
  {
    if ns[0].Element? && descend(ns[0]) {
      calc {
        Walk(ns, descend);
        WalkOf(ns[0], descend) + Walk(ns[1..], descend);
        [ns[0]] + Walk(ns[0].children, descend) + Walk(ns[1..], descend);
        { WalkAppend(ns[0].children, ns[1..], descend); }
        [ns[0]] + Walk(ns[0].children + ns[1..], descend);
      }
    }
  }

  /**
   * The nodes a walk stops at, in document order: a node is a leaf unless it
   * is an element that `descend` opens up.
   */
  function Leaves(ns: seq<Node>, descend: Node -> bool): seq<Node>
  {
    if ns == [] then [] else LeavesOf(ns[0], descend) + Leaves(ns[1..], descend)
  }

  function LeavesOf(n: Node, descend: Node -> bool): seq<Node>
  {
    if n.Element? && descend(n) then Leaves(n.children, descend) else [n]
  }

  lemma {:induction false} LeavesAppend(a: seq<Node>, b: seq<Node>, descend: Node -> bool)
    ensures Leaves(a + b, descend) == Leaves(a, descend) + Leaves(b, descend)
  {
    if a == [] {
      assert a + b == b;
    } else {
      assert (a + b)[1..] == a[1..] + b;
      LeavesAppend(a[1..], b, descend);
    }
  }

  lemma LeavesCons(ns: seq<Node>, descend: Node -> bool)
    requires ns != []
    ensures ns[0].Element? && descend(ns[0]) ==>
              Leaves(ns, descend) == Leaves(ns[0].children + ns[1..], descend)
    ensures !(ns[0].Element? && descend(ns[0])) ==>
              Leaves(ns, descend) == [ns[0]] + Leaves(ns[1..], descend)
  {
    if ns[0].Element? && descend(ns[0]) {
      LeavesAppend(ns[0].children, ns[1..], descend);
    }
  }

  /** No two nodes of `v` share an id. */
  ghost predicate DistinctIds(v: seq<Node>)
  {
    forall i, j :: 0 <= i < j < |v| ==> v[i].id != v[j].id
  }

  /** A walk that only opens up elements with children stops at one leaf at least. */
  lemma {:induction false} LeavesNonEmpty(ns: seq<Node>, descend: Node -> bool)
    requires ns != []
    requires forall n :: descend(n) ==> HasChildNodes(n)
    ensures Leaves(ns, descend) != []
    decreases ListSize(ns)
  {
    ListSizeCons(ns);
    if ns[0].Element? && descend(ns[0]) {
      LeavesNonEmpty(ns[0].children, descend);
    }
  }

  /** Every node of the tree has its own id: node identity is well defined. */
  ghost predicate UniqueIds(ns: seq<Node>)
  {
    DistinctIds(Walk(ns, IsElement))
  }

  /** Distinct ids survive splitting a sequence, and the two parts share no id. */
  lemma DistinctIdsSplit(a: seq<Node>, b: seq<Node>)
    requires DistinctIds(a + b)
    ensures DistinctIds(b)
    ensures forall x, y :: x in a && y in b ==> x.id != y.id
  {
    forall i, j | 0 <= i < j < |b|
      ensures b[i].id != b[j].id
    {
      assert (a + b)[|a| + i] == b[i] && (a + b)[|a| + j] == b[j];
    }
    forall x, y | x in a && y in b
      ensures x.id != y.id
    {
      var i :| 0 <= i < |a| && a[i] == x;
      var j :| 0 <= j < |b| && b[j] == y;
      assert (a + b)[i] == x && (a + b)[|a| + j] == y;
    }
  }

  /**
   * The total weight of the nodes of `v` that come before the first node
   * with id `t`; of all of `v` when no node has that id.
   */
  function WeightBefore(v: seq<Node>, t: nat, w: Node -> nat): nat
  {
    if v == [] then 0
    else if v[0].id == t then 0
    else w(v[0]) + WeightBefore(v[1..], t, w)
  }

  /** Sum of `w` over a sequence of nodes. */
  function SumWeights(ns: seq<Node>, w: Node -> nat): nat
  {
    if ns == [] then 0 else w(ns[0]) + SumWeights(ns[1..], w)
  }

  lemma {:induction false} SumWeightsAppend(a: seq<Node>, b: seq<Node>, w: Node -> nat)
    ensures SumWeights(a + b, w) == SumWeights(a, w) + SumWeights(b, w)
  {
    if a == [] {
      assert a + b == b;
    } else {
      assert (a + b)[1..] == a[1..] + b;
      SumWeightsAppend(a[1..], b, w);
    }
  }

  /** The index of the first node whose id is `t`, or `|ns|` when there is none. */
  function IdIndex(ns: seq<Node>, t: nat): (i: nat)
    ensures i <= |ns|
    ensures i < |ns| ==> ns[i].id == t
    ensures forall j :: 0 <= j < i ==> ns[j].id != t
  {
    if ns == [] then 0
    else if ns[0].id == t then 0
    else 1 + IdIndex(ns[1..], t)
  }

  /** The running total after the leaf at index `j`, starting from `c`. */
  function RunningTotal(leaves: seq<Node>, w: Node -> nat, c: int, j: nat): int
    requires j < |leaves|
  {
    c + SumWeights(leaves[..j + 1], w)
  }

  /** Seen from the second leaf on, the running totals start at `c` plus the first leaf's weight. */
  lemma RunningTotalTail(leaves: seq<Node>, w: Node -> nat, c: int, j: nat)
    requires j + 1 < |leaves|
    ensures RunningTotal(leaves, w, c, j + 1) == RunningTotal(leaves[1..], w, c + w(leaves[0]), j)
  {
    assert leaves[..j + 2][1..] == leaves[1..][..j + 1];
  }

  /**
   * A scan along `leaves` with the running total `c`: the first leaf at which
   * the total, its own weight included, reaches `p`, paired with by how much
   * the total then exceeds `p`; None when the total never reaches `p`.
   */
  function FirstReaching(leaves: seq<Node>, w: Node -> nat, p: int, c: int): Option<(Node, int)>
  {
    if leaves == [] then None
    else
      var added := c + w(leaves[0]);
      if 0 <= added - p then Some((leaves[0], added - p))
      else FirstReaching(leaves[1..], w, p, added)
  }

  /** The scan finds nothing exactly when there are no leaves or the whole sum stays below `p`. */
  lemma {:induction false} FirstReachingNone(leaves: seq<Node>, w: Node -> nat, p: int, c: int)
    ensures FirstReaching(leaves, w, p, c).None? <==> leaves == [] || c + SumWeights(leaves, w) < p
  {
    if leaves != [] && leaves[1..] != [] {
      FirstReachingNone(leaves[1..], w, p, c + w(leaves[0]));
    }
  }

  /** The scan returns the first leaf whose running total reaches `p`. */
  lemma {:induction false} FirstReachingAt(leaves: seq<Node>, w: Node -> nat, p: int, c: int, i: nat)
    requires i < |leaves|
    requires RunningTotal(leaves, w, c, i) >= p
    requires forall j :: 0 <= j < i ==> RunningTotal(leaves, w, c, j) < p
    ensures FirstReaching(leaves, w, p, c) == Some((leaves[i], RunningTotal(leaves, w, c, i) - p))
  {
    var c' := c + w(leaves[0]);
    assert leaves[..1] == [leaves[0]] && [leaves[0]][1..] == [];
    assert SumWeights([leaves[0]], w) == w(leaves[0]) + SumWeights([], w);
    assert RunningTotal(leaves, w, c, 0) == c';
    if i > 0 {
      forall j | 0 <= j < i - 1
        ensures RunningTotal(leaves[1..], w, c', j) < p
      {
        RunningTotalTail(leaves, w, c, j);
      }
      RunningTotalTail(leaves, w, c, i - 1);
      FirstReachingAt(leaves[1..], w, p, c', i - 1);
    }
  }

  /** Whatever the scan returns is the first leaf whose running total reaches `p`. */
  lemma FirstReachingFound(leaves: seq<Node>, w: Node -> nat, p: int, c: int)
    requires FirstReaching(leaves, w, p, c).Some?
    ensures exists i :: 0 <= i < |leaves| &&
              FirstReaching(leaves, w, p, c) == Some((leaves[i], RunningTotal(leaves, w, c, i) - p)) &&
              RunningTotal(leaves, w, c, i) >= p &&
              forall j :: 0 <= j < i ==> RunningTotal(leaves, w, c, j) < p
  {
    var i := ReachIndex(leaves, w, p, c);
    FirstReachingIndexed(leaves, w, p, c, i);
  }

  /** How many leaves the scan passes before it stops. */
  function ReachIndex(leaves: seq<Node>, w: Node -> nat, p: int, c: int): nat
  {
    if leaves == [] || 0 <= c + w(leaves[0]) - p then 0
    else 1 + ReachIndex(leaves[1..], w, p, c + w(leaves[0]))
  }

  lemma {:induction false} FirstReachingIndexed(leaves: seq<Node>, w: Node -> nat, p: int, c: int, i: nat)
    requires FirstReaching(leaves, w, p, c).Some?
    requires i == ReachIndex(leaves, w, p, c)
    ensures 0 <= i < |leaves|
    ensures FirstReaching(leaves, w, p, c) == Some((leaves[i], RunningTotal(leaves, w, c, i) - p))
    ensures RunningTotal(leaves, w, c, i) >= p
    ensures forall j :: 0 <= j < i ==> RunningTotal(leaves, w, c, j) < p
  {
    RunningTotalFirst(leaves, w, c);
    var c' := c + w(leaves[0]);
    if 0 > c' - p {
      FirstReachingIndexed(leaves[1..], w, p, c', i - 1);
      FirstReachingShift(leaves, w, p, c, c', i - 1);
    }
  }

  /** The running total after the first leaf is that leaf's weight added to `c`. */
  lemma RunningTotalFirst(leaves: seq<Node>, w: Node -> nat, c: int)
    requires leaves != []
    ensures RunningTotal(leaves, w, c, 0) == c + w(leaves[0])
  {
    assert leaves[..1] == [leaves[0]] && [leaves[0]][1..] == [];
    assert SumWeights([leaves[0]], w) == w(leaves[0]) + SumWeights([], w);
  }

  /** The step of `FirstReachingFound`: a first reaching leaf of the tail, shifted by one. */
  lemma FirstReachingShift(leaves: seq<Node>, w: Node -> nat, p: int, c: int, c': int, i: nat)
    requires leaves != [] && c' == c + w(leaves[0]) && c' < p
    requires i < |leaves[1..]|
    requires FirstReaching(leaves[1..], w, p, c') == Some((leaves[1..][i], RunningTotal(leaves[1..], w, c', i) - p))
    requires RunningTotal(leaves[1..], w, c', i) >= p
    requires forall j :: 0 <= j < i ==> RunningTotal(leaves[1..], w, c', j) < p
    ensures 0 <= i + 1 < |leaves|
    ensures FirstReaching(leaves, w, p, c) == Some((leaves[i + 1], RunningTotal(leaves, w, c, i + 1) - p))
    ensures RunningTotal(leaves, w, c, i + 1) >= p
    ensures forall j :: 0 <= j < i + 1 ==> RunningTotal(leaves, w, c, j) < p
  {
    RunningTotalFirst(leaves, w, c);
    RunningTotalTail(leaves, w, c, i);
    forall j | 0 <= j < i + 1
      ensures RunningTotal(leaves, w, c, j) < p
    {
      if j > 0 {
        RunningTotalTail(leaves, w, c, j - 1);
      }
    }
    assert leaves[i + 1] == leaves[1..][i];
  }

  /** When the scan starts at or below `p`, the surplus never exceeds the chosen leaf's weight. */
  lemma {:induction false} FirstReachingBounds(leaves: seq<Node>, w: Node -> nat, p: int, c: int)
    requires c <= p
    requires FirstReaching(leaves, w, p, c).Some?
    ensures var (leaf, diff) := FirstReaching(leaves, w, p, c).value;
            0 <= diff <= w(leaf) && leaf in leaves
  {
    var added := c + w(leaves[0]);
    if 0 > added - p {
      FirstReachingBounds(leaves[1..], w, p, added);
    }
  }
}
