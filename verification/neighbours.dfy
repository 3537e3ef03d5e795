/**
 The editor's neighbour lookup (`getPreviousElement` / `getNextElement`).

 A node whose parent is the root looks at its own sibling; any other node looks
 at its parent's sibling, so the node's later and earlier siblings inside the
 same wrapper are never visited. A text sibling is the neighbour itself; an
 element sibling is entered at its first child, in both directions, and an
 element without children yields no neighbour.
 */
module Neighbours {
  import opened Wrappers
  import opened Tree

  /** The node whose sibling is consulted: the node itself below the root, otherwise its parent. */
  function Anchor(p: Path): (a: Path)
    requires |p| > 0
    ensures |a| > 0 && a <= p
  {
    if |p| == 1 then p else p[..|p| - 1]
  }

  /**
   The caret target for the sibling at path `s`: the sibling itself when it is
   a text node, its first child when it is an element, and nothing when there
   is no such sibling or the element has no children.
   */
  function Enter(doc: Doc, s: Path): (r: Option<Path>)
    ensures r.Some? ==> ValidPath(doc, r.value)
    ensures r.Some? ==> r.value == s || r.value == s + [0]
    ensures Lookup(doc, s).None? ==> r.None?
    ensures Lookup(doc, s).Some? && Lookup(doc, s).value.Text? ==> r == Some(s)
    ensures Lookup(doc, s).Some? && Lookup(doc, s).value.Elem? ==>
              r == (if |Lookup(doc, s).value.kids| == 0 then None else Some(s + [0]))
  {
    match Lookup(doc, s)
    case None => None
    case Some(Text(_)) => Some(s)
    case Some(Elem(kids)) =>
      if |kids| == 0 then None
      else
        LookupFirstChild(doc, s, kids);
        Some(s + [0])
  }

  /** `getNextElement`: the neighbour after the node at `p`. */
  function Next(doc: Doc, p: Path): (r: Option<Path>)
    requires ValidPath(doc, p)
    ensures r.Some? ==> ValidPath(doc, r.value)
    ensures r.Some? ==> Before(p, r.value)
  {
    var a := Anchor(p);
    var s := Sibling(a, a[|a| - 1] + 1);
    var r := Enter(doc, s);
    BeforeSibling(a, p, a[|a| - 1] + 1);
    BeforeExtend(p, s, [0]);
    r
  }

  /** `getPreviousElement`: the neighbour before the node at `p`. */
  function Prev(doc: Doc, p: Path): (r: Option<Path>)
    requires ValidPath(doc, p)
    ensures r.Some? ==> ValidPath(doc, r.value)
    ensures r.Some? ==> Before(r.value, p)
  {
    var a := Anchor(p);
    if a[|a| - 1] == 0 then None
    else
      var s := Sibling(a, a[|a| - 1] - 1);
      var r := Enter(doc, s);
      BeforeSibling(a, p, a[|a| - 1] - 1);
      BeforeExtend(s, p, [0]);
      r
  }

  /** Neither lookup ever returns the node it started from. */
  lemma NeighbourIsAnotherNode(doc: Doc, p: Path)
    requires ValidPath(doc, p)
    ensures Next(doc, p) != Some(p)
    ensures Prev(doc, p) != Some(p)
  {
    BeforeIrreflexive(p);
  }

  /**
   Seen from the root's children: for a node at depth one or two, the next
   neighbour is the entry of the root's following child, whether the node is
   that child itself or lies inside it.
   */
  lemma NextByTopIndex(doc: Doc, p: Path)
    requires ValidPath(doc, p) && |p| <= 2
    ensures Next(doc, p) == (if p[0] + 1 < |doc| then Enter(doc, [p[0] + 1]) else None)
  {
    assert Sibling(Anchor(p), p[0] + 1) == [p[0] + 1];
  }

  /** The previous neighbour of a node at depth one or two is the entry of the root's preceding child. */
  lemma PrevByTopIndex(doc: Doc, p: Path)
    requires ValidPath(doc, p) && |p| <= 2
    ensures Prev(doc, p) == (if p[0] > 0 then Enter(doc, [p[0] - 1]) else None)
  {
    if p[0] > 0 {
      assert Sibling(Anchor(p), p[0] - 1) == [p[0] - 1];
    }
  }

  /**
   All children of one wrapper share their neighbours: a node inside a wrapper
   never reaches its own later or earlier siblings.
   */
  lemma SameWrapperSameNeighbours(doc: Doc, p: Path, q: Path)
    requires ValidPath(doc, p) && ValidPath(doc, q)
    requires |p| >= 2 && |q| >= 2 && p[..|p| - 1] == q[..|q| - 1]
    ensures Next(doc, p) == Next(doc, q)
    ensures Prev(doc, p) == Prev(doc, q)
  {
  }

  /**
   Going to the next neighbour and back from a node at depth one or two lands
   on the entry of the node's own top-level child: the child itself when it is
   text, otherwise that wrapper's first child, not the node started from.
   */
  lemma {:induction false} PrevAfterNext(doc: Doc, p: Path)
    requires ValidPath(doc, p) && |p| <= 2 && Next(doc, p).Some?
    ensures Prev(doc, Next(doc, p).value) == Enter(doc, [p[0]])
  {
    var q := Next(doc, p).value;
    NextByTopIndex(doc, p);
    assert q[0] == p[0] + 1 && |q| <= 2;
    PrevByTopIndex(doc, q);
  }

  /** Going to the previous neighbour and back lands on the entry of the node's own top-level child. */
  lemma {:induction false} NextAfterPrev(doc: Doc, p: Path)
    requires ValidPath(doc, p) && |p| <= 2 && Prev(doc, p).Some?
    ensures Next(doc, Prev(doc, p).value) == Enter(doc, [p[0]])
  {
    var q := Prev(doc, p).value;
    PrevByTopIndex(doc, p);
    assert q[0] == p[0] - 1 && |q| <= 2;
    NextByTopIndex(doc, q);
  }

  /** A wrapper of two text nodes ("ab" and "cd") followed by a text node ("x"). */
  const WrappedPair: Doc := [Elem([Text([0x61, 0x62]), Text([0x63, 0x64])]), Text([0x78])]

  /** Going back into a wrapper lands on its first child, not on its last. */
  lemma PrevEntersFirstChild()
    ensures Prev(WrappedPair, [1]) == Some([0, 0])
  {
    assert Sibling(Anchor([1]), 0) == [0];
    assert Lookup(WrappedPair, [0]) == Some(Elem([Text([0x61, 0x62]), Text([0x63, 0x64])]));
    assert [0] + [0] == [0, 0];
  }

  /** From the wrapper's first child, the next neighbour skips the second child. */
  lemma NextSkipsWrapperSiblings()
    ensures Next(WrappedPair, [0, 0]) == Some([1])
  {
    assert Sibling(Anchor([0, 0]), 1) == [1];
  }

  /** An empty wrapper between two text nodes ("a" and "b") hides the text node behind it. */
  lemma EmptyWrapperHasNoEntry()
    ensures Next([Text([0x61]), Elem([]), Text([0x62])], [0]) == None
    ensures Prev([Text([0x61]), Elem([]), Text([0x62])], [2]) == None
  {
  }
}
