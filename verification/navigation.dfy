/**
 Caret movement for the four arrow keys of the vertical-writing editor.

 Up and Down walk through the code units of the caret's node and, at its
 edge, hop to the neighbouring node. Left and Right hop to a neighbouring node
 and keep the column where the target is long enough: because text runs in
 columns from right to left, Left goes to the NEXT node and Right to the
 PREVIOUS one. Without a neighbour every move leaves the caret where it is.
 */
module Navigation {
  import opened Wrappers
  import opened Tree
  import opened Neighbours

  /** A caret: the node it sits in and the offset inside that node (`CursorPos`). */
  datatype Caret = Caret(path: Path, offset: nat)

  datatype Direction = Up | Down | Left | Right

  /** The caret refers to a node of the document. */
  predicate ValidCaret(doc: Doc, c: Caret) {
    ValidPath(doc, c.path)
  }

  /** The length of the node at `p`, as the editor reads it. */
  function Len(doc: Doc, p: Path): nat
    requires ValidPath(doc, p)
  {
    Length(NodeAt(doc, p))
  }

  /** The caret's offset lies in `[0, length of its node]`. */
  predicate InBounds(doc: Doc, c: Caret) {
    ValidCaret(doc, c) && c.offset <= Len(doc, c.path)
  }

  function Min(a: nat, b: nat): nat {
    if a <= b then a else b
  }

  /** `upKeyDown`: one character back, or to the end of the previous node at the node's start. */
  function StepUp(doc: Doc, c: Caret): (r: Caret)
    requires ValidCaret(doc, c)
    ensures ValidCaret(doc, r)
    ensures c.offset > 0 ==> r == Caret(c.path, c.offset - 1)
    ensures c.offset == 0 && Prev(doc, c.path).None? ==> r == c
    ensures c.offset == 0 && Prev(doc, c.path).Some? ==>
              r.path == Prev(doc, c.path).value && r.offset == Len(doc, r.path)
    ensures InBounds(doc, c) ==> InBounds(doc, r)
    ensures r.path == c.path || Before(r.path, c.path)
  {
    if c.offset > 0 then Caret(c.path, c.offset - 1)
    else match Prev(doc, c.path)
      case None => c
      // `previous.nodeValue?.length || pos.offset`: a zero length is falsy and
      // falls back to the old offset, which is 0 on this branch
      case Some(q) => Caret(q, if Len(doc, q) != 0 then Len(doc, q) else c.offset)
  }

  /** `downKeyDown`: one character forward, or to the start of the next node past the node's end. */
  function StepDown(doc: Doc, c: Caret): (r: Caret)
    requires ValidCaret(doc, c)
    ensures ValidCaret(doc, r)
    ensures c.offset + 1 <= Len(doc, c.path) ==> r == Caret(c.path, c.offset + 1)
    ensures c.offset + 1 > Len(doc, c.path) && Next(doc, c.path).None? ==> r == c
    ensures c.offset + 1 > Len(doc, c.path) && Next(doc, c.path).Some? ==>
              r == Caret(Next(doc, c.path).value, 0)
    ensures InBounds(doc, c) ==> InBounds(doc, r)
    ensures r.path == c.path || Before(c.path, r.path)
  {
    if c.offset + 1 <= Len(doc, c.path) then Caret(c.path, c.offset + 1)
    else match Next(doc, c.path)
      case None => c
      case Some(q) => Caret(q, 0)
  }

  /** The offset kept when hopping to the node at `q`: the column, clamped to the node's end. */
  function Column(doc: Doc, q: Path, offset: nat): (k: nat)
    requires ValidPath(doc, q)
    ensures k <= Len(doc, q) && k <= offset
    ensures k == offset || k == Len(doc, q)
  {
    if Len(doc, q) < offset then Len(doc, q) else offset
  }

  /** `leftKeyDown`: to the NEXT node, keeping the column as far as that node allows. */
  function StepLeft(doc: Doc, c: Caret): (r: Caret)
    requires ValidCaret(doc, c)
    ensures ValidCaret(doc, r)
    ensures Next(doc, c.path).None? ==> r == c
    ensures Next(doc, c.path).Some? ==>
              r.path == Next(doc, c.path).value && r.offset == Min(c.offset, Len(doc, r.path))
    ensures InBounds(doc, c) ==> InBounds(doc, r)
    ensures r.path == c.path || Before(c.path, r.path)
  {
    match Next(doc, c.path)
    case None => c
    case Some(q) => Caret(q, Column(doc, q, c.offset))
  }

  /** `rightKeyDown`: to the PREVIOUS node, keeping the column as far as that node allows. */
  function StepRight(doc: Doc, c: Caret): (r: Caret)
    requires ValidCaret(doc, c)
    ensures ValidCaret(doc, r)
    ensures Prev(doc, c.path).None? ==> r == c
    ensures Prev(doc, c.path).Some? ==>
              r.path == Prev(doc, c.path).value && r.offset == Min(c.offset, Len(doc, r.path))
    ensures InBounds(doc, c) ==> InBounds(doc, r)
    ensures r.path == c.path || Before(r.path, c.path)
  {
    match Prev(doc, c.path)
    case None => c
    case Some(q) => Caret(q, Column(doc, q, c.offset))
  }

  /** The caret after one press of the arrow key for `d`. */
  function Move(doc: Doc, d: Direction, c: Caret): (r: Caret)
    requires ValidCaret(doc, c)
    ensures ValidCaret(doc, r)
  {
    match d
    case Up => StepUp(doc, c)
    case Down => StepDown(doc, c)
    case Left => StepLeft(doc, c)
    case Right => StepRight(doc, c)
  }

  /** The caret after `n` presses of the arrow key for `d`. */
  function Repeat(doc: Doc, d: Direction, c: Caret, n: nat): (r: Caret)
    requires ValidCaret(doc, c)
    ensures ValidCaret(doc, r)
    ensures InBounds(doc, c) ==> InBounds(doc, r)
    decreases n
  {
    if n == 0 then c else Move(doc, d, Repeat(doc, d, c, n - 1))
  }

  /** Every arrow key keeps a caret inside the bounds of the node it lands in. */
  lemma MoveKeepsBounds(doc: Doc, d: Direction, c: Caret)
    requires InBounds(doc, c)
    ensures InBounds(doc, Move(doc, d, c))
  {
  }

  /** Down and Left move forwards in document order or stay put; Up and Right move backwards or stay put. */
  lemma MoveFollowsDocumentOrder(doc: Doc, d: Direction, c: Caret)
    requires ValidCaret(doc, c)
    ensures var r := Move(doc, d, c);
            if d == Down || d == Left then r.path == c.path || Before(c.path, r.path)
            else r.path == c.path || Before(r.path, c.path)
  {
  }

  /** Inside one node, Up undoes Down everywhere before the node's end. */
  lemma UpUndoesDown(doc: Doc, c: Caret)
    requires ValidCaret(doc, c) && c.offset < Len(doc, c.path)
    ensures StepUp(doc, StepDown(doc, c)) == c
  {
  }

  /** Inside one node, Down undoes Up everywhere after the node's start. */
  lemma DownUndoesUp(doc: Doc, c: Caret)
    requires InBounds(doc, c) && c.offset > 0
    ensures StepDown(doc, StepUp(doc, c)) == c
  {
  }

  /** Pressing Down `k` times from the start of a node walks `k` characters through it. */
  lemma {:induction false} DownWalksThroughNode(doc: Doc, p: Path, k: nat)
    requires ValidPath(doc, p) && k <= Len(doc, p)
    ensures Repeat(doc, Down, Caret(p, 0), k) == Caret(p, k)
    decreases k
  {
    if k > 0 {
      DownWalksThroughNode(doc, p, k - 1);
    }
  }

  /**
   One press more than the node's length leaves the node: onto the start of
   the next node, or nowhere at the end of the document.
   */
  lemma DownLeavesNode(doc: Doc, p: Path)
    requires ValidPath(doc, p)
    ensures Repeat(doc, Down, Caret(p, 0), Len(doc, p) + 1) ==
            (match Next(doc, p)
             case None => Caret(p, Len(doc, p))
             case Some(q) => Caret(q, 0))
  {
    DownWalksThroughNode(doc, p, Len(doc, p));
  }

  /** Pressing Up `k` times from the end of a node walks `k` characters back through it. */
  lemma {:induction false} UpWalksThroughNode(doc: Doc, p: Path, k: nat)
    requires ValidPath(doc, p) && k <= Len(doc, p)
    ensures Repeat(doc, Up, Caret(p, Len(doc, p)), k) == Caret(p, Len(doc, p) - k)
    decreases k
  {
    if k > 0 {
      UpWalksThroughNode(doc, p, k - 1);
    }
  }

  /**
   For a caret at depth one or two that has a next node, Right undoes Left
   exactly when the caret sits in the first node of its top-level child (the
   child itself, or a wrapper's first child) and the next node can hold its
   column.
   */
  lemma RightUndoesLeft(doc: Doc, c: Caret)
    requires InBounds(doc, c) && |c.path| <= 2 && Next(doc, c.path).Some?
    ensures StepRight(doc, StepLeft(doc, c)) == c <==>
            Enter(doc, [c.path[0]]) == Some(c.path) && c.offset <= Len(doc, Next(doc, c.path).value)
  {
    PrevAfterNext(doc, c.path);
  }

  /**
   For a caret at depth one or two that has a previous node, Left undoes Right
   exactly when the caret sits in the first node of its top-level child and
   the previous node can hold its column.
   */
  lemma LeftUndoesRight(doc: Doc, c: Caret)
    requires InBounds(doc, c) && |c.path| <= 2 && Prev(doc, c.path).Some?
    ensures StepLeft(doc, StepRight(doc, c)) == c <==>
            Enter(doc, [c.path[0]]) == Some(c.path) && c.offset <= Len(doc, Prev(doc, c.path).value)
  {
    NextAfterPrev(doc, c.path);
  }

  /**
   The first-node condition is needed: from the second child of a wrapper,
   Left then Right returns to the wrapper's first child.
   */
  lemma RightAfterLeftFromSecondChild()
    ensures StepLeft(WrappedPair, Caret([0, 1], 1)) == Caret([1], 1)
    ensures StepRight(WrappedPair, Caret([1], 1)) == Caret([0, 0], 1)
  {
    NextByTopIndex(WrappedPair, [0, 1]);
    assert Lookup(WrappedPair, [1]) == Some(Text([0x78]));
    assert Len(WrappedPair, [1]) == 1;
    PrevEntersFirstChild();
    assert Lookup(WrappedPair, [0, 0]) == Some(Text([0x61, 0x62]));
  }

  /**
   The column condition is needed: from the end of "abc", Left passes through
   the one-unit node "d" and Right comes back at offset 1.
   */
  lemma RightAfterLeftThroughShortNode()
    ensures StepLeft([Text([0x61, 0x62, 0x63]), Text([0x64])], Caret([0], 3)) == Caret([1], 1)
    ensures StepRight([Text([0x61, 0x62, 0x63]), Text([0x64])], Caret([1], 1)) == Caret([0], 1)
  {
    var doc := [Text([0x61, 0x62, 0x63]), Text([0x64])];
    NextByTopIndex(doc, [0]);
    PrevByTopIndex(doc, [1]);
  }

  /**
   Offsets count UTF-16 code units: a text node holding the single character
   U+20BB7, stored as a surrogate pair, takes two presses of Down to cross.
   */
  lemma SurrogatePairTakesTwoSteps()
    ensures Len([Text([0xD842, 0xDFB7])], [0]) == 2
    ensures Repeat([Text([0xD842, 0xDFB7])], Down, Caret([0], 0), 2) == Caret([0], 2)
  {
    DownWalksThroughNode([Text([0xD842, 0xDFB7])], [0], 2);
  }

  /**
   The in-bounds condition is needed: a caret at offset 1 on an inner element
   (whose length the editor reads as 0) sits in the entry node of its top-level
   child, and the next node "a" can hold column 1, yet Right clamps it to 0 on
   the way back.
   */
  lemma RightAfterLeftOutOfBounds()
    ensures StepLeft([Elem([Elem([Text([0x78])])]), Text([0x61])], Caret([0, 0], 1)) == Caret([1], 1)
    ensures StepRight([Elem([Elem([Text([0x78])])]), Text([0x61])], Caret([1], 1)) == Caret([0, 0], 0)
  {
    var doc := [Elem([Elem([Text([0x78])])]), Text([0x61])];
    NextByTopIndex(doc, [0, 0]);
    assert Lookup(doc, [1]) == Some(Text([0x61]));
    PrevByTopIndex(doc, [1]);
    assert Lookup(doc, [0]) == Some(Elem([Elem([Text([0x78])])]));
    assert [0] + [0] == [0, 0];
    assert Lookup(doc, [0, 0]) == Some(Elem([Text([0x78])]));
  }
}
