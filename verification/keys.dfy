/**
 Key dispatch of the editing surface (`keydown`, `cursorKeyDown`, `getNextPos`).

 Only the eight arrow-key names below are intercepted; the platform handles
 every other key. The caret `getCursorPos` reports is an input here (`None`
 when it yields null), and the caret the editor moves to is an output.
 */
module Keys {
  import opened Wrappers
  import opened Tree
  import opened Navigation

  const UpKeys: seq<string> := ["ArrowUp", "Up"]
  const DownKeys: seq<string> := ["ArrowDown", "Down"]
  const RightKeys: seq<string> := ["ArrowRight", "Right"]
  const LeftKeys: seq<string> := ["ArrowLeft", "Left"]
  const VerticalKeys: seq<string> := UpKeys + DownKeys
  const HorizontalKeys: seq<string> := RightKeys + LeftKeys
  const CursorKeys: seq<string> := VerticalKeys + HorizontalKeys

  /** The four key lists name eight distinct keys, so the order the lists are consulted in does not matter. */
  lemma KeyListsDisjoint()
    ensures |CursorKeys| == 8
    ensures forall i, j :: 0 <= i < j < |CursorKeys| ==> CursorKeys[i] != CursorKeys[j]
  {
  }

  /** The direction a key name stands for, if it is one of the arrow keys. */
  function DirectionOf(key: string): (r: Option<Direction>)
    ensures r.Some? <==> key in CursorKeys
    ensures r == Some(Up) <==> key in UpKeys
    ensures r == Some(Down) <==> key in DownKeys
    ensures r == Some(Left) <==> key in LeftKeys
    ensures r == Some(Right) <==> key in RightKeys
  {
    if key in UpKeys then Some(Up)
    else if key in DownKeys then Some(Down)
    else if key in LeftKeys then Some(Left)
    else if key in RightKeys then Some(Right)
    else None
  }

  /**
   `getNextPos`: the caret an arrow key moves to, and `None` (the source's
   `false`) for any other key.
   */
  function NextPos(doc: Doc, key: string, c: Caret): (r: Option<Caret>)
    requires ValidCaret(doc, c)
    ensures r.None? <==> key !in CursorKeys
    ensures r.Some? ==> ValidCaret(doc, r.value)
    ensures r.Some? && InBounds(doc, c) ==> InBounds(doc, r.value)
    ensures key in UpKeys ==> r == Some(StepUp(doc, c))
    ensures key in DownKeys ==> r == Some(StepDown(doc, c))
    ensures key in LeftKeys ==> r == Some(StepLeft(doc, c))
    ensures key in RightKeys ==> r == Some(StepRight(doc, c))
  {
    match DirectionOf(key)
    case None => None
    case Some(d) => Some(Move(doc, d, c))
  }

  /**
   `cursorKeyDown`: the caret the editor moves the selection to. `Some` means
   the key was handled; `None` means `getCursorPos` yielded no caret or the key
   is not an arrow key, and nothing moves.
   */
  function CursorKeyDown(doc: Doc, key: string, sel: Option<Caret>): (moved: Option<Caret>)
    requires sel.Some? ==> ValidCaret(doc, sel.value)
    ensures moved.Some? <==> sel.Some? && key in CursorKeys
    ensures moved.Some? ==> moved == NextPos(doc, key, sel.value)
  {
    match sel
    case None => None
    case Some(c) => NextPos(doc, key, c)
  }

  /** What one keydown event does: whether the platform's default is suppressed, and where the caret goes. */
  datatype KeyEffect = KeyEffect(preventDefault: bool, moveTo: Option<Caret>)

  /**
   `keydown`: an arrow key with a caret is handled by the editor, which moves
   the caret itself and suppresses the platform's own movement; every other
   event is left to the platform untouched.
   */
  function KeyDown(doc: Doc, key: string, sel: Option<Caret>): (e: KeyEffect)
    requires sel.Some? ==> ValidCaret(doc, sel.value)
    ensures e.preventDefault <==> key in CursorKeys && sel.Some?
    ensures e.preventDefault <==> e.moveTo.Some?
    ensures e.moveTo.Some? ==> e.moveTo.value == Move(doc, DirectionOf(key).value, sel.value)
    ensures e.moveTo.Some? && InBounds(doc, sel.value) ==> InBounds(doc, e.moveTo.value)
  {
    if key in CursorKeys then
      var moved := CursorKeyDown(doc, key, sel);
      KeyEffect(moved.Some?, moved)
    else
      KeyEffect(false, None)
  }
}
