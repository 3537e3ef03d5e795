# Caret navigation of the tatedit vertical editor, in Dafny

tatedit is a vertical-writing (tategaki) rich-text editor. Its editing surface,
the `contentEditable` element `edit-area`, overrides the browser's arrow keys and
moves the caret itself. This project models that caret navigation, taken from
`src/components/Editor.tsx`, as pure functions over an immutable node tree, and
proves properties of it.

- **Tree** (`tree.dfy`): the node tree below `edit-area`. A node is a text node or an
  element with child nodes. A node is addressed by its path of child indices from the
  root, and a path of length one is a node whose parent is the root. Also defines the
  length the editor reads off a node (`nodeValue?.length || 0`: the number of UTF-16
  code units of a text node, 0 for an element) and document order on paths. Text data
  is stored as UTF-16 code units, so offsets count exactly what the browser counts.
- **Neighbours** (`neighbours.dfy`): `getPreviousElement` / `getNextElement`. A node
  whose parent is the root uses its own sibling. Any other node uses its parent's
  sibling. An element sibling is entered at its first child in both directions, and an
  element without children gives no neighbour.
- **Navigation** (`navigation.dfy`): `upKeyDown`, `downKeyDown`, `leftKeyDown` and
  `rightKeyDown` as `StepUp`, `StepDown`, `StepLeft` and `StepRight` on a caret
  (`CursorPos`: a node and an offset). Text runs in columns, so Up and Down move through
  the UTF-16 code units of a node. Left goes to the NEXT node and Right to the PREVIOUS one.
- **Keys** (`keys.dfy`): the eight accepted key names, `getNextPos`, `cursorKeyDown`
  and `keydown`. The caret `getCursorPos` reports is an input (`None` when it yields
  null). The caret the editor moves to is an output.

The code has three quirks, and the model keeps them as written:
- The previous neighbour enters an element at its FIRST child, not its last.
- A node inside a wrapper never reaches the other children of that wrapper.
- An empty element as sibling stops the lookup.

Because of these quirks, Right undoes Left only under conditions. For a caret at depth
one or two that is in bounds (offset at most its own node's length, so 0 on an element)
and has a next (for Left then Right) or previous (for Right then Left) node, the caret
must sit in the entry node of its top-level child, and its column must fit in
the node it passes through. `RightUndoesLeft` and `LeftUndoesRight` prove that, in that
scope, the round trip holds exactly when both conditions hold. Deeper carets are outside
these two lemmas, and so is an element caret whose offset counts child nodes past the
element's length of 0: `RightAfterLeftOutOfBounds` shows such a caret failing the round
trip although both conditions hold. `RightAfterLeftFromSecondChild` shows the round trip
failing without the first condition, and `RightAfterLeftThroughShortNode` without the
second.

## Model

| member | source | states |
|---|---|---|
| Tree.LookupFirstChild | src/components/Editor.tsx:208 | `childNodes[0]` of a non-empty element at path `a` is the node at path `a + [0]` |
| Neighbours.Enter | src/components/Editor.tsx:207-210 | a text sibling is itself the neighbour; an element sibling gives its first child, or no neighbour when it has none; a missing sibling gives none |
| Neighbours.Next | src/components/Editor.tsx:214-223 | the next neighbour is a node of the document strictly after the start node in document order |
| Neighbours.Prev | src/components/Editor.tsx:202-211 | the previous neighbour is a node of the document strictly before the start node in document order |
| Neighbours.NeighbourIsAnotherNode | src/components/Editor.tsx:202-223 | neither lookup returns the node it started from |
| Neighbours.NextByTopIndex | src/components/Editor.tsx:214-223 | at depth one or two, the next neighbour is the entry of the root's following child, whether the node is that child or inside it; none after the last child |
| Neighbours.PrevByTopIndex | src/components/Editor.tsx:202-211 | at depth one or two, the previous neighbour is the entry of the root's preceding child; none before the first child |
| Neighbours.SameWrapperSameNeighbours | src/components/Editor.tsx:203-206 | all children of one wrapper have the same neighbours, so later and earlier siblings inside the wrapper are skipped |
| Neighbours.PrevAfterNext | src/components/Editor.tsx:202-223 | at depth one or two, when the next lookup gives a node, next then previous returns to the entry of the start node's top-level child, which is its first child for a wrapper |
| Neighbours.NextAfterPrev | src/components/Editor.tsx:202-223 | at depth one or two, when the previous lookup gives a node, previous then next returns to the entry of the start node's top-level child |
| Neighbours.PrevEntersFirstChild | src/components/Editor.tsx:207-208 | stepping back into a two-child wrapper lands on its first child |
| Neighbours.NextSkipsWrapperSiblings | src/components/Editor.tsx:216-218 | from a wrapper's first child the next neighbour is past the wrapper, skipping its second child |
| Neighbours.EmptyWrapperHasNoEntry | src/components/Editor.tsx:219-222 | an empty wrapper between two text nodes gives no neighbour in either direction |
| Navigation.StepUp | src/components/Editor.tsx:108-125 | offset > 0 moves back one in the same node; at offset 0 the caret goes to the end of the previous node (0 for an empty or non-text node), or stays with no previous node; bounds kept; never moves forward |
| Navigation.StepDown | src/components/Editor.tsx:131-149 | offset + 1 <= length moves forward one in the same node; otherwise the caret goes to offset 0 of the next node, or stays with no next node; bounds kept; never moves backward |
| Navigation.Column | src/components/Editor.tsx:166-171 | the kept column is the old offset unless the target is shorter, then the target's length |
| Navigation.StepLeft | src/components/Editor.tsx:155-174 | Left goes to the NEXT node with offset min(offset, target length), or stays with no next node; bounds kept |
| Navigation.StepRight | src/components/Editor.tsx:180-199 | Right goes to the PREVIOUS node with offset min(offset, target length), or stays with no previous node; bounds kept |
| Navigation.Move | src/components/Editor.tsx:73-88 | each of the four arrow moves yields a caret on a node of the document |
| Navigation.Repeat | src/components/Editor.tsx:108-199 | any number of arrow presses keeps the caret on a node of the document and within its bounds |
| Navigation.MoveKeepsBounds | src/components/Editor.tsx:108-199 | if 0 <= offset <= length before, the same holds of the new caret's node after every direction |
| Navigation.MoveFollowsDocumentOrder | src/components/Editor.tsx:108-199 | Down and Left stay or move forward in document order; Up and Right stay or move backward |
| Navigation.UpUndoesDown | src/components/Editor.tsx:113-139 | inside a node, Up after Down is the identity whenever offset < length |
| Navigation.DownUndoesUp | src/components/Editor.tsx:113-139 | inside a node, Down after Up is the identity whenever 0 < offset <= length |
| Navigation.DownWalksThroughNode | src/components/Editor.tsx:137-139 | k presses of Down from offset 0 reach offset k of the same node, for k up to its length |
| Navigation.DownLeavesNode | src/components/Editor.tsx:137-148 | length + 1 presses of Down from offset 0 reach offset 0 of the next node, or the node's end when there is no next node |
| Navigation.UpWalksThroughNode | src/components/Editor.tsx:113-115 | k presses of Up from a node's end reach offset length - k of the same node |
| Navigation.RightUndoesLeft | src/components/Editor.tsx:155-199 | for a caret at depth one or two that is in bounds (offset at most its own node's length, so 0 on an element) and has a next node, Right after Left restores it exactly when it is the entry node of its top-level child and the next node can hold its column |
| Navigation.LeftUndoesRight | src/components/Editor.tsx:155-199 | for a caret at depth one or two that is in bounds (offset at most its own node's length, so 0 on an element) and has a previous node, Left after Right restores it exactly when it is the entry node of its top-level child and the previous node can hold its column |
| Navigation.RightAfterLeftFromSecondChild | src/components/Editor.tsx:161-190 | from a wrapper's second child, Left then Right lands on the wrapper's first child |
| Navigation.RightAfterLeftThroughShortNode | src/components/Editor.tsx:166-195 | from offset 3 of "abc", Left clamps to offset 1 of the next node "d", and Right comes back at offset 1, not 3 |
| Navigation.RightAfterLeftOutOfBounds | src/components/Editor.tsx:166-195 | a caret at offset 1 on an inner element (length 0) meets both round-trip conditions, yet Left then Right brings it back at offset 0 |
| Navigation.SurrogatePairTakesTwoSteps | src/components/Editor.tsx:132-139 | a text node holding one character outside the Basic Multilingual Plane has length 2, and two presses of Down reach offset 2 |
| Keys.KeyListsDisjoint | src/components/Editor.tsx:4-10 | the key lists hold eight distinct names |
| Keys.DirectionOf | src/components/Editor.tsx:74-87 | a key maps to a direction exactly when it is one of the eight names, and to the direction of the list it is in |
| Keys.NextPos | src/components/Editor.tsx:73-88 | no position exactly for keys outside the eight names; for each list, the move of that list's direction |
| Keys.CursorKeyDown | src/components/Editor.tsx:34-50 | the key is handled, and the caret moves, exactly when a caret exists and the key is an arrow key |
| Keys.KeyDown | src/components/Editor.tsx:24-29 | the default is prevented exactly when an arrow key meets an existing caret, and then the caret moves in that key's direction |

## Left out

- `getCursorPos` and `moveCursor` (src/components/Editor.tsx:55-68, 94-102) read and write the browser selection. The caret is an explicit input and output value instead.
- The `Editor` component (src/components/Editor.tsx:225-231) renders the editing surface. It is UI only.
- src/App.tsx does page routing only.
- The `'edit-area'` id test is modelled structurally as "the path has length one". This assumes no wrapper element inside the surface carries that id.
- A caret on the root element itself is not modelled, because its parent lies outside the modelled tree. The model also leaves out DOM node kinds other than text and element, such as comments.
- The browser never reports a negative offset, so offsets are `nat`. On Up's offset-0 branch, `length || pos.offset` therefore always equals the target's length.
- Keys.CursorKeyDown: `None` also stands for a selection with no range. There `getRangeAt(0)` (src/components/Editor.tsx:57) throws, so the handler ends with an exception rather than `false`. The outcome is the same: no `preventDefault` and no move. The model does not distinguish the exception.
