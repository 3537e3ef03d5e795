/**
 The node tree below the editable root (`edit-area`).

 The root's children are text nodes and element wrappers; a wrapper's children
 are again nodes. A node is addressed by the child indices leading to it from
 the root: `[i]` is the root's i-th child, `[i, j]` the j-th child of that
 wrapper, and so on. A path of length one is exactly a node whose parent is the
 root.
 */
module Tree {
  import opened Wrappers

  /** One UTF-16 code unit: DOM strings, and so `nodeValue` and its `length`, are made of these. */
  type CodeUnit = bv16

  /**
   A DOM node of the editing surface: a text node holding its data as UTF-16
   code units, or an element with child nodes.
   */
  datatype Node = Text(data: seq<CodeUnit>) | Elem(kids: seq<Node>)

  /** The children of the editable root. */
  type Doc = seq<Node>

  /** Child indices from the root down to a node. */
  type Path = seq<nat>

  /** The node at path `p` below `nodes`, if there is one. */
  function Lookup(nodes: seq<Node>, p: Path): (r: Option<Node>)
    ensures r.Some? ==> |p| > 0 && p[0] < |nodes|
    ensures |p| == 1 ==> (r.Some? <==> p[0] < |nodes|)
    decreases |p|
  {
    if |p| == 0 || p[0] >= |nodes| then None
    else if |p| == 1 then Some(nodes[p[0]])
    else match nodes[p[0]]
      case Text(_) => None
      case Elem(kids) => Lookup(kids, p[1..])
  }

  predicate ValidPath(doc: Doc, p: Path) {
    Lookup(doc, p).Some?
  }

  function NodeAt(doc: Doc, p: Path): Node
    requires ValidPath(doc, p)
  {
    Lookup(doc, p).value
  }

  /**
   The length the editor reads off a node, `nodeValue?.length || 0`: the
   number of UTF-16 code units of a text node (a character outside the Basic
   Multilingual Plane counts twice), and 0 for an element (whose value is null).
   */
  function Length(n: Node): nat {
    match n
    case Text(data) => |data|
    case Elem(_) => 0
  }

  /** Entering a non-empty element at path `a` reaches its first child at `a + [0]`. */
  lemma {:induction false} LookupFirstChild(nodes: seq<Node>, a: Path, kids: seq<Node>)
    requires Lookup(nodes, a) == Some(Elem(kids)) && |kids| > 0
    ensures Lookup(nodes, a + [0]) == Some(kids[0])
    decreases |a|
  {
    var a' := a + [0];
    assert a'[0] == a[0];
    if |a| == 1 {
      assert a'[1..] == [0];
    } else {
      match nodes[a[0]]
      case Text(_) =>
        assert false;
      case Elem(ks) =>
        assert a'[1..] == a[1..] + [0];
        LookupFirstChild(ks, a[1..], kids);
    }
  }

  /**
   Strict document order on paths: `a` comes before `b` when, at the first
   index where they differ, `a` has the smaller child index.
   */
  predicate Before(a: Path, b: Path)
    decreases |a|
  {
    |a| > 0 && |b| > 0 && (a[0] < b[0] || (a[0] == b[0] && Before(a[1..], b[1..])))
  }

  /** Document order is irreflexive: no path comes before itself. */
  lemma {:induction false} BeforeIrreflexive(a: Path)
    ensures !Before(a, a)
    decreases |a|
  {
    if |a| > 0 {
      BeforeIrreflexive(a[1..]);
    }
  }

  /** Extending either side of an ordered pair keeps the order (the difference lies inside both). */
  lemma {:induction false} BeforeExtend(a: Path, b: Path, t: Path)
    requires Before(a, b)
    ensures Before(a + t, b) && Before(a, b + t)
    decreases |a|
  {
    assert (a + t)[0] == a[0] && (b + t)[0] == b[0];
    if a[0] == b[0] {
      assert (a + t)[1..] == a[1..] + t;
      assert (b + t)[1..] == b[1..] + t;
      BeforeExtend(a[1..], b[1..], t);
    }
  }

  /** `a` with its last index replaced by `k`: the sibling of `a` at position `k`. */
  function Sibling(a: Path, k: nat): (s: Path)
    requires |a| > 0
    ensures |s| == |a| && s[|s| - 1] == k
    ensures forall i :: 0 <= i < |a| - 1 ==> s[i] == a[i]
  {
    a[..|a| - 1] + [k]
  }

  /**
   Every node whose path extends `a` lies before the later siblings of `a`
   and after the earlier ones.
   */
  lemma {:induction false} BeforeSibling(a: Path, p: Path, k: nat)
    requires |a| > 0 && a <= p
    ensures a[|a| - 1] < k ==> Before(p, Sibling(a, k))
    ensures k < a[|a| - 1] ==> Before(Sibling(a, k), p)
    decreases |a|
  {
    var s := Sibling(a, k);
    assert p[0] == a[0];
    if |a| > 1 {
      assert s[0] == a[0];
      assert s[1..] == Sibling(a[1..], k);
      assert a[1..] <= p[1..];
      BeforeSibling(a[1..], p[1..], k);
    }
  }
}
