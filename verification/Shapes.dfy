/** Trees of nodes as a caller edits them: a shape has all that is linked below a node, even below a
    leaf, whose value leaves that out. Places are named by paths of child positions. */
module Shapes {
  import opened Characters
  import opened XmlTree
  import opened Copying
  import opened Dom

  datatype Shape = Shape(data: Label, kids: seq<Shape>)

  type Path = seq<nat>

  /** What a shape means as a tree. */
  function TreeOf(s: Shape): Tree
    decreases s
  {
    match s.data
    case DocumentLabel(name) => Document(name, TreesOf(s.kids))
    case ElementLabel(name, attributes) => Element(name, attributes, TreesOf(s.kids))
    case LeafLabel(leaf) => leaf
  }

  function TreesOf(kids: seq<Shape>): (r: seq<Tree>)
    ensures |r| == |kids|
    decreases kids
  {
    if kids == [] then [] else [TreeOf(kids[0])] + TreesOf(kids[1..])
  }

  /** The shape of a tree below whose leaves nothing hangs. */
  function ShapeOfTree(t: Tree): Shape
    decreases t
  {
    match t
    case Document(name, children) => Shape(DocumentLabel(name), ShapesOfTrees(children))
    case Element(name, attributes, children) => Shape(ElementLabel(name, attributes), ShapesOfTrees(children))
    case _ => Shape(LeafLabel(t), [])
  }

  function ShapesOfTrees(ts: seq<Tree>): (r: seq<Shape>)
    ensures |r| == |ts|
    decreases ts
  {
    if ts == [] then [] else [ShapeOfTree(ts[0])] + ShapesOfTrees(ts[1..])
  }

  /** The subtree a path leads to. */
  function ShapeAt(s: Shape, path: Path): Option<Shape>
    decreases path
  {
    if path == [] then Some(s)
    else if path[0] < |s.kids| then ShapeAt(s.kids[path[0]], path[1..])
    else None
  }

  /** The same tree with other children at the end of the path. */
  function WithKids(s: Shape, path: Path, kids: seq<Shape>): Shape
    decreases path
  {
    if path == [] then Shape(s.data, kids)
    else if path[0] < |s.kids| then
      Shape(s.data, s.kids[path[0] := WithKids(s.kids[path[0]], path[1..], kids)])
    else s
  }

  // ---- Edits ----

  /** A node to be cloned: one of the tree itself, or one of another. */
  datatype Source = Inside(path: Path) | Outside(node: TiXmlNode)

  /** One call by a client that names nodes of the tree by their paths; a path that leads nowhere is a
      null pointer. */
  datatype DomEdit =
    | LinkEnd(at: Path, node: TiXmlNode)
    | InsertBefore(at: Path, sibling: Path, source: Source)
    | InsertAfter(at: Path, sibling: Path, source: Source)
    | Remove(at: Path, child: Path)
    | Replace(at: Path, child: Path, source: Source)

  function KidsAt(s: Shape, at: Path): seq<Shape>
    requires ShapeAt(s, at).Some?
  {
    ShapeAt(s, at).value.kids
  }

  /** Which child of the node at one path the other path leads to, if it is one. */
  function PlaceBelow(s: Shape, at: Path, child: Path): (k: Option<nat>)
    ensures k.Some? ==> ShapeAt(s, at).Some? && k.value < |KidsAt(s, at)|
  {
    if |child| == |at| + 1 && child[..|at|] == at && ShapeAt(s, child).Some? then
      assert child == at + [child[|at|]];
      ShapeAtChild(s, at, child[|at|]);
      Some(child[|at|])
    else None
  }

  /** The tree to be cloned; `given` is the one from outside. */
  function Taken(s: Shape, source: Source, given: Shape): Option<Shape> {
    match source
    case Inside(path) => ShapeAt(s, path)
    case Outside(_) => Some(given)
  }

  /** What `Clone` makes of a tree. */
  function Cloned(s: Shape): Shape {
    ShapeOfTree(CopyTree(TreeOf(s)))
  }

  /** A clone goes in so far behind the child, unless it is one of a document. */
  function WithClone(s: Shape, at: Path, child: Path, behind: nat, taken: Option<Shape>): Shape
    requires behind <= 1
  {
    var k := PlaceBelow(s, at, child);
    if k.None? || taken.None? || taken.value.data.DocumentLabel? then s
    else
      var kids, i := KidsAt(s, at), k.value + behind;
      WithKids(s, at, kids[..i] + [Cloned(taken.value)] + kids[i..])
  }

  function WithoutChild(s: Shape, at: Path, child: Path): Shape {
    var k := PlaceBelow(s, at, child);
    if k.None? then s
    else
      var kids := KidsAt(s, at);
      WithKids(s, at, kids[..k.value] + kids[k.value + 1..])
  }

  function WithExchange(s: Shape, at: Path, child: Path, taken: Option<Shape>): Shape {
    var k := PlaceBelow(s, at, child);
    if k.None? || taken.None? then s else WithKids(s, at, KidsAt(s, at)[k.value := Cloned(taken.value)])
  }

  function WithLast(s: Shape, at: Path, given: Shape): Shape {
    if ShapeAt(s, at).None? || given.data.DocumentLabel? then s else WithKids(s, at, KidsAt(s, at) + [given])
  }

  /** One edit of a tree, which is left alone where a call is refused or has no object. */
  function Edited(s: Shape, edit: DomEdit, given: Shape): Shape {
    match edit
    case LinkEnd(at, _) => WithLast(s, at, given)
    case InsertBefore(at, sibling, source) => WithClone(s, at, sibling, 0, Taken(s, source, given))
    case InsertAfter(at, sibling, source) => WithClone(s, at, sibling, 1, Taken(s, source, given))
    case Remove(at, child) => WithoutChild(s, at, child)
    case Replace(at, child, source) => WithExchange(s, at, child, Taken(s, source, given))
  }

  function EditedAll(s: Shape, edits: seq<DomEdit>, given: seq<Shape>): Shape
    requires |given| == |edits|
    decreases |edits|
  {
    if edits == [] then s else EditedAll(Edited(s, edits[0], given[0]), edits[1..], given[1..])
  }

  // ---- What shapes and paths mean ----

  lemma {:induction false} TreeOfShape(t: Tree)
    ensures TreeOf(ShapeOfTree(t)) == t
    decreases t
  {
    if t.Document? || t.Element? {
      TreesOfShapes(t.children);
    }
  }

  lemma {:induction false} TreesOfShapes(ts: seq<Tree>)
    ensures TreesOf(ShapesOfTrees(ts)) == ts
    decreases ts
  {
    if ts != [] {
      TreeOfShape(ts[0]);
      TreesOfShapes(ts[1..]);
      assert ShapesOfTrees(ts)[1..] == ShapesOfTrees(ts[1..]);
    }
  }

  lemma {:induction false} ShapeAtChild(s: Shape, at: Path, k: nat)
    ensures ShapeAt(s, at + [k]) == var node := ShapeAt(s, at);
                                    if node.Some? && k < |node.value.kids| then Some(node.value.kids[k]) else None
    decreases at
  {
    var child := at + [k];
    if at == [] {
      assert child[1..] == [];
    } else {
      assert child[1..] == at[1..] + [k];
      if at[0] < |s.kids| {
        ShapeAtChild(s.kids[at[0]], at[1..], k);
      }
    }
  }

  /** New children at the end of a path are there, and nothing changes elsewhere: neither beside the
      path nor on the way. */
  lemma {:induction false} WithKidsAt(s: Shape, path: Path, kids: seq<Shape>, other: Path)
    requires ShapeAt(s, path).Some?
    ensures ShapeAt(WithKids(s, path, kids), path) == Some(Shape(ShapeAt(s, path).value.data, kids))
    ensures !(path <= other) && !(other <= path) ==> ShapeAt(WithKids(s, path, kids), other) == ShapeAt(s, other)
    ensures other <= path && other != path ==>
              && ShapeAt(s, other).Some? && ShapeAt(WithKids(s, path, kids), other).Some?
              && ShapeAt(WithKids(s, path, kids), other).value.data == ShapeAt(s, other).value.data
              && |ShapeAt(WithKids(s, path, kids), other).value.kids| == |ShapeAt(s, other).value.kids|
    decreases path
  {
    if path != [] && other != [] {
      if path[0] == other[0] {
        WithKidsAt(s.kids[path[0]], path[1..], kids, other[1..]);
        assert path == [path[0]] + path[1..] && other == [other[0]] + other[1..];
      } else {
        WithKidsAt(s.kids[path[0]], path[1..], kids, []);
      }
    } else if path != [] {
      WithKidsAt(s.kids[path[0]], path[1..], kids, []);
    }
  }

  /** What the five edits make of the children at the end of a path: one more at the end, a clone right
      before or right behind the `k`-th, none of it, or a clone in its place. */
  lemma EditsMean(s: Shape, at: Path, k: nat, node: TiXmlNode, x: Shape)
    requires ShapeAt(s, at).Some? && k < |KidsAt(s, at)| && !x.data.DocumentLabel?
    ensures var kids, child, source := KidsAt(s, at), at + [k], Outside(node);
            && Edited(s, LinkEnd(at, node), x) == WithKids(s, at, kids + [x])
            && Edited(s, InsertBefore(at, child, source), x) == WithKids(s, at, kids[..k] + [Cloned(x)] + kids[k..])
            && Edited(s, InsertAfter(at, child, source), x) == WithKids(s, at, kids[..k + 1] + [Cloned(x)] + kids[k + 1..])
            && Edited(s, Remove(at, child), x) == WithKids(s, at, kids[..k] + kids[k + 1..])
            && Edited(s, Replace(at, child, source), x) == WithKids(s, at, kids[k := Cloned(x)])
  {
    hide ShapeAt, WithKids, Cloned;
    ShapeAtChild(s, at, k);
    assert (at + [k])[..|at|] == at && (at + [k])[|at|] == k;
    assert PlaceBelow(s, at, at + [k]) == Some(k);
    hide PlaceBelow;
  }
}
