/** The nodes of the document object model and the linked lists that join them. The abstract
    state of a set of nodes is a ghost `Forest`, which the methods take and hand on. */
module Dom {
  import opened Characters
  import opened XmlTree
  import opened AttributeMap
  import opened AttributeRing
  import opened Rings
  import opened Printing
  import opened Errors
  import opened Copying
  import Grammar

  datatype NodeType = DocumentNode | ElementNode | CommentNode | UnknownNode | TextNode | DeclarationNode

  class TiXmlNode {
    const kind: NodeType
    var value: string
    // of a text
    var cdata: bool
    // of a declaration
    var version: string
    var encoding: string
    var standalone: string
    // of an element
    const attributeSet: TiXmlAttributeSet

    var parent: TiXmlNode?
    var firstChild: TiXmlNode?
    var lastChild: TiXmlNode?
    var prev: TiXmlNode?
    var next: TiXmlNode?

    constructor (kind: NodeType, value: string)
      ensures this.kind == kind && this.value == value && !cdata && version == encoding == standalone == ""
      ensures fresh(attributeSet) && fresh(attributeSet.sentinel) && attributeSet.IsRing([])
      ensures parent == null && firstChild == null && lastChild == null && prev == null && next == null
    {
      this.kind := kind;
      this.value := value;
      cdata := false;
      version, encoding, standalone := "", "", "";
      attributeSet := new TiXmlAttributeSet();
      parent, firstChild, lastChild, prev, next := null, null, null, null, null;
    }

    /** One attribute set on the target leaves the source's ring alone. */
    method CopyAttributeTo(attrib: TiXmlAttribute, target: TiXmlAttributeSet, ghost ring: seq<TiXmlAttribute>,
                           ghost contents: seq<Attribute>, ghost copied: seq<TiXmlAttribute>, ghost done: seq<Attribute>)
      returns (ghost copied': seq<TiXmlAttribute>)
      requires attributeSet.Holds(ring, contents) && target.Holds(copied, done) && UniqueNames(done)
      requires target.sentinel != attributeSet.sentinel && target.sentinel !in ring
      requires forall i :: 0 <= i < |copied| ==> copied[i] !in ring && copied[i] != attributeSet.sentinel
      modifies target.sentinel, copied
      ensures target.Holds(copied', Put(done, CStr(old(attrib.name)), CStr(old(attrib.value))))
      ensures UniqueNames(Put(done, CStr(old(attrib.name)), CStr(old(attrib.value))))
      ensures forall i :: 0 <= i < |copied'| ==> copied'[i] in copied || fresh(copied'[i])
      ensures attributeSet.Holds(ring, contents)
    {
      hide TiXmlAttributeSet.IsRing, Contents, Put, UniqueNames;
      copied' := target.SetAttribute(CStr(attrib.name), CStr(attrib.value), copied);
    }

    /** One round of the attribute loop: sets the attribute at `k` and goes on to the next. */
    method CopyNext(attrib: TiXmlAttribute, target: TiXmlAttributeSet, ghost ring: seq<TiXmlAttribute>,
                    ghost contents: seq<Attribute>, ghost copied: seq<TiXmlAttribute>, ghost done: seq<Attribute>, ghost k: nat)
      returns (next: TiXmlAttribute?, ghost copied': seq<TiXmlAttribute>, ghost done': seq<Attribute>)
      requires attributeSet.Holds(ring, contents) && target.Holds(copied, done) && UniqueNames(done)
      requires target.sentinel != attributeSet.sentinel && target.sentinel !in ring
      requires forall i :: 0 <= i < |copied| ==> copied[i] !in ring && copied[i] != attributeSet.sentinel
      requires k < |Visible(contents)| && k < |ring| && attrib == ring[k]
      modifies target.sentinel, copied
      ensures attributeSet.Holds(ring, contents) && target.Holds(copied', done') && UniqueNames(done')
      ensures forall i :: 0 <= i < |copied'| ==> copied'[i] in copied || fresh(copied'[i])
      ensures CopyAttributes(done', Visible(contents)[k + 1..]) == CopyAttributes(done, Visible(contents)[k..])
      ensures next == null <==> k + 1 == |Visible(contents)|
      ensures next != null ==> k + 1 < |ring| && next == ring[k + 1]
    {
      hide Visible, CopyAttributes, Put, TiXmlAttributeSet.IsRing, UniqueNames;
      ghost var rest := Visible(contents)[k..];
      assert rest[0] == contents[k] == attrib.Content() && rest[1..] == Visible(contents)[k + 1..];
      CopyAttributesStep(done, rest);
      done' := Put(done, CStr(attrib.name), CStr(attrib.value));
      copied' := CopyAttributeTo(attrib, target, ring, contents, copied, done);
      attributeSet.RingLinks(ring, k);
      VisibleAt(contents, k);
      next := attrib.Next();
    }

    /** The attribute loop of `TiXmlElement::CopyTo`, into an empty set. */
    method CopyAttributesTo(target: TiXmlAttributeSet, ghost ring: seq<TiXmlAttribute>, ghost contents: seq<Attribute>)
      returns (ghost copied: seq<TiXmlAttribute>)
      requires attributeSet.Holds(ring, contents) && target.Holds([], [])
      requires target.sentinel != attributeSet.sentinel && target.sentinel !in ring
      modifies target.sentinel
      ensures target.Holds(copied, CopyAttributes([], Visible(contents)))
      ensures forall i :: 0 <= i < |copied| ==> fresh(copied[i])
    {
      hide Visible, CopyAttributes, TiXmlAttributeSet.IsRing, UniqueNames, Contents;
      copied := [];
      ghost var visible := Visible(contents);
      ghost var k: nat, done := 0, [];
      attributeSet.Ends(ring);
      VisibleEmpty(contents);
      var attrib := attributeSet.First();
      assert visible[0..] == visible;
      EmptyIsUnique();
      hide TiXmlAttributeSet.Holds;
      while attrib != null
        invariant target.Holds(copied, done) && UniqueNames(done)
        invariant forall i :: 0 <= i < |copied| ==> fresh(copied[i])
        invariant attributeSet.Holds(ring, contents)
        invariant k <= |visible| && (attrib == null <==> k == |visible|)
        invariant attrib != null ==> k < |ring| && attrib == ring[k]
        invariant CopyAttributes(done, visible[k..]) == CopyAttributes([], visible)
        decreases |ring| - k
      {
        attrib, copied, done := CopyNext(attrib, target, ring, contents, copied, done, k);
        k := k + 1;
      }
      assert visible[k..] == [];
      CopyAttributesDone(done);
    }

    /** A clone that can be hung into another forest. */
    method CloneFor(ghost f: Forest, ghost g: Forest) returns (c: TiXmlNode, ghost t: Forest)
      requires Intact(f) && this in f.Nodes() && Intact(g)
      ensures fresh(t.Nodes()) && fresh(t.attributes) && Intact(t) && Attachable(g, t, c) && c in t.Nodes() && t.LeavesAreBare()
      ensures Unlinked(c) && c.kind == kind && ValueOf(t, c) == CopyTree(ValueOf(f, this))
      decreases f.entries[this].rank, 4
    {
      hide Intact, IsTree, Attachable, ValueOf, CopyTree, Forest.WellFormed, Links;
      IntactMeans(f);
      c, t := Clone(f);
      IntactMeans(t);
      FreshAttachable(g, t, c);
    }

    /** Appends a clone to this node, unless it is the clone of a document, which is refused. */
    method TakeClone(child: TiXmlNode, ghost f: Forest, ghost g: Forest, ghost t: Forest,
                     ghost data: Label, ghost link: Link, ghost done: seq<Tree>)
      returns (ghost h: Forest)
      requires Filling(f, g, this, data, link, done)
      requires Intact(t) && Attachable(g, t, child) && child in t.Nodes() && child.parent == null && f.Nodes() !! t.Nodes()
      requires t.LeavesAreBare()
      modifies g.Nodes(), child
      ensures h.Nodes() <= g.Nodes() + t.Nodes() && h.attributes <= g.attributes + t.attributes
      ensures t.WellFormed()
      ensures Filling(f, h, this, data, link, done + if child.kind == DocumentNode then [] else [ValueOf(t, child)])
    {
      hide Intact, IsTree, Attachable, ValueOf, ValuesOf, Forest.WellFormed, Links;
      IntactMeans(g);
      IntactMeans(t);
      ChildrenInside(g, this);
      AttachableParts(g, t, child);
      GraftKeeps(g, t, this, child);
      GraftBare(g, t, this, g.Children(this) + [child]);
      assert done + [] == done;
      LinksAt(g.Nodes(), this);
      ghost var l := Links(g.Nodes());
      hide Filling, Graft, Kept, SameOutside, LinkOf;
      var linked;
      linked, h := LinkEndChild(child, null, g, t);
      RootKept(l, g, Links(h.Nodes()), h, this);
      LinksAt(h.Nodes(), this);
      FillingFrom(f, h, this, data, link, l[this], done + if child.kind == DocumentNode then [] else [ValueOf(t, child)]);
    }

    /** Clones one node of `f` and appends it to the children of `target`. */
    method CopyChildTo(node: TiXmlNode, target: TiXmlNode, ghost f: Forest, ghost g: Forest,
                       ghost data: Label, ghost link: Link, ghost done: seq<Tree>)
      returns (ghost h: Forest)
      requires Intact(f) && this in f.Nodes() && node in f.Children(this)
      requires Filling(f, g, target, data, link, done)
      modifies g.Nodes()
      ensures Intact(f) && fresh(h.Nodes() - g.Nodes()) && fresh(h.attributes - g.attributes)
      ensures node in f.Nodes()
      ensures Filling(f, h, target, data, link, done + if node.kind == DocumentNode then [] else [CopyTree(ValueOf(f, node))])
      decreases f.entries[this].rank, 0
    {
      hide Intact, Filling, Attachable, ValueOf, CopyTree, Forest.WellFormed;
      ChildBelow(f, this, node);
      IntactMeans(f);
      FillingApart(f, g, target, data, link, done);
      var child;
      ghost var t;
      child, t := node.CloneFor(f, g);
      h := target.TakeClone(child, f, g, t, data, link, done);
    }

    /** The child loop of `CopyTo`: clones every child of this node onto `target`. */
    method CopyChildrenTo(target: TiXmlNode, ghost f: Forest, ghost g: Forest) returns (ghost h: Forest)
      requires Intact(f) && this in f.Nodes()
      requires IsCopyTarget(f, g, target) && g.Children(target) == []
      modifies g.Nodes()
      ensures Intact(f) && IsCopyTarget(f, h, target)
      ensures fresh(h.Nodes() - g.Nodes()) && fresh(h.attributes - g.attributes)
      ensures h.entries[target].data == g.entries[target].data && SameOutside(LinkOf(target), old(LinkOf(target)))
      ensures ValuesOf(h, target, 0) == CopyTrees(ValuesOf(f, this, 0))
      decreases f.entries[this].rank, 1
    {
      hide Linked, Shown, IsTree, ValueOf, ValuesOf, CopyTree, CopyTrees, Forest.WellFormed, Forest.RingsApart, Links, Filling;
      h := g;
      ghost var kids, values, k: nat := f.Children(this), ValuesOf(f, this, 0), 0;
      ghost var data, link := g.entries[target].data, LinkOf(target);
      ChainAt(f, this, 0);
      NothingCopied();
      FillingStarts(f, g, target);
      var node := firstChild;
      while node != null
        invariant k <= |kids| && node == if k < |kids| then kids[k] else null
        invariant Intact(f) && Filling(f, h, target, data, link, CopyTrees(values[..k]))
        invariant fresh(h.Nodes() - g.Nodes()) && fresh(h.attributes - g.attributes)
        decreases |kids| - k
      {
        ValuesAt(f, this, 0, k);
        assert values[..k + 1] == values[..k] + [values[k]];
        CopyTreesAppend(values[..k], values[k]);
        DocumentValue(f, node);
        h := CopyChildTo(node, target, f, h, data, link, CopyTrees(values[..k]));
        ChainAt(f, this, k);
        node := node.next;
        k := k + 1;
      }
      assert values[..k] == values;
      FillingMeans(f, h, target, data, link, CopyTrees(values));
    }

    /** A new node with the fields of this one, as far as its kind has them. */
    method NewLeaf() returns (c: TiXmlNode)
      ensures fresh(c) && fresh(c.attributeSet.sentinel) && c.attributeSet.IsRing([])
      ensures Unlinked(c) && c.firstChild == null && c.lastChild == null && c.kind == kind
      ensures c.value == CStr(value) && (kind == TextNode ==> c.cdata == cdata)
      ensures kind == DeclarationNode ==> c.version == version && c.encoding == encoding && c.standalone == standalone
    {
      hide TiXmlAttributeSet.IsRing;
      c := new TiXmlNode(kind, "");
      c.value := CStr(value);
      if kind == TextNode {
        c.cdata := cdata;
      } else if kind == DeclarationNode {
        c.version := version;
        c.encoding := encoding;
        c.standalone := standalone;
      }
    }

    /** A duplicate of a node that holds no children. */
    method CloneLeaf(ghost leaf: Tree) returns (c: TiXmlNode, ghost g: Forest)
      requires FieldsShow(HeldBy(this), LeafLabel(leaf))
      ensures fresh(g.Nodes()) && fresh(g.attributes) && Intact(g) && c in g.Nodes() && IsTree(Links(g.Nodes()), g, c)
      ensures g.LeavesAreBare()
      ensures Unlinked(c) && c.kind == kind && ValueOf(g, c) == CopyTree(leaf)
    {
      hide Intact, IsTree, Links, TiXmlAttributeSet.IsRing, CopyTree, FieldsShow;
      c := NewLeaf();
      g := Single(c, LeafLabel(CopyTree(leaf)), []);
      LeafCopied(this, c, leaf);
      SingleIntact(c, LeafLabel(CopyTree(leaf)), []);
      SingleValue(c, CopyTree(leaf));
    }

    /** A new element with the name and the attributes of this one. */
    method NewElement(ghost f: Forest) returns (c: TiXmlNode, ghost g: Forest)
      requires Intact(f) && this in f.Nodes() && kind == ElementNode
      ensures fresh(g.Nodes()) && fresh(g.attributes) && IsCopyTarget(f, g, c) && g.Children(c) == []
      ensures Unlinked(c) && c.kind == kind && g.entries[c].data == CopiedLabel(f.entries[this].data)
    {
      hide Linked, Shown, IsTree, CopyAttributes, Visible, Contents, TiXmlAttributeSet.IsRing, Forest.WellFormed,
        Forest.RingsApart, Links;
      ghost var e := f.entries[this];
      EntryShown(f, this);
      c := new TiXmlNode(ElementNode, CStr(value));
      ghost var copied := CopyAttributesTo(c.attributeSet, e.ring, e.data.attributes);
      c.value := CStr(value);
      ghost var data := CopiedLabel(e.data);
      g := Single(c, data, copied);
      SingleIntact(c, data, copied);
    }

    method CloneElement(ghost f: Forest) returns (c: TiXmlNode, ghost g: Forest)
      requires Intact(f) && this in f.Nodes() && kind == ElementNode
      ensures fresh(g.Nodes()) && fresh(g.attributes) && Intact(g) && c in g.Nodes() && IsTree(Links(g.Nodes()), g, c)
      ensures g.LeavesAreBare()
      ensures Unlinked(c) && c.kind == kind && ValueOf(g, c) == CopyTree(ValueOf(f, this))
      decreases f.entries[this].rank, 2
    {
      hide Linked, Shown, IsTree, ValueOf, ValuesOf, CopyTree, CopyTrees, CopiedLabel, Forest.WellFormed, Forest.RingsApart,
        Links;
      c, g := NewElement(f);
      g := CopyChildrenTo(c, f, g);
      CopiedValue(f, this, g, c);
    }

    /** A new document with the name of this one. */
    method NewDocument(ghost f: Forest) returns (c: TiXmlNode, ghost g: Forest)
      requires Intact(f) && this in f.Nodes() && kind == DocumentNode
      ensures fresh(g.Nodes()) && fresh(g.attributes) && IsCopyTarget(f, g, c) && g.Children(c) == []
      ensures Unlinked(c) && c.kind == kind && g.entries[c].data == CopiedLabel(f.entries[this].data)
    {
      hide Linked, Shown, IsTree, Contents, TiXmlAttributeSet.IsRing, Forest.WellFormed, Forest.RingsApart, Links;
      EntryShown(f, this);
      c := new TiXmlNode(DocumentNode, "");
      c.value := CStr(value);
      g := Single(c, DocumentLabel(CStr(value)), []);
      SingleIntact(c, DocumentLabel(CStr(value)), []);
    }

    method CloneDocument(ghost f: Forest) returns (c: TiXmlNode, ghost g: Forest)
      requires Intact(f) && this in f.Nodes() && kind == DocumentNode
      ensures fresh(g.Nodes()) && fresh(g.attributes) && Intact(g) && c in g.Nodes() && IsTree(Links(g.Nodes()), g, c)
      ensures g.LeavesAreBare()
      ensures Unlinked(c) && c.kind == kind && ValueOf(g, c) == CopyTree(ValueOf(f, this))
      decreases f.entries[this].rank, 2
    {
      hide Linked, Shown, IsTree, ValueOf, ValuesOf, CopyTree, CopyTrees, CopiedLabel, Forest.WellFormed, Forest.RingsApart,
        Links;
      c, g := NewDocument(f);
      g := CopyChildrenTo(c, f, g);
      CopiedValue(f, this, g, c);
    }

    /** An exact duplicate, as far as C strings and the attribute walk reach. */
    method Clone(ghost f: Forest) returns (c: TiXmlNode, ghost g: Forest)
      requires Intact(f) && this in f.Nodes()
      ensures fresh(g.Nodes()) && fresh(g.attributes) && Intact(g) && c in g.Nodes() && IsTree(Links(g.Nodes()), g, c)
      ensures g.LeavesAreBare()
      ensures Unlinked(c) && c.kind == kind && ValueOf(g, c) == CopyTree(ValueOf(f, this))
      decreases f.entries[this].rank, 3
    {
      hide Intact, IsTree, CopyTree;
      EntryShown(f, this);
      if kind == ElementNode {
        c, g := CloneElement(f);
      } else if kind == DocumentNode {
        c, g := CloneDocument(f);
      } else {
        c, g := CloneLeaf(f.entries[this].data.leaf);
      }
    }

    // ---- Editing the children ----

    /** The pointer work of `InsertBeforeChild`. */
    method BeforeLinks(node: TiXmlNode, beforeThis: TiXmlNode, ghost nodes: set<TiXmlNode>, ghost kids: seq<TiXmlNode>,
                       ghost k: nat)
      requires this in nodes && node in nodes && this != node && node !in kids && this !in kids && Distinct(kids)
      requires forall i :: 0 <= i < |kids| ==> kids[i] in nodes
      requires k < |kids| && kids[k] == beforeThis && beforeThis.prev == (if k > 0 then kids[k - 1] else null)
      modifies this`firstChild, node`parent, node`prev, node`next, kids`next, kids`prev
      ensures Inserted(old(Links(nodes)), Links(nodes), this, kids, k, node)
    {
      node.parent := this;
      node.next := beforeThis;
      node.prev := beforeThis.prev;
      if beforeThis.prev != null {
        beforeThis.prev.next := node;
      } else {
        firstChild := node;
      }
      beforeThis.prev := node;
    }

    /** The pointer work of `InsertAfterChild`. */
    method AfterLinks(node: TiXmlNode, afterThis: TiXmlNode, ghost nodes: set<TiXmlNode>, ghost kids: seq<TiXmlNode>,
                      ghost k: nat)
      requires this in nodes && node in nodes && this != node && node !in kids && this !in kids && Distinct(kids)
      requires forall i :: 0 <= i < |kids| ==> kids[i] in nodes
      requires k < |kids| && kids[k] == afterThis && afterThis.next == (if k + 1 < |kids| then kids[k + 1] else null)
      modifies this`lastChild, node`parent, node`prev, node`next, kids`next, kids`prev
      ensures Inserted(old(Links(nodes)), Links(nodes), this, kids, k + 1, node)
    {
      node.parent := this;
      node.prev := afterThis;
      node.next := afterThis.next;
      if afterThis.next != null {
        afterThis.next.prev := node;
      } else {
        lastChild := node;
      }
      afterThis.next := node;
    }

    /** The pointer work of `LinkEndChild`. */
    method AppendLinks(node: TiXmlNode, ghost nodes: set<TiXmlNode>, ghost kids: seq<TiXmlNode>)
      requires this in nodes && node in nodes && this != node && node !in kids && this !in kids
      requires forall c :: c in kids ==> c in nodes
      requires firstChild == (if kids == [] then null else kids[0])
      requires lastChild == (if kids == [] then null else kids[|kids| - 1])
      modifies this`firstChild, this`lastChild, node`parent, node`prev, node`next, kids`next
      ensures Inserted(old(Links(nodes)), Links(nodes), this, kids, |kids|, node)
    {
      node.parent := this;
      node.prev := lastChild;
      node.next := null;
      if lastChild != null {
        lastChild.next := node;
      } else {
        firstChild := node;
      }
      lastChild := node;
    }

    /** The links of a tree hung in at the `k`-th place. */
    method Splice(place: Place, node: TiXmlNode, ghost f: Forest, ghost g: Forest, ghost k: nat) returns (ghost h: Forest)
      requires this in f.Nodes() && Attachable(f, g, node)
      requires IsPlace(place, f.Children(this), k)
      modifies this`firstChild, this`lastChild, node`parent, node`prev, node`next
      modifies f.Children(this)`next, f.Children(this)`prev
      ensures h == Graft(f, g, this, InsertAt(f.Children(this), k, node)) && Linked(h)
      ensures Kept(old(Links(f.Nodes())), f, Links(h.Nodes()), h)
    {
      hide Chain, Hung, LinkedBy, Graftable, Attachable, Linked, InsertAt, IsTree, Kept;
      ghost var kids, nodes := f.Children(this), f.Nodes() + g.Nodes();
      ghost var l0, l := Links(f.Nodes()), Links(nodes);
      AttachableGraftable(f, g, this, k, node);
      InsertPlace(l, f, g, this, k, node);
      match place {
        case AtEnd => AppendLinks(node, nodes, kids);
        case Before(sibling) => BeforeLinks(node, sibling, nodes, kids, k);
        case After(sibling) => AfterLinks(node, sibling, nodes, kids, k - 1);
      }
      ghost var m := Links(nodes);
      h := Graft(f, g, this, InsertAt(kids, k, node));
      InsertLinked(l, m, f, g, this, k, node);
      InsertKept(l0, l, m, f, g, this, k, node);
      LinkedNow(h, m);
    }

    /** Nothing but links changes. */
    method SpliceKeepingFields(place: Place, node: TiXmlNode, ghost f: Forest, ghost g: Forest, ghost k: nat) returns (ghost h: Forest)
      requires this in f.Nodes() && Attachable(f, g, node) && FieldsShown(f) && FieldsShown(g)
      requires IsPlace(place, f.Children(this), k)
      modifies this`firstChild, this`lastChild, node`parent, node`prev, node`next
      modifies f.Children(this)`next, f.Children(this)`prev
      ensures h == Graft(f, g, this, InsertAt(f.Children(this), k, node)) && Linked(h) && FieldsShown(f) && FieldsShown(g)
      ensures Kept(old(Links(f.Nodes())), f, Links(h.Nodes()), h)
    {
      hide Attachable, Linked, FieldsShow, Graft, IsTree, InsertAt, Kept, Links;
      h := Splice(place, node, f, g, k);
      assert forall n: TiXmlNode {:trigger HeldBy(n)} :: n in f.Nodes() + g.Nodes() ==> HeldBy(n) == old(HeldBy(n));
    }

    /** Hangs a tree in at the `k`-th place: the matching edit of the child sequence. */
    method Attach(place: Place, node: TiXmlNode, ghost f: Forest, ghost g: Forest, ghost k: nat) returns (ghost h: Forest)
      requires this in f.Nodes() && Attachable(f, g, node) && Intact(f) && Intact(g)
      requires IsPlace(place, f.Children(this), k)
      modifies this`firstChild, this`lastChild, node`parent, node`prev, node`next
      modifies f.Children(this)`next, f.Children(this)`prev
      ensures h == Graft(f, g, this, InsertAt(f.Children(this), k, node)) && Intact(h)
      ensures Kept(old(Links(f.Nodes())), f, Links(h.Nodes()), h)
    {
      hide Attachable, Linked, FieldsShown, AttributesShown, Graft, IsTree, InsertAt, Kept, Forest.WellFormed, Forest.RingsApart;
      GraftRingsApart(f, g, this, InsertAt(f.Children(this), k, node), node);
      h := SpliceKeepingFields(place, node, f, g, k);
      GraftFieldsShown(f, g, this, InsertAt(f.Children(this), k, node));
      LinkedIsSound(h);
      GraftAttributesShown(f, g, this, InsertAt(f.Children(this), k, node));
    }

    /** A document may not stand below another node, which the error state of the document that this
        node belongs to keeps, if it belongs to one. */
    method Refuse(document: ErrorState?)
      modifies document
      ensures document != null ==> document.error == Refused(old(document.error), true)
    {
      Report(document, Grammar.ErrorDocumentTopOnly);
    }

    /** Appends an unlinked node, which the tree then owns. A document is refused. */
    method LinkEndChild(node: TiXmlNode, document: ErrorState?, ghost f: Forest, ghost g: Forest)
      returns (r: TiXmlNode?, ghost h: Forest)
      requires this in f.Nodes() && Attachable(f, g, node) && Intact(f) && Intact(g)
      requires node.parent == null || node.parent == this
      modifies this`firstChild, this`lastChild, node`parent, node`prev, node`next
      modifies f.Children(this)`next, f.Children(this)`prev, document
      ensures document != null ==> document.error == Refused(old(document.error), r == null)
      ensures r == if node.kind == DocumentNode then null else node
      ensures h == if r == null then f else Graft(f, g, this, f.Children(this) + [node])
      ensures Intact(h)
      ensures Kept(old(Links(f.Nodes())), f, Links(h.Nodes()), h)
    {
      hide Linked, Shown, Graft, IsTree, InsertAt, Attachable, Kept, Forest.WellFormed, Forest.RingsApart;
      if node.kind == DocumentNode {
        KeptAsIs(Links(f.Nodes()), f);
        Refuse(document);
        return null, f;
      }
      r := node;
      AppendIsInsert(f.Children(this), node);
      h := Attach(AtEnd, node, f, g, |f.Children(this)|);
    }

    /** Hangs a clone of `addThis` in at the `k`-th place. */
    method AttachClone(place: Place, addThis: TiXmlNode, ghost f: Forest, ghost src: Forest, ghost k: nat)
      returns (r: TiXmlNode, ghost t: Forest, ghost h: Forest)
      requires Intact(f) && this in f.Nodes() && IsPlace(place, f.Children(this), k)
      requires Intact(src) && addThis in src.Nodes()
      modifies f.Nodes()
      ensures Intact(h) && IsCloneOf(t, r, src, addThis) && fresh(t.Nodes()) && fresh(t.attributes)
      ensures h == Graft(f, t, this, InsertAt(f.Children(this), k, r))
      ensures Kept(old(Links(f.Nodes())), f, Links(h.Nodes()), h)
      ensures IsTree(Links(t.Nodes()), t, r)
    {
      hide Linked, Shown, IsTree, Attachable, ValueOf, CopyTree, Kept, Links, Graft, InsertAt, IsPlace, Forest.WellFormed;
      ChildrenInside(f, this);
      r, t := addThis.Clone(src);
      FreshAttachable(f, t, r);
      ghost var l := Links(t.Nodes());
      LinksAll(t.Nodes());
      assert this !in t.Nodes() && k <= |f.Children(this)| by {
        PlaceInside(place, f.Children(this), k);
      }
      h := Attach(place, r, f, t, k);
      assert forall n {:trigger LinkOf(n)} :: n in t.Nodes() && n != r ==> l[n] == LinkOf(n);
      GraftedKids(f, t, this, k, r);
      HungTree(h, l, t, this, k, r);
    }

    /** `InsertBeforeChild`: a clone of `addThis` goes in before one of the children. */
    method InsertBeforeChild(beforeThis: TiXmlNode?, addThis: TiXmlNode, document: ErrorState?, ghost f: Forest, ghost src: Forest)
      returns (r: TiXmlNode?, ghost t: Forest, ghost h: Forest, ghost k: nat)
      requires Intact(f) && this in f.Nodes() && Intact(src) && addThis in src.Nodes()
      requires beforeThis != null && beforeThis.parent == this ==> beforeThis in f.Nodes()
      modifies f.Nodes(), document
      ensures Intact(h)
      ensures document != null ==>
                document.error == Refused(old(document.error), r == null && beforeThis != null && old(beforeThis.parent) == this)
      ensures Kept(old(Links(f.Nodes())), f, Links(h.Nodes()), h)
      ensures r == null <==> beforeThis == null || old(beforeThis.parent) != this || addThis.kind == DocumentNode
      ensures r == null ==> h == f
      ensures r != null ==>
                && k < |f.Children(this)| && f.Children(this)[k] == beforeThis
                && IsCloneOf(t, r, src, addThis) && fresh(t.Nodes()) && fresh(t.attributes) && IsTree(Links(t.Nodes()), t, r)
                && h == Graft(f, t, this, InsertAt(f.Children(this), k, r))
    {
      hide Intact, IndexOfChild, IsCloneOf, Graft, InsertAt, Kept, IsTree;
      KeptAsIs(Links(f.Nodes()), f);
      k, t, h := 0, Forest(map[], {}, 0), f;
      if beforeThis == null || beforeThis.parent != this {
        return null, t, h, k;
      }
      if addThis.kind == DocumentNode {
        Refuse(document);
        return null, t, h, k;
      }
      k := IndexOfChild(f, this, beforeThis);
      r, t, h := AttachClone(Before(beforeThis), addThis, f, src, k);
    }

    /** `InsertAfterChild`: a clone of `addThis` goes in after one of the children. */
    method InsertAfterChild(afterThis: TiXmlNode?, addThis: TiXmlNode, document: ErrorState?, ghost f: Forest, ghost src: Forest)
      returns (r: TiXmlNode?, ghost t: Forest, ghost h: Forest, ghost k: nat)
      requires Intact(f) && this in f.Nodes() && Intact(src) && addThis in src.Nodes()
      requires afterThis != null && afterThis.parent == this ==> afterThis in f.Nodes()
      modifies f.Nodes(), document
      ensures Intact(h)
      ensures document != null ==>
                document.error == Refused(old(document.error), r == null && afterThis != null && old(afterThis.parent) == this)
      ensures Kept(old(Links(f.Nodes())), f, Links(h.Nodes()), h)
      ensures r == null <==> afterThis == null || old(afterThis.parent) != this || addThis.kind == DocumentNode
      ensures r == null ==> h == f
      ensures r != null ==>
                && k < |f.Children(this)| && f.Children(this)[k] == afterThis
                && IsCloneOf(t, r, src, addThis) && fresh(t.Nodes()) && fresh(t.attributes) && IsTree(Links(t.Nodes()), t, r)
                && h == Graft(f, t, this, InsertAt(f.Children(this), k + 1, r))
    {
      hide Intact, IndexOfChild, IsCloneOf, Graft, InsertAt, Kept, IsTree;
      KeptAsIs(Links(f.Nodes()), f);
      k, t, h := 0, Forest(map[], {}, 0), f;
      if afterThis == null || afterThis.parent != this {
        return null, t, h, k;
      }
      if addThis.kind == DocumentNode {
        Refuse(document);
        return null, t, h, k;
      }
      k := IndexOfChild(f, this, afterThis);
      r, t, h := AttachClone(After(afterThis), addThis, f, src, k + 1);
    }

    /** The pointer work of `RemoveChild`. */
    method UnlinkChild(removeThis: TiXmlNode, ghost nodes: set<TiXmlNode>, ghost kids: seq<TiXmlNode>, ghost k: nat)
      requires this in nodes && this !in kids && Distinct(kids)
      requires forall i :: 0 <= i < |kids| ==> kids[i] in nodes
      requires k < |kids| && kids[k] == removeThis
      requires removeThis.prev == (if k > 0 then kids[k - 1] else null)
      requires removeThis.next == (if k + 1 < |kids| then kids[k + 1] else null)
      modifies this`firstChild, this`lastChild, kids`next, kids`prev
      ensures Removed(old(Links(nodes)), Links(nodes), this, kids, k)
    {
      if removeThis.next != null {
        removeThis.next.prev := removeThis.prev;
      } else {
        lastChild := removeThis.prev;
      }
      if removeThis.prev != null {
        removeThis.prev.next := removeThis.next;
      } else {
        firstChild := removeThis.next;
      }
    }

    /** The links without the `k`-th child. */
    method Detach(removeThis: TiXmlNode, ghost f: Forest, ghost k: nat) returns (ghost h: Forest)
      requires Intact(f) && this in f.Nodes() && k < |f.Children(this)| && f.Children(this)[k] == removeThis
      modifies this`firstChild, this`lastChild, f.Children(this)`next, f.Children(this)`prev
      ensures h == Prune(f, this, k) && Linked(h)
      ensures Kept(old(Links(f.Nodes())), f, Links(h.Nodes()), h)
    {
      hide Chain, Hung, LinkedBy, Linked, Shown, Prune, Removed, Kept;
      ghost var kids, l := f.Children(this), Links(f.Nodes());
      LinkedLinks(f);
      ChainAt(f, this, k);
      ChildrenInside(f, this);
      SoundChildren(f, this);
      UnlinkChild(removeThis, f.Nodes(), kids, k);
      h := Prune(f, this, k);
      PruneLinkedNow(f, l, this, k);
      PruneKeptNow(f, l, this, k);
    }

    /** Nothing but links changes. */
    method DetachKeepingFields(removeThis: TiXmlNode, ghost f: Forest, ghost k: nat) returns (ghost h: Forest)
      requires Intact(f) && this in f.Nodes() && k < |f.Children(this)| && f.Children(this)[k] == removeThis
      modifies this`firstChild, this`lastChild, f.Children(this)`next, f.Children(this)`prev
      ensures h == Prune(f, this, k) && Linked(h) && FieldsShown(f)
      ensures Kept(old(Links(f.Nodes())), f, Links(h.Nodes()), h)
    {
      hide Linked, FieldsShow, AttributesShown, Prune, Kept, Forest.WellFormed, Forest.RingsApart;
      h := Detach(removeThis, f, k);
      assert forall n: TiXmlNode {:trigger HeldBy(n)} :: n in f.Nodes() ==> HeldBy(n) == old(HeldBy(n));
    }

    method DetachIntact(removeThis: TiXmlNode, ghost f: Forest, ghost k: nat) returns (ghost h: Forest)
      requires Intact(f) && this in f.Nodes() && k < |f.Children(this)| && f.Children(this)[k] == removeThis
      modifies this`firstChild, this`lastChild, f.Children(this)`next, f.Children(this)`prev
      ensures h == Prune(f, this, k) && Intact(h)
      ensures Kept(old(Links(f.Nodes())), f, Links(h.Nodes()), h)
    {
      hide Linked, FieldsShown, AttributesShown, Prune, Kept, Forest.WellFormed, Forest.RingsApart;
      PruneRingsApart(f, this, k);
      h := DetachKeepingFields(removeThis, f, k);
      PruneShown(f, this, k);
      LinkedIsSound(h);
    }

    /** `RemoveChild`: takes a child out and deletes it with all that is below it. */
    method RemoveChild(removeThis: TiXmlNode, ghost f: Forest) returns (ok: bool, ghost h: Forest, ghost k: nat)
      requires Intact(f) && this in f.Nodes()
      requires removeThis.parent == this ==> removeThis in f.Nodes()
      modifies this`firstChild, this`lastChild, f.Children(this)`next, f.Children(this)`prev
      ensures ok <==> removeThis.parent == this
      ensures Intact(h)
      ensures if ok then k < |f.Children(this)| && f.Children(this)[k] == removeThis && h == Prune(f, this, k) else h == f
      ensures Kept(old(Links(f.Nodes())), f, Links(h.Nodes()), h)
    {
      hide Linked, Shown, Prune, Kept, Forest.WellFormed, IndexOfChild;
      if removeThis.parent != this {
        KeptAsIs(Links(f.Nodes()), f);
        return false, f, 0;
      }
      k := IndexOfChild(f, this, removeThis);
      h := DetachIntact(removeThis, f, k);
      ok := true;
    }

    /** The pointer work of `ReplaceChild`. */
    method ReplaceLinks(node: TiXmlNode, replaceThis: TiXmlNode, ghost nodes: set<TiXmlNode>, ghost kids: seq<TiXmlNode>,
                        ghost k: nat)
      requires this in nodes && node in nodes && this != node && node !in kids && this !in kids && Distinct(kids)
      requires forall i :: 0 <= i < |kids| ==> kids[i] in nodes
      requires k < |kids| && kids[k] == replaceThis
      requires replaceThis.prev == (if k > 0 then kids[k - 1] else null)
      requires replaceThis.next == (if k + 1 < |kids| then kids[k + 1] else null)
      modifies this`firstChild, this`lastChild, node`parent, node`prev, node`next, kids`next, kids`prev
      ensures Replaced(old(Links(nodes)), Links(nodes), this, kids, k, node)
    {
      node.next := replaceThis.next;
      node.prev := replaceThis.prev;
      if replaceThis.next != null {
        replaceThis.next.prev := node;
      } else {
        lastChild := node;
      }
      if replaceThis.prev != null {
        replaceThis.prev.next := node;
      } else {
        firstChild := node;
      }
      node.parent := this;
    }

    method Exchange(node: TiXmlNode, replaceThis: TiXmlNode, ghost f: Forest, ghost g: Forest, ghost k: nat) returns (ghost h: Forest)
      requires Intact(f) && this in f.Nodes() && k < |f.Children(this)| && f.Children(this)[k] == replaceThis
      requires Attachable(f, g, node)
      modifies this`firstChild, this`lastChild, node`parent, node`prev, node`next
      modifies f.Children(this)`next, f.Children(this)`prev
      ensures Swappable(f, g, this, k, node) && h == Swap(f, g, this, k, node) && Linked(h)
      ensures Swapped(f, g, h, this, k, node)
      ensures Kept(old(Links(f.Nodes())), f, Links(h.Nodes()), h)
    {
      hide Chain, Hung, LinkedBy, Linked, Shown, Graft, Prune, Replaced, Graftable, Attachable, InsertAt,
        Swapped, Kept, Forest.WellFormed;
      ghost var kids, nodes := f.Children(this), f.Nodes() + g.Nodes();
      ghost var l0, l := Links(f.Nodes()), Links(nodes);
      AttachableGraftable(f, g, this, k, node);
      InsertPlace(l, f, g, this, k, node);
      ChainAt(f, this, k);
      ReplaceLinks(node, replaceThis, nodes, kids, k);
      SwapLinked(l0, l, f, g, this, k, node);
      h := Swap(f, g, this, k, node);
    }

    /** Nothing but links changes. */
    method ExchangeKeepingFields(node: TiXmlNode, replaceThis: TiXmlNode, ghost f: Forest, ghost g: Forest, ghost k: nat)
      returns (ghost h: Forest)
      requires Intact(f) && this in f.Nodes() && k < |f.Children(this)| && f.Children(this)[k] == replaceThis
      requires Attachable(f, g, node) && FieldsShown(g)
      modifies this`firstChild, this`lastChild, node`parent, node`prev, node`next
      modifies f.Children(this)`next, f.Children(this)`prev
      ensures Swappable(f, g, this, k, node) && h == Swap(f, g, this, k, node) && Linked(h)
      ensures Swapped(f, g, h, this, k, node) && FieldsShown(f) && FieldsShown(g)
      ensures Kept(old(Links(f.Nodes())), f, Links(h.Nodes()), h)
    {
      hide Kept, Linked, FieldsShow, AttributesShown, Attachable, Swap, Swapped, Forest.WellFormed, Swappable, Forest.RingsApart;
      h := Exchange(node, replaceThis, f, g, k);
      assert forall n: TiXmlNode {:trigger HeldBy(n)} :: n in f.Nodes() + g.Nodes() ==> HeldBy(n) == old(HeldBy(n));
    }

    method ExchangeIntact(node: TiXmlNode, replaceThis: TiXmlNode, ghost f: Forest, ghost g: Forest, ghost k: nat)
      returns (ghost h: Forest)
      requires Intact(f) && Intact(g) && this in f.Nodes() && k < |f.Children(this)| && f.Children(this)[k] == replaceThis
      requires Attachable(f, g, node)
      modifies this`firstChild, this`lastChild, node`parent, node`prev, node`next
      modifies f.Children(this)`next, f.Children(this)`prev
      ensures Swappable(f, g, this, k, node) && h == Swap(f, g, this, k, node) && Intact(h)
      ensures Swapped(f, g, h, this, k, node)
      ensures Kept(old(Links(f.Nodes())), f, Links(h.Nodes()), h)
    {
      hide Kept, Linked, FieldsShown, AttributesShown, Attachable, Swap, Swapped, Forest.WellFormed, Swappable, Forest.RingsApart;
      SwapRingsApart(f, g, this, k, node);
      h := ExchangeKeepingFields(node, replaceThis, f, g, k);
      SwapShown(f, g, this, k, node);
      LinkedIsSound(h);
    }

    /** `ReplaceChild`: a clone of `withThis` takes the place of a child, which is deleted. Unlike
        the insertions it does not refuse a document, which would then be its child. */
    method ReplaceChild(replaceThis: TiXmlNode, withThis: TiXmlNode, ghost f: Forest, ghost src: Forest)
      returns (r: TiXmlNode?, ghost t: Forest, ghost h: Forest, ghost k: nat)
      requires Intact(f) && this in f.Nodes() && Intact(src) && withThis in src.Nodes()
      requires replaceThis.parent == this ==> replaceThis in f.Nodes()
      modifies f.Nodes()
      ensures Intact(h)
      ensures Kept(old(Links(f.Nodes())), f, Links(h.Nodes()), h)
      ensures r == null <==> old(replaceThis.parent) != this
      ensures r == null ==> h == f
      ensures r != null ==>
                && k < |f.Children(this)| && f.Children(this)[k] == replaceThis
                && IsCloneOf(t, r, src, withThis) && fresh(t.Nodes()) && fresh(t.attributes) && IsTree(Links(t.Nodes()), t, r)
                && Swappable(f, t, this, k, r) && h == Swap(f, t, this, k, r) && Swapped(f, t, h, this, k, r)
    {
      hide Intact, IndexOfChild, IsCloneOf, Swap, Swappable, Swapped, Kept, IsTree;
      KeptAsIs(Links(f.Nodes()), f);
      k, t, h := 0, Forest(map[], {}, 0), f;
      if replaceThis.parent != this {
        return null, t, h, k;
      }
      k := IndexOfChild(f, this, replaceThis);
      r, t, h := ExchangeClone(replaceThis, withThis, f, src, k);
    }

    /** Puts a clone of `withThis` in the place of the `k`-th child. */
    method ExchangeClone(replaceThis: TiXmlNode, withThis: TiXmlNode, ghost f: Forest, ghost src: Forest, ghost k: nat)
      returns (r: TiXmlNode, ghost t: Forest, ghost h: Forest)
      requires Intact(f) && this in f.Nodes() && k < |f.Children(this)| && f.Children(this)[k] == replaceThis
      requires Intact(src) && withThis in src.Nodes()
      modifies f.Nodes()
      ensures Intact(h) && IsCloneOf(t, r, src, withThis) && fresh(t.Nodes()) && fresh(t.attributes)
      ensures Swappable(f, t, this, k, r) && h == Swap(f, t, this, k, r) && Swapped(f, t, h, this, k, r)
      ensures Kept(old(Links(f.Nodes())), f, Links(h.Nodes()), h)
      ensures IsTree(Links(t.Nodes()), t, r)
    {
      hide Linked, Shown, IsTree, Attachable, ValueOf, CopyTree, Forest.WellFormed, Forest.RingsApart, Links, Swap, Swappable,
        Swapped, Kept;
      ChildrenInside(f, this);
      r, t := withThis.Clone(src);
      FreshAttachable(f, t, r);
      ghost var l := Links(t.Nodes());
      LinksAll(t.Nodes());
      h := ExchangeIntact(r, replaceThis, f, t, k);
      assert forall n {:trigger LinkOf(n)} :: n in t.Nodes() && n != r ==> l[n] == LinkOf(n);
      SwappedKids(f, t, h, this, k, r);
      HungTree(h, l, t, this, k, r);
    }
  }

  // ---- The abstract state ----

  /** A node without its children. */
  datatype Label =
    | DocumentLabel(name: string)
    | ElementLabel(name: string, attributes: seq<Attribute>)
    | LeafLabel(leaf: Tree)

  datatype Entry = Entry(children: seq<TiXmlNode>, data: Label, ring: seq<TiXmlAttribute>, rank: nat)

  /** A set of nodes with the children of each; ranks fall from parent to child. */
  datatype Forest = Forest(entries: map<TiXmlNode, Entry>, attributes: set<TiXmlAttribute>, top: nat) {
    ghost function Nodes(): set<TiXmlNode> {
      entries.Keys
    }

    ghost function Children(n: TiXmlNode): seq<TiXmlNode>
      requires n in Nodes()
    {
      entries[n].children
    }

    ghost predicate Sound(n: TiXmlNode)
      requires n in Nodes()
    {
      var kids := Children(n);
      && entries[n].rank < top
      && Distinct(kids)
      && forall i :: 0 <= i < |kids| ==>
           kids[i] in Nodes() && entries[kids[i]].rank < entries[n].rank
    }

    ghost predicate WellFormed() {
      forall n {:trigger Sound(n)} :: n in Nodes() ==> Sound(n)
    }

    /** Nothing hangs below a leaf, and leaves are leaves. */
    ghost predicate LeavesAreBare() {
      forall n {:trigger entries[n]} :: n in Nodes() && entries[n].data.LeafLabel? ==>
        entries[n].children == [] && !entries[n].data.leaf.Element? && !entries[n].data.leaf.Document?
    }

    /** An attribute belongs to one node only. */
    ghost predicate RingsApart() {
      forall a, n, m {:trigger a in entries[n].ring, a in entries[m].ring} ::
        n in Nodes() && m in Nodes() && a in entries[n].ring && a in entries[m].ring ==> n == m
    }
  }

  // ---- The links ----

  /** The link fields of one node. */
  datatype Link = Link(parent: TiXmlNode?, prev: TiXmlNode?, next: TiXmlNode?, first: TiXmlNode?, last: TiXmlNode?)

  ghost function LinkOf(n: TiXmlNode): Link
    reads n
  {
    Link(n.parent, n.prev, n.next, n.firstChild, n.lastChild)
  }

  /** A node that hangs nowhere. */
  ghost predicate Unlinked(n: TiXmlNode)
    reads n
  {
    n.parent == null && n.prev == null && n.next == null
  }

  /** All links of these nodes, in the current state. */
  ghost function Links(nodes: set<TiXmlNode>): (l: map<TiXmlNode, Link>)
    reads nodes
    ensures l.Keys == nodes
  {
    map n | n in nodes :: LinkOf(n)
  }

  /** `p` heads the doubly linked list of exactly these children. */
  ghost predicate Chain(l: map<TiXmlNode, Link>, p: TiXmlNode, kids: seq<TiXmlNode>) {
    && p in l && (forall i {:trigger kids[i]} :: 0 <= i < |kids| ==> kids[i] in l)
    && l[p].first == (if kids == [] then null else kids[0])
    && l[p].last == (if kids == [] then null else kids[|kids| - 1])
    && (forall i {:trigger l[kids[i]].parent} :: 0 <= i < |kids| ==> l[kids[i]].parent == p)
    && (forall i {:trigger l[kids[i]].prev} :: 0 <= i < |kids| ==> l[kids[i]].prev == if i == 0 then null else kids[i - 1])
    && (forall i {:trigger l[kids[i]].next} :: 0 <= i < |kids| ==> l[kids[i]].next == if i == |kids| - 1 then null else kids[i + 1])
  }

  /** A parent pointer within the forest means being in that parent's list. */
  ghost predicate Hung(l: map<TiXmlNode, Link>, f: Forest, n: TiXmlNode) {
    n in l && (l[n].parent != null && l[n].parent in f.Nodes() ==> n in f.Children(l[n].parent))
  }

  ghost predicate LinkedBy(f: Forest, l: map<TiXmlNode, Link>) {
    && (forall n {:trigger f.Children(n)} :: n in f.Nodes() ==> Chain(l, n, f.Children(n)))
    && (forall n {:trigger Hung(l, f, n)} :: n in f.Nodes() ==> Hung(l, f, n))
  }

  /** Every child list of the forest is a well-formed doubly linked list. */
  ghost predicate Linked(f: Forest)
    reads f.entries.Keys
  {
    f.WellFormed() && LinkedBy(f, Links(f.Nodes()))
  }

  /** `g` is one tree, and `root` is its root. */
  ghost predicate IsTree(l: map<TiXmlNode, Link>, g: Forest, root: TiXmlNode) {
    && root in g.Nodes() && root in l && l[root].parent !in g.Nodes()
    && forall n {:trigger l[n].parent} :: n in g.Nodes() && n != root ==> n in l && l[n].parent in g.Nodes()
  }

  /** The links of a node to its parent and its siblings. */
  ghost predicate SameOutside(a: Link, b: Link) {
    a.parent == b.parent && a.prev == b.prev && a.next == b.next
  }

  /** From one state to the next no node gets another parent, and no parent inside is lost. */
  ghost predicate ParentsKept(l: map<TiXmlNode, Link>, f: Forest, m: map<TiXmlNode, Link>, h: Forest) {
    && f.Nodes() <= l.Keys && h.Nodes() <= m.Keys
    && forall n {:trigger m[n].parent} :: n in h.Nodes() ==>
         && (n in f.Nodes() ==> m[n].parent == l[n].parent)
         && ((n in f.Nodes() ==> l[n].parent in f.Nodes()) ==> m[n].parent in h.Nodes())
  }

  /** The root of a whole tree stays its root, linked outside as it was. */
  ghost predicate RootsKept(l: map<TiXmlNode, Link>, f: Forest, m: map<TiXmlNode, Link>, h: Forest) {
    forall root {:trigger IsTree(l, f, root)} {:trigger IsTree(m, h, root)} :: root in f.Nodes() && IsTree(l, f, root) ==>
      IsTree(m, h, root) && SameOutside(l[root], m[root])
  }

  ghost predicate Kept(l: map<TiXmlNode, Link>, f: Forest, m: map<TiXmlNode, Link>, h: Forest) {
    ParentsKept(l, f, m, h) && RootsKept(l, f, m, h)
  }

  lemma KeptTwice(l: map<TiXmlNode, Link>, f: Forest, m: map<TiXmlNode, Link>, g: Forest, m': map<TiXmlNode, Link>, h: Forest)
    requires Kept(l, f, m, g) && Kept(m, g, m', h)
    requires h.Nodes() <= g.Nodes()
    ensures Kept(l, f, m', h)
  {
    assert ParentsKept(l, f, m', h) by {
      forall n | n in h.Nodes() ensures m[n].parent == m'[n].parent {
      }
    }
    hide IsTree, ParentsKept;
  }

  /** What hangs in no node of another forest still does not. */
  lemma KeptApart(l: map<TiXmlNode, Link>, f: Forest, h: Forest, g: Forest)
    requires Kept(l, f, Links(h.Nodes()), h) && h.Nodes() !! g.Nodes()
    requires forall n :: n in f.Nodes() && n in l ==> l[n].parent !in g.Nodes()
    ensures forall n :: n in h.Nodes() ==> n.parent !in g.Nodes()
  {
    hide RootsKept;
    var m := Links(h.Nodes());
    forall n | n in h.Nodes() ensures n.parent !in g.Nodes() {
      assert m[n].parent == n.parent;
    }
  }

  /** Nothing changed. */
  lemma KeptAsIs(l: map<TiXmlNode, Link>, f: Forest)
    requires l.Keys == f.Nodes()
    ensures Kept(l, f, l, f)
  {
  }

  /** Joins `g` to `f` and gives `p` these children. */
  ghost function Graft(f: Forest, g: Forest, p: TiXmlNode, kids: seq<TiXmlNode>): (h: Forest)
    ensures h.Nodes() == f.Nodes() + g.Nodes()
  {
    Forest((map n | n in f.entries ::
              f.entries[n].(rank := f.entries[n].rank + g.top, children := if n == p then kids else f.entries[n].children))
           + g.entries,
           f.attributes + g.attributes,
           f.top + g.top)
  }

  lemma GraftEntry(f: Forest, g: Forest, p: TiXmlNode, kids: seq<TiXmlNode>, n: TiXmlNode)
    requires n in f.Nodes() + g.Nodes()
    ensures var e := if n in g.Nodes() then g.entries[n] else f.entries[n];
            var e' := Graft(f, g, p, kids).entries[n];
            e'.data == e.data && e'.ring == e.ring
  {
  }

  ghost function InsertAt(kids: seq<TiXmlNode>, k: nat, node: TiXmlNode): seq<TiXmlNode>
    requires k <= |kids|
  {
    kids[..k] + [node] + kids[k..]
  }

  lemma AppendIsInsert(kids: seq<TiXmlNode>, node: TiXmlNode)
    ensures InsertAt(kids, |kids|, node) == kids + [node]
  {
  }

  lemma InsertAtFacts(kids: seq<TiXmlNode>, k: nat, node: TiXmlNode)
    requires k <= |kids|
    ensures var r := InsertAt(kids, k, node);
            |r| == |kids| + 1
            && (forall i :: 0 <= i < |r| ==> r[i] == if i < k then kids[i] else if i == k then node else kids[i - 1])
  {
  }

  /** The same for one place. */
  lemma InsertAtOne(kids: seq<TiXmlNode>, k: nat, node: TiXmlNode, i: int)
    requires k <= |kids|
    ensures |InsertAt(kids, k, node)| == |kids| + 1
    ensures 0 <= i < k ==> InsertAt(kids, k, node)[i] == kids[i]
    ensures i == k ==> InsertAt(kids, k, node)[i] == node
    ensures k < i <= |kids| ==> InsertAt(kids, k, node)[i] == kids[i - 1]
  {
  }

  lemma GraftSound(f: Forest, g: Forest, p: TiXmlNode, k: nat, node: TiXmlNode)
    requires f.WellFormed() && g.WellFormed() && f.Nodes() !! g.Nodes()
    requires p in f.Nodes() && k <= |f.Children(p)| && node in g.Nodes()
    ensures Graft(f, g, p, InsertAt(f.Children(p), k, node)).WellFormed()
  {
    var kids := InsertAt(f.Children(p), k, node);
    var h := Graft(f, g, p, kids);
    forall n | n in h.Nodes() ensures h.Sound(n) {
      if n in g.Nodes() {
        assert g.Sound(n);
      } else if n != p {
        assert f.Sound(n);
      } else {
        GraftSoundAt(f, g, p, k, node);
      }
    }
  }

  lemma GraftSoundAt(f: Forest, g: Forest, p: TiXmlNode, k: nat, node: TiXmlNode)
    requires f.WellFormed() && g.WellFormed() && f.Nodes() !! g.Nodes()
    requires p in f.Nodes() && k <= |f.Children(p)| && node in g.Nodes()
    ensures Graft(f, g, p, InsertAt(f.Children(p), k, node)).Sound(p)
  {
    assert f.Sound(p) && g.Sound(node);
    InsertAtFacts(f.Children(p), k, node);
    hide InsertAt;
  }

  // ---- What relinking one child list keeps ----

  ghost predicate ParentOf(l: map<TiXmlNode, Link>, p: TiXmlNode, kids: seq<TiXmlNode>) {
    forall c :: c in kids ==> c in l && l[c].parent == p
  }

  lemma ChainParents(l: map<TiXmlNode, Link>, p: TiXmlNode, kids: seq<TiXmlNode>)
    requires Chain(l, p, kids)
    ensures ParentOf(l, p, kids)
  {
    forall c | c in kids ensures c in l && l[c].parent == p {
      var i :| 0 <= i < |kids| && kids[i] == c;
      assert l[kids[i]].parent == p;
    }
  }

  lemma InsertAtHas(kids: seq<TiXmlNode>, k: nat, node: TiXmlNode)
    requires k <= |kids|
    ensures forall c :: c in InsertAt(kids, k, node) <==> c == node || c in kids
  {
    assert kids == kids[..k] + kids[k..];
  }

  ghost predicate Clear(kids: seq<TiXmlNode>, others: seq<TiXmlNode>) {
    forall c :: c in others ==> c !in kids
  }

  /** Between two states only `p`'s ends and the links of `p`'s children changed. */
  ghost predicate OnlyRelinked(l: map<TiXmlNode, Link>, m: map<TiXmlNode, Link>, p: TiXmlNode, kids: seq<TiXmlNode>) {
    && l.Keys == m.Keys
    && (forall n {:trigger m[n].first} :: n in l && n != p ==> m[n].first == l[n].first)
    && (forall n {:trigger m[n].last} :: n in l && n != p ==> m[n].last == l[n].last)
    && (forall n {:trigger m[n].parent} :: n in l && n !in kids ==> m[n].parent == l[n].parent)
    && (forall n {:trigger m[n].prev} :: n in l && n !in kids ==> m[n].prev == l[n].prev)
    && (forall n {:trigger m[n].next} :: n in l && n !in kids ==> m[n].next == l[n].next)
  }

  lemma ChainKept(l: map<TiXmlNode, Link>, m: map<TiXmlNode, Link>, p: TiXmlNode, kids: seq<TiXmlNode>,
                  n: TiXmlNode, others: seq<TiXmlNode>)
    requires OnlyRelinked(l, m, p, kids) && n != p && Clear(kids, others) && Chain(l, n, others)
    ensures Chain(m, n, others)
  {
    assert forall i {:trigger others[i]} :: 0 <= i < |others| ==> others[i] in others;
  }

  lemma NotAmong(l: map<TiXmlNode, Link>, n: TiXmlNode, others: seq<TiXmlNode>,
                 p: TiXmlNode, siblings: seq<TiXmlNode>, k: nat, node: TiXmlNode)
    requires k <= |siblings| && n != p && ParentOf(l, n, others) && ParentOf(l, p, siblings)
    requires node !in others
    ensures Clear(InsertAt(siblings, k, node), others)
  {
    InsertAtHas(siblings, k, node);
  }

  /** `f` and `g` share no node, and no node of `f` has its parent in `g`. */
  ghost predicate Apart(l: map<TiXmlNode, Link>, f: Forest, g: Forest) {
    && f.Nodes() !! g.Nodes()
    && forall n {:trigger l[n].parent} :: n in f.Nodes() ==> n in l && l[n].parent !in g.Nodes()
  }

  /** What has to hold before the tree `g` is hung under `p`. */
  ghost predicate Graftable(l: map<TiXmlNode, Link>, f: Forest, g: Forest, p: TiXmlNode, k: nat, node: TiXmlNode) {
    && f.WellFormed() && g.WellFormed() && LinkedBy(f, l) && LinkedBy(g, l)
    && Apart(l, f, g) && IsTree(l, g, node)
    && p in f.Nodes() && k <= |f.Children(p)|
  }

  /** A forest and an unattached tree rooted at `node`. */
  ghost predicate Attachable(f: Forest, g: Forest, node: TiXmlNode)
    reads f.entries.Keys, g.entries.Keys
  {
    && Linked(f) && Linked(g) && Apart(Links(f.Nodes()), f, g) && IsTree(Links(g.Nodes()), g, node)
    && f.attributes !! g.attributes
  }

  lemma OldChain(l: map<TiXmlNode, Link>, m: map<TiXmlNode, Link>, f: Forest, g: Forest, p: TiXmlNode, k: nat,
                 node: TiXmlNode, n: TiXmlNode)
    requires Graftable(l, f, g, p, k, node) && OnlyRelinked(l, m, p, InsertAt(f.Children(p), k, node))
    requires n in f.Nodes() && n != p
    ensures Chain(m, n, f.Children(n))
  {
    hide InsertAt, OnlyRelinked, Chain;
    var others, siblings := f.Children(n), f.Children(p);
    ChainParents(l, n, others);
    ChainParents(l, p, siblings);
    assert f.Sound(n);
    assert node !in others;
    NotAmong(l, n, others, p, siblings, k, node);
    ChainKept(l, m, p, InsertAt(siblings, k, node), n, others);
  }

  lemma NewChain(l: map<TiXmlNode, Link>, m: map<TiXmlNode, Link>, f: Forest, g: Forest, p: TiXmlNode, k: nat,
                 node: TiXmlNode, n: TiXmlNode)
    requires Graftable(l, f, g, p, k, node) && OnlyRelinked(l, m, p, InsertAt(f.Children(p), k, node))
    requires n in g.Nodes()
    ensures Chain(m, n, g.Children(n))
  {
    hide InsertAt, OnlyRelinked, Chain;
    var others, siblings := g.Children(n), f.Children(p);
    ChainParents(l, n, others);
    ChainParents(l, p, siblings);
    assert node !in others;
    NotAmong(l, n, others, p, siblings, k, node);
    ChainKept(l, m, p, InsertAt(siblings, k, node), n, others);
  }

  lemma GraftHung(l: map<TiXmlNode, Link>, m: map<TiXmlNode, Link>, f: Forest, g: Forest, p: TiXmlNode, k: nat,
                  node: TiXmlNode, n: TiXmlNode)
    requires Graftable(l, f, g, p, k, node) && OnlyRelinked(l, m, p, InsertAt(f.Children(p), k, node))
    requires ParentOf(m, p, InsertAt(f.Children(p), k, node))
    requires n in f.Nodes() + g.Nodes()
    ensures Hung(m, Graft(f, g, p, InsertAt(f.Children(p), k, node)), n)
  {
    var kids := InsertAt(f.Children(p), k, node);
    InsertAtHas(f.Children(p), k, node);
    hide InsertAt, Chain;
    assert Hung(l, if n in f.Nodes() then f else g, n);
    if n in kids {
      assert m[n].parent == p;
    } else {
      assert m[n].parent == l[n].parent;
    }
  }

  /** Hanging a tree under one more parent keeps every list on both sides well formed. */
  lemma GraftLinked(l: map<TiXmlNode, Link>, m: map<TiXmlNode, Link>, f: Forest, g: Forest, p: TiXmlNode, k: nat,
                    node: TiXmlNode)
    requires Graftable(l, f, g, p, k, node) && OnlyRelinked(l, m, p, InsertAt(f.Children(p), k, node))
    requires Chain(m, p, InsertAt(f.Children(p), k, node))
    ensures var h := Graft(f, g, p, InsertAt(f.Children(p), k, node)); h.WellFormed() && LinkedBy(h, m)
  {
    var kids := InsertAt(f.Children(p), k, node);
    var h := Graft(f, g, p, kids);
    GraftSound(f, g, p, k, node);
    ChainParents(m, p, kids);
    hide InsertAt, OnlyRelinked, Chain, Hung;
    forall n | n in h.Nodes() ensures Chain(m, n, h.Children(n)) {
      if n in g.Nodes() {
        NewChain(l, m, f, g, p, k, node, n);
      } else if n != p {
        OldChain(l, m, f, g, p, k, node, n);
      }
    }
    forall n | n in h.Nodes() ensures Hung(m, h, n) {
      GraftHung(l, m, f, g, p, k, node, n);
    }
  }

  // ---- Inserting one node into a list ----

  /** Where a node is linked in. */
  datatype Place = AtEnd | Before(sibling: TiXmlNode) | After(sibling: TiXmlNode)

  /** The place lies before the `k`-th of the children. */
  ghost predicate IsPlace(place: Place, kids: seq<TiXmlNode>, k: nat) {
    match place
    case AtEnd => k == |kids|
    case Before(sibling) => k < |kids| && kids[k] == sibling
    case After(sibling) => 0 < k <= |kids| && kids[k - 1] == sibling
  }

  /** `m` is `l` with `node` linked in before the `k`-th of `p`'s children. */
  ghost predicate Inserted(l: map<TiXmlNode, Link>, m: map<TiXmlNode, Link>, p: TiXmlNode, kids: seq<TiXmlNode>, k: nat,
                           node: TiXmlNode)
    requires k <= |kids|
  {
    var before := if k > 0 then kids[k - 1] else null;
    var after := if k < |kids| then kids[k] else null;
    && l.Keys == m.Keys && p in l && node in l
    && m[node] == l[node].(parent := p, prev := before, next := after)
    && m[p] == l[p].(first := if k == 0 then node else l[p].first, last := if k == |kids| then node else l[p].last)
    && (before != null ==> before in l && m[before] == l[before].(next := node))
    && (after != null ==> after in l && m[after] == l[after].(prev := node))
    && forall n {:trigger m[n]} :: n in l && n != p && n != node && n != before && n != after ==> m[n] == l[n]
  }

  /** The nodes around the place of insertion are all different. */
  lemma InsertPlace(l: map<TiXmlNode, Link>, f: Forest, g: Forest, p: TiXmlNode, k: nat, node: TiXmlNode)
    requires Graftable(l, f, g, p, k, node)
    ensures var kids := f.Children(p);
            Chain(l, p, kids) && p != node && node !in kids && p !in kids && Distinct(kids)
            && (forall c :: c in kids ==> c in f.Nodes()) && node in g.Nodes()
    ensures var kids := f.Children(p);
            p in l && l[p].first == (if kids == [] then null else kids[0])
            && l[p].last == (if kids == [] then null else kids[|kids| - 1])
  {
    assert f.Sound(p);
  }

  lemma InsertedChain(l: map<TiXmlNode, Link>, m: map<TiXmlNode, Link>, p: TiXmlNode, kids: seq<TiXmlNode>, k: nat,
                      node: TiXmlNode)
    requires k <= |kids| && Inserted(l, m, p, kids, k, node)
    requires Chain(l, p, kids) && p != node && node !in kids && p !in kids && Distinct(kids)
    ensures Chain(m, p, InsertAt(kids, k, node))
  {
    var r := InsertAt(kids, k, node);
    InsertedEnds(l, m, p, kids, k, node);
    forall i | 0 <= i < |r|
      ensures r[i] in m && m[r[i]].parent == p
      ensures m[r[i]].prev == (if i == 0 then null else r[i - 1])
      ensures m[r[i]].next == (if i == |r| - 1 then null else r[i + 1])
    {
      InsertAtFacts(kids, k, node);
      InsertedAt(l, m, p, kids, k, node, i);
    }
    hide InsertAt, Inserted;
  }

  /** The ends of the list after an insertion. */
  lemma InsertedEnds(l: map<TiXmlNode, Link>, m: map<TiXmlNode, Link>, p: TiXmlNode, kids: seq<TiXmlNode>, k: nat,
                     node: TiXmlNode)
    requires k <= |kids| && Inserted(l, m, p, kids, k, node) && Chain(l, p, kids)
    ensures var r := InsertAt(kids, k, node);
            p in m && r != [] && m[p].first == r[0] && m[p].last == r[|r| - 1]
  {
    InsertAtFacts(kids, k, node);
    hide InsertAt;
  }

  /** The link of a child after an insertion before the `k`-th. */
  lemma InsertedLink(l: map<TiXmlNode, Link>, m: map<TiXmlNode, Link>, p: TiXmlNode, kids: seq<TiXmlNode>, k: nat,
                     node: TiXmlNode, j: nat)
    requires k <= |kids| && Inserted(l, m, p, kids, k, node) && j < |kids|
    requires Chain(l, p, kids) && p != node && node !in kids && p !in kids && Distinct(kids)
    ensures kids[j] in m && kids[j] in l
    ensures m[kids[j]] == if j + 1 == k then l[kids[j]].(next := node)
                          else if j == k then l[kids[j]].(prev := node) else l[kids[j]]
  {
    var x := kids[j];
    assert x in kids && x in l && x != p && x != node;
    hide Chain;
    assert (k > 0 && x == kids[k - 1] <==> j + 1 == k) && (k < |kids| && x == kids[k] <==> j == k);
    hide Distinct;
  }

  lemma InsertedAt(l: map<TiXmlNode, Link>, m: map<TiXmlNode, Link>, p: TiXmlNode, kids: seq<TiXmlNode>, k: nat,
                   node: TiXmlNode, i: nat)
    requires k <= |kids| && Inserted(l, m, p, kids, k, node) && i <= |kids|
    requires Chain(l, p, kids) && p != node && node !in kids && p !in kids && Distinct(kids)
    ensures var r := InsertAt(kids, k, node);
            |r| == |kids| + 1 && r[i] in m && m[r[i]].parent == p
            && m[r[i]].prev == (if i == 0 then null else r[i - 1])
            && m[r[i]].next == (if i == |r| - 1 then null else r[i + 1])
  {
    InsertAtOne(kids, k, node, i - 1);
    InsertAtOne(kids, k, node, i);
    InsertAtOne(kids, k, node, i + 1);
    hide InsertAt, Inserted, Distinct, Chain;
    if i == k {
      InsertedNode(l, m, p, kids, k, node);
    } else {
      var j := if i < k then i else i - 1;
      InsertedLink(l, m, p, kids, k, node, j);
      ChainLink(l, p, kids, j);
    }
  }

  lemma InsertedNode(l: map<TiXmlNode, Link>, m: map<TiXmlNode, Link>, p: TiXmlNode, kids: seq<TiXmlNode>, k: nat,
                     node: TiXmlNode)
    requires k <= |kids| && Inserted(l, m, p, kids, k, node)
    ensures node in m && m[node].parent == p
    ensures m[node].prev == if k > 0 then kids[k - 1] else null
    ensures m[node].next == if k < |kids| then kids[k] else null
  {
  }

  /** The link of one child of a chain. */
  lemma ChainLink(l: map<TiXmlNode, Link>, p: TiXmlNode, kids: seq<TiXmlNode>, j: nat)
    requires Chain(l, p, kids) && j < |kids|
    ensures kids[j] in l && l[kids[j]].parent == p
    ensures l[kids[j]].prev == if j == 0 then null else kids[j - 1]
    ensures l[kids[j]].next == if j == |kids| - 1 then null else kids[j + 1]
  {
    assert kids[j] in l;
    assert l[kids[j]].parent == p;
    assert l[kids[j]].prev == (if j == 0 then null else kids[j - 1]);
  }

  lemma InsertedOnly(l: map<TiXmlNode, Link>, m: map<TiXmlNode, Link>, p: TiXmlNode, kids: seq<TiXmlNode>, k: nat,
                     node: TiXmlNode)
    requires k <= |kids| && Inserted(l, m, p, kids, k, node) && p != node && node !in kids && p !in kids
    ensures OnlyRelinked(l, m, p, InsertAt(kids, k, node))
  {
    InsertAtHas(kids, k, node);
    hide InsertAt;
  }

  /** One insertion: the joined forest is linked by the new state. */
  lemma InsertLinked(l: map<TiXmlNode, Link>, m: map<TiXmlNode, Link>, f: Forest, g: Forest, p: TiXmlNode, k: nat,
                     node: TiXmlNode)
    requires Graftable(l, f, g, p, k, node) && Inserted(l, m, p, f.Children(p), k, node)
    ensures var h := Graft(f, g, p, InsertAt(f.Children(p), k, node)); h.WellFormed() && LinkedBy(h, m)
  {
    var kids := f.Children(p);
    InsertPlace(l, f, g, p, k, node);
    InsertedChain(l, m, p, kids, k, node);
    InsertedOnly(l, m, p, kids, k, node);
    GraftLinked(l, m, f, g, p, k, node);
  }

  /** A node hung into a tree leaves a tree. */
  lemma InsertTree(l0: map<TiXmlNode, Link>, l: map<TiXmlNode, Link>, m: map<TiXmlNode, Link>, f: Forest, g: Forest,
                   p: TiXmlNode, k: nat, node: TiXmlNode, root: TiXmlNode)
    requires Graftable(l, f, g, p, k, node) && Inserted(l, m, p, f.Children(p), k, node)
    requires l0.Keys == f.Nodes() && forall n :: n in l0 ==> n in l && l[n] == l0[n]
    requires l.Keys == f.Nodes() + g.Nodes()
    ensures IsTree(l0, f, root) ==> IsTree(m, Graft(f, g, p, InsertAt(f.Children(p), k, node)), root)
  {
    InsertPlace(l, f, g, p, k, node);
    if IsTree(l0, f, root) {
      hide Chain, InsertAt, Hung, LinkedBy, Forest.WellFormed, Inserted, Graft, IsTree;
      var h := Graft(f, g, p, InsertAt(f.Children(p), k, node));
      forall n | n in h.Nodes()
        ensures n in m && (if n == root then m[n].parent !in h.Nodes() else m[n].parent in h.Nodes())
      {
        TreeParent(l0, l, f, g, p, node, root, n);
        InsertedParent(l, m, p, f.Children(p), k, node, n);
      }
      TreeFrom(l0, f, m, h, root);
    }
  }

  /** Where the parents are before an insertion. */
  lemma TreeParent(l0: map<TiXmlNode, Link>, l: map<TiXmlNode, Link>, f: Forest, g: Forest, p: TiXmlNode, node: TiXmlNode,
                   root: TiXmlNode, n: TiXmlNode)
    requires IsTree(l0, f, root) && IsTree(l, g, node) && Apart(l, f, g) && p in f.Nodes()
    requires l0.Keys == f.Nodes() && forall n :: n in l0 ==> n in l && l[n] == l0[n]
    requires l.Keys == f.Nodes() + g.Nodes() && n in l
    ensures var parent := if n == node then p else l[n].parent;
            if n == root then parent !in f.Nodes() + g.Nodes() else parent in f.Nodes() + g.Nodes()
  {
    assert n in g.Nodes() && n != node ==> l[n].parent in g.Nodes();
    assert n in f.Nodes() && n != root ==> l0[n].parent in f.Nodes();
    assert n in f.Nodes() ==> l[n].parent !in g.Nodes();
  }

  lemma TreeFrom(l0: map<TiXmlNode, Link>, f: Forest, m: map<TiXmlNode, Link>, h: Forest, root: TiXmlNode)
    requires IsTree(l0, f, root) && f.Nodes() <= h.Nodes()
    requires forall n :: n in h.Nodes() ==>
               n in m && (if n == root then m[n].parent !in h.Nodes() else m[n].parent in h.Nodes())
    ensures IsTree(m, h, root)
  {
  }

  lemma InsertedParent(l: map<TiXmlNode, Link>, m: map<TiXmlNode, Link>, p: TiXmlNode, kids: seq<TiXmlNode>, k: nat,
                       node: TiXmlNode, n: TiXmlNode)
    requires k <= |kids| && Inserted(l, m, p, kids, k, node) && n in l && p != node && node !in kids
    ensures l.Keys == m.Keys && n in m && m[n].parent == if n == node then p else l[n].parent
  {
  }

  /** What an insertion keeps. */
  lemma InsertKept(l0: map<TiXmlNode, Link>, l: map<TiXmlNode, Link>, m: map<TiXmlNode, Link>, f: Forest, g: Forest,
                   p: TiXmlNode, k: nat, node: TiXmlNode)
    requires Graftable(l, f, g, p, k, node) && Inserted(l, m, p, f.Children(p), k, node)
    requires l0.Keys == f.Nodes() && forall n :: n in l0 ==> n in l && l[n] == l0[n]
    requires l.Keys == f.Nodes() + g.Nodes()
    ensures Kept(l0, f, m, Graft(f, g, p, InsertAt(f.Children(p), k, node)))
  {
    var h := Graft(f, g, p, InsertAt(f.Children(p), k, node));
    InsertPlace(l, f, g, p, k, node);
    hide Chain, InsertAt, Hung, LinkedBy, Forest.WellFormed, Graft;
    InsertParentsKept(l0, l, m, f, g, p, k, node, h);
    hide Distinct, ParentsKept;
    forall root | root in f.Nodes() && IsTree(l0, f, root) ensures IsTree(m, h, root) && SameOutside(l0[root], m[root]) {
      InsertTree(l0, l, m, f, g, p, k, node, root);
      RootOutside(l0, l, m, f, p, k, node, root);
    }
  }

  lemma InsertParentsKept(l0: map<TiXmlNode, Link>, l: map<TiXmlNode, Link>, m: map<TiXmlNode, Link>, f: Forest, g: Forest,
                          p: TiXmlNode, k: nat, node: TiXmlNode, h: Forest)
    requires IsTree(l, g, node) && Apart(l, f, g) && p in f.Nodes() && node !in f.Children(p) && p != node
    requires k <= |f.Children(p)| && Inserted(l, m, p, f.Children(p), k, node)
    requires l0.Keys == f.Nodes() && forall n :: n in l0 ==> n in l && l[n] == l0[n]
    requires l.Keys == f.Nodes() + g.Nodes() && h.Nodes() == f.Nodes() + g.Nodes()
    ensures ParentsKept(l0, f, m, h)
  {
    hide Inserted, IsTree, Apart;
    assert l.Keys == m.Keys by {
      InsertedParent(l, m, p, f.Children(p), k, node, p);
    }
    forall n | n in h.Nodes()
      ensures n in f.Nodes() ==> m[n].parent == l0[n].parent
      ensures (n in f.Nodes() ==> l0[n].parent in f.Nodes()) ==> m[n].parent in h.Nodes()
    {
      InsertedParent(l, m, p, f.Children(p), k, node, n);
      InsertedInside(l0, l, f, g, p, node, n);
    }
  }

  lemma InsertedInside(l0: map<TiXmlNode, Link>, l: map<TiXmlNode, Link>, f: Forest, g: Forest, p: TiXmlNode, node: TiXmlNode,
                       n: TiXmlNode)
    requires IsTree(l, g, node) && Apart(l, f, g) && p in f.Nodes() && n in f.Nodes() + g.Nodes()
    requires l0.Keys == f.Nodes() && forall n :: n in l0 ==> n in l && l[n] == l0[n]
    requires l.Keys == f.Nodes() + g.Nodes()
    ensures node !in f.Nodes()
    ensures (n in f.Nodes() ==> l0[n].parent in f.Nodes()) ==> (if n == node then p else l[n].parent) in f.Nodes() + g.Nodes()
  {
  }

  /** An insertion leaves the links of a root to the outside alone. */
  lemma RootOutside(l0: map<TiXmlNode, Link>, l: map<TiXmlNode, Link>, m: map<TiXmlNode, Link>, f: Forest,
                    p: TiXmlNode, k: nat, node: TiXmlNode, root: TiXmlNode)
    requires IsTree(l0, f, root) && p in f.Nodes() && k <= |f.Children(p)| && node !in f.Nodes()
    requires l0.Keys == f.Nodes() && forall n :: n in l0 ==> n in l && l[n] == l0[n]
    requires Inserted(l, m, p, f.Children(p), k, node) && Chain(l, p, f.Children(p))
    ensures SameOutside(l0[root], m[root])
  {
    ChainParents(l, p, f.Children(p));
    hide Chain;
    assert root !in f.Children(p);
  }

  lemma LinkedNow(h: Forest, m: map<TiXmlNode, Link>)
    requires h.WellFormed() && LinkedBy(h, m) && m == Links(h.Nodes())
    ensures Linked(h)
  {
  }

  lemma LinkedIsSound(h: Forest)
    requires Linked(h)
    ensures h.WellFormed()
  {
  }

  lemma LinkedByExtends(f: Forest, l: map<TiXmlNode, Link>, m: map<TiXmlNode, Link>)
    requires LinkedBy(f, l) && forall n :: n in l ==> n in m && m[n] == l[n]
    ensures LinkedBy(f, m)
  {
    forall n | n in f.Nodes() ensures Chain(m, n, f.Children(n)) {
      assert Chain(l, n, f.Children(n));
    }
    forall n | n in f.Nodes() ensures Hung(m, f, n) {
      assert Hung(l, f, n);
    }
  }

  lemma AttachableGraftable(f: Forest, g: Forest, p: TiXmlNode, k: nat, node: TiXmlNode)
    requires Attachable(f, g, node) && p in f.Nodes() && k <= |f.Children(p)|
    ensures Graftable(Links(f.Nodes() + g.Nodes()), f, g, p, k, node)
  {
    var l := Links(f.Nodes() + g.Nodes());
    LinkedByExtends(f, Links(f.Nodes()), l);
    LinkedByExtends(g, Links(g.Nodes()), l);
  }

  // ---- Taking one node out of a list ----

  ghost function RemoveAt(kids: seq<TiXmlNode>, k: nat): seq<TiXmlNode>
    requires k < |kids|
  {
    kids[..k] + kids[k + 1..]
  }

  /** The node and everything below it: what the destructor deletes. */
  ghost function Below(f: Forest, n: TiXmlNode): set<TiXmlNode>
    requires f.WellFormed() && n in f.Nodes()
    decreases f.entries[n].rank, |f.Children(n)| + 1
  {
    {n} + BelowFrom(f, n, 0)
  }

  ghost function BelowFrom(f: Forest, n: TiXmlNode, i: nat): set<TiXmlNode>
    requires f.WellFormed() && n in f.Nodes() && i <= |f.Children(n)|
    decreases f.entries[n].rank, |f.Children(n)| - i
  {
    assert f.Sound(n);
    if i == |f.Children(n)| then {} else Below(f, f.Children(n)[i]) + BelowFrom(f, n, i + 1)
  }

  /** `f` without the `k`-th child of `p` and what is below it. */
  ghost function Prune(f: Forest, p: TiXmlNode, k: nat): Forest
    requires f.WellFormed() && p in f.Nodes() && k < |f.Children(p)|
  {
    assert f.Sound(p);
    var gone := Below(f, f.Children(p)[k]);
    Forest(map n | n in f.entries && n !in gone ::
             f.entries[n].(children := if n == p then RemoveAt(f.Children(p), k) else f.entries[n].children),
           f.attributes, f.top)
  }

  /** `m` is `l` with the `k`-th of `p`'s children bypassed. */
  ghost predicate Removed(l: map<TiXmlNode, Link>, m: map<TiXmlNode, Link>, p: TiXmlNode, kids: seq<TiXmlNode>, k: nat)
    requires k < |kids|
  {
    var before := if k > 0 then kids[k - 1] else null;
    var after := if k + 1 < |kids| then kids[k + 1] else null;
    && l.Keys == m.Keys && p in l
    && m[p] == l[p].(first := if k == 0 then after else l[p].first, last := if k + 1 == |kids| then before else l[p].last)
    && (before != null ==> before in l && m[before] == l[before].(next := after))
    && (after != null ==> after in l && m[after] == l[after].(prev := before))
    && forall n {:trigger m[n]} :: n in l && n != p && n != before && n != after ==> m[n] == l[n]
  }

  lemma RemoveAtFacts(kids: seq<TiXmlNode>, k: nat)
    requires k < |kids|
    ensures var r := RemoveAt(kids, k);
            |r| == |kids| - 1 && forall i :: 0 <= i < |r| ==> r[i] == if i < k then kids[i] else kids[i + 1]
  {
  }

  /** The same for one place. */
  lemma RemoveAtOne(kids: seq<TiXmlNode>, k: nat, i: int)
    requires k < |kids|
    ensures var r := RemoveAt(kids, k);
            |r| == |kids| - 1 && (0 <= i < |r| ==> r[i] == if i < k then kids[i] else kids[i + 1])
  {
  }

  /** The link of a child after the `k`-th was bypassed. */
  lemma RemovedLink(l: map<TiXmlNode, Link>, m: map<TiXmlNode, Link>, p: TiXmlNode, kids: seq<TiXmlNode>, k: nat, j: nat)
    requires k < |kids| && Removed(l, m, p, kids, k) && j < |kids| && j != k
    requires Chain(l, p, kids) && p !in kids && Distinct(kids)
    ensures kids[j] in m && kids[j] in l
    ensures m[kids[j]] == if j + 1 == k then l[kids[j]].(next := if k + 1 < |kids| then kids[k + 1] else null)
                          else if j == k + 1 then l[kids[j]].(prev := if k > 0 then kids[k - 1] else null) else l[kids[j]]
  {
    var x := kids[j];
    assert x in kids && x in l && x != p;
    hide Chain;
    assert (k > 0 && x == kids[k - 1] <==> j + 1 == k) && (k + 1 < |kids| && x == kids[k + 1] <==> j == k + 1);
    hide Distinct;
  }

  lemma RemovedAt(l: map<TiXmlNode, Link>, m: map<TiXmlNode, Link>, p: TiXmlNode, kids: seq<TiXmlNode>, k: nat, i: nat)
    requires k < |kids| && Removed(l, m, p, kids, k) && i + 1 < |kids|
    requires Chain(l, p, kids) && p !in kids && Distinct(kids)
    ensures var r := RemoveAt(kids, k);
            |r| == |kids| - 1 && r[i] in m && m[r[i]].parent == p
            && m[r[i]].prev == (if i == 0 then null else r[i - 1])
            && m[r[i]].next == (if i == |r| - 1 then null else r[i + 1])
  {
    RemoveAtOne(kids, k, i - 1);
    RemoveAtOne(kids, k, i);
    RemoveAtOne(kids, k, i + 1);
    hide RemoveAt, Removed, Distinct, Chain;
    var j := if i < k then i else i + 1;
    RemovedLink(l, m, p, kids, k, j);
    ChainLink(l, p, kids, j);
  }

  /** The ends of the list after a removal. */
  lemma RemovedEnds(l: map<TiXmlNode, Link>, m: map<TiXmlNode, Link>, p: TiXmlNode, kids: seq<TiXmlNode>, k: nat)
    requires k < |kids| && Removed(l, m, p, kids, k) && Chain(l, p, kids)
    ensures var r := RemoveAt(kids, k);
            p in m && m[p].first == (if r == [] then null else r[0]) && m[p].last == (if r == [] then null else r[|r| - 1])
  {
    RemoveAtFacts(kids, k);
    hide RemoveAt;
  }

  lemma RemovedChain(l: map<TiXmlNode, Link>, m: map<TiXmlNode, Link>, p: TiXmlNode, kids: seq<TiXmlNode>, k: nat)
    requires k < |kids| && Removed(l, m, p, kids, k) && Chain(l, p, kids) && p !in kids && Distinct(kids)
    ensures Chain(m, p, RemoveAt(kids, k))
  {
    var r := RemoveAt(kids, k);
    RemovedEnds(l, m, p, kids, k);
    forall i | 0 <= i < |r|
      ensures r[i] in m && m[r[i]].parent == p
      ensures m[r[i]].prev == (if i == 0 then null else r[i - 1])
      ensures m[r[i]].next == (if i == |r| - 1 then null else r[i + 1])
    {
      RemoveAtFacts(kids, k);
      RemovedAt(l, m, p, kids, k, i);
    }
    hide RemoveAt, Removed;
  }

  lemma RemovedOnly(l: map<TiXmlNode, Link>, m: map<TiXmlNode, Link>, p: TiXmlNode, kids: seq<TiXmlNode>, k: nat)
    requires k < |kids| && Removed(l, m, p, kids, k) && p !in kids
    ensures OnlyRelinked(l, m, p, kids)
  {
    assert kids[k] in kids && (k > 0 ==> kids[k - 1] in kids) && (k + 1 < |kids| ==> kids[k + 1] in kids);
  }

  /** Everything below a node is the node or a child of something below it. */
  lemma {:induction false} BelowHasParent(f: Forest, n: TiXmlNode, c: TiXmlNode)
    requires f.WellFormed() && n in f.Nodes() && c in Below(f, n)
    ensures c in f.Nodes() && f.entries[c].rank <= f.entries[n].rank
    ensures c != n ==> exists q :: q in Below(f, n) && q in f.Nodes() && c in f.Children(q)
    decreases f.entries[n].rank, |f.Children(n)| + 1
  {
    if c != n {
      BelowFromHasParent(f, n, 0, c);
    }
  }

  lemma {:induction false} BelowFromHasParent(f: Forest, n: TiXmlNode, i: nat, c: TiXmlNode)
    requires f.WellFormed() && n in f.Nodes() && i <= |f.Children(n)| && c in BelowFrom(f, n, i)
    ensures c in f.Nodes() && f.entries[c].rank < f.entries[n].rank
    ensures exists q :: (q == n || q in BelowFrom(f, n, i)) && q in f.Nodes() && c in f.Children(q)
    decreases f.entries[n].rank, |f.Children(n)| - i
  {
    assert f.Sound(n);
    var kid := f.Children(n)[i];
    if c in Below(f, kid) {
      BelowHasParent(f, kid, c);
      if c != kid {
        var q :| q in Below(f, kid) && q in f.Nodes() && c in f.Children(q);
      }
    } else {
      BelowFromHasParent(f, n, i + 1, c);
    }
  }
  lemma {:induction false} BelowFromAt(f: Forest, n: TiXmlNode, i: nat, c: TiXmlNode)
    requires f.WellFormed() && n in f.Nodes() && i <= |f.Children(n)|
    ensures c in BelowFrom(f, n, i) <==>
            exists j :: i <= j < |f.Children(n)| && f.Children(n)[j] in f.Nodes() && c in Below(f, f.Children(n)[j])
    decreases |f.Children(n)| - i
  {
    hide Below;
    assert f.Sound(n);
    if i < |f.Children(n)| {
      BelowFromAt(f, n, i + 1, c);
    }
  }

  lemma InBelow(f: Forest, n: TiXmlNode, x: TiXmlNode)
    requires f.WellFormed() && n in f.Nodes()
    ensures x in Below(f, n) <==> x == n || x in BelowFrom(f, n, 0)
  {
    hide BelowFrom;
  }

  lemma SelfBelow(f: Forest, n: TiXmlNode)
    requires f.WellFormed() && n in f.Nodes()
    ensures n in Below(f, n)
  {
    hide BelowFrom;
  }

  lemma KidIsBelow(f: Forest, n: TiXmlNode, x: TiXmlNode)
    requires f.WellFormed() && n in f.Nodes() && x in f.Children(n)
    ensures x in f.Nodes() && x in Below(f, n)
  {
    assert f.Sound(n);
    var j :| 0 <= j < |f.Children(n)| && f.Children(n)[j] == x;
    assert x in Below(f, x);
    hide Below;
    BelowFromAt(f, n, 0, x);
    InBelow(f, n, x);
  }

  /** The children of what is below a node are below it. */
  lemma {:induction false} BelowHasKids(f: Forest, n: TiXmlNode, q: TiXmlNode, c: TiXmlNode)
    requires f.WellFormed() && n in f.Nodes() && q in Below(f, n) && q in f.Nodes() && c in f.Children(q)
    ensures c in f.Nodes() && c in Below(f, n)
    decreases f.entries[n].rank
  {
    hide Below;
    KidIsBelow(f, q, c);
    InBelow(f, n, q);
    InBelow(f, n, c);
    if q != n {
      assert f.Sound(n);
      BelowFromAt(f, n, 0, q);
      BelowFromAt(f, n, 0, c);
      var j :| 0 <= j < |f.Children(n)| && f.Children(n)[j] in f.Nodes() && q in Below(f, f.Children(n)[j]);
      BelowHasKids(f, f.Children(n)[j], q, c);
    }
  }

  // ---- Pruning keeps the rest linked ----

  lemma PruneSound(f: Forest, l: map<TiXmlNode, Link>, p: TiXmlNode, k: nat)
    requires f.WellFormed() && LinkedBy(f, l) && p in f.Nodes() && k < |f.Children(p)|
    ensures Prune(f, p, k).WellFormed() && p in Prune(f, p, k).Nodes()
  {
    hide LinkedBy;
    var h := Prune(f, p, k);
    var r := f.Children(p)[k];
    assert f.Sound(p);
    assert p !in Below(f, r) by {
      if p in Below(f, r) {
        BelowHasParent(f, r, p);
      }
    }
    hide Below;
    forall n | n in h.Nodes() ensures h.Sound(n) {
      assert f.Sound(n);
      PruneKeepsChildren(f, l, p, k, n);
      if n == p {
        RemoveAtFacts(f.Children(p), k);
      }
    }
  }

  /** A child that is not the removed one stays, when its parent does. */
  lemma PruneKeepsChildren(f: Forest, l: map<TiXmlNode, Link>, p: TiXmlNode, k: nat, n: TiXmlNode)
    requires f.WellFormed() && LinkedBy(f, l) && p in f.Nodes() && k < |f.Children(p)|
    requires n in Prune(f, p, k).Nodes()
    ensures forall i :: 0 <= i < |Prune(f, p, k).Children(n)| ==> Prune(f, p, k).Children(n)[i] in Prune(f, p, k).Nodes()
  {
    var h := Prune(f, p, k);
    forall i | 0 <= i < |h.Children(n)| ensures h.Children(n)[i] in h.Nodes() {
      PruneChildren(f, p, k, n);
      RemoveAtOne(f.Children(p), k, i);
      ChildStays(f, l, p, k, n, if n == p && i >= k then i + 1 else i);
    }
  }

  lemma ChildStays(f: Forest, l: map<TiXmlNode, Link>, p: TiXmlNode, k: nat, n: TiXmlNode, i: nat)
    requires f.WellFormed() && LinkedBy(f, l) && p in f.Nodes() && k < |f.Children(p)| && n in Prune(f, p, k).Nodes()
    requires n in f.Nodes() && i < |f.Children(n)| && (n != p || i != k)
    ensures f.Children(n)[i] in Prune(f, p, k).Nodes()
  {
    hide LinkedBy, Below;
    assert f.Sound(n) && f.Sound(p);
    StaysOut(f, l, p, k, n, i);
  }

  /** Below the removed child there is no child of a node that stays, but the child itself. */
  lemma StaysOut(f: Forest, l: map<TiXmlNode, Link>, p: TiXmlNode, k: nat, n: TiXmlNode, i: nat)
    requires f.WellFormed() && LinkedBy(f, l) && p in f.Nodes() && k < |f.Children(p)|
    requires f.Children(p)[k] in f.Nodes() && n in f.Nodes() && n !in Below(f, f.Children(p)[k])
    requires i < |f.Children(n)| && (n != p || i != k)
    ensures f.Children(n)[i] !in Below(f, f.Children(p)[k])
  {
    var r, c := f.Children(p)[k], f.Children(n)[i];
    assert f.Sound(n) && f.Sound(p);
    ParentIs(f, l, n, c);
    ParentIs(f, l, p, r);
    forall q | q in f.Nodes() && c in f.Children(q) ensures q == n {
      ParentIs(f, l, q, c);
    }
    if c in Below(f, r) {
      BelowHasParent(f, r, c);
    }
  }

  lemma ParentIs(f: Forest, l: map<TiXmlNode, Link>, n: TiXmlNode, c: TiXmlNode)
    requires LinkedBy(f, l) && n in f.Nodes() && c in f.Children(n)
    ensures c in l && l[c].parent == n
  {
    ChainParents(l, n, f.Children(n));
  }

  /** What a removal keeps. */
  lemma PruneKept(f: Forest, l: map<TiXmlNode, Link>, m: map<TiXmlNode, Link>, m': map<TiXmlNode, Link>, p: TiXmlNode, k: nat)
    requires f.WellFormed() && LinkedBy(f, l) && p in f.Nodes() && k < |f.Children(p)|
    requires Removed(l, m, p, f.Children(p), k)
    requires Prune(f, p, k).Nodes() <= m'.Keys <= m.Keys && forall n :: n in m' ==> m'[n] == m[n]
    ensures Kept(l, f, m', Prune(f, p, k))
  {
    var h := Prune(f, p, k);
    hide Prune, LinkedBy, Removed, IsTree, Forest.WellFormed, SameOutside;
    LinkedInside(f, l);
    PruneInside(f, p, k);
    forall n | n in h.Nodes()
      ensures m'[n].parent == l[n].parent && (l[n].parent in f.Nodes() ==> l[n].parent in h.Nodes())
    {
      KeepsParent(f, l, m, p, k, n);
      ParentStays(f, l, p, k, n);
    }
    forall root | root in f.Nodes() && IsTree(l, f, root) ensures IsTree(m', h, root) && SameOutside(l[root], m'[root]) {
      RootStays(f, l, p, k, root);
      RemovedOutside(f, l, m, p, k, root);
      TreeWithout(f, l, m', h, root);
    }
    KeptFrom(l, f, m', h);
  }

  lemma KeptFrom(l: map<TiXmlNode, Link>, f: Forest, m: map<TiXmlNode, Link>, h: Forest)
    requires h.Nodes() <= f.Nodes() <= l.Keys && h.Nodes() <= m.Keys
    requires forall n :: n in h.Nodes() ==> m[n].parent == l[n].parent && (l[n].parent in f.Nodes() ==> l[n].parent in h.Nodes())
    requires forall root :: root in f.Nodes() && IsTree(l, f, root) ==> IsTree(m, h, root) && SameOutside(l[root], m[root])
    ensures Kept(l, f, m, h)
  {
    hide IsTree, SameOutside;
  }

  lemma LinkedInside(f: Forest, l: map<TiXmlNode, Link>)
    requires LinkedBy(f, l)
    ensures f.Nodes() <= l.Keys
  {
    forall n | n in f.Nodes() ensures n in l {
      assert Hung(l, f, n);
    }
  }

  lemma PruneInside(f: Forest, p: TiXmlNode, k: nat)
    requires f.WellFormed() && p in f.Nodes() && k < |f.Children(p)|
    ensures Prune(f, p, k).Nodes() <= f.Nodes()
  {
    hide Below, Forest.WellFormed;
  }

  lemma PruneHas(f: Forest, p: TiXmlNode, k: nat, n: TiXmlNode)
    requires f.WellFormed() && p in f.Nodes() && k < |f.Children(p)| && n in f.Nodes()
    ensures f.Children(p)[k] in f.Nodes()
    ensures n in Prune(f, p, k).Nodes() <==> n !in Below(f, f.Children(p)[k])
  {
    hide Below;
    assert f.Sound(p);
  }

  /** A node that stays keeps its parent. */
  lemma ParentStays(f: Forest, l: map<TiXmlNode, Link>, p: TiXmlNode, k: nat, n: TiXmlNode)
    requires f.WellFormed() && LinkedBy(f, l) && p in f.Nodes() && k < |f.Children(p)|
    requires n in f.Nodes() && n in Prune(f, p, k).Nodes()
    ensures n in l && (l[n].parent in f.Nodes() ==> l[n].parent in Prune(f, p, k).Nodes())
  {
    hide Prune, Below, Chain;
    assert Hung(l, f, n);
    PruneHas(f, p, k, n);
    var q, r := l[n].parent, f.Children(p)[k];
    if q in f.Nodes() {
      PruneHas(f, p, k, q);
      if q in Below(f, r) {
        BelowHasKids(f, r, q, n);
      }
    }
  }

  lemma RootStays(f: Forest, l: map<TiXmlNode, Link>, p: TiXmlNode, k: nat, root: TiXmlNode)
    requires f.WellFormed() && LinkedBy(f, l) && p in f.Nodes() && k < |f.Children(p)| && IsTree(l, f, root)
    ensures root in Prune(f, p, k).Nodes()
  {
    hide Prune, Below, LinkedBy;
    PruneHas(f, p, k, root);
    var r := f.Children(p)[k];
    ParentIs(f, l, p, r);
    if root in Below(f, r) {
      BelowHasParent(f, r, root);
      if root != r {
        var q :| q in Below(f, r) && q in f.Nodes() && root in f.Children(q);
        ParentIs(f, l, q, root);
      }
    }
  }

  lemma RemovedOutside(f: Forest, l: map<TiXmlNode, Link>, m: map<TiXmlNode, Link>, p: TiXmlNode, k: nat, root: TiXmlNode)
    requires LinkedBy(f, l) && p in f.Nodes() && k < |f.Children(p)| && IsTree(l, f, root)
    requires Removed(l, m, p, f.Children(p), k)
    ensures root in m && SameOutside(l[root], m[root])
  {
    assert root !in f.Children(p) by {
      ChainParents(l, p, f.Children(p));
    }
  }

  /** A part of a tree that holds the root and the parents is a tree. */
  lemma TreeWithout(f: Forest, l: map<TiXmlNode, Link>, m: map<TiXmlNode, Link>, h: Forest, root: TiXmlNode)
    requires IsTree(l, f, root) && h.Nodes() <= f.Nodes() <= l.Keys && h.Nodes() <= m.Keys && root in h.Nodes()
    requires forall n :: n in h.Nodes() ==> m[n].parent == l[n].parent && (l[n].parent in f.Nodes() ==> l[n].parent in h.Nodes())
    ensures IsTree(m, h, root)
  {
  }

  // ---- What the nodes hold ----

  /** The fields of a node that are not links. */
  datatype Held = Held(kind: NodeType, value: string, cdata: bool, version: string, encoding: string, standalone: string)

  ghost function HeldBy(n: TiXmlNode): Held
    reads n
  {
    Held(n.kind, n.value, n.cdata, n.version, n.encoding, n.standalone)
  }

  ghost predicate FieldsShow(held: Held, data: Label) {
    match data
    case DocumentLabel(name) => held.kind == DocumentNode && held.value == name
    case ElementLabel(name, _) => held.kind == ElementNode && held.value == name
    case LeafLabel(Element(_, _, _)) => false
    case LeafLabel(Document(_, _)) => false
    case LeafLabel(Text(value, cdata)) => held.kind == TextNode && held.value == value && held.cdata == cdata
    case LeafLabel(Comment(value)) => held.kind == CommentNode && held.value == value
    case LeafLabel(Unknown(value)) => held.kind == UnknownNode && held.value == value
    case LeafLabel(Declaration(version, encoding, standalone)) =>
      held.kind == DeclarationNode
      && held.version == version && held.encoding == encoding && held.standalone == standalone
  }

  ghost predicate RingShows(attributes: TiXmlAttributeSet, data: Label, ring: seq<TiXmlAttribute>)
    reads attributes.sentinel, ring
  {
    attributes.IsRing(ring) && (data.ElementLabel? ==> Contents(ring) == data.attributes)
  }

  /** The attribute sets hold the rings and attributes of the entries. */
  ghost predicate AttributesShown(f: Forest)
    reads f.attributes
  {
    forall n {:trigger f.entries[n]} :: n in f.Nodes() ==>
      n.attributeSet.sentinel in f.attributes
      && (forall i :: 0 <= i < |f.entries[n].ring| ==> f.entries[n].ring[i] in f.attributes)
      && RingShows(n.attributeSet, f.entries[n].data, f.entries[n].ring)
  }

  ghost predicate FieldsShown(f: Forest)
    reads f.entries.Keys
  {
    forall n {:trigger f.entries[n]} :: n in f.Nodes() ==> FieldsShow(HeldBy(n), f.entries[n].data)
  }

  /** The fields of every node are those of its entry. */
  ghost predicate Shown(f: Forest)
    reads f.entries.Keys, f.attributes
  {
    AttributesShown(f) && FieldsShown(f)
  }

  lemma GraftAttributesShown(f: Forest, g: Forest, p: TiXmlNode, kids: seq<TiXmlNode>)
    requires AttributesShown(f) && AttributesShown(g)
    ensures AttributesShown(Graft(f, g, p, kids))
  {
    hide RingShows;
    var h := Graft(f, g, p, kids);
    forall n | n in h.Nodes()
      ensures n.attributeSet.sentinel in h.attributes
      ensures forall i :: 0 <= i < |h.entries[n].ring| ==> h.entries[n].ring[i] in h.attributes
      ensures RingShows(n.attributeSet, h.entries[n].data, h.entries[n].ring)
    {
      GraftEntry(f, g, p, kids, n);
    }
  }

  lemma GraftRingsApart(f: Forest, g: Forest, p: TiXmlNode, kids: seq<TiXmlNode>, node: TiXmlNode)
    requires AttributesShown(f) && AttributesShown(g) && f.RingsApart() && g.RingsApart() && Attachable(f, g, node)
    ensures Graft(f, g, p, kids).RingsApart()
  {
    hide RingShows, Linked, IsTree, Links;
    var h := Graft(f, g, p, kids);
    forall a, n, m | n in h.Nodes() && m in h.Nodes() && a in h.entries[n].ring && a in h.entries[m].ring ensures n == m {
      GraftEntry(f, g, p, kids, n);
      GraftEntry(f, g, p, kids, m);
      assert a in if n in g.Nodes() then g.attributes else f.attributes;
      assert a in if m in g.Nodes() then g.attributes else f.attributes;
    }
  }

  lemma GraftFieldsShown(f: Forest, g: Forest, p: TiXmlNode, kids: seq<TiXmlNode>)
    requires FieldsShown(f) && FieldsShown(g)
    ensures FieldsShown(Graft(f, g, p, kids))
  {
    hide FieldsShow;
    var h := Graft(f, g, p, kids);
    forall n | n in h.Nodes() ensures FieldsShow(HeldBy(n), h.entries[n].data) {
      GraftEntry(f, g, p, kids, n);
    }
  }

  /** The tree below a node. */
  ghost function ValueOf(f: Forest, n: TiXmlNode): Tree
    requires f.WellFormed() && n in f.Nodes()
    decreases f.entries[n].rank, |f.Children(n)| + 1
  {
    assert f.Sound(n);
    match f.entries[n].data
    case DocumentLabel(name) => Document(name, ValuesOf(f, n, 0))
    case ElementLabel(name, attributes) => Element(name, attributes, ValuesOf(f, n, 0))
    case LeafLabel(leaf) => leaf
  }

  /** The trees below the children of `n`, from the `i`-th on. */
  ghost function ValuesOf(f: Forest, n: TiXmlNode, i: nat): (r: seq<Tree>)
    requires f.WellFormed() && n in f.Nodes() && i <= |f.Children(n)|
    ensures |r| == |f.Children(n)| - i
    decreases f.entries[n].rank, |f.Children(n)| - i
  {
    assert f.Sound(n);
    if i == |f.Children(n)| then [] else [ValueOf(f, f.Children(n)[i])] + ValuesOf(f, n, i + 1)
  }

  lemma {:induction false} ValuesAt(f: Forest, n: TiXmlNode, i: nat, j: nat)
    requires f.WellFormed() && n in f.Nodes() && i + j < |f.Children(n)|
    ensures f.Children(n)[i + j] in f.Nodes() && ValuesOf(f, n, i)[j] == ValueOf(f, f.Children(n)[i + j])
    decreases j
  {
    assert f.Sound(n);
    if j > 0 {
      ValuesAt(f, n, i + 1, j - 1);
    }
  }

  /** Nothing changes below a node both forests hold with the same entries, ranks aside. */
  ghost predicate SameBelow(f: Forest, h: Forest, limit: nat) {
    f.WellFormed() && h.WellFormed()
    && forall n {:trigger f.entries[n]} :: n in f.Nodes() && f.entries[n].rank < limit ==>
         n in h.Nodes() && h.entries[n].children == f.entries[n].children && h.entries[n].data == f.entries[n].data
  }

  lemma {:induction false} SameValue(f: Forest, h: Forest, limit: nat, n: TiXmlNode)
    requires SameBelow(f, h, limit) && n in f.Nodes() && f.entries[n].rank < limit
    ensures n in h.Nodes() && ValueOf(h, n) == ValueOf(f, n)
    decreases f.entries[n].rank, |f.Children(n)| + 1
  {
    SameValues(f, h, limit, n, 0);
  }

  lemma {:induction false} SameValues(f: Forest, h: Forest, limit: nat, n: TiXmlNode, i: nat)
    requires SameBelow(f, h, limit) && n in f.Nodes() && f.entries[n].rank < limit && i <= |f.Children(n)|
    ensures n in h.Nodes() && h.Children(n) == f.Children(n) && ValuesOf(h, n, i) == ValuesOf(f, n, i)
    decreases f.entries[n].rank, |f.Children(n)| - i
  {
    assert f.Sound(n) && f.entries[n].children == h.entries[n].children;
    if i < |f.Children(n)| {
      SameValue(f, h, limit, f.Children(n)[i]);
      SameValues(f, h, limit, n, i + 1);
    }
  }

  /** A graft leaves everything below the other nodes alone. */
  lemma GraftSame(f: Forest, g: Forest, p: TiXmlNode, k: nat, node: TiXmlNode)
    requires f.WellFormed() && g.WellFormed() && f.Nodes() !! g.Nodes()
    requires p in f.Nodes() && k <= |f.Children(p)| && node in g.Nodes()
    ensures var h := Graft(f, g, p, InsertAt(f.Children(p), k, node));
            h.WellFormed() && SameBelow(g, h, g.top) && SameBelow(f, h, f.entries[p].rank)
            && h.Children(p) == InsertAt(f.Children(p), k, node)
  {
    GraftSound(f, g, p, k, node);
    hide InsertAt, Forest.WellFormed;
  }

  /** The same child below the same node of two forests. */
  lemma SameChildValue(f: Forest, h: Forest, p: TiXmlNode, j: nat, i: nat)
    requires f.WellFormed() && h.WellFormed() && p in f.Nodes() && p in h.Nodes()
    requires j < |f.Children(p)| && i < |h.Children(p)| && h.Children(p)[i] == f.Children(p)[j]
    requires SameBelow(f, h, f.entries[p].rank)
    ensures ValuesOf(h, p, 0)[i] == ValuesOf(f, p, 0)[j]
  {
    hide ValueOf, ValuesOf, SameBelow, Forest.WellFormed, Forest.Sound;
    ValuesAt(h, p, 0, i);
    ValuesAt(f, p, 0, j);
    ChildRank(f, p, j);
    SameValue(f, h, f.entries[p].rank, f.Children(p)[j]);
  }

  /** The child that came with another forest. */
  lemma NewChildValue(g: Forest, h: Forest, p: TiXmlNode, k: nat, node: TiXmlNode)
    requires g.WellFormed() && h.WellFormed() && p in h.Nodes() && node in g.Nodes()
    requires k < |h.Children(p)| && h.Children(p)[k] == node && SameBelow(g, h, g.top)
    ensures ValuesOf(h, p, 0)[k] == ValueOf(g, node)
  {
    hide ValueOf, ValuesOf, SameBelow, Forest.WellFormed, Forest.Sound;
    ValuesAt(h, p, 0, k);
    RankBound(g, node);
    SameValue(g, h, g.top, node);
  }

  /** A tree below a child of the node that took in `node`. */
  lemma JoinedValueAt(f: Forest, g: Forest, h: Forest, p: TiXmlNode, k: nat, node: TiXmlNode, i: nat)
    requires f.WellFormed() && g.WellFormed() && h.WellFormed()
    requires p in f.Nodes() && p in h.Nodes() && k <= |f.Children(p)| && node in g.Nodes() && i <= |f.Children(p)|
    requires SameBelow(g, h, g.top) && SameBelow(f, h, f.entries[p].rank) && h.Children(p) == InsertAt(f.Children(p), k, node)
    ensures Takes(ValuesOf(f, p, 0), ValuesOf(h, p, 0), k, ValueOf(g, node), i)
  {
    InsertAtOne(f.Children(p), k, node, i);
    hide InsertAt, ValueOf, ValuesOf, SameBelow, Forest.WellFormed, Forest.Sound;
    if i == k {
      NewChildValue(g, h, p, k, node);
    } else {
      SameChildValue(f, h, p, if i < k then i else i - 1, i);
    }
  }

  lemma RankBound(f: Forest, n: TiXmlNode)
    requires f.WellFormed() && n in f.Nodes()
    ensures f.entries[n].rank < f.top
  {
    assert f.Sound(n);
  }

  lemma ChildRank(f: Forest, n: TiXmlNode, j: nat)
    requires f.WellFormed() && n in f.Nodes() && j < |f.Children(n)|
    ensures f.Children(n)[j] in f.Nodes() && f.entries[f.Children(n)[j]].rank < f.entries[n].rank
  {
    assert f.Sound(n);
  }

  /** The trees below the children of the node that took in `node`. */
  lemma GraftValues(f: Forest, g: Forest, p: TiXmlNode, k: nat, node: TiXmlNode)
    requires f.WellFormed() && g.WellFormed() && f.Nodes() !! g.Nodes()
    requires p in f.Nodes() && k <= |f.Children(p)| && node in g.Nodes()
    ensures var h := Graft(f, g, p, InsertAt(f.Children(p), k, node));
            var v := ValuesOf(f, p, 0);
            h.WellFormed() && ValuesOf(h, p, 0) == v[..k] + [ValueOf(g, node)] + v[k..]
  {
    GraftSame(f, g, p, k, node);
    hide InsertAt, Graft, ValueOf, ValuesOf, SameBelow, Forest.WellFormed, Takes;
    var h := Graft(f, g, p, InsertAt(f.Children(p), k, node));
    var v, w := ValuesOf(f, p, 0), ValuesOf(h, p, 0);
    forall i | 0 <= i <= |v| ensures Takes(v, w, k, ValueOf(g, node), i) {
      JoinedValueAt(f, g, h, p, k, node, i);
    }
    Spliced(v, w, k, ValueOf(g, node));
  }

  /** At this place `w` is `v` with `x` taken in before the `k`-th. */
  ghost predicate Takes<T>(v: seq<T>, w: seq<T>, k: nat, x: T, i: int) {
    k <= |v| && |w| == |v| + 1 && (0 <= i <= |v| ==> w[i] == if i < k then v[i] else if i == k then x else v[i - 1])
  }

  lemma Spliced<T>(v: seq<T>, w: seq<T>, k: nat, x: T)
    requires forall i :: 0 <= i <= |v| ==> Takes(v, w, k, x, i)
    ensures k <= |v| && w == v[..k] + [x] + v[k..]
  {
    assert Takes(v, w, k, x, 0);
    forall i | 0 <= i < |w| ensures w[i] == (v[..k] + [x] + v[k..])[i] {
      assert Takes(v, w, k, x, i);
    }
  }

  /** What the error state of a document holds when a child may have been refused. */
  ghost function Refused(before: Option<Error>, refused: bool): Option<Error> {
    if refused then Reported(before, Some(Grammar.ErrorDocumentTopOnly)) else before
  }

  /** That is the error for a document below another node, unless there is one before. */
  lemma RefusedMeans(e: Error)
    ensures Refused(None, true) == Some(Grammar.ErrorDocumentTopOnly) && Refused(Some(e), true) == Some(e)
    ensures Refused(None, false) == None && Refused(Some(e), false) == Some(e)
  {
  }

  // ---- Cloning ----

  /** The forest describes the state. */
  ghost predicate Intact(f: Forest)
    reads f.entries.Keys, f.attributes
  {
    f.WellFormed() && Linked(f) && Shown(f) && f.RingsApart()
  }

  /** `f` is one tree with this root. */
  ghost predicate IsRoot(f: Forest, node: TiXmlNode): (r: bool)
    reads f.entries.Keys, f.attributes
    ensures r ==> f.WellFormed() && node in f.Nodes()
  {
    Intact(f) && node in f.Nodes() && IsTree(Links(f.Nodes()), f, node)
  }

  /** `f` is one tree, and its root hangs nowhere. */
  ghost predicate StandsAlone(f: Forest, root: TiXmlNode)
    reads f.entries.Keys, f.attributes, root
  {
    IsRoot(f, root) && Unlinked(root)
  }

  lemma ChainAt(f: Forest, n: TiXmlNode, k: nat)
    requires Intact(f) && n in f.Nodes() && k <= |f.Children(n)|
    ensures var kids := f.Children(n);
            n.firstChild == (if kids == [] then null else kids[0])
            && n.lastChild == (if kids == [] then null else kids[|kids| - 1])
            && (k < |kids| ==> kids[k].next == if k + 1 < |kids| then kids[k + 1] else null)
            && (k < |kids| ==> kids[k].prev == if k > 0 then kids[k - 1] else null)
            && (k < |kids| ==> kids[k].parent == n && kids[k] in f.Nodes())
  {
    var l, kids := Links(f.Nodes()), f.Children(n);
    assert f.Sound(n) && Chain(l, n, kids);
    if k < |kids| {
      assert l[kids[k]].next == (if k == |kids| - 1 then null else kids[k + 1]);
      assert l[kids[k]].prev == (if k == 0 then null else kids[k - 1]);
      assert l[kids[k]].parent == n;
    }
  }

  lemma ChildrenInside(f: Forest, n: TiXmlNode)
    requires Intact(f) && n in f.Nodes()
    ensures forall i {:trigger f.Children(n)[i]} :: 0 <= i < |f.Children(n)| ==> f.Children(n)[i] in f.Nodes()
  {
    assert f.Sound(n);
  }

  lemma IntactMeans(f: Forest)
    requires Intact(f)
    ensures f.WellFormed()
  {
  }

  lemma NoValues(f: Forest, n: TiXmlNode)
    requires f.WellFormed() && n in f.Nodes() && f.Children(n) == []
    ensures ValuesOf(f, n, 0) == []
  {
  }

  /** One unlinked node. */
  ghost function Single(n: TiXmlNode, data: Label, ring: seq<TiXmlAttribute>): Forest {
    Forest(map[n := Entry([], data, ring, 0)], {n.attributeSet.sentinel} + set a | a in ring, 1)
  }

  lemma SingleIntact(n: TiXmlNode, data: Label, ring: seq<TiXmlAttribute>)
    requires n.firstChild == null && n.lastChild == null && n.parent != n
    requires FieldsShow(HeldBy(n), data) && RingShows(n.attributeSet, data, ring)
    ensures var g := Single(n, data, ring); Intact(g) && IsTree(Links(g.Nodes()), g, n) && ValuesOf(g, n, 0) == []
  {
    var g := Single(n, data, ring);
    assert g.Sound(n) && g.Nodes() == {n};
    assert g.WellFormed();
    assert Chain(Links(g.Nodes()), n, []);
    assert Hung(Links(g.Nodes()), g, n);
  }

  /** `target` is the root of a tree that shares nothing with `f`. */
  ghost predicate IsCopyTarget(f: Forest, g: Forest, target: TiXmlNode)
    reads g.entries.Keys, g.attributes
  {
    && Intact(g) && target in g.Nodes() && IsTree(Links(g.Nodes()), g, target) && f.Nodes() !! g.Nodes()
    && g.LeavesAreBare() && !g.entries[target].data.LeafLabel?
  }

  /** The root of a copy while its children are copied. */
  ghost predicate Filling(f: Forest, h: Forest, target: TiXmlNode, data: Label, link: Link, done: seq<Tree>)
    reads h.entries.Keys, h.attributes, target
  {
    && IsCopyTarget(f, h, target) && h.entries[target].data == data && SameOutside(LinkOf(target), link)
    && ValuesOf(h, target, 0) == done
  }

  lemma FillingStarts(f: Forest, g: Forest, target: TiXmlNode)
    requires IsCopyTarget(f, g, target) && g.Children(target) == []
    ensures Filling(f, g, target, g.entries[target].data, LinkOf(target), [])
  {
    hide Intact, IsTree;
    IntactMeans(g);
    NoValues(g, target);
  }

  lemma FillingApart(f: Forest, h: Forest, target: TiXmlNode, data: Label, link: Link, done: seq<Tree>)
    requires Filling(f, h, target, data, link, done)
    ensures Intact(h) && f.Nodes() !! h.Nodes()
  {
    hide Intact, IsTree, ValuesOf;
  }

  /** A tree that was hung below a node outside is still one tree. */
  lemma HungTree(h: Forest, l: map<TiXmlNode, Link>, t: Forest, p: TiXmlNode, k: nat, r: TiXmlNode)
    requires Intact(h) && p in h.Nodes() && k < |h.Children(p)| && h.Children(p)[k] == r && p !in t.Nodes()
    requires IsTree(l, t, r) && t.Nodes() <= l.Keys
    requires forall n {:trigger LinkOf(n)} :: n in t.Nodes() && n != r ==> l[n] == LinkOf(n)
    ensures IsTree(Links(t.Nodes()), t, r)
  {
    hide Intact;
    ChainAt(h, p, k);
  }

  lemma GraftedKids(f: Forest, g: Forest, p: TiXmlNode, k: nat, node: TiXmlNode)
    requires p in f.Nodes() && p !in g.Nodes() && k <= |f.Children(p)|
    ensures var h := Graft(f, g, p, InsertAt(f.Children(p), k, node));
            h.Children(p) == InsertAt(f.Children(p), k, node) && k < |h.Children(p)| && h.Children(p)[k] == node
  {
    InsertAtOne(f.Children(p), k, node, k);
    hide InsertAt;
  }

  lemma SwappedKids(f: Forest, g: Forest, h: Forest, p: TiXmlNode, k: nat, node: TiXmlNode)
    requires Swapped(f, g, h, p, k, node)
    ensures p in h.Nodes() && k < |h.Children(p)| && h.Children(p)[k] == node
  {
  }

  lemma FillingFrom(f: Forest, h: Forest, target: TiXmlNode, data: Label, link: Link, link': Link, done: seq<Tree>)
    requires IsCopyTarget(f, h, target) && h.entries[target].data == data && ValuesOf(h, target, 0) == done
    requires SameOutside(link', link) && SameOutside(link', LinkOf(target))
    ensures Filling(f, h, target, data, link, done)
  {
    hide IsCopyTarget, ValuesOf;
  }

  lemma LinksAll(nodes: set<TiXmlNode>)
    ensures forall n {:trigger LinkOf(n)} :: n in nodes ==> Links(nodes)[n] == LinkOf(n)
  {
  }

  lemma PlaceInside(place: Place, kids: seq<TiXmlNode>, k: nat)
    requires IsPlace(place, kids, k)
    ensures k <= |kids|
  {
  }

  lemma LinksAt(nodes: set<TiXmlNode>, n: TiXmlNode)
    requires n in nodes
    ensures Links(nodes)[n] == LinkOf(n)
  {
  }

  lemma FillingMeans(f: Forest, h: Forest, target: TiXmlNode, data: Label, link: Link, done: seq<Tree>)
    requires Filling(f, h, target, data, link, done)
    ensures IsCopyTarget(f, h, target) && h.entries[target].data == data && SameOutside(LinkOf(target), link)
    ensures ValuesOf(h, target, 0) == done
  {
    hide Linked, Shown, IsTree, ValuesOf;
  }

  lemma ChildBelow(f: Forest, n: TiXmlNode, c: TiXmlNode)
    requires Intact(f) && n in f.Nodes() && c in f.Children(n)
    ensures c in f.Nodes() && f.entries[c].rank < f.entries[n].rank
  {
    assert f.Sound(n);
  }

  lemma FreshAttachable(f: Forest, g: Forest, node: TiXmlNode)
    requires Intact(f) && Intact(g) && f.Nodes() !! g.Nodes() && f.attributes !! g.attributes
    requires IsTree(Links(g.Nodes()), g, node)
    requires forall n :: n in f.Nodes() ==> n.parent !in g.Nodes()
    ensures Attachable(f, g, node)
  {
  }

  /** What a copy shows without its children. */
  ghost function CopiedLabel(data: Label): Label {
    match data
    case DocumentLabel(name) => DocumentLabel(CStr(name))
    case ElementLabel(name, attributes) => ElementLabel(CStr(name), CopyAttributes([], Visible(attributes)))
    case LeafLabel(leaf) => LeafLabel(CopyTree(leaf))
  }

  lemma LeafCopied(n: TiXmlNode, c: TiXmlNode, leaf: Tree)
    requires FieldsShow(HeldBy(n), LeafLabel(leaf)) && c.kind == n.kind && c.value == CStr(n.value)
    requires n.kind == TextNode ==> c.cdata == n.cdata
    requires n.kind == DeclarationNode ==>
               c.version == n.version && c.encoding == n.encoding && c.standalone == n.standalone
    ensures FieldsShow(HeldBy(c), LeafLabel(CopyTree(leaf)))
  {
  }

  lemma SingleValue(c: TiXmlNode, leaf: Tree)
    requires Single(c, LeafLabel(leaf), []).WellFormed()
    ensures ValueOf(Single(c, LeafLabel(leaf), []), c) == leaf
  {
    hide Forest.WellFormed;
  }

  /** A copied node with copied children is a copied tree. */
  lemma CopiedValue(f: Forest, n: TiXmlNode, g: Forest, c: TiXmlNode)
    requires f.WellFormed() && n in f.Nodes() && g.WellFormed() && c in g.Nodes()
    requires g.entries[c].data == CopiedLabel(f.entries[n].data) && ValuesOf(g, c, 0) == CopyTrees(ValuesOf(f, n, 0))
    ensures ValueOf(g, c) == CopyTree(ValueOf(f, n))
  {
    hide ValuesOf, ValueOf, CopyTrees, CopyAttributes, Visible, Forest.WellFormed;
    ValueUnfolds(f, n);
    ValueUnfolds(g, c);
  }

  /** A node's value is a document exactly when the node is one. */
  lemma DocumentValue(f: Forest, n: TiXmlNode)
    requires Intact(f) && n in f.Nodes()
    ensures ValueOf(f, n).Document? <==> n.kind == DocumentNode
  {
    hide Linked, ValueOf, ValuesOf, Forest.WellFormed;
    EntryShown(f, n);
    ValueUnfolds(f, n);
  }

  lemma AppendMiddle(v: seq<Tree>, x: Tree)
    ensures v[..|v|] + [x] + v[|v|..] == v + [x]
  {
  }

  lemma AttachableParts(f: Forest, g: Forest, node: TiXmlNode)
    requires Attachable(f, g, node)
    ensures f.WellFormed() && g.WellFormed() && f.Nodes() !! g.Nodes()
    ensures node in g.Nodes()
  {
    hide LinkedBy, Forest.WellFormed;
  }

  /** What a graft at the end leaves and what it adds. */
  lemma GraftKeeps(f: Forest, g: Forest, p: TiXmlNode, node: TiXmlNode)
    requires Attachable(f, g, node) && p in f.Nodes()
    ensures var h := Graft(f, g, p, f.Children(p) + [node]);
            h.WellFormed() && h.Nodes() == f.Nodes() + g.Nodes() && h.entries[p].data == f.entries[p].data
            && ValuesOf(h, p, 0) == ValuesOf(f, p, 0) + [ValueOf(g, node)]
  {
    AttachableParts(f, g, node);
    hide ValuesOf, ValueOf, InsertAt, Attachable, Forest.WellFormed, Graft;
    AppendIsInsert(f.Children(p), node);
    GraftEntry(f, g, p, f.Children(p) + [node], p);
    GraftValues(f, g, p, |f.Children(p)|, node);
    AppendMiddle(ValuesOf(f, p, 0), ValueOf(g, node));
  }

  /** A graft below a node that is no leaf puts nothing below leaves. */
  lemma GraftBare(f: Forest, g: Forest, p: TiXmlNode, kids: seq<TiXmlNode>)
    requires f.LeavesAreBare() && g.LeavesAreBare() && p in f.Nodes() && !f.entries[p].data.LeafLabel?
    ensures Graft(f, g, p, kids).LeavesAreBare()
  {
  }

  /** The root of one tree stays it. */
  lemma RootKept(l: map<TiXmlNode, Link>, f: Forest, m: map<TiXmlNode, Link>, h: Forest, root: TiXmlNode)
    requires Kept(l, f, m, h) && root in f.Nodes() && IsTree(l, f, root)
    ensures IsTree(m, h, root) && root in l && root in m && SameOutside(l[root], m[root])
  {
    hide ParentsKept;
  }

  lemma EntryShown(f: Forest, n: TiXmlNode)
    requires Intact(f) && n in f.Nodes()
    ensures var e := f.entries[n];
            FieldsShow(HeldBy(n), e.data) && RingShows(n.attributeSet, e.data, e.ring)
            && n.attributeSet.sentinel in f.attributes && forall i :: 0 <= i < |e.ring| ==> e.ring[i] in f.attributes
  {
  }

  lemma ValueUnfolds(f: Forest, n: TiXmlNode)
    requires f.WellFormed() && n in f.Nodes()
    ensures ValueOf(f, n) == match f.entries[n].data
                             case DocumentLabel(name) => Document(name, ValuesOf(f, n, 0))
                             case ElementLabel(name, attributes) => Element(name, attributes, ValuesOf(f, n, 0))
                             case LeafLabel(leaf) => leaf
  {
    hide ValuesOf;
  }

  // ---- What an edit of one tree leaves ----

  /** One tree stays one tree that hangs nowhere. */
  lemma StandsStill(l: map<TiXmlNode, Link>, f: Forest, h: Forest, root: TiXmlNode)
    requires Intact(h) && Kept(l, f, Links(h.Nodes()), h)
    requires root in f.Nodes() && root in l && IsTree(l, f, root)
    requires l[root].parent == null && l[root].prev == null && l[root].next == null
    ensures StandsAlone(h, root)
  {
    hide Intact, Kept, IsTree;
    RootKept(l, f, Links(h.Nodes()), h, root);
    RootInside(Links(h.Nodes()), h, root);
    LinksAt(h.Nodes(), root);
  }

  lemma RootInside(l: map<TiXmlNode, Link>, h: Forest, root: TiXmlNode)
    requires IsTree(l, h, root)
    ensures root in h.Nodes()
  {
  }

  lemma AloneLinks(f: Forest, root: TiXmlNode)
    requires StandsAlone(f, root)
    ensures f.WellFormed() && root in f.Nodes() && LinkedBy(f, Links(f.Nodes())) && IsTree(Links(f.Nodes()), f, root)
    ensures root in Links(f.Nodes())
    ensures var o := Links(f.Nodes())[root]; o.parent == null && o.prev == null && o.next == null
  {
    hide Shown, LinkedBy, IsTree, Forest.WellFormed, Forest.RingsApart;
  }

  lemma AloneApart(f: Forest, root: TiXmlNode, g: Forest)
    requires StandsAlone(f, root) && f.Nodes() !! g.Nodes()
    ensures forall n :: n in f.Nodes() ==> n.parent !in g.Nodes()
  {
    hide Intact;
    var l := Links(f.Nodes());
    forall n | n in f.Nodes() ensures n.parent !in g.Nodes() {
      assert l[n].parent == n.parent;
    }
  }

  lemma GraftHolds(f: Forest, g: Forest, p: TiXmlNode, kids: seq<TiXmlNode>)
    ensures Graft(f, g, p, kids).attributes == f.attributes + g.attributes
  {
  }

  // ---- What pruning leaves ----

  lemma PruneHung(f: Forest, l: map<TiXmlNode, Link>, m: map<TiXmlNode, Link>, p: TiXmlNode, k: nat, n: TiXmlNode)
    requires f.WellFormed() && LinkedBy(f, l) && p in f.Nodes() && k < |f.Children(p)|
    requires Removed(l, m, p, f.Children(p), k) && p !in f.Children(p)
    requires n in Prune(f, p, k).Nodes()
    ensures Hung(m, Prune(f, p, k), n)
  {
    PruneChildren(f, p, k, n);
    NotRemoved(f, p, k, n);
    KeepsParent(f, l, m, p, k, n);
    hide LinkedBy, Removed, RemoveAt, Below, Forest.WellFormed;
    var q := l[n].parent;
    if q != null && q in Prune(f, p, k).Nodes() {
      PruneChildren(f, p, k, q);
      if q == p {
        StaysIn(f.Children(p), k, n);
      }
    }
  }

  /** A removal changes no parent. */
  lemma KeepsParent(f: Forest, l: map<TiXmlNode, Link>, m: map<TiXmlNode, Link>, p: TiXmlNode, k: nat, n: TiXmlNode)
    requires LinkedBy(f, l) && n in f.Nodes() && p in f.Nodes() && k < |f.Children(p)| && Removed(l, m, p, f.Children(p), k)
    ensures n in l && n in m && m[n].parent == l[n].parent
    ensures l[n].parent != null && l[n].parent in f.Nodes() ==> n in f.Children(l[n].parent)
  {
    hide Chain;
    assert Hung(l, f, n);
  }

  lemma NotRemoved(f: Forest, p: TiXmlNode, k: nat, n: TiXmlNode)
    requires f.WellFormed() && p in f.Nodes() && k < |f.Children(p)| && n in Prune(f, p, k).Nodes()
    ensures n != f.Children(p)[k]
  {
    hide BelowFrom;
    assert f.Sound(p);
  }

  lemma StaysIn(kids: seq<TiXmlNode>, k: nat, n: TiXmlNode)
    requires k < |kids| && n in kids && n != kids[k]
    ensures n in RemoveAt(kids, k)
  {
    var i :| 0 <= i < |kids| && kids[i] == n;
    assert RemoveAt(kids, k)[if i < k then i else i - 1] == n;
  }

  lemma OthersKept(f: Forest, l: map<TiXmlNode, Link>, m: map<TiXmlNode, Link>, p: TiXmlNode, kids: seq<TiXmlNode>,
                   n: TiXmlNode)
    requires LinkedBy(f, l) && n in f.Nodes() && n != p && ParentOf(l, p, kids) && OnlyRelinked(l, m, p, kids)
    ensures Chain(m, n, f.Children(n))
  {
    hide OnlyRelinked, Chain, Hung;
    ChainParents(l, n, f.Children(n));
    ChainKept(l, m, p, kids, n, f.Children(n));
  }

  lemma PruneChildren(f: Forest, p: TiXmlNode, k: nat, n: TiXmlNode)
    requires f.WellFormed() && p in f.Nodes() && k < |f.Children(p)| && n in Prune(f, p, k).Nodes()
    ensures n in f.Nodes() && Prune(f, p, k).Children(n) == if n == p then RemoveAt(f.Children(p), k) else f.Children(n)
  {
    hide Below, Forest.WellFormed;
  }

  lemma LinkedFrom(h: Forest, m: map<TiXmlNode, Link>)
    requires forall n {:trigger h.Children(n)} :: n in h.Nodes() ==> Chain(m, n, h.Children(n))
    requires forall n {:trigger Hung(m, h, n)} :: n in h.Nodes() ==> Hung(m, h, n)
    ensures LinkedBy(h, m)
  {
  }

  lemma PruneLinked(f: Forest, l: map<TiXmlNode, Link>, m: map<TiXmlNode, Link>, p: TiXmlNode, k: nat)
    requires f.WellFormed() && LinkedBy(f, l) && p in f.Nodes() && k < |f.Children(p)|
    requires Removed(l, m, p, f.Children(p), k)
    ensures Prune(f, p, k).WellFormed() && LinkedBy(Prune(f, p, k), m)
  {
    var kids := f.Children(p);
    var h := Prune(f, p, k);
    assert f.Sound(p) && Chain(l, p, kids);
    PruneSound(f, l, p, k);
    RemovedChain(l, m, p, kids, k);
    RemovedOnly(l, m, p, kids, k);
    ChainParents(l, p, kids);
    hide RemoveAt, Removed, OnlyRelinked, Chain, Hung, Below, LinkedBy, Prune, Forest.WellFormed, Forest.Sound, ParentOf;
    forall n | n in h.Nodes() ensures Chain(m, n, h.Children(n)) {
      PruneChildren(f, p, k, n);
      if n != p {
        OthersKept(f, l, m, p, kids, n);
      }
    }
    forall n | n in h.Nodes() ensures Hung(m, h, n) {
      PruneHung(f, l, m, p, k, n);
    }
    LinkedFrom(h, m);
  }

  /** The forest does not look beyond its nodes. */
  lemma LinkedByRestricts(f: Forest, m: map<TiXmlNode, Link>, l: map<TiXmlNode, Link>)
    requires f.WellFormed() && LinkedBy(f, m) && l.Keys == f.Nodes() && forall n :: n in l ==> n in m && l[n] == m[n]
    ensures LinkedBy(f, l)
  {
    forall n | n in f.Nodes() ensures Chain(l, n, f.Children(n)) {
      assert Chain(m, n, f.Children(n)) && f.Sound(n);
    }
    forall n | n in f.Nodes() ensures Hung(l, f, n) {
      assert Hung(m, f, n);
    }
  }

  lemma PruneValueAt(f: Forest, l: map<TiXmlNode, Link>, p: TiXmlNode, k: nat, i: nat)
    requires f.WellFormed() && LinkedBy(f, l) && p in f.Nodes() && k < |f.Children(p)| && i + 1 < |f.Children(p)|
    ensures var h := Prune(f, p, k);
            var v := ValuesOf(f, p, 0);
            h.WellFormed() && p in h.Nodes() && |h.Children(p)| == |v| - 1
            && ValuesOf(h, p, 0)[i] == if i < k then v[i] else v[i + 1]
  {
    PruneSame(f, l, p, k);
    RemoveAtOne(f.Children(p), k, i);
    hide RemoveAt, Prune, ValueOf, ValuesOf, SameBelow, Forest.WellFormed, Forest.Sound, LinkedBy;
    SameChildValue(Prune(f, p, k), f, p, i, if i < k then i else i + 1);
  }

  /** A removal leaves everything below the other nodes alone. */
  lemma PruneSame(f: Forest, l: map<TiXmlNode, Link>, p: TiXmlNode, k: nat)
    requires f.WellFormed() && LinkedBy(f, l) && p in f.Nodes() && k < |f.Children(p)|
    ensures var h := Prune(f, p, k);
            h.WellFormed() && p in h.Nodes() && SameBelow(h, f, f.entries[p].rank)
            && h.Children(p) == RemoveAt(f.Children(p), k) && h.entries[p].rank == f.entries[p].rank
  {
    PruneSound(f, l, p, k);
    hide RemoveAt, Below, LinkedBy, Forest.WellFormed;
  }

  /** The trees below the children of the node that lost one. */
  lemma PruneValues(f: Forest, l: map<TiXmlNode, Link>, p: TiXmlNode, k: nat)
    requires f.WellFormed() && LinkedBy(f, l) && p in f.Nodes() && k < |f.Children(p)|
    ensures var h := Prune(f, p, k);
            var v := ValuesOf(f, p, 0);
            h.WellFormed() && p in h.Nodes() && ValuesOf(h, p, 0) == v[..k] + v[k + 1..]
  {
    PruneSame(f, l, p, k);
    RemoveAtFacts(f.Children(p), k);
    hide RemoveAt, Prune, ValueOf, ValuesOf, Forest.WellFormed, LinkedBy;
    var v, w := ValuesOf(f, p, 0), ValuesOf(Prune(f, p, k), p, 0);
    forall i | 0 <= i < |w| ensures w[i] == (v[..k] + v[k + 1..])[i] {
      PruneValueAt(f, l, p, k, i);
    }
  }

  lemma PruneShown(f: Forest, p: TiXmlNode, k: nat)
    requires f.WellFormed() && Shown(f) && p in f.Nodes() && k < |f.Children(p)|
    ensures Shown(Prune(f, p, k))
  {
    var h := Prune(f, p, k);
    forall n | n in h.Nodes() ensures FieldsShow(HeldBy(n), h.entries[n].data) {
      assert FieldsShow(HeldBy(n), f.entries[n].data);
    }
  }

  lemma PruneRingsApart(f: Forest, p: TiXmlNode, k: nat)
    requires f.WellFormed() && f.RingsApart() && p in f.Nodes() && k < |f.Children(p)|
    ensures Prune(f, p, k).RingsApart()
  {
    hide Below, Forest.Sound;
    var h := Prune(f, p, k);
    forall a, n, m | n in h.Nodes() && m in h.Nodes() && a in h.entries[n].ring && a in h.entries[m].ring ensures n == m {
      assert a in f.entries[n].ring && a in f.entries[m].ring;
    }
  }

  ghost function IndexOfChild(f: Forest, p: TiXmlNode, c: TiXmlNode): (k: nat)
    requires Intact(f) && p in f.Nodes() && c in f.Nodes() && c.parent == p
    reads f.entries.Keys, f.attributes
    ensures k < |f.Children(p)| && f.Children(p)[k] == c
  {
    assert Hung(Links(f.Nodes()), f, c);
    var k :| 0 <= k < |f.Children(p)| && f.Children(p)[k] == c;
    k
  }

  /** `r` is the root of a copy of the tree at `n`. */
  ghost predicate IsCloneOf(t: Forest, r: TiXmlNode, src: Forest, n: TiXmlNode) {
    && t.WellFormed() && src.WellFormed() && n in src.Nodes() && r in t.Nodes()
    && ValueOf(t, r) == CopyTree(ValueOf(src, n)) && t.LeavesAreBare()
  }

  lemma LinkedLinks(f: Forest)
    requires Intact(f)
    ensures LinkedBy(f, Links(f.Nodes()))
  {
  }

  lemma SoundChildren(f: Forest, p: TiXmlNode)
    requires f.WellFormed() && p in f.Nodes()
    ensures p !in f.Children(p) && Distinct(f.Children(p))
  {
    assert f.Sound(p);
  }

  lemma PruneLinkedNow(f: Forest, l: map<TiXmlNode, Link>, p: TiXmlNode, k: nat)
    requires f.WellFormed() && LinkedBy(f, l) && p in f.Nodes() && k < |f.Children(p)|
    requires Removed(l, Links(f.Nodes()), p, f.Children(p), k)
    ensures Linked(Prune(f, p, k))
  {
    hide Removed;
    var h := Prune(f, p, k);
    PruneLinked(f, l, Links(f.Nodes()), p, k);
    hide LinkedBy;
    LinkedByRestricts(h, Links(f.Nodes()), Links(h.Nodes()));
  }

  lemma PruneKeptNow(f: Forest, l: map<TiXmlNode, Link>, p: TiXmlNode, k: nat)
    requires f.WellFormed() && LinkedBy(f, l) && p in f.Nodes() && k < |f.Children(p)|
    requires Removed(l, Links(f.Nodes()), p, f.Children(p), k)
    ensures Kept(l, f, Links(Prune(f, p, k).Nodes()), Prune(f, p, k))
  {
    hide Removed, LinkedBy, Kept, Prune, Forest.WellFormed;
    PruneInside(f, p, k);
    PruneKept(f, l, Links(f.Nodes()), Links(Prune(f, p, k).Nodes()), p, k);
  }

  // ---- Replacing ----

  /** `m` is `l` with `node` in the place of the `k`-th of `p`'s children. */
  ghost predicate Replaced(l: map<TiXmlNode, Link>, m: map<TiXmlNode, Link>, p: TiXmlNode, kids: seq<TiXmlNode>, k: nat,
                           node: TiXmlNode)
    requires k < |kids|
  {
    var before := if k > 0 then kids[k - 1] else null;
    var after := if k + 1 < |kids| then kids[k + 1] else null;
    && l.Keys == m.Keys && p in l && node in l
    && m[node] == l[node].(parent := p, prev := before, next := after)
    && m[p] == l[p].(first := if k == 0 then node else l[p].first, last := if k + 1 == |kids| then node else l[p].last)
    && (before != null ==> before in l && m[before] == l[before].(next := node))
    && (after != null ==> after in l && m[after] == l[after].(prev := node))
    && forall n {:trigger m[n]} :: n in l && n != p && n != node && n != before && n != after ==> m[n] == l[n]
  }

  ghost predicate Swappable(f: Forest, g: Forest, p: TiXmlNode, k: nat, node: TiXmlNode) {
    && p in f.Nodes() && k < |f.Children(p)|
    && var joined := Graft(f, g, p, InsertAt(f.Children(p), k, node));
       joined.WellFormed() && p in joined.Nodes() && joined.Children(p) == InsertAt(f.Children(p), k, node)
  }

  /** The tree `g` goes in before the `k`-th child, which then goes out. */
  ghost function Swap(f: Forest, g: Forest, p: TiXmlNode, k: nat, node: TiXmlNode): Forest
    requires Swappable(f, g, p, k, node)
  {
    InsertAtFacts(f.Children(p), k, node);
    Prune(Graft(f, g, p, InsertAt(f.Children(p), k, node)), p, k + 1)
  }

  /** The state between the insertion and the removal that a replacement amounts to. */
  ghost function Between(l: map<TiXmlNode, Link>, p: TiXmlNode, kids: seq<TiXmlNode>, k: nat, node: TiXmlNode): map<TiXmlNode, Link>
    requires k < |kids| && p in l && node in l && (forall i :: 0 <= i < |kids| ==> kids[i] in l)
  {
    var before := if k > 0 then kids[k - 1] else null;
    var l1 := l[node := l[node].(parent := p, prev := before, next := kids[k])];
    var l2 := l1[kids[k] := l1[kids[k]].(prev := node)];
    var l3 := l2[p := l2[p].(first := if k == 0 then node else l2[p].first)];
    if k > 0 then l3[kids[k - 1] := l3[kids[k - 1]].(next := node)] else l3
  }

  lemma BetweenInserted(l: map<TiXmlNode, Link>, p: TiXmlNode, kids: seq<TiXmlNode>, k: nat, node: TiXmlNode)
    requires k < |kids| && p in l && node in l && (forall i :: 0 <= i < |kids| ==> kids[i] in l)
    requires p != node && node !in kids && p !in kids && Distinct(kids)
    ensures Inserted(l, Between(l, p, kids, k, node), p, kids, k, node)
  {
    assert kids[k] in kids && (k > 0 ==> kids[k - 1] in kids);
  }

  lemma BetweenLinks(l: map<TiXmlNode, Link>, p: TiXmlNode, kids: seq<TiXmlNode>, k: nat, node: TiXmlNode)
    requires k < |kids| && p in l && node in l && (forall i :: 0 <= i < |kids| ==> kids[i] in l)
    requires p != node && node !in kids && p !in kids && Distinct(kids)
    ensures var m := Between(l, p, kids, k, node);
            && m.Keys == l.Keys
            && m[node] == l[node].(parent := p, prev := if k > 0 then kids[k - 1] else null, next := kids[k])
            && m[kids[k]] == l[kids[k]].(prev := node)
            && m[p] == l[p].(first := if k == 0 then node else l[p].first)
            && (k > 0 ==> m[kids[k - 1]] == l[kids[k - 1]].(next := node))
            && forall n {:trigger m[n]} ::
                 n in l && n != p && n != node && n != kids[k] && (k > 0 ==> n != kids[k - 1]) ==> m[n] == l[n]
  {
    assert kids[k] in kids && (k > 0 ==> kids[k - 1] in kids && kids[k - 1] != kids[k]);
  }

  lemma BetweenRemoved(l: map<TiXmlNode, Link>, m: map<TiXmlNode, Link>, p: TiXmlNode, kids: seq<TiXmlNode>, k: nat,
                       node: TiXmlNode)
    requires k < |kids| && p in l && node in l && (forall i :: 0 <= i < |kids| ==> kids[i] in l)
    requires p != node && node !in kids && p !in kids && Distinct(kids)
    requires Replaced(l, m, p, kids, k, node)
    ensures var m1 := Between(l, p, kids, k, node);
            var r := InsertAt(kids, k, node);
            k + 1 < |r| && Removed(m1, m[kids[k] := m1[kids[k]]], p, r, k + 1)
  {
    BetweenLinks(l, p, kids, k, node);
    InsertAtFacts(kids, k, node);
    assert kids[k] in kids && (k > 0 ==> kids[k - 1] in kids && kids[k - 1] != kids[k]);
    assert k + 1 < |kids| ==> kids[k + 1] in kids && kids[k + 1] != kids[k] && (k > 0 ==> kids[k + 1] != kids[k - 1]);
    hide InsertAt, Between, Distinct;
  }

  lemma GraftChildren(f: Forest, g: Forest, p: TiXmlNode, k: nat, node: TiXmlNode)
    requires f.WellFormed() && g.WellFormed() && f.Nodes() !! g.Nodes()
    requires p in f.Nodes() && k < |f.Children(p)| && node in g.Nodes()
    ensures Swappable(f, g, p, k, node)
  {
    GraftSound(f, g, p, k, node);
    hide InsertAt;
  }

  lemma SwapLinked(l0: map<TiXmlNode, Link>, l: map<TiXmlNode, Link>, f: Forest, g: Forest, p: TiXmlNode, k: nat,
                   node: TiXmlNode)
    requires Graftable(l, f, g, p, k, node) && k < |f.Children(p)| && l.Keys == f.Nodes() + g.Nodes()
    requires l0.Keys == f.Nodes() && forall n :: n in l0 ==> n in l && l[n] == l0[n]
    requires Replaced(l, Links(f.Nodes() + g.Nodes()), p, f.Children(p), k, node)
    ensures Swappable(f, g, p, k, node) && Linked(Swap(f, g, p, k, node))
    ensures Swapped(f, g, Swap(f, g, p, k, node), p, k, node)
    ensures Kept(l0, f, Links(Swap(f, g, p, k, node).Nodes()), Swap(f, g, p, k, node))
  {
    hide LinkedBy, Chain, Hung, InsertAt, Replaced, Removed, Inserted, Between, Swap, Graft, Swapped, Kept, Prune,
      Forest.WellFormed;
    var kids, m := f.Children(p), Links(f.Nodes() + g.Nodes());
    InsertPlace(l, f, g, p, k, node);
    GraftChildren(f, g, p, k, node);
    InsertAtFacts(kids, k, node);
    var m1 := Between(l, p, kids, k, node);
    BetweenInserted(l, p, kids, k, node);
    InsertLinked(l, m1, f, g, p, k, node);
    SwapEdits(f, g, p, k, node, m1);
    BetweenRemoved(l, m, p, kids, k, node);
    InsertKept(l0, l, m1, f, g, p, k, node);
    SwapRestricts(Graft(f, g, p, InsertAt(kids, k, node)), m1, m, p, k + 1, l0, f);
    SwapIsPrune(f, g, p, k, node);
  }

  lemma SwapIsPrune(f: Forest, g: Forest, p: TiXmlNode, k: nat, node: TiXmlNode)
    requires Swappable(f, g, p, k, node)
    ensures var joined := Graft(f, g, p, InsertAt(f.Children(p), k, node));
            k + 1 < |joined.Children(p)| && Swap(f, g, p, k, node) == Prune(joined, p, k + 1)
  {
    hide Graft, Prune, Forest.WellFormed;
  }

  lemma SwapRestricts(joined: Forest, m1: map<TiXmlNode, Link>, m: map<TiXmlNode, Link>, p: TiXmlNode, k: nat,
                      l0: map<TiXmlNode, Link>, f: Forest)
    requires joined.WellFormed() && LinkedBy(joined, m1) && p in joined.Nodes() && k < |joined.Children(p)|
    requires m == Links(joined.Nodes()) && Kept(l0, f, m1, joined)
    requires var gone := joined.Children(p)[k];
             gone in m1 && Removed(m1, m[gone := m1[gone]], p, joined.Children(p), k)
    ensures Linked(Prune(joined, p, k))
    ensures Kept(l0, f, Links(Prune(joined, p, k).Nodes()), Prune(joined, p, k))
  {
    hide LinkedBy, Removed, Prune, Kept, Forest.WellFormed;
    var gone, h := joined.Children(p)[k], Prune(joined, p, k);
    var m2 := m[gone := m1[gone]];
    PruneLinked(joined, m1, m2, p, k);
    PruneInside(joined, p, k);
    assert gone !in h.Nodes() by {
      if gone in h.Nodes() {
        NotRemoved(joined, p, k, gone);
      }
    }
    LinkedByRestricts(h, m2, Links(h.Nodes()));
    PruneKept(joined, m1, m2, Links(h.Nodes()), p, k);
    KeptTwice(l0, f, m1, joined, Links(h.Nodes()), h);
  }

  lemma SwapShown(f: Forest, g: Forest, p: TiXmlNode, k: nat, node: TiXmlNode)
    requires Swappable(f, g, p, k, node) && Shown(f) && Shown(g)
    ensures Shown(Swap(f, g, p, k, node))
  {
    hide FieldsShown, AttributesShown, InsertAt, Prune;
    var kids := InsertAt(f.Children(p), k, node);
    InsertAtFacts(f.Children(p), k, node);
    GraftFieldsShown(f, g, p, kids);
    GraftAttributesShown(f, g, p, kids);
    PruneShown(Graft(f, g, p, kids), p, k + 1);
  }

  lemma SwapRingsApart(f: Forest, g: Forest, p: TiXmlNode, k: nat, node: TiXmlNode)
    requires AttributesShown(f) && AttributesShown(g) && f.RingsApart() && g.RingsApart() && Attachable(f, g, node)
    requires p in f.Nodes() && k < |f.Children(p)|
    ensures Swappable(f, g, p, k, node) ==> Swap(f, g, p, k, node).RingsApart()
  {
    hide AttributesShown, Forest.RingsApart, Attachable, Prune, Graft, InsertAt, Forest.WellFormed;
    var kids := InsertAt(f.Children(p), k, node);
    InsertAtFacts(f.Children(p), k, node);
    GraftRingsApart(f, g, p, kids, node);
    if Swappable(f, g, p, k, node) {
      PruneRingsApart(Graft(f, g, p, kids), p, k + 1);
    }
  }

  /** The abstract edit of a replacement: the `k`-th child becomes `node`, and its tree with it. */
  ghost predicate Swapped(f: Forest, g: Forest, h: Forest, p: TiXmlNode, k: nat, node: TiXmlNode) {
    && f.WellFormed() && g.WellFormed() && h.WellFormed()
    && p in f.Nodes() && k < |f.Children(p)| && node in g.Nodes() && p in h.Nodes()
    && h.Children(p) == f.Children(p)[k := node]
    && ValuesOf(h, p, 0) == ValuesOf(f, p, 0)[k := ValueOf(g, node)]
  }

  lemma SwapEdits(f: Forest, g: Forest, p: TiXmlNode, k: nat, node: TiXmlNode, l: map<TiXmlNode, Link>)
    requires f.WellFormed() && g.WellFormed() && f.Nodes() !! g.Nodes()
    requires p in f.Nodes() && k < |f.Children(p)| && node in g.Nodes()
    requires LinkedBy(Graft(f, g, p, InsertAt(f.Children(p), k, node)), l)
    ensures Swappable(f, g, p, k, node) && Swapped(f, g, Swap(f, g, p, k, node), p, k, node)
  {
    GraftChildren(f, g, p, k, node);
    GraftValues(f, g, p, k, node);
    InsertAtFacts(f.Children(p), k, node);
    hide LinkedBy, Graft, InsertAt, ValuesOf, Forest.WellFormed, ValueOf, Swappable;
    var kids, v, joined := f.Children(p), ValuesOf(f, p, 0), Graft(f, g, p, InsertAt(f.Children(p), k, node));
    PruneEdits(joined, l, p, k + 1);
    hide Prune;
    RemoveBehindInsert(kids, k, node);
    ReplaceMiddle(v, k, ValueOf(g, node));
  }

  /** A replacement brings a document below the node exactly when the original is one: otherwise there
      is a document below it only if there is one among or below the other children. */
  lemma SwappedDocuments(f: Forest, t: Forest, h: Forest, p: TiXmlNode, k: nat, r: TiXmlNode, src: Forest, n: TiXmlNode)
    requires Swapped(f, t, h, p, k, r) && IsCloneOf(t, r, src, n)
    ensures var v := ValuesOf(f, p, 0);
            NoDocuments(ValuesOf(h, p, 0)) <==> NoDocuments(v[..k]) && NoDocuments(v[k + 1..]) && !ValueOf(src, n).Document?
  {
    hide ValueOf, ValuesOf, CopyTree, Forest.WellFormed, DocumentFree;
    CopyIsDocumentFree(ValueOf(src, n));
    var v := ValuesOf(f, p, 0);
    var w := v[k := ValueOf(t, r)];
    assert w == v[..k] + [w[k]] + v[k + 1..];
  }

  lemma PruneEdits(f: Forest, l: map<TiXmlNode, Link>, p: TiXmlNode, k: nat)
    requires f.WellFormed() && LinkedBy(f, l) && p in f.Nodes() && k < |f.Children(p)|
    ensures var h := Prune(f, p, k);
            var v := ValuesOf(f, p, 0);
            h.WellFormed() && p in h.Nodes() && h.Children(p) == RemoveAt(f.Children(p), k)
            && ValuesOf(h, p, 0) == v[..k] + v[k + 1..]
  {
    hide LinkedBy, ValuesOf, Forest.WellFormed, RemoveAt, Below;
    PruneValues(f, l, p, k);
  }

  lemma RemoveBehindInsert(kids: seq<TiXmlNode>, k: nat, node: TiXmlNode)
    requires k < |kids|
    ensures |InsertAt(kids, k, node)| == |kids| + 1 && RemoveAt(InsertAt(kids, k, node), k + 1) == kids[k := node]
  {
  }

  lemma ReplaceMiddle(v: seq<Tree>, k: nat, x: Tree)
    requires k < |v|
    ensures var w := v[..k] + [x] + v[k..]; |w| == |v| + 1 && w[..k + 1] + w[k + 2..] == v[k := x]
  {
  }
}
