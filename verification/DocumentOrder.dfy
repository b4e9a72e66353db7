/** Document order on the nodes and attributes of a tree, and the comparison that finds it. */
module DocumentOrder {
  import opened XmlTree
  import opened AttributeMap
  import opened Printing
  import opened AttributeRing
  import opened Rings
  import opened Dom

  // ---- Comparing by position ----

  datatype Order = NotFound | Lower | Higher | Same

  /** Which of two members comes first in a sequence. */
  ghost function CompareIn(order: seq<object>, a: object, b: object): Order {
    if order == [] then NotFound
    else if order[0] == a then if order[0] == b then Same else Lower
    else if order[0] == b then Higher
    else CompareIn(order[1..], a, b)
  }

  /** The first place of a member. */
  ghost function Rank(order: seq<object>, a: object): (r: nat)
    requires a in order
    ensures r < |order| && order[r] == a && forall i :: 0 <= i < r ==> order[i] != a
  {
    if order[0] == a then 0 else 1 + Rank(order[1..], a)
  }

  /** The comparison answers as the ranks compare. */
  lemma {:induction false} CompareIsRank(order: seq<object>, a: object, b: object)
    requires a in order && b in order
    ensures CompareIn(order, a, b) == if Rank(order, a) < Rank(order, b) then Lower
                                      else if Rank(order, a) > Rank(order, b) then Higher else Same
  {
    if order[0] != a && order[0] != b {
      CompareIsRank(order[1..], a, b);
    }
  }

  /** With members missing, the one that is there comes first. */
  lemma {:induction false} CompareMissing(order: seq<object>, a: object, b: object)
    ensures CompareIn(order, a, b) == NotFound <==> a !in order && b !in order
    ensures a in order && b !in order ==> CompareIn(order, a, b) == Lower
    ensures a !in order && b in order ==> CompareIn(order, a, b) == Higher
  {
    if order != [] {
      assert order == [order[0]] + order[1..];
      CompareMissing(order[1..], a, b);
    }
  }

  /** On the members of a sequence, comparing by first places is a strict total order. */
  lemma RanksAreOrdered(order: seq<object>, a: object, b: object, c: object)
    requires a in order && b in order && c in order
    ensures CompareIn(order, a, b) == Same <==> a == b
    ensures CompareIn(order, a, b) == Lower <==> CompareIn(order, b, a) == Higher
    ensures CompareIn(order, a, b) == Lower && CompareIn(order, b, c) == Lower ==> CompareIn(order, a, c) == Lower
    ensures CompareIn(order, a, b) != NotFound
  {
    CompareIsRank(order, a, b);
    CompareIsRank(order, b, a);
    CompareIsRank(order, b, c);
    CompareIsRank(order, a, c);
  }

  lemma {:induction false} CompareConcat(x: seq<object>, y: seq<object>, a: object, b: object)
    ensures CompareIn(x + y, a, b) == if CompareIn(x, a, b) != NotFound then CompareIn(x, a, b) else CompareIn(y, a, b)
  {
    if x == [] {
      assert x + y == y;
    } else {
      assert (x + y)[0] == x[0] && (x + y)[1..] == x[1..] + y;
      CompareConcat(x[1..], y, a, b);
    }
  }

  // ---- The order of a tree ----

  /** The attributes of an element. */
  ghost function AttributesOf(f: Forest, n: TiXmlNode): seq<object>
    requires n in f.Nodes()
  {
    if f.entries[n].data.ElementLabel? then AsObjects(f.entries[n].ring) else []
  }

  ghost function AsObjects(ring: seq<TiXmlAttribute>): (r: seq<object>)
    ensures |r| == |ring| && forall i :: 0 <= i < |r| ==> r[i] == ring[i]
  {
    if ring == [] then [] else [ring[0] as object] + AsObjects(ring[1..])
  }

  /** Document order: a node, its attributes, and then its children (section 5 of XPath 1.0). */
  ghost function DocOrder(f: Forest, n: TiXmlNode): seq<object>
    requires f.WellFormed() && n in f.Nodes()
    decreases f.entries[n].rank, |f.Children(n)| + 1
  {
    [n as object] + AttributesOf(f, n) + DocOrderFrom(f, n, 0)
  }

  ghost function DocOrderFrom(f: Forest, n: TiXmlNode, i: nat): seq<object>
    requires f.WellFormed() && n in f.Nodes() && i <= |f.Children(n)|
    decreases f.entries[n].rank, |f.Children(n)| - i
  {
    assert f.Sound(n);
    if i == |f.Children(n)| then [] else DocOrder(f, f.Children(n)[i]) + DocOrderFrom(f, n, i + 1)
  }

  // ---- `i_compare_node_in_tree` ----

  /** The attributes of an element that a walk by `First` and `Next` reaches. */
  ghost function ReachedOf(f: Forest, n: TiXmlNode): seq<object>
    requires n in f.Nodes()
  {
    var e := f.entries[n];
    if e.data.ElementLabel? && |Visible(e.data.attributes)| <= |e.ring| then AsObjects(e.ring[..|Visible(e.data.attributes)|]) else []
  }

  /** The members in the order in which the comparison comes across them. */
  ghost function WalkOrder(f: Forest, n: TiXmlNode): seq<object>
    requires f.WellFormed() && n in f.Nodes()
    decreases f.entries[n].rank, |f.Children(n)| + 1
  {
    [n as object] + ReachedOf(f, n) + WalkOrderFrom(f, n, 0)
  }

  ghost function WalkOrderFrom(f: Forest, n: TiXmlNode, i: nat): seq<object>
    requires f.WellFormed() && n in f.Nodes() && i <= |f.Children(n)|
    decreases f.entries[n].rank, |f.Children(n)| - i
  {
    assert f.Sound(n);
    if i == |f.Children(n)| then [] else WalkOrder(f, f.Children(n)[i]) + WalkOrderFrom(f, n, i + 1)
  }

  /** The attribute loop of the comparison. */
  method CompareAttributes(root: TiXmlNode, a: object, b: object, ghost f: Forest) returns (r: Order)
    requires Intact(f) && root in f.Nodes() && root.kind == ElementNode
    ensures r == CompareIn(ReachedOf(f, root), a, b)
  {
    hide Visible, Contents, TiXmlAttributeSet.IsRing, Linked, Forest.WellFormed, AsObjects, CompareIn;
    ghost var e := f.entries[root];
    ghost var visible, k := Visible(e.data.attributes), 0;
    ghost var order := AsObjects(e.ring[..|visible|]);
    EntryShown(f, root);
    VisibleEmpty(e.data.attributes);
    root.attributeSet.Ends(e.ring);
    var attrib := root.attributeSet.First();
    assert order[0..] == order;
    while attrib != null
      invariant k <= |visible| && (attrib == null <==> k == |visible|)
      invariant attrib != null ==> k < |e.ring| && attrib == e.ring[k]
      invariant CompareIn(order, a, b) == CompareIn(order[k..], a, b)
      decreases |e.ring| - k
    {
      CompareStep(order[k..], a, b);
      assert order[k..][0] == attrib && order[k..][1..] == order[k + 1..];
      if attrib == a {
        return if attrib == b then Same else Lower;
      }
      if attrib == b {
        return Higher;
      }
      root.attributeSet.RingLinks(e.ring, k);
      VisibleAt(e.data.attributes, k);
      attrib := attrib.Next();
      k := k + 1;
    }
    assert order[k..] == [];
    CompareNothing(a, b);
    return NotFound;
  }

  lemma CompareStep(order: seq<object>, a: object, b: object)
    requires order != []
    ensures CompareIn(order, a, b) == if order[0] == a then if order[0] == b then Same else Lower
                                      else if order[0] == b then Higher
                                      else CompareIn(order[1..], a, b)
  {
  }

  lemma CompareNothing(a: object, b: object)
    ensures CompareIn([], a, b) == NotFound
  {
  }

  /** Finds which of two members comes first in the tree, as far as walks over the attributes reach. */
  method CompareNodeInTree(root: TiXmlNode?, a: object?, b: object?, ghost f: Forest) returns (r: Order)
    requires Intact(f) && (root != null ==> root in f.Nodes())
    ensures root == null || a == null || b == null ==> r == NotFound
    ensures root != null && a != null && b != null ==> r == CompareIn(WalkOrder(f, root), a, b)
    decreases if root == null then 0 else f.entries[root].rank, 2
  {
    if root == null || a == null || b == null {
      return NotFound;
    }
    r := CompareFrom(root, a, b, f);
  }

  method CompareFrom(root: TiXmlNode, a: object, b: object, ghost f: Forest) returns (r: Order)
    requires Intact(f) && root in f.Nodes()
    ensures r == CompareIn(WalkOrder(f, root), a, b)
    decreases f.entries[root].rank, 1
  {
    hide Linked, Shown, Forest.WellFormed, ReachedOf, WalkOrderFrom, CompareIn;
    OrderParts(f, root, a, b);
    if root == a {
      return if root == b then Same else Lower;
    }
    if root == b {
      return Higher;
    }
    NoAttributes(f, root);
    CompareNothing(a, b);
    if root.kind == ElementNode {
      r := CompareAttributes(root, a, b, f);
      if r != NotFound {
        return;
      }
    }
    r := CompareChildren(root, a, b, f);
  }

  /** The child loop of the comparison. */
  method CompareChildren(root: TiXmlNode, a: object, b: object, ghost f: Forest) returns (r: Order)
    requires Intact(f) && root in f.Nodes()
    ensures r == CompareIn(WalkOrderFrom(f, root, 0), a, b)
    decreases f.entries[root].rank, 0
  {
    hide Linked, Shown, Forest.WellFormed, WalkOrder, WalkOrderFrom, CompareIn;
    ghost var kids, k := f.Children(root), 0;
    ChainAt(f, root, 0);
    OrderEnds(f, root);
    CompareNothing(a, b);
    var child := root.firstChild;
    while child != null
      invariant k <= |kids| && child == if k < |kids| then kids[k] else null
      invariant CompareIn(WalkOrderFrom(f, root, 0), a, b) == CompareIn(WalkOrderFrom(f, root, k), a, b)
      decreases |kids| - k
    {
      ChildBelow(f, root, child);
      OrderSteps(f, root, k, a, b);
      r := CompareFrom(child, a, b, f);
      if r != NotFound {
        return;
      }
      ChainAt(f, root, k);
      child := child.next;
      k := k + 1;
    }
    return NotFound;
  }

  lemma PartsCompare(first: object, middle: seq<object>, rest: seq<object>, a: object, b: object)
    ensures CompareIn([first] + middle + rest, a, b) ==
            if first == a then if first == b then Same else Lower
            else if first == b then Higher
            else if CompareIn(middle, a, b) != NotFound then CompareIn(middle, a, b) else CompareIn(rest, a, b)
  {
    var order := [first] + middle + rest;
    assert order[0] == first && order[1..] == middle + rest;
    CompareConcat(middle, rest, a, b);
  }

  lemma OrderParts(f: Forest, n: TiXmlNode, a: object, b: object)
    requires f.WellFormed() && n in f.Nodes()
    ensures CompareIn(WalkOrder(f, n), a, b) ==
            if n == a then if n == b then Same else Lower
            else if n == b then Higher
            else if CompareIn(ReachedOf(f, n), a, b) != NotFound then CompareIn(ReachedOf(f, n), a, b)
            else CompareIn(WalkOrderFrom(f, n, 0), a, b)
  {
    hide ReachedOf, WalkOrderFrom;
    PartsCompare(n, ReachedOf(f, n), WalkOrderFrom(f, n, 0), a, b);
  }

  lemma NoAttributes(f: Forest, n: TiXmlNode)
    requires Intact(f) && n in f.Nodes()
    ensures n.kind != ElementNode ==> ReachedOf(f, n) == []
  {
    hide Linked, Forest.WellFormed;
    EntryShown(f, n);
  }

  lemma OrderEnds(f: Forest, n: TiXmlNode)
    requires f.WellFormed() && n in f.Nodes()
    ensures WalkOrderFrom(f, n, |f.Children(n)|) == []
  {
  }

  lemma OrderSteps(f: Forest, n: TiXmlNode, i: nat, a: object, b: object)
    requires f.WellFormed() && n in f.Nodes() && i < |f.Children(n)| && f.Children(n)[i] in f.Nodes()
    ensures var first := CompareIn(WalkOrder(f, f.Children(n)[i]), a, b);
            CompareIn(WalkOrderFrom(f, n, i), a, b)
            == if first != NotFound then first else CompareIn(WalkOrderFrom(f, n, i + 1), a, b)
  {
    hide WalkOrder;
    CompareConcat(WalkOrder(f, f.Children(n)[i]), WalkOrderFrom(f, n, i + 1), a, b);
  }

  // ---- Where nodes stand ----

  lemma NotAnAttribute(f: Forest, n: TiXmlNode, m: TiXmlNode)
    requires n in f.Nodes()
    ensures m !in AttributesOf(f, n)
  {
    hide Visible;
    var order := AttributesOf(f, n);
    assert forall i :: 0 <= i < |order| ==> order[i] != m;
  }

  /** The nodes of the order are the node and what is below it. */
  lemma {:induction false} NodesInOrder(f: Forest, n: TiXmlNode, m: TiXmlNode)
    requires f.WellFormed() && n in f.Nodes()
    ensures m in DocOrder(f, n) <==> m in Below(f, n)
    decreases f.entries[n].rank, |f.Children(n)| + 1
  {
    hide AttributesOf, DocOrderFrom, BelowFrom;
    NotAnAttribute(f, n, m);
    NodesInOrderFrom(f, n, 0, m);
  }

  lemma {:induction false} NodesInOrderFrom(f: Forest, n: TiXmlNode, i: nat, m: TiXmlNode)
    requires f.WellFormed() && n in f.Nodes() && i <= |f.Children(n)|
    ensures m in DocOrderFrom(f, n, i) <==> m in BelowFrom(f, n, i)
    decreases f.entries[n].rank, |f.Children(n)| - i
  {
    hide DocOrder, Below;
    assert f.Sound(n);
    if i < |f.Children(n)| {
      NodesInOrder(f, f.Children(n)[i], m);
      NodesInOrderFrom(f, n, i + 1, m);
    }
  }

  /** Two children of one node have nothing in common below them. */
  lemma {:induction false} KidsApart(f: Forest, l: map<TiXmlNode, Link>, n: TiXmlNode, i: nat, j: nat, c: TiXmlNode)
    requires f.WellFormed() && LinkedBy(f, l) && n in f.Nodes() && i < |f.Children(n)| && j < |f.Children(n)| && i != j
    requires f.Children(n)[i] in f.Nodes() && f.Children(n)[j] in f.Nodes()
    requires c in Below(f, f.Children(n)[i])
    ensures c !in Below(f, f.Children(n)[j])
    decreases f.top - (if c in f.Nodes() then f.entries[c].rank else 0)
  {
    hide Below;
    var a, b := f.Children(n)[i], f.Children(n)[j];
    BelowHasParent(f, a, c);
    assert f.Sound(n) && f.Sound(c);
    if c in Below(f, b) {
      BelowHasParent(f, b, c);
      if c == a {
        KidNotBelow(f, l, n, a, b);
      } else if c == b {
        KidNotBelow(f, l, n, b, a);
      } else {
        var q :| q in Below(f, a) && q in f.Nodes() && c in f.Children(q);
        var r :| r in Below(f, b) && r in f.Nodes() && c in f.Children(r);
        ParentIs(f, l, q, c);
        ParentIs(f, l, r, c);
        assert f.Sound(q);
        KidsApart(f, l, n, i, j, q);
      }
    }
  }

  lemma KidNotBelow(f: Forest, l: map<TiXmlNode, Link>, n: TiXmlNode, a: TiXmlNode, b: TiXmlNode)
    requires f.WellFormed() && LinkedBy(f, l) && n in f.Nodes() && a in f.Children(n) && b in f.Children(n) && a != b
    requires b in f.Nodes()
    ensures a !in Below(f, b)
  {
    hide Below;
    assert f.Sound(n);
    if a in Below(f, b) {
      BelowHasParent(f, b, a);
      var q :| q in Below(f, b) && q in f.Nodes() && a in f.Children(q);
      ParentIs(f, l, q, a);
      ParentIs(f, l, n, a);
      BelowHasParent(f, b, n);
    }
  }

  // ---- Every member stands once ----

  ghost predicate Once(order: seq<object>) {
    forall i, j :: 0 <= i < j < |order| ==> order[i] != order[j]
  }

  lemma OnceConcat(x: seq<object>, y: seq<object>)
    requires Once(x) && Once(y) && forall m :: m in x ==> m !in y
    ensures Once(x + y)
  {
    var z := x + y;
    forall i, j | 0 <= i < j < |z| ensures z[i] != z[j] {
      if i < |x| <= j {
        assert z[i] in x && z[j] in y;
      }
    }
  }

  /** Every ring is its node's own, without repetition, and as long as the list it shows. */
  ghost predicate OwnRings(f: Forest) {
    f.RingsApart()
    && forall n {:trigger f.entries[n]} :: n in f.Nodes() ==>
         Distinct(f.entries[n].ring)
         && (f.entries[n].data.ElementLabel? ==> |f.entries[n].ring| == |f.entries[n].data.attributes|)
  }

  lemma IntactOwnsRings(f: Forest)
    requires Intact(f)
    ensures OwnRings(f)
  {
    hide Linked, Forest.WellFormed, Forest.RingsApart, FieldsShown;
    forall n | n in f.Nodes()
      ensures Distinct(f.entries[n].ring)
      ensures f.entries[n].data.ElementLabel? ==> |f.entries[n].ring| == |f.entries[n].data.attributes|
    {
      assert RingShows(n.attributeSet, f.entries[n].data, f.entries[n].ring);
    }
  }

  /** A member belongs to a node: it is the node or one of its attributes. */
  ghost predicate BelongsTo(f: Forest, m: object, n: TiXmlNode) {
    n in f.Nodes() && (m == n || m in AttributesOf(f, n))
  }

  lemma OneOwner(f: Forest, m: object, n: TiXmlNode, q: TiXmlNode)
    requires OwnRings(f) && BelongsTo(f, m, n) && BelongsTo(f, m, q)
    ensures n == q
  {
    hide AttributesOf;
    if m in AttributesOf(f, n) {
      RingMembers(f, n, m);
    }
    if m in AttributesOf(f, q) {
      RingMembers(f, q, m);
    }
  }

  lemma RingMembers(f: Forest, n: TiXmlNode, m: object)
    requires n in f.Nodes() && m in AttributesOf(f, n)
    ensures m is TiXmlAttribute && m in f.entries[n].ring
  {
    var ring := f.entries[n].ring;
    var i :| 0 <= i < |AsObjects(ring)| && AsObjects(ring)[i] == m;
    assert ring[i] == m;
  }

  /** Every member of the order belongs to a node at or below its root. */
  lemma {:induction false} Owner(f: Forest, n: TiXmlNode, m: object) returns (q: TiXmlNode)
    requires f.WellFormed() && n in f.Nodes() && m in DocOrder(f, n)
    ensures BelongsTo(f, m, q) && q in Below(f, n)
    decreases f.entries[n].rank, |f.Children(n)| + 1
  {
    hide AttributesOf, DocOrderFrom, BelowFrom;
    if m == n || m in AttributesOf(f, n) {
      q := n;
    } else {
      q := OwnerFrom(f, n, 0, m);
    }
  }

  lemma {:induction false} OwnerFrom(f: Forest, n: TiXmlNode, i: nat, m: object) returns (q: TiXmlNode)
    requires f.WellFormed() && n in f.Nodes() && i <= |f.Children(n)| && m in DocOrderFrom(f, n, i)
    ensures BelongsTo(f, m, q) && q in BelowFrom(f, n, i)
    decreases f.entries[n].rank, |f.Children(n)| - i
  {
    hide DocOrder, Below, BelongsTo;
    assert f.Sound(n);
    if m in DocOrder(f, f.Children(n)[i]) {
      q := Owner(f, f.Children(n)[i], m);
    } else {
      q := OwnerFrom(f, n, i + 1, m);
    }
  }

  /** In document order every node and every attribute stands once. */
  lemma {:induction false} DocOrderOnce(f: Forest, l: map<TiXmlNode, Link>, n: TiXmlNode)
    requires f.WellFormed() && OwnRings(f) && LinkedBy(f, l) && n in f.Nodes()
    ensures Once(DocOrder(f, n))
    decreases f.entries[n].rank, |f.Children(n)| + 1
  {
    hide AttributesOf, DocOrderFrom, BelowFrom, Once, LinkedBy, OwnRings, BelongsTo;
    HeadOnce(f, n);
    DocOrderFromOnce(f, l, n, 0);
    var head := [n as object] + AttributesOf(f, n);
    forall m | m in head ensures m !in DocOrderFrom(f, n, 0) {
      if m in DocOrderFrom(f, n, 0) {
        var q := OwnerFrom(f, n, 0, m);
        assert BelongsTo(f, m, n) by {
          BelongsToItself(f, m, n);
        }
        OneOwner(f, m, n, q);
        NotBelowItself(f, n);
      }
    }
    OnceConcat(head, DocOrderFrom(f, n, 0));
  }

  lemma BelongsToItself(f: Forest, m: object, n: TiXmlNode)
    requires n in f.Nodes() && m in [n as object] + AttributesOf(f, n)
    ensures BelongsTo(f, m, n)
  {
    hide AttributesOf;
  }

  lemma HeadOnce(f: Forest, n: TiXmlNode)
    requires OwnRings(f) && n in f.Nodes()
    ensures Once([n as object] + AttributesOf(f, n))
  {
    var ring := f.entries[n].ring;
    var head := [n as object] + AttributesOf(f, n);
    assert Distinct(ring);
    forall i, j | 0 <= i < j < |head| ensures head[i] != head[j] {
      assert head[j] == ring[j - 1] && (i > 0 ==> head[i] == ring[i - 1]);
    }
  }

  lemma NotBelowItself(f: Forest, n: TiXmlNode)
    requires f.WellFormed() && n in f.Nodes()
    ensures n !in BelowFrom(f, n, 0)
  {
    hide BelowFrom;
    if n in BelowFrom(f, n, 0) {
      BelowFromHasParent(f, n, 0, n);
    }
  }

  lemma {:induction false} DocOrderFromOnce(f: Forest, l: map<TiXmlNode, Link>, n: TiXmlNode, i: nat)
    requires f.WellFormed() && OwnRings(f) && LinkedBy(f, l) && n in f.Nodes() && i <= |f.Children(n)|
    ensures Once(DocOrderFrom(f, n, i))
    decreases f.entries[n].rank, |f.Children(n)| - i
  {
    hide DocOrder, Below, BelowFrom, Once, LinkedBy, OwnRings, BelongsTo;
    assert f.Sound(n);
    if i < |f.Children(n)| {
      var kid := f.Children(n)[i];
      DocOrderOnce(f, l, kid);
      DocOrderFromOnce(f, l, n, i + 1);
      forall m | m in DocOrder(f, kid) ensures m !in DocOrderFrom(f, n, i + 1) {
        if m in DocOrderFrom(f, n, i + 1) {
          var q := Owner(f, kid, m);
          var o := OwnerFrom(f, n, i + 1, m);
          OneOwner(f, m, q, o);
          ApartFromRest(f, l, n, i, q);
        }
      }
      OnceConcat(DocOrder(f, kid), DocOrderFrom(f, n, i + 1));
    } else {
      EmptyOnce();
    }
  }

  lemma EmptyOnce()
    ensures Once([])
  {
  }

  lemma ApartFromRest(f: Forest, l: map<TiXmlNode, Link>, n: TiXmlNode, i: nat, m: TiXmlNode)
    requires f.WellFormed() && LinkedBy(f, l) && n in f.Nodes() && i < |f.Children(n)| && f.Children(n)[i] in f.Nodes()
    requires m in Below(f, f.Children(n)[i])
    ensures m !in BelowFrom(f, n, i + 1)
  {
    hide Below, BelowFrom, LinkedBy;
    BelowFromAt(f, n, i + 1, m);
    if m in BelowFrom(f, n, i + 1) {
      var j :| i + 1 <= j < |f.Children(n)| && f.Children(n)[j] in f.Nodes() && m in Below(f, f.Children(n)[j]);
      KidsApart(f, l, n, i, j, m);
    }
  }

  // ---- Precedes and after ----

  /** `x` stands somewhere before `y`. */
  ghost predicate Precedes(order: seq<object>, x: object, y: object) {
    exists i, j :: 0 <= i < j < |order| && order[i] == x && order[j] == y
  }

  lemma BeforeInside(pre: seq<object>, order: seq<object>, post: seq<object>, x: object, y: object)
    requires Precedes(order, x, y)
    ensures Precedes(pre + order + post, x, y)
  {
    var i, j :| 0 <= i < j < |order| && order[i] == x && order[j] == y;
    var z := pre + order + post;
    assert z[|pre| + i] == x && z[|pre| + j] == y;
  }

  lemma BeforeAcross(a: seq<object>, b: seq<object>, x: object, y: object)
    requires x in a && y in b
    ensures Precedes(a + b, x, y)
  {
    var i :| 0 <= i < |a| && a[i] == x;
    var j :| 0 <= j < |b| && b[j] == y;
    var z := a + b;
    assert z[i] == x && z[|a| + j] == y;
  }

  /** What stands before another compares lower, and not the other way round. */
  lemma BeforeIsLower(order: seq<object>, x: object, y: object)
    requires Precedes(order, x, y) && Once(order)
    ensures x in order && y in order && x != y && !Precedes(order, y, x) && CompareIn(order, x, y) == Lower
  {
    var i, j :| 0 <= i < j < |order| && order[i] == x && order[j] == y;
    assert Rank(order, x) == i && Rank(order, y) == j;
    CompareIsRank(order, x, y);
  }

  /** A subtree is one block of the order. */
  lemma {:induction false} Block(f: Forest, n: TiXmlNode, m: TiXmlNode) returns (pre: seq<object>, post: seq<object>)
    requires f.WellFormed() && n in f.Nodes() && m in Below(f, n)
    ensures m in f.Nodes() && DocOrder(f, n) == pre + DocOrder(f, m) + post
    decreases f.entries[n].rank, |f.Children(n)| + 1
  {
    hide AttributesOf, DocOrderFrom, BelowFrom;
    BelowHasParent(f, n, m);
    if m == n {
      pre, post := [], [];
    } else {
      pre, post := BlockFrom(f, n, 0, m);
      var head := [n as object] + AttributesOf(f, n);
      assert head + (pre + DocOrder(f, m) + post) == (head + pre) + DocOrder(f, m) + post;
      pre := head + pre;
    }
  }

  lemma {:induction false} BlockFrom(f: Forest, n: TiXmlNode, i: nat, m: TiXmlNode) returns (pre: seq<object>, post: seq<object>)
    requires f.WellFormed() && n in f.Nodes() && i <= |f.Children(n)| && m in BelowFrom(f, n, i)
    ensures m in f.Nodes() && DocOrderFrom(f, n, i) == pre + DocOrder(f, m) + post
    decreases f.entries[n].rank, |f.Children(n)| - i
  {
    hide DocOrder, Below;
    assert f.Sound(n);
    var kid := f.Children(n)[i];
    if m in Below(f, kid) {
      pre, post := Block(f, kid, m);
      assert (pre + DocOrder(f, m) + post) + DocOrderFrom(f, n, i + 1) == pre + DocOrder(f, m) + (post + DocOrderFrom(f, n, i + 1));
      post := post + DocOrderFrom(f, n, i + 1);
    } else {
      pre, post := BlockFrom(f, n, i + 1, m);
      assert DocOrder(f, kid) + (pre + DocOrder(f, m) + post) == (DocOrder(f, kid) + pre) + DocOrder(f, m) + post;
      pre := DocOrder(f, kid) + pre;
    }
  }

  lemma {:induction false} BelowIsTransitive(f: Forest, n: TiXmlNode, m: TiXmlNode, c: TiXmlNode)
    requires f.WellFormed() && n in f.Nodes() && m in Below(f, n) && m in f.Nodes() && c in Below(f, m)
    ensures c in Below(f, n)
  {
    hide Below, DocOrder;
    var pre, post := Block(f, n, m);
    NodesInOrder(f, m, c);
    NodesInOrder(f, n, c);
    assert c in pre + DocOrder(f, m) + post;
  }

  /** Everything below `a` stands before everything below `b`. */
  ghost predicate AllBefore(f: Forest, order: seq<object>, a: TiXmlNode, b: TiXmlNode)
    requires f.WellFormed() && a in f.Nodes() && b in f.Nodes()
  {
    forall x, y :: x in Below(f, a) && y in Below(f, b) ==> Precedes(order, x, y)
  }

  /** Of two children, all below the first stands before all below the second. */
  lemma KidsInOrder(f: Forest, root: TiXmlNode, n: TiXmlNode, i: nat, j: nat)
    requires f.WellFormed() && root in f.Nodes() && n in Below(f, root) && n in f.Nodes() && i < j < |f.Children(n)|
    requires f.Children(n)[i] in f.Nodes() && f.Children(n)[j] in f.Nodes()
    ensures AllBefore(f, DocOrder(f, root), f.Children(n)[i], f.Children(n)[j])
  {
    hide Below, DocOrder, DocOrderFrom, Precedes;
    var a, b := f.Children(n)[i], f.Children(n)[j];
    forall x, y | x in Below(f, a) && y in Below(f, b) ensures Precedes(DocOrder(f, root), x, y) {
      NodesInOrder(f, a, x);
      RestHas(f, n, i + 1, j, y);
      BeforeAcross(DocOrder(f, a), DocOrderFrom(f, n, i + 1), x, y);
      LiftFrom(f, root, n, i, x, y);
    }
  }

  lemma RestHas(f: Forest, n: TiXmlNode, i: nat, j: nat, y: TiXmlNode)
    requires f.WellFormed() && n in f.Nodes() && i <= j < |f.Children(n)| && f.Children(n)[j] in f.Nodes()
    requires y in Below(f, f.Children(n)[j])
    ensures y in DocOrderFrom(f, n, i)
  {
    hide Below, DocOrderFrom;
    BelowFromAt(f, n, i, y);
    NodesInOrderFrom(f, n, i, y);
  }

  lemma LiftFrom(f: Forest, root: TiXmlNode, n: TiXmlNode, i: nat, x: object, y: object)
    requires f.WellFormed() && root in f.Nodes() && n in Below(f, root) && n in f.Nodes() && i < |f.Children(n)|
    requires f.Children(n)[i] in f.Nodes() && Precedes(DocOrder(f, f.Children(n)[i]) + DocOrderFrom(f, n, i + 1), x, y)
    ensures Precedes(DocOrder(f, root), x, y)
  {
    hide Below, DocOrder, Precedes;
    var pre, post := FromBlock(f, n, i);
    BeforeInside(pre, DocOrderFrom(f, n, i), post, x, y);
    var p, q := Block(f, root, n);
    BeforeInside(p, DocOrder(f, n), q, x, y);
  }

  /** The children from the `i`-th on end their parent's order. */
  lemma {:induction false} FromBlock(f: Forest, n: TiXmlNode, i: nat) returns (pre: seq<object>, post: seq<object>)
    requires f.WellFormed() && n in f.Nodes() && i <= |f.Children(n)|
    ensures DocOrder(f, n) == pre + DocOrderFrom(f, n, i) + post
    decreases i
  {
    hide AttributesOf;
    if i == 0 {
      pre, post := [n as object] + AttributesOf(f, n), [];
      assert DocOrder(f, n) == pre + DocOrderFrom(f, n, 0) + [];
    } else {
      hide DocOrder;
      assert f.Sound(n);
      var kid := f.Children(n)[i - 1];
      pre, post := FromBlock(f, n, i - 1);
      assert pre + (DocOrder(f, kid) + DocOrderFrom(f, n, i)) + post == (pre + DocOrder(f, kid)) + DocOrderFrom(f, n, i) + post;
      pre := pre + DocOrder(f, kid);
    }
  }

  // ---- Where the comparison is right ----

  /** No attribute of a node has an empty name and value behind the first, so that a walk reaches all. */
  ghost predicate Reaches(f: Forest, n: TiXmlNode)
    requires n in f.Nodes()
  {
    var data := f.entries[n].data;
    data.ElementLabel? ==>
      forall i :: 1 <= i < |data.attributes| ==> data.attributes[i].name != "" || data.attributes[i].value != ""
  }

  ghost predicate AllReached(f: Forest, n: TiXmlNode)
    requires f.WellFormed() && n in f.Nodes()
  {
    forall m :: m in Below(f, n) && m in f.Nodes() ==> Reaches(f, m)
  }

  /** The attributes of an element that a walk does not reach. */
  ghost function UnreachedOf(f: Forest, n: TiXmlNode): seq<object>
    requires n in f.Nodes()
  {
    var e := f.entries[n];
    if e.data.ElementLabel? && |Visible(e.data.attributes)| <= |e.ring| then AsObjects(e.ring[|Visible(e.data.attributes)|..]) else []
  }

  lemma ReachedParts(f: Forest, n: TiXmlNode)
    requires OwnRings(f) && n in f.Nodes()
    ensures AttributesOf(f, n) == ReachedOf(f, n) + UnreachedOf(f, n)
    ensures Reaches(f, n) <==> UnreachedOf(f, n) == []
    ensures forall m :: m in UnreachedOf(f, n) ==> m !in ReachedOf(f, n)
  {
    hide Visible, Forest.RingsApart;
    var e := f.entries[n];
    if e.data.ElementLabel? {
      var v := Visible(e.data.attributes);
      VisibleAll(e.data.attributes);
      assert v == e.data.attributes <==> |v| == |e.data.attributes|;
      forall m | m in UnreachedOf(f, n) ensures m !in ReachedOf(f, n) {
        var i :| 0 <= i < |e.ring[|v|..]| && AsObjects(e.ring[|v|..])[i] == m;
        assert e.ring[|v| + i] == m;
      }
    }
  }

  /** Neither member is out of the comparison's reach below the node. */
  ghost predicate WithinReach(f: Forest, below: set<TiXmlNode>, a: object, b: object) {
    forall m {:trigger m in below} :: m in below && m in f.Nodes() ==> a !in UnreachedOf(f, m) && b !in UnreachedOf(f, m)
  }

  lemma {:induction false} ComparesRight(f: Forest, n: TiXmlNode, a: object, b: object)
    requires f.WellFormed() && OwnRings(f) && n in f.Nodes() && WithinReach(f, Below(f, n), a, b)
    ensures CompareIn(WalkOrder(f, n), a, b) == CompareIn(DocOrder(f, n), a, b)
    decreases f.entries[n].rank, |f.Children(n)| + 1
  {
    hide AttributesOf, ReachedOf, UnreachedOf, WalkOrderFrom, DocOrderFrom, BelowFrom, CompareIn, OwnRings;
    PartsCompare(n, ReachedOf(f, n), WalkOrderFrom(f, n, 0), a, b);
    PartsCompare(n, AttributesOf(f, n), DocOrderFrom(f, n, 0), a, b);
    ComparesRightFrom(f, n, 0, a, b);
    ReachedParts(f, n);
    CompareConcat(ReachedOf(f, n), UnreachedOf(f, n), a, b);
    CompareMissing(UnreachedOf(f, n), a, b);
    assert n in Below(f, n);
  }

  lemma {:induction false} ComparesRightFrom(f: Forest, n: TiXmlNode, i: nat, a: object, b: object)
    requires f.WellFormed() && OwnRings(f) && n in f.Nodes() && i <= |f.Children(n)| && WithinReach(f, BelowFrom(f, n, i), a, b)
    ensures CompareIn(WalkOrderFrom(f, n, i), a, b) == CompareIn(DocOrderFrom(f, n, i), a, b)
    decreases f.entries[n].rank, |f.Children(n)| - i
  {
    hide WalkOrder, DocOrder, Below, CompareIn, OwnRings, UnreachedOf;
    assert f.Sound(n);
    if i < |f.Children(n)| {
      var kid := f.Children(n)[i];
      ComparesRight(f, kid, a, b);
      ComparesRightFrom(f, n, i + 1, a, b);
      CompareConcat(WalkOrder(f, kid), WalkOrderFrom(f, n, i + 1), a, b);
      CompareConcat(DocOrder(f, kid), DocOrderFrom(f, n, i + 1), a, b);
    }
  }

  /** What the comparison comes across belongs to a node and is reached in it. */
  lemma {:induction false} WalkOwner(f: Forest, n: TiXmlNode, m: object) returns (q: TiXmlNode)
    requires f.WellFormed() && n in f.Nodes() && m in WalkOrder(f, n)
    ensures q in f.Nodes() && q in Below(f, n) && (m == q || m in ReachedOf(f, q))
    decreases f.entries[n].rank, |f.Children(n)| + 1
  {
    hide ReachedOf, WalkOrderFrom, BelowFrom;
    if m == n || m in ReachedOf(f, n) {
      q := n;
    } else {
      q := WalkOwnerFrom(f, n, 0, m);
    }
  }

  lemma {:induction false} WalkOwnerFrom(f: Forest, n: TiXmlNode, i: nat, m: object) returns (q: TiXmlNode)
    requires f.WellFormed() && n in f.Nodes() && i <= |f.Children(n)| && m in WalkOrderFrom(f, n, i)
    ensures q in f.Nodes() && q in BelowFrom(f, n, i) && (m == q || m in ReachedOf(f, q))
    decreases f.entries[n].rank, |f.Children(n)| - i
  {
    hide WalkOrder, Below, ReachedOf;
    assert f.Sound(n);
    if m in WalkOrder(f, f.Children(n)[i]) {
      q := WalkOwner(f, f.Children(n)[i], m);
    } else {
      q := WalkOwnerFrom(f, n, i + 1, m);
    }
  }

  /** An attribute out of reach is a member of the tree, but the comparison does not come across it. */
  lemma OutOfReach(f: Forest, n: TiXmlNode, m: TiXmlNode, x: object)
    requires f.WellFormed() && OwnRings(f) && n in f.Nodes() && m in Below(f, n) && m in f.Nodes() && x in UnreachedOf(f, m)
    ensures x in DocOrder(f, n) && x !in WalkOrder(f, n)
    ensures CompareIn(WalkOrder(f, n), x, x) == NotFound && CompareIn(DocOrder(f, n), x, x) == Same
  {
    hide AttributesOf, ReachedOf, UnreachedOf, WalkOrder, DocOrderFrom, Below, CompareIn, OwnRings;
    ReachedParts(f, m);
    assert x in AttributesOf(f, m) && x in DocOrder(f, m);
    var pre, post := Block(f, n, m);
    assert x in pre + DocOrder(f, m) + post;
    hide DocOrder;
    if x in WalkOrder(f, n) {
      var q := WalkOwner(f, n, x);
      ReachedParts(f, q);
      OneOwner(f, x, m, q);
      RingMembers(f, m, x);
    }
    CompareMissing(WalkOrder(f, n), x, x);
    CompareIsRank(DocOrder(f, n), x, x);
  }

  /** The comparison is document order on all pairs of members of the tree exactly when no element of
      the tree has, behind its first attribute, one with an empty name and value. */
  lemma CompareIsDocumentOrder(f: Forest, n: TiXmlNode)
    requires Intact(f) && n in f.Nodes()
    ensures (forall a, b :: a in DocOrder(f, n) && b in DocOrder(f, n) ==>
               CompareIn(WalkOrder(f, n), a, b) == CompareIn(DocOrder(f, n), a, b)) <==> AllReached(f, n)
  {
    hide Linked, Shown, Forest.WellFormed, Forest.RingsApart, WalkOrder, DocOrder, Below, CompareIn, OwnRings, Reaches, UnreachedOf;
    IntactOwnsRings(f);
    if AllReached(f, n) {
      forall m | m in Below(f, n) && m in f.Nodes() ensures UnreachedOf(f, m) == [] {
        ReachedParts(f, m);
      }
      forall a, b | a in DocOrder(f, n) && b in DocOrder(f, n)
        ensures CompareIn(WalkOrder(f, n), a, b) == CompareIn(DocOrder(f, n), a, b)
      {
        ComparesRight(f, n, a, b);
      }
    } else {
      var m :| m in Below(f, n) && m in f.Nodes() && !Reaches(f, m);
      ReachedParts(f, m);
      OutOfReach(f, n, m, UnreachedOf(f, m)[0]);
    }
  }

  /** Comparing by this sequence is a strict total order on these members. */
  ghost predicate OrdersAll(order: seq<object>, members: seq<object>) {
    forall a, b, c :: a in members && b in members && c in members ==>
      && CompareIn(order, a, b) != NotFound
      && (CompareIn(order, a, b) == Same <==> a == b)
      && (CompareIn(order, a, b) == Lower <==> CompareIn(order, b, a) == Higher)
      && (CompareIn(order, a, b) == Lower && CompareIn(order, b, c) == Lower ==> CompareIn(order, a, c) == Lower)
  }

  /** The comparison is a strict total order on all members of the tree exactly when it reaches every
      attribute. */
  lemma CompareIsTotalOrder(f: Forest, n: TiXmlNode)
    requires Intact(f) && n in f.Nodes()
    ensures OrdersAll(WalkOrder(f, n), DocOrder(f, n)) <==> AllReached(f, n)
  {
    hide Linked, Shown, Forest.WellFormed, Forest.RingsApart, WalkOrder, DocOrder, Below, CompareIn, OwnRings, Reaches, UnreachedOf;
    if AllReached(f, n) {
      CompareIsDocumentOrder(f, n);
      var order := DocOrder(f, n);
      forall a, b, c | a in order && b in order && c in order
        ensures CompareIn(order, a, b) != NotFound
        ensures CompareIn(order, a, b) == Same <==> a == b
        ensures CompareIn(order, a, b) == Lower <==> CompareIn(order, b, a) == Higher
        ensures CompareIn(order, a, b) == Lower && CompareIn(order, b, c) == Lower ==> CompareIn(order, a, c) == Lower
      {
        RanksAreOrdered(order, a, b, c);
      }
    } else {
      IntactOwnsRings(f);
      var m :| m in Below(f, n) && m in f.Nodes() && !Reaches(f, m);
      ReachedParts(f, m);
      OutOfReach(f, n, m, UnreachedOf(f, m)[0]);
    }
  }

  /** On nodes the comparison is document order in every tree. */
  lemma NodesCompareRight(f: Forest, n: TiXmlNode, a: TiXmlNode, b: TiXmlNode)
    requires f.WellFormed() && OwnRings(f) && n in f.Nodes()
    ensures CompareIn(WalkOrder(f, n), a, b) == CompareIn(DocOrder(f, n), a, b)
  {
    hide WalkOrder, DocOrder, Below, CompareIn, OwnRings, UnreachedOf, Forest.WellFormed;
    forall m | m in Below(f, n) && m in f.Nodes() ensures a !in UnreachedOf(f, m) && b !in UnreachedOf(f, m) {
      NoNodeUnreached(f, m, a);
      NoNodeUnreached(f, m, b);
    }
    ComparesRight(f, n, a, b);
  }

  lemma NoNodeUnreached(f: Forest, m: TiXmlNode, a: TiXmlNode)
    requires m in f.Nodes()
    ensures a !in UnreachedOf(f, m)
  {
    hide Visible;
    var order := UnreachedOf(f, m);
    assert forall i :: 0 <= i < |order| ==> order[i] != a;
  }

  /** The element with these two attributes. */
  ghost predicate IsHiding(f: Forest, n: TiXmlNode, ring: seq<TiXmlAttribute>) {
    f == Single(n, ElementLabel("e", [Attribute("a", "1"), Attribute("", "")]), ring) && |ring| == 2
  }

  method SetTwoAttributes(attributes: TiXmlAttributeSet) returns (ghost ring: seq<TiXmlAttribute>)
    requires attributes.IsRing([])
    modifies attributes.sentinel
    ensures attributes.Holds(ring, [Attribute("a", "1"), Attribute("", "")])
  {
    hide TiXmlAttributeSet.IsRing, Put, UniqueNames;
    TwoAttributes();
    ring := attributes.SetAttribute("a", "1", []);
    assert forall i :: 0 <= i < |ring| ==> ring[i] in ring && fresh(ring[i]);
    ring := attributes.SetAttribute("", "", ring);
  }

  method HidingElement() returns (e: TiXmlNode, ghost f: Forest, ghost ring: seq<TiXmlAttribute>)
    ensures Intact(f) && e in f.Nodes() && IsHiding(f, e, ring) && e.attributeSet.IsRing(ring)
  {
    hide Linked, Shown, IsTree, Links, Contents, TiXmlAttributeSet.IsRing, Forest.WellFormed, Forest.RingsApart;
    e := new TiXmlNode(ElementNode, "e");
    ring := SetTwoAttributes(e.attributeSet);
    ghost var data := ElementLabel("e", [Attribute("a", "1"), Attribute("", "")]);
    f := Single(e, data, ring);
    SingleIntact(e, data, ring);
  }

  /** An element with two attributes, the second without a name and a value: compared with itself, the
      second is not found. */
  method CompareHiddenAttribute() returns (r: Order, ghost f: Forest, ghost n: TiXmlNode, ghost x: object)
    ensures Intact(f) && n in f.Nodes() && f.entries[n].data == ElementLabel("e", [Attribute("a", "1"), Attribute("", "")])
    ensures x in DocOrder(f, n) && CompareIn(DocOrder(f, n), x, x) == Same && r == NotFound
  {
    hide Intact, TiXmlAttributeSet.IsRing, WalkOrder, DocOrder, CompareIn, UnreachedOf, Below, OwnRings;
    var e;
    ghost var ring;
    e, f, ring := HidingElement();
    e.attributeSet.Ends(ring);
    var last := e.attributeSet.Last();
    n, x := e, last;
    r := CompareNodeInTree(e, last, last, f);
    IntactOwnsRings(f);
    HiddenAttribute(f, e, ring);
    OutOfReach(f, e, e, last);
  }

  lemma TwoAttributes()
    ensures UniqueNames([]) && Put(Put([], "a", "1"), "", "") == [Attribute("a", "1"), Attribute("", "")]
  {
  }

  lemma HiddenAttribute(f: Forest, n: TiXmlNode, ring: seq<TiXmlAttribute>)
    requires IsHiding(f, n, ring)
    ensures f.WellFormed() && n in Below(f, n) && ring[1] in UnreachedOf(f, n)
  {
    assert f.Sound(n);
    assert Visible([Attribute("a", "1"), Attribute("", "")]) == [Attribute("a", "1")];
    assert AsObjects(ring[1..])[0] == ring[1];
  }
}
