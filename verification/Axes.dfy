/** The axes of the node set: which elements of a tree they add. */
module Axes {
  import opened Characters
  import opened XmlTree
  import opened Dom
  import opened DocumentOrder

  // ---- Elements among the children ----

  ghost predicate IsElement(f: Forest, n: TiXmlNode) {
    n in f.Nodes() && f.entries[n].data.ElementLabel?
  }

  /** No name asked for, or the node's name. */
  ghost predicate Matches(f: Forest, n: TiXmlNode, lookup: Option<string>) {
    lookup.None? || (IsElement(f, n) && CStr(f.entries[n].data.name) == CStr(lookup.value))
  }

  ghost function Chosen(f: Forest, nodes: seq<TiXmlNode>, lookup: Option<string>): seq<TiXmlNode> {
    if nodes == [] then []
    else (if Matches(f, nodes[0], lookup) then [nodes[0]] else []) + Chosen(f, nodes[1..], lookup)
  }

  /** The element children from the `i`-th child on. */
  ghost function ElementsFrom(f: Forest, n: TiXmlNode, i: nat): seq<TiXmlNode>
    requires n in f.Nodes() && i <= |f.Children(n)|
    decreases |f.Children(n)| - i
  {
    if i == |f.Children(n)| then []
    else (if IsElement(f, f.Children(n)[i]) then [f.Children(n)[i]] else []) + ElementsFrom(f, n, i + 1)
  }

  /** The elements below, reached through elements, from the `i`-th child on: each before its own. */
  ghost function Descendants(f: Forest, n: TiXmlNode, i: nat): seq<TiXmlNode>
    requires f.WellFormed() && n in f.Nodes() && i <= |f.Children(n)|
    decreases f.entries[n].rank, |f.Children(n)| - i
  {
    assert f.Sound(n);
    if i == |f.Children(n)| then []
    else
      var kid := f.Children(n)[i];
      (if IsElement(f, kid) then [kid] + Descendants(f, kid, 0) else []) + Descendants(f, n, i + 1)
  }

  /** An element with its element children. */
  ghost function WithChildren(f: Forest, n: TiXmlNode): seq<TiXmlNode>
    requires n in f.Nodes()
  {
    if IsElement(f, n) then [n] + ElementsFrom(f, n, 0) else []
  }

  /** The element children from the `i`-th on, each with its element children. */
  ghost function FollowingFrom(f: Forest, n: TiXmlNode, i: nat): seq<TiXmlNode>
    requires f.WellFormed() && n in f.Nodes() && i <= |f.Children(n)|
    decreases |f.Children(n)| - i
  {
    assert f.Sound(n);
    if i == |f.Children(n)| then [] else WithChildren(f, f.Children(n)[i]) + FollowingFrom(f, n, i + 1)
  }

  /** The element children before the `i`-th, backwards, each with its element children. */
  ghost function PrecedingTo(f: Forest, n: TiXmlNode, i: nat): seq<TiXmlNode>
    requires f.WellFormed() && n in f.Nodes() && i <= |f.Children(n)|
    decreases i
  {
    assert f.Sound(n);
    if i == 0 then [] else WithChildren(f, f.Children(n)[i - 1]) + PrecedingTo(f, n, i - 1)
  }

  // ---- Parents ----

  /** `f` is one whole tree: its root has no parent and no siblings. */
  ghost predicate WholeTree(f: Forest, l: map<TiXmlNode, Link>, root: TiXmlNode) {
    && f.WellFormed() && OwnRings(f) && LinkedBy(f, l) && IsTree(l, f, root)
    && l[root].parent == null && l[root].next == null && l[root].prev == null
  }

  /** What the edits and the parser keep is what the axes ask for. */
  lemma AloneIsWhole(f: Forest, root: TiXmlNode)
    requires StandsAlone(f, root)
    ensures WholeTree(f, Links(f.Nodes()), root)
  {
    hide Shown, LinkedBy, OwnRings, IsTree, Forest.WellFormed, Forest.RingsApart;
    IntactOwnsRings(f);
    assert Links(f.Nodes())[root].parent == root.parent;
  }

  /** The place of a child. */
  ghost function PlaceOf(kids: seq<TiXmlNode>, c: TiXmlNode): (k: nat)
    requires c in kids
    ensures k < |kids| && kids[k] == c
  {
    if kids[0] == c then 0 else 1 + PlaceOf(kids[1..], c)
  }

  /** Everything but the root hangs under a node of the tree. */
  lemma ParentInside(f: Forest, l: map<TiXmlNode, Link>, root: TiXmlNode, n: TiXmlNode)
    requires WholeTree(f, l, root) && n in f.Nodes() && n != root
    ensures n in l
    ensures var p := l[n].parent;
            p != null && p in f.Nodes() && n in f.Children(p) && f.entries[n].rank < f.entries[p].rank
  {
    hide Chain;
    assert Hung(l, f, n);
    var p := l[n].parent;
    assert p in f.Nodes() && f.Sound(p);
  }

  /** The following siblings with their element children, and those of the ancestor elements. */
  ghost function Following(f: Forest, l: map<TiXmlNode, Link>, root: TiXmlNode, n: TiXmlNode): seq<TiXmlNode>
    requires WholeTree(f, l, root) && n in f.Nodes()
    decreases f.top - f.entries[n].rank
  {
    if n == root then []
    else
      ParentInside(f, l, root, n);
      var p := l[n].parent;
      assert f.Sound(p);
      FollowingFrom(f, p, PlaceOf(f.Children(p), n) + 1) + if IsElement(f, p) then Following(f, l, root, p) else []
  }

  /** The preceding siblings with their element children. */
  ghost function Preceding(f: Forest, l: map<TiXmlNode, Link>, root: TiXmlNode, n: TiXmlNode): seq<TiXmlNode>
    requires WholeTree(f, l, root) && n in f.Nodes()
  {
    if n == root then []
    else
      ParentInside(f, l, root, n);
      var p := l[n].parent;
      PrecedingTo(f, p, PlaceOf(f.Children(p), n))
  }

  // ---- Where the axes' elements stand ----

  lemma {:induction false} ElementsAreKids(f: Forest, n: TiXmlNode, i: nat, x: TiXmlNode)
    requires n in f.Nodes() && i <= |f.Children(n)| && x in ElementsFrom(f, n, i)
    ensures IsElement(f, x) && x in f.Children(n)
    decreases |f.Children(n)| - i
  {
    if x in ElementsFrom(f, n, i + 1) {
      ElementsAreKids(f, n, i + 1, x);
    }
  }

  lemma WithChildrenBelow(f: Forest, n: TiXmlNode, x: TiXmlNode)
    requires f.WellFormed() && n in f.Nodes() && x in WithChildren(f, n)
    ensures IsElement(f, x) && x in Below(f, n)
  {
    hide BelowFrom;
    if x != n {
      ElementsAreKids(f, n, 0, x);
      KidIsBelow(f, n, x);
    }
  }

  lemma {:induction false} FollowingFromBelow(f: Forest, n: TiXmlNode, i: nat, x: TiXmlNode) returns (j: nat)
    requires f.WellFormed() && n in f.Nodes() && i <= |f.Children(n)| && x in FollowingFrom(f, n, i)
    ensures i <= j < |f.Children(n)| && f.Children(n)[j] in f.Nodes() && IsElement(f, x) && x in Below(f, f.Children(n)[j])
    decreases |f.Children(n)| - i
  {
    hide Below, WithChildren;
    assert f.Sound(n);
    if x in WithChildren(f, f.Children(n)[i]) {
      WithChildrenBelow(f, f.Children(n)[i], x);
      j := i;
    } else {
      j := FollowingFromBelow(f, n, i + 1, x);
    }
  }

  lemma {:induction false} PrecedingToBelow(f: Forest, n: TiXmlNode, i: nat, x: TiXmlNode) returns (j: nat)
    requires f.WellFormed() && n in f.Nodes() && i <= |f.Children(n)| && x in PrecedingTo(f, n, i)
    ensures j < i && f.Children(n)[j] in f.Nodes() && IsElement(f, x) && x in Below(f, f.Children(n)[j])
    decreases i
  {
    hide Below, WithChildren;
    assert f.Sound(n);
    if x in WithChildren(f, f.Children(n)[i - 1]) {
      WithChildrenBelow(f, f.Children(n)[i - 1], x);
      j := i - 1;
    } else {
      j := PrecedingToBelow(f, n, i - 1, x);
    }
  }

  /** Parts of separated subtrees are separated. */
  lemma BeforeParts(f: Forest, order: seq<object>, a: TiXmlNode, b: TiXmlNode, x: TiXmlNode, y: TiXmlNode)
    requires f.WellFormed() && a in f.Nodes() && b in f.Nodes() && AllBefore(f, order, a, b)
    requires x in f.Nodes() && x in Below(f, a) && y in f.Nodes() && y in Below(f, b)
    ensures AllBefore(f, order, x, y)
  {
    hide Below, Precedes;
    forall u, v | u in Below(f, x) && v in Below(f, y) ensures Precedes(order, u, v) {
      BelowIsTransitive(f, a, x, u);
      BelowIsTransitive(f, b, y, v);
    }
  }

  /** Every node of a tree is below its root. */
  lemma {:induction false} AllBelowRoot(f: Forest, l: map<TiXmlNode, Link>, root: TiXmlNode, n: TiXmlNode)
    requires WholeTree(f, l, root) && n in f.Nodes()
    ensures n in Below(f, root)
    decreases f.top - f.entries[n].rank
  {
    if n != root {
      hide Below, LinkedBy;
      ParentInside(f, l, root, n);
      var p := l[n].parent;
      assert f.Sound(p);
      AllBelowRoot(f, l, root, p);
      KidIsBelow(f, p, n);
      BelowIsTransitive(f, root, p, n);
    }
  }

  /** What the following axis adds stands, with all below it, after the context and all below that. */
  lemma {:induction false} FollowingIsAfter(f: Forest, l: map<TiXmlNode, Link>, root: TiXmlNode, n: TiXmlNode, x: TiXmlNode)
    requires WholeTree(f, l, root) && n in f.Nodes() && x in Following(f, l, root, n)
    ensures IsElement(f, x) && AllBefore(f, DocOrder(f, root), n, x)
    decreases f.top - f.entries[n].rank
  {
    hide Below, LinkedBy, FollowingFrom, AllBefore, DocOrder;
    ParentInside(f, l, root, n);
    var p := l[n].parent;
    var k := PlaceOf(f.Children(p), n);
    assert f.Sound(p);
    KidIsBelow(f, p, n);
    SelfBelow(f, n);
    if x in FollowingFrom(f, p, k + 1) {
      var j := FollowingFromBelow(f, p, k + 1, x);
      AllBelowRoot(f, l, root, p);
      KidsInOrder(f, root, p, k, j);
      BeforeParts(f, DocOrder(f, root), n, f.Children(p)[j], n, x);
    } else {
      FollowingIsAfter(f, l, root, p, x);
      SelfBelow(f, x);
      BeforeParts(f, DocOrder(f, root), p, x, n, x);
    }
  }

  /** What the preceding axis adds stands, with all below it, before the context and all below that. */
  lemma PrecedingIsBefore(f: Forest, l: map<TiXmlNode, Link>, root: TiXmlNode, n: TiXmlNode, x: TiXmlNode)
    requires WholeTree(f, l, root) && n in f.Nodes() && x in Preceding(f, l, root, n)
    ensures IsElement(f, x) && AllBefore(f, DocOrder(f, root), x, n)
  {
    hide Below, LinkedBy, PrecedingTo, AllBefore, DocOrder;
    ParentInside(f, l, root, n);
    var p := l[n].parent;
    var k := PlaceOf(f.Children(p), n);
    assert f.Sound(p);
    SelfBelow(f, n);
    var j := PrecedingToBelow(f, p, k, x);
    AllBelowRoot(f, l, root, p);
    KidsInOrder(f, root, p, j, k);
    BeforeParts(f, DocOrder(f, root), f.Children(p)[j], n, x, n);
  }

  lemma OnceInTree(f: Forest, l: map<TiXmlNode, Link>, root: TiXmlNode, n: TiXmlNode)
    requires WholeTree(f, l, root) && n in f.Nodes()
    ensures n in DocOrder(f, root) && Once(DocOrder(f, root))
  {
    hide LinkedBy, DocOrder, Below, Once, OwnRings;
    AllBelowRoot(f, l, root, n);
    NodesInOrder(f, root, n);
    DocOrderOnce(f, l, root);
  }

  /** Two nodes with everything below the first before everything below the second. */
  lemma SeparatedNodes(f: Forest, l: map<TiXmlNode, Link>, root: TiXmlNode, a: TiXmlNode, b: TiXmlNode)
    requires WholeTree(f, l, root) && a in f.Nodes() && b in f.Nodes() && AllBefore(f, DocOrder(f, root), a, b)
    ensures CompareIn(DocOrder(f, root), a, b) == Lower && a !in Below(f, b) && b !in Below(f, a)
    ensures !Precedes(DocOrder(f, root), b, a)
  {
    hide LinkedBy, DocOrder, Below, Once, Precedes, CompareIn, OwnRings;
    OnceInTree(f, l, root, a);
    SelfBelow(f, a);
    SelfBelow(f, b);
    BeforeIsLower(DocOrder(f, root), a, b);
    NotBeforeItself(DocOrder(f, root), a);
    NotBeforeItself(DocOrder(f, root), b);
  }

  lemma NotBeforeItself(order: seq<object>, x: object)
    requires Once(order)
    ensures !Precedes(order, x, x)
  {
  }

  /** The following axis is sound: elements after the context in document order that are neither below
      it nor above it (section 2.2 of XPath 1.0). */
  lemma FollowingIsSound(f: Forest, l: map<TiXmlNode, Link>, root: TiXmlNode, n: TiXmlNode, x: TiXmlNode)
    requires WholeTree(f, l, root) && n in f.Nodes() && x in Following(f, l, root, n)
    ensures IsElement(f, x) && CompareIn(DocOrder(f, root), n, x) == Lower && x !in Below(f, n) && n !in Below(f, x)
  {
    hide LinkedBy, DocOrder, Below, CompareIn, Following, AllBefore;
    FollowingIsAfter(f, l, root, n, x);
    SeparatedNodes(f, l, root, n, x);
  }

  /** So is the preceding axis, the other way round. */
  lemma PrecedingIsSound(f: Forest, l: map<TiXmlNode, Link>, root: TiXmlNode, n: TiXmlNode, x: TiXmlNode)
    requires WholeTree(f, l, root) && n in f.Nodes() && x in Preceding(f, l, root, n)
    ensures IsElement(f, x) && CompareIn(DocOrder(f, root), x, n) == Lower && x !in Below(f, n) && n !in Below(f, x)
  {
    hide LinkedBy, DocOrder, Below, CompareIn, Preceding, AllBefore;
    PrecedingIsBefore(f, l, root, n, x);
    SeparatedNodes(f, l, root, x, n);
  }

  /** The two axes of a node have nothing in common. */
  lemma AxesAreDisjoint(f: Forest, l: map<TiXmlNode, Link>, root: TiXmlNode, n: TiXmlNode, x: TiXmlNode)
    requires WholeTree(f, l, root) && n in f.Nodes()
    ensures !(x in Following(f, l, root, n) && x in Preceding(f, l, root, n))
  {
    hide LinkedBy, DocOrder, Below, CompareIn, Following, Preceding;
    if x in Following(f, l, root, n) && x in Preceding(f, l, root, n) {
      FollowingIsSound(f, l, root, n, x);
      PrecedingIsSound(f, l, root, n, x);
      OnceInTree(f, l, root, n);
      OnceInTree(f, l, root, x);
      RanksAreOrdered(DocOrder(f, root), n, x, n);
    }
  }

  // ---- The descendant axis ----

  /** Everything between `n` and `x`, and `x` itself, is an element. */
  ghost predicate ThroughElements(f: Forest, n: TiXmlNode, x: TiXmlNode)
    requires f.WellFormed() && n in f.Nodes()
  {
    forall m :: m in Below(f, n) && m != n && m in f.Nodes() && x in Below(f, m) ==> IsElement(f, m)
  }

  /** `x` is the element `kid` or reached from it. */
  ghost predicate ReachedFrom(f: Forest, kid: TiXmlNode, x: TiXmlNode)
    requires f.WellFormed()
  {
    IsElement(f, kid) && (x == kid || x in Descendants(f, kid, 0))
  }

  lemma {:induction false} DescendantsAt(f: Forest, n: TiXmlNode, i: nat, x: TiXmlNode)
    requires f.WellFormed() && n in f.Nodes() && i <= |f.Children(n)|
    ensures x in Descendants(f, n, i) <==> exists j :: i <= j < |f.Children(n)| && ReachedFrom(f, f.Children(n)[j], x)
    decreases |f.Children(n)| - i
  {
    hide Forest.WellFormed, Descendants, ReachedFrom;
    if i < |f.Children(n)| {
      DescendantsAt(f, n, i + 1, x);
      DescendantsUnfold(f, n, i, x);
    } else {
      DescendantsEnd(f, n);
    }
  }

  lemma DescendantsEnd(f: Forest, n: TiXmlNode)
    requires f.WellFormed() && n in f.Nodes()
    ensures Descendants(f, n, |f.Children(n)|) == []
  {
  }

  lemma DescendantsUnfold(f: Forest, n: TiXmlNode, i: nat, x: TiXmlNode)
    requires f.WellFormed() && n in f.Nodes() && i < |f.Children(n)|
    ensures var kid := f.Children(n)[i];
            x in Descendants(f, n, i) <==> ReachedFrom(f, kid, x) || x in Descendants(f, n, i + 1)
  {
    assert f.Sound(n);
  }

  /** The kid of `n` that `x` is below. */
  lemma KidAbove(f: Forest, n: TiXmlNode, x: TiXmlNode) returns (j: nat)
    requires f.WellFormed() && n in f.Nodes() && x in Below(f, n) && x != n
    ensures j < |f.Children(n)| && f.Children(n)[j] in f.Nodes() && x in Below(f, f.Children(n)[j])
    ensures f.Children(n)[j] in Below(f, n) && f.Children(n)[j] != n
  {
    hide Below, BelowFrom;
    InBelow(f, n, x);
    BelowFromAt(f, n, 0, x);
    j :| 0 <= j < |f.Children(n)| && f.Children(n)[j] in f.Nodes() && x in Below(f, f.Children(n)[j]);
    KidIsBelow(f, n, f.Children(n)[j]);
    assert f.Sound(n);
  }

  /** The axis collects exactly the nodes below that are reached through elements. */
  lemma {:induction false} DescendantsAreExact(f: Forest, l: map<TiXmlNode, Link>, n: TiXmlNode, x: TiXmlNode)
    requires f.WellFormed() && LinkedBy(f, l) && n in f.Nodes()
    ensures x in Descendants(f, n, 0) <==> x in Below(f, n) && x != n && ThroughElements(f, n, x)
    decreases f.entries[n].rank
  {
    hide Below, LinkedBy, Descendants, ThroughElements;
    DescendantsAt(f, n, 0, x);
    assert f.Sound(n);
    if x in Descendants(f, n, 0) {
      var j :| 0 <= j < |f.Children(n)| && ReachedFrom(f, f.Children(n)[j], x);
      var kid := f.Children(n)[j];
      KidIsBelow(f, n, kid);
      SelfBelow(f, kid);
      DescendantsAreExact(f, l, kid, x);
      BelowIsTransitive(f, n, kid, x);
      BelowHasParent(f, kid, x);
      ThroughKid(f, l, n, j, x);
    }
    if x in Below(f, n) && x != n && ThroughElements(f, n, x) {
      var j := KidAbove(f, n, x);
      var kid := f.Children(n)[j];
      DescendantsAreExact(f, l, kid, x);
      FromKid(f, n, j, x);
    }
  }

  lemma FromKid(f: Forest, n: TiXmlNode, j: nat, x: TiXmlNode)
    requires f.WellFormed() && n in f.Nodes() && j < |f.Children(n)| && f.Children(n)[j] in f.Nodes()
    requires x in Below(f, f.Children(n)[j]) && ThroughElements(f, n, x)
    ensures IsElement(f, f.Children(n)[j]) && ThroughElements(f, f.Children(n)[j], x)
  {
    hide Below;
    var kid := f.Children(n)[j];
    assert f.Sound(n);
    KidIsBelow(f, n, kid);
    SelfBelow(f, kid);
    forall m | m in Below(f, kid) && m != kid && m in f.Nodes() && x in Below(f, m) ensures IsElement(f, m) {
      BelowIsTransitive(f, n, kid, m);
      BelowHasParent(f, kid, m);
    }
  }

  lemma ThroughKid(f: Forest, l: map<TiXmlNode, Link>, n: TiXmlNode, j: nat, x: TiXmlNode)
    requires f.WellFormed() && LinkedBy(f, l) && n in f.Nodes() && j < |f.Children(n)| && f.Children(n)[j] in f.Nodes()
    requires var kid := f.Children(n)[j];
             IsElement(f, kid) && x in Below(f, kid) && (x == kid || ThroughElements(f, kid, x))
    ensures ThroughElements(f, n, x)
  {
    hide Below, LinkedBy;
    var kid := f.Children(n)[j];
    assert f.Sound(n);
    forall m | m in Below(f, n) && m != n && m in f.Nodes() && x in Below(f, m) ensures IsElement(f, m) {
      var k := KidAbove(f, n, m);
      BelowIsTransitive(f, f.Children(n)[k], m, x);
      if k != j {
        KidsApart(f, l, n, k, j, x);
      }
      if m != kid && x == kid {
        BelowHasParent(f, kid, m);
        BelowHasParent(f, m, kid);
        assert f.entries[m].rank <= f.entries[kid].rank;
        StrictlyBelow(f, m, kid);
      }
    }
  }

  lemma StrictlyBelow(f: Forest, n: TiXmlNode, c: TiXmlNode)
    requires f.WellFormed() && n in f.Nodes() && c in Below(f, n) && c != n
    ensures c in f.Nodes() && f.entries[c].rank < f.entries[n].rank
  {
    hide Below;
    InBelow(f, n, c);
    BelowFromHasParent(f, n, 0, c);
  }

  /** The nodes stand in this sequence in document order. */
  ghost predicate Increasing(order: seq<object>, nodes: seq<TiXmlNode>) {
    forall i, j :: 0 <= i < j < |nodes| ==> Precedes(order, nodes[i], nodes[j])
  }

  lemma IncreasingConcat(order: seq<object>, a: seq<TiXmlNode>, b: seq<TiXmlNode>)
    requires Increasing(order, a) && Increasing(order, b)
    requires forall x, y :: x in a && y in b ==> Precedes(order, x, y)
    ensures Increasing(order, a + b)
  {
    hide Precedes;
    var c := a + b;
    forall i, j | 0 <= i < j < |c| ensures Precedes(order, c[i], c[j]) {
      if i < |a| <= j {
        assert c[i] in a && c[j] in b;
      }
    }
  }

  /** A node stands before what is below it. */
  lemma NodeComesFirst(f: Forest, root: TiXmlNode, n: TiXmlNode, x: TiXmlNode)
    requires f.WellFormed() && root in f.Nodes() && n in Below(f, root) && n in f.Nodes() && x in Below(f, n) && x != n
    ensures Precedes(DocOrder(f, root), n, x)
  {
    hide Below, DocOrderFrom, AttributesOf, Precedes;
    NodesInOrder(f, n, x);
    NotAnAttribute(f, n, x);
    assert DocOrder(f, n) == [n as object] + (AttributesOf(f, n) + DocOrderFrom(f, n, 0));
    BeforeAcross([n], AttributesOf(f, n) + DocOrderFrom(f, n, 0), n, x);
    var p, q := Block(f, root, n);
    BeforeInside(p, DocOrder(f, n), q, n, x);
  }

  lemma {:induction false} DescendantsBelow(f: Forest, n: TiXmlNode, i: nat, x: TiXmlNode) returns (j: nat)
    requires f.WellFormed() && n in f.Nodes() && i <= |f.Children(n)| && x in Descendants(f, n, i)
    ensures i <= j < |f.Children(n)| && f.Children(n)[j] in f.Nodes() && x in Below(f, f.Children(n)[j])
    ensures IsElement(f, x) && x in Below(f, n) && x != n
    decreases f.entries[n].rank, |f.Children(n)| - i
  {
    hide Below;
    assert f.Sound(n);
    if x in Descendants(f, n, i + 1) {
      j := DescendantsBelow(f, n, i + 1, x);
    } else {
      j := i;
      var kid := f.Children(n)[i];
      SelfBelow(f, kid);
      KidIsBelow(f, n, kid);
      if x != kid {
        var k := DescendantsBelow(f, kid, 0, x);
        BelowIsTransitive(f, n, kid, x);
        StrictlyBelow(f, kid, x);
      }
    }
  }

  /** The axis runs in document order. */
  lemma {:induction false} DescendantsIncrease(f: Forest, root: TiXmlNode, n: TiXmlNode, i: nat)
    requires f.WellFormed() && root in f.Nodes() && n in Below(f, root) && n in f.Nodes() && i <= |f.Children(n)|
    ensures Increasing(DocOrder(f, root), Descendants(f, n, i))
    decreases f.entries[n].rank, |f.Children(n)| - i
  {
    hide Below, DocOrder, Precedes;
    assert f.Sound(n);
    if i < |f.Children(n)| {
      var kid := f.Children(n)[i];
      DescendantsIncrease(f, root, n, i + 1);
      if IsElement(f, kid) {
        KidIsBelow(f, n, kid);
        BelowIsTransitive(f, root, n, kid);
        DescendantsIncrease(f, root, kid, 0);
        KidComesFirst(f, root, kid);
        RestComesAfter(f, root, n, i);
      }
    }
  }

  lemma KidComesFirst(f: Forest, root: TiXmlNode, kid: TiXmlNode)
    requires f.WellFormed() && root in f.Nodes() && kid in Below(f, root) && kid in f.Nodes()
    requires Increasing(DocOrder(f, root), Descendants(f, kid, 0))
    ensures Increasing(DocOrder(f, root), [kid] + Descendants(f, kid, 0))
  {
    hide Below, DocOrder, Precedes, Descendants;
    forall x | x in Descendants(f, kid, 0) ensures Precedes(DocOrder(f, root), kid, x) {
      var j := DescendantsBelow(f, kid, 0, x);
      NodeComesFirst(f, root, kid, x);
    }
    IncreasingConcat(DocOrder(f, root), [kid], Descendants(f, kid, 0));
  }

  lemma RestComesAfter(f: Forest, root: TiXmlNode, n: TiXmlNode, i: nat)
    requires f.WellFormed() && root in f.Nodes() && n in Below(f, root) && n in f.Nodes() && i < |f.Children(n)|
    requires f.Children(n)[i] in f.Nodes()
    requires Increasing(DocOrder(f, root), [f.Children(n)[i]] + Descendants(f, f.Children(n)[i], 0))
    requires Increasing(DocOrder(f, root), Descendants(f, n, i + 1))
    ensures Increasing(DocOrder(f, root), ([f.Children(n)[i]] + Descendants(f, f.Children(n)[i], 0)) + Descendants(f, n, i + 1))
  {
    hide Below, DocOrder, Precedes, Descendants, Increasing;
    var kid := f.Children(n)[i];
    var own := [kid] + Descendants(f, kid, 0);
    forall x, y | x in own && y in Descendants(f, n, i + 1) ensures Precedes(DocOrder(f, root), x, y) {
      if x == kid {
        SelfBelow(f, kid);
      } else {
        var k := DescendantsBelow(f, kid, 0, x);
      }
      var j := DescendantsBelow(f, n, i + 1, y);
      KidsInOrder(f, root, n, i, j);
    }
    IncreasingConcat(DocOrder(f, root), own, Descendants(f, n, i + 1));
  }

  lemma ChosenFrom(f: Forest, nodes: seq<TiXmlNode>, lookup: Option<string>, x: TiXmlNode)
    ensures x in Chosen(f, nodes, lookup) <==> x in nodes && Matches(f, x, lookup)
  {
    hide Matches;
    if nodes != [] {
      ChosenFrom(f, nodes[1..], lookup, x);
    }
  }

  lemma {:induction false} ChosenIncrease(f: Forest, order: seq<object>, nodes: seq<TiXmlNode>, lookup: Option<string>)
    requires Increasing(order, nodes)
    ensures Increasing(order, Chosen(f, nodes, lookup))
  {
    hide Matches, Precedes;
    if nodes != [] {
      var rest := Chosen(f, nodes[1..], lookup);
      ChosenIncrease(f, order, nodes[1..], lookup);
      forall x, y | x in [nodes[0]] && y in rest ensures Precedes(order, x, y) {
        ChosenFrom(f, nodes[1..], lookup, y);
        var j :| 0 <= j < |nodes[1..]| && nodes[1..][j] == y;
        assert nodes[j + 1] == y;
      }
      if Matches(f, nodes[0], lookup) {
        IncreasingConcat(order, [nodes[0]], rest);
      }
      assert [] + rest == rest;
    }
  }

  /** The element has that name, if one is asked for. */
  ghost predicate OfName(f: Forest, x: TiXmlNode, lookup: Option<string>)
    requires IsElement(f, x)
  {
    lookup == None || CStr(f.entries[x].data.name) == CStr(lookup.value)
  }

  lemma SameName(f: Forest, x: TiXmlNode, lookup: Option<string>)
    ensures IsElement(f, x) ==> (Matches(f, x, lookup) <==> OfName(f, x, lookup))
  {
  }

  lemma LastIsElement(f: Forest, n: TiXmlNode, x: TiXmlNode)
    requires f.WellFormed() && n in f.Nodes()
    ensures x in Below(f, n) && x != n && ThroughElements(f, n, x) ==> IsElement(f, x)
  {
    hide Below;
    if x in Below(f, n) {
      BelowHasParent(f, n, x);
      SelfBelow(f, x);
    }
  }

  /** What the descendant axis collects by name, in the tree: exactly the elements of that name that
      are reached through elements, each lower than the next. */
  lemma DescendantsByName(f: Forest, l: map<TiXmlNode, Link>, root: TiXmlNode, n: TiXmlNode, lookup: Option<string>,
                          x: TiXmlNode, i: nat, j: nat)
    requires WholeTree(f, l, root) && n in f.Nodes()
    ensures var r := Chosen(f, Descendants(f, n, 0), lookup);
            && (x in r <==> x in Below(f, n) && x != n && ThroughElements(f, n, x) && IsElement(f, x) && OfName(f, x, lookup))
            && (i < j < |r| ==> CompareIn(DocOrder(f, root), r[i], r[j]) == Lower
                                && CompareIn(WalkOrder(f, root), r[i], r[j]) == Lower)
  {
    hide Below, LinkedBy, OwnRings, Descendants, ThroughElements, DocOrder, WalkOrder, Matches, OfName, Precedes, CompareIn,
      Chosen, Once;
    var d := Descendants(f, n, 0);
    var r := Chosen(f, d, lookup);
    LastIsElement(f, n, x);
    SameName(f, x, lookup);
    ChosenFrom(f, d, lookup, x);
    DescendantsAreExact(f, l, n, x);
    if i < j < |r| {
      AllBelowRoot(f, l, root, n);
      DescendantsIncrease(f, root, n, 0);
      ChosenIncrease(f, DocOrder(f, root), d, lookup);
      ChosenFrom(f, d, lookup, r[i]);
      ChosenFrom(f, d, lookup, r[j]);
      var p := DescendantsBelow(f, n, 0, r[i]);
      var q := DescendantsBelow(f, n, 0, r[j]);
      OnceInTree(f, l, root, r[i]);
      BeforeIsLower(DocOrder(f, root), r[i], r[j]);
      NodesCompareRight(f, root, r[i], r[j]);
    }
  }
}
