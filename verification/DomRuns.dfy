/** Any run of edits of a tree of nodes: it stays one tree with all lists linked, and its shape is
    edited as the calls say. */
module DomRuns {
  import opened Characters
  import opened XmlTree
  import opened AttributeRing
  import opened Copying
  import opened Dom
  import opened DocumentOrder
  import opened Shapes

  // ---- The shape of a tree of nodes ----

  ghost function ShapeOf(f: Forest, n: TiXmlNode): Shape
    requires f.WellFormed() && n in f.Nodes()
    decreases f.entries[n].rank
  {
    assert f.Sound(n);
    Shape(f.entries[n].data, seq(|f.Children(n)|, i requires 0 <= i < |f.Children(n)| => ShapeOf(f, f.Children(n)[i])))
  }

  lemma ShapeUnfolds(f: Forest, n: TiXmlNode)
    requires f.WellFormed() && n in f.Nodes()
    ensures var s, kids := ShapeOf(f, n), f.Children(n);
            s.data == f.entries[n].data && |s.kids| == |kids|
            && forall i {:trigger s.kids[i]} {:trigger kids[i]} :: 0 <= i < |kids| ==>
                 kids[i] in f.Nodes() && f.entries[kids[i]].rank < f.entries[n].rank && s.kids[i] == ShapeOf(f, kids[i])
  {
    assert f.Sound(n);
  }

  /** The node a path leads to. */
  ghost function NodeAt(f: Forest, n: TiXmlNode, path: Path): (r: Option<TiXmlNode>)
    requires f.WellFormed() && n in f.Nodes()
    ensures r.Some? ==> r.value in f.Nodes()
    decreases path
  {
    assert f.Sound(n);
    if path == [] then Some(n)
    else if path[0] < |f.Children(n)| then NodeAt(f, f.Children(n)[path[0]], path[1..])
    else None
  }

  /** Paths lead to the same places in the nodes and in the shape. */
  lemma {:induction false} ShapeAtNode(f: Forest, n: TiXmlNode, path: Path)
    requires f.WellFormed() && n in f.Nodes()
    ensures ShapeAt(ShapeOf(f, n), path) == var q := NodeAt(f, n, path); if q.Some? then Some(ShapeOf(f, q.value)) else None
    decreases path
  {
    hide ShapeOf, Forest.WellFormed;
    ShapeUnfolds(f, n);
    if path != [] && path[0] < |f.Children(n)| {
      ShapeAtNode(f, f.Children(n)[path[0]], path[1..]);
    }
  }

  /** The value of a node is that of its shape. */
  lemma {:induction false} ShapeValue(f: Forest, n: TiXmlNode)
    requires f.WellFormed() && n in f.Nodes()
    ensures TreeOf(ShapeOf(f, n)) == ValueOf(f, n)
    decreases f.entries[n].rank, |f.Children(n)| + 1
  {
    hide ShapeOf, ValuesOf, Forest.WellFormed;
    ShapeUnfolds(f, n);
    ShapeValues(f, n, 0);
    assert ShapeOf(f, n).kids[0..] == ShapeOf(f, n).kids;
  }

  lemma {:induction false} ShapeValues(f: Forest, n: TiXmlNode, i: nat)
    requires f.WellFormed() && n in f.Nodes() && i <= |f.Children(n)|
    ensures |ShapeOf(f, n).kids| == |f.Children(n)| && TreesOf(ShapeOf(f, n).kids[i..]) == ValuesOf(f, n, i)
    decreases f.entries[n].rank, |f.Children(n)| - i
  {
    hide ShapeOf, ValueOf, TreeOf, Forest.WellFormed;
    ShapeUnfolds(f, n);
    if i < |f.Children(n)| {
      var kids := ShapeOf(f, n).kids[i..];
      assert kids[0] == ShapeOf(f, f.Children(n)[i]) && kids[1..] == ShapeOf(f, n).kids[i + 1..];
      ShapeValue(f, f.Children(n)[i]);
      ShapeValues(f, n, i + 1);
    }
  }

  /** Below whose leaves nothing hangs, the value has the whole shape. */
  lemma {:induction false} BareShape(f: Forest, n: TiXmlNode)
    requires f.WellFormed() && n in f.Nodes() && f.LeavesAreBare()
    ensures ShapeOf(f, n) == ShapeOfTree(ValueOf(f, n))
    decreases f.entries[n].rank, |f.Children(n)| + 1
  {
    hide ShapeOf, ValuesOf, Forest.WellFormed;
    ShapeUnfolds(f, n);
    BareShapes(f, n, 0);
    assert ShapeOf(f, n).kids[0..] == ShapeOf(f, n).kids;
  }

  lemma {:induction false} BareShapes(f: Forest, n: TiXmlNode, i: nat)
    requires f.WellFormed() && n in f.Nodes() && i <= |f.Children(n)| && f.LeavesAreBare()
    ensures |ShapeOf(f, n).kids| == |f.Children(n)| && ShapesOfTrees(ValuesOf(f, n, i)) == ShapeOf(f, n).kids[i..]
    decreases f.entries[n].rank, |f.Children(n)| - i
  {
    hide ShapeOf, ValueOf, ShapeOfTree, Forest.WellFormed, Forest.LeavesAreBare;
    ShapeUnfolds(f, n);
    if i < |f.Children(n)| {
      var kids := ShapeOf(f, n).kids[i..];
      assert kids[0] == ShapeOf(f, f.Children(n)[i]) && kids[1..] == ShapeOf(f, n).kids[i + 1..];
      BareShape(f, f.Children(n)[i]);
      BareShapes(f, n, i + 1);
    }
  }

  // ---- One path to every node ----

  lemma {:induction false} NodeAtChild(f: Forest, n: TiXmlNode, at: Path, k: nat)
    requires f.WellFormed() && n in f.Nodes()
    ensures NodeAt(f, n, at + [k]) == var q := NodeAt(f, n, at);
                                      if q.Some? && k < |f.Children(q.value)| then Some(f.Children(q.value)[k]) else None
    decreases at
  {
    hide Forest.WellFormed;
    ShapeUnfolds(f, n);
    var child := at + [k];
    if at == [] {
      assert child[1..] == [];
      if k < |f.Children(n)| {
        assert NodeAt(f, f.Children(n)[k], []) == Some(f.Children(n)[k]);
      }
    } else {
      assert child[1..] == at[1..] + [k];
      if at[0] < |f.Children(n)| {
        NodeAtChild(f, f.Children(n)[at[0]], at[1..], k);
      }
    }
  }

  /** The last step of a path leads from a parent to a child. */
  lemma LastStep(f: Forest, l: map<TiXmlNode, Link>, root: TiXmlNode, path: Path)
    requires f.WellFormed() && LinkedBy(f, l) && root in f.Nodes() && path != [] && NodeAt(f, root, path).Some?
    ensures var up, k, c := NodeAt(f, root, path[..|path| - 1]), path[|path| - 1], NodeAt(f, root, path).value;
            up.Some? && k < |f.Children(up.value)| && f.Children(up.value)[k] == c && c in l && l[c].parent == up.value
  {
    hide LinkedBy, Forest.WellFormed, NodeAt;
    var at, k := path[..|path| - 1], path[|path| - 1];
    assert path == at + [k];
    NodeAtChild(f, root, at, k);
    var up := NodeAt(f, root, at).value;
    assert f.Children(up)[k] in f.Children(up);
    ParentIs(f, l, up, f.Children(up)[k]);
  }

  /** Different paths from the root lead to different nodes. */
  lemma {:induction false} OnePath(f: Forest, l: map<TiXmlNode, Link>, root: TiXmlNode, a: Path, b: Path)
    requires f.WellFormed() && LinkedBy(f, l) && IsTree(l, f, root)
    requires NodeAt(f, root, a).Some? && NodeAt(f, root, a) == NodeAt(f, root, b)
    ensures a == b
    decreases |a| + |b|
  {
    hide LinkedBy, Forest.WellFormed, NodeAt;
    RootAtStart(f, root);
    if a != [] {
      LastStep(f, l, root, a);
    }
    if b != [] {
      LastStep(f, l, root, b);
    }
    if a != [] && b != [] {
      OnePath(f, l, root, a[..|a| - 1], b[..|b| - 1]);
      SoundKids(f, NodeAt(f, root, a[..|a| - 1]).value);
      assert a == a[..|a| - 1] + [a[|a| - 1]] && b == b[..|b| - 1] + [b[|b| - 1]];
    }
  }

  lemma RootAtStart(f: Forest, root: TiXmlNode)
    requires f.WellFormed() && root in f.Nodes()
    ensures NodeAt(f, root, []) == Some(root)
  {
  }

  lemma SoundKids(f: Forest, n: TiXmlNode)
    requires f.WellFormed() && n in f.Nodes()
    ensures forall i, j :: 0 <= i < j < |f.Children(n)| ==> f.Children(n)[i] != f.Children(n)[j]
  {
    assert f.Sound(n);
  }

  /** The parent pointer tells whether one path leads to a child of where the other leads. */
  lemma ParentTells(f: Forest, l: map<TiXmlNode, Link>, root: TiXmlNode, at: Path, child: Path)
    requires f.WellFormed() && LinkedBy(f, l) && IsTree(l, f, root)
    requires NodeAt(f, root, at).Some? && NodeAt(f, root, child).Some?
    ensures var p, c, k := NodeAt(f, root, at).value, NodeAt(f, root, child).value, PlaceBelow(ShapeOf(f, root), at, child);
            && c in l && (l[c].parent == p <==> k.Some?)
            && (k.Some? ==> k.value < |f.Children(p)| && f.Children(p)[k.value] == c)
  {
    hide LinkedBy, Forest.WellFormed, NodeAt, ShapeOf, ShapeAt;
    var p := NodeAt(f, root, at).value;
    ShapeAtNode(f, root, child);
    ShapeAtNode(f, root, at);
    RootAtStart(f, root);
    if child != [] {
      LastStep(f, l, root, child);
      var up := child[..|child| - 1];
      if NodeAt(f, root, up) == Some(p) {
        OnePath(f, l, root, up, at);
      }
    }
  }

  // ---- An edit below one node ----

  ghost predicate SameEntry(f: Forest, h: Forest, x: TiXmlNode) {
    && x in f.Nodes() && x in h.Nodes()
    && h.entries[x].children == f.entries[x].children && h.entries[x].data == f.entries[x].data
  }

  /** Nothing changes from `n` on downwards. */
  ghost predicate Untouched(f: Forest, h: Forest, n: TiXmlNode)
    requires f.WellFormed() && n in f.Nodes()
  {
    forall x {:trigger SameEntry(f, h, x)} :: x in Below(f, n) ==> SameEntry(f, h, x)
  }

  lemma {:induction false} SameShape(f: Forest, h: Forest, n: TiXmlNode)
    requires f.WellFormed() && h.WellFormed() && n in f.Nodes() && Untouched(f, h, n)
    ensures n in h.Nodes() && ShapeOf(h, n) == ShapeOf(f, n)
    decreases f.entries[n].rank
  {
    hide Below, ShapeOf, Forest.WellFormed;
    SelfBelow(f, n);
    assert SameEntry(f, h, n);
    ShapeUnfolds(f, n);
    ShapeUnfolds(h, n);
    var a, b, kids := ShapeOf(f, n), ShapeOf(h, n), f.Children(n);
    forall i | 0 <= i < |kids| ensures a.kids[i] == b.kids[i] {
      UntouchedKid(f, h, n, i);
      SameShape(f, h, kids[i]);
    }
    assert a.kids == b.kids;
  }

  lemma UntouchedKid(f: Forest, h: Forest, n: TiXmlNode, i: nat)
    requires f.WellFormed() && n in f.Nodes() && i < |f.Children(n)| && Untouched(f, h, n)
    ensures f.Children(n)[i] in f.Nodes() && Untouched(f, h, f.Children(n)[i])
  {
    hide Below, SameEntry, Forest.WellFormed;
    var c := f.Children(n)[i];
    KidIsBelow(f, n, c);
    forall x | x in Below(f, c) ensures SameEntry(f, h, x) {
      BelowIsTransitive(f, n, c, x);
    }
  }

  /** All that changes is `p` itself and what is below it. */
  ghost predicate ChangesBelow(f: Forest, h: Forest, p: TiXmlNode)
    requires f.WellFormed() && p in f.Nodes()
  {
    && p in h.Nodes() && h.entries[p].data == f.entries[p].data
    && forall x {:trigger SameEntry(f, h, x)} :: x in f.Nodes() && x != p && x !in Below(f, p) ==> SameEntry(f, h, x)
  }

  /** Beside the path to the changed node nothing changes. */
  lemma BesidePath(f: Forest, h: Forest, l: map<TiXmlNode, Link>, n: TiXmlNode, i: nat, j: nat, p: TiXmlNode)
    requires f.WellFormed() && LinkedBy(f, l) && n in f.Nodes() && i < |f.Children(n)| && j < |f.Children(n)| && i != j
    requires f.Children(n)[i] in f.Nodes() && p in f.Nodes() && p in Below(f, f.Children(n)[i]) && ChangesBelow(f, h, p)
    ensures f.Children(n)[j] in f.Nodes() && Untouched(f, h, f.Children(n)[j])
  {
    hide Below, SameEntry, LinkedBy, Forest.WellFormed;
    var a, b := f.Children(n)[i], f.Children(n)[j];
    ShapeUnfolds(f, n);
    forall x | x in Below(f, b) ensures SameEntry(f, h, x) {
      BelowHasParent(f, b, x);
      KidsApart(f, l, n, j, i, x);
      if x == p || x in Below(f, p) {
        BelowIsTransitive(f, a, p, if x == p then p else x);
      }
    }
  }

  lemma {:induction false} PathBelow(f: Forest, n: TiXmlNode, path: Path)
    requires f.WellFormed() && n in f.Nodes() && NodeAt(f, n, path).Some?
    ensures NodeAt(f, n, path).value in Below(f, n)
    decreases path
  {
    hide Below, Forest.WellFormed;
    SelfBelow(f, n);
    if path != [] {
      var c := f.Children(n)[path[0]];
      KidIsBelow(f, n, c);
      PathBelow(f, c, path[1..]);
      BelowIsTransitive(f, n, c, NodeAt(f, n, path).value);
    }
  }

  /** The nodes on the way to the changed one keep their children. */
  lemma AbovePath(f: Forest, h: Forest, n: TiXmlNode, path: Path, p: TiXmlNode)
    requires f.WellFormed() && n in f.Nodes() && path != [] && NodeAt(f, n, path) == Some(p) && ChangesBelow(f, h, p)
    ensures SameEntry(f, h, n)
  {
    hide Below, SameEntry, Forest.WellFormed;
    ShapeUnfolds(f, n);
    var c := f.Children(n)[path[0]];
    PathBelow(f, c, path[1..]);
    BelowHasParent(f, c, p);
    if n in Below(f, p) {
      BelowHasParent(f, p, n);
    }
  }

  /** A change of one node's children is that change at the end of the path to it. */
  lemma {:induction false} ChangeAlong(f: Forest, h: Forest, l: map<TiXmlNode, Link>, n: TiXmlNode, path: Path, p: TiXmlNode)
    requires f.WellFormed() && h.WellFormed() && LinkedBy(f, l) && n in f.Nodes()
    requires NodeAt(f, n, path) == Some(p) && ChangesBelow(f, h, p)
    ensures n in h.Nodes() && p in h.Nodes() && ShapeOf(h, n) == WithKids(ShapeOf(f, n), path, ShapeOf(h, p).kids)
    decreases path
  {
    hide Below, LinkedBy, ShapeOf, ChangesBelow, Forest.WellFormed;
    ChangeStays(f, h, p);
    ShapeUnfolds(f, n);
    if path == [] {
      ShapeUnfolds(h, n);
    } else {
      AbovePath(f, h, n, path, p);
      ShapeUnfolds(h, n);
      var kids, i := f.Children(n), path[0];
      PathBelow(f, kids[i], path[1..]);
      ChangeAlong(f, h, l, kids[i], path[1..], p);
      forall j | 0 <= j < |kids| && j != i ensures ShapeOf(h, n).kids[j] == ShapeOf(f, n).kids[j] {
        BesidePath(f, h, l, n, i, j, p);
        SameShape(f, h, kids[j]);
      }
      assert ShapeOf(h, n).kids == ShapeOf(f, n).kids[i := ShapeOf(h, kids[i])];
    }
  }

  lemma ChangeStays(f: Forest, h: Forest, p: TiXmlNode)
    requires f.WellFormed() && p in f.Nodes() && ChangesBelow(f, h, p)
    ensures p in h.Nodes() && h.entries[p].data == f.entries[p].data
  {
    hide Below;
  }

  // ---- The changes that the edits make ----

  /** The tree that is hung in comes with its shape, and the other children keep theirs. */
  lemma GraftChanges(f: Forest, g: Forest, p: TiXmlNode, k: nat, node: TiXmlNode)
    requires f.WellFormed() && g.WellFormed() && f.Nodes() !! g.Nodes()
    requires p in f.Nodes() && k <= |f.Children(p)| && node in g.Nodes()
    ensures var h := Graft(f, g, p, InsertAt(f.Children(p), k, node));
            var v := ShapeOf(f, p).kids;
            && h.WellFormed() && ChangesBelow(f, h, p) && |v| == |f.Children(p)|
            && ShapeOf(h, p).kids == v[..k] + [ShapeOf(g, node)] + v[k..]
  {
    var h := Graft(f, g, p, InsertAt(f.Children(p), k, node));
    hide Graft, InsertAt, Below, ShapeOf, ChangesBelow, Forest.WellFormed;
    GraftChangesBelow(f, g, p, k, node);
    GraftedShape(f, g, p, k, node, 0);
    var v, w := ShapeOf(f, p).kids, ShapeOf(h, p).kids;
    forall i | 0 <= i <= |v| ensures Takes(v, w, k, ShapeOf(g, node), i) {
      GraftedShape(f, g, p, k, node, i);
    }
    hide Takes;
    Spliced(v, w, k, ShapeOf(g, node));
  }

  /** A graft changes one node only. */
  lemma GraftEntries(f: Forest, g: Forest, p: TiXmlNode, k: nat, node: TiXmlNode)
    requires f.WellFormed() && g.WellFormed() && f.Nodes() !! g.Nodes()
    requires p in f.Nodes() && k <= |f.Children(p)| && node in g.Nodes()
    ensures var h := Graft(f, g, p, InsertAt(f.Children(p), k, node));
            && h.WellFormed() && p in h.Nodes() && h.Children(p) == InsertAt(f.Children(p), k, node)
            && h.entries[p].data == f.entries[p].data
            && (forall x {:trigger SameEntry(f, h, x)} :: x in f.Nodes() && x != p ==> SameEntry(f, h, x))
            && (forall x {:trigger SameEntry(g, h, x)} :: x in g.Nodes() ==> SameEntry(g, h, x))
  {
    GraftSound(f, g, p, k, node);
    GraftedKids(f, g, p, k, node);
    hide InsertAt, Forest.WellFormed;
  }

  lemma GraftChangesBelow(f: Forest, g: Forest, p: TiXmlNode, k: nat, node: TiXmlNode)
    requires f.WellFormed() && g.WellFormed() && f.Nodes() !! g.Nodes()
    requires p in f.Nodes() && k <= |f.Children(p)| && node in g.Nodes()
    ensures ChangesBelow(f, Graft(f, g, p, InsertAt(f.Children(p), k, node)), p)
  {
    hide Graft, InsertAt, Below, SameEntry, Forest.WellFormed;
    GraftEntries(f, g, p, k, node);
  }

  /** The shape of a child after a graft. */
  lemma GraftedShape(f: Forest, g: Forest, p: TiXmlNode, k: nat, node: TiXmlNode, i: nat)
    requires f.WellFormed() && g.WellFormed() && f.Nodes() !! g.Nodes()
    requires p in f.Nodes() && k <= |f.Children(p)| && node in g.Nodes() && i <= |f.Children(p)|
    ensures var h := Graft(f, g, p, InsertAt(f.Children(p), k, node));
            var v := ShapeOf(f, p).kids;
            h.WellFormed() && |v| == |f.Children(p)| && Takes(v, ShapeOf(h, p).kids, k, ShapeOf(g, node), i)
  {
    var h := Graft(f, g, p, InsertAt(f.Children(p), k, node));
    hide Graft, InsertAt, Below, ShapeOf, SameEntry, Untouched, Forest.WellFormed;
    GraftEntries(f, g, p, k, node);
    InsertAtOne(f.Children(p), k, node, i);
    ShapeUnfolds(f, p);
    KidShape(h, p, i);
    if i == k {
      AllUntouched(g, h, node);
      SameShape(g, h, node);
    } else {
      var j := if i < k then i else i - 1;
      KidUntouched(f, h, p, j);
      SameShape(f, h, f.Children(p)[j]);
      KidShape(f, p, j);
    }
  }

  lemma AllUntouched(g: Forest, h: Forest, n: TiXmlNode)
    requires g.WellFormed() && n in g.Nodes() && forall x {:trigger SameEntry(g, h, x)} :: x in g.Nodes() ==> SameEntry(g, h, x)
    ensures Untouched(g, h, n)
  {
    hide Below, SameEntry, Forest.WellFormed;
    forall x | x in Below(g, n) ensures SameEntry(g, h, x) {
      BelowHasParent(g, n, x);
    }
  }

  /** A node is not below its children. */
  lemma KidUntouched(f: Forest, h: Forest, p: TiXmlNode, j: nat)
    requires f.WellFormed() && p in f.Nodes() && j < |f.Children(p)|
    requires forall x {:trigger SameEntry(f, h, x)} :: x in f.Nodes() && x != p ==> SameEntry(f, h, x)
    ensures f.Children(p)[j] in f.Nodes() && Untouched(f, h, f.Children(p)[j])
  {
    hide Below, SameEntry, Forest.WellFormed;
    ShapeUnfolds(f, p);
    forall x | x in Below(f, f.Children(p)[j]) ensures SameEntry(f, h, x) {
      BelowHasParent(f, f.Children(p)[j], x);
    }
  }

  lemma PruneChanges(f: Forest, l: map<TiXmlNode, Link>, p: TiXmlNode, k: nat)
    requires f.WellFormed() && LinkedBy(f, l) && p in f.Nodes() && k < |f.Children(p)|
    ensures var h := Prune(f, p, k);
            var v := ShapeOf(f, p).kids;
            && h.WellFormed() && ChangesBelow(f, h, p) && |v| == |f.Children(p)|
            && ShapeOf(h, p).kids == v[..k] + v[k + 1..]
  {
    var h := Prune(f, p, k);
    hide Below, ShapeOf, ChangesBelow, Prune, LinkedBy, Forest.WellFormed;
    PruneSound(f, l, p, k);
    PruneChangesBelow(f, l, p, k);
    var v, w := ShapeOf(f, p).kids, ShapeOf(h, p).kids;
    PrunedCount(f, l, p, k);
    forall i | 0 <= i < |w| ensures w[i] == (v[..k] + v[k + 1..])[i] {
      PrunedShape(f, l, p, k, i);
    }
  }

  lemma PrunedCount(f: Forest, l: map<TiXmlNode, Link>, p: TiXmlNode, k: nat)
    requires f.WellFormed() && LinkedBy(f, l) && p in f.Nodes() && k < |f.Children(p)|
    ensures var h := Prune(f, p, k);
            h.WellFormed() && p in h.Nodes() && |ShapeOf(f, p).kids| == |f.Children(p)| && |h.Children(p)| == |f.Children(p)| - 1
            && |ShapeOf(h, p).kids| == |f.Children(p)| - 1 && h.Children(p) == RemoveAt(f.Children(p), k)
  {
    hide Below, ShapeOf, Prune, LinkedBy, RemoveAt, Forest.WellFormed;
    PruneSound(f, l, p, k);
    PruneChildren(f, p, k, p);
    RemoveAtOne(f.Children(p), k, 0);
    ShapeUnfolds(f, p);
    ShapeUnfolds(Prune(f, p, k), p);
  }

  /** A child that a removal leaves keeps its shape. */
  lemma PrunedShape(f: Forest, l: map<TiXmlNode, Link>, p: TiXmlNode, k: nat, i: nat)
    requires f.WellFormed() && LinkedBy(f, l) && p in f.Nodes() && k < |f.Children(p)| && i + 1 < |f.Children(p)|
    ensures var h, j := Prune(f, p, k), if i < k then i else i + 1;
            h.WellFormed() && p in h.Nodes() && i < |ShapeOf(h, p).kids| && j < |ShapeOf(f, p).kids|
            && ShapeOf(h, p).kids[i] == ShapeOf(f, p).kids[j]
  {
    hide Below, ShapeOf, Prune, LinkedBy, RemoveAt, Untouched, Forest.WellFormed;
    PrunedCount(f, l, p, k);
    var h, j := Prune(f, p, k), if i < k then i else i + 1;
    RemoveAtOne(f.Children(p), k, i);
    PrunedKid(f, l, p, k, j);
    SameShape(f, h, f.Children(p)[j]);
    KidShape(f, p, j);
    KidShape(h, p, i);
  }

  /** The shape of one child. */
  lemma KidShape(f: Forest, n: TiXmlNode, i: nat)
    requires f.WellFormed() && n in f.Nodes() && i < |f.Children(n)|
    ensures |ShapeOf(f, n).kids| == |f.Children(n)| && f.Children(n)[i] in f.Nodes()
    ensures ShapeOf(f, n).kids[i] == ShapeOf(f, f.Children(n)[i])
  {
    hide ShapeOf, Forest.WellFormed;
    ShapeUnfolds(f, n);
  }

  lemma PrunedEntry(f: Forest, p: TiXmlNode, k: nat, x: TiXmlNode)
    requires f.WellFormed() && p in f.Nodes() && k < |f.Children(p)| && x in f.Nodes()
    requires f.Children(p)[k] in f.Nodes() ==> x !in Below(f, f.Children(p)[k])
    ensures x in Prune(f, p, k).Nodes() && Prune(f, p, k).entries[x].data == f.entries[x].data
    ensures x != p ==> SameEntry(f, Prune(f, p, k), x)
  {
    hide Below;
    assert f.Sound(p);
  }

  lemma PruneChangesBelow(f: Forest, l: map<TiXmlNode, Link>, p: TiXmlNode, k: nat)
    requires f.WellFormed() && LinkedBy(f, l) && p in f.Nodes() && k < |f.Children(p)|
    ensures ChangesBelow(f, Prune(f, p, k), p)
  {
    hide Below, SameEntry, Prune, LinkedBy, Forest.WellFormed;
    ShapeUnfolds(f, p);
    var r, h := f.Children(p)[k], Prune(f, p, k);
    KidIsBelow(f, p, r);
    if p in Below(f, r) {
      BelowHasParent(f, r, p);
    }
    PrunedEntry(f, p, k, p);
    forall x | x in f.Nodes() && x != p && x !in Below(f, p) ensures SameEntry(f, h, x) {
      if x in Below(f, r) {
        BelowIsTransitive(f, p, r, x);
      }
      PrunedEntry(f, p, k, x);
    }
  }

  lemma PrunedKid(f: Forest, l: map<TiXmlNode, Link>, p: TiXmlNode, k: nat, j: nat)
    requires f.WellFormed() && LinkedBy(f, l) && p in f.Nodes() && k < |f.Children(p)| && j < |f.Children(p)| && j != k
    ensures f.Children(p)[j] in f.Nodes() && Untouched(f, Prune(f, p, k), f.Children(p)[j])
  {
    hide Below, SameEntry, Prune, LinkedBy, Forest.WellFormed;
    ShapeUnfolds(f, p);
    var c := f.Children(p)[j];
    forall x | x in Below(f, c) ensures SameEntry(f, Prune(f, p, k), x) {
      BelowHasParent(f, c, x);
      KidsApart(f, l, p, j, k, x);
      PrunedEntry(f, p, k, x);
    }
  }

  // ---- The change that a replacement makes ----

  lemma {:induction false} BelowInJoined(f: Forest, h: Forest, limit: nat, n: TiXmlNode, x: TiXmlNode)
    requires SameBelow(f, h, limit) && n in f.Nodes() && f.entries[n].rank < limit && n in h.Nodes() && x in Below(h, n)
    ensures x in f.Nodes() && x in Below(f, n)
    decreases h.top - if x in h.Nodes() then h.entries[x].rank else 0
  {
    hide Below, Forest.WellFormed;
    SelfBelow(f, n);
    BelowHasParent(h, n, x);
    if x != n {
      var q :| q in Below(h, n) && q in h.Nodes() && x in h.Children(q);
      ChildRanks(h, q, x);
      BelowInJoined(f, h, limit, n, q);
      BelowHasParent(f, n, q);
      assert f.entries[q].children == h.entries[q].children;
      BelowHasKids(f, n, q, x);
    }
  }

  lemma ChildRanks(f: Forest, n: TiXmlNode, c: TiXmlNode)
    requires f.WellFormed() && n in f.Nodes() && c in f.Children(n)
    ensures c in f.Nodes() && f.entries[c].rank < f.entries[n].rank < f.top
  {
    assert f.Sound(n);
  }

  /** What a replacement leaves alone, and what it brings. */
  lemma SwapStays(f: Forest, g: Forest, p: TiXmlNode, k: nat, node: TiXmlNode, x: TiXmlNode)
    requires f.WellFormed() && g.WellFormed() && f.Nodes() !! g.Nodes() && node in g.Nodes()
    requires p in f.Nodes() && k < |f.Children(p)| && f.Children(p)[k] in f.Nodes()
    ensures Swappable(f, g, p, k, node)
    ensures x in g.Nodes() ==> SameEntry(g, Swap(f, g, p, k, node), x)
    ensures x in f.Nodes() && x != p && x !in Below(f, f.Children(p)[k]) ==> SameEntry(f, Swap(f, g, p, k, node), x)
    ensures p in Swap(f, g, p, k, node).Nodes() && Swap(f, g, p, k, node).entries[p].data == f.entries[p].data
  {
    var joined := Graft(f, g, p, InsertAt(f.Children(p), k, node));
    GraftChildren(f, g, p, k, node);
    GraftSame(f, g, p, k, node);
    InsertAtFacts(f.Children(p), k, node);
    assert x in f.Nodes() && x != p ==> SameEntry(f, joined, x);
    assert x in g.Nodes() ==> SameEntry(g, joined, x);
    assert joined.entries[p].data == f.entries[p].data;
    hide Below, Graft, InsertAt, Forest.WellFormed, SameBelow, SameEntry;
    SwapIsPrune(f, g, p, k, node);
    SwapGone(f, joined, p, k, x);
    SwapGone(f, joined, p, k, p);
    if x in joined.Nodes() && (x !in f.Nodes() || x !in Below(f, f.Children(p)[k])) {
      PrunedEntry(joined, p, k + 1, x);
    }
    PrunedEntry(joined, p, k + 1, p);
    SameTwice(f, joined, Swap(f, g, p, k, node), x);
    SameTwice(g, joined, Swap(f, g, p, k, node), x);
  }

  lemma SameTwice(f: Forest, g: Forest, h: Forest, x: TiXmlNode)
    ensures SameEntry(f, g, x) && SameEntry(g, h, x) ==> SameEntry(f, h, x)
  {
  }

  /** What goes in a replacement is below the old child already. */
  lemma SwapGone(f: Forest, joined: Forest, p: TiXmlNode, k: nat, x: TiXmlNode)
    requires f.WellFormed() && p in f.Nodes() && k < |f.Children(p)| && SameBelow(f, joined, f.entries[p].rank)
    requires f.Children(p)[k] in f.Nodes()
    requires p in joined.Nodes() && k + 1 < |joined.Children(p)| && joined.Children(p)[k + 1] == f.Children(p)[k]
    ensures joined.Children(p)[k + 1] in joined.Nodes()
    ensures x in Below(joined, joined.Children(p)[k + 1]) ==> x in f.Nodes() && x != p && x in Below(f, f.Children(p)[k])
  {
    hide Below, Forest.WellFormed, SameBelow;
    var c := f.Children(p)[k];
    ShapeUnfolds(f, p);
    SameInside(f, joined, f.entries[p].rank, c);
    if x in Below(joined, c) {
      BelowInJoined(f, joined, f.entries[p].rank, c, x);
      BelowHasParent(f, c, x);
    }
  }

  lemma SameInside(f: Forest, h: Forest, limit: nat, n: TiXmlNode)
    requires SameBelow(f, h, limit) && n in f.Nodes() && f.entries[n].rank < limit
    ensures f.WellFormed() && h.WellFormed() && n in h.Nodes()
  {
    assert h.entries[n].data == f.entries[n].data;
  }

  lemma SwapChanges(f: Forest, l: map<TiXmlNode, Link>, g: Forest, h: Forest, p: TiXmlNode, k: nat, node: TiXmlNode)
    requires f.Nodes() !! g.Nodes() && LinkedBy(f, l)
    requires Swapped(f, g, h, p, k, node) && Swappable(f, g, p, k, node) && h == Swap(f, g, p, k, node)
    ensures ChangesBelow(f, h, p)
    ensures var v := ShapeOf(f, p).kids; |v| == |f.Children(p)| && ShapeOf(h, p).kids == v[k := ShapeOf(g, node)]
  {
    hide Below, Swap, Swappable, ValuesOf, ValueOf, ShapeOf, SameEntry, LinkedBy, Forest.WellFormed;
    ShapeUnfolds(f, p);
    ShapeUnfolds(h, p);
    var c := f.Children(p)[k];
    SwapStays(f, g, p, k, node, p);
    forall x | x in f.Nodes() && x != p && x !in Below(f, p) ensures SameEntry(f, h, x) {
      KidIsBelow(f, p, c);
      if x in Below(f, c) {
        BelowIsTransitive(f, p, c, x);
      }
      SwapStays(f, g, p, k, node, x);
    }
    var v, w := ShapeOf(f, p).kids, ShapeOf(h, p).kids;
    forall i | 0 <= i < |w| ensures w[i] == v[k := ShapeOf(g, node)][i] {
      SwappedKid(f, l, g, h, p, k, node, i);
    }
  }

  lemma SwappedKid(f: Forest, l: map<TiXmlNode, Link>, g: Forest, h: Forest, p: TiXmlNode, k: nat, node: TiXmlNode, i: nat)
    requires f.Nodes() !! g.Nodes() && LinkedBy(f, l)
    requires Swapped(f, g, h, p, k, node) && Swappable(f, g, p, k, node) && h == Swap(f, g, p, k, node)
    requires i < |f.Children(p)|
    ensures i < |ShapeOf(h, p).kids| && i < |ShapeOf(f, p).kids|
    ensures ShapeOf(h, p).kids[i] == if i == k then ShapeOf(g, node) else ShapeOf(f, p).kids[i]
  {
    hide Below, Swap, Swappable, ValuesOf, ValueOf, ShapeOf, SameEntry, LinkedBy, Forest.WellFormed;
    ShapeUnfolds(f, p);
    ShapeUnfolds(h, p);
    if i == k {
      forall x | x in g.Nodes() ensures SameEntry(g, h, x) {
        SwapStays(f, g, p, k, node, x);
      }
      AllUntouched(g, h, node);
      SameShape(g, h, node);
    } else {
      var c := f.Children(p)[i];
      forall x | x in Below(f, c) ensures SameEntry(f, h, x) {
        BelowHasParent(f, c, x);
        KidsApart(f, l, p, i, k, x);
        SwapStays(f, g, p, k, node, x);
      }
      SameShape(f, h, c);
    }
  }

  // ---- Calls by path ----

  /** The `i`-th child, by `FirstChild` and `NextSibling`. */
  method ChildNo(n: TiXmlNode, i: nat, ghost f: Forest) returns (c: TiXmlNode?)
    requires Intact(f) && n in f.Nodes()
    ensures c == if i < |f.Children(n)| then f.Children(n)[i] else null
  {
    hide Intact;
    ChainAt(f, n, 0);
    c := n.firstChild;
    var j := 0;
    while c != null && j < i
      invariant j <= i && j <= |f.Children(n)| && c == if j < |f.Children(n)| then f.Children(n)[j] else null
    {
      ChainAt(f, n, j);
      c := c.next;
      j := j + 1;
    }
  }

  /** The node at the end of a path. */
  method Find(root: TiXmlNode, path: Path, ghost f: Forest) returns (n: TiXmlNode?)
    requires Intact(f) && root in f.Nodes()
    ensures NodeAt(f, root, path) == if n == null then None else Some(n)
  {
    hide Linked, Shown, Forest.WellFormed, Forest.RingsApart;
    n := root;
    var i := 0;
    assert path[0..] == path;
    while i < |path|
      invariant 0 <= i <= |path| && n in f.Nodes() && NodeAt(f, root, path) == NodeAt(f, n, path[i..])
    {
      ShapeUnfolds(f, n);
      assert path[i..][0] == path[i] && path[i..][1..] == path[i + 1..];
      var c := ChildNo(n, path[i], f);
      if c == null {
        return null;
      }
      n := c;
      i := i + 1;
    }
    assert path[i..] == [];
  }

  /** `LinkEndChild` on the node at the end of a path. */
  method LinkAt(root: TiXmlNode, at: Path, node: TiXmlNode, ghost f: Forest, ghost g: Forest) returns (ghost h: Forest)
    requires StandsAlone(f, root) && StandsAlone(g, node) && f.Nodes() !! g.Nodes() && f.attributes !! g.attributes
    modifies f.Nodes(), node
    ensures StandsAlone(h, root) && h.Nodes() <= f.Nodes() + g.Nodes() && h.attributes <= f.attributes + g.attributes
    ensures ShapeOf(h, root) == WithLast(ShapeOf(f, root), at, ShapeOf(g, node))
  {
    hide Linked, Shown, IsTree, Attachable, Kept, Links, ShapeOf, ShapeAt, NodeAt, WithKids, Graft, Below, LinkedBy,
      Forest.WellFormed, Forest.RingsApart;
    AloneLinks(f, root);
    ghost var l := Links(f.Nodes());
    var p := Find(root, at, f);
    ShapeAtNode(f, root, at);
    if p == null {
      return f;
    }
    ChildrenInside(f, p);
    AloneApart(f, root, g);
    FreshAttachable(f, g, node);
    LabelOf(g, node);
    LinkedShape(f, g, l, root, at, p, node);
    GraftHolds(f, g, p, f.Children(p) + [node]);
    var linked;
    linked, h := p.LinkEndChild(node, null, f, g);
    StandsStill(l, f, h, root);
  }

  /** The label tells the kind. */
  lemma LabelOf(f: Forest, n: TiXmlNode)
    requires Intact(f) && n in f.Nodes()
    ensures ShapeOf(f, n).data.DocumentLabel? <==> n.kind == DocumentNode
  {
    hide Linked, ShapeOf, Forest.WellFormed, Forest.RingsApart;
    ShapeUnfolds(f, n);
    EntryShown(f, n);
  }

  lemma LinkedShape(f: Forest, g: Forest, l: map<TiXmlNode, Link>, root: TiXmlNode, at: Path, p: TiXmlNode, node: TiXmlNode)
    requires f.WellFormed() && g.WellFormed() && f.Nodes() !! g.Nodes() && LinkedBy(f, l)
    requires root in f.Nodes() && NodeAt(f, root, at) == Some(p) && node in g.Nodes()
    ensures var h := Graft(f, g, p, f.Children(p) + [node]);
            && h.WellFormed() && root in h.Nodes() && ShapeAt(ShapeOf(f, root), at).Some?
            && ShapeOf(h, root) == WithKids(ShapeOf(f, root), at, KidsAt(ShapeOf(f, root), at) + [ShapeOf(g, node)])
  {
    hide Graft, Below, ShapeOf, NodeAt, ShapeAt, WithKids, LinkedBy, InsertAt, ChangesBelow, Forest.WellFormed;
    var h := Graft(f, g, p, f.Children(p) + [node]);
    AppendIsInsert(f.Children(p), node);
    ShapeAtNode(f, root, at);
    GraftChanges(f, g, p, |f.Children(p)|, node);
    ChangeAlong(f, h, l, root, at, p);
    var v := ShapeOf(f, p).kids;
    assert v[..|v|] == v && v[|v|..] == [] && v + [ShapeOf(g, node)] + [] == v + [ShapeOf(g, node)];
  }

  lemma PruneHolds(f: Forest, p: TiXmlNode, k: nat)
    requires f.WellFormed() && p in f.Nodes() && k < |f.Children(p)|
    ensures Prune(f, p, k).attributes == f.attributes && Prune(f, p, k).Nodes() <= f.Nodes()
  {
    hide Below, Forest.WellFormed;
  }

  /** A node outside to be cloned lies in this forest. */
  ghost predicate Offers(source: Source, g: Forest)
    reads g.entries.Keys, g.attributes
  {
    source.Outside? ==> Intact(g) && source.node in g.Nodes()
  }

  ghost function GivenFor(source: Source, g: Forest): Shape {
    if source.Outside? && g.WellFormed() && source.node in g.Nodes() then ShapeOf(g, source.node)
    else Shape(LeafLabel(Text("", false)), [])
  }

  /** The original of the clone, and the forest it lies in. */
  method Original(root: TiXmlNode, source: Source, ghost f: Forest, ghost g: Forest)
    returns (n: TiXmlNode?, ghost src: Forest)
    requires Intact(f) && root in f.Nodes() && Offers(source, g)
    ensures Taken(ShapeOf(f, root), source, GivenFor(source, g)).None? <==> n == null
    ensures n != null ==> Intact(src) && n in src.Nodes() && src.WellFormed()
    ensures n != null ==> Taken(ShapeOf(f, root), source, GivenFor(source, g)) == Some(ShapeOf(src, n))
  {
    hide Linked, Shown, ShapeOf, ShapeAt, NodeAt, Forest.WellFormed, Forest.RingsApart;
    match source {
      case Outside(node) =>
        n, src := node, g;
      case Inside(path) =>
        src := f;
        n := Find(root, path, f);
        ShapeAtNode(f, root, path);
    }
  }

  /** The shape of what was cloned. */
  lemma ClonedShape(t: Forest, r: TiXmlNode, src: Forest, n: TiXmlNode)
    requires IsCloneOf(t, r, src, n)
    ensures ShapeOf(t, r) == Cloned(ShapeOf(src, n))
  {
    hide ShapeOf, ValueOf, CopyTree, ShapeOfTree, TreeOf, Forest.WellFormed, Forest.LeavesAreBare;
    BareShape(t, r);
    ShapeValue(src, n);
  }

  /** The shape after an insertion at the end of a path. */
  lemma InsertedShape(f: Forest, t: Forest, l: map<TiXmlNode, Link>, root: TiXmlNode, at: Path, p: TiXmlNode, k: nat, r: TiXmlNode,
                      src: Forest, n: TiXmlNode)
    requires f.WellFormed() && LinkedBy(f, l) && f.Nodes() !! t.Nodes() && IsCloneOf(t, r, src, n)
    requires root in f.Nodes() && NodeAt(f, root, at) == Some(p) && k <= |f.Children(p)|
    ensures ShapeAt(ShapeOf(f, root), at).Some?
    ensures var h, kids := Graft(f, t, p, InsertAt(f.Children(p), k, r)), KidsAt(ShapeOf(f, root), at);
            && h.WellFormed() && root in h.Nodes() && |kids| == |f.Children(p)|
            && ShapeOf(h, root) == WithKids(ShapeOf(f, root), at, kids[..k] + [Cloned(ShapeOf(src, n))] + kids[k..])
  {
    hide Graft, Below, ShapeOf, NodeAt, ShapeAt, WithKids, LinkedBy, InsertAt, ChangesBelow, ValueOf, CopyTree, Cloned, Forest.WellFormed;
    ShapeAtNode(f, root, at);
    ClonedShape(t, r, src, n);
    GraftChanges(f, t, p, k, r);
    ChangeAlong(f, Graft(f, t, p, InsertAt(f.Children(p), k, r)), l, root, at, p);
  }

  /** `InsertBeforeChild` or `InsertAfterChild`. */
  method InsertNear(p: TiXmlNode, child: TiXmlNode?, behind: nat, addThis: TiXmlNode, ghost f: Forest, ghost src: Forest)
    returns (r: TiXmlNode?, ghost t: Forest, ghost h: Forest, ghost i: nat)
    requires Intact(f) && p in f.Nodes() && Intact(src) && addThis in src.Nodes() && behind <= 1
    requires child != null && child.parent == p ==> child in f.Nodes()
    modifies f.Nodes()
    ensures Intact(h) && Kept(old(Links(f.Nodes())), f, Links(h.Nodes()), h)
    ensures r == null <==> child == null || old(child.parent) != p || addThis.kind == DocumentNode
    ensures r == null ==> h == f
    ensures r != null ==>
              && behind <= i <= |f.Children(p)| && i - behind < |f.Children(p)| && f.Children(p)[i - behind] == child
              && IsCloneOf(t, r, src, addThis) && fresh(t.Nodes()) && fresh(t.attributes)
              && h == Graft(f, t, p, InsertAt(f.Children(p), i, r))
  {
    hide Intact, Kept, IsCloneOf, Graft, InsertAt, IsTree;
    if behind == 0 {
      r, t, h, i := p.InsertBeforeChild(child, addThis, null, f, src);
    } else {
      r, t, h, i := p.InsertAfterChild(child, addThis, null, f, src);
      i := i + 1;
    }
  }

  /** `InsertBeforeChild` or `InsertAfterChild` on the node at the end of a path. */
  method InsertAtPath(root: TiXmlNode, at: Path, sibling: Path, behind: nat, source: Source, ghost f: Forest, ghost g: Forest)
    returns (ghost h: Forest)
    requires StandsAlone(f, root) && Offers(source, g) && behind <= 1
    modifies f.Nodes()
    ensures StandsAlone(h, root) && fresh(h.Nodes() - f.Nodes()) && fresh(h.attributes - f.attributes)
    ensures ShapeOf(h, root) == WithClone(ShapeOf(f, root), at, sibling, behind,
                                          Taken(ShapeOf(f, root), source, GivenFor(source, g)))
  {
    hide Linked, Shown, IsTree, Kept, Links, ShapeOf, NodeAt, Graft, InsertAt, Below, LinkedBy, IsCloneOf, WithClone,
      PlaceBelow, Taken, GivenFor, Forest.WellFormed, Forest.RingsApart;
    AloneLinks(f, root);
    ghost var l, s := Links(f.Nodes()), ShapeOf(f, root);
    var p := Find(root, at, f);
    var child := Find(root, sibling, f);
    var addThis;
    ghost var src, t, i;
    addThis, src := Original(root, source, f, g);
    if p == null || addThis == null {
      NoPlace(f, root, at, sibling);
      NoClone(s, at, sibling, behind, Taken(s, source, GivenFor(source, g)));
      return f;
    }
    FindPlace(f, root, at, sibling, p, child);
    LabelOf(src, addThis);
    var r;
    r, t, h, i := InsertNear(p, child, behind, addThis, f, src);
    StandsStill(l, f, h, root);
    if r == null {
      NoClone(s, at, sibling, behind, Some(ShapeOf(src, addThis)));
    } else {
      CloneInserted(f, t, l, root, at, sibling, behind, p, i, r, src, addThis);
      GraftHolds(f, t, p, InsertAt(f.Children(p), i, r));
    }
  }

  lemma NoClone(s: Shape, at: Path, child: Path, behind: nat, taken: Option<Shape>)
    requires behind <= 1 && (PlaceBelow(s, at, child).None? || taken.None? || taken.value.data.DocumentLabel?)
    ensures WithClone(s, at, child, behind, taken) == s
  {
    hide PlaceBelow, Cloned;
  }

  lemma CloneInserted(f: Forest, t: Forest, l: map<TiXmlNode, Link>, root: TiXmlNode, at: Path, child: Path, behind: nat,
                      p: TiXmlNode, i: nat, r: TiXmlNode, src: Forest, n: TiXmlNode)
    requires f.WellFormed() && LinkedBy(f, l) && f.Nodes() !! t.Nodes() && IsCloneOf(t, r, src, n)
    requires root in f.Nodes() && NodeAt(f, root, at) == Some(p) && behind <= 1 && behind <= i <= |f.Children(p)|
    requires !ShapeOf(src, n).data.DocumentLabel? && i - behind < |f.Children(p)|
    requires var k := PlaceBelow(ShapeOf(f, root), at, child);
             k.Some? && k.value < |f.Children(p)| && f.Children(p)[k.value] == f.Children(p)[i - behind]
    ensures var h := Graft(f, t, p, InsertAt(f.Children(p), i, r));
            && h.WellFormed() && root in h.Nodes()
            && ShapeOf(h, root) == WithClone(ShapeOf(f, root), at, child, behind, Some(ShapeOf(src, n)))
  {
    hide Graft, ShapeOf, NodeAt, ShapeAt, WithKids, LinkedBy, InsertAt, IsCloneOf, Cloned, PlaceBelow, Forest.WellFormed;
    SoundKids(f, p);
    CloneMeans(t, r, src, n);
    InsertedShape(f, t, l, root, at, p, i, r, src, n);
  }

  lemma CloneMeans(t: Forest, r: TiXmlNode, src: Forest, n: TiXmlNode)
    requires IsCloneOf(t, r, src, n)
    ensures t.WellFormed() && src.WellFormed() && r in t.Nodes() && n in src.Nodes()
  {
  }

  lemma NoPlace(f: Forest, root: TiXmlNode, at: Path, child: Path)
    requires f.WellFormed() && root in f.Nodes()
    ensures NodeAt(f, root, at).None? ==> PlaceBelow(ShapeOf(f, root), at, child).None?
  {
    ShapeAtNode(f, root, at);
  }

  /** The parent pointer, before the call, decides. */
  lemma FindPlace(f: Forest, root: TiXmlNode, at: Path, child: Path, p: TiXmlNode, c: TiXmlNode?)
    requires StandsAlone(f, root) && NodeAt(f, root, at) == Some(p)
    requires NodeAt(f, root, child) == if c == null then None else Some(c)
    ensures var k := PlaceBelow(ShapeOf(f, root), at, child);
            && (k.Some? <==> c != null && c.parent == p)
            && (k.Some? ==> c in f.Nodes() && k.value < |f.Children(p)| && f.Children(p)[k.value] == c)
    ensures c != null ==> c in f.Nodes()
  {
    hide Linked, Shown, IsTree, ShapeOf, ShapeAt, NodeAt, LinkedBy, Links, Forest.WellFormed, Forest.RingsApart;
    AloneLinks(f, root);
    if c == null {
      ShapeAtNode(f, root, child);
    } else {
      ParentTells(f, Links(f.Nodes()), root, at, child);
      LinksAt(f.Nodes(), c);
    }
  }

  /** `RemoveChild` on the node at the end of a path. */
  method RemoveAtPath(root: TiXmlNode, at: Path, child: Path, ghost f: Forest) returns (ghost h: Forest)
    requires StandsAlone(f, root)
    modifies f.Nodes()
    ensures StandsAlone(h, root) && h.Nodes() <= f.Nodes() && h.attributes <= f.attributes
    ensures ShapeOf(h, root) == WithoutChild(ShapeOf(f, root), at, child)
  {
    hide Linked, Shown, IsTree, Kept, Links, ShapeOf, NodeAt, Prune, Below, LinkedBy, WithoutChild, PlaceBelow,
      Forest.WellFormed, Forest.RingsApart;
    AloneLinks(f, root);
    ghost var l := Links(f.Nodes());
    var p := Find(root, at, f);
    var c := Find(root, child, f);
    if p == null || c == null {
      NoPlace(f, root, at, child);
      NoSuchChild(f, root, at, child, c);
      NoneRemoved(ShapeOf(f, root), at, child);
      return f;
    }
    FindPlace(f, root, at, child, p, c);
    ChildrenInside(f, p);
    var ok;
    ghost var k;
    ok, h, k := p.RemoveChild(c, f);
    StandsStill(l, f, h, root);
    if ok {
      ChildRemoved(f, l, root, at, child, p, k);
      PruneHolds(f, p, k);
    } else {
      NoneRemoved(ShapeOf(f, root), at, child);
    }
  }

  lemma NoSuchChild(f: Forest, root: TiXmlNode, at: Path, child: Path, c: TiXmlNode?)
    requires f.WellFormed() && root in f.Nodes() && NodeAt(f, root, child) == if c == null then None else Some(c)
    ensures c == null ==> PlaceBelow(ShapeOf(f, root), at, child).None?
  {
    ShapeAtNode(f, root, child);
  }

  lemma NoneRemoved(s: Shape, at: Path, child: Path)
    requires PlaceBelow(s, at, child).None?
    ensures WithoutChild(s, at, child) == s && forall taken :: WithExchange(s, at, child, taken) == s
  {
    hide PlaceBelow;
  }

  lemma ChildRemoved(f: Forest, l: map<TiXmlNode, Link>, root: TiXmlNode, at: Path, child: Path, p: TiXmlNode, k: nat)
    requires f.WellFormed() && LinkedBy(f, l) && root in f.Nodes() && NodeAt(f, root, at) == Some(p) && k < |f.Children(p)|
    requires var j := PlaceBelow(ShapeOf(f, root), at, child);
             j.Some? && j.value < |f.Children(p)| && f.Children(p)[j.value] == f.Children(p)[k]
    ensures var h := Prune(f, p, k);
            h.WellFormed() && root in h.Nodes() && ShapeOf(h, root) == WithoutChild(ShapeOf(f, root), at, child)
  {
    hide Prune, ShapeOf, NodeAt, ShapeAt, WithKids, LinkedBy, PlaceBelow, Below, ChangesBelow, Forest.WellFormed;
    SoundKids(f, p);
    ShapeAtNode(f, root, at);
    PruneChanges(f, l, p, k);
    ChangeAlong(f, Prune(f, p, k), l, root, at, p);
  }

  /** `ReplaceChild` on the node at the end of a path. */
  method ReplaceAtPath(root: TiXmlNode, at: Path, child: Path, source: Source, ghost f: Forest, ghost g: Forest)
    returns (ghost h: Forest)
    requires StandsAlone(f, root) && Offers(source, g)
    modifies f.Nodes()
    ensures StandsAlone(h, root) && fresh(h.Nodes() - f.Nodes()) && fresh(h.attributes - f.attributes)
    ensures ShapeOf(h, root) == WithExchange(ShapeOf(f, root), at, child,
                                             Taken(ShapeOf(f, root), source, GivenFor(source, g)))
  {
    hide Linked, Shown, IsTree, Kept, Links, ShapeOf, NodeAt, Swap, Swappable, Swapped, Below, LinkedBy, IsCloneOf,
      WithExchange, PlaceBelow, Taken, GivenFor, Forest.WellFormed, Forest.RingsApart;
    AloneLinks(f, root);
    ghost var l, s := Links(f.Nodes()), ShapeOf(f, root);
    var p := Find(root, at, f);
    var c := Find(root, child, f);
    var withThis;
    ghost var src, t, k;
    withThis, src := Original(root, source, f, g);
    if p == null || c == null || withThis == null {
      NoPlace(f, root, at, child);
      NoSuchChild(f, root, at, child, c);
      NothingExchanged(s, at, child, Taken(s, source, GivenFor(source, g)));
      return f;
    }
    FindPlace(f, root, at, child, p, c);
    var r;
    r, t, h, k := p.ReplaceChild(c, withThis, f, src);
    StandsStill(l, f, h, root);
    if r == null {
      NothingExchanged(s, at, child, Some(ShapeOf(src, withThis)));
    } else {
      ChildExchanged(f, t, h, l, root, at, child, p, k, r, src, withThis);
      SwapHolds(f, t, p, k, r);
    }
  }

  lemma NothingExchanged(s: Shape, at: Path, child: Path, taken: Option<Shape>)
    requires PlaceBelow(s, at, child).None? || taken.None?
    ensures WithExchange(s, at, child, taken) == s
  {
    hide PlaceBelow;
  }

  lemma SwapHolds(f: Forest, t: Forest, p: TiXmlNode, k: nat, r: TiXmlNode)
    requires Swappable(f, t, p, k, r)
    ensures Swap(f, t, p, k, r).attributes == f.attributes + t.attributes
    ensures Swap(f, t, p, k, r).Nodes() <= f.Nodes() + t.Nodes()
  {
    hide Graft, Prune, InsertAt, Swap, Forest.WellFormed;
    SwapIsPrune(f, t, p, k, r);
    GraftHolds(f, t, p, InsertAt(f.Children(p), k, r));
    PruneHolds(Graft(f, t, p, InsertAt(f.Children(p), k, r)), p, k + 1);
  }

  lemma ChildExchanged(f: Forest, t: Forest, h: Forest, l: map<TiXmlNode, Link>, root: TiXmlNode, at: Path, child: Path,
                       p: TiXmlNode, k: nat, r: TiXmlNode, src: Forest, n: TiXmlNode)
    requires LinkedBy(f, l) && f.Nodes() !! t.Nodes() && IsCloneOf(t, r, src, n)
    requires Swapped(f, t, h, p, k, r) && Swappable(f, t, p, k, r) && h == Swap(f, t, p, k, r)
    requires root in f.Nodes() && NodeAt(f, root, at) == Some(p)
    requires var j := PlaceBelow(ShapeOf(f, root), at, child);
             j.Some? && j.value < |f.Children(p)| && f.Children(p)[j.value] == f.Children(p)[k]
    ensures root in h.Nodes() && ShapeOf(h, root) == WithExchange(ShapeOf(f, root), at, child, Some(ShapeOf(src, n)))
  {
    hide Swap, Swappable, ShapeOf, NodeAt, ShapeAt, WithKids, LinkedBy, PlaceBelow, Below, ChangesBelow, Cloned, ValuesOf, ValueOf,
      CopyTree, Forest.WellFormed;
    SoundKids(f, p);
    ShapeAtNode(f, root, at);
    ClonedShape(t, r, src, n);
    SwapChanges(f, l, t, h, p, k, r);
    ChangeAlong(f, h, l, root, at, p);
  }

  // ---- Runs ----

  /** What an edit needs from outside: the tree that is linked in, or the original of a clone. */
  ghost predicate Usable(edit: DomEdit, g: Forest)
    reads g.entries.Keys, g.attributes, if edit.LinkEnd? then {edit.node} else {}
  {
    match edit
    case LinkEnd(_, node) => StandsAlone(g, node)
    case InsertBefore(_, _, source) => Offers(source, g)
    case InsertAfter(_, _, source) => Offers(source, g)
    case Remove(_, _) => true
    case Replace(_, _, source) => Offers(source, g)
  }

  ghost predicate Ready(f: Forest, edit: DomEdit, g: Forest)
    reads g.entries.Keys, g.attributes, if edit.LinkEnd? then {edit.node} else {}
  {
    Usable(edit, g) && f.Nodes() !! g.Nodes() && (edit.LinkEnd? ==> f.attributes !! g.attributes)
  }

  /** The shape that comes from outside. */
  ghost function Given(edit: DomEdit, g: Forest): Shape {
    match edit
    case LinkEnd(_, node) => GivenFor(Outside(node), g)
    case InsertBefore(_, _, source) => GivenFor(source, g)
    case InsertAfter(_, _, source) => GivenFor(source, g)
    case Remove(_, _) => GivenFor(Inside([]), g)
    case Replace(_, _, source) => GivenFor(source, g)
  }

  /** The nodes and attributes that an edit takes over. */
  ghost function TakenOver(edit: DomEdit, g: Forest): set<TiXmlNode> {
    if edit.LinkEnd? then g.Nodes() else {}
  }

  ghost function AttributesTakenOver(edit: DomEdit, g: Forest): set<TiXmlAttribute> {
    if edit.LinkEnd? then g.attributes else {}
  }

  /** One call. */
  method EditOnce(root: TiXmlNode, edit: DomEdit, ghost f: Forest, ghost g: Forest) returns (ghost h: Forest)
    requires StandsAlone(f, root) && Ready(f, edit, g)
    modifies f.Nodes(), TakenOver(edit, g)
    ensures StandsAlone(h, root)
    ensures fresh(h.Nodes() - f.Nodes() - TakenOver(edit, g)) && fresh(h.attributes - f.attributes - AttributesTakenOver(edit, g))
    ensures ShapeOf(h, root) == Edited(ShapeOf(f, root), edit, Given(edit, g))
  {
    hide Intact, IsTree, ShapeOf, WithLast, WithClone, WithoutChild, WithExchange, Taken, GivenFor, Unlinked, Offers,
      Forest.WellFormed;
    match edit {
      case LinkEnd(at, node) =>
        GivenTree(node, g);
        h := LinkAt(root, at, node, f, g);
      case InsertBefore(at, sibling, source) =>
        h := InsertAtPath(root, at, sibling, 0, source, f, g);
      case InsertAfter(at, sibling, source) =>
        h := InsertAtPath(root, at, sibling, 1, source, f, g);
      case Remove(at, child) =>
        h := RemoveAtPath(root, at, child, f);
      case Replace(at, child, source) =>
        h := ReplaceAtPath(root, at, child, source, f, g);
    }
  }

  lemma GivenTree(node: TiXmlNode, g: Forest)
    requires StandsAlone(g, node)
    ensures g.WellFormed() && node in g.Nodes() && GivenFor(Outside(node), g) == ShapeOf(g, node)
  {
    hide Intact, IsTree, ShapeOf;
  }

  ghost function AllTakenOver(edits: seq<DomEdit>, given: seq<Forest>): (r: set<TiXmlNode>)
    requires |given| == |edits|
    ensures forall i :: 0 <= i < |edits| ==> TakenOver(edits[i], given[i]) <= r
    decreases |edits|
  {
    if edits == [] then {} else TakenOver(edits[0], given[0]) + AllTakenOver(edits[1..], given[1..])
  }

  ghost function AllGiven(edits: seq<DomEdit>, given: seq<Forest>): (r: seq<Shape>)
    requires |given| == |edits|
    ensures |r| == |edits| && forall i :: 0 <= i < |r| ==> r[i] == Given(edits[i], given[i])
  {
    seq(|edits|, i requires 0 <= i < |edits| => Given(edits[i], given[i]))
  }

  /** No tree that is linked in is used by another edit. */
  ghost predicate OwnTrees(edits: seq<DomEdit>, given: seq<Forest>)
    requires |given| == |edits|
  {
    forall i, j {:trigger given[i], given[j]} :: 0 <= i < |edits| && 0 <= j < |edits| && i != j && edits[i].LinkEnd? ==>
      given[i].Nodes() !! given[j].Nodes() && given[i].attributes !! given[j].attributes
  }

  /** The next call of a run. */
  method EditNext(root: TiXmlNode, edits: seq<DomEdit>, i: nat, ghost f: Forest, ghost given: seq<Forest>)
    returns (ghost h: Forest)
    requires |given| == |edits| && i < |edits| && StandsAlone(f, root) && OwnTrees(edits, given)
    requires forall j :: i <= j < |edits| ==> Ready(f, edits[j], given[j])
    modifies f.Nodes(), TakenOver(edits[i], given[i])
    ensures StandsAlone(h, root) && fresh(h.Nodes() - f.Nodes() - TakenOver(edits[i], given[i]))
    ensures forall j :: i < j < |edits| ==> Ready(h, edits[j], given[j])
    ensures ShapeOf(h, root) == Edited(ShapeOf(f, root), edits[i], Given(edits[i], given[i]))
  {
    hide IsRoot, Unlinked, Offers, ShapeOf, Edited, Given, Forest.WellFormed;
    h := EditOnce(root, edits[i], f, given[i]);
    forall j | i < j < |edits| ensures Ready(h, edits[j], given[j]) {
      assert given[i] == given[i] && given[j] == given[j];
    }
  }

  /** Any run of the five edits leaves one tree, with every list linked, whose shape is what the edits
      of the shape give, one after the other. */
  method EditAll(root: TiXmlNode, edits: seq<DomEdit>, ghost f: Forest, ghost given: seq<Forest>) returns (ghost h: Forest)
    requires |given| == |edits| && StandsAlone(f, root) && OwnTrees(edits, given)
    requires forall i :: 0 <= i < |edits| ==> Ready(f, edits[i], given[i])
    modifies f.Nodes(), AllTakenOver(edits, given)
    ensures StandsAlone(h, root) && fresh(h.Nodes() - f.Nodes() - AllTakenOver(edits, given))
    ensures ShapeOf(h, root) == EditedAll(ShapeOf(f, root), edits, AllGiven(edits, given))
    ensures ValueOf(h, root) == TreeOf(EditedAll(ShapeOf(f, root), edits, AllGiven(edits, given)))
  {
    hide Intact, IsTree, Links, ShapeOf, Edited, Given, Ready, OwnTrees, ValueOf;
    h := f;
    var i := 0;
    ghost var shapes := AllGiven(edits, given);
    assert edits[0..] == edits && shapes[0..] == shapes;
    while i < |edits|
      invariant 0 <= i <= |edits| && StandsAlone(h, root)
      invariant fresh(h.Nodes() - f.Nodes() - AllTakenOver(edits, given))
      invariant forall j :: i <= j < |edits| ==> Ready(h, edits[j], given[j])
      invariant EditedAll(ShapeOf(h, root), edits[i..], shapes[i..]) == EditedAll(ShapeOf(f, root), edits, shapes)
    {
      assert edits[i..][0] == edits[i] && edits[i..][1..] == edits[i + 1..];
      assert shapes[i..][0] == shapes[i] && shapes[i..][1..] == shapes[i + 1..];
      h := EditNext(root, edits, i, h, given);
      i := i + 1;
    }
    assert edits[i..] == [];
    ShapeValue(h, root);
  }
}
