/** The elements that the following and the preceding axis hold, apart from how they are collected, and
    those that they miss. */
module AxisMembers {
  import opened AttributeRing
  import opened Dom
  import opened DocumentOrder
  import opened Axes

  // ---- What the two axes hold ----

  /** `y` stands behind `a` among the children of their parent. */
  ghost predicate LaterSibling(f: Forest, a: TiXmlNode, y: TiXmlNode) {
    exists p, i, j :: p in f.Nodes() && IsSplit(f, p, i, j, a, y) && i < j
  }

  /** `a` and `y` are two children of `p`, at these places. */
  ghost predicate IsSplit(f: Forest, p: TiXmlNode, i: int, j: int, a: TiXmlNode, y: TiXmlNode) {
    && p in f.Nodes() && 0 <= i < |f.Children(p)| && 0 <= j < |f.Children(p)| && i != j
    && f.Children(p)[i] == a && f.Children(p)[j] == y
  }

  /** `a` is `n`, or above it with only elements from `n`'s parent up to it. */
  ghost predicate UpThroughElements(f: Forest, n: TiXmlNode, a: TiXmlNode)
    requires f.WellFormed()
  {
    && a in f.Nodes() && n in Below(f, a)
    && forall m :: m in Below(f, a) && m in f.Nodes() && n in Below(f, m) && m != n ==> IsElement(f, m)
  }

  /** `x` is the element `y` or an element among its children. */
  ghost predicate Near(f: Forest, y: TiXmlNode, x: TiXmlNode) {
    IsElement(f, y) && (x == y || (x in f.Children(y) && IsElement(f, x)))
  }

  lemma {:induction false} ElementsFromAt(f: Forest, n: TiXmlNode, i: nat, x: TiXmlNode)
    requires n in f.Nodes() && i <= |f.Children(n)|
    ensures x in ElementsFrom(f, n, i) <==> x in f.Children(n)[i..] && IsElement(f, x)
    decreases |f.Children(n)| - i
  {
    hide IsElement;
    if i < |f.Children(n)| {
      ElementsFromAt(f, n, i + 1, x);
      assert f.Children(n)[i..] == [f.Children(n)[i]] + f.Children(n)[i + 1..];
    }
  }

  lemma WithChildrenIsNear(f: Forest, y: TiXmlNode, x: TiXmlNode)
    requires y in f.Nodes()
    ensures x in WithChildren(f, y) <==> Near(f, y, x)
  {
    hide ElementsFrom;
    ElementsFromAt(f, y, 0, x);
    assert f.Children(y)[0..] == f.Children(y);
  }

  lemma FollowingUnfold(f: Forest, p: TiXmlNode, i: nat, x: TiXmlNode)
    requires f.WellFormed() && p in f.Nodes() && i < |f.Children(p)|
    ensures x in FollowingFrom(f, p, i) <==> Near(f, f.Children(p)[i], x) || x in FollowingFrom(f, p, i + 1)
  {
    hide Near, WithChildren;
    assert f.Sound(p);
    WithChildrenIsNear(f, f.Children(p)[i], x);
  }

  lemma {:induction false} FollowingFromAt(f: Forest, p: TiXmlNode, i: nat, x: TiXmlNode)
    requires f.WellFormed() && p in f.Nodes() && i <= |f.Children(p)|
    ensures x in FollowingFrom(f, p, i) <==> exists j :: i <= j < |f.Children(p)| && Near(f, f.Children(p)[j], x)
    decreases |f.Children(p)| - i
  {
    hide Near, Forest.WellFormed, FollowingFrom;
    if i < |f.Children(p)| {
      FollowingFromAt(f, p, i + 1, x);
      FollowingUnfold(f, p, i, x);
      OneLess(f, f.Children(p), i, x);
    } else {
      FollowingEnds(f, p);
    }
  }

  lemma FollowingEnds(f: Forest, p: TiXmlNode)
    requires f.WellFormed() && p in f.Nodes()
    ensures FollowingFrom(f, p, |f.Children(p)|) == []
  {
  }

  lemma OneLess(f: Forest, kids: seq<TiXmlNode>, i: nat, x: TiXmlNode)
    requires i < |kids|
    ensures (exists j :: i <= j < |kids| && Near(f, kids[j], x)) <==>
            Near(f, kids[i], x) || exists j :: i + 1 <= j < |kids| && Near(f, kids[j], x)
  {
    hide Near;
  }

  lemma PrecedingUnfold(f: Forest, p: TiXmlNode, i: nat, x: TiXmlNode)
    requires f.WellFormed() && p in f.Nodes() && 0 < i <= |f.Children(p)|
    ensures x in PrecedingTo(f, p, i) <==> Near(f, f.Children(p)[i - 1], x) || x in PrecedingTo(f, p, i - 1)
  {
    hide Near, WithChildren;
    assert f.Sound(p);
    WithChildrenIsNear(f, f.Children(p)[i - 1], x);
  }

  lemma {:induction false} PrecedingToAt(f: Forest, p: TiXmlNode, i: nat, x: TiXmlNode)
    requires f.WellFormed() && p in f.Nodes() && i <= |f.Children(p)|
    ensures x in PrecedingTo(f, p, i) <==> exists j :: 0 <= j < i && Near(f, f.Children(p)[j], x)
    decreases i
  {
    hide Near, Forest.WellFormed;
    if i > 0 {
      hide PrecedingTo;
      PrecedingToAt(f, p, i - 1, x);
      PrecedingUnfold(f, p, i, x);
      OneMore(f, f.Children(p), i, x);
    }
  }

  lemma OneMore(f: Forest, kids: seq<TiXmlNode>, i: nat, x: TiXmlNode)
    requires 0 < i <= |kids|
    ensures (exists j :: 0 <= j < i && Near(f, kids[j], x)) <==>
            Near(f, kids[i - 1], x) || exists j :: 0 <= j < i - 1 && Near(f, kids[j], x)
  {
    hide Near;
    if j :| 0 <= j < i && Near(f, kids[j], x) {
      assert j < i - 1 || j == i - 1;
    }
  }

  /** Above a node is what its parent is at or below. */
  lemma BelowThroughParent(f: Forest, l: map<TiXmlNode, Link>, p: TiXmlNode, n: TiXmlNode, m: TiXmlNode)
    requires f.WellFormed() && LinkedBy(f, l) && p in f.Nodes() && n in f.Children(p) && m in f.Nodes()
    ensures n in Below(f, m) && n != m <==> p in Below(f, m)
  {
    hide Below, LinkedBy;
    KidIsBelow(f, p, n);
    ParentIs(f, l, p, n);
    assert f.Sound(p);
    if n in Below(f, m) && n != m {
      BelowHasParent(f, m, n);
      var q :| q in Below(f, m) && q in f.Nodes() && n in f.Children(q);
      ParentIs(f, l, q, n);
    }
    if p in Below(f, m) {
      BelowIsTransitive(f, m, p, n);
      BelowHasParent(f, m, p);
    }
  }

  lemma NoneBetween(f: Forest, n: TiXmlNode)
    requires f.WellFormed() && n in f.Nodes()
    ensures UpThroughElements(f, n, n)
  {
    hide Below;
    SelfBelow(f, n);
    forall m | m in Below(f, n) && m in f.Nodes() && n in Below(f, m) ensures m == n {
      if m != n {
        StrictlyBelow(f, n, m);
        StrictlyBelow(f, m, n);
      }
    }
  }

  lemma UpStep(f: Forest, l: map<TiXmlNode, Link>, p: TiXmlNode, n: TiXmlNode, a: TiXmlNode)
    requires f.WellFormed() && LinkedBy(f, l) && p in f.Nodes() && n in f.Children(p) && a in f.Nodes() && a != n
    ensures UpThroughElements(f, n, a) <==> IsElement(f, p) && UpThroughElements(f, p, a)
  {
    hide Below, LinkedBy, IsElement;
    forall m | m in f.Nodes() ensures n in Below(f, m) && n != m <==> p in Below(f, m) {
      BelowThroughParent(f, l, p, n, m);
    }
    SelfBelow(f, p);
  }

  /** A child has one parent and one place. */
  lemma OnePlace(f: Forest, l: map<TiXmlNode, Link>, p: TiXmlNode, i: nat, q: TiXmlNode, j: nat)
    requires f.WellFormed() && LinkedBy(f, l) && p in f.Nodes() && q in f.Nodes()
    requires i < |f.Children(p)| && j < |f.Children(q)| && f.Children(p)[i] == f.Children(q)[j]
    ensures p == q && i == j
  {
    hide LinkedBy;
    ParentIs(f, l, p, f.Children(p)[i]);
    ParentIs(f, l, q, f.Children(p)[i]);
    assert f.Sound(p);
  }

  lemma LaterAt(f: Forest, l: map<TiXmlNode, Link>, p: TiXmlNode, k: nat, y: TiXmlNode)
    requires f.WellFormed() && LinkedBy(f, l) && p in f.Nodes() && k < |f.Children(p)|
    ensures LaterSibling(f, f.Children(p)[k], y) <==> y in f.Children(p)[k + 1..]
    ensures LaterSibling(f, y, f.Children(p)[k]) <==> y in f.Children(p)[..k]
  {
    hide LinkedBy, Forest.WellFormed;
    var n := f.Children(p)[k];
    if LaterSibling(f, n, y) {
      var q: TiXmlNode, i: int, j: int :| q in f.Nodes() && IsSplit(f, q, i, j, n, y) && i < j;
      OnePlace(f, l, p, k, q, i);
      assert f.Children(p)[k + 1..][j - k - 1] == y;
    }
    if LaterSibling(f, y, n) {
      var q: TiXmlNode, i: int, j: int :| q in f.Nodes() && IsSplit(f, q, i, j, y, n) && i < j;
      OnePlace(f, l, p, k, q, j);
      assert f.Children(p)[..k][i] == y;
    }
    if y in f.Children(p)[k + 1..] {
      var j :| 0 <= j < |f.Children(p)[k + 1..]| && f.Children(p)[k + 1..][j] == y;
      assert IsSplit(f, p, k, k + 1 + j, n, y);
    }
    if y in f.Children(p)[..k] {
      var i :| 0 <= i < |f.Children(p)[..k]| && f.Children(p)[..k][i] == y;
      assert IsSplit(f, p, i, k, y, n);
    }
  }

  /** The root is below itself only, and has no siblings. */
  lemma RootAlone(f: Forest, l: map<TiXmlNode, Link>, root: TiXmlNode, a: TiXmlNode)
    requires WholeTree(f, l, root) && a in f.Nodes()
    ensures root in Below(f, a) ==> a == root
    ensures !LaterSibling(f, root, a) && !LaterSibling(f, a, root)
  {
    hide Below, LinkedBy, OwnRings;
    if root in Below(f, a) && a != root {
      BelowHasParent(f, a, root);
      var q :| q in Below(f, a) && q in f.Nodes() && root in f.Children(q);
      ParentIs(f, l, q, root);
    }
    forall p, i, j, y, z | IsSplit(f, p, i, j, y, z) ensures root != y && root != z {
      ParentIs(f, l, p, y);
      ParentIs(f, l, p, z);
    }
  }

  /** `x` is, or is a child of, a later sibling of `n` or of a node above it reached through elements. */
  ghost predicate FollowsNear(f: Forest, n: TiXmlNode, x: TiXmlNode)
    requires f.WellFormed()
  {
    exists a, y :: a in f.Nodes() && y in f.Nodes() && UpThroughElements(f, n, a) && LaterSibling(f, a, y) && Near(f, y, x)
  }

  /** `x` is, or is a child of, an earlier sibling of `n`. */
  ghost predicate PrecedesNear(f: Forest, n: TiXmlNode, x: TiXmlNode) {
    exists y :: y in f.Nodes() && LaterSibling(f, y, n) && Near(f, y, x)
  }

  lemma FollowsNearStep(f: Forest, l: map<TiXmlNode, Link>, p: TiXmlNode, k: nat, x: TiXmlNode)
    requires f.WellFormed() && LinkedBy(f, l) && p in f.Nodes() && k < |f.Children(p)| && f.Children(p)[k] in f.Nodes()
    ensures FollowsNear(f, f.Children(p)[k], x) <==>
            (exists j :: k + 1 <= j < |f.Children(p)| && Near(f, f.Children(p)[j], x)) || (IsElement(f, p) && FollowsNear(f, p, x))
  {
    hide LinkedBy, Forest.WellFormed, Near, UpThroughElements, IsElement, LaterSibling;
    var n := f.Children(p)[k];
    NoneBetween(f, n);
    if FollowsNear(f, n, x) {
      var a, y :| a in f.Nodes() && y in f.Nodes() && UpThroughElements(f, n, a) && LaterSibling(f, a, y) && Near(f, y, x);
      if a == n {
        LaterAt(f, l, p, k, y);
        var j :| 0 <= j < |f.Children(p)[k + 1..]| && f.Children(p)[k + 1..][j] == y;
        assert f.Children(p)[k + 1 + j] == y;
      } else {
        UpInside(f, n, a);
        UpStep(f, l, p, n, a);
      }
    }
    if j :| k + 1 <= j < |f.Children(p)| && Near(f, f.Children(p)[j], x) {
      LaterAt(f, l, p, k, f.Children(p)[j]);
      assert f.Children(p)[k + 1..][j - k - 1] == f.Children(p)[j];
      NearInside(f, f.Children(p)[j], x);
    }
    if IsElement(f, p) && FollowsNear(f, p, x) {
      var a, y :| a in f.Nodes() && y in f.Nodes() && UpThroughElements(f, p, a) && LaterSibling(f, a, y) && Near(f, y, x);
      UpInside(f, p, a);
      NotAboveItself(f, p, k, a);
      UpStep(f, l, p, n, a);
      assert UpThroughElements(f, n, a) && LaterSibling(f, a, y) && Near(f, y, x);
    }
  }

  lemma UpInside(f: Forest, n: TiXmlNode, a: TiXmlNode)
    requires f.WellFormed() && UpThroughElements(f, n, a)
    ensures a in f.Nodes() && n in Below(f, a)
  {
    hide Below;
  }

  lemma NotAboveItself(f: Forest, p: TiXmlNode, k: nat, a: TiXmlNode)
    requires f.WellFormed() && p in f.Nodes() && k < |f.Children(p)| && a in f.Nodes() && p in Below(f, a)
    ensures a != f.Children(p)[k]
  {
    hide Below;
    assert f.Sound(p);
    BelowHasParent(f, a, p);
  }

  /** The following axis holds exactly the elements that are a later sibling element of the context, or
      of a node above it that is reached through elements, or a child of such a sibling. */
  lemma {:induction false} FollowingIsExact(f: Forest, l: map<TiXmlNode, Link>, root: TiXmlNode, n: TiXmlNode, x: TiXmlNode)
    requires WholeTree(f, l, root) && n in f.Nodes()
    ensures x in Following(f, l, root, n) <==> FollowsNear(f, n, x)
    decreases f.top - f.entries[n].rank
  {
    hide LinkedBy, OwnRings, IsTree, Near, UpThroughElements, LaterSibling, FollowingFrom, IsElement;
    if n == root {
      forall a, y | UpThroughElements(f, n, a) ensures !LaterSibling(f, a, y) {
        UpInside(f, n, a);
        RootAlone(f, l, root, a);
        NoLaterSibling(f, l, root, y);
      }
    } else {
      ParentInside(f, l, root, n);
      var p := l[n].parent;
      var k := PlaceOf(f.Children(p), n);
      assert f.Sound(p);
      FollowingFromAt(f, p, k + 1, x);
      FollowsNearStep(f, l, p, k, x);
      if IsElement(f, p) {
        FollowingIsExact(f, l, root, p, x);
      }
    }
  }

  lemma NoLaterSibling(f: Forest, l: map<TiXmlNode, Link>, root: TiXmlNode, y: TiXmlNode)
    requires WholeTree(f, l, root)
    ensures !LaterSibling(f, root, y)
  {
    hide LinkedBy, OwnRings;
    forall p, i, j | IsSplit(f, p, i, j, root, y) ensures false {
      ParentIs(f, l, p, root);
    }
  }

  /** The preceding axis holds exactly the earlier sibling elements of the context and their element
      children. */
  lemma PrecedingIsExact(f: Forest, l: map<TiXmlNode, Link>, root: TiXmlNode, n: TiXmlNode, x: TiXmlNode)
    requires WholeTree(f, l, root) && n in f.Nodes()
    ensures x in Preceding(f, l, root, n) <==> PrecedesNear(f, n, x)
  {
    hide LinkedBy, OwnRings, IsTree, Near, LaterSibling, PrecedingTo, Forest.WellFormed;
    if n == root {
      forall y | LaterSibling(f, y, n) ensures false {
        NoEarlierSibling(f, l, root, y);
      }
    } else {
      ParentInside(f, l, root, n);
      var p := l[n].parent;
      var k := PlaceOf(f.Children(p), n);
      PrecedingToAt(f, p, k, x);
      PrecedesNearAt(f, l, p, k, x);
    }
  }

  lemma PrecedesNearAt(f: Forest, l: map<TiXmlNode, Link>, p: TiXmlNode, k: nat, x: TiXmlNode)
    requires f.WellFormed() && LinkedBy(f, l) && p in f.Nodes() && k < |f.Children(p)|
    ensures PrecedesNear(f, f.Children(p)[k], x) <==> exists j :: 0 <= j < k && Near(f, f.Children(p)[j], x)
  {
    hide LinkedBy, Forest.WellFormed, Near, LaterSibling;
    var n := f.Children(p)[k];
    if PrecedesNear(f, n, x) {
      var y :| y in f.Nodes() && LaterSibling(f, y, n) && Near(f, y, x);
      LaterAt(f, l, p, k, y);
      var i :| 0 <= i < |f.Children(p)[..k]| && f.Children(p)[..k][i] == y;
      assert f.Children(p)[i] == y;
    }
    if j :| 0 <= j < k && Near(f, f.Children(p)[j], x) {
      LaterAt(f, l, p, k, f.Children(p)[j]);
      assert f.Children(p)[..k][j] == f.Children(p)[j];
      NearInside(f, f.Children(p)[j], x);
    }
  }

  lemma NearInside(f: Forest, y: TiXmlNode, x: TiXmlNode)
    requires Near(f, y, x)
    ensures IsElement(f, y) && y in f.Nodes() && IsElement(f, x) && x in f.Nodes()
  {
  }

  lemma NoEarlierSibling(f: Forest, l: map<TiXmlNode, Link>, root: TiXmlNode, y: TiXmlNode)
    requires WholeTree(f, l, root)
    ensures !LaterSibling(f, y, root)
  {
    hide LinkedBy, OwnRings;
    forall p, i, j | IsSplit(f, p, i, j, y, root) ensures false {
      ParentIs(f, l, p, root);
    }
  }

  // ---- What the two axes leave out ----

  /** Two nodes neither of which is below the other are at or below two children of one node. */
  lemma {:induction false} Divide(f: Forest, r: TiXmlNode, n: TiXmlNode, x: TiXmlNode) returns (p: TiXmlNode, i: nat, j: nat)
    requires f.WellFormed() && r in f.Nodes() && n in Below(f, r) && x in Below(f, r)
    requires n in f.Nodes() && x in f.Nodes() && n !in Below(f, x) && x !in Below(f, n)
    ensures p in f.Nodes() && i < |f.Children(p)| && j < |f.Children(p)| && i != j
    ensures f.Children(p)[i] in f.Nodes() && n in Below(f, f.Children(p)[i])
    ensures f.Children(p)[j] in f.Nodes() && x in Below(f, f.Children(p)[j])
    decreases f.entries[r].rank
  {
    hide Below;
    assert f.Sound(r);
    i := KidAbove(f, r, n);
    j := KidAbove(f, r, x);
    p := r;
    if i == j {
      p, i, j := Divide(f, f.Children(r)[i], n, x);
    }
  }

  /** Below the first of two children comes before what is below the second. */
  lemma SplitIsOrdered(f: Forest, l: map<TiXmlNode, Link>, root: TiXmlNode, p: TiXmlNode, i: nat, j: nat, n: TiXmlNode, x: TiXmlNode)
    requires WholeTree(f, l, root) && p in f.Nodes() && i < j < |f.Children(p)|
    requires f.Children(p)[i] in f.Nodes() && n in f.Nodes() && n in Below(f, f.Children(p)[i])
    requires f.Children(p)[j] in f.Nodes() && x in f.Nodes() && x in Below(f, f.Children(p)[j])
    ensures CompareIn(DocOrder(f, root), n, x) == Lower && CompareIn(DocOrder(f, root), x, n) == Higher
    ensures n !in Below(f, x) && x !in Below(f, n)
  {
    hide LinkedBy, DocOrder, Below, CompareIn, OwnRings, AllBefore, Once;
    AllBelowRoot(f, l, root, p);
    KidsInOrder(f, root, p, i, j);
    BeforeParts(f, DocOrder(f, root), f.Children(p)[i], f.Children(p)[j], n, x);
    SeparatedNodes(f, l, root, n, x);
    OnceInTree(f, l, root, n);
    OnceInTree(f, l, root, x);
    RanksAreOrdered(DocOrder(f, root), n, x, n);
  }

  /** The elements after a node in document order that are not below it. */
  ghost predicate FollowsApart(f: Forest, root: TiXmlNode, n: TiXmlNode, x: TiXmlNode)
    requires f.WellFormed() && root in f.Nodes() && n in f.Nodes()
  {
    IsElement(f, x) && CompareIn(DocOrder(f, root), n, x) == Lower && x !in Below(f, n)
  }

  /** The elements before a node in document order that are not above it. */
  ghost predicate PrecedesApart(f: Forest, root: TiXmlNode, n: TiXmlNode, x: TiXmlNode)
    requires f.WellFormed() && root in f.Nodes() && n in f.Nodes()
  {
    IsElement(f, x) && CompareIn(DocOrder(f, root), x, n) == Lower && n !in Below(f, x)
  }

  /** A node compares lower than what is below it. */
  lemma LowerThanBelow(f: Forest, l: map<TiXmlNode, Link>, root: TiXmlNode, n: TiXmlNode, x: TiXmlNode)
    requires WholeTree(f, l, root) && n in f.Nodes() && x in f.Nodes() && x in Below(f, n)
    ensures CompareIn(DocOrder(f, root), x, n) != Lower
  {
    hide LinkedBy, DocOrder, Below, CompareIn, OwnRings, Once, Precedes;
    OnceInTree(f, l, root, n);
    OnceInTree(f, l, root, x);
    RanksAreOrdered(DocOrder(f, root), x, n, x);
    if x != n {
      AllBelowRoot(f, l, root, n);
      NodeComesFirst(f, root, n, x);
      BeforeIsLower(DocOrder(f, root), n, x);
    }
  }

  /** The place where a node and one that follows or precedes it apart part ways. */
  lemma ApartSplits(f: Forest, l: map<TiXmlNode, Link>, root: TiXmlNode, n: TiXmlNode, x: TiXmlNode)
    returns (p: TiXmlNode, i: nat, j: nat)
    requires WholeTree(f, l, root) && n in f.Nodes()
    requires FollowsApart(f, root, n, x) || PrecedesApart(f, root, n, x)
    ensures x in f.Nodes() && p in f.Nodes() && i < |f.Children(p)| && j < |f.Children(p)|
    ensures f.Children(p)[i] in f.Nodes() && n in Below(f, f.Children(p)[i])
    ensures f.Children(p)[j] in f.Nodes() && x in Below(f, f.Children(p)[j])
    ensures if FollowsApart(f, root, n, x) then i < j else j < i
  {
    hide LinkedBy, DocOrder, Below, CompareIn, OwnRings;
    if x in Below(f, n) {
      LowerThanBelow(f, l, root, n, x);
    }
    if n in Below(f, x) {
      LowerThanBelow(f, l, root, x, n);
    }
    AllBelowRoot(f, l, root, n);
    AllBelowRoot(f, l, root, x);
    p, i, j := Divide(f, root, n, x);
    if i < j {
      SplitIsOrdered(f, l, root, p, i, j, n, x);
    } else {
      SplitIsOrdered(f, l, root, p, j, i, x, n);
    }
  }

  /** Of two nodes above or at the same node, one is above or at the other. */
  lemma {:induction false} Ancestors(f: Forest, l: map<TiXmlNode, Link>, n: TiXmlNode, a: TiXmlNode, b: TiXmlNode)
    requires f.WellFormed() && LinkedBy(f, l) && n in f.Nodes() && a in f.Nodes() && b in f.Nodes()
    requires n in Below(f, a) && n in Below(f, b)
    ensures a in Below(f, b) || b in Below(f, a)
    decreases f.top - f.entries[n].rank
  {
    hide Below, LinkedBy;
    if n != a && n != b {
      BelowHasParent(f, a, n);
      var p :| p in Below(f, a) && p in f.Nodes() && n in f.Children(p);
      BelowThroughParent(f, l, p, n, b);
      assert f.Sound(p);
      Ancestors(f, l, p, a, b);
    }
  }

  /** Two nodes part ways at one place only. */
  lemma OneSplit(f: Forest, l: map<TiXmlNode, Link>, n: TiXmlNode, x: TiXmlNode, p: TiXmlNode, i: nat, j: nat, q: TiXmlNode,
                 u: nat, v: nat)
    requires f.WellFormed() && LinkedBy(f, l) && n in f.Nodes()
    requires p in f.Nodes() && i < |f.Children(p)| && j < |f.Children(p)| && i != j
    requires q in f.Nodes() && u < |f.Children(q)| && v < |f.Children(q)| && u != v
    requires f.Children(p)[i] in f.Nodes() && f.Children(p)[j] in f.Nodes() && f.Children(q)[u] in f.Nodes() && f.Children(q)[v] in f.Nodes()
    requires n in Below(f, f.Children(p)[i]) && n in Below(f, f.Children(q)[u])
    requires x in Below(f, f.Children(p)[j]) && x in Below(f, f.Children(q)[v])
    ensures p == q && i == u && j == v
  {
    hide Below, LinkedBy;
    var a, b := f.Children(p)[i], f.Children(q)[u];
    Ancestors(f, l, n, a, b);
    if a != b {
      if a in Below(f, b) {
        BelowSibling(f, l, p, i, j, b, x);
        KidsApart(f, l, q, u, v, x);
      } else {
        BelowSibling(f, l, q, u, v, a, x);
        KidsApart(f, l, p, i, j, x);
      }
    }
    OnePlace(f, l, p, i, q, u);
    if j != v {
      KidsApart(f, l, p, j, v, x);
    }
  }

  /** Where a node is strictly above one child, it is above the other children too. */
  lemma BelowSibling(f: Forest, l: map<TiXmlNode, Link>, p: TiXmlNode, i: nat, j: nat, b: TiXmlNode, x: TiXmlNode)
    requires f.WellFormed() && LinkedBy(f, l) && p in f.Nodes() && i < |f.Children(p)| && j < |f.Children(p)|
    requires f.Children(p)[j] in f.Nodes() && x in Below(f, f.Children(p)[j])
    requires b in f.Nodes() && f.Children(p)[i] in Below(f, b) && f.Children(p)[i] != b
    ensures x in Below(f, b)
  {
    hide Below, LinkedBy;
    BelowThroughParent(f, l, p, f.Children(p)[i], b);
    KidIsBelow(f, p, f.Children(p)[j]);
    BelowIsTransitive(f, b, p, f.Children(p)[j]);
    BelowIsTransitive(f, b, f.Children(p)[j], x);
  }

  /** What an axis misses at or below a sibling: of an element that it reaches, only what is below the
      children; otherwise everything. No element is among that. */
  ghost predicate Shallow(f: Forest, y: TiXmlNode, reached: bool)
    requires f.WellFormed() && y in f.Nodes()
  {
    if reached && IsElement(f, y) then
      forall c, x :: c in f.Children(y) && c in f.Nodes() && x in Below(f, c) && x != c ==> !IsElement(f, x)
    else
      forall x :: x in Below(f, y) ==> !IsElement(f, x)
  }

  /** That is, every element there is the sibling or one of its children. */
  lemma ShallowMeans(f: Forest, l: map<TiXmlNode, Link>, y: TiXmlNode, reached: bool)
    requires f.WellFormed() && LinkedBy(f, l) && y in f.Nodes()
    ensures Shallow(f, y, reached) <==> forall x :: x in Below(f, y) && IsElement(f, x) ==> reached && Near(f, y, x)
  {
    hide Below, LinkedBy, IsElement;
    if reached && IsElement(f, y) {
      forall x | x in Below(f, y) && IsElement(f, x) && Shallow(f, y, reached) ensures Near(f, y, x) {
        if x != y {
          var k := KidAbove(f, y, x);
        }
      }
      forall c, x | c in f.Children(y) && c in f.Nodes() && x in Below(f, c) && x != c ensures x in Below(f, y) && !Near(f, y, x) {
        KidIsBelow(f, y, c);
        BelowIsTransitive(f, y, c, x);
        BelowHasParent(f, c, x);
        assert f.Sound(y);
        if x in f.Children(y) {
          KidNotBelow(f, l, y, x, c);
        }
      }
    }
  }

  /** The following axis has all the elements that follow apart exactly when every later sibling of the
      context or of a node above it is shallow: reached through elements, and no element below its
      children, or without an element at all. */
  lemma FollowingIsComplete(f: Forest, l: map<TiXmlNode, Link>, root: TiXmlNode, n: TiXmlNode)
    requires WholeTree(f, l, root) && n in f.Nodes()
    ensures (forall x :: x in f.Nodes() && FollowsApart(f, root, n, x) ==> x in Following(f, l, root, n)) <==>
            (forall a, y :: a in f.Nodes() && y in f.Nodes() && n in Below(f, a) && LaterSibling(f, a, y) ==>
               Shallow(f, y, UpThroughElements(f, n, a)))
  {
    hide LinkedBy, OwnRings, Below, Following, Shallow, FollowsApart, FollowsNear, LaterSibling, UpThroughElements,
      Forest.WellFormed;
    if forall a, y :: a in f.Nodes() && y in f.Nodes() && n in Below(f, a) && LaterSibling(f, a, y) ==>
         Shallow(f, y, UpThroughElements(f, n, a)) {
      forall x | x in f.Nodes() && FollowsApart(f, root, n, x) ensures x in Following(f, l, root, n) {
        var p, i, j := ApartSplits(f, l, root, n, x);
        FoundFollowing(f, l, root, n, x, p, i, j);
      }
    }
    if a, y :| a in f.Nodes() && y in f.Nodes() && n in Below(f, a) && LaterSibling(f, a, y)
               && !Shallow(f, y, UpThroughElements(f, n, a)) {
      var x := MissedFollowing(f, l, root, n, a, y);
    }
  }

  lemma FoundFollowing(f: Forest, l: map<TiXmlNode, Link>, root: TiXmlNode, n: TiXmlNode, x: TiXmlNode, p: TiXmlNode, i: nat, j: nat)
    requires WholeTree(f, l, root) && n in f.Nodes() && FollowsApart(f, root, n, x)
    requires p in f.Nodes() && i < j < |f.Children(p)| && f.Children(p)[i] in f.Nodes() && f.Children(p)[j] in f.Nodes()
    requires n in Below(f, f.Children(p)[i]) && x in Below(f, f.Children(p)[j])
    requires LaterSibling(f, f.Children(p)[i], f.Children(p)[j]) ==>
               Shallow(f, f.Children(p)[j], UpThroughElements(f, n, f.Children(p)[i]))
    ensures x in Following(f, l, root, n)
  {
    hide LinkedBy, OwnRings, IsTree, Below, Following, Shallow, UpThroughElements, Forest.WellFormed, Near, DocOrder, CompareIn;
    var a, y := f.Children(p)[i], f.Children(p)[j];
    assert IsSplit(f, p, i, j, a, y);
    ShallowMeans(f, l, y, UpThroughElements(f, n, a));
    FollowingIsExact(f, l, root, n, x);
  }

  /** Where a later sibling is not shallow, an element that follows apart is missed. */
  lemma MissedFollowing(f: Forest, l: map<TiXmlNode, Link>, root: TiXmlNode, n: TiXmlNode, a: TiXmlNode, y: TiXmlNode)
    returns (x: TiXmlNode)
    requires WholeTree(f, l, root) && n in f.Nodes() && a in f.Nodes() && y in f.Nodes() && n in Below(f, a)
    requires LaterSibling(f, a, y) && !Shallow(f, y, UpThroughElements(f, n, a))
    ensures x in f.Nodes() && FollowsApart(f, root, n, x) && x !in Following(f, l, root, n)
  {
    hide LinkedBy, OwnRings, IsTree, Below, Following, Shallow, UpThroughElements, Forest.WellFormed, Near, DocOrder, CompareIn;
    ShallowMeans(f, l, y, UpThroughElements(f, n, a));
    x :| x in Below(f, y) && IsElement(f, x) && !(UpThroughElements(f, n, a) && Near(f, y, x));
    var p: TiXmlNode, i: int, j: int :| p in f.Nodes() && IsSplit(f, p, i, j, a, y) && i < j;
    SplitIsOrdered(f, l, root, p, i, j, n, x);
    FollowingIsExact(f, l, root, n, x);
    if FollowsNear(f, n, x) {
      var b, z :| b in f.Nodes() && z in f.Nodes() && UpThroughElements(f, n, b) && LaterSibling(f, b, z) && Near(f, z, x);
      var q: TiXmlNode, u: int, v: int :| q in f.Nodes() && IsSplit(f, q, u, v, b, z) && u < v;
      UpInside(f, n, b);
      NearBelow(f, z, x);
      OneSplit(f, l, n, x, p, i, j, q, u, v);
    }
  }

  lemma NearBelow(f: Forest, y: TiXmlNode, x: TiXmlNode)
    requires f.WellFormed() && Near(f, y, x)
    ensures x in Below(f, y)
  {
    hide Below;
    SelfBelow(f, y);
    if x != y {
      KidIsBelow(f, y, x);
    }
  }

  /** The preceding axis has all the elements that precede apart exactly when every earlier sibling of
      the context is shallow, and no earlier sibling of a node above it has an element at or below it. */
  lemma PrecedingIsComplete(f: Forest, l: map<TiXmlNode, Link>, root: TiXmlNode, n: TiXmlNode)
    requires WholeTree(f, l, root) && n in f.Nodes()
    ensures (forall x :: x in f.Nodes() && PrecedesApart(f, root, n, x) ==> x in Preceding(f, l, root, n)) <==>
            (forall a, y :: a in f.Nodes() && y in f.Nodes() && n in Below(f, a) && LaterSibling(f, y, a) ==> Shallow(f, y, a == n))
  {
    hide LinkedBy, OwnRings, Below, Preceding, Shallow, PrecedesApart, PrecedesNear, LaterSibling, Forest.WellFormed;
    if forall a, y :: a in f.Nodes() && y in f.Nodes() && n in Below(f, a) && LaterSibling(f, y, a) ==> Shallow(f, y, a == n) {
      forall x | x in f.Nodes() && PrecedesApart(f, root, n, x) ensures x in Preceding(f, l, root, n) {
        NotBoth(f, l, root, n, x);
        var p, i, j := ApartSplits(f, l, root, n, x);
        FoundPreceding(f, l, root, n, x, p, i, j);
      }
    }
    if a, y :| a in f.Nodes() && y in f.Nodes() && n in Below(f, a) && LaterSibling(f, y, a) && !Shallow(f, y, a == n) {
      var x := MissedPreceding(f, l, root, n, a, y);
    }
  }

  lemma NotBoth(f: Forest, l: map<TiXmlNode, Link>, root: TiXmlNode, n: TiXmlNode, x: TiXmlNode)
    requires WholeTree(f, l, root) && n in f.Nodes() && x in f.Nodes() && PrecedesApart(f, root, n, x)
    ensures !FollowsApart(f, root, n, x)
  {
    hide LinkedBy, OwnRings, Below, DocOrder, CompareIn, Once;
    OnceInTree(f, l, root, n);
    OnceInTree(f, l, root, x);
    RanksAreOrdered(DocOrder(f, root), n, x, n);
  }

  lemma FoundPreceding(f: Forest, l: map<TiXmlNode, Link>, root: TiXmlNode, n: TiXmlNode, x: TiXmlNode, p: TiXmlNode, i: nat, j: nat)
    requires WholeTree(f, l, root) && n in f.Nodes() && PrecedesApart(f, root, n, x)
    requires p in f.Nodes() && j < i < |f.Children(p)| && f.Children(p)[i] in f.Nodes() && f.Children(p)[j] in f.Nodes()
    requires n in Below(f, f.Children(p)[i]) && x in Below(f, f.Children(p)[j])
    requires LaterSibling(f, f.Children(p)[j], f.Children(p)[i]) ==> Shallow(f, f.Children(p)[j], f.Children(p)[i] == n)
    ensures x in Preceding(f, l, root, n)
  {
    hide LinkedBy, OwnRings, IsTree, Below, Preceding, Shallow, Forest.WellFormed, Near, DocOrder, CompareIn;
    var a, y := f.Children(p)[i], f.Children(p)[j];
    assert IsSplit(f, p, j, i, y, a);
    ShallowMeans(f, l, y, a == n);
    PrecedingIsExact(f, l, root, n, x);
  }

  lemma MissedPreceding(f: Forest, l: map<TiXmlNode, Link>, root: TiXmlNode, n: TiXmlNode, a: TiXmlNode, y: TiXmlNode)
    returns (x: TiXmlNode)
    requires WholeTree(f, l, root) && n in f.Nodes() && a in f.Nodes() && y in f.Nodes() && n in Below(f, a)
    requires LaterSibling(f, y, a) && !Shallow(f, y, a == n)
    ensures x in f.Nodes() && PrecedesApart(f, root, n, x) && x !in Preceding(f, l, root, n)
  {
    hide LinkedBy, OwnRings, IsTree, Below, Preceding, Shallow, Forest.WellFormed, Near, DocOrder, CompareIn;
    ShallowMeans(f, l, y, a == n);
    x :| x in Below(f, y) && IsElement(f, x) && !(a == n && Near(f, y, x));
    var p: TiXmlNode, j: int, i: int :| p in f.Nodes() && IsSplit(f, p, j, i, y, a) && j < i;
    SplitIsOrdered(f, l, root, p, j, i, x, n);
    PrecedingIsExact(f, l, root, n, x);
    if PrecedesNear(f, n, x) {
      var z :| z in f.Nodes() && LaterSibling(f, z, n) && Near(f, z, x);
      var q: TiXmlNode, v: int, u: int :| q in f.Nodes() && IsSplit(f, q, v, u, z, n) && v < u;
      SelfBelow(f, n);
      NearBelow(f, z, x);
      OneSplit(f, l, n, x, p, i, j, q, u, v);
    }
  }

  // ---- A tree in which both axes miss an element ----

  method NewAlone(name: string) returns (e: TiXmlNode, ghost f: Forest)
    ensures fresh(f.Nodes()) && fresh(f.attributes) && StandsAlone(f, e) && f.Nodes() == {e}
    ensures f.Children(e) == [] && f.entries[e].data.ElementLabel? && e.kind == ElementNode
  {
    hide Linked, IsTree, Links, Contents, TiXmlAttributeSet.IsRing, Forest.WellFormed, Forest.RingsApart;
    e := new TiXmlNode(ElementNode, name);
    f := Single(e, ElementLabel(name, []), []);
    SingleIntact(e, ElementLabel(name, []), []);
  }

  /** Appends one tree to the children of the root of another. */
  method Hang(root: TiXmlNode, child: TiXmlNode, ghost f: Forest, ghost g: Forest) returns (ghost h: Forest)
    requires StandsAlone(f, root) && StandsAlone(g, child) && f.Nodes() !! g.Nodes() && f.attributes !! g.attributes
    requires child.kind == ElementNode
    modifies f.Nodes(), child
    ensures StandsAlone(h, root) && h == Graft(f, g, root, f.Children(root) + [child])
    ensures h.Nodes() == f.Nodes() + g.Nodes() && h.attributes == f.attributes + g.attributes
  {
    hide Linked, Shown, IsTree, Links, Attachable, Graft, Kept, LinkOf, Forest.WellFormed, Forest.RingsApart;
    ChildrenInside(f, root);
    AloneLinks(f, root);
    AloneApart(f, root, g);
    FreshAttachable(f, g, child);
    GraftHolds(f, g, root, f.Children(root) + [child]);
    ghost var l := Links(f.Nodes());
    var linked;
    linked, h := root.LinkEndChild(child, null, f, g);
    StandsStill(l, f, h, root);
  }

  lemma GraftKids(f: Forest, g: Forest, p: TiXmlNode, kids: seq<TiXmlNode>, n: TiXmlNode)
    requires f.Nodes() !! g.Nodes() && n in f.Nodes() + g.Nodes()
    ensures var h := Graft(f, g, p, kids);
            && h.Children(n) == (if n in g.Nodes() then g.Children(n) else if n == p then kids else f.Children(n))
            && h.entries[n].data == (if n in g.Nodes() then g.entries[n].data else f.entries[n].data)
  {
  }

  /** A shape in which the following axis of the first child misses the grandchild of the second, and the
      preceding axis of the second one's child misses the first. */
  ghost predicate IsTall(f: Forest, r: TiXmlNode, n: TiXmlNode, y: TiXmlNode, c: TiXmlNode, g: TiXmlNode) {
    && {r, n, y, c, g} <= f.Nodes() && n != y && c != g
    && f.Children(r) == [n, y] && f.Children(y) == [c] && f.Children(c) == [g]
    && f.entries[n].data.ElementLabel? && f.entries[y].data.ElementLabel? && f.entries[g].data.ElementLabel?
  }

  lemma TallMisses(f: Forest, r: TiXmlNode, n: TiXmlNode, y: TiXmlNode, c: TiXmlNode, g: TiXmlNode) returns (x: TiXmlNode)
    requires StandsAlone(f, r) && IsTall(f, r, n, y, c, g)
    ensures WholeTree(f, Links(f.Nodes()), r) && n in f.Nodes() && x in f.Nodes()
    ensures FollowsApart(f, r, n, x) && x !in Following(f, Links(f.Nodes()), r, n)
  {
    hide LinkedBy, OwnRings, IsTree, Below, Following, FollowsApart, UpThroughElements, Links, Shown, Forest.RingsApart;
    AloneIsWhole(f, r);
    assert IsSplit(f, r, 0, 1, n, y);
    KidIsBelow(f, c, g);
    SelfBelow(f, n);
    NoneBetween(f, n);
    assert c in f.Children(y) && g in Below(f, c) && IsElement(f, g) && !Shallow(f, y, true);
    x := MissedFollowing(f, Links(f.Nodes()), r, n, n, y);
  }

  lemma TallMissesBefore(f: Forest, r: TiXmlNode, n: TiXmlNode, y: TiXmlNode, c: TiXmlNode, g: TiXmlNode) returns (x: TiXmlNode)
    requires StandsAlone(f, r) && IsTall(f, r, n, y, c, g)
    ensures WholeTree(f, Links(f.Nodes()), r) && c in f.Nodes() && x in f.Nodes()
    ensures PrecedesApart(f, r, c, x) && x !in Preceding(f, Links(f.Nodes()), r, c)
  {
    hide LinkedBy, OwnRings, IsTree, Below, Preceding, PrecedesApart, Links, Shown, Forest.RingsApart;
    AloneIsWhole(f, r);
    assert IsSplit(f, r, 0, 1, n, y);
    KidIsBelow(f, y, c);
    SelfBelow(f, n);
    ChildRank(f, y, 0);
    assert IsElement(f, n) && !Shallow(f, n, false);
    x := MissedPreceding(f, Links(f.Nodes()), r, c, y, n);
  }

  /** Such a tree, made of five elements: `n` and `x` show it for the following axis, and `m` and `z` for
      the preceding one. */
  method TallSibling()
    returns (root: TiXmlNode, ghost f: Forest, ghost n: TiXmlNode, ghost x: TiXmlNode, ghost m: TiXmlNode, ghost z: TiXmlNode)
    ensures Intact(f) && WholeTree(f, Links(f.Nodes()), root) && {n, x, m, z} <= f.Nodes()
    ensures FollowsApart(f, root, n, x) && x !in Following(f, Links(f.Nodes()), root, n)
    ensures PrecedesApart(f, root, m, z) && z !in Preceding(f, Links(f.Nodes()), root, m)
  {
    hide Intact, IsTree, WholeTree, FollowsApart, Following, PrecedesApart, Preceding;
    var first, y, c;
    ghost var g;
    root, first, y, c, g, f := TallTree();
    n, m := first, c;
    x := TallMisses(f, root, first, y, c, g);
    z := TallMissesBefore(f, root, first, y, c, g);
  }

  method TallTree() returns (root: TiXmlNode, n: TiXmlNode, y: TiXmlNode, c: TiXmlNode, ghost g: TiXmlNode, ghost f: Forest)
    ensures StandsAlone(f, root) && IsTall(f, root, n, y, c, g)
  {
    hide StandsAlone, Graft, IsTall;
    ghost var rest, tall;
    var low;
    y, c, low, tall := TallElement();
    g := low;
    root, f := NewAlone("r");
    n, rest := NewAlone("n");
    GraftKids(f, rest, root, [n], root);
    GraftKids(f, rest, root, [n], n);
    assert f.Children(root) + [n] == [n];
    f := Hang(root, n, f, rest);
    assert f.Children(root) + [y] == [n, y];
    TallGraft(f, tall, root, n, y, c, g);
    f := Hang(root, y, f, tall);
  }

  lemma TallGraft(f: Forest, tall: Forest, r: TiXmlNode, n: TiXmlNode, y: TiXmlNode, c: TiXmlNode, g: TiXmlNode)
    requires f.Nodes() !! tall.Nodes() && {r, n} <= f.Nodes() && {y, c, g} <= tall.Nodes() && c != g
    requires tall.Children(y) == [c] && tall.Children(c) == [g]
    requires f.entries[n].data.ElementLabel? && tall.entries[y].data.ElementLabel? && tall.entries[g].data.ElementLabel?
    ensures IsTall(Graft(f, tall, r, [n, y]), r, n, y, c, g)
  {
    hide Graft;
    GraftKids(f, tall, r, [n, y], r);
    GraftKids(f, tall, r, [n, y], n);
    GraftKids(f, tall, r, [n, y], y);
    GraftKids(f, tall, r, [n, y], c);
    GraftKids(f, tall, r, [n, y], g);
  }

  /** An element with a child and a grandchild. */
  method TallElement() returns (y: TiXmlNode, c: TiXmlNode, g: TiXmlNode, ghost f: Forest)
    ensures fresh(f.Nodes()) && fresh(f.attributes) && StandsAlone(f, y) && {y, c, g} <= f.Nodes() && c != g
    ensures f.Children(y) == [c] && f.Children(c) == [g] && y.kind == ElementNode
    ensures f.entries[y].data.ElementLabel? && f.entries[g].data.ElementLabel?
  {
    hide StandsAlone, Graft;
    ghost var low, mid, top;
    y, top := NewAlone("y");
    c, mid := NewAlone("c");
    g, low := NewAlone("g");
    GraftKids(mid, low, c, [g], c);
    GraftKids(mid, low, c, [g], g);
    assert [] + [g] == [g] && [] + [c] == [c];
    mid := Hang(c, g, mid, low);
    GraftKids(top, mid, y, [c], y);
    GraftKids(top, mid, y, [c], c);
    GraftKids(top, mid, y, [c], g);
    f := Hang(y, c, top, mid);
  }
}
