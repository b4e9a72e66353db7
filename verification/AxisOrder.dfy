/** The order in which the axes come across elements. */
module AxisOrder {
  import opened Dom
  import opened DocumentOrder
  import opened Axes

  // ---- Attributes ----

  /** The attributes of an element stand behind it, in their order, and before all that is below it. */
  lemma AttributesInOrder(f: Forest, l: map<TiXmlNode, Link>, root: TiXmlNode, n: TiXmlNode, i: nat, j: nat, x: TiXmlNode)
    requires WholeTree(f, l, root) && n in f.Nodes() && f.entries[n].data.ElementLabel? && i < j <= |f.entries[n].ring|
    ensures var order, ring := DocOrder(f, root), f.entries[n].ring;
            && CompareIn(order, n, ring[i]) == Lower
            && (j < |ring| ==> CompareIn(order, ring[i], ring[j]) == Lower)
            && (x in Below(f, n) && x != n ==> CompareIn(order, ring[i], x) == Lower)
  {
    hide LinkedBy, Below, DocOrderFrom, Once, CompareIn, IsTree, OwnRings;
    RootInside(l, f, root);
    var order, ring := DocOrder(f, root), f.entries[n].ring;
    AllBelowRoot(f, l, root, n);
    OnceInTree(f, l, root, n);
    var pre, post := Block(f, root, n);
    Head(f, n, i, j);
    BeforeInside(pre, DocOrder(f, n), post, n, ring[i]);
    BeforeIsLower(order, n, ring[i]);
    if j < |ring| {
      BeforeInside(pre, DocOrder(f, n), post, ring[i], ring[j]);
      BeforeIsLower(order, ring[i], ring[j]);
    }
    if x in Below(f, n) && x != n {
      Tail(f, n, i, x);
      BeforeInside(pre, DocOrder(f, n), post, ring[i], x);
      BeforeIsLower(order, ring[i], x);
    }
  }

  lemma Head(f: Forest, n: TiXmlNode, i: nat, j: nat)
    requires f.WellFormed() && n in f.Nodes() && f.entries[n].data.ElementLabel? && i < j <= |f.entries[n].ring|
    ensures var order, ring := DocOrder(f, n), f.entries[n].ring;
            Precedes(order, n, ring[i]) && (j < |ring| ==> Precedes(order, ring[i], ring[j]))
  {
    hide DocOrderFrom;
    var order, ring := DocOrder(f, n), f.entries[n].ring;
    assert order[0] == n && order[1 + i] == ring[i] && (j < |ring| ==> order[1 + j] == ring[j]);
  }

  lemma Tail(f: Forest, n: TiXmlNode, i: nat, x: TiXmlNode)
    requires f.WellFormed() && n in f.Nodes() && f.entries[n].data.ElementLabel? && i < |f.entries[n].ring|
    requires x in Below(f, n) && x != n
    ensures Precedes(DocOrder(f, n), f.entries[n].ring[i], x)
  {
    hide DocOrderFrom, Below;
    NodesInOrder(f, n, x);
    NotAnAttribute(f, n, x);
    var head := [n as object] + AttributesOf(f, n);
    assert head[1 + i] == f.entries[n].ring[i];
    BeforeAcross(head, DocOrderFrom(f, n, 0), f.entries[n].ring[i], x);
  }

  // ---- The following axis ----

  lemma {:induction false} ElementsIncrease(f: Forest, root: TiXmlNode, n: TiXmlNode, i: nat)
    requires f.WellFormed() && root in f.Nodes() && n in Below(f, root) && n in f.Nodes() && i <= |f.Children(n)|
    ensures Increasing(DocOrder(f, root), ElementsFrom(f, n, i))
    decreases |f.Children(n)| - i
  {
    hide Below, DocOrder, Precedes, Forest.WellFormed;
    if i < |f.Children(n)| {
      ElementsIncrease(f, root, n, i + 1);
      var kid, rest := f.Children(n)[i], ElementsFrom(f, n, i + 1);
      forall y | y in rest ensures Precedes(DocOrder(f, root), kid, y) {
        LaterKid(f, root, n, i, y);
      }
      if IsElement(f, kid) {
        IncreasingConcat(DocOrder(f, root), [kid], rest);
      }
      assert [] + rest == rest;
    }
  }

  lemma LaterKid(f: Forest, root: TiXmlNode, n: TiXmlNode, i: nat, y: TiXmlNode)
    requires f.WellFormed() && root in f.Nodes() && n in Below(f, root) && n in f.Nodes() && i < |f.Children(n)|
    requires y in ElementsFrom(f, n, i + 1)
    ensures Precedes(DocOrder(f, root), f.Children(n)[i], y)
  {
    hide Below, DocOrder, Precedes;
    var j := PlaceOfElement(f, n, i + 1, y);
    ChildRank(f, n, i);
    ChildRank(f, n, j);
    KidsInOrder(f, root, n, i, j);
    SelfBelow(f, f.Children(n)[i]);
    SelfBelow(f, y);
  }

  lemma {:induction false} PlaceOfElement(f: Forest, n: TiXmlNode, i: nat, y: TiXmlNode) returns (j: nat)
    requires n in f.Nodes() && i <= |f.Children(n)| && y in ElementsFrom(f, n, i)
    ensures i <= j < |f.Children(n)| && f.Children(n)[j] == y
    decreases |f.Children(n)| - i
  {
    if y in ElementsFrom(f, n, i + 1) {
      j := PlaceOfElement(f, n, i + 1, y);
    } else {
      j := i;
    }
  }

  /** An element comes before its element children. */
  lemma BlockIncreases(f: Forest, root: TiXmlNode, n: TiXmlNode)
    requires f.WellFormed() && root in f.Nodes() && n in Below(f, root) && n in f.Nodes()
    ensures Increasing(DocOrder(f, root), WithChildren(f, n))
  {
    hide Below, DocOrder, Precedes, ElementsFrom, Forest.WellFormed;
    ElementsIncrease(f, root, n, 0);
    forall y | y in ElementsFrom(f, n, 0) ensures Precedes(DocOrder(f, root), n, y) {
      ElementsAreKids(f, n, 0, y);
      KidIsBelow(f, n, y);
      NotOwnKid(f, n, y);
      NodeComesFirst(f, root, n, y);
    }
    IncreasingConcat(DocOrder(f, root), [n], ElementsFrom(f, n, 0));
  }

  lemma NotOwnKid(f: Forest, n: TiXmlNode, y: TiXmlNode)
    requires f.WellFormed() && n in f.Nodes() && y in f.Children(n)
    ensures y != n
  {
    assert f.Sound(n);
  }

  lemma {:induction false} FollowingFromIncreases(f: Forest, root: TiXmlNode, n: TiXmlNode, i: nat)
    requires f.WellFormed() && root in f.Nodes() && n in Below(f, root) && n in f.Nodes() && i <= |f.Children(n)|
    ensures Increasing(DocOrder(f, root), FollowingFrom(f, n, i))
    decreases |f.Children(n)| - i
  {
    hide Below, DocOrder, Precedes, WithChildren, Forest.WellFormed;
    if i < |f.Children(n)| {
      var kid, rest := f.Children(n)[i], FollowingFrom(f, n, i + 1);
      ChildRank(f, n, i);
      KidIsBelow(f, n, kid);
      BelowIsTransitive(f, root, n, kid);
      BlockIncreases(f, root, kid);
      FollowingFromIncreases(f, root, n, i + 1);
      forall x, y | x in WithChildren(f, kid) && y in rest ensures Precedes(DocOrder(f, root), x, y) {
        WithChildrenBelow(f, kid, x);
        var j := FollowingFromBelow(f, n, i + 1, y);
        KidsInOrder(f, root, n, i, j);
      }
      IncreasingConcat(DocOrder(f, root), WithChildren(f, kid), rest);
    }
  }

  /** The following axis runs in document order. */
  lemma {:induction false} FollowingIncreases(f: Forest, l: map<TiXmlNode, Link>, root: TiXmlNode, n: TiXmlNode)
    requires WholeTree(f, l, root) && n in f.Nodes()
    ensures Increasing(DocOrder(f, root), Following(f, l, root, n))
    decreases f.top - f.entries[n].rank
  {
    hide LinkedBy, Below, DocOrder, Precedes, FollowingFrom, OwnRings, IsTree;
    if n != root {
      ParentInside(f, l, root, n);
      var p := l[n].parent;
      RankBound(f, p);
      var siblings := FollowingFrom(f, p, PlaceOf(f.Children(p), n) + 1);
      RootInside(l, f, root);
      AllBelowRoot(f, l, root, p);
      FollowingFromIncreases(f, root, p, PlaceOf(f.Children(p), n) + 1);
      if IsElement(f, p) {
        FollowingIncreases(f, l, root, p);
        forall x, y | x in siblings && y in Following(f, l, root, p) ensures Precedes(DocOrder(f, root), x, y) {
          OutsideComesAfter(f, l, root, p, PlaceOf(f.Children(p), n) + 1, x, y);
        }
        IncreasingConcat(DocOrder(f, root), siblings, Following(f, l, root, p));
      } else {
        assert siblings + [] == siblings;
      }
    }
  }

  lemma OutsideComesAfter(f: Forest, l: map<TiXmlNode, Link>, root: TiXmlNode, p: TiXmlNode, i: nat, x: TiXmlNode, y: TiXmlNode)
    requires WholeTree(f, l, root) && p in f.Nodes() && i <= |f.Children(p)|
    requires x in FollowingFrom(f, p, i) && y in Following(f, l, root, p)
    ensures Precedes(DocOrder(f, root), x, y)
  {
    hide LinkedBy, Below, DocOrder, Precedes, FollowingFrom, Following, OwnRings, IsTree;
    var j := FollowingFromBelow(f, p, i, x);
    KidIsBelow(f, p, f.Children(p)[j]);
    BelowIsTransitive(f, p, f.Children(p)[j], x);
    FollowingIsAfter(f, l, root, p, y);
    SelfBelow(f, y);
  }

  // ---- The preceding axis ----

  /** Of two, the one that comes later stands before the other, unless they are an element and its
      children, which stay in order. */
  ghost predicate Backwards(f: Forest, order: seq<object>, nodes: seq<TiXmlNode>) {
    forall i, j :: 0 <= i < j < |nodes| ==>
      Precedes(order, nodes[j], nodes[i])
      || exists y :: y in f.Nodes() && nodes[i] in WithChildren(f, y) && nodes[j] in WithChildren(f, y) && Precedes(order, nodes[i], nodes[j])
  }

  lemma BackwardsConcat(f: Forest, order: seq<object>, y: TiXmlNode, b: seq<TiXmlNode>)
    requires y in f.Nodes() && Increasing(order, WithChildren(f, y)) && Backwards(f, order, b)
    requires forall x, z :: x in WithChildren(f, y) && z in b ==> Precedes(order, z, x)
    ensures Backwards(f, order, WithChildren(f, y) + b)
  {
    hide Precedes, WithChildren;
    var a := WithChildren(f, y);
    var c := a + b;
    forall i, j | 0 <= i < j < |c|
      ensures Precedes(order, c[j], c[i])
              || exists y :: y in f.Nodes() && c[i] in WithChildren(f, y) && c[j] in WithChildren(f, y) && Precedes(order, c[i], c[j])
    {
      if j < |a| {
        assert c[i] == a[i] && c[j] == a[j] && c[i] in a && c[j] in a;
      } else if i < |a| {
        assert c[i] in a && c[j] in b;
      } else {
        assert c[i] == b[i - |a|] && c[j] == b[j - |a|];
      }
    }
  }

  lemma {:induction false} PrecedingToBackwards(f: Forest, root: TiXmlNode, n: TiXmlNode, i: nat)
    requires f.WellFormed() && root in f.Nodes() && n in Below(f, root) && n in f.Nodes() && i <= |f.Children(n)|
    ensures Backwards(f, DocOrder(f, root), PrecedingTo(f, n, i))
    decreases i
  {
    hide Below, DocOrder, Precedes, WithChildren, Forest.WellFormed;
    if i > 0 {
      var kid, rest := f.Children(n)[i - 1], PrecedingTo(f, n, i - 1);
      ChildRank(f, n, i - 1);
      KidIsBelow(f, n, kid);
      BelowIsTransitive(f, root, n, kid);
      BlockIncreases(f, root, kid);
      PrecedingToBackwards(f, root, n, i - 1);
      forall x, z | x in WithChildren(f, kid) && z in rest ensures Precedes(DocOrder(f, root), z, x) {
        WithChildrenBelow(f, kid, x);
        var j := PrecedingToBelow(f, n, i - 1, z);
        KidsInOrder(f, root, n, j, i - 1);
      }
      hide Backwards;
      BackwardsConcat(f, DocOrder(f, root), kid, rest);
    }
  }

  /** The preceding axis runs backwards over the siblings, each followed by its element children. */
  lemma PrecedingIsBackwards(f: Forest, l: map<TiXmlNode, Link>, root: TiXmlNode, n: TiXmlNode)
    requires WholeTree(f, l, root) && n in f.Nodes()
    ensures Backwards(f, DocOrder(f, root), Preceding(f, l, root, n))
  {
    hide LinkedBy, Below, DocOrder, Precedes, PrecedingTo, OwnRings, IsTree, WithChildren;
    if n != root {
      ParentInside(f, l, root, n);
      RootInside(l, f, root);
      AllBelowRoot(f, l, root, l[n].parent);
      PrecedingToBackwards(f, root, l[n].parent, PlaceOf(f.Children(l[n].parent), n));
    }
  }
}
