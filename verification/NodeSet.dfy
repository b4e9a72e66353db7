/** `node_set`: a growable array of members without repetition, with a flag for each. */
module NodeSet {
  import opened Characters
  import opened XmlTree
  import opened Dom
  import opened DocumentOrder
  import opened Axes
  import opened AxisMembers

  /** A member of the set: a node or, when flagged, an attribute. */
  datatype Slot = Slot(member: object?, isAttrib: bool)

  // ---- The set as a sequence ----

  ghost predicate Has(entries: seq<Slot>, member: object?) {
    exists i :: 0 <= i < |entries| && entries[i].member == member
  }

  /** Adds at the end what is not there yet. */
  ghost function Added(entries: seq<Slot>, member: object?, isAttrib: bool): seq<Slot> {
    if Has(entries, member) then entries else entries + [Slot(member, isAttrib)]
  }

  /** Any run of adds. */
  ghost function AddedAll(entries: seq<Slot>, adds: seq<Slot>): seq<Slot>
    decreases |adds|
  {
    if adds == [] then entries else AddedAll(Added(entries, adds[0].member, adds[0].isAttrib), adds[1..])
  }

  ghost predicate DistinctMembers(entries: seq<Slot>) {
    forall i, j :: 0 <= i < j < |entries| ==> entries[i].member != entries[j].member
  }

  lemma HasAdded(entries: seq<Slot>, member: object?, isAttrib: bool, m: object?)
    ensures Has(Added(entries, member, isAttrib), m) <==> Has(entries, m) || m == member
  {
    var r := Added(entries, member, isAttrib);
    if Has(entries, m) {
      var i :| 0 <= i < |entries| && entries[i].member == m;
      assert r[i].member == m;
    }
    if !Has(entries, member) {
      assert r[|entries|].member == member;
    }
  }

  /** Every run of adds keeps what was there in place, keeps the members distinct, and ends with
      exactly the members there were and those added. */
  lemma {:induction false} AddsKeep(entries: seq<Slot>, adds: seq<Slot>, m: object?)
    requires DistinctMembers(entries)
    ensures var r := AddedAll(entries, adds);
            entries <= r && DistinctMembers(r) && (Has(r, m) <==> Has(entries, m) || Has(adds, m))
    decreases |adds|
  {
    if adds != [] {
      var next := Added(entries, adds[0].member, adds[0].isAttrib);
      DistinctAdded(entries, adds[0].member, adds[0].isAttrib);
      HasAdded(entries, adds[0].member, adds[0].isAttrib, m);
      AddsKeep(next, adds[1..], m);
      HasStep(adds, m);
    }
  }

  lemma HasStep(adds: seq<Slot>, m: object?)
    requires adds != []
    ensures Has(adds, m) <==> adds[0].member == m || Has(adds[1..], m)
  {
    var tail := adds[1..];
    if Has(adds, m) {
      var i :| 0 <= i < |adds| && adds[i].member == m;
      assert i > 0 ==> tail[i - 1].member == m;
    }
    if Has(tail, m) {
      var i :| 0 <= i < |tail| && tail[i].member == m;
      assert adds[i + 1].member == m;
    }
  }

  lemma DistinctAdded(entries: seq<Slot>, member: object?, isAttrib: bool)
    requires DistinctMembers(entries)
    ensures DistinctMembers(Added(entries, member, isAttrib)) && entries <= Added(entries, member, isAttrib)
  {
  }

  /** The first adds of the members, in the order they were made. */
  ghost function FirstAdds(adds: seq<Slot>): seq<Slot> {
    if adds == [] then []
    else
      var before := adds[..|adds| - 1];
      var last := adds[|adds| - 1];
      if Has(before, last.member) then FirstAdds(before) else FirstAdds(before) + [last]
  }

  lemma {:induction false} FirstAddsHas(adds: seq<Slot>, m: object?)
    ensures Has(FirstAdds(adds), m) <==> Has(adds, m)
  {
    if adds != [] {
      var before, last := adds[..|adds| - 1], adds[|adds| - 1];
      FirstAddsHas(before, m);
      HasAdded(FirstAdds(before), last.member, last.isAttrib, m);
      HasAdded(before, last.member, last.isAttrib, m);
      FirstAddsHas(before, last.member);
      assert before + [last] == adds;
    }
  }

  lemma {:induction false} AddedAllSplits(entries: seq<Slot>, adds: seq<Slot>, last: Slot)
    ensures AddedAll(entries, adds + [last]) == Added(AddedAll(entries, adds), last.member, last.isAttrib)
    decreases |adds|
  {
    var all := adds + [last];
    if adds == [] {
      assert all[1..] == [];
    } else {
      assert all[0] == adds[0] && all[1..] == adds[1..] + [last];
      AddedAllSplits(Added(entries, adds[0].member, adds[0].isAttrib), adds[1..], last);
    }
  }

  /** From the empty set, any run of adds leaves the first add of each member, with its own flag and
      in the order they were made. */
  lemma {:induction false} AddsAreFirstAdds(adds: seq<Slot>)
    ensures AddedAll([], adds) == FirstAdds(adds)
    decreases |adds|
  {
    if adds != [] {
      var before, last := adds[..|adds| - 1], adds[|adds| - 1];
      assert before + [last] == adds;
      AddsAreFirstAdds(before);
      AddedAllSplits([], before, last);
      FirstAddsHas(before, last.member);
    }
  }

  // ---- The arrays ----

  class NodeSet {
    var count: nat
    var members: array?<object?>
    var flags: array?<bool>

    constructor ()
      ensures Valid() && Entries() == []
    {
      count := 0;
      members, flags := null, null;
    }

    /** An empty set has no arrays; another has them at its size. */
    ghost predicate Valid()
      reads this
    {
      if count == 0 then members == null && flags == null
      else members != null && flags != null && members.Length == count && flags.Length == count
    }

    ghost function Entries(): (r: seq<Slot>)
      requires Valid()
      reads this, members, flags
      ensures |r| == count && forall i :: 0 <= i < count ==> r[i] == Slot(members[i], flags[i])
    {
      seq(count, i requires 0 <= i < count && Valid() reads this, members, flags => Slot(members[i], flags[i]))
    }

    /** The assignment operator: arrays of its own with the same members. */
    method CopyFrom(other: NodeSet)
      requires other.Valid()
      modifies this
      ensures Valid() && Entries() == old(other.Entries())
      ensures members != null ==> fresh(members) && fresh(flags)
    {
      ghost var was := other.Entries();
      var otherMembers, otherFlags := other.members, other.flags;
      count := other.count;
      if count != 0 {
        members := new object?[count](i requires 0 <= i < otherMembers.Length reads otherMembers => otherMembers[i]);
        flags := new bool[count](i requires 0 <= i < otherFlags.Length reads otherFlags => otherFlags[i]);
      } else {
        members, flags := null, null;
      }
      assert forall i :: 0 <= i < count ==> Slot(members[i], flags[i]) == was[i];
    }

    /** `o_exist_in_set`. */
    method ExistInSet(member: object?) returns (found: bool)
      requires Valid()
      ensures found <==> Has(Entries(), member)
    {
      var i := 0;
      while i < count
        invariant 0 <= i <= count && forall j :: 0 <= j < i ==> members[j] != member
      {
        if members[i] == member {
          assert Entries()[i].member == member;
          return true;
        }
        i := i + 1;
      }
      return false;
    }

    /** Copies both arrays into longer ones. */
    method CopyInto(newMembers: array<object?>, newFlags: array<bool>)
      requires Valid() && newMembers.Length == newFlags.Length == count + 1
      requires newMembers != members && newFlags != flags
      modifies newMembers, newFlags
      ensures forall j :: 0 <= j < count ==> newMembers[j] == members[j] && newFlags[j] == flags[j]
    {
      var i := 0;
      while i < count
        invariant 0 <= i <= count
        invariant forall j :: 0 <= j < i ==> newMembers[j] == members[j] && newFlags[j] == flags[j]
      {
        newMembers[i] := members[i];
        newFlags[i] := flags[i];
        i := i + 1;
      }
    }

    /** `v_add_base_in_set`: moves both arrays to new ones that are one longer. */
    method AddBase(member: object?, isAttrib: bool)
      requires Valid()
      modifies this
      ensures Valid() && Entries() == Added(old(Entries()), member, isAttrib)
    {
      hide Has;
      ghost var was := Entries();
      var found := ExistInSet(member);
      if found {
        return;
      }
      var newMembers := new object?[count + 1];
      var newFlags := new bool[count + 1];
      CopyInto(newMembers, newFlags);
      newMembers[count] := member;
      newFlags[count] := isAttrib;
      assert forall j :: 0 <= j < count ==> Slot(newMembers[j], newFlags[j]) == was[j];
      members := newMembers;
      flags := newFlags;
      count := count + 1;
      assert Entries() == was + [Slot(member, isAttrib)];
    }

    // ---- Adding from a tree ----

    /** `v_add_node_in_set`, if the name is asked for; all names when there is none to look up. */
    method AddNodeIfName(node: TiXmlNode, lookup: Option<string>, ghost f: Forest)
      requires Valid() && Intact(f) && IsElement(f, node)
      modifies this
      ensures Valid() && Entries() == AddedNodes(f, old(Entries()), [node], lookup)
    {
      hide Linked, Forest.WellFormed, Added;
      EntryShown(f, node);
      if lookup.None? || CStr(node.value) == CStr(lookup.value) {
        AddBase(node, false);
      }
      assert [node][1..] == [];
    }

    /** `v_copy_node_children`: adds the element children of that name. */
    method CopyNodeChildren(root: TiXmlNode, lookup: Option<string>, ghost f: Forest)
      requires Valid() && Intact(f) && root in f.Nodes()
      modifies this
      ensures Valid() && Entries() == AddedNodes(f, old(Entries()), ElementsFrom(f, root, 0), lookup)
    {
      hide Linked, Shown, Forest.WellFormed, AddedNodes, ElementsFrom;
      ghost var start, whole := Entries(), AddedNodes(f, Entries(), ElementsFrom(f, root, 0), lookup);
      var child;
      ghost var k: nat;
      child, k := FirstChildElement(root, f);
      ElementsSkip(f, root, 0, k);
      while child != null
        invariant Valid() && Intact(f) && k <= |f.Children(root)| && child == (if k < |f.Children(root)| then f.Children(root)[k] else null)
        invariant child != null ==> IsElement(f, child)
        invariant whole == AddedNodes(f, Entries(), ElementsFrom(f, root, k), lookup)
        decreases |f.Children(root)| - k
      {
        ElementsStep(f, root, k);
        AddedNodesConcat(f, Entries(), [child], ElementsFrom(f, root, k + 1), lookup);
        AddNodeIfName(child, lookup, f);
        ghost var next: nat;
        child, next := NextSiblingElement(child, f, root, k);
        ElementsSkip(f, root, k + 1, next);
        k := next;
      }
      ElementsEnd(f, root);
      AddedNothing(f, Entries(), lookup);
    }

    /** `v_copy_selected_node_recursive_no_attrib`: adds the elements of that name below a node. */
    method CopyDescendants(root: TiXmlNode, lookup: Option<string>, ghost f: Forest)
      requires Valid() && Intact(f) && root in f.Nodes()
      modifies this
      ensures Valid() && Entries() == AddedNodes(f, old(Entries()), Descendants(f, root, 0), lookup)
      decreases f.entries[root].rank
    {
      hide Linked, Shown, Forest.WellFormed, AddedNodes, Descendants;
      ghost var whole := AddedNodes(f, Entries(), Descendants(f, root, 0), lookup);
      var child;
      ghost var k: nat;
      child, k := FirstChildElement(root, f);
      DescendantsSkip(f, root, 0, k);
      while child != null
        invariant Valid() && Intact(f) && k <= |f.Children(root)| && child == (if k < |f.Children(root)| then f.Children(root)[k] else null)
        invariant child != null ==> IsElement(f, child)
        invariant whole == AddedNodes(f, Entries(), Descendants(f, root, k), lookup)
        decreases |f.Children(root)| - k
      {
        ChildBelow(f, root, child);
        DescendantsStep(f, Entries(), root, k, lookup);
        AddNodeIfName(child, lookup, f);
        CopyDescendants(child, lookup, f);
        ghost var next: nat;
        child, next := NextSiblingElement(child, f, root, k);
        DescendantsSkip(f, root, k + 1, next);
        k := next;
      }
      DescendantsEnd(f, root);
      AddedNothing(f, Entries(), lookup);
    }

    /** The sibling loop of `v_add_all_foll_node`, from the element child at `k`. */
    method AddWithChildren(start: TiXmlNode?, lookup: Option<string>, ghost f: Forest, ghost p: TiXmlNode, ghost i: nat)
      requires Valid() && Intact(f) && p in f.Nodes() && i <= |f.Children(p)|
      requires start == (if i < |f.Children(p)| then f.Children(p)[i] else null) && (start != null ==> IsElement(f, start))
      modifies this
      ensures Valid() && Entries() == AddedNodes(f, old(Entries()), FollowingFrom(f, p, i), lookup)
    {
      hide Linked, Shown, Forest.WellFormed, AddedNodes, FollowingFrom;
      ghost var whole := AddedNodes(f, Entries(), FollowingFrom(f, p, i), lookup);
      var ptr := start;
      ghost var k := i;
      while ptr != null
        invariant Valid() && Intact(f) && k <= |f.Children(p)| && ptr == (if k < |f.Children(p)| then f.Children(p)[k] else null)
        invariant ptr != null ==> IsElement(f, ptr)
        invariant whole == AddedNodes(f, Entries(), FollowingFrom(f, p, k), lookup)
        decreases |f.Children(p)| - k
      {
        ChildBelow(f, p, ptr);
        FollowingStep(f, Entries(), p, k, lookup);
        AddNodeIfName(ptr, lookup, f);
        CopyNodeChildren(ptr, lookup, f);
        ghost var next: nat;
        ptr, next := NextSiblingElement(ptr, f, p, k);
        FollowingSkip(f, p, k + 1, next);
        k := next;
      }
      FollowingEnd(f, p);
      AddedNothing(f, Entries(), lookup);
    }

    /** `v_add_all_foll_node`: the following elements, by name or "*". */
    method AddAllFollowing(node: TiXmlNode, name: string, ghost f: Forest, ghost root: TiXmlNode)
      requires Valid() && Intact(f) && node in f.Nodes() && WholeTree(f, Links(f.Nodes()), root)
      modifies this
      ensures Valid() && Entries() == AddedNodes(f, old(Entries()), Following(f, Links(f.Nodes()), root, node), Lookup(name))
      ensures FollowingAdded(f, node, name, old(Entries()), Entries())
      decreases f.top - f.entries[node].rank
    {
      hide Linked, Shown, Forest.WellFormed, Forest.RingsApart, AddedNodes, FollowingFrom, WholeTree, Following, Links,
        FollowingAdded;
      ghost var l, start := Links(f.Nodes()), Entries();
      AllFollowingAdded(f, l, root, node, start, name);
      var lookup := Lookup(name);
      if node.parent == null {
        // The root has no siblings either.
        LoneNode(f, root, node);
        AddedNothing(f, Entries(), lookup);
        return;
      }
      ghost var p, i := PlaceInTree(f, root, node);
      var ptr;
      ghost var k: nat;
      ptr, k := NextSiblingElement(node, f, p, i);
      FollowingSkip(f, p, i + 1, k);
      AddWithChildren(ptr, lookup, f, p, k);
      var parent := node.parent;
      ElementKind(f, parent);
      FollowingParts(f, root, node, start, lookup);
      if parent.kind == ElementNode {
        AddAllFollowing(parent, name, f, root);
      }
    }

    /** The sibling loop of `v_add_all_prec_node`, backwards from the child before `i`. */
    method AddBackwards(start: TiXmlNode?, lookup: Option<string>, ghost f: Forest, ghost p: TiXmlNode, ghost i: nat)
      requires Valid() && Intact(f) && p in f.Nodes() && i <= |f.Children(p)|
      requires start == if i > 0 then f.Children(p)[i - 1] else null
      modifies this
      ensures Valid() && Entries() == AddedNodes(f, old(Entries()), PrecedingTo(f, p, i), lookup)
    {
      hide Linked, Shown, Forest.WellFormed, Forest.RingsApart, AddedNodes, PrecedingTo;
      ghost var whole := AddedNodes(f, Entries(), PrecedingTo(f, p, i), lookup);
      var ptr := start;
      ghost var k: nat := i;
      while ptr != null
        invariant Valid() && Intact(f) && k <= |f.Children(p)| && ptr == if k > 0 then f.Children(p)[k - 1] else null
        invariant whole == AddedNodes(f, Entries(), PrecedingTo(f, p, k), lookup)
        decreases k
      {
        ChildBelow(f, p, ptr);
        ElementKind(f, ptr);
        PrecedingStep(f, Entries(), p, k, lookup);
        if ptr.kind == ElementNode {
          AddNodeIfName(ptr, lookup, f);
          CopyNodeChildren(ptr, lookup, f);
        }
        ChainAt(f, p, k - 1);
        ptr := ptr.prev;
        k := k - 1;
      }
      PrecedingEnd(f, p);
      AddedNothing(f, Entries(), lookup);
    }

    /** `v_add_all_prec_node`: the preceding elements, by name or "*". */
    method AddAllPreceding(node: TiXmlNode, name: string, ghost f: Forest, ghost root: TiXmlNode)
      requires Valid() && Intact(f) && node in f.Nodes() && WholeTree(f, Links(f.Nodes()), root)
      modifies this
      ensures Valid() && Entries() == AddedNodes(f, old(Entries()), Preceding(f, Links(f.Nodes()), root, node), Lookup(name))
      ensures PrecedingAdded(f, node, name, old(Entries()), Entries())
    {
      hide Linked, Shown, Forest.WellFormed, Forest.RingsApart, AddedNodes, PrecedingTo, WholeTree, Preceding, Links,
        PrecedingAdded;
      AllPrecedingAdded(f, Links(f.Nodes()), root, node, Entries(), name);
      var lookup := Lookup(name);
      if node.parent == null {
        LoneNode(f, root, node);
        AddedNothing(f, Entries(), lookup);
        return;
      }
      ghost var p: TiXmlNode, k: nat;
      p, k := PlaceInTree(f, root, node);
      PrecedingWhole(f, root, node);
      ChainAt(f, p, k);
      AddBackwards(node.prev, lookup, f, p, k);
    }

    /** `v_document_sort`: sorts a list of pairs and writes it back. The library's sort is known by the
        permutation of the places it leads to. */
    method DocumentSort(permutation: seq<nat>)
      requires Valid() && IsPermutation(permutation, count)
      modifies members, flags
      ensures Valid() && Entries() == if count < 2 then old(Entries()) else Permuted(old(Entries()), permutation)
      ensures multiset(Entries()) == multiset(old(Entries()))
    {
      hide IsPermutation;
      ghost var was := Entries();
      if count < 2 {
        assert Entries() == was;
        return;
      }
      PermutedSame(was, permutation);
      InRange(permutation, count);
      var list := new Slot[count](i requires 0 <= i < count && Valid() reads this, members, flags => Slot(members[i], flags[i]));
      ghost var sorted := Permuted(was, permutation);
      WriteBack(list, permutation, sorted);
      assert Entries() == sorted;
    }

    /** The second loop of the sort. */
    method WriteBack(list: array<Slot>, permutation: seq<nat>, ghost sorted: seq<Slot>)
      requires Valid() && count > 0 && |permutation| == |sorted| == count == list.Length
      requires forall i :: 0 <= i < count ==> permutation[i] < count && list[permutation[i]] == sorted[i]
      modifies members, flags
      ensures Valid() && forall i :: 0 <= i < count ==> members[i] == sorted[i].member && flags[i] == sorted[i].isAttrib
    {
      var i := 0;
      while i < count
        invariant 0 <= i <= count && forall j :: 0 <= j < count ==> list[permutation[j]] == sorted[j]
        invariant forall j :: 0 <= j < i ==> members[j] == sorted[j].member && flags[j] == sorted[j].isAttrib
      {
        members[i] := list[permutation[i]].member;
        flags[i] := list[permutation[i]].isAttrib;
        i := i + 1;
      }
    }
  }

  // ---- Walking over elements ----

  /** The first element child. */
  method FirstChildElement(n: TiXmlNode, ghost f: Forest) returns (child: TiXmlNode?, ghost k: nat)
    requires Intact(f) && n in f.Nodes()
    ensures NoElements(f, n, 0, k) && child == if k < |f.Children(n)| then f.Children(n)[k] else null
    ensures child != null ==> IsElement(f, child)
  {
    hide Linked, Shown, Forest.WellFormed;
    ChainAt(f, n, 0);
    child, k := ElementFrom(n.firstChild, f, n, 0);
  }

  /** The next element behind the `i`-th child. */
  method NextSiblingElement(node: TiXmlNode, ghost f: Forest, ghost n: TiXmlNode, ghost i: nat)
    returns (child: TiXmlNode?, ghost k: nat)
    requires Intact(f) && n in f.Nodes() && i < |f.Children(n)| && f.Children(n)[i] == node
    ensures NoElements(f, n, i + 1, k) && child == if k < |f.Children(n)| then f.Children(n)[k] else null
    ensures child != null ==> IsElement(f, child)
  {
    hide Linked, Shown, Forest.WellFormed;
    ChainAt(f, n, i);
    child, k := ElementFrom(node.next, f, n, i + 1);
  }

  /** The loop of both. */
  method ElementFrom(start: TiXmlNode?, ghost f: Forest, ghost n: TiXmlNode, ghost i: nat)
    returns (child: TiXmlNode?, ghost k: nat)
    requires Intact(f) && n in f.Nodes() && i <= |f.Children(n)|
    requires start == if i < |f.Children(n)| then f.Children(n)[i] else null
    ensures NoElements(f, n, i, k) && child == if k < |f.Children(n)| then f.Children(n)[k] else null
    ensures child != null ==> IsElement(f, child)
  {
    hide Linked, Shown, Forest.WellFormed;
    child, k := start, i;
    while child != null
      invariant NoElements(f, n, i, k) && child == if k < |f.Children(n)| then f.Children(n)[k] else null
      decreases |f.Children(n)| - k
    {
      ChildBelow(f, n, child);
      ElementKind(f, child);
      if child.kind == ElementNode {
        return;
      }
      ChainAt(f, n, k);
      child := child.next;
      k := k + 1;
    }
  }

  /** No element stands among the children from `i` to `k`. */
  ghost predicate NoElements(f: Forest, n: TiXmlNode, i: nat, k: nat)
    requires n in f.Nodes()
  {
    i <= k <= |f.Children(n)| && forall j :: i <= j < k ==> !IsElement(f, f.Children(n)[j])
  }

  lemma ElementKind(f: Forest, n: TiXmlNode)
    requires Intact(f) && n in f.Nodes()
    ensures n.kind == ElementNode <==> IsElement(f, n)
  {
    hide Linked, Forest.WellFormed;
    EntryShown(f, n);
  }

  lemma {:induction false} ElementsSkip(f: Forest, n: TiXmlNode, i: nat, k: nat)
    requires n in f.Nodes() && NoElements(f, n, i, k)
    ensures ElementsFrom(f, n, i) == ElementsFrom(f, n, k)
    decreases k - i
  {
    if i < k {
      ElementsSkip(f, n, i + 1, k);
      assert [] + ElementsFrom(f, n, i + 1) == ElementsFrom(f, n, i + 1);
    }
  }

  lemma ElementsStep(f: Forest, n: TiXmlNode, i: nat)
    requires n in f.Nodes() && i < |f.Children(n)| && IsElement(f, f.Children(n)[i])
    ensures ElementsFrom(f, n, i) == [f.Children(n)[i]] + ElementsFrom(f, n, i + 1)
  {
  }

  lemma ElementsEnd(f: Forest, n: TiXmlNode)
    requires n in f.Nodes()
    ensures ElementsFrom(f, n, |f.Children(n)|) == []
  {
  }

  lemma {:induction false} DescendantsSkip(f: Forest, n: TiXmlNode, i: nat, k: nat)
    requires f.WellFormed() && n in f.Nodes() && NoElements(f, n, i, k)
    ensures Descendants(f, n, i) == Descendants(f, n, k)
    decreases k - i
  {
    if i < k {
      DescendantsSkip(f, n, i + 1, k);
      assert [] + Descendants(f, n, i + 1) == Descendants(f, n, i + 1);
    }
  }

  /** Adding the descendants from an element on adds it, what is below it, and then the rest. */
  lemma DescendantsStep(f: Forest, entries: seq<Slot>, n: TiXmlNode, i: nat, lookup: Option<string>)
    requires f.WellFormed() && n in f.Nodes() && i < |f.Children(n)| && IsElement(f, f.Children(n)[i])
    ensures var kid := f.Children(n)[i];
            AddedNodes(f, entries, Descendants(f, n, i), lookup)
            == AddedNodes(f, AddedNodes(f, AddedNodes(f, entries, [kid], lookup), Descendants(f, kid, 0), lookup),
                          Descendants(f, n, i + 1), lookup)
  {
    hide AddedNodes, IsElement;
    var kid := f.Children(n)[i];
    assert f.Sound(n);
    AddedNodesConcat(f, entries, [kid], Descendants(f, kid, 0), lookup);
    AddedNodesConcat(f, entries, [kid] + Descendants(f, kid, 0), Descendants(f, n, i + 1), lookup);
  }

  lemma {:induction false} FollowingSkip(f: Forest, n: TiXmlNode, i: nat, k: nat)
    requires f.WellFormed() && n in f.Nodes() && NoElements(f, n, i, k)
    ensures FollowingFrom(f, n, i) == FollowingFrom(f, n, k)
    decreases k - i
  {
    hide Forest.WellFormed, FollowingFrom, IsElement;
    if i < k {
      SkipOne(f, n, i);
      FollowingSkip(f, n, i + 1, k);
    }
  }

  lemma SkipOne(f: Forest, n: TiXmlNode, i: nat)
    requires f.WellFormed() && n in f.Nodes() && i < |f.Children(n)| && !IsElement(f, f.Children(n)[i])
    ensures FollowingFrom(f, n, i) == FollowingFrom(f, n, i + 1)
  {
    assert f.Sound(n);
    assert [] + FollowingFrom(f, n, i + 1) == FollowingFrom(f, n, i + 1);
  }

  lemma FollowingEnd(f: Forest, n: TiXmlNode)
    requires f.WellFormed() && n in f.Nodes()
    ensures FollowingFrom(f, n, |f.Children(n)|) == []
  {
  }

  lemma FollowingStep(f: Forest, entries: seq<Slot>, n: TiXmlNode, i: nat, lookup: Option<string>)
    requires f.WellFormed() && n in f.Nodes() && i < |f.Children(n)| && IsElement(f, f.Children(n)[i])
    ensures var kid := f.Children(n)[i];
            AddedNodes(f, entries, FollowingFrom(f, n, i), lookup)
            == AddedNodes(f, AddedNodes(f, AddedNodes(f, entries, [kid], lookup), ElementsFrom(f, kid, 0), lookup),
                          FollowingFrom(f, n, i + 1), lookup)
  {
    hide AddedNodes, ElementsFrom;
    var kid := f.Children(n)[i];
    assert f.Sound(n);
    AddedNodesConcat(f, entries, [kid], ElementsFrom(f, kid, 0), lookup);
    AddedNodesConcat(f, entries, [kid] + ElementsFrom(f, kid, 0), FollowingFrom(f, n, i + 1), lookup);
  }

  /** The name to look up; "*" stands for all. */
  function Lookup(name: string): Option<string> {
    if name == "*" then None else Some(name)
  }

  /** A node without parent and neighbour is the root. */
  lemma LoneNode(f: Forest, root: TiXmlNode, n: TiXmlNode)
    requires Intact(f) && n in f.Nodes() && WholeTree(f, Links(f.Nodes()), root) && n.parent == null
    ensures n == root
    ensures Following(f, Links(f.Nodes()), root, n) == [] && Preceding(f, Links(f.Nodes()), root, n) == []
  {
    hide Linked, Shown, LinkedBy;
    var l := Links(f.Nodes());
    assert l[n].parent == n.parent;
    assert n == root;
  }

  /** The parent and the place of any other node. */
  lemma PlaceInTree(f: Forest, root: TiXmlNode, n: TiXmlNode) returns (p: TiXmlNode, k: nat)
    requires Intact(f) && n in f.Nodes() && WholeTree(f, Links(f.Nodes()), root)
    requires n.parent != null
    ensures p in f.Nodes() && n.parent == p && f.entries[n].rank < f.entries[p].rank < f.top && n != root
    ensures k < |f.Children(p)| && f.Children(p)[k] == n && k == PlaceOf(f.Children(p), n)
    ensures Links(f.Nodes())[n].parent == p
  {
    hide Linked, Shown, LinkedBy;
    var l := Links(f.Nodes());
    assert l[n].parent == n.parent && l[n].next == n.next && l[n].prev == n.prev;
    assert n != root;
    ParentInside(f, l, root, n);
    p := n.parent;
    k := PlaceOf(f.Children(p), n);
    assert f.Sound(p);
  }

  lemma FollowingParts(f: Forest, root: TiXmlNode, n: TiXmlNode, entries: seq<Slot>, lookup: Option<string>)
    requires Intact(f) && n in f.Nodes() && WholeTree(f, Links(f.Nodes()), root) && n != root
    ensures var l := Links(f.Nodes());
            n in l && l[n].parent != null && l[n].parent in f.Nodes()
            && var p := l[n].parent;
               n in f.Children(p)
               && var siblings := AddedNodes(f, entries, FollowingFrom(f, p, PlaceOf(f.Children(p), n) + 1), lookup);
                  AddedNodes(f, entries, Following(f, l, root, n), lookup)
                  == if IsElement(f, p) then AddedNodes(f, siblings, Following(f, l, root, p), lookup) else siblings
  {
    hide Intact, LinkedBy, FollowingFrom, AddedNodes, Links;
    var l := Links(f.Nodes());
    ParentInside(f, l, root, n);
    var p := l[n].parent;
    var siblings := FollowingFrom(f, p, PlaceOf(f.Children(p), n) + 1);
    if IsElement(f, p) {
      AddedNodesConcat(f, entries, siblings, Following(f, l, root, p), lookup);
    } else {
      assert siblings + [] == siblings;
    }
  }

  lemma PrecedingWhole(f: Forest, root: TiXmlNode, n: TiXmlNode)
    requires Intact(f) && n in f.Nodes() && WholeTree(f, Links(f.Nodes()), root) && n != root
    ensures var l := Links(f.Nodes());
            n in l && l[n].parent != null && l[n].parent in f.Nodes() && n in f.Children(l[n].parent)
            && PlaceOf(f.Children(l[n].parent), n) <= |f.Children(l[n].parent)|
            && Preceding(f, l, root, n) == PrecedingTo(f, l[n].parent, PlaceOf(f.Children(l[n].parent), n))
  {
    hide Intact, LinkedBy, PrecedingTo, Links;
    ParentInside(f, Links(f.Nodes()), root, n);
  }

  lemma PrecedingEnd(f: Forest, n: TiXmlNode)
    requires f.WellFormed() && n in f.Nodes()
    ensures PrecedingTo(f, n, 0) == []
  {
  }

  lemma PrecedingStep(f: Forest, entries: seq<Slot>, n: TiXmlNode, i: nat, lookup: Option<string>)
    requires f.WellFormed() && n in f.Nodes() && 0 < i <= |f.Children(n)| && f.Children(n)[i - 1] in f.Nodes()
    ensures var kid := f.Children(n)[i - 1];
            var own := if IsElement(f, kid)
                       then AddedNodes(f, AddedNodes(f, entries, [kid], lookup), ElementsFrom(f, kid, 0), lookup) else entries;
            AddedNodes(f, entries, PrecedingTo(f, n, i), lookup) == AddedNodes(f, own, PrecedingTo(f, n, i - 1), lookup)
  {
    hide AddedNodes, ElementsFrom, IsElement;
    var kid := f.Children(n)[i - 1];
    if IsElement(f, kid) {
      AddedNodesConcat(f, entries, [kid], ElementsFrom(f, kid, 0), lookup);
      AddedNodesConcat(f, entries, [kid] + ElementsFrom(f, kid, 0), PrecedingTo(f, n, i - 1), lookup);
    } else {
      assert [] + PrecedingTo(f, n, i - 1) == PrecedingTo(f, n, i - 1);
    }
  }

  /** Adds the nodes of a name one by one. */
  ghost function AddedNodes(f: Forest, entries: seq<Slot>, nodes: seq<TiXmlNode>, lookup: Option<string>): seq<Slot>
    decreases |nodes|
  {
    if nodes == [] then entries
    else AddedNodes(f, if Matches(f, nodes[0], lookup) then Added(entries, nodes[0], false) else entries, nodes[1..], lookup)
  }

  lemma AddedNothing(f: Forest, entries: seq<Slot>, lookup: Option<string>)
    ensures AddedNodes(f, entries, [], lookup) == entries
  {
  }

  lemma {:induction false} AddedNodesConcat(f: Forest, entries: seq<Slot>, a: seq<TiXmlNode>, b: seq<TiXmlNode>,
                                            lookup: Option<string>)
    ensures AddedNodes(f, entries, a + b, lookup) == AddedNodes(f, AddedNodes(f, entries, a, lookup), b, lookup)
    decreases |a|
  {
    hide Added, Matches;
    if a == [] {
      assert a + b == b;
    } else {
      assert (a + b)[0] == a[0] && (a + b)[1..] == a[1..] + b;
      AddedNodesConcat(f, if Matches(f, a[0], lookup) then Added(entries, a[0], false) else entries, a[1..], b, lookup);
    }
  }

  // ---- What the axes leave in an empty set ----

  /** Nodes as members that are no attributes. */
  ghost function AsSlots(nodes: seq<TiXmlNode>): (r: seq<Slot>)
    ensures |r| == |nodes| && forall i :: 0 <= i < |r| ==> r[i] == Slot(nodes[i], false)
  {
    if nodes == [] then [] else [Slot(nodes[0], false)] + AsSlots(nodes[1..])
  }

  lemma {:induction false} AddedNodesAre(f: Forest, entries: seq<Slot>, nodes: seq<TiXmlNode>, lookup: Option<string>)
    ensures AddedNodes(f, entries, nodes, lookup) == AddedAll(entries, AsSlots(Chosen(f, nodes, lookup)))
    decreases |nodes|
  {
    hide Matches, Added;
    if nodes != [] {
      var rest := Chosen(f, nodes[1..], lookup);
      if Matches(f, nodes[0], lookup) {
        AddedNodesAre(f, Added(entries, nodes[0], false), nodes[1..], lookup);
        assert ([nodes[0]] + rest)[1..] == rest;
        assert AsSlots([nodes[0]] + rest)[1..] == AsSlots(rest);
      } else {
        AddedNodesAre(f, entries, nodes[1..], lookup);
        assert [] + rest == rest;
      }
    }
  }

  /** An element of that name, where "*" stands for every name. */
  ghost predicate Named(f: Forest, x: TiXmlNode, name: string) {
    x in f.Nodes() && f.entries[x].data.ElementLabel? && (name == "*" || CStr(f.entries[x].data.name) == CStr(name))
  }

  /** Nodes that are added by name join the members there were; new ones are no attributes. */
  lemma {:induction false} AddedNodesHave(f: Forest, entries: seq<Slot>, nodes: seq<TiXmlNode>, lookup: Option<string>, x: object?)
    ensures var r := AddedNodes(f, entries, nodes, lookup);
            && entries <= r && (forall i :: |entries| <= i < |r| ==> !r[i].isAttrib)
            && (Has(r, x) <==> Has(entries, x) || exists i :: 0 <= i < |nodes| && nodes[i] == x && Matches(f, nodes[i], lookup))
    decreases |nodes|
  {
    hide Matches, Has, Added;
    if nodes != [] {
      var next := if Matches(f, nodes[0], lookup) then Added(entries, nodes[0], false) else entries;
      HasAdded(entries, nodes[0], false, x);
      AddedOne(entries, nodes[0]);
      AddedNodesHave(f, next, nodes[1..], lookup, x);
      FirstOrLater(f, nodes, lookup, x);
    }
  }

  lemma AddedOne(entries: seq<Slot>, n: TiXmlNode)
    ensures var r := Added(entries, n, false); entries <= r && forall i :: |entries| <= i < |r| ==> !r[i].isAttrib
  {
    hide Has;
  }

  lemma FirstOrLater(f: Forest, nodes: seq<TiXmlNode>, lookup: Option<string>, x: object?)
    requires nodes != []
    ensures (exists i :: 0 <= i < |nodes| && nodes[i] == x && Matches(f, nodes[i], lookup)) <==>
            (nodes[0] == x && Matches(f, nodes[0], lookup))
            || exists i :: 0 <= i < |nodes[1..]| && nodes[1..][i] == x && Matches(f, nodes[1..][i], lookup)
  {
    hide Matches;
    var tail := nodes[1..];
    if i :| 0 <= i < |nodes| && nodes[i] == x && Matches(f, nodes[i], lookup) {
      assert i > 0 ==> tail[i - 1] == nodes[i];
    }
    if i :| 0 <= i < |tail| && tail[i] == x && Matches(f, tail[i], lookup) {
      assert nodes[i + 1] == tail[i];
    }
  }

  /** What the following axis leaves in a set, for a name or "*". */
  lemma FollowingSet(f: Forest, l: map<TiXmlNode, Link>, root: TiXmlNode, n: TiXmlNode, entries: seq<Slot>, name: string, x: TiXmlNode)
    requires WholeTree(f, l, root) && n in f.Nodes()
    ensures var r := AddedNodes(f, entries, Following(f, l, root, n), Lookup(name));
            && entries <= r && (forall i :: |entries| <= i < |r| ==> !r[i].isAttrib)
            && (Has(r, x) <==> Has(entries, x) || (FollowsNear(f, n, x) && Named(f, x, name)))
  {
    hide LinkedBy, OwnRings, IsTree, Following, FollowsNear, Has, AddedNodes;
    AddedNodesHave(f, entries, Following(f, l, root, n), Lookup(name), x);
    FollowingIsExact(f, l, root, n, x);
    NearIsElement(f, n, x);
  }

  /** The set has gained exactly the elements of that name on the following axis, and none as an attribute. */
  ghost predicate FollowingAdded(f: Forest, n: TiXmlNode, name: string, entries: seq<Slot>, r: seq<Slot>)
    requires f.WellFormed()
  {
    && entries <= r && (forall i :: |entries| <= i < |r| ==> !r[i].isAttrib)
    && forall x: TiXmlNode {:trigger Has(r, x)} :: x in f.Nodes() ==>
         (Has(r, x) <==> Has(entries, x) || (FollowsNear(f, n, x) && Named(f, x, name)))
  }

  lemma AllFollowingAdded(f: Forest, l: map<TiXmlNode, Link>, root: TiXmlNode, n: TiXmlNode, entries: seq<Slot>, name: string)
    requires WholeTree(f, l, root) && n in f.Nodes()
    ensures FollowingAdded(f, n, name, entries, AddedNodes(f, entries, Following(f, l, root, n), Lookup(name)))
  {
    hide LinkedBy, OwnRings, IsTree, Following, FollowsNear, Has, AddedNodes, Named;
    FollowingSet(f, l, root, n, entries, name, n);
    forall x | x in f.Nodes()
      ensures var r := AddedNodes(f, entries, Following(f, l, root, n), Lookup(name));
              Has(r, x) <==> Has(entries, x) || (FollowsNear(f, n, x) && Named(f, x, name))
    {
      FollowingSet(f, l, root, n, entries, name, x);
    }
  }

  lemma NearIsElement(f: Forest, n: TiXmlNode, x: TiXmlNode)
    requires f.WellFormed()
    ensures FollowsNear(f, n, x) || PrecedesNear(f, n, x) ==> IsElement(f, x)
  {
    hide LaterSibling, UpThroughElements;
  }

  /** What the preceding axis leaves in a set, for a name or "*". */
  lemma PrecedingSet(f: Forest, l: map<TiXmlNode, Link>, root: TiXmlNode, n: TiXmlNode, entries: seq<Slot>, name: string, x: TiXmlNode)
    requires WholeTree(f, l, root) && n in f.Nodes()
    ensures var r := AddedNodes(f, entries, Preceding(f, l, root, n), Lookup(name));
            && entries <= r && (forall i :: |entries| <= i < |r| ==> !r[i].isAttrib)
            && (Has(r, x) <==> Has(entries, x) || (PrecedesNear(f, n, x) && Named(f, x, name)))
  {
    hide LinkedBy, OwnRings, IsTree, Preceding, PrecedesNear, Has, AddedNodes;
    AddedNodesHave(f, entries, Preceding(f, l, root, n), Lookup(name), x);
    PrecedingIsExact(f, l, root, n, x);
    NearIsElement(f, n, x);
  }

  /** The set has gained exactly the elements of that name on the preceding axis, and none as an attribute. */
  ghost predicate PrecedingAdded(f: Forest, n: TiXmlNode, name: string, entries: seq<Slot>, r: seq<Slot>)
    requires f.WellFormed()
  {
    && entries <= r && (forall i :: |entries| <= i < |r| ==> !r[i].isAttrib)
    && forall x: TiXmlNode {:trigger Has(r, x)} :: x in f.Nodes() ==>
         (Has(r, x) <==> Has(entries, x) || (PrecedesNear(f, n, x) && Named(f, x, name)))
  }

  lemma AllPrecedingAdded(f: Forest, l: map<TiXmlNode, Link>, root: TiXmlNode, n: TiXmlNode, entries: seq<Slot>, name: string)
    requires WholeTree(f, l, root) && n in f.Nodes()
    ensures PrecedingAdded(f, n, name, entries, AddedNodes(f, entries, Preceding(f, l, root, n), Lookup(name)))
  {
    hide LinkedBy, OwnRings, IsTree, Preceding, PrecedesNear, Has, AddedNodes, Named;
    PrecedingSet(f, l, root, n, entries, name, n);
    forall x | x in f.Nodes()
      ensures var r := AddedNodes(f, entries, Preceding(f, l, root, n), Lookup(name));
              Has(r, x) <==> Has(entries, x) || (PrecedesNear(f, n, x) && Named(f, x, name))
    {
      PrecedingSet(f, l, root, n, entries, name, x);
    }
  }

  /** What the children and the descendants of a node leave in a set, for a name or for all. */
  lemma ChildrenSet(f: Forest, n: TiXmlNode, entries: seq<Slot>, lookup: Option<string>, x: TiXmlNode)
    requires n in f.Nodes()
    ensures var r := AddedNodes(f, entries, ElementsFrom(f, n, 0), lookup);
            && entries <= r && (forall i :: |entries| <= i < |r| ==> !r[i].isAttrib)
            && (Has(r, x) <==> Has(entries, x) || (x in f.Children(n) && IsElement(f, x) && OfName(f, x, lookup)))
  {
    hide Has, AddedNodes, ElementsFrom;
    AddedNodesHave(f, entries, ElementsFrom(f, n, 0), lookup, x);
    ElementsFromAt(f, n, 0, x);
  }

  lemma DescendantsSet(f: Forest, l: map<TiXmlNode, Link>, root: TiXmlNode, n: TiXmlNode, entries: seq<Slot>, lookup: Option<string>,
                       x: TiXmlNode)
    requires WholeTree(f, l, root) && n in f.Nodes()
    ensures var r := AddedNodes(f, entries, Descendants(f, n, 0), lookup);
            && entries <= r && (forall i :: |entries| <= i < |r| ==> !r[i].isAttrib)
            && (Has(r, x) <==>
                  Has(entries, x) || (x in Below(f, n) && x != n && ThroughElements(f, n, x) && IsElement(f, x) && OfName(f, x, lookup)))
  {
    hide LinkedBy, OwnRings, IsTree, Has, AddedNodes, Descendants, ThroughElements, Below;
    AddedNodesHave(f, entries, Descendants(f, n, 0), lookup, x);
    DescendantsAreExact(f, l, n, x);
    LastIsElement(f, n, x);
  }

  /** The members are the chosen nodes. */
  lemma MembersAreChosen(f: Forest, nodes: seq<TiXmlNode>, lookup: Option<string>, x: TiXmlNode)
    ensures Has(AddedNodes(f, [], nodes, lookup), x) <==> x in nodes && Matches(f, x, lookup)
  {
    hide Matches, Chosen, AddedNodes, AddedAll;
    var chosen := Chosen(f, nodes, lookup);
    AddedNodesAre(f, [], nodes, lookup);
    AddsKeep([], AsSlots(chosen), x);
    ChosenFrom(f, nodes, lookup, x);
    if x in chosen {
      var i :| 0 <= i < |chosen| && chosen[i] == x;
      assert AsSlots(chosen)[i].member == x;
    }
  }

  /** Adding distinct members appends them all. */
  lemma {:induction false} DistinctAdds(entries: seq<Slot>, adds: seq<Slot>)
    requires DistinctMembers(entries + adds)
    ensures AddedAll(entries, adds) == entries + adds
    decreases |adds|
  {
    if adds == [] {
      assert entries + adds == entries;
    } else {
      var all := entries + adds;
      assert all[|entries|] == adds[0];
      assert forall i :: 0 <= i < |entries| ==> all[i] == entries[i];
      assert !Has(entries, adds[0].member);
      assert (entries + [adds[0]]) + adds[1..] == all;
      DistinctAdds(entries + [adds[0]], adds[1..]);
    }
  }

  /** From an empty set, the descendant axis leaves exactly the elements of that name reached through
      elements, each once and in document order. */
  lemma DescendantSet(f: Forest, l: map<TiXmlNode, Link>, root: TiXmlNode, n: TiXmlNode, lookup: Option<string>)
    requires WholeTree(f, l, root) && n in f.Nodes()
    ensures AddedNodes(f, [], Descendants(f, n, 0), lookup) == AsSlots(Chosen(f, Descendants(f, n, 0), lookup))
  {
    hide LinkedBy, IsTree, Forest.WellFormed, Descendants, Chosen, AddedNodes, AddedAll, Matches, AsSlots;
    var r := Chosen(f, Descendants(f, n, 0), lookup);
    AddedNodesAre(f, [], Descendants(f, n, 0), lookup);
    forall i, j | 0 <= i < j < |r| ensures r[i] != r[j] {
      DescendantsDiffer(f, l, root, n, lookup, i, j);
    }
    assert [] + AsSlots(r) == AsSlots(r);
    DistinctAdds([], AsSlots(r));
  }

  lemma DescendantsDiffer(f: Forest, l: map<TiXmlNode, Link>, root: TiXmlNode, n: TiXmlNode, lookup: Option<string>, i: nat, j: nat)
    requires WholeTree(f, l, root) && n in f.Nodes() && i < j < |Chosen(f, Descendants(f, n, 0), lookup)|
    ensures Chosen(f, Descendants(f, n, 0), lookup)[i] != Chosen(f, Descendants(f, n, 0), lookup)[j]
  {
    hide LinkedBy, Descendants, Chosen, CompareIn, DocOrder, Matches, ThroughElements, Below;
    var x := Chosen(f, Descendants(f, n, 0), lookup)[i];
    DescendantsByName(f, l, root, n, lookup, x, i, j);
    SelfIsNotLower(DocOrder(f, root), x);
  }

  /** What the two axes leave in empty sets is disjoint. */
  lemma AxisSetsAreDisjoint(f: Forest, l: map<TiXmlNode, Link>, root: TiXmlNode, n: TiXmlNode, a: string, b: string, x: TiXmlNode)
    requires WholeTree(f, l, root) && n in f.Nodes()
    ensures !(Has(AddedNodes(f, [], Following(f, l, root, n), Lookup(a)), x)
              && Has(AddedNodes(f, [], Preceding(f, l, root, n), Lookup(b)), x))
  {
    hide LinkedBy, Following, Preceding, AddedNodes, Has, Matches;
    MembersAreChosen(f, Following(f, l, root, n), Lookup(a), x);
    MembersAreChosen(f, Preceding(f, l, root, n), Lookup(b), x);
    AxesAreDisjoint(f, l, root, n, x);
  }

  // ---- Sorting ----

  ghost function UpTo(n: nat): (r: seq<nat>)
    ensures |r| == n && forall i :: 0 <= i < n ==> r[i] == i
  {
    if n == 0 then [] else UpTo(n - 1) + [n - 1]
  }

  ghost predicate IsPermutation(p: seq<nat>, n: nat) {
    |p| == n && multiset(p) == multiset(UpTo(n))
  }

  lemma InRange(p: seq<nat>, n: nat)
    requires IsPermutation(p, n)
    ensures forall i :: 0 <= i < n ==> p[i] < n
  {
    forall i | 0 <= i < n ensures p[i] < n {
      assert p[i] in multiset(p);
      assert p[i] in UpTo(n);
    }
  }

  ghost function Permuted(e: seq<Slot>, p: seq<nat>): (r: seq<Slot>)
    requires IsPermutation(p, |e|)
    ensures |r| == |e| && forall i :: 0 <= i < |r| ==> p[i] < |e| && r[i] == e[p[i]]
  {
    InRange(p, |e|);
    seq(|p|, i requires 0 <= i < |p| => e[p[i]])
  }

  /** Taking the last place out of a permutation leaves one of the places before it. */
  lemma LastPlace(p: seq<nat>, n: nat) returns (k: nat)
    requires IsPermutation(p, n + 1)
    ensures k < |p| && p[k] == n && IsPermutation(p[..k] + p[k + 1..], n)
  {
    assert UpTo(n + 1)[n] == n;
    assert n in multiset(UpTo(n + 1));
    assert n in p;
    k :| 0 <= k < |p| && p[k] == n;
    Without(p, k);
    assert UpTo(n + 1) == UpTo(n) + [n];
  }

  /** A permutation of the places keeps every pair of a member and its flag. */
  lemma {:induction false} PermutedSame(e: seq<Slot>, p: seq<nat>)
    requires IsPermutation(p, |e|)
    ensures multiset(Permuted(e, p)) == multiset(e)
    decreases |e|
  {
    hide IsPermutation, Permuted;
    var r := Permuted(e, p);
    if |e| == 0 {
      assert r == e;
    } else {
      var n := |e| - 1;
      var k := LastPlace(p, n);
      var q := p[..k] + p[k + 1..];
      PermutedSame(e[..n], q);
      PlaceLength(p, |e|);
      var t := Permuted(e[..n], q);
      assert t == r[..k] + r[k + 1..];
      WithoutSlot(r, k);
      assert e == e[..n] + [e[n]];
    }
  }

  lemma PlaceLength(p: seq<nat>, n: nat)
    requires IsPermutation(p, n)
    ensures |p| == n
  {
  }

  lemma Without(p: seq<nat>, k: nat)
    requires k < |p|
    ensures multiset(p[..k] + p[k + 1..]) == multiset(p) - multiset{p[k]}
  {
    assert p == p[..k] + [p[k]] + p[k + 1..];
  }

  lemma WithoutSlot(r: seq<Slot>, k: nat)
    requires k < |r|
    ensures multiset(r) == multiset(r[..k] + r[k + 1..]) + multiset{r[k]}
  {
    assert r == r[..k] + [r[k]] + r[k + 1..];
  }

  lemma SelfIsNotLower(order: seq<object>, a: object)
    ensures CompareIn(order, a, a) == Same || CompareIn(order, a, a) == NotFound
  {
    CompareMissing(order, a, a);
    if a in order {
      CompareIsRank(order, a, a);
    }
  }

  /** `i_compare_ptr_2_and_flag`: it passes the first node twice, so that to the sort all are equal. */
  method ComparePtr2AndFlag(root: TiXmlNode?, a: Slot, b: Slot, ghost f: Forest) returns (r: int)
    requires Intact(f) && (root != null ==> root in f.Nodes())
    ensures r == 0
  {
    hide Linked, Shown, Forest.WellFormed, Forest.RingsApart, CompareIn, WalkOrder;
    var order := CompareNodeInTree(root, a.member, a.member, f);
    if root != null && a.member != null {
      SelfIsNotLower(WalkOrder(f, root), a.member);
    }
    r := if order == Lower then -1 else if order == Higher then 1 else 0;
  }

  /** The members stand in document order. */
  ghost predicate InOrder(order: seq<object>, e: seq<Slot>) {
    forall i, j :: 0 <= i < j < |e| ==>
      e[i].member != null && e[j].member != null && CompareIn(order, e[i].member, e[j].member) == Lower
  }

  /** As all are equal to the sort, it may leave them in any permutation. All permutations of members of
      the tree are in document order exactly when there are fewer than two of them. */
  lemma SortMayMisorder(order: seq<object>, e: seq<Slot>)
    requires DistinctMembers(e) && forall i :: 0 <= i < |e| ==> e[i].member != null && e[i].member in order
    ensures (forall p :: IsPermutation(p, |e|) ==> InOrder(order, Permuted(e, p))) <==> |e| < 2
  {
    hide IsPermutation, CompareIn;
    if |e| >= 2 {
      var p, q := UpTo(|e|), UpTo(|e|)[0 := 1][1 := 0];
      SwappedPlaces(|e|);
      var x, y := e[0].member, e[1].member;
      assert Permuted(e, p)[0] == Permuted(e, q)[1] == e[0] && Permuted(e, p)[1] == Permuted(e, q)[0] == e[1];
      RanksAreOrdered(order, x, y, x);
      assert !(InOrder(order, Permuted(e, p)) && InOrder(order, Permuted(e, q)));
    }
  }

  lemma SwappedPlaces(n: nat)
    requires n >= 2
    ensures IsPermutation(UpTo(n), n) && IsPermutation(UpTo(n)[0 := 1][1 := 0], n)
  {
    var p := UpTo(n);
    assert p[0] == 0 && p[1] == 1;
    hide UpTo;
    SwapKeeps(p);
  }

  lemma SwapKeeps(p: seq<nat>)
    requires |p| >= 2 && p[0] == 0 && p[1] == 1
    ensures multiset(p[0 := 1][1 := 0]) == multiset(p)
  {
    var rest := p[2..];
    assert p == [0, 1] + rest && p[0 := 1][1 := 0] == [1, 0] + rest;
    assert multiset([0, 1] + rest) == multiset{0, 1} + multiset(rest);
    assert multiset([1, 0] + rest) == multiset{0, 1} + multiset(rest);
  }
}
