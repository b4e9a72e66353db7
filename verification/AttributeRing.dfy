/** `TiXmlAttributeSet`: a circular list of attributes through a sentinel. The ring of real
    attributes is passed to the methods as a ghost sequence. */
module AttributeRing {
  import opened XmlTree
  import opened Printing
  import opened AttributeMap
  import opened Rings

  class TiXmlAttribute {
    var name: string
    var value: string
    var prev: TiXmlAttribute?
    var next: TiXmlAttribute?

    constructor (name: string, value: string)
      ensures this.name == name && this.value == value && prev == null && next == null
    {
      this.name := name;
      this.value := value;
      prev := null;
      next := null;
    }

    ghost function Content(): Attribute
      reads this
    {
      Attribute(name, value)
    }

    /** Recognises the sentinel by its empty name and value. */
    function Next(): TiXmlAttribute?
      requires next != null
      reads this, next
    {
      if next.value == "" && next.name == "" then null else next
    }
  }

  ghost function Contents(ring: seq<TiXmlAttribute>): (r: seq<Attribute>)
    reads ring
    ensures |r| == |ring| && forall i :: 0 <= i < |r| ==> r[i] == ring[i].Content()
  {
    if ring == [] then [] else [ring[0].Content()] + Contents(ring[1..])
  }

  lemma ContentsAre(ring: seq<TiXmlAttribute>, contents: seq<Attribute>)
    requires |contents| == |ring| && forall i {:trigger contents[i]} :: 0 <= i < |ring| ==> contents[i] == ring[i].Content()
    ensures Contents(ring) == contents
  {
    hide Contents;
  }

  lemma OnlyPlace(ring: seq<TiXmlAttribute>, k: nat)
    requires Distinct(ring) && k < |ring|
    ensures forall i {:trigger ring[i]} :: 0 <= i < |ring| && i != k ==> ring[i] != ring[k]
  {
  }

  lemma ContentsWithout(ring: seq<TiXmlAttribute>, before: seq<Attribute>, k: nat)
    requires k < |ring| == |before| && forall i :: 0 <= i < |ring| ==> ring[i].Content() == before[i]
    ensures Contents(ring[..k] + ring[k + 1..]) == before[..k] + before[k + 1..]
  {
    hide Contents;
    var r, b := ring[..k] + ring[k + 1..], before[..k] + before[k + 1..];
    assert forall i :: 0 <= i < |r| ==> r[i] == ring[if i < k then i else i + 1] && b[i] == before[if i < k then i else i + 1];
  }

  // ---- The ring ----

  class TiXmlAttributeSet {
    const sentinel: TiXmlAttribute

    constructor ()
      ensures fresh(this) && fresh(sentinel) && IsRing([])
    {
      sentinel := new TiXmlAttribute("", "");
      new;
      sentinel.next := sentinel;
      sentinel.prev := sentinel;
    }

    /** The nodes from the sentinel around to the sentinel are linked both ways, and only the
        sentinel is nameless by construction. */
    ghost predicate IsRing(ring: seq<TiXmlAttribute>)
      reads sentinel, ring
    {
      var c := Cycle(sentinel, ring);
      && sentinel !in ring && Distinct(ring)
      && sentinel.name == "" && sentinel.value == ""
      && (forall i {:trigger c[i].next} :: 0 <= i < |c| - 1 ==> c[i].next == c[i + 1])
      && (forall i {:trigger c[i].prev} :: 0 < i < |c| ==> c[i].prev == c[i - 1])
    }

    /** The set's ring and what it holds, as one state. */
    ghost predicate Holds(ring: seq<TiXmlAttribute>, contents: seq<Attribute>)
      reads sentinel, ring
    {
      IsRing(ring) && Contents(ring) == contents
    }

    /** What every walk over the ring relies on. */
    lemma RingLinks(ring: seq<TiXmlAttribute>, i: nat)
      requires IsRing(ring) && i <= |ring|
      ensures i < |ring| ==> ring[i].next == (if i + 1 < |ring| then ring[i + 1] else sentinel)
      ensures i < |ring| ==> ring[i].prev == (if i > 0 then ring[i - 1] else sentinel)
      ensures sentinel.name == "" && sentinel.value == ""
      ensures sentinel.next == (if ring != [] then ring[0] else sentinel)
      ensures sentinel.prev == (if ring != [] then ring[|ring| - 1] else sentinel)
    {
      var c := Cycle(sentinel, ring);
      assert c[0] == sentinel && c[|ring| + 1] == sentinel;
      assert forall j :: 0 <= j < |ring| ==> c[j + 1] == ring[j];
      assert c[0].next == c[1] && c[|ring| + 1].prev == c[|ring|];
      if i < |ring| {
        assert c[i + 1].next == c[i + 2] && c[i + 1].prev == c[i];
      }
    }

    function First(): TiXmlAttribute?
      reads sentinel
    {
      if sentinel.next == sentinel then null else sentinel.next
    }

    function Last(): TiXmlAttribute?
      reads sentinel
    {
      if sentinel.prev == sentinel then null else sentinel.prev
    }

    lemma Ends(ring: seq<TiXmlAttribute>)
      requires IsRing(ring)
      ensures First() == if ring == [] then null else ring[0]
      ensures Last() == if ring == [] then null else ring[|ring| - 1]
    {
      RingLinks(ring, 0);
    }

    /** The first attribute of that name. */
    method Find(name: string, ghost ring: seq<TiXmlAttribute>) returns (r: TiXmlAttribute?, ghost k: nat)
      requires IsRing(ring)
      ensures k <= |ring| && forall i :: 0 <= i < k ==> ring[i].name != name
      ensures r == null ==> k == |ring|
      ensures r != null ==> k < |ring| && r == ring[k] && r.name == name
    {
      k := 0;
      RingLinks(ring, 0);
      var node := sentinel.next;
      while node != sentinel
        invariant k <= |ring| && node == (if k < |ring| then ring[k] else sentinel)
        invariant forall i :: 0 <= i < k ==> ring[i].name != name
        decreases |ring| - k
      {
        if node.name == name {
          return node, k;
        }
        RingLinks(ring, k);
        node := node.next;
        k := k + 1;
      }
      return null, |ring|;
    }

    /** Links an attribute in before the sentinel. */
    method Add(addMe: TiXmlAttribute, ghost ring: seq<TiXmlAttribute>)
      requires IsRing(ring) && addMe !in ring && addMe != sentinel
      requires !Named(Contents(ring), addMe.name)
      modifies addMe`next, addMe`prev, sentinel`next, sentinel`prev, ring`next
      ensures IsRing(ring + [addMe])
      ensures forall a :: a in ring ==> a.Content() == old(a.Content())
    {
      ghost var n, c, d := |ring|, Cycle(sentinel, ring), Cycle(sentinel, ring + [addMe]);
      RingLinks(ring, 0);
      CycleDistinct(ring);
      assert c[n] == sentinel.prev;
      CycleAppended(ring, addMe);
      hide IsRing, Contents, Cycle, Distinct;
      AddLinks(addMe, ring, c);
      RingFrom(ring + [addMe]);
    }

    lemma CycleAppended(ring: seq<TiXmlAttribute>, addMe: TiXmlAttribute)
      requires sentinel !in ring && Distinct(ring) && addMe != sentinel && addMe !in ring
      ensures sentinel !in ring + [addMe] && Distinct(ring + [addMe])
      ensures var n, c, d := |ring|, Cycle(sentinel, ring), Cycle(sentinel, ring + [addMe]);
              && |d| == n + 3 && (forall i :: 0 <= i <= n ==> d[i] == c[i])
              && d[n + 1] == addMe && d[n + 2] == sentinel
    {
    }

    /** The pointer work of `Add`. */
    method AddLinks(addMe: TiXmlAttribute, ghost ring: seq<TiXmlAttribute>, ghost c: seq<TiXmlAttribute>)
      requires addMe !in ring && addMe != sentinel && |c| == |ring| + 2 && sentinel.prev == c[|ring|]
      requires forall i :: 0 <= i <= |ring| ==> c[i] == sentinel || c[i] in ring
      requires forall i, j :: 0 <= i < j <= |ring| ==> c[i] != c[j]
      requires c[0] == c[|ring| + 1] == sentinel
      modifies addMe`next, addMe`prev, sentinel`next, sentinel`prev, ring`next
      ensures addMe.next == sentinel && addMe.prev == c[|ring|] && c[|ring|].next == addMe && sentinel.prev == addMe
      ensures forall i {:trigger c[i].next} :: 0 <= i < |ring| ==> c[i].next == old(c[i].next)
      ensures forall i {:trigger c[i].prev} :: 0 < i <= |ring| ==> c[i].prev == old(c[i].prev)
    {
      addMe.next := sentinel;
      addMe.prev := sentinel.prev;
      sentinel.prev.next := addMe;
      sentinel.prev := addMe;
    }

    /** The nodes around the ring differ, and each knows its neighbours. */
    lemma CycleDistinct(ring: seq<TiXmlAttribute>)
      requires IsRing(ring)
      ensures var c := Cycle(sentinel, ring);
              && |c| == |ring| + 2 && c[0] == c[|ring| + 1] == sentinel
              && (forall i :: 0 <= i <= |ring| ==> c[i] == sentinel || c[i] in ring)
              && (forall i, j :: 0 <= i < j <= |ring| ==> c[i] != c[j])
              && (forall i {:trigger c[i].next} :: 0 <= i < |c| - 1 ==> c[i].next == c[i + 1])
              && (forall i {:trigger c[i].prev} :: 0 < i < |c| ==> c[i].prev == c[i - 1])
      ensures sentinel !in ring && Distinct(ring) && sentinel.name == "" && sentinel.value == ""
    {
      var c := Cycle(sentinel, ring);
      assert forall i :: 0 <= i < |ring| ==> c[i + 1] == ring[i] && ring[i] in ring;
    }

    lemma RingFrom(ring: seq<TiXmlAttribute>)
      requires sentinel !in ring && Distinct(ring) && sentinel.name == "" && sentinel.value == ""
      requires var c := Cycle(sentinel, ring);
               && (forall i {:trigger c[i].next} :: 0 <= i < |c| - 1 ==> c[i].next == c[i + 1])
               && (forall i {:trigger c[i].prev} :: 0 < i < |c| ==> c[i].prev == c[i - 1])
      ensures IsRing(ring)
    {
    }

    /** Takes a linked attribute out of the ring. */
    method Remove(removeMe: TiXmlAttribute, ghost ring: seq<TiXmlAttribute>, ghost k: nat)
      requires IsRing(ring) && k < |ring| && ring[k] == removeMe
      modifies sentinel`next, sentinel`prev, ring`next, ring`prev
      ensures IsRing(ring[..k] + ring[k + 1..])
      ensures removeMe.next == null && removeMe.prev == null
      ensures forall a :: a in ring ==> a.Content() == old(a.Content())
    {
      RingLinks(ring, 0);
      ghost var i := 0;
      var node := sentinel.next;
      while node != sentinel && node != removeMe
        modifies {}
        invariant i <= k && node == ring[i]
        decreases |ring| - i
      {
        RingLinks(ring, i);
        node := node.next;
        i := i + 1;
      }
      assert i == k;
      Unlink(node, ring, k);
    }

    method Unlink(node: TiXmlAttribute, ghost ring: seq<TiXmlAttribute>, ghost k: nat)
      requires IsRing(ring) && k < |ring| && ring[k] == node
      modifies sentinel`next, sentinel`prev, ring`next, ring`prev
      ensures IsRing(ring[..k] + ring[k + 1..])
      ensures node.next == null && node.prev == null
      ensures forall a :: a in ring ==> a.Content() == old(a.Content())
    {
      ghost var c := Cycle(sentinel, ring);
      ghost var rest := ring[..k] + ring[k + 1..];
      RingLinks(ring, k);
      CycleDistinct(ring);
      assert c[k + 1] == node && node.prev == c[k] && node.next == c[k + 2];
      RingWithout(ring, k);
      hide IsRing, Contents, Cycle, Distinct;
      UnlinkLinks(node, ring, c, k);
      RingFrom(rest);
    }

    lemma RingWithout(ring: seq<TiXmlAttribute>, k: nat)
      requires sentinel !in ring && Distinct(ring) && k < |ring|
      ensures var rest := ring[..k] + ring[k + 1..];
              var c, d := Cycle(sentinel, ring), Cycle(sentinel, rest);
              && sentinel !in rest && Distinct(rest) && |d| == |ring| + 1
              && (forall i :: 0 <= i <= k ==> d[i] == c[i])
              && (forall i :: k < i < |d| ==> d[i] == c[i + 1])
    {
      var rest := ring[..k] + ring[k + 1..];
      assert forall i :: 0 <= i < |rest| ==> rest[i] == ring[if i < k then i else i + 1];
    }

    /** The pointer work of `Remove`. */
    method UnlinkLinks(node: TiXmlAttribute, ghost ring: seq<TiXmlAttribute>, ghost c: seq<TiXmlAttribute>, ghost k: nat)
      requires k < |ring| && |c| == |ring| + 2 && c[0] == c[|ring| + 1] == sentinel && c[k + 1] == node
      requires node.prev == c[k] && node.next == c[k + 2]
      requires forall i :: 0 <= i <= |ring| ==> c[i] == sentinel || c[i] in ring
      requires forall i, j :: 0 <= i < j <= |ring| ==> c[i] != c[j]
      modifies sentinel`next, sentinel`prev, ring`next, ring`prev
      ensures node.next == null && node.prev == null && c[k].next == c[k + 2] && c[k + 2].prev == c[k]
      ensures forall i {:trigger c[i].next} :: 0 <= i <= |ring| && i != k && i != k + 1 ==> c[i].next == old(c[i].next)
      ensures forall i {:trigger c[i].prev} :: 0 < i < |c| && i != k + 1 && i != k + 2 ==> c[i].prev == old(c[i].prev)
    {
      node.prev.next := node.next;
      node.next.prev := node.prev;
      node.next := null;
      node.prev := null;
    }

    method SetValue(node: TiXmlAttribute, value: string, ghost ring: seq<TiXmlAttribute>, ghost k: nat)
      requires IsRing(ring) && k < |ring| && ring[k] == node
      modifies node`value
      ensures IsRing(ring) && Contents(ring) == old(Contents(ring))[k := Attribute(node.name, value)]
    {
      ghost var before := Contents(ring);
      CycleDistinct(ring);
      OnlyPlace(ring, k);
      hide Contents, IsRing, Cycle, Distinct;
      node.value := value;
      RingFrom(ring);
      ContentsAre(ring, before[k := Attribute(node.name, value)]);
    }

    /** `TiXmlElement::SetAttribute`: overwrites the value under the name, or adds it last. */
    method SetAttribute(name: string, value: string, ghost ring: seq<TiXmlAttribute>) returns (ghost ring': seq<TiXmlAttribute>)
      requires IsRing(ring) && UniqueNames(Contents(ring))
      modifies sentinel`next, sentinel`prev, ring`next, ring`value
      ensures IsRing(ring') && Contents(ring') == Put(old(Contents(ring)), name, value)
      ensures UniqueNames(Contents(ring'))
      ensures forall a :: a in ring' ==> a in ring || fresh(a)
      ensures ring <= ring'
    {
      hide Put, Contents, Named, IsRing;
      ghost var before := Contents(ring);
      PutKeepsUnique(before, name, value);
      ghost var k: nat;
      var node;
      node, k := Find(name, ring);
      if node != null {
        SetValue(node, value, ring, k);
        ring' := ring;
        PutAt(before, k, value);
      } else {
        var attrib := new TiXmlAttribute(name, value);
        NotNamed(before, name);
        Add(attrib, ring);
        ring' := ring + [attrib];
        PutNew(before, name, value);
        assert Contents(ring') == before + [Attribute(name, value)];
      }
    }

    /** `TiXmlElement::RemoveAttribute`. */
    method RemoveAttribute(name: string, ghost ring: seq<TiXmlAttribute>) returns (ghost ring': seq<TiXmlAttribute>)
      requires IsRing(ring) && UniqueNames(Contents(ring))
      modifies sentinel`next, sentinel`prev, ring`next, ring`prev
      ensures IsRing(ring') && Contents(ring') == Drop(old(Contents(ring)), name)
      ensures UniqueNames(Contents(ring'))
      ensures forall a :: a in ring' ==> a in ring
    {
      hide Drop, Contents, Named, IsRing;
      ghost var before := Contents(ring);
      ghost var k: nat;
      var node;
      node, k := Find(name, ring);
      DropKeepsUnique(before, name);
      if node != null {
        Remove(node, ring, k);
        ring' := ring[..k] + ring[k + 1..];
        DropAt(before, k);
        ContentsWithout(ring, before, k);
      } else {
        ring' := ring;
        NotNamed(before, name);
        DropMissing(before, name);
      }
    }

    /** The attribute half of `TiXmlElement::ClearThis`: it leaves the state the destructor asserts. */
    method ClearThis(ghost ring: seq<TiXmlAttribute>)
      requires IsRing(ring)
      modifies sentinel`next, sentinel`prev, ring`next, ring`prev
      ensures IsRing([]) && sentinel.next == sentinel && sentinel.prev == sentinel
    {
      hide IsRing, Contents;
      ghost var left := ring;
      Ends(left);
      while First() != null
        invariant IsRing(left) && (First() == null <==> left == [])
        invariant forall i :: 0 <= i < |left| ==> left[i] in ring
        decreases |left|
      {
        Ends(left);
        var node := First();
        Remove(node, left, 0);
        assert left[..0] + left[1..] == left[1..];
        left := left[1..];
        Ends(left);
      }
      RingLinks(left, 0);
    }

    /** One edit by a caller. */
    method EditOnce(edit: Edit, ghost ring: seq<TiXmlAttribute>) returns (ghost ring': seq<TiXmlAttribute>)
      requires IsRing(ring) && UniqueNames(Contents(ring))
      modifies sentinel, ring
      ensures IsRing(ring') && Contents(ring') == Edited(old(Contents(ring)), edit) && UniqueNames(Contents(ring'))
      ensures forall i :: 0 <= i < |ring'| ==> ring'[i] in ring || fresh(ring'[i])
    {
      hide IsRing, Contents, Put, Drop;
      match edit {
        case SetEdit(name, value) =>
          ring' := SetAttribute(name, value, ring);
        case RemoveEdit(name) =>
          ring' := RemoveAttribute(name, ring);
        case ClearEdit =>
          ClearThis(ring);
          ring' := [];
          assert Contents(ring') == [];
      }
    }

    /** Any run of edits by callers. */
    method EditAll(edits: seq<Edit>, ghost ring: seq<TiXmlAttribute>) returns (ghost ring': seq<TiXmlAttribute>)
      requires IsRing(ring) && UniqueNames(Contents(ring))
      modifies sentinel, ring
      ensures IsRing(ring') && Contents(ring') == EditedAll(old(Contents(ring)), edits) && UniqueNames(Contents(ring'))
    {
      hide IsRing, Contents, Edited;
      ring' := ring;
      var i := 0;
      assert edits[0..] == edits;
      while i < |edits|
        invariant 0 <= i <= |edits| && IsRing(ring') && UniqueNames(Contents(ring'))
        invariant forall j :: 0 <= j < |ring'| ==> ring'[j] in ring || fresh(ring'[j])
        invariant EditedAll(Contents(ring'), edits[i..]) == EditedAll(old(Contents(ring)), edits)
      {
        assert edits[i..][0] == edits[i] && edits[i..][1..] == edits[i + 1..];
        ring' := EditOnce(edits[i], ring');
        i := i + 1;
      }
      assert edits[i..] == [];
    }

    /** The walk by `First` and `Next` that printing, copying and comparing use: it visits the
        attributes up to the first one behind the head that looks like the sentinel. */
    method Walk(ghost ring: seq<TiXmlAttribute>) returns (visited: seq<TiXmlAttribute>)
      requires IsRing(ring)
      ensures visited <= ring && Contents(visited) == Visible(Contents(ring))
    {
      hide Visible, Contents, IsRing;
      visited := [];
      Ends(ring);
      VisibleEmpty(Contents(ring));
      var attrib := First();
      while attrib != null
        invariant visited <= ring
        invariant attrib == null <==> |visited| == |Visible(Contents(ring))|
        invariant attrib != null ==> |visited| < |ring| && attrib == ring[|visited|]
        invariant |visited| <= |Visible(Contents(ring))|
        decreases |ring| - |visited|
      {
        RingLinks(ring, |visited|);
        VisibleAt(Contents(ring), |visited|);
        visited := visited + [attrib];
        attrib := attrib.Next();
      }
    }
  }

  /** Where the walk stops. */
  lemma {:induction false} VisibleRestAt(contents: seq<Attribute>, i: nat)
    requires i <= |VisibleRest(contents)|
    ensures i == |VisibleRest(contents)| <==> i == |contents| || LooksLikeSentinel(contents[i])
  {
    if contents != [] && !LooksLikeSentinel(contents[0]) && i > 0 {
      VisibleRestAt(contents[1..], i - 1);
    }
  }

  lemma VisibleEmpty(contents: seq<Attribute>)
    ensures Visible(contents) == [] <==> contents == []
  {
  }

  lemma VisibleAt(contents: seq<Attribute>, i: nat)
    requires i < |Visible(contents)|
    ensures i + 1 == |Visible(contents)| <==> i + 1 == |contents| || LooksLikeSentinel(contents[i + 1])
  {
    VisibleRestAt(contents[1..], i);
  }

  lemma {:induction false} VisibleRestAll(contents: seq<Attribute>)
    ensures VisibleRest(contents) == contents <==> forall i :: 0 <= i < |contents| ==> !LooksLikeSentinel(contents[i])
  {
    if contents != [] {
      VisibleRestAll(contents[1..]);
      assert contents == [contents[0]] + contents[1..];
      var tail := contents[1..];
      if forall i :: 0 <= i < |contents| ==> !LooksLikeSentinel(contents[i]) {
        assert forall i :: 0 <= i < |tail| ==> tail[i] == contents[i + 1];
      }
    }
  }

  /** The walk visits every attribute exactly when none behind the first has both an empty name and an empty
      value. */
  lemma VisibleAll(contents: seq<Attribute>)
    ensures Visible(contents) == contents <==> forall i :: 1 <= i < |contents| ==> contents[i].name != "" || contents[i].value != ""
  {
    if contents != [] {
      var tail := contents[1..];
      VisibleRestAll(tail);
      assert contents == [contents[0]] + tail;
      assert forall i :: 0 <= i < |tail| ==> tail[i] == contents[i + 1];
      if forall i :: 0 <= i < |tail| ==> !LooksLikeSentinel(tail[i]) {
        forall i | 1 <= i < |contents| ensures !LooksLikeSentinel(contents[i]) {
          assert contents[i] == tail[i - 1];
        }
      }
    }
  }
}
