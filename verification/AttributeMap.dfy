/** An attribute list as an insertion-ordered map from names to values. */
module AttributeMap {
  import opened XmlTree

  predicate Named(contents: seq<Attribute>, name: string) {
    exists i :: 0 <= i < |contents| && contents[i].name == name
  }

  ghost predicate UniqueNames(contents: seq<Attribute>) {
    forall i, j :: 0 <= i < j < |contents| ==> contents[i].name != contents[j].name
  }

  lemma NotNamed(contents: seq<Attribute>, name: string)
    requires forall i :: 0 <= i < |contents| ==> contents[i].name != name
    ensures !Named(contents, name)
  {
  }

  /** Overwrites in place, or appends. */
  function Put(contents: seq<Attribute>, name: string, value: string): (r: seq<Attribute>) {
    if contents == [] then [Attribute(name, value)]
    else if contents[0].name == name then [Attribute(name, value)] + contents[1..]
    else [contents[0]] + Put(contents[1..], name, value)
  }

  function Drop(contents: seq<Attribute>, name: string): seq<Attribute> {
    if contents == [] then []
    else if contents[0].name == name then contents[1..]
    else [contents[0]] + Drop(contents[1..], name)
  }

  /** Giving a value to a name that is there keeps all names where they are. */
  lemma PutNamed(contents: seq<Attribute>, name: string, value: string)
    requires Named(contents, name)
    ensures var r := Put(contents, name, value);
            |r| == |contents| && forall i :: 0 <= i < |r| ==> r[i].name == contents[i].name
  {
    hide Put, Named;
    var r := Put(contents, name, value);
    PutKeepsOrder(contents, name, value);
    NamesAreNamed(contents);
    NamesAreNamed(r);
  }

  lemma NamedStep(contents: seq<Attribute>, name: string)
    requires contents != []
    ensures Named(contents, name) <==> contents[0].name == name || Named(contents[1..], name)
  {
    var tail := contents[1..];
    if Named(contents, name) {
      var i :| 0 <= i < |contents| && contents[i].name == name;
      assert i > 0 ==> tail[i - 1].name == name;
    }
    if Named(tail, name) {
      var i :| 0 <= i < |tail| && tail[i].name == name;
      assert contents[i + 1].name == name;
    }
  }

  /** The first value under each name. */
  function AsMap(contents: seq<Attribute>): map<string, string> {
    if contents == [] then map[] else AsMap(contents[1..])[contents[0].name := contents[0].value]
  }

  /** The names in order. */
  function Names(contents: seq<Attribute>): seq<string> {
    if contents == [] then [] else [contents[0].name] + Names(contents[1..])
  }

  lemma {:induction false} AsMapKeys(contents: seq<Attribute>, name: string)
    ensures name in AsMap(contents) <==> Named(contents, name)
  {
    if contents != [] {
      NamedStep(contents, name);
      AsMapKeys(contents[1..], name);
    }
  }

  /** `Put` updates the map. */
  lemma {:induction false} PutUpdates(contents: seq<Attribute>, name: string, value: string)
    ensures AsMap(Put(contents, name, value)) == AsMap(contents)[name := value]
  {
    if contents != [] {
      var r := Put(contents, name, value);
      if contents[0].name == name {
        assert r[1..] == contents[1..];
      } else {
        assert r[1..] == Put(contents[1..], name, value);
        PutUpdates(contents[1..], name, value);
      }
    }
  }

  /** `Put` keeps the insertion order and appends a new name at the end. */
  lemma {:induction false} PutKeepsOrder(contents: seq<Attribute>, name: string, value: string)
    ensures Names(Put(contents, name, value)) == if Named(contents, name) then Names(contents) else Names(contents) + [name]
  {
    if contents != [] {
      NamedStep(contents, name);
      var r := Put(contents, name, value);
      if contents[0].name == name {
        assert r[1..] == contents[1..];
      } else {
        assert r[1..] == Put(contents[1..], name, value);
        PutKeepsOrder(contents[1..], name, value);
        assert [contents[0].name] + (Names(contents[1..]) + [name]) == Names(contents) + [name];
      }
    }
  }

  lemma {:induction false} NamesAreNamed(contents: seq<Attribute>)
    ensures |Names(contents)| == |contents| && forall i :: 0 <= i < |contents| ==> Names(contents)[i] == contents[i].name
  {
    if contents != [] {
      NamesAreNamed(contents[1..]);
    }
  }

  /** Setting an attribute keeps the names unique. */
  lemma PutKeepsUnique(contents: seq<Attribute>, name: string, value: string)
    requires UniqueNames(contents)
    ensures UniqueNames(Put(contents, name, value))
  {
    var r := Put(contents, name, value);
    NamesAreNamed(contents);
    NamesAreNamed(r);
    PutKeepsOrder(contents, name, value);
    forall i, j | 0 <= i < j < |r| ensures r[i].name != r[j].name {
      assert r[i].name == Names(r)[i] && r[j].name == Names(r)[j];
      if j == |contents| {
        assert contents[i].name == Names(contents)[i];
      }
    }
  }

  /** `Drop` removes the name from the map and keeps the order of the others. */
  lemma {:induction false} DropRemoves(contents: seq<Attribute>, name: string)
    requires UniqueNames(contents)
    ensures AsMap(Drop(contents, name)) == AsMap(contents) - {name}
  {
    if contents != [] {
      var tail := contents[1..];
      var r := Drop(contents, name);
      if contents[0].name == name {
        AsMapKeys(tail, name);
        NotNamedInTail(contents);
        assert AsMap(contents) - {name} == AsMap(tail);
      } else {
        assert r[1..] == Drop(tail, name);
        DropRemoves(tail, name);
      }
    }
  }

  lemma NotNamedInTail(contents: seq<Attribute>)
    requires UniqueNames(contents) && contents != []
    ensures !Named(contents[1..], contents[0].name)
  {
  }

  /** Where a name stands, `Drop` cuts out that one place. */
  lemma {:induction false} DropAt(contents: seq<Attribute>, k: nat)
    requires k < |contents| && forall i :: 0 <= i < k ==> contents[i].name != contents[k].name
    ensures Drop(contents, contents[k].name) == contents[..k] + contents[k + 1..]
  {
    if k > 0 {
      DropAt(contents[1..], k - 1);
      assert contents[1..][..k - 1] == contents[1..k] && contents[1..][k..] == contents[k + 1..];
      assert [contents[0]] + contents[1..k] == contents[..k];
    }
  }

  lemma DropKeepsUnique(contents: seq<Attribute>, name: string)
    requires UniqueNames(contents)
    ensures UniqueNames(Drop(contents, name))
  {
    hide Drop;
    if Named(contents, name) {
      var k :| 0 <= k < |contents| && contents[k].name == name;
      DropAt(contents, k);
      UniqueWithout(contents, k);
    } else {
      DropMissing(contents, name);
    }
  }

  lemma UniqueWithout(contents: seq<Attribute>, k: nat)
    requires UniqueNames(contents) && k < |contents|
    ensures UniqueNames(contents[..k] + contents[k + 1..])
  {
    var r := contents[..k] + contents[k + 1..];
    assert forall i :: 0 <= i < |r| ==> r[i] == contents[if i < k then i else i + 1];
  }

  /** Where a name stands, `Put` replaces that one place. */
  lemma {:induction false} PutAt(contents: seq<Attribute>, k: nat, value: string)
    requires k < |contents| && forall i :: 0 <= i < k ==> contents[i].name != contents[k].name
    ensures Put(contents, contents[k].name, value) == contents[k := Attribute(contents[k].name, value)]
  {
    if k > 0 {
      PutAt(contents[1..], k - 1, value);
    }
  }

  lemma {:induction false} PutNew(contents: seq<Attribute>, name: string, value: string)
    requires !Named(contents, name)
    ensures Put(contents, name, value) == contents + [Attribute(name, value)]
  {
    if contents != [] {
      NamedStep(contents, name);
      hide Named;
      PutNew(contents[1..], name, value);
      assert [contents[0]] + (contents[1..] + [Attribute(name, value)]) == contents + [Attribute(name, value)];
    }
  }

  lemma {:induction false} DropMissing(contents: seq<Attribute>, name: string)
    requires !Named(contents, name)
    ensures Drop(contents, name) == contents
  {
    if contents != [] {
      NamedStep(contents, name);
      DropMissing(contents[1..], name);
    }
  }

  // ---- Runs of edits ----

  /** What a caller can do to the attributes of an element. */
  datatype Edit = SetEdit(name: string, value: string) | RemoveEdit(name: string) | ClearEdit

  function Edited(contents: seq<Attribute>, edit: Edit): seq<Attribute> {
    match edit
    case SetEdit(name, value) => Put(contents, name, value)
    case RemoveEdit(name) => Drop(contents, name)
    case ClearEdit => []
  }

  function EditedAll(contents: seq<Attribute>, edits: seq<Edit>): seq<Attribute>
    decreases |edits|
  {
    if edits == [] then contents else EditedAll(Edited(contents, edits[0]), edits[1..])
  }

  /** The same edits on a map. */
  function MapEdited(m: map<string, string>, edit: Edit): map<string, string> {
    match edit
    case SetEdit(name, value) => m[name := value]
    case RemoveEdit(name) => m - {name}
    case ClearEdit => map[]
  }

  function MapEditedAll(m: map<string, string>, edits: seq<Edit>): map<string, string>
    decreases |edits|
  {
    if edits == [] then m else MapEditedAll(MapEdited(m, edits[0]), edits[1..])
  }

  /** The same edits on the order of insertion. */
  function OrderEdited(names: seq<string>, edit: Edit): seq<string> {
    match edit
    case SetEdit(name, _) => if name in names then names else names + [name]
    case RemoveEdit(name) => Without(names, name)
    case ClearEdit => []
  }

  function OrderEditedAll(names: seq<string>, edits: seq<Edit>): seq<string>
    decreases |edits|
  {
    if edits == [] then names else OrderEditedAll(OrderEdited(names, edits[0]), edits[1..])
  }

  function Without(names: seq<string>, name: string): seq<string> {
    if names == [] then [] else (if names[0] == name then [] else [names[0]]) + Without(names[1..], name)
  }

  lemma {:induction false} WithoutMissing(names: seq<string>, name: string)
    requires name !in names
    ensures Without(names, name) == names
  {
    if names != [] {
      WithoutMissing(names[1..], name);
      assert names == [names[0]] + names[1..];
    }
  }

  /** `Drop` leaves the other names in their order. */
  lemma {:induction false} DropKeepsOrder(contents: seq<Attribute>, name: string)
    requires UniqueNames(contents)
    ensures Names(Drop(contents, name)) == Without(Names(contents), name)
  {
    if contents != [] {
      var tail := contents[1..];
      assert Names(contents)[1..] == Names(tail);
      if contents[0].name == name {
        NotNamedInTail(contents);
        NamesAreNamed(tail);
        assert forall i :: 0 <= i < |tail| ==> Names(tail)[i] != name;
        WithoutMissing(Names(tail), name);
        assert [] + Names(tail) == Names(tail);
      } else {
        DropKeepsOrder(tail, name);
        assert Drop(contents, name)[1..] == Drop(tail, name);
      }
    }
  }

  lemma NamedIsInNames(contents: seq<Attribute>, name: string)
    ensures Named(contents, name) <==> name in Names(contents)
  {
    NamesAreNamed(contents);
    if Named(contents, name) {
      var i :| 0 <= i < |contents| && contents[i].name == name;
      assert Names(contents)[i] == name;
    }
  }

  /** One edit keeps the names unique, and is the edit of the map and of the order. */
  lemma EditRefines(contents: seq<Attribute>, edit: Edit)
    requires UniqueNames(contents)
    ensures var r := Edited(contents, edit);
            UniqueNames(r) && AsMap(r) == MapEdited(AsMap(contents), edit) && Names(r) == OrderEdited(Names(contents), edit)
  {
    hide UniqueNames, Put, Drop, AsMap, Named;
    match edit
    case SetEdit(name, value) =>
      PutKeepsUnique(contents, name, value);
      PutUpdates(contents, name, value);
      PutKeepsOrder(contents, name, value);
      NamedIsInNames(contents, name);
    case RemoveEdit(name) =>
      DropKeepsUnique(contents, name);
      DropRemoves(contents, name);
      DropKeepsOrder(contents, name);
    case ClearEdit =>
      NothingIsUnique();
  }

  lemma NothingIsUnique()
    ensures UniqueNames([]) && AsMap([]) == map[]
  {
  }

  /** Over any run of edits the list behaves as an insertion-ordered map with unique names. */
  lemma {:induction false} RunRefines(contents: seq<Attribute>, edits: seq<Edit>)
    requires UniqueNames(contents)
    ensures var r := EditedAll(contents, edits);
            && UniqueNames(r)
            && AsMap(r) == MapEditedAll(AsMap(contents), edits)
            && Names(r) == OrderEditedAll(Names(contents), edits)
    decreases |edits|
  {
    hide UniqueNames, AsMap, Names, Edited, MapEdited, OrderEdited;
    if edits != [] {
      EditRefines(contents, edits[0]);
      RunRefines(Edited(contents, edits[0]), edits[1..]);
    }
  }
}
