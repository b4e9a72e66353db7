/** What `Clone` and `CopyTo` make of a tree. */
module Copying {
  import opened XmlTree
  import opened AttributeMap
  import opened Printing
  import opened AttributeRing

  /** Sets every attribute in turn, by its C strings. */
  function CopyAttributes(copied: seq<Attribute>, attributes: seq<Attribute>): seq<Attribute>
    decreases |attributes|
  {
    if attributes == [] then copied
    else CopyAttributes(Put(copied, CStr(attributes[0].name), CStr(attributes[0].value)), attributes[1..])
  }

  lemma CopyAttributesStep(copied: seq<Attribute>, attributes: seq<Attribute>)
    requires attributes != []
    ensures CopyAttributes(copied, attributes)
         == CopyAttributes(Put(copied, CStr(attributes[0].name), CStr(attributes[0].value)), attributes[1..])
  {
  }

  lemma EmptyIsUnique()
    ensures UniqueNames([])
  {
  }

  lemma CopyAttributesDone(copied: seq<Attribute>)
    ensures CopyAttributes(copied, []) == copied
  {
  }

  function CopyTree(t: Tree): Tree
    decreases t, 0
  {
    match t
    case Element(name, attributes, children) =>
      Element(CStr(name), CopyAttributes([], Visible(attributes)), CopyTrees(children))
    case Text(value, cdata) => Text(CStr(value), cdata)
    case Comment(value) => Comment(CStr(value))
    case Unknown(value) => Unknown(CStr(value))
    case Declaration(_, _, _) => t
    case Document(name, children) => Document(CStr(name), CopyTrees(children))
  }

  /** The copies of all nodes but documents, which `LinkEndChild` refuses. */
  function CopyTrees(ts: seq<Tree>): (r: seq<Tree>)
    ensures |r| <= |ts|
    decreases ts, 0
  {
    if ts == [] then [] else (if ts[0].Document? then [] else [CopyTree(ts[0])]) + CopyTrees(ts[1..])
  }

  lemma NothingCopied()
    ensures CopyTrees([]) == []
  {
  }

  /** One more child. */
  lemma {:induction false} CopyTreesAppend(ts: seq<Tree>, t: Tree)
    ensures CopyTrees(ts + [t]) == CopyTrees(ts) + if t.Document? then [] else [CopyTree(t)]
    decreases |ts|
  {
    hide CopyTree;
    var all := ts + [t];
    if ts == [] {
      assert all[1..] == [];
    } else {
      assert all[0] == ts[0] && all[1..] == ts[1..] + [t];
      CopyTreesAppend(ts[1..], t);
    }
  }

  /** The trees a copy equals: no NUL in a string that is copied through `c_str`, no attribute
      behind the first that looks like the sentinel, no name twice, and no document below. */
  ghost predicate Copyable(t: Tree) {
    match t
    case Element(name, attributes, children) =>
      '\0' !in name && CopyableAttributes(attributes) && forall c :: c in children ==> !c.Document? && Copyable(c)
    case Text(value, _) => '\0' !in value
    case Comment(value) => '\0' !in value
    case Unknown(value) => '\0' !in value
    case Declaration(_, _, _) => true
    case Document(name, children) => '\0' !in name && forall c :: c in children ==> !c.Document? && Copyable(c)
  }

  ghost predicate CopyableAttributes(attributes: seq<Attribute>) {
    && (forall i :: 0 <= i < |attributes| ==> '\0' !in attributes[i].name && '\0' !in attributes[i].value)
    && UniqueNames(attributes)
    && forall i :: 1 <= i < |attributes| ==> !LooksLikeSentinel(attributes[i])
  }

  ghost predicate NulFree(attributes: seq<Attribute>) {
    forall i :: 0 <= i < |attributes| ==> '\0' !in attributes[i].name && '\0' !in attributes[i].value
  }

  lemma {:induction false} PutShape(copied: seq<Attribute>, name: string, value: string)
    requires NulFree(copied) && '\0' !in name && '\0' !in value
    ensures NulFree(Put(copied, name, value)) && |Put(copied, name, value)| <= |copied| + 1
  {
    if copied != [] && copied[0].name != name {
      PutShape(copied[1..], name, value);
      var r := Put(copied, name, value);
      assert r == [copied[0]] + Put(copied[1..], name, value);
    }
  }

  lemma {:induction false} CopyAttributesShape(copied: seq<Attribute>, attributes: seq<Attribute>)
    requires NulFree(copied) && UniqueNames(copied)
    ensures var r := CopyAttributes(copied, attributes);
            NulFree(r) && UniqueNames(r) && |r| <= |copied| + |attributes|
    decreases |attributes|
  {
    if attributes != [] {
      var name, value := CStr(attributes[0].name), CStr(attributes[0].value);
      PutShape(copied, name, value);
      PutKeepsUnique(copied, name, value);
      CopyAttributesShape(Put(copied, name, value), attributes[1..]);
    }
  }

  lemma {:induction false} CopyAttributesAppends(copied: seq<Attribute>, attributes: seq<Attribute>)
    requires NulFree(attributes) && UniqueNames(copied + attributes)
    ensures CopyAttributes(copied, attributes) == copied + attributes
    decreases |attributes|
  {
    if attributes == [] {
      assert copied + attributes == copied;
    } else {
      var a := attributes[0];
      assert (copied + attributes)[|copied|] == a;
      assert forall i :: 0 <= i < |copied| ==> (copied + attributes)[i] == copied[i];
      PutNew(copied, a.name, a.value);
      assert (copied + [a]) + attributes[1..] == copied + attributes;
      CopyAttributesAppends(copied + [a], attributes[1..]);
    }
  }

  /** The attributes come out equal exactly when they are copyable. */
  lemma CopiedAttributes(attributes: seq<Attribute>)
    ensures CopyAttributes([], Visible(attributes)) == attributes <==> CopyableAttributes(attributes)
  {
    VisibleAll(attributes);
    CopyAttributesShape([], Visible(attributes));
    if CopyableAttributes(attributes) {
      assert [] + attributes == attributes;
      CopyAttributesAppends([], attributes);
    }
  }

  /** A copy equals the tree exactly when the tree is copyable. */
  lemma {:induction false} CopyIsIdentity(t: Tree)
    ensures CopyTree(t) == t <==> Copyable(t)
    decreases t, 0
  {
    match t
    case Element(name, attributes, children) =>
      CopiedAttributes(attributes);
      CopiesAreIdentity(children);
      CStrFixes(name);
    case Text(value, _) => CStrFixes(value);
    case Comment(value) => CStrFixes(value);
    case Unknown(value) => CStrFixes(value);
    case Declaration(_, _, _) =>
    case Document(name, children) =>
      CopiesAreIdentity(children);
      CStrFixes(name);
  }

  lemma CStrFixes(s: string)
    ensures CStr(s) == s <==> '\0' !in s
  {
  }

  lemma {:induction false} CopiesAreIdentity(ts: seq<Tree>)
    ensures CopyTrees(ts) == ts <==> forall c :: c in ts ==> !c.Document? && Copyable(c)
    decreases ts, 0
  {
    hide CopyTree, Copyable;
    if ts != [] {
      CopyIsIdentity(ts[0]);
      CopiesAreIdentity(ts[1..]);
      CopiedFirst(ts);
      hide CopyTrees;
      assert forall c :: c in ts <==> c == ts[0] || c in ts[1..];
    }
  }

  lemma CopiedFirst(ts: seq<Tree>)
    requires ts != []
    ensures CopyTrees(ts) == ts <==> !ts[0].Document? && CopyTree(ts[0]) == ts[0] && CopyTrees(ts[1..]) == ts[1..]
  {
    hide CopyTree;
    var r := CopyTrees(ts);
    if !ts[0].Document? {
      assert r == [CopyTree(ts[0])] + CopyTrees(ts[1..]);
      assert r[0] == CopyTree(ts[0]) && r[1..] == CopyTrees(ts[1..]);
      assert ts == [ts[0]] + ts[1..];
    }
  }

  // ---- Documents below other nodes ----

  /** No document stands below the node. */
  ghost predicate DocumentFree(t: Tree)
    decreases t, 1
  {
    (t.Element? || t.Document?) ==> NoDocuments(t.children)
  }

  /** No document stands among the nodes or below one. */
  ghost predicate NoDocuments(ts: seq<Tree>)
    decreases ts, 0
  {
    forall c :: c in ts ==> !c.Document? && DocumentFree(c)
  }

  /** A copy never holds a document below it. */
  lemma {:induction false} CopyIsDocumentFree(t: Tree)
    ensures DocumentFree(CopyTree(t)) && (CopyTree(t).Document? <==> t.Document?)
    decreases t, 0
  {
    if t.Element? || t.Document? {
      CopiesAreDocumentFree(t.children);
    }
  }

  lemma {:induction false} CopiesAreDocumentFree(ts: seq<Tree>)
    ensures NoDocuments(CopyTrees(ts))
    decreases ts, 0
  {
    hide CopyTree, DocumentFree;
    if ts != [] {
      CopyIsDocumentFree(ts[0]);
      CopiesAreDocumentFree(ts[1..]);
    }
  }
}
