/** The trees that survive printing and parsing. */
module NormalForm {
  import opened Characters
  import opened CharacterData
  import opened Condensing
  import opened XmlTree
  import opened AttributeMap
  import opened Grammar

  predicate IsName(n: string) {
    n != "" && IsNameStart(n[0]) && forall i :: 0 <= i < |n| ==> IsNameChar(n[i])
  }

  /** Neighbouring plain texts would be read back as one. */
  ghost predicate NoAdjacentTexts(ts: seq<Tree>) {
    forall i :: 0 <= i < |ts| - 1 ==> !ts[i].IsPlainText() || !ts[i + 1].IsPlainText()
  }

  /** The form every parsed node has. A document holds no plain text, a "</" ends the content of an
      element, and no document stands below another node. */
  ghost predicate WellFormed(t: Tree, top: bool) {
    match t
    case Element(name, attributes, children) =>
      && IsName(name)
      && (forall i :: 0 <= i < |attributes| ==> IsName(attributes[i].name))
      && UniqueNames(attributes)
      && (forall c :: c in children ==> WellFormed(c, false))
      && NoAdjacentTexts(children)
    case Text(value, cdata) =>
      if cdata then !Contains(value, "]]>") else !top && !Blank(value)
    case Comment(value) => !Contains(value, "-->")
    case Unknown(value) =>
      && !Contains(value, ">")
      && Identify("<" + value) == Some(UnknownKind)
      && (top || value == "" || value[0] != '/')
    case Declaration(_, _, _) => true
    case Document(_, _) => false
  }

  /** The values that come back on their own: the printer passes "&#x" through unencoded, shows the
      raw values only up to a NUL, and writes the fields of a declaration without encoding them. */
  ghost predicate Encodable(t: Tree) {
    match t
    case Element(name, attributes, children) =>
      && (forall i :: 0 <= i < |attributes| ==> !HasReference(attributes[i].value))
      && (forall c :: c in children ==> Encodable(c))
    case Text(value, cdata) => if cdata then '\0' !in value else !HasReference(value)
    case Comment(value) => '\0' !in value
    case Unknown(value) => '\0' !in value
    case Declaration(version, encoding, standalone) => Unescaped(version) && Unescaped(encoding) && Unescaped(standalone)
    case Document(_, children) => forall c :: c in children ==> Encodable(c)
  }

  predicate Unescaped(field: string) {
    '"' !in field && '&' !in field && '\0' !in field
  }

  /** Every plain text of the tree with its white space condensed. */
  function CondenseTree(t: Tree): (r: Tree)
    ensures r.IsPlainText() <==> t.IsPlainText()
    decreases t, 0
  {
    match t
    case Element(name, attributes, children) => Element(name, attributes, CondenseTrees(children))
    case Document(name, children) => Document(name, CondenseTrees(children))
    case Text(value, false) => Text(Condensed(value), false)
    case _ => t
  }

  function CondenseTrees(ts: seq<Tree>): (r: seq<Tree>)
    ensures |r| == |ts| && forall i :: 0 <= i < |r| ==> r[i] == CondenseTree(ts[i])
    decreases ts, 0
  {
    if ts == [] then [] else [CondenseTree(ts[0])] + CondenseTrees(ts[1..])
  }

  /** All plain texts are condensed already. */
  ghost predicate TextsCondensed(t: Tree) {
    match t
    case Element(_, _, children) => forall c :: c in children ==> TextsCondensed(c)
    case Document(_, children) => forall c :: c in children ==> TextsCondensed(c)
    case Text(value, cdata) => cdata || IsCondensed(value)
    case _ => true
  }

  // ---- Whole documents ----

  /** A document's children: nodes, but no plain text, and at least one. */
  ghost predicate WellFormedDocument(ts: seq<Tree>) {
    ts != [] && forall c :: c in ts ==> WellFormed(c, true)
  }

  ghost predicate EncodableDocument(ts: seq<Tree>) {
    forall c :: c in ts ==> Encodable(c)
  }

  ghost predicate DocumentCondensed(ts: seq<Tree>) {
    forall c :: c in ts ==> TextsCondensed(c)
  }

  lemma {:induction false} CondenseFixes(t: Tree)
    ensures CondenseTree(t) == t <==> TextsCondensed(t)
    decreases t, 0
  {
    match t
    case Element(_, _, children) =>
      CondenseFixesAll(children);
    case Document(_, children) =>
      CondenseFixesAll(children);
    case Text(value, _) =>
      CondensedFixesExactly(value);
    case _ =>
  }

  lemma {:induction false} CondenseFixesAll(ts: seq<Tree>)
    ensures CondenseTrees(ts) == ts <==> forall c :: c in ts ==> TextsCondensed(c)
    decreases ts, 0
  {
    forall c | c in ts ensures CondenseTree(c) == c <==> TextsCondensed(c) {
      CondenseFixes(c);
    }
    var r := CondenseTrees(ts);
    if forall c :: c in ts ==> TextsCondensed(c) {
      assert forall i :: 0 <= i < |r| ==> r[i] == ts[i];
    } else {
      var c :| c in ts && !TextsCondensed(c);
      var i :| 0 <= i < |ts| && ts[i] == c;
      assert r[i] != ts[i];
    }
  }
}
