/** The main results about printing and parsing documents. */
module Documents {
  import opened Characters
  import opened CharacterData
  import opened Condensing
  import opened XmlTree
  import opened Grammar
  import opened Printing
  import opened NormalForm
  import opened RoundTripNodes
  import opened RoundTripTree
  import opened ParserRange

  lemma ParseNodesStep(s: string, node: Tree, rest: string)
    requires Identify(s).Some? && ParseNode(s) == NodeRead(node, Some(rest), None) && s != ""
    ensures var more := if rest == "" then ContentRead([], None, None) else ParseNodes(DropSpaces(rest));
            ParseNodes(s) == ContentRead([node] + more.children, more.rest, more.error)
  {
    hide ParseNode, Identify;
  }

  /** The first of the printed nodes. */
  lemma FirstNodeRoundTrip(ts: seq<Tree>, f: Format)
    requires f.Blank() && ts != [] && Printable(ts[0], true)
    ensures var rest := f.lineBreak + PrintNodes(ts[1..], f, 0);
            var s := PrintNodes(ts, f, 0);
            s != "" && DropSpaces(s) == s && Identify(s).Some?
            && ParseNode(s) == NodeRead(CondenseTree(ts[0]), Some(rest), None)
  {
    hide ParseNode, Identify, PrintBody, WellFormed, CondenseTree;
    TopIsNotText(ts[0]);
    var rest := f.lineBreak + PrintNodes(ts[1..], f, 0);
    var s := PrintBody(ts[0], f, 0) + rest;
    assert PrintNodes(ts, f, 0) == s by {
      PrintNodesSplit(ts, f, 0, "");
      assert PrintNodes(ts, f, 0) + "" == PrintNodes(ts, f, 0);
      assert PrintNodes(ts[1..], f, 0) + "" == PrintNodes(ts[1..], f, 0);
    }
    BodyStart(ts[0], f, 0, true, rest);
    DropTag(s);
    NodeRoundTrip(ts[0], f, 0, true, rest);
  }

  lemma NoNodesRoundTrip(f: Format)
    ensures ParseNodes(DropSpaces(PrintNodes([], f, 0))) == ContentRead([], Some(""), None)
  {
  }

  lemma {:induction false} NodesRoundTrip(ts: seq<Tree>, f: Format)
    requires f.Blank() && forall c :: c in ts ==> Printable(c, true)
    ensures var d := ParseNodes(DropSpaces(PrintNodes(ts, f, 0)));
            d.children == CondenseTrees(ts) && d.error == None
  {
    hide ParseNode, Identify, PrintNode, Printable, CondenseTree, ParseNodes, DropSpaces, PrintNodes;
    NoNodesRoundTrip(f);
    if ts != [] {
      var printed := PrintNodes(ts[1..], f, 0);
      FirstNodeRoundTrip(ts, f);
      ParseNodesStep(PrintNodes(ts, f, 0), CondenseTree(ts[0]), f.lineBreak + printed);
      DropWhite(f.lineBreak, printed);
      assert forall c :: c in ts[1..] ==> c in ts;
      NodesRoundTrip(ts[1..], f);
      PrintedIsNotEmpty(ts[1..], f);
    }
  }

  lemma TopIsNotText(t: Tree)
    requires WellFormed(t, true)
    ensures !t.IsPlainText() && !t.Document?
  {
  }

  lemma PrintedIsNotEmpty(ts: seq<Tree>, f: Format)
    requires forall c :: c in ts ==> Printable(c, true)
    ensures PrintNodes(ts, f, 0) == "" <==> ts == []
  {
    hide PrintBody, WellFormed;
    if ts != [] {
      assert Printable(ts[0], true);
      TopIsNotText(ts[0]);
      BodyStart(ts[0], f, 0, true, "");
    }
  }

  /** Parsing a printed document gives it back with its texts condensed, without an error,
      whatever white space the printer used for layout. */
  lemma DocumentRoundTrip(ts: seq<Tree>, f: Format)
    requires f.Blank() && WellFormedDocument(ts) && EncodableDocument(ts)
    ensures var d := ParseDocument(PrintDocument(ts, f));
            d.children == CondenseTrees(ts) && d.error == None
  {
    hide ParseNodes, WellFormed, PrintNodes;
    assert forall c :: c in ts ==> Printable(c, true);
    NodesRoundTrip(ts, f);
    PrintedIsNotEmpty(ts, f);
  }

  lemma {:induction false} ParsedNodes(s: string)
    ensures forall c :: c in ParseNodes(s).children ==> WellFormed(c, true)
    decreases |s|
  {
    hide ParseNode, Identify, WellFormed, DropSpaces;
    if s != "" && Identify(s).Some? {
      ParsedNode(s, true);
      var first := ParseNode(s);
      if first.rest.Some? && first.rest.value != "" {
        ParsedNodes(DropSpaces(first.rest.value));
      }
    }
  }

  /** Whatever the text, what the parser builds is well formed. */
  lemma ParsedDocument(s: string)
    ensures forall c :: c in ParseDocument(s).children ==> WellFormed(c, true)
    ensures ParseDocument(s).error == None ==> ParseDocument(s).children != []
  {
    hide ParseNodes, WellFormed;
    ParsedNodes(DropSpaces(s));
  }

  /** A document survives printing and parsing exactly when it is well formed and its texts
      are condensed. */
  lemma DocumentSurvives(ts: seq<Tree>, f: Format)
    requires f.Blank() && EncodableDocument(ts)
    ensures var d := ParseDocument(PrintDocument(ts, f));
            d.children == ts && d.error == None <==> WellFormedDocument(ts) && DocumentCondensed(ts)
  {
    hide ParseDocument, PrintDocument, WellFormed;
    ParsedDocument(PrintDocument(ts, f));
    CondenseFixesAll(ts);
    if WellFormedDocument(ts) {
      DocumentRoundTrip(ts, f);
    }
  }

  /** Two formats lead to the same document, and a second round changes nothing. */
  lemma LayoutDoesNotMatter(ts: seq<Tree>, f: Format, g: Format)
    requires f.Blank() && g.Blank() && WellFormedDocument(ts) && EncodableDocument(ts)
    ensures var once := ParseDocument(PrintDocument(ts, f)).children;
            once == ParseDocument(PrintDocument(ts, g)).children
            && ParseDocument(PrintDocument(once, g)).children == once
  {
    hide ParseDocument, PrintDocument, WellFormed;
    DocumentRoundTrip(ts, f);
    DocumentRoundTrip(ts, g);
    var once := CondenseTrees(ts);
    ParsedDocument(PrintDocument(ts, f));
    CondensedIsCondensed(ts);
    CondensedIsEncodable(ts);
    DocumentSurvives(once, g);
  }

  lemma {:induction false} CondensedIsCondensed(ts: seq<Tree>)
    ensures DocumentCondensed(CondenseTrees(ts))
    decreases ts, 0
  {
    if ts != [] {
      CondensedTreeIsCondensed(ts[0]);
      CondensedIsCondensed(ts[1..]);
    }
  }

  lemma {:induction false} CondensedTreeIsCondensed(t: Tree)
    ensures TextsCondensed(CondenseTree(t))
    decreases t, 0
  {
    match t
    case Element(_, _, children) => CondensedIsCondensed(children);
    case Document(_, children) => CondensedIsCondensed(children);
    case Text(value, _) => CondensedFixesExactly(value);
    case _ =>
  }

  lemma {:induction false} CondensedIsEncodable(ts: seq<Tree>)
    requires EncodableDocument(ts)
    ensures EncodableDocument(CondenseTrees(ts))
    decreases ts, 0
  {
    if ts != [] {
      assert Encodable(ts[0]);
      CondensedTreeIsEncodable(ts[0]);
      assert forall c :: c in ts[1..] ==> c in ts;
      CondensedIsEncodable(ts[1..]);
    }
  }

  lemma {:induction false} CondensedTreeIsEncodable(t: Tree)
    requires Encodable(t)
    ensures Encodable(CondenseTree(t))
    decreases t, 0
  {
    match t
    case Element(_, _, children) => CondensedIsEncodable(children);
    case Document(_, children) => CondensedIsEncodable(children);
    case Text(value, cdata) =>
      if !cdata {
        CondensedReference(value);
      }
    case _ =>
  }
}
