/** The printer and the parser together, on nodes. */
module HeapRoundTrip {
  import opened Characters
  import opened Entities
  import opened CharacterData
  import opened XmlTree
  import opened Printing
  import opened NormalForm
  import opened Errors
  import opened Dom
  import opened Parser
  import opened Printer
  import Documents

  // ---- What is printed is a C string ----

  predicate NoNul(s: string) {
    '\0' !in s
  }

  lemma {:induction false} EncodeHasNoNul(v: string)
    requires !HasReference(v)
    ensures NoNul(Encode(v))
  {
    if v != "" {
      EncodeHasNoNul(v[1..]);
      assert Encode(v) == EncodeChar(v[0]) + Encode(v[1..]);
      assert NoNul(EncodeChar(v[0]));
    }
  }

  lemma NameHasNoReference(n: string)
    requires forall i :: 0 <= i < |n| ==> IsNameChar(n[i])
    ensures !HasReference(n)
  {
    if n != "" {
      NameHasNoReference(n[1..]);
    }
  }

  lemma {:induction false} AttributesHaveNoNul(attributes: seq<Attribute>)
    requires forall i :: 0 <= i < |attributes| ==> IsName(attributes[i].name) && !HasReference(attributes[i].value)
    ensures NoNul(PrintAttributes(attributes))
  {
    if attributes != [] {
      var a := attributes[0];
      NameHasNoReference(a.name);
      EncodeHasNoNul(a.name);
      EncodeHasNoNul(a.value);
      AttributesHaveNoNul(attributes[1..]);
    }
  }

  lemma {:induction false} BlankHasNoNul(f: Format, depth: nat)
    requires f.Blank()
    ensures NoNul(Indent(f, depth)) && NoNul(f.lineBreak)
  {
    assert NoNul(f.indent);
    if depth > 0 {
      BlankHasNoNul(f, depth - 1);
    }
  }

  lemma {:induction false} NodeHasNoNul(t: Tree, f: Format, depth: nat, top: bool)
    requires f.Blank() && WellFormed(t, top) && Encodable(t)
    ensures NoNul(PrintNode(t, f, depth))
    decreases t, 1
  {
    hide WellFormed, Encodable, PrintBody, Indent;
    BlankHasNoNul(f, depth);
    BodyHasNoNul(t, f, depth, top);
  }

  lemma {:induction false} BodyHasNoNul(t: Tree, f: Format, depth: nat, top: bool)
    requires f.Blank() && WellFormed(t, top) && Encodable(t)
    ensures NoNul(PrintBody(t, f, depth))
    decreases t, 0
  {
    hide PrintBody;
    if t.Element? {
      ElementHasNoNul(t, f, depth, top);
    } else {
      hide WellFormed;
      LeafHasNoNul(t, f, depth);
    }
  }

  lemma LeafHasNoNul(t: Tree, f: Format, depth: nat)
    requires !t.Element? && !t.Document? && Encodable(t)
    ensures NoNul(PrintBody(t, f, depth))
  {
    match t
    case Text(value, cdata) =>
      if !cdata {
        EncodeHasNoNul(value);
      }
    case Comment(value) =>
    case Unknown(value) =>
    case Declaration(version, encoding, standalone) =>
      FieldHasNoNul("version", version);
      FieldHasNoNul("encoding", encoding);
      FieldHasNoNul("standalone", standalone);
      hide PrintField;
  }

  lemma FieldHasNoNul(name: string, value: string)
    requires NoNul(name) && NoNul(value)
    ensures NoNul(PrintField(name, value))
  {
  }

  lemma {:induction false} ElementHasNoNul(t: Tree, f: Format, depth: nat, top: bool)
    requires t.Element? && f.Blank() && WellFormed(t, top) && Encodable(t)
    ensures NoNul(PrintBody(t, f, depth))
    decreases t.children, 2
  {
    var Element(name, attributes, children) := t;
    AttributesHaveNoNul(Visible(attributes));
    if IsSimple(children) {
      assert Encodable(children[0]);
      EncodeHasNoNul(children[0].value);
    } else {
      BlankHasNoNul(f, depth);
      NodesHaveNoNul(children, f, depth + 1, false);
    }
    hide WellFormed, Encodable;
    PiecesHaveNoNul(t, f, depth);
  }

  lemma PiecesHaveNoNul(t: Tree, f: Format, depth: nat)
    requires t.Element? && NoNul(PrintAttributes(Visible(t.attributes)))
    requires if IsSimple(t.children) then NoNul(Encode(t.children[0].value))
             else NoNul(PrintNodes(t.children, f, depth + 1)) && NoNul(Indent(f, depth)) && NoNul(f.lineBreak)
    ensures NoNul(PrintBody(t, f, depth))
  {
    hide Encode, PrintAttributes, Visible, PrintNodes, Indent;
    var c := CStr(t.name);
    var end := "</" + (c + ">");
    assert NoNul(end);
    var rest := if t.children == [] then " />"
                else if IsSimple(t.children) then ">" + (Encode(t.children[0].value) + end)
                else ">" + (f.lineBreak + (PrintNodes(t.children, f, depth + 1) + (Indent(f, depth) + end)));
    assert NoNul(rest);
    assert PrintBody(t, f, depth) == "<" + (c + (PrintAttributes(Visible(t.attributes)) + rest));
  }

  lemma {:induction false} NodesHaveNoNul(ts: seq<Tree>, f: Format, depth: nat, top: bool)
    requires f.Blank() && forall c :: c in ts ==> WellFormed(c, top) && Encodable(c)
    ensures NoNul(PrintNodes(ts, f, depth))
    decreases ts, 0
  {
    hide WellFormed, Encodable, PrintNode;
    if ts != [] {
      NodeHasNoNul(ts[0], f, depth, top);
      NodesHaveNoNul(ts[1..], f, depth, top);
    }
  }

  /** What the printer writes for a document that can survive is a proper C string, so that the
      parser reads all of it. */
  lemma PrintedIsCString(ts: seq<Tree>, f: Format)
    requires f.Blank() && WellFormedDocument(ts) && EncodableDocument(ts)
    ensures CStr(PrintDocument(ts, f)) == PrintDocument(ts, f)
  {
    hide WellFormed, Encodable, PrintNodes;
    NodesHaveNoNul(ts, f, 0, true);
  }

  // ---- Saving and loading ----

  /** Prints a document and parses the result into another, empty one. The copy holds the same trees
      with their texts condensed, and the original is untouched. */
  method PrintAndParse(doc: TiXmlNode, copy: TiXmlNode, printer: TiXmlPrinter, document: ErrorState, ghost f: Forest, ghost g: Forest)
    returns (ghost h: Forest)
    requires Intact(f) && doc in f.Nodes() && doc.kind == DocumentNode
    requires IsRoot(g, copy) && g.Children(copy) == [] && f.Nodes() !! g.Nodes()
    requires printer.depth == 0 && !printer.simpleTextPrint && printer.buffer == "" && printer.Fmt().Blank()
    requires WellFormedDocument(ValuesOf(f, doc, 0)) && EncodableDocument(ValuesOf(f, doc, 0))
    modifies printer`buffer, printer`depth, printer`simpleTextPrint, g.Nodes(), document
    ensures Intact(f) && IsRoot(h, copy) && ValuesOf(h, copy, 0) == CondenseTrees(ValuesOf(f, doc, 0))
    ensures document.error == None && (old(StandsAlone(g, copy)) ==> StandsAlone(h, copy))
  {
    hide Linked, Shown, Forest.WellFormed, Forest.RingsApart, ValuesOf, IsTree, Links, PrintDocument, CondenseTrees,
      WellFormedDocument, EncodableDocument, Format.Blank;
    ghost var ts := ValuesOf(f, doc, 0);
    printer.AcceptDocument(doc, f);
    assert printer.buffer == PrintDocument(ts, printer.Fmt());
    h := ParseBack(copy, printer.buffer, document, ts, printer.Fmt(), g);
  }

  /** Parses what was printed. */
  method ParseBack(copy: TiXmlNode, printed: string, document: ErrorState, ghost ts: seq<Tree>, ghost fmt: Format, ghost g: Forest)
    returns (ghost h: Forest)
    requires IsRoot(g, copy) && g.Children(copy) == [] && fmt.Blank() && printed == PrintDocument(ts, fmt)
    requires WellFormedDocument(ts) && EncodableDocument(ts)
    modifies g.Nodes(), document
    ensures IsRoot(h, copy) && ValuesOf(h, copy, 0) == CondenseTrees(ts)
    ensures document.error == None && (old(StandsAlone(g, copy)) ==> StandsAlone(h, copy))
  {
    hide IsRoot, Unlinked, SameOutside, LinkOf, ValuesOf, Grammar.ParseBehind, PrintDocument, CondenseTrees, WellFormedDocument,
      EncodableDocument, Format.Blank;
    PrintedIsCString(ts, fmt);
    Documents.DocumentRoundTrip(ts, fmt);
    NothingHeld(g, copy);
    var r;
    r, h := ParseDocument(copy, CStr(printed), document, g);
  }

  lemma NothingHeld(g: Forest, copy: TiXmlNode)
    requires IsRoot(g, copy) && g.Children(copy) == []
    ensures g.WellFormed() && ValuesOf(g, copy, 0) == []
  {
    hide ValuesOf, Intact, IsTree;
    IntactMeans(g);
    NoValues(g, copy);
  }
}
