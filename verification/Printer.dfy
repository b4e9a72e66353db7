/** `TiXmlPrinter`: a visitor that prints a tree of nodes into its buffer. */
module Printer {
  import opened Entities
  import opened XmlTree
  import opened Printing
  import opened AttributeRing
  import opened Dom

  /** `TiXmlAttribute::Print` into a string. */
  method PrintAttributeText(attrib: TiXmlAttribute) returns (str: string)
    ensures str == PrintAttribute(attrib.Content())
  {
    hide Encode;
    var n := EncodeString(attrib.name);
    var v := EncodeString(attrib.value);
    if '"' !in attrib.value {
      str := n + ("=" + ("\"" + (v + "\"")));
    } else {
      str := n + ("=" + ("'" + (v + "'")));
    }
  }

  lemma IndentGrows(f: Format, depth: nat)
    ensures Indent(f, depth) + f.indent == Indent(f, depth + 1)
  {
    if depth > 0 {
      IndentGrows(f, depth - 1);
      assert f.indent + (Indent(f, depth - 1) + f.indent) == f.indent + Indent(f, depth - 1) + f.indent;
    }
  }

  lemma AttributesStep(printed: string, attributes: seq<Attribute>)
    requires attributes != []
    ensures printed + PrintAttributes(attributes)
         == (printed + " " + PrintAttribute(attributes[0])) + PrintAttributes(attributes[1..])
  {
    hide PrintAttribute;
  }

  lemma PrintsNoAttributes()
    ensures PrintAttributes([]) == ""
  {
  }

  class TiXmlPrinter {
    var depth: nat
    var simpleTextPrint: bool
    var buffer: string
    var indent: string
    var lineBreak: string

    constructor ()
      ensures depth == 0 && !simpleTextPrint && buffer == "" && Fmt() == Format("    ", "\n") && Fmt().Blank()
    {
      depth, simpleTextPrint, buffer, indent, lineBreak := 0, false, "", "    ", "\n";
    }

    /** Switches to the densest format. */
    method SetStreamPrinting()
      modifies this`indent, this`lineBreak
      ensures Fmt() == Format("", "") && Fmt().Blank()
    {
      indent, lineBreak := "", "";
    }

    ghost function Fmt(): Format
      reads this
    {
      Format(indent, lineBreak)
    }

    method DoIndent()
      modifies this`buffer
      ensures buffer == old(buffer) + Indent(Fmt(), depth)
    {
      var i := 0;
      while i < depth
        invariant 0 <= i <= depth && buffer == old(buffer) + Indent(Fmt(), i)
      {
        IndentGrows(Fmt(), i);
        buffer := buffer + indent;
        i := i + 1;
      }
    }

    method DoLineBreak()
      modifies this`buffer
      ensures buffer == old(buffer) + lineBreak
    {
      buffer := buffer + lineBreak;
    }

    method PrintOne(attrib: TiXmlAttribute)
      modifies this`buffer
      ensures buffer == old(buffer) + " " + PrintAttribute(attrib.Content())
    {
      hide PrintAttribute;
      buffer := buffer + " ";
      var text := PrintAttributeText(attrib);
      buffer := buffer + text;
    }

    /** The attribute loop of `VisitEnter`. */
    method PrintAttributesOf(attributes: TiXmlAttributeSet, ghost ring: seq<TiXmlAttribute>, ghost contents: seq<Attribute>)
      requires attributes.Holds(ring, contents)
      modifies this`buffer
      ensures buffer == old(buffer) + PrintAttributes(Visible(contents))
    {
      hide Visible, PrintAttributes, PrintAttribute, TiXmlAttributeSet.IsRing, Contents;
      ghost var k, visible, whole := 0, Visible(contents), buffer + PrintAttributes(Visible(contents));
      attributes.Ends(ring);
      VisibleEmpty(contents);
      var attrib := attributes.First();
      assert visible[0..] == visible;
      while attrib != null
        invariant attributes.Holds(ring, contents)
        invariant k <= |visible| && (attrib == null <==> k == |visible|)
        invariant attrib != null ==> k < |ring| && attrib == ring[k]
        invariant whole == buffer + PrintAttributes(visible[k..])
        decreases |ring| - k
      {
        assert visible[k] == contents[k] == attrib.Content();
        assert visible[k..][0] == visible[k] && visible[k..][1..] == visible[k + 1..];
        AttributesStep(buffer, visible[k..]);
        PrintOne(attrib);
        attributes.RingLinks(ring, k);
        VisibleAt(contents, k);
        attrib := attrib.Next();
        k := k + 1;
      }
      assert visible[k..] == [];
      PrintsNoAttributes();
    }

    // ---- Nodes without children ----

    /** A text: inside an element that is printed on one line it stands alone. */
    method VisitText(text: TiXmlNode)
      requires text.kind == TextNode && (simpleTextPrint ==> !text.cdata)
      modifies this`buffer
      ensures buffer == old(buffer) + if simpleTextPrint then Encode(text.value)
                                      else PrintNode(Text(text.value, text.cdata), Fmt(), depth)
    {
      hide Encode, Indent, PrintNode, PrintBody, CStr;
      if !simpleTextPrint {
        TextPrints(buffer, text.value, text.cdata, Fmt(), depth);
      }
      if text.cdata {
        DoIndent();
        buffer := buffer + "<![CDATA[";
        buffer := buffer + CStr(text.value);
        buffer := buffer + "]]>";
        DoLineBreak();
      } else if simpleTextPrint {
        var str := EncodeString(text.value);
        buffer := buffer + str;
      } else {
        DoIndent();
        var str := EncodeString(text.value);
        buffer := buffer + str;
        DoLineBreak();
      }
    }

    method VisitComment(comment: TiXmlNode)
      requires comment.kind == CommentNode
      modifies this`buffer
      ensures buffer == old(buffer) + PrintNode(Comment(comment.value), Fmt(), depth)
    {
      hide Indent;
      DoIndent();
      buffer := buffer + "<!--";
      buffer := buffer + CStr(comment.value);
      buffer := buffer + "-->";
      DoLineBreak();
    }

    method VisitUnknown(unknown: TiXmlNode)
      requires unknown.kind == UnknownNode
      modifies this`buffer
      ensures buffer == old(buffer) + PrintNode(Unknown(unknown.value), Fmt(), depth)
    {
      hide Indent;
      DoIndent();
      buffer := buffer + "<";
      buffer := buffer + CStr(unknown.value);
      buffer := buffer + ">";
      DoLineBreak();
    }

    method VisitDeclaration(declaration: TiXmlNode)
      requires declaration.kind == DeclarationNode
      modifies this`buffer
      ensures buffer == old(buffer)
                        + PrintNode(Declaration(declaration.version, declaration.encoding, declaration.standalone), Fmt(), depth)
    {
      hide Indent, PrintDeclaration;
      DoIndent();
      var str := PrintDeclarationText(declaration.version, declaration.encoding, declaration.standalone);
      buffer := buffer + str;
      DoLineBreak();
    }

    // ---- Elements ----

    method PrintHead(element: TiXmlNode, ghost ring: seq<TiXmlAttribute>, ghost attributes: seq<Attribute>)
      requires element.attributeSet.Holds(ring, attributes)
      modifies this`buffer
      ensures buffer == old(buffer) + TagHead(element.value, attributes)
    {
      hide PrintAttributes, Visible;
      buffer := buffer + "<";
      buffer := buffer + CStr(element.value);
      PrintAttributesOf(element.attributeSet, ring, attributes);
    }

    /** Everything up to the content of an element. */
    method VisitEnter(element: TiXmlNode, ghost ring: seq<TiXmlAttribute>, ghost attributes: seq<Attribute>)
      requires element.kind == ElementNode && element.attributeSet.Holds(ring, attributes)
      modifies this`buffer, this`depth, this`simpleTextPrint
      ensures depth == old(depth) + 1 && simpleTextPrint == (old(simpleTextPrint) || LooksSimple(element))
      ensures var head := old(buffer) + Indent(Fmt(), old(depth)) + TagHead(element.value, attributes);
              buffer == if element.firstChild == null then head + " />" + lineBreak
                        else if LooksSimple(element) then head + ">" else head + ">" + lineBreak
    {
      hide Indent, TagHead, TiXmlAttributeSet.Holds;
      DoIndent();
      PrintHead(element, ring, attributes);
      if element.firstChild == null {
        buffer := buffer + " />";
        DoLineBreak();
      } else {
        buffer := buffer + ">";
        if element.firstChild.kind == TextNode && element.lastChild == element.firstChild && !element.firstChild.cdata {
          simpleTextPrint := true;
        } else {
          DoLineBreak();
        }
      }
      depth := depth + 1;
    }

    /** Everything behind the content of an element. */
    method VisitExit(element: TiXmlNode)
      requires element.kind == ElementNode && depth > 0
      modifies this`buffer, this`depth, this`simpleTextPrint
      ensures depth == old(depth) - 1
      ensures simpleTextPrint == (old(simpleTextPrint) && element.firstChild == null)
      ensures buffer == if element.firstChild == null then old(buffer)
                        else (if old(simpleTextPrint) then old(buffer) else old(buffer) + Indent(Fmt(), depth))
                             + TagTail(element.value) + lineBreak
    {
      hide Indent;
      depth := depth - 1;
      if element.firstChild != null {
        if simpleTextPrint {
          simpleTextPrint := false;
        } else {
          DoIndent();
        }
        ghost var start := buffer;
        buffer := buffer + "</";
        buffer := buffer + CStr(element.value);
        buffer := buffer + ">";
        assert buffer == start + TagTail(element.value);
        DoLineBreak();
      }
    }

    // ---- Walking the tree ----

    /** `Accept` of a node without children. */
    method AcceptLeaf(node: TiXmlNode, ghost leaf: Tree)
      requires FieldsShow(HeldBy(node), LeafLabel(leaf)) && (simpleTextPrint ==> leaf.IsPlainText())
      modifies this`buffer
      ensures buffer == old(buffer) + if simpleTextPrint then Encode(leaf.value) else PrintNode(leaf, Fmt(), depth)
    {
      hide PrintNode, Encode;
      if node.kind == TextNode {
        VisitText(node);
      } else if node.kind == CommentNode {
        VisitComment(node);
      } else if node.kind == UnknownNode {
        VisitUnknown(node);
      } else {
        VisitDeclaration(node);
      }
    }

    /** `Accept` of all children of a node, in order. */
    method AcceptChildren(node: TiXmlNode, ghost f: Forest)
      requires Intact(f) && node in f.Nodes() && (simpleTextPrint ==> IsSimple(ValuesOf(f, node, 0)))
      modifies this`buffer, this`depth, this`simpleTextPrint
      ensures depth == old(depth) && simpleTextPrint == old(simpleTextPrint)
      ensures buffer == old(buffer) + if simpleTextPrint then Encode(ValuesOf(f, node, 0)[0].value)
                                      else PrintNodes(ValuesOf(f, node, 0), Fmt(), depth)
      decreases f.entries[node].rank, 1
    {
      hide Linked, Shown, Forest.WellFormed, ValuesOf, ValueOf, PrintNode, PrintNodes, Encode;
      ghost var kids, v, start, k := f.Children(node), ValuesOf(f, node, 0), buffer, 0;
      ChainAt(f, node, 0);
      PrintsNothing(f, node, Fmt(), depth);
      var child := node.firstChild;
      while child != null
        invariant Intact(f) && depth == old(depth) && simpleTextPrint == old(simpleTextPrint)
        invariant k <= |kids| && child == if k < |kids| then kids[k] else null
        invariant !simpleTextPrint ==> start + PrintNodes(v, Fmt(), depth) == buffer + PrintNodes(ValuesOf(f, node, k), Fmt(), depth)
        invariant simpleTextPrint ==> buffer == start + if k == 0 then "" else Encode(v[0].value)
        decreases |kids| - k
      {
        ValuesAt(f, node, 0, k);
        ChildBelow(f, node, child);
        NextPrints(f, node, k, buffer, Fmt(), depth);
        Accept(child, f);
        ChainAt(f, node, k);
        child := child.next;
        k := k + 1;
      }
    }

    /** `Accept`: prints the tree below a node. A document shows only its children. */
    method Accept(node: TiXmlNode, ghost f: Forest)
      requires Intact(f) && node in f.Nodes()
      requires simpleTextPrint ==> ValueOf(f, node).IsPlainText()
      modifies this`buffer, this`depth, this`simpleTextPrint
      ensures depth == old(depth) && simpleTextPrint == old(simpleTextPrint)
      ensures buffer == old(buffer) + if simpleTextPrint then Encode(ValueOf(f, node).value)
                                      else PrintNode(ValueOf(f, node), Fmt(), depth)
      decreases f.entries[node].rank, 3
    {
      hide Linked, Shown, Forest.WellFormed, Forest.RingsApart, ValuesOf, ValueOf, PrintNode, PrintNodes, Encode;
      EntryShown(f, node);
      ValueUnfolds(f, node);
      if node.kind == ElementNode {
        AcceptElement(node, f);
      } else if node.kind == DocumentNode {
        DocumentPrints(f, node, Fmt(), depth);
        AcceptChildren(node, f);
      } else {
        AcceptLeaf(node, f.entries[node].data.leaf);
      }
    }

    method AcceptElement(node: TiXmlNode, ghost f: Forest)
      requires Intact(f) && node in f.Nodes() && node.kind == ElementNode && !simpleTextPrint
      modifies this`buffer, this`depth, this`simpleTextPrint
      ensures depth == old(depth) && !simpleTextPrint
      ensures buffer == old(buffer) + PrintNode(ValueOf(f, node), Fmt(), depth)
      decreases f.entries[node].rank, 2
    {
      hide Linked, Shown, Forest.WellFormed, Forest.RingsApart, ValuesOf, ValueOf, PrintNode, PrintNodes, Encode, TagHead, TagTail,
        Indent, IsSimple, TiXmlAttributeSet.Holds;
      ElementShown(f, node);
      SimpleShown(f, node);
      ghost var name, children, attributes := node.value, ValuesOf(f, node, 0), f.entries[node].data.attributes;
      ghost var b0 := buffer;
      VisitEnter(node, f.entries[node].ring, attributes);
      ghost var b1 := buffer;
      AcceptChildren(node, f);
      ghost var b2 := buffer;
      VisitExit(node);
      PiecesPrint(b0, b1, b2, buffer, name, attributes, children, Fmt(), depth);
    }

    /** `TiXmlDocument::Accept`. */
    method AcceptDocument(doc: TiXmlNode, ghost f: Forest)
      requires Intact(f) && doc in f.Nodes() && doc.kind == DocumentNode && depth == 0 && !simpleTextPrint
      modifies this`buffer, this`depth, this`simpleTextPrint
      ensures depth == 0 && !simpleTextPrint
      ensures buffer == old(buffer) + PrintDocument(ValuesOf(f, doc, 0), Fmt())
    {
      hide Linked, Shown, Forest.WellFormed, ValuesOf, PrintNodes;
      AcceptChildren(doc, f);
    }
  }

  /** `TiXmlDeclaration::Print` into a string. */
  method PrintDeclarationText(version: string, encoding: string, standalone: string) returns (str: string)
    ensures str == PrintDeclaration(version, encoding, standalone)
  {
    hide PrintField;
    str := "<?xml ";
    var field := FieldText("version", version);
    str := str + field;
    field := FieldText("encoding", encoding);
    str := str + field;
    field := FieldText("standalone", standalone);
    str := str + field;
    str := str + "?>";
    Nests("<?xml ", PrintField("version", version), PrintField("encoding", encoding), PrintField("standalone", standalone), "?>");
  }

  /** A field that is not empty. */
  method FieldText(name: string, value: string) returns (str: string)
    ensures str == PrintField(name, value)
  {
    str := "";
    if value != "" {
      str := str + name;
      str := str + "=\"";
      str := str + value;
      str := str + "\" ";
    }
  }

  lemma Nests(a: string, b: string, c: string, d: string, e: string)
    ensures a + b + c + d + e == a + (b + (c + (d + e)))
  {
  }

  // ---- What the printer writes for an element, in the order it writes it ----

  lemma Left(x: string, a: string, b: string)
    ensures x + (a + b) == x + a + b
  {
  }

  /** An element's start tag without its end. */
  function TagHead(name: string, attributes: seq<Attribute>): string {
    "<" + (CStr(name) + PrintAttributes(Visible(attributes)))
  }

  function TagTail(name: string): string {
    "</" + (CStr(name) + ">")
  }

  lemma HeadFirst(x: string, i: string, c: string, p: string, rest: string, l: string)
    ensures x + (i + (("<" + (c + (p + rest))) + l)) == x + i + ("<" + (c + p)) + rest + l
  {
    assert "<" + (c + (p + rest)) == ("<" + (c + p)) + rest;
    Left(x, i, ("<" + (c + p)) + rest + l);
    Left(x + i, ("<" + (c + p)) + rest, l);
    Left(x + i, "<" + (c + p), rest);
  }

  /** An element without children. */
  lemma PrintsEmpty(x: string, name: string, attributes: seq<Attribute>, f: Format, depth: nat)
    ensures x + PrintNode(Element(name, attributes, []), f, depth)
         == x + Indent(f, depth) + TagHead(name, attributes) + " />" + f.lineBreak
  {
    hide Visible, PrintAttributes, Indent;
    HeadFirst(x, Indent(f, depth), CStr(name), PrintAttributes(Visible(attributes)), " />", f.lineBreak);
  }

  /** An element on one line. */
  lemma PrintsSimple(x: string, name: string, attributes: seq<Attribute>, children: seq<Tree>, f: Format, depth: nat)
    requires IsSimple(children)
    ensures x + PrintNode(Element(name, attributes, children), f, depth)
         == x + Indent(f, depth) + TagHead(name, attributes) + ">" + Encode(children[0].value) + TagTail(name) + f.lineBreak
  {
    hide Visible, PrintAttributes, Indent, Encode;
    var rest := ">" + (Encode(children[0].value) + TagTail(name));
    HeadFirst(x, Indent(f, depth), CStr(name), PrintAttributes(Visible(attributes)), rest, f.lineBreak);
    var y := x + Indent(f, depth) + TagHead(name, attributes);
    Left(y, ">", Encode(children[0].value) + TagTail(name));
    Left(y + ">", Encode(children[0].value), TagTail(name));
  }

  /** An element with its content on lines of its own. */
  lemma PrintsNested(x: string, name: string, attributes: seq<Attribute>, children: seq<Tree>, f: Format, depth: nat)
    requires children != [] && !IsSimple(children)
    ensures x + PrintNode(Element(name, attributes, children), f, depth)
         == x + Indent(f, depth) + TagHead(name, attributes) + ">" + f.lineBreak + PrintNodes(children, f, depth + 1)
            + Indent(f, depth) + TagTail(name) + f.lineBreak
  {
    hide Visible, PrintAttributes, Indent, Encode, PrintNodes, IsSimple;
    var i, nodes := Indent(f, depth), PrintNodes(children, f, depth + 1);
    var rest := ">" + (f.lineBreak + (nodes + (i + TagTail(name))));
    HeadFirst(x, i, CStr(name), PrintAttributes(Visible(attributes)), rest, f.lineBreak);
    var y := x + i + TagHead(name, attributes);
    Left(y, ">", f.lineBreak + (nodes + (i + TagTail(name))));
    Left(y + ">", f.lineBreak, nodes + (i + TagTail(name)));
    Left(y + ">" + f.lineBreak, nodes, i + TagTail(name));
    Left(y + ">" + f.lineBreak + nodes, i, TagTail(name));
  }

  // ---- What the state of an element is ----

  /** An element's fields, its attributes and its children, as the printer looks at them. */
  lemma ElementShown(f: Forest, node: TiXmlNode)
    requires Intact(f) && node in f.Nodes() && node.kind == ElementNode
    ensures var e := f.entries[node];
            e.data.ElementLabel? && e.data.name == node.value && node.attributeSet.Holds(e.ring, e.data.attributes)
            && ValueOf(f, node) == Element(node.value, e.data.attributes, ValuesOf(f, node, 0))
  {
    hide Linked, ValuesOf, ValueOf, Contents, TiXmlAttributeSet.IsRing, Forest.WellFormed;
    EntryShown(f, node);
    ValueUnfolds(f, node);
  }

  /** The test for printing on one line. */
  predicate LooksSimple(element: TiXmlNode)
    reads element, element.firstChild
  {
    && element.firstChild != null && element.firstChild.kind == TextNode
    && element.lastChild == element.firstChild && !element.firstChild.cdata
  }

  lemma SimpleShown(f: Forest, node: TiXmlNode)
    requires Intact(f) && node in f.Nodes()
    ensures var v := ValuesOf(f, node, 0);
            (node.firstChild == null <==> v == []) && (LooksSimple(node) <==> IsSimple(v))
  {
    hide Linked, ValueOf, ValuesOf, Shown;
    var kids := f.Children(node);
    ChainAt(f, node, 0);
    if kids != [] {
      SoundChildren(f, node);
      ChainAt(f, node, |kids| - 1);
      ValuesAt(f, node, 0, 0);
      TextShown(f, kids[0]);
    }
  }

  lemma TextShown(f: Forest, n: TiXmlNode)
    requires Intact(f) && n in f.Nodes()
    ensures ValueOf(f, n).IsPlainText() <==> n.kind == TextNode && !n.cdata
    ensures ValueOf(f, n).IsPlainText() ==> ValueOf(f, n).value == n.value
  {
    hide Linked, ValueOf, ValuesOf, Forest.WellFormed;
    EntryShown(f, n);
    ValueUnfolds(f, n);
  }

  /** The buffer before an element, behind its start tag, behind its content, and behind it. */
  lemma PiecesPrint(b0: string, b1: string, b2: string, b3: string, name: string, attributes: seq<Attribute>,
                    children: seq<Tree>, f: Format, depth: nat)
    requires var head := b0 + Indent(f, depth) + TagHead(name, attributes);
             b1 == if children == [] then head + " />" + f.lineBreak
                   else if IsSimple(children) then head + ">" else head + ">" + f.lineBreak
    requires b2 == b1 + if IsSimple(children) then Encode(children[0].value) else PrintNodes(children, f, depth + 1)
    requires b3 == if children == [] then b2
                   else (if IsSimple(children) then b2 else b2 + Indent(f, depth)) + TagTail(name) + f.lineBreak
    ensures b3 == b0 + PrintNode(Element(name, attributes, children), f, depth)
  {
    hide PrintNode, PrintNodes, Encode, TagHead, TagTail, Indent;
    PrintsNoNodes(f, depth + 1);
    ElementPrints(b0, name, attributes, children, f, depth);
    hide IsSimple;
  }

  /** The pieces of a text on its own line. */
  lemma TextPrints(b: string, value: string, cdata: bool, f: Format, depth: nat)
    ensures b + PrintNode(Text(value, cdata), f, depth)
         == if cdata then b + Indent(f, depth) + "<![CDATA[" + CStr(value) + "]]>" + f.lineBreak
            else b + Indent(f, depth) + Encode(value) + f.lineBreak
  {
    hide Encode, Indent, CStr;
    Joined(b, Indent(f, depth), "<![CDATA[", CStr(value), "]]>", f.lineBreak);
    Joined(b, Indent(f, depth), Encode(value), "", "", f.lineBreak);
  }

  lemma Joined(b: string, a: string, c: string, d: string, e: string, g: string)
    ensures b + a + c + d + e + g == b + (a + ((c + (d + e)) + g))
    ensures b + a + c + g == b + (a + (c + g))
  {
  }

  lemma PrintsNoNodes(f: Format, depth: nat)
    ensures PrintNodes([], f, depth) == ""
  {
  }

  lemma PrintsNothing(f: Forest, node: TiXmlNode, format: Format, depth: nat)
    requires f.WellFormed() && node in f.Nodes()
    ensures PrintNodes(ValuesOf(f, node, |f.Children(node)|), format, depth) == ""
  {
  }

  /** A document prints as its children. */
  lemma DocumentPrints(f: Forest, node: TiXmlNode, format: Format, depth: nat)
    requires Intact(f) && node in f.Nodes() && node.kind == DocumentNode
    ensures ValueOf(f, node).Document?
    ensures PrintNode(ValueOf(f, node), format, depth) == PrintNodes(ValuesOf(f, node, 0), format, depth)
  {
    hide Linked, ValueOf, ValuesOf, PrintNodes, Forest.WellFormed;
    EntryShown(f, node);
    ValueUnfolds(f, node);
  }

  /** Printing from the `k`-th child on prints that child first. */
  lemma NextPrints(f: Forest, node: TiXmlNode, k: nat, printed: string, format: Format, depth: nat)
    requires f.WellFormed() && node in f.Nodes() && k < |f.Children(node)| && f.Children(node)[k] in f.Nodes()
    ensures printed + PrintNodes(ValuesOf(f, node, k), format, depth)
         == (printed + PrintNode(ValueOf(f, f.Children(node)[k]), format, depth))
            + PrintNodes(ValuesOf(f, node, k + 1), format, depth)
  {
    hide PrintNode, ValueOf;
    var first, rest := ValueOf(f, f.Children(node)[k]), ValuesOf(f, node, k + 1);
    assert ValuesOf(f, node, k) == [first] + rest && ([first] + rest)[1..] == rest;
  }

  /** An element in the pieces the printer writes. */
  lemma ElementPrints(x: string, name: string, attributes: seq<Attribute>, children: seq<Tree>, f: Format, depth: nat)
    ensures var head := x + Indent(f, depth) + TagHead(name, attributes);
            x + PrintNode(Element(name, attributes, children), f, depth) ==
            if children == [] then head + " />" + f.lineBreak
            else if IsSimple(children) then head + ">" + Encode(children[0].value) + TagTail(name) + f.lineBreak
            else head + ">" + f.lineBreak + PrintNodes(children, f, depth + 1) + Indent(f, depth) + TagTail(name) + f.lineBreak
  {
    hide PrintNode, PrintNodes, Encode, TagHead, TagTail, Indent, IsSimple;
    if children == [] {
      PrintsEmpty(x, name, attributes, f, depth);
    } else if IsSimple(children) {
      PrintsSimple(x, name, attributes, children, f, depth);
    } else {
      PrintsNested(x, name, attributes, children, f, depth);
    }
  }
}
