/** What the printer writes for a tree, and the trees that come back from it. */
module Printing {
  import opened Characters
  import opened Entities
  import opened XmlTree

  /** The printer's settings. Stream printing is the format with two empty strings. */
  datatype Format = Format(indent: string, lineBreak: string) {
    ghost predicate Blank() {
      AllWhite(indent) && AllWhite(lineBreak)
    }
  }

  function Indent(f: Format, depth: nat): string {
    if depth == 0 then "" else f.indent + Indent(f, depth - 1)
  }

  /** A value with a double quote goes between single quotes. */
  function QuoteFor(value: string): char {
    if '"' in value then '\'' else '"'
  }

  function PrintAttribute(a: Attribute): string {
    Encode(a.name) + ("=" + ([QuoteFor(a.value)] + (Encode(a.value) + [QuoteFor(a.value)])))
  }

  /** `TiXmlAttribute::Next` takes an attribute with empty name and value for the sentinel. */
  predicate LooksLikeSentinel(a: Attribute) {
    a.name == "" && a.value == ""
  }

  /** The attributes a walk by `Next` visits after the first. */
  function VisibleRest(attributes: seq<Attribute>): (r: seq<Attribute>)
    ensures r <= attributes
  {
    if attributes == [] || LooksLikeSentinel(attributes[0]) then []
    else [attributes[0]] + VisibleRest(attributes[1..])
  }

  /** The attributes a walk by `First` and `Next` visits. */
  function Visible(attributes: seq<Attribute>): (r: seq<Attribute>)
    ensures r <= attributes
  {
    if attributes == [] then [] else [attributes[0]] + VisibleRest(attributes[1..])
  }

  function PrintAttributes(attributes: seq<Attribute>): string {
    if attributes == [] then "" else " " + (PrintAttribute(attributes[0]) + PrintAttributes(attributes[1..]))
  }

  function PrintField(name: string, value: string): string {
    if value == "" then "" else name + ("=\"" + (value + "\" "))
  }

  function PrintDeclaration(version: string, encoding: string, standalone: string): string {
    "<?xml " + (PrintField("version", version) + (PrintField("encoding", encoding)
    + (PrintField("standalone", standalone) + "?>")))
  }

  /** An element whose only child is plain text is printed on one line. */
  predicate IsSimple(children: seq<Tree>) {
    |children| == 1 && children[0].IsPlainText()
  }

  /** A node without its indentation and line break. */
  function PrintBody(t: Tree, f: Format, depth: nat): string
    decreases t, 0
  {
    match t
    case Element(name, attributes, children) =>
      "<" + (CStr(name) + (PrintAttributes(Visible(attributes)) +
      if children == [] then " />"
      else if IsSimple(children) then ">" + (Encode(children[0].value) + ("</" + (CStr(name) + ">")))
      else ">" + (f.lineBreak + (PrintNodes(children, f, depth + 1) + (Indent(f, depth) + ("</" + (CStr(name) + ">")))))))
    case Text(value, cdata) => if cdata then "<![CDATA[" + (CStr(value) + "]]>") else Encode(value)
    case Comment(value) => "<!--" + (CStr(value) + "-->")
    case Unknown(value) => "<" + (CStr(value) + ">")
    case Declaration(version, encoding, standalone) => PrintDeclaration(version, encoding, standalone)
    case Document(_, children) => PrintNodes(children, f, depth)
  }

  /** A node on its own lines. A document among the nodes shows only its children. */
  function PrintNode(t: Tree, f: Format, depth: nat): string
    decreases t, 1
  {
    if t.Document? then PrintBody(t, f, depth) else Indent(f, depth) + (PrintBody(t, f, depth) + f.lineBreak)
  }

  function PrintNodes(ts: seq<Tree>, f: Format, depth: nat): string
    decreases ts, 0
  {
    if ts == [] then "" else PrintNode(ts[0], f, depth) + PrintNodes(ts[1..], f, depth)
  }

  function PrintDocument(ts: seq<Tree>, f: Format): string {
    PrintNodes(ts, f, 0)
  }
}
