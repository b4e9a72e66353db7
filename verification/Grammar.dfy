/** The parser as functions on the text that is left to read, in the byte-per-character
    encoding and with white space condensed. A missing rest stands for a null pointer. */
module Grammar {
  import opened Characters
  import opened Entities
  import opened CharacterData
  import opened Condensing
  import opened XmlTree
  import opened AttributeMap

  datatype Error =
    | ErrorParsingElement | ErrorFailedToReadElementName | ErrorReadingElementValue
    | ErrorReadingAttributes | ErrorParsingEmpty | ErrorReadingEndTag | ErrorParsingUnknown
    | ErrorParsingComment | ErrorParsingDeclaration | ErrorParsingCData | ErrorDocumentEmpty
    | ErrorDocumentTopOnly

  /** `SetError` keeps the first error of a chain. */
  function FirstError(before: Option<Error>, error: Error): Option<Error> {
    if before.Some? then before else Some(error)
  }

  function EarlierError(before: Option<Error>, later: Option<Error>): Option<Error> {
    if before.Some? then before else later
  }

  // ---- Scanning ----

  /** `StringEqual` ignoring case. */
  predicate StartsNoCase(s: string, tag: string): (r: bool)
    ensures r ==> |tag| <= |s|
  {
    tag == "" || (s != "" && ToLower(s[0]) == ToLower(tag[0]) && StartsNoCase(s[1..], tag[1..]))
  }

  function NameLength(s: string): (n: nat)
    ensures n <= |s|
  {
    if s != "" && IsNameChar(s[0]) then 1 + NameLength(s[1..]) else 0
  }

  function ReadName(s: string): (r: Option<Chunk>)
    ensures r.Some? ==> |r.value.rest| < |s|
  {
    if s != "" && IsNameStart(s[0]) then Some(Chunk(s[..NameLength(s)], s[NameLength(s)..])) else None
  }

  /** The text before the first `end`, which is passed over; nothing is left when there is none. */
  function ReadUpTo(s: string, end: string): (r: Partial)
    requires end != ""
    ensures r.rest.Some? ==> |r.rest.value| < |s|
  {
    if s == "" then Partial("", None)
    else if end <= s then Partial("", Some(s[|end|..]))
    else
      var tail := ReadUpTo(s[1..], end);
      Partial([s[0]] + tail.text, tail.rest)
  }

  // ---- Attributes ----

  datatype AttributeRead =
    | Failed(partial: string, error: Option<Error>)
    | Read(attribute: Attribute, rest: string)

  /** An attribute value without quotes; a quote inside it is an error. */
  function BareValue(s: string): (r: Partial)
    ensures r.rest.Some? ==> |r.rest.value| <= |s|
  {
    if s == "" || IsWhiteSpace(s[0]) || s[0] == '/' || s[0] == '>' then Partial("", Some(s))
    else if IsQuote(s[0]) then Partial("", None)
    else
      var tail := BareValue(s[1..]);
      Partial([s[0]] + tail.text, tail.rest)
  }

  function ParseAttributeValue(name: string, s: string): (r: AttributeRead)
    requires s != ""
    ensures r.Read? ==> |r.rest| <= |s| && r.attribute.name == name
  {
    if IsQuote(s[0]) then
      var value := ReadKeeping(s[1..], [s[0]]);
      if value.rest.None? then Failed(value.text, None) else Read(Attribute(name, value.text), value.rest.value)
    else
      var value := BareValue(s);
      if value.rest.None? then Failed(value.text, Some(ErrorReadingAttributes))
      else Read(Attribute(name, value.text), value.rest.value)
  }

  function ParseAttribute(s: string): (r: AttributeRead)
    ensures r.Read? ==> |r.rest| < |s|
  {
    var t := DropSpaces(s);
    if t == "" then Failed("", None)
    else
      match ReadName(t)
      case None => Failed("", Some(ErrorReadingAttributes))
      case Some(name) => ParseEquals(name.text, name.rest)
  }

  /** The '=' and the value of an attribute behind its name. */
  function ParseEquals(name: string, s: string): (r: AttributeRead)
    ensures r.Read? ==> |r.rest| < |s| && r.attribute.name == name
  {
    var fail := Failed("", Some(ErrorReadingAttributes));
    var u := DropSpaces(s);
    if u == "" || u[0] != '=' then fail
    else
      var v := DropSpaces(u[1..]);
      if v == "" then fail else ParseAttributeValue(name, v)
  }

  datatype TagEnd =
    | Closed(rest: string)
    | Open(rest: string)
    | Broken(error: Option<Error>)

  datatype TagRead = TagRead(attributes: seq<Attribute>, end: TagEnd)

  /** The attribute loop of an element's start tag. A repeated name overwrites the first value
      and gives up without an error. */
  function ParseTag(s: string, attributes: seq<Attribute>): (r: TagRead)
    ensures !r.end.Broken? ==> |r.end.rest| < |s|
    decreases |s|
  {
    var t := DropSpaces(s);
    if t == "" then TagRead(attributes, Broken(Some(ErrorReadingAttributes)))
    else if t[0] == '/' then
      if |t| < 2 || t[1] != '>' then TagRead(attributes, Broken(Some(ErrorParsingEmpty)))
      else TagRead(attributes, Closed(t[2..]))
    else if t[0] == '>' then TagRead(attributes, Open(t[1..]))
    else
      match ParseAttribute(t)
      case Failed(_, error) => TagRead(attributes, Broken(FirstError(error, ErrorParsingElement)))
      case Read(attribute, rest) =>
        if rest == "" then TagRead(attributes, Broken(Some(ErrorParsingElement)))
        else if Named(attributes, attribute.name) then
          TagRead(Put(attributes, attribute.name, CStr(attribute.value)), Broken(None))
        else ParseTag(rest, attributes + [attribute])
  }

  // ---- Nodes ----

  datatype Kind = DeclarationKind | CommentKind | CDataKind | UnknownKind | ElementKind

  /** `StringEqual` with case. */
  predicate Starts(s: string, tag: string) {
    tag <= s
  }

  /** The kind of node a text beginning with '<' announces. */
  function TagKind(t: string): Kind {
    if StartsNoCase(t, "<?xml") then DeclarationKind
    else if Starts(t, "<!--") then CommentKind
    else if Starts(t, "<![CDATA[") then CDataKind
    else if Starts(t, "<!") then UnknownKind
    else if |t| > 1 && IsNameStart(t[1]) then ElementKind
    else UnknownKind
  }

  function Identify(s: string): Option<Kind> {
    var t := DropSpaces(s);
    if t == "" || t[0] != '<' then None else Some(TagKind(t))
  }

  datatype NodeRead = NodeRead(node: Tree, rest: Option<string>, error: Option<Error>)

  function ParseComment(s: string): (r: NodeRead)
    ensures r.rest.Some? ==> |r.rest.value| < |s|
  {
    var t := DropSpaces(s);
    if !("<!--" <= t) then NodeRead(Comment(""), None, Some(ErrorParsingComment))
    else
      var body := ReadUpTo(t[4..], "-->");
      NodeRead(Comment(body.text), body.rest, None)
  }

  function ParseCData(s: string): (r: NodeRead)
    ensures r.rest.Some? ==> |r.rest.value| < |s|
  {
    if !("<![CDATA[" <= s) then NodeRead(Text("", true), None, Some(ErrorParsingCData))
    else
      var body := ReadUpTo(s[9..], "]]>");
      NodeRead(Text(body.text, true), body.rest, None)
  }

  /** Unlike the others, an unknown tag may end with the text. */
  function ParseUnknown(s: string): (r: NodeRead)
    ensures r.rest.Some? ==> |r.rest.value| < |s|
  {
    var t := DropSpaces(s);
    if t == "" || t[0] != '<' then NodeRead(Unknown(""), None, Some(ErrorParsingUnknown))
    else
      var body := ReadUpTo(t[1..], ">");
      NodeRead(Unknown(body.text), if body.rest.Some? then body.rest else Some(""), None)
  }

  /** Reads over anything else inside a declaration. */
  function SkipWord(s: string): (r: string)
    ensures |r| <= |s|
    ensures s != "" && s[0] != '>' && !IsWhiteSpace(s[0]) ==> |r| < |s|
  {
    if s == "" || s[0] == '>' || IsWhiteSpace(s[0]) then s else SkipWord(s[1..])
  }

  function AttributeValue(r: AttributeRead): string {
    match r case Failed(partial, _) => partial case Read(attribute, _) => attribute.value
  }

  function AttributeRest(r: AttributeRead): Option<string> {
    match r case Failed(_, _) => None case Read(_, rest) => Some(rest)
  }

  datatype Field = Version | Encoding | Standalone

  /** The field of a declaration that starts here. */
  function FieldAt(t: string): Option<Field> {
    if StartsNoCase(t, "version") then Some(Version)
    else if StartsNoCase(t, "encoding") then Some(Encoding)
    else if StartsNoCase(t, "standalone") then Some(Standalone)
    else None
  }

  function SetField(d: Tree, field: Field, value: string): (r: Tree)
    requires d.Declaration?
    ensures r.Declaration?
  {
    match field
    case Version => d.(version := value)
    case Encoding => d.(encoding := value)
    case Standalone => d.(standalone := value)
  }

  function ParseDeclarationBody(s: string, d: Tree): (r: NodeRead)
    requires d.Declaration?
    ensures r.node.Declaration? && (r.rest.Some? ==> |r.rest.value| < |s|)
    decreases |s|
  {
    var t := DropSpaces(s);
    if s == "" then NodeRead(d, None, None)
    else if s[0] == '>' then NodeRead(d, Some(s[1..]), None)
    else
      match FieldAt(t)
      case None => ParseDeclarationBody(SkipWord(t), d)
      case Some(field) =>
        var read := ParseAttribute(t);
        var d' := SetField(d, field, CStr(AttributeValue(read)));
        match AttributeRest(read)
        case None => NodeRead(d', None, None)
        case Some(rest) => ParseDeclarationBody(rest, d')
  }

  function ParseDeclaration(s: string): (r: NodeRead)
    ensures r.rest.Some? ==> |r.rest.value| < |s|
  {
    var t := DropSpaces(s);
    if !StartsNoCase(t, "<?xml") then
      NodeRead(Declaration("", "", ""), None, Some(ErrorParsingDeclaration))
    else ParseDeclarationBody(t[5..], Declaration("", "", ""))
  }

  function EndTag(name: string): string {
    "</" + name + ">"
  }

  function ParseElement(s: string): (r: NodeRead)
    ensures r.rest.Some? ==> |r.rest.value| < |s|
    decreases |s|, 1
  {
    var t := DropSpaces(s);
    if t == "" || t[0] != '<' then NodeRead(Element("", [], []), None, Some(ErrorParsingElement))
    else
      match ReadName(DropSpaces(t[1..]))
      case None => NodeRead(Element("", [], []), None, Some(ErrorFailedToReadElementName))
      case Some(name) =>
        if name.rest == "" then
          NodeRead(Element(name.text, [], []), None, Some(ErrorFailedToReadElementName))
        else ParseElementBody(name.text, name.rest)
  }

  /** An element behind its name. */
  function ParseElementBody(name: string, s: string): (r: NodeRead)
    ensures r.rest.Some? ==> |r.rest.value| < |s|
    decreases |s|, 0
  {
    var tag := ParseTag(s, []);
    match tag.end
    case Broken(error) => NodeRead(Element(name, tag.attributes, []), None, error)
    case Closed(rest) => NodeRead(Element(name, tag.attributes, []), Some(rest), None)
    case Open(rest) => CloseElement(name, tag.attributes, ReadValue(rest))
  }

  /** The end tag has to follow the content. */
  function CloseElement(name: string, attributes: seq<Attribute>, content: ContentRead): (r: NodeRead)
    ensures r.rest.Some? ==> content.rest.Some? && |r.rest.value| < |content.rest.value|
  {
    var node := Element(name, attributes, content.children);
    if content.rest.Some? && EndTag(name) <= content.rest.value then
      NodeRead(node, Some(content.rest.value[|EndTag(name)|..]), content.error)
    else NodeRead(node, None, FirstError(content.error, ErrorReadingEndTag))
  }

  datatype ContentRead = ContentRead(children: seq<Tree>, rest: Option<string>, error: Option<Error>)

  /** The children of an element, up to a "</" or the end of the text. */
  function ReadValue(s: string): (r: ContentRead)
    ensures r.rest.Some? ==> |r.rest.value| <= |s|
    decreases |s|, 3
  {
    var t := DropSpaces(s);
    if s == "" then ContentRead([], None, Some(ErrorReadingElementValue))
    else if t == "" then ContentRead([], Some(""), None)
    else if t[0] != '<' then
      var text := ReadTrimming(t, "<");
      var children := if Blank(text.text) then [] else [Text(text.text, false)];
      TextShrinks(t);
      ReadMore(children, text.rest, None)
    else if "</" <= t then ContentRead([], Some(t), None)
    else
      var first := ParseNode(t);
      ReadMore([first.node], first.rest, first.error)
  }

  function ReadMore(children: seq<Tree>, rest: Option<string>, error: Option<Error>): (r: ContentRead)
    ensures r.rest.Some? ==> rest.Some? && |r.rest.value| <= |rest.value|
    decreases if rest.Some? then |rest.value| else 0, 4
  {
    match rest
    case None => ContentRead(children, None, FirstError(error, ErrorReadingElementValue))
    case Some(s) =>
      var more := ReadValue(s);
      ContentRead(children + more.children, more.rest, EarlierError(error, more.error))
  }

  function ParseNode(s: string): (r: NodeRead)
    requires Identify(s).Some?
    ensures r.rest.Some? ==> |r.rest.value| < |s|
    decreases |s|, 2
  {
    match Identify(s).value
    case DeclarationKind => ParseDeclaration(s)
    case CommentKind => ParseComment(s)
    case CDataKind => ParseCData(s)
    case UnknownKind => ParseUnknown(s)
    case ElementKind => ParseElement(s)
  }

  lemma TextShrinks(t: string)
    requires t != "" && !IsWhiteSpace(t[0]) && t[0] != '<'
    ensures ReadTrimming(t, "<").rest.Some? ==> |ReadTrimming(t, "<").rest.value| < |t|
    ensures ReadTrimming(t, "<").rest.Some? ==> StopsText(ReadTrimming(t, "<").rest.value)
  {
    CondensingStops(t, false);
  }

  lemma CondensingStops(t: string, pending: bool)
    ensures var r := ReadCondensing(t, "<", pending).rest; r.Some? ==> StopsText(r.value)
    decreases |t|
  {
    if t == "" || "<" <= t {
    } else if IsWhiteSpace(t[0]) {
      CondensingStops(t[1..], true);
    } else if DecodeChar(t).Some? {
      CondensingStops(DecodeChar(t).value.rest, false);
    }
  }

  // ---- The document ----

  /** The node loop of the document; it stops at anything that is not a node. */
  function ParseNodes(s: string): (r: ContentRead)
    decreases |s|
  {
    if s == "" then ContentRead([], Some(""), None)
    else if Identify(s).None? then ContentRead([], Some(s), None)
    else
      var first := ParseNode(s);
      if first.rest.None? || first.rest.value == "" then ContentRead([first.node], None, first.error)
      else
        var more := ParseNodes(DropSpaces(first.rest.value));
        ContentRead([first.node] + more.children, more.rest, EarlierError(first.error, more.error))
  }

  /** Into a document that has these nodes already. */
  function ParseBehind(done: seq<Tree>, s: string): ContentRead {
    if s == "" then ContentRead(done, None, Some(ErrorDocumentEmpty))
    else
      var content := ParseNodes(DropSpaces(s));
      var all := done + content.children;
      if all == [] then ContentRead([], None, FirstError(content.error, ErrorDocumentEmpty))
      else ContentRead(all, content.rest, content.error)
  }

  function ParseDocument(s: string): ContentRead {
    ParseBehind([], s)
  }
}
