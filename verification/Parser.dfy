/** The parser: it builds nodes and their lists from a text. Each method does what the grammar's
    function of the same name computes. */
module Parser {
  import opened Characters
  import opened CharacterData
  import opened Condensing
  import opened XmlTree
  import opened AttributeMap
  import opened Scanner
  import opened AttributeRing
  import opened Errors
  import opened Dom
  import Grammar

  // ---- Attributes ----

  lemma BareStep(s: string)
    ensures Grammar.BareValue(s) ==
            if s == "" || IsWhiteSpace(s[0]) || s[0] == '/' || s[0] == '>' then Partial("", Some(s))
            else if IsQuote(s[0]) then Partial("", None)
            else
              var tail := Grammar.BareValue(s[1..]);
              Partial([s[0]] + tail.text, tail.rest)
  {
  }

  /** A value without quotes. */
  method ReadBare(s: string, p: nat) returns (value: string, r: Option<nat>)
    requires p <= |s|
    ensures value == Grammar.BareValue(s[p..]).text && PointsAt(s, r, Grammar.BareValue(s[p..]).rest)
  {
    hide Grammar.BareValue;
    value := "";
    var q := p;
    ghost var spec := Grammar.BareValue(s[p..]);
    BareStep(s[p..]);
    while q < |s| && !IsWhiteSpace(s[q]) && s[q] != '/' && s[q] != '>'
      invariant p <= q <= |s|
      invariant spec.text == value + Grammar.BareValue(s[q..]).text && spec.rest == Grammar.BareValue(s[q..]).rest
    {
      SuffixStep(s, q);
      BareStep(s[q..]);
      if s[q] == '\'' || s[q] == '"' {
        return value, None;
      }
      value := value + [s[q]];
      q := q + 1;
    }
    BareStep(s[q..]);
    return value, Some(q);
  }

  /** `r` and `value` are what reading an attribute value had to give. */
  ghost predicate ValueRead(s: string, name: string, value: string, r: Option<nat>, spec: Grammar.AttributeRead) {
    match spec
    case Failed(partial, _) => r.None? && value == partial
    case Read(attribute, rest) => r.Some? && r.value <= |s| && s[r.value..] == rest && attribute == Attribute(name, value)
  }

  function ErrorOf(spec: Grammar.AttributeRead): Option<Error> {
    match spec
    case Failed(_, error) => error
    case Read(_, _) => None
  }

  method ParseAttributeValue(name: string, s: string, p: nat, document: ErrorState?) returns (value: string, r: Option<nat>)
    requires p < |s|
    modifies document
    ensures ValueRead(s, name, value, r, Grammar.ParseAttributeValue(name, s[p..]))
    ensures document != null ==>
              document.error == Reported(old(document.error), ErrorOf(Grammar.ParseAttributeValue(name, s[p..])))
  {
    hide Grammar.BareValue, ReadKeeping;
    SuffixStep(s, p);
    if s[p] == '\'' {
      value, r := ReadTextKeeping(s, p + 1, "'");
      r := Inside(s, r);
    } else if s[p] == '"' {
      value, r := ReadTextKeeping(s, p + 1, "\"");
      r := Inside(s, r);
    } else {
      value, r := ReadBare(s, p);
      if r.None? {
        Report(document, Grammar.ErrorReadingAttributes);
      }
    }
  }

  lemma NoEquals(name: string, s: string, p: nat, q: nat)
    requires p <= |s| && q <= |s| && s[q..] == DropSpaces(s[p..])
    requires q == |s| || s[q] != '='
    ensures Grammar.ParseEquals(name, s[p..]) == Grammar.Failed("", Some(Grammar.ErrorReadingAttributes))
  {
    hide DropSpaces;
    assert q < |s| ==> s[q..][0] == s[q];
  }

  lemma EqualsAndValue(name: string, s: string, p: nat, q: nat, v: nat)
    requires p <= |s| && q < |s| && s[q..] == DropSpaces(s[p..]) && s[q] == '='
    requires v <= |s| && s[v..] == DropSpaces(s[q + 1..])
    ensures Grammar.ParseEquals(name, s[p..]) ==
            if v == |s| then Grammar.Failed("", Some(Grammar.ErrorReadingAttributes))
            else Grammar.ParseAttributeValue(name, s[v..])
  {
    hide DropSpaces, Grammar.ParseAttributeValue;
    SuffixStep(s, q);
  }

  lemma EmptyStays()
    ensures DropSpaces("") == ""
  {
  }

  /** The second half of `TiXmlAttribute::Parse`: the '=' and the value. */
  method ParseEquals(name: string, s: string, p: nat, document: ErrorState?) returns (value: string, r: Option<nat>)
    requires p <= |s|
    modifies document
    ensures ValueRead(s, name, value, r, Grammar.ParseEquals(name, s[p..]))
    ensures document != null ==>
              document.error == Reported(old(document.error), ErrorOf(Grammar.ParseEquals(name, s[p..])))
  {
    hide Grammar.ParseEquals, Grammar.ParseAttributeValue, DropSpaces;
    EmptyStays();
    value := "";
    r := SkipWhiteSpace(s, Some(p));
    ghost var q := if r.Some? then r.value else |s|;
    if r.None? || r.value == |s| || s[r.value] != '=' {
      NoEquals(name, s, p, q);
      Report(document, Grammar.ErrorReadingAttributes);
      return value, None;
    }
    r := SkipWhiteSpace(s, Some(r.value + 1));
    EqualsAndValue(name, s, p, q, if r.Some? then r.value else |s|);
    if r.None? || r.value == |s| {
      Report(document, Grammar.ErrorReadingAttributes);
      return value, None;
    }
    value, r := ParseAttributeValue(name, s, r.value, document);
  }

  /** `TiXmlAttribute::Parse`, on an attribute that is not linked yet. */
  method ParseAttribute(attrib: TiXmlAttribute, s: string, p: nat, document: ErrorState?) returns (r: Option<nat>)
    requires p <= |s| && attrib.value == ""
    modifies attrib`name, attrib`value, document
    ensures ValueRead(s, attrib.name, attrib.value, r, Grammar.ParseAttribute(s[p..]))
    ensures document != null ==> document.error == Reported(old(document.error), ErrorOf(Grammar.ParseAttribute(s[p..])))
  {
    hide Grammar.ReadName, Grammar.ParseEquals, DropSpaces;
    r := SkipWhiteSpace(s, Some(p));
    if r.None? || r.value == |s| {
      return None;
    }
    var name;
    name, r := ReadName(s, r);
    attrib.name := name;
    if r.None? || r.value == |s| {
      if r.Some? {
        NothingEquals(name);
      }
      Report(document, Grammar.ErrorReadingAttributes);
      return None;
    }
    var value;
    value, r := ParseEquals(name, s, r.value, document);
    attrib.value := value;
  }

  lemma NothingEquals(name: string)
    ensures Grammar.ParseEquals(name, "") == Grammar.Failed("", Some(Grammar.ErrorReadingAttributes))
  {
  }

  // ---- Start tags ----

  /** How the attribute loop of an element ended, and where. */
  datatype TagOutcome = TagFailed | TagClosed(at: nat) | TagOpened(at: nat)

  /** The outcome matches the specification, and errors were reported as it says. */
  ghost predicate TagEnds(s: string, outcome: TagOutcome, before: Option<Error>, after: Option<Error>, spec: Grammar.TagEnd) {
    match spec
    case Broken(error) => outcome.TagFailed? && after == Reported(before, error)
    case Closed(rest) => outcome.TagClosed? && outcome.at <= |s| && s[outcome.at..] == rest && after == before
    case Open(rest) => outcome.TagOpened? && outcome.at <= |s| && s[outcome.at..] == rest && after == before
  }

  /** A step of the attribute loop behind its white space. */
  lemma TagCases(s: string, t: string, done: seq<Attribute>)
    requires t == DropSpaces(s)
    ensures t == "" ==> Grammar.ParseTag(s, done) == Grammar.TagRead(done, Grammar.Broken(Some(Grammar.ErrorReadingAttributes)))
    ensures t != "" && t[0] == '/' ==>
              Grammar.ParseTag(s, done) == Grammar.TagRead(done,
                if |t| < 2 || t[1] != '>' then Grammar.Broken(Some(Grammar.ErrorParsingEmpty)) else Grammar.Closed(t[2..]))
    ensures t != "" && t[0] == '>' ==> Grammar.ParseTag(s, done) == Grammar.TagRead(done, Grammar.Open(t[1..]))
    ensures t != "" && t[0] != '/' && t[0] != '>' ==>
              Grammar.ParseTag(s, done) == TagBehindAttribute(Grammar.ParseAttribute(t), done)
  {
    hide Grammar.ParseAttribute, Put, Named;
  }

  /** What the loop does with an attribute. */
  ghost function TagBehindAttribute(read: Grammar.AttributeRead, done: seq<Attribute>): Grammar.TagRead {
    match read
    case Failed(_, error) =>
      Grammar.TagRead(done, Grammar.Broken(Grammar.FirstError(error, Grammar.ErrorParsingElement)))
    case Read(attribute, rest) =>
      if rest == "" then Grammar.TagRead(done, Grammar.Broken(Some(Grammar.ErrorParsingElement)))
      else if Named(done, attribute.name) then
        Grammar.TagRead(Put(done, attribute.name, CStr(attribute.value)), Grammar.Broken(None))
      else Grammar.ParseTag(rest, done + [attribute])
  }

  /** Adds an attribute, or overwrites the one that has its name. */
  method AddAttribute(attributes: TiXmlAttributeSet, attrib: TiXmlAttribute, ghost ring: seq<TiXmlAttribute>,
                      ghost done: seq<Attribute>)
    returns (added: bool, ghost ring': seq<TiXmlAttribute>)
    requires attributes.Holds(ring, done) && attrib !in ring && attrib != attributes.sentinel
    modifies attributes.sentinel, ring, attrib
    ensures added <==> !Named(done, attrib.name)
    ensures attrib.Content() == old(attrib.Content())
    ensures added ==> ring' == ring + [attrib] && attributes.Holds(ring', done + [attrib.Content()])
    ensures !added ==> ring' == ring && attributes.Holds(ring', Put(done, attrib.name, CStr(attrib.value)))
  {
    hide Put, Contents, Named, TiXmlAttributeSet.IsRing;
    ghost var k: nat;
    var node;
    node, k := attributes.Find(attrib.name, ring);
    if node != null {
      AtNamed(done, k);
      PutAt(done, k, CStr(attrib.value));
      attributes.SetValue(node, CStr(attrib.value), ring, k);
      return false, ring;
    }
    NotNamed(done, attrib.name);
    attributes.Add(attrib, ring);
    ring' := ring + [attrib];
    added := true;
    assert Contents(ring') == done + [attrib.Content()];
  }

  lemma AtNamed(done: seq<Attribute>, k: nat)
    requires k < |done|
    ensures Named(done, done[k].name)
  {
  }

  /** Reads one attribute of a start tag into the set. */
  method ReadAttribute(attributes: TiXmlAttributeSet, s: string, p: nat, document: ErrorState,
                       ghost ring: seq<TiXmlAttribute>, ghost done: seq<Attribute>)
    returns (r: Option<nat>, ghost ring': seq<TiXmlAttribute>, ghost done': seq<Attribute>)
    requires p <= |s| && attributes.Holds(ring, done)
    modifies attributes.sentinel, ring, document
    ensures attributes.Holds(ring', done')
    ensures forall i :: 0 <= i < |ring'| ==> ring'[i] in ring || fresh(ring'[i])
    ensures var spec := TagBehindAttribute(Grammar.ParseAttribute(s[p..]), done);
            if r.None? then
              spec.attributes == done' && spec.end.Broken? && document.error == Reported(old(document.error), spec.end.error)
            else
              p < r.value < |s| && document.error == old(document.error) && spec == Grammar.ParseTag(s[r.value..], done')
  {
    hide Put, Contents, Named, TiXmlAttributeSet.IsRing, Grammar.ParseAttribute, Grammar.ParseTag;
    ring', done' := ring, done;
    var attrib := new TiXmlAttribute("", "");
    r := ParseAttribute(attrib, s, p, document);
    if r.None? || r.value == |s| {
      document.SetError(Grammar.ErrorParsingElement);
      return None, ring', done';
    }
    ghost var content := attrib.Content();
    var added;
    added, ring' := AddAttribute(attributes, attrib, ring, done);
    if !added {
      done' := Put(done, content.name, CStr(content.value));
      return None, ring', done';
    }
    done' := done + [content];
  }

  /** The attribute loop of `TiXmlElement::Parse`. */
  method ParseTag(attributes: TiXmlAttributeSet, s: string, p: nat, document: ErrorState)
    returns (outcome: TagOutcome, ghost ring: seq<TiXmlAttribute>)
    requires p < |s| && attributes.IsRing([])
    modifies attributes.sentinel, document
    ensures attributes.Holds(ring, Grammar.ParseTag(s[p..], []).attributes)
    ensures forall i :: 0 <= i < |ring| ==> fresh(ring[i])
    ensures TagEnds(s, outcome, old(document.error), document.error, Grammar.ParseTag(s[p..], []).end)
  {
    hide Put, Named, TiXmlAttributeSet.IsRing, Grammar.ParseAttribute, Grammar.ParseTag, TagBehindAttribute, DropSpaces;
    ghost var done, spec := [], Grammar.ParseTag(s[p..], []);
    var q := p;
    ring := [];
    while true
      invariant p <= q < |s| && attributes.Holds(ring, done) && document.error == old(document.error)
      invariant forall i :: 0 <= i < |ring| ==> fresh(ring[i])
      invariant spec == Grammar.ParseTag(s[q..], done)
      decreases |s| - q
    {
      var r := SkipSpaces(s, q);
      TagCases(s[q..], s[r..], done);
      if r == |s| {
        document.SetError(Grammar.ErrorReadingAttributes);
        return TagFailed, ring;
      }
      SuffixStep(s, r);
      if s[r] == '/' {
        if r + 1 == |s| || s[r + 1] != '>' {
          document.SetError(Grammar.ErrorParsingEmpty);
          return TagFailed, ring;
        }
        assert s[r..][2..] == s[r + 2..];
        return TagClosed(r + 2), ring;
      } else if s[r] == '>' {
        return TagOpened(r + 1), ring;
      }
      var next;
      next, ring, done := ReadAttribute(attributes, s, r, document, ring, done);
      if next.None? {
        return TagFailed, ring;
      }
      q := next.value;
    }
  }

  // ---- Nodes ----

  function TypeOf(kind: Grammar.Kind): NodeType {
    match kind
    case DeclarationKind => DeclarationNode
    case CommentKind => CommentNode
    case CDataKind => TextNode
    case UnknownKind => UnknownNode
    case ElementKind => ElementNode
  }

  /** An empty node that only knows its parent. */
  ghost predicate IsNew(node: TiXmlNode, nodeType: NodeType, cdata: bool)
    reads node, node.attributeSet.sentinel
  {
    && node.kind == nodeType && node.cdata == cdata && node.version == node.encoding == node.standalone == ""
    && node.attributeSet.IsRing([])
    && node.firstChild == null && node.lastChild == null && node.parent != node
  }

  /** `g` is the tree that was made of `node`. */
  ghost predicate IsParsed(g: Forest, node: TiXmlNode, t: Tree)
    reads g.entries.Keys, g.attributes
  {
    && Intact(g) && node in g.Nodes() && IsTree(Links(g.Nodes()), g, node) && node.kind != DocumentNode
    && ValueOf(g, node) == t
  }

  /** The tests of `Identify`, in their order. */
  method KindAt(s: string, q: nat) returns (kind: Grammar.Kind)
    requires q < |s|
    ensures kind == Grammar.TagKind(s[q..])
  {
    hide Grammar.StartsNoCase, Grammar.Starts;
    var declaration := StringEqual(s, q, "<?xml", true);
    var comment := StringEqual(s, q, "<!--", false);
    var section := StringEqual(s, q, "<![CDATA[", false);
    var dtd := StringEqual(s, q, "<!", false);
    if declaration {
      kind := Grammar.DeclarationKind;
    } else if comment {
      kind := Grammar.CommentKind;
    } else if section {
      kind := Grammar.CDataKind;
    } else if dtd {
      kind := Grammar.UnknownKind;
    } else if q + 1 < |s| && IsNameStart(s[q + 1]) {
      kind := Grammar.ElementKind;
    } else {
      kind := Grammar.UnknownKind;
    }
  }

  /** An empty node of that kind, with its parent set so that it can report errors. */
  method NewNode(parent: TiXmlNode, kind: Grammar.Kind) returns (node: TiXmlNode)
    ensures fresh(node) && fresh(node.attributeSet.sentinel) && node.parent == parent
    ensures IsNew(node, TypeOf(kind), kind == Grammar.CDataKind)
  {
    hide TiXmlAttributeSet.IsRing;
    node := new TiXmlNode(TypeOf(kind), "");
    node.cdata := kind == Grammar.CDataKind;
    node.parent := parent;
  }

  /** `Identify`: a node of the kind that the text announces. */
  method Identify(parent: TiXmlNode, s: string, p: nat) returns (node: TiXmlNode?)
    requires p <= |s|
    ensures node == null <==> Grammar.Identify(s[p..]) == None
    ensures node != null ==>
              var kind := Grammar.Identify(s[p..]).value;
              fresh(node) && fresh(node.attributeSet.sentinel) && node.parent == parent
              && IsNew(node, TypeOf(kind), kind == Grammar.CDataKind)
  {
    hide Grammar.TagKind, IsNew, DropSpaces;
    EmptyStays();
    var r := SkipWhiteSpace(s, Some(p));
    if r.None? || r.value == |s| {
      return null;
    }
    SuffixStep(s, r.value);
    if s[r.value] != '<' {
      return null;
    }
    var kind := KindAt(s, r.value);
    node := NewNode(parent, kind);
  }

  // ---- Nodes without children ----

  /** A parsed node without children. */
  lemma LeafParsed(node: TiXmlNode, leaf: Tree)
    requires FieldsShow(HeldBy(node), LeafLabel(leaf)) && node.attributeSet.IsRing([])
    requires node.firstChild == null && node.lastChild == null && node.parent != node
    ensures IsParsed(Single(node, LeafLabel(leaf), []), node, leaf)
  {
    hide TiXmlAttributeSet.IsRing, Linked, Shown, IsTree, Links;
    SingleIntact(node, LeafLabel(leaf), []);
  }

  /** What parsing a node from `p` left: its tree, the pointer and the errors. */
  ghost predicate NodeParsed(s: string, r: Option<nat>, before: Option<Error>, after: Option<Error>, spec: Grammar.NodeRead) {
    PointsAt(s, r, spec.rest) && after == Reported(before, spec.error)
  }

  /** Raw text between two tags, the first of which has been seen: the pointer goes past the end tag. */
  method ReadBetween(s: string, p: nat, endTag: string) returns (text: string, r: Option<nat>)
    requires p <= |s| && endTag != ""
    ensures text == Grammar.ReadUpTo(s[p..], endTag).text && PointsAt(s, r, Grammar.ReadUpTo(s[p..], endTag).rest)
  {
    hide Grammar.ReadUpTo, Grammar.Starts;
    var q;
    text, q := ReadRaw(s, p, endTag);
    r := Inside(s, Some(q + |endTag|));
    if q < |s| {
      StartsInside(s[q..], endTag);
    }
  }

  method ReadComment(s: string, p: nat) returns (value: string, r: Option<nat>, failure: Option<Error>)
    requires p <= |s|
    ensures var spec := Grammar.ParseComment(s[p..]);
            spec.node == Comment(value) && PointsAt(s, r, spec.rest) && spec.error == failure
  {
    hide Grammar.ReadUpTo, Grammar.Starts, Grammar.StartsNoCase, DropSpaces, Grammar.ParseComment;
    var q := SkipSpaces(s, p);
    var start := StringEqual(s, q, "<!--", false);
    CommentCases(s[p..], s[q..]);
    if !start {
      return "", None, Some(Grammar.ErrorParsingComment);
    }
    StartsInside(s[q..], "<!--");
    NamePiece(s, q, q + 4);
    value, r := ReadBetween(s, q + 4, "-->");
    failure := None;
  }

  /** `TiXmlComment::Parse`. */
  method ParseComment(node: TiXmlNode, s: string, p: nat, document: ErrorState) returns (r: Option<nat>, ghost g: Forest)
    requires p <= |s| && IsNew(node, CommentNode, false)
    modifies node`value, document
    ensures g == Single(node, LeafLabel(Grammar.ParseComment(s[p..]).node), [])
    ensures IsParsed(g, node, Grammar.ParseComment(s[p..]).node)
    ensures NodeParsed(s, r, old(document.error), document.error, Grammar.ParseComment(s[p..]))
  {
    hide Grammar.ParseComment, TiXmlAttributeSet.IsRing, IsParsed;
    var failure;
    node.value, r, failure := ReadComment(s, p);
    if failure.Some? {
      document.SetError(failure.value);
    }
    LeafParsed(node, Comment(node.value));
    g := Single(node, LeafLabel(Comment(node.value)), []);
  }

  lemma CommentCases(s: string, t: string)
    requires t == DropSpaces(s)
    ensures Grammar.ParseComment(s) ==
            if !Grammar.Starts(t, "<!--") then Grammar.NodeRead(Comment(""), None, Some(Grammar.ErrorParsingComment))
            else
              var body := Grammar.ReadUpTo(t[4..], "-->");
              Grammar.NodeRead(Comment(body.text), body.rest, None)
  {
    hide Grammar.ReadUpTo, DropSpaces;
  }

  lemma UnknownCases(s: string, t: string)
    requires t == DropSpaces(s)
    ensures Grammar.ParseUnknown(s) ==
            if t == "" || t[0] != '<' then Grammar.NodeRead(Unknown(""), None, Some(Grammar.ErrorParsingUnknown))
            else
              var body := Grammar.ReadUpTo(t[1..], ">");
              Grammar.NodeRead(Unknown(body.text), if body.rest.Some? then body.rest else Some(""), None)
  {
    hide Grammar.ReadUpTo, DropSpaces;
  }

  method ReadUnknown(s: string, p: nat) returns (value: string, r: Option<nat>, failure: Option<Error>)
    requires p <= |s|
    ensures var spec := Grammar.ParseUnknown(s[p..]);
            spec.node == Unknown(value) && PointsAt(s, r, spec.rest) && spec.error == failure
  {
    hide Grammar.ReadUpTo, Grammar.Starts, DropSpaces, Grammar.ParseUnknown;
    var q := SkipSpaces(s, p);
    UnknownCases(s[p..], s[q..]);
    if q == |s| || s[q] != '<' {
      return "", None, Some(Grammar.ErrorParsingUnknown);
    }
    SuffixStep(s, q);
    value, q := ReadRaw(s, q + 1, ">");
    if q < |s| {
      StartsInside(s[q..], ">");
      return value, Some(q + 1), None;
    }
    return value, Some(q), None;
  }

  /** `TiXmlUnknown::Parse`. */
  method ParseUnknown(node: TiXmlNode, s: string, p: nat, document: ErrorState) returns (r: Option<nat>, ghost g: Forest)
    requires p <= |s| && IsNew(node, UnknownNode, false)
    modifies node`value, document
    ensures g == Single(node, LeafLabel(Grammar.ParseUnknown(s[p..]).node), [])
    ensures IsParsed(g, node, Grammar.ParseUnknown(s[p..]).node)
    ensures NodeParsed(s, r, old(document.error), document.error, Grammar.ParseUnknown(s[p..]))
  {
    hide Grammar.ParseUnknown, TiXmlAttributeSet.IsRing, IsParsed;
    var failure;
    node.value, r, failure := ReadUnknown(s, p);
    if failure.Some? {
      document.SetError(failure.value);
    }
    LeafParsed(node, Unknown(node.value));
    g := Single(node, LeafLabel(Unknown(node.value)), []);
  }

  /** `TiXmlText::Parse` as a function: a CDATA section, or text up to the next tag. */
  ghost function TextRead(s: string, cdata: bool): Grammar.NodeRead {
    if cdata || Grammar.Starts(s, "<![CDATA[") then Grammar.ParseCData(s)
    else
      var text := ReadTrimming(s, "<");
      Grammar.NodeRead(Text(text.text, false), text.rest, None)
  }

  lemma CDataCases(s: string)
    ensures Grammar.ParseCData(s) ==
            if !Grammar.Starts(s, "<![CDATA[") then Grammar.NodeRead(Text("", true), None, Some(Grammar.ErrorParsingCData))
            else
              var body := Grammar.ReadUpTo(s[9..], "]]>");
              Grammar.NodeRead(Text(body.text, true), body.rest, None)
  {
    hide Grammar.ReadUpTo;
  }

  /** The text of a CDATA section; `ReadText` is left to pass over the end tag. */
  method ReadCData(s: string, p: nat) returns (value: string, r: Option<nat>)
    requires p <= |s| && Grammar.Starts(s[p..], "<![CDATA[")
    ensures var spec := Grammar.ParseCData(s[p..]);
            spec.node == Text(value, true) && PointsAt(s, r, spec.rest) && spec.error == None
  {
    hide Grammar.ReadUpTo, Grammar.ParseCData, ReadKeeping;
    CDataCases(s[p..]);
    StartsInside(s[p..], "<![CDATA[");
    hide Grammar.Starts;
    NamePiece(s, p, p + 9);
    var q, dummy;
    value, q := ReadRaw(s, p + 9, "]]>");
    KeepingEnds(s[q..], "]]>");
    if q < |s| {
      StartsInside(s[q..], "]]>");
      NamePiece(s, q, q + 3);
    }
    dummy, r := ReadTextKeeping(s, q, "]]>");
    r := Inside(s, r);
  }

  /** Text up to the next tag, where the pointer is set back to. */
  method ReadPlainText(s: string, p: nat) returns (value: string, r: Option<nat>)
    requires p <= |s|
    ensures value == ReadTrimming(s[p..], "<").text && PointsAt(s, r, ReadTrimming(s[p..], "<").rest)
  {
    hide ReadTrimming;
    value, r := ReadTextTrimming(s, p, "<");
    if r.Some? {
      r := Some(r.value - 1);
    }
  }

  /** `TiXmlText::Parse`. */
  method ParseText(node: TiXmlNode, s: string, p: nat, document: ErrorState) returns (r: Option<nat>, ghost g: Forest)
    requires p <= |s| && IsNew(node, TextNode, node.cdata)
    modifies node`value, node`cdata, document
    ensures g == Single(node, LeafLabel(TextRead(s[p..], old(node.cdata)).node), [])
    ensures Text(node.value, node.cdata) == TextRead(s[p..], old(node.cdata)).node
    ensures IsParsed(g, node, TextRead(s[p..], old(node.cdata)).node)
    ensures NodeParsed(s, r, old(document.error), document.error, TextRead(s[p..], old(node.cdata)))
  {
    hide Grammar.ParseCData, Grammar.Starts, ReadTrimming, TiXmlAttributeSet.IsRing, IsParsed;
    node.value := "";
    var start := StringEqual(s, p, "<![CDATA[", false);
    if node.cdata || start {
      node.cdata := true;
      if !start {
        CDataCases(s[p..]);
        document.SetError(Grammar.ErrorParsingCData);
        r := None;
      } else {
        node.value, r := ReadCData(s, p);
      }
    } else {
      node.value, r := ReadPlainText(s, p);
    }
    LeafParsed(node, Text(node.value, node.cdata));
    g := Single(node, LeafLabel(Text(node.value, node.cdata)), []);
  }

  // ---- Declarations ----

  /** The fields of a declaration node. */
  ghost function DeclarationOf(node: TiXmlNode): Tree
    reads node
  {
    Declaration(node.version, node.encoding, node.standalone)
  }

  lemma DeclarationCases(s: string, t: string, d: Tree)
    requires d.Declaration? && t == DropSpaces(s)
    ensures Grammar.ParseDeclarationBody(s, d) ==
            if s == "" then Grammar.NodeRead(d, None, None)
            else if s[0] == '>' then Grammar.NodeRead(d, Some(s[1..]), None)
            else
              match Grammar.FieldAt(t)
              case None => Grammar.ParseDeclarationBody(Grammar.SkipWord(t), d)
              case Some(field) =>
                var read := Grammar.ParseAttribute(t);
                var d' := Grammar.SetField(d, field, CStr(Grammar.AttributeValue(read)));
                match Grammar.AttributeRest(read)
                case None => Grammar.NodeRead(d', None, None)
                case Some(rest) => Grammar.ParseDeclarationBody(rest, d')
  {
    hide Grammar.FieldAt, Grammar.SkipWord, Grammar.ParseAttribute, Grammar.SetField, DropSpaces;
  }

  /** The tests of the declaration's loop. */
  method FieldAt(s: string, p: nat) returns (field: Option<Grammar.Field>)
    requires p <= |s|
    ensures field == Grammar.FieldAt(s[p..])
  {
    hide Grammar.StartsNoCase, Grammar.Starts;
    var version := StringEqual(s, p, "version", true);
    var encoding := StringEqual(s, p, "encoding", true);
    var standalone := StringEqual(s, p, "standalone", true);
    return if version then Some(Grammar.Version) else if encoding then Some(Grammar.Encoding)
           else if standalone then Some(Grammar.Standalone) else None;
  }

  lemma WordStep(s: string)
    ensures Grammar.SkipWord(s) == if s == "" || s[0] == '>' || IsWhiteSpace(s[0]) then s else Grammar.SkipWord(s[1..])
  {
  }

  method SkipWord(s: string, p: nat) returns (q: nat)
    requires p <= |s|
    ensures p <= q <= |s| && s[q..] == Grammar.SkipWord(s[p..])
    ensures p < |s| && s[p] != '>' && !IsWhiteSpace(s[p]) ==> p < q
  {
    hide Grammar.SkipWord;
    q := p;
    while q < |s| && s[q] != '>' && !IsWhiteSpace(s[q])
      invariant p <= q <= |s| && Grammar.SkipWord(s[q..]) == Grammar.SkipWord(s[p..])
      invariant p < |s| && s[p] != '>' && !IsWhiteSpace(s[p]) ==> p < q || q == p < |s|
    {
      SuffixStep(s, q);
      WordStep(s[q..]);
      q := q + 1;
    }
    WordStep(s[q..]);
    if q < |s| {
      SuffixStep(s, q);
    }
  }

  /** Reads one field through a temporary attribute without a document. */
  method ParseField(node: TiXmlNode, field: Grammar.Field, s: string, p: nat) returns (r: Option<nat>)
    requires p <= |s|
    modifies node`version, node`encoding, node`standalone
    ensures var read := Grammar.ParseAttribute(s[p..]);
            PointsAt(s, r, Grammar.AttributeRest(read))
            && DeclarationOf(node) == Grammar.SetField(old(DeclarationOf(node)), field, CStr(Grammar.AttributeValue(read)))
  {
    hide Grammar.ParseAttribute;
    var attrib := new TiXmlAttribute("", "");
    r := ParseAttribute(attrib, s, p, null);
    match field {
      case Version => node.version := CStr(attrib.value);
      case Encoding => node.encoding := CStr(attrib.value);
      case Standalone => node.standalone := CStr(attrib.value);
    }
  }

  /** The loop of `TiXmlDeclaration::Parse`. */
  method ParseDeclarationBody(node: TiXmlNode, s: string, p: nat) returns (r: Option<nat>)
    requires p <= |s|
    modifies node`version, node`encoding, node`standalone
    ensures var spec := Grammar.ParseDeclarationBody(s[p..], old(DeclarationOf(node)));
            DeclarationOf(node) == spec.node && PointsAt(s, r, spec.rest) && spec.error == None
  {
    hide Grammar.ParseDeclarationBody, Grammar.ParseAttribute, Grammar.SkipWord, Grammar.FieldAt, Grammar.SetField, DropSpaces;
    ghost var spec := Grammar.ParseDeclarationBody(s[p..], DeclarationOf(node));
    r := Some(p);
    while r.Some? && r.value < |s|
      invariant r.Some? ==> r.value <= |s| && spec == Grammar.ParseDeclarationBody(s[r.value..], DeclarationOf(node))
      invariant r.None? ==> spec == Grammar.NodeRead(DeclarationOf(node), None, None)
      decreases if r.Some? then |s| - r.value + 1 else 0
    {
      var q := SkipSpaces(s, r.value);
      SuffixStep(s, r.value);
      DeclarationCases(s[r.value..], s[q..], DeclarationOf(node));
      if s[r.value] == '>' {
        return Some(r.value + 1);
      }
      var field := FieldAt(s, q);
      if field.Some? {
        r := ParseField(node, field.value, s, q);
      } else {
        q := SkipWord(s, q);
        r := Some(q);
      }
    }
    if r.Some? {
      DeclarationCases("", "", DeclarationOf(node));
      r := None;
    }
  }

  lemma DeclarationStart(s: string, t: string)
    requires t == DropSpaces(s)
    ensures Grammar.ParseDeclaration(s) ==
            if !Grammar.StartsNoCase(t, "<?xml") then
              Grammar.NodeRead(Declaration("", "", ""), None, Some(Grammar.ErrorParsingDeclaration))
            else Grammar.ParseDeclarationBody(t[5..], Declaration("", "", ""))
  {
    hide Grammar.ParseDeclarationBody, Grammar.StartsNoCase, DropSpaces;
  }

  method ReadDeclaration(node: TiXmlNode, s: string, p: nat) returns (r: Option<nat>, failure: Option<Error>)
    requires p <= |s| && DeclarationOf(node) == Declaration("", "", "")
    modifies node`version, node`encoding, node`standalone
    ensures var spec := Grammar.ParseDeclaration(s[p..]);
            DeclarationOf(node) == spec.node && PointsAt(s, r, spec.rest) && spec.error == failure
  {
    hide Grammar.ParseDeclarationBody, Grammar.ParseDeclaration, Grammar.StartsNoCase, DropSpaces, Grammar.Starts;
    var q := SkipSpaces(s, p);
    var start := StringEqual(s, q, "<?xml", true);
    DeclarationStart(s[p..], s[q..]);
    if !start {
      return None, Some(Grammar.ErrorParsingDeclaration);
    }
    NamePiece(s, q, q + 5);
    node.version, node.encoding, node.standalone := "", "", "";
    r := ParseDeclarationBody(node, s, q + 5);
    failure := None;
  }

  /** `TiXmlDeclaration::Parse`. */
  method ParseDeclaration(node: TiXmlNode, s: string, p: nat, document: ErrorState) returns (r: Option<nat>, ghost g: Forest)
    requires p <= |s| && IsNew(node, DeclarationNode, false)
    modifies node`version, node`encoding, node`standalone, document
    ensures g == Single(node, LeafLabel(Grammar.ParseDeclaration(s[p..]).node), [])
    ensures IsParsed(g, node, Grammar.ParseDeclaration(s[p..]).node)
    ensures NodeParsed(s, r, old(document.error), document.error, Grammar.ParseDeclaration(s[p..]))
  {
    hide Grammar.ParseDeclaration, TiXmlAttributeSet.IsRing, IsParsed;
    var failure;
    r, failure := ReadDeclaration(node, s, p);
    if failure.Some? {
      document.SetError(failure.value);
    }
    LeafParsed(node, DeclarationOf(node));
    g := Single(node, LeafLabel(DeclarationOf(node)), []);
  }

  // ---- Elements ----

  /** The first thing in the content of an element: a text or a node. */
  ghost function ChildRead(t: string): Grammar.ContentRead
    requires t != "" && !IsWhiteSpace(t[0]) && !Grammar.Starts(t, "</")
  {
    if t[0] != '<' then
      var text := ReadTrimming(t, "<");
      Grammar.ContentRead(if Blank(text.text) then [] else [Text(text.text, false)], text.rest, None)
    else
      var first := Grammar.ParseNode(t);
      Grammar.ContentRead([first.node], first.rest, first.error)
  }

  lemma ValueCases(s: string, t: string)
    requires t == DropSpaces(s)
    ensures Grammar.ReadValue(s) ==
            if s == "" then Grammar.ContentRead([], None, Some(Grammar.ErrorReadingElementValue))
            else if t == "" then Grammar.ContentRead([], Some(""), None)
            else if Grammar.Starts(t, "</") then Grammar.ContentRead([], Some(t), None)
            else
              var child := ChildRead(t);
              Grammar.ReadMore(child.children, child.rest, child.error)
  {
    hide Grammar.ParseNode, Grammar.ReadMore, ReadTrimming, Blank, Grammar.Identify;
    if t != "" && t[0] != '<' {
      assert !Grammar.Starts(t, "</");
    }
  }

  /** Going on after one more child. */
  lemma MoreSteps(done: seq<Tree>, s: string, t: string, err: Option<Error>)
    requires t == DropSpaces(s) && s != "" && t != "" && !Grammar.Starts(t, "</")
    ensures var child := ChildRead(t);
            Grammar.ReadMore(done, Some(s), err) ==
            Grammar.ReadMore(done + child.children, child.rest, Grammar.EarlierError(err, child.error))
  {
    hide Grammar.ReadValue, ChildRead, DropSpaces;
    ValueCases(s, t);
    var child := ChildRead(t);
    if child.rest.Some? {
      var more := Grammar.ReadValue(child.rest.value).children;
      assert done + (child.children + more) == (done + child.children) + more;
    }
  }

  /** Hangs a parsed node in behind the children there are. */
  method LinkParsed(node: TiXmlNode, child: TiXmlNode, ghost f: Forest, ghost g: Forest, ghost t: Tree) returns (ghost h: Forest)
    requires IsRoot(f, node) && IsParsed(g, child, t) && node.parent !in g.Nodes()
    requires f.Nodes() !! g.Nodes() && f.attributes !! g.attributes
    requires child.parent == null || child.parent == node
    modifies f.Nodes(), child
    ensures IsRoot(h, node) && ValuesOf(h, node, 0) == ValuesOf(f, node, 0) + [t]
    ensures h.entries[node].data == f.entries[node].data && SameOutside(LinkOf(node), old(LinkOf(node)))
    ensures h.Nodes() == f.Nodes() + g.Nodes() && h.attributes == f.attributes + g.attributes
  {
    hide Linked, Shown, IsTree, Attachable, ValueOf, ValuesOf, Forest.WellFormed, Links;
    ChildrenInside(f, node);
    ParentsInside(f, node, g);
    FreshAttachable(f, g, child);
    GraftKeeps(f, g, node, child);
    LinksAt(f.Nodes(), node);
    ghost var l := Links(f.Nodes());
    hide Graft, Kept;
    var linked;
    linked, h := node.LinkEndChild(child, null, f, g);
    RootKept(l, f, Links(h.Nodes()), h, node);
    LinksAt(h.Nodes(), node);
  }

  lemma ParentsInside(f: Forest, node: TiXmlNode, g: Forest)
    requires IsRoot(f, node) && f.Nodes() !! g.Nodes() && node.parent !in g.Nodes()
    ensures forall n :: n in f.Nodes() ==> n.parent !in g.Nodes()
  {
    var l := Links(f.Nodes());
    forall n | n in f.Nodes() ensures n.parent !in g.Nodes() {
      assert l[n].parent == n.parent;
    }
  }

  /** `TiXmlText::Blank`. */
  method IsBlank(value: string) returns (blank: bool)
    ensures blank <==> Blank(value)
  {
    var i := 0;
    while i < |value|
      invariant 0 <= i <= |value| && forall j :: 0 <= j < i ==> IsWhiteSpace(value[j])
    {
      if !IsWhiteSpace(value[i]) {
        return false;
      }
      i := i + 1;
    }
    return true;
  }

  /** What reading content from `p` into the children of `node` left. */
  ghost predicate ContentParsed(s: string, r: Option<nat>, before: Option<Error>, after: Option<Error>, spec: Grammar.ContentRead) {
    PointsAt(s, r, spec.rest) && after == Reported(before, spec.error)
  }

  lemma TextChild(t: string)
    requires t != "" && !IsWhiteSpace(t[0]) && t[0] != '<'
    ensures var read := TextRead(t, false);
            && read.node.IsPlainText() && read.error == None
            && ChildRead(t) == Grammar.ContentRead(if Blank(read.node.value) then [] else [read.node], read.rest, None)
  {
    hide ReadTrimming, Blank;
  }

  lemma ChildShrinks(t: string)
    requires t != "" && !IsWhiteSpace(t[0]) && !Grammar.Starts(t, "</")
    ensures ChildRead(t).rest.Some? ==> |ChildRead(t).rest.value| < |t|
  {
    hide Grammar.ParseNode, ReadTrimming, Grammar.Identify;
    if t[0] != '<' {
      Grammar.TextShrinks(t);
    }
  }

  /** A new text node, read from `p`. */
  method NewText(s: string, p: nat, document: ErrorState) returns (node: TiXmlNode, r: Option<nat>, ghost g: Forest)
    requires p <= |s|
    modifies document
    ensures fresh(node) && fresh(g.Nodes()) && fresh(g.attributes) && node.parent == null
    ensures Text(node.value, node.cdata) == TextRead(s[p..], false).node && IsParsed(g, node, TextRead(s[p..], false).node)
    ensures NodeParsed(s, r, old(document.error), document.error, TextRead(s[p..], false))
  {
    hide IsParsed, TiXmlAttributeSet.IsRing, TextRead, NodeParsed;
    node := new TiXmlNode(TextNode, "");
    r, g := ParseText(node, s, p, document);
  }

  /** A text in the content of an element; blank text is dropped. */
  method ReadTextChild(node: TiXmlNode, s: string, p: nat, document: ErrorState, ghost f: Forest)
    returns (r: Option<nat>, ghost h: Forest)
    requires p < |s| && !IsWhiteSpace(s[p]) && s[p] != '<' && IsRoot(f, node)
    modifies f.Nodes(), document
    ensures IsRoot(h, node) && fresh(h.Nodes() - f.Nodes()) && fresh(h.attributes - f.attributes)
    ensures h.entries[node].data == f.entries[node].data && SameOutside(LinkOf(node), old(LinkOf(node)))
    ensures f.Nodes() <= h.Nodes()
    ensures ValuesOf(h, node, 0) == ValuesOf(f, node, 0) + ChildRead(s[p..]).children
    ensures ContentParsed(s, r, old(document.error), document.error, ChildRead(s[p..]))
  {
    hide IsRoot, ValuesOf, Blank, IsParsed, ChildRead, TextRead;
    SuffixStep(s, p);
    TextChild(s[p..]);
    var textNode;
    ghost var g;
    textNode, r, g := NewText(s, p, document);
    var blank := IsBlank(textNode.value);
    if !blank {
      h := LinkParsed(node, textNode, f, g, Text(textNode.value, false));
    } else {
      h := f;
    }
  }

  /** `TiXmlElement::ReadValue`: the content of an element becomes its children. */
  method ReadValue(node: TiXmlNode, s: string, p: nat, document: ErrorState, ghost f: Forest)
    returns (r: Option<nat>, ghost h: Forest)
    requires p <= |s| && IsRoot(f, node) && f.Children(node) == []
    modifies f.Nodes(), document
    ensures IsRoot(h, node) && fresh(h.Nodes() - f.Nodes()) && fresh(h.attributes - f.attributes)
    ensures h.entries[node].data == f.entries[node].data && SameOutside(LinkOf(node), old(LinkOf(node)))
    ensures ValuesOf(h, node, 0) == Grammar.ReadValue(s[p..]).children
    ensures ContentParsed(s, r, old(document.error), document.error, Grammar.ReadValue(s[p..]))
    decreases |s| - p, 6
  {
    hide Intact, IsTree, Links, ValuesOf, Grammar.ReadValue, Forest.WellFormed;
    ghost var err;
    r, h, err := ReadChildren(node, s, p, document, f);
    if r.None? {
      document.SetError(Grammar.ErrorReadingElementValue);
    }
  }

  /** The loop of `ReadValue`. */
  method ReadChildren(node: TiXmlNode, s: string, p: nat, document: ErrorState, ghost f: Forest)
    returns (r: Option<nat>, ghost h: Forest, ghost err: Option<Error>)
    requires p <= |s| && IsRoot(f, node) && f.Children(node) == []
    modifies f.Nodes(), document
    ensures IsRoot(h, node) && fresh(h.Nodes() - f.Nodes()) && fresh(h.attributes - f.attributes)
    ensures h.entries[node].data == f.entries[node].data && SameOutside(LinkOf(node), old(LinkOf(node)))
    ensures document.error == Reported(old(document.error), err)
    ensures var spec := Grammar.ReadValue(s[p..]);
            ValuesOf(h, node, 0) == spec.children && PointsAt(s, r, spec.rest)
            && spec.error == if r.None? then Grammar.FirstError(err, Grammar.ErrorReadingElementValue) else err
    decreases |s| - p, 5
  {
    hide IsRoot, Holding, ValuesOf, Grammar.ReadValue, Grammar.Starts, Forest.WellFormed, Reading, PointsAt, Reported, LinkOf,
      SameOutside;
    ghost var state, spec := Progress([], Some(s[p..]), None), Grammar.ReadValue(s[p..]);
    ghost var before, data, link := document.error, f.entries[node].data, LinkOf(node);
    NothingReported(before);
    h := f;
    r := SkipWhiteSpace(s, Some(p));
    ReadingStarts(s, p, r);
    HoldingNothing(f, node);
    while r.Some? && r.value < |s|
      invariant Holding(h, node, data, link, state.done) && document.error == Reported(before, state.err)
      invariant fresh(h.Nodes() - f.Nodes()) && fresh(h.attributes - f.attributes)
      invariant Reading(spec, state, s, p, r)
      invariant r.Some? ==> p <= r.value <= |s|
      decreases if r.Some? then |s| - r.value + 1 else 0
    {
      ReadingEnds(spec, state, s, p, r);
      var end;
      end, r, h, state := ReadNext(node, s, p, r.value, document, h, data, link, spec, state, before);
      if end {
        break;
      }
    }
    ReadingEnds(spec, state, s, p, r);
    HoldingMeans(h, node, data, link, state.done);
    err := state.err;
  }

  /** The node's forest while its children are read. */
  ghost predicate Holding(h: Forest, node: TiXmlNode, data: Label, link: Link, done: seq<Tree>)
    reads h.entries.Keys, h.attributes
  {
    IsRoot(h, node) && h.entries[node].data == data && SameOutside(LinkOf(node), link) && ValuesOf(h, node, 0) == done
  }

  lemma HoldingNothing(f: Forest, node: TiXmlNode)
    requires IsRoot(f, node) && f.Children(node) == []
    ensures Holding(f, node, f.entries[node].data, LinkOf(node), [])
  {
    hide IsRoot;
    NoValues(f, node);
  }

  lemma HoldingAll(f: Forest, node: TiXmlNode)
    requires IsRoot(f, node)
    ensures Holding(f, node, f.entries[node].data, LinkOf(node), ValuesOf(f, node, 0))
  {
    hide IsRoot;
  }

  lemma HoldingMeans(h: Forest, node: TiXmlNode, data: Label, link: Link, done: seq<Tree>)
    requires Holding(h, node, data, link, done)
    ensures IsRoot(h, node) && h.entries[node].data == data && SameOutside(LinkOf(node), link) && ValuesOf(h, node, 0) == done
  {
    hide IsRoot;
  }

  /** How far the content of an element is read: the children so far, what is left behind the last
      one, and the error met. */
  datatype Progress = Progress(done: seq<Tree>, rest: Option<string>, err: Option<Error>)

  /** The children so far and what is left make up the whole content; `r` has skipped white space. */
  ghost predicate Reading(spec: Grammar.ContentRead, state: Progress, s: string, p: nat, r: Option<nat>) {
    spec == Grammar.ReadMore(state.done, state.rest, state.err) && Skipped(s, p, r, state.rest)
  }

  lemma ReadingStarts(s: string, p: nat, r: Option<nat>)
    requires p <= |s| && (r.None? <==> p == |s|)
    requires r.Some? ==> p <= r.value <= |s| && s[r.value..] == DropSpaces(s[p..])
    ensures Reading(Grammar.ReadValue(s[p..]), Progress([], Some(s[p..]), None), s, p, r)
  {
    hide DropSpaces, Grammar.ReadValue, Grammar.ReadMore;
    NothingRead(s[p..]);
  }

  lemma ReadingEnds(spec: Grammar.ContentRead, state: Progress, s: string, p: nat, r: Option<nat>)
    requires Reading(spec, state, s, p, r)
    ensures r.None? ==> spec == Grammar.ContentRead(state.done, None, Grammar.FirstError(state.err, Grammar.ErrorReadingElementValue))
                        && PointsAt(s, r, spec.rest)
    ensures r.Some? ==> p <= r.value <= |s| && (r.value < |s| ==> !IsWhiteSpace(s[r.value]))
    ensures r.Some? && (r.value == |s| || Grammar.Starts(s[r.value..], "</")) ==>
              spec.children == state.done && spec.error == state.err && PointsAt(s, r, spec.rest)
  {
    hide Grammar.ReadMore, Grammar.Starts;
    MoreEnds(state.done, state.rest, state.err);
  }

  /** Reads one more child, unless a "</" ends the content, and skips the white space behind it. */
  method ReadNext(node: TiXmlNode, s: string, p: nat, q: nat, document: ErrorState, ghost f: Forest,
                  ghost data: Label, ghost link: Link, ghost spec: Grammar.ContentRead, ghost state: Progress,
                  ghost before: Option<Error>)
    returns (end: bool, r: Option<nat>, ghost h: Forest, ghost state': Progress)
    requires p <= q < |s| && Reading(spec, state, s, p, Some(q))
    requires Holding(f, node, data, link, state.done) && document.error == Reported(before, state.err)
    modifies f.Nodes(), document
    ensures fresh(h.Nodes() - f.Nodes()) && fresh(h.attributes - f.attributes)
    ensures Holding(h, node, data, link, state'.done) && document.error == Reported(before, state'.err)
    ensures Reading(spec, state', s, p, r) && (r.Some? ==> p <= r.value <= |s|)
    ensures end ==> r == Some(q) && Grammar.Starts(s[q..], "</")
    ensures !end && r.Some? ==> q < r.value
    decreases |s| - q, 4
  {
    hide IsRoot, ValuesOf, Grammar.ReadMore, Grammar.Starts, ChildRead, DropSpaces, Forest.WellFormed, LinkOf;
    end := StringEqual(s, q, "</", false);
    if end {
      return true, Some(q), f, state;
    }
    SuffixStep(s, q);
    MoreSteps(state.done, state.rest.value, s[q..], state.err);
    ghost var child := ChildRead(s[q..]);
    r, h := ReadChild(node, s, q, document, f);
    state' := Progress(state.done + child.children, child.rest, Grammar.EarlierError(state.err, child.error));
    var behind := SkipWhiteSpace(s, r);
    SkippedAgain(s, p, r, behind, child.rest);
    r := behind;
  }

  lemma NothingReported(before: Option<Error>)
    ensures Reported(before, None) == before
  {
  }

  /** `r` is what skipping white space made of the rest. */
  ghost predicate Skipped(s: string, p: nat, r: Option<nat>, rest: Option<string>) {
    && (rest.None? || rest.value == "" <==> r.None?)
    && (r.Some? ==> p <= r.value <= |s| && s[r.value..] == DropSpaces(rest.value))
  }

  lemma SkippedAgain(s: string, p: nat, r: Option<nat>, behind: Option<nat>, rest: Option<string>)
    requires PointsAt(s, r, rest) && (r.Some? ==> p <= r.value)
    requires behind.None? <==> r.None? || r.value == |s|
    requires behind.Some? ==> r.value <= behind.value <= |s| && s[behind.value..] == DropSpaces(s[r.value..])
    ensures Skipped(s, p, behind, rest)
  {
    hide DropSpaces;
  }

  lemma NothingRead(s: string)
    ensures Grammar.ReadMore([], Some(s), None) == Grammar.ReadValue(s)
  {
    hide Grammar.ReadValue;
    var more := Grammar.ReadValue(s);
    assert [] + more.children == more.children;
  }

  /** Where the loop of `ReadValue` ends. */
  lemma MoreEnds(done: seq<Tree>, rest: Option<string>, err: Option<Error>)
    ensures rest.None? || rest.value == "" ==>
              Grammar.ReadMore(done, rest, err)
              == Grammar.ContentRead(done, None, Grammar.FirstError(err, Grammar.ErrorReadingElementValue))
    ensures rest.Some? && rest.value != "" && (DropSpaces(rest.value) == "" || Grammar.Starts(DropSpaces(rest.value), "</")) ==>
              Grammar.ReadMore(done, rest, err) == Grammar.ContentRead(done, Some(DropSpaces(rest.value)), err)
  {
    hide Grammar.ReadValue, ChildRead, DropSpaces, Grammar.Starts;
    if rest.Some? {
      ValueCases(rest.value, DropSpaces(rest.value));
      assert done + [] == done;
    }
  }

  /** The next text or node in the content of an element. */
  method ReadChild(node: TiXmlNode, s: string, p: nat, document: ErrorState, ghost f: Forest)
    returns (r: Option<nat>, ghost h: Forest)
    requires p < |s| && !IsWhiteSpace(s[p]) && !Grammar.Starts(s[p..], "</") && IsRoot(f, node)
    modifies f.Nodes(), document
    ensures IsRoot(h, node) && fresh(h.Nodes() - f.Nodes()) && fresh(h.attributes - f.attributes)
    ensures h.entries[node].data == f.entries[node].data && SameOutside(LinkOf(node), old(LinkOf(node)))
    ensures f.Nodes() <= h.Nodes() && (r.Some? ==> p < r.value)
    ensures ValuesOf(h, node, 0) == ValuesOf(f, node, 0) + ChildRead(s[p..]).children
    ensures ContentParsed(s, r, old(document.error), document.error, ChildRead(s[p..]))
    decreases |s| - p, 3
  {
    hide IsRoot, ValuesOf, Grammar.Starts, ChildRead;
    SuffixStep(s, p);
    ChildShrinks(s[p..]);
    if s[p] != '<' {
      r, h := ReadTextChild(node, s, p, document, f);
    } else {
      r, h := ReadNodeChild(node, s, p, document, f);
    }
  }

  /** A node in the content of an element. */
  method ReadNodeChild(node: TiXmlNode, s: string, p: nat, document: ErrorState, ghost f: Forest)
    returns (r: Option<nat>, ghost h: Forest)
    requires p < |s| && s[p] == '<' && !IsWhiteSpace(s[p]) && !Grammar.Starts(s[p..], "</") && IsRoot(f, node)
    modifies f.Nodes(), document
    ensures IsRoot(h, node) && fresh(h.Nodes() - f.Nodes()) && fresh(h.attributes - f.attributes)
    ensures h.entries[node].data == f.entries[node].data && SameOutside(LinkOf(node), old(LinkOf(node)))
    ensures f.Nodes() <= h.Nodes()
    ensures ValuesOf(h, node, 0) == ValuesOf(f, node, 0) + ChildRead(s[p..]).children
    ensures ContentParsed(s, r, old(document.error), document.error, ChildRead(s[p..]))
    decreases |s| - p, 2
  {
    hide IsRoot, ValuesOf, IsParsed, Forest.WellFormed, TiXmlAttributeSet.IsRing, Grammar.ParseNode, Grammar.Identify;
    SuffixStep(s, p);
    TagIdentified(s[p..]);
    var child := Identify(node, s, p);
    ghost var g;
    r, g := ParseNode(child, s, p, document);
    h := LinkParsed(node, child, f, g, Grammar.ParseNode(s[p..]).node);
  }

  lemma TagIdentified(t: string)
    requires t != "" && t[0] == '<'
    ensures Grammar.Identify(t).Some?
  {
    hide Grammar.TagKind;
  }

  /** `TiXmlNode::Parse`, by the kind of the node. */
  method ParseNode(node: TiXmlNode, s: string, p: nat, document: ErrorState) returns (r: Option<nat>, ghost g: Forest)
    requires p <= |s| && Grammar.Identify(s[p..]).Some?
    requires var kind := Grammar.Identify(s[p..]).value; IsNew(node, TypeOf(kind), kind == Grammar.CDataKind)
    modifies node, node.attributeSet.sentinel, document
    ensures IsParsed(g, node, Grammar.ParseNode(s[p..]).node)
    ensures NodeParsed(s, r, old(document.error), document.error, Grammar.ParseNode(s[p..]))
    ensures fresh(g.Nodes() - {node}) && fresh(g.attributes - {node.attributeSet.sentinel}) && node.parent == old(node.parent)
    decreases |s| - p, 1
  {
    hide IsParsed, Grammar.Identify, TiXmlAttributeSet.IsRing, Grammar.ParseComment, Grammar.ParseUnknown,
      Grammar.ParseDeclaration, Grammar.ParseElement, Grammar.ParseCData, Grammar.ParseNode, Grammar.Starts;
    NodeCases(s[p..]);
    if node.kind == DeclarationNode {
      r, g := ParseDeclaration(node, s, p, document);
    } else if node.kind == CommentNode {
      r, g := ParseComment(node, s, p, document);
    } else if node.kind == TextNode {
      r, g := ParseText(node, s, p, document);
    } else if node.kind == UnknownNode {
      r, g := ParseUnknown(node, s, p, document);
    } else {
      r, g := ParseElement(node, s, p, document);
    }
  }

  lemma NodeCases(s: string)
    requires Grammar.Identify(s).Some?
    ensures Grammar.ParseNode(s) ==
            var kind := Grammar.Identify(s).value;
            if kind.DeclarationKind? then Grammar.ParseDeclaration(s)
            else if kind.CommentKind? then Grammar.ParseComment(s)
            else if kind.CDataKind? then TextRead(s, true)
            else if kind.UnknownKind? then Grammar.ParseUnknown(s)
            else Grammar.ParseElement(s)
  {
    hide Grammar.Identify, Grammar.ParseComment, Grammar.ParseUnknown, Grammar.ParseDeclaration,
      Grammar.ParseElement, Grammar.ParseCData;
  }

  /** `TiXmlElement::Parse`. */
  method ParseElement(node: TiXmlNode, s: string, p: nat, document: ErrorState) returns (r: Option<nat>, ghost g: Forest)
    requires p <= |s| && IsNew(node, ElementNode, false)
    modifies node, node.attributeSet.sentinel, document
    ensures IsParsed(g, node, Grammar.ParseElement(s[p..]).node)
    ensures NodeParsed(s, r, old(document.error), document.error, Grammar.ParseElement(s[p..]))
    ensures fresh(g.Nodes() - {node}) && fresh(g.attributes - {node.attributeSet.sentinel}) && node.parent == old(node.parent)
    decreases |s| - p, 0
  {
    hide IsParsed, TiXmlAttributeSet.IsRing, Grammar.ParseElement, Grammar.ParseElementBody;
    var failure;
    node.value, r, failure := ReadElementName(s, p);
    if failure.Some? {
      document.SetError(failure.value);
      EmptyElementParsed(node, [], []);
      return None, Single(node, ElementLabel(node.value, []), []);
    }
    r, g := ParseElementBody(node, s, r.value, document);
  }

  /** A parsed element without children. */
  lemma EmptyElementParsed(node: TiXmlNode, attributes: seq<Attribute>, ring: seq<TiXmlAttribute>)
    requires node.kind == ElementNode && node.attributeSet.Holds(ring, attributes)
    requires node.firstChild == null && node.lastChild == null && node.parent != node
    ensures var g := Single(node, ElementLabel(node.value, attributes), ring);
            IsRoot(g, node) && g.Children(node) == [] && IsParsed(g, node, Element(node.value, attributes, []))
  {
    hide TiXmlAttributeSet.IsRing, Linked, Shown, IsTree, Links, Contents;
    SingleIntact(node, ElementLabel(node.value, attributes), ring);
  }

  lemma NoElement(s: string, t: string)
    requires t == DropSpaces(s) && (t == "" || t[0] != '<')
    ensures Grammar.ParseElement(s) == Grammar.NodeRead(Element("", [], []), None, Some(Grammar.ErrorParsingElement))
  {
    hide DropSpaces;
  }

  lemma NamedElement(s: string, t: string, u: string)
    requires t == DropSpaces(s) && t != "" && t[0] == '<' && u == DropSpaces(t[1..])
    ensures Grammar.ParseElement(s) ==
            var name := Grammar.ReadName(u);
            if name.None? then Grammar.NodeRead(Element("", [], []), None, Some(Grammar.ErrorFailedToReadElementName))
            else if name.value.rest == "" then
              Grammar.NodeRead(Element(name.value.text, [], []), None, Some(Grammar.ErrorFailedToReadElementName))
            else Grammar.ParseElementBody(name.value.text, name.value.rest)
  {
    hide DropSpaces, Grammar.ReadName, Grammar.ParseElementBody;
  }

  /** A name behind white space, which has to be followed by something. */
  method ReadNameBehind(s: string, p: nat) returns (name: string, r: Option<nat>)
    requires p <= |s|
    ensures var read := Grammar.ReadName(DropSpaces(s[p..]));
            if read.None? then r.None? && name == ""
            else name == read.value.text && (r.None? <==> read.value.rest == "")
                 && (r.Some? ==> p < r.value < |s| && s[r.value..] == read.value.rest)
  {
    hide DropSpaces, Grammar.ReadName;
    NameNothing();
    r := SkipWhiteSpace(s, Some(p));
    name, r := ReadName(s, r);
    if r.None? {
      name := "";
    } else if r.value == |s| {
      r := None;
    }
  }

  /** The name of an element. */
  method ReadElementName(s: string, p: nat) returns (name: string, r: Option<nat>, failure: Option<Error>)
    requires p <= |s|
    ensures failure.Some? ==> Grammar.ParseElement(s[p..]) == Grammar.NodeRead(Element(name, [], []), None, failure)
    ensures failure.None? ==> r.Some? && p < r.value < |s|
                              && Grammar.ParseElement(s[p..]) == Grammar.ParseElementBody(name, s[r.value..])
  {
    hide DropSpaces, Grammar.ReadName, Grammar.ParseElement, Grammar.ParseElementBody;
    var q := SkipSpaces(s, p);
    if q == |s| || s[q] != '<' {
      NoElement(s[p..], s[q..]);
      return "", None, Some(Grammar.ErrorParsingElement);
    }
    SuffixStep(s, q);
    NamedElement(s[p..], s[q..], DropSpaces(s[q + 1..]));
    name, r := ReadNameBehind(s, q + 1);
    failure := if r.None? then Some(Grammar.ErrorFailedToReadElementName) else None;
  }

  lemma NameNothing()
    ensures Grammar.ReadName(DropSpaces("")) == None
  {
  }

  /** `TiXmlElement::Parse` behind the name. */
  method ParseElementBody(node: TiXmlNode, s: string, p: nat, document: ErrorState) returns (r: Option<nat>, ghost g: Forest)
    requires p < |s| && IsNew(node, ElementNode, false)
    modifies node, node.attributeSet.sentinel, document
    ensures IsParsed(g, node, Grammar.ParseElementBody(old(node.value), s[p..]).node)
    ensures NodeParsed(s, r, old(document.error), document.error, Grammar.ParseElementBody(old(node.value), s[p..]))
    ensures fresh(g.Nodes() - {node}) && fresh(g.attributes - {node.attributeSet.sentinel}) && node.parent == old(node.parent)
    decreases |s| - p, 5
  {
    hide IsParsed, IsRoot, TiXmlAttributeSet.IsRing, Grammar.ParseElementBody, Grammar.ParseTag, Grammar.ReadValue, Contents,
      TagEnds, Grammar.CloseElement, Forest.WellFormed, ValueOf, ValuesOf;
    ghost var tag, name, before := Grammar.ParseTag(s[p..], []), node.value, document.error;
    var outcome;
    ghost var ring;
    outcome, ring := ParseTag(node.attributeSet, s, p, document);
    BodyCases(name, s, p, outcome, before, document.error);
    EmptyElementParsed(node, tag.attributes, ring);
    g := Single(node, ElementLabel(node.value, tag.attributes), ring);
    match outcome {
      case TagFailed => r := None;
      case TagClosed(at) => r := Some(at);
      case TagOpened(at) =>
        r, g := ParseContent(node, s, at, document, g, tag.attributes);
    }
  }

  /** What the body of an element is after its start tag. */
  lemma BodyCases(name: string, s: string, p: nat, outcome: TagOutcome, before: Option<Error>, after: Option<Error>)
    requires p <= |s| && TagEnds(s, outcome, before, after, Grammar.ParseTag(s[p..], []).end)
    ensures var tag, spec := Grammar.ParseTag(s[p..], []), Grammar.ParseElementBody(name, s[p..]);
            var node := Element(name, tag.attributes, []);
            && (outcome.TagFailed? ==>
                  spec == Grammar.NodeRead(node, None, spec.error) && after == Reported(before, spec.error))
            && (outcome.TagClosed? ==>
                  outcome.at <= |s| && spec == Grammar.NodeRead(node, Some(s[outcome.at..]), None) && after == before)
            && (outcome.TagOpened? ==>
                  p < outcome.at <= |s| && after == before
                  && spec == Grammar.CloseElement(name, tag.attributes, Grammar.ReadValue(s[outcome.at..])))
  {
    hide Grammar.ParseTag, Grammar.ReadValue, Grammar.CloseElement;
  }

  /** The content and the end tag of an element. */
  method ParseContent(node: TiXmlNode, s: string, p: nat, document: ErrorState, ghost f: Forest, ghost attributes: seq<Attribute>)
    returns (r: Option<nat>, ghost g: Forest)
    requires p <= |s| && IsRoot(f, node) && f.Children(node) == [] && f.Nodes() == {node}
    requires node.kind == ElementNode && f.entries[node].data == ElementLabel(node.value, attributes)
    modifies node, document
    ensures var spec := Grammar.CloseElement(old(node.value), attributes, Grammar.ReadValue(s[p..]));
            IsParsed(g, node, spec.node) && NodeParsed(s, r, old(document.error), document.error, spec)
    ensures fresh(g.Nodes() - {node}) && fresh(g.attributes - f.attributes) && node.parent == old(node.parent)
    decreases |s| - p, 7
  {
    hide Intact, IsTree, Links, Grammar.ReadValue, Grammar.CloseElement, Forest.WellFormed, ValueOf, ValuesOf, PointsAt, Reported;
    ghost var name, content, before := node.value, Grammar.ReadValue(s[p..]), document.error;
    var endTag := "</" + node.value + ">";
    r, g := ReadValue(node, s, p, document, f);
    RootParsed(g, node);
    CloseKeeps(name, attributes, content);
    r := ReadEndTag(s, r, endTag, document, name, attributes, content, before);
  }

  /** The end of `TiXmlElement::Parse`: the end tag has to follow. */
  method ReadEndTag(s: string, p: Option<nat>, endTag: string, document: ErrorState, ghost name: string,
                    ghost attributes: seq<Attribute>, ghost content: Grammar.ContentRead, ghost before: Option<Error>)
    returns (r: Option<nat>)
    requires PointsAt(s, p, content.rest) && document.error == Reported(before, content.error)
    requires endTag == "</" + name + ">"
    modifies document
    ensures NodeParsed(s, r, before, document.error, Grammar.CloseElement(name, attributes, content))
  {
    hide Grammar.Starts, Grammar.CloseElement;
    if p.None? || p.value == |s| {
      NotClosed(name, attributes, content);
      document.SetError(Grammar.ErrorReadingEndTag);
      return None;
    }
    var end := StringEqual(s, p.value, endTag, false);
    Closed(name, attributes, content);
    if end {
      StartsInside(s[p.value..], endTag);
      NamePiece(s, p.value, p.value + |endTag|);
      return Some(p.value + |endTag|);
    }
    document.SetError(Grammar.ErrorReadingEndTag);
    return None;
  }

  lemma CloseKeeps(name: string, attributes: seq<Attribute>, content: Grammar.ContentRead)
    ensures Grammar.CloseElement(name, attributes, content).node == Element(name, attributes, content.children)
  {
  }

  lemma RootParsed(g: Forest, node: TiXmlNode)
    requires IsRoot(g, node) && node.kind == ElementNode && g.entries[node].data.ElementLabel?
    ensures var data := g.entries[node].data; IsParsed(g, node, Element(data.name, data.attributes, ValuesOf(g, node, 0)))
  {
    hide Linked, Shown, IsTree, Links, ValuesOf, ValueOf;
    ValueUnfolds(g, node);
  }

  lemma Closed(name: string, attributes: seq<Attribute>, content: Grammar.ContentRead)
    requires content.rest.Some?
    ensures var node, end := Element(name, attributes, content.children), "</" + name + ">";
            Grammar.CloseElement(name, attributes, content) ==
            if Grammar.Starts(content.rest.value, end) then
              Grammar.NodeRead(node, Some(content.rest.value[|end|..]), content.error)
            else Grammar.NodeRead(node, None, Grammar.FirstError(content.error, Grammar.ErrorReadingEndTag))
  {
  }

  lemma NotClosed(name: string, attributes: seq<Attribute>, content: Grammar.ContentRead)
    requires content.rest.None? || content.rest.value == ""
    ensures Grammar.CloseElement(name, attributes, content) ==
            Grammar.NodeRead(Element(name, attributes, content.children), None,
                             Grammar.FirstError(content.error, Grammar.ErrorReadingEndTag))
  {
  }

  // ---- The document ----

  /** The nodes so far and those in the text that is left are all the nodes. */
  ghost predicate ReadingNodes(spec: Grammar.ContentRead, done: seq<Tree>, err: Option<Error>, s: string, r: Option<nat>) {
    match r
    case None => spec == Grammar.ContentRead(done, None, err)
    case Some(q) =>
      q <= |s|
      && var more := Grammar.ParseNodes(s[q..]);
         spec == Grammar.ContentRead(done + more.children, more.rest, Grammar.EarlierError(err, more.error))
  }

  lemma NodesCases(s: string)
    ensures Grammar.ParseNodes(s) ==
            if s == "" then Grammar.ContentRead([], Some(""), None)
            else if Grammar.Identify(s).None? then Grammar.ContentRead([], Some(s), None)
            else
              var first := Grammar.ParseNode(s);
              if first.rest.None? || first.rest.value == "" then Grammar.ContentRead([first.node], None, first.error)
              else
                var more := Grammar.ParseNodes(DropSpaces(first.rest.value));
                Grammar.ContentRead([first.node] + more.children, more.rest, Grammar.EarlierError(first.error, more.error))
  {
    hide Grammar.ParseNode, Grammar.Identify, DropSpaces;
  }

  /** One more node of the document. */
  lemma NodesStep(spec: Grammar.ContentRead, done: seq<Tree>, err: Option<Error>, s: string, q: nat, r: Option<nat>,
                  behind: Option<nat>)
    requires q < |s| && ReadingNodes(spec, done, err, s, Some(q)) && Grammar.Identify(s[q..]).Some?
    requires PointsAt(s, r, Grammar.ParseNode(s[q..]).rest)
    requires behind.None? <==> r.None? || r.value == |s|
    requires behind.Some? ==> behind.value <= |s| && s[behind.value..] == DropSpaces(s[r.value..])
    ensures var first := Grammar.ParseNode(s[q..]);
            ReadingNodes(spec, done + [first.node], Grammar.EarlierError(err, first.error), s, behind)
  {
    hide Grammar.ParseNode, Grammar.Identify, DropSpaces, Grammar.ParseNodes;
    NodesCases(s[q..]);
    var first := Grammar.ParseNode(s[q..]);
    if behind.Some? {
      var more := Grammar.ParseNodes(s[behind.value..]).children;
      assert done + ([first.node] + more) == (done + [first.node]) + more;
    }
  }

  lemma NodesEnd(spec: Grammar.ContentRead, done: seq<Tree>, err: Option<Error>, s: string, r: Option<nat>)
    requires ReadingNodes(spec, done, err, s, r)
    requires r.Some? ==> r.value == |s| || Grammar.Identify(s[r.value..]).None?
    ensures spec.children == done && spec.error == err && PointsAt(s, r, spec.rest)
  {
    hide Grammar.ParseNodes, Grammar.Identify;
    if r.Some? {
      NodesCases(s[r.value..]);
      assert done + [] == done;
    }
  }

  /** One round of the document's loop. */
  method ParseNext(doc: TiXmlNode, s: string, p: nat, document: ErrorState, ghost f: Forest, ghost data: Label,
                   ghost link: Link, ghost spec: Grammar.ContentRead, ghost done: seq<Tree>,
                   ghost err: Option<Error>, ghost before: Option<Error>)
    returns (end: bool, r: Option<nat>, ghost h: Forest, ghost done': seq<Tree>, ghost err': Option<Error>)
    requires p < |s| && ReadingNodes(spec, done, err, s, Some(p))
    requires Holding(f, doc, data, link, done) && document.error == Reported(before, err)
    modifies f.Nodes(), document
    ensures fresh(h.Nodes() - f.Nodes()) && fresh(h.attributes - f.attributes)
    ensures Holding(h, doc, data, link, done') && document.error == Reported(before, err')
    ensures ReadingNodes(spec, done', err', s, r)
    ensures if end then r == Some(p) && Grammar.Identify(s[p..]).None? else r.Some? ==> p < r.value <= |s|
  {
    hide IsRoot, IsParsed, ValuesOf, Forest.WellFormed, TiXmlAttributeSet.IsRing, Grammar.ParseNode, Grammar.Identify,
      DropSpaces, ReadingNodes, LinkOf;
    end, r, h, done', err' := true, Some(p), f, done, err;
    var node := Identify(doc, s, p);
    if node == null {
      return;
    }
    ghost var first := Grammar.ParseNode(s[p..]);
    ghost var g;
    r, g := ParseNode(node, s, p, document);
    h := LinkParsed(doc, node, f, g, first.node);
    var behind := SkipWhiteSpace(s, r);
    NodesStep(spec, done, err, s, p, r, behind);
    end, r := false, behind;
    done', err' := done + [first.node], Grammar.EarlierError(err, first.error);
  }

  /** The loop of `TiXmlDocument::Parse`: the nodes are linked in behind the children there are. */
  method ParseNodes(doc: TiXmlNode, s: string, p: nat, document: ErrorState, ghost f: Forest)
    returns (r: Option<nat>, ghost h: Forest)
    requires p <= |s| && IsRoot(f, doc)
    modifies f.Nodes(), document
    ensures fresh(h.Nodes() - f.Nodes()) && fresh(h.attributes - f.attributes)
    ensures Holding(h, doc, f.entries[doc].data, old(LinkOf(doc)),
                    ValuesOf(f, doc, 0) + Grammar.ParseNodes(s[p..]).children)
    ensures ContentParsed(s, r, old(document.error), document.error, Grammar.ParseNodes(s[p..]))
  {
    hide IsRoot, Holding, Grammar.ParseNodes, Grammar.Identify, PointsAt, Reported, Forest.WellFormed, ValuesOf;
    ghost var before, data, link := document.error, f.entries[doc].data, LinkOf(doc);
    ghost var done: seq<Tree>, err: Option<Error> := ValuesOf(f, doc, 0), None;
    ghost var content := Grammar.ParseNodes(s[p..]);
    ghost var spec := Grammar.ContentRead(done + content.children, content.rest, content.error);
    NothingReported(before);
    HoldingAll(f, doc);
    NodesStart(done, s, p);
    hide ReadingNodes;
    h, r := f, Some(p);
    while r.Some? && r.value < |s|
      invariant Holding(h, doc, data, link, done) && document.error == Reported(before, err)
      invariant fresh(h.Nodes() - f.Nodes()) && fresh(h.attributes - f.attributes)
      invariant ReadingNodes(spec, done, err, s, r) && (r.Some? ==> r.value <= |s|)
      decreases if r.Some? then |s| - r.value + 1 else 0
    {
      var end;
      end, r, h, done, err := ParseNext(doc, s, r.value, document, h, data, link, spec, done, err, before);
      if end {
        break;
      }
    }
    NodesEnd(spec, done, err, s, r);
  }

  lemma NodesStart(done: seq<Tree>, s: string, p: nat)
    requires p <= |s|
    ensures var content := Grammar.ParseNodes(s[p..]);
            ReadingNodes(Grammar.ContentRead(done + content.children, content.rest, content.error), done, None, s, Some(p))
  {
    hide Grammar.ParseNodes;
  }

  /** `TiXmlDocument::Parse`: links the nodes of a text in behind the children that the document has.
      Only a text without any, in a document without any, is an empty document, and an empty text. */
  method ParseDocument(doc: TiXmlNode, s: string, document: ErrorState, ghost f: Forest)
    returns (r: Option<nat>, ghost h: Forest)
    requires IsRoot(f, doc)
    modifies f.Nodes(), document
    ensures IsRoot(h, doc) && fresh(h.Nodes() - f.Nodes()) && h.entries[doc].data == f.entries[doc].data
    ensures var spec := Grammar.ParseBehind(ValuesOf(f, doc, 0), s);
            ValuesOf(h, doc, 0) == spec.children && PointsAt(s, r, spec.rest) && document.error == spec.error
    ensures SameOutside(LinkOf(doc), old(LinkOf(doc))) && (old(StandsAlone(f, doc)) ==> StandsAlone(h, doc))
    ensures fresh(h.attributes - f.attributes)
  {
    hide Intact, IsTree, Links, Grammar.ParseNodes, DropSpaces, ValuesOf, Forest.WellFormed;
    document.ClearError();
    if s == "" {
      document.SetError(Grammar.ErrorDocumentEmpty);
      return None, f;
    }
    var p := SkipWhiteSpace(s, Some(0));
    assert s[0..] == s;
    r, h := ParseNodes(doc, s, p.value, document, f);
    FirstChildOf(h, doc);
    if doc.firstChild == null {
      document.SetError(Grammar.ErrorDocumentEmpty);
      return None, h;
    }
  }

  lemma FirstChildOf(h: Forest, doc: TiXmlNode)
    requires IsRoot(h, doc)
    ensures doc.firstChild == null <==> ValuesOf(h, doc, 0) == []
  {
    hide IsTree, ValuesOf;
    ChainAt(h, doc, 0);
  }
}
