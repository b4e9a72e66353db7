/** What the parser makes of text that is not well formed, and of forms that the printer never writes. */
module Malformed {
  import opened Characters
  import opened Entities
  import opened CharacterData
  import opened Condensing
  import opened XmlTree
  import opened AttributeMap
  import opened Grammar
  import opened NormalForm
  import opened RoundTrip
  import opened Scanner
  import opened RoundTripTree
  import opened ParserRange

  // ---- Kinds of tags ----

  /** The kind of a tag by what stands behind its "<". */
  lemma KindsOfTags(u: string)
    ensures TagKind("<" + u) ==
            if |u| >= 4 && u[0] == '?' && u[1] in "xX" && u[2] in "mM" && u[3] in "lL" then DeclarationKind
            else if "!--" <= u then CommentKind
            else if "![CDATA[" <= u then CDataKind
            else if u != "" && u[0] != '!' && IsNameStart(u[0]) then ElementKind
            else UnknownKind
  {
    var t := "<" + u;
    assert t[0] == '<' && t[1..] == u;
    DeclarationTag(u);
    Behind("!--", u);
    Behind("![CDATA[", u);
    Behind("!", u);
    assert "<" + "!--" == "<!--" && "<" + "![CDATA[" == "<![CDATA[" && "<" + "!" == "<!";
    hide StartsNoCase, IsNameStart;
  }

  lemma Behind(tag: string, u: string)
    ensures "<" + tag <= "<" + u <==> tag <= u
  {
    if tag <= u {
      assert ("<" + u)[..|tag| + 1] == "<" + u[..|tag|];
    }
    if "<" + tag <= "<" + u {
      assert u == ("<" + u)[1..] && tag == ("<" + tag)[1..];
      assert u[..|tag|] == ("<" + u)[1..|tag| + 1];
    }
  }

  lemma DeclarationTag(u: string)
    ensures StartsNoCase("<" + u, "<?xml") <==> |u| >= 4 && u[0] == '?' && u[1] in "xX" && u[2] in "mM" && u[3] in "lL"
  {
    var t, tag := "<" + u, "<?xml";
    BeginsMeans(t, tag);
    hide StartsNoCase;
    if |u| >= 4 {
      assert t[1] == u[0] && t[2] == u[1] && t[3] == u[2] && t[4] == u[3];
      Letters(u[0], u[1], u[2], u[3]);
      FiveBegin(t);
      hide SameIgnoring;
    }
  }

  lemma FiveBegin(t: string)
    requires |t| >= 5
    ensures Begins(t, "<?xml", true) <==>
            && SameIgnoring(t[0], '<', true) && SameIgnoring(t[1], '?', true) && SameIgnoring(t[2], 'x', true)
            && SameIgnoring(t[3], 'm', true) && SameIgnoring(t[4], 'l', true)
  {
    hide SameIgnoring;
    var tag := "<?xml";
    assert tag[0] == '<' && tag[1] == '?' && tag[2] == 'x' && tag[3] == 'm' && tag[4] == 'l';
  }

  lemma Letters(q: char, x: char, m: char, l: char)
    ensures SameIgnoring('<', '<', true) && (SameIgnoring(q, '?', true) <==> q == '?')
    ensures (SameIgnoring(x, 'x', true) <==> x in "xX") && (SameIgnoring(m, 'm', true) <==> m in "mM")
    ensures SameIgnoring(l, 'l', true) <==> l in "lL"
  {
  }

  // ---- Start tags that break off ----

  /** How a start tag ends or breaks off where something other than an attribute stands. */
  lemma TagBreaks(w: string, x: string, attributes: seq<Attribute>)
    requires AllWhite(w)
    ensures var end := ParseTag(w + x, attributes).end;
            && (x == "" ==> end == Broken(Some(ErrorReadingAttributes)))
            && (">" <= x ==> end == TagEnd.Open(x[1..]))
            && ("/>" <= x ==> end == TagEnd.Closed(x[2..]))
            && (x != "" && x[0] == '/' && !("/>" <= x) ==> end == Broken(Some(ErrorParsingEmpty)))
            && (x != "" && !IsWhiteSpace(x[0]) && x[0] != '/' && x[0] != '>' && !IsNameStart(x[0]) ==>
                  end == Broken(Some(ErrorReadingAttributes)))
    ensures x == "" || x[0] == '/' || x[0] == '>' ==> ParseTag(w + x, attributes).attributes == attributes
  {
    hide ParseTag, ParseAttribute;
    DropWhite(w, x);
    NothingBlack(x);
    SlashEnd(x);
    NoNameHere(x);
    hide AllWhite, IsNameStart, IsWhiteSpace;
    TagEndsAt(w + x, attributes);
    hide DropSpaces;
  }

  lemma NoNameHere(x: string)
    ensures x != "" && !IsWhiteSpace(x[0]) && !IsNameStart(x[0]) ==> ParseAttribute(x) == Failed("", Some(ErrorReadingAttributes))
  {
    NothingBlack(x);
    hide DropSpaces, NameLength, IsNameStart, ParseEquals;
  }

  lemma TagEndsAt(s: string, attributes: seq<Attribute>)
    ensures var x, tag := DropSpaces(s), ParseTag(s, attributes);
            && (x == "" ==> tag == TagRead(attributes, Broken(Some(ErrorReadingAttributes))))
            && (x != "" && x[0] == '>' ==> tag == TagRead(attributes, TagEnd.Open(x[1..])))
            && (x != "" && x[0] == '/' ==>
                  tag == TagRead(attributes,
                                 if |x| >= 2 && x[1] == '>' then TagEnd.Closed(x[2..]) else Broken(Some(ErrorParsingEmpty))))
            && (x != "" && x[0] != '/' && x[0] != '>' && ParseAttribute(x) == Failed("", Some(ErrorReadingAttributes)) ==>
                  tag.end == Broken(Some(ErrorReadingAttributes)))
  {
    hide DropSpaces, ParseAttribute, Put, Named;
  }

  lemma SlashEnd(x: string)
    ensures "/>" <= x <==> |x| >= 2 && x[0] == '/' && x[1] == '>'
    ensures ">" <= x <==> x != "" && x[0] == '>'
  {
  }

  lemma NothingBlack(x: string)
    ensures x == "" || !IsWhiteSpace(x[0]) ==> DropSpaces(x) == x
  {
  }

  // ---- Attributes ----

  /** An attribute without its equals sign, or without anything behind it. */
  lemma NoValue(n: string, w: string, u: string)
    requires IsName(n) && AllWhite(w) && (u == "" || (u[0] != '=' && !IsWhiteSpace(u[0])))
    requires w + u == "" || !IsNameChar((w + u)[0])
    ensures ParseAttribute(n + (w + u)) == Failed("", Some(ErrorReadingAttributes))
  {
    NameComesFirst(n, w + u);
    DropWhite(w, u);
    NothingBlack(u);
    hide Grammar.ReadName, DropSpaces, IsName;
  }

  lemma NameComesFirst(n: string, u: string)
    requires IsName(n) && (u == "" || !IsNameChar(u[0]))
    ensures n + u != "" && DropSpaces(n + u) == n + u && Grammar.ReadName(n + u) == Some(Chunk(n, u))
    ensures ParseAttribute(n + u) == ParseEquals(n, u) && (n + u)[0] == n[0] && IsNameStart(n[0])
  {
    ReadsName(n, u);
    NameStartMarks(n[0]);
    assert (n + u)[0] == n[0];
    NothingBlack(n + u);
    hide Grammar.ReadName, DropSpaces, IsName, ParseEquals;
  }

  /** White space may stand on both sides of the equals sign. */
  lemma EqualsRead(n: string, w: string, w': string, x: string)
    requires IsName(n) && AllWhite(w) && AllWhite(w') && (x == "" || !IsWhiteSpace(x[0]))
    ensures ParseAttribute(n + (w + ("=" + (w' + x)))) ==
            if x == "" then Failed("", Some(ErrorReadingAttributes)) else ParseAttributeValue(n, x)
  {
    hide *;
    var u := "=" + (w' + x);
    Tail(w', x);
    NotNameChar(w, u);
    NameComesFirst(n, w + u);
    DropWhite(w, u);
    DropWhite(w', x);
    NothingBlack(u);
    NothingBlack(x);
    EqualsAt(n, w + u);
  }

  lemma Tail(w: string, x: string)
    ensures var u := "=" + (w + x); u != "" && u[0] == '=' && u[1..] == w + x && !IsWhiteSpace(u[0])
  {
  }

  lemma EqualsAt(n: string, s: string)
    requires DropSpaces(s) != "" && DropSpaces(s)[0] == '='
    ensures var x := DropSpaces(DropSpaces(s)[1..]);
            ParseEquals(n, s) == if x == "" then Failed("", Some(ErrorReadingAttributes)) else ParseAttributeValue(n, x)
  {
    hide DropSpaces, ParseAttributeValue;
  }

  lemma NotNameChar(w: string, u: string)
    requires AllWhite(w) && u != "" && u[0] == '='
    ensures w + u != "" && !IsNameChar((w + u)[0])
  {
    if w != "" {
      WhiteSpaceIs(w[0]);
      assert (w + u)[0] == w[0];
    } else {
      assert w + u == u;
    }
  }

  /** A value between quotes of either kind; nothing but an error comes of one that does not end. */
  lemma QuotedValue(n: string, q: char, v: string, r: string)
    requires IsQuote(q) && q !in v && '&' !in v
    ensures ParseAttributeValue(n, [q] + (v + ([q] + r))) == Read(Attribute(n, v), r)
    ensures ParseAttributeValue(n, [q] + v) == Failed(v, None)
  {
    var s, t := [q] + (v + ([q] + r)), [q] + v;
    assert s[0] == q && s[1..] == v + ([q] + r) && t[0] == q && t[1..] == v;
    RawSurvives(v, q, r);
    NeverEnds(v, q);
    hide ReadKeeping;
  }

  lemma {:induction false} NeverEnds(v: string, q: char)
    requires q !in v && '&' !in v
    ensures ReadKeeping(v, [q]) == Partial(v, None)
  {
    if v != "" {
      NeverEnds(v[1..], q);
      assert [v[0]] + v[1..] == v;
    }
  }

  /** What a value without quotes ends at. */
  predicate EndsBare(c: char) {
    IsWhiteSpace(c) || c == '/' || c == '>'
  }

  /** A value without quotes goes up to white space, a slash or the end of the tag; a quote in it is an
      error. */
  lemma {:induction false} BareValues(v: string, r: string)
    requires forall i :: 0 <= i < |v| ==> !EndsBare(v[i]) && !IsQuote(v[i])
    ensures r == "" || EndsBare(r[0]) ==> BareValue(v + r) == Partial(v, Some(r))
    ensures r != "" && IsQuote(r[0]) ==> BareValue(v + r) == Partial(v, None)
  {
    if v == "" {
      assert v + r == r;
      if r != "" && IsQuote(r[0]) {
        WhiteSpaceIs(r[0]);
      }
    } else {
      assert (v + r)[0] == v[0] && (v + r)[1..] == v[1..] + r;
      BareValues(v[1..], r);
      assert [v[0]] + v[1..] == v;
    }
  }

  /** The same for the whole attribute. */
  lemma BareAttribute(n: string, v: string, r: string)
    requires v != "" && forall i :: 0 <= i < |v| ==> !EndsBare(v[i]) && !IsQuote(v[i])
    ensures r == "" || EndsBare(r[0]) ==> ParseAttributeValue(n, v + r) == Read(Attribute(n, v), r)
    ensures r != "" && IsQuote(r[0]) ==> ParseAttributeValue(n, v + r) == Failed(v, Some(ErrorReadingAttributes))
  {
    BareValues(v, r);
    hide BareValue;
    assert (v + r)[0] == v[0];
  }

  /** A start tag goes on with an attribute, and breaks off with it, behind it at the end of the text, or
      when the name is there already: then the value is overwritten and no error reported. */
  lemma TagGoesOn(w: string, n: string, x: string, attributes: seq<Attribute>)
    requires AllWhite(w) && IsName(n)
    ensures var read := ParseAttribute(n + x);
            ParseTag(w + (n + x), attributes) ==
            if read.Failed? then
              TagRead(attributes, Broken(if read.error == None then Some(ErrorParsingElement) else read.error))
            else if read.rest == "" then TagRead(attributes, Broken(Some(ErrorParsingElement)))
            else if exists i :: 0 <= i < |attributes| && attributes[i].name == read.attribute.name then
              TagRead(Put(attributes, read.attribute.name, CStr(read.attribute.value)), Broken(None))
            else ParseTag(read.rest, attributes + [read.attribute])
  {
    var t := n + x;
    assert t[0] == n[0];
    hide ParseAttribute, ParseTag, Put;
    NameStartMarks(n[0]);
    DropWhite(w, t);
    NothingBlack(t);
    hide DropSpaces, IsName, AllWhite, IsNameStart, IsWhiteSpace;
    AttributeInTag(w + t, attributes);
  }

  lemma AttributeInTag(s: string, attributes: seq<Attribute>)
    requires DropSpaces(s) != "" && DropSpaces(s)[0] != '/' && DropSpaces(s)[0] != '>'
    ensures var read := ParseAttribute(DropSpaces(s));
            ParseTag(s, attributes) ==
            if read.Failed? then
              TagRead(attributes, Broken(if read.error == None then Some(ErrorParsingElement) else read.error))
            else if read.rest == "" then TagRead(attributes, Broken(Some(ErrorParsingElement)))
            else if exists i :: 0 <= i < |attributes| && attributes[i].name == read.attribute.name then
              TagRead(Put(attributes, read.attribute.name, CStr(read.attribute.value)), Broken(None))
            else ParseTag(read.rest, attributes + [read.attribute])
  {
    hide DropSpaces, ParseAttribute, Put;
  }

  // ---- Tags that never end ----

  lemma {:induction false} NotFound(v: string, end: string)
    requires end != "" && !Contains(v, end)
    ensures ReadUpTo(v, end) == Partial(v, None)
  {
    if v != "" {
      ContainsBehind(v, end);
      assert v[0..] == v;
      NotFound(v[1..], end);
      assert [v[0]] + v[1..] == v;
    }
  }

  /** A comment that does not end takes all that is left, and nothing is read behind it, without an error. */
  lemma CommentNeverEnds(v: string)
    requires !Contains(v, "-->")
    ensures ParseComment("<!--" + v) == NodeRead(Comment(v), None, None)
  {
    var s := "<!--" + v;
    assert s[0] == '<' && "<!--" <= s && s[4..] == v;
    NothingBlack(s);
    NotFound(v, "-->");
    hide ReadUpTo, DropSpaces, Contains;
  }

  /** So does a CDATA section. */
  lemma CDataNeverEnds(v: string)
    requires !Contains(v, "]]>")
    ensures ParseCData("<![CDATA[" + v) == NodeRead(Text(v, true), None, None)
  {
    var s := "<![CDATA[" + v;
    assert "<![CDATA[" <= s && s[9..] == v;
    NotFound(v, "]]>");
    hide ReadUpTo, Contains;
  }

  /** An unknown tag may end with the text. */
  lemma UnknownNeverEnds(v: string)
    requires !Contains(v, ">")
    ensures ParseUnknown("<" + v) == NodeRead(Unknown(v), Some(""), None)
  {
    var s := "<" + v;
    assert s[0] == '<' && s[1..] == v;
    NothingBlack(s);
    NotFound(v, ">");
    hide ReadUpTo, DropSpaces, Contains;
  }

  /** A word inside a declaration that begins no field is passed over. */
  lemma WordSkipped(w: string, x: string, r: string, d: Tree)
    requires d.Declaration? && AllWhite(w) && x != "" && (forall i :: 0 <= i < |x| ==> !IsWhiteSpace(x[i]) && x[i] != '>')
    requires r == "" || IsWhiteSpace(r[0]) || r[0] == '>'
    requires FieldAt(x + r) == None
    ensures ParseDeclarationBody(w + (x + r), d) == ParseDeclarationBody(r, d)
  {
    var t := x + r;
    assert t[0] == x[0];
    DropWhite(w, t);
    NothingBlack(t);
    WordEnds(x, r);
    NoEndYet(w, t);
    hide FieldAt, SkipWord, DropSpaces, ParseAttribute, SetField;
  }

  /** A field of a declaration takes the value of the attribute that stands there, up to a NUL; where that
      fails, it takes what was read, and nothing is read behind it. */
  lemma FieldTaken(w: string, t: string, field: Field, d: Tree)
    requires d.Declaration? && AllWhite(w) && t != "" && !IsWhiteSpace(t[0]) && t[0] != '>' && FieldAt(t) == Some(field)
    ensures var read := ParseAttribute(t);
            var value := CStr(if read.Failed? then read.partial else read.attribute.value);
            var d' := match field
                      case Version => d.(version := value)
                      case Encoding => d.(encoding := value)
                      case Standalone => d.(standalone := value);
            ParseDeclarationBody(w + t, d) == if read.Failed? then NodeRead(d', None, None) else ParseDeclarationBody(read.rest, d')
  {
    DropWhite(w, t);
    NothingBlack(t);
    NoEndYet(w, t);
    hide FieldAt, DropSpaces, ParseAttribute, CStr, AllWhite, IsWhiteSpace;
  }

  lemma NoEndYet(w: string, t: string)
    requires AllWhite(w) && t != "" && t[0] != '>'
    ensures w + t != "" && (w + t)[0] != '>'
  {
    if w != "" {
      WhiteSpaceIs(w[0]);
      assert (w + t)[0] == w[0];
    } else {
      assert w + t == t;
    }
  }

  lemma {:induction false} WordEnds(x: string, r: string)
    requires forall i :: 0 <= i < |x| ==> !IsWhiteSpace(x[i]) && x[i] != '>'
    requires r == "" || IsWhiteSpace(r[0]) || r[0] == '>'
    ensures SkipWord(x + r) == r
  {
    if x == "" {
      assert x + r == r;
    } else {
      assert (x + r)[0] == x[0] && (x + r)[1..] == x[1..] + r;
      WordEnds(x[1..], r);
    }
  }

  // ---- Elements ----

  /** The text ends in the name. */
  lemma EndsInName(n: string)
    requires IsName(n)
    ensures ParseElement("<" + n) == NodeRead(Element(n, [], []), None, Some(ErrorFailedToReadElementName))
  {
    var s := "<" + n;
    assert s[0] == '<' && s[1..] == n;
    NothingBlack(s);
    NameStartMarks(n[0]);
    NothingBlack(n);
    ReadsName(n, "");
    assert n + "" == n;
    hide DropSpaces, Grammar.ReadName, IsName, ParseElementBody;
  }

  /** How content breaks off: the text ends behind the start tag, or in white space, or the end tag is
      that of another element, or the text ends in a text. */
  lemma ContentBreaks(n: string, w: string, r: string)
    requires w != "" && AllWhite(w) && !("</" + n + ">" <= "</" + r)
    ensures ParseElementBody(n, ">") == NodeRead(Element(n, [], []), None, Some(ErrorReadingElementValue))
    ensures ParseElementBody(n, ">" + w) == NodeRead(Element(n, [], []), None, Some(ErrorReadingEndTag))
    ensures ParseElementBody(n, ">" + ("</" + r)) == NodeRead(Element(n, [], []), None, Some(ErrorReadingEndTag))
  {
    hide ParseElementBody, ReadValue;
    NothingRead(w, r);
    Opened(n, "");
    Opened(n, w);
    Opened(n, "</" + r);
    assert ">" + "" == ">";
    hide AllWhite;
    NotClosedBy(n, w, r);
  }

  lemma NotClosedBy(n: string, w: string, r: string)
    requires !("</" + n + ">" <= "</" + r)
    ensures CloseElement(n, [], ContentRead([], None, Some(ErrorReadingElementValue)))
         == NodeRead(Element(n, [], []), None, Some(ErrorReadingElementValue))
    ensures CloseElement(n, [], ContentRead([], Some(""), None)) == NodeRead(Element(n, [], []), None, Some(ErrorReadingEndTag))
    ensures CloseElement(n, [], ContentRead([], Some("</" + r), None)) == NodeRead(Element(n, [], []), None, Some(ErrorReadingEndTag))
  {
  }

  /** Behind an open start tag without attributes comes the content. */
  lemma Opened(n: string, s: string)
    ensures ParseElementBody(n, ">" + s) == CloseElement(n, [], ReadValue(s))
  {
    var t := ">" + s;
    assert t[0] == '>' && t[1..] == s && "" + t == t;
    TagBreaks("", t, []);
    SlashEnd(t);
    hide ParseTag, ReadValue, CloseElement;
  }

  lemma NothingRead(w: string, r: string)
    requires w != "" && AllWhite(w)
    ensures ReadValue("") == ContentRead([], None, Some(ErrorReadingElementValue))
    ensures ReadValue(w) == ContentRead([], Some(""), None)
    ensures ReadValue("</" + r) == ContentRead([], Some("</" + r), None)
  {
    hide ReadValue;
    NoText();
    WhiteOnly(w);
    ReadValueStops("</" + r);
  }

  lemma NoText()
    ensures ReadValue("") == ContentRead([], None, Some(ErrorReadingElementValue))
  {
    hide ParseNode, ReadMore, ReadTrimming;
  }

  lemma WhiteOnly(w: string)
    requires w != "" && AllWhite(w)
    ensures ReadValue(w) == ContentRead([], Some(""), None)
  {
    DropWhite(w, "");
    assert w + "" == w && DropSpaces("") == "";
    hide ParseNode, ReadMore, ReadTrimming, DropSpaces;
  }

  // ---- Documents ----

  /** White space before the first node is skipped. */
  lemma LeadingWhite(w: string, s: string)
    requires AllWhite(w) && s != ""
    ensures ParseDocument(w + s) == ParseDocument(s)
  {
    DropWhite(w, s);
    hide DropSpaces, ParseNodes;
  }

  /** Where no tag begins the document is empty. */
  lemma NoTag(w: string, x: string)
    requires AllWhite(w) && (x == "" || (!IsWhiteSpace(x[0]) && x[0] != '<'))
    ensures ParseDocument(w + x).children == [] && ParseDocument(w + x).error == Some(ErrorDocumentEmpty)
  {
    hide ParseNodes, ParseDocument;
    DropWhite(w, x);
    NothingBlack(x);
    NoNodes(x);
    hide *;
    NothingParsed(w + x);
  }

  lemma NothingParsed(s: string)
    requires ParseNodes(DropSpaces(s)).children == [] && ParseNodes(DropSpaces(s)).error == None
    ensures ParseDocument(s).children == [] && ParseDocument(s).error == Some(ErrorDocumentEmpty)
  {
    hide ParseNodes, DropSpaces;
  }

  lemma NoNodes(x: string)
    requires x == "" || (!IsWhiteSpace(x[0]) && x[0] != '<')
    ensures ParseNodes(x).children == [] && ParseNodes(x).error == None
  {
    NothingBlack(x);
    hide ParseNode, DropSpaces, TagKind;
  }

  /** An element that breaks off is the document's last node, and its error the document's. */
  lemma BreaksOff(s: string)
    requires Identify(s) == Some(ElementKind) && ParseElement(s).rest == None
    ensures ParseDocument(s) == ContentRead([ParseElement(s).node], None, ParseElement(s).error)
  {
    var t := DropSpaces(s);
    hide ParseElement, ParseNodes, Identify;
    TagAt(s);
    SameElement(s);
    OnlyNode(t);
    hide DropSpaces;
  }

  lemma DropTwice(s: string)
    ensures DropSpaces(DropSpaces(s)) == DropSpaces(s)
  {
    NothingBlack(DropSpaces(s));
  }

  lemma SameElement(s: string)
    ensures ParseElement(DropSpaces(s)) == ParseElement(s)
  {
    DropTwice(s);
    ElementBehindWhite(s);
    ElementBehindWhite(DropSpaces(s));
    hide ParseElement, ElementAt, DropSpaces;
  }

  /** An element from its "<" on. */
  function ElementAt(t: string): NodeRead {
    var name := if t == "" then None else Grammar.ReadName(DropSpaces(t[1..]));
    if t == "" || t[0] != '<' then NodeRead(Element("", [], []), None, Some(ErrorParsingElement))
    else if name.None? then NodeRead(Element("", [], []), None, Some(ErrorFailedToReadElementName))
    else if name.value.rest == "" then NodeRead(Element(name.value.text, [], []), None, Some(ErrorFailedToReadElementName))
    else ParseElementBody(name.value.text, name.value.rest)
  }

  lemma ElementBehindWhite(s: string)
    ensures ParseElement(s) == ElementAt(DropSpaces(s))
  {
    hide DropSpaces, Grammar.ReadName, ParseElementBody;
  }

  lemma OnlyNode(t: string)
    requires Identify(t) == Some(ElementKind) && ParseElement(t).rest == None && t != ""
    ensures ParseNodes(t) == ContentRead([ParseElement(t).node], None, ParseElement(t).error)
  {
    hide ParseElement, Identify;
  }

  /** The document ends where something other than a tag follows its nodes; that is no error. */
  lemma StopsAtText(s: string)
    requires s != "" && s[0] == '<' && Identify(s).Some?
    requires var rest := ParseNode(s).rest;
             rest.Some? && DropSpaces(rest.value) != "" && DropSpaces(rest.value)[0] != '<'
    ensures var first := ParseNode(s);
            ParseDocument(s) == ContentRead([first.node], Some(DropSpaces(first.rest.value)), first.error)
  {
    var rest := ParseNode(s).rest.value;
    hide ParseNode, ParseNodes, ParseDocument, Identify;
    NothingBlack(s);
    WhiteSpaceIs('<');
    NothingMore(DropSpaces(rest));
    hide DropSpaces;
    OneNode(s);
    WholeDocument(s);
  }

  lemma WholeDocument(s: string)
    requires s != "" && ParseNodes(DropSpaces(s)).children != []
    ensures ParseDocument(s) == ParseNodes(DropSpaces(s))
  {
    hide ParseNodes, DropSpaces;
    var content := ParseNodes(DropSpaces(s));
    assert [] + content.children == content.children;
  }

  lemma NothingMore(x: string)
    requires x != "" && !IsWhiteSpace(x[0]) && x[0] != '<'
    ensures ParseNodes(x) == ContentRead([], Some(x), None)
  {
    NothingBlack(x);
    hide ParseNode, DropSpaces, TagKind;
  }

  lemma OneNode(t: string)
    requires t != "" && Identify(t).Some? && ParseNode(t).rest.Some?
    requires ParseNodes(DropSpaces(ParseNode(t).rest.value)) == ContentRead([], Some(DropSpaces(ParseNode(t).rest.value)), None)
    requires DropSpaces(ParseNode(t).rest.value) != ""
    ensures ParseNodes(t) == ContentRead([ParseNode(t).node], Some(DropSpaces(ParseNode(t).rest.value)), ParseNode(t).error)
  {
    hide ParseNode, Identify;
    assert DropSpaces("") == "";
    hide DropSpaces;
    assert [ParseNode(t).node] + [] == [ParseNode(t).node];
  }
}
