/** Parsing single printed nodes. */
module RoundTripNodes {
  import opened Characters
  import opened Entities
  import opened CharacterData
  import opened Condensing
  import opened XmlTree
  import opened Grammar
  import opened Printing
  import opened NormalForm
  import opened RoundTrip

  // ---- What a tag starts with ----

  lemma {:induction false} StartsNoCaseBefore(a: string, r: string, tag: string)
    requires '>' !in tag
    ensures StartsNoCase(a + (">" + r), tag) <==> StartsNoCase(a, tag)
  {
    var s := a + (">" + r);
    if tag != "" {
      assert forall i :: 0 <= i < |tag| ==> tag[i] in tag;
      assert ToLower(tag[0]) != '>';
      if a == "" {
        assert s[0] == '>';
      } else {
        assert s[0] == a[0] && s[1..] == a[1..] + (">" + r);
        assert forall c :: c in tag[1..] ==> c in tag;
        StartsNoCaseBefore(a[1..], r, tag[1..]);
      }
    }
  }

  lemma PrefixBefore(a: string, r: string, tag: string)
    requires '>' !in tag
    ensures tag <= a + (">" + r) <==> tag <= a
  {
    var s := a + (">" + r);
    if |tag| <= |a| {
      assert s[..|tag|] == a[..|tag|];
    } else {
      assert s[|a|] == '>' && tag[|a|] in tag;
    }
  }

  lemma DropTag(s: string)
    requires s != "" && s[0] == '<'
    ensures DropSpaces(s) == s
  {
  }

  lemma IdentifiesUnknown(a: string, r: string)
    requires a != "" && a[0] == '<' && Identify(a) == Some(UnknownKind)
    ensures Identify(a + (">" + r)) == Some(UnknownKind)
  {
    var s := a + (">" + r);
    DropTag(a);
    DropTag(s);
    StartsNoCaseBefore(a, r, "<?xml");
    PrefixBefore(a, r, "<!--");
    PrefixBefore(a, r, "<![CDATA[");
    PrefixBefore(a, r, "<!");
    if |a| > 1 {
      assert s[1] == a[1];
    } else {
      assert s[1] == '>';
    }
  }

  lemma ReadsUnknown(v: string, r: string)
    requires !Contains(v, ">") && Identify("<" + v) == Some(UnknownKind)
    ensures var s := "<" + (v + (">" + r));
            Identify(s) == Some(UnknownKind) && ParseNode(s) == NodeRead(Unknown(v), Some(r), None)
  {
    IdentifiesUnknown("<" + v, r);
    assert "<" + (v + (">" + r)) == ("<" + v) + (">" + r);
    ReadsUnknownBody(v, r);
  }

  lemma ReadsUnknownBody(v: string, r: string)
    requires !Contains(v, ">")
    ensures ParseUnknown("<" + (v + (">" + r))) == NodeRead(Unknown(v), Some(r), None)
  {
    var s := "<" + (v + (">" + r));
    DropTag(s);
    assert s[1..] == v + (">" + r);
    ReadsUpTo(v, ">", r);
  }

  lemma NotDeclaration(s: string)
    requires |s| >= 2 && s[1] != '?'
    ensures !StartsNoCase(s, "<?xml")
  {
    assert StartsNoCase(s, "<?xml") ==> StartsNoCase(s[1..], "<?xml"[1..]);
    assert "<?xml"[1..] == "?xml";
    assert "?xml"[0] == '?';
  }

  lemma ReadsComment(v: string, r: string)
    requires !Contains(v, "-->")
    ensures var s := "<!--" + (v + ("-->" + r));
            Identify(s) == Some(CommentKind) && ParseNode(s) == NodeRead(Comment(v), Some(r), None)
  {
    var s := "<!--" + (v + ("-->" + r));
    DropTag(s);
    NotDeclaration(s);
    assert s[4..] == v + ("-->" + r);
    ReadsUpTo(v, "-->", r);
  }

  lemma ReadsCData(v: string, r: string)
    requires !Contains(v, "]]>")
    ensures var s := "<![CDATA[" + (v + ("]]>" + r));
            Identify(s) == Some(CDataKind) && ParseNode(s) == NodeRead(Text(v, true), Some(r), None)
  {
    var s := "<![CDATA[" + (v + ("]]>" + r));
    DropTag(s);
    NotDeclaration(s);
    assert s[2] == '[';
    assert s[9..] == v + ("]]>" + r);
    ReadsUpTo(v, "]]>", r);
  }

  // ---- Elements ----

  lemma IdentifiesElement(s: string)
    requires |s| >= 2 && s[0] == '<' && IsNameStart(s[1])
    ensures Identify(s) == Some(ElementKind)
  {
    DropTag(s);
    NameStartMarks(s[1]);
    NotDeclaration(s);
  }

  /** A start tag up to its end. */
  lemma ReadsStartTag(name: string, attributes: seq<Attribute>, x: string)
    requires IsName(name) && AttributesFit([], attributes)
    requires x != "" && !IsNameChar(x[0])
    ensures var y := PrintAttributes(attributes) + x;
            ReadName(DropSpaces(name + y)) == Some(Chunk(name, y)) && y != ""
            && ParseTag(y, []) == ParseTag(x, attributes)
  {
    hide ParseTag, ReadName, PrintAttribute, AttributesFit;
    var y := PrintAttributes(attributes) + x;
    NameStartMarks(name[0]);
    assert (name + y)[0] == name[0];
    assert DropSpaces(name + y) == name + y;
    assert y[0] == if attributes == [] then x[0] else ' ';
    ReadsName(name, y);
    ReadsTag([], attributes, x);
    assert [] + attributes == attributes;
  }

  lemma TagCloses(r: string, attributes: seq<Attribute>)
    ensures ParseTag(" />" + r, attributes) == TagRead(attributes, Closed(r))
  {
    var s := " />" + r;
    assert s[1..] == "/>" + r && ("/>" + r)[2..] == r;
    assert DropSpaces(s) == "/>" + r;
    hide DropSpaces, ParseAttribute;
  }

  lemma TagOpens(z: string, attributes: seq<Attribute>)
    ensures ParseTag(">" + z, attributes) == TagRead(attributes, Open(z))
  {
    assert (">" + z)[1..] == z;
  }

  lemma ElementUnfolds(name: string, attributes: seq<Attribute>, x: string)
    requires IsName(name) && AttributesFit([], attributes)
    requires x != "" && !IsNameChar(x[0])
    ensures var s := "<" + (name + (PrintAttributes(attributes) + x));
            var y := PrintAttributes(attributes) + x;
            |s| >= 2 && s[0] == '<' && s[1] == name[0] && DropSpaces(s) == s && s[1..] == name + y
            && Identify(s) == Some(ElementKind)
  {
    var y := PrintAttributes(attributes) + x;
    var s := "<" + (name + y);
    assert s[1] == name[0] && s[1..] == name + y;
    DropTag(s);
    IdentifiesElement(s);
  }

  lemma ElementUnfoldsTo(s: string, name: string, y: string)
    requires s != "" && s[0] == '<' && y != ""
    requires ReadName(DropSpaces(s[1..])) == Some(Chunk(name, y))
    ensures ParseElement(s) == ParseElementBody(name, y)
  {
    hide ParseElementBody, ReadName;
    DropTag(s);
  }

  lemma NodeIsElement(s: string)
    requires Identify(s) == Some(ElementKind)
    ensures ParseNode(s) == ParseElement(s)
  {
    hide Identify, ParseElement, ParseComment, ParseCData, ParseUnknown, ParseDeclaration;
  }

  lemma ElementBehindName(s: string, name: string, y: string)
    requires s != "" && s[0] == '<' && Identify(s) == Some(ElementKind)
    requires ReadName(DropSpaces(s[1..])) == Some(Chunk(name, y)) && y != ""
    ensures ParseNode(s) == ParseElementBody(name, y)
  {
    hide Identify, ParseNode, ParseElement, ParseElementBody, ReadName;
    NodeIsElement(s);
    ElementUnfoldsTo(s, name, y);
  }

  lemma Closes(name: string, attributes: seq<Attribute>, children: seq<Tree>, r: string)
    ensures CloseElement(name, attributes, ContentRead(children, Some(EndTag(name) + r), None))
         == NodeRead(Element(name, attributes, children), Some(r), None)
  {
    PrefixOfItself(EndTag(name), r);
  }

  lemma ReadsEmptyElement(name: string, attributes: seq<Attribute>, r: string)
    requires IsName(name) && AttributesFit([], attributes)
    ensures var s := "<" + (name + (PrintAttributes(attributes) + (" />" + r)));
            Identify(s) == Some(ElementKind)
            && ParseNode(s) == NodeRead(Element(name, attributes, []), Some(r), None)
  {
    var x := " />" + r;
    var y := PrintAttributes(attributes) + x;
    ElementUnfolds(name, attributes, x);
    ReadsStartTag(name, attributes, x);
    TagCloses(r, attributes);
    ElementBehindName("<" + (name + y), name, y);
  }

  lemma OpenElementBody(name: string, attributes: seq<Attribute>, y: string, z: string)
    requires ParseTag(y, []) == TagRead(attributes, Open(z))
    ensures ParseElementBody(name, y) == CloseElement(name, attributes, ReadValue(z))
  {
    hide ReadValue, CloseElement, ParseTag;
  }

  lemma ReadsOpenElement(name: string, attributes: seq<Attribute>, z: string, children: seq<Tree>, r: string)
    requires IsName(name) && AttributesFit([], attributes)
    requires ReadValue(z) == ContentRead(children, Some(EndTag(name) + r), None)
    ensures var s := "<" + (name + (PrintAttributes(attributes) + (">" + z)));
            Identify(s) == Some(ElementKind)
            && ParseNode(s) == NodeRead(Element(name, attributes, children), Some(r), None)
  {
    hide Identify, ParseNode, ParseElementBody, ReadValue, ParseTag, CloseElement;
    var x := ">" + z;
    var y := PrintAttributes(attributes) + x;
    ElementUnfolds(name, attributes, x);
    ReadsStartTag(name, attributes, x);
    TagOpens(z, attributes);
    Closes(name, attributes, children, r);
    OpenElementBody(name, attributes, y, z);
    ElementBehindName("<" + (name + y), name, y);
  }

  lemma PrefixOfItself(a: string, r: string)
    ensures a <= a + r && (a + r)[|a|..] == r
  {
  }

  // ---- Declarations ----

  function FieldName(field: Field): string {
    match field
    case Version => "version"
    case Encoding => "encoding"
    case Standalone => "standalone"
  }

  lemma NoCaseFirst(t: string, tag: string)
    requires t != "" && tag != "" && ToLower(t[0]) != ToLower(tag[0])
    ensures !StartsNoCase(t, tag)
  {
  }

  lemma FieldStarts(field: Field, s: string)
    ensures var t := FieldName(field) + s;
            t != "" && !IsWhiteSpace(t[0]) && FieldAt(t) == Some(field)
  {
    var name := FieldName(field);
    var t := name + s;
    assert t[0] == name[0];
    StartsWithItself(name, s);
    if field != Version {
      NoCaseFirst(t, "version");
    }
    if field == Standalone {
      NoCaseFirst(t, "encoding");
    }
  }

  lemma {:induction false} StartsWithItself(name: string, s: string)
    ensures StartsNoCase(name + s, name)
  {
    if name != "" {
      assert (name + s)[0] == name[0] && (name + s)[1..] == name[1..] + s;
      StartsWithItself(name[1..], s);
    }
  }

  lemma ReadsFieldAttribute(field: Field, value: string, x: string)
    requires Unescaped(value)
    ensures var name := FieldName(field);
            ParseAttribute(name + ("=" + ("\"" + (value + ("\"" + x))))) == Read(Attribute(name, value), x)
  {
    var quoted := "\"" + (value + ("\"" + x));
    ReadsNameAndEquals(FieldName(field), quoted);
    assert quoted[1..] == value + ("\"" + x);
    RawSurvives(value, '"', x);
    assert ("\"" + x)[1..] == x;
  }

  lemma SpaceDropped(t: string)
    requires t != "" && !IsWhiteSpace(t[0])
    ensures var s := " " + t; s != "" && s[0] == ' ' && DropSpaces(s) == t
  {
    DropWhite(" ", t);
  }

  /** One field of a declaration, read by the loop. */
  lemma DeclarationStep(t: string, field: Field, name: string, value: string, rest: string, d: Tree)
    requires d.Declaration? && t != "" && !IsWhiteSpace(t[0]) && FieldAt(t) == Some(field)
    requires ParseAttribute(t) == Read(Attribute(name, value), rest) && '\0' !in value
    ensures ParseDeclarationBody(" " + t, d) == ParseDeclarationBody(rest, SetField(d, field, value))
  {
    SpaceDropped(t);
  }

  lemma ReadsField(field: Field, value: string, x: string, d: Tree)
    requires Unescaped(value) && d.Declaration?
    requires SetField(d, field, "") == d
    ensures ParseDeclarationBody(" " + (PrintField(FieldName(field), value) + x), d)
         == ParseDeclarationBody(" " + x, SetField(d, field, value))
  {
    var name := FieldName(field);
    if value == "" {
      assert PrintField(name, value) + x == x;
    } else {
      var rhs := "=" + ("\"" + (value + ("\"" + (" " + x))));
      assert PrintField(name, value) + x == name + rhs;
      FieldStarts(field, rhs);
      ReadsFieldAttribute(field, value, " " + x);
      DeclarationStep(name + rhs, field, name, value, " " + x, d);
    }
  }

  lemma DeclarationSkips(t: string, d: Tree)
    requires d.Declaration? && t != "" && !IsWhiteSpace(t[0]) && FieldAt(t) == None
    ensures ParseDeclarationBody(" " + t, d) == ParseDeclarationBody(SkipWord(t), d)
  {
    SpaceDropped(t);
  }

  lemma EndReached(r: string, d: Tree)
    requires d.Declaration?
    ensures ParseDeclarationBody(">" + r, d) == NodeRead(d, Some(r), None)
  {
    assert (">" + r)[1..] == r;
  }

  lemma ReadsDeclarationEnd(r: string, d: Tree)
    requires d.Declaration?
    ensures ParseDeclarationBody(" " + ("?>" + r), d) == NodeRead(d, Some(r), None)
  {
    var t := "?>" + r;
    assert FieldAt(t) == None by {
      NoCaseFirst(t, "version");
      NoCaseFirst(t, "encoding");
      NoCaseFirst(t, "standalone");
    }
    assert SkipWord(t) == ">" + r by {
      assert t[1..] == ">" + r;
      assert SkipWord(">" + r) == ">" + r;
    }
    DeclarationSkips(t, d);
    EndReached(r, d);
  }

  lemma DeclarationUnfolds(body: string)
    ensures var s := "<?xml" + (" " + body);
            Identify(s) == Some(DeclarationKind)
            && ParseNode(s) == ParseDeclarationBody(" " + body, Declaration("", "", ""))
  {
    var s := "<?xml" + (" " + body);
    DropTag(s);
    StartsWithItself("<?xml", " " + body);
    assert s[5..] == " " + body;
  }

  lemma ReadsDeclaration(version: string, encoding: string, standalone: string, r: string)
    requires Unescaped(version) && Unescaped(encoding) && Unescaped(standalone)
    ensures var s := PrintDeclaration(version, encoding, standalone) + r;
            Identify(s) == Some(DeclarationKind)
            && ParseNode(s) == NodeRead(Declaration(version, encoding, standalone), Some(r), None)
  {
    var z := "?>" + r;
    var y := PrintField("standalone", standalone) + z;
    var x := PrintField("encoding", encoding) + y;
    var body := PrintField("version", version) + x;
    PrintedDeclaration(version, encoding, standalone, r);
    DeclarationUnfolds(body);
    ReadsFields(version, encoding, standalone, z);
    ReadsDeclarationEnd(r, Declaration(version, encoding, standalone));
  }

  lemma PrintedDeclaration(version: string, encoding: string, standalone: string, r: string)
    ensures PrintDeclaration(version, encoding, standalone) + r
         == "<?xml" + (" " + (PrintField("version", version)
              + (PrintField("encoding", encoding) + (PrintField("standalone", standalone) + ("?>" + r)))))
  {
    var a, b, c := PrintField("version", version), PrintField("encoding", encoding), PrintField("standalone", standalone);
    assert (c + "?>") + r == c + ("?>" + r);
    assert (b + (c + "?>")) + r == b + (c + ("?>" + r));
    assert (a + (b + (c + "?>"))) + r == a + (b + (c + ("?>" + r)));
  }

  lemma ReadsFields(version: string, encoding: string, standalone: string, z: string)
    requires Unescaped(version) && Unescaped(encoding) && Unescaped(standalone)
    ensures ParseDeclarationBody(" " + (PrintField("version", version)
              + (PrintField("encoding", encoding) + (PrintField("standalone", standalone) + z))), Declaration("", "", ""))
         == ParseDeclarationBody(" " + z, Declaration(version, encoding, standalone))
  {
    var y := PrintField("standalone", standalone) + z;
    var x := PrintField("encoding", encoding) + y;
    ReadsField(Version, version, x, Declaration("", "", ""));
    ReadsField(Encoding, encoding, y, Declaration(version, "", ""));
    ReadsField(Standalone, standalone, z, Declaration(version, encoding, ""));
  }
}
