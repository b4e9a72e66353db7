/** What the parser can build: every node it makes, from any text, is well formed. */
module ParserRange {
  import opened Characters
  import opened Entities
  import opened CharacterData
  import opened Condensing
  import opened XmlTree
  import opened AttributeMap
  import opened Grammar
  import opened NormalForm
  import opened RoundTripNodes

  lemma {:induction false} ReadUpToIsFirst(s: string, end: string)
    requires end != ""
    ensures var v := ReadUpTo(s, end).text;
            v <= s && forall i :: 0 <= i < |v| ==> !(end <= s[i..])
  {
    if s != "" && !(end <= s) {
      var tail := ReadUpTo(s[1..], end).text;
      ReadUpToIsFirst(s[1..], end);
      var v := ReadUpTo(s, end).text;
      assert v == [s[0]] + tail;
      forall i | 0 <= i < |v| ensures !(end <= s[i..]) {
        if i == 0 {
          assert s[0..] == s;
        } else {
          assert s[i..] == s[1..][i - 1..];
        }
      }
    }
  }

  lemma ReadUpToLacks(s: string, end: string)
    requires end != ""
    ensures !Contains(ReadUpTo(s, end).text, end)
  {
    var v := ReadUpTo(s, end).text;
    ReadUpToIsFirst(s, end);
    forall i | 0 <= i <= |v| - |end| ensures !(end <= v[i..]) {
      assert v[i..][..|end|] == s[i..][..|end|];
    }
  }

  lemma {:induction false} NameLengthChars(s: string)
    ensures forall i :: 0 <= i < NameLength(s) ==> IsNameChar(s[i])
  {
    if s != "" && IsNameChar(s[0]) {
      NameLengthChars(s[1..]);
      forall i | 0 <= i < NameLength(s) ensures IsNameChar(s[i]) {
        if i > 0 {
          assert s[i] == s[1..][i - 1];
        }
      }
    }
  }

  lemma ReadNameIsName(s: string)
    ensures ReadName(s).Some? ==> IsName(ReadName(s).value.text)
  {
    NameLengthChars(s);
  }

  ghost predicate GoodAttributes(attributes: seq<Attribute>) {
    (forall i :: 0 <= i < |attributes| ==> IsName(attributes[i].name)) && UniqueNames(attributes)
  }

  lemma PutIsGood(attributes: seq<Attribute>, name: string, value: string)
    requires GoodAttributes(attributes) && Named(attributes, name)
    ensures GoodAttributes(Put(attributes, name, value))
  {
    hide IsName, Put, Named;
    PutNamed(attributes, name, value);
  }

  lemma ParseAttributeIsNamed(s: string)
    ensures ParseAttribute(s).Read? ==> IsName(ParseAttribute(s).attribute.name)
  {
    hide ReadName, IsName, ParseAttributeValue;
    ReadNameIsName(DropSpaces(s));
  }

  lemma {:induction false} ParseTagNames(s: string, attributes: seq<Attribute>)
    requires GoodAttributes(attributes)
    ensures GoodAttributes(ParseTag(s, attributes).attributes)
    decreases |s|
  {
    hide ParseAttribute, IsName, Put;
    var t := DropSpaces(s);
    if t != "" && t[0] != '/' && t[0] != '>' {
      ParseAttributeIsNamed(t);
      var read := ParseAttribute(t);
      if read.Read? && read.rest != "" {
        if Named(attributes, read.attribute.name) {
          PutIsGood(attributes, read.attribute.name, CStr(read.attribute.value));
        } else {
          ParseTagNames(read.rest, attributes + [read.attribute]);
        }
      }
    }
  }

  /** An unknown tag stays one when cut at its end. */
  lemma UnknownWithoutEnd(a: string, x: string)
    requires a != "" && a[0] == '<' && (x == "" || x[0] == '>')
    requires Identify(a + x) == Some(UnknownKind)
    ensures Identify(a) == Some(UnknownKind)
  {
    var s := a + x;
    DropTag(a);
    DropTag(s);
    if x == "" {
      assert s == a;
    } else {
      var r := x[1..];
      assert s == a + (">" + r);
      StartsNoCaseBefore(a, r, "<?xml");
      PrefixBefore(a, r, "<!--");
      PrefixBefore(a, r, "<![CDATA[");
      PrefixBefore(a, r, "<!");
      if |a| > 1 {
        assert s[1] == a[1];
      }
    }
  }

  /** What an unknown tag's value is cut from. */
  lemma {:induction false} ReadUpToSplit(s: string, end: string)
    requires end != ""
    ensures var v := ReadUpTo(s, end).text;
            v <= s && (s[|v|..] == "" || end <= s[|v|..])
  {
    if s != "" && !(end <= s) {
      ReadUpToSplit(s[1..], end);
      var tail := ReadUpTo(s[1..], end).text;
      assert s[1..][|tail|..] == s[1 + |tail|..];
    }
  }

  lemma ParsedUnknown(s: string, top: bool)
    requires Identify(s) == Some(UnknownKind) && (!top ==> !("</" <= DropSpaces(s)))
    ensures WellFormed(ParseUnknown(s).node, top) && ParseUnknown(s).node.Unknown?
  {
    hide Identify, ReadUpTo, Contains;
    var t := DropSpaces(s);
    TagAt(s);
    var v := ReadUpTo(t[1..], ">").text;
    assert ParseUnknown(s).node == Unknown(v);
    ReadUpToLacks(t[1..], ">");
    UnknownValue(t, v, top);
  }

  lemma UnknownValue(t: string, v: string, top: bool)
    requires t != "" && t[0] == '<' && Identify(t) == Some(UnknownKind) && (!top ==> !("</" <= t))
    requires v == ReadUpTo(t[1..], ">").text
    ensures Identify("<" + v) == Some(UnknownKind)
    ensures top || v == "" || v[0] != '/'
  {
    hide Identify, ReadUpTo;
    ReadUpToSplit(t[1..], ">");
    var x := t[1..][|v|..];
    assert t == ("<" + v) + x;
    UnknownWithoutEnd("<" + v, x);
    if v != "" && v[0] == '/' {
      assert t[1] == '/';
      SlashTag(t);
    }
  }

  lemma SlashTag(t: string)
    requires |t| >= 2 && t[0] == '<' && t[1] == '/'
    ensures "</" <= t
  {
  }

  lemma TagAt(s: string)
    requires Identify(s).Some?
    ensures DropSpaces(s) != "" && DropSpaces(s)[0] == '<' && Identify(DropSpaces(s)) == Identify(s)
  {
    hide TagKind;
    DropTag(DropSpaces(s));
  }

  lemma ParsedElementHasName(s: string)
    requires Identify(s) == Some(ElementKind)
    ensures var t := DropSpaces(s);
            t != "" && t[0] == '<' && ReadName(DropSpaces(t[1..])).Some?
  {
    hide TagKind, ReadName;
    ElementTag(DropSpaces(s));
    NamedTag(DropSpaces(s));
  }

  lemma NamedTag(t: string)
    requires |t| > 1 && IsNameStart(t[1])
    ensures ReadName(DropSpaces(t[1..])).Some?
  {
    hide NameLength, IsNameStart;
    NameStartIsBlack(t[1]);
    assert t[1..][0] == t[1];
    assert DropSpaces(t[1..]) == t[1..];
  }

  lemma ElementTag(t: string)
    requires TagKind(t) == ElementKind
    ensures |t| > 1 && IsNameStart(t[1])
  {
    hide StartsNoCase, Starts, IsNameStart;
  }

  lemma NameStartIsBlack(c: char)
    ensures IsNameStart(c) ==> !IsWhiteSpace(c)
  {
  }

  // ---- The induction over the text ----

  ghost predicate GoodContent(ts: seq<Tree>) {
    (forall c :: c in ts ==> WellFormed(c, false)) && NoAdjacentTexts(ts)
  }

  lemma {:induction false} ParsedNode(s: string, top: bool)
    requires Identify(s).Some? && (!top ==> !("</" <= DropSpaces(s)))
    ensures WellFormed(ParseNode(s).node, top) && !ParseNode(s).node.IsPlainText()
    decreases |s|, 2
  {
    hide Identify, ParseElement, ParseDeclaration, ParseComment, ParseCData, ParseUnknown, Contains;
    match Identify(s).value {
      case DeclarationKind =>
        assert ParseNode(s) == ParseDeclaration(s);
        ParsedDeclaration(s);
      case CommentKind =>
        assert ParseNode(s) == ParseComment(s);
        ParsedComment(s);
      case CDataKind =>
        assert ParseNode(s) == ParseCData(s);
        ParsedCData(s);
      case UnknownKind =>
        assert ParseNode(s) == ParseUnknown(s);
        ParsedUnknown(s, top);
      case ElementKind =>
        assert ParseNode(s) == ParseElement(s);
        ParsedElement(s, top);
    }
  }

  lemma ParsedDeclaration(s: string)
    ensures ParseDeclaration(s).node.Declaration?
  {
    hide ParseDeclarationBody, StartsNoCase;
  }

  lemma ParsedComment(s: string)
    ensures ParseComment(s).node.Comment? && !Contains(ParseComment(s).node.value, "-->")
  {
    var t := DropSpaces(s);
    if "<!--" <= t {
      ReadUpToLacks(t[4..], "-->");
    }
  }

  lemma ParsedCData(s: string)
    ensures ParseCData(s).node.Text? && ParseCData(s).node.cdata && !Contains(ParseCData(s).node.value, "]]>")
  {
    if "<![CDATA[" <= s {
      ReadUpToLacks(s[9..], "]]>");
    }
  }

  lemma {:induction false} ParsedElement(s: string, top: bool)
    requires Identify(s) == Some(ElementKind)
    ensures WellFormed(ParseElement(s).node, top) && ParseElement(s).node.Element?
    decreases |s|, 1
  {
    hide Identify, ParseElement, ParseElementBody, ReadName, WellFormed;
    ParsedElementHasName(s);
    var t := DropSpaces(s);
    var name := ReadName(DropSpaces(t[1..])).value;
    ReadNameIsName(DropSpaces(t[1..]));
    ElementSplit(s, name);
    if name.rest == "" {
      BareElement(name.text, top);
    } else {
      ParsedElementBody(name.text, name.rest, top);
    }
  }

  lemma ElementSplit(s: string, name: Chunk)
    requires DropSpaces(s) != "" && DropSpaces(s)[0] == '<'
    requires ReadName(DropSpaces(DropSpaces(s)[1..])) == Some(name)
    ensures if name.rest == "" then ParseElement(s).node == Element(name.text, [], [])
            else ParseElement(s) == ParseElementBody(name.text, name.rest)
  {
    hide ParseElementBody, ReadName;
  }

  lemma BareElement(name: string, top: bool)
    requires IsName(name)
    ensures WellFormed(Element(name, [], []), top)
  {
  }

  lemma {:induction false} ParsedElementBody(name: string, s: string, top: bool)
    requires IsName(name)
    ensures WellFormed(ParseElementBody(name, s).node, top) && ParseElementBody(name, s).node.Element?
    decreases |s|, 0
  {
    hide ParseTag, ReadValue, IsName;
    ParseTagNames(s, []);
    var tag := ParseTag(s, []);
    if tag.end.Open? {
      ParsedContent(tag.end.rest);
      assert ParseElementBody(name, s).node == Element(name, tag.attributes, ReadValue(tag.end.rest).children);
    } else {
      assert ParseElementBody(name, s).node == Element(name, tag.attributes, []);
    }
  }

  /** The three ways a content can begin, when there is any. */
  lemma ReadValueCases(s: string)
    ensures var t := DropSpaces(s);
            if s == "" || t == "" || "</" <= t then ReadValue(s).children == []
            else if t[0] != '<' then
              var text := ReadTrimming(t, "<");
              ReadValue(s) == ReadMore(if Blank(text.text) then [] else [Text(text.text, false)], text.rest, None)
            else
              Identify(t).Some?
              && ReadValue(s) == ReadMore([ParseNode(t).node], ParseNode(t).rest, ParseNode(t).error)
  {
    hide ParseNode, ReadMore, ReadTrimming, Blank, Identify, DropSpaces;
    TagIdentified(s);
  }

  lemma TagIdentified(s: string)
    ensures var t := DropSpaces(s); t != "" && t[0] == '<' ==> Identify(t).Some? && DropSpaces(t) == t
  {
    hide TagKind;
    if DropSpaces(s) != "" && DropSpaces(s)[0] == '<' {
      DropTag(DropSpaces(s));
    }
  }

  lemma {:induction false} ParsedContent(s: string)
    ensures GoodContent(ReadValue(s).children)
    ensures StopsText(s) && ReadValue(s).children != [] ==> !ReadValue(s).children[0].IsPlainText()
    decreases |s|, 3
  {
    hide ParseNode, ReadTrimming, Identify, WellFormed, ReadMore, ReadValue, Blank, DropSpaces, NoAdjacentTexts;
    var t := DropSpaces(s);
    ReadValueCases(s);
    EmptyIsGood();
    if s == "" || t == "" || "</" <= t {
    } else if t[0] != '<' {
      var text := ReadTrimming(t, "<");
      TextShrinks(t);
      var first := if Blank(text.text) then [] else [Text(text.text, false)];
      TextWellFormed(text.text);
      ParsedMore(first, text.rest, None, |s|);
      if s[0] == '<' {
        DropTag(s);
      }
    } else {
      TagIdentified(s);
      ParsedNode(t, false);
      OneIsGood(ParseNode(t).node);
      ParsedMore([ParseNode(t).node], ParseNode(t).rest, ParseNode(t).error, |s|);
    }
  }

  lemma EmptyIsGood()
    ensures GoodContent([])
  {
  }

  lemma OneIsGood(t: Tree)
    requires WellFormed(t, false)
    ensures GoodContent([t])
  {
  }

  lemma TextWellFormed(v: string)
    ensures GoodContent(if Blank(v) then [] else [Text(v, false)])
  {
  }

  lemma {:induction false} ParsedMore(first: seq<Tree>, rest: Option<string>, error: Option<Error>, bound: nat)
    requires GoodContent(first) && |first| <= 1
    requires rest.Some? ==> |rest.value| < bound
    requires rest.Some? && first != [] && first[0].IsPlainText() ==> StopsText(rest.value)
    ensures GoodContent(ReadMore(first, rest, error).children)
    ensures first != [] ==> ReadMore(first, rest, error).children[0] == first[0]
    decreases bound, 0
  {
    hide ReadValue, WellFormed;
    if rest.Some? {
      ParsedContent(rest.value);
      var more := ReadValue(rest.value).children;
      var r := ReadMore(first, rest, error).children;
      assert r == first + more;
      assert forall c :: c in r ==> c in first || c in more;
    }
  }
}
