/** Printing and parsing whole trees and documents. */
module RoundTripTree {
  import opened Characters
  import opened Entities
  import opened CharacterData
  import opened Condensing
  import opened XmlTree
  import opened Grammar
  import opened Printing
  import opened NormalForm
  import opened RoundTrip
  import opened RoundTripNodes

  // ---- Content, piece by piece ----

  lemma {:induction false} IndentIsWhite(f: Format, depth: nat)
    requires f.Blank()
    ensures AllWhite(Indent(f, depth))
  {
    if depth > 0 {
      IndentIsWhite(f, depth - 1);
      AllWhiteConcat(f.indent, Indent(f, depth - 1));
    }
  }

  lemma ReadValueSkips(w: string, s: string)
    requires AllWhite(w) && s != ""
    ensures ReadValue(w + s) == ReadValue(s)
  {
    hide ParseNode, ReadMore, ReadTrimming, DropSpaces, Blank;
    DropWhite(w, s);
  }

  lemma ReadValueStops(s: string)
    requires "</" <= s
    ensures ReadValue(s) == ContentRead([], Some(s), None)
  {
    hide ParseNode, ReadMore, ReadTrimming, Blank;
    DropTag(s);
  }

  lemma ReadValueReadsNode(s: string)
    requires s != "" && s[0] == '<' && !("</" <= s)
    ensures Identify(s).Some?
    ensures var first := ParseNode(s); ReadValue(s) == ReadMore([first.node], first.rest, first.error)
  {
    hide ParseNode, ReadMore, ReadTrimming, Blank;
    DropTag(s);
  }

  /** A text between tags. */
  lemma ReadValueReadsText(lead: string, v: string, w: string, y: string)
    requires !HasReference(v) && !Blank(v) && AllWhite(lead) && AllWhite(w) && y != "" && y[0] == '<'
    ensures ReadValue(lead + (Encode(v) + (w + y))) == ReadMore([Text(Condensed(v), false)], Some(y), None)
  {
    hide ParseNode, ReadMore, Blank, ReadCondensing, Condensed;
    var s := lead + (Encode(v) + (w + y));
    var t := DropSpaces(s);
    TrimmingReadsEncoded(lead, v, w, y);
    TextComesFirst(lead, v, w + y);
    assert DropSpaces(t) == t;
    CondensedBlank(v);
  }

  lemma TextComesFirst(lead: string, v: string, rest: string)
    requires !HasReference(v) && !Blank(v) && AllWhite(lead)
    ensures var t := DropSpaces(lead + (Encode(v) + rest)); t != "" && t[0] != '<' && !IsWhiteSpace(t[0])
  {
    DropWhite(lead, Encode(v) + rest);
    DropEncoded(v, rest);
    TrimLeftBlank(v);
    TrimLeftFacts(v);
    var u := TrimLeft(v);
    assert u != "";
    EncodedNotStop(u, rest);
  }

  lemma ReadMoreContinues(first: Tree, s: string, more: seq<Tree>, tail: string)
    requires ReadValue(s) == ContentRead(more, Some(tail), None)
    ensures ReadMore([first], Some(s), None) == ContentRead([first] + more, Some(tail), None)
  {
    hide ReadValue;
  }

  // ---- What printed text starts with ----

  ghost predicate Printable(t: Tree, top: bool) {
    WellFormed(t, top) && Encodable(t)
  }

  ghost predicate PrintableContent(ts: seq<Tree>) {
    (forall c :: c in ts ==> Printable(c, false)) && NoAdjacentTexts(ts)
  }

  lemma BodyMarks(t: Tree, f: Format, depth: nat, top: bool)
    requires WellFormed(t, top) && !t.IsPlainText()
    ensures var b := PrintBody(t, f, depth);
            |b| >= 2 && b[0] == '<' && (!top ==> b[1] != '/')
  {
    hide PrintNodes, PrintAttributes, Visible, Encode, Identify, PrintField, Indent;
    var b := PrintBody(t, f, depth);
    match t {
      case Element(name, _, _) =>
        NameIsCStr(name);
        NameStartMarks(name[0]);
        assert b[1] == name[0];
      case Unknown(value) =>
        assert b[1] == if CStr(value) == "" then '>' else CStr(value)[0];
      case Declaration(_, _, _) =>
        assert b[1] == '?';
      case Text(_, _) =>
        assert b[1] == '!';
      case Comment(_) =>
        assert b[1] == '!';
    }
  }

  lemma BodyStart(t: Tree, f: Format, depth: nat, top: bool, r: string)
    requires WellFormed(t, top) && !t.IsPlainText()
    ensures var s := PrintBody(t, f, depth) + r;
            s != "" && s[0] == '<' && (!top ==> !("</" <= s))
  {
    hide PrintBody, WellFormed;
    BodyMarks(t, f, depth, top);
    assert "</"[1] == '/';
  }

  /** White space and then the next tag: what follows a text. */
  lemma NextTag(ts: seq<Tree>, f: Format, depth: nat, w: string, tail: string) returns (blank: string, y: string)
    requires f.Blank() && AllWhite(w) && "</" <= tail && PrintableContent(ts)
    requires ts != [] ==> !ts[0].IsPlainText()
    ensures PrintNodes(ts, f, depth) + (w + tail) == blank + y
    ensures AllWhite(blank) && y != "" && y[0] == '<'
  {
    if ts == [] {
      blank, y := w, tail;
      assert "" + (w + tail) == w + tail;
    } else {
      var b, rest := PrintBody(ts[0], f, depth), PrintNodes(ts[1..], f, depth) + (w + tail);
      blank, y := Indent(f, depth), b + (f.lineBreak + rest);
      IndentIsWhite(f, depth);
      assert Printable(ts[0], false);
      BodyStart(ts[0], f, depth, false, f.lineBreak + rest);
      PrintNodesSplit(ts, f, depth, w + tail);
    }
  }

  lemma PrintNodesSplit(ts: seq<Tree>, f: Format, depth: nat, z: string)
    requires ts != [] && !ts[0].Document?
    ensures PrintNodes(ts, f, depth) + z
         == Indent(f, depth) + (PrintBody(ts[0], f, depth) + (f.lineBreak + (PrintNodes(ts[1..], f, depth) + z)))
  {
    hide PrintBody, Indent;
    var i, b, l, p := Indent(f, depth), PrintBody(ts[0], f, depth), f.lineBreak, PrintNodes(ts[1..], f, depth);
    assert PrintNodes(ts, f, depth) == (i + (b + l)) + p;
    assert ((i + (b + l)) + p) + z == i + (b + (l + (p + z)));
  }

  // ---- Elements: the printed forms ----

  lemma PrintedElement(t: Tree, f: Format, depth: nat, r: string)
    requires t.Element? && IsName(t.name) && forall i :: 0 <= i < |t.attributes| ==> IsName(t.attributes[i].name)
    ensures var head := PrintAttributes(t.attributes);
            var end := EndTag(t.name) + r;
            PrintBody(t, f, depth) + r == "<" + (t.name + (head +
              if t.children == [] then " />" + r
              else if IsSimple(t.children) then ">" + (Encode(t.children[0].value) + end)
              else ">" + (f.lineBreak + (PrintNodes(t.children, f, depth + 1) + (Indent(f, depth) + end)))))
  {
    hide Encode, Indent, PrintNodes, PrintAttributes;
    NameIsCStr(t.name);
    NamesVisible(t.attributes);
    var head, n := PrintAttributes(t.attributes), t.name;
    var end := "</" + (n + ">");
    assert end == EndTag(n);
    if t.children == [] {
      assert ("<" + (n + (head + " />"))) + r == "<" + (n + (head + (" />" + r)));
    } else if IsSimple(t.children) {
      var e := Encode(t.children[0].value);
      assert ("<" + (n + (head + (">" + (e + end))))) + r == "<" + (n + (head + (">" + (e + (end + r)))));
    } else {
      var p, i := PrintNodes(t.children, f, depth + 1), Indent(f, depth);
      assert ("<" + (n + (head + (">" + (f.lineBreak + (p + (i + end))))))) + r
          == "<" + (n + (head + (">" + (f.lineBreak + (p + (i + (end + r)))))));
    }
  }

  // ---- The induction over the tree ----

  lemma PlainTextPrints(t: Tree, f: Format, depth: nat)
    requires t.IsPlainText()
    ensures PrintBody(t, f, depth) == Encode(t.value) && CondenseTree(t) == Text(Condensed(t.value), false)
  {
  }

  lemma PrintableRest(ts: seq<Tree>)
    requires PrintableContent(ts) && ts != []
    ensures Printable(ts[0], false) && PrintableContent(ts[1..])
    ensures ts[0].IsPlainText() && ts[1..] != [] ==> !ts[1..][0].IsPlainText()
  {
    hide Printable;
    assert ts[0] in ts;
    assert forall c :: c in ts[1..] ==> c in ts;
  }

  lemma {:induction false} NodeRoundTrip(t: Tree, f: Format, depth: nat, top: bool, r: string)
    requires f.Blank() && Printable(t, top) && !t.IsPlainText()
    ensures var s := PrintBody(t, f, depth) + r;
            Identify(s).Some? && ParseNode(s) == NodeRead(CondenseTree(t), Some(r), None)
    decreases t, 1
  {
    hide ParseNode, Identify;
    match t {
      case Element(name, attributes, children) =>
        ElementRoundTrip(t, f, depth, r);
      case Text(value, _) =>
        assert PrintBody(t, f, depth) + r == "<![CDATA[" + (value + ("]]>" + r));
        ReadsCData(value, r);
      case Comment(value) =>
        assert PrintBody(t, f, depth) + r == "<!--" + (value + ("-->" + r));
        ReadsComment(value, r);
      case Unknown(value) =>
        assert PrintBody(t, f, depth) + r == "<" + (value + (">" + r));
        ReadsUnknown(value, r);
      case Declaration(version, encoding, standalone) =>
        ReadsDeclaration(version, encoding, standalone, r);
    }
  }

  lemma {:induction false} ElementRoundTrip(t: Tree, f: Format, depth: nat, r: string)
    requires f.Blank() && Printable(t, false) && t.Element?
    ensures var s := PrintBody(t, f, depth) + r;
            Identify(s).Some? && ParseNode(s) == NodeRead(CondenseTree(t), Some(r), None)
    decreases t, 0
  {
    hide ParseNode, Identify, ReadValue, PrintBody, PrintAttributes, Encode, Indent, PrintNodes, Condensed, HasReference;
    var Element(name, attributes, children) := t;
    var end := EndTag(name) + r;
    PrintedElement(t, f, depth, r);
    assert AttributesFit([], attributes) by {
      assert [] + attributes == attributes;
    }
    assert "</" <= end;
    hide AttributesFit;
    if children == [] {
      ReadsEmptyElement(name, attributes, r);
    } else if IsSimple(children) {
      SimpleChild(children);
      SimpleContent(children[0].value, end);
      ReadsOpenElement(name, attributes, Encode(children[0].value) + end, CondenseTrees(children), r);
    } else {
      IndentIsWhite(f, depth);
      ContentRoundTrip(children, f, depth + 1, Indent(f, depth), end);
      ReadValueSkips(f.lineBreak, PrintNodes(children, f, depth + 1) + (Indent(f, depth) + end));
      ReadsOpenElement(name, attributes, f.lineBreak + (PrintNodes(children, f, depth + 1) + (Indent(f, depth) + end)),
        CondenseTrees(children), r);
    }
  }

  lemma SimpleChild(children: seq<Tree>)
    requires IsSimple(children) && forall c :: c in children ==> Printable(c, false)
    ensures !HasReference(children[0].value) && !Blank(children[0].value)
    ensures CondenseTrees(children) == [Text(Condensed(children[0].value), false)]
  {
    hide HasReference, Condensed;
    assert children[0] in children && Printable(children[0], false);
  }

  lemma SimpleContent(v: string, end: string)
    requires !HasReference(v) && !Blank(v) && "</" <= end
    ensures ReadValue(Encode(v) + end) == ContentRead([Text(Condensed(v), false)], Some(end), None)
  {
    hide ReadValue, Encode, Condensed;
    ReadValueReadsText("", v, "", end);
    assert "" + (Encode(v) + ("" + end)) == Encode(v) + end;
    ReadValueStops(end);
    ReadMoreContinues(Text(Condensed(v), false), end, [], end);
  }

  /** A text, and then content that is read back. */
  lemma TextFirst(ts: seq<Tree>, f: Format, depth: nat, w: string, tail: string)
    requires f.Blank() && AllWhite(w) && "</" <= tail && PrintableContent(ts) && ts != [] && ts[0].IsPlainText()
    requires ReadValue(PrintNodes(ts[1..], f, depth) + (w + tail)) == ContentRead(CondenseTrees(ts[1..]), Some(tail), None)
    ensures ReadValue(PrintNodes(ts, f, depth) + (w + tail)) == ContentRead(CondenseTrees(ts), Some(tail), None)
  {
    hide ReadValue, ReadMore, PrintBody, PrintNodes, Encode, Indent, Condensed, HasReference;
    var x := PrintNodes(ts[1..], f, depth) + (w + tail);
    var v := ts[0].value;
    PrintableRest(ts);
    PrintNodesSplit(ts, f, depth, w + tail);
    PlainTextPrints(ts[0], f, depth);
    var blank, y := NextTag(ts[1..], f, depth, w, tail);
    ReadValueSkips(blank, y);
    AllWhiteConcat(f.lineBreak, blank);
    assert f.lineBreak + x == (f.lineBreak + blank) + y;
    IndentIsWhite(f, depth);
    ReadValueReadsText(Indent(f, depth), v, f.lineBreak + blank, y);
    ReadMoreContinues(CondenseTree(ts[0]), y, CondenseTrees(ts[1..]), tail);
  }

  /** A node, and then content that is read back. */
  lemma NodeFirst(ts: seq<Tree>, f: Format, depth: nat, w: string, tail: string)
    requires f.Blank() && AllWhite(w) && "</" <= tail && PrintableContent(ts) && ts != [] && !ts[0].IsPlainText()
    requires var s := PrintBody(ts[0], f, depth) + (f.lineBreak + (PrintNodes(ts[1..], f, depth) + (w + tail)));
             Identify(s).Some? &&
             ParseNode(s) == NodeRead(CondenseTree(ts[0]), Some(f.lineBreak + (PrintNodes(ts[1..], f, depth) + (w + tail))), None)
    requires ReadValue(PrintNodes(ts[1..], f, depth) + (w + tail)) == ContentRead(CondenseTrees(ts[1..]), Some(tail), None)
    ensures ReadValue(PrintNodes(ts, f, depth) + (w + tail)) == ContentRead(CondenseTrees(ts), Some(tail), None)
  {
    hide ReadValue, ReadMore, ParseNode, Identify, PrintBody, PrintNodes, Indent;
    PrintableRest(ts);
    PrintNodesSplit(ts, f, depth, w + tail);
    var x := PrintNodes(ts[1..], f, depth) + (w + tail);
    var rest := f.lineBreak + x;
    var s := PrintBody(ts[0], f, depth) + rest;
    BodyStart(ts[0], f, depth, false, rest);
    IndentIsWhite(f, depth);
    ReadValueSkips(Indent(f, depth), s);
    ReadValueReadsNode(s);
    ReadValueSkips(f.lineBreak, x);
    ReadMoreContinues(CondenseTree(ts[0]), rest, CondenseTrees(ts[1..]), tail);
  }

  lemma {:induction false} ContentRoundTrip(ts: seq<Tree>, f: Format, depth: nat, w: string, tail: string)
    requires f.Blank() && AllWhite(w) && "</" <= tail && PrintableContent(ts)
    ensures ReadValue(PrintNodes(ts, f, depth) + (w + tail)) == ContentRead(CondenseTrees(ts), Some(tail), None)
    decreases ts, 0
  {
    hide ReadValue, ReadMore, ParseNode, Identify, PrintBody, Printable;
    if ts == [] {
      assert PrintNodes(ts, f, depth) + (w + tail) == w + tail;
      ReadValueSkips(w, tail);
      ReadValueStops(tail);
    } else {
      hide PrintNodes;
      PrintableRest(ts);
      ContentRoundTrip(ts[1..], f, depth, w, tail);
      if ts[0].IsPlainText() {
        TextFirst(ts, f, depth, w, tail);
      } else {
        NodeRoundTrip(ts[0], f, depth, false, f.lineBreak + (PrintNodes(ts[1..], f, depth) + (w + tail)));
        NodeFirst(ts, f, depth, w, tail);
      }
    }
  }
}
