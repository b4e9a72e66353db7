/** What the printer writes, by examples and for values that need no encoding. */
module Layout {
  import opened Entities
  import opened XmlTree
  import opened Printing
  import opened References

  /** A text of these characters is written as it is. */
  predicate IsPlain(v: string) {
    forall i :: 0 <= i < |v| ==> v[i] as int >= 32 && v[i] !in "&<>\"'"
  }

  lemma {:induction false} PlainIsKept(v: string)
    requires IsPlain(v)
    ensures Encode(v) == v
  {
    hide EncodeChar;
    if v != "" {
      assert v[0] != '&';
      CharactersWritten(v[0]);
      PlainIsKept(v[1..]);
    }
  }

  /** An attribute is its name and its value in double quotes, or in single ones when the value holds a
      double quote. */
  lemma AttributeWritten(n: string, v: string)
    requires IsPlain(n)
    ensures PrintAttribute(Attribute(n, v)) ==
            if '"' in v then n + ("='" + (Encode(v) + "'")) else n + ("=\"" + (Encode(v) + "\""))
  {
    PlainIsKept(n);
    hide Encode;
    Quoted(Encode(v), '\'');
    Quoted(Encode(v), '"');
    assert ['='] + ['\''] == "='" && ['='] + ['"'] == "=\"";
  }

  lemma Quoted(e: string, q: char)
    ensures "=" + ([q] + (e + [q])) == (['='] + [q]) + (e + [q])
  {
  }

  // ---- Lines ----

  /** An element whose only child is a plain text is printed on one line. */
  lemma OneLine(n: string, v: string, f: Format, depth: nat)
    requires '\0' !in n && IsPlain(v)
    ensures PrintBody(Element(n, [], [Text(v, false)]), f, depth) == "<" + (n + (">" + (v + ("</" + (n + ">")))))
  {
    PlainIsKept(v);
    hide Encode, PrintNodes, CStr, Indent;
    assert PrintAttributes(Visible([])) == "";
    Nothing(">" + (v + ("</" + (n + ">"))));
  }

  lemma Nothing(s: string)
    ensures "" + s == s && s + "" == s
  {
  }

  lemma NoChildren(n: string, f: Format, depth: nat)
    requires '\0' !in n
    ensures PrintBody(Element(n, [], []), f, depth) == "<" + (n + " />")
  {
    hide PrintNodes, CStr, Indent;
    assert PrintAttributes(Visible([])) == "";
    Nothing(" />");
  }

  /** The children of another element are on lines of their own, indented one step further. */
  lemma Nested(n: string, a: Tree, b: Tree, f: Format, depth: nat)
    requires '\0' !in n && !a.Document? && !b.Document?
    ensures var inner, outer := Indent(f, depth + 1), Indent(f, depth);
            PrintBody(Element(n, [], [a, b]), f, depth)
            == "<" + (n + (">" + (f.lineBreak
               + ((inner + (PrintBody(a, f, depth + 1) + f.lineBreak)) + (inner + (PrintBody(b, f, depth + 1) + f.lineBreak))
               + (outer + ("</" + (n + ">")))))))
  {
    TwoNodes(a, b, f, depth + 1);
    hide PrintBody, PrintNodes, CStr, Indent;
    NestedBody(n, [a, b], f, depth);
  }

  lemma NestedBody(n: string, children: seq<Tree>, f: Format, depth: nat)
    requires '\0' !in n && |children| > 1
    ensures PrintBody(Element(n, [], children), f, depth)
         == "<" + (n + (">" + (f.lineBreak + (PrintNodes(children, f, depth + 1) + (Indent(f, depth) + ("</" + (n + ">")))))))
  {
    hide PrintNodes, CStr, Indent;
    assert PrintAttributes(Visible([])) == "";
    Nothing(">" + (f.lineBreak + (PrintNodes(children, f, depth + 1) + (Indent(f, depth) + ("</" + (n + ">"))))));
  }

  lemma TwoNodes(a: Tree, b: Tree, f: Format, depth: nat)
    requires !a.Document? && !b.Document?
    ensures PrintNodes([a, b], f, depth)
         == (Indent(f, depth) + (PrintBody(a, f, depth) + f.lineBreak)) + (Indent(f, depth) + (PrintBody(b, f, depth) + f.lineBreak))
  {
    hide PrintBody, Indent;
    var two := [a, b];
    assert two[1..] == [b] && [b][1..] == [];
    assert PrintNodes([b], f, depth) == PrintNode(b, f, depth) + "";
    Nothing(PrintNode(b, f, depth));
  }

  /** One step is one indentation, and steps add up. */
  lemma {:induction false} Indents(f: Format, a: nat, b: nat)
    ensures Indent(f, 0) == "" && Indent(f, 1) == f.indent && Indent(f, a + b) == Indent(f, a) + Indent(f, b)
  {
    Nothing(f.indent);
    assert Indent(f, 1) == f.indent + Indent(f, 0);
    if a == 0 {
      Nothing(Indent(f, b));
    } else {
      Indents(f, a - 1, b);
      assert f.indent + (Indent(f, a - 1) + Indent(f, b)) == (f.indent + Indent(f, a - 1)) + Indent(f, b);
    }
  }

  // ---- Up to a NUL ----

  /** Names, comments, unknown tags and CDATA sections are shown up to their first NUL; texts are not cut. */
  lemma CutAtNul(a: string, b: string, f: Format, depth: nat)
    requires '\0' !in a
    ensures var v := a + ("\0" + b);
            && PrintBody(Comment(v), f, depth) == "<!--" + (a + "-->")
            && PrintBody(Unknown(v), f, depth) == "<" + (a + ">")
            && PrintBody(Text(v, true), f, depth) == "<![CDATA[" + (a + "]]>")
            && PrintBody(Element(v, [], []), f, depth) == "<" + (a + " />")
            && PrintBody(Text(v, false), f, depth) == Encode(v)
  {
    var v := a + ("\0" + b);
    Cut(a, b);
    assert PrintAttributes(Visible([])) == "";
    Nothing(" />");
    hide CStr, Encode, PrintNodes;
  }

  lemma {:induction false} Cut(a: string, b: string)
    requires '\0' !in a
    ensures CStr(a + ("\0" + b)) == a
  {
    var v := a + ("\0" + b);
    if a == "" {
      assert v[0] == '\0';
    } else {
      assert v[0] == a[0] && v[1..] == a[1..] + ("\0" + b);
      Cut(a[1..], b);
      assert [a[0]] + a[1..] == a;
    }
  }
}
