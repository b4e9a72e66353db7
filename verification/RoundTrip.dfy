/** Parsing what was printed. */
module RoundTrip {
  import opened Characters
  import opened Entities
  import opened CharacterData
  import opened Condensing
  import opened XmlTree
  import opened AttributeMap
  import opened Grammar
  import opened Printing
  import opened NormalForm

  // ---- Names and fields ----

  lemma {:induction false} NameLengthOf(n: string, rest: string)
    requires forall i :: 0 <= i < |n| ==> IsNameChar(n[i])
    requires rest == "" || !IsNameChar(rest[0])
    ensures NameLength(n + rest) == |n|
  {
    if n == "" {
      assert n + rest == rest;
    } else {
      assert (n + rest)[0] == n[0] && (n + rest)[1..] == n[1..] + rest;
      NameLengthOf(n[1..], rest);
    }
  }

  lemma ReadsName(n: string, rest: string)
    requires IsName(n) && (rest == "" || !IsNameChar(rest[0]))
    ensures ReadName(n + rest) == Some(Chunk(n, rest))
  {
    NameLengthOf(n, rest);
    assert (n + rest)[0] == n[0];
    assert (n + rest)[..|n|] == n && (n + rest)[|n|..] == rest;
  }

  lemma {:induction false} EncodeName(n: string)
    requires forall i :: 0 <= i < |n| ==> IsNameChar(n[i])
    ensures Encode(n) == n
  {
    if n != "" {
      assert !StartsReference(n) by {
        assert IsNameChar(n[0]);
      }
      EncodeName(n[1..]);
      assert EncodeChar(n[0]) == [n[0]];
      assert [n[0]] + n[1..] == n;
    }
  }

  lemma NameStartMarks(c: char)
    requires IsNameStart(c)
    ensures c != '/' && c != '>' && c != '<' && c != '!' && c != '?' && !IsWhiteSpace(c)
  {
  }

  lemma NameIsCStr(n: string)
    requires IsName(n)
    ensures CStr(n) == n
  {
    assert forall i :: 0 <= i < |n| ==> IsNameChar(n[i]);
    assert !IsNameChar('\0');
  }

  lemma ContainsBehind(v: string, end: string)
    requires v != ""
    ensures Contains(v[1..], end) ==> Contains(v, end)
  {
    var t := v[1..];
    if Contains(t, end) {
      var i :| 0 <= i <= |t| - |end| && end <= t[i..];
      assert v[i + 1..] == t[i..];
    }
  }

  lemma {:induction false} ReadsUpTo(v: string, end: string, rest: string)
    requires end != "" && !Contains(v, end)
    requires forall i :: 0 <= i < |end| - 1 ==> end[i] != end[|end| - 1]
    ensures ReadUpTo(v + (end + rest), end) == Partial(v, Some(rest))
  {
    var s := v + (end + rest);
    if v == "" {
      assert s == end + rest;
      assert s[|end|..] == rest;
    } else {
      var t := v[1..];
      assert s[0] == v[0] && s[1..] == t + (end + rest);
      ContainsBehind(v, end);
      NotYet(v, end, rest);
      ReadsUpTo(t, end, rest);
      assert [v[0]] + t == v;
    }
  }

  /** A value that is shown as a C string before an end tag comes back exactly when it holds no NUL. */
  lemma ShownSurvives(v: string, end: string, rest: string)
    requires end != "" && !Contains(v, end)
    requires forall i :: 0 <= i < |end| - 1 ==> end[i] != end[|end| - 1]
    ensures ReadUpTo(CStr(v) + (end + rest), end) == Partial(v, Some(rest)) <==> '\0' !in v
  {
    hide ReadUpTo;
    var c := CStr(v);
    forall i | 0 <= i <= |c| - |end| ensures !(end <= c[i..]) {
      assert v[i..][..|end|] == c[i..][..|end|];
    }
    ReadsUpTo(c, end, rest);
  }

  /** An end tag cannot begin inside the value and end behind it. */
  lemma NotYet(v: string, end: string, rest: string)
    requires v != "" && end != "" && !Contains(v, end)
    requires forall i :: 0 <= i < |end| - 1 ==> end[i] != end[|end| - 1]
    ensures !(end <= v + (end + rest))
  {
    var s := v + (end + rest);
    if |end| <= |v| {
      assert v[0..] == v;
      assert s[..|end|] == v[..|end|];
    } else {
      var k := |end| - 1;
      assert s[k] == end[k - |v|];
    }
  }

  // ---- Attributes ----

  lemma NothingDropped(s: string)
    requires s != "" && !IsWhiteSpace(s[0])
    ensures DropSpaces(s) == s
  {
  }

  lemma ReadsEquals(n: string, value: string)
    requires value != "" && IsQuote(value[0])
    ensures ParseEquals(n, "=" + value) == ParseAttributeValue(n, value)
  {
    hide ParseAttributeValue, DropSpaces;
    var s := "=" + value;
    assert s[0] == '=' && s[1..] == value;
    NothingDropped(s);
    NothingDropped(value);
  }

  lemma ReadsNameAndEquals(n: string, value: string)
    requires IsName(n) && value != "" && IsQuote(value[0])
    ensures ParseAttribute(n + ("=" + value)) == ParseAttributeValue(n, value)
  {
    hide ParseEquals, ParseAttributeValue, DropSpaces, ReadName;
    var s := n + ("=" + value);
    assert s[0] == n[0] && IsNameStart(n[0]);
    NameStartMarks(n[0]);
    NothingDropped(s);
    ReadsName(n, "=" + value);
    ReadsEquals(n, value);
  }

  lemma ReadsQuoted(n: string, v: string, q: char, rest: string)
    requires !HasReference(v) && IsQuote(q)
    ensures ParseAttributeValue(n, [q] + (Encode(v) + ([q] + rest))) == Read(Attribute(n, v), rest)
  {
    var tail := [q] + rest;
    var value := [q] + (Encode(v) + tail);
    assert value[1..] == Encode(v) + tail;
    KeepingReadsEncoded(v, tail);
    assert tail[1..] == rest;
  }

  lemma PrintedAttribute(a: Attribute, rest: string)
    requires IsName(a.name)
    ensures var q := QuoteFor(a.value);
            PrintAttribute(a) + rest == a.name + ("=" + ([q] + (Encode(a.value) + ([q] + rest))))
  {
    EncodeName(a.name);
    hide Encode, QuoteFor, IsName;
    FiveParts(a.name, "=", [QuoteFor(a.value)], Encode(a.value), rest);
  }

  lemma FiveParts(n: string, m: string, q: string, e: string, rest: string)
    ensures (n + (m + (q + (e + q)))) + rest == n + (m + (q + (e + (q + rest))))
  {
    assert (e + q) + rest == e + (q + rest);
    assert (q + (e + q)) + rest == q + ((e + q) + rest);
  }

  lemma ReadsAttribute(a: Attribute, rest: string)
    requires IsName(a.name) && !HasReference(a.value)
    ensures ParseAttribute(PrintAttribute(a) + rest) == Read(a, rest)
  {
    var q := QuoteFor(a.value);
    PrintedAttribute(a, rest);
    ReadsNameAndEquals(a.name, [q] + (Encode(a.value) + ([q] + rest)));
    ReadsQuoted(a.name, a.value, q, rest);
  }

  ghost predicate AttributesFit(before: seq<Attribute>, attributes: seq<Attribute>) {
    && (forall i :: 0 <= i < |attributes| ==> IsName(attributes[i].name) && !HasReference(attributes[i].value))
    && UniqueNames(before + attributes)
  }

  lemma PrintsFirstAttribute(attributes: seq<Attribute>, tail: string)
    requires attributes != []
    ensures PrintAttributes(attributes) + tail
         == " " + (PrintAttribute(attributes[0]) + (PrintAttributes(attributes[1..]) + tail))
  {
    hide PrintAttribute;
  }

  lemma FirstAttributeFits(before: seq<Attribute>, attributes: seq<Attribute>)
    requires AttributesFit(before, attributes) && attributes != []
    ensures AttributesFit(before + [attributes[0]], attributes[1..])
    ensures (before + [attributes[0]]) + attributes[1..] == before + attributes
    ensures !Named(before, attributes[0].name)
  {
    hide IsName, HasReference;
    assert forall i :: 0 <= i < |before| ==> (before + attributes)[i] == before[i];
    assert (before + attributes)[|before|] == attributes[0];
    assert (before + [attributes[0]]) + attributes[1..] == before + attributes;
  }

  lemma {:induction false} ReadsTag(before: seq<Attribute>, attributes: seq<Attribute>, tail: string)
    requires AttributesFit(before, attributes) && tail != ""
    ensures ParseTag(PrintAttributes(attributes) + tail, before) == ParseTag(tail, before + attributes)
    decreases |attributes|
  {
    hide ParseTag, PrintAttribute, IsName, HasReference, Named;
    if attributes == [] {
      assert PrintAttributes(attributes) + tail == tail && before + attributes == before;
    } else {
      var a := attributes[0];
      assert IsName(a.name) && !HasReference(a.value);
      FirstAttributeFits(before, attributes);
      hide AttributesFit;
      PrintsFirstAttribute(attributes, tail);
      ReadsTag(before + [a], attributes[1..], tail);
      ReadsTagStep(before, a, PrintAttributes(attributes[1..]) + tail);
    }
  }

  lemma ReadsTagStep(before: seq<Attribute>, a: Attribute, rest: string)
    requires IsName(a.name) && !HasReference(a.value) && !Named(before, a.name) && rest != ""
    ensures ParseTag(" " + (PrintAttribute(a) + rest), before) == ParseTag(rest, before + [a])
  {
    var t := PrintAttribute(a) + rest;
    ReadsAttribute(a, rest);
    assert t != "" && t[0] == a.name[0] by {
      PrintedAttribute(a, rest);
    }
    TagReadsAttribute(before, t, a, rest);
  }

  lemma TagReadsAttribute(before: seq<Attribute>, t: string, a: Attribute, rest: string)
    requires t != "" && IsNameStart(t[0]) && ParseAttribute(t) == Read(a, rest)
    requires !Named(before, a.name) && rest != ""
    ensures ParseTag(" " + t, before) == ParseTag(rest, before + [a])
  {
    DropWhite(" ", t);
    NameStartMarks(t[0]);
  }

  lemma {:induction false} NamesVisible(attributes: seq<Attribute>)
    requires forall i :: 0 <= i < |attributes| ==> IsName(attributes[i].name)
    ensures VisibleRest(attributes) == attributes && Visible(attributes) == attributes
  {
    if attributes != [] {
      NamesVisible(attributes[1..]);
      assert [attributes[0]] + attributes[1..] == attributes;
      assert IsName(attributes[0].name);
    }
  }
}
