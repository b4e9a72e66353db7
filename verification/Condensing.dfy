/** Text read with white space condensed: what an encoded text comes back as. */
module Condensing {
  import opened Characters
  import opened Entities
  import opened CharacterData

  // ---- The reference: words separated by single spaces ----

  function WordLength(v: string): (n: nat)
    ensures n <= |v|
    ensures forall i :: 0 <= i < n ==> v[i] != ' '
    ensures n < |v| ==> v[n] == ' '
  {
    if v == "" || v[0] == ' ' then 0 else 1 + WordLength(v[1..])
  }

  /** The maximal runs of characters other than the space. */
  function Words(v: string): seq<string> {
    if v == "" then []
    else if v[0] == ' ' then Words(v[1..])
    else [v[..WordLength(v)]] + Words(v[WordLength(v)..])
  }

  function JoinWords(words: seq<string>): string {
    if words == [] then ""
    else if |words| == 1 then words[0]
    else words[0] + " " + JoinWords(words[1..])
  }

  /** No space at either end and no two spaces in a row. */
  ghost predicate IsCondensed(v: string) {
    v != "" ==>
      v[0] != ' ' && v[|v| - 1] != ' ' && NoDoubleSpace(v)
  }

  ghost predicate NoDoubleSpace(v: string) {
    forall i :: 0 <= i < |v| - 1 ==> v[i] != ' ' || v[i + 1] != ' '
  }

  /** `TiXmlText::Blank`. */
  predicate Blank(v: string) {
    AllWhite(v)
  }

  // ---- What the loop computes ----

  function TrimLeft(v: string): string {
    if v != "" && v[0] == ' ' then TrimLeft(v[1..]) else v
  }

  function Squeeze(v: string, pending: bool): string {
    if v == "" then ""
    else if v[0] == ' ' then Squeeze(v[1..], true)
    else (if pending then " " else "") + [v[0]] + Squeeze(v[1..], false)
  }

  function Condensed(v: string): string {
    Squeeze(TrimLeft(v), false)
  }

  // ---- The loop's result is the words joined by single spaces ----

  lemma TrimLeftFacts(v: string)
    ensures Words(TrimLeft(v)) == Words(v)
    ensures TrimLeft(v) != "" ==> TrimLeft(v)[0] != ' '
    ensures Squeeze(v, true) == if TrimLeft(v) == "" then "" else " " + Squeeze(TrimLeft(v), false)
  {
  }

  lemma {:induction false} SqueezeWord(v: string)
    ensures Squeeze(v, false) == v[..WordLength(v)] + Squeeze(v[WordLength(v)..], false)
  {
    var n := WordLength(v);
    if n == 0 {
      assert v[..0] + Squeeze(v[0..], false) == Squeeze(v[0..], false) && v[0..] == v;
    } else {
      SqueezeWord(v[1..]);
      SplitHead(v, n, Squeeze(v[n..], false));
    }
  }

  lemma SplitHead(v: string, n: nat, rest: string)
    requires 0 < n <= |v|
    ensures v[1..][n - 1..] == v[n..]
    ensures [v[0]] + (v[1..][..n - 1] + rest) == v[..n] + rest
  {
    assert v[1..][..n - 1] == v[1..n];
    assert [v[0]] + v[1..n] == v[..n];
  }

  lemma {:induction false} SqueezeIsJoin(v: string)
    requires v != "" && v[0] != ' '
    ensures Squeeze(v, false) == JoinWords(Words(v)) && Words(v) != []
    decreases |v|
  {
    var n := WordLength(v);
    var rest := v[n..];
    SqueezeWord(v);
    if rest == "" {
      assert v[..n] == v && Words(rest) == [];
      assert Squeeze(v, false) == v + "" == v;
    } else {
      var t := TrimLeft(rest[1..]);
      TrimLeftFacts(rest[1..]);
      assert Squeeze(rest, false) == Squeeze(rest[1..], true);
      assert |t| < |v| by { TrimLeftLength(rest[1..]); }
      assert Words(v) == [v[..n]] + Words(t);
      if t == "" {
        assert Words(t) == [];
      } else {
        SqueezeIsJoin(t);
        assert Words(v)[1..] == Words(t);
      }
    }
  }

  lemma TrimLeftLength(v: string)
    ensures |TrimLeft(v)| <= |v|
  {
  }

  /** The condensing loop keeps exactly the words. */
  lemma CondensedIsJoinedWords(v: string)
    ensures Condensed(v) == JoinWords(Words(v))
  {
    TrimLeftFacts(v);
    if TrimLeft(v) != "" {
      SqueezeIsJoin(TrimLeft(v));
    }
  }

  lemma {:induction false} SqueezeShape(v: string, pending: bool)
    ensures var r := Squeeze(v, pending);
            NoDoubleSpace(r) && (r != "" ==> r[|r| - 1] != ' ' && (r[0] == ' ' ==> pending || v[0] == ' '))
  {
    if v != "" {
      var tail := Squeeze(v[1..], v[0] == ' ');
      SqueezeShape(v[1..], v[0] == ' ');
      if v[0] != ' ' {
        var r := Squeeze(v, pending);
        assert r == (if pending then " " else "") + [v[0]] + tail;
      }
    }
  }

  lemma {:induction false} SqueezeFixed(v: string, pending: bool)
    requires NoDoubleSpace(v) && (v != "" ==> v[|v| - 1] != ' ')
    requires pending ==> v != "" && v[0] != ' '
    ensures Squeeze(v, pending) == (if pending then " " else "") + v
  {
    if v != "" {
      assert v == [v[0]] + v[1..];
      if v[0] == ' ' {
        assert v[1] != ' ';
      }
      SqueezeFixed(v[1..], v[0] == ' ');
    }
  }

  /** Condensing leaves alone exactly the condensed texts. */
  lemma CondensedFixesExactly(v: string)
    ensures IsCondensed(Condensed(v))
    ensures Condensed(v) == v <==> IsCondensed(v)
  {
    TrimLeftFacts(v);
    SqueezeShape(TrimLeft(v), false);
    if IsCondensed(v) {
      SqueezeFixed(v, false);
    }
  }

  lemma CondensedIdempotent(v: string)
    ensures Condensed(Condensed(v)) == Condensed(v)
  {
    CondensedFixesExactly(v);
    CondensedFixesExactly(Condensed(v));
  }

  lemma {:induction false} SqueezeBlank(v: string, pending: bool)
    ensures Blank(Squeeze(v, pending)) <==> Blank(v)
  {
    if v != "" {
      SqueezeBlank(v[1..], v[0] == ' ');
      var tail := Squeeze(v[1..], v[0] == ' ');
      assert v == [v[0]] + v[1..];
      var r := Squeeze(v, pending);
      if v[0] != ' ' {
        var pre := (if pending then " " else "") + [v[0]];
        assert r == pre + tail;
        AllWhiteConcat(pre, tail);
        assert AllWhite(pre) <==> IsWhiteSpace(v[0]) by {
          assert pre[|pre| - 1] == v[0];
        }
      }
      AllWhiteConcat([v[0]], v[1..]);
      assert AllWhite([v[0]]) <==> IsWhiteSpace(v[0]) by { assert [v[0]][0] == v[0]; }
    }
  }

  lemma AllWhiteConcat(a: string, b: string)
    ensures AllWhite(a + b) <==> AllWhite(a) && AllWhite(b)
  {
    if AllWhite(a + b) {
      forall i | 0 <= i < |a| ensures IsWhiteSpace(a[i]) { assert (a + b)[i] == a[i]; }
      forall i | 0 <= i < |b| ensures IsWhiteSpace(b[i]) { assert (a + b)[|a| + i] == b[i]; }
    }
  }

  lemma TrimLeftBlank(v: string)
    ensures Blank(TrimLeft(v)) <==> Blank(v)
  {
    if v != "" && v[0] == ' ' {
      TrimLeftBlank(v[1..]);
      assert v == [v[0]] + v[1..];
      AllWhiteConcat([v[0]], v[1..]);
    }
  }

  lemma CondensedBlank(v: string)
    ensures Blank(Condensed(v)) <==> Blank(v)
  {
    TrimLeftBlank(v);
    SqueezeBlank(TrimLeft(v), false);
  }

  lemma SqueezeHead(v: string)
    ensures Squeeze(v, false) != "" && Squeeze(v, false)[0] != ' ' ==>
              v != "" && v[0] == Squeeze(v, false)[0] && Squeeze(v, false)[1..] == Squeeze(v[1..], false)
  {
    if v != "" && v[0] == ' ' {
      TrimLeftFacts(v[1..]);
    }
  }

  lemma {:induction false} SqueezeReference(v: string, pending: bool)
    requires !HasReference(v)
    ensures !HasReference(Squeeze(v, pending))
  {
    if v != "" {
      SqueezeReference(v[1..], v[0] == ' ');
      if v[0] != ' ' {
        var tail := Squeeze(v[1..], false);
        var r := [v[0]] + tail;
        SqueezeHead(v[1..]);
        if tail != "" && v[1..] != "" {
          SqueezeHead(v[2..]);
          assert v[1..][1..] == v[2..];
        }
        assert r[1..] == tail && !StartsReference(r);
        assert pending ==> (" " + r)[1..] == r && Squeeze(v, pending) == " " + r;
        assert !pending ==> Squeeze(v, pending) == r;
      }
    }
  }

  lemma TrimLeftReference(v: string)
    ensures !HasReference(v) ==> !HasReference(TrimLeft(v))
  {
  }

  lemma CondensedReference(v: string)
    requires !HasReference(v)
    ensures !HasReference(Condensed(v))
  {
    TrimLeftReference(v);
    SqueezeReference(TrimLeft(v), false);
  }

  // ---- What an encoded text reads back as ----

  /** Text stops at a tag or at the end of the input. */
  predicate StopsText(rest: string) {
    rest != "" ==> rest[0] == '<'
  }

  lemma {:induction false} DropWhite(w: string, s: string)
    requires AllWhite(w)
    ensures DropSpaces(w + s) == DropSpaces(s)
  {
    if w == "" {
      assert w + s == s;
    } else {
      assert (w + s)[0] == w[0] && (w + s)[1..] == w[1..] + s;
      DropWhite(w[1..], s);
    }
  }

  lemma {:induction false} CondensingReadsWhite(w: string, rest: string, pending: bool)
    requires AllWhite(w) && StopsText(rest)
    ensures ReadCondensing(w + rest, "<", pending) == Partial("", Some(rest))
  {
    if w == "" {
      assert w + rest == rest;
    } else {
      assert (w + rest)[0] == w[0] && (w + rest)[1..] == w[1..] + rest;
      CondensingReadsWhite(w[1..], rest, true);
    }
  }

  lemma EncodedNotStop(v: string, tail: string)
    requires v != "" && !StartsReference(v)
    ensures var s := Encode(v) + tail;
            s != "" && !("<" <= s) && (IsWhiteSpace(s[0]) <==> v[0] == ' ')
    ensures v[0] == ' ' ==> (Encode(v) + tail)[1..] == Encode(v[1..]) + tail
  {
    hide Encode, DecodeChar, StartsReference;
    EncodedStart(v, tail);
    if v[0] == ' ' {
      assert EncodeChar(v[0]) == " ";
    }
  }

  /** One character of an encoded text in the condensing loop. */
  lemma CondensingStep(v: string, tail: string, pending: bool)
    requires v != "" && !StartsReference(v)
    ensures var next := ReadCondensing(Encode(v[1..]) + tail, "<", v[0] == ' ');
            ReadCondensing(Encode(v) + tail, "<", pending) ==
            if v[0] == ' ' then next
            else Partial((if pending then " " else "") + [v[0]] + next.text, next.rest)
  {
    hide Encode, EncodeChar, DecodeChar, StartsReference;
    EncodedNotStop(v, tail);
    EncodedStart(v, tail);
  }

  /** The condensing loop over an encoded text, white space and a tag squeezes the text. */
  lemma {:induction false} CondensingReadsEncoded(v: string, w: string, rest: string, pending: bool)
    requires !HasReference(v) && AllWhite(w) && StopsText(rest)
    ensures ReadCondensing(Encode(v) + (w + rest), "<", pending) == Partial(Squeeze(v, pending), Some(rest))
  {
    var tail := w + rest;
    if v == "" {
      assert Encode(v) + tail == tail;
      CondensingReadsWhite(w, rest, pending);
    } else {
      CondensingStep(v, tail, pending);
      CondensingReadsEncoded(v[1..], w, rest, v[0] == ' ');
    }
  }

  lemma DropStep(v: string, s: string)
    requires v != "" && !StartsReference(v)
    ensures DropSpaces(Encode(v) + s) == if v[0] == ' ' then DropSpaces(Encode(v[1..]) + s) else Encode(v) + s
  {
    hide Encode, StartsReference;
    EncodedNotStop(v, s);
  }

  lemma {:induction false} DropEncoded(v: string, s: string)
    requires !HasReference(v)
    ensures !HasReference(TrimLeft(v))
    ensures TrimLeft(v) != "" ==> DropSpaces(Encode(v) + s) == Encode(TrimLeft(v)) + s
    ensures TrimLeft(v) == "" ==> DropSpaces(Encode(v) + s) == DropSpaces(s)
  {
    if v == "" {
      assert Encode(v) + s == s;
    } else {
      hide Encode, DropSpaces;
      DropStep(v, s);
      if v[0] == ' ' {
        DropEncoded(v[1..], s);
      }
    }
  }

  lemma NothingToRead(rest: string)
    requires rest != "" && rest[0] == '<'
    ensures DropSpaces(rest) == rest && ReadCondensing(rest, "<", false) == Partial("", Some(rest))
  {
    NoSpaceToDrop(rest);
    hide *;
    assert "<" <= rest;
    StopsAtOnce(rest);
  }

  lemma NoSpaceToDrop(rest: string)
    requires rest != "" && rest[0] == '<'
    ensures DropSpaces(rest) == rest
  {
  }

  lemma StopsAtOnce(rest: string)
    requires "<" <= rest
    ensures ReadCondensing(rest, "<", false) == Partial("", Some(rest))
  {
    hide DecodeChar;
  }

  lemma SqueezeNothing()
    ensures Squeeze("", false) == ""
  {
  }

  /** Reading an encoded text with any white space around it, before a tag, condenses it. */
  lemma TrimmingReadsEncoded(lead: string, v: string, w: string, rest: string)
    requires !HasReference(v) && AllWhite(lead) && AllWhite(w)
    requires rest != "" && rest[0] == '<'
    ensures ReadTrimming(lead + (Encode(v) + (w + rest)), "<") == Partial(Condensed(v), Some(rest))
  {
    hide Encode, DropSpaces, ReadCondensing, Squeeze, TrimLeft, HasReference;
    var s := Encode(v) + (w + rest);
    DropWhite(lead, s);
    DropEncoded(v, w + rest);
    if TrimLeft(v) == "" {
      DropWhite(w, rest);
      NothingToRead(rest);
      SqueezeNothing();
    } else {
      CondensingReadsEncoded(TrimLeft(v), w, rest, false);
    }
  }

  /** Reading on from a passed-through run. */
  lemma CondensingRun(v: string, rest: string, pending: bool)
    requires StartsReference(v) && rest != "" && rest[0] == '<'
    ensures var k := RunEnd(v, 1);
            var r := ReadCondensing(Encode(v) + rest, "<", pending);
            var blank := if pending then 1 else 0;
            r.rest.Some? && |r.rest.value| >= |rest| ==>
              || |r.text| == blank + 1
              || (k >= 3 && r.rest == ReadCondensing(Encode(v[k + 1..]) + rest, "<", false).rest
                  && |r.text| == blank + 1 + |ReadCondensing(Encode(v[k + 1..]) + rest, "<", false).text|)
  {
    hide Encode, DecodeChar, RunEnd, StartsReference;
    ReferenceRun(v, rest);
    assert !("<" <= Encode(v) + rest);
    assert ReadCondensing(rest, "<", false) == Partial("", Some(rest));
  }

  /** The companion of `KeepingBound` for condensed text. */
  lemma {:induction false} CondensingBound(v: string, rest: string, pending: bool)
    requires rest != "" && rest[0] == '<'
    ensures var r := ReadCondensing(Encode(v) + rest, "<", pending);
            r.rest.Some? && |r.rest.value| >= |rest| ==>
              |r.text| + (if HasReference(v) then 1 else 0) <= |v| + (if pending then 1 else 0)
    decreases |v|
  {
    hide Encode, ReadCondensing, RunEnd, StartsReference;
    if v == "" {
      CondensingReadsWhite("", rest, pending);
      assert "" + rest == rest && Encode("") == "" by { EncodeNothing(); }
    } else if StartsReference(v) {
      CondensingRun(v, rest, pending);
      RunEndInside(v);
      CondensingBound(v[RunEnd(v, 1) + 1..], rest, false);
    } else {
      CondensingStep(v, rest, pending);
      CondensingBound(v[1..], rest, v[0] == ' ');
    }
  }

  lemma EncodeNothing()
    ensures Encode("") == ""
  {
  }

  lemma {:induction false} TrimmingShrinks(v: string, rest: string)
    requires rest != "" && rest[0] == '<' && HasReference(v)
    ensures var r := ReadTrimming(Encode(v) + rest, "<");
            r.rest == Some(rest) ==> |r.text| < |v|
  {
    var s := Encode(v) + rest;
    if StartsReference(v) {
      ReferenceRun(v, rest);
      assert DropSpaces(s) == s;
      CondensingBound(v, rest, false);
    } else {
      EncodedNotStop(v, rest);
      if v[0] == ' ' {
        TrimmingShrinks(v[1..], rest);
        assert DropSpaces(s) == DropSpaces(s[1..]);
      } else {
        assert DropSpaces(s) == s;
        CondensingBound(v, rest, false);
      }
    }
  }

  /** Property of print-then-read on text: the words, joined by single spaces. */
  lemma TrimmingReadsWords(v: string, rest: string)
    requires !HasReference(v) && rest != "" && rest[0] == '<'
    ensures ReadTrimming(Encode(v) + rest, "<") == Partial(JoinWords(Words(v)), Some(rest))
  {
    TrimmingReadsEncoded("", v, "", rest);
    CondensedIsJoinedWords(v);
    assert "" + rest == rest;
    assert "" + (Encode(v) + rest) == Encode(v) + rest;
  }

  /** A text survives printing and reading exactly when it is condensed and holds no "&#x". */
  lemma TrimmingSurvives(v: string, rest: string)
    requires rest != "" && rest[0] == '<'
    ensures ReadTrimming(Encode(v) + rest, "<") == Partial(v, Some(rest)) <==> IsCondensed(v) && !HasReference(v)
  {
    if HasReference(v) {
      TrimmingShrinks(v, rest);
    } else {
      TrimmingReadsWords(v, rest);
      CondensedIsJoinedWords(v);
      CondensedFixesExactly(v);
    }
  }
}
