/** The attribute values that survive encoding and reading in UTF-8, exactly. */
module Utf8Survival {
  import opened Characters
  import opened Entities
  import opened CharacterData
  import opened Utf8
  import opened Utf8Text

  // ---- How much a reference yields ----

  lemma CodeLength(code: nat)
    ensures |CodeText(code)| <= 4 && (code < 32 ==> |CodeText(code)| == 1)
  {
    hide Encoded, TextOf, Octet;
    LengthAtMost((code % WORD) as bv32);
    if code < 32 {
      SmallCode(code as char);
    }
  }

  /** Where the two encodings find the end of a hexadecimal reference, and what UTF-8 makes of it. */
  lemma NumericParts(s: string)
    requires |s| > 3 && s[0] == '&' && s[1] == '#' && s[2] == 'x' && DecodeCharUtf8(s).Some?
    ensures var at := IndexOf(s, ';', 3);
            && at.Some? && Digits(s[3..at.value], true).Some?
            && DecodeCharUtf8(s) == Some(Chunk(CodeText(Digits(s[3..at.value], true).value), s[at.value + 1..]))
  {
    hide IndexOf, Digits, CodeText;
  }

  /** The end of an encoded character, read as the end of a reference, is a code below 32, or none. */
  lemma EncodedDigits(pre: string, c: char)
    requires |EncodeChar(c)| > 1
    ensures var e := EncodeChar(c);
            var v := Digits(pre + e[..|e| - 1], true);
            v.Some? ==> v.value < 32
  {
    var e := EncodeChar(c);
    var body := pre + e[..|e| - 1];
    if c as int < 32 {
      var hi, lo := HexDigit(c as int / 16), HexDigit(c as int % 16);
      assert body == pre + "&#" + ['x'] + [hi] + [lo];
      hide Digits, HexDigit, EncodeChar;
      DigitsAtMarker(pre + "&#");
      DigitsStep(pre + "&#" + ['x'], c as int / 16);
      DigitsStep(pre + "&#" + ['x'] + [hi], c as int % 16);
    } else {
      assert body[|body| - 1] == e[|e| - 2];
    }
  }

  lemma DigitsAtMarker(body: string)
    ensures Digits(body + ['x'], true) == Some(0)
  {
  }

  lemma DigitsStep(body: string, d: nat)
    requires d < 16 && Digits(body, true).Some?
    ensures Digits(body + [HexDigit(d)], true) == Some(Digits(body, true).value * 16 + d)
  {
    HexDigitIsDigit(d);
    hide HexDigit, DigitValue;
    assert (body + [HexDigit(d)])[..|body|] == body;
  }

  lemma HexDigitIsDigit(d: nat)
    requires d < 16
    ensures DigitValue(HexDigit(d), true) == Some(d) && HexDigit(d) != 'x'
  {
  }

  /** What reading in UTF-8 does at a passed-through run: it fails, or takes the run for one character,
      or runs on into the text behind the value. */
  lemma ReferenceText(v: string, tail: string)
    requires StartsReference(v) && (tail == "" || tail[0] != ';')
    ensures var s, k := Encode(v) + tail, RunEnd(v, 1);
            && s != "" && s[0] == '&'
            && var head := DecodeCharUtf8(s);
               head.Some? ==>
                 || (k >= 3 && v[k] == ';' && head.value.rest == Encode(v[k + 1..]) + tail && |head.value.text| <= k)
                 || (head.value.rest == tail && |head.value.text| <= 1)
                 || |head.value.rest| + 1 < |tail|
  {
    hide EncodeChar, IndexOf, Digits, DecodeCharUtf8, CodeText, RunEnd, StartsReference;
    RunEndInside(v);
    var s, k := Encode(v) + tail, RunEnd(v, 1);
    ReferenceStart(v, tail);
    if DecodeCharUtf8(s).Some? {
      LongEnough(s);
      NumericParts(s);
      ReferenceEnd(v, tail, IndexOf(s, ';', 3).value);
    }
  }

  lemma ReferenceEnd(v: string, tail: string, q: nat)
    requires StartsReference(v) && (tail == "" || tail[0] != ';')
    requires var s := Encode(v) + tail;
             && |s| > 3 && s[2] == 'x' && IndexOf(s, ';', 3) == Some(q) && Digits(s[3..q], true).Some?
    ensures var s, k := Encode(v) + tail, RunEnd(v, 1);
            var n := |CodeText(Digits(s[3..q], true).value)|;
            || (k >= 3 && v[k] == ';' && s[q + 1..] == Encode(v[k + 1..]) + tail && n <= k)
            || (s[q + 1..] == tail && n <= 1)
            || |s[q + 1..]| + 1 < |tail|
  {
    hide EncodeChar, IndexOf, Digits, CodeText, RunEnd, StartsReference;
    RunEndInside(v);
    var s, k := Encode(v) + tail, RunEnd(v, 1);
    RunSplit(v);
    hide Encode;
    var rest := Encode(v[k + 1..]);
    if v[k] == ';' {
      SemicolonPlain();
      Regrouped(v[..k], ";", rest, tail);
      RunText(s, v[..k], rest + tail, q);
    } else {
      SplitSemicolon(v[..k], v[k], rest, tail, q);
      if s[q + 1..] == tail {
        LastText(s, v[..k], v[k], tail, q);
      }
    }
  }

  lemma Regrouped(a: string, b: string, c: string, d: string)
    ensures (a + (b + c)) + d == a + (b + (c + d))
  {
  }

  lemma SemicolonPlain()
    ensures EncodeChar(';') == ";"
  {
  }

  lemma ReferenceStart(v: string, tail: string)
    requires StartsReference(v)
    ensures var s := Encode(v) + tail; |s| >= 3 && s[0] == '&' && s[1] == '#' && s[2] == 'x'
  {
    var k := RunEnd(v, 1);
    RunSplit(v);
    RunMarker(v, tail);
  }

  lemma LongEnough(s: string)
    requires |s| >= 3 && s[0] == '&' && s[1] == '#' && s[2] == 'x' && DecodeCharUtf8(s).Some?
    ensures |s| > 3
  {
    hide NumericText;
  }

  /** A run that ends with its own ';'. */
  lemma RunText(s: string, pre: string, after: string, q: nat)
    requires |pre| >= 3 && (forall j :: 3 <= j < |pre| ==> pre[j] != ';') && s == pre + (";" + after)
    requires IndexOf(s, ';', 3) == Some(q) && Digits(s[3..q], true).Some?
    ensures s[q + 1..] == after && |CodeText(Digits(s[3..q], true).value)| <= |pre|
  {
    hide CodeText, IndexOf;
    assert s == pre + ";" + after;
    SemicolonAt(pre, after, q);
    assert q == |pre|;
    CodeLength(Digits(s[3..q], true).value);
    if |pre| == 3 {
      assert s[3..q] == "";
    }
  }

  /** A run whose last character was encoded. */
  lemma LastText(s: string, pre: string, c: char, tail: string, q: nat)
    requires |pre| >= 2 && c != ';' && |s| > 2 && s[2] == 'x' && s == pre + (EncodeChar(c) + "") + tail
    requires 3 <= q < |s| && s[q] == ';' && s[q + 1..] == tail && Digits(s[3..q], true).Some?
    ensures |CodeText(Digits(s[3..q], true).value)| <= 1
  {
    hide CodeText, Digits;
    var e := EncodeChar(c);
    EncodeCharShape(c);
    assert q == |pre| + |e| - 1 && s[q] == e[|e| - 1];
    CodeLength(Digits(s[3..q], true).value);
    EscapeStart(c);
    assert s[|pre|] == e[0];
    assert s[3..q] == pre[3..] + e[..|e| - 1];
    EncodedDigits(pre[3..], c);
  }

  lemma EscapeStart(c: char)
    ensures |EncodeChar(c)| > 1 ==> EncodeChar(c)[0] == '&'
  {
  }

  // ---- Reading a whole value ----

  lemma {:induction false} KeepingShrinks(s: string, end: string)
    requires end != ""
    ensures ReadKeepingUtf8(s, end).rest.Some? ==> |ReadKeepingUtf8(s, end).rest.value| < |s|
    decreases |s|
  {
    hide DecodeCharUtf8;
    if s != "" && !(end <= s) {
      DecodeShrinks(s);
      if DecodeCharUtf8(s).Some? {
        KeepingShrinks(DecodeCharUtf8(s).value.rest, end);
      }
    }
  }

  /** Behind a character of one byte inside a value of whole characters there are whole characters. */
  lemma {:induction false} WholeBehind(v: string, k: nat)
    requires Whole(v) && k < |v| && v[k] as int < 0x80
    ensures Whole(v[k + 1..])
    decreases |v|
  {
    hide Whole, LengthOf;
    WholeStart(v);
    var n := LengthOf(v[0]);
    if k < n {
      OneByteAlone(v, k);
    } else {
      WholeBehind(v[n..], k - n);
      assert v[n..][k - n + 1..] == v[k + 1..];
    }
  }

  lemma WholeStart(v: string)
    requires v != "" && Whole(v)
    ensures LengthOf(v[0]) <= |v| && HighBytes(v[1..LengthOf(v[0])]) && Whole(v[LengthOf(v[0])..])
  {
  }

  lemma OneByteAlone(v: string, k: nat)
    requires v != "" && LengthOf(v[0]) <= |v| && HighBytes(v[1..LengthOf(v[0])]) && k < LengthOf(v[0]) && v[k] as int < 0x80
    ensures k == 0 && LengthOf(v[0]) == 1
  {
    var n := LengthOf(v[0]);
    forall i | 1 <= i < n ensures v[i] as int >= 0x80 {
      assert v[1..n][i - 1] == v[i];
    }
  }

  /** No reference begins inside a character of more than one byte. */
  lemma {:induction false} HighHasNoReference(v: string, n: nat)
    requires n <= |v| && (forall i :: 0 <= i < n ==> v[i] as int >= 0x80)
    ensures HasReference(v) <==> HasReference(v[n..])
  {
    if n == 0 {
      assert v[0..] == v;
    } else {
      HighHasNoReference(v[1..], n - 1);
      assert v[1..][n - 1..] == v[n..];
    }
  }

  lemma ReferenceBehind(v: string)
    requires v != "" && Whole(v) && !StartsReference(v)
    ensures LengthOf(v[0]) <= |v| && (HasReference(v) <==> HasReference(v[LengthOf(v[0])..]))
  {
    hide StartsReference;
    WholeStart(v);
    hide Whole;
    var n := LengthOf(v[0]);
    if n > 1 {
      forall i | 0 <= i < n ensures v[i] as int >= 0x80 {
        if i > 0 {
          assert v[1..n][i - 1] == v[i];
        }
      }
      HighHasNoReference(v, n);
    }
  }

  /** Reading on from a passed-through run. */
  lemma RunBound(v: string, tail: string)
    requires StartsReference(v) && tail != "" && IsQuote(tail[0])
    ensures var k := RunEnd(v, 1);
            var r := ReadKeepingUtf8(Encode(v) + tail, [tail[0]]);
            r.rest.Some? && |r.rest.value| + 1 >= |tail| ==>
              || |r.text| <= 1
              || (var rest := ReadKeepingUtf8(Encode(v[k + 1..]) + tail, [tail[0]]);
                  v[k] == ';' && r.rest == rest.rest && |r.text| <= k + |rest.text|)
  {
    hide Encode, DecodeCharUtf8, RunEnd, StartsReference, ReadKeepingUtf8;
    ReferenceText(v, tail);
    var s, q := Encode(v) + tail, tail[0];
    if DecodeCharUtf8(s).Some? {
      KeepingOn(s, q);
      var head := DecodeCharUtf8(s).value;
      KeepingShrinks(head.rest, [q]);
      if head.rest == tail {
        KeepingStops(tail);
        EncodeNothing(tail);
      }
    } else {
      KeepingFails(s, q);
    }
  }

  lemma EncodeNothing(tail: string)
    ensures Encode("") + tail == tail
  {
  }

  lemma KeepingFails(s: string, q: char)
    requires s != "" && s[0] != q && DecodeCharUtf8(s).None?
    ensures ReadKeepingUtf8(s, [q]).rest.None?
  {
    hide DecodeCharUtf8;
    assert !([q] <= s);
  }

  /** Reading an encoded value never yields more bytes than it has, and yields fewer when it holds a
      reference, unless reading ran on past the closing quote. */
  lemma {:induction false} KeepingBoundUtf8(v: string, tail: string)
    requires Whole(v) && tail != "" && IsQuote(tail[0])
    ensures var r := ReadKeepingUtf8(Encode(v) + tail, [tail[0]]);
            r.rest.Some? && |r.rest.value| + 1 >= |tail| ==> |r.text| + (if HasReference(v) then 1 else 0) <= |v|
    decreases |v|
  {
    hide Encode, ReadKeepingUtf8, RunEnd, StartsReference, DecodeCharUtf8, Whole, LengthOf, HasReference, IsQuote;
    if v == "" {
      KeepingStops(tail);
      NothingHasNoReference();
    } else if StartsReference(v) {
      RunBound(v, tail);
      RunEndInside(v);
      var k := RunEnd(v, 1);
      if v[k] == ';' {
        WholeBehind(v, k);
        KeepingBoundUtf8(v[k + 1..], tail);
      }
    } else {
      ReferenceBehind(v);
      WholeRest(v);
      CharacterReads(v, tail);
      assert !IsQuote((Encode(v) + tail)[0]);
      KeepingOn(Encode(v) + tail, tail[0]);
      KeepingBoundUtf8(v[LengthOf(v[0])..], tail);
    }
  }

  lemma NothingHasNoReference()
    ensures !HasReference("")
  {
  }

  /** In UTF-8 an attribute value of whole characters survives exactly when it holds no "&#x". */
  lemma KeepingSurvivesUtf8(v: string, tail: string)
    requires Whole(v) && tail != "" && IsQuote(tail[0])
    ensures ReadKeepingUtf8(Encode(v) + tail, [tail[0]]) == Partial(v, Some(tail[1..])) <==> !HasReference(v)
  {
    hide Encode, ReadKeepingUtf8, HasReference, IsQuote, Whole;
    if HasReference(v) {
      KeepingBoundUtf8(v, tail);
    } else {
      KeepingReadsUtf8(v, tail);
    }
  }

  /** A text of Unicode code points survives as an attribute value exactly when it holds no "&#x". */
  lemma CodesSurvive(codes: seq<bv32>, tail: string)
    requires forall i :: 0 <= i < |codes| ==> codes[i] <= 0x10FFFF
    requires tail != "" && IsQuote(tail[0])
    ensures var v := CodesText(codes);
            ReadKeepingUtf8(Encode(v) + tail, [tail[0]]) == Partial(v, Some(tail[1..])) <==> !HasReference(v)
  {
    hide CodesText, Whole, HasReference, Encode, ReadKeepingUtf8, IsQuote;
    CodesAreWhole(codes);
    KeepingSurvivesUtf8(CodesText(codes), tail);
  }
}
