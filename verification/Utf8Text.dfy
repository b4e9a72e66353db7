/** Characters and entities in UTF-8, and what comes back of an encoded value. A `char` stands for
    a byte here too. */
module Utf8Text {
  import opened Characters
  import opened Entities
  import opened CharacterData
  import opened Utf8

  function CharOf(b: Byte): char {
    (b as int) as char
  }

  function TextOf(bytes: seq<Byte>): (r: string)
    ensures |r| == |bytes| && forall i :: 0 <= i < |r| ==> r[i] == CharOf(bytes[i])
  {
    if bytes == [] then "" else [CharOf(bytes[0])] + TextOf(bytes[1..])
  }

  /** `utf8ByteTable` on characters. */
  function LengthOf(c: char): (n: nat)
    ensures 1 <= n <= 4
  {
    if c as int < 0xC2 then 1 else if c as int < 0xE0 then 2 else if c as int < 0xF0 then 3 else if c as int < 0xF5 then 4 else 1
  }

  lemma LengthIsTable(b: Byte)
    ensures LengthOf(CharOf(b)) == ByteTable(b)
  {
  }

  /** The bytes of a code, of which 32 bits are kept. */
  function CodeText(code: nat): string {
    TextOf(Encoded((code % WORD) as bv32))
  }

  // ---- `GetEntity` and `GetChar` ----

  function NumericText(s: string, hex: bool): Option<Chunk>
    requires |s| >= 3
  {
    match NumericCode(s, hex)
    case None => None
    case Some(code) => Some(Chunk(CodeText(code.value), code.rest))
  }

  function DecodeEntityUtf8(s: string): Option<Chunk>
    requires s != "" && s[0] == '&'
  {
    if |s| >= 3 && s[1] == '#' then
      if s[2] == 'x' then
        if |s| == 3 then None else NumericText(s, true)
      else NumericText(s, false)
    else Some(NamedEntity(s, 0))
  }

  /** One character or entity. A character that the end of the text cuts off leads outside the text. */
  function DecodeCharUtf8(s: string): Option<Chunk>
    requires s != ""
  {
    if LengthOf(s[0]) == 1 then if s[0] == '&' then DecodeEntityUtf8(s) else Some(Chunk([s[0]], s[1..]))
    else if |s| < LengthOf(s[0]) then None
    else Some(Chunk(s[..LengthOf(s[0])], s[LengthOf(s[0])..]))
  }

  method TextOfBytes(bytes: array<Byte>, length: nat) returns (text: string)
    requires length <= bytes.Length
    ensures text == TextOf(bytes[..length])
  {
    hide TextOf, CharOf;
    text := "";
    var i: nat := 0;
    while i < length
      invariant i <= length && |text| == i && forall j :: 0 <= j < i ==> text[j] == CharOf(bytes[j])
    {
      text := text + [CharOf(bytes[i])];
      i := i + 1;
    }
  }

  /** The numeric half of `GetEntity`, in UTF-8. */
  method GetNumericText(s: string, p: nat, hex: bool) returns (value: string, r: Option<nat>)
    requires p + 3 <= |s| && s[p + 1] == '#' && (hex <==> s[p + 2] == 'x')
    ensures Reads(s, value, r, NumericText(s[p..], hex))
  {
    hide NumericCode, Encoded, TextOf, Utf8Length;
    var code, at := GetNumericCode(s, p, hex);
    if code.None? {
      return "", None;
    }
    var output := new Byte[4];
    LengthAtMost(code.value as bv32);
    var length := ConvertUtf32ToUtf8(code.value as bv32, output);
    value := TextOfBytes(output, length);
    r := Some(at);
  }

  method GetEntityUtf8(s: string, p: nat) returns (value: string, r: Option<nat>)
    requires p < |s| && s[p] == '&'
    ensures Reads(s, value, r, DecodeEntityUtf8(s[p..]))
  {
    hide NumericText, NamedEntity;
    if p + 2 < |s| && s[p + 1] == '#' {
      if s[p + 2] == 'x' {
        if p + 3 == |s| {
          return "", None;
        }
        value, r := GetNumericText(s, p, true);
      } else {
        value, r := GetNumericText(s, p, false);
      }
      return;
    }
    var at;
    value, at := GetNamedEntity(s, p);
    r := Some(at);
  }

  method GetCharUtf8(s: string, p: nat) returns (value: string, r: Option<nat>)
    requires p < |s|
    ensures Reads(s, value, r, DecodeCharUtf8(s[p..]))
  {
    hide DecodeEntityUtf8, LengthOf;
    var length := LengthOf(s[p]);
    assert s[p..][0] == s[p] && s[p..][1..] == s[p + 1..];
    if length == 1 {
      if s[p] == '&' {
        value, r := GetEntityUtf8(s, p);
      } else {
        return [s[p]], Some(p + 1);
      }
    } else {
      value := "";
      var i: nat := 0;
      while i < length && p + i < |s|
        invariant i <= length && p + i <= |s| && value == s[p..p + i]
      {
        value := value + [s[p + i]];
        i := i + 1;
      }
      if p + length <= |s| {
        assert s[p..][..length] == s[p..p + length] && s[p..][length..] == s[p + length..];
        return value, Some(p + length);
      }
      return value, None;
    }
  }

  // ---- White space and marks ----

  /** The byte order mark and two non-characters, which count as white space. */
  predicate StartsWithMark(s: string) {
    && |s| >= 3 && s[0] as int == 0xEF
    && ((s[1] as int == 0xBB && s[2] as int == 0xBF) || (s[1] as int == 0xBF && (s[2] as int == 0xBE || s[2] as int == 0xBF)))
  }

  /** They are what is written for U+FEFF, U+FFFE and U+FFFF. */
  lemma MarksAreCodes(s: string)
    ensures StartsWithMark(s) <==>
            |s| >= 3 && (s[..3] == TextOf(Encoded(0xFEFF)) || s[..3] == TextOf(Encoded(0xFFFE)) || s[..3] == TextOf(Encoded(0xFFFF)))
  {
    Marks();
    hide Encoded, TextOf;
    if |s| >= 3 {
      var t := s[..3];
      assert t == [s[0], s[1], s[2]];
    }
  }

  function DropSpacesUtf8(s: string): (r: string)
    ensures |r| <= |s|
    decreases |s|
  {
    if StartsWithMark(s) then DropSpacesUtf8(s[3..])
    else if s != "" && IsWhiteSpace(s[0]) then DropSpacesUtf8(s[1..])
    else s
  }

  /** `SkipWhiteSpace` in UTF-8. */
  method SkipWhiteSpaceUtf8(s: string, p: Option<nat>) returns (r: Option<nat>)
    requires p.Some? ==> p.value <= |s|
    ensures r.None? <==> p.None? || p.value == |s|
    ensures r.Some? ==> p.value <= r.value <= |s| && s[r.value..] == DropSpacesUtf8(s[p.value..])
  {
    hide DropSpacesUtf8, StartsWithMark;
    if p.None? || p.value == |s| {
      return None;
    }
    var q := p.value;
    while q < |s|
      invariant p.value <= q <= |s| && DropSpacesUtf8(s[q..]) == DropSpacesUtf8(s[p.value..])
    {
      MarksAt(s, q);
      if q + 2 < |s| && StartsWithMark(s[q..q + 3]) {
        q := q + 3;
      } else if IsWhiteSpace(s[q]) {
        q := q + 1;
      } else {
        return Some(q);
      }
    }
    assert s[q..] == "";
    NothingToSkip();
    return Some(q);
  }

  lemma NothingToSkip()
    ensures DropSpacesUtf8("") == ""
  {
  }

  lemma MarksAt(s: string, q: nat)
    requires q < |s|
    ensures StartsWithMark(s[q..]) <==> q + 2 < |s| && StartsWithMark(s[q..q + 3])
    ensures DropSpacesUtf8(s[q..]) ==
            if StartsWithMark(s[q..]) then DropSpacesUtf8(s[q + 3..])
            else if IsWhiteSpace(s[q]) then DropSpacesUtf8(s[q + 1..]) else s[q..]
  {
    var t := s[q..];
    assert t[1..] == s[q + 1..] && (|t| >= 3 ==> t[3..] == s[q + 3..]);
  }

  /** Without the first byte of a mark the two encodings skip the same. */
  lemma {:induction false} SkipsTheSame(s: string)
    requires forall i :: 0 <= i < |s| ==> s[i] as int != 0xEF
    ensures DropSpacesUtf8(s) == DropSpaces(s)
  {
    if s != "" && IsWhiteSpace(s[0]) {
      SkipsTheSame(s[1..]);
    }
  }

  // ---- Keeping white space ----

  /** `ReadText` in UTF-8 that keeps white space: reads past `end`. */
  function ReadKeepingUtf8(s: string, end: string): Partial
    requires end != ""
    decreases |s|
  {
    if s == "" then Partial("", None)
    else if end <= s then Partial("", Some(s[|end|..]))
    else
      DecodeShrinks(s);
      match DecodeCharUtf8(s)
      case None => Partial("", None)
      case Some(head) =>
        var tail := ReadKeepingUtf8(head.rest, end);
        Partial(head.text + tail.text, tail.rest)
  }

  lemma DecodeShrinks(s: string)
    requires s != ""
    ensures DecodeCharUtf8(s).Some? ==> |DecodeCharUtf8(s).value.rest| < |s|
  {
    assert DecodeChar(s).Some? ==> |DecodeChar(s).value.rest| < |s|;
  }

  /** Whole characters: each first byte is followed by as many high bytes as it announces. */
  predicate Whole(v: string) {
    v == "" || (LengthOf(v[0]) <= |v| && HighBytes(v[1..LengthOf(v[0])]) && Whole(v[LengthOf(v[0])..]))
  }

  predicate HighBytes(v: string) {
    forall i :: 0 <= i < |v| ==> v[i] as int >= 0x80
  }

  lemma EncodeOneHigh(c: char, v: string)
    requires c as int >= 0x80
    ensures Encode([c] + v) == [c] + Encode(v)
  {
    var w := [c] + v;
    assert w[1..] == v && !StartsReference(w) && EncodeChar(c) == [c];
    hide EncodeChar;
  }

  lemma {:induction false} EncodeHigh(u: string, v: string)
    requires HighBytes(u)
    ensures Encode(u + v) == u + Encode(v)
  {
    hide Encode;
    if u == "" {
      assert u + v == v;
    } else {
      assert u + v == [u[0]] + (u[1..] + v);
      EncodeOneHigh(u[0], u[1..] + v);
      EncodeHigh(u[1..], v);
      assert [u[0]] + (u[1..] + Encode(v)) == u + Encode(v);
    }
  }

  /** The code point that a number up to 32 bits wide is. */
  lemma WordOf(x: bv32)
    ensures x as int < WORD && (x as int % WORD) as bv32 == x
  {
    assert (x as int) as bv32 == x;
  }

  lemma NextOctet(b: Byte)
    requires b as int < 255
    ensures (b + 1) as int == b as int + 1
  {
  }

  /** The byte of a number. */
  ghost function Octet(n: nat): (b: Byte)
    requires n < 256
    ensures b as int == n
  {
    if n == 0 then 0
    else
      NextOctet(Octet(n - 1));
      Octet(n - 1) + 1
  }

  lemma Widened(b: Byte)
    ensures (b as bv32) as int == b as int
  {
  }

  lemma CodeTextOf(x: bv32)
    ensures CodeText(x as int) == TextOf(Encoded(x))
  {
    hide TextOf, Encoded;
    WordOf(x);
  }

  lemma SmallCode(c: char)
    requires c as int < 0x80
    ensures CodeText(c as int) == [c]
  {
    hide Encoded, CharOf, CodeText, Octet;
    var x := Octet(c as int) as bv32;
    Widened(Octet(c as int));
    CodeTextOf(x);
    OneByteText(x);
  }

  lemma OneByteText(x: bv32)
    requires x as int < 0x80
    ensures |Encoded(x)| == 1 && CharOf(Encoded(x)[0]) as int == x as int
  {
    assert x < 0x80;
  }

  /** What is written for a character of one byte is read as that character. */
  lemma OneByteReads(c: char, rest: string)
    requires LengthOf(c) == 1
    ensures DecodeCharUtf8(EncodeChar(c) + rest) == Some(Chunk([c], rest))
  {
    hide NumericCode, CodeText;
    var s := EncodeChar(c) + rest;
    if c as int < 32 {
      ControlCode(c, rest);
      SmallCode(c);
    } else {
      DecodeEncodedChar(c, rest);
    }
  }

  lemma {:induction false} NoReferenceBehind(v: string, n: nat)
    requires n <= |v| && !HasReference(v)
    ensures !HasReference(v[n..])
  {
    if n > 0 {
      NoReferenceBehind(v[1..], n - 1);
      assert v[1..][n - 1..] == v[n..];
    } else {
      assert v[0..] == v;
    }
  }

  /** One character of an encoded value. */
  lemma CharacterReads(v: string, tail: string)
    requires v != "" && Whole(v) && !StartsReference(v)
    ensures var n := LengthOf(v[0]);
            var s := Encode(v) + tail;
            && s != "" && DecodeCharUtf8(s) == Some(Chunk(v[..n], Encode(v[n..]) + tail))
            && (!IsQuote(s[0]))
  {
    var n := LengthOf(v[0]);
    if n == 1 {
      EncodeUnfolds(v, tail);
      hide Encode, EncodeChar, DecodeCharUtf8;
      EncodedQuotes(v[0], Encode(v[1..]) + tail);
      OneByteReads(v[0], Encode(v[1..]) + tail);
      assert v[..1] == [v[0]];
    } else {
      HighCharacterReads(v, tail);
    }
  }

  lemma EncodedQuotes(c: char, rest: string)
    ensures EncodeChar(c) + rest != "" && !IsQuote((EncodeChar(c) + rest)[0])
  {
  }

  lemma DecodeHigh(s: string)
    requires s != "" && 1 < LengthOf(s[0]) <= |s|
    ensures DecodeCharUtf8(s) == Some(Chunk(s[..LengthOf(s[0])], s[LengthOf(s[0])..]))
  {
    hide DecodeEntityUtf8, LengthOf;
  }

  lemma HighCharacterReads(v: string, tail: string)
    requires v != "" && Whole(v) && LengthOf(v[0]) > 1
    ensures var n := LengthOf(v[0]);
            var s := Encode(v) + tail;
            s != "" && s[0] == v[0] && !IsQuote(v[0]) && DecodeCharUtf8(s) == Some(Chunk(v[..n], Encode(v[n..]) + tail))
  {
    var n := LengthOf(v[0]);
    HighStart(v);
    HighBytesRead(v[..n], v[n..], tail);
    hide *;
    assert v[..n] + v[n..] == v;
  }

  lemma HighBytesRead(u: string, w: string, tail: string)
    requires u != "" && HighBytes(u) && |u| == LengthOf(u[0]) > 1
    ensures var s := Encode(u + w) + tail; s != "" && s[0] == u[0] && DecodeCharUtf8(s) == Some(Chunk(u, Encode(w) + tail))
  {
    hide LengthOf, DecodeCharUtf8, HighBytes, Encode;
    EncodeHigh(u, w);
    Split(u, Encode(w), tail);
    DecodeHigh(Encode(u + w) + tail);
  }

  lemma HighStart(v: string)
    requires v != "" && Whole(v) && LengthOf(v[0]) > 1
    ensures LengthOf(v[0]) <= |v| && HighBytes(v[..LengthOf(v[0])]) && !IsQuote(v[0])
  {
    var u := v[..LengthOf(v[0])];
    assert u == [v[0]] + v[1..LengthOf(v[0])];
  }

  lemma Split(u: string, rest: string, tail: string)
    requires u != ""
    ensures var s := (u + rest) + tail; s != "" && s[0] == u[0] && s[..|u|] == u && s[|u|..] == rest + tail
  {
  }

  /** In UTF-8 too, an encoded value of whole characters without "&#x" is read back exactly, up to just
      past its closing quote. */
  lemma {:induction false} KeepingReadsUtf8(v: string, tail: string)
    requires Whole(v) && !HasReference(v) && tail != "" && IsQuote(tail[0])
    ensures ReadKeepingUtf8(Encode(v) + tail, [tail[0]]) == Partial(v, Some(tail[1..]))
    decreases |v|
  {
    hide Encode, DecodeCharUtf8, StartsReference, LengthOf, ReadKeepingUtf8, IsQuote, Whole;
    if v == "" {
      KeepingStops(tail);
    } else {
      var n := LengthOf(v[0]);
      WholeRest(v);
      NoReferenceBehind(v, n);
      CharacterReads(v, tail);
      KeepingReadsUtf8(v[n..], tail);
      KeepingOn(Encode(v) + tail, tail[0]);
      assert v[..n] + v[n..] == v;
    }
  }

  lemma KeepingStops(tail: string)
    requires tail != ""
    ensures ReadKeepingUtf8(Encode("") + tail, [tail[0]]) == Partial("", Some(tail[1..]))
  {
    assert Encode("") + tail == tail && [tail[0]] <= tail;
    hide Encode, DecodeCharUtf8;
  }

  lemma WholeRest(v: string)
    requires v != "" && Whole(v)
    ensures LengthOf(v[0]) <= |v| && Whole(v[LengthOf(v[0])..])
  {
  }

  lemma KeepingOn(s: string, q: char)
    requires s != "" && s[0] != q && DecodeCharUtf8(s).Some?
    ensures var head := DecodeCharUtf8(s).value;
            var tail := ReadKeepingUtf8(head.rest, [q]);
            ReadKeepingUtf8(s, [q]) == Partial(head.text + tail.text, tail.rest)
  {
    hide DecodeCharUtf8;
    assert !([q] <= s);
  }

  // ---- Code points ----

  lemma CodeIsWhole(x: bv32)
    requires x <= 0x10FFFF
    ensures var u := CodeText(x as int); u != "" && LengthOf(u[0]) == |u| && HighBytes(u[1..])
  {
    CodeTextOf(x);
    var e := Encoded(x);
    CodeInTable(x);
    hide CodeText, Encoded, CharOf, LengthOf, ByteTable;
    LengthIsTable(e[0]);
    var u := TextOf(e);
    forall i | 0 <= i < |u[1..]| ensures u[1..][i] as int >= 0x80 {
      TrailingIsHigh(x, i + 1);
      assert u[1..][i] == u[i + 1] == CharOf(e[i + 1]);
    }
  }

  lemma CodeInTable(x: bv32)
    requires x <= 0x10FFFF
    ensures Encoded(x) != [] && ByteTable(Encoded(x)[0]) == |Encoded(x)|
  {
    TableIsLength(x);
    hide Encoded, ByteTable;
  }

  /** What is written for a code point is read as one character, unless it is the ampersand. */
  lemma CodeIsOneUnit(x: bv32, rest: string)
    requires x <= 0x10FFFF && CodeText(x as int) != "&"
    ensures var s := CodeText(x as int) + rest; s != "" && DecodeCharUtf8(s) == Some(Chunk(CodeText(x as int), rest))
  {
    CodeIsWhole(x);
    hide CodeText, LengthOf, DecodeCharUtf8, HighBytes;
    var u := CodeText(x as int);
    var s := u + rest;
    assert s[0] == u[0] && s[..|u|] == u && s[|u|..] == rest;
    if |u| > 1 {
      DecodeHigh(s);
    } else {
      assert u == [u[0]] && u[0] != '&';
      DecodePlain(s);
    }
  }

  lemma DecodePlain(s: string)
    requires s != "" && LengthOf(s[0]) == 1 && s[0] != '&'
    ensures DecodeCharUtf8(s) == Some(Chunk([s[0]], s[1..]))
  {
    hide LengthOf;
  }

  lemma TrailingIsHigh(x: bv32, i: nat)
    requires x <= 0x10FFFF && 1 <= i < |Encoded(x)|
    ensures CharOf(Encoded(x)[i]) as int >= 0x80
  {
    ContinuationIsHigh(x);
    ContinuationIsHigh(x >> 6);
    ContinuationIsHigh(x >> 12);
    hide Continuation, CharOf;
  }

  lemma ContinuationIsHigh(bits: bv32)
    ensures CharOf(Continuation(bits)) as int >= 0x80
  {
  }

  function CodesText(codes: seq<bv32>): string {
    if codes == [] then "" else CodeText(codes[0] as int) + CodesText(codes[1..])
  }

  /** A text of Unicode code points is made of whole characters. */
  lemma {:induction false} CodesAreWhole(codes: seq<bv32>)
    requires forall i :: 0 <= i < |codes| ==> codes[i] <= 0x10FFFF
    ensures Whole(CodesText(codes))
  {
    if codes != [] {
      hide CodeText, LengthOf;
      CodeIsWhole(codes[0]);
      CodesAreWhole(codes[1..]);
      var u, rest := CodeText(codes[0] as int), CodesText(codes[1..]);
      var v := u + rest;
      assert v[0] == u[0] && v[1..|u|] == u[1..] && v[|u|..] == rest;
    }
  }

  /** A numeric reference to a code point reads as bytes that decode to it. */
  lemma ReferenceReads(s: string, hex: bool, x: bv32)
    requires |s| > 3 && s[0] == '&' && s[1] == '#' && (hex <==> s[2] == 'x')
    requires NumericCode(s, hex).Some? && NumericCode(s, hex).value.value == x as int && x <= 0x10FFFF
    ensures DecodeCharUtf8(s) == Some(Chunk(TextOf(Encoded(x)), NumericCode(s, hex).value.rest))
    ensures Decoded(Encoded(x)) == Some(x)
  {
    hide NumericCode, Decoded, Encoded, TextOf, CodeText;
    CodeTextOf(x);
    CodePointEncodes(x);
  }

  lemma CodePointEncodes(x: bv32)
    requires x <= 0x10FFFF
    ensures Decoded(Encoded(x)) == Some(x)
  {
    EncodedIsDecoded(x);
  }
}
