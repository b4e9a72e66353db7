/** Character references: `EncodeString` writes them, `GetEntity` and `GetChar` read them back
    (byte-per-character encodings). */
module Entities {
  import opened Characters

  // ---- Writing ----

  function HexDigit(d: nat): char
    requires d < 16
  {
    if d < 10 then '0' + d as char else 'A' + (d - 10) as char
  }

  /** What one character becomes outside a pass-through run. */
  function EncodeChar(c: char): string {
    if c == '&' then "&amp;"
    else if c == '<' then "&lt;"
    else if c == '>' then "&gt;"
    else if c == '"' then "&quot;"
    else if c == '\'' then "&apos;"
    else if c as int < 32 then ['&', '#', 'x', HexDigit(c as int / 16), HexDigit(c as int % 16), ';']
    else [c]
  }

  /** The text at hand looks like a hexadecimal reference and is passed through unchanged. */
  predicate StartsReference(s: string) {
    |s| >= 3 && s[0] == '&' && s[1] == '#' && s[2] == 'x'
  }

  /** Where a pass-through run stops: at the first ';', or at the last character. */
  function RunEnd(s: string, i: nat): (k: nat)
    requires i < |s|
    ensures i <= k < |s|
    ensures k == |s| - 1 || s[k] == ';'
    ensures forall j :: i <= j < k ==> s[j] != ';'
    decreases |s| - i
  {
    if i == |s| - 1 || s[i] == ';' then i else RunEnd(s, i + 1)
  }

  function Encode(s: string): string {
    if s == "" then ""
    else if StartsReference(s) then s[..RunEnd(s, 1)] + Encode(s[RunEnd(s, 1)..])
    else EncodeChar(s[0]) + Encode(s[1..])
  }

  /** A pass-through run from `from` to `to` splits the encoding there. */
  lemma EncodeRun(out: string, str: string, from: nat, to: nat)
    requires from < to < |str| && StartsReference(str[from..])
    requires forall j :: from < j < to ==> str[j] != ';'
    requires to == |str| - 1 || str[to] == ';'
    ensures out + Encode(str[from..]) == (out + str[from..to]) + Encode(str[to..])
  {
    var tail := str[from..];
    var k := RunEnd(tail, 1);
    assert forall j :: 0 < j < to - from ==> tail[j] == str[from + j];
    assert tail[to - from] == str[to];
    assert k == to - from;
    assert tail[..k] == str[from..to] && tail[k..] == str[to..];
  }

  /** Outside a run the encoding goes character by character. */
  lemma EncodeStep(out: string, str: string, i: nat)
    requires i < |str| && !StartsReference(str[i..])
    ensures out + Encode(str[i..]) == (out + EncodeChar(str[i])) + Encode(str[i + 1..])
  {
    assert str[i..][0] == str[i] && str[i..][1..] == str[i + 1..];
  }

  method EncodeString(str: string) returns (out: string)
    ensures out == Encode(str)
  {
    hide Encode, EncodeChar;
    out := "";
    var i := 0;
    EncodeEnd(str);
    while i < |str|
      invariant 0 <= i <= |str|
      invariant Encode(str) == out + Encode(str[i..])
    {
      var c := str[i];
      ghost var from, before := i, out;
      if c == '&' && i < |str| - 2 && str[i + 1] == '#' && str[i + 2] == 'x' {
        while i < |str| - 1
          invariant from <= i < |str|
          invariant out == before + str[from..i]
          invariant forall j :: from < j < i ==> str[j] != ';'
          invariant from < i < |str| - 1 ==> str[i] != ';'
        {
          out := out + [str[i]];
          assert str[from..i + 1] == str[from..i] + [str[i]];
          i := i + 1;
          if str[i] == ';' {
            break;
          }
        }
        EncodeRun(before, str, from, i);
      } else {
        EncodeStep(before, str, i);
        var e := EncodeCharacter(c);
        out := out + e;
        i := i + 1;
      }
    }
    EncodeEnd(str);
  }

  /** The branches of `EncodeString` for one character. */
  method EncodeCharacter(c: char) returns (out: string)
    ensures out == EncodeChar(c)
  {
    if c == '&' {
      out := "&amp;";
    } else if c == '<' {
      out := "&lt;";
    } else if c == '>' {
      out := "&gt;";
    } else if c == '"' {
      out := "&quot;";
    } else if c == '\'' {
      out := "&apos;";
    } else if c as int < 32 {
      out := ['&', '#', 'x', HexDigit(c as int / 16), HexDigit(c as int % 16), ';'];
    } else {
      out := [c];
    }
  }

  lemma EncodeEnd(s: string)
    ensures s[0..] == s && Encode(s[|s|..]) == ""
  {
  }

  // ---- Reading ----

  /** What a reader step produced and the text left to read. */
  datatype Chunk = Chunk(text: string, rest: string)

  function IndexOf(s: string, c: char, i: nat): (r: Option<nat>)
    requires i <= |s|
    ensures r.Some? ==> i <= r.value < |s| && s[r.value] == c && forall j :: i <= j < r.value ==> s[j] != c
    ensures r.None? ==> forall j :: i <= j < |s| ==> s[j] != c
    decreases |s| - i
  {
    if i == |s| then None else if s[i] == c then Some(i) else IndexOf(s, c, i + 1)
  }

  function DigitValue(c: char, hex: bool): Option<nat> {
    if '0' <= c <= '9' then Some((c - '0') as nat)
    else if hex && 'a' <= c <= 'f' then Some((c - 'a') as nat + 10)
    else if hex && 'A' <= c <= 'F' then Some((c - 'A') as nat + 10)
    else None
  }

  function Base(hex: bool): nat {
    if hex then 16 else 10
  }

  function Marker(hex: bool): char {
    if hex then 'x' else '#'
  }

  /** Positional value of the digits after the last marker of `body`; absent on a bad digit. */
  function Digits(body: string, hex: bool): Option<nat> {
    if body == "" || body[|body| - 1] == Marker(hex) then Some(0)
    else
      match (DigitValue(body[|body| - 1], hex), Digits(body[..|body| - 1], hex))
      case (Some(d), Some(v)) => Some(v * Base(hex) + d)
      case _ => None
  }

  /** The conversion of a code to a C `char`. */
  function LowByte(v: nat): char {
    (v % 256) as char
  }

  /** The code of a numeric reference, and the text behind its semicolon. */
  datatype Code = Code(value: nat, rest: string)

  function NumericCode(s: string, hex: bool): Option<Code>
    requires |s| >= 3
  {
    var from := if hex then 3 else 2;
    match IndexOf(s, ';', from)
    case None => None
    case Some(q) =>
      match Digits(s[from..q], hex)
      case None => None
      case Some(v) => Some(Code(v, s[q + 1..]))
  }

  function NumericReference(s: string, hex: bool): Option<Chunk>
    requires |s| >= 3
  {
    match NumericCode(s, hex)
    case None => None
    case Some(code) => Some(Chunk([LowByte(code.value)], code.rest))
  }

  const ENTITIES: seq<(string, char)> :=
    [("&amp;", '&'), ("&lt;", '<'), ("&gt;", '>'), ("&quot;", '"'), ("&apos;", '\'')]

  /** An unrecognised '&' contributes nothing and is skipped. */
  function NamedEntity(s: string, i: nat): Chunk
    requires s != "" && i <= |ENTITIES|
    decreases |ENTITIES| - i
  {
    if i == |ENTITIES| then Chunk("", s[1..])
    else if ENTITIES[i].0 <= s then Chunk([ENTITIES[i].1], s[|ENTITIES[i].0|..])
    else NamedEntity(s, i + 1)
  }

  function DecodeEntity(s: string): Option<Chunk>
    requires s != "" && s[0] == '&'
  {
    if |s| >= 3 && s[1] == '#' then
      if s[2] == 'x' then
        if |s| == 3 then None else NumericReference(s, true)
      else NumericReference(s, false)
    else Some(NamedEntity(s, 0))
  }

  function DecodeChar(s: string): (r: Option<Chunk>)
    requires s != ""
    ensures r.Some? ==> |r.value.rest| < |s| && |r.value.text| <= 1
    ensures r.Some? ==> r.value.rest == s[|s| - |r.value.rest|..]
  {
    if s[0] == '&' then DecodeEntity(s) else Some(Chunk([s[0]], s[1..]))
  }

  // ---- The right-to-left sum of `GetEntity`, in 32-bit arithmetic ----

  lemma SameWord(x: nat, y: nat, k: nat)
    requires x == y + WORD * k
    ensures x % WORD == y % WORD
  {
  }

  lemma Regroup(mult: nat, d: nat, v: nat, base: nat, a: nat, b: nat, x: nat, y: nat)
    requires mult * d == WORD * a + x && mult * base == WORD * b + y
    ensures mult * (v * base + d) == x + y * v + WORD * (b * v + a)
  {
    assert mult * (v * base + d) == (mult * base) * v + mult * d;
    assert (WORD * b + y) * v == WORD * (b * v) + y * v;
  }

  /** One step of the sum keeps its value modulo the word size. */
  lemma SumStep(ucs: nat, mult: nat, d: nat, v: nat, base: nat)
    ensures ((ucs + mult * d % WORD) % WORD + (mult * base % WORD) * v) % WORD == (ucs + mult * (v * base + d)) % WORD
  {
    var a, b := mult * d / WORD, mult * base / WORD;
    var x, y := mult * d % WORD, mult * base % WORD;
    Regroup(mult, d, v, base, a, b, x, y);
    var sum := ucs + x;
    SameWord(ucs + mult * (v * base + d), sum + y * v, b * v + a);
    SameWord(sum + y * v, sum % WORD + y * v, sum / WORD);
  }

  lemma LowByteOfWord(v: nat)
    ensures LowByte(v % WORD) == LowByte(v)
  {
  }

  lemma DigitsStep(s: string, from: nat, q: nat, hex: bool)
    requires from <= q < |s|
    ensures Digits(s[from..q + 1], hex) ==
            var d, v := DigitValue(s[q], hex), Digits(s[from..q], hex);
            if s[q] == Marker(hex) then Some(0) else if d.None? || v.None? then None else Some(v.value * Base(hex) + d.value)
  {
    hide DigitValue;
    var body := s[from..q + 1];
    assert body[|body| - 1] == s[q] && body[..|body| - 1] == s[from..q];
  }

  lemma NoDigits(s: string, from: nat, hex: bool)
    requires from <= |s|
    ensures Digits(s[from..from], hex) == Some(0)
  {
  }

  /** The sum so far and the digits that are left make up the value of all digits. */
  ghost predicate SumsTo(sum: nat, mult: nat, left: Option<nat>, whole: Option<nat>) {
    && sum < WORD && mult < WORD && (left.Some? <==> whole.Some?)
    && (whole.Some? ==> (sum + mult * left.value) % WORD == whole.value % WORD)
  }

  lemma SumsOn(s: string, from: nat, q: nat, hex: bool, sum: nat, mult: nat, whole: Option<nat>)
    requires from <= q < |s| && s[q] != Marker(hex) && SumsTo(sum, mult, Digits(s[from..q + 1], hex), whole)
    ensures var d := DigitValue(s[q], hex);
            if d.None? then whole.None?
            else SumsTo((sum + mult * d.value % WORD) % WORD, mult * Base(hex) % WORD, Digits(s[from..q], hex), whole)
  {
    hide Digits, DigitValue;
    DigitsStep(s, from, q, hex);
    var d := DigitValue(s[q], hex);
    if d.Some? && whole.Some? {
      SumStep(sum, mult, d.value, Digits(s[from..q], hex).value, Base(hex));
    }
  }

  lemma SumsUp(s: string, from: nat, q: int, hex: bool, sum: nat, mult: nat, whole: Option<nat>)
    requires 0 < from <= q + 1 <= |s| && q >= 0 && s[q] == Marker(hex)
    requires SumsTo(sum, mult, Digits(s[from..q + 1], hex), whole)
    ensures whole.Some? && sum == whole.value % WORD
  {
    hide Digits, DigitValue;
    if q == from - 1 {
      NoDigits(s, from, hex);
    } else {
      DigitsStep(s, from, q, hex);
    }
  }

  /** The loop of `GetEntity`: walks `q` back from the ';' to the marker. */
  method SumDigits(s: string, from: nat, semicolon: nat, hex: bool) returns (ucs: Option<nat>)
    requires 0 < from <= semicolon < |s|
    requires s[from - 1] == Marker(hex)
    ensures ucs.Some? == Digits(s[from..semicolon], hex).Some?
    ensures ucs.Some? ==> ucs.value == Digits(s[from..semicolon], hex).value % WORD
  {
    hide Digits, DigitValue, SumsTo;
    var sum: nat, mult: nat, q := 0, 1, semicolon - 1;
    ghost var whole := Digits(s[from..semicolon], hex);
    assert SumsTo(sum, mult, Digits(s[from..q + 1], hex), whole) by {
      SumsAtFirst(whole);
    }
    while s[q] != Marker(hex)
      invariant from - 1 <= q < semicolon && SumsTo(sum, mult, Digits(s[from..q + 1], hex), whole)
      decreases q
    {
      SumsOn(s, from, q, hex, sum, mult, whole);
      var d := DigitValue(s[q], hex);
      if d.None? {
        return None;
      }
      sum := (sum + mult * d.value % WORD) % WORD;
      mult := mult * Base(hex) % WORD;
      q := q - 1;
    }
    SumsUp(s, from, q, hex, sum, mult, whole);
    return Some(sum);
  }

  lemma SumsAtFirst(whole: Option<nat>)
    ensures SumsTo(0, 1, whole, whole)
  {
  }

  method FindSemicolon(s: string, i: nat) returns (r: Option<nat>)
    requires i <= |s|
    ensures r == IndexOf(s, ';', i)
  {
    var q := i;
    while q < |s| && s[q] != ';'
      invariant i <= q <= |s| && IndexOf(s, ';', i) == IndexOf(s, ';', q)
    {
      q := q + 1;
    }
    return if q == |s| then None else Some(q);
  }

  /** The C call left `value` and the pointer `r`; `spec` is what it had to read. */
  ghost predicate Reads(s: string, value: string, r: Option<nat>, spec: Option<Chunk>) {
    match spec
    case None => r.None?
    case Some(chunk) => r.Some? && r.value <= |s| && value == chunk.text && s[r.value..] == chunk.rest
  }

  lemma IndexOfShift(s: string, c: char, p: nat, i: nat)
    requires p + i <= |s|
    ensures IndexOf(s[p..], c, i) ==
            var q := IndexOf(s, c, p + i); if q.None? then None else Some(q.value - p)
    decreases |s| - i
  {
    if p + i < |s| && s[p + i] != c {
      IndexOfShift(s, c, p, i + 1);
    }
  }

  /** `NumericCode` in terms of positions of the whole text. */
  lemma NumericCodeAt(s: string, p: nat, hex: bool)
    requires p + 3 <= |s|
    ensures var from := if hex then 3 else 2;
            var q := IndexOf(s, ';', p + from);
            var v := if q.None? then None else Digits(s[p + from..q.value], hex);
            NumericCode(s[p..], hex) == if v.None? then None else Some(Code(v.value, s[q.value + 1..]))
  {
    var from := if hex then 3 else 2;
    IndexOfShift(s, ';', p, from);
    match IndexOf(s, ';', p + from)
    case None =>
    case Some(q) =>
      assert s[p..][from..q - p] == s[p + from..q];
      assert s[p..][q - p + 1..] == s[q + 1..];
  }

  /** The numeric half of `GetEntity`: the code in 32 bits. */
  method GetNumericCode(s: string, p: nat, hex: bool) returns (code: Option<nat>, r: nat)
    requires p + 3 <= |s| && s[p + 1] == '#' && (hex <==> s[p + 2] == 'x')
    ensures code.None? <==> NumericCode(s[p..], hex).None?
    ensures code.Some? ==> code.value == NumericCode(s[p..], hex).value.value % WORD
    ensures r <= |s| && (code.Some? ==> s[r..] == NumericCode(s[p..], hex).value.rest)
  {
    hide Digits, IndexOf, NumericCode;
    NumericCodeAt(s, p, hex);
    var from := p + if hex then 3 else 2;
    var q := FindSemicolon(s, from);
    if q.None? {
      return None, 0;
    }
    code := SumDigits(s, from, q.value, hex);
    r := q.value + 1;
  }

  method GetNumericReference(s: string, p: nat, hex: bool) returns (value: string, r: Option<nat>)
    requires p + 3 <= |s| && s[p + 1] == '#' && (hex <==> s[p + 2] == 'x')
    ensures Reads(s, value, r, NumericReference(s[p..], hex))
  {
    hide NumericCode, LowByte;
    var code, at := GetNumericCode(s, p, hex);
    if code.None? {
      return "", None;
    }
    LowByteOfWord(NumericCode(s[p..], hex).value.value);
    return [LowByte(code.value)], Some(at);
  }

  /** The table of names in `GetEntity`. */
  method GetNamedEntity(s: string, p: nat) returns (value: string, r: nat)
    requires p < |s|
    ensures r <= |s| && Chunk(value, s[r..]) == NamedEntity(s[p..], 0)
  {
    var i := 0;
    while i < |ENTITIES|
      invariant 0 <= i <= |ENTITIES|
      invariant NamedEntity(s[p..], 0) == NamedEntity(s[p..], i)
    {
      if ENTITIES[i].0 <= s[p..] {
        assert s[p..][|ENTITIES[i].0|..] == s[p + |ENTITIES[i].0|..];
        return [ENTITIES[i].1], p + |ENTITIES[i].0|;
      }
      i := i + 1;
    }
    return "", p + 1;
  }

  method GetEntity(s: string, p: nat) returns (value: string, r: Option<nat>)
    requires p < |s| && s[p] == '&'
    ensures Reads(s, value, r, DecodeEntity(s[p..]))
  {
    if p + 2 < |s| && s[p + 1] == '#' {
      if s[p + 2] == 'x' {
        if p + 3 == |s| {
          return "", None;
        }
        value, r := GetNumericReference(s, p, true);
      } else {
        value, r := GetNumericReference(s, p, false);
      }
      return;
    }
    var at;
    value, at := GetNamedEntity(s, p);
    r := Some(at);
  }

  method GetChar(s: string, p: nat) returns (value: string, r: Option<nat>)
    requires p < |s|
    ensures Reads(s, value, r, DecodeChar(s[p..]))
  {
    if s[p] == '&' {
      value, r := GetEntity(s, p);
    } else {
      return [s[p]], Some(p + 1);
    }
  }

  // ---- What was written reads back ----

  /** The reference written for a control character has its code. */
  lemma ControlCode(c: char, rest: string)
    requires c as int < 32
    ensures var s := EncodeChar(c) + rest; |s| > 3 && NumericCode(s, true) == Some(Code(c as int, rest))
  {
    hide IndexOf, Digits;
    var s := EncodeChar(c) + rest;
    var hi, lo := HexDigit(c as int / 16), HexDigit(c as int % 16);
    assert s[3..5] == [hi, lo] && s[6..] == rest;
    SixthIsSemicolon(s);
    TwoDigits(c as int / 16, c as int % 16);
  }

  lemma DecodeControl(c: char, rest: string)
    requires c as int < 32
    ensures DecodeChar(EncodeChar(c) + rest) == Some(Chunk([c], rest))
  {
    hide NumericCode;
    ControlCode(c, rest);
  }

  lemma SixthIsSemicolon(s: string)
    requires |s| > 5 && s[3] != ';' && s[4] != ';' && s[5] == ';'
    ensures IndexOf(s, ';', 3) == Some(5)
  {
  }

  lemma TwoDigits(h: nat, l: nat)
    requires h < 16 && l < 16
    ensures Digits([HexDigit(h), HexDigit(l)], true) == Some(16 * h + l)
  {
    var hi, lo := HexDigit(h), HexDigit(l);
    assert [hi, lo][..1] == [hi] && [hi][..0] == "";
    assert Digits([hi], true) == Some(h);
  }

  lemma DecodeNamed(i: nat, rest: string)
    requires i < |ENTITIES|
    ensures NamedEntity(ENTITIES[i].0 + rest, 0) == Chunk([ENTITIES[i].1], rest)
  {
    var s := ENTITIES[i].0 + rest;
    assert s[|ENTITIES[i].0|..] == rest;
    assert forall j :: 0 <= j < i ==> !(ENTITIES[j].0 <= s) by {
      assert i >= 1 ==> s[1] != 'a' || s[2] != 'm';
    }
    assert NamedEntity(s, i) == Chunk([ENTITIES[i].1], rest);
    assert i >= 3 ==> NamedEntity(s, 3) == NamedEntity(s, i);
    assert i >= 2 ==> NamedEntity(s, 2) == NamedEntity(s, i);
    assert i >= 1 ==> NamedEntity(s, 1) == NamedEntity(s, i);
  }

  lemma DecodeEncodedChar(c: char, rest: string)
    ensures DecodeChar(EncodeChar(c) + rest) == Some(Chunk([c], rest))
  {
    hide NamedEntity, NumericReference;
    if c as int < 32 {
      DecodeControl(c, rest);
    } else if c == '&' {
      DecodeNamed(0, rest);
    } else if c == '<' {
      DecodeNamed(1, rest);
    } else if c == '>' {
      DecodeNamed(2, rest);
    } else if c == '"' {
      DecodeNamed(3, rest);
    } else if c == '\'' {
      DecodeNamed(4, rest);
    } else {
      assert ([c] + rest)[1..] == rest;
    }
  }
}
