/** UTF-8: writing a code point, and reading it back as one unit. */
module Utf8 {
  import opened Characters

  type Byte = bv8

  // ---- `ConvertUTF32ToUTF8` ----

  function Utf8Length(input: bv32): nat {
    if input < 0x80 then 1
    else if input < 0x800 then 2
    else if input < 0x10000 then 3
    else if input < 0x200000 then 4
    else 0
  }

  /** A byte behind the first, as section 3 of RFC 3629 lays it out. */
  function Continuation(bits: bv32): Byte {
    (0x80 | (bits & 0x3F)) as Byte
  }

  /** A first byte: the high bits under the mark of the length. */
  function Leading(mark: bv32, bits: bv32): Byte {
    ((mark | bits) & 0xFF) as Byte
  }

  /** The bytes of a code point. */
  function Encoded(input: bv32): (r: seq<Byte>)
    ensures |r| == Utf8Length(input)
  {
    if input < 0x80 then [Leading(0, input)]
    else if input < 0x800 then [Leading(0xC0, input >> 6), Continuation(input)]
    else if input < 0x10000 then [Leading(0xE0, input >> 12), Continuation(input >> 6), Continuation(input)]
    else if input < 0x200000 then
      [Leading(0xF0, input >> 18), Continuation(input >> 12), Continuation(input >> 6), Continuation(input)]
    else []
  }

  /** The marks of the first byte, by length. */
  function FirstByteMark(length: nat): bv32 {
    if length == 2 then 0xC0 else if length == 3 then 0xE0 else if length == 4 then 0xF0 else 0
  }

  /** One byte of the loop: the low six bits under the mark. */
  function Marked(input: bv32): Byte {
    (((input | 0x80) & 0xBF) & 0xFF) as Byte
  }

  lemma MarkedIsContinuation(input: bv32)
    ensures Marked(input) == Continuation(input)
  {
    assert ((input | 0x80) & 0xBF) & 0xFF == 0x80 | (input & 0x3F);
  }

  /** What is left to write behind the last six bits. */
  function Rest(input: bv32): bv32 {
    input >> 6
  }

  /** Writes the bytes from the last to the first, falling through the cases. */
  method ConvertUtf32ToUtf8(input: bv32, output: array<Byte>) returns (length: nat)
    requires output.Length >= 4
    modifies output
    ensures length == Utf8Length(input) && output[..length] == Encoded(input)
  {
    hide Continuation, Marked, Encoded, Leading, Utf8Length, FirstByteMark, Rest;
    LengthAtMost(input);
    length := Utf8Length(input);
    if length == 0 {
      return;
    }
    var at, rest := length, input;
    if length >= 4 {
      at, rest := WriteMarked(rest, output, at);
    }
    if length >= 3 {
      at, rest := WriteMarked(rest, output, at);
    }
    if length >= 2 {
      at, rest := WriteMarked(rest, output, at);
    }
    at := at - 1;
    output[at] := Leading(FirstByteMark(length), rest);
    EncodedBytes(input);
    ghost var e := Encoded(input);
    assert length >= 2 ==> output[length - 1] == e[length - 1];
    assert length >= 3 ==> output[length - 2] == e[length - 2];
    assert length >= 4 ==> output[length - 3] == e[length - 3];
    assert output[0] == e[0];
  }

  lemma LengthAtMost(input: bv32)
    ensures Utf8Length(input) <= 4
  {
  }

  /** One case of the switch. */
  method WriteMarked(input: bv32, output: array<Byte>, at: nat) returns (at': nat, rest: bv32)
    requires 0 < at <= output.Length
    modifies output
    ensures at' == at - 1 && rest == Rest(input) && output[at'] == Continuation(input)
    ensures forall i :: 0 <= i < output.Length && i != at' ==> output[i] == old(output[i])
  {
    hide Marked, Continuation, Rest;
    MarkedIsContinuation(input);
    at' := at - 1;
    output[at'] := Marked(input);
    rest := Rest(input);
  }

  /** The bytes in terms of the shifts the loop makes. */
  lemma EncodedBytes(input: bv32)
    ensures var n := Utf8Length(input);
            var first := if n == 4 then Rest(Rest(Rest(input))) else if n == 3 then Rest(Rest(input))
                         else if n == 2 then Rest(input) else input;
            && (n > 0 ==> Encoded(input)[0] == Leading(FirstByteMark(n), first))
            && (n >= 2 ==> Encoded(input)[n - 1] == Continuation(input))
            && (n >= 3 ==> Encoded(input)[n - 2] == Continuation(Rest(input)))
            && (n >= 4 ==> Encoded(input)[n - 3] == Continuation(Rest(Rest(input))))
  {
    hide Continuation, Leading;
    assert (input >> 6) >> 6 == input >> 12 && ((input >> 6) >> 6) >> 6 == input >> 18;
  }

  // ---- Reading back ----

  predicate IsContinuation(b: Byte) {
    b & 0xC0 == 0x80
  }

  function Payload(b: Byte): bv32 {
    (b & 0x3F) as bv32
  }

  function Join2(a: Byte, b: Byte): bv32 {
    ((a & 0x1F) as bv32 << 6) | Payload(b)
  }

  function Join3(a: Byte, b: Byte, c: Byte): bv32 {
    ((a & 0x0F) as bv32 << 12) | (Payload(b) << 6) | Payload(c)
  }

  function Join4(a: Byte, b: Byte, c: Byte, d: Byte): bv32 {
    ((a & 0x07) as bv32 << 18) | (Payload(b) << 12) | (Payload(c) << 6) | Payload(d)
  }

  /** The length that the high bits of a first byte stand for. */
  function LeadLength(b: Byte): nat {
    if b < 0x80 then 1 else if b & 0xE0 == 0xC0 then 2 else if b & 0xF0 == 0xE0 then 3 else if b & 0xF8 == 0xF0 then 4 else 0
  }

  /** The code point of a sequence of bytes, by the bit layout of section 3 of RFC 3629. */
  function Decoded(bytes: seq<Byte>): Option<bv32> {
    if bytes == [] || LeadLength(bytes[0]) != |bytes| || exists i :: 1 <= i < |bytes| && !IsContinuation(bytes[i]) then None
    else if |bytes| == 1 then Some(bytes[0] as bv32)
    else if |bytes| == 2 then Some(Join2(bytes[0], bytes[1]))
    else if |bytes| == 3 then Some(Join3(bytes[0], bytes[1], bytes[2]))
    else Some(Join4(bytes[0], bytes[1], bytes[2], bytes[3]))
  }

  lemma ContinuationCarries(bits: bv32)
    ensures IsContinuation(Continuation(bits)) && Payload(Continuation(bits)) == bits & 0x3F && Continuation(bits) != 0
  {
  }

  /** Every code point is decoded from the bytes that were written for it. */
  lemma EncodedIsDecoded(input: bv32)
    requires input < 0x200000
    ensures Decoded(Encoded(input)) == Some(input)
  {
    hide Decoded, Encoded;
    if input < 0x80 {
      OneByte(input);
    } else if input < 0x800 {
      TwoBytes(input);
    } else if input < 0x10000 {
      ThreeBytes(input);
    } else {
      FourBytes(input);
    }
  }

  lemma OneByte(x: bv32)
    requires x < 0x80
    ensures Decoded(Encoded(x)) == Some(x)
  {
    assert LeadLength(Leading(0, x)) == 1 && Leading(0, x) as bv32 == x;
  }

  lemma TwoBytes(x: bv32)
    requires 0x80 <= x < 0x800
    ensures Decoded(Encoded(x)) == Some(x)
  {
    hide Continuation, IsContinuation, Leading, Join2, LeadLength;
    ContinuationCarries(x);
    TwoParts(x);
  }

  lemma ThreeBytes(x: bv32)
    requires 0x800 <= x < 0x10000
    ensures Decoded(Encoded(x)) == Some(x)
  {
    hide Continuation, IsContinuation, Leading, Join3, LeadLength;
    ContinuationCarries(x);
    ContinuationCarries(x >> 6);
    ThreeParts(x);
  }

  lemma FourBytes(x: bv32)
    requires 0x10000 <= x < 0x200000
    ensures Decoded(Encoded(x)) == Some(x)
  {
    hide Continuation, IsContinuation, Leading, Join4, LeadLength;
    ContinuationCarries(x);
    ContinuationCarries(x >> 6);
    ContinuationCarries(x >> 12);
    FourParts(x);
  }

  lemma TwoParts(x: bv32)
    requires x < 0x800
    ensures LeadLength(Leading(0xC0, x >> 6)) == 2 && Join2(Leading(0xC0, x >> 6), Continuation(x)) == x
  {
  }

  lemma ThreeParts(x: bv32)
    requires x < 0x10000
    ensures LeadLength(Leading(0xE0, x >> 12)) == 3
    ensures Join3(Leading(0xE0, x >> 12), Continuation(x >> 6), Continuation(x)) == x
  {
  }

  lemma FourParts(x: bv32)
    requires x < 0x200000
    ensures LeadLength(Leading(0xF0, x >> 18)) == 4
    ensures Join4(Leading(0xF0, x >> 18), Continuation(x >> 12), Continuation(x >> 6), Continuation(x)) == x
  {
  }

  /** `utf8ByteTable`: the length that a first byte announces; invalid ones count as one. */
  function ByteTable(b: Byte): (n: nat)
    ensures 1 <= n <= 4
  {
    if b < 0xC2 then 1 else if b < 0xE0 then 2 else if b < 0xF0 then 3 else if b < 0xF5 then 4 else 1
  }

  /** The table knows the length of what was written exactly up to code point 0x13FFFF, and so for all
      of Unicode. */
  lemma TableIsLength(input: bv32)
    requires input < 0x200000
    ensures ByteTable(Encoded(input)[0]) == |Encoded(input)| <==> input < 0x140000
  {
    LeadInTable(input);
    hide Continuation, Leading, ByteTable;
  }

  lemma LeadInTable(x: bv32)
    ensures x < 0x80 ==> ByteTable(Leading(0, x)) == 1
    ensures 0x80 <= x < 0x800 ==> ByteTable(Leading(0xC0, x >> 6)) == 2
    ensures 0x800 <= x < 0x10000 ==> ByteTable(Leading(0xE0, x >> 12)) == 3
    ensures 0x10000 <= x < 0x200000 ==> (ByteTable(Leading(0xF0, x >> 18)) == 4 <==> x < 0x140000)
  {
  }

  /** The byte announces more than one exactly when it begins the writing of a code point of that length
      below 0x140000. */
  lemma TableIsExact(b: Byte, n: nat)
    requires n > 1
    ensures ByteTable(b) == n <==> exists x: bv32 :: x < 0x140000 && |Encoded(x)| == n && Encoded(x)[0] == b
  {
    if ByteTable(b) == n {
      var x := FirstOf(b);
      assert x < 0x140000 && |Encoded(x)| == n && Encoded(x)[0] == b;
    }
    if x: bv32 :| x < 0x140000 && |Encoded(x)| == n && Encoded(x)[0] == b {
      TableIsLength(x);
    }
  }

  /** A code point whose writing begins with the byte. */
  lemma FirstOf(b: Byte) returns (x: bv32)
    requires ByteTable(b) > 1
    ensures x < 0x140000 && |Encoded(x)| == ByteTable(b) && Encoded(x)[0] == b
  {
    var wide := b as bv32;
    if b < 0xE0 {
      x := (wide & 0x1F) << 6;
    } else if b < 0xF0 {
      x := ((wide & 0x0F) << 12) | 0x800;
    } else {
      x := ((wide & 0x07) << 18) | 0x10000;
    }
  }

  /** The examples of section 7 of RFC 3629. */
  lemma Examples()
    ensures Encoded(0x41) == [0x41] && Encoded(0x2262) == [0xE2, 0x89, 0xA2] && Encoded(0x391) == [0xCE, 0x91]
    ensures Encoded(0x233B4) == [0xF0, 0xA3, 0x8E, 0xB4]
  {
  }

  /** The byte order mark and the two non-characters that the parser knows. */
  lemma Marks()
    ensures Encoded(0xFEFF) == [0xEF, 0xBB, 0xBF] && Encoded(0xFFFE) == [0xEF, 0xBF, 0xBE] && Encoded(0xFFFF) == [0xEF, 0xBF, 0xBF]
  {
  }
}
