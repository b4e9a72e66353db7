/** `base32_decode` of the TOTP module: characters to groups of five bits to bytes. */
module Base32 {
  import opened Characters
  import opened Arithmetic

  type byte = x: nat | x < 256

  // ---- Bits ----

  /** The `w` low bits of a number, the highest first. */
  function BitsOf(v: nat, w: nat): (r: seq<bool>)
    ensures |r| == w
  {
    if w == 0 then [] else BitsOf(v / 2, w - 1) + [v % 2 == 1]
  }

  function ValueOf(bits: seq<bool>): nat {
    if bits == [] then 0 else 2 * ValueOf(bits[..|bits| - 1]) + if bits[|bits| - 1] then 1 else 0
  }

  function Zeros(n: nat): (r: seq<bool>)
    ensures |r| == n && forall i :: 0 <= i < n ==> !r[i]
  {
    seq(n, i => false)
  }

  function TwoTo(n: nat): (r: nat)
    ensures r > 0
  {
    if n == 0 then 1 else 2 * TwoTo(n - 1)
  }

  lemma {:induction false} ValueOfBits(v: nat, w: nat)
    requires v < TwoTo(w)
    ensures ValueOf(BitsOf(v, w)) == v
  {
    if w > 0 {
      ValueOfBits(v / 2, w - 1);
      ValueAppend(BitsOf(v / 2, w - 1), v % 2 == 1);
      hide ValueOf;
    }
  }

  /** The bit at each place: the highest comes first. */
  lemma {:induction false} HighestFirst(v: nat, w: nat, i: nat)
    requires i < w
    ensures BitsOf(v, w)[i] <==> v / TwoTo(w - 1 - i) % 2 == 1
  {
    if i < w - 1 {
      HighestFirst(v / 2, w - 1, i);
      HalfAgain(v, TwoTo(w - 2 - i));
    }
  }

  lemma HalfAgain(v: nat, n: nat)
    requires n > 0
    ensures v / 2 / n == v / (2 * n)
  {
    var q, r := v / 2 / n, v / 2 % n;
    assert v / 2 == q * n + r;
    assert v == 2 * (v / 2) + v % 2;
    assert v == q * (2 * n) + (2 * r + v % 2);
    Division(v, q, 2 * r + v % 2, 2 * n);
  }

  lemma ValueAppend(bits: seq<bool>, bit: bool)
    ensures ValueOf(bits + [bit]) == 2 * ValueOf(bits) + if bit then 1 else 0
  {
    assert (bits + [bit])[..|bits|] == bits;
  }

  lemma {:induction false} BitsOfValue(bits: seq<bool>)
    ensures ValueOf(bits) < TwoTo(|bits|) && BitsOf(ValueOf(bits), |bits|) == bits
  {
    if bits != [] {
      var n := |bits| - 1;
      BitsOfValue(bits[..n]);
      assert bits == bits[..n] + [bits[n]];
    }
  }

  lemma {:induction false} ValueOfZeros(bits: seq<bool>, n: nat)
    ensures ValueOf(bits + Zeros(n)) == ValueOf(bits) * TwoTo(n)
  {
    var r := bits + Zeros(n);
    if n == 0 {
      assert r == bits;
    } else {
      ValueOfZeros(bits, n - 1);
      assert r[..|r| - 1] == bits + Zeros(n - 1);
    }
  }

  // ---- Encoding, as section 6 of RFC 4648 defines it ----

  function ByteBits(bytes: seq<byte>): (r: seq<bool>)
    ensures |r| == 8 * |bytes|
  {
    if bytes == [] then [] else BitsOf(bytes[0], 8) + ByteBits(bytes[1..])
  }

  /** Groups of five bits, the last one filled up with zeros. */
  function Groups(bits: seq<bool>): (r: seq<nat>) {
    if bits == [] then []
    else if |bits| < 5 then [ValueOf(bits + Zeros(5 - |bits|))]
    else [ValueOf(bits[..5])] + Groups(bits[5..])
  }

  // ---- Decoding ----

  /** The value of a character, in either letter case. */
  function SymbolValue(c: char): (r: Option<nat>)
    ensures r.Some? ==> r.value < 32
  {
    if 'A' <= c <= 'Z' then Some((c - 'A') as nat)
    else if 'a' <= c <= 'z' then Some((c - 'a') as nat)
    else if '2' <= c <= '7' then Some((c - '2') as nat + 26)
    else None
  }

  const ALPHABET: string := "ABCDEFGHIJKLMNOPQRSTUVWXYZ234567"
  const SMALL_ALPHABET: string := "abcdefghijklmnopqrstuvwxyz234567"

  /** The alphabet of section 6 of RFC 4648, in either letter case. */
  lemma AlphabetIs(v: nat, c: char)
    requires v < 32
    ensures |ALPHABET| == |SMALL_ALPHABET| == 32
    ensures SymbolValue(c) == Some(v) <==> c == ALPHABET[v] || c == SMALL_ALPHABET[v]
  {
    AlphabetCodes(v);
    hide ALPHABET, SMALL_ALPHABET;
    CodesOf(v, c);
  }

  lemma CodesOf(v: nat, c: char)
    requires v < 32
    ensures SymbolValue(c) == Some(v) <==>
            c as int == (if v < 26 then 65 + v else 24 + v) || c as int == (if v < 26 then 97 + v else 24 + v)
  {
  }

  lemma AlphabetCodes(v: nat)
    requires v < 32
    ensures |ALPHABET| == |SMALL_ALPHABET| == 32
    ensures ALPHABET[v] as int == if v < 26 then 65 + v else 24 + v
    ensures SMALL_ALPHABET[v] as int == if v < 26 then 97 + v else 24 + v
  {
  }

  /** The values up to a '='; none at all if another character comes before it. */
  function Symbols(s: string): Option<seq<nat>> {
    if s == "" || s[0] == '=' then Some([])
    else
      match (SymbolValue(s[0]), Symbols(s[1..]))
      case (Some(v), Some(rest)) => Some([v] + rest)
      case _ => None
  }

  /** The values of the characters before the first '=', or before the end; none at all when one of them is
      not in the alphabet. */
  lemma {:induction false} SymbolsMean(s: string, rest: string)
    requires '=' !in s && (rest == "" || rest[0] == '=')
    ensures Symbols(s + rest).Some? <==> forall i :: 0 <= i < |s| ==> SymbolValue(s[i]).Some?
    ensures Symbols(s + rest).Some? ==>
              |Symbols(s + rest).value| == |s| && forall i :: 0 <= i < |s| ==> SymbolValue(s[i]) == Some(Symbols(s + rest).value[i])
  {
    hide SymbolValue;
    var t := s + rest;
    if s == "" {
      assert t == rest;
    } else {
      assert t[0] == s[0] && t[1..] == s[1..] + rest;
      SymbolsMean(s[1..], rest);
    }
  }

  function GroupBits(groups: seq<nat>): (r: seq<bool>)
    ensures |r| == 5 * |groups|
  {
    if groups == [] then [] else BitsOf(groups[0], 5) + GroupBits(groups[1..])
  }

  /** Eight bits to a byte, the last one filled up with zeros. */
  function Bytes(bits: seq<bool>): (r: seq<nat>)
    ensures bits != [] ==> r != []
  {
    if bits == [] then []
    else if |bits| < 8 then [ValueOf(bits + Zeros(8 - |bits|))]
    else [ValueOf(bits[..8])] + Bytes(bits[8..])
  }

  /** A last byte that is zero is dropped, whatever it came from. */
  function DropZero(bytes: seq<nat>): seq<nat> {
    if bytes != [] && bytes[|bytes| - 1] == 0 then bytes[..|bytes| - 1] else bytes
  }

  function Decoded(s: string): seq<nat> {
    match Symbols(s)
    case None => []
    case Some(groups) => DropZero(Bytes(GroupBits(groups)))
  }

  // ---- What was encoded is decoded ----

  /** How many zeros fill up the last group. */
  function Fill(n: nat): (k: nat)
    ensures k < 5 && (n + k) % 5 == 0
  {
    (5 - n % 5) % 5
  }

  lemma FillAgain(n: nat)
    requires n >= 5
    ensures Fill(n) == Fill(n - 5)
  {
  }

  lemma {:induction false} GroupsKeepBits(bits: seq<bool>)
    ensures GroupBits(Groups(bits)) == bits + Zeros(Fill(|bits|))
    decreases |bits|
  {
    hide Fill;
    if bits == [] {
      assert GroupBits(Groups(bits)) == bits + Zeros(0) && Fill(0) == 0;
    } else if |bits| < 5 {
      ShortGroup(bits);
    } else {
      hide BitsOf, ValueOf;
      var rest := bits[5..];
      GroupsKeepBits(rest);
      FillAgain(|bits|);
      BitsOfValue(bits[..5]);
      assert Groups(bits) == [ValueOf(bits[..5])] + Groups(rest) && Groups(bits)[1..] == Groups(rest);
      assert bits[..5] + (rest + Zeros(Fill(|bits|))) == bits + Zeros(Fill(|bits|));
    }
  }

  lemma ShortGroup(bits: seq<bool>)
    requires 0 < |bits| < 5
    ensures GroupBits(Groups(bits)) == bits + Zeros(Fill(|bits|))
  {
    var k := 5 - |bits|;
    FillIs(|bits|);
    ShortIs(bits);
    hide BitsOf, ValueOf, Zeros, Fill, Groups, GroupBits;
    BitsOfValue(bits + Zeros(k));
    OneGroup(ValueOf(bits + Zeros(k)));
  }

  lemma FillIs(n: nat)
    requires 0 < n < 5
    ensures Fill(n) == 5 - n
  {
  }

  lemma ShortIs(bits: seq<bool>)
    requires 0 < |bits| < 5
    ensures Groups(bits) == [ValueOf(bits + Zeros(5 - |bits|))]
  {
    hide ValueOf, Zeros;
  }

  lemma OneGroup(v: nat)
    ensures GroupBits([v]) == BitsOf(v, 5)
  {
    hide BitsOf;
    assert [v][1..] == [];
    assert BitsOf(v, 5) + [] == BitsOf(v, 5);
  }

  lemma {:induction false} BytesOfBits(bytes: seq<byte>, k: nat)
    requires k < 8
    ensures Bytes(ByteBits(bytes) + Zeros(k)) == bytes + if k == 0 then [] else [0]
  {
    var bits := ByteBits(bytes) + Zeros(k);
    if bytes == [] {
      assert bits == Zeros(k);
      if k > 0 {
        ZerosAreZero(8);
        assert bits + Zeros(8 - k) == Zeros(8);
      }
    } else {
      var b := BitsOf(bytes[0], 8);
      var rest := ByteBits(bytes[1..]) + Zeros(k);
      assert bits == b + rest && bits[..8] == b && bits[8..] == rest;
      ByteValue(bytes[0]);
      BytesOfBits(bytes[1..], k);
      assert [bytes[0]] + (bytes[1..] + if k == 0 then [] else [0]) == bytes + if k == 0 then [] else [0];
    }
  }

  lemma ByteValue(b: byte)
    ensures ValueOf(BitsOf(b, 8)) == b
  {
    assert TwoTo(8) == 256 by { EightTwos(); }
    ValueOfBits(b, 8);
  }

  lemma EightTwos()
    ensures TwoTo(5) == 32 && TwoTo(8) == 256
  {
    assert TwoTo(2) == 4 && TwoTo(4) == 16;
    assert TwoTo(5) == 32 && TwoTo(6) == 64 && TwoTo(7) == 128;
  }

  lemma {:induction false} ZerosAreZero(n: nat)
    ensures ValueOf(Zeros(n)) == 0
  {
    if n > 0 {
      ZerosAreZero(n - 1);
      assert Zeros(n)[..n - 1] == Zeros(n - 1);
    }
  }

  /** The text spells these values, in any mixture of letter cases, and ends there or with a '='. */
  ghost predicate Spells(s: string, groups: seq<nat>) {
    && |s| >= |groups|
    && (forall i :: 0 <= i < |groups| ==> SymbolValue(s[i]) == Some(groups[i]))
    && (|s| > |groups| ==> s[|groups|] == '=')
  }

  lemma {:induction false} SymbolsOfSpelled(s: string, groups: seq<nat>)
    requires Spells(s, groups)
    ensures Symbols(s) == Some(groups)
  {
    if groups != [] {
      assert SymbolValue(s[0]) == Some(groups[0]);
      assert forall i :: 0 <= i < |groups| - 1 ==> SymbolValue(s[1..][i]) == Some(groups[1..][i]) by {
        forall i | 0 <= i < |groups| - 1 ensures SymbolValue(s[1..][i]) == Some(groups[1..][i]) {
          assert SymbolValue(s[i + 1]) == Some(groups[i + 1]);
        }
      }
      SymbolsOfSpelled(s[1..], groups[1..]);
      assert [groups[0]] + groups[1..] == groups;
    }
  }

  /** Decoding what was encoded, padded or not and in either case, gives the bytes back, except that
      one trailing zero byte is lost when no bits were filled up. */
  lemma EncodedIsDecoded(bytes: seq<byte>, s: string)
    requires bytes != [] && Spells(s, Groups(ByteBits(bytes)))
    ensures Decoded(s) == if |bytes| % 5 == 0 && bytes[|bytes| - 1] == 0 then bytes[..|bytes| - 1] else bytes
  {
    hide Bytes, ByteBits, Groups, GroupBits, Spells, Symbols, Zeros, Fill, DropZero;
    SymbolsOfSpelled(s, Groups(ByteBits(bytes)));
    GroupsKeepBits(ByteBits(bytes));
    BytesOfBits(bytes, Fill(8 * |bytes|));
    FillOfBytes(|bytes|);
    DropsZero(bytes, Fill(8 * |bytes|));
  }

  lemma DropsZero(bytes: seq<nat>, k: nat)
    requires bytes != []
    ensures DropZero(bytes + if k == 0 then [] else [0])
         == if k == 0 && bytes[|bytes| - 1] == 0 then bytes[..|bytes| - 1] else bytes
  {
    if k == 0 {
      assert bytes + [] == bytes;
    } else {
      assert (bytes + [0])[..|bytes|] == bytes;
    }
  }

  lemma FillOfBytes(n: nat)
    ensures Fill(8 * n) == 0 <==> n % 5 == 0
  {
  }

  /** The bytes come back exactly when they are not a multiple of five with a zero at the end. */
  lemma DecodingIsExact(bytes: seq<byte>, s: string)
    requires bytes != [] && Spells(s, Groups(ByteBits(bytes)))
    ensures Decoded(s) == bytes <==> |bytes| % 5 != 0 || bytes[|bytes| - 1] != 0
  {
    hide Decoded, Spells;
    EncodedIsDecoded(bytes, s);
  }

  // ---- The decoder ----

  /** The reverse map, for the characters that are let through. */
  function ReverseMap(c: char): (r: nat)
    requires SymbolValue(c).Some?
    ensures r == SymbolValue(c).value
  {
    if 'A' <= c <= 'Z' then c as nat - 65 else if 'a' <= c <= 'z' then c as nat - 97 else c as nat - 24
  }

  /** The test for characters outside the alphabet. */
  predicate Illegal(c: char): (r: bool)
    ensures r <==> SymbolValue(c).None?
  {
    c as int <= 49 || 56 <= c as int <= 64 || 91 <= c as int <= 96 || c as int >= 123
  }

  lemma SymbolsStep(s: string, i: nat)
    requires i < |s|
    ensures s[i] == '=' ==> Symbols(s[i..]) == Some([])
    ensures s[i] != '=' && SymbolValue(s[i]).None? ==> Symbols(s[i..]) == None
    ensures SymbolValue(s[i]).Some? ==>
              && (Symbols(s[i..]).Some? <==> Symbols(s[i + 1..]).Some?)
              && (Symbols(s[i..]).Some? ==> Symbols(s[i..]).value == [SymbolValue(s[i]).value] + Symbols(s[i + 1..]).value)
  {
    assert s[i..][0] == s[i] && s[i..][1..] == s[i + 1..];
  }

  lemma SymbolsEnd(s: string)
    ensures Symbols(s[|s|..]) == Some([])
  {
  }

  lemma MoreSymbols(whole: seq<nat>, queue: seq<nat>, v: nat, rest: seq<nat>)
    requires whole == queue + ([v] + rest)
    ensures whole == (queue + [v]) + rest
  {
  }

  /** The first loop: characters to values, until a '='. */
  method ReadSymbols(base32: string) returns (ok: bool, queue: seq<nat>)
    ensures ok == Symbols(base32).Some? && (ok ==> queue == Symbols(base32).value)
    ensures forall i :: 0 <= i < |queue| ==> queue[i] < 32
  {
    hide Symbols, SymbolValue;
    queue := [];
    var i := 0;
    assert base32[0..] == base32;
    while i < |base32|
      invariant 0 <= i <= |base32|
      invariant forall j :: 0 <= j < |queue| ==> queue[j] < 32
      invariant Symbols(base32).Some? == Symbols(base32[i..]).Some?
      invariant Symbols(base32).Some? ==> Symbols(base32).value == queue + Symbols(base32[i..]).value
    {
      var c := base32[i];
      SymbolsStep(base32, i);
      if Illegal(c) {
        if c == '=' {
          return true, queue;
        }
        return false, [];
      }
      if Symbols(base32).Some? {
        MoreSymbols(Symbols(base32).value, queue, ReverseMap(c), Symbols(base32[i + 1..]).value);
      }
      queue := queue + [ReverseMap(c)];
      i := i + 1;
    }
    SymbolsEnd(base32);
    ok := true;
  }

  function Reversed(s: seq<bool>): (r: seq<bool>)
    ensures |r| == |s|
  {
    if s == [] then [] else Reversed(s[1..]) + [s[0]]
  }

  lemma {:induction false} ReversedPush(s: seq<bool>, b: bool)
    ensures Reversed(s + [b]) == [b] + Reversed(s)
  {
    var t := s + [b];
    if s == [] {
      assert t[1..] == [];
    } else {
      assert t[0] == s[0] && t[1..] == s[1..] + [b];
      ReversedPush(s[1..], b);
    }
  }

  lemma NoBits(v: nat)
    ensures BitsOf(v, 0) == [] && Reversed([]) == []
  {
  }

  lemma LastBit(v: nat, n: nat)
    ensures BitsOf(v, n + 1) == BitsOf(v / 2, n) + [v % 2 == 1]
  {
  }

  /** The five low bits of a value, through a stack, onto the end of the queue. */
  method PushBits(value: nat, queue: seq<bool>) returns (queue': seq<bool>)
    ensures queue' == queue + BitsOf(value, 5)
  {
    var stack: seq<bool> := [];
    var now := value;
    var i := 0;
    assert Reversed([]) == [] && BitsOf(value, 5) + [] == BitsOf(value, 5);
    hide BitsOf, Reversed;
    while i < 5
      invariant 0 <= i <= 5 && BitsOf(value, 5) == BitsOf(now, 5 - i) + Reversed(stack)
    {
      ReversedPush(stack, now % 2 == 1);
      LastBit(now, 4 - i);
      MoreBits(BitsOf(now / 2, 4 - i), [now % 2 == 1], Reversed(stack));
      stack := stack + [now % 2 == 1];
      now := now / 2;
      i := i + 1;
    }
    queue' := queue;
    NoBits(now);
    while stack != []
      invariant queue' + Reversed(stack) == queue + BitsOf(value, 5)
      decreases |stack|
    {
      var rest, top := stack[..|stack| - 1], stack[|stack| - 1];
      assert stack == rest + [top];
      ReversedPush(rest, top);
      MoreBits(queue', [top], Reversed(rest));
      queue' := queue' + [top];
      stack := rest;
    }
  }

  lemma MoreBits(a: seq<bool>, b: seq<bool>, c: seq<bool>)
    ensures a + (b + c) == (a + b) + c
  {
  }

  /** The second loop: values to bits. */
  method ReadBits(groups: seq<nat>) returns (queue: seq<bool>)
    ensures queue == GroupBits(groups)
  {
    hide BitsOf, GroupBits;
    queue := [];
    var rev := groups;
    while rev != []
      invariant GroupBits(groups) == queue + GroupBits(rev)
      decreases |rev|
    {
      GroupBitsStep(rev);
      MoreBits(queue, BitsOf(rev[0], 5), GroupBits(rev[1..]));
      var now := rev[0];
      rev := rev[1..];
      queue := PushBits(now, queue);
    }
    GroupBitsEnd();
  }

  lemma GroupBitsStep(groups: seq<nat>)
    requires groups != []
    ensures GroupBits(groups) == BitsOf(groups[0], 5) + GroupBits(groups[1..])
  {
  }

  lemma GroupBitsEnd()
    ensures GroupBits([]) == []
  {
  }

  /** One byte off the front of the queue; missing bits are zeros on its right. */
  method ReadByte(queue: seq<bool>) returns (b: nat, queue': seq<bool>)
    requires queue != []
    ensures b == ValueOf(if |queue| < 8 then queue + Zeros(8 - |queue|) else queue[..8])
    ensures queue' == if |queue| < 8 then [] else queue[8..]
  {
    hide Zeros, TwoTo;
    b := 0;
    queue' := queue;
    var i := 0;
    while i < 8
      invariant 0 <= i <= 8 && i <= |queue| && queue' == queue[i..] && b == ValueOf(queue[..i])
    {
      if queue' == [] {
        ValueOfZeros(queue, 8 - i);
        b := ShiftLeft(b, 8 - i);
        assert queue[..i] == queue;
        break;
      }
      assert queue[..i + 1][..i] == queue[..i] && queue[..i + 1][i] == queue[i] == queue'[0];
      b := 2 * b + if queue'[0] then 1 else 0;
      queue' := queue'[1..];
      i := i + 1;
    }
  }

  method ShiftLeft(v: nat, n: nat) returns (r: nat)
    ensures r == v * TwoTo(n)
  {
    r := v;
    var i := 0;
    while i < n
      invariant 0 <= i <= n && r == v * TwoTo(i)
    {
      r := 2 * r;
      i := i + 1;
    }
  }

  /** The third loop: bits to bytes. */
  method ReadBytes(bits: seq<bool>) returns (bytes: seq<nat>)
    ensures bytes == Bytes(bits)
  {
    hide ValueOf, Zeros;
    bytes := [];
    var queue := bits;
    while queue != []
      invariant Bytes(bits) == bytes + Bytes(queue)
      decreases |queue|
    {
      var b;
      BytesStep(queue);
      b, queue := ReadByte(queue);
      bytes := bytes + [b];
    }
  }

  lemma BytesStep(queue: seq<bool>)
    requires queue != []
    ensures Bytes(queue) == [ValueOf(if |queue| < 8 then queue + Zeros(8 - |queue|) else queue[..8])]
                            + Bytes(if |queue| < 8 then [] else queue[8..])
  {
    hide ValueOf, Zeros;
  }

  /** `base32_decode`. The original may not be called with a text that holds no symbol before its end
      or its '=': it asks for the last byte of none. */
  method Base32Decode(base32: string) returns (bytes: seq<nat>)
    requires Symbols(base32) != Some([])
    ensures bytes == Decoded(base32)
  {
    hide Symbols, Bytes, GroupBits;
    var ok, groups := ReadSymbols(base32);
    if !ok {
      return [];
    }
    var bits := ReadBits(groups);
    bytes := ReadBytes(bits);
    if bytes[|bytes| - 1] == 0 {
      bytes := bytes[..|bytes| - 1];
    }
  }

  /** Every byte of the result is one. */
  lemma DecodedAreBytes(s: string, i: nat)
    requires i < |Decoded(s)|
    ensures Decoded(s)[i] < 256
  {
    hide GroupBits;
    BytesRange(GroupBits(Symbols(s).value), i);
  }

  lemma {:induction false} BytesRange(bits: seq<bool>, i: nat)
    requires i < |Bytes(bits)|
    ensures Bytes(bits)[i] < 256
    decreases |bits|
  {
    EightTwos();
    if |bits| < 8 {
      BitsOfValue(bits + Zeros(8 - |bits|));
    } else {
      BitsOfValue(bits[..8]);
      if i > 0 {
        BytesRange(bits[8..], i - 1);
      }
    }
  }
}
