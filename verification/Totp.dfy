/** `fastpow` and `hash_to_TOTP`: the one-time password of a hash, in 32-bit arithmetic and hex text. */
module Totp {
  import opened Characters
  import opened Base32

  // ---- `fastpow` ----

  function Pow(b: nat, n: nat): nat {
    if n == 0 then 1 else b * Pow(b, n - 1)
  }

  lemma {:induction false} PowOfSquare(b: nat, n: nat)
    ensures Pow(b * b, n) == Pow(b, 2 * n)
  {
    if n > 0 {
      PowOfSquare(b, n - 1);
      assert Pow(b, 2 * n) == b * Pow(b, 2 * n - 1) == b * (b * Pow(b, 2 * n - 2));
      assert b * (b * Pow(b, 2 * n - 2)) == (b * b) * Pow(b, 2 * n - 2);
    }
  }

  lemma SameResidue(x: nat, y: nat, k: nat)
    requires x == y + WORD * k
    ensures x % WORD == y % WORD
  {
  }

  /** Reducing a factor does not change a product modulo the word size. */
  lemma MulResidue(x: nat, y: nat)
    ensures (x % WORD * y) % WORD == (x * y) % WORD
  {
    var q, r := x / WORD, x % WORD;
    assert x * y == r * y + WORD * (q * y) by {
      assert x == WORD * q + r;
      assert (WORD * q + r) * y == WORD * (q * y) + r * y;
    }
    SameResidue(x * y, r * y, q * y);
  }

  lemma {:induction false} PowResidue(b: nat, n: nat)
    ensures Pow(b % WORD, n) % WORD == Pow(b, n) % WORD
  {
    if n > 0 {
      var c := b % WORD;
      PowResidue(b, n - 1);
      MulResidue(Pow(c, n - 1), c);
      MulResidue(Pow(b, n - 1), c);
      MulResidue(b, Pow(b, n - 1));
      assert Pow(c, n) == c * Pow(c, n - 1) && Pow(b, n) == b * Pow(b, n - 1);
    }
  }

  /** One round of the loop keeps the product of the result so far and what is left. */
  lemma FastPowStep(t: nat, base: nat, index: nat)
    requires index > 0
    ensures var t' := if index % 2 == 1 then t * base % WORD else t;
            (t' * Pow(base * base % WORD, index / 2)) % WORD == (t * Pow(base, index)) % WORD
  {
    hide Pow;
    var half := index / 2;
    if index % 2 == 1 {
      assert index == 2 * half + 1;
      FastPowOdd(t, base, half);
    } else {
      assert index == 2 * half;
      FastPowEven(t, base, half);
    }
  }

  lemma FastPowEven(t: nat, base: nat, half: nat)
    ensures (t * Pow(base * base % WORD, half)) % WORD == (t * Pow(base, 2 * half)) % WORD
  {
    hide Pow;
    PowResidue(base * base, half);
    PowOfSquare(base, half);
    MulLeft(t, Pow(base * base % WORD, half), Pow(base, 2 * half));
  }

  lemma FastPowOdd(t: nat, base: nat, half: nat)
    ensures (t * base % WORD * Pow(base * base % WORD, half)) % WORD == (t * Pow(base, 2 * half + 1)) % WORD
  {
    hide Pow;
    PowResidue(base * base, half);
    PowOfSquare(base, half);
    PowOdd(base, half);
    OddRound(t, base, Pow(base * base % WORD, half), Pow(base, 2 * half));
  }

  lemma PowOdd(b: nat, half: nat)
    ensures Pow(b, 2 * half + 1) == b * Pow(b, 2 * half)
  {
  }

  lemma OddRound(t: nat, base: nat, reduced: nat, square: nat)
    requires reduced % WORD == square % WORD
    ensures (t * base % WORD * reduced) % WORD == (t * (base * square)) % WORD
  {
    MulResidue(t * base, reduced);
    MulLeft(t * base, reduced, square);
    assert t * base * square == t * (base * square);
  }

  lemma MulLeft(t: nat, x: nat, y: nat)
    requires x % WORD == y % WORD
    ensures (t * x) % WORD == (t * y) % WORD
  {
    MulResidue(x, t);
    MulResidue(y, t);
  }

  /** Powers in 32-bit unsigned arithmetic. */
  method FastPow(base: nat, index: nat) returns (t: nat)
    requires base < WORD
    ensures t == Pow(base, index) % WORD
  {
    hide Pow;
    PowNothing(base);
    if index == 0 {
      return 1;
    }
    t := 1;
    var b: nat, i: nat := base, index;
    while i != 0
      invariant t < WORD && (t * Pow(b, i)) % WORD == Pow(base, index) % WORD
      decreases i
    {
      FastPowStep(t, b, i);
      if i % 2 == 1 {
        t := t * b % WORD;
      }
      i := i / 2;
      b := b * b % WORD;
    }
    PowNothing(b);
  }

  lemma PowNothing(b: nat)
    ensures Pow(b, 0) == 1
  {
  }

  // ---- Hex text ----

  function HexChar(d: nat): char
    requires d < 16
  {
    if d < 10 then '0' + d as char else 'a' + (d - 10) as char
  }

  function HexValue(c: char): Option<nat> {
    if '0' <= c <= '9' then Some((c - '0') as nat)
    else if 'a' <= c <= 'f' then Some((c - 'a') as nat + 10)
    else if 'A' <= c <= 'F' then Some((c - 'A') as nat + 10)
    else None
  }

  /** Two hex digits to a byte. */
  function HexPair(b: byte): (r: string)
    ensures |r| == 2
  {
    [HexChar(b / 16), HexChar(b % 16)]
  }

  function HexText(bytes: seq<byte>): (r: string)
    ensures |r| == 2 * |bytes|
  {
    if bytes == [] then ""
    else HexText(bytes[..|bytes| - 1]) + HexPair(bytes[|bytes| - 1])
  }

  /** The value of a text of hex digits. */
  function HexNumber(s: string): nat {
    if s == "" then 0
    else
      match HexValue(s[|s| - 1])
      case None => 0
      case Some(d) => 16 * HexNumber(s[..|s| - 1]) + d
  }

  /** The bytes as one number, the first the highest. */
  function BigEndian(bytes: seq<byte>): nat {
    if bytes == [] then 0 else 256 * BigEndian(bytes[..|bytes| - 1]) + bytes[|bytes| - 1]
  }

  lemma HexOfDigit(d: nat)
    requires d < 16
    ensures HexValue(HexChar(d)) == Some(d)
  {
  }

  /** Hex text read as a number is the big-endian value of the bytes. */
  lemma {:induction false} HexTextIsBigEndian(bytes: seq<byte>)
    ensures HexNumber(HexText(bytes)) == BigEndian(bytes)
  {
    if bytes != [] {
      var init, b := bytes[..|bytes| - 1], bytes[|bytes| - 1];
      var hi, lo := HexChar(b / 16), HexChar(b % 16);
      var s := HexText(init) + [hi, lo];
      HexTextIsBigEndian(init);
      HexOfDigit(b / 16);
      HexOfDigit(b % 16);
      assert s[..|s| - 1] == HexText(init) + [hi] && (HexText(init) + [hi])[..|s| - 2] == HexText(init);
      assert HexNumber(HexText(init) + [hi]) == 16 * HexNumber(HexText(init)) + b / 16;
    }
  }

  /** A stretch of the hex text is the hex text of a stretch of the bytes. */
  lemma {:induction false} HexTextSlice(bytes: seq<byte>, from: nat, to: nat)
    requires from <= to <= |bytes|
    ensures HexText(bytes)[2 * from..2 * to] == HexText(bytes[from..to])
  {
    hide HexText;
    if from < to || to < |bytes| {
      var n := |bytes| - 1;
      var init := bytes[..n];
      assert bytes == init + [bytes[n]];
      HexTextLast(init, bytes[n]);
      if to <= n {
        HexTextSlice(init, from, to);
        assert init[from..to] == bytes[from..to];
        SliceOfFront(HexText(init), HexPair(bytes[n]), 2 * from, 2 * to);
      } else {
        HexTextSlice(init, from, n);
        assert bytes[from..to] == init[from..n] + [bytes[n]];
        HexTextLast(init[from..n], bytes[n]);
        SliceOfEnd(HexText(init), HexPair(bytes[n]), 2 * from);
        assert HexText(init)[2 * from..] == HexText(init)[2 * from..2 * n] && 2 * to == |HexText(init)| + 2;
      }
    } else {
      HexTextNothing();
      assert bytes[from..to] == [];
    }
  }

  lemma HexTextLast(init: seq<byte>, b: byte)
    ensures HexText(init + [b]) == HexText(init) + HexPair(b)
  {
    hide HexChar;
    assert (init + [b])[..|init|] == init;
  }

  lemma HexTextNothing()
    ensures HexText([]) == ""
  {
  }

  lemma SliceOfFront(a: string, b: string, from: nat, to: nat)
    requires from <= to <= |a|
    ensures (a + b)[from..to] == a[from..to]
  {
  }

  lemma SliceOfEnd(a: string, b: string, from: nat)
    requires from <= |a|
    ensures (a + b)[from..|a| + |b|] == a[from..] + b
  {
  }

  /** The hex printing loop. */
  method PrintHex(bytes: seq<byte>) returns (s: string)
    ensures s == HexText(bytes)
  {
    s := "";
    var i := 0;
    assert bytes[..0] == [];
    while i < |bytes|
      invariant 0 <= i <= |bytes| && s == HexText(bytes[..i])
    {
      assert bytes[..i + 1][..i] == bytes[..i];
      s := s + HexPair(bytes[i]);
      i := i + 1;
    }
    assert bytes[..i] == bytes;
  }

  /** Reading a number from hex digits. */
  method ReadHex(s: string) returns (v: nat)
    requires forall i :: 0 <= i < |s| ==> HexValue(s[i]).Some?
    ensures v == HexNumber(s)
  {
    v := 0;
    var i := 0;
    assert s[..0] == "";
    while i < |s|
      invariant 0 <= i <= |s| && v == HexNumber(s[..i])
    {
      assert s[..i + 1][..i] == s[..i];
      v := 16 * v + HexValue(s[i]).value;
      i := i + 1;
    }
    assert s[..i] == s;
  }

  lemma {:induction false} HexTextDigits(bytes: seq<byte>, i: nat)
    requires i < 2 * |bytes|
    ensures HexValue(HexText(bytes)[i]).Some?
  {
    if i < 2 * (|bytes| - 1) {
      HexTextDigits(bytes[..|bytes| - 1], i);
    }
  }

  // ---- Decimal text ----

  function DecimalText(v: nat): (r: string)
    ensures r != ""
  {
    if v < 10 then ['0' + v as char] else DecimalText(v / 10) + ['0' + (v % 10) as char]
  }

  function DecimalNumber(s: string): nat {
    if s == "" then 0
    else 10 * DecimalNumber(s[..|s| - 1]) + if '0' <= s[|s| - 1] <= '9' then (s[|s| - 1] - '0') as nat else 0
  }

  predicate AllDigits(s: string) {
    forall i :: 0 <= i < |s| ==> '0' <= s[i] <= '9'
  }

  /** `setw` with '0' to fill. */
  function PadTo(s: string, width: nat): (r: string)
    ensures |r| == if |s| < width then width else |s|
  {
    seq(if |s| < width then width - |s| else 0, i => '0') + s
  }

  lemma {:induction false} DecimalTextReads(v: nat)
    ensures DecimalNumber(DecimalText(v)) == v && AllDigits(DecimalText(v))
  {
    if v >= 10 {
      DecimalTextReads(v / 10);
      var s := DecimalText(v);
      assert s[..|s| - 1] == DecimalText(v / 10);
    } else {
      assert ['0' + v as char][..0] == "";
    }
  }

  lemma {:induction false} DecimalTextLength(v: nat, n: nat)
    requires n >= 1 && v < Pow(10, n)
    ensures |DecimalText(v)| <= n
  {
    assert Pow(10, n) == 10 * Pow(10, n - 1) && Pow(10, 0) == 1;
    if v >= 10 && n > 1 {
      DecimalTextLength(v / 10, n - 1);
    }
  }

  lemma {:induction false} PaddingKeepsNumber(s: string, k: nat)
    ensures DecimalNumber(seq(k, i => '0') + s) == DecimalNumber(s)
  {
    var zeros := seq(k, i => '0');
    var t := zeros + s;
    if s == "" {
      assert t == zeros;
      if k > 0 {
        assert zeros[..k - 1] == seq(k - 1, i => '0');
        PaddingKeepsNumber("", k - 1);
        assert seq(k - 1, i => '0') + "" == seq(k - 1, i => '0');
      }
    } else {
      assert t[..|t| - 1] == zeros + s[..|s| - 1];
      PaddingKeepsNumber(s[..|s| - 1], k);
    }
  }

  method PrintDecimal(v: nat) returns (s: string)
    ensures s == DecimalText(v)
  {
    s := ['0' + (v % 10) as char];
    var rest: nat := v / 10;
    while rest != 0
      invariant DecimalText(v) == if rest == 0 then s else DecimalText(rest) + s
      decreases rest
    {
      s := ['0' + (rest % 10) as char] + s;
      rest := rest / 10;
    }
  }

  // ---- `hash_to_TOTP` ----

  /** Dynamic truncation, section 5.3 of RFC 4226. */
  function Truncated(hmac: seq<byte>): nat
    requires |hmac| >= 20
  {
    var offset := hmac[19] % 16;
    BigEndian(hmac[offset..offset + 4]) % 0x8000_0000
  }

  /** The password. The original divides by the power of ten in 32 bits, which must not be zero. */
  method HashToTotp(hmac: seq<byte>, digit: nat) returns (password: string)
    requires |hmac| >= 20 && Pow(10, digit) % WORD != 0
    ensures password == PadTo(DecimalText(Truncated(hmac) % (Pow(10, digit) % WORD)), 6)
  {
    hide Pow, BigEndian, HexText, HexNumber, DecimalText;
    var rawKey := PrintHex(hmac);
    var at := hmac[19] % 16;
    var window := rawKey[2 * at..2 * at + 8];
    HexTextSlice(hmac, at, at + 4);
    HexTextIsBigEndian(hmac[at..at + 4]);
    forall i | 0 <= i < |window| ensures HexValue(window[i]).Some? {
      HexTextDigits(hmac[at..at + 4], i);
    }
    var overflowKey := ReadHex(window);
    var safeKey := overflowKey % 0x8000_0000;
    var power := FastPow(10, digit);
    var outKey := safeKey % power;
    var text := PrintDecimal(outKey);
    password := PadTo(text, 6);
  }

  /** With six digits on a hash of twenty bytes the password is the truncated value modulo a million,
      written with exactly six decimal digits. */
  lemma SixDigits(hmac: seq<byte>)
    requires |hmac| == 20
    ensures Pow(10, 6) % WORD == 1000000
    ensures var password := PadTo(DecimalText(Truncated(hmac) % (Pow(10, 6) % WORD)), 6);
            |password| == 6 && AllDigits(password) && DecimalNumber(password) == Truncated(hmac) % 1000000
  {
    Million();
    var v := Truncated(hmac) % 1000000;
    hide Truncated, Pow, DecimalText, DecimalNumber;
    DecimalTextReads(v);
    DecimalTextLength(v, 6);
    PaddingKeepsNumber(DecimalText(v), 6 - |DecimalText(v)|);
  }

  lemma Million()
    ensures Pow(10, 6) == 1000000
  {
    assert Pow(10, 2) == 100;
    assert Pow(10, 4) == 10000;
  }

  /** Four bytes as one number, the first the highest. */
  function FourBytes(a: nat, b: nat, c: nat, d: nat): nat {
    a * 0x100_0000 + b * 0x1_0000 + c * 0x100 + d
  }

  /** The truncation by bytes: the four bytes at the number in the low four bits of the last byte, but
      for their highest bit. */
  lemma TruncatedByBytes(hmac: seq<byte>)
    requires |hmac| == 20
    ensures var o := hmac[19] % 16;
            Truncated(hmac) == FourBytes(hmac[o] % 128, hmac[o + 1], hmac[o + 2], hmac[o + 3])
  {
    var o := hmac[19] % 16;
    var w := hmac[o..o + 4];
    BigEndianOfFour(w);
    hide BigEndian;
    HighBit(w[0], FourBytes(0, w[1], w[2], w[3]));
  }

  lemma BigEndianOfFour(w: seq<byte>)
    requires |w| == 4
    ensures BigEndian(w) == FourBytes(w[0], w[1], w[2], w[3])
  {
    assert w[..3][..2] == w[..2] && w[..2][..1] == w[..1] && w[..1][..0] == [];
    assert BigEndian([]) == 0;
    var one, two, three := BigEndian(w[..1]), BigEndian(w[..2]), BigEndian(w[..3]);
    assert one == w[0] as nat;
    assert two == 256 * one + w[1] as nat;
    assert three == 256 * two + w[2] as nat;
  }

  lemma HighBit(a: nat, low: nat)
    requires a < 256 && low < 0x100_0000
    ensures (a * 0x100_0000 + low) % 0x8000_0000 == a % 128 * 0x100_0000 + low
  {
  }

  const EXAMPLE: seq<byte> :=
    [0x1f, 0x86, 0x98, 0x69, 0x0e, 0x02, 0xca, 0x16, 0x61, 0x85, 0x50, 0xef, 0x7f, 0x19, 0xda, 0x8e, 0x94, 0x5b, 0x55, 0x5a]

  /** The worked example of section 5.4 of RFC 4226. */
  lemma WorkedExample()
    ensures |EXAMPLE| == 20 && Truncated(EXAMPLE) == 0x50ef7f19
    ensures PadTo(DecimalText(Truncated(EXAMPLE) % 1000000), 6) == "872921"
  {
    ExampleBytes();
    hide EXAMPLE;
    TruncatedByBytes(EXAMPLE);
    DigitsOfExample();
    hide DecimalText, Truncated;
  }

  lemma ExampleBytes()
    ensures |EXAMPLE| == 20 && EXAMPLE[19] == 0x5a
    ensures EXAMPLE[10] == 0x50 && EXAMPLE[11] == 0xef && EXAMPLE[12] == 0x7f && EXAMPLE[13] == 0x19
  {
  }

  lemma DigitsOfExample()
    ensures DecimalText(872921) == "872921"
  {
    assert DecimalText(8) == "8";
    assert DecimalText(87) == "87";
    assert DecimalText(872) == "872";
    assert DecimalText(8729) == "8729";
    assert DecimalText(87292) == "87292";
  }
}
