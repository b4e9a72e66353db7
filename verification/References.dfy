/** Character references by the numbers and names that stand in them. */
module References {
  import opened Characters
  import opened Entities
  import opened CharacterData
  import opened Utf8Text
  import opened Totp

  const LOWER: string := "0123456789abcdef"
  const UPPER: string := "0123456789ABCDEF"

  // ---- Digits ----

  /** A hexadecimal digit has the value of its place among the sixteen, in either letter case. */
  lemma HexDigitsAre(d: nat)
    requires d < 16
    ensures |LOWER| == |UPPER| == 16
    ensures DigitValue(LOWER[d], true) == DigitValue(UPPER[d], true) == Some(d)
    ensures d < 10 ==> DigitValue(LOWER[d], false) == Some(d)
  {
  }

  /** No other character is a digit. */
  lemma OtherDigits(c: char)
    ensures DigitValue(c, true).Some? ==> c in LOWER || c in UPPER
    ensures DigitValue(c, false).Some? <==> c in DIGITS
  {
    DigitsAre(c);
    hide DIGITS;
    if DigitValue(c, true).Some? {
      HexDigitsAre(DigitValue(c, true).value);
      SameDigit(c);
    }
  }

  lemma SameDigit(c: char)
    requires DigitValue(c, true).Some?
    ensures var d := DigitValue(c, true).value; d < 16 && (c == LOWER[d] || c == UPPER[d])
  {
  }

  // ---- Decimal references ----

  /** The decimal text of a number is read as that number. */
  lemma {:induction false} DecimalReads(v: nat)
    ensures Digits(DecimalText(v), false) == Some(v)
  {
    var s := DecimalText(v);
    var d := v % 10;
    HexDigitsAre(d);
    DecimalDigit(d);
    assert s[|s| - 1] == LOWER[d];
    hide LOWER, DigitValue;
    if v >= 10 {
      DecimalReads(v / 10);
      assert s[..|s| - 1] == DecimalText(v / 10);
    } else {
      assert s[..|s| - 1] == "";
    }
  }

  lemma DecimalDigit(d: nat)
    requires d < 10
    ensures '0' + d as char == LOWER[d] && LOWER[d] != '#'
  {
  }

  /** Where the parts of a reference lie. */
  lemma Parts(mark: string, t: string, rest: string)
    requires (mark == "&#" || mark == "&#x") && ';' !in t
    ensures var s, n := mark + t + ";" + rest, |mark|;
            && |s| >= n + |t| + 1 && s[0] == '&' && s[1] == '#' && (n == 3 ==> s[2] == 'x') && (n == 2 && t != "" ==> s[2] == t[0])
            && IndexOf(s, ';', n) == Some(n + |t|) && s[n..n + |t|] == t && s[n + |t| + 1..] == rest
  {
    hide IndexOf;
    var s, n := mark + t + ";" + rest, |mark|;
    assert s[n + |t|] == ';';
    forall j | n <= j < n + |t| ensures s[j] != ';' {
      assert s[j] == t[j - n];
    }
    assert s[..2] == mark[..2];
  }

  /** A decimal reference to a number is read as the character of its low byte, and in UTF-8 as the
      bytes of its code. */
  lemma DecimalReference(v: nat, rest: string)
    ensures var s := "&#" + DecimalText(v) + ";" + rest;
            && s != "" && DecodeChar(s) == Some(Chunk([(v % 256) as char], rest))
            && DecodeCharUtf8(s) == Some(Chunk(CodeText(v), rest))
  {
    hide DecimalText, Digits, IndexOf, CodeText, DecimalNumber;
    DecimalReads(v);
    DecimalTextReads(v);
    var t := DecimalText(v);
    Parts("&#", t, rest);
    Read("&#" + t + ";" + rest, false, t, v, rest);
  }

  /** What both encodings make of a reference. */
  lemma Read(s: string, hex: bool, t: string, v: nat, rest: string)
    requires |s| > 3 && s[0] == '&' && s[1] == '#' && (s[2] == 'x' <==> hex)
    requires var n := if hex then 3 else 2;
             && |s| >= n + |t| + 1 && IndexOf(s, ';', n) == Some(n + |t|) && s[n..n + |t|] == t && s[n + |t| + 1..] == rest
    requires Digits(t, hex) == Some(v)
    ensures DecodeChar(s) == Some(Chunk([(v % 256) as char], rest)) && DecodeCharUtf8(s) == Some(Chunk(CodeText(v), rest))
  {
    hide Digits, IndexOf, CodeText;
  }

  // ---- Hexadecimal references ----

  /** The text writes these digits, in any mixture of letter cases. */
  predicate Writes(t: string, digits: seq<nat>) {
    |t| == |digits| && forall i :: 0 <= i < |t| ==> digits[i] < 16 && IsDigitOf(t[i], digits[i])
  }

  predicate IsDigitOf(c: char, d: nat)
    requires d < 16
  {
    c == LOWER[d] || c == UPPER[d]
  }

  function Number(digits: seq<nat>): nat {
    if digits == [] then 0 else 16 * Number(digits[..|digits| - 1]) + digits[|digits| - 1]
  }

  lemma {:induction false} HexReads(t: string, digits: seq<nat>)
    requires Writes(t, digits)
    ensures Digits(t, true) == Some(Number(digits)) && ';' !in t
  {
    hide Writes, Digits, DigitValue;
    WritesLast(t, digits);
    if t != "" {
      var n := |t| - 1;
      HexReads(t[..n], digits[..n]);
      OneMoreDigit(t[..n], t[n], digits[n]);
      assert t == t[..n] + [t[n]];
    }
  }

  lemma WritesLast(t: string, digits: seq<nat>)
    requires Writes(t, digits)
    ensures |digits| == |t| && Digits("", true) == Some(0)
    ensures t != "" ==>
            var n := |t| - 1;
            Writes(t[..n], digits[..n]) && DigitValue(t[n], true) == Some(digits[n]) && t[n] != 'x' && t[n] != ';'
  {
    hide IsDigitOf, DigitValue;
    if t != "" {
      var n := |t| - 1;
      assert IsDigitOf(t[n], digits[n]);
      DigitOf(t[n], digits[n]);
    }
  }

  lemma DigitOf(c: char, d: nat)
    requires d < 16 && IsDigitOf(c, d)
    ensures DigitValue(c, true) == Some(d) && c != 'x' && c != ';'
  {
    HexDigitsAre(d);
    NoMarks(d);
    hide LOWER, UPPER, DigitValue;
  }

  lemma OneMoreDigit(init: string, c: char, d: nat)
    requires DigitValue(c, true) == Some(d) && c != 'x' && Digits(init, true).Some?
    ensures Digits(init + [c], true) == Some(16 * Digits(init, true).value + d)
  {
    hide DigitValue;
    assert (init + [c])[..|init|] == init;
  }

  lemma NoMarks(d: nat)
    requires d < 16
    ensures LOWER[d] != 'x' && UPPER[d] != 'x' && LOWER[d] != ';' && UPPER[d] != ';'
  {
  }

  /** A hexadecimal reference, in either letter case. */
  lemma HexReference(t: string, digits: seq<nat>, rest: string)
    requires Writes(t, digits)
    ensures var s := "&#x" + t + ";" + rest;
            && s != "" && DecodeChar(s) == Some(Chunk([(Number(digits) % 256) as char], rest))
            && DecodeCharUtf8(s) == Some(Chunk(CodeText(Number(digits)), rest))
  {
    hide Number, Digits, IndexOf, CodeText, Writes;
    HexReads(t, digits);
    Parts("&#x", t, rest);
    Read("&#x" + t + ";" + rest, true, t, Number(digits), rest);
  }

  // ---- Named references ----

  /** The five names, and the characters they stand for. */
  lemma NamedReferences(rest: string)
    ensures DecodeChar("&amp;" + rest) == Some(Chunk("&", rest)) && DecodeChar("&lt;" + rest) == Some(Chunk("<", rest))
    ensures DecodeChar("&gt;" + rest) == Some(Chunk(">", rest)) && DecodeChar("&quot;" + rest) == Some(Chunk("\"", rest))
    ensures DecodeChar("&apos;" + rest) == Some(Chunk("'", rest))
  {
    hide NamedEntity;
    DecodeNamed(0, rest);
    DecodeNamed(1, rest);
    DecodeNamed(2, rest);
    DecodeNamed(3, rest);
    DecodeNamed(4, rest);
  }

  /** What is written for each character: a name, two upper-case hexadecimal digits, or itself. */
  lemma CharactersWritten(c: char)
    ensures EncodeChar('&') == "&amp;" && EncodeChar('<') == "&lt;" && EncodeChar('>') == "&gt;"
    ensures EncodeChar('"') == "&quot;" && EncodeChar('\'') == "&apos;"
    ensures c as int < 32 ==> EncodeChar(c) == "&#x" + [UPPER[c as int / 16], UPPER[c as int % 16]] + ";"
    ensures c as int >= 32 && c !in "&<>\"'" ==> EncodeChar(c) == [c]
  {
    if c as int < 32 {
      UpperDigit(c as int / 16);
      UpperDigit(c as int % 16);
      hide HexDigit, UPPER;
    }
  }

  lemma UpperDigit(d: nat)
    requires d < 16
    ensures HexDigit(d) == UPPER[d]
  {
  }

  /** A hexadecimal reference in a value is passed through, up to its semicolon. */
  lemma PassedThrough(h: string, w: string)
    requires ';' !in h
    ensures Encode("&#x" + h + ";" + w) == "&#x" + h + ";" + Encode(w)
  {
    hide EncodeChar;
    var v, k := "&#x" + h + ";" + w, 3 + |h|;
    assert v[..3] == "&#x" && v[k] == ';' && v[..k] == "&#x" + h && v[k + 1..] == w;
    forall j | 1 <= j < k ensures v[j] != ';' {
      if j >= 3 {
        assert v[j] == h[j - 3];
      }
    }
    assert RunEnd(v, 1) == k;
    SemicolonWritten();
    RunSplit(v);
  }

  lemma SemicolonWritten()
    ensures EncodeChar(';') == ";"
  {
  }

  // ---- What is no reference ----

  /** A numeric reference without a semicolon, or with anything but digits behind its last mark, breaks
      reading off. */
  lemma BrokenReference(s: string)
    requires |s| >= 3 && s[0] == '&' && s[1] == '#'
    ensures var hex := s[2] == 'x';
            var at := IndexOf(s, ';', if hex then 3 else 2);
            (at.None? ==> DecodeChar(s) == None && DecodeCharUtf8(s) == None)
            && (at.Some? && Digits(s[if hex then 3 else 2..at.value], hex) == None ==> DecodeChar(s) == None && DecodeCharUtf8(s) == None)
  {
    hide IndexOf, Digits, CodeText;
  }

  /** A last character that is no digit and no mark leaves no number. */
  lemma BadDigit(t: string, c: char, hex: bool)
    requires DigitValue(c, hex) == None && c != (if hex then 'x' else '#')
    ensures Digits(t + [c], hex) == None
  {
  }

  /** An ampersand that begins neither a number nor one of the five names yields nothing, and reading
      goes on behind it. */
  lemma UnknownName(s: string)
    requires s != "" && s[0] == '&' && !(|s| >= 3 && s[1] == '#')
    requires !("&amp;" <= s) && !("&lt;" <= s) && !("&gt;" <= s) && !("&quot;" <= s) && !("&apos;" <= s)
    ensures DecodeChar(s) == Some(Chunk("", s[1..])) && DecodeCharUtf8(s) == Some(Chunk("", s[1..]))
  {
    assert NamedEntity(s, 5) == Chunk("", s[1..]);
    assert NamedEntity(s, 3) == NamedEntity(s, 5);
    assert NamedEntity(s, 1) == NamedEntity(s, 3);
  }

  /** In UTF-8 a character that the text cuts off leads outside, and any other takes as many bytes as its
      first announces. */
  lemma CharacterTaken(s: string)
    requires s != "" && s[0] != '&'
    ensures DecodeCharUtf8(s) == if |s| < LengthOf(s[0]) then None else Some(Chunk(s[..LengthOf(s[0])], s[LengthOf(s[0])..]))
  {
    hide LengthOf, DecodeEntityUtf8;
    if LengthOf(s[0]) == 1 {
      assert s[..1] == [s[0]];
    }
  }
}
