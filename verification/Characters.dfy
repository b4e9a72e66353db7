/** Character classes of the C locale and the pointer results the parser works with.
    A C `char` is a Dafny `char` whose code is the unsigned byte; a C string is the
    sequence of its characters before the terminating NUL. */
module Characters {

  /** How many values an unsigned 32-bit word has. */
  const WORD: nat := 0x1_0000_0000

  datatype Option<+T> = None | Some(value: T)

  /** `isspace` in the C locale, which already covers '\n' and '\r'. */
  predicate IsWhiteSpace(c: char) {
    c == ' ' || 9 <= c as int <= 13
  }

  predicate IsLetter(c: char) {
    'a' <= c <= 'z' || 'A' <= c <= 'Z'
  }

  predicate IsDigit(c: char) {
    '0' <= c <= '9'
  }

  /** Everything from byte 127 on counts as a letter. */
  predicate IsAlpha(c: char) {
    if c as int < 127 then IsLetter(c) else true
  }

  predicate IsAlphaNum(c: char) {
    if c as int < 127 then IsLetter(c) || IsDigit(c) else true
  }

  predicate IsNameStart(c: char) {
    IsAlpha(c) || c == '_'
  }

  predicate IsNameChar(c: char) {
    IsAlphaNum(c) || c == '_' || c == '-' || c == '.' || c == ':'
  }

  function ToLower(c: char): char {
    if 'A' <= c <= 'Z' then c + 32 as char else c
  }

  /** Tab, line feed, vertical tab, form feed, carriage return and space, and no other character. */
  lemma WhiteSpaceIs(c: char)
    ensures IsWhiteSpace(c) <==> c as int in {9, 10, 11, 12, 13, 32}
  {
  }

  const CAPITALS: string := "ABCDEFGHIJKLMNOPQRSTUVWXYZ"
  const SMALLS: string := "abcdefghijklmnopqrstuvwxyz"

  /** Every capital letter goes to the small letter in its place, and any other character to itself. */
  lemma ToLowerIs(c: char)
    ensures |CAPITALS| == |SMALLS| == 26
    ensures forall i :: 0 <= i < 26 ==> ToLower(CAPITALS[i]) == ToLower(SMALLS[i]) == SMALLS[i]
    ensures c !in CAPITALS ==> ToLower(c) == c
  {
    if 'A' <= c <= 'Z' {
      assert CAPITALS[c as int - 'A' as int] == c;
    }
  }

  lemma CapitalsAre(c: char)
    ensures 'A' <= c <= 'Z' <==> c in CAPITALS
  {
    assert forall i :: 0 <= i < 26 ==> CAPITALS[i] as int == 65 + i;
    if 'A' <= c <= 'Z' {
      assert CAPITALS[c as int - 65] == c;
    }
    hide CAPITALS;
  }

  lemma SmallsAre(c: char)
    ensures 'a' <= c <= 'z' <==> c in SMALLS
  {
    assert forall i :: 0 <= i < 26 ==> SMALLS[i] as int == 97 + i;
    if 'a' <= c <= 'z' {
      assert SMALLS[c as int - 97] == c;
    }
    hide SMALLS;
  }

  const DIGITS: string := "0123456789"

  lemma DigitsAre(c: char)
    ensures IsDigit(c) <==> c in DIGITS
  {
    if '0' <= c <= '9' {
      assert DIGITS[c as int - '0' as int] == c;
    }
  }

  /** What a name may begin with, and what it may go on with. */
  lemma NameCharactersAre(c: char)
    ensures IsNameStart(c) <==> c in CAPITALS || c in SMALLS || c == '_' || c as int >= 127
    ensures IsNameChar(c) <==> IsNameStart(c) || c in DIGITS || c == '-' || c == '.' || c == ':'
  {
    hide CAPITALS, SMALLS, DIGITS;
    CapitalsAre(c);
    SmallsAre(c);
    DigitsAre(c);
  }

  /** Every character of `w` is white space. */
  predicate AllWhite(w: string) {
    forall i :: 0 <= i < |w| ==> IsWhiteSpace(w[i])
  }

  /** The pointer `r` into `s` (null when absent) stands for the suffix `suffix`. */
  ghost predicate PointsAt(s: string, r: Option<nat>, suffix: Option<string>) {
    match (r, suffix)
    case (None, None) => true
    case (Some(q), Some(t)) => q <= |s| && s[q..] == t
    case _ => false
  }

  /** `t` occurs in `s`. */
  ghost predicate Contains(s: string, t: string) {
    exists i :: 0 <= i <= |s| - |t| && t <= s[i..]
  }
}
