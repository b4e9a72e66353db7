/** The scanning routines of the parser, over positions of a text. A missing position is a
    null pointer. */
module Scanner {
  import opened Characters
  import opened Entities
  import opened CharacterData
  import opened Grammar

  lemma SuffixStep(s: string, p: nat)
    requires p < |s|
    ensures s[p..] != "" && s[p..][0] == s[p] && s[p..][1..] == s[p + 1..]
  {
  }

  /** The white-space loop on text that has not ended. */
  method SkipSpaces(s: string, p: nat) returns (q: nat)
    requires p <= |s|
    ensures p <= q <= |s| && s[q..] == DropSpaces(s[p..])
  {
    q := p;
    while q < |s| && IsWhiteSpace(s[q])
      invariant p <= q <= |s| && DropSpaces(s[q..]) == DropSpaces(s[p..])
    {
      SuffixStep(s, q);
      q := q + 1;
    }
    if q < |s| {
      SuffixStep(s, q);
    }
  }

  method SkipWhiteSpace(s: string, p: Option<nat>) returns (r: Option<nat>)
    requires p.Some? ==> p.value <= |s|
    ensures r.None? <==> p.None? || p.value == |s|
    ensures r.Some? ==> p.value <= r.value <= |s| && s[r.value..] == DropSpaces(s[p.value..])
  {
    if p.None? || p.value == |s| {
      return None;
    }
    var q := SkipSpaces(s, p.value);
    return Some(q);
  }

  predicate SameIgnoring(a: char, b: char, ignoreCase: bool) {
    if ignoreCase then ToLower(a) == ToLower(b) else a == b
  }

  /** The tag stands at the beginning of the text, in this sense of equality. */
  predicate Begins(s: string, tag: string, ignoreCase: bool) {
    |tag| <= |s| && forall i :: 0 <= i < |tag| ==> SameIgnoring(s[i], tag[i], ignoreCase)
  }

  lemma {:induction false} BeginsMeans(s: string, tag: string)
    ensures Begins(s, tag, false) <==> Starts(s, tag)
    ensures Begins(s, tag, true) <==> StartsNoCase(s, tag)
  {
    if tag != "" && s != "" {
      BeginsMeans(s[1..], tag[1..]);
      if Begins(s, tag, true) {
        assert SameIgnoring(s[0], tag[0], true);
        forall i | 0 <= i < |tag[1..]| ensures SameIgnoring(s[1..][i], tag[1..][i], true) {
          assert SameIgnoring(s[i + 1], tag[i + 1], true);
        }
      }
      if StartsNoCase(s, tag) {
        forall i | 0 <= i < |tag| ensures SameIgnoring(s[i], tag[i], true) {
          if i > 0 {
            assert SameIgnoring(s[1..][i - 1], tag[1..][i - 1], true);
          }
        }
      }
    }
  }

  /** At the end of the text nothing is equal. */
  method StringEqual(s: string, p: nat, tag: string, ignoreCase: bool) returns (r: bool)
    requires p <= |s| && tag != ""
    ensures r == if ignoreCase then StartsNoCase(s[p..], tag) else Starts(s[p..], tag)
  {
    BeginsMeans(s[p..], tag);
    if p == |s| {
      return false;
    }
    var q, t := p, 0;
    while q < |s| && t < |tag| && SameIgnoring(s[q], tag[t], ignoreCase)
      invariant p <= q <= |s| && t == q - p && t <= |tag|
      invariant forall i :: 0 <= i < t ==> SameIgnoring(s[p..][i], tag[i], ignoreCase)
    {
      q := q + 1;
      t := t + 1;
    }
    assert t < |tag| && q < |s| ==> s[p..][t] == s[q];
    return t == |tag|;
  }

  method ReadName(s: string, p: Option<nat>) returns (name: string, r: Option<nat>)
    requires p.Some? ==> p.value <= |s|
    ensures p.None? ==> r.None?
    ensures p.Some? ==> Reads(s, name, r, Grammar.ReadName(s[p.value..]))
    ensures r.Some? ==> p.value < r.value
  {
    name := "";
    if p.None? || p.value == |s| {
      return name, None;
    }
    SuffixStep(s, p.value);
    if IsNameStart(s[p.value]) {
      var q := p.value;
      while q < |s| && IsNameChar(s[q])
        invariant p.value <= q <= |s| && NameLength(s[p.value..]) == q - p.value + NameLength(s[q..])
      {
        SuffixStep(s, q);
        q := q + 1;
      }
      if q < |s| {
        SuffixStep(s, q);
      }
      NamePiece(s, p.value, q);
      if q - p.value > 0 {
        name := s[p.value..q];
      }
      return name, Some(q);
    }
    return name, None;
  }

  lemma NamePiece(s: string, p: nat, q: nat)
    requires p <= q <= |s|
    ensures s[p..][..q - p] == s[p..q] && s[p..][q - p..] == s[q..]
  {
  }

  /** What a loop of `ReadText` that keeps white space leaves behind: the text, and a pointer past
      the end tag. After the end of the input that pointer lies outside the text. */
  ghost predicate KeepsTo(s: string, text: string, r: Option<nat>, spec: Partial) {
    && text == spec.text
    && (spec.rest.Some? ==> r.Some? && r.value <= |s| && s[r.value..] == spec.rest.value)
    && (spec.rest.None? ==> r.None? || r.value > |s|)
  }

  lemma KeepingEnds(s: string, end: string)
    requires end != ""
    ensures s == "" ==> ReadKeeping(s, end) == Partial("", None)
    ensures Starts(s, end) ==> ReadKeeping(s, end) == Partial("", Some(s[|end|..]))
  {
  }

  lemma KeepingReads(s: string, end: string)
    requires end != "" && s != "" && !Starts(s, end)
    ensures var head := DecodeChar(s);
            ReadKeeping(s, end) ==
            if head.None? then Partial("", None)
            else
              var tail := ReadKeeping(head.value.rest, end);
              Partial(head.value.text + tail.text, tail.rest)
  {
    hide DecodeChar;
  }

  method ReadTextKeeping(s: string, p: nat, endTag: string) returns (text: string, r: Option<nat>)
    requires p <= |s| && endTag != ""
    ensures KeepsTo(s, text, r, ReadKeeping(s[p..], endTag))
  {
    hide ReadKeeping, DecodeChar, Starts, StartsNoCase;
    text := "";
    r := Some(p);
    ghost var spec := ReadKeeping(s[p..], endTag);
    var atEnd := StringEqual(s, p, endTag, false);
    while r.Some? && r.value < |s| && !atEnd
      invariant r.Some? ==> r.value <= |s| && atEnd == Starts(s[r.value..], endTag)
      invariant r.Some? ==> spec.text == text + ReadKeeping(s[r.value..], endTag).text
                            && spec.rest == ReadKeeping(s[r.value..], endTag).rest
      invariant r.None? ==> spec == Partial(text, None)
      decreases if r.Some? then |s| - r.value + 1 else 0
    {
      SuffixStep(s, r.value);
      KeepingReads(s[r.value..], endTag);
      var piece;
      piece, r := GetChar(s, r.value);
      if r.Some? {
        text := text + piece;
        atEnd := StringEqual(s, r.value, endTag, false);
      }
    }
    if r.Some? {
      KeepingEnds(s[r.value..], endTag);
      StartsInside(s[r.value..], endTag);
      r := Some(r.value + |endTag|);
    }
  }

  lemma StartsInside(s: string, end: string)
    ensures Starts(s, end) ==> |end| <= |s|
  {
  }

  /** What the condensing loop of `ReadText` leaves behind: a pointer past where the end tag stands
      or, after the end of the input, would stand. */
  ghost predicate TrimsTo(s: string, endTag: string, text: string, r: Option<nat>, spec: Partial) {
    && text == spec.text
    && (spec.rest.None? <==> r.None?)
    && (r.Some? ==> |endTag| <= r.value <= |s| + |endTag| && s[r.value - |endTag|..] == spec.rest.value)
  }

  lemma CondensingSteps(s: string, end: string, pending: bool)
    requires end != ""
    ensures ReadCondensing(s, end, pending) ==
            if s == "" || Starts(s, end) then Partial("", Some(s))
            else if IsWhiteSpace(s[0]) then ReadCondensing(s[1..], end, true)
            else
              var blank, head := if pending then " " else "", DecodeChar(s);
              if head.None? then Partial(blank, None)
              else
                var tail := ReadCondensing(head.value.rest, end, false);
                Partial(blank + head.value.text + tail.text, tail.rest)
  {
    hide DecodeChar;
  }

  /** One round of the condensing loop: white space is remembered, and a character is read behind at
      most one space. */
  method CondenseOne(s: string, p: nat, endTag: string, whitespace: bool)
    returns (piece: string, r: Option<nat>, whitespace': bool)
    requires p < |s| && endTag != "" && !Starts(s[p..], endTag)
    ensures var spec := ReadCondensing(s[p..], endTag, whitespace);
            if r.None? then spec == Partial(piece, None)
            else
              p < r.value <= |s|
              && var rest := ReadCondensing(s[r.value..], endTag, whitespace');
                 spec.text == piece + rest.text && spec.rest == rest.rest
  {
    hide ReadCondensing, DecodeChar, Starts;
    SuffixStep(s, p);
    CondensingSteps(s[p..], endTag, whitespace);
    if IsWhiteSpace(s[p]) {
      return "", Some(p + 1), true;
    }
    var c;
    c, r := GetChar(s, p);
    piece := if whitespace then " " else "";
    if r.Some? {
      piece := piece + c;
    }
    whitespace' := false;
  }

  method ReadTextTrimming(s: string, p: nat, endTag: string) returns (text: string, r: Option<nat>)
    requires p <= |s| && endTag != ""
    ensures TrimsTo(s, endTag, text, r, ReadTrimming(s[p..], endTag))
  {
    hide ReadCondensing, DecodeChar, Starts, StartsNoCase, DropSpaces;
    text := "";
    var whitespace := false;
    ghost var spec := ReadTrimming(s[p..], endTag);
    r := SkipWhiteSpace(s, Some(p));
    if r.None? {
      return;
    }
    var atEnd := StringEqual(s, r.value, endTag, false);
    while r.Some? && r.value < |s| && !atEnd
      invariant r.Some? ==> r.value <= |s| && atEnd == Starts(s[r.value..], endTag)
      invariant r.Some? ==> spec.text == text + ReadCondensing(s[r.value..], endTag, whitespace).text
                            && spec.rest == ReadCondensing(s[r.value..], endTag, whitespace).rest
      invariant r.None? ==> spec == Partial(text, None)
      decreases if r.Some? then |s| - r.value + 1 else 0
    {
      var piece;
      piece, r, whitespace := CondenseOne(s, r.value, endTag, whitespace);
      text := text + piece;
      if r.Some? {
        atEnd := StringEqual(s, r.value, endTag, false);
      }
    }
    if r.Some? {
      CondensingSteps(s[r.value..], endTag, whitespace);
      r := Some(r.value + |endTag|);
    }
  }

  /** A pointer behind the end of the text may not be used; it counts as null. */
  function Inside(s: string, r: Option<nat>): (q: Option<nat>)
    ensures q.Some? ==> q.value <= |s|
  {
    if r.Some? && r.value > |s| then None else r
  }

  /** The loops of comments and CDATA sections: raw text up to an end tag or the end of the input. */
  method ReadRaw(s: string, p: nat, endTag: string) returns (text: string, q: nat)
    requires p <= |s| && endTag != ""
    ensures p <= q <= |s| && text == ReadUpTo(s[p..], endTag).text
    ensures q == |s| || Starts(s[q..], endTag)
    ensures ReadUpTo(s[p..], endTag).rest == if q == |s| then None else Some(s[q + |endTag|..])
  {
    hide ReadUpTo, Starts, StartsNoCase;
    text := "";
    q := p;
    ghost var spec := ReadUpTo(s[p..], endTag);
    var atEnd := StringEqual(s, q, endTag, false);
    while q < |s| && !atEnd
      invariant p <= q <= |s| && atEnd == Starts(s[q..], endTag)
      invariant spec.text == text + ReadUpTo(s[q..], endTag).text && spec.rest == ReadUpTo(s[q..], endTag).rest
    {
      SuffixStep(s, q);
      RawSteps(s[q..], endTag);
      text := text + [s[q]];
      q := q + 1;
      atEnd := StringEqual(s, q, endTag, false);
    }
    RawSteps(s[q..], endTag);
    if q < |s| {
      StartsInside(s[q..], endTag);
      assert s[q..][|endTag|..] == s[q + |endTag|..];
    }
  }

  lemma RawSteps(s: string, end: string)
    requires end != ""
    ensures ReadUpTo(s, end) ==
            if s == "" then Partial("", None)
            else if Starts(s, end) then Partial("", Some(s[|end|..]))
            else
              var tail := ReadUpTo(s[1..], end);
              Partial([s[0]] + tail.text, tail.rest)
  {
  }
}
