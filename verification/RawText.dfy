/** Text as it stands in a file, with any white space in it: what reading with white space condensed
    makes of it. */
module RawText {
  import opened Characters
  import opened Entities
  import opened CharacterData
  import opened Condensing

  /** The white space, written out. */
  predicate White(c: char) {
    c as int in {9, 10, 11, 12, 13, 32}
  }

  function RunLength(v: string): (n: nat)
    ensures n <= |v|
    ensures forall i :: 0 <= i < n ==> !White(v[i])
    ensures n < |v| ==> White(v[n])
  {
    if v == "" || White(v[0]) then 0 else 1 + RunLength(v[1..])
  }

  /** The maximal runs of characters that are not white space. */
  function Runs(v: string): seq<string> {
    if v == "" then []
    else if White(v[0]) then Runs(v[1..])
    else [v[..RunLength(v)]] + Runs(v[RunLength(v)..])
  }

  /** No tag begins in the text, and no entity. */
  predicate IsRaw(v: string) {
    '<' !in v && '&' !in v
  }

  /** The text with every white space made a space. */
  function Spaced(v: string): (r: string)
    ensures |r| == |v| && forall i :: 0 <= i < |v| ==> r[i] == if White(v[i]) then ' ' else v[i]
  {
    if v == "" then "" else [if White(v[0]) then ' ' else v[0]] + Spaced(v[1..])
  }

  lemma {:induction false} SpacedLength(v: string)
    ensures WordLength(Spaced(v)) == RunLength(v)
  {
    hide White;
    if v != "" {
      SpacedStep(v);
      if !White(v[0]) {
        SpacedLength(v[1..]);
      }
    }
  }

  lemma SpacedStep(v: string)
    requires v != ""
    ensures Spaced(v) != "" && (Spaced(v)[0] == ' ' <==> White(v[0])) && Spaced(v)[1..] == Spaced(v[1..])
    ensures !White(v[0]) ==> Spaced(v)[0] == v[0]
  {
  }

  lemma {:induction false} RunsAreWords(v: string)
    ensures Runs(v) == Words(Spaced(v))
    decreases |v|
  {
    if v != "" {
      SpacedStep(v);
      hide White;
      if White(v[0]) {
        RunsAreWords(v[1..]);
      } else {
        SpacedLength(v);
        var n := RunLength(v);
        hide Spaced, RunLength, WordLength;
        RunsAreWords(v[n..]);
        assert Spaced(v)[..n] == v[..n];
        assert Spaced(v)[n..] == Spaced(v[n..]);
      }
    }
  }

  /** One raw character in the condensing loop. */
  lemma RawStep(v: string, rest: string, pending: bool)
    requires v != "" && IsRaw(v)
    ensures var next := ReadCondensing(v[1..] + rest, "<", White(v[0]));
            ReadCondensing(v + rest, "<", pending) ==
            if White(v[0]) then next else Partial((if pending then " " else "") + [v[0]] + next.text, next.rest)
  {
    var s := v + rest;
    WhiteSpaceIs(v[0]);
    hide IsWhiteSpace, DecodeEntity;
    assert s[0] == v[0] && s[1..] == v[1..] + rest && !("<" <= s);
  }

  lemma {:induction false} RawSqueezes(v: string, rest: string, pending: bool)
    requires IsRaw(v) && StopsText(rest)
    ensures ReadCondensing(v + rest, "<", pending) == Partial(Squeeze(Spaced(v), pending), Some(rest))
  {
    if v == "" {
      assert v + rest == rest;
      StopsThere(rest, pending);
    } else {
      RawStep(v, rest, pending);
      SpacedStep(v);
      hide White, ReadCondensing, Spaced;
      RawSqueezes(v[1..], rest, White(v[0]));
    }
  }

  lemma StopsThere(rest: string, pending: bool)
    requires StopsText(rest)
    ensures ReadCondensing(rest, "<", pending) == Partial("", Some(rest)) && Squeeze(Spaced(""), pending) == ""
  {
    hide DecodeChar;
  }

  lemma {:induction false} RawDrops(v: string, rest: string) returns (u: string)
    requires IsRaw(v) && StopsText(rest)
    ensures IsRaw(u) && DropSpaces(v + rest) == u + rest && Spaced(u) == TrimLeft(Spaced(v))
  {
    u := v;
    DropStep(v, rest);
    hide *;
    if v != "" && White(v[0]) {
      u := RawDrops(v[1..], rest);
    }
  }

  lemma DropStep(v: string, rest: string)
    requires IsRaw(v) && StopsText(rest)
    ensures v != "" && White(v[0]) ==> IsRaw(v[1..]) && DropSpaces(v + rest) == DropSpaces(v[1..] + rest)
                                       && TrimLeft(Spaced(v)) == TrimLeft(Spaced(v[1..]))
    ensures !(v != "" && White(v[0])) ==> DropSpaces(v + rest) == v + rest && TrimLeft(Spaced(v)) == Spaced(v)
  {
    if v != "" {
      WhiteSpaceIs(v[0]);
      SpacedStep(v);
      TrimStep(Spaced(v));
      DropOne(v, rest);
      RawRest(v);
      hide *;
    } else {
      assert v + rest == rest;
      NothingDropped(rest);
    }
  }

  lemma NothingDropped(rest: string)
    requires StopsText(rest)
    ensures DropSpaces(rest) == rest && TrimLeft(Spaced("")) == Spaced("")
  {
  }

  lemma RawRest(v: string)
    requires v != "" && IsRaw(v)
    ensures IsRaw(v[1..])
  {
    forall c | c in v[1..] ensures c in v {
    }
  }

  lemma TrimStep(s: string)
    requires s != ""
    ensures TrimLeft(s) == if s[0] == ' ' then TrimLeft(s[1..]) else s
  {
  }

  lemma DropOne(v: string, rest: string)
    requires v != ""
    ensures DropSpaces(v + rest) == if IsWhiteSpace(v[0]) then DropSpaces(v[1..] + rest) else v + rest
  {
    hide IsWhiteSpace;
    assert (v + rest)[0] == v[0] && (v + rest)[1..] == v[1..] + rest;
  }

  /** Text without "<" and "&" in front of a tag, or of the end of the input, is read as its runs of
      characters other than white space, joined by single spaces. */
  lemma TrimmingReadsRaw(v: string, rest: string)
    requires IsRaw(v) && StopsText(rest) && v + rest != ""
    ensures ReadTrimming(v + rest, "<") == Partial(JoinWords(Runs(v)), Some(rest))
  {
    hide IsRaw, Squeeze, DropSpaces, ReadCondensing, Spaced, TrimLeft, Runs, Words, JoinWords;
    var u := RawDrops(v, rest);
    RawSqueezes(u, rest, false);
    RunsAreWords(v);
    CondensedIsJoinedWords(Spaced(v));
  }
}
