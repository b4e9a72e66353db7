/** `ReadText`: character data up to an end tag, kept as it is or condensed. */
module CharacterData {
  import opened Characters
  import opened Entities

  /** `SkipWhiteSpace` on text that has not ended. */
  function DropSpaces(s: string): (r: string)
    ensures |r| <= |s| && r == s[|s| - |r|..]
    ensures r != "" ==> !IsWhiteSpace(r[0])
  {
    if s != "" && IsWhiteSpace(s[0]) then DropSpaces(s[1..]) else s
  }

  /** Text that was read, and what is left to read behind it. Nothing is left after a malformed
      entity, or when the text ended before its end tag. */
  datatype Partial = Partial(text: string, rest: Option<string>)

  /** `ReadText` that keeps white space: reads past `end`. */
  function ReadKeeping(s: string, end: string): (r: Partial)
    requires end != ""
    ensures r.rest.Some? ==> |r.rest.value| < |s|
  {
    if s == "" then Partial("", None)
    else if end <= s then Partial("", Some(s[|end|..]))
    else
      match DecodeChar(s)
      case None => Partial("", None)
      case Some(head) =>
        var tail := ReadKeeping(head.rest, end);
        Partial(head.text + tail.text, tail.rest)
  }

  /** The condensing loop of `ReadText`; `pending` is its flag `whitespace`. It stops at `end`
      or at the end of the input. */
  function ReadCondensing(s: string, end: string, pending: bool): (r: Partial)
    requires end != ""
    ensures r.rest.Some? ==> |r.rest.value| <= |s|
    decreases |s|
  {
    if s == "" || end <= s then Partial("", Some(s))
    else if IsWhiteSpace(s[0]) then ReadCondensing(s[1..], end, true)
    else
      var blank := if pending then " " else "";
      match DecodeChar(s)
      case None => Partial(blank, None)
      case Some(head) =>
        var tail := ReadCondensing(head.rest, end, false);
        Partial(blank + head.text + tail.text, tail.rest)
  }

  function ReadTrimming(s: string, end: string): (r: Partial)
    requires end != ""
    ensures r.rest.Some? ==> |r.rest.value| <= |s|
  {
    if s == "" then Partial("", None) else ReadCondensing(DropSpaces(s), end, false)
  }

  // ---- Text that contains no hexadecimal reference ----

  predicate HasReference(s: string) {
    s != "" && (StartsReference(s) || HasReference(s[1..]))
  }

  lemma {:induction false} HasReferenceMeaning(s: string)
    ensures HasReference(s) <==> Contains(s, "&#x")
  {
    if s != "" {
      HasReferenceMeaning(s[1..]);
      var t := s[1..];
      if HasReference(s) {
        if StartsReference(s) {
          assert "&#x" <= s[0..];
        } else {
          var i :| 0 <= i <= |t| - 3 && "&#x" <= t[i..];
          assert t[i..] == s[i + 1..];
        }
      }
      if Contains(s, "&#x") {
        var i :| 0 <= i <= |s| - 3 && "&#x" <= s[i..];
        if i > 0 {
          assert t[i - 1..] == s[i..];
        } else {
          assert s[0..] == s && "&#x"[0] == s[0] && "&#x"[1] == s[1] && "&#x"[2] == s[2];
        }
      }
    }
  }

  predicate IsQuote(q: char) {
    q == '"' || q == '\''
  }

  lemma EncodeCharStart(c: char, rest: string)
    ensures EncodeChar(c) + rest != "" && (EncodeChar(c) + rest)[0] == (if EncodeChar(c) == [c] then c else '&')
  {
  }

  lemma EncodeUnfolds(v: string, rest: string)
    requires v != "" && !StartsReference(v)
    ensures Encode(v) + rest == EncodeChar(v[0]) + (Encode(v[1..]) + rest)
  {
    hide EncodeChar, RunEnd, StartsReference;
    assert Encode(v) == EncodeChar(v[0]) + Encode(v[1..]);
    hide Encode;
  }

  lemma EncodedStart(v: string, rest: string)
    requires v != "" && !StartsReference(v)
    ensures Encode(v) + rest == EncodeChar(v[0]) + (Encode(v[1..]) + rest)
    ensures Encode(v) + rest != "" && (Encode(v) + rest)[0] == (if EncodeChar(v[0]) == [v[0]] then v[0] else '&')
    ensures DecodeChar(Encode(v) + rest) == Some(Chunk([v[0]], Encode(v[1..]) + rest))
  {
    hide Encode, EncodeChar, DecodeChar, StartsReference;
    EncodeUnfolds(v, rest);
    EncodeCharStart(v[0], Encode(v[1..]) + rest);
    DecodeEncodedChar(v[0], Encode(v[1..]) + rest);
  }

  lemma EncodedNotQuote(v: string, rest: string, q: char)
    requires v != "" && !StartsReference(v) && IsQuote(q)
    ensures Encode(v) + rest != "" && (Encode(v) + rest)[0] != q
  {
    hide Encode, DecodeChar;
    EncodedStart(v, rest);
  }

  /** One character of an encoded value. */
  lemma KeepingStep(v: string, tail: string)
    requires v != "" && !StartsReference(v) && tail != "" && IsQuote(tail[0])
    ensures var next := ReadKeeping(Encode(v[1..]) + tail, [tail[0]]);
            ReadKeeping(Encode(v) + tail, [tail[0]]) == Partial([v[0]] + next.text, next.rest)
  {
    hide Encode, DecodeChar, StartsReference;
    EncodedStart(v, tail);
    EncodedNotQuote(v, tail, tail[0]);
  }

  /** An encoded value reads back exactly, up to just past its closing quote. */
  lemma {:induction false} KeepingReadsEncoded(v: string, tail: string)
    requires !HasReference(v) && tail != "" && IsQuote(tail[0])
    ensures ReadKeeping(Encode(v) + tail, [tail[0]]) == Partial(v, Some(tail[1..]))
  {
    if v == "" {
      assert Encode(v) + tail == tail;
    } else {
      hide Encode, ReadKeeping;
      KeepingStep(v, tail);
      KeepingReadsEncoded(v[1..], tail);
      assert [v[0]] + v[1..] == v;
    }
  }

  // ---- Text that does contain one: the exact condition ----

  /** The shape of the encoding of a character other than ';': itself, or closed by the
      only ';' in it. */
  lemma EncodeCharShape(c: char)
    requires c != ';'
    ensures var e := EncodeChar(c);
            |e| >= 1 && (forall j :: 0 <= j < |e| - 1 ==> e[j] != ';') && (e[|e| - 1] == ';' <==> |e| > 1)
  {
  }

  /** The first ';' from position 3 on lies at the end of `e` or behind the start of `tail`. */
  lemma SemicolonBehind(pre: string, e: string, tail: string, q: nat)
    requires |pre| >= 2 && forall j :: 3 <= j < |pre| ==> pre[j] != ';'
    requires |e| >= 1 && forall j :: 0 <= j < |e| - 1 ==> e[j] != ';'
    requires e[|e| - 1] == ';' <==> |e| > 1
    requires tail == "" || tail[0] != ';'
    requires |pre + e + tail| > 3 && IndexOf(pre + e + tail, ';', 3) == Some(q)
    ensures (pre + e + tail)[q + 1..] == tail || |(pre + e + tail)[q + 1..]| + 1 < |tail|
  {
    var s := pre + e + tail;
    var n := |pre| + |e|;
    assert forall j :: 0 <= j < |pre| ==> s[j] == pre[j];
    assert forall j :: |pre| <= j < n ==> s[j] == e[j - |pre|];
    assert forall j :: n <= j < |s| ==> s[j] == tail[j - n];
    assert q >= n - 1;
    if q == n - 1 {
      assert s[n..] == tail;
    } else {
      assert q != n;
    }
  }

  lemma RunSplit(v: string)
    requires StartsReference(v)
    ensures var k := RunEnd(v, 1);
            k >= 2 && Encode(v) == v[..k] + (EncodeChar(v[k]) + Encode(v[k + 1..]))
            && (v[k] == ';' ==> k >= 3) && (v[k] != ';' ==> Encode(v[k + 1..]) == "")
  {
    var k := RunEnd(v, 1);
    assert v[k..] != "" && v[k..][0] == v[k] && v[k..][1..] == v[k + 1..];
    assert !StartsReference(v[k..]);
  }

  /** What reading does at a passed-through run: it fails, or swallows the run into one
      character, or runs on into the text behind the value. */
  lemma ReferenceRun(v: string, tail: string)
    requires StartsReference(v) && (tail == "" || tail[0] != ';')
    ensures Encode(v) + tail != "" && (Encode(v) + tail)[0] == '&'
    ensures var k := RunEnd(v, 1);
            var head := DecodeChar(Encode(v) + tail);
            head.Some? ==>
              |head.value.text| == 1
              && ((k >= 3 && head.value.rest == Encode(v[k + 1..]) + tail)
                  || head.value.rest == tail
                  || |head.value.rest| + 1 < |tail|)
  {
    var k := RunEnd(v, 1);
    var s := Encode(v) + tail;
    RunSplit(v);
    assert s[0] == '&' && s[1] == '#';
    RunMarker(v, tail);
    if |s| > 3 {
      match IndexOf(s, ';', 3) {
        case None =>
        case Some(q) => RunSemicolon(v, tail, q);
      }
    }
  }

  lemma RunMarker(v: string, tail: string)
    requires StartsReference(v)
    ensures |Encode(v) + tail| >= 3 && (Encode(v) + tail)[2] == 'x'
  {
    var k := RunEnd(v, 1);
    RunSplit(v);
    if k == 2 {
      assert EncodeChar(v[k]) == "x";
    }
  }

  lemma RunSemicolon(v: string, tail: string, q: nat)
    requires StartsReference(v) && (tail == "" || tail[0] != ';')
    requires |Encode(v) + tail| > 3 && IndexOf(Encode(v) + tail, ';', 3) == Some(q)
    ensures var k := RunEnd(v, 1);
            var rest := (Encode(v) + tail)[q + 1..];
            (k >= 3 && rest == Encode(v[k + 1..]) + tail) || rest == tail || |rest| + 1 < |tail|
  {
    hide Encode, EncodeChar, IndexOf;
    var k := RunEnd(v, 1);
    RunSplit(v);
    SplitSemicolon(v[..k], v[k], Encode(v[k + 1..]), tail, q);
  }

  lemma SplitSemicolon(pre: string, c: char, after: string, tail: string, q: nat)
    requires |pre| >= 2 && forall j :: 3 <= j < |pre| ==> pre[j] != ';'
    requires c == ';' ==> |pre| >= 3
    requires c != ';' ==> after == ""
    requires tail == "" || tail[0] != ';'
    requires |pre + (EncodeChar(c) + after) + tail| > 3
    requires IndexOf(pre + (EncodeChar(c) + after) + tail, ';', 3) == Some(q)
    ensures var rest := (pre + (EncodeChar(c) + after) + tail)[q + 1..];
            if c == ';' then rest == after + tail else rest == tail || |rest| + 1 < |tail|
  {
    var e := EncodeChar(c);
    var s := pre + (e + after) + tail;
    if c == ';' {
      assert s == pre + ";" + (after + tail);
      SemicolonAt(pre, after + tail, q);
    } else {
      EncodeCharShape(c);
      assert s == pre + e + tail;
      SemicolonBehind(pre, e, tail, q);
    }
  }

  lemma SemicolonAt(pre: string, after: string, q: nat)
    requires |pre| >= 3 && forall j :: 3 <= j < |pre| ==> pre[j] != ';'
    requires IndexOf(pre + ";" + after, ';', 3) == Some(q)
    ensures (pre + ";" + after)[q + 1..] == after
  {
    var s := pre + ";" + after;
    assert forall j :: 0 <= j < |pre| ==> s[j] == pre[j];
    assert s[|pre|] == ';';
    assert q == |pre|;
  }

  lemma RunEndInside(v: string)
    requires StartsReference(v)
    ensures 2 <= RunEnd(v, 1) < |v| && |v| >= 3
  {
    RunSplit(v);
  }

  /** Reading on from a passed-through run. */
  lemma KeepingRun(v: string, tail: string)
    requires StartsReference(v) && tail != "" && IsQuote(tail[0])
    ensures var k := RunEnd(v, 1);
            var r := ReadKeeping(Encode(v) + tail, [tail[0]]);
            r.rest.Some? && |r.rest.value| + 1 >= |tail| ==>
              || (r.text != "" && |r.text| == 1)
              || (k >= 3 && r.rest == ReadKeeping(Encode(v[k + 1..]) + tail, [tail[0]]).rest
                  && |r.text| == 1 + |ReadKeeping(Encode(v[k + 1..]) + tail, [tail[0]]).text|)
  {
    hide Encode, DecodeChar, RunEnd, StartsReference;
    ReferenceRun(v, tail);
    var q := [tail[0]];
    assert !(q <= Encode(v) + tail);
    assert ReadKeeping(tail, q) == Partial("", Some(tail[1..]));
  }

  /** Reading an encoded value never yields more characters than it has, and yields fewer
      when it holds a reference, unless reading ran on past the closing quote. */
  lemma {:induction false} KeepingBound(v: string, tail: string)
    requires tail != "" && IsQuote(tail[0])
    ensures var r := ReadKeeping(Encode(v) + tail, [tail[0]]);
            r.rest.Some? && |r.rest.value| + 1 >= |tail| ==>
              |r.text| + (if HasReference(v) then 1 else 0) <= |v|
    decreases |v|
  {
    hide Encode, ReadKeeping, RunEnd, StartsReference;
    if v == "" {
      KeepingReadsEncoded(v, tail);
    } else if StartsReference(v) {
      KeepingRun(v, tail);
      RunEndInside(v);
      KeepingBound(v[RunEnd(v, 1) + 1..], tail);
    } else {
      KeepingStep(v, tail);
      KeepingBound(v[1..], tail);
    }
  }

  /** An attribute value survives printing and reading exactly when it holds no "&#x". */
  lemma KeepingSurvives(v: string, tail: string)
    requires tail != "" && IsQuote(tail[0])
    ensures ReadKeeping(Encode(v) + tail, [tail[0]]) == Partial(v, Some(tail[1..])) <==> !HasReference(v)
  {
    if HasReference(v) {
      KeepingBound(v, tail);
    } else {
      KeepingReadsEncoded(v, tail);
    }
  }

  // ---- Values that are written without being encoded ----

  /** A "&" yields fewer characters than are read for it. */
  lemma DecodeCost(s: string)
    requires s != ""
    ensures var head := DecodeChar(s);
            head.Some? ==>
              && |head.value.text| + |head.value.rest| + (if s[0] == '&' then 1 else 0) <= |s|
              && (s[0] != '&' ==> head.value == Chunk([s[0]], s[1..]))
  {
  }

  /** Reading up to a closing quote yields at most a character for each that is read, and fewer where
      there is a "&". */
  lemma {:induction false} KeepingCost(s: string, q: char)
    ensures var r := ReadKeeping(s, [q]);
            r.rest.Some? ==>
              var n := |s| - |r.rest.value| - 1;
              && 0 <= n < |s| && |r.text| + (if '&' in s[..n] then 1 else 0) <= n
              && ('&' !in s[..n] ==> q !in s[..n])
  {
    hide DecodeChar;
    var r := ReadKeeping(s, [q]);
    if r.rest.Some? && !([q] <= s) {
      DecodeCost(s);
      var head := DecodeChar(s).value;
      KeepingCost(head.rest, q);
      var n, k := |s| - |r.rest.value| - 1, |s| - |head.rest|;
      assert s[..n] == s[..k] + head.rest[..n - k];
    }
  }

  /** A value that is written as it is, up to a closing quote, comes back exactly when there is no "&"
      and no such quote in it. */
  lemma RawSurvives(v: string, q: char, tail: string)
    requires q != '&'
    ensures ReadKeeping(v + ([q] + tail), [q]) == Partial(v, Some(tail)) <==> q !in v && '&' !in v
  {
    var s := v + ([q] + tail);
    if ReadKeeping(s, [q]) == Partial(v, Some(tail)) {
      KeepingCost(s, q);
      assert s[..|v|] == v;
    }
    if q !in v && '&' !in v {
      KeepingVerbatim(v, q, tail);
    }
  }

  lemma {:induction false} KeepingVerbatim(v: string, q: char, tail: string)
    requires q !in v && '&' !in v
    ensures ReadKeeping(v + ([q] + tail), [q]) == Partial(v, Some(tail))
  {
    var s := v + ([q] + tail);
    if v == "" {
      assert s == [q] + tail && s[1..] == tail;
    } else {
      assert s[0] == v[0] && s[1..] == v[1..] + ([q] + tail);
      KeepingVerbatim(v[1..], q, tail);
      assert [v[0]] + v[1..] == v;
    }
  }
}
