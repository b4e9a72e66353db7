/** What one pass of the tokenizer makes of a list of lexical tokens, as a function. */
module TokenMerging {
  import opened Characters

  /** The lexical values the tokenizer tells apart; the others all count as other. */
  datatype Lexico =
    | LexNull | LexSpace | LexSlash | LexDot | LexColon | LexLt | LexGt | LexEqual | LexExclam
    | Lex2Colon | Lex2Slash | Lex2Dot | LexNotEqual | LexLtEqual | LexGtEqual
    | LexOther(code: nat)

  datatype Token = Token(kind: Lexico, literal: string)

  /** The token two neighbours make, if they do. */
  function Merged(a: Lexico, b: Lexico): Option<Token> {
    match (a, b)
    case (LexColon, LexColon) => Some(Token(Lex2Colon, "::"))
    case (LexSlash, LexSlash) => Some(Token(Lex2Slash, "//"))
    case (LexExclam, LexEqual) => Some(Token(LexNotEqual, "!="))
    case (LexLt, LexEqual) => Some(Token(LexLtEqual, "<="))
    case (LexGt, LexEqual) => Some(Token(LexGtEqual, ">="))
    case (LexDot, LexDot) => Some(Token(Lex2Dot, ".."))
    case _ => None
  }

  /** One pass from left to right: pairs become one token and spaces go, but the last token stays
      whatever it is. */
  function Merge(t: seq<Token>): (r: seq<Token>)
    ensures |r| <= |t|
  {
    if |t| <= 1 then t
    else
      match Merged(t[0].kind, t[1].kind)
      case Some(both) => [both] + Merge(t[2..])
      case None => if t[0].kind == LexSpace then Merge(t[1..]) else [t[0]] + Merge(t[1..])
  }

  // ---- Spaces ----

  /** The tokens that are not spaces, and the last one. */
  function DropInner(t: seq<Token>): seq<Token> {
    if |t| <= 1 then t
    else if t[0].kind == LexSpace then DropInner(t[1..])
    else [t[0]] + DropInner(t[1..])
  }

  /** After the pass only the last token can be a space, and it is one exactly when the list ended
      in one. */
  lemma {:induction false} MergeKeepsLastSpace(t: seq<Token>)
    ensures var r := Merge(t);
            && (r == [] <==> t == [])
            && (forall i :: 0 <= i < |r| - 1 ==> r[i].kind != LexSpace)
            && (t != [] ==> (r[|r| - 1].kind == LexSpace <==> t[|t| - 1].kind == LexSpace))
    decreases |t|
  {
    hide Merge, DropInner;
    if |t| > 1 {
      MergeSteps(t);
      MergedIsNoSpace(t[0].kind, t[1].kind);
      hide Merged;
      if Merged(t[0].kind, t[1].kind).Some? {
        MergeKeepsLastSpace(t[2..]);
      } else {
        MergeKeepsLastSpace(t[1..]);
      }
    } else {
      MergeShort(t);
    }
  }

  lemma MergedIsNoSpace(a: Lexico, b: Lexico)
    ensures Merged(a, b).Some? ==> Merged(a, b).value.kind != LexSpace && b != LexSpace
  {
  }

  // ---- Text ----

  /** The text of every kind that has only one. */
  function Spelling(kind: Lexico): Option<string> {
    match kind
    case LexSlash => Some("/")
    case LexDot => Some(".")
    case LexColon => Some(":")
    case LexLt => Some("<")
    case LexGt => Some(">")
    case LexEqual => Some("=")
    case LexExclam => Some("!")
    case Lex2Colon => Some("::")
    case Lex2Slash => Some("//")
    case Lex2Dot => Some("..")
    case LexNotEqual => Some("!=")
    case LexLtEqual => Some("<=")
    case LexGtEqual => Some(">=")
    case _ => None
  }

  /** The literal is the text of the kind. */
  predicate IsSpelled(t: Token) {
    Spelling(t.kind).Some? ==> t.literal == Spelling(t.kind).value
  }

  function Text(t: seq<Token>): string {
    if t == [] then "" else t[0].literal + Text(t[1..])
  }

  lemma MergedText(a: Token, b: Token)
    requires IsSpelled(a) && IsSpelled(b) && Merged(a.kind, b.kind).Some?
    ensures Merged(a.kind, b.kind).value.literal == a.literal + b.literal
    ensures a.kind != LexSpace && b.kind != LexSpace
  {
  }

  /** The pass loses only the text of the spaces it drops. */
  lemma {:induction false} MergeKeepsText(t: seq<Token>)
    requires forall i :: 0 <= i < |t| ==> IsSpelled(t[i])
    ensures Text(Merge(t)) == Text(DropInner(t))
    decreases |t|
  {
    hide IsSpelled, Merge, Merged, DropInner, Spelling;
    if |t| > 1 {
      MergeSteps(t);
      match Merged(t[0].kind, t[1].kind) {
        case Some(both) =>
          MergedText(t[0], t[1]);
          MergeKeepsText(t[2..]);
          TextStep(both, Merge(t[2..]));
          DropPair(t);
        case None =>
          MergeKeepsText(t[1..]);
          TextStep(t[0], Merge(t[1..]));
          TextStep(t[0], DropInner(t[1..]));
      }
    } else {
      MergeShort(t);
    }
  }

  lemma MergeShort(t: seq<Token>)
    requires |t| <= 1
    ensures Merge(t) == t && DropInner(t) == t
  {
  }

  lemma MergeSteps(t: seq<Token>)
    requires |t| > 1
    ensures var both := Merged(t[0].kind, t[1].kind);
            Merge(t) == if both.Some? then [both.value] + Merge(t[2..])
                        else if t[0].kind == LexSpace then Merge(t[1..])
                        else [t[0]] + Merge(t[1..])
    ensures DropInner(t) == if t[0].kind == LexSpace then DropInner(t[1..]) else [t[0]] + DropInner(t[1..])
  {
    hide Merged;
  }

  lemma TextStep(a: Token, t: seq<Token>)
    ensures Text([a] + t) == a.literal + Text(t)
  {
    assert ([a] + t)[1..] == t;
  }

  lemma DropPair(t: seq<Token>)
    requires |t| > 1 && t[0].kind != LexSpace && t[1].kind != LexSpace
    ensures Text(DropInner(t)) == t[0].literal + (t[1].literal + Text(DropInner(t[2..])))
  {
    var u := t[1..];
    assert DropInner(t)[1..] == DropInner(u);
    if |u| > 1 {
      assert u[1..] == t[2..] && DropInner(u)[1..] == DropInner(t[2..]);
    } else {
      assert t[2..] == [] && u[1..] == [];
    }
  }

  // ---- Spelling ----

  /** Two neighbours become one token exactly when their texts together are the text of a kind, and it
      is of that kind. */
  lemma PairsBySpelling(a: Lexico, b: Lexico, c: Lexico)
    ensures Merged(a, b).Some? && Merged(a, b).value.kind == c <==>
            && Spelling(a).Some? && Spelling(b).Some? && Spelling(c) == Some(Spelling(a).value + Spelling(b).value)
    ensures Merged(a, b).Some? ==> IsSpelled(Merged(a, b).value)
  {
    MergedMeans(a, b);
    if Spelling(a).Some? && Spelling(b).Some? && Spelling(c) == Some(Spelling(a).value + Spelling(b).value) {
      var x, y, z := Spelling(a).value, Spelling(b).value, Spelling(c).value;
      OfOneCharacter(a);
      OfOneCharacter(b);
      OfTwoCharacters(c);
      hide Spelling, Merged;
      assert |z| == |x| + |y| && z[0] == x[0] && z[|x|] == y[0];
      PairOfTwo(a, b, c);
    }
  }

  lemma MergedMeans(a: Lexico, b: Lexico)
    ensures var both := Merged(a, b);
            both.Some? ==>
              && Spelling(a).Some? && Spelling(b).Some? && Spelling(both.value.kind) == Some(both.value.literal)
              && both.value.literal == Spelling(a).value + Spelling(b).value
  {
  }

  lemma OfOneCharacter(a: Lexico)
    ensures var s := Spelling(a);
            s.Some? ==>
              && 1 <= |s.value| <= 2
              && (|s.value| == 1 ==>
                    && (s.value[0] == '/' <==> a == LexSlash) && (s.value[0] == '.' <==> a == LexDot)
                    && (s.value[0] == ':' <==> a == LexColon) && (s.value[0] == '<' <==> a == LexLt)
                    && (s.value[0] == '>' <==> a == LexGt) && (s.value[0] == '=' <==> a == LexEqual)
                    && (s.value[0] == '!' <==> a == LexExclam))
  {
  }

  lemma OfTwoCharacters(c: Lexico)
    ensures Spelling(c).Some? && |Spelling(c).value| == 2 ==>
              var z := Spelling(c).value;
              || (c == Lex2Colon && z[0] == z[1] == ':') || (c == Lex2Slash && z[0] == z[1] == '/')
              || (c == Lex2Dot && z[0] == z[1] == '.') || (c == LexNotEqual && z[0] == '!' && z[1] == '=')
              || (c == LexLtEqual && z[0] == '<' && z[1] == '=') || (c == LexGtEqual && z[0] == '>' && z[1] == '=')
  {
  }

  lemma PairOfTwo(a: Lexico, b: Lexico, c: Lexico)
    requires || (c == Lex2Colon && a == b == LexColon) || (c == Lex2Slash && a == b == LexSlash)
             || (c == Lex2Dot && a == b == LexDot) || (c == LexNotEqual && a == LexExclam && b == LexEqual)
             || (c == LexLtEqual && a == LexLt && b == LexEqual) || (c == LexGtEqual && a == LexGt && b == LexEqual)
    ensures Merged(a, b).Some? && Merged(a, b).value.kind == c
  {
  }

  /** The pass keeps the spelling of the tokens. */
  lemma {:induction false} MergeKeepsSpelling(t: seq<Token>)
    requires forall i :: 0 <= i < |t| ==> IsSpelled(t[i])
    ensures forall i :: 0 <= i < |Merge(t)| ==> IsSpelled(Merge(t)[i])
    decreases |t|
  {
    hide IsSpelled, Merge, Merged, DropInner;
    if |t| > 1 {
      MergeSteps(t);
      var both := Merged(t[0].kind, t[1].kind);
      if both.Some? {
        PairsBySpelling(t[0].kind, t[1].kind, both.value.kind);
        MergeKeepsSpelling(t[2..]);
      } else {
        MergeKeepsSpelling(t[1..]);
      }
    } else {
      MergeShort(t);
    }
  }

  // ---- One pass is not always enough ----

  /** Nothing to merge and nothing to drop. */
  predicate Settled(t: seq<Token>) {
    forall i :: 0 <= i < |t| - 1 ==> t[i].kind != LexSpace && Merged(t[i].kind, t[i + 1].kind).None?
  }

  /** The pass leaves a list alone exactly when it is settled. */
  lemma {:induction false} MergeFixes(t: seq<Token>)
    ensures Merge(t) == t <==> Settled(t)
    decreases |t|
  {
    if |t| > 1 {
      var u := t[1..];
      if Merged(t[0].kind, t[1].kind).None? && t[0].kind != LexSpace {
        MergeFixes(u);
        assert t == [t[0]] + u && Merge(t)[1..] == Merge(u);
        SettledStep(t);
      } else {
        assert |Merge(t)| < |t|;
      }
    }
  }

  lemma SettledStep(t: seq<Token>)
    requires |t| > 1
    ensures Settled(t) <==> t[0].kind != LexSpace && Merged(t[0].kind, t[1].kind).None? && Settled(t[1..])
  {
    var u := t[1..];
    assert forall i :: 0 <= i < |u| ==> u[i] == t[i + 1];
    if t[0].kind != LexSpace && Merged(t[0].kind, t[1].kind).None? && Settled(u) {
      forall i | 0 <= i < |t| - 1 ensures t[i].kind != LexSpace && Merged(t[i].kind, t[i + 1].kind).None? {
        if i > 0 {
          assert t[i] == u[i - 1] && t[i + 1] == u[i];
        }
      }
    }
  }

  /** The kind of the token the pass puts first. */
  function Lead(t: seq<Token>): Lexico
    requires t != []
  {
    if |t| == 1 then t[0].kind
    else
      match Merged(t[0].kind, t[1].kind)
      case Some(both) => both.kind
      case None => if t[0].kind == LexSpace then Lead(t[1..]) else t[0].kind
  }

  /** A token that stays is followed, across dropped spaces, by one that it makes a pair with. */
  predicate SpacedPair(t: seq<Token>) {
    if |t| <= 1 then false
    else if Merged(t[0].kind, t[1].kind).Some? then SpacedPair(t[2..])
    else if t[0].kind == LexSpace then SpacedPair(t[1..])
    else Merged(t[0].kind, Lead(t[1..])).Some? || SpacedPair(t[1..])
  }

  lemma {:induction false} LeadIsFirst(t: seq<Token>)
    requires t != []
    ensures Merge(t) != [] && Merge(t)[0].kind == Lead(t)
    decreases |t|
  {
    hide Merged;
    if |t| > 1 {
      LeadIsFirst(t[1..]);
    }
  }

  /** A pair is no part of another pair. */
  lemma PairStays(a: Lexico, b: Lexico, c: Lexico)
    requires Merged(a, b).Some?
    ensures Merged(Merged(a, b).value.kind, c).None?
  {
  }

  /** What the pass leaves is settled exactly when no token meets a partner across dropped spaces. */
  lemma {:induction false} SettledUnlessSpaced(t: seq<Token>)
    ensures Settled(Merge(t)) <==> !SpacedPair(t)
    decreases |t|
  {
    hide Merge, Merged, Settled;
    if |t| <= 1 {
      MergeShort(t);
      ShortIsSettled(t);
    } else {
      MergeSteps(t);
      match Merged(t[0].kind, t[1].kind) {
        case Some(both) =>
          SettledUnlessSpaced(t[2..]);
          MergedIsNoSpace(t[0].kind, t[1].kind);
          if Merge(t[2..]) != [] {
            PairStays(t[0].kind, t[1].kind, Merge(t[2..])[0].kind);
          } else {
            ShortIsSettled(Merge(t[2..]));
          }
          SettledBehind(both, Merge(t[2..]));
        case None =>
          SettledUnlessSpaced(t[1..]);
          LeadIsFirst(t[1..]);
          SettledBehind(t[0], Merge(t[1..]));
      }
    }
  }

  lemma ShortIsSettled(t: seq<Token>)
    requires |t| <= 1
    ensures Settled(t)
  {
  }

  /** A list is settled behind one more token. */
  lemma SettledBehind(a: Token, t: seq<Token>)
    ensures Settled([a] + t) <==> t == [] || (a.kind != LexSpace && Merged(a.kind, t[0].kind).None? && Settled(t))
  {
    hide Merged;
    if t == [] {
      ShortIsSettled([a] + t);
    } else {
      assert ([a] + t)[1..] == t;
      SettledStep([a] + t);
    }
  }

  /** One pass is enough exactly when no token meets a partner across dropped spaces. */
  lemma SecondPassMerges(t: seq<Token>)
    ensures Merge(Merge(t)) == Merge(t) <==> !SpacedPair(t)
  {
    MergeFixes(Merge(t));
    SettledUnlessSpaced(t);
  }

  /** A dropped space leaves a pair behind that only a second pass merges. */
  lemma SpacedColons()
    ensures var t := [Token(LexColon, ":"), Token(LexSpace, " "), Token(LexColon, ":")];
            SpacedPair(t) && Merge(t) == [t[0], t[2]] && Merge(Merge(t)) == [Token(Lex2Colon, "::")]
  {
    var t := [Token(LexColon, ":"), Token(LexSpace, " "), Token(LexColon, ":")];
    var u := [t[1], t[2]];
    assert t[1..] == u && u[1..] == [t[2]];
    assert Merge(u) == [t[2]];
    assert Merge(t) == [t[0]] + [t[2]] == [t[0], t[2]];
    assert [t[0], t[2]][2..] == [];
  }
}
