/** `token_list` and `lex_token`: a circular list of tokens through a sentinel, with a cursor. The
    ring of real tokens is passed to the methods as a ghost sequence. */
module TokenRing {
  import opened Characters
  import opened TokenMerging
  import opened Rings

  class LexToken {
    var kind: Lexico
    var literal: string
    var next: LexToken?
    var prev: LexToken?

    constructor (kind: Lexico, literal: string)
      ensures Content() == Token(kind, literal) && next == null && prev == null
    {
      this.kind := kind;
      this.literal := literal;
      next, prev := null, null;
    }

    function Content(): Token
      reads this
    {
      Token(kind, literal)
    }

    predicate IsValid()
      reads this
    {
      kind != LexNull
    }

    /** `v_set`. */
    method Set(kind: Lexico, literal: string)
      modifies this`kind, this`literal
      ensures Content() == Token(kind, literal)
    {
      this.kind := kind;
      this.literal := literal;
    }

    /** `ltp_get_next(int)`: the token so many steps on, unless the sentinel is met. */
    method GetNext(nb: nat, ghost c: seq<LexToken>, ghost i: nat) returns (r: LexToken?)
      requires i + 1 < |c| && c[i] == this && Open(c, LinksOf(c))
      ensures r == if nb == 0 then this else if i + nb < |c| - 1 then c[i + nb] else null
    {
      r := this;
      var steps := 0;
      while steps < nb
        invariant 0 <= steps <= nb && r != null && i + steps < |c| - 1 && r == c[i + steps]
      {
        assert LinksOf(c)[i + steps].next == c[i + steps + 1];
        assert LinksOf(c)[i + steps + 1].valid <==> i + steps + 1 < |c| - 1;
        r := r.next;
        if r == null || !r.IsValid() {
          return null;
        }
        steps := steps + 1;
      }
    }
  }

  /** What the ring rests on in one token. */
  datatype Link = Link(next: LexToken?, prev: LexToken?, valid: bool)

  ghost function LinksOf(c: seq<LexToken>): (l: seq<Link>)
    reads c
    ensures |l| == |c| && forall i {:trigger l[i]} :: 0 <= i < |c| ==> l[i] == Link(c[i].next, c[i].prev, c[i].IsValid())
  {
    seq(|c|, i requires 0 <= i < |c| reads c => Link(c[i].next, c[i].prev, c[i].IsValid()))
  }

  /** The tokens of an opened ring are chained both ways, and all but the ends are valid. */
  ghost predicate Open(c: seq<LexToken>, l: seq<Link>) {
    && |c| == |l| >= 2 && !l[|c| - 1].valid
    && (forall i {:trigger l[i].next} :: 0 <= i < |c| - 1 ==> l[i].next == c[i + 1])
    && (forall i {:trigger l[i].prev} :: 0 < i < |c| ==> l[i].prev == c[i - 1])
    && (forall i {:trigger l[i].valid} :: 0 < i < |c| - 1 ==> l[i].valid)
  }

  ghost function Contents(ring: seq<LexToken>): (r: seq<Token>)
    reads ring
    ensures |r| == |ring| && forall i :: 0 <= i < |r| ==> r[i] == ring[i].Content()
  {
    if ring == [] then [] else [ring[0].Content()] + Contents(ring[1..])
  }

  /** All different, but that the last is the first again. */
  ghost predicate ClosedDistinct(c: seq<LexToken>) {
    forall i, j :: 0 <= i < j < |c| - 1 ==> c[i] != c[j]
  }

  lemma CycleAt(sentinel: LexToken, ring: seq<LexToken>)
    ensures var c := Cycle(sentinel, ring);
            && |c| == |ring| + 2 && c[0] == c[|ring| + 1] == sentinel
            && (forall i {:trigger ring[i]} :: 0 <= i < |ring| ==> c[i + 1] == ring[i])
  {
  }

  lemma CycleWithout(sentinel: LexToken, ring: seq<LexToken>, k: nat)
    requires k < |ring|
    ensures var c, d := Cycle(sentinel, ring), Cycle(sentinel, ring[..k] + ring[k + 1..]);
            |d| == |c| - 1 && forall i :: 0 <= i < |d| ==> d[i] == c[if i <= k then i else i + 1]
  {
  }

  lemma CycleAppended(sentinel: LexToken, ring: seq<LexToken>, token: LexToken)
    ensures var c, d := Cycle(sentinel, ring), Cycle(sentinel, ring + [token]);
            && |d| == |c| + 1
            && (forall i :: 0 <= i < |c| - 1 ==> d[i] == c[i])
            && d[|c| - 1] == token && d[|c|] == sentinel
  {
  }

  class TokenList {
    const first: LexToken
    var last: LexToken
    var current: LexToken?

    /** The empty list is a single sentinel. */
    constructor ()
      ensures fresh(this) && fresh(first) && IsRing([]) && last == first && current == null
    {
      var sentinel := new LexToken(LexNull, "");
      first := sentinel;
      last := sentinel;
      current := null;
      new;
      first.next := first;
      first.prev := first;
    }

    /** The tokens between the sentinel and itself are linked both ways, all different and valid. */
    ghost predicate IsRing(ring: seq<LexToken>)
      reads first, ring
    {
      var c := Cycle(first, ring);
      ClosedDistinct(c) && Open(c, LinksOf(c))
    }

    /** The pointer work of `v_add_token`. */
    method LinkLast(token: LexToken, ghost c: seq<LexToken>)
      requires |c| >= 2 && c[0] == first && last == c[|c| - 2] && ClosedDistinct(c)
      requires forall i :: 0 <= i < |c| - 1 ==> c[i] != token
      modifies this`last, token`next, token`prev, first`prev, last`next
      ensures token.next == first && token.prev == c[|c| - 2] && c[|c| - 2].next == token && first.prev == token && last == token
      ensures forall i {:trigger c[i].next} :: 0 <= i < |c| - 2 ==> c[i].next == old(c[i].next)
      ensures forall i {:trigger c[i].prev} :: 0 < i < |c| - 1 ==> c[i].prev == old(c[i].prev)
    {
      last.next := token;
      token.next := first;
      first.prev := token;
      token.prev := last;
      last := token;
    }

    /** Links a token in before the sentinel. */
    method Append(token: LexToken, ghost ring: seq<LexToken>)
      requires IsRing(ring) && last == (if ring == [] then first else ring[|ring| - 1])
      requires token !in ring && token != first && token.IsValid()
      modifies this`last, token`next, token`prev, first`next, first`prev, ring`next
      ensures IsRing(ring + [token]) && last == token
    {
      ghost var c, d := Cycle(first, ring), Cycle(first, ring + [token]);
      CycleAt(first, ring);
      CycleAppended(first, ring, token);
      ghost var l := LinksOf(c);
      assert !l[|c| - 1].valid && c[|c| - 1] == first;
      hide Cycle, ClosedDistinct, Open, LinksOf;
      DistinctAppended(c, d, token);
      LinkLast(token, c);
      OpenAppended(c, l, d, LinksOf(d), token);
    }

    /** `v_add_token`, as long as the last token has not been deleted. */
    method AddToken(kind: Lexico, literal: string, ghost ring: seq<LexToken>) returns (ghost ring': seq<LexToken>)
      requires IsRing(ring) && last == (if ring == [] then first else ring[|ring| - 1]) && kind != LexNull
      modifies this`last, first`next, first`prev, ring`next
      ensures ring <= ring' && |ring'| == |ring| + 1 && fresh(ring'[|ring|])
      ensures IsRing(ring') && Contents(ring') == old(Contents(ring)) + [Token(kind, literal)]
      ensures last == ring'[|ring|]
    {
      hide Contents, IsRing;
      ghost var before := Contents(ring);
      var token := new LexToken(kind, literal);
      Append(token, ring);
      ring' := ring + [token];
      assert Contents(ring') == before + [Token(kind, literal)];
    }

    // ---- The cursor ----

    /** Position `k` of the ring; the cursor may also stand nowhere. */
    ghost predicate At(ring: seq<LexToken>, k: nat)
      reads this`current
    {
      current == if k < |ring| then ring[k] else null
    }

    /** `v_set_current_top`. */
    method SetCurrentTop(ghost ring: seq<LexToken>)
      requires IsRing(ring)
      modifies this`current
      ensures At(ring, 0)
    {
      CycleAt(first, ring);
      current := first.GetNext(1, Cycle(first, ring), 0);
    }

    /** `ltp_get`. */
    method Get(offset: nat, ghost ring: seq<LexToken>, ghost k: nat) returns (r: LexToken?)
      requires IsRing(ring) && At(ring, k)
      ensures r == if k + offset < |ring| then ring[k + offset] else null
    {
      if current == null {
        return null;
      }
      CycleAt(first, ring);
      r := current.GetNext(offset, Cycle(first, ring), k + 1);
    }

    /** `v_inc_current`. */
    method IncCurrent(rel: nat, ghost ring: seq<LexToken>, ghost k: nat)
      requires IsRing(ring) && At(ring, k)
      modifies this`current
      ensures At(ring, k + rel)
    {
      if current == null {
        return;
      }
      CycleAt(first, ring);
      current := current.GetNext(rel, Cycle(first, ring), k + 1);
    }

    /** The pointer work of the two deletions. */
    method Unlink(token: LexToken, ghost before: LexToken, ghost after: LexToken, ghost c: seq<LexToken>, ghost k: nat)
      requires k + 2 < |c| && c[k + 1] == token && ClosedDistinct(c) && c[0] == c[|c| - 1]
      requires token.prev == before == c[k] && token.next == after == c[k + 2]
      modifies before`next, after`prev
      ensures c[k].next == c[k + 2] && c[k + 2].prev == c[k]
      ensures forall i {:trigger c[i].next} :: 0 <= i < |c| && c[i] != c[k] ==> c[i].next == old(c[i].next)
      ensures forall i {:trigger c[i].prev} :: 0 <= i < |c| && c[i] != c[k + 2] ==> c[i].prev == old(c[i].prev)
    {
      token.prev.next := token.next;
      token.next.prev := token.prev;
    }

    /** Takes the token at `k` out of the ring. */
    method Take(token: LexToken, ghost ring: seq<LexToken>, ghost k: nat)
      requires IsRing(ring) && k < |ring| && ring[k] == token
      modifies first`next, first`prev, ring`next, ring`prev
      ensures IsRing(ring[..k] + ring[k + 1..])
      ensures token.next == old(token.next) && token.prev == old(token.prev)
    {
      ghost var c, d := Cycle(first, ring), Cycle(first, ring[..k] + ring[k + 1..]);
      ghost var l := LinksOf(c);
      CycleAt(first, ring);
      CycleWithout(first, ring, k);
      assert l[k + 1].prev == c[k] && l[k + 1].next == c[k + 2];
      DifferentLinks(c, k);
      hide Cycle, Open, LinksOf;
      DistinctWithout(c, d, k);
      Unlink(token, c[k], c[k + 2], c, k);
      hide ClosedDistinct;
      OpenWithout(c, l, d, LinksOf(d), k);
    }

    /** `v_delete_current`: the cursor goes on to the next token, which may be the sentinel. */
    method DeleteCurrent(ghost ring: seq<LexToken>, ghost k: nat) returns (ghost ring': seq<LexToken>)
      requires IsRing(ring) && k < |ring| && current == ring[k]
      modifies this`current, first`next, first`prev, ring`next, ring`prev
      ensures ring' == ring[..k] + ring[k + 1..] && IsRing(ring')
      ensures Contents(ring') == old(Contents(ring))[..k] + old(Contents(ring))[k + 1..]
      ensures current == if k < |ring'| then ring'[k] else first
    {
      hide IsRing, Contents;
      ghost var before := Contents(ring);
      var temp := current;
      NeighboursOf(ring, k);
      Take(temp, ring, k);
      ring' := ring[..k] + ring[k + 1..];
      ContentsWithout(ring, before, k);
      current := temp.next;
    }

    /** `v_delete_next`. */
    method DeleteNext(ghost ring: seq<LexToken>, ghost k: nat) returns (ghost ring': seq<LexToken>)
      requires IsRing(ring) && k + 1 < |ring| && current == ring[k]
      modifies first`next, first`prev, ring`next, ring`prev
      ensures ring' == ring[..k + 1] + ring[k + 2..] && IsRing(ring')
      ensures Contents(ring') == old(Contents(ring))[..k + 1] + old(Contents(ring))[k + 2..]
    {
      hide IsRing, Contents;
      ghost var before := Contents(ring);
      NeighboursOf(ring, k);
      var temp := current.next;
      Take(temp, ring, k + 1);
      ring' := ring[..k + 1] + ring[k + 2..];
      ContentsWithout(ring, before, k + 1);
    }

    lemma NeighboursOf(ring: seq<LexToken>, k: nat)
      requires IsRing(ring) && k < |ring|
      ensures ring[k].next == if k + 1 < |ring| then ring[k + 1] else first
      ensures ring[k].prev == if k > 0 then ring[k - 1] else first
    {
      var c := Cycle(first, ring);
      CycleAt(first, ring);
      hide Cycle, ClosedDistinct;
      assert c[k + 1] == ring[k];
      assert LinksOf(c)[k + 1].next == c[k + 2] && LinksOf(c)[k + 1].prev == c[k];
      if k + 1 < |ring| {
        assert c[k + 2] == ring[k + 1];
      }
      if k > 0 {
        assert c[k] == ring[k - 1];
      }
    }

    /** `v_replace_current`. */
    method ReplaceCurrent(kind: Lexico, literal: string, ghost ring: seq<LexToken>, ghost k: nat)
      requires IsRing(ring) && k < |ring| && current == ring[k] && kind != LexNull
      modifies ring[k]
      ensures IsRing(ring) && Contents(ring) == old(Contents(ring))[k := Token(kind, literal)]
    {
      hide Contents;
      ghost var c, before := Cycle(first, ring), Contents(ring);
      ghost var l := LinksOf(c);
      CycleAt(first, ring);
      OnlyHere(c, ring, k);
      assert c[k + 1] == current && l[k + 1].valid;
      hide Cycle, LinksOf;
      current.Set(kind, literal);
      assert LinksOf(c) == l;
      assert Contents(ring) == before[k := Token(kind, literal)];
    }

    /** The destructor's loop: it leaves only the sentinel. */
    method Clear(ghost ring: seq<LexToken>)
      requires IsRing(ring)
      modifies this`current, first`next, first`prev, ring`next, ring`prev
      ensures IsRing([]) && first.next == first && first.prev == first
    {
      hide IsRing;
      ghost var left := ring;
      EndsOf(ring);
      current := first.next;
      while current.IsValid()
        invariant IsRing(left) && current == (if left == [] then first else left[0])
        invariant current.IsValid() <==> left != []
        invariant forall i :: 0 <= i < |left| ==> left[i] in ring
        decreases |left|
      {
        left := DeleteCurrent(left, 0);
        EndsOf(left);
      }
      EndsOf([]);
    }

    lemma EndsOf(ring: seq<LexToken>)
      requires IsRing(ring)
      ensures first.next == (if ring == [] then first else ring[0])
      ensures first.prev == (if ring == [] then first else ring[|ring| - 1])
      ensures !first.IsValid() && (ring != [] ==> ring[0].IsValid())
    {
      var c := Cycle(first, ring);
      var l := LinksOf(c);
      CycleAt(first, ring);
      hide Cycle, ClosedDistinct;
      assert l[0].next == c[1] && l[|ring| + 1].prev == c[|ring|] && !l[|ring| + 1].valid;
      if ring != [] {
        assert c[1] == ring[0] && c[|ring|] == ring[|ring| - 1] && l[1].valid;
      }
    }

    // ---- The tokenizer's pass ----

    /** Makes one token of the current one and the next. */
    method Join(kind: Lexico, literal: string, ghost ring: seq<LexToken>, ghost k: nat) returns (ghost ring': seq<LexToken>)
      requires IsRing(ring) && k + 1 < |ring| && current == ring[k] && kind != LexNull
      modifies first`next, first`prev, ring
      ensures ring' == ring[..k + 1] + ring[k + 2..] && IsRing(ring')
      ensures Contents(ring') == old(Contents(ring))[..k] + [Token(kind, literal)] + old(Contents(ring))[k + 2..]
    {
      hide IsRing, Contents;
      ghost var before := Contents(ring);
      ReplaceCurrent(kind, literal, ring, k);
      ring' := DeleteNext(ring, k);
      JoinedContents(before, k, Token(kind, literal));
    }

    /** One round of the loop: the state goes on to what the rest of the pass starts from. */
    method Step(ghost ring: seq<LexToken>, ghost k: nat) returns (ghost ring': seq<LexToken>, ghost k': nat)
      requires IsRing(ring) && k + 1 < |ring| && current == ring[k]
      modifies this`current, first`next, first`prev, ring
      ensures IsRing(ring') && k' < |ring'| && current == ring'[k'] && |ring'| - k' < |ring| - k
      ensures forall i :: 0 <= i < |ring'| ==> ring'[i] in ring
      ensures Passed(Contents(ring'), k') == Passed(old(Contents(ring)), k)
    {
      hide IsRing, Contents, Merge, Merged;
      ghost var before := Contents(ring);
      StepPasses(before, k);
      NeighboursOf(ring, k);
      var kind := current.kind;
      var both := PairOf(kind, current.next.kind);
      k' := k;
      if both.Some? {
        ring' := Join(both.value.kind, both.value.literal, ring, k);
      } else if kind == LexSpace {
        ring' := DeleteCurrent(ring, k);
      } else {
        IncCurrent(1, ring, k);
        ring', k' := ring, k + 1;
      }
    }

    /** The pairs of the switch. */
    method PairOf(kind: Lexico, following: Lexico) returns (both: Option<Token>)
      ensures both == Merged(kind, following)
      ensures both.Some? ==> both.value.kind != LexNull
    {
      both := None;
      if kind == LexColon {
        if following == LexColon {
          both := Some(Token(Lex2Colon, "::"));
        }
      } else if kind == LexSlash {
        if following == LexSlash {
          both := Some(Token(Lex2Slash, "//"));
        }
      } else if kind == LexExclam {
        if following == LexEqual {
          both := Some(Token(LexNotEqual, "!="));
        }
      } else if kind == LexLt {
        if following == LexEqual {
          both := Some(Token(LexLtEqual, "<="));
        }
      } else if kind == LexGt {
        if following == LexEqual {
          both := Some(Token(LexGtEqual, ">="));
        }
      } else if kind == LexDot {
        if following == LexDot {
          both := Some(Token(Lex2Dot, ".."));
        }
      }
    }

    /** A round, and the look at the token behind the next one. */
    method Round(ghost ring: seq<LexToken>, ghost k: nat)
      returns (following: LexToken?, ghost ring': seq<LexToken>, ghost k': nat)
      requires IsRing(ring) && k + 1 < |ring| && current == ring[k]
      modifies this`current, first`next, first`prev, ring
      ensures IsRing(ring') && At(ring', k') && k' <= |ring'| && |ring'| - k' < |ring| - k
      ensures following == if k' + 1 < |ring'| then ring'[k' + 1] else null
      ensures forall i :: 0 <= i < |ring'| ==> ring'[i] in ring
      ensures Passed(Contents(ring'), k') == Passed(old(Contents(ring)), k)
    {
      hide IsRing, Contents, Passed;
      ring', k' := Step(ring, k);
      following := Get(1, ring', k');
    }

    /** `v_tokenize_expression`: rewrites the list in place, in one pass. */
    method TokenizeExpression(ghost ring: seq<LexToken>) returns (ghost ring': seq<LexToken>)
      requires IsRing(ring)
      modifies this`current, first`next, first`prev, ring
      ensures IsRing(ring') && Contents(ring') == Merge(old(Contents(ring)))
      ensures forall i :: 0 <= i < |ring'| ==> ring'[i] in ring
    {
      hide IsRing, Contents, Merge, Passed;
      ghost var before := Contents(ring);
      ghost var k: nat := 0;
      ring' := ring;
      PassedAll(before);
      SetCurrentTop(ring);
      var following := Get(1, ring, 0);
      while following != null
        invariant IsRing(ring') && At(ring', k) && k <= |ring'|
        invariant following == if k + 1 < |ring'| then ring'[k + 1] else null
        invariant forall i :: 0 <= i < |ring'| ==> ring'[i] in ring
        invariant Passed(Contents(ring'), k) == Merge(before)
        decreases |ring'| - k
      {
        following, ring', k := Round(ring', k);
      }
      PassedEnds(Contents(ring'), k);
    }
  }

  /** The ring after the token at `k` is taken out. */
  lemma OpenWithout(c: seq<LexToken>, l: seq<Link>, d: seq<LexToken>, m: seq<Link>, k: nat)
    requires Open(c, l) && k + 2 < |c| == |d| + 1 && |m| == |d|
    requires forall i :: 0 <= i < |d| ==> d[i] == c[if i <= k then i else i + 1]
    requires forall i :: 0 <= i < |d| - 1 && i != k ==> m[i].next == l[if i <= k then i else i + 1].next
    requires forall i :: 0 < i < |d| && i != k + 1 ==> m[i].prev == l[if i <= k then i else i + 1].prev
    requires forall i :: 0 <= i < |d| ==> m[i].valid == l[if i <= k then i else i + 1].valid
    requires m[k].next == c[k + 2] && m[k + 1].prev == c[k]
    ensures Open(d, m)
  {
    forall i | 0 <= i < |d| - 1 ensures m[i].next == d[i + 1] {
      assert i != k ==> l[if i <= k then i else i + 1].next == c[if i < k then i + 1 else i + 2];
    }
    forall i | 0 < i < |d| ensures m[i].prev == d[i - 1] {
      assert i != k + 1 ==> l[if i <= k then i else i + 1].prev == c[if i <= k then i - 1 else i];
    }
  }

  lemma ContentsWithout(ring: seq<LexToken>, before: seq<Token>, k: nat)
    requires k < |ring| == |before| && forall i :: 0 <= i < |ring| ==> ring[i].Content() == before[i]
    ensures Contents(ring[..k] + ring[k + 1..]) == before[..k] + before[k + 1..]
  {
    hide Contents;
    var r, b := ring[..k] + ring[k + 1..], before[..k] + before[k + 1..];
    assert forall i :: 0 <= i < |r| ==> r[i] == ring[if i < k then i else i + 1] && b[i] == before[if i < k then i else i + 1];
  }

  lemma OnlyHere(c: seq<LexToken>, ring: seq<LexToken>, k: nat)
    requires ClosedDistinct(c) && |c| == |ring| + 2 && k < |ring|
    requires forall i {:trigger ring[i]} :: 0 <= i < |ring| ==> c[i + 1] == ring[i]
    ensures forall i :: 0 <= i < |ring| && i != k ==> ring[i] != ring[k]
  {
    forall i | 0 <= i < |ring| && i != k ensures ring[i] != ring[k] {
      assert c[i + 1] != c[k + 1];
    }
  }

  lemma DifferentLinks(c: seq<LexToken>, k: nat)
    requires ClosedDistinct(c) && k + 2 < |c| && c[0] == c[|c| - 1]
    ensures forall i :: 0 <= i < |c| - 1 && i != k ==> c[i] != c[k]
    ensures forall i :: 0 < i < |c| && i != k + 2 ==> c[i] != c[k + 2]
    ensures c[k + 1] != c[k] && c[k + 1] != c[k + 2]
  {
  }

  lemma DistinctWithout(c: seq<LexToken>, d: seq<LexToken>, k: nat)
    requires ClosedDistinct(c) && k + 2 < |c| == |d| + 1
    requires forall i :: 0 <= i < |d| ==> d[i] == c[if i <= k then i else i + 1]
    ensures ClosedDistinct(d)
  {
  }

  lemma OpenAppended(c: seq<LexToken>, l: seq<Link>, d: seq<LexToken>, m: seq<Link>, token: LexToken)
    requires Open(c, l) && |d| == |c| + 1 == |m| && d[|c| - 1] == token && d[|c|] == c[|c| - 1]
    requires forall i :: 0 <= i < |c| - 1 ==> d[i] == c[i]
    requires forall i :: 0 <= i < |c| - 2 ==> m[i].next == l[i].next
    requires forall i :: 0 < i < |c| - 1 ==> m[i].prev == l[i].prev && m[i].valid == l[i].valid
    requires m[|c| - 2].next == token && m[|c| - 1] == Link(c[|c| - 1], c[|c| - 2], true)
    requires m[|c|].prev == token && !m[|c|].valid
    ensures Open(d, m)
  {
  }

  lemma DistinctAppended(c: seq<LexToken>, d: seq<LexToken>, token: LexToken)
    requires ClosedDistinct(c) && |c| >= 2 && |d| == |c| + 1 && d[|c| - 1] == token
    requires forall i :: 0 <= i < |c| - 1 ==> d[i] == c[i] && c[i] != token
    ensures ClosedDistinct(d)
  {
  }

  // ---- The pass, position by position ----

  /** What the pass makes of a list when it stands at `k`. */
  ghost function Passed(t: seq<Token>, k: nat): seq<Token>
    requires k <= |t|
  {
    t[..k] + Merge(t[k..])
  }

  lemma PassedAll(t: seq<Token>)
    ensures Passed(t, 0) == Merge(t)
  {
    assert t[0..] == t;
  }

  lemma PassedEnds(t: seq<Token>, k: nat)
    requires k <= |t| <= k + 1
    ensures Passed(t, k) == t
  {
  }

  lemma JoinedContents(before: seq<Token>, k: nat, both: Token)
    requires k + 1 < |before|
    ensures var t := before[k := both]; t[..k + 1] + t[k + 2..] == before[..k] + [both] + before[k + 2..]
  {
  }

  /** The three things the loop can do keep what the pass will make of the list. */
  lemma StepPasses(t: seq<Token>, k: nat)
    requires k + 1 < |t|
    ensures var both := Merged(t[k].kind, t[k + 1].kind);
            if both.Some? then Passed(t[..k] + [both.value] + t[k + 2..], k) == Passed(t, k)
            else if t[k].kind == LexSpace then Passed(t[..k] + t[k + 1..], k) == Passed(t, k)
            else Passed(t, k + 1) == Passed(t, k)
  {
    hide Merge, Merged, Passed;
    var both := Merged(t[k].kind, t[k + 1].kind);
    if both.Some? {
      PairPasses(t, k);
    } else if t[k].kind == LexSpace {
      SpacePasses(t, k);
    } else {
      TokenPasses(t, k);
    }
  }

  lemma PairPasses(t: seq<Token>, k: nat)
    requires k + 1 < |t| && Merged(t[k].kind, t[k + 1].kind).Some?
    ensures Passed(t[..k] + [Merged(t[k].kind, t[k + 1].kind).value] + t[k + 2..], k) == Passed(t, k)
  {
    hide Merge, Merged;
    var u, both := t[k..], Merged(t[k].kind, t[k + 1].kind).value;
    var v := t[..k] + [both] + t[k + 2..];
    assert u[2..] == t[k + 2..] && v[k..] == [both] + t[k + 2..] && v[..k] == t[..k];
    MergeSteps(u);
    MergedStays(t[k].kind, t[k + 1].kind, t[k + 2..]);
  }

  lemma SpacePasses(t: seq<Token>, k: nat)
    requires k + 1 < |t| && Merged(t[k].kind, t[k + 1].kind).None? && t[k].kind == LexSpace
    ensures Passed(t[..k] + t[k + 1..], k) == Passed(t, k)
  {
    hide Merge, Merged;
    var u, v := t[k..], t[..k] + t[k + 1..];
    assert u[1..] == t[k + 1..] && v[k..] == t[k + 1..] && v[..k] == t[..k];
    MergeSteps(u);
  }

  lemma TokenPasses(t: seq<Token>, k: nat)
    requires k + 1 < |t| && Merged(t[k].kind, t[k + 1].kind).None? && t[k].kind != LexSpace
    ensures Passed(t, k + 1) == Passed(t, k)
  {
    hide Merge, Merged;
    assert t[k..][1..] == t[k + 1..] && t[..k + 1] == t[..k] + [t[k]];
    MergeSteps(t[k..]);
    MoreTokens(t[..k], t[k], Merge(t[k + 1..]));
  }

  lemma MoreTokens(a: seq<Token>, x: Token, rest: seq<Token>)
    ensures a + ([x] + rest) == (a + [x]) + rest
  {
  }

  /** A merged token takes part in no further pair. */
  lemma MergedStays(a: Lexico, b: Lexico, rest: seq<Token>)
    requires Merged(a, b).Some?
    ensures Merge([Merged(a, b).value] + rest) == [Merged(a, b).value] + Merge(rest)
  {
    var both := Merged(a, b).value;
    var u := [both] + rest;
    assert u[1..] == rest;
    assert rest != [] ==> Merged(both.kind, u[1].kind).None?;
  }
}
