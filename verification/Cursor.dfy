/** `TiXmlParsingData::Stamp`: rows and columns, kept up incrementally. */
module Cursor {
  import opened Characters
  import opened Utf8
  import opened Arithmetic

  /** Where the cursor stands: its row and column, and the byte it was computed for. */
  datatype Place = Place(row: nat, col: nat, at: nat)

  const TAB: Byte := 9
  const FEED: Byte := 10
  const RETURN: Byte := 13
  const LEAD0: Byte := 0xEF

  /** The marks that take no width: the byte order mark and two non-characters. */
  predicate ZeroWidth(s: seq<Byte>, p: nat)
    requires p + 2 < |s|
  {
    (s[p + 1] == 0xBB && s[p + 2] == 0xBF) || (s[p + 1] == 0xBF && s[p + 2] == 0xBE) || (s[p + 1] == 0xBF && s[p + 2] == 0xBF)
  }

  /** Past one character, or one line end. */
  function Advance(s: seq<Byte>, utf8: bool, tabsize: nat, place: Place): Place
    requires place.at < |s| && tabsize > 0
  {
    var Place(row, col, p) := place;
    if s[p] == RETURN then Place(row + 1, 0, if p + 1 < |s| && s[p + 1] == FEED then p + 2 else p + 1)
    else if s[p] == FEED then Place(row + 1, 0, if p + 1 < |s| && s[p + 1] == RETURN then p + 2 else p + 1)
    else if s[p] == TAB then Place(row, (col / tabsize + 1) * tabsize, p + 1)
    else if !utf8 then Place(row, col + 1, p + 1)
    else if s[p] == LEAD0 then
      if p + 2 >= |s| then place
      else Place(row, if ZeroWidth(s, p) then col else col + 1, p + 3)
    else Place(row, col + 1, p + ByteTable(s[p]))
  }

  /** The end of the text cuts off a byte order mark, or another character with that first byte. */
  predicate CutOff(s: seq<Byte>, utf8: bool, p: nat)
    requires p < |s|
  {
    utf8 && s[p] == LEAD0 && p + 2 >= |s|
  }

  /** Every step moves on, but for one at such a place, which changes nothing. */
  lemma AdvanceMoves(s: seq<Byte>, utf8: bool, tabsize: nat, place: Place)
    requires place.at < |s| && tabsize > 0
    ensures if CutOff(s, utf8, place.at) then Advance(s, utf8, tabsize, place) == place
            else place.at < Advance(s, utf8, tabsize, place).at
  {
    hide ByteTable;
  }

  /** Character by character, until the place is at or past `now`; nothing when that never happens. A
      character that the end of the text cuts off may lead past that end. */
  function Walk(s: seq<Byte>, utf8: bool, tabsize: nat, place: Place, now: nat): Option<Place>
    requires tabsize > 0 && now <= |s|
    decreases |s| - place.at
  {
    if place.at >= now then Some(place)
    else
      AdvanceMoves(s, utf8, tabsize, place);
      if CutOff(s, utf8, place.at) then None else Walk(s, utf8, tabsize, Advance(s, utf8, tabsize, place), now)
  }

  // ---- When the loop ends ----

  /** Where the loop stands after so many rounds. */
  function AfterRounds(s: seq<Byte>, utf8: bool, tabsize: nat, place: Place, now: nat, rounds: nat): Place
    requires tabsize > 0 && now <= |s|
    decreases rounds
  {
    if rounds == 0 || place.at >= now then place
    else AfterRounds(s, utf8, tabsize, Advance(s, utf8, tabsize, place), now, rounds - 1)
  }

  /** How many bytes the character or line end at `p` takes, or would take. */
  function CharLength(s: seq<Byte>, utf8: bool, p: nat): (n: nat)
    requires p < |s|
    ensures n > 0
  {
    if p + 1 < |s| && (s[p..p + 2] == [13, 10] || s[p..p + 2] == [10, 13]) then 2
    else if utf8 then ByteTable(s[p])
    else 1
  }

  /** Reading UTF-8 from `p`, a character begins at `i`. */
  predicate BeginsAt(s: seq<Byte>, p: nat, i: nat)
    decreases |s| - p
  {
    p == i || (p < i && p < |s| && BeginsAt(s, p + CharLength(s, true, p), i))
  }

  /** Before `now`, and at one of the last two bytes, a character begins with the byte 0xEF. */
  predicate CutOffAhead(s: seq<Byte>, utf8: bool, p: nat, now: nat)
    requires now <= |s|
  {
    utf8 && exists i :: 0 <= i < now && |s| - 2 <= i && s[i] == LEAD0 && BeginsAt(s, p, i)
  }

  lemma AdvanceLength(s: seq<Byte>, utf8: bool, tabsize: nat, place: Place)
    requires place.at < |s| && tabsize > 0 && !CutOff(s, utf8, place.at)
    ensures Advance(s, utf8, tabsize, place).at == place.at + CharLength(s, utf8, place.at)
  {
    if place.at + 1 < |s| {
      assert s[place.at..place.at + 2] == [s[place.at], s[place.at + 1]];
    }
    hide ZeroWidth;
  }

  /** The walk comes to nothing exactly when there is such a character ahead. */
  lemma {:induction false} WalkEnds(s: seq<Byte>, utf8: bool, tabsize: nat, place: Place, now: nat)
    requires tabsize > 0 && now <= |s|
    ensures Walk(s, utf8, tabsize, place, now).Some? <==> !CutOffAhead(s, utf8, place.at, now)
    decreases |s| - place.at
  {
    hide Advance, CharLength;
    var p := place.at;
    if p < now {
      AdvanceMoves(s, utf8, tabsize, place);
      if CutOff(s, utf8, p) {
        assert BeginsAt(s, p, p);
      } else {
        WalkEnds(s, utf8, tabsize, Advance(s, utf8, tabsize, place), now);
        if utf8 {
          AdvanceLength(s, true, tabsize, place);
          forall i | 0 <= i < now && |s| - 2 <= i && s[i] == LEAD0
            ensures BeginsAt(s, p, i) <==> BeginsAt(s, p + CharLength(s, true, p), i)
          {
          }
        }
      }
    }
  }

  lemma {:induction false} StaysCutOff(s: seq<Byte>, utf8: bool, tabsize: nat, place: Place, now: nat, rounds: nat)
    requires tabsize > 0 && now <= |s| && place.at < now && CutOff(s, utf8, place.at)
    ensures AfterRounds(s, utf8, tabsize, place, now, rounds) == place
    decreases rounds
  {
    if rounds > 0 {
      AdvanceMoves(s, utf8, tabsize, place);
      StaysCutOff(s, utf8, tabsize, place, now, rounds - 1);
    }
  }

  lemma {:induction false} WalkRounds(s: seq<Byte>, utf8: bool, tabsize: nat, place: Place, now: nat) returns (k: nat)
    requires tabsize > 0 && now <= |s|
    ensures var r := Walk(s, utf8, tabsize, place, now);
            if r.Some? then AfterRounds(s, utf8, tabsize, place, now, k) == r.value && r.value.at >= now
            else forall j: nat :: AfterRounds(s, utf8, tabsize, place, now, j).at < now
    decreases |s| - place.at
  {
    hide Advance, CutOff;
    k := 0;
    if place.at < now {
      AdvanceMoves(s, utf8, tabsize, place);
      if CutOff(s, utf8, place.at) {
        forall j: nat ensures AfterRounds(s, utf8, tabsize, place, now, j).at < now {
          StaysCutOff(s, utf8, tabsize, place, now, j);
        }
      } else {
        var next := Advance(s, utf8, tabsize, place);
        k := WalkRounds(s, utf8, tabsize, next, now);
        k := k + 1;
        forall j: nat
          ensures AfterRounds(s, utf8, tabsize, place, now, j)
               == if j == 0 then place else AfterRounds(s, utf8, tabsize, next, now, j - 1)
        {
        }
      }
    }
  }

  /** The loop ends, and with the walk's place, exactly when no character ahead that begins with 0xEF
      is cut off by the end of the text. */
  lemma LoopEnds(s: seq<Byte>, utf8: bool, tabsize: nat, place: Place, now: nat)
    requires tabsize > 0 && now <= |s|
    ensures (exists k: nat :: AfterRounds(s, utf8, tabsize, place, now, k).at >= now) <==> !CutOffAhead(s, utf8, place.at, now)
    ensures Walk(s, utf8, tabsize, place, now).Some? <==> !CutOffAhead(s, utf8, place.at, now)
  {
    hide AfterRounds, Walk, CutOffAhead;
    WalkEnds(s, utf8, tabsize, place, now);
    var k := WalkRounds(s, utf8, tabsize, place, now);
  }

  /** The text `<a b=` with a byte 0xEF and a `/` behind it, and a place on its attribute: the loop does
      not come to the end of the text. */
  lemma HangingText()
    ensures var s: seq<Byte> := [0x3C, 0x61, 0x20, 0x62, 0x3D, 0xEF, 0x2F];
            && CutOffAhead(s, true, 3, 7) && Walk(s, true, 4, Place(0, 3, 3), 7) == None
            && forall k: nat :: AfterRounds(s, true, 4, Place(0, 3, 3), 7, k).at < 7
  {
    var s: seq<Byte> := [0x3C, 0x61, 0x20, 0x62, 0x3D, 0xEF, 0x2F];
    assert BeginsAt(s, 5, 5);
    assert BeginsAt(s, 4, 5);
    assert BeginsAt(s, 3, 5);
    hide AfterRounds, Walk, Advance;
    LoopEnds(s, true, 4, Place(0, 3, 3), 7);
  }

  /** Without that byte among the last two, the loop ends from every place. */
  lemma EndsWithoutMark(s: seq<Byte>, utf8: bool, tabsize: nat, place: Place, now: nat)
    requires tabsize > 0 && now <= |s| && forall i :: 0 <= i < |s| && |s| - 2 <= i ==> s[i] != LEAD0
    ensures Walk(s, utf8, tabsize, place, now).Some?
  {
    hide Walk;
    WalkEnds(s, utf8, tabsize, place, now);
  }

  /** From `p` on, each first byte is followed by as many bytes as it announces. */
  predicate WholeFrom(s: seq<Byte>, p: nat)
    decreases |s| - p
  {
    p >= |s| || (p + ByteTable(s[p]) <= |s| && WholeFrom(s, p + ByteTable(s[p])))
  }

  lemma WholeMoves(s: seq<Byte>, tabsize: nat, place: Place)
    requires place.at < |s| && tabsize > 0 && WholeFrom(s, place.at)
    ensures !CutOff(s, true, place.at) && WholeFrom(s, Advance(s, true, tabsize, place).at)
  {
    if !CutOff(s, true, place.at) {
      AdvanceLength(s, true, tabsize, place);
    }
  }

  /** In whole characters the loop ends, and in front of whole characters, so that the next stamp does
      too. */
  lemma {:induction false} EndsInWholeText(s: seq<Byte>, tabsize: nat, place: Place, now: nat)
    requires tabsize > 0 && now <= |s| && WholeFrom(s, place.at)
    ensures var r := Walk(s, true, tabsize, place, now); r.Some? && WholeFrom(s, r.value.at)
    decreases |s| - place.at
  {
    hide Advance, CutOff, WholeFrom;
    if place.at < now {
      WholeMoves(s, tabsize, place);
      AdvanceMoves(s, true, tabsize, place);
      EndsInWholeText(s, tabsize, Advance(s, true, tabsize, place), now);
    }
  }

  /** The bytes that the parser writes for code points. */
  function Coded(codes: seq<bv32>): seq<Byte> {
    if codes == [] then [] else Encoded(codes[0]) + Coded(codes[1..])
  }

  /** Text made of code points is whole. */
  lemma {:induction false} CodedIsWhole(done: seq<Byte>, codes: seq<bv32>)
    requires forall i :: 0 <= i < |codes| ==> codes[i] < 0x140000
    ensures WholeFrom(done + Coded(codes), |done|)
    decreases |codes|
  {
    hide Encoded, ByteTable;
    if codes != [] {
      var first, rest := Encoded(codes[0]), Coded(codes[1..]);
      TableIsLength(codes[0]);
      LengthAtLeast(codes[0]);
      CodedIsWhole(done + first, codes[1..]);
      FirstIsWhole(done, first, rest);
    }
  }

  lemma FirstIsWhole(done: seq<Byte>, first: seq<Byte>, rest: seq<Byte>)
    requires first != [] && ByteTable(first[0]) == |first| && WholeFrom((done + first) + rest, |done + first|)
    ensures WholeFrom(done + (first + rest), |done|)
  {
    hide ByteTable;
    assert (done + first) + rest == done + (first + rest);
  }

  lemma LengthAtLeast(x: bv32)
    requires x < 0x200000
    ensures |Encoded(x)| > 0
  {
  }

  /** Not before, row by row and then column by column. */
  predicate NotBefore(a: Place, b: Place) {
    a.row < b.row || (a.row == b.row && a.col <= b.col)
  }

  lemma NextTab(col: nat, tabsize: nat)
    requires tabsize > 0
    ensures (col / tabsize + 1) * tabsize > col
  {
    var q := col / tabsize;
    assert col == q * tabsize + col % tabsize;
    assert (q + 1) * tabsize == q * tabsize + tabsize;
  }

  lemma AdvanceGrows(s: seq<Byte>, utf8: bool, tabsize: nat, place: Place)
    requires place.at < |s| && tabsize > 0
    ensures NotBefore(place, Advance(s, utf8, tabsize, place))
  {
    hide ByteTable, ZeroWidth;
    NextTab(place.col, tabsize);
  }

  /** The cursor never goes back. */
  lemma {:induction false} WalkGrows(s: seq<Byte>, utf8: bool, tabsize: nat, place: Place, now: nat)
    requires tabsize > 0 && now <= |s|
    ensures var r := Walk(s, utf8, tabsize, place, now); r.Some? ==> NotBefore(place, r.value) && r.value.at >= now
    decreases |s| - place.at
  {
    hide Advance, CutOff;
    if place.at < now {
      AdvanceMoves(s, utf8, tabsize, place);
      if !CutOff(s, utf8, place.at) {
        AdvanceGrows(s, utf8, tabsize, place);
        WalkGrows(s, utf8, tabsize, Advance(s, utf8, tabsize, place), now);
      }
    }
  }

  /** One stamp behind another. */
  function WalkOn(s: seq<Byte>, utf8: bool, tabsize: nat, place: Option<Place>, now: nat): Option<Place>
    requires tabsize > 0 && now <= |s|
  {
    if place.Some? then Walk(s, utf8, tabsize, place.value, now) else None
  }

  /** Walking on from where a walk stopped gives the place of the whole walk, also when the stop was
      inside a line end or a character. */
  lemma {:induction false} WalkResumes(s: seq<Byte>, utf8: bool, tabsize: nat, place: Place, a: nat, b: nat)
    requires tabsize > 0 && a <= b <= |s|
    ensures WalkOn(s, utf8, tabsize, Walk(s, utf8, tabsize, place, a), b) == Walk(s, utf8, tabsize, place, b)
    decreases |s| - place.at
  {
    hide Advance, CutOff;
    if place.at < a {
      AdvanceMoves(s, utf8, tabsize, place);
      if !CutOff(s, utf8, place.at) {
        WalkResumes(s, utf8, tabsize, Advance(s, utf8, tabsize, place), a, b);
      }
    }
  }

  /** A run of stamps. */
  function Stamps(s: seq<Byte>, utf8: bool, tabsize: nat, place: Option<Place>, nows: seq<nat>): Option<Place>
    requires tabsize > 0 && forall i :: 0 <= i < |nows| ==> nows[i] <= |s|
    decreases |nows|
  {
    if nows == [] then place else Stamps(s, utf8, tabsize, WalkOn(s, utf8, tabsize, place, nows[0]), nows[1..])
  }

  /** Any increasing run of stamps ends where the last one alone would. */
  lemma {:induction false} OnlyTheLastCounts(s: seq<Byte>, utf8: bool, tabsize: nat, place: Option<Place>, nows: seq<nat>)
    requires tabsize > 0 && forall i :: 0 <= i < |nows| ==> nows[i] <= |s|
    requires nows != [] && forall i, j :: 0 <= i < j < |nows| ==> nows[i] <= nows[j]
    ensures Stamps(s, utf8, tabsize, place, nows) == WalkOn(s, utf8, tabsize, place, nows[|nows| - 1])
    decreases |nows|
  {
    hide Walk;
    if |nows| > 1 {
      OnlyTheLastCounts(s, utf8, tabsize, WalkOn(s, utf8, tabsize, place, nows[0]), nows[1..]);
      if place.Some? {
        WalkResumes(s, utf8, tabsize, place.value, nows[0], nows[|nows| - 1]);
      }
    } else {
      assert nows[1..] == [];
    }
  }

  // ---- What rows and columns mean ----

  /** What stands at one place of a text. */
  datatype Unit = LineEnd | Tab | Mark | Character

  function UnitAt(s: seq<Byte>, utf8: bool, p: nat): Unit
    requires p < |s|
  {
    if s[p] == 10 || s[p] == 13 then LineEnd
    else if s[p] == 9 then Tab
    else if utf8 && p + 3 <= |s|
            && (s[p..p + 3] == [0xEF, 0xBB, 0xBF] || s[p..p + 3] == [0xEF, 0xBF, 0xBE] || s[p..p + 3] == [0xEF, 0xBF, 0xBF]) then
      Mark
    else Character
  }

  /** What begins from `p` up to `now`; two bytes that end a line together count once. */
  function Units(s: seq<Byte>, utf8: bool, p: nat, now: nat): seq<Unit>
    requires now <= |s|
    decreases |s| - p
  {
    if p >= now then [] else [UnitAt(s, utf8, p)] + Units(s, utf8, p + CharLength(s, utf8, p), now)
  }

  /** Where the last of them ends. */
  function UnitsEnd(s: seq<Byte>, utf8: bool, p: nat, now: nat): nat
    requires now <= |s|
    decreases |s| - p
  {
    if p >= now then p else UnitsEnd(s, utf8, p + CharLength(s, utf8, p), now)
  }

  /** What stands behind the last line end. */
  function LastLine(units: seq<Unit>): seq<Unit> {
    if units == [] || units[|units| - 1] == LineEnd then [] else LastLine(units[..|units| - 1]) + [units[|units| - 1]]
  }

  /** The tab stop behind a column: the least multiple of the tab size that is greater. */
  function TabStop(col: nat, tabsize: nat): (stop: nat)
    requires tabsize > 0
    ensures stop > col && stop % tabsize == 0 && forall m: nat :: m > col && m % tabsize == 0 ==> stop <= m
  {
    TabStops(col, tabsize);
    col - col % tabsize + tabsize
  }

  lemma TabStops(col: nat, tabsize: nat)
    requires tabsize > 0
    ensures var stop := col - col % tabsize + tabsize;
            stop > col && stop % tabsize == 0 && forall m: nat :: m > col && m % tabsize == 0 ==> stop <= m
  {
    var q := col / tabsize;
    assert (q + 1) * tabsize == col - col % tabsize + tabsize;
    Division((q + 1) * tabsize, q + 1, 0, tabsize);
    forall m: nat | m > col && m % tabsize == 0 ensures (q + 1) * tabsize <= m {
      var k := m / tabsize;
      assert m == k * tabsize;
      Multiples(k - q, tabsize);
      assert k * tabsize - q * tabsize == (k - q) * tabsize;
    }
  }

  /** The column behind these on one line: each character takes one, and a mark none. */
  function ColumnBehind(line: seq<Unit>, tabsize: nat, col: nat): nat
    requires tabsize > 0
  {
    if line == [] then col
    else
      var before := ColumnBehind(line[..|line| - 1], tabsize, col);
      match line[|line| - 1]
      case Tab => TabStop(before, tabsize)
      case Mark => before
      case _ => before + 1
  }

  /** Row and column behind these. */
  function PlaceBehind(units: seq<Unit>, tabsize: nat, row: nat, col: nat, at: nat): Place
    requires tabsize > 0
  {
    Place(row + multiset(units)[LineEnd], ColumnBehind(LastLine(units), tabsize, if LineEnd in units then 0 else col), at)
  }

  lemma {:induction false} LastLineBehind(u: Unit, units: seq<Unit>)
    ensures LastLine([u] + units) == if LineEnd in units then LastLine(units) else if u == LineEnd then units else [u] + units
  {
    var all := [u] + units;
    if units == [] {
      assert all == [u] && all[..0] == [];
    } else {
      var front, last := units[..|units| - 1], units[|units| - 1];
      assert all[..|all| - 1] == [u] + front && units == front + [last];
      LastLineBehind(u, front);
    }
  }

  /** What one unit makes of a column. */
  function ColumnAfter(u: Unit, tabsize: nat, col: nat): nat
    requires tabsize > 0
  {
    match u
    case LineEnd => 0
    case Tab => TabStop(col, tabsize)
    case Mark => col
    case Character => col + 1
  }

  lemma {:induction false} ColumnBehindFirst(u: Unit, line: seq<Unit>, tabsize: nat, col: nat)
    requires tabsize > 0 && u != LineEnd
    ensures ColumnBehind([u] + line, tabsize, col) == ColumnBehind(line, tabsize, ColumnAfter(u, tabsize, col))
  {
    hide TabStop;
    var all := [u] + line;
    if line == [] {
      assert all == [u] && all[..0] == [];
      assert ColumnBehind([], tabsize, col) == col;
    } else {
      assert all[..|all| - 1] == [u] + line[..|line| - 1];
      ColumnBehindFirst(u, line[..|line| - 1], tabsize, col);
    }
  }

  lemma PlaceBehindFirst(u: Unit, units: seq<Unit>, tabsize: nat, row: nat, col: nat, at: nat)
    requires tabsize > 0
    ensures PlaceBehind([u] + units, tabsize, row, col, at)
         == PlaceBehind(units, tabsize, if u == LineEnd then row + 1 else row, ColumnAfter(u, tabsize, col), at)
  {
    hide LastLine, ColumnBehind, TabStop;
    LastLineBehind(u, units);
    OnlyLine(units);
    if LineEnd !in units && u != LineEnd {
      ColumnBehindFirst(u, units, tabsize, col);
    }
  }

  lemma {:induction false} OnlyLine(units: seq<Unit>)
    ensures LineEnd !in units ==> LastLine(units) == units
  {
    if units != [] {
      OnlyLine(units[..|units| - 1]);
      assert units == units[..|units| - 1] + [units[|units| - 1]];
    }
  }

  lemma AdvanceUnit(s: seq<Byte>, utf8: bool, tabsize: nat, place: Place)
    requires place.at < |s| && tabsize > 0 && !CutOff(s, utf8, place.at)
    ensures var u, next := UnitAt(s, utf8, place.at), Advance(s, utf8, tabsize, place);
            && next.row == (if u == LineEnd then place.row + 1 else place.row)
            && next.col == ColumnAfter(u, tabsize, place.col)
            && next.at == place.at + CharLength(s, utf8, place.at)
  {
    AdvanceLength(s, utf8, tabsize, place);
    if place.at + 2 < |s| {
      MarkAt(s, place.at);
    }
    hide ByteTable, CharLength, ZeroWidth;
    NextStop(place.col, tabsize);
  }

  lemma MarkAt(s: seq<Byte>, p: nat)
    requires p + 2 < |s|
    ensures s[p..p + 3] == [0xEF, 0xBB, 0xBF] || s[p..p + 3] == [0xEF, 0xBF, 0xBE] || s[p..p + 3] == [0xEF, 0xBF, 0xBF] <==>
            s[p] == 0xEF && ZeroWidth(s, p)
  {
    assert s[p..p + 3] == [s[p], s[p + 1], s[p + 2]];
  }

  lemma NextStop(col: nat, tabsize: nat)
    requires tabsize > 0
    ensures (col / tabsize + 1) * tabsize == TabStop(col, tabsize)
  {
    var q := col / tabsize;
    assert col == q * tabsize + col % tabsize && (q + 1) * tabsize == q * tabsize + tabsize;
  }

  /** Where the walk comes to something, the row is the one before and one more for each line end, and the
      column that of the last line. */
  lemma {:induction false} RowsAndColumns(s: seq<Byte>, utf8: bool, tabsize: nat, place: Place, now: nat)
    requires tabsize > 0 && now <= |s| && !CutOffAhead(s, utf8, place.at, now)
    ensures Walk(s, utf8, tabsize, place, now)
         == Some(PlaceBehind(Units(s, utf8, place.at, now), tabsize, place.row, place.col, UnitsEnd(s, utf8, place.at, now)))
    decreases |s| - place.at
  {
    hide Advance, CutOff, CutOffAhead, PlaceBehind, UnitAt, CharLength, ColumnAfter;
    WalkEnds(s, utf8, tabsize, place, now);
    if place.at < now {
      AdvanceMoves(s, utf8, tabsize, place);
      AdvanceUnit(s, utf8, tabsize, place);
      var next, end := Advance(s, utf8, tabsize, place), UnitsEnd(s, utf8, place.at, now);
      WalkEnds(s, utf8, tabsize, next, now);
      RowsAndColumns(s, utf8, tabsize, next, now);
      PlaceBehindFirst(UnitAt(s, utf8, place.at), Units(s, utf8, next.at, now), tabsize, place.row, place.col, end);
    } else {
      NothingBehind(tabsize, place);
    }
  }

  lemma NothingBehind(tabsize: nat, place: Place)
    requires tabsize > 0
    ensures PlaceBehind([], tabsize, place.row, place.col, place.at) == place
  {
  }

  // ---- Rows by bytes ----

  /** From `p` on, the bytes behind a first byte are none of ASCII, as many as it announces. */
  predicate HighBehind(s: seq<Byte>, p: nat)
    decreases |s| - p
  {
    p >= |s|
    || (p + ByteTable(s[p]) <= |s| && (forall i :: p < i < p + ByteTable(s[p]) ==> s[i] >= 0x80) && HighBehind(s, p + ByteTable(s[p])))
  }

  /** How many of these bytes are line feeds. */
  function Feeds(s: seq<Byte>): nat {
    if s == [] then 0 else (if s[0] == 10 then 1 else 0) + Feeds(s[1..])
  }

  lemma {:induction false} FeedsBehind(a: seq<Byte>, b: seq<Byte>)
    ensures Feeds(a + b) == Feeds(a) + Feeds(b)
  {
    if a == [] {
      assert a + b == b;
    } else {
      assert (a + b)[0] == a[0] && (a + b)[1..] == a[1..] + b;
      FeedsBehind(a[1..], b);
    }
  }

  lemma {:induction false} NoFeeds(s: seq<Byte>)
    requires forall i :: 0 <= i < |s| ==> s[i] != 10
    ensures Feeds(s) == 0
  {
    if s != [] {
      NoFeeds(s[1..]);
    }
  }

  lemma UnitsStep(s: seq<Byte>, utf8: bool, p: nat, now: nat)
    requires p < now <= |s|
    ensures multiset(Units(s, utf8, p, now))[LineEnd]
         == (if s[p] == 10 || s[p] == 13 then 1 else 0) + multiset(Units(s, utf8, p + CharLength(s, utf8, p), now))[LineEnd]
  {
    hide CharLength;
  }

  lemma NoPair(s: seq<Byte>, utf8: bool, p: nat)
    requires p < |s| && forall j :: p <= j < |s| ==> s[j] != 13
    ensures CharLength(s, utf8, p) == if utf8 then ByteTable(s[p]) else 1
  {
    hide ByteTable;
    if p + 1 < |s| {
      assert s[p..p + 2] == [s[p], s[p + 1]];
    }
  }

  /** No line feed lies behind the first byte of a character. */
  lemma InsideCharacter(s: seq<Byte>, utf8: bool, p: nat, i: nat)
    requires p < |s| && (utf8 ==> HighBehind(s, p)) && (forall j :: p <= j < |s| ==> s[j] != 13)
    requires p < i < p + CharLength(s, utf8, p) && i < |s|
    ensures s[i] != 10
  {
    NoPair(s, utf8, p);
    hide CharLength, ByteTable;
  }

  lemma GoesOn(s: seq<Byte>, utf8: bool, p: nat)
    requires p < |s| && (utf8 ==> HighBehind(s, p)) && (forall j :: p <= j < |s| ==> s[j] != 13)
    ensures utf8 ==> HighBehind(s, p + CharLength(s, utf8, p))
  {
    NoPair(s, utf8, p);
    hide CharLength, ByteTable;
  }

  /** Without carriage returns the line ends are the line feeds, byte by byte. */
  lemma {:induction false} LineFeeds(s: seq<Byte>, utf8: bool, p: nat, now: nat)
    requires p <= now <= |s| && (utf8 ==> HighBehind(s, p)) && forall i :: p <= i < |s| ==> s[i] != 13
    ensures multiset(Units(s, utf8, p, now))[LineEnd] == Feeds(s[p..now])
    decreases |s| - p
  {
    hide CharLength, HighBehind, UnitAt, Units;
    if p < now {
      var q := p + CharLength(s, utf8, p);
      var n := if q < now then q else now;
      UnitsStep(s, utf8, p, now);
      forall i | p < i < n ensures s[i] != 10 {
        InsideCharacter(s, utf8, p, i);
      }
      FirstFeed(s, p, n, now);
      GoesOn(s, utf8, p);
      if q < now {
        LineFeeds(s, utf8, q, now);
      } else {
        NoUnits(s, utf8, q, now);
      }
    } else {
      NoUnits(s, utf8, p, now);
    }
  }

  /** Of these bytes only the first can be a line feed. */
  lemma FirstFeed(s: seq<Byte>, p: nat, n: nat, now: nat)
    requires p < n <= now <= |s| && forall i :: p < i < n ==> s[i] != 10
    ensures Feeds(s[p..now]) == (if s[p] == 10 then 1 else 0) + Feeds(s[n..now])
  {
    assert s[p..now] == s[p..n] + s[n..now] && s[p..n][1..] == s[p + 1..n];
    FeedsBehind(s[p..n], s[n..now]);
    NoFeeds(s[p + 1..n]);
  }

  lemma NoUnits(s: seq<Byte>, utf8: bool, p: nat, now: nat)
    requires now <= |s| && p >= now
    ensures Units(s, utf8, p, now) == []
  {
  }

  /** So, in such a text, the row is the number of line feeds before the place. */
  lemma RowsAreFeeds(s: seq<Byte>, utf8: bool, tabsize: nat, place: Place, now: nat)
    requires tabsize > 0 && place.at <= now <= |s| && (forall i :: place.at <= i < |s| ==> s[i] != 13)
    requires utf8 ==> HighBehind(s, place.at)
    requires !CutOffAhead(s, utf8, place.at, now)
    ensures var r := Walk(s, utf8, tabsize, place, now);
            r.Some? && r.value.row == place.row + Feeds(s[place.at..now])
  {
    RowsAndColumns(s, utf8, tabsize, place, now);
    LineFeeds(s, utf8, place.at, now);
  }

  class TiXmlParsingData {
    const text: seq<Byte>
    const tabsize: int
    var row: nat
    var col: nat
    var stamp: nat

    constructor (text: seq<Byte>, tabsize: int, row: nat, col: nat)
      ensures this.text == text && this.tabsize == tabsize && Cursor() == Place(row, col, 0)
    {
      this.text := text;
      this.tabsize := tabsize;
      this.row := row;
      this.col := col;
      stamp := 0;
    }

    function Cursor(): Place
      reads this
    {
      Place(row, col, stamp)
    }

    /** Brings the cursor up to `now`. A tab size below one switches it off. The text is a C string,
        and the loop ends only if it comes to no cut-off character. */
    method Stamp(now: nat, utf8: bool)
      requires now <= |text| && (forall i :: 0 <= i < |text| ==> text[i] != 0)
      requires tabsize >= 1 ==> !CutOffAhead(text, utf8, stamp, now)
      modifies this`row, this`col, this`stamp
      ensures if tabsize < 1 then Cursor() == old(Cursor())
              else Some(Cursor()) == Walk(text, utf8, tabsize, old(Cursor()), now)
      ensures tabsize >= 1 ==>
                Cursor() == PlaceBehind(Units(text, utf8, old(stamp), now), tabsize, old(row), old(col), UnitsEnd(text, utf8, old(stamp), now))
    {
      hide Advance, CutOff, CutOffAhead;
      if tabsize < 1 {
        return;
      }
      var place := Cursor();
      WalkEnds(text, utf8, tabsize, place, now);
      RowsAndColumns(text, utf8, tabsize, place, now);
      hide PlaceBehind;
      while place.at < now
        invariant Walk(text, utf8, tabsize, place, now) == Walk(text, utf8, tabsize, old(Cursor()), now)
        invariant Walk(text, utf8, tabsize, place, now).Some?
        decreases |text| - place.at
      {
        AdvanceMoves(text, utf8, tabsize, place);
        place := Step(place, utf8);
      }
      row := place.row;
      col := place.col;
      stamp := place.at;
    }

    /** The switch over the byte at hand. */
    method Step(place: Place, utf8: bool) returns (r: Place)
      requires place.at < |text| && tabsize >= 1
      ensures r == Advance(text, utf8, tabsize, place)
    {
      hide ByteTable, ZeroWidth;
      var row, col, p := place.row, place.col, place.at;
      var b := text[p];
      if b == RETURN {
        row, col, p := row + 1, 0, p + 1;
        if p < |text| && text[p] == FEED {
          p := p + 1;
        }
      } else if b == FEED {
        row, col, p := row + 1, 0, p + 1;
        if p < |text| && text[p] == RETURN {
          p := p + 1;
        }
      } else if b == TAB {
        p := p + 1;
        NextTab(col, tabsize);
        col := (col / tabsize + 1) * tabsize;
      } else if b == LEAD0 {
        if utf8 {
          if p + 2 < |text| {
            if !ZeroWidth(text, p) {
              col := col + 1;
            }
            p := p + 3;
          }
        } else {
          p, col := p + 1, col + 1;
        }
      } else if utf8 {
        p, col := p + ByteTable(b), col + 1;
      } else {
        p, col := p + 1, col + 1;
      }
      return Place(row, col, p);
    }
  }
}
