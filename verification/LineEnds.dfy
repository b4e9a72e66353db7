/** The end-of-line loop of `LoadFile`, which copies whole chunks of a buffer. */
module LineEnds {

  /** Line ends as section 2.11 of XML 1.0 normalises them: a carriage return, with the line feed
      behind it if there is one, becomes a line feed. */
  function Normalized(s: string): string {
    if s == "" then ""
    else if s[0] == '\r' then "\n" + Normalized(if |s| > 1 && s[1] == '\n' then s[2..] else s[1..])
    else [s[0]] + Normalized(s[1..])
  }

  // ---- An independent account: two passes ----

  /** Drops every carriage return that a line feed follows. */
  function DropBeforeLineFeed(s: string): string {
    if s == "" then ""
    else if s[0] == '\r' && |s| > 1 && s[1] == '\n' then DropBeforeLineFeed(s[1..])
    else [s[0]] + DropBeforeLineFeed(s[1..])
  }

  /** Turns every carriage return into a line feed. */
  function ReturnsToFeeds(s: string): (r: string)
    ensures |r| == |s| && forall i :: 0 <= i < |s| ==> r[i] == if s[i] == '\r' then '\n' else s[i]
  {
    if s == "" then "" else [if s[0] == '\r' then '\n' else s[0]] + ReturnsToFeeds(s[1..])
  }

  lemma ReturnsStep(c: char, s: string)
    ensures ReturnsToFeeds([c] + s) == [if c == '\r' then '\n' else c] + ReturnsToFeeds(s)
  {
    assert ([c] + s)[1..] == s;
  }

  /** The one pass does what the two passes do. */
  lemma {:induction false} NormalizedIsTwoPasses(s: string)
    ensures Normalized(s) == ReturnsToFeeds(DropBeforeLineFeed(s))
    decreases |s|
  {
    hide ReturnsToFeeds;
    if s == "" {
      assert ReturnsToFeeds("") == "";
    } else if s[0] == '\r' && |s| > 1 && s[1] == '\n' {
      NormalizedIsTwoPasses(s[2..]);
      assert s[1..][0] == '\n' && s[1..][1..] == s[2..];
      assert DropBeforeLineFeed(s[1..]) == ['\n'] + DropBeforeLineFeed(s[2..]);
      ReturnsStep('\n', DropBeforeLineFeed(s[2..]));
    } else {
      NormalizedIsTwoPasses(s[1..]);
      ReturnsStep(s[0], DropBeforeLineFeed(s[1..]));
    }
  }

  /** What is not a line end. */
  function Others(s: string): string {
    if s == "" then "" else (if s[0] == '\r' || s[0] == '\n' then "" else [s[0]]) + Others(s[1..])
  }

  lemma OthersStep(c: char, s: string)
    ensures Others([c] + s) == (if c == '\r' || c == '\n' then "" else [c]) + Others(s)
  {
    assert ([c] + s)[1..] == s;
  }

  /** No carriage return remains, and all other characters are kept in order. */
  lemma {:induction false} NormalizedKeeps(s: string)
    ensures '\r' !in Normalized(s) && Others(Normalized(s)) == Others(s)
    decreases |s|
  {
    if s != "" {
      var rest := if s[0] == '\r' && |s| > 1 && s[1] == '\n' then s[2..] else s[1..];
      NormalizedKeeps(rest);
      if s[0] == '\r' {
        OthersStep('\n', Normalized(rest));
        if |s| > 1 && s[1] == '\n' {
          assert s[1..][0] == '\n' && s[1..][1..] == s[2..];
          assert Others(s[1..]) == "" + Others(s[2..]);
        }
      } else {
        OthersStep(s[0], Normalized(rest));
      }
    }
  }

  /** Exactly the texts without carriage returns stay as they are. */
  lemma NormalizedFixes(s: string)
    ensures Normalized(s) == s <==> '\r' !in s
  {
    NormalizedKeeps(s);
    if '\r' !in s {
      NoReturns(s);
    }
  }

  lemma {:induction false} NoReturns(s: string)
    requires '\r' !in s
    ensures Normalized(s) == s
  {
    if s != "" {
      NoReturns(s[1..]);
      assert s == [s[0]] + s[1..];
    }
  }

  /** A second pass changes nothing. */
  lemma SecondPassChangesNothing(s: string)
    ensures Normalized(Normalized(s)) == Normalized(s)
  {
    NormalizedKeeps(s);
    NormalizedFixes(Normalized(s));
  }

  // ---- The loop ----

  lemma LineStep(s: string, p: nat)
    requires p < |s|
    ensures Normalized(s[p..]) ==
            if s[p] == '\r' then "\n" + Normalized(s[if p + 1 < |s| && s[p + 1] == '\n' then p + 2 else p + 1..])
            else [s[p]] + Normalized(s[p + 1..])
  {
    var t := s[p..];
    assert t[1..] == s[p + 1..] && (p + 1 < |s| ==> t[1] == s[p + 1] && t[2..] == s[p + 2..]);
  }

  lemma Regroup(data: string, chunk: string, piece: string, rest: string)
    ensures data + chunk + (piece + rest) == data + (chunk + piece) + rest
    ensures data + chunk + (piece + rest) == (data + chunk + piece) + "" + rest
    ensures data + chunk + (piece + rest) == (data + (chunk + piece)) + "" + rest
  {
  }

  /** The buffer up to its terminating NUL, with its line ends normalised. */
  method NormalizeLineEnds(buf: string) returns (data: string)
    ensures data == Normalized(buf)
  {
    hide Normalized;
    data := "";
    var lastPos, p := 0, 0;
    assert buf[0..] == buf && buf[0..0] == "";
    while p < |buf|
      invariant 0 <= lastPos <= p <= |buf|
      invariant Normalized(buf) == data + buf[lastPos..p] + Normalized(buf[p..])
    {
      LineStep(buf, p);
      assert buf[lastPos..p + 1] == buf[lastPos..p] + [buf[p]];
      ghost var next := if buf[p] == '\r' && p + 1 < |buf| && buf[p + 1] == '\n' then p + 2 else p + 1;
      Regroup(data, buf[lastPos..p], if buf[p] == '\r' then "\n" else [buf[p]], Normalized(buf[next..]));
      if buf[p] == '\n' {
        data := data + buf[lastPos..p + 1];
        p := p + 1;
        lastPos := p;
      } else if buf[p] == '\r' {
        if p > lastPos {
          data := data + buf[lastPos..p];
        }
        data := data + "\n";
        if p + 1 < |buf| && buf[p + 1] == '\n' {
          p := p + 2;
        } else {
          p := p + 1;
        }
        lastPos := p;
      } else {
        p := p + 1;
      }
    }
    NormalizedNothing();
    assert buf[p..] == "";
    if p > lastPos {
      data := data + buf[lastPos..p];
    }
  }

  lemma NormalizedNothing()
    ensures Normalized("") == ""
  {
  }
}
