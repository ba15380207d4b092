/**
 safestrap-functions.c: what the second pass of str_replace does, whatever the two scanners find.  The model stops
 where the program would read or write outside of its buffer.
 */
module GrowingPass {
  import opened Machine
  import opened Scanners
  import opened Rendering

  datatype Outcome = Done(text: string) | Outside

  predicate Grows(needle: string, repl: string) {
    0 < |needle| < |repl|
  }

  /** The loop with the reading pointer at r, the writing one at w, and j characters matched from the needle's end */
  function Backwards(buf: string, needle: string, repl: string, r: int, w: int, j: nat): Outcome
    requires Grows(needle, repl) && j < |needle|
    decreases if w < 0 then 0 else w + 1
  {
    if w < 0 then Done(buf)
    else if !(0 <= r < |buf|) || w >= |buf| then Outside
    else
      var c := buf[r];
      var copied := buf[w := c];
      if c == needle[|needle| - 1 - j] && j == |needle| - 1 then
        var w' := w - (|repl| - |needle|);
        if w' < 0 || w' + |repl| > |buf| then Outside
        else Backwards(Put(copied, w', repl), needle, repl, r - 1, w' - 1, 0)
      else Backwards(copied, needle, repl, r - 1, w - 1, if c == needle[|needle| - 1 - j] then j + 1 else 0)
  }

  /** The second pass, once the first has measured the result: both pointers stand on the terminators. */
  function Grown(buf: string, needle: string, repl: string, h: string): Outcome
    requires Grows(needle, repl)
  {
    Backwards(buf, needle, repl, |h|, |Replaced(needle, repl, h)|, 0)
  }

  // ---------------------------------------------------------------- the pass's invariant

  function Tail(needle: string, repl: string, g: string, i: nat): string
    requires needle != ""
  {
    Rendered(g, |needle|, repl, BackStarts(needle, g), i)
  }

  /** g[..r + 1] is unread and untouched; g[r + 1..start] and the rendering of the rest stand at w + 1, and end at `end`. */
  ghost predicate TextAt(buf: string, end: nat, g: string, r: int, w: int, start: int, tail: string) {
    && -1 <= r <= w && r < start <= |g| && end <= |buf|
    && w + start + |tail| == end + r
    && buf[..r + 1] == g[..r + 1]
    && buf[w + 1..end] == g[r + 1..start] + tail
  }

  ghost predicate InPass(buf: string, needle: string, repl: string, g: string, end: nat, r: int, w: int, j: nat)
    requires needle != ""
  {
    && -1 <= r < |g| && j == MatchedBack(needle, g, r + 1)
    && TextAt(buf, end, g, r, w, r + 1 + j, Tail(needle, repl, g, r + 1 + j))
  }

  lemma TextCopied(buf: string, end: nat, g: string, r: nat, w: int, start: int, tail: string)
    requires TextAt(buf, end, g, r, w, start, tail) && w < |buf|
    ensures TextAt(buf[w := g[r]], end, g, r - 1, w - 1, start, tail)
    ensures buf[w := g[r]][end..] == buf[end..] && buf[r] == g[r]
  {
    var buf' := buf[w := g[r]];
    assert g[r..start] == [g[r]] + g[r + 1..start];
    assert buf'[w..end] == [g[r]] + buf[w + 1..end];
    assert buf[..r + 1][r] == g[..r + 1][r];
    assert buf'[..r] == buf[..r + 1][..r] == g[..r];
    Regroup([g[r]], g[r + 1..start], tail);
  }

  /** The characters matched so far turn out to be copies. */
  lemma TextSettled(buf: string, end: nat, g: string, r: int, w: int, start: int, tail: string, tail': string)
    requires TextAt(buf, end, g, r, w, start, tail) && tail' == g[r + 1..start] + tail
    ensures TextAt(buf, end, g, r, w, r + 1, tail')
  {
    assert g[r + 1..r + 1] == "";
  }

  lemma TextReplaced(buf: string, end: nat, g: string, r: nat, w: int, start: int, tail: string, repl: string)
    requires TextAt(buf, end, g, r, w, start, tail) && w < |buf| && |repl| > start - r && w - (|repl| - (start - r)) >= r
    ensures var w' := w - (|repl| - (start - r));
            && w' + |repl| <= end
            && var buf' := Put(buf[w := g[r]], w', repl);
               TextAt(buf', end, g, r - 1, w' - 1, r, repl + tail) && buf'[end..] == buf[end..]
  {
    var n, copied := start - r, buf[w := g[r]];
    var w' := w - (|repl| - n);
    assert buf[w + n..end] == buf[w + 1..end][n - 1..] == tail;
    var buf' := Put(copied, w', repl);
    assert buf'[w'..end] == repl + buf[w + n..end];
    assert buf'[..r] == buf[..r + 1][..r] == g[..r];
    assert g[r..r] == "";
  }

  lemma BackStep(needle: string, g: string, r: nat)
    requires needle != "" && r < |g|
    ensures var j := MatchedBack(needle, g, r + 1);
            && (FoundBack(needle, g, r) <==> g[r] == needle[|needle| - 1 - j] && j == |needle| - 1)
            && (FoundBack(needle, g, r) ==> MatchedBack(needle, g, r) == 0 && r + 1 + j == r + |needle| <= |g|)
            && (!FoundBack(needle, g, r) ==> MatchedBack(needle, g, r) == if g[r] == needle[|needle| - 1 - j] then j + 1 else 0)
  {
  }

  /** A match broken off before r: no find begins in it. */
  lemma BrokenOff(needle: string, repl: string, g: string, r: nat)
    requires needle != "" && r < |g| && !FoundBack(needle, g, r)
    ensures var start := r + 1 + MatchedBack(needle, g, r + 1);
            start <= |g| && Tail(needle, repl, g, r) == g[r..start] + Tail(needle, repl, g, start)
  {
    hide MatchedBack, FoundBack, Rendered;
    var start := r + 1 + MatchedBack(needle, g, r + 1);
    MatchedBackText(needle, g, r + 1);
    RenderedCopies(g, |needle|, repl, BackStarts(needle, g), r, start);
  }

  lemma CopyStep(buf: string, needle: string, repl: string, g: string, end: nat, r: nat, w: int, j: nat)
    requires needle != "" && InPass(buf, needle, repl, g, end, r, w, j) && w < |buf| && !FoundBack(needle, g, r)
    ensures InPass(buf[w := g[r]], needle, repl, g, end, r - 1, w - 1, MatchedBack(needle, g, r))
    ensures buf[w := g[r]][end..] == buf[end..] && buf[r] == g[r]
  {
    var start := r + 1 + j;
    var j' := MatchedBack(needle, g, r);
    BackStep(needle, g, r);
    BrokenOff(needle, repl, g, r);
    hide TextAt, Tail, FoundBack;
    TextCopied(buf, end, g, r, w, start, Tail(needle, repl, g, start));
    if j' == 0 {
      TextSettled(buf[w := g[r]], end, g, r - 1, w - 1, start, Tail(needle, repl, g, start), Tail(needle, repl, g, r));
    }
  }

  lemma FindStep(buf: string, needle: string, repl: string, g: string, end: nat, r: nat, w: int, j: nat)
    requires Grows(needle, repl) && InPass(buf, needle, repl, g, end, r, w, j) && w < |buf| && FoundBack(needle, g, r)
    requires w - (|repl| - |needle|) >= r
    ensures var w' := w - (|repl| - |needle|);
            && w' + |repl| <= |buf|
            && var buf' := Put(buf[w := g[r]], w', repl);
               InPass(buf', needle, repl, g, end, r - 1, w' - 1, 0) && buf'[end..] == buf[end..] && buf[r] == g[r]
  {
    var start := r + 1 + j;
    BackStep(needle, g, r);
    FoundTail(needle, repl, g, r);
    hide Tail, FoundBack;
    TextReplaced(buf, end, g, r, w, start, Tail(needle, repl, g, start), repl);
    assert buf[..r + 1][r] == g[..r + 1][r];
    hide TextAt, Put;
  }

  lemma FoundTail(needle: string, repl: string, g: string, r: nat)
    requires needle != "" && r < |g| && FoundBack(needle, g, r)
    ensures r + |needle| <= |g| && Tail(needle, repl, g, r) == repl + Tail(needle, repl, g, r + |needle|)
  {
    BackStep(needle, g, r);
    assert r in BackStarts(needle, g);
  }

  // ---------------------------------------------------------------- where the pass ends

  /** Nothing is left to be written: the result is what the backward scanner's finds make of the string. */
  lemma PassEnds(buf: string, needle: string, repl: string, g: string, end: nat, w: int, j: nat)
    requires needle != "" && InPass(buf, needle, repl, g, end, -1, w, j)
    ensures |Tail(needle, repl, g, 0)| == end - w - 1
    ensures w == -1 ==> buf == Tail(needle, repl, g, 0) + buf[end..]
  {
    MatchedBackText(needle, g, 0);
    RenderedCopies(g, |needle|, repl, BackStarts(needle, g), 0, j);
    if w == -1 {
      assert buf == buf[..end] + buf[end..] && buf[0..end] == buf[..end];
    }
  }

  /** No room for a replacement: the backward scanner finds more than was measured. */
  lemma PassExceeds(buf: string, needle: string, repl: string, g: string, end: nat, r: nat, w: int, j: nat)
    requires Grows(needle, repl) && InPass(buf, needle, repl, g, end, r, w, j) && FoundBack(needle, g, r)
    requires w - (|repl| - |needle|) < r
    ensures |Tail(needle, repl, g, 0)| > end
  {
    BackStep(needle, g, r);
    FoundTail(needle, repl, g, r);
    BackStartsApart(needle, g);
    assert r in BackStarts(needle, g);
    RenderedReaches(g, |needle|, repl, BackStarts(needle, g), 0, r);
  }

  /** The pointers are apart by a multiple of what one replacement adds. */
  lemma PassDistance(buf: string, needle: string, repl: string, g: string, end: nat, r: nat, w: int, j: nat, finds: nat) returns (x: int)
    requires Grows(needle, repl) && InPass(buf, needle, repl, g, end, r, w, j) && end == |g| + (|repl| - |needle|) * finds
    ensures w - r == (|repl| - |needle|) * x
  {
    var d := |repl| - |needle|;
    var blocks := RenderedLength(g, |needle|, repl, BackStarts(needle, g), r + 1 + j);
    x := finds - blocks;
    assert d * (finds - blocks) == d * finds - d * blocks;
  }

  lemma NoMultipleBetween(d: nat, x: int)
    requires d > 0 && 0 <= d * x < d
    ensures x == 0
  {
    RemainderUnique(x, d, 0);
    assert x * d == d * x;
  }

  lemma BackwardsCopies(buf: string, needle: string, repl: string, g: string, r: nat, w: nat, j: nat)
    requires Grows(needle, repl) && r < |g| && r < |buf| && w < |buf| && buf[r] == g[r]
    requires j == MatchedBack(needle, g, r + 1) && !FoundBack(needle, g, r)
    ensures Backwards(buf, needle, repl, r, w, j) == Backwards(buf[w := g[r]], needle, repl, r - 1, w - 1, MatchedBack(needle, g, r))
  {
    BackStep(needle, g, r);
    hide MatchedBack, FoundBack, Put;
  }

  lemma BackwardsFinds(buf: string, needle: string, repl: string, g: string, r: nat, w: nat, j: nat)
    requires Grows(needle, repl) && r < |g| && r < |buf| && w < |buf| && buf[r] == g[r]
    requires j == MatchedBack(needle, g, r + 1) && FoundBack(needle, g, r)
    ensures var w' := w - (|repl| - |needle|);
            Backwards(buf, needle, repl, r, w, j)
              == if w' < 0 || w' + |repl| > |buf| then Outside
                 else Backwards(Put(buf[w := g[r]], w', repl), needle, repl, r - 1, w' - 1, 0)
  {
    BackStep(needle, g, r);
    hide MatchedBack, FoundBack, Put;
  }

  /** From any state of the pass, how it goes on depends on how the lengths compare. */
  lemma {:induction false} PassOutcome(buf: string, needle: string, repl: string, g: string, end: nat, r: int, w: int, j: nat, finds: nat)
    requires Grows(needle, repl) && InPass(buf, needle, repl, g, end, r, w, j) && j < |needle|
    requires end == |g| + (|repl| - |needle|) * finds
    ensures var total, o := |Tail(needle, repl, g, 0)|, Backwards(buf, needle, repl, r, w, j);
            && (total == end ==> o == Done(Tail(needle, repl, g, 0) + buf[end..]))
            && (total < end ==> o == Outside)
            && (total > end && |repl| - |needle| > |g| ==> o == Outside)
    decreases r + 1
  {
    PassBounds(buf, needle, repl, g, end, r, w, j);
    if r == -1 {
      PassEnds(buf, needle, repl, g, end, w, j);
    } else {
      var d := |repl| - |needle|;
      hide InPass, Tail, FoundBack, Put, MatchedBack, Backwards;
      if !FoundBack(needle, g, r) {
        BackwardsCopies(buf, needle, repl, g, r, w, j);
        CopyStep(buf, needle, repl, g, end, r, w, j);
        PassOutcome(buf[w := g[r]], needle, repl, g, end, r - 1, w - 1, MatchedBack(needle, g, r), finds);
      } else if w - d >= r {
        BackwardsFinds(buf, needle, repl, g, r, w, j);
        FindStep(buf, needle, repl, g, end, r, w, j);
        PassOutcome(Put(buf[w := g[r]], w - d, repl), needle, repl, g, end, r - 1, w - d - 1, 0, finds);
      } else {
        BackwardsFinds(buf, needle, repl, g, r, w, j);
        PassExceeds(buf, needle, repl, g, end, r, w, j);
        var x := PassDistance(buf, needle, repl, g, end, r, w, j, finds);
        NoMultipleBetween(d, x);
      }
    }
  }

  lemma PassBounds(buf: string, needle: string, repl: string, g: string, end: nat, r: int, w: int, j: nat)
    requires needle != "" && InPass(buf, needle, repl, g, end, r, w, j)
    ensures -1 <= r <= w < end <= |buf| && r < |g| && j == MatchedBack(needle, g, r + 1)
    ensures r >= 0 ==> buf[r] == g[r]
  {
    if r >= 0 {
      assert buf[..r + 1][r] == g[..r + 1][r];
    }
  }
}
