/** safestrap-functions.c: str_replace works in one buffer that holds a NUL-terminated string. */
module StrReplace {
  import opened Machine
  import opened CText
  import opened Scanners
  import opened GrowingPass
  import opened Growing

  /** Undefined stands for a call that reads or writes outside of its buffer. */
  datatype Result = Success | Failure | Undefined

  /** locate_forward, with the place in the needle as an index */
  method LocateForward(needle: string, j: nat, c: char) returns (next: nat, found: bool)
    requires j < |needle|
    ensures next == (if c == needle[j] && j + 1 < |needle| then j + 1 else 0)
    ensures found == (j == |needle| - 1 && c == needle[j])
  {
    next, found := j, false;
    if needle[next] == c {
      next := next + 1;
      if next > |needle| - 1 {
        return 0, true;
      }
    } else {
      next := 0;
    }
  }

  /** locate_backward; `j` counts the characters matched from the end of the needle */
  method LocateBackward(needle: string, j: nat, c: char) returns (next: nat, found: bool)
    requires j < |needle|
    ensures next == (if c == needle[|needle| - 1 - j] && j + 1 < |needle| then j + 1 else 0)
    ensures found == (j == |needle| - 1 && c == needle[|needle| - 1 - j])
  {
    next, found := j, false;
    if needle[|needle| - 1 - next] == c {
      next := next + 1;
      if next == |needle| {
        return 0, true;
      }
    } else {
      next := 0;
    }
  }

  /** memcpy into the buffer */
  method CopyIn(hay: array<char>, at: nat, text: string)
    requires at + |text| <= hay.Length
    modifies hay
    ensures hay[..] == Put(old(hay[..]), at, text)
  {
    ghost var before := hay[..];
    forall k | 0 <= k < |text| {
      hay[at + k] := text[k];
    }
    assert forall k | 0 <= k < hay.Length :: hay[..][k] == Put(before, at, text)[k];
  }

  /** The forward pass has read h[..r] of the buffer that was `orig` and written w characters of it. */
  ghost predicate PassOne(hay: string, orig: string, needle: string, repl: string, h: string, r: int, w: int, j: int)
    requires needle != ""
  {
    && 0 <= w <= r <= |h| < |hay| == |orig|
    && j == Matched(needle, h, r)
    && hay[..w] == Out(needle, repl, h, r)
    && hay[r..] == orig[r..]
  }

  lemma PassOneCopies(hay: string, orig: string, needle: string, repl: string, h: string, r: int, w: int, j: int)
    requires needle != "" && PassOne(hay, orig, needle, repl, h, r, w, j) && r < |h| && !Found(needle, h, r)
    ensures PassOne(hay[w := h[r]], orig, needle, repl, h, r + 1, w + 1, Matched(needle, h, r + 1))
  {
    hide Found;
    assert Out(needle, repl, h, r + 1) == Out(needle, repl, h, r) + [h[r]];
    hide Matched, Out;
    var next := hay[w := h[r]];
    assert next[..w + 1] == hay[..w] + [h[r]];
    assert next[r + 1..] == hay[r..][1..] == orig[r + 1..];
  }

  /** A find takes back the characters of the needle that were copied, and puts the replacement there. */
  lemma PassOneReplaces(hay: string, orig: string, needle: string, repl: string, h: string, r: int, w: int, j: int)
    requires needle != "" && PassOne(hay, orig, needle, repl, h, r, w, j) && r < |h| && Found(needle, h, r)
    requires |repl| <= |needle|
    ensures w + 1 >= |needle|
    ensures PassOne(Put(hay[w := h[r]], w + 1 - |needle|, repl), orig, needle, repl, h,
                    r + 1, w - |needle| + |repl| + 1, Matched(needle, h, r + 1))
  {
    hide Matched, Out, Found;
    OutAtFind(needle, repl, h, r);
    var n := |needle|;
    var kept := Out(needle, repl, h, r + 1 - n);
    assert |hay[..w]| == |kept| + n - 1;
    TextTakenBack(hay, orig, hay[..w], h[r], r, w, n, kept, repl);
  }

  lemma TextTakenBack(hay: string, orig: string, written: string, c: char, r: nat, w: nat, n: nat, kept: string, repl: string)
    requires 0 < n && w <= r < |hay| == |orig| && w == |kept| + n - 1 && |repl| <= n
    requires written == hay[..w] && kept <= written && hay[r..] == orig[r..]
    ensures var hay' := Put(hay[w := c], w + 1 - n, repl);
            && |hay'| == |orig| && hay'[..w + 1 - n + |repl|] == kept + repl && hay'[r + 1..] == orig[r + 1..]
  {
    var mid := hay[w := c];
    assert mid[r + 1..] == hay[r..][1..] == orig[r + 1..];
    assert hay[..|kept|] == written[..|kept|] == kept;
    var hay' := Put(mid, w + 1 - n, repl);
    assert hay'[..w + 1 - n + |repl|] == hay[..|kept|] + repl;
    assert hay'[r + 1..] == mid[r + 1..];
  }

  /** The body of the forward loop. */
  method ReplaceOne(hay: array<char>, needle: string, repl: string, j: nat, read: nat, write: nat, ghost h: string, ghost orig: string)
    returns (j': nat, write': int)
    requires needle != "" && |repl| <= |needle| && PassOne(hay[..], orig, needle, repl, h, read, write, j) && read < |h|
    requires hay[read] == h[read]
    modifies hay
    ensures PassOne(hay[..], orig, needle, repl, h, read + 1, write' + 1, j')
  {
    hide Out, Matched, PassOne, Found, Put;
    PassOneHere(hay[..], orig, needle, repl, h, read, write, j);
    ghost var before := hay[..];
    hay[write] := hay[read];
    assert hay[..] == before[write := h[read]];
    SelfRead(before, write, read, h[read]);
    var found;
    ForwardStep(needle, h, read);
    j', found := LocateForward(needle, j, hay[read]);
    write' := write;
    if found {
      PassOneReplaces(before, orig, needle, repl, h, read, write, j);
      write' := write' - |needle|;
      CopyIn(hay, write' + 1, repl);
      write' := write' + |repl|;
    } else {
      PassOneCopies(before, orig, needle, repl, h, read, write, j);
    }
  }

  /** Case 1: reading and writing pointers move forwards, the writing one never ahead of the reading one. */
  method ReplaceShrinking(hay: array<char>, needle: string, repl: string, ghost h: string)
    requires IsNeedle(needle) && |repl| <= |needle| && Holds(hay, h)
    modifies hay
    ensures var out := Replaced(needle, repl, h);
            |out| <= |h| && hay[..|out| + 1] == out + "\0"
    ensures hay[|h| + 1..] == old(hay[..])[|h| + 1..]
  {
    hide Out, Matched, PassOne, Found, Put, Replaced, Holds;
    var j, read, write := 0, 0, 0;
    ghost var orig := hay[..];
    HoldsText(hay, h);
    PassOneStarts(orig, needle, repl, h);
    PassOneHere(orig, orig, needle, repl, h, 0, 0, 0);
    while hay[read] != '\0'
      invariant 0 <= write <= read <= |h|
      invariant PassOne(hay[..], orig, needle, repl, h, read, write, j)
      invariant j == Matched(needle, h, read) && hay[read] == orig[read]
      decreases |h| - read
    {
      NotAtEnd(orig, h, read);
      j, write := ReplaceOne(hay, needle, repl, j, read, write, h, orig);
      read, write := read + 1, write + 1;
      PassOneHere(hay[..], orig, needle, repl, h, read, write, j);
    }
    NulAtEnd(orig, h, read);
    PassOneHere(hay[..], orig, needle, repl, h, read, write, j);
    ghost var last := hay[..];
    Terminate(hay, write);
    assert hay[|h| + 1..] == last[|h|..][1..] == orig[|h|..][1..] == orig[|h| + 1..];
    ReplacedIs(needle, repl, h);
  }

  method Terminate(hay: array<char>, n: nat)
    requires n < hay.Length
    modifies hay
    ensures hay[..n + 1] == old(hay[..n]) + "\0" && hay[n + 1..] == old(hay[..])[n + 1..]
  {
    hay[n] := '\0';
  }

  lemma HoldsText(hay: array<char>, h: string)
    requires Holds(hay, h)
    ensures var s := hay[..]; |h| < |s| && s[..|h|] == h && s[|h|] == '\0' && '\0' !in h
  {
  }

  lemma ReplacedIs(needle: string, repl: string, h: string)
    requires needle != ""
    ensures Replaced(needle, repl, h) == Out(needle, repl, h, |h|)
  {
  }

  lemma PassOneStarts(orig: string, needle: string, repl: string, h: string)
    requires needle != "" && |h| < |orig|
    ensures PassOne(orig, orig, needle, repl, h, 0, 0, 0)
  {
  }

  lemma SelfRead(s: string, w: nat, r: nat, c: char)
    requires w < |s| && r < |s| && s[r] == c
    ensures s[w := c][r] == c
  {
  }

  lemma ForwardStep(needle: string, h: string, r: nat)
    requires needle != "" && r < |h|
    ensures var j := Matched(needle, h, r);
            && Matched(needle, h, r + 1) == (if h[r] == needle[j] && j + 1 < |needle| then j + 1 else 0)
            && Found(needle, h, r) == (j == |needle| - 1 && h[r] == needle[j])
  {
  }

  lemma PassOneHere(hay: string, orig: string, needle: string, repl: string, h: string, r: int, w: int, j: int)
    requires needle != "" && PassOne(hay, orig, needle, repl, h, r, w, j)
    ensures 0 <= w <= r <= |h| < |hay| == |orig| && hay[r] == orig[r] && j == Matched(needle, h, r)
    ensures hay[..w] == Out(needle, repl, h, r) && hay[r..] == orig[r..]
  {
    assert hay[r..][0] == orig[r..][0];
  }

  /** Case 2, pass 1: how long the result will be, unless it leaves no room. */
  method MeasureGrowing(hay: array<char>, size: nat, needle: string, repl: string, ghost h: string)
    returns (fits: bool, read: nat, write: nat)
    requires IsNeedle(needle) && |repl| > |needle| && Holds(hay, h)
    ensures fits <==> |Replaced(needle, repl, h)| <= size
    ensures fits ==> read == |h| && write == |Replaced(needle, repl, h)|
  {
    hide Out, Matched, Found, Holds, Replaced;
    HoldsText(hay, h);
    MeasureStarts(needle, repl, h);
    ReplacedIs(needle, repl, h);
    var j := 0;
    read, write := 0, 0;
    while hay[read] != '\0'
      invariant read <= |h|
      invariant j == Matched(needle, h, read)
      invariant write == |Out(needle, repl, h, read)| <= size
      decreases |h| - read
    {
      NotAtEnd(hay[..], h, read);
      ForwardStep(needle, h, read);
      MeasureStep(needle, repl, h, read);
      var found;
      j, found := LocateForward(needle, j, hay[read]);
      if found {
        write := write + (|repl| - |needle|);
      }
      if write >= size {
        OutLonger(needle, repl, h, read + 1, |h|);
        return false, read, write;
      }
      read, write := read + 1, write + 1;
    }
    NulAtEnd(hay[..], h, read);
    fits := true;
  }

  lemma MeasureStarts(needle: string, repl: string, h: string)
    requires needle != ""
    ensures Out(needle, repl, h, 0) == "" && Matched(needle, h, 0) == 0
  {
  }

  lemma MeasureStep(needle: string, repl: string, h: string, i: nat)
    requires needle != "" && i < |h|
    ensures |Out(needle, repl, h, i + 1)| == |Out(needle, repl, h, i)| + 1 + (if Found(needle, h, i) then |repl| - |needle| else 0)
  {
    if Found(needle, h, i) {
      OutAtFind(needle, repl, h, i);
    }
  }

  /** Case 2, pass 2: from the end, so that nothing is overwritten before it has been read. */
  method ReplaceBackwards(hay: array<char>, needle: string, repl: string, read0: nat, write0: nat) returns (inside: bool)
    requires Grows(needle, repl)
    modifies hay
    ensures Backwards(old(hay[..]), needle, repl, read0, write0, 0) == if inside then Done(hay[..]) else Outside
  {
    hide Put;
    ghost var goal := Backwards(hay[..], needle, repl, read0, write0, 0);
    var j, read, write := 0, read0 as int, write0 as int;
    while write >= 0
      invariant j < |needle| && goal == Backwards(hay[..], needle, repl, read, write, j)
      decreases write
    {
      if read < 0 || read >= hay.Length || write >= hay.Length {
        return false;
      }
      ghost var before := hay[..];
      hay[write] := hay[read];
      assert hay[..] == before[write := before[read]];
      SelfRead(before, write, read, before[read]);
      var found;
      j, found := LocateBackward(needle, j, hay[read]);
      if found {
        write := write - (|repl| - |needle|);
        if write < 0 || write + |repl| > hay.Length {
          return false;
        }
        CopyIn(hay, write, repl);
      }
      read, write := read - 1, write - 1;
    }
    inside := true;
  }

  /**
   str_replace, for every string, needle and replacement, in a buffer of at least `size` bytes.  A growing replacement
   that the first pass accepts has the outcome of the second pass, which is the replaced string where both scans agree
   and the buffer has room for its terminator.
   */
  method Replace(hay: array<char>, size: nat, needle: string, repl: string, ghost h: string) returns (result: Result)
    requires Holds(hay, h) && '\0' !in needle && '\0' !in repl && size <= hay.Length
    modifies hay
    ensures needle == "" ==> result == Success && hay[..] == old(hay[..])
    ensures needle != "" && |repl| <= |needle| ==>
              var out := Replaced(needle, repl, h);
              && result == Success && |out| <= |h|
              && hay[..|out| + 1] == out + "\0" && hay[|h| + 1..] == old(hay[..])[|h| + 1..]
    ensures Grows(needle, repl) && |Replaced(needle, repl, h)| > size ==> result == Failure && hay[..] == old(hay[..])
    ensures Grows(needle, repl) && |Replaced(needle, repl, h)| <= size ==>
              && result != Failure
              && Grown(old(hay[..]), needle, repl, h) == if result == Success then Done(hay[..]) else Outside
    ensures Grows(needle, repl) && |Replaced(needle, repl, h)| <= size && ScansAgree(needle, h) ==>
              var out := Replaced(needle, repl, h);
              && (result == Success <==> |out| < hay.Length)
              && (result == Success ==> hay[..] == out + "\0" + old(hay[..])[|out| + 1..])
  {
    if |needle| == 0 {
      return Success;
    }
    hide Out, Matched, MatchedBack, ScansAgree, Replaced;
    if |repl| <= |needle| {
      ReplaceShrinking(hay, needle, repl, h);
      return Success;
    }
    var fits, read, write := MeasureGrowing(hay, size, needle, repl, h);
    if !fits {
      return Failure;
    }
    if ScansAgree(needle, h) {
      CapacityKeptOrNot(needle, repl, h, hay[..]);
    }
    var inside := ReplaceBackwards(hay, needle, repl, read, write);
    return if inside then Success else Undefined;
  }

  lemma CapacityKeptOrNot(needle: string, repl: string, h: string, buf: string)
    requires IsNeedle(needle) && Grows(needle, repl) && HoldsIn(buf, h) && ScansAgree(needle, h) && |Replaced(needle, repl, h)| <= |buf|
    ensures var t := Replaced(needle, repl, h);
            Grown(buf, needle, repl, h) == if |t| < |buf| then Done(t + "\0" + buf[|t| + 1..]) else Outside
  {
    CapacityKeptExactlyWhen(needle, repl, h, buf);
    hide Grown, Replaced, ScansAgree;
  }
}
