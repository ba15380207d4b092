/** safestrap-functions.c: strings in which the occurrences that begin at given places are replaced. */
module Rendering {
  import opened Scanners

  /** h[i..] with n characters replaced at every start */
  function Rendered(h: string, n: nat, repl: string, starts: set<nat>, i: nat): string
    requires n > 0
    decreases |h| - i
  {
    if i >= |h| then ""
    else if i in starts && i + n <= |h| then repl + Rendered(h, n, repl, starts, i + n)
    else [h[i]] + Rendered(h, n, repl, starts, i + 1)
  }

  /** What the backward scanner's finds make of the string */
  function ReplacedBack(needle: string, repl: string, h: string): string
    requires needle != ""
  {
    Rendered(h, |needle|, repl, BackStarts(needle, h), 0)
  }

  lemma {:induction false} RenderedCopies(h: string, n: nat, repl: string, starts: set<nat>, from: nat, to: nat)
    requires n > 0 && from <= to <= |h| && forall k | from <= k < to :: k !in starts
    ensures Rendered(h, n, repl, starts, from) == h[from..to] + Rendered(h, n, repl, starts, to)
    decreases |h| - from
  {
    if from < to {
      RenderedCopies(h, n, repl, starts, from + 1, to);
      assert Rendered(h, n, repl, starts, from) == [h[from]] + Rendered(h, n, repl, starts, from + 1);
      hide Rendered;
      assert h[from..to] == [h[from]] + h[from + 1..to];
      Regroup([h[from]], h[from + 1..to], Rendered(h, n, repl, starts, to));
    } else {
      assert h[from..to] == "";
    }
  }

  /** A rendering is as long as its beginning, replaced or not, and its rest. */
  lemma {:induction false} RenderedReaches(h: string, n: nat, repl: string, starts: set<nat>, i: nat, k: nat)
    requires n > 0 && |repl| >= n && Apart(starts, n, |h|) && i <= k && k in starts
    ensures |Rendered(h, n, repl, starts, i)| >= k - i + |Rendered(h, n, repl, starts, k)|
    decreases |h| - i
  {
    if i < k {
      RenderedReaches(h, n, repl, starts, if i in starts then i + n else i + 1, k);
    }
  }

  /** Each replacement makes the string longer by the same amount. */
  lemma {:induction false} RenderedLength(h: string, n: nat, repl: string, starts: set<nat>, i: nat) returns (blocks: nat)
    requires n > 0 && |repl| >= n && i <= |h|
    ensures |Rendered(h, n, repl, starts, i)| == |h| - i + (|repl| - n) * blocks
    decreases |h| - i
  {
    if i == |h| {
      blocks := 0;
    } else if i in starts && i + n <= |h| {
      blocks := RenderedLength(h, n, repl, starts, i + n);
      assert (|repl| - n) * (blocks + 1) == (|repl| - n) * blocks + (|repl| - n);
      blocks := blocks + 1;
    } else {
      blocks := RenderedLength(h, n, repl, starts, i + 1);
    }
  }

  /** The terminator is copied. */
  lemma {:induction false} RenderedTerminated(h: string, n: nat, repl: string, starts: set<nat>, i: nat)
    requires n > 0 && i <= |h| && Apart(starts, n, |h|)
    ensures Rendered(h + "\0", n, repl, starts, i) == Rendered(h, n, repl, starts, i) + "\0"
    decreases |h| - i
  {
    var g := h + "\0";
    if i == |h| {
      assert Rendered(g, n, repl, starts, i) == [g[i]] + Rendered(g, n, repl, starts, i + 1);
    } else {
      RenderedTerminated(h, n, repl, starts, if i in starts then i + n else i + 1);
      assert g[i] == h[i];
    }
  }

  /** No find reaches into h[i..] from before. */
  predicate NoneAcross(needle: string, h: string, i: nat)
    requires needle != ""
  {
    forall e | i <= e < |h| && Found(needle, h, e) :: e + 1 - |needle| >= i
  }

  lemma {:induction false} ForwardRendered(needle: string, repl: string, h: string, i: nat)
    requires needle != "" && i <= |h| && NoneAcross(needle, h, i)
    ensures Out(needle, repl, h, i) + Rendered(h, |needle|, repl, ForwardStarts(needle, h), i) == Replaced(needle, repl, h)
    decreases |h| - i
  {
    if i == |h| {
      assert Out(needle, repl, h, i) + "" == Out(needle, repl, h, i);
    } else {
      ForwardStep(needle, repl, h, i);
      hide Out, Rendered, ForwardStarts, NoneAcross, Found;
      ForwardRendered(needle, repl, h, if i in ForwardStarts(needle, h) then i + |needle| else i + 1);
    }
  }

  lemma ForwardStep(needle: string, repl: string, h: string, i: nat)
    requires needle != "" && i < |h| && NoneAcross(needle, h, i)
    ensures var starts := ForwardStarts(needle, h);
            var next := if i in starts then i + |needle| else i + 1;
            && next <= |h| && NoneAcross(needle, h, next)
            && Out(needle, repl, h, i) + Rendered(h, |needle|, repl, starts, i)
               == Out(needle, repl, h, next) + Rendered(h, |needle|, repl, starts, next)
  {
    var n, starts := |needle|, ForwardStarts(needle, h);
    var next := if i in starts then i + n else i + 1;
    NextNoneAcross(needle, h, i, next);
    var text := if i in starts then repl else [h[i]];
    ForwardOut(needle, repl, h, i);
    assert Rendered(h, n, repl, starts, i) == text + Rendered(h, n, repl, starts, next);
    hide Out, Rendered, ForwardStarts, NoneAcross, Found;
    Regroup(Out(needle, repl, h, i), text, Rendered(h, n, repl, starts, next));
  }

  lemma ForwardOut(needle: string, repl: string, h: string, i: nat)
    requires needle != "" && i < |h| && NoneAcross(needle, h, i)
    ensures if i in ForwardStarts(needle, h)
            then i + |needle| <= |h| && Out(needle, repl, h, i + |needle|) == Out(needle, repl, h, i) + repl
            else Out(needle, repl, h, i + 1) == Out(needle, repl, h, i) + [h[i]]
  {
    if i in ForwardStarts(needle, h) {
      hide Out;
      OutAtFind(needle, repl, h, i + |needle| - 1);
    } else {
      assert !StartsAt(needle, h, i);
      assert !Found(needle, h, i);
    }
  }

  lemma Regroup(a: string, b: string, c: string)
    ensures a + (b + c) == a + b + c
  {
  }

  lemma NextNoneAcross(needle: string, h: string, i: nat, next: nat)
    requires needle != "" && i < |h| && NoneAcross(needle, h, i)
    requires if i in ForwardStarts(needle, h) then next == i + |needle| else next == i + 1
    ensures NoneAcross(needle, h, next)
  {
    ForwardStartsApart(needle, h);
    forall e | next <= e < |h| && Found(needle, h, e)
      ensures e + 1 - |needle| >= next
    {
      var s := e + 1 - |needle|;
      assert s >= i;
      assert s in ForwardStarts(needle, h);
    }
  }

  /** Left-to-right replacement is the rendering of what the forward scanner finds. */
  lemma ReplacedIsRendered(needle: string, repl: string, h: string)
    requires needle != ""
    ensures Replaced(needle, repl, h) == Rendered(h, |needle|, repl, ForwardStarts(needle, h), 0)
  {
    forall e | 0 <= e < |h| && Found(needle, h, e)
      ensures e + 1 - |needle| >= 0
    {
      FoundIsOccurrence(needle, h, e);
    }
    ForwardRendered(needle, repl, h, 0);
  }

  /** Renderings differ if their first different start would be replaced by something that begins otherwise. */
  lemma {:induction false} RenderedDiffer(h: string, n: nat, repl: string, s1: set<nat>, s2: set<nat>, k: nat, i: nat)
    requires n > 0 && Apart(s1, n, |h|) && k <= i < |h| && i in s1 && i !in s2
    requires forall x | x < i :: x in s1 <==> x in s2
    requires repl != "" && repl[0] != h[i]
    ensures Rendered(h, n, repl, s1, k) != Rendered(h, n, repl, s2, k)
    decreases |h| - k
  {
    if k == i {
      assert Rendered(h, n, repl, s1, k)[0] == repl[0];
      assert Rendered(h, n, repl, s2, k)[0] == h[i];
    } else if k in s1 {
      RenderedDiffer(h, n, repl, s1, s2, k + n, i);
      SameBehind(repl, Rendered(h, n, repl, s1, k + n), Rendered(h, n, repl, s2, k + n));
    } else {
      RenderedDiffer(h, n, repl, s1, s2, k + 1, i);
      SameBehind([h[k]], Rendered(h, n, repl, s1, k + 1), Rendered(h, n, repl, s2, k + 1));
    }
  }

  lemma SameBehind(a: string, b: string, c: string)
    requires b != c
    ensures a + b != a + c
  {
    assert (a + b)[|a|..] == b && (a + c)[|a|..] == c;
  }

  // ---------------------------------------------------------------- all occurrences

  /** Where the occurrences lie that are found one after the other from the left */
  function LeftmostStarts(needle: string, h: string, i: nat): set<nat>
    requires needle != ""
    decreases |h| - i
  {
    if i + |needle| > |h| then {}
    else if h[i..i + |needle|] == needle then {i} + LeftmostStarts(needle, h, i + |needle|)
    else LeftmostStarts(needle, h, i + 1)
  }

  /** The forward scanner finds all of them, and nothing else. */
  predicate FindsLeftmost(needle: string, h: string)
    requires needle != ""
  {
    ForwardStarts(needle, h) == LeftmostStarts(needle, h, 0)
  }

  predicate Repeats(needle: string) {
    forall k | 0 <= k < |needle| :: needle[k] == needle[0]
  }

  /** Where a character other than the needle's one comes soon, nothing can begin before it. */
  lemma {:induction false} LeftmostSkips(needle: string, h: string, i: nat, bad: nat)
    requires needle != "" && i <= bad + 1 && bad < i + |needle| && bad < |h| && h[bad] !in needle
    ensures LeftmostStarts(needle, h, i) == LeftmostStarts(needle, h, bad + 1)
    decreases |h| - i
  {
    if i <= bad {
      LeftmostSkips(needle, h, i + 1, bad);
      if i + |needle| <= |h| {
        assert h[i..i + |needle|][bad - i] == h[bad];
      } else {
        LeftmostEnds(needle, h, bad + 1);
      }
    }
  }

  lemma LeftmostEnds(needle: string, h: string, i: nat)
    requires needle != "" && i + |needle| > |h|
    ensures LeftmostStarts(needle, h, i) == {}
  {
  }

  /** A run of the needle's character is matched as it is read. */
  lemma {:induction false} RunMatches(needle: string, h: string, i: nat, m: nat)
    requires needle != "" && Repeats(needle) && i + m <= |h| && m < |needle| && Matched(needle, h, i) == 0
    requires forall k | i <= k < i + m :: h[k] == needle[0]
    ensures Matched(needle, h, i + m) == m
    decreases m
  {
    if m > 0 {
      RunMatches(needle, h, i, m - 1);
    }
  }

  function From(starts: set<nat>, i: nat): set<nat> {
    set x | x in starts && x >= i
  }

  lemma FromStart(starts: set<nat>, i: nat, n: nat, size: nat)
    requires n > 0 && Apart(starts, n, size) && i in starts
    ensures From(starts, i) == {i} + From(starts, i + n)
  {
  }

  lemma OccurrenceIsRun(needle: string, h: string, i: nat)
    requires needle != "" && Repeats(needle) && i + |needle| <= |h| && h[i..i + |needle|] == needle
    ensures forall k | i <= k < i + |needle| :: h[k] == needle[0]
  {
    forall k | i <= k < i + |needle|
      ensures h[k] == needle[0]
    {
      assert h[i..i + |needle|][k - i] == h[k];
    }
  }

  lemma RunIsOccurrence(needle: string, h: string, i: nat)
    requires needle != "" && Repeats(needle) && i + |needle| <= |h| && forall k | i <= k < i + |needle| :: h[k] == needle[0]
    ensures h[i..i + |needle|] == needle && LeftmostStarts(needle, h, i) == {i} + LeftmostStarts(needle, h, i + |needle|)
  {
    assert h[i..i + |needle|] == needle;
  }

  /** An occurrence where nothing is matched yet is found. */
  lemma OccurrenceFound(needle: string, h: string, i: nat)
    requires needle != "" && Repeats(needle) && i + |needle| <= |h| && Matched(needle, h, i) == 0 && h[i..i + |needle|] == needle
    ensures i in ForwardStarts(needle, h) && Matched(needle, h, i + |needle|) == 0
  {
    OccurrenceIsRun(needle, h, i);
    RunMatches(needle, h, i, |needle| - 1);
    assert StartsAt(needle, h, i);
  }

  lemma MismatchStartsOver(needle: string, h: string, i: nat, bad: nat)
    requires needle != "" && Repeats(needle) && i <= bad < |h| && Matched(needle, h, i) == 0 && bad < i + |needle|
    requires h[bad] != needle[0] && forall k | i <= k < bad :: h[k] == needle[0]
    ensures Matched(needle, h, bad + 1) == 0
  {
    RunMatches(needle, h, i, bad - i);
  }

  /** Another character within the needle's length: nothing is found up to it, and matching starts over behind it. */
  lemma NothingUpTo(needle: string, h: string, i: nat, bad: nat)
    requires needle != "" && Repeats(needle) && i <= bad < |h| && Matched(needle, h, i) == 0 && bad < i + |needle|
    requires h[bad] != needle[0] && forall k | i <= k < bad :: h[k] == needle[0]
    ensures Matched(needle, h, bad + 1) == 0
    ensures From(ForwardStarts(needle, h), i) == From(ForwardStarts(needle, h), bad + 1)
    ensures LeftmostStarts(needle, h, i) == LeftmostStarts(needle, h, bad + 1)
  {
    hide LeftmostStarts, Matched, Found, From;
    MismatchStartsOver(needle, h, i, bad);
    LeftmostSkips(needle, h, i, bad);
    NoneStartsBefore(needle, h, i, bad);
    FromLater(ForwardStarts(needle, h), i, bad + 1);
  }

  lemma FromLater(starts: set<nat>, i: nat, k: nat)
    requires i <= k && forall x | x in starts && x >= i :: x >= k
    ensures From(starts, i) == From(starts, k)
  {
  }

  lemma NoneStartsBefore(needle: string, h: string, i: nat, bad: nat)
    requires needle != "" && Repeats(needle) && i <= bad < |h| && bad < i + |needle| && h[bad] != needle[0]
    ensures forall x | x in ForwardStarts(needle, h) && x >= i :: x >= bad + 1
  {
    hide Found;
    forall x | x in ForwardStarts(needle, h) && x >= i
      ensures x >= bad + 1
    {
      FoundIsOccurrence(needle, h, x + |needle| - 1);
      OccurrenceIsRun(needle, h, x);
    }
  }

  /** The forward scanner loses nothing if the needle repeats one character. */
  lemma {:induction false} RepeatsFinds(needle: string, h: string, i: nat)
    requires needle != "" && Repeats(needle) && i <= |h| && Matched(needle, h, i) == 0
    ensures From(ForwardStarts(needle, h), i) == LeftmostStarts(needle, h, i)
    decreases |h| - i
  {
    hide ForwardStarts, LeftmostStarts, Matched, From, Apart, RunLength, Repeats;
    var n, starts := |needle|, ForwardStarts(needle, h);
    var m := RunLength(h, needle[0], i, n);
    if m == n {
      RunIsOccurrence(needle, h, i);
      OccurrenceFound(needle, h, i);
      RepeatsFinds(needle, h, i + n);
      ForwardStartsApart(needle, h);
      FromStart(starts, i, n, |h|);
    } else if i + m == |h| {
      LeftmostEnds(needle, h, i);
      FromNone(needle, h, i);
    } else {
      NothingUpTo(needle, h, i, i + m);
      RepeatsFinds(needle, h, i + m + 1);
    }
  }

  lemma FromNone(needle: string, h: string, i: nat)
    requires needle != "" && i + |needle| > |h|
    ensures From(ForwardStarts(needle, h), i) == {}
  {
  }

  /** How many characters from i on are a, up to n */
  function RunLength(h: string, a: char, i: nat, n: nat): (m: nat)
    requires i <= |h|
    ensures m <= n && i + m <= |h| && forall k | i <= k < i + m :: h[k] == a
    ensures m < n ==> i + m == |h| || h[i + m] != a
    decreases n
  {
    if n == 0 || i == |h| || h[i] != a then 0 else 1 + RunLength(h, a, i + 1, n - 1)
  }

  lemma {:induction false} SameAsNext(needle: string, k: nat)
    requires k < |needle| && forall x | 0 <= x < |needle| - 1 :: needle[x + 1] == needle[x]
    ensures needle[k] == needle[0]
  {
    if k > 0 {
      SameAsNext(needle, k - 1);
      assert needle[k - 1 + 1] == needle[k - 1];
    }
  }

  /** A needle of different characters is missed behind one more copy of its first one. */
  lemma OthersAreMissed(needle: string)
    requires needle != "" && !Repeats(needle)
    ensures !FindsLeftmost(needle, [needle[0]] + needle)
  {
    var n, h := |needle|, [needle[0]] + needle;
    FirstCharacterTwice(needle);
    if h[0..n] == needle {
      forall x | 0 <= x < n - 1
        ensures needle[x + 1] == needle[x]
      {
        assert h[0..n][x + 1] == h[x + 1];
      }
      forall k | 0 <= k < n
        ensures needle[k] == needle[0]
      {
        SameAsNext(needle, k);
      }
    }
    assert h[1..1 + n] == needle;
    assert 1 in LeftmostStarts(needle, h, 1);
  }

  /** The documentation's promise to replace all occurrences: kept for all strings by needles that repeat one character, and by no others. */
  lemma FindsLeftmostExactlyWhen(needle: string)
    requires needle != ""
    ensures (forall h :: FindsLeftmost(needle, h)) <==> Repeats(needle)
  {
    if Repeats(needle) {
      forall h
        ensures FindsLeftmost(needle, h)
      {
        RepeatsFinds(needle, h, 0);
        assert From(ForwardStarts(needle, h), 0) == ForwardStarts(needle, h);
      }
    } else {
      OthersAreMissed(needle);
    }
  }
}
