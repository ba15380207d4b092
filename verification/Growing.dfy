/** safestrap-functions.c: when a replacement longer than the needle comes out right. */
module Growing {
  import opened Machine
  import opened CText
  import opened Scanners
  import opened Rendering
  import opened GrowingPass

  /** What the documentation asks for: the replaced string, its terminator, and nothing else touched */
  predicate Right(needle: string, repl: string, h: string, buf: string)
    requires Grows(needle, repl)
  {
    var t := Replaced(needle, repl, h);
    |t| < |buf| && Grown(buf, needle, repl, h) == Done(t + "\0" + buf[|t| + 1..])
  }

  lemma PassStarts(needle: string, repl: string, h: string, buf: string)
    requires IsNeedle(needle) && Grows(needle, repl) && HoldsIn(buf, h) && |Replaced(needle, repl, h)| < |buf|
    ensures var t, g := Replaced(needle, repl, h), h + "\0";
            InPass(buf, needle, repl, g, |t| + 1, |h|, |t|, 0)
  {
    var t, g := Replaced(needle, repl, h), h + "\0";
    OutGrows(needle, repl, h, |h|);
    assert buf[..|h| + 1] == g;
    assert Tail(needle, repl, g, |g|) == "";
    assert MatchedBack(needle, g, |g|) == 0;
    assert buf[|t| + 1..|t| + 1] == g[|g|..|g|] + "";
  }

  lemma TailIs(needle: string, repl: string, h: string)
    requires IsNeedle(needle) && '\0' !in h
    ensures Tail(needle, repl, h + "\0", 0) == ReplacedBack(needle, repl, h) + "\0"
  {
    Terminated(needle, h);
    BackStartsApart(needle, h);
    RenderedTerminated(h, |needle|, repl, BackStarts(needle, h), 0);
  }

  lemma ReplacedLength(needle: string, repl: string, h: string) returns (finds: nat)
    requires Grows(needle, repl)
    ensures |Replaced(needle, repl, h)| == |h| + (|repl| - |needle|) * finds
  {
    ReplacedIsRendered(needle, repl, h);
    finds := RenderedLength(h, |needle|, repl, ForwardStarts(needle, h), 0);
  }

  /** The second pass, for all strings, replacements and buffers */
  lemma GrowingOutcome(needle: string, repl: string, h: string, buf: string)
    requires IsNeedle(needle) && Grows(needle, repl) && HoldsIn(buf, h)
    ensures var t, back, o := Replaced(needle, repl, h), ReplacedBack(needle, repl, h), Grown(buf, needle, repl, h);
            && (|t| >= |buf| ==> o == Outside)
            && (|t| < |buf| && |back| == |t| ==> o == Done(back + "\0" + buf[|t| + 1..]))
            && (|t| < |buf| && |back| < |t| ==> o == Outside)
            && (|t| < |buf| && |back| > |t| && |repl| > |needle| + |h| + 1 ==> o == Outside)
  {
    var t, g := Replaced(needle, repl, h), h + "\0";
    if |t| < |buf| {
      hide Replaced, ReplacedBack, InPass, Tail, Backwards, MatchedBack;
      PassStarts(needle, repl, h, buf);
      TailIs(needle, repl, h);
      var finds := ReplacedLength(needle, repl, h);
      PassOutcome(buf, needle, repl, g, |t| + 1, |h|, |t|, 0, finds);
    }
  }

  lemma AgreedIsReplaced(needle: string, repl: string, h: string)
    requires needle != "" && ScansAgree(needle, h)
    ensures ReplacedBack(needle, repl, h) == Replaced(needle, repl, h)
  {
    ReplacedIsRendered(needle, repl, h);
  }

  // ---------------------------------------------------------------- scans that differ

  /** The first place below `limit` where the two scanners differ, or `limit` */
  function FirstDifference(s1: set<nat>, s2: set<nat>, k: nat, limit: nat): (i: nat)
    requires k <= limit
    ensures k <= i <= limit && (i < limit ==> (i in s1) != (i in s2))
    ensures forall x | k <= x < i :: x in s1 <==> x in s2
    decreases limit - k
  {
    if k == limit || (k in s1) != (k in s2) then k else FirstDifference(s1, s2, k + 1, limit)
  }

  /** Where the scans differ, some replacement makes the difference visible. */
  lemma DifferenceShows(needle: string, h: string) returns (repl: string)
    requires needle != "" && !ScansAgree(needle, h)
    ensures Grows(needle, repl) && '\0' !in repl && |repl| > |needle| + |h| + 1
    ensures ReplacedBack(needle, repl, h) != Replaced(needle, repl, h)
  {
    var n, s1, s2 := |needle|, ForwardStarts(needle, h), BackStarts(needle, h);
    var i := FirstDifference(s1, s2, 0, |h|);
    assert i < |h| by {
      if i == |h| {
        assert forall x :: x in s1 <==> x in s2;
      }
    }
    var c := if h[i] == 'x' then 'y' else 'x';
    repl := seq(n + |h| + 2, k => c);
    ForwardStartsApart(needle, h);
    BackStartsApart(needle, h);
    ReplacedIsRendered(needle, repl, h);
    if i in s1 {
      RenderedDiffer(h, n, repl, s1, s2, 0, i);
    } else {
      RenderedDiffer(h, n, repl, s2, s1, 0, i);
    }
  }

  /** A buffer with room to spare */
  function Roomy(h: string, size: nat): (buf: string)
    ensures |buf| > size && ('\0' !in h ==> HoldsIn(buf, h))
  {
    h + "\0" + seq(size, k => 'z')
  }

  /**
   In a string, a growing replacement comes out right for every replacement text and every buffer with room for it
   if and only if both scanners find the same in that string.
   */
  lemma GrowingIsRightExactlyWhen(needle: string, h: string)
    requires IsNeedle(needle) && '\0' !in h
    ensures (forall repl, buf | Grows(needle, repl) && '\0' !in repl && HoldsIn(buf, h) && |Replaced(needle, repl, h)| < |buf| ::
               Right(needle, repl, h, buf))
            <==> ScansAgree(needle, h)
  {
    hide Replaced, ReplacedBack, Grown, ScansAgree;
    if ScansAgree(needle, h) {
      forall repl, buf | Grows(needle, repl) && '\0' !in repl && HoldsIn(buf, h) && |Replaced(needle, repl, h)| < |buf|
        ensures Right(needle, repl, h, buf)
      {
        GrowingOutcome(needle, repl, h, buf);
        AgreedIsReplaced(needle, repl, h);
      }
    } else {
      var repl := DifferenceShows(needle, h);
      var buf := Roomy(h, |Replaced(needle, repl, h)|);
      GrowingOutcome(needle, repl, h, buf);
      NotRight(needle, repl, h, buf);
    }
  }

  lemma NotRight(needle: string, repl: string, h: string, buf: string)
    requires Grows(needle, repl)
    requires var t, back, o := Replaced(needle, repl, h), ReplacedBack(needle, repl, h), Grown(buf, needle, repl, h);
             |t| < |buf| && back != t && (|back| == |t| ==> o == Done(back + "\0" + buf[|t| + 1..])) && (|back| != |t| ==> o == Outside)
    ensures !Right(needle, repl, h, buf)
  {
    var t, back := Replaced(needle, repl, h), ReplacedBack(needle, repl, h);
    if |back| == |t| {
      var rest := "\0" + buf[|t| + 1..];
      assert back + "\0" + buf[|t| + 1..] == back + rest && t + "\0" + buf[|t| + 1..] == t + rest;
      assert (back + rest)[..|t|] == back && (t + rest)[..|t|] == t;
    }
  }

  // ---------------------------------------------------------------- capacity

  /**
   A call with the buffer's own length for its capacity, which the first pass accepts: it stays inside of the buffer and
   leaves the whole result there, terminator included, if and only if the result does not fill the buffer exactly.
   */
  lemma CapacityKeptExactlyWhen(needle: string, repl: string, h: string, buf: string)
    requires IsNeedle(needle) && Grows(needle, repl) && HoldsIn(buf, h) && ScansAgree(needle, h)
    requires |Replaced(needle, repl, h)| <= |buf|
    ensures Right(needle, repl, h, buf) <==> |Replaced(needle, repl, h)| != |buf|
    ensures Grown(buf, needle, repl, h) == Outside <==> |Replaced(needle, repl, h)| == |buf|
  {
    hide Replaced, ReplacedBack, Grown, ScansAgree;
    GrowingOutcome(needle, repl, h, buf);
    AgreedIsReplaced(needle, repl, h);
  }

  /** "a" to "bb" in "a" with two bytes: accepted, and the terminator is written behind the buffer. */
  lemma FullBufferOverflows()
    ensures var needle, repl, h, buf := "a", "bb", "a", "a\0";
            Replaced(needle, repl, h) == "bb" && |buf| == 2 && Grown(buf, needle, repl, h) == Outside
  {
    var needle, repl, h, buf := "a", "bb", "a", "a\0";
    OneCharacterScansAgree(needle, h);
    OneCharacterReplaced('a', repl, h, 1);
    assert h[..1] == h && ReplaceEach('a', repl, h) == ReplaceEach('a', repl, h[..0]) + repl;
    assert Replaced(needle, repl, h) == repl;
    assert buf[..1] == h && buf[1] == '\0';
    hide Replaced, ScansAgree;
    CapacityKeptExactlyWhen(needle, repl, h, buf);
  }

  /** "ab" to "xyz" in "aab": the first pass finds nothing, the second finds one and overwrites the "a" in front of it. */
  lemma TextCorrupted()
    ensures Replaced("ab", "xyz", "aab") == "aab" && Grown("aab\0", "ab", "xyz", "aab") == Done("xyz\0")
  {
    var needle, repl, buf := "ab", "xyz", "aab\0";
    ScansCanDisagree();
    assert buf[3] == '\0' && buf[2] == 'b' && buf[1] == 'a' && needle[1] == 'b' && needle[0] == 'a';
    assert buf[3 := buf[3]] == buf && buf[2 := buf[2]] == buf && buf[1 := buf[1]] == buf;
    assert Put(buf, 0, repl) == "xyz\0";
    assert Backwards("xyz\0", needle, repl, 0, -1, 0) == Done("xyz\0");
    assert Backwards(buf, needle, repl, 1, 1, 1) == Done("xyz\0");
    assert Backwards(buf, needle, repl, 2, 2, 0) == Backwards(buf, needle, repl, 1, 1, 1);
    assert Backwards(buf, needle, repl, 3, 3, 0) == Backwards(buf, needle, repl, 2, 2, 0);
  }

  /** "ab" to "xyz" in "abb": the first pass finds one, the second none, so it goes on reading in front of the buffer. */
  lemma ReadInFront(buf: string)
    requires HoldsIn(buf, "abb")
    ensures Replaced("ab", "xyz", "abb") == "xyzb" && Grown(buf, "ab", "xyz", "abb") == Outside
  {
    var needle, repl, h := "ab", "xyz", "abb";
    assert h[0] == 'a' && h[1] == 'b' && h[2] == 'b' && needle[0] == 'a' && needle[1] == 'b';
    assert Matched(needle, h, 0) == 0 && Matched(needle, h, 1) == 1 && Matched(needle, h, 2) == 0;
    assert Found(needle, h, 1) && !Found(needle, h, 2);
    assert Out(needle, repl, h, 0) == "" && Out(needle, repl, h, 2) == repl && Out(needle, repl, h, 3) == repl + [h[2]];
    assert MatchedBack(needle, h, 3) == 0 && MatchedBack(needle, h, 2) == 1 && MatchedBack(needle, h, 1) == 0;
    assert forall i | 0 <= i < 3 :: !FoundBack(needle, h, i);
    RenderedCopies(h, 2, repl, BackStarts(needle, h), 0, 3);
    assert h[0..3] == h;
    hide Grown, Out, Found, FoundBack;
    GrowingOutcome(needle, repl, h, buf);
  }
}
