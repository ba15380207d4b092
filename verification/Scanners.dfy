/**
 safestrap-functions.c: which occurrences the two scanners of str_replace find, and the string that
 replacing them yields.  A scanner that meets a wrong character starts over with the next one; it
 does not try the wrong character again as the first of a new occurrence.
 */
module Scanners {

  predicate IsNeedle(needle: string) {
    needle != "" && '\0' !in needle
  }

  // ---------------------------------------------------------------- scanning forwards

  /** Characters of the needle that locate_forward has matched when it has read h[..i]. */
  function Matched(needle: string, h: string, i: nat): (j: nat)
    requires needle != "" && i <= |h|
    ensures j < |needle| && j <= i
  {
    if i == 0 then 0
    else
      var j := Matched(needle, h, i - 1);
      if h[i - 1] == needle[j] && j + 1 < |needle| then j + 1 else 0
  }

  /** locate_forward returns true for the character at position i. */
  predicate Found(needle: string, h: string, i: nat)
    requires needle != "" && i < |h|
  {
    Matched(needle, h, i) == |needle| - 1 && h[i] == needle[|needle| - 1]
  }

  /** Left-to-right replacement of what the forward scanner finds, for the first i characters. */
  function Out(needle: string, repl: string, h: string, i: nat): string
    requires needle != "" && i <= |h|
  {
    if i == 0 then ""
    else if Found(needle, h, i - 1) then Out(needle, repl, h, i - |needle|) + repl
    else Out(needle, repl, h, i - 1) + [h[i - 1]]
  }

  function Replaced(needle: string, repl: string, h: string): string
    requires needle != ""
  {
    Out(needle, repl, h, |h|)
  }

  /** The characters matched so far are the beginning of the needle, and nothing was found among them. */
  lemma {:induction false} MatchedText(needle: string, h: string, i: nat)
    requires needle != "" && i <= |h|
    ensures var j := Matched(needle, h, i);
            && h[i - j..i] == needle[..j]
            && forall k | i - j <= k < i :: !Found(needle, h, k) && Matched(needle, h, k) == k - (i - j)
  {
    if i > 0 {
      MatchedText(needle, h, i - 1);
      var j := Matched(needle, h, i);
      if j > 0 {
        assert h[i - j..i] == h[i - j..i - 1] + [h[i - 1]];
        assert needle[..j] == needle[..j - 1] + [needle[j - 1]];
      }
    }
  }

  /** What is found is an occurrence of the needle. */
  lemma FoundIsOccurrence(needle: string, h: string, i: nat)
    requires needle != "" && i < |h| && Found(needle, h, i)
    ensures i + 1 >= |needle| && h[i + 1 - |needle|..i + 1] == needle
    ensures forall k | i + 1 - |needle| <= k < i :: !Found(needle, h, k)
  {
    MatchedText(needle, h, i);
    var n := |needle|;
    assert h[i + 1 - n..i + 1] == h[i + 1 - n..i] + [h[i]];
    assert needle == needle[..n - 1] + [needle[n - 1]];
  }

  /** Where nothing is found, characters are copied. */
  lemma {:induction false} OutCopies(needle: string, repl: string, h: string, from: nat, i: nat)
    requires needle != "" && from <= i <= |h|
    requires forall k | from <= k < i :: !Found(needle, h, k)
    ensures Out(needle, repl, h, i) == Out(needle, repl, h, from) + h[from..i]
  {
    if from < i {
      OutCopies(needle, repl, h, from, i - 1);
      assert h[from..i] == h[from..i - 1] + [h[i - 1]];
    } else {
      assert h[from..i] == "";
    }
  }

  lemma {:induction false} OutGrows(needle: string, repl: string, h: string, i: nat)
    requires needle != "" && i <= |h| && |needle| <= |repl|
    ensures |Out(needle, repl, h, i)| >= i
  {
    if i > 0 {
      OutGrows(needle, repl, h, if Found(needle, h, i - 1) then i - |needle| else i - 1);
    }
  }

  /** The last characters of the output, while a match is under way, are plain copies. */
  lemma OutUnderWay(needle: string, repl: string, h: string, i: nat)
    requires needle != "" && i <= |h|
    ensures var j := Matched(needle, h, i);
            Out(needle, repl, h, i) == Out(needle, repl, h, i - j) + h[i - j..i]
  {
    MatchedText(needle, h, i);
    OutCopies(needle, repl, h, i - Matched(needle, h, i), i);
  }

  /** A find takes back what was copied of the needle. */
  lemma OutAtFind(needle: string, repl: string, h: string, i: nat)
    requires needle != "" && i < |h| && Found(needle, h, i)
    ensures Matched(needle, h, i) == |needle| - 1 && Matched(needle, h, i + 1) == 0 && i + 1 >= |needle|
    ensures Out(needle, repl, h, i + 1) == Out(needle, repl, h, i + 1 - |needle|) + repl
    ensures Out(needle, repl, h, i) == Out(needle, repl, h, i + 1 - |needle|) + h[i + 1 - |needle|..i]
  {
    OutUnderWay(needle, repl, h, i);
  }

  lemma {:induction false} MatchesFrom(needle: string, h: string, i: nat, j: nat)
    requires needle != "" && j < |needle| && i + j <= |h| && Matched(needle, h, i) == 0 && h[i..i + j] == needle[..j]
    ensures Matched(needle, h, i + j) == j
  {
    if j > 0 {
      assert h[i..i + j - 1] == h[i..i + j][..j - 1] && needle[..j - 1] == needle[..j][..j - 1];
      MatchesFrom(needle, h, i, j - 1);
      assert h[i + j - 1] == h[i..i + j][j - 1] == needle[..j][j - 1];
    }
  }

  /** An occurrence at the beginning, or behind a character that is not in the needle, is found. */
  lemma IsolatedIsFound(needle: string, h: string, i: nat)
    requires needle != "" && i + |needle| <= |h| && h[i..i + |needle|] == needle && (i > 0 ==> h[i - 1] !in needle)
    ensures Found(needle, h, i + |needle| - 1)
  {
    var n := |needle|;
    assert i > 0 ==> h[i - 1] != needle[Matched(needle, h, i - 1)];
    assert h[i..i + n - 1] == h[i..i + n][..n - 1] == needle[..n - 1];
    MatchesFrom(needle, h, i, n - 1);
    assert h[i + n - 1] == h[i..i + n][n - 1];
  }

  // ---------------------------------------------------------------- scanning backwards

  /** Characters of the needle, from its end, that locate_backward has matched when it has read h[i..]. */
  function MatchedBack(needle: string, h: string, i: nat): (j: nat)
    requires needle != "" && i <= |h|
    ensures j < |needle| && i + j <= |h|
    decreases |h| - i
  {
    if i == |h| then 0
    else
      var j := MatchedBack(needle, h, i + 1);
      if h[i] == needle[|needle| - 1 - j] && j + 1 < |needle| then j + 1 else 0
  }

  predicate FoundBack(needle: string, h: string, i: nat)
    requires needle != "" && i < |h|
  {
    MatchedBack(needle, h, i + 1) == |needle| - 1 && h[i] == needle[0]
  }

  lemma {:induction false} MatchesBackFrom(needle: string, h: string, i: nat, j: nat)
    requires needle != "" && j < |needle| && j <= i <= |h| && MatchedBack(needle, h, i) == 0 && h[i - j..i] == needle[|needle| - j..]
    ensures MatchedBack(needle, h, i - j) == j
  {
    if j > 0 {
      var n := |needle|;
      assert h[i - (j - 1)..i] == h[i - j..i][1..] && needle[n - (j - 1)..] == needle[n - j..][1..];
      MatchesBackFrom(needle, h, i, j - 1);
      assert h[i - j] == h[i - j..i][0] == needle[n - j..][0];
    }
  }

  /** Backwards: an occurrence at the end, or in front of a character that is not in the needle. */
  lemma IsolatedIsFoundBack(needle: string, h: string, i: nat)
    requires needle != "" && i + |needle| <= |h| && h[i..i + |needle|] == needle
    requires i + |needle| < |h| ==> h[i + |needle|] !in needle
    ensures FoundBack(needle, h, i)
  {
    var n := |needle|;
    assert i + n < |h| ==> h[i + n] != needle[n - 1 - MatchedBack(needle, h, i + n + 1)];
    assert h[i + n - (n - 1)..i + n] == h[i..i + n][1..] == needle[1..];
    MatchesBackFrom(needle, h, i + n, n - 1);
    assert h[i] == h[i..i + n][0];
  }

  predicate StartsAt(needle: string, h: string, i: nat)
    requires needle != ""
  {
    i + |needle| <= |h| && Found(needle, h, i + |needle| - 1)
  }

  /** Where the finds of the forward scanner begin */
  function ForwardStarts(needle: string, h: string): set<nat>
    requires needle != ""
  {
    set i: nat | i < |h| && StartsAt(needle, h, i)
  }

  /** Where the finds of the backward scanner begin */
  function BackStarts(needle: string, h: string): set<nat>
    requires needle != ""
  {
    set i: nat | i < |h| && FoundBack(needle, h, i)
  }

  /** Both scanners find the same occurrences. */
  predicate ScansAgree(needle: string, h: string)
    requires needle != ""
  {
    ForwardStarts(needle, h) == BackStarts(needle, h)
  }

  /** Finds lie inside the string, and do not overlap. */
  predicate Apart(starts: set<nat>, n: nat, size: nat) {
    && (forall i | i in starts :: i + n <= size)
    && (forall i, k | i in starts && k in starts && i < k :: i + n <= k)
  }

  lemma {:induction false} MatchedBackAt(needle: string, h: string, i: nat, k: nat)
    requires needle != "" && i <= |h| && i <= k < i + MatchedBack(needle, h, i)
    ensures !FoundBack(needle, h, k)
    decreases |h| - i
  {
    assert MatchedBack(needle, h, i + 1) == MatchedBack(needle, h, i) - 1;
    if i < k {
      MatchedBackAt(needle, h, i + 1, k);
    }
  }

  /** No find begins among the characters matched. */
  lemma MatchedBackText(needle: string, h: string, i: nat)
    requires needle != "" && i <= |h|
    ensures forall k | i <= k < i + MatchedBack(needle, h, i) :: !FoundBack(needle, h, k)
  {
    forall k | i <= k < i + MatchedBack(needle, h, i)
      ensures !FoundBack(needle, h, k)
    {
      MatchedBackAt(needle, h, i, k);
    }
  }

  lemma BackStartsApart(needle: string, h: string)
    requires needle != ""
    ensures Apart(BackStarts(needle, h), |needle|, |h|)
  {
    forall i | i in BackStarts(needle, h)
      ensures i + |needle| <= |h| && forall k | i < k < i + |needle| :: k !in BackStarts(needle, h)
    {
      MatchedBackText(needle, h, i + 1);
    }
  }

  lemma ForwardStartsApart(needle: string, h: string)
    requires needle != ""
    ensures Apart(ForwardStarts(needle, h), |needle|, |h|)
  {
    forall i, k | i in ForwardStarts(needle, h) && k in ForwardStarts(needle, h) && i < k
      ensures i + |needle| <= k
    {
      FoundIsOccurrence(needle, h, k + |needle| - 1);
    }
  }

  // ---------------------------------------------------------------- when the scanners agree

  lemma OneCharacterScansAgree(needle: string, h: string)
    requires |needle| == 1
    ensures ScansAgree(needle, h)
  {
    assert forall i: nat | i < |h| :: Found(needle, h, i) == FoundBack(needle, h, i);
  }

  /** For one character, str_replace replaces every occurrence of it. */
  function ReplaceEach(c: char, repl: string, h: string): string {
    if h == "" then "" else ReplaceEach(c, repl, h[..|h| - 1]) + (if h[|h| - 1] == c then repl else [h[|h| - 1]])
  }

  lemma {:induction false} OneCharacterReplaced(c: char, repl: string, h: string, i: nat)
    requires i <= |h|
    ensures Out([c], repl, h, i) == ReplaceEach(c, repl, h[..i])
  {
    if i > 0 {
      assert h[..i][..i - 1] == h[..i - 1];
      OneCharacterReplaced(c, repl, h, i - 1);
    }
  }

  /** "ab" in "aab" is missed forwards and found backwards. */
  lemma ScansCanDisagree()
    ensures var h := "aab";
            && FoundBack("ab", h, 1) && !Found("ab", h, 0) && !Found("ab", h, 1) && !Found("ab", h, 2)
            && !ScansAgree("ab", h) && Replaced("ab", "xyz", h) == h
  {
    var needle, h := "ab", "aab";
    assert h[0] == 'a' && h[1] == 'a' && h[2] == 'b' && needle[0] == 'a' && needle[1] == 'b';
    assert Matched(needle, h, 0) == 0 && Matched(needle, h, 1) == 1 && Matched(needle, h, 2) == 0;
    assert MatchedBack(needle, h, 3) == 0 && MatchedBack(needle, h, 2) == 1;
    assert FoundBack(needle, h, 1) && !Found(needle, h, 1 + |needle| - 1);
    assert 1 in BackStarts(needle, h) && 1 !in ForwardStarts(needle, h);
    assert forall k | 0 <= k < 3 :: !Found(needle, h, k);
    OutCopies(needle, "xyz", h, 0, 3);
    assert h[0..3] == h;
  }

  /** Going backwards, the end of the needle is matched as far as it is there. */
  lemma {:induction false} MatchedBackInto(needle: string, pre: string, i: nat)
    requires 0 < i <= |needle|
    ensures MatchedBack(needle, pre + needle, |pre| + i) == |needle| - i
    decreases |needle| - i
  {
    if i < |needle| {
      MatchedBackInto(needle, pre, i + 1);
      assert (pre + needle)[|pre| + i] == needle[i];
    }
  }

  /** Behind one more copy of its first character, a longer needle is found backwards but not forwards. */
  lemma FirstCharacterTwice(needle: string)
    requires |needle| >= 2
    ensures var h := [needle[0]] + needle;
            1 in BackStarts(needle, h) && 1 !in ForwardStarts(needle, h) && !ScansAgree(needle, h)
  {
    var h := [needle[0]] + needle;
    MatchedBackInto(needle, [needle[0]], 1);
    assert h[1] == needle[0];
    assert FoundBack(needle, h, 1);
    assert Matched(needle, h, 0) == 0 && Matched(needle, h, 1) == 1;
    MatchedText(needle, h, |needle|);
    assert !Found(needle, h, 1 + |needle| - 1);
    assert 1 in BackStarts(needle, h) && 1 !in ForwardStarts(needle, h);
  }

  /** No needle but a single character is safe from the scanners in every string. */
  lemma ScansAgreeExactlyWhen(needle: string)
    requires needle != ""
    ensures (forall h :: ScansAgree(needle, h)) <==> |needle| == 1
  {
    if |needle| == 1 {
      forall h
        ensures ScansAgree(needle, h)
      {
        OneCharacterScansAgree(needle, h);
      }
    } else {
      FirstCharacterTwice(needle);
    }
  }

  // ---------------------------------------------------------------- the terminating NUL

  lemma {:induction false} SamePrefix(needle: string, h: string, g: string, i: nat)
    requires needle != "" && h <= g && i <= |h|
    ensures Matched(needle, g, i) == Matched(needle, h, i)
  {
    if i > 0 {
      assert g[i - 1] == h[i - 1];
      SamePrefix(needle, h, g, i - 1);
    }
  }

  lemma {:induction false} SameSuffix(needle: string, h: string, i: nat)
    requires IsNeedle(needle) && i <= |h|
    ensures MatchedBack(needle, h + "\0", i) == MatchedBack(needle, h, i)
    decreases |h| - i
  {
    var g := h + "\0";
    if i < |h| {
      SameSuffix(needle, h, i + 1);
    } else {
      assert MatchedBack(needle, g, |g|) == 0 && g[|h|] == '\0' && needle[|needle| - 1] in needle;
    }
  }

  /** The terminator belongs to no occurrence, so the scans may as well be made over the terminated string. */
  lemma Terminated(needle: string, h: string)
    requires IsNeedle(needle)
    ensures ForwardStarts(needle, h + "\0") == ForwardStarts(needle, h)
    ensures BackStarts(needle, h + "\0") == BackStarts(needle, h)
  {
    var g := h + "\0";
    assert needle[|needle| - 1] in needle && needle[0] in needle && g[|h|] == '\0';
    assert !Found(needle, g, |h|) && !FoundBack(needle, g, |h|);
    forall i: nat | i < |h|
      ensures Found(needle, g, i) == Found(needle, h, i) && FoundBack(needle, g, i) == FoundBack(needle, h, i)
    {
      SameFinds(needle, h, i);
    }
    forall i: nat
      ensures i in ForwardStarts(needle, g) <==> i in ForwardStarts(needle, h)
    {
      assert i + |needle| == |g| ==> !Found(needle, g, i + |needle| - 1);
    }
  }

  lemma SameFinds(needle: string, h: string, i: nat)
    requires IsNeedle(needle) && i < |h|
    ensures Found(needle, h + "\0", i) == Found(needle, h, i) && FoundBack(needle, h + "\0", i) == FoundBack(needle, h, i)
  {
    SamePrefix(needle, h, h + "\0", i);
    SameSuffix(needle, h, i + 1);
  }

  /** Every character read makes the output of a growing replacement longer. */
  lemma {:induction false} OutLonger(needle: string, repl: string, h: string, i: nat, k: nat)
    requires needle != "" && |needle| < |repl| && i <= k <= |h|
    ensures |Out(needle, repl, h, k)| >= |Out(needle, repl, h, i)| + (k - i)
  {
    if i < k {
      OutLonger(needle, repl, h, i, k - 1);
      OutUnderWay(needle, repl, h, k - 1);
    }
  }
}
