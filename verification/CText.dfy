/** NUL-terminated text in character buffers. */
module CText {

  /** The buffer contents hold the string `h`. */
  predicate HoldsIn(buf: string, h: string) {
    |h| < |buf| && buf[..|h|] == h && buf[|h|] == '\0' && '\0' !in h
  }

  predicate Holds(buf: array<char>, h: string)
    reads buf
  {
    HoldsIn(buf[..], h)
  }

  lemma NotAtEnd(s: string, h: string, read: nat)
    requires |h| < |s| && s[..|h|] == h && s[|h|] == '\0' && read <= |h| && s[read] != '\0'
    ensures read < |h| && s[read] == h[read]
  {
  }

  lemma NulAtEnd(s: string, h: string, read: nat)
    requires |h| < |s| && s[..|h|] == h && '\0' !in h && read <= |h| && s[read] == '\0'
    ensures read == |h|
  {
    assert forall k | 0 <= k < |h| :: s[..|h|][k] == h[k] && h[k] in h;
  }

  /** strlen */
  method StrLen(buf: array<char>, ghost h: string) returns (n: nat)
    requires Holds(buf, h)
    ensures n == |h|
  {
    n := 0;
    while buf[n] != '\0'
      invariant n <= |h|
      decreases |h| - n
    {
      NotAtEnd(buf[..], h, n);
      n := n + 1;
    }
    NulAtEnd(buf[..], h, n);
  }

  /** The string that a buffer with these contents is read as. */
  function CStr(s: string): (r: string)
    requires '\0' in s
    ensures |r| < |s| && r == s[..|r|] && s[|r|] == '\0' && '\0' !in r
  {
    if s[0] == '\0' then ""
    else
      assert s == [s[0]] + s[1..];
      [s[0]] + CStr(s[1..])
  }

  /** A character stands first at one place. */
  lemma SamePlace(s: string, c: char, k: nat, m: nat)
    requires k <= |s| && c !in s[..k] && (k < |s| ==> s[k] == c)
    requires m <= |s| && c !in s[..m] && (m < |s| ==> s[m] == c)
    ensures k == m
  {
    assert forall i | 0 <= i < k :: s[..k][i] == s[i];
    assert forall i | 0 <= i < m :: s[..m][i] == s[i];
  }

  lemma CStrIs(s: string, h: string)
    requires |h| < |s| && s[..|h|] == h && s[|h|] == '\0' && '\0' !in h
    ensures '\0' in s && CStr(s) == h
  {
    SamePlace(s, '\0', |CStr(s)|, |h|);
  }
}
