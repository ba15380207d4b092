/** partition.cpp, Process_TW_Flags as a program: it cuts up the flag list in its own buffer. */
module FlagProgram {
  import opened CText
  import opened FlagParser

  lemma {:induction false} SeparatedKeepsText(s: string, sep: char, skip: bool)
    requires '\0' !in s
    ensures '\0' !in Separated(s, sep, skip)
    decreases |s|
  {
    if s != "" {
      SeparatedKeepsText(s[1..], sep, Toggled(s[0], skip));
      assert s[0] in s;
    }
  }

  lemma SeparatedStep(orig: string, done: string, sep: char, skip: bool, i: nat)
    requires i < |orig| && Separated(orig, sep, false) == done + Separated(orig[i..], sep, skip)
    ensures var skip' := Toggled(orig[i], skip);
            Separated(orig, sep, false)
              == done + [if !skip' && orig[i] == sep then '\n' else orig[i]] + Separated(orig[i + 1..], sep, skip')
  {
    assert orig[i..][1..] == orig[i + 1..];
  }

  /** The first loop: separators outside of double quotes become newlines. */
  method SeparateFlags(flags: array<char>, sep: char, ghost text: string)
    requires Holds(flags, text)
    modifies flags
    ensures Holds(flags, Separated(text, sep, false))
  {
    var n := StrLen(flags, text);
    var i, skip := 0, false;
    assert text[0..] == text;
    while i < n
      invariant i <= n
      invariant Separated(text, sep, false) == flags[..i] + Separated(text[i..], sep, skip)
      invariant flags[i..n] == text[i..] && flags[n] == '\0'
    {
      assert flags[i] == flags[i..n][0] == text[i];
      assert flags[i + 1..n] == flags[i..n][1..] == text[i + 1..];
      ghost var done, rest := flags[..i], flags[i + 1..n];
      SeparatedStep(text, done, sep, skip, i);
      if flags[i] == '\"' {
        skip := !skip;
      }
      if !skip && flags[i] == sep {
        flags[i] := '\n';
      }
      assert flags[i + 1..n] == rest;
      assert flags[..i + 1] == done + [flags[i]];
      i := i + 1;
    }
    assert text[n..] == "";
    SeparatedKeepsText(text, sep, false);
  }

  /** What is left for strtok_r at `at` */
  predicate Left(buf: array<char>, at: nat, rest: string)
    reads buf
  {
    at + |rest| < buf.Length && buf[at..at + |rest|] == rest && buf[at + |rest|] == '\0' && '\0' !in rest
  }

  /** strtok_r passes over delimiters. */
  method SkipNewlines(buf: array<char>, at: nat, ghost rest: string) returns (start: nat, ghost rest': string)
    requires Left(buf, at, rest)
    ensures start < buf.Length && Left(buf, start, rest') && buf[start] != '\n'
    ensures Tokens(rest') == Tokens(rest) && |rest'| <= |rest|
  {
    start := at;
    rest' := rest;
    while buf[start] == '\n'
      invariant start < buf.Length && Left(buf, start, rest') && Tokens(rest') == Tokens(rest) && |rest'| <= |rest|
      decreases |rest'|
    {
      LeftAt(buf, start, rest', 0);
      assert buf[start + 1..start + |rest'|] == buf[start..start + |rest'|][1..];
      rest' := rest'[1..];
      start := start + 1;
    }
  }

  method FindEnd(buf: array<char>, start: nat, ghost rest: string) returns (end: nat)
    requires Left(buf, start, rest)
    ensures end == start + LineEnd(rest)
  {
    end := start;
    ghost var k := LineEnd(rest);
    assert buf[start] == buf[start + 0];
    while buf[end] != '\0' && buf[end] != '\n'
      invariant start <= end <= start + k
      decreases start + k - end
    {
      LeftAt(buf, start, rest, end - start);
      assert end - start < |rest|;
      assert rest[end - start] != '\n';
      end := end + 1;
    }
    LeftAt(buf, start, rest, end - start);
    EndOfToken(rest, end - start);
  }

  /** strtok_r with a newline for its separator */
  method StrTok(buf: array<char>, at: nat, ghost rest: string) returns (found: bool, token: string, save: nat, ghost rest': string)
    requires Left(buf, at, rest)
    modifies buf
    ensures found ==> Left(buf, save, rest') && |rest'| < |rest| && Tokens(rest) == [token] + Tokens(rest')
    ensures !found ==> Tokens(rest) == []
  {
    hide Tokens, Left;
    var start;
    start, rest' := SkipNewlines(buf, at, rest);
    if buf[start] == '\0' {
      LeftNothing(buf, start, rest');
      return false, "", start, rest';
    }
    LeftAt(buf, start, rest', 0);
    ghost var whole, k := rest', LineEnd(rest');
    var end := FindEnd(buf, start, rest');
    LeftText(buf, start, whole, k);
    token := buf[start..end];
    TokensSkip(whole);
    LeftAt(buf, start, whole, k);
    if buf[end] == '\0' {
      LeftNone(buf, end);
      return true, token, end, "";
    }
    rest' := rest'[k + 1..];
    CutOff(buf, start, end, whole);
    return true, token, end + 1, rest';
  }

  /** strtok_r ends the token with a NUL and goes on behind it. */
  method CutOff(buf: array<char>, ghost start: nat, end: nat, ghost whole: string)
    requires Left(buf, start, whole) && start <= end < start + |whole|
    modifies buf
    ensures Left(buf, end + 1, whole[end - start + 1..])
  {
    ghost var k := end - start;
    ghost var rest := whole[k + 1..];
    assert buf[start + k + 1..start + |whole|] == buf[start..start + |whole|][k + 1..];
    buf[end] := '\0';
    assert buf[start + k + 1..start + |whole|] == rest;
  }

  lemma LeftText(buf: array<char>, at: nat, rest: string, k: nat)
    requires Left(buf, at, rest) && k <= |rest|
    ensures at + k < buf.Length && buf[at..at + k] == rest[..k]
  {
    assert buf[at..at + |rest|][..k] == buf[at..at + k];
  }

  lemma LeftNone(buf: array<char>, at: nat)
    requires at < buf.Length && buf[at] == '\0'
    ensures Left(buf, at, "")
  {
  }

  lemma LeftNothing(buf: array<char>, at: nat, rest: string)
    requires Left(buf, at, rest) && buf[at] == '\0'
    ensures rest == "" && Tokens(rest) == []
  {
    LeftAt(buf, at, rest, 0);
  }

  lemma LeftAt(buf: array<char>, at: nat, rest: string, k: nat)
    requires Left(buf, at, rest) && k <= |rest|
    ensures k < |rest| ==> buf[at + k] == rest[k] && rest[k] in rest
    ensures k == |rest| ==> buf[at + k] == '\0'
  {
    assert k < |rest| ==> buf[at..at + |rest|][k] == rest[k];
  }

  lemma EndOfToken(rest: string, k: nat)
    requires k <= LineEnd(rest) && (k == |rest| || rest[k] == '\n')
    ensures k == LineEnd(rest)
  {
    assert rest[..k] == rest[..LineEnd(rest)][..k];
    SamePlace(rest, '\n', k, LineEnd(rest));
  }

  /** The newline behind a token is skipped together with it. */
  lemma TokensSkip(s: string)
    requires s != "" && s[0] != '\n'
    ensures var k := LineEnd(s);
            Tokens(s) == [s[..k]] + (if k < |s| then Tokens(s[k + 1..]) else Tokens(""))
  {
    var k := LineEnd(s);
    if k < |s| {
      assert s[k..][1..] == s[k + 1..];
    } else {
      assert s[k..] == "";
    }
  }

  /** The search for a token in the table */
  method ProcessToken(table: seq<Entry>, token: string) returns (outcome: Outcome)
    requires GoodTable(table)
    ensures outcome == TokenOutcome(table, token)
  {
    var k := 0;
    while k < |table|
      invariant k <= |table| && forall i | 0 <= i < k :: !Selects(table[i], token)
    {
      var e := table[k];
      var flagLen := |e.name|;
      if e.name <= token {
        if |token| > flagLen && e.name[flagLen - 1] != '=' && token[flagLen] != '=' {
          k := k + 1;
          continue;
        }
        OneEntry(table, token, k, First(table, token));
        var arg, val := token, false;
        if |token| > flagLen && token[flagLen] == '=' {
          arg := StripQuotes(token[flagLen + 1..]);
          if |arg| == 0 {
            return MissingArgument(e.name);
          }
          val := IsYes(arg[0]);
        } else if |token| == flagLen && e.name[flagLen - 1] == '=' {
          return MissingArgument(e.name);
        } else if |token| > flagLen {
          arg := StripQuotes(token[flagLen..]);
          if |arg| == 0 {
            return MissingArgument(e.name);
          }
        } else {
          val := true;
        }
        return Apply(e.flag, arg, val);
      }
      k := k + 1;
    }
    outcome := Unhandled(token);
  }

  /** Process_TW_Flags, with the calls of Apply_TW_Flag and the messages returned in order */
  method ProcessFlags(table: seq<Entry>, flags: array<char>, fstabVer: int, ghost text: string) returns (outcomes: seq<Outcome>)
    requires GoodTable(table) && Holds(flags, text)
    modifies flags
    ensures outcomes == Outcomes(table, Tokens(Separated(text, Separator(fstabVer), false)))
  {
    hide Tokens, Separated, TokenOutcome;
    var sep := ';';
    if fstabVer == 2 {
      sep := ',';
    }
    SeparateFlags(flags, sep, text);
    ghost var rest := Separated(text, sep, false);
    ghost var tokens := Tokens(rest);
    outcomes := [];
    var found, token, save;
    found, token, save, rest := StrTok(flags, 0, rest);
    while found
      invariant |outcomes| <= |tokens|
      invariant found ==> Left(flags, save, rest) && tokens == tokens[..|outcomes|] + [token] + Tokens(rest)
      invariant !found ==> tokens == tokens[..|outcomes|]
      invariant outcomes == Outcomes(table, tokens[..|outcomes|])
      decreases found, |rest|
    {
      var outcome := ProcessToken(table, token);
      assert tokens[..|outcomes| + 1] == tokens[..|outcomes|] + [token];
      outcomes := outcomes + [outcome];
      found, token, save, rest := StrTok(flags, save, rest);
    }
    assert tokens == tokens[..|outcomes|];
  }

  /** Flags that were printed into the buffer come out again. */
  method ProcessPrinted(table: seq<Entry>, flags: array<char>, fstabVer: int, ghost fs: seq<Flag>) returns (outcomes: seq<Outcome>)
    requires GoodTable(table) && forall k | 0 <= k < |fs| :: PlainFlag(fs[k], Separator(fstabVer))
    requires Holds(flags, Joined(PrintedAll(fs), Separator(fstabVer)))
    modifies flags
    ensures |outcomes| == |fs| && forall k | 0 <= k < |fs| :: outcomes[k] == Meaning(table, fs[k])
  {
    FlagsRoundTrip(table, fs, fstabVer);
    outcomes := ProcessFlags(table, flags, fstabVer, Joined(PrintedAll(fs), Separator(fstabVer)));
  }
}
