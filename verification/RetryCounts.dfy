/** recovery.cpp: when the count that set_retry_bootloader_message appends is read by the next boot. */
module RetryCounts {
  import opened BootControl

  // ---------------------------------------------------------------- a text that was cut off

  /** Cutting a text of lines leaves whole tokens and a beginning of one more; if more than a newline is lost, that one is not complete. */
  lemma {:induction false} SplitOfPrefix(tokens: seq<string>, n: nat) returns (k: nat, p: string)
    requires n + 2 <= |Lines(tokens)| && forall i | 0 <= i < |tokens| :: '\n' !in tokens[i]
    ensures k < |tokens| && p <= tokens[k] && (k == |tokens| - 1 ==> p != tokens[k])
    ensures Split("", Lines(tokens)[..n]) == tokens[..k] + [p] && |Lines(tokens[..k])| + |p| == n
    decreases |tokens|
  {
    var t, rest := tokens[0], tokens[1..];
    hide Split;
    assert Lines(tokens) == t + ("\n" + Lines(rest));
    if n <= |t| {
      k, p := 0, t[..n];
      assert Lines(tokens)[..n] == p;
      SplitLast("", p);
    } else {
      var m := n - |t| - 1;
      assert Lines(tokens)[..n] == t + "\n" + Lines(rest)[..m];
      SplitLine("", t, Lines(rest)[..m]);
      k, p := SplitOfPrefix(rest, m);
      assert [t] + (rest[..k] + [p]) == tokens[..k + 1] + [p];
      assert tokens[..k + 1] == [t] + rest[..k];
      assert Lines(tokens[..k + 1]) == t + "\n" + Lines(rest[..k]);
      k := k + 1;
    }
    assert "" + t == t && "" + p == p;
  }

  lemma ReadBackOfPrefix(options: seq<string>) returns (k: nat, p: string)
    requires AllPlain(options) && |Text(options)| > FIELD_SIZE
    ensures k < |options| && p <= options[k] && (k == |options| - 1 ==> p != options[k])
    ensures ReadBack(Stored(options)) == options[..k] + (if p == "" then [] else [p])
    ensures |Lines(options[..k])| + |p| == FIELD_SIZE - 10
  {
    hide Split, Lines, Body, Text, Stored, ReadBack, Plain;
    StoredCut(options);
    k, p := SplitOfPrefix(options, FIELD_SIZE - 10);
    ReadBackBody(Lines(options)[..FIELD_SIZE - 10]);
    KeptPrefix(options, k, p);
  }

  lemma StoredCut(options: seq<string>)
    requires AllPlain(options) && |Text(options)| > FIELD_SIZE
    ensures |Lines(options)| >= FIELD_SIZE - 8 && Stored(options) == "recovery\n" + Lines(options)[..FIELD_SIZE - 10]
    ensures forall i | 0 <= i < |options| :: '\n' !in options[i]
  {
    BodyIsLines(options);
  }

  lemma KeptPrefix(options: seq<string>, k: nat, p: string)
    requires AllPlain(options) && k < |options| && p <= options[k]
    ensures Kept(options[..k] + [p]) == options[..k] + (if p == "" then [] else [p])
  {
    assert p != "" ==> p[0] == options[k][0] && options[k][0] in options[k];
    KeptAll(options[..k], [p]);
    assert options[..k] + [] == options[..k];
    assert [p][1..] == [];
  }

  /** The text of some tokens is longer than the first of them. */
  lemma LinesFirst(tokens: seq<string>, k: nat)
    requires k <= |tokens|
    ensures k > 0 ==> |Lines(tokens[..k])| > |tokens[0]|
  {
  }

  // ---------------------------------------------------------------- what is left of the count

  /** A beginning of a number, if it is not all of it, is a smaller number. */
  lemma {:induction false} PrefixBelow(n: nat, p: string)
    requires n > 0 && p <= Print(n)
    ensures forall i | 0 <= i < |p| :: '0' <= p[i] <= '9'
    ensures DigitsValue(p) <= n && (p != Print(n) ==> DigitsValue(p) < n)
  {
    var s := Print(n);
    if p == s {
      PrintParse(n);
    } else if n >= 10 {
      assert p <= Print(n / 10);
      PrefixBelow(n / 10, p);
    } else {
      assert p == "";
    }
  }

  lemma RetryAloneWaits()
    ensures TakesNext(RETRY)
  {
    RetryName();
    RetryKind();
    hide Long, Name, HasValue, KindOf, Equals;
  }

  lemma RetryKind()
    ensures KindOf("retry_count") == Required
  {
  }

  lemma RetryName()
    ensures Long(RETRY) && Name(RETRY) == "retry_count" && !HasValue(RETRY)
  {
    var rest := RETRY[2..];
    assert rest == "retry_count" && rest[..11] == rest;
    NoEquals(rest);
  }

  /** A beginning of the token sets no count, or a smaller one. */
  lemma PrefixOfToken(count: nat, p: string, o: Options)
    requires 1 <= count && p <= RetryToken(count) && p != RetryToken(count) && IsRetry(p) && !TakesNext(p)
    requires o.retryCount != count
    ensures ApplyToken(o, p).retryCount != count
  {
    hide ApplyToken, TakesNext, Print;
    RetryAloneWaits();
    var digits := p[|RETRY|..];
    assert p == RETRY + digits;
    assert digits == "" ==> p == RETRY;
    var v := digits[1..];
    assert RetryToken(count) == RETRY + ("=" + Print(count));
    assert digits == RetryToken(count)[|RETRY|..][..|digits|] == ("=" + Print(count))[..|digits|];
    assert digits == "=" + v && v == Print(count)[..|v|] && v != Print(count);
    PrefixBelow(count, v);
    ValueOfToken(p, v);
    ValueApplied(o, p, v);
  }

  lemma ValueOfToken(p: string, v: string)
    requires p == RETRY + "=" + v
    ensures Long(p) && HasValue(p) && Name(p) == "retry_count" && Value(p) == v
  {
    var rest := p[2..];
    assert rest == "retry_count=" + v;
    EqualsAt(rest, 11);
    assert rest[..11] == "retry_count" && rest[12..] == v;
  }

  lemma ValueApplied(o: Options, p: string, v: string)
    requires Long(p) && HasValue(p) && Name(p) == "retry_count" && Value(p) == v
    requires forall i | 0 <= i < |v| :: '0' <= v[i] <= '9'
    ensures ApplyToken(o, p).retryCount == o.retryCount || ApplyToken(o, p).retryCount == DigitsValue(v)
  {
    hide Name, Value, HasValue, Long, DigitsValue;
  }

  /** A last token that sets no such count, behind tokens that set none at all */
  lemma {:induction false} LastSetsNone(o: Options, rest: seq<string>, p: string, count: nat)
    requires o.retryCount != count && forall i | 0 <= i < |rest| :: !IsRetry(rest[i])
    requires TakesNext(p) || forall o': Options | o'.retryCount != count :: ApplyToken(o', p).retryCount != count
    ensures Parse(o, rest + [p]).retryCount != count
    decreases |rest|
  {
    hide Apply, ApplyToken, KindOf, IsRetry, Name, Equals;
    var all := rest + [p];
    if rest == [] {
      assert all == [p] && all[1..] == [];
    } else if rest[0] != "--" {
      assert all[0] == rest[0] && all[1..] == rest[1..] + [p];
      TokenKeepsCount(o, rest[0]);
      if !TakesNext(rest[0]) {
        LastSetsNone(ApplyToken(o, rest[0]), rest[1..], p, count);
      } else {
        ArgumentKeepsCount(o, rest[0], all[1]);
        if |rest| == 1 {
          assert all[2..] == [];
        } else {
          assert all[2..] == rest[2..] + [p];
          LastSetsNone(Apply(o, Name(rest[0]), all[1]), rest[2..], p, count);
        }
      }
    }
  }

  lemma TokenKeepsCount(o: Options, arg: string)
    requires !IsRetry(arg)
    ensures ApplyToken(o, arg).retryCount == o.retryCount
  {
    if Long(arg) {
      NotRetryName(arg);
    }
  }

  lemma ArgumentKeepsCount(o: Options, arg: string, value: string)
    requires !IsRetry(arg) && TakesNext(arg)
    ensures Apply(o, Name(arg), value).retryCount == o.retryCount
  {
    NotRetryName(arg);
  }

  lemma PrefixNoRetry(p: string, arg: string)
    requires p <= arg && !IsRetry(arg)
    ensures !IsRetry(p)
  {
  }

  /** What a text that was cut off leaves is parsed to some other count. */
  lemma CutOffCount(rest: seq<string>, count: nat)
    requires 1 <= count < 0x8000_0000 && AllPlain(rest + [RetryToken(count)])
    requires forall i | 0 <= i < |rest| :: !IsRetry(rest[i])
    requires |Text(rest + [RetryToken(count)])| > FIELD_SIZE
    ensures Parse(NO_OPTIONS, ReadBack(Stored(rest + [RetryToken(count)]))).retryCount != count
  {
    hide Parse, Stored, ReadBack, Text, Plain;
    var options := rest + [RetryToken(count)];
    var k, p := ReadBackOfPrefix(options);
    if k < |rest| {
      assert options[..k] == rest[..k] && options[k] == rest[k];
      var read := rest[..k] + (if p == "" then [] else [p]);
      PrefixNoRetry(p, rest[k]);
      assert forall i | 0 <= i < |read| :: !IsRetry(read[i]);
      NoRetryNoCount(NO_OPTIONS, read);
    } else {
      assert options[..k] == rest && options[k] == RetryToken(count);
      if p == "" {
        assert rest + [] == rest;
        NoRetryNoCount(NO_OPTIONS, rest);
      } else {
        forall o: Options | !TakesNext(p) && o.retryCount != count
          ensures ApplyToken(o, p).retryCount != count
        {
          if IsRetry(p) {
            PrefixOfToken(count, p, o);
          } else {
            TokenKeepsCount(o, p);
          }
        }
        LastSetsNone(NO_OPTIONS, rest, p, count);
      }
    }
  }

  // ---------------------------------------------------------------- the next boot

  /**
   The count that set_retry_bootloader_message stores is the one that the next boot parses, out of what is left in the
   field, exactly when the other tokens neither stop the option loop nor leave an option waiting for its value, and
   the text fits into the field.
   */
  lemma RetryReadBackExactlyWhen(args: seq<string>, count: nat)
    requires 1 <= count < 0x8000_0000 && AllUsable(args)
    ensures Parse(NO_OPTIONS, CutAll(ReadBack(Stored(SetRetry(args, count))))).retryCount == count
       <==> ParsedToEnd(CutAll(WithoutRetry(args))) && |Text(SetRetry(args, count))| <= FIELD_SIZE
  {
    var options, rest := SetRetry(args, count), CutAll(WithoutRetry(args));
    SetRetryUsable(args, count);
    CutSetRetry(args, count);
    CutWithoutRetry(args);
    ReadBackUpToNul(options);
    BodyOfCut(options);
    assert Text(options) == Text(CutAll(options));
    StoredHasNoNul(options);
    ReadBackIsPlain(Stored(options));
    CutAllPlain(ReadBack(Stored(options)));
    hide Parse, ParsedToEnd, Stored, ReadBack, Text, Body, SetRetry, WithoutRetry, RetryToken, Plain;
    if |Text(options)| <= FIELD_SIZE {
      CountParsedExactlyWhen(rest, count);
    } else {
      CutOffCount(rest, count);
    }
  }

  lemma SetRetryUsable(args: seq<string>, count: nat)
    requires count < 0x8000_0000 && AllUsable(args)
    ensures AllUsable(SetRetry(args, count))
  {
    WithoutRetryFacts(args);
    RetryTokenFacts(count);
    var t := RetryToken(count);
    assert t[0] in t;
    hide RetryToken, WithoutRetry;
  }

  /** An option that leaves no room for the count: the next boot reads none. */
  lemma CountCutOff(count: nat)
    requires 1 <= count < 0x8000_0000
    ensures var args := [seq(FIELD_SIZE, i => 'x')];
            && ParsedToEnd(CutAll(WithoutRetry(args)))
            && Parse(NO_OPTIONS, CutAll(ReadBack(Stored(SetRetry(args, count))))).retryCount == 0
  {
    hide Stored, ReadBack, RetryToken, Plain, Parse, SetRetry, IsRetry, ParsedToEnd, WithoutRetry;
    var x := seq(FIELD_SIZE, i => 'x');
    var options := SetRetry([x], count);
    LongWord(x);
    CutAllPlain([x]);
    LongWordStored(x, count);
    var read := ReadBack(Stored(options));
    StoredHasNoNul(options);
    ReadBackIsPlain(Stored(options));
    CutAllPlain(read);
    NoRetryNoCount(NO_OPTIONS, read);
  }

  lemma LongWordStored(x: string, count: nat)
    requires |x| == FIELD_SIZE && Plain(x) && !IsRetry(x) && WithoutRetry([x]) == [x] && count < 0x8000_0000
    ensures var read := ReadBack(Stored(SetRetry([x], count)));
            forall i | 0 <= i < |read| :: !IsRetry(read[i])
  {
    var options := SetRetry([x], count);
    RetryTokenFacts(count);
    assert options == [x, RetryToken(count)];
    assert AllPlain(options);
    BodyIsLines(options);
    hide Stored, ReadBack, RetryToken, Plain, IsRetry, Lines;
    LinesFirst(options, 2);
    assert options[..2] == options;
    var k, p := ReadBackOfPrefix(options);
    LinesFirst(options, k);
    assert k == 0;
    PrefixNoRetry(p, x);
    assert options[..0] == [];
  }

  lemma LongWord(x: string)
    requires x == seq(FIELD_SIZE, i => 'x')
    ensures Plain(x) && Cut(x) == x && !IsRetry(x) && WithoutRetry([x]) == [x] && ParsedToEnd([x])
  {
    assert x[0] == 'x' && !Long(x) && x[..2] != "--";
    assert WithoutRetry([x]) == [x] + WithoutRetry([]) && [x][1..] == [];
    CutPlain(x);
  }
}
