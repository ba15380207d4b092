/**
 recovery.cpp: an update command that fills the control block.  The count never finds room behind it, so every boot
 takes the update for a fresh one, far beyond the limit of four retries.
 */
module RetryExcess {
  import opened Machine
  import opened BootControl
  import opened RetryCounts
  import opened Recovery
  import Retries

  const EXE: string := "/r"
  const PACKAGE: string := "--update_package=/p"
  const LOCALE: string := "--locale="

  /** An option that fills the field, as far as k copies of the name leave room */
  function Filler(k: nat): string
    requires k <= 200
  {
    LOCALE + seq(729 - 3 * k, i => 'x')
  }

  function Full(k: nat): seq<string>
    requires k <= 200
  {
    Retries.Copies(EXE, k) + [PACKAGE, Filler(k)]
  }

  // ---------------------------------------------------------------- the tokens

  lemma PackageToken()
    ensures Single(PACKAGE) && forall o: Options :: ApplyToken(o, PACKAGE) == o.(updatePackage := Some("/p"))
  {
    PackageParts();
    PackageKind();
    PackagePlain();
    forall o: Options
      ensures ApplyToken(o, PACKAGE) == o.(updatePackage := Some("/p"))
    {
      hide Name, Value, HasValue, Long, KindOf, Plain, IsRetry;
    }
    hide Name, Value, HasValue, Long, KindOf, Plain, IsRetry, ApplyToken;
  }

  /** A token that stands for itself, and is not the count */
  predicate Single(a: string) {
    Plain(a) && !IsRetry(a) && a != "--" && !TakesNext(a)
  }

  lemma PackagePlain()
    ensures Plain(PACKAGE) && !IsRetry(PACKAGE) && PACKAGE != "--"
  {
    assert PACKAGE[2] != RETRY[2];
  }

  lemma PackageKind()
    ensures KindOf("update_package") == Required
  {
  }

  lemma PackageParts()
    ensures Long(PACKAGE) && HasValue(PACKAGE) && Name(PACKAGE) == "update_package" && Value(PACKAGE) == "/p"
  {
    var rest := PACKAGE[2..];
    assert rest == "update_package=/p";
    EqualsAt(rest, 14);
    assert rest[..14] == "update_package" && rest[15..] == "/p";
  }

  lemma FillerToken(k: nat)
    requires k <= 200
    ensures Single(Filler(k)) && forall o :: ApplyToken(o, Filler(k)) == o
  {
    var f := Filler(k);
    FillerParts(k);
    LocaleKind();
    assert f[2] == LOCALE[2] != RETRY[2];
    forall o
      ensures ApplyToken(o, f) == o
    {
      LocaleApplies(o, Value(f));
      hide Name, Value, HasValue, Long, KindOf, Apply;
    }
  }

  lemma LocaleKind()
    ensures KindOf("locale") == Required
  {
  }

  lemma LocaleApplies(o: Options, value: string)
    ensures Apply(o, "locale", value) == o
  {
    assert |"locale"| == 6 && |"update_package"| == 14 && |"wipe_data"| == 9 && |"retry_count"| == 11;
    assert "locale"[0] != "reason"[0];
  }

  lemma FillerParts(k: nat)
    requires k <= 200
    ensures var f := Filler(k); Long(f) && HasValue(f) && Name(f) == "locale" && Plain(f) && |f| == 738 - 3 * k
  {
    var f, xs := Filler(k), seq(729 - 3 * k, i => 'x');
    assert f[..2] == "--";
    var rest := f[2..];
    assert rest == "locale=" + xs;
    EqualsAt(rest, 6);
    assert rest[..6] == "locale";
    assert '\n' !in LOCALE && '\0' !in LOCALE && '\n' !in xs && '\0' !in xs;
  }

  lemma ExeToken()
    ensures Plain(EXE) && !Long(EXE) && !IsRetry(EXE)
  {
    assert EXE[0] == '/' && EXE[1] == 'r';
  }

  // ---------------------------------------------------------------- one round

  /** The name, any number of times, and two tokens */
  lemma TwoParse(exe: string, k: nat, a: string, b: string)
    requires Plain(exe) && !Long(exe) && !IsRetry(exe) && Single(a) && Single(b)
    ensures var x := Retries.Copies(exe, k) + [a, b];
            && AllPlain(x) && WithoutRetry(x) == x
            && Parse(NO_OPTIONS, x) == ApplyToken(ApplyToken(NO_OPTIONS, a), b)
  {
    hide Plain, Long, ApplyToken, TakesNext, IsRetry;
    var two := [a, b];
    Retries.ParseCopies(NO_OPTIONS, exe, k);
    Retries.CopiesPlain(exe, k);
    Retries.ParseConcat(NO_OPTIONS, Retries.Copies(exe, k), two);
    Retries.CopiesWithoutRetry(exe, k);
    Retries.WithoutRetryAppend(Retries.Copies(exe, k), two);
    assert two[1..] == [b] && [b][1..] == [];
    assert AllPlain(two);
    var o := ApplyToken(NO_OPTIONS, a);
    assert Parse(o, [b]) == Parse(ApplyToken(o, b), []) == ApplyToken(o, b);
    assert Parse(NO_OPTIONS, two) == Parse(o, [b]);
    assert WithoutRetry(two) == [a] + ([b] + WithoutRetry([]));
  }

  lemma FullParses(k: nat)
    requires k <= 200
    ensures AllPlain(Full(k)) && WithoutRetry(Full(k)) == Full(k)
    ensures Parse(NO_OPTIONS, Full(k)) == NO_OPTIONS.(updatePackage := Some("/p"))
  {
    hide Plain, Long, Filler, ApplyToken, TakesNext, IsRetry, Single, Parse, AllPlain, WithoutRetry;
    ExeToken();
    PackageToken();
    FillerToken(k);
    TwoParse(EXE, k, PACKAGE, Filler(k));
  }

  lemma FullSize(k: nat)
    requires k <= 200
    ensures |Lines(Full(k))| == 759
  {
    var two := [PACKAGE, Filler(k)];
    FillerParts(k);
    hide Filler;
    Retries.CopiesSize(EXE, k);
    Retries.LinesConcat(Retries.Copies(EXE, k), two);
    TwoLines(PACKAGE, Filler(k));
  }

  lemma TwoLines(a: string, b: string)
    ensures |Lines([a, b])| == |a| + |b| + 2
  {
    assert [a, b][1..] == [b] && [b][1..] == [];
    assert Lines([b]) == b + "\n" + Lines([]) && Lines([a, b]) == a + "\n" + Lines([b]);
  }

  /** A full command is read back as it is. */
  lemma FullReadBack(k: nat)
    requires k <= 200
    ensures ReadBack(Stored(Full(k))) == Full(k) && CutAll(Full(k)) == Full(k)
  {
    FullParses(k);
    FullSize(k);
    hide Full;
    BodyIsLines(Full(k));
    ReadBackExactlyWhen(Full(k));
    CutAllPlain(Full(k));
  }

  lemma {:induction false} LinesGrow(tokens: seq<string>, a: nat, b: nat)
    requires a < b <= |tokens|
    ensures |Lines(tokens[..a])| + |tokens[a]| + 1 <= |Lines(tokens[..b])|
  {
    assert tokens[..b] == [tokens[0]] + tokens[1..][..b - 1];
    if a > 0 {
      assert tokens[..a] == [tokens[0]] + tokens[1..][..a - 1];
      LinesGrow(tokens[1..], a - 1, b - 1);
    }
  }

  /** A text is cut inside of the token that the limit falls into. */
  lemma CutInside(tokens: seq<string>, i: nat, p: string, j: nat)
    requires i < |tokens| && p <= tokens[i] && j < |tokens|
    requires |Lines(tokens[..j])| <= |Lines(tokens[..i])| + |p| <= |Lines(tokens[..j])| + |tokens[j]|
    ensures i == j
  {
    if i < j {
      LinesGrow(tokens, i, j);
    } else if i > j {
      LinesGrow(tokens, j, i);
    }
  }

  /** The count does not find room; the name does, at the filler's cost. */
  lemma RoundStores(k: nat)
    requires k < 200
    ensures ReadBack(Stored(SetRetry([EXE] + Full(k), 1))) == Full(k + 1)
  {
    hide Filler, Plain, IsRetry, ReadBack, Stored, Lines, Text, RetryToken;
    var o := SetRetry([EXE] + Full(k), 1);
    var names := Retries.Copies(EXE, k + 1);
    RoundTokens(k);
    RoundSizes(k);
    var i, p := ReadBackOfPrefix(o);
    var j := k + 2;
    CutInside(o, i, p, j);
    FillerCut(k, p);
    assert o[..j] + [Filler(k + 1)] == Full(k + 1);
    assert p != "";
  }

  lemma RoundTokens(k: nat)
    requires k < 200
    ensures var o := SetRetry([EXE] + Full(k), 1);
            o == Retries.Copies(EXE, k + 1) + [PACKAGE, Filler(k), RetryToken(1)] && AllPlain(o) && |Retries.Copies(EXE, k + 1)| == k + 1
  {
    FullParses(k);
    ExeToken();
    RetryTokenFacts(1);
    CopiesCount(k + 1);
    hide Filler, RetryToken, IsRetry, Plain;
    Retries.WithoutRetryAppend([EXE], Full(k));
    assert WithoutRetry([EXE]) == [EXE] + WithoutRetry([]);
    assert Retries.Copies(EXE, k + 1) == [EXE] + Retries.Copies(EXE, k);
    Retries.CopiesPlain(EXE, k + 1);
  }

  lemma {:induction false} CopiesCount(k: nat)
    ensures |Retries.Copies(EXE, k)| == k
  {
    if k > 0 {
      CopiesCount(k - 1);
    }
  }

  lemma RoundSizes(k: nat)
    requires k < 200
    ensures var o := SetRetry([EXE] + Full(k), 1);
            && |o| == k + 4 && o[k + 2] == Filler(k)
            && |Lines(o[..k + 2])| == 3 * k + 23 && |Filler(k)| == 738 - 3 * k && |Text(o)| > FIELD_SIZE
  {
    var o := SetRetry([EXE] + Full(k), 1);
    RoundTokens(k);
    FillerParts(k);
    hide Filler, RetryToken, SetRetry, Plain;
    var names := Retries.Copies(EXE, k + 1);
    assert o[..k + 2] == names + [PACKAGE];
    Retries.CopiesSize(EXE, k + 1);
    Retries.LinesConcat(names, [PACKAGE]);
    assert Lines([PACKAGE]) == PACKAGE + "\n" + Lines([PACKAGE][1..]);
    LinesGrow(o, k + 2, k + 4);
    assert o[..k + 4] == o;
    BodyIsLines(o);
  }

  lemma FillerCut(k: nat, p: string)
    requires k < 200 && p <= Filler(k) && |p| == 735 - 3 * k
    ensures p == Filler(k + 1)
  {
    var f := Filler(k + 1);
    assert |f| == |p|;
    forall i | 0 <= i < |p|
      ensures p[i] == f[i]
    {
      assert p[i] == Filler(k)[i];
    }
  }

  /** One boot: an attempt, and a reboot for a retry */
  lemma Round(env: Env, d: Device, k: nat)
    requires k < 200 && env.exe == EXE && d.phase == PowerOff && d.bcb.command && ReadBack(d.bcb.recovery) == Full(k)
    ensures var good := Step(true, Retry, None);
            var d' := Run(env, d, seq(6, i => good));
            && d'.phase == PowerOff && d'.bcb.command && ReadBack(d'.bcb.recovery) == Full(k + 1)
            && d'.retryReboots == d.retryReboots + 1 && d'.attempts == d.attempts + 1 && d'.crashes == d.crashes
  {
    var good, x := Step(true, Retry, None), Full(k);
    FullReadBack(k);
    FullParses(k);
    RoundStores(k);
    hide Full, ReadBack, Stored, Parse, CutAll, SetRetry, Filler, Next;
    RoundBegins(env, d, x);
    var d3 := Next(env, Next(env, Next(env, d, good), good), good);
    RoundEnds(env, d3, [EXE] + x);
    SixSteps(env, d, good);
  }

  lemma RoundBegins(env: Env, d: Device, x: seq<string>)
    requires d.phase == PowerOff && d.bcb.command && x != [] && ReadBack(d.bcb.recovery) == x && CutAll(x) == x
    requires Parse(NO_OPTIONS, x).updatePackage.Some? && Parse(NO_OPTIONS, x).retryCount == 0
    ensures var good, args := Step(true, Retry, None), [env.exe] + x;
            Next(env, Next(env, Next(env, d, good), good), good)
              == d.(phase := Ready(args, 0), counts := d.counts + [0], bcb := Bcb(true, Stored(SetRetry(args, 1))))
  {
    hide ReadBack, Stored, Parse, CutAll, SetRetry;
    var good, args := Step(true, Retry, None), [env.exe] + x;
    assert args[1..] == x;
    var d1 := Next(env, d, good);
    assert d1 == d.(phase := GotArgs(args));
    var d2 := Next(env, d1, good);
    assert d2 == d.(phase := Dispatch(args), bcb := Bcb(true, Stored(x)));
  }

  lemma RoundEnds(env: Env, d: Device, args: seq<string>)
    requires d.phase == Ready(args, 0)
    ensures var good := Step(true, Retry, None);
            Next(env, Next(env, Next(env, d, good), good), good)
              == d.(phase := PowerOff, attempts := d.attempts + 1, retryReboots := d.retryReboots + 1,
                    bcb := Bcb(true, Stored(SetRetry(args, 1))))
  {
    hide Stored, SetRetry;
  }

  lemma ThreeSteps(env: Env, d: Device, e: Event)
    ensures Run(env, d, [e, e, e]) == Next(env, Next(env, Next(env, d, e), e), e)
  {
    hide Next;
    RunOne(env, d, e);
    RunMore(env, d, [e], e);
    RunMore(env, d, [e, e], e);
    assert [e] + [e] == [e, e] && [e, e] + [e] == [e, e, e];
  }

  lemma SixSteps(env: Env, d: Device, e: Event)
    ensures Run(env, d, seq(6, i => e))
         == Next(env, Next(env, Next(env, Next(env, Next(env, Next(env, d, e), e), e), e), e), e)
  {
    hide Next, Run;
    ThreeSteps(env, d, e);
    ThreeSteps(env, Run(env, d, [e, e, e]), e);
    RunConcat(env, d, [e, e, e], [e, e, e]);
    assert [e, e, e] + [e, e, e] == seq(6, i => e);
  }

  /** A full command is retried 200 times, without a crash and without a count. */
  lemma {:induction false} LimitExceeded(env: Env, d: Device, n: nat)
    requires n <= 200 && env.exe == EXE && d.phase == PowerOff && d.bcb == Bcb(true, Stored(Full(0)))
    requires d.retryReboots == 0 && d.attempts == 0 && d.crashes == 0
    ensures var good := Step(true, Retry, None);
            var d' := Run(env, d, seq(6 * n, i => good));
            && d'.phase == PowerOff && d'.bcb.command && ReadBack(d'.bcb.recovery) == Full(n)
            && d'.retryReboots == n && d'.attempts == n && d'.crashes == 0
    decreases n
  {
    hide Full, ReadBack, Next, Run, Stored;
    var good := Step(true, Retry, None);
    if n == 0 {
      FullReadBack(0);
      RunNothing(env, d, seq(0, i => good));
    } else {
      LimitExceeded(env, d, n - 1);
      Round(env, Run(env, d, seq(6 * (n - 1), i => good)), n - 1);
      RunConcat(env, d, seq(6 * (n - 1), i => good), seq(6, i => good));
      assert seq(6 * (n - 1), i => good) + seq(6, i => good) == seq(6 * n, i => good);
    }
  }

  lemma RunNothing(env: Env, d: Device, es: seq<Event>)
    requires |es| == 0
    ensures Run(env, d, es) == d
  {
  }

  /** A short command leaves the room that the limit needs. */
  lemma ShortCommandIsLimited(env: Env)
    requires env.exe == EXE
    ensures Retries.UpdateCommand(env, [PACKAGE])
  {
    hide Plain, Long, IsRetry, TakesNext, ApplyToken;
    ExeToken();
    PackageToken();
    OneParses(PACKAGE);
    OneLine(PACKAGE);
  }

  lemma OneParses(a: string)
    requires Single(a)
    ensures AllPlain([a]) && WithoutRetry([a]) == [a] && ParsedToEnd([a]) && Parse(NO_OPTIONS, [a]) == ApplyToken(NO_OPTIONS, a)
  {
    hide Plain, IsRetry, TakesNext, ApplyToken;
    assert [a][1..] == [];
    assert WithoutRetry([a]) == [a] + WithoutRetry([]);
  }

  lemma OneLine(a: string)
    requires Plain(a)
    ensures |Text([a])| == |a| + 10
  {
    assert AllPlain([a]);
    hide Plain;
    BodyIsLines([a]);
    assert [a][1..] == [];
    assert Lines([a]) == a + "\n" + Lines([]);
  }
}
