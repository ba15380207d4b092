/**
 recovery.cpp: retries of any command at all, however long.  The count may be lost from the control block, but every
 round stores the program's name once more, so that at last nothing else fits and the update is given up.
 */
module RetryBounds {
  import opened Machine
  import opened BootControl
  import opened RetryCounts
  import opened Recovery

  // ---------------------------------------------------------------- the program's name in the control block

  /** The first n tokens are the program's name. */
  predicate Leads(exe: string, x: seq<string>, n: nat) {
    n <= |x| && forall i | 0 <= i < n :: x[i] == exe
  }

  /** Nothing but the program's name, or beginnings of it, is left. */
  predicate Spent(exe: string, x: seq<string>) {
    x != [] && forall i | 0 <= i < |x| :: x[i] <= exe
  }

  /** n copies of the name, a line each, have had room in the field. */
  predicate Room(exe: string, n: nat) {
    n * (|exe| + 1) <= FIELD_SIZE
  }

  /** What the control block must hold after n retries */
  predicate Enough(exe: string, x: seq<string>, n: nat) {
    n == 0 || (Room(exe, n - 1) && (Spent(exe, x) || (Leads(exe, x, n) && Room(exe, n))))
  }

  lemma RoomLess(exe: string, n: nat, m: nat)
    requires m <= n && Room(exe, n)
    ensures Room(exe, m)
  {
    MulMonotone(m, n, |exe| + 1);
  }

  lemma EnoughLess(exe: string, x: seq<string>, n: nat)
    requires Enough(exe, x, n + 1)
    ensures Enough(exe, x, n)
  {
    if n > 0 {
      RoomLess(exe, n, n - 1);
      if Room(exe, n + 1) {
        RoomLess(exe, n + 1, n);
      }
    }
  }

  lemma {:induction false} LeadingLines(exe: string, x: seq<string>, n: nat)
    requires Leads(exe, x, n)
    ensures |Lines(x)| >= n * (|exe| + 1)
  {
    if n > 0 {
      LeadingLines(exe, x[1..], n - 1);
      assert n * (|exe| + 1) == (n - 1) * (|exe| + 1) + (|exe| + 1);
    }
  }

  /** Storing leading names: they are all read back, or only names and a beginning of one. */
  lemma LeadingStored(exe: string, o: seq<string>, n: nat)
    requires Plain(exe) && AllUsable(o) && n > 0 && Leads(exe, o, n)
    ensures var y := ReadBack(Stored(o)); Spent(exe, y) || (Leads(exe, y, n) && Room(exe, n))
  {
    hide Stored, ReadBack, Plain, Kept, Text, AllUsable;
    var c := CutAll(o);
    ReadBackUpToNul(o);
    SameText(o);
    CutLeads(exe, o, n);
    if |Text(o)| <= FIELD_SIZE {
      LinesFit(c);
      LeadingLines(exe, c, n);
    } else {
      var k, p := ReadBackOfPrefix(c);
      NoLines(c, k);
      if k >= n {
        assert Leads(exe, c[..k], n);
        LeadingLines(exe, c[..k], n);
      } else {
        assert c[k] == exe;
      }
    }
  }

  lemma CutLeads(exe: string, o: seq<string>, n: nat)
    requires Plain(exe) && Leads(exe, o, n)
    ensures Leads(exe, CutAll(o), n)
  {
    CutPlain(exe);
  }

  lemma LinesFit(c: seq<string>)
    requires AllPlain(c) && |Text(c)| <= FIELD_SIZE
    ensures |Lines(c)| <= FIELD_SIZE
  {
    BodyIsLines(c);
  }

  lemma SpentStored(exe: string, x: seq<string>)
    requires AllUsable(x) && Spent(exe, x)
    ensures Spent(exe, ReadBack(Stored(x)))
  {
    hide Stored, ReadBack, Plain, Kept, Text, AllUsable;
    var c := CutAll(x);
    ReadBackUpToNul(x);
    SameText(x);
    CutSpent(exe, x);
    if |Text(x)| > FIELD_SIZE {
      var k, p := ReadBackOfPrefix(c);
      NoLines(c, k);
    }
  }

  lemma CutSpent(exe: string, x: seq<string>)
    requires Spent(exe, x)
    ensures Spent(exe, CutAll(x))
  {
  }

  lemma SameText(x: seq<string>)
    requires AllUsable(x)
    ensures Text(CutAll(x)) == Text(x)
  {
    BodyOfCut(x);
  }

  lemma NoLines(tokens: seq<string>, k: nat)
    requires k <= |tokens|
    ensures k == 0 ==> Lines(tokens[..k]) == ""
  {
  }

  /** get_args stores what it has read. */
  lemma StoringKeeps(exe: string, x: seq<string>, n: nat)
    requires Plain(exe) && AllUsable(x) && Enough(exe, x, n)
    ensures Enough(exe, ReadBack(Stored(x)), n)
  {
    hide ReadBack, Stored, Room;
    if n > 0 {
      if Spent(exe, x) {
        SpentStored(exe, x);
      } else {
        LeadingStored(exe, x, n);
      }
    }
  }

  /** set_retry_bootloader_message stores the name once more. */
  lemma RetryStores(exe: string, x: seq<string>, n: nat, count: nat)
    requires Plain(exe) && !IsRetry(exe) && AllUsable(x) && Enough(exe, x, n) && !Spent(exe, x) && count < 0x8000_0000
    ensures Enough(exe, ReadBack(Stored(SetRetry([exe] + x, count))), n + 1)
  {
    var args := [exe] + x;
    assert exe[0] in exe;
    assert AllUsable(args);
    SetRetryUsable(args, count);
    LeadingKept(exe, args, n + 1);
    hide ReadBack, Stored, SetRetry, WithoutRetry, Plain, AllUsable;
    LeadingStored(exe, SetRetry(args, count), n + 1);
  }

  lemma {:induction false} LeadingKept(exe: string, args: seq<string>, n: nat)
    requires !IsRetry(exe) && Leads(exe, args, n)
    ensures forall count :: Leads(exe, SetRetry(args, count), n)
    ensures Leads(exe, WithoutRetry(args), n)
  {
    if n > 0 {
      LeadingKept(exe, args[1..], n - 1);
      assert WithoutRetry(args) == [exe] + WithoutRetry(args[1..]);
    }
  }

  /** Names are no options. */
  lemma {:induction false} SpentParses(exe: string, x: seq<string>, o: Options)
    requires !Long(exe) && forall i | 0 <= i < |x| :: x[i] <= exe
    ensures Parse(o, x) == o
    decreases |x|
  {
    if x != [] {
      assert !Long(x[0]);
      SpentParses(exe, x[1..], o);
    }
  }

  lemma PackageNotSpent(exe: string, x: seq<string>)
    requires !Long(exe) && AllUsable(x) && Parse(NO_OPTIONS, CutAll(x)).updatePackage.Some?
    ensures !Spent(exe, x)
  {
    if Spent(exe, x) {
      SpentParses(exe, CutAll(x), NO_OPTIONS);
      assert false;
    }
  }

  // ---------------------------------------------------------------- tokens that were read

  lemma {:induction false} SplitHasNoNewline(current: string, s: string)
    requires '\n' !in current
    ensures forall i | 0 <= i < |Split(current, s)| :: '\n' !in Split(current, s)[i]
    decreases |s|
  {
    if s != "" {
      SplitHasNoNewline(if s[0] == '\n' then "" else current + [s[0]], s[1..]);
    }
  }

  lemma {:induction false} KeptUsable(tokens: seq<string>)
    requires forall i | 0 <= i < |tokens| :: '\n' !in tokens[i]
    ensures AllUsable(Kept(tokens))
  {
    if tokens != [] {
      KeptUsable(tokens[1..]);
    }
  }

  lemma ArgsUsable(env: Env, d: Device)
    ensures GetArgs(env, d) == [env.exe] + GetArgs(env, d)[1..] && AllUsable(GetArgs(env, d)[1..])
  {
    SplitHasNoNewline("", d.bcb.recovery);
    KeptUsable(Split("", d.bcb.recovery)[1..]);
    if d.commandFile.Some? {
      SplitHasNoNewline("", d.commandFile.value);
      KeptUsable(Split("", d.commandFile.value));
    }
  }

  // ---------------------------------------------------------------- whole runs

  predicate BcbOk(env: Env, d: Device, n: nat) {
    d.bcb.command ==> Enough(env.exe, ReadBack(d.bcb.recovery), n)
  }

  predicate ArgsOk(env: Env, d: Device, args: seq<string>) {
    args != [] && args[0] == env.exe && AllUsable(args[1..]) && Enough(env.exe, args[1..], d.retryReboots)
  }

  predicate Steady(env: Env, d: Device) {
    && (d.retryReboots > 0 ==> Room(env.exe, d.retryReboots - 1))
    && BcbOk(env, d, if d.phase.Rebooting? then d.retryReboots + 1 else d.retryReboots)
    && (d.phase.Rebooting? ==> d.bcb.command)
    && (d.phase.Finishing? && d.phase.stage > 0 ==> !d.bcb.command)
    && (d.phase.GotArgs? || d.phase.Dispatch? ==> ArgsOk(env, d, d.phase.args))
    && (d.phase.Ready? || d.phase.Installing? ==> ArgsOk(env, d, d.phase.args) && !Spent(env.exe, d.phase.args[1..]))
    && d.attempts <= d.retryReboots + d.crashes + (if Over(d) || d.phase.Installing? || d.phase.Rebooting? then 1 else 0)
  }

  /** No attempt can follow in this boot. */
  predicate Over(d: Device) {
    d.phase.Finishing? || d.phase.MainSystem? || (d.phase.PowerOff? && !d.bcb.command)
  }

  lemma GetArgsKeeps(env: Env, d: Device, e: Event)
    requires Plain(env.exe) && Steady(env, d) && d.phase.PowerOff? && e.Step?
    ensures Steady(env, Next(env, d, e))
  {
    ArgsUsable(env, d);
    hide AllUsable, Kept, Split, Room, Leads, Spent;
    assert d.bcb.command && d.retryReboots > 0 ==> ReadBack(d.bcb.recovery) != [] by { EnoughNotEmpty(env, d); }
    hide ReadBack;
  }

  lemma EnoughNotEmpty(env: Env, d: Device)
    requires BcbOk(env, d, d.retryReboots)
    ensures d.bcb.command && d.retryReboots > 0 ==> ReadBack(d.bcb.recovery) != []
  {
  }

  lemma StoreArgsKeeps(env: Env, d: Device, e: Event)
    requires Plain(env.exe) && Steady(env, d) && d.phase.GotArgs? && e.Step?
    ensures Steady(env, Next(env, d, e))
  {
    hide AllUsable, ReadBack, Stored, Enough, Plain, Spent, Room;
    StoringKeeps(env.exe, d.phase.args[1..], d.retryReboots);
  }

  lemma BranchKeeps(env: Env, d: Device, e: Event)
    requires Plain(env.exe) && !Long(env.exe) && Steady(env, d) && d.phase.Dispatch? && e.Step?
    ensures Steady(env, Next(env, d, e))
  {
    hide AllUsable, ReadBack, Stored, Enough, Plain, Spent, Room, Parse, CutAll, SetRetry, Long;
    var args := d.phase.args;
    var x := args[1..];
    assert args == [env.exe] + x;
    if Parse(NO_OPTIONS, CutAll(x)).updatePackage.Some? {
      ExeIsNoOption(env.exe);
      PackageNotSpent(env.exe, x);
      RetryStores(env.exe, x, d.retryReboots, 1);
      EnoughLess(env.exe, ReadBack(Stored(SetRetry(args, 1))), d.retryReboots);
    }
  }

  lemma ExeIsNoOption(exe: string)
    requires !Long(exe)
    ensures !IsRetry(exe)
  {
  }

  lemma InstallSteady(env: Env, d: Device, e: Event)
    requires Plain(env.exe) && !Long(env.exe) && Steady(env, d) && d.phase.Installing? && e.Step?
    ensures Steady(env, Next(env, d, e))
  {
    hide AllUsable, ReadBack, Stored, Enough, Plain, Spent, Room, SetRetry, Long;
    var args := d.phase.args;
    assert args == [env.exe] + args[1..];
    ExeIsNoOption(env.exe);
    if d.phase.retry < RETRY_LIMIT {
      RetryStores(env.exe, args[1..], d.retryReboots, d.phase.retry + 1);
    }
  }

  lemma RebootKeeps(env: Env, d: Device, e: Event)
    requires Steady(env, d) && d.phase.Rebooting? && e.Step?
    ensures Steady(env, Next(env, d, e))
  {
    hide ReadBack, Spent, Leads, Room;
    EnoughLess(env.exe, ReadBack(d.bcb.recovery), d.retryReboots);
  }

  lemma CrashSteady(env: Env, d: Device, e: Event)
    requires Steady(env, d) && e.Crash?
    ensures Steady(env, Next(env, d, e))
  {
    hide ReadBack, Spent, Leads, Room, Enough;
    if d.phase.Rebooting? {
      EnoughLess(env.exe, ReadBack(d.bcb.recovery), d.retryReboots);
    }
  }

  lemma OtherStepsSteady(env: Env, d: Device, e: Event)
    requires Steady(env, d) && e.Step? && (d.phase.MainSystem? || d.phase.Ready? || d.phase.Wiping? || d.phase.Finishing?)
    ensures Steady(env, Next(env, d, e))
  {
    hide ReadBack, Spent, Leads, Room, Enough, AllUsable;
  }

  lemma StepKeepsSteady(env: Env, d: Device, e: Event)
    requires Plain(env.exe) && !Long(env.exe) && Steady(env, d)
    ensures Steady(env, Next(env, d, e))
  {
    hide Steady, Plain, Long, Next;
    if e.Crash? {
      CrashSteady(env, d, e);
    } else if d.phase.PowerOff? {
      GetArgsKeeps(env, d, e);
    } else if d.phase.GotArgs? {
      StoreArgsKeeps(env, d, e);
    } else if d.phase.Dispatch? {
      BranchKeeps(env, d, e);
    } else if d.phase.Installing? {
      InstallSteady(env, d, e);
    } else if d.phase.Rebooting? {
      RebootKeeps(env, d, e);
    } else {
      OtherStepsSteady(env, d, e);
    }
  }

  lemma {:induction false} RunKeepsSteady(env: Env, d: Device, es: seq<Event>)
    requires Plain(env.exe) && !Long(env.exe) && Steady(env, d)
    ensures Steady(env, Run(env, d, es))
    decreases |es|
  {
    hide Steady, Next;
    if es != [] {
      StepKeepsSteady(env, d, es[0]);
      RunKeepsSteady(env, Next(env, d, es[0]), es[1..]);
    }
  }

  /**
   Whatever the control block and the command file hold, and wherever power is lost: all but one of the reboots for a
   retry have left one more line with the program's name in the field, so there is an end to them; and there is
   at most one attempt for each of them and for each crash, plus one.
   */
  lemma RetriesAlwaysEnd(env: Env, d: Device, es: seq<Event>)
    requires Plain(env.exe) && !Long(env.exe)
    requires d.phase == PowerOff && d.attempts == 0 && d.retryReboots == 0
    ensures var d' := Run(env, d, es);
            && (d'.retryReboots > 0 ==> (d'.retryReboots - 1) * (|env.exe| + 1) <= FIELD_SIZE)
            && d'.attempts <= d'.retryReboots + d'.crashes + 1
  {
    RunKeepsSteady(env, d, es);
  }
}
