/**
 recovery.cpp: retrying an update package.  The retry count lives in the control block only, so
 its value and everything stored beside it must survive crashes and reboots.
 */
module Retries {
  import opened Machine
  import opened BootControl
  import opened Recovery

  /** No option is separated from its value. */
  predicate SelfContained(t: seq<string>) {
    forall i | 0 <= i < |t| :: Plain(t[i]) && t[i] != "--" && !TakesNext(t[i])
  }

  /**
   An update command, small enough to stay in the field with four more copies of the program's name and a count.
   Beside --retry_count it holds options that are parsed to their end, the package among them.
   */
  predicate UpdateCommand(env: Env, t: seq<string>) {
    && Plain(env.exe) && !Long(env.exe) && AllPlain(t)
    && ParsedToEnd(WithoutRetry(t))
    && Parse(NO_OPTIONS, t).updatePackage.Some?
    && Parse(NO_OPTIONS, WithoutRetry(t)).updatePackage == Parse(NO_OPTIONS, t).updatePackage
    && |Text(t)| + 4 * (|env.exe| + 1) + |RETRY| + 3 <= FIELD_SIZE
  }

  function Copies(exe: string, k: nat): seq<string> {
    if k == 0 then [] else [exe] + Copies(exe, k - 1)
  }

  /** What the control block holds after `k` rounds: set_retry_bootloader_message carries args[0] along each time. */
  function Content(env: Env, t: seq<string>, k: nat, count: nat): seq<string> {
    if k == 0 then t else Copies(env.exe, k) + SetRetry(t, count)
  }

  // ---------------------------------------------------------------- one round

  lemma {:induction false} WithoutRetryAppend(a: seq<string>, b: seq<string>)
    ensures WithoutRetry(a + b) == WithoutRetry(a) + WithoutRetry(b)
  {
    if a == [] {
      assert a + b == b;
    } else {
      assert (a + b)[1..] == a[1..] + b;
      WithoutRetryAppend(a[1..], b);
    }
  }

  lemma WithoutRetryTwice(t: seq<string>)
    ensures WithoutRetry(WithoutRetry(t)) == WithoutRetry(t)
  {
  }

  lemma {:induction false} CopiesWithoutRetry(exe: string, k: nat)
    requires !IsRetry(exe)
    ensures WithoutRetry(Copies(exe, k)) == Copies(exe, k)
  {
    if k > 0 {
      assert Copies(exe, k)[1..] == Copies(exe, k - 1);
      CopiesWithoutRetry(exe, k - 1);
    }
  }

  /** Every other token is carried along unchanged, and exactly one --retry_count remains. */
  lemma SetRetryContent(env: Env, t: seq<string>, k: nat, old_count: nat, count: nat)
    requires !IsRetry(env.exe)
    ensures SetRetry([env.exe] + Content(env, t, k, old_count), count) == Content(env, t, k + 1, count)
  {
    hide RetryToken, IsRetry, WithoutRetry;
    var x, names, rest := Content(env, t, k, old_count), Copies(env.exe, k), WithoutRetry(t);
    ContentWithout(env, t, k, old_count);
    OneWithout(env.exe);
    WithoutRetryAppend([env.exe], x);
    assert Copies(env.exe, k + 1) == [env.exe] + names;
    assert [env.exe] + (names + rest) + [RetryToken(count)] == Copies(env.exe, k + 1) + (rest + [RetryToken(count)]);
  }

  lemma OneWithout(arg: string)
    requires !IsRetry(arg)
    ensures WithoutRetry([arg]) == [arg]
  {
    assert [arg][1..] == [];
  }

  /** Beside the count, the rounds hold copies of the name and the other tokens. */
  lemma ContentWithout(env: Env, t: seq<string>, k: nat, count: nat)
    requires !IsRetry(env.exe)
    ensures WithoutRetry(Content(env, t, k, count)) == Copies(env.exe, k) + WithoutRetry(t)
  {
    var names, rest, token := Copies(env.exe, k), WithoutRetry(t), RetryToken(count);
    if k == 0 {
      assert [] + rest == rest;
    } else {
      WithoutRetryTwice(t);
      WithoutToken(count);
      CopiesWithoutRetry(env.exe, k);
      hide RetryToken, IsRetry, WithoutRetry;
      WithoutRetryAppend(names, rest + [token]);
      WithoutRetryAppend(rest, [token]);
      assert rest + [] == rest;
    }
  }

  lemma WithoutToken(count: nat)
    ensures WithoutRetry([RetryToken(count)]) == []
  {
    assert IsRetry(RetryToken(count));
    assert [RetryToken(count)][1..] == [];
  }

  lemma {:induction false} ParseConcat(o: Options, a: seq<string>, b: seq<string>)
    requires SelfContained(a)
    ensures Parse(o, a + b) == Parse(Parse(o, a), b)
    decreases |a|
  {
    if a == [] {
      assert a + b == b;
    } else {
      assert (a + b)[1..] == a[1..] + b;
      ParseConcat(ApplyToken(o, a[0]), a[1..], b);
    }
  }

  lemma {:induction false} ParseCopies(o: Options, exe: string, k: nat)
    requires Plain(exe) && !Long(exe)
    ensures Parse(o, Copies(exe, k)) == o && SelfContained(Copies(exe, k))
  {
    if k > 0 {
      assert Copies(exe, k)[1..] == Copies(exe, k - 1);
      ParseCopies(o, exe, k - 1);
    }
  }

  lemma TokenSamePackage(o: Options, o': Options, arg: string)
    requires o.updatePackage == o'.updatePackage
    ensures ApplyToken(o, arg).updatePackage == ApplyToken(o', arg).updatePackage
  {
  }

  /** --retry_count tokens have no influence on anything else. */
  lemma {:induction false} WithoutRetrySamePackage(o: Options, o': Options, t: seq<string>)
    requires SelfContained(t) && o.updatePackage == o'.updatePackage
    ensures Parse(o, t).updatePackage == Parse(o', WithoutRetry(t)).updatePackage
    ensures SelfContained(WithoutRetry(t))
    decreases |t|
  {
    hide ApplyToken, TakesNext, Plain, IsRetry;
    if t != [] {
      if IsRetry(t[0]) {
        RetryKeepsPackage(o, t[0]);
        WithoutRetrySamePackage(ApplyToken(o, t[0]), o', t[1..]);
      } else {
        assert ([t[0]] + WithoutRetry(t[1..]))[1..] == WithoutRetry(t[1..]);
        TokenSamePackage(o, o', t[0]);
        WithoutRetrySamePackage(ApplyToken(o, t[0]), ApplyToken(o', t[0]), t[1..]);
      }
    }
  }

  /** Commands written as --name=value are parsed to their end, and keep their package without --retry_count. */
  lemma SelfContainedCommand(t: seq<string>)
    requires SelfContained(t)
    ensures ParsedToEnd(WithoutRetry(t))
    ensures Parse(NO_OPTIONS, WithoutRetry(t)).updatePackage == Parse(NO_OPTIONS, t).updatePackage
  {
    WithoutRetrySamePackage(NO_OPTIONS, NO_OPTIONS, t);
    SelfContainedToEnd(WithoutRetry(t));
  }

  lemma {:induction false} SelfContainedToEnd(t: seq<string>)
    requires SelfContained(t)
    ensures ParsedToEnd(t)
    decreases |t|
  {
    if t != [] {
      SelfContainedToEnd(t[1..]);
    }
  }

  lemma RetryKeepsPackage(o: Options, arg: string)
    requires IsRetry(arg)
    ensures ApplyToken(o, arg).updatePackage == o.updatePackage
  {
    assert arg[2] == RETRY[2] == 'r';
    assert "update_package"[0] == 'u';
    if Long(arg) && Name(arg) != "" {
      assert Name(arg)[0] == arg[2];
    }
  }

  /** What a boot makes of the stored tokens. */
  lemma ParseContent(env: Env, t: seq<string>, k: nat, count: nat)
    requires UpdateCommand(env, t) && count < 0x8000_0000
    requires k == 0 ==> count == Parse(NO_OPTIONS, t).retryCount
    ensures var o := Parse(NO_OPTIONS, Content(env, t, k, count));
            o.updatePackage == Parse(NO_OPTIONS, t).updatePackage && o.retryCount == count
  {
    if k > 0 {
      var rest, last := WithoutRetry(t), RetryToken(count);
      ParseCopies(NO_OPTIONS, env.exe, k);
      ParseConcat(NO_OPTIONS, Copies(env.exe, k), rest + [last]);
      RetryTokenFacts(count);
      hide Parse, ParsedToEnd, RetryToken, Print;
      ParseAppend(NO_OPTIONS, rest, last);
    }
  }

  lemma {:induction false} LinesConcat(a: seq<string>, b: seq<string>)
    ensures Lines(a + b) == Lines(a) + Lines(b)
  {
    if a == [] {
      assert a + b == b;
    } else {
      assert (a + b)[1..] == a[1..] + b;
      LinesConcat(a[1..], b);
    }
  }

  lemma {:induction false} CopiesSize(exe: string, k: nat)
    ensures |Lines(Copies(exe, k))| == k * (|exe| + 1)
  {
    if k > 0 {
      assert Copies(exe, k)[1..] == Copies(exe, k - 1);
      CopiesSize(exe, k - 1);
      assert k * (|exe| + 1) == (k - 1) * (|exe| + 1) + (|exe| + 1);
    }
  }

  lemma {:induction false} CopiesPlain(exe: string, k: nat)
    requires Plain(exe)
    ensures AllPlain(Copies(exe, k))
  {
    if k > 0 {
      CopiesPlain(exe, k - 1);
    }
  }

  lemma {:induction false} WithoutRetrySize(t: seq<string>)
    ensures |Lines(WithoutRetry(t))| <= |Lines(t)|
  {
    if t != [] {
      WithoutRetrySize(t[1..]);
    }
  }

  lemma ContentIsPlain(env: Env, t: seq<string>, k: nat, count: nat)
    requires Plain(env.exe) && AllPlain(t) && count < 0x8000_0000
    ensures AllPlain(Content(env, t, k, count)) && CutAll(Content(env, t, k, count)) == Content(env, t, k, count)
  {
    WithoutRetryFacts(t);
    RetryTokenFacts(count);
    CopiesPlain(env.exe, k);
    hide Plain, WithoutRetry, RetryToken;
    CutAllPlain(Content(env, t, k, count));
  }

  lemma ContentSize(env: Env, t: seq<string>, k: nat, count: nat)
    requires 0 < k <= 4 && count <= 4
    ensures |Lines(Content(env, t, k, count))| <= |Lines(t)| + 4 * (|env.exe| + 1) + |RETRY| + 3
  {
    var copies, rest, last := Copies(env.exe, k), WithoutRetry(t), RetryToken(count);
    LinesConcat(copies, rest + [last]);
    LinesConcat(rest, [last]);
    CopiesSize(env.exe, k);
    MulMonotone(k, 4, |env.exe| + 1);
    WithoutRetrySize(t);
    assert Lines([last]) == last + "\n" + Lines([last][1..]);
    assert |Print(count)| == 1;
  }

  /** The stored tokens fit into the control block, so the next boot reads them back. */
  lemma ContentReadBack(env: Env, t: seq<string>, k: nat, count: nat)
    requires UpdateCommand(env, t) && k <= 4 && count <= 4
    ensures var x := Content(env, t, k, count);
            ReadBack(Stored(x)) == x && CutAll(x) == x
  {
    var x := Content(env, t, k, count);
    ContentIsPlain(env, t, k, count);
    BodyIsLines(x);
    BodyIsLines(t);
    if k > 0 {
      ContentSize(env, t, k, count);
    }
    ReadBackExactlyWhen(x);
  }

  // ---------------------------------------------------------------- whole runs

  /** The control block holds round `k` with this count. */
  predicate Stores(env: Env, d: Device, t: seq<string>, k: nat, count: nat) {
    && d.bcb == Bcb(true, Stored(Content(env, t, k, count)))
    && Round(t, k, count)
  }

  /** `first` is the count that the main system wrote, usually none. */
  predicate Round(t: seq<string>, k: nat, count: nat) {
    var first := Parse(NO_OPTIONS, t).retryCount;
    if k == 0 then count == first && count < 0x8000_0000 else first + k <= count <= 4
  }

  predicate Increasing(counts: seq<nat>, last: nat) {
    && (forall i, j | 0 <= i <= j < |counts| :: counts[i] <= counts[j])
    && (counts != [] ==> counts[|counts| - 1] <= last)
  }

  /** The update is still to be done: what control block, boot and history look like in round (k, count). */
  predicate Pending(env: Env, d: Device, t: seq<string>, k: nat, count: nat) {
    var first := Parse(NO_OPTIONS, t).retryCount;
    && Stores(env, d, t, k, count)
    && Increasing(d.counts, count)
    && d.retryReboots + first <= count
    && match d.phase
       case PowerOff => d.attempts <= d.retryReboots + d.crashes
       case GotArgs(args) => args == [env.exe] + Content(env, t, k, count) && d.attempts <= d.retryReboots + d.crashes
       case Dispatch(args) => args == [env.exe] + Content(env, t, k, count) && d.attempts <= d.retryReboots + d.crashes
       case Ready(args, retry) => InBoot(env, d, t, k, count, args, retry) && d.attempts <= d.retryReboots + d.crashes
       case Installing(args, retry) => InBoot(env, d, t, k, count, args, retry) && d.attempts <= d.retryReboots + d.crashes + 1
       case Rebooting => d.retryReboots + first < count && d.attempts <= d.retryReboots + d.crashes + 1
       case Finishing(wiped, stage) => stage == 0 && d.attempts <= d.retryReboots + d.crashes + 1
       case _ => false
  }

  /** A boot that read `retry`: it has stored 1 if it read 0, and otherwise nothing new. */
  predicate InBoot(env: Env, d: Device, t: seq<string>, k: nat, count: nat, args: seq<string>, retry: nat) {
    && (d.counts != [] && d.counts[|d.counts| - 1] == retry)
    && d.retryReboots + Parse(NO_OPTIONS, t).retryCount <= retry
    && if retry == 0 then
         k > 0 && count == 1 && args == [env.exe] + Content(env, t, k - 1, 0) && Round(t, k - 1, 0)
       else
         count == retry && args == [env.exe] + Content(env, t, k, count)
  }

  /** The control block has been cleared. */
  predicate Over(d: Device) {
    && !d.bcb.command
    && (d.phase == PowerOff || d.phase == MainSystem || (d.phase.Finishing? && d.phase.stage > 0))
    && (forall i, j | 0 <= i <= j < |d.counts| :: d.counts[i] <= d.counts[j])
  }

  predicate Bounds(d: Device, t: seq<string>) {
    var first := Parse(NO_OPTIONS, t).retryCount;
    && (d.retryReboots > 0 ==> d.retryReboots + first <= RETRY_LIMIT)
    && d.attempts <= d.retryReboots + d.crashes + 1
  }

  /** `d` is on its way to install `t`, or done with it, and within the bounds. */
  ghost predicate Ok(env: Env, d: Device, t: seq<string>) {
    && ((exists k, count :: Pending(env, d, t, k, count)) || Over(d))
    && Bounds(d, t)
    && (forall i, j | 0 <= i <= j < |d.counts| :: d.counts[i] <= d.counts[j])
  }

  lemma PendingBounds(env: Env, d: Device, t: seq<string>, k: nat, count: nat)
    requires Pending(env, d, t, k, count)
    ensures Bounds(d, t) && forall i, j | 0 <= i <= j < |d.counts| :: d.counts[i] <= d.counts[j]
  {
    hide Content, Parse, Stored;
  }

  /** The bootloader starts recovery, which reads what was stored, stores it again and parses it. */
  lemma ReadingKeeps(env: Env, d: Device, e: Event, t: seq<string>, k: nat, count: nat)
    requires UpdateCommand(env, t) && Pending(env, d, t, k, count) && e.Step? && (d.phase.PowerOff? || d.phase.GotArgs?)
    ensures Pending(env, Next(env, d, e), t, k, count)
  {
    hide Content, Parse, ReadBack, Stored, UpdateCommand, SetRetry, CutAll, Split, Kept;
    var x := Content(env, t, k, count);
    ContentReadBack(env, t, k, if k == 0 then 0 else count);
    ContentNotEmpty(env, t, k, count);
    assert ([env.exe] + x)[1..] == x;
  }

  lemma ContentNotEmpty(env: Env, t: seq<string>, k: nat, count: nat)
    requires UpdateCommand(env, t)
    ensures Content(env, t, k, count) != []
    ensures k == 0 ==> Content(env, t, k, count) == Content(env, t, k, 0)
  {
    assert t != [];
  }

  /** A first attempt stores the count 1 before it starts. */
  lemma DispatchKeeps(env: Env, d: Device, e: Event, t: seq<string>, k: nat, count: nat)
    requires UpdateCommand(env, t) && Pending(env, d, t, k, count) && e.Step? && d.phase.Dispatch?
    ensures var d' := Next(env, d, e);
            Pending(env, d', t, k, count) || Pending(env, d', t, k + 1, 1)
  {
    hide Content, ReadBack, Stored, UpdateCommand, SetRetry, IsRetry, CutAll, Parse, Next, Pending;
    ExeIsNoRetry(env, t);
    PendingCount(env, d, t, k, count);
    ParseContent(env, t, k, count);
    HasPackage(env, t);
    CommandPlain(env, t);
    ContentIsPlain(env, t, k, count);
    SetRetryContent(env, t, k, count, 1);
    DispatchedPending(env, d, e, t, k, count);
  }

  lemma PendingCount(env: Env, d: Device, t: seq<string>, k: nat, count: nat)
    requires Pending(env, d, t, k, count)
    ensures count < 0x8000_0000 && (k == 0 ==> count == Parse(NO_OPTIONS, t).retryCount)
  {
    hide Content, Parse, Stored;
  }

  lemma DispatchedPending(env: Env, d: Device, e: Event, t: seq<string>, k: nat, count: nat)
    requires Pending(env, d, t, k, count) && e.Step? && d.phase.Dispatch?
    requires var x := Content(env, t, k, count);
             && CutAll(x) == x && Parse(NO_OPTIONS, x).updatePackage.Some? && Parse(NO_OPTIONS, x).retryCount == count
             && SetRetry([env.exe] + x, 1) == Content(env, t, k + 1, 1)
    ensures var d' := Next(env, d, e);
            Pending(env, d', t, k, count) || Pending(env, d', t, k + 1, 1)
  {
    hide Content, ReadBack, Stored, SetRetry, CutAll, Parse, Increasing;
    var x := Content(env, t, k, count);
    assert ([env.exe] + x)[1..] == x;
    assert Increasing(d.counts, count);
    IncreasingMore(d.counts, count);
    if count == 0 {
      FirstCount(d.counts);
    }
    LastOf(d.counts, count);
  }

  lemma FirstCount(counts: seq<nat>)
    requires Increasing(counts + [0], 0)
    ensures Increasing(counts + [0], 1)
  {
  }

  lemma LastOf(counts: seq<nat>, count: nat)
    ensures (counts + [count])[|counts|] == count && |counts + [count]| == |counts| + 1
  {
  }

  lemma CommandPlain(env: Env, t: seq<string>)
    requires UpdateCommand(env, t)
    ensures Plain(env.exe) && AllPlain(t)
  {
  }

  lemma HasPackage(env: Env, t: seq<string>)
    requires UpdateCommand(env, t)
    ensures Parse(NO_OPTIONS, t).updatePackage.Some?
  {
  }

  lemma IncreasingMore(counts: seq<nat>, count: nat)
    requires Increasing(counts, count)
    ensures Increasing(counts + [count], count)
  {
  }

  /** After an attempt that asks for a retry, the count is one higher than what this boot read. */
  lemma InstallKeeps(env: Env, d: Device, e: Event, t: seq<string>, k: nat, count: nat)
    requires UpdateCommand(env, t) && Pending(env, d, t, k, count) && e.Step? && d.phase.Installing?
    ensures var d' := Next(env, d, e);
            if d'.phase == Rebooting then
              Pending(env, d', t, if d.phase.retry == 0 then k else k + 1, d.phase.retry + 1)
            else Pending(env, d', t, k, count)
  {
    hide Content, Parse, ReadBack, Stored, UpdateCommand, SetRetry, Split, Kept, IsRetry;
    ExeIsNoRetry(env, t);
    var retry := d.phase.retry;
    if retry == 0 {
      SetRetryContent(env, t, k - 1, 0, 1);
    } else {
      SetRetryContent(env, t, k, count, retry + 1);
      InstallAgain(env, d, e, t, k, count);
    }
  }

  lemma ExeIsNoRetry(env: Env, t: seq<string>)
    requires UpdateCommand(env, t)
    ensures !IsRetry(env.exe)
  {
  }

  /** The same for a boot that did not start with the first attempt. */
  lemma InstallAgain(env: Env, d: Device, e: Event, t: seq<string>, k: nat, count: nat)
    requires Pending(env, d, t, k, count) && e.Step? && d.phase.Installing? && d.phase.retry > 0
    requires SetRetry([env.exe] + Content(env, t, k, count), count + 1) == Content(env, t, k + 1, count + 1)
    ensures var d' := Next(env, d, e);
            if d'.phase == Rebooting then Pending(env, d', t, k + 1, count + 1) else Pending(env, d', t, k, count)
  {
    hide Content, Parse, ReadBack, Stored, SetRetry, Split, Kept;
    assert Increasing(d.counts, count + 1);
  }

  lemma OtherStepsKeep(env: Env, d: Device, e: Event, t: seq<string>, k: nat, count: nat)
    requires Pending(env, d, t, k, count)
    requires e.Crash? || d.phase.Ready? || d.phase.Rebooting? || d.phase.Finishing?
    ensures var d' := Next(env, d, e);
            Pending(env, d', t, k, count) || (d.phase.Finishing? && d.phase.stage == 0 && e.Step? && Over(d') && Bounds(d', t))
  {
    PendingBounds(env, d, t, k, count);
    hide Content, Parse, ReadBack, Stored, SetRetry;
  }

  /** Once the control block is cleared, nothing more happens. */
  lemma OverStays(env: Env, d: Device, e: Event, t: seq<string>)
    requires Over(d) && Bounds(d, t)
    ensures Over(Next(env, d, e)) && Bounds(Next(env, d, e), t)
  {
    hide Parse, Branch, WipeStep, GetArgs;
  }

  /** Some round is next, or the control block has been cleared. */
  lemma StepFrom(env: Env, d: Device, e: Event, t: seq<string>, k: nat, count: nat)
    requires UpdateCommand(env, t) && Pending(env, d, t, k, count)
    ensures var d' := Next(env, d, e); (exists k', count' :: Pending(env, d', t, k', count')) || (Over(d') && Bounds(d', t))
  {
    hide UpdateCommand, Content, Parse, Stored, Next, Stores, Increasing, InBoot, Over, Bounds;
    if e.Crash? || d.phase.Ready? || d.phase.Rebooting? || d.phase.Finishing? {
      OtherStepsKeep(env, d, e, t, k, count);
    } else if d.phase.Dispatch? {
      DispatchKeeps(env, d, e, t, k, count);
    } else if d.phase.Installing? {
      InstallKeeps(env, d, e, t, k, count);
    } else {
      ReadingKeeps(env, d, e, t, k, count);
    }
  }

  lemma StepKeepsOk(env: Env, d: Device, e: Event, t: seq<string>)
    requires UpdateCommand(env, t) && Ok(env, d, t)
    ensures Ok(env, Next(env, d, e), t)
  {
    hide UpdateCommand, Next, Pending, Bounds;
    var d' := Next(env, d, e);
    if k, count :| Pending(env, d, t, k, count) {
      StepFrom(env, d, e, t, k, count);
      if k', count' :| Pending(env, d', t, k', count') {
        PendingBounds(env, d', t, k', count');
      }
    } else {
      OverStays(env, d, e, t);
    }
  }

  /**
   Any run, with crashes at any step, of an update whose command has just been stored: the counts that
   boots read never decrease, at most RETRY_LIMIT reboots are for a retry, and there is at most one
   attempt for each of them and for each crash, plus one.
   */
  lemma {:induction false} RetriesAreBounded(env: Env, d: Device, es: seq<Event>, t: seq<string>)
    requires UpdateCommand(env, t) && Ok(env, d, t)
    ensures var d' := Run(env, d, es);
            && Ok(env, d', t)
            && (d'.crashes == 0 ==> d'.attempts <= RETRY_LIMIT + 1)
    decreases |es|
  {
    if es != [] {
      StepKeepsOk(env, d, es[0], t);
      RetriesAreBounded(env, Next(env, d, es[0]), es[1..], t);
    }
  }

  /** A device that has just stored an update command satisfies the invariant. */
  lemma StoredUpdateIsOk(env: Env, d: Device, t: seq<string>)
    requires UpdateCommand(env, t) && Parse(NO_OPTIONS, t).retryCount == 0
    requires d.phase == PowerOff && d.bcb == Bcb(true, Stored(t))
    requires d.counts == [] && d.attempts == 0 && d.retryReboots == 0 && d.crashes == 0
    ensures Ok(env, d, t)
  {
    assert Pending(env, d, t, 0, 0);
  }
}