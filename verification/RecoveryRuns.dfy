/** recovery.cpp: whole boots, step after step without a crash: what an update, a retry and the end of recovery do. */
module RecoveryRuns {
  import opened Machine
  import opened BootControl
  import opened Recovery
  import opened Retries

  lemma RunFive(env: Env, d: Device, e0: Event, e1: Event, e2: Event, e3: Event, e4: Event)
    ensures Run(env, d, [e0, e1, e2, e3, e4]) == Next(env, Next(env, Next(env, Next(env, Next(env, d, e0), e1), e2), e3), e4)
  {
    hide Next;
    RunOne(env, d, e0);
    RunMore(env, d, [e0], e1);
    RunMore(env, d, [e0, e1], e2);
    RunMore(env, d, [e0, e1, e2], e3);
    RunMore(env, d, [e0, e1, e2, e3], e4);
    hide Run;
    assert [e0] + [e1] == [e0, e1] && [e0, e1] + [e2] == [e0, e1, e2];
    assert [e0, e1, e2] + [e3] == [e0, e1, e2, e3] && [e0, e1, e2, e3] + [e4] == [e0, e1, e2, e3, e4];
  }

  /**
   finish_recovery: the control block is cleared first, then the command file is removed if there is a /cache and
   unlink succeeds, and the main system starts.
   */
  lemma FinishingClears(env: Env, d: Device, e0: Event, e1: Event, e2: Event, e3: Event)
    requires d.phase.Finishing? && d.phase.stage == 0 && e0.Step? && e1.Step? && e2.Step? && e3.Step?
    ensures var d1 := Next(env, d, e0);
            d1.bcb == Bcb(false, "") && d1.commandFile == d.commandFile
    ensures Run(env, d, [e0, e1, e2, e3]) ==
            d.(phase := MainSystem, bcb := Bcb(false, ""),
               commandFile := if env.hasCache && e1.ok then None else d.commandFile)
  {
    RunOne(env, d, e0);
    RunMore(env, d, [e0], e1);
    RunMore(env, d, [e0, e1], e2);
    RunMore(env, d, [e0, e1, e2], e3);
    hide Run, GetArgs;
    assert [e0] + [e1] == [e0, e1] && [e0, e1] + [e2] == [e0, e1, e2] && [e0, e1, e2] + [e3] == [e0, e1, e2, e3];
  }

  /** The control block holds these options, which the next boot will read, an update package among them. */
  predicate HoldsUpdate(d: Device, x: seq<string>) {
    && d.phase == PowerOff && d.bcb == Bcb(true, Stored(x))
    && x != [] && ReadBack(Stored(x)) == x && CutAll(x) == x
    && Parse(NO_OPTIONS, x).updatePackage.Some?
  }

  /** The options are read, and stored again. */
  lemma UpdateReads(env: Env, d: Device, x: seq<string>, e0: Event, e1: Event)
    requires HoldsUpdate(d, x) && e0.Step? && e1.Step?
    ensures Next(env, Next(env, d, e0), e1) == d.(phase := Dispatch([env.exe] + x))
  {
    assert ([env.exe] + x)[1..] == x;
    hide Parse, Stored, ReadBack, CutAll, Branch, WipeStep, Kept, Split;
  }

  lemma NextDispatch(env: Env, d: Device, args: seq<string>, e: Event)
    requires d.phase == Dispatch(args) && args != [] && e.Step?
    ensures Next(env, d, e) == Branch(d, args, Parse(NO_OPTIONS, CutAll(args[1..])), e.outcome)
  {
    hide Parse, Stored, ReadBack, CutAll, WipeStep, SetRetry, GetArgs, Branch;
  }

  lemma UpdateBranches(env: Env, d: Device, x: seq<string>, e: Event)
    requires HoldsUpdate(d, x) && e.Step?
    ensures var count := Parse(NO_OPTIONS, x).retryCount;
            Next(env, d.(phase := Dispatch([env.exe] + x)), e) ==
              if e.outcome == Skipped then d.(phase := Finishing(false, 0))
              else d.(phase := Ready([env.exe] + x, count), counts := d.counts + [count],
                      bcb := if count == 0 then Bcb(true, Stored(SetRetry([env.exe] + x, 1))) else d.bcb)
  {
    assert ([env.exe] + x)[1..] == x;
    NextDispatch(env, d.(phase := Dispatch([env.exe] + x)), [env.exe] + x, e);
    hide Parse, Stored, ReadBack, CutAll, SetRetry, Next;
  }

  lemma Attempt(env: Env, d: Device, e3: Event, e4: Event)
    requires d.phase.Ready? && e3.Step? && e4.Step?
    ensures Next(env, Next(env, d, e3), e4) ==
            if e4.outcome == Retry && d.phase.retry <= 3 then
              d.(phase := Rebooting, attempts := d.attempts + 1,
                 bcb := Bcb(true, Stored(SetRetry(d.phase.args, d.phase.retry + 1))))
            else
              d.(phase := Finishing(false, 0), attempts := d.attempts + 1)
  {
    hide Stored, SetRetry, GetArgs, Branch, WipeStep;
  }

  /**
   A boot that installs: a package goes before a wipe; the count 1 is stored before a first attempt; an attempt that
   asks for a retry has one up to a count of 3, with the count raised, and every other attempt is the end.
   */
  lemma UpdateBoot(env: Env, d: Device, x: seq<string>, e0: Event, e1: Event, e2: Event, e3: Event, e4: Event)
    requires HoldsUpdate(d, x) && e0.Step? && e1.Step? && e2.Step? && e3.Step? && e4.Step? && e2.outcome != Skipped
    ensures var count := Parse(NO_OPTIONS, x).retryCount;
            var d' := d.(counts := d.counts + [count], attempts := d.attempts + 1);
            Run(env, d, [e0, e1, e2, e3, e4]) ==
              if e4.outcome == Retry && count <= 3 then
                d'.(phase := Rebooting, bcb := Bcb(true, Stored(SetRetry([env.exe] + x, count + 1))))
              else
                d'.(phase := Finishing(false, 0),
                    bcb := if count == 0 then Bcb(true, Stored(SetRetry([env.exe] + x, 1))) else d.bcb)
  {
    hide Run, Next, Parse, Stored, SetRetry, HoldsUpdate;
    RunFive(env, d, e0, e1, e2, e3, e4);
    UpdateReads(env, d, x, e0, e1);
    UpdateBranches(env, d, x, e2);
    Attempt(env, Next(env, Next(env, Next(env, d, e0), e1), e2), e3, e4);
  }

  /** An update that is skipped, for a low battery or a bad boot reason, is over without an attempt. */
  lemma SkippedUpdate(env: Env, d: Device, x: seq<string>, e0: Event, e1: Event, e2: Event)
    requires HoldsUpdate(d, x) && e0.Step? && e1.Step? && e2.Step? && e2.outcome == Skipped
    ensures Next(env, Next(env, Next(env, d, e0), e1), e2) == d.(phase := Finishing(false, 0))
  {
    UpdateReads(env, d, x, e0, e1);
    UpdateBranches(env, d, x, e2);
    hide Next, HoldsUpdate, Parse;
  }

  // ---------------------------------------------------------------- an update that never succeeds

  function Again(e: Event, n: nat): seq<Event> {
    seq(n, i => e)
  }

  lemma AgainMore(env: Env, d: Device, e: Event, m: nat, n: nat)
    ensures Run(env, d, Again(e, m + n)) == Run(env, Run(env, d, Again(e, m)), Again(e, n))
  {
    assert Again(e, m + n) == Again(e, m) + Again(e, n);
    RunConcat(env, d, Again(e, m), Again(e, n));
  }

  lemma AgainIs(e: Event)
    ensures Again(e, 1) == [e] && Again(e, 4) == [e, e, e, e] && Again(e, 5) == [e, e, e, e, e]
  {
  }

  /** A boot that is told to retry, up to the reboot */
  lemma RetryBoot(env: Env, d: Device, x: seq<string>, e: Event)
    requires HoldsUpdate(d, x) && Parse(NO_OPTIONS, x).retryCount <= 3 && e.Step? && e.ok && e.outcome == Retry
    ensures var count := Parse(NO_OPTIONS, x).retryCount;
            Run(env, d, Again(e, 6)) ==
              d.(bcb := Bcb(true, Stored(SetRetry([env.exe] + x, count + 1))), counts := d.counts + [count],
                 attempts := d.attempts + 1, retryReboots := d.retryReboots + 1)
  {
    hide Run, Again, Parse, Stored, SetRetry, GetArgs, WipeStep, Branch;
    UpdateBoot(env, d, x, e, e, e, e, e);
    AgainMore(env, d, e, 5, 1);
    AgainIs(e);
    RunOne(env, Run(env, d, [e, e, e, e, e]), e);
  }

  /** The boot that has read the count 4 is the last one. */
  lemma LastBoot(env: Env, d: Device, x: seq<string>, e: Event)
    requires HoldsUpdate(d, x) && Parse(NO_OPTIONS, x).retryCount == 4 && e.Step? && e.ok && e.outcome == Retry
    ensures Run(env, d, Again(e, 9)) ==
            d.(phase := MainSystem, bcb := Bcb(false, ""), commandFile := if env.hasCache then None else d.commandFile,
               counts := d.counts + [4], attempts := d.attempts + 1)
  {
    hide Run, Next, Again, Parse, Stored, SetRetry, HoldsUpdate;
    UpdateBoot(env, d, x, e, e, e, e, e);
    AgainMore(env, d, e, 5, 4);
    AgainIs(e);
    FinishingClears(env, Run(env, d, [e, e, e, e, e]), e, e, e, e);
  }

  function Counting(k: nat): seq<nat> {
    if k == 0 then [] else Counting(k - 1) + [k - 1]
  }

  /** After k boots that were told to retry. */
  function Retried(env: Env, d: Device, t: seq<string>, k: nat): Device {
    d.(bcb := Bcb(true, Stored(Content(env, t, k, k))), counts := d.counts + Counting(k),
       attempts := d.attempts + k, retryReboots := d.retryReboots + k)
  }

  lemma RetriedHolds(env: Env, d: Device, t: seq<string>, k: nat)
    requires UpdateCommand(env, t) && Parse(NO_OPTIONS, t).retryCount == 0 && d.phase == PowerOff && k <= 4
    ensures HoldsUpdate(Retried(env, d, t, k), Content(env, t, k, k))
    ensures Parse(NO_OPTIONS, Content(env, t, k, k)).retryCount == k
  {
    ContentReadBack(env, t, k, k);
    ContentNotEmpty(env, t, k, k);
    ParseContent(env, t, k, k);
    HasPackage(env, t);
    hide ReadBack, Stored, Content, CutAll, Parse, UpdateCommand;
  }

  /** One more boot that is told to retry */
  lemma OneMoreRetry(env: Env, d: Device, t: seq<string>, k: nat, debris: Option<string>)
    requires UpdateCommand(env, t) && Parse(NO_OPTIONS, t).retryCount == 0 && d.phase == PowerOff && k < 4
    ensures Run(env, Retried(env, d, t, k), Again(Step(true, Retry, debris), 6)) == Retried(env, d, t, k + 1)
  {
    hide UpdateCommand, Content, Parse, SetRetry, Stored, HoldsUpdate, IsRetry, Run, Again, Counting;
    RetriedHolds(env, d, t, k);
    ExeIsNoRetry(env, t);
    SetRetryContent(env, t, k, k, k + 1);
    RetryBoot(env, Retried(env, d, t, k), Content(env, t, k, k), Step(true, Retry, debris));
    CountsMore(d.counts, k);
  }

  lemma CountsMore(counts: seq<nat>, k: nat)
    ensures counts + Counting(k) + [k] == counts + Counting(k + 1)
  {
  }

  lemma {:induction false} RetriedTimes(env: Env, d: Device, t: seq<string>, k: nat, debris: Option<string>)
    requires UpdateCommand(env, t) && Parse(NO_OPTIONS, t).retryCount == 0
    requires d.phase == PowerOff && d.bcb == Bcb(true, Stored(t)) && k <= 4
    ensures Run(env, d, Again(Step(true, Retry, debris), 6 * k)) == Retried(env, d, t, k)
  {
    hide UpdateCommand, Parse, Stored, Next;
    if k == 0 {
      assert d.counts + [] == d.counts;
    } else {
      RetriedTimes(env, d, t, k - 1, debris);
      AgainMore(env, d, Step(true, Retry, debris), 6 * (k - 1), 6);
      OneMoreRetry(env, d, t, k - 1, debris);
    }
  }

  lemma {:induction false} MainSystemStays(env: Env, d: Device, es: seq<Event>)
    requires d.phase == MainSystem
    ensures Run(env, d, es) == d
    decreases |es|
  {
    if es != [] {
      MainSystemStays(env, d, es[1..]);
    }
  }

  /**
   An update that always asks for a retry, without a crash: five attempts and four reboots with the counts 0 to 4;
   then control block and command file are cleared and the main system starts.
   */
  lemma FailingUpdateEnds(env: Env, d: Device, t: seq<string>, n: nat, debris: Option<string>)
    requires UpdateCommand(env, t) && Parse(NO_OPTIONS, t).retryCount == 0
    requires d.phase == PowerOff && d.bcb == Bcb(true, Stored(t)) && n >= 33
    ensures Run(env, d, Again(Step(true, Retry, debris), n)) ==
            d.(phase := MainSystem, bcb := Bcb(false, ""), commandFile := if env.hasCache then None else d.commandFile,
               counts := d.counts + [0, 1, 2, 3, 4], attempts := d.attempts + 5, retryReboots := d.retryReboots + 4)
  {
    hide UpdateCommand, Parse, Stored, Run, Again, Next, Retried;
    var e := Step(true, Retry, debris);
    RetriedTimes(env, d, t, 4, debris);
    AgainMore(env, d, e, 24, n - 24);
    var d4 := Retried(env, d, t, 4);
    AgainMore(env, d4, e, 9, n - 33);
    FifthAttempt(env, d, t, debris);
    MainSystemStays(env, Run(env, d4, Again(e, 9)), Again(e, n - 33));
  }

  lemma FifthAttempt(env: Env, d: Device, t: seq<string>, debris: Option<string>)
    requires UpdateCommand(env, t) && Parse(NO_OPTIONS, t).retryCount == 0 && d.phase == PowerOff
    ensures Run(env, Retried(env, d, t, 4), Again(Step(true, Retry, debris), 9)) ==
            d.(phase := MainSystem, bcb := Bcb(false, ""), commandFile := if env.hasCache then None else d.commandFile,
               counts := d.counts + [0, 1, 2, 3, 4], attempts := d.attempts + 5, retryReboots := d.retryReboots + 4)
  {
    hide UpdateCommand, Content, Parse, Stored, HoldsUpdate, Run, Again, Counting;
    RetriedHolds(env, d, t, 4);
    LastBoot(env, Retried(env, d, t, 4), Content(env, t, 4, 4), Step(true, Retry, debris));
    FirstFive(d.counts);
  }

  lemma FirstFive(counts: seq<nat>)
    ensures counts + Counting(4) + [4] == counts + [0, 1, 2, 3, 4]
  {
    assert Counting(4) == Counting(2) + [2] + [3] && Counting(2) == [] + [0] + [1];
  }
}
