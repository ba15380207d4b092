/**
 recovery.cpp as a machine that may lose power between any two steps: what is on flash survives,
 everything else is gone and the next boot starts over.
 */
module Recovery {
  import opened Machine
  import opened BootControl

  const RETRY_LIMIT: nat := 4

  /** How recovery is started and which partitions the device has. */
  datatype Env = Env(exe: string, hasCache: bool, hasMetadata: bool)

  /** `command` tells whether the bootloader is to start recovery. */
  datatype Bcb = Bcb(command: bool, recovery: string)

  datatype Outcome = Success | Retry | Failure | Skipped

  /** Where one boot has got to; `args` are what get_args returned. */
  datatype Phase =
    | PowerOff
    | MainSystem
    | GotArgs(args: seq<string>)
    | Dispatch(args: seq<string>)
    | Ready(args: seq<string>, retry: nat)
    | Installing(args: seq<string>, retry: nat)
    | Rebooting
    | Wiping(stage: nat, success: bool, fbe: bool)
    | Finishing(wiped: bool, stage: nat)

  /** Flash contents, the phase, and a history, which the program does not keep; `reported` is what wipe_data last returned. */
  datatype Device = Device(
    bcb: Bcb, commandFile: Option<string>, userData: bool, phase: Phase,
    counts: seq<nat>, attempts: nat, retryReboots: nat, crashes: nat, wipes: nat, reported: Option<bool>)

  /**
   One step of the program, with the results of its system calls, or a loss of power.  `debris` is what a half-erased
   /cache may hold as command file.  When /data is erased to convert it, Skipped means that no marker could be made.
   */
  datatype Event = Step(ok: bool, outcome: Outcome, debris: Option<string>) | Crash(debris: Option<string>)

  /** get_args, when recovery is started without arguments. */
  function GetArgs(env: Env, d: Device): seq<string> {
    var stored := ReadBack(d.bcb.recovery);
    if stored != [] then [env.exe] + stored
    else if env.hasCache && d.commandFile.Some? then [env.exe] + Kept(Split("", d.commandFile.value))
    else [env.exe]
  }

  function Next(env: Env, d: Device, e: Event): Device {
    match e
    case Crash(debris) =>
      if d.phase == MainSystem then d
      else d.(phase := PowerOff, crashes := d.crashes + 1,
              commandFile := if d.phase.Wiping? && d.phase.stage == 2 then debris else d.commandFile)
    case Step(ok, outcome, debris) =>
      match d.phase
      case PowerOff => d.(phase := if d.bcb.command then GotArgs(GetArgs(env, d)) else MainSystem)
      case MainSystem => d
      case GotArgs(args) =>
        d.(phase := Dispatch(args),
           bcb := if args == [] then d.bcb else Bcb(true, Stored(args[1..])))
      case Dispatch(args) => Branch(d, args, if args == [] then NO_OPTIONS else Parse(NO_OPTIONS, CutAll(args[1..])), outcome)
      case Ready(args, retry) => d.(phase := Installing(args, retry), attempts := d.attempts + 1)
      case Installing(args, retry) =>
        if outcome == Retry && retry < RETRY_LIMIT then
          d.(phase := Rebooting, bcb := Bcb(true, Stored(SetRetry(args, retry + 1))))
        else d.(phase := Finishing(false, 0))
      case Rebooting =>
        if ok then d.(phase := PowerOff, retryReboots := d.retryReboots + 1) else d.(phase := Finishing(false, 0))
      case Wiping(stage, success, fbe) => WipeStep(env, d, stage, success, fbe, ok, outcome, debris)
      case Finishing(wiped, stage) =>
        if stage == 0 then d.(phase := Finishing(wiped, 1), bcb := Bcb(false, ""))
        else if stage == 1 then
          d.(phase := Finishing(wiped, 2), commandFile := if env.hasCache && ok then None else d.commandFile)
        else d.(phase := PowerOff)
  }

  /** The choice main makes: an update package goes first, then --wipe_data. */
  function Branch(d: Device, args: seq<string>, o: Options, outcome: Outcome): Device {
    if o.updatePackage.Some? then
      if outcome == Skipped then d.(phase := Finishing(false, 0))
      else
        d.(phase := Ready(args, o.retryCount), counts := d.counts + [o.retryCount],
           bcb := if o.retryCount == 0 then Bcb(true, Stored(SetRetry(args, 1))) else d.bcb)
    else if o.wipeData then d.(phase := Wiping(0, true, o.reason == Some(CONVERT_FBE)))
    else d.(phase := Finishing(false, 0))
  }

  const CONVERT_FBE: string := "convert_fbe"

  /**
   wipe_data: PreWipeData, then /data, /cache and /metadata whatever each result is, then PostWipeData if all went well.
   erase_volume reports success, and formats nothing, if it cannot leave the marker for a conversion of /data.
   */
  function WipeStep(env: Env, d: Device, stage: nat, success: bool, fbe: bool, ok: bool, outcome: Outcome, debris: Option<string>): Device {
    var ended := d.(phase := Finishing(true, 0), wipes := d.wipes + 1);
    if stage == 0 then
      if ok then d.(phase := Wiping(1, true, fbe)) else ended.(reported := Some(false))
    else if stage == 1 then
      if fbe && outcome == Skipped then d.(phase := Wiping(2, success, fbe))
      else d.(phase := Wiping(2, success && ok, fbe), userData := d.userData && !ok)
    else if stage == 2 then
      d.(phase := Wiping(3, success && (ok || !env.hasCache), fbe),
         commandFile := if !env.hasCache then d.commandFile else if ok then None else debris)
    else if stage == 3 then
      d.(phase := Wiping(4, success && (ok || !env.hasMetadata), fbe))
    else ended.(reported := Some(success && ok))
  }

  function Run(env: Env, d: Device, es: seq<Event>): Device
    decreases |es|
  {
    if es == [] then d else Run(env, Next(env, d, es[0]), es[1..])
  }

  // ---------------------------------------------------------------- factory reset

  /** Options that ask for a wipe and can be stored. */
  predicate WipeCommand(t: seq<string>) {
    && AllPlain(t) && |Text(t)| <= FIELD_SIZE
    && Parse(NO_OPTIONS, t).updatePackage.None? && Parse(NO_OPTIONS, t).wipeData
  }

  /** The command is stored, and this boot is on its way to wipe, or has just wiped. */
  predicate WipePending(env: Env, d: Device, t: seq<string>, before: nat) {
    && d.bcb == Bcb(true, Stored(t))
    && match d.phase
       case PowerOff => true
       case GotArgs(args) => args == [env.exe] + t
       case Dispatch(args) => args == [env.exe] + t
       case Wiping(_, _, _) => true
       case Finishing(wiped, stage) => wiped && stage == 0 && d.wipes > before
       case _ => false
  }

  /** The control block has been cleared, after a wipe_data call that ran to its end. */
  predicate WipeOver(d: Device, before: nat) {
    && !d.bcb.command && d.wipes > before
    && (d.phase == PowerOff || d.phase == MainSystem || (d.phase.Finishing? && d.phase.wiped && d.phase.stage > 0))
  }

  lemma CommandReadBack(env: Env, t: seq<string>)
    requires WipeCommand(t)
    ensures ReadBack(Stored(t)) == t && t != [] && CutAll(t) == t && ([env.exe] + t)[1..] == t
  {
    ReadBackExactlyWhen(t);
    CutAllPlain(t);
    hide Stored, ReadBack, Text;
    assert t != [];
  }

  /** What the boot does up to wipe_data, once the command is stored */
  lemma WipeStarts(env: Env, d: Device, e: Event, t: seq<string>)
    requires WipeCommand(t) && d.bcb == Bcb(true, Stored(t)) && e.Step?
    ensures d.phase == PowerOff ==> Next(env, d, e) == d.(phase := GotArgs([env.exe] + t))
    ensures d.phase == GotArgs([env.exe] + t) ==> Next(env, d, e) == d.(phase := Dispatch([env.exe] + t))
    ensures d.phase == Dispatch([env.exe] + t) ==>
              Next(env, d, e) == d.(phase := Wiping(0, true, Parse(NO_OPTIONS, t).reason == Some(CONVERT_FBE)))
  {
    CommandReadBack(env, t);
    hide Stored, ReadBack, Parse, Text, CutAll, AllPlain;
  }

  lemma WipeStepKeeps(env: Env, d: Device, e: Event, t: seq<string>, before: nat)
    requires WipeCommand(t) && d.wipes >= before && (WipePending(env, d, t, before) || WipeOver(d, before))
    ensures var d' := Next(env, d, e);
            && d'.wipes >= before && (WipePending(env, d', t, before) || WipeOver(d', before))
            && (d.bcb.command && !d'.bcb.command ==> d.phase == Finishing(true, 0) && d.wipes > before)
  {
    hide WipeCommand, Stored, GetArgs, Branch, AllPlain;
    if e.Step? && d.bcb == Bcb(true, Stored(t)) {
      WipeStarts(env, d, e, t);
    }
  }

  /**
   Once --wipe_data is stored, whatever happens, with power lost at any step: every boot goes to the
   same wipe, and the control block is only cleared when a wipe_data call has run to its end in that boot.
   */
  lemma {:induction false} WipeSurvivesCrashes(env: Env, d: Device, es: seq<Event>, t: seq<string>, before: nat)
    requires WipeCommand(t) && d.wipes >= before && (WipePending(env, d, t, before) || WipeOver(d, before))
    ensures var d' := Run(env, d, es);
            && d'.wipes >= before && (WipePending(env, d', t, before) || WipeOver(d', before))
    decreases |es|
  {
    if es != [] {
      WipeStepKeeps(env, d, es[0], t, before);
      WipeSurvivesCrashes(env, Next(env, d, es[0]), es[1..], t, before);
    }
  }

  /** Steps that a boot without a crash still needs. */
  function StepsLeft(d: Device): nat {
    match d.phase
    case MainSystem => 0
    case PowerOff => if d.bcb.command then 12 else 1
    case GotArgs(_) => 11
    case Dispatch(_) => 10
    case Wiping(stage, _, _) => if stage < 5 then 9 - stage else 5
    case Finishing(_, stage) => if stage < 3 then 4 - stage else 2
    case _ => 0
  }

  predicate NoCrash(es: seq<Event>) {
    forall i | 0 <= i < |es| :: es[i].Step?
  }

  /** One boot without a crash ends in the main system, with the control block cleared. */
  lemma {:induction false} CrashFreeBootFinishes(env: Env, d: Device, es: seq<Event>, t: seq<string>, before: nat)
    requires WipeCommand(t) && d.wipes >= before && (WipePending(env, d, t, before) || WipeOver(d, before))
    requires |es| >= StepsLeft(d) && NoCrash(es)
    ensures var d' := Run(env, d, es);
            && d'.phase == MainSystem && !d'.bcb.command && d'.wipes > before
            && d'.userData == (d.userData && !DataErased(env, d, es))
    decreases |es|
  {
    UserDataGoneExactlyWhen(env, d, es);
    hide WipeCommand, Stored, GetArgs, Branch, AllPlain, DataErased;
    if es != [] {
      WipeStepKeeps(env, d, es[0], t, before);
      if d.bcb == Bcb(true, Stored(t)) {
        WipeStarts(env, d, es[0], t);
      }
      CrashFreeBootFinishes(env, Next(env, d, es[0]), es[1..], t, before);
    }
  }

  // ---------------------------------------------------------------- whether the user's data are gone

  /** This step formats /data. */
  predicate Formats(e: Event, fbe: bool) {
    e.Step? && e.ok && !(fbe && e.outcome == Skipped)
  }

  /** Some step of the run formats /data. */
  predicate DataErased(env: Env, d: Device, es: seq<Event>)
    decreases |es|
  {
    es != [] && ((d.phase.Wiping? && d.phase.stage == 1 && Formats(es[0], d.phase.fbe)) || DataErased(env, Next(env, d, es[0]), es[1..]))
  }

  /** No other step touches user data, in any run. */
  lemma {:induction false} UserDataGoneExactlyWhen(env: Env, d: Device, es: seq<Event>)
    ensures Run(env, d, es).userData == (d.userData && !DataErased(env, d, es))
    decreases |es|
  {
    if es != [] {
      UserDataGoneExactlyWhen(env, Next(env, d, es[0]), es[1..]);
    }
  }

  lemma {:induction false} RunConcat(env: Env, d: Device, a: seq<Event>, b: seq<Event>)
    ensures Run(env, d, a + b) == Run(env, Run(env, d, a), b)
    decreases |a|
  {
    if a == [] {
      assert a + b == b;
    } else {
      assert (a + b)[1..] == a[1..] + b;
      RunConcat(env, Next(env, d, a[0]), a[1..], b);
    }
  }

  /** Behind the step that erases /data */
  predicate PastErase(d: Device) {
    match d.phase
    case Wiping(stage, _, _) => stage >= 2
    case Finishing(_, stage) => stage == 0 || !d.bcb.command
    case PowerOff => !d.bcb.command
    case MainSystem => true
    case _ => false
  }

  lemma {:induction false} PastEraseKeeps(env: Env, d: Device, es: seq<Event>)
    requires PastErase(d) && NoCrash(es)
    ensures Run(env, d, es).userData == d.userData
    decreases |es|
  {
    if es != [] {
      PastEraseKeeps(env, Next(env, d, es[0]), es[1..]);
    }
  }

  lemma RunOne(env: Env, d: Device, e: Event)
    ensures Run(env, d, [e]) == Next(env, d, e)
  {
    assert [e][1..] == [];
  }

  lemma RunMore(env: Env, d: Device, es: seq<Event>, e: Event)
    ensures Run(env, d, es + [e]) == Next(env, Run(env, d, es), e)
  {
    RunConcat(env, d, es, [e]);
    RunOne(env, Run(env, d, es), e);
  }

  /** The converted /data is asked for by --reason=convert_fbe. */
  predicate Converts(t: seq<string>) {
    Parse(NO_OPTIONS, t).reason == Some(CONVERT_FBE)
  }

  /** A boot with its command stored, up to PreWipeData */
  lemma WipeBegins(env: Env, d: Device, t: seq<string>, e0: Event, e1: Event, e2: Event)
    requires WipeCommand(t) && d.phase == PowerOff && d.bcb == Bcb(true, Stored(t)) && e0.Step? && e1.Step? && e2.Step?
    ensures Run(env, d, [e0, e1, e2]) == d.(phase := Wiping(0, true, Converts(t)))
  {
    hide WipeCommand, Next, Stored;
    RunOne(env, d, e0);
    RunMore(env, d, [e0], e1);
    RunMore(env, d, [e0, e1], e2);
    assert [e0] + [e1] == [e0, e1] && [e0, e1] + [e2] == [e0, e1, e2];
    WipeStarts(env, d, e0, t);
    WipeStarts(env, Next(env, d, e0), e1, t);
    WipeStarts(env, Next(env, Next(env, d, e0), e1), e2, t);
  }

  /** PreWipeData and the erasure of /data */
  lemma EraseStep(env: Env, d: Device, pre: Event, data: Event)
    requires d.phase.Wiping? && d.phase.stage == 0 && d.phase.success && pre.Step? && data.Step?
    ensures var d' := Next(env, Next(env, d, pre), data);
            && PastErase(d') && d'.userData == (d.userData && !(pre.ok && Formats(data, d.phase.fbe)))
  {
  }

  /**
   The promise of the factory reset, for a boot without a crash from any device on which the command is stored:
   when it comes back to the main system the control block is cleared in any case, and user data are gone if and
   only if PreWipeData succeeded and /data was formatted.
   */
  lemma WipeBootErasesExactlyWhen(env: Env, d: Device, t: seq<string>, e0: Event, e1: Event, e2: Event,
                                  pre: Event, data: Event, rest: seq<Event>)
    requires WipeCommand(t) && d.phase == PowerOff && d.bcb == Bcb(true, Stored(t)) && d.userData
    requires e0.Step? && e1.Step? && e2.Step? && pre.Step? && data.Step? && NoCrash(rest)
    ensures var d' := Run(env, d, [e0, e1, e2] + [pre] + [data] + rest);
            && (!d'.userData <==> pre.ok && Formats(data, Converts(t)))
            && (|rest| >= 7 ==> d'.phase == MainSystem && !d'.bcb.command)
  {
    var first := [e0, e1, e2] + [pre] + [data];
    var d3 := Run(env, d, [e0, e1, e2]);
    hide WipeCommand, Next, Formats, Converts, PastErase, Stored, WipeOver, DataErased;
    WipeBegins(env, d, t, e0, e1, e2);
    RunMore(env, d, [e0, e1, e2], pre);
    RunMore(env, d, [e0, e1, e2] + [pre], data);
    RunConcat(env, d, first, rest);
    EraseStep(env, d3, pre, data);
    PastEraseKeeps(env, Run(env, d, first), rest);
    if |rest| >= 7 {
      CrashFreeBootFinishes(env, d, first + rest, t, d.wipes);
    }
  }

  /** What wipe_data returns, once PreWipeData has succeeded */
  lemma WipeReportsExactlyWhen(env: Env, d: Device, data: Event, cache: Event, metadata: Event, post: Event)
    requires d.phase.Wiping? && d.phase.stage == 1 && d.phase.success
    requires data.Step? && cache.Step? && metadata.Step? && post.Step?
    ensures var d' := Next(env, Next(env, Next(env, Next(env, d, data), cache), metadata), post);
            && d'.phase == Finishing(true, 0)
            && d'.userData == (d.userData && !Formats(data, d.phase.fbe))
            && d'.reported == Some(&& (data.ok || (d.phase.fbe && data.outcome == Skipped)) && (cache.ok || !env.hasCache)
                                   && (metadata.ok || !env.hasMetadata) && post.ok)
  {
    var d1 := Next(env, d, data);
    NextWiping(env, d, data);
    var d2 := Next(env, d1, cache);
    NextWiping(env, d1, cache);
    var d3 := Next(env, d2, metadata);
    NextWiping(env, d2, metadata);
    NextWiping(env, d3, post);
    hide Next;
  }

  lemma NextWiping(env: Env, d: Device, e: Event)
    requires d.phase.Wiping? && e.Step?
    ensures Next(env, d, e) == WipeStep(env, d, d.phase.stage, d.phase.success, d.phase.fbe, e.ok, e.outcome, e.debris)
  {
  }

  /** A reported success means that user data are gone, unless /data was to be converted and its marker could not be made. */
  lemma ReportedButKept(env: Env, d: Device)
    requires d.phase == Wiping(1, true, true) && d.userData
    ensures var good, kept := Step(true, Success, None), Step(true, Skipped, None);
            var d' := Next(env, Next(env, Next(env, Next(env, d, kept), good), good), good);
            d'.reported == Some(true) && d'.userData
  {
    var good, kept := Step(true, Success, None), Step(true, Skipped, None);
    WipeReportsExactlyWhen(env, d, kept, good, good, good);
  }

  /** A boot in which /data cannot be formatted, or PreWipeData fails: the main system starts, nothing asks for the wipe any more, and the data are there. */
  lemma FailedWipeIsForgotten(env: Env, d: Device, preOk: bool, dataOk: bool)
    requires d.phase == PowerOff && d.bcb == Bcb(true, Stored(["--wipe_data"])) && d.userData && !(preOk && dataOk)
    ensures var good, pre, data := Step(true, Success, None), Step(preOk, Success, None), Step(dataOk, Success, None);
            var d' := Run(env, d, [good, good, good] + [pre] + [data] + seq(7, i => good));
            && d'.phase == MainSystem && !d'.bcb.command && d'.userData
  {
    var good, pre, data := Step(true, Success, None), Step(preOk, Success, None), Step(dataOk, Success, None);
    OnlyWipeData();
    hide Next, Stored, WipeCommand;
    WipeBootErasesExactlyWhen(env, d, ["--wipe_data"], good, good, good, pre, data, seq(7, i => good));
  }

  lemma OnlyWipeData()
    ensures WipeCommand(["--wipe_data"])
  {
    hide Parse, Plain, Body, Text;
    ParseWipeData();
    WipeDataFits();
  }

  lemma WipeDataFits()
    ensures var t := ["--wipe_data"]; AllPlain(t) && |Text(t)| <= FIELD_SIZE
  {
    var a := "--wipe_data";
    assert Plain(a);
    hide Plain;
    BodyIsLines([a]);
    assert Lines([a]) == a + "\n" + Lines([a][1..]);
  }

  lemma ParseWipeData()
    ensures Parse(NO_OPTIONS, ["--wipe_data"]) == NO_OPTIONS.(wipeData := true)
  {
    var a := "--wipe_data";
    WipeDataToken();
    hide TakesNext, ApplyToken;
    assert a != "--" && [a][1..] == [];
    assert Parse(NO_OPTIONS, [a]) == Parse(ApplyToken(NO_OPTIONS, a), []);
  }

  lemma WipeDataToken()
    ensures var a := "--wipe_data"; !TakesNext(a) && ApplyToken(NO_OPTIONS, a) == NO_OPTIONS.(wipeData := true)
  {
    var a, name := "--wipe_data", "wipe_data";
    assert a[..2] == "--" && a[2..] == name && name[..9] == name;
    NoEquals(name);
    hide Equals;
    assert Long(a) && Name(a) == name && !HasValue(a);
    hide Long, Name, HasValue;
    assert KindOf(name) == NoArgument;
    hide KindOf;
    WipeDataApplies();
  }

  lemma WipeDataApplies()
    ensures Apply(NO_OPTIONS, "wipe_data", "") == NO_OPTIONS.(wipeData := true)
  {
    assert |"update_package"| == 14 && |"wipe_data"| == 9;
  }

  /** The first boot finds the options in the command file and stores them; until then a crash changes nothing. */
  lemma CommandFileIsStored(env: Env, d: Device, t: seq<string>, e1: Event, e2: Event)
    requires AllUsable(t) && env.hasCache && d.phase == PowerOff && d.bcb == Bcb(true, "") && d.commandFile == Some(Lines(t))
    requires e1.Step?
    ensures var d1 := Next(env, d, e1); var d2 := Next(env, d1, e2);
            && d1.phase == GotArgs([env.exe] + t)
            && (e2.Step? ==> d2.phase == Dispatch([env.exe] + t) && d2.bcb == Bcb(true, Stored(t)))
            && (e2.Crash? ==> d2 == d.(crashes := d.crashes + 1))
  {
    KeptLines(t);
    SplitLast("", "");
    assert ([env.exe] + t)[1..] == t;
    assert ReadBack("") == [];
  }
}
