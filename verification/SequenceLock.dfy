/**
 The sequence lock of legacy_properties.h: one writer updates a value byte by byte while any
 number of readers copy it, and the serial word tells a reader whether its copy can be trusted.

 A system runs under a schedule of single steps.  `history` lists every value whose update has
 completed; `base` is the number of updates that had completed when a reader read the serial it
 is working with.  Neither exists in the program.
 */
module SequenceLock {
  import opened Machine

  const VALUE_MAX: nat := 92
  const LENGTH_UNIT: nat := 0x100_0000
  /** Number of updates after which the counter in the serial repeats. */
  const PERIOD: nat := 0x80_0000

  type Text = t: seq<Byte> | |t| < VALUE_MAX witness []

  /** The serial after `updates` updates, when the value has `length` bytes. */
  function Serial(length: nat, updates: nat): nat {
    length * LENGTH_UNIT + (2 * updates) % LENGTH_UNIT
  }

  function SerialLength(serial: nat): nat {
    serial / LENGTH_UNIT
  }

  predicate Dirty(serial: nat) {
    serial % 2 == 1
  }

  /** serial | 1 */
  function SetDirty(serial: nat): nat {
    if Dirty(serial) then serial else serial + 1
  }

  /** (length << 24) | ((serial + 1) & 0xffffff) */
  function Bump(serial: nat, length: nat): nat {
    length * LENGTH_UNIT + (serial + 1) % LENGTH_UNIT
  }

  lemma SerialFacts(length: nat, updates: nat)
    ensures SerialLength(Serial(length, updates)) == length
    ensures !Dirty(Serial(length, updates)) && SetDirty(Serial(length, updates)) == Serial(length, updates) + 1
    ensures forall next: nat :: Bump(SetDirty(Serial(length, updates)), next) == Serial(next, updates + 1)
  {
  }

  /** Equal serials within one period of the counter stand for the same update. */
  lemma SerialInjective(l1: nat, n1: nat, l2: nat, n2: nat)
    requires n1 <= n2 < n1 + PERIOD && Serial(l1, n1) == Serial(l2, n2)
    ensures l1 == l2 && n1 == n2
  {
    SerialFacts(l1, n1);
    SerialFacts(l2, n2);
  }

  /** The part of a prop_info that readers and the writer share. */
  datatype Info = Info(serial: nat, value: seq<Byte>)

  datatype Writer = Idle | Writing(text: Text, done: nat)

  datatype Reader =
    | AtStart
    | Checking(serial: nat, base: nat)
    | Copying(serial: nat, base: nat, local: seq<Byte>)
    | Accepted(serial: nat, base: nat, local: seq<Byte>, updates: nat)

  datatype System = System(info: Info, writer: Writer, history: seq<Text>, readers: seq<Reader>)

  datatype Event = WriterStep(text: Text) | ReaderStep(reader: nat, keeps: bool)

  function Terminated(text: Text): (s: seq<Byte>)
    ensures |s| == |text| + 1
  {
    text + [0]
  }

  /** One step of update_prop_info; an idle writer starts to store `text`. */
  function WriterNext(s: System, text: Text): System
    requires |s.info.value| == VALUE_MAX
  {
    match s.writer
    case Idle =>
      s.(info := s.info.(serial := SetDirty(s.info.serial)), writer := Writing(text, 0))
    case Writing(t, done) =>
      if done <= |t| then
        s.(info := s.info.(value := s.info.value[done := Terminated(t)[done]]), writer := Writing(t, done + 1))
      else
        s.(info := s.info.(serial := Bump(s.info.serial, |t|)), writer := Idle, history := s.history + [t])
  }

  /**
   One step of a reader that follows the rules at the end of legacy_properties.h.  A reader that finds the serial
   changed goes on with the one it has just read or, if it takes "goto 2" literally, with the one it `keeps`.
   */
  function ReaderNext(s: System, r: Reader, keeps: bool): Reader
    requires |s.info.value| == VALUE_MAX && s.history != []
  {
    var now := |s.history| - 1;
    match r
    case AtStart => Checking(s.info.serial, now)
    case Checking(serial, base) => if Dirty(serial) then AtStart else Copying(serial, base, [])
    case Copying(serial, base, local) =>
      if |local| <= SerialLength(serial) && |local| < VALUE_MAX then
        Copying(serial, base, local + [s.info.value[|local|]])
      else if s.info.serial == serial then
        Accepted(serial, base, local, if now >= base then now - base else 0)
      else if keeps then
        Checking(serial, base)
      else
        Checking(s.info.serial, now)
    case Accepted(_, _, _, _) => r
  }

  function Next(s: System, e: Event): (s': System)
    requires |s.info.value| == VALUE_MAX && s.history != []
    ensures |s'.info.value| == VALUE_MAX && s'.history != []
  {
    match e
    case WriterStep(text) => WriterNext(s, text)
    case ReaderStep(i, keeps) =>
      if i < |s.readers| then s.(readers := s.readers[i := ReaderNext(s, s.readers[i], keeps)]) else s
  }

  function Exec(s: System, es: seq<Event>): (s': System)
    requires |s.info.value| == VALUE_MAX && s.history != []
    ensures |s'.info.value| == VALUE_MAX && s'.history != []
    decreases |es|
  {
    if es == [] then s else Exec(Next(s, es[0]), es[1..])
  }

  // ---------------------------------------------------------------- the invariant

  ghost predicate WriterOk(s: System)
    requires |s.info.value| == VALUE_MAX && s.history != []
  {
    var now := |s.history| - 1;
    var serial := Serial(|s.history[now]|, now);
    match s.writer
    case Idle =>
      && s.info.serial == serial
      && s.info.value[..|s.history[now]| + 1] == Terminated(s.history[now])
    case Writing(t, done) =>
      && s.info.serial == SetDirty(serial)
      && done <= |t| + 1
      && s.info.value[..done] == Terminated(t)[..done]
  }

  ghost predicate ReaderOk(s: System, r: Reader)
    requires s.history != []
  {
    var now := |s.history| - 1;
    match r
    case AtStart => true
    case Checking(serial, base) =>
      base <= now && (Dirty(serial) || serial == Serial(|s.history[base]|, base))
    case Copying(serial, base, local) =>
      && base <= now
      && serial == Serial(|s.history[base]|, base)
      && |local| <= |s.history[base]| + 1
      && (base == now && s.writer.Idle? ==> local == Terminated(s.history[base])[..|local|])
    case Accepted(serial, base, local, updates) =>
      && base + updates <= now
      && (updates < PERIOD ==> Untorn(s.history[base], serial, local))
  }

  /** What a reader must end up with: the length and the bytes of one single update. */
  predicate Untorn(text: Text, serial: nat, local: seq<Byte>) {
    SerialLength(serial) == |text| && local == Terminated(text)
  }

  ghost predicate Inv(s: System) {
    && |s.info.value| == VALUE_MAX && s.history != []
    && WriterOk(s)
    && forall i | 0 <= i < |s.readers| :: ReaderOk(s, s.readers[i])
  }

  lemma WriterNextOk(s: System, text: Text)
    requires |s.info.value| == VALUE_MAX && s.history != [] && WriterOk(s)
    ensures WriterOk(WriterNext(s, text))
  {
    var now := |s.history| - 1;
    SerialFacts(|s.history[now]|, now);
    hide Serial, SetDirty, Bump;
    var s' := WriterNext(s, text);
    if s.writer.Writing? {
      var t, done := s.writer.text, s.writer.done;
      if done <= |t| {
        assert s'.info.value[..done + 1] == s.info.value[..done] + [Terminated(t)[done]] == Terminated(t)[..done + 1];
      } else {
        assert s'.history[|s'.history| - 1] == t && Terminated(t)[..done] == Terminated(t);
      }
    }
  }

  /** Steps of the writer never invalidate what a reader holds. */
  lemma WriterNextKeepsReader(s: System, text: Text, r: Reader)
    requires |s.info.value| == VALUE_MAX && s.history != [] && ReaderOk(s, r)
    ensures ReaderOk(WriterNext(s, text), r)
  {
    hide Serial, SetDirty, Bump, Dirty, SerialLength;
  }

  lemma ReaderNextOk(s: System, r: Reader, keeps: bool)
    requires |s.info.value| == VALUE_MAX && s.history != [] && WriterOk(s) && ReaderOk(s, r)
    ensures ReaderOk(s, ReaderNext(s, r, keeps))
  {
    var now := |s.history| - 1;
    SerialFacts(|s.history[now]|, now);
    if r.Copying? {
      var text := s.history[r.base];
      SerialFacts(|text|, r.base);
      if |r.local| <= |text| {
        var local := r.local + [s.info.value[|r.local|]];
        if r.base == now && s.writer.Idle? {
          assert s.info.value[|r.local|] == Terminated(text)[|r.local|];
          assert local == Terminated(text)[..|local|];
        }
      } else if s.info.serial == r.serial && now - r.base < PERIOD {
        CopyComplete(s, r);
      }
    }
    hide Serial, SetDirty, Bump;
  }

  /** A reader that has copied everything and finds its serial unchanged has the value it started to read. */
  lemma CopyComplete(s: System, r: Reader)
    requires |s.info.value| == VALUE_MAX && s.history != [] && WriterOk(s) && ReaderOk(s, r)
    requires r.Copying? && |r.local| == |s.history[r.base]| + 1
    requires s.info.serial == r.serial && |s.history| - 1 - r.base < PERIOD
    ensures Untorn(s.history[r.base], r.serial, r.local)
  {
    var now := |s.history| - 1;
    SerialFacts(|s.history[now]|, now);
    SerialFacts(|s.history[r.base]|, r.base);
    assert s.writer.Idle?;
    SerialInjective(|s.history[r.base]|, r.base, |s.history[now]|, now);
  }

  lemma NextKeepsInv(s: System, e: Event)
    requires Inv(s)
    ensures Inv(Next(s, e))
  {
    var s' := Next(s, e);
    hide WriterOk, ReaderOk;
    match e
    case WriterStep(text) =>
      WriterNextOk(s, text);
      forall i | 0 <= i < |s.readers|
        ensures ReaderOk(s', s.readers[i])
      {
        WriterNextKeepsReader(s, text, s.readers[i]);
      }
    case ReaderStep(i, keeps) =>
      if i < |s.readers| {
        ReaderNextOk(s, s.readers[i], keeps);
        SameShared(s, s');
      }
  }

  /** What is said of the writer and of one reader does not depend on the other readers. */
  lemma SameShared(s: System, s': System)
    requires |s.info.value| == VALUE_MAX && s.history != []
    requires s'.info == s.info && s'.writer == s.writer && s'.history == s.history
    ensures WriterOk(s') == WriterOk(s)
    ensures forall r :: ReaderOk(s', r) == ReaderOk(s, r)
  {
  }

  lemma {:induction false} ExecKeepsInv(s: System, es: seq<Event>)
    requires Inv(s)
    ensures Inv(Exec(s, es))
    decreases |es|
  {
    if es != [] {
      NextKeepsInv(s, es[0]);
      ExecKeepsInv(Next(s, es[0]), es[1..]);
    }
  }

  /** A freshly allocated property, read by `readers` readers that have not started. */
  function Fresh(text: Text, rest: seq<Byte>, readers: nat): System
    requires |text| + 1 + |rest| == VALUE_MAX
  {
    System(Info(|text| * LENGTH_UNIT, Terminated(text) + rest), Idle, [text], seq(readers, i => AtStart))
  }

  /**
   Under every schedule: a reader that accepts, while fewer than PERIOD updates completed during
   its read, returns the length and the bytes of one single update, namely of the one that was
   the latest when the reader read the serial.
   */
  lemma AcceptedReadsAreUntorn(text: Text, rest: seq<Byte>, readers: nat, es: seq<Event>, i: nat)
    requires |text| + 1 + |rest| == VALUE_MAX && i < readers
    ensures var s := Exec(Fresh(text, rest, readers), es);
            && |s.readers| == readers
            && (s.readers[i].Accepted? && s.readers[i].updates < PERIOD ==>
                  && s.readers[i].base < |s.history|
                  && Untorn(s.history[s.readers[i].base], s.readers[i].serial, s.readers[i].local))
  {
    var s := Fresh(text, rest, readers);
    assert s.info.value[..|text| + 1] == Terminated(text);
    assert Inv(s);
    ExecKeepsInv(s, es);
    ExecKeepsReaders(s, es);
    var s' := Exec(s, es);
    assert ReaderOk(s', s'.readers[i]);
  }

  lemma {:induction false} ExecKeepsReaders(s: System, es: seq<Event>)
    requires |s.info.value| == VALUE_MAX && s.history != []
    ensures |Exec(s, es).readers| == |s.readers|
    decreases |es|
  {
    if es != [] {
      ExecKeepsReaders(Next(s, es[0]), es[1..]);
    }
  }

  // ---------------------------------------------------------------- the writer alone, and why the bound is needed

  /** What update_prop_info does when nobody interferes. */
  function Updated(info: Info, text: Text): Info
    requires |info.value| == VALUE_MAX
  {
    Info(Bump(SetDirty(info.serial), |text|), Terminated(text) + info.value[|text| + 1..])
  }

  function Steps(text: Text, n: nat): seq<Event> {
    seq(n, i => WriterStep(text))
  }

  lemma {:induction false} ExecConcat(s: System, a: seq<Event>, b: seq<Event>)
    requires |s.info.value| == VALUE_MAX && s.history != []
    ensures Exec(s, a + b) == Exec(Exec(s, a), b)
    decreases |a|
  {
    if a == [] {
      assert a + b == b;
    } else {
      assert (a + b)[0] == a[0] && (a + b)[1..] == a[1..] + b;
      ExecConcat(Next(s, a[0]), a[1..], b);
    }
  }

  lemma {:induction false} WriterFinishes(s: System, text: Text, done: nat)
    requires |s.info.value| == VALUE_MAX && s.history != []
    requires s.writer == Writing(text, done) && done <= |text| + 1
    ensures Exec(s, Steps(text, |text| + 2 - done)) ==
            System(Info(Bump(s.info.serial, |text|),
                        s.info.value[..done] + Terminated(text)[done..] + s.info.value[|text| + 1..]),
                   Idle, s.history + [text], s.readers)
    decreases |text| + 1 - done
  {
    var n := |text| + 2 - done;
    var s1 := Next(s, WriterStep(text));
    assert Steps(text, n)[1..] == Steps(text, n - 1);
    if done <= |text| {
      WriterFinishes(s1, text, done + 1);
      assert s1.info.value[..done + 1] + Terminated(text)[done + 1..] == s.info.value[..done] + Terminated(text)[done..];
    } else {
      assert Exec(s1, []) == s1;
      assert s.info.value[..done] + Terminated(text)[done..] + s.info.value[|text| + 1..] == s.info.value;
    }
  }

  /** Run without interleaving, the writer's single steps are update_prop_info. */
  lemma UndisturbedUpdate(s: System, text: Text)
    requires |s.info.value| == VALUE_MAX && s.history != [] && s.writer == Idle
    ensures Exec(s, Steps(text, |text| + 3)) == System(Updated(s.info, text), Idle, s.history + [text], s.readers)
  {
    var s1 := Next(s, WriterStep(text));
    assert Steps(text, |text| + 3)[1..] == Steps(text, |text| + 2);
    WriterFinishes(s1, text, 0);
    assert s1.info.value[..0] + Terminated(text)[0..] == Terminated(text);
  }

  function Reads(i: nat, keeps: bool, n: nat): seq<Event> {
    seq(n, k => ReaderStep(i, keeps))
  }

  lemma FirstOfReads(s: System, i: nat, keeps: bool, n: nat)
    requires |s.info.value| == VALUE_MAX && s.history != [] && n > 0
    ensures Exec(s, Reads(i, keeps, n)) == Exec(Next(s, ReaderStep(i, keeps)), Reads(i, keeps, n - 1))
  {
    assert Reads(i, keeps, n)[1..] == Reads(i, keeps, n - 1);
  }

  /** While the writer rests, a reader copies to the end and accepts. */
  lemma {:induction false} CopyFinishes(s: System, i: nat, keeps: bool, text: Text, done: nat)
    requires |s.info.value| == VALUE_MAX && s.history != [] && i < |s.readers| && done <= |text| + 1
    requires SerialLength(s.info.serial) == |text| && s.info.value[..|text| + 1] == Terminated(text)
    requires s.readers[i] == Copying(s.info.serial, |s.history| - 1, Terminated(text)[..done])
    ensures Exec(s, Reads(i, keeps, |text| + 2 - done)) ==
            s.(readers := s.readers[i := Accepted(s.info.serial, |s.history| - 1, Terminated(text), 0)])
    decreases |text| + 1 - done
  {
    var n := |text| + 2 - done;
    FirstOfReads(s, i, keeps, n);
    var s1 := Next(s, ReaderStep(i, keeps));
    if done <= |text| {
      assert s.info.value[done] == Terminated(text)[done];
      assert Terminated(text)[..done] + [Terminated(text)[done]] == Terminated(text)[..done + 1];
      CopyFinishes(s1, i, keeps, text, done + 1);
      assert s1.readers[i := Accepted(s.info.serial, |s.history| - 1, Terminated(text), 0)]
          == s.readers[i := Accepted(s.info.serial, |s.history| - 1, Terminated(text), 0)];
    } else {
      assert Terminated(text)[..done] == Terminated(text);
      assert Exec(s1, Reads(i, keeps, 0)) == s1;
    }
  }

  /** A reader that nobody interferes with accepts the latest value. */
  lemma UndisturbedRead(s: System, i: nat, keeps: bool)
    requires Inv(s) && s.writer == Idle && i < |s.readers| && s.readers[i] == AtStart
    ensures var text := s.history[|s.history| - 1];
            var s' := Exec(s, Reads(i, keeps, |text| + 4));
            && s' == s.(readers := s'.readers) && |s'.readers| == |s.readers|
            && s'.readers[i] == Accepted(s.info.serial, |s.history| - 1, text + [0], 0)
            && SerialLength(s.info.serial) == |text|
  {
    var text := s.history[|s.history| - 1];
    SerialFacts(|text|, |s.history| - 1);
    hide Serial;
    FirstOfReads(s, i, keeps, |text| + 4);
    var s1 := Next(s, ReaderStep(i, keeps));
    FirstOfReads(s1, i, keeps, |text| + 3);
    var s2 := Next(s1, ReaderStep(i, keeps));
    assert Terminated(text)[..0] == [];
    hide Exec, Inv;
    CopyFinishes(s2, i, keeps, text, 0);
  }

  function Updates(text: Text, n: nat): seq<Event> {
    if n == 0 then [] else Updates(text, n - 1) + Steps(text, |text| + 3)
  }

  lemma OneUpdate(s: System, text: Text)
    requires Inv(s) && s.writer == Idle
    ensures var s' := Exec(s, Steps(text, |text| + 3));
            && Inv(s') && s'.writer == Idle && s'.readers == s.readers && s'.history == s.history + [text]
            && s'.info.serial == Serial(|text|, |s.history|)
            && s'.info.value[..|text| + 1] == Terminated(text)
  {
    UndisturbedUpdate(s, text);
    ExecKeepsInv(s, Steps(text, |text| + 3));
    hide Serial, Exec, ReaderOk;
    assert (s.history + [text])[|s.history|] == text;
  }

  /** `s'` is what `n` updates to `text` make of `s`. */
  ghost predicate UpdatedTimes(s: System, s': System, text: Text, n: nat)
    requires s.history != []
  {
    && Inv(s') && s'.writer == Idle && s'.readers == s.readers
    && s'.history == s.history + seq(n, i => text)
    && (n > 0 ==> s'.info.serial == Serial(|text|, |s.history| - 1 + n)
                  && s'.info.value[..|text| + 1] == Terminated(text))
  }

  lemma OneMoreUpdate(s: System, s1: System, text: Text, n: nat)
    requires s.history != [] && UpdatedTimes(s, s1, text, n)
    ensures UpdatedTimes(s, Exec(s1, Steps(text, |text| + 3)), text, n + 1)
  {
    OneUpdate(s1, text);
    hide Exec, Serial, Inv;
    assert seq(n + 1, i => text) == seq(n, i => text) + [text];
  }

  lemma {:induction false} ManyUpdates(s: System, text: Text, n: nat)
    requires Inv(s) && s.writer == Idle
    ensures UpdatedTimes(s, Exec(s, Updates(text, n)), text, n)
  {
    if n > 0 {
      ManyUpdates(s, text, n - 1);
      OneMoreUpdate(s, Exec(s, Updates(text, n - 1)), text, n - 1);
      ExecConcat(s, Updates(text, n - 1), Steps(text, |text| + 3));
      hide UpdatedTimes;
    }
  }

  /** The bound is tight: PERIOD updates during one read let a reader accept bytes that were never stored together. */
  lemma PeriodManyUpdatesCanTear() returns (es: seq<Event>)
    ensures var s := Exec(Fresh([1, 1], Zeros(VALUE_MAX - 3), 1), es);
            && |s.readers| == 1 && s.readers[0].Accepted? && s.readers[0].updates == PERIOD
            && forall k | 0 <= k < |s.history| :: s.readers[0].local != Terminated(s.history[k])
  {
    var b: Text, serial := [2, 2], 2 * LENGTH_UNIT;
    var s0 := Fresh([1, 1], Zeros(VALUE_MAX - 3), 1);
    var r := ReaderStep(0, false);
    var s3 := FirstByte(s0);
    ManyUpdates(s3, b, PERIOD);
    var s4 := Exec(s3, Updates(b, PERIOD));
    assert |s4.info.value| == VALUE_MAX && s4.history != [];
    assert s4.info.serial == serial;
    hide Inv, Updates, Fresh, Serial, Exec;
    assert s4.info.value[1] == s4.info.value[..3][1] == 2 && s4.info.value[2] == s4.info.value[..3][2] == 0;
    LastBytes(s4, serial);
    hide Next;
    es := [r, r, r] + (Updates(b, PERIOD) + [r, r, r]);
    ExecConcat(s0, [r, r, r], Updates(b, PERIOD) + [r, r, r]);
    ExecConcat(s3, Updates(b, PERIOD), [r, r, r]);
    NeverStored(s4.history);
  }

  lemma NeverStored(history: seq<Text>)
    requires forall k | 0 <= k < |history| :: history[k] == [1, 1] || history[k] == [2, 2]
    ensures forall k | 0 <= k < |history| :: [1, 2, 0] != Terminated(history[k])
  {
    forall k | 0 <= k < |history|
      ensures [1, 2, 0] != Terminated(history[k])
    {
      assert Terminated(history[k])[0] == Terminated(history[k])[1];
    }
  }

  /** The reader reads the serial, finds it clean and copies one byte. */
  lemma FirstByte(s0: System) returns (s3: System)
    requires s0 == Fresh([1, 1], Zeros(VALUE_MAX - 3), 1)
    ensures var r := ReaderStep(0, false);
            && s3 == Exec(s0, [r, r, r]) && Inv(s3)
            && s3 == s0.(readers := [Copying(2 * LENGTH_UNIT, 0, [1])])
  {
    var r := ReaderStep(0, false);
    assert s0.info.value[..3] == Terminated([1, 1]);
    assert Inv(s0);
    ExecKeepsInv(s0, [r, r, r]);
    ExecThree(s0, r);
    var s1, s2 := Next(s0, r), Next(Next(s0, r), r);
    s3 := Next(s2, r);
    assert s1.readers == [Checking(2 * LENGTH_UNIT, 0)];
    assert s2.readers == [Copying(2 * LENGTH_UNIT, 0, [])];
    assert [] + [s2.info.value[0]] == [1];
    assert s3.readers == [Copying(2 * LENGTH_UNIT, 0, [1])];
  }

  /** The reader copies two more bytes and compares the serial. */
  lemma LastBytes(s: System, serial: nat)
    requires |s.info.value| == VALUE_MAX && |s.history| == PERIOD + 1
    requires serial == 2 * LENGTH_UNIT == s.info.serial && s.info.value[1] == 2 && s.info.value[2] == 0
    requires s.readers == [Copying(serial, 0, [1])]
    ensures var r := ReaderStep(0, false);
            var s' := Exec(s, [r, r, r]);
            s'.history == s.history && s'.readers == [Accepted(serial, 0, [1, 2, 0], PERIOD)]
  {
    var r := ReaderStep(0, false);
    ExecThree(s, r);
    hide Exec;
    var s1, s2 := Next(s, r), Next(Next(s, r), r);
    assert [1] + [s.info.value[1]] == [1, 2] && [1, 2] + [s.info.value[2]] == [1, 2, 0];
    assert s1.readers == [Copying(serial, 0, [1, 2])];
    assert s2.readers == [Copying(serial, 0, [1, 2, 0])];
    assert Next(s2, r).readers == [Accepted(serial, 0, [1, 2, 0], PERIOD)];
  }

  lemma ExecThree(s: System, e: Event)
    requires |s.info.value| == VALUE_MAX && s.history != []
    ensures Exec(s, [e, e, e]) == Next(Next(Next(s, e), e), e)
  {
    assert [e, e, e][1..] == [e, e] && [e, e][1..] == [e] && [e][1..] == [];
    assert Exec(Next(s, e), [e, e]) == Exec(Next(Next(s, e), e), [e]);
  }
}