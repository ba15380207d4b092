/** tarWrite.c: what becomes of the blocks that are written through the tar buffer. */
module TarStream {
  import opened Machine

  /**
   Bytes that wait in the buffer, the count of blocks after flush_libtar_buffer (-1 before it), the size at which
   the buffer is written out, the bytes in the file and the reports in the progress pipe
   */
  datatype Stream = Stream(pending: seq<Byte>, eot: int, size: nat, file: seq<Byte>, progress: seq<nat>)

  /** A call of write_libtar_buffer, with what write(2) returns if it is called, or one of flush_libtar_buffer */
  datatype Step = Block(bytes: seq<Byte>, accepted: int) | Flush

  predicate Below(s: Stream) {
    |s.pending| < s.size && -1 <= s.eot <= 2
  }

  function Eot(s: Stream): int {
    if 0 <= s.eot < 2 then s.eot + 1 else s.eot
  }

  predicate Due(s: Stream, bytes: seq<Byte>) {
    |s.pending| + |bytes| >= s.size || Eot(s) >= 2
  }

  /** The new stream and the returned number */
  function Write(s: Stream, bytes: seq<Byte>, accepted: int): (Stream, int) {
    var all := s.pending + bytes;
    var t := s.(pending := [], eot := Eot(s));
    if !Due(s, bytes) then (t.(pending := all), |bytes|)
    else if all == [] then (t, 0)
    else if accepted != |all| then (t.(file := s.file + Taken(all, accepted)), -1)
    else (t.(file := s.file + all, progress := s.progress + [|all|]), |bytes|)
  }

  /** What a write that fails has put into the file all the same */
  function Taken(all: seq<Byte>, accepted: int): seq<Byte> {
    if 0 <= accepted < |all| then all[..accepted] else []
  }

  function Do(s: Stream, step: Step): Stream {
    if step.Flush? then s.(eot := 0) else Write(s, step.bytes, step.accepted).0
  }

  predicate Fails(s: Stream, step: Step) {
    step.Block? && Write(s, step.bytes, step.accepted).1 == -1
  }

  function Run(s: Stream, steps: seq<Step>): Stream {
    if steps == [] then s else Do(Run(s, steps[..|steps| - 1]), steps[|steps| - 1])
  }

  predicate NoneFails(s: Stream, steps: seq<Step>) {
    steps == [] || (NoneFails(s, steps[..|steps| - 1]) && !Fails(Run(s, steps[..|steps| - 1]), steps[|steps| - 1]))
  }

  /** All the bytes handed over */
  function Handed(steps: seq<Step>): seq<Byte> {
    if steps == [] then []
    else
      var last := steps[|steps| - 1];
      Handed(steps[..|steps| - 1]) + (if last.Block? then last.bytes else [])
  }

  function Sum(ns: seq<nat>): nat {
    if ns == [] then 0 else Sum(ns[..|ns| - 1]) + ns[|ns| - 1]
  }

  /**
   A call returns the number of bytes it was given, unless it is -1: that is when the buffer is full or the archive
   ends, there is something to write, and not all of it is accepted.
   */
  lemma WriteReturns(s: Stream, bytes: seq<Byte>, accepted: int)
    requires Below(s)
    ensures var n := |s.pending| + |bytes|;
            var due := n >= s.size || s.eot >= 1;
            Write(s, bytes, accepted).1 == if due && n > 0 && accepted != n then -1 else |bytes|
  {
    assert |s.pending + bytes| == |s.pending| + |bytes|;
  }

  /** Before the buffer is full nothing is written or reported; then all of it is, in one piece. */
  lemma WritesWhenDue(s: Stream, bytes: seq<Byte>, accepted: int)
    requires Below(s)
    ensures var n := |s.pending| + |bytes|;
            var t := Write(s, bytes, accepted).0;
            if n < s.size && s.eot <= 0 then
              t.pending == s.pending + bytes && t.file == s.file && t.progress == s.progress
            else
              && t.pending == []
              && (accepted == n > 0 ==> t.file == s.file + s.pending + bytes && t.progress == s.progress + [n])
              && (0 <= accepted < n ==> t.file == s.file + (s.pending + bytes)[..accepted] && t.progress == s.progress)
              && (accepted < 0 || accepted > n ==> t.file == s.file && t.progress == s.progress)
  {
    assert s.file + (s.pending + bytes) == s.file + s.pending + bytes;
  }

  /** A call hands on or keeps all bytes exactly when it does not return an error. */
  lemma StepKeepsBytesExactlyWhen(s: Stream, step: Step)
    requires Below(s)
    ensures Below(Do(s, step))
    ensures Do(s, step).file + Do(s, step).pending == s.file + s.pending + (if step.Block? then step.bytes else [])
       <==> !Fails(s, step)
  {
    if step.Block? {
      var t := Do(s, step);
      var all := s.pending + step.bytes;
      assert s.file + s.pending + step.bytes == s.file + all;
      if Fails(s, step) {
        assert |t.file + t.pending| == |s.file| + |Taken(all, step.accepted)| < |s.file + all|;
      } else if all == [] {
        assert t.file + t.pending == s.file;
      } else if !Due(s, step.bytes) {
        assert t.file + t.pending == s.file + all;
      } else {
        assert t.file + t.pending == s.file + all;
      }
    }
  }

  /** While writes succeed, the file and the buffer together hold all bytes in their order, and the reports add up to the file. */
  lemma {:induction false} StreamIsKept(s: Stream, steps: seq<Step>)
    requires Below(s) && NoneFails(s, steps)
    ensures var t := Run(s, steps);
            && Below(t) && t.file + t.pending == s.file + s.pending + Handed(steps)
            && Sum(t.progress) - Sum(s.progress) == |t.file| - |s.file|
    decreases |steps|
  {
    if steps != [] {
      var n := |steps| - 1;
      var before, step := Run(s, steps[..n]), steps[n];
      StreamIsKept(s, steps[..n]);
      StepKeepsBytesExactlyWhen(before, step);
      var bytes := if step.Block? then step.bytes else [];
      assert s.file + s.pending + Handed(steps[..n]) + bytes == s.file + s.pending + Handed(steps);
      ProgressStep(before, step);
    }
  }

  lemma ProgressStep(s: Stream, step: Step)
    requires !Fails(s, step)
    ensures Sum(Do(s, step).progress) - Sum(s.progress) == |Do(s, step).file| - |s.file|
  {
    if step.Block? {
      var n := |s.pending + step.bytes|;
      assert (s.progress + [n])[..|s.progress|] == s.progress;
    }
  }

  /** The buffer never fills up, whether writes succeed or not. */
  lemma {:induction false} BufferStaysBelow(s: Stream, steps: seq<Step>)
    requires Below(s)
    ensures Below(Run(s, steps)) && Run(s, steps).size == s.size
    decreases |steps|
  {
    if steps != [] {
      BufferStaysBelow(s, steps[..|steps| - 1]);
      StepKeepsBytesExactlyWhen(Run(s, steps[..|steps| - 1]), steps[|steps| - 1]);
    }
  }

  /** From the second block after flush_libtar_buffer on, nothing stays in the buffer. */
  lemma {:induction false} EndOfArchiveEmpties(s: Stream, blocks: seq<Step>)
    requires forall k | 0 <= k < |blocks| :: blocks[k].Block?
    ensures var t := Run(Do(s, Flush), blocks);
            t.eot == Min(|blocks|, 2) && (|blocks| >= 2 ==> t.pending == [])
    decreases |blocks|
  {
    if blocks != [] {
      EndOfArchiveEmpties(s, blocks[..|blocks| - 1]);
    }
  }

  /** A whole archive: blocks, then flush_libtar_buffer and two more blocks, arrive in the file if no write fails. */
  lemma ArchiveArrives(s: Stream, blocks: seq<Step>, e1: Step, e2: Step)
    requires Below(s) && e1.Block? && e2.Block?
    requires NoneFails(s, blocks + [Flush] + [e1, e2])
    ensures var t := Run(s, blocks + [Flush] + [e1, e2]);
            && t.pending == [] && t.file == s.file + s.pending + Handed(blocks) + e1.bytes + e2.bytes
            && Sum(t.progress) - Sum(s.progress) == |t.file| - |s.file|
  {
    StreamIsKept(s, blocks + [Flush] + [e1, e2]);
    assert blocks + [Flush] + [e1, e2] == blocks + [Flush] + [e1] + [e2];
    RunOneMore(s, blocks, Flush);
    RunOneMore(s, blocks + [Flush], e1);
    RunOneMore(s, blocks + [Flush] + [e1], e2);
    hide Run, Handed, NoneFails, Sum, Do;
    TwoBlocksEmpty(Run(s, blocks), e1, e2);
    var t := Run(s, blocks + [Flush] + [e1] + [e2]);
    assert t.file + t.pending == t.file;
    assert s.file + s.pending + (Handed(blocks) + [] + e1.bytes + e2.bytes)
        == s.file + s.pending + Handed(blocks) + e1.bytes + e2.bytes;
  }

  lemma TwoBlocksEmpty(s: Stream, e1: Step, e2: Step)
    requires e1.Block? && e2.Block?
    ensures Do(Do(Do(s, Flush), e1), e2).pending == []
  {
  }

  lemma RunOneMore(s: Stream, steps: seq<Step>, step: Step)
    ensures Run(s, steps + [step]) == Do(Run(s, steps), step)
    ensures Handed(steps + [step]) == Handed(steps) + (if step.Block? then step.bytes else [])
  {
    assert (steps + [step])[..|steps|] == steps;
  }
}
