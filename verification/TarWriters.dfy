/** tarWrite.c: the tar buffer of one process. */
module TarWriters {
  import opened Machine
  import opened TarStream

  class TarWriter {
    var flush: int
    var eotCount: int
    var writeBuffer: array<Byte>
    var bufferSize: nat
    var bufferLoc: nat
    var bufferStatus: int
    // what has reached the descriptor and the progress pipe
    var file: seq<Byte>
    var progress: seq<nat>

    ghost predicate Valid()
      reads this
    {
      flush == 0 && bufferLoc < bufferSize <= writeBuffer.Length && -1 <= eotCount <= 2
    }

    ghost function State(): Stream
      requires Valid()
      reads this, writeBuffer
    {
      Stream(writeBuffer[..bufferLoc], eotCount, bufferSize, file, progress)
    }

    /** init_libtar_buffer; `pointerSize` is sizeof(char *). */
    constructor (newSize: nat, oldSize: nat, pointerSize: nat)
      requires oldSize > 0 && pointerSize > 0
      ensures Valid() && State() == Stream([], -1, if newSize != 0 then newSize else oldSize, [], [])
      ensures writeBuffer.Length == pointerSize * bufferSize && bufferStatus == 1 && fresh(writeBuffer)
    {
      var size := oldSize;
      if newSize != 0 {
        size := newSize;
      }
      assert pointerSize * size >= size by { MulMonotone(1, pointerSize, size); }
      bufferSize := size;
      flush, eotCount, bufferLoc, bufferStatus := 0, -1, 0, 1;
      writeBuffer := new Byte[pointerSize * size];
      file, progress := [], [];
    }

    /** reinit_libtar_buffer: what was still in the buffer is dropped. */
    method Reinit()
      requires Valid()
      modifies this`flush, this`eotCount, this`bufferLoc, this`bufferStatus
      ensures Valid() && State() == old(State()).(pending := [], eot := -1) && bufferStatus == 1
    {
      flush, eotCount, bufferLoc, bufferStatus := 0, -1, 0, 1;
    }

    /** flush_libtar_buffer */
    method Flush()
      requires Valid()
      modifies this`eotCount, this`bufferStatus
      ensures Valid() && State() == Do(old(State()), Step.Flush)
      ensures bufferStatus == if old(bufferStatus) != 0 then 2 else 0
    {
      eotCount := 0;
      if bufferStatus != 0 {
        bufferStatus := 2;
      }
    }

    /** memcpy to the place behind the waiting bytes */
    method Append(bytes: seq<Byte>)
      requires bufferLoc + |bytes| <= writeBuffer.Length
      modifies this`bufferLoc, writeBuffer
      ensures bufferLoc == old(bufferLoc) + |bytes|
      ensures writeBuffer[..bufferLoc] == old(writeBuffer[..bufferLoc]) + bytes
    {
      forall k | 0 <= k < |bytes| {
        writeBuffer[bufferLoc + k] := bytes[k];
      }
      bufferLoc := bufferLoc + |bytes|;
    }

    /** write_libtar_buffer; `accepted` is what write(2) returns should it be called. */
    method Write(bytes: seq<Byte>, accepted: int) returns (ret: int)
      requires Valid() && |bytes| <= writeBuffer.Length - bufferSize
      modifies this`flush, this`eotCount, this`bufferLoc, this`file, this`progress, writeBuffer
      ensures Valid() && (State(), ret) == TarStream.Write(old(State()), bytes, accepted)
    {
      if flush == 0 {
        Append(bytes);
        if eotCount >= 0 && eotCount < 2 {
          eotCount := eotCount + 1;
        }
        if bufferLoc >= bufferSize || eotCount >= 2 {
          flush := 1;
        }
      }
      if flush == 1 {
        flush := 0;
        if bufferLoc == 0 {
          return 0;
        }
        if accepted != bufferLoc {
          file := file + Taken(writeBuffer[..bufferLoc], accepted);
          bufferLoc := 0;
          return -1;
        }
        file := file + writeBuffer[..bufferLoc];
        progress := progress + [bufferLoc];
        bufferLoc := 0;
        return |bytes|;
      }
      return |bytes|;
    }
  }
}
