/** asn1_decoder.cpp: the cursor as an object that moves through a buffer. */
module Asn1Decoder {
  import opened Machine
  import opened Der

  class Asn1Context {
    const buffer: seq<Byte>
    var p: nat
    var length: nat
    var appType: nat

    predicate Valid()
      reads this
    {
      p + length <= |buffer|
    }

    /** The bytes that the cursor still has in front of it. */
    function Remaining(): seq<Byte>
      reads this
      requires Valid()
    {
      buffer[p..p + length]
    }

    constructor (buffer: seq<Byte>, p: nat, length: nat)
      requires p + length <= |buffer|
      ensures Valid() && this.buffer == buffer && this.p == p && this.length == length && appType == 0
    {
      this.buffer, this.p, this.length, appType := buffer, p, length, 0;
    }

    method PeekByte() returns (byte: int)
      requires Valid()
      ensures byte == if Remaining() == [] then -1 else Remaining()[0]
    {
      if length == 0 {
        return -1;
      }
      byte := buffer[p];
    }

    method GetByte() returns (byte: int)
      requires Valid()
      modifies this
      ensures Valid() && appType == old(appType)
      ensures if old(Remaining()) == [] then byte == -1 && Remaining() == []
              else byte == old(Remaining())[0] && Remaining() == old(Remaining())[1..]
      ensures p + length == old(p + length)
    {
      if length == 0 {
        return -1;
      }
      byte := buffer[p];
      p := p + 1;
      length := length - 1;
    }

    method SkipBytes(n: nat) returns (ok: bool)
      requires Valid()
      modifies this
      ensures Valid() && appType == old(appType)
      ensures ok == (n <= |old(Remaining())|)
      ensures Remaining() == if ok then old(Remaining())[n..] else old(Remaining())
      ensures p + length == old(p + length)
    {
      if length < n {
        return false;
      }
      p := p + n;
      length := length - n;
      return true;
    }

    /** decode_length: the sum never leaves the range of a 64-bit size. */
    method ReadLength() returns (ok: bool, value: nat)
      requires Valid()
      modifies this
      ensures Valid() && appType == old(appType) && p + length == old(p + length)
      ensures var d := DecodeLength(old(Remaining()));
              ok == d.Good? && Remaining() == d.rest && (ok ==> value == d.value)
    {
      ghost var s := Remaining();
      value := 0;
      var first := GetByte();
      if first == -1 {
        return false, 0;
      }
      if first < 0x80 {
        return true, first;
      }
      var count := first - 0x80;
      if count > MAX_OCTETS {
        return false, 0;
      }
      var i := 0;
      while i < count
        invariant Valid() && appType == old(appType) && p + length == old(p + length)
        invariant i <= count && i + 1 <= |s| && Remaining() == s[1 + i..]
        invariant value == BigEndian(s[1..1 + i]) < Power256(i)
      {
        var byte := GetByte();
        if byte == -1 {
          return false, 0;
        }
        assert s[1..2 + i][..i] == s[1..1 + i] && s[1..2 + i][i] == byte;
        Power256Grows(i + 1, MAX_OCTETS);
        assert 0x100 * value + byte < LENGTH_LIMIT * 0x100 <= TWO64 by { Power256Grows(i, MAX_OCTETS); assert Power256(MAX_OCTETS) == LENGTH_LIMIT; }
        value := 0x100 * value + byte;
        i := i + 1;
      }
      return true, value;
    }

    /** asn1_sequence_next */
    method SequenceNext() returns (ok: bool)
      requires Valid()
      modifies this
      ensures Valid() && appType == old(appType) && p + length == old(p + length)
      ensures (ok, Remaining()) == Next(old(Remaining()))
    {
      var byte := GetByte();
      if byte == -1 {
        return false;
      }
      hide DecodeLength;
      var good, n := ReadLength();
      if !good {
        return false;
      }
      ok := SkipBytes(n);
    }

    /** The common part of the getters: the new context lies inside what the cursor had in front of it. */
    method EnterValue(accepted: bool) returns (ctx: Asn1Context?)
      requires Valid()
      modifies this
      ensures Valid() && appType == old(appType) && p + length == old(p + length)
      ensures var c := Enter(old(Remaining()), accepted);
              && Remaining() == c.rest
              && (ctx == null <==> c.NoChild?)
              && (ctx != null ==> fresh(ctx) && ctx.Valid() && ctx.buffer == buffer && ctx.Remaining() == c.bytes
                                  && ctx.appType == 0 && old(p) <= ctx.p == p && ctx.p + ctx.length <= old(p + length))
    {
      var byte := GetByte();
      if byte == -1 || !accepted {
        return null;
      }
      hide DecodeLength;
      var good, n := ReadLength();
      if !good || n > length {
        return null;
      }
      ctx := new Asn1Context(buffer, p, n);
      assert buffer[p..p + n] == Remaining()[..n];
    }

    method GetSequence() returns (ctx: Asn1Context?)
      requires Valid()
      modifies this
      ensures Valid()
      ensures var c := SequenceGet(old(Remaining()));
              && Remaining() == c.rest && (ctx == null <==> c.NoChild?)
              && (ctx != null ==> fresh(ctx) && ctx.Valid() && ctx.buffer == buffer && ctx.Remaining() == c.bytes
                                  && old(p) <= ctx.p && ctx.p + ctx.length <= old(p + length))
    {
      hide Enter;
      var byte := PeekByte();
      ctx := EnterValue(byte != -1 && byte % 0x80 == TAG_SEQUENCE);
    }

    method GetSet() returns (ctx: Asn1Context?)
      requires Valid()
      modifies this
      ensures Valid()
      ensures var c := SetGet(old(Remaining()));
              && Remaining() == c.rest && (ctx == null <==> c.NoChild?)
              && (ctx != null ==> fresh(ctx) && ctx.Valid() && ctx.buffer == buffer && ctx.Remaining() == c.bytes
                                  && old(p) <= ctx.p && ctx.p + ctx.length <= old(p + length))
    {
      hide Enter;
      var byte := PeekByte();
      ctx := EnterValue(byte != -1 && byte % 0x80 == TAG_SET);
    }

    /** asn1_constructed_get also records the low five bits of the tag. */
    method GetConstructed() returns (ctx: Asn1Context?)
      requires Valid()
      modifies this
      ensures Valid()
      ensures var c := ConstructedGet(old(Remaining()));
              && Remaining() == c.rest && (ctx == null <==> c.NoChild?)
              && (ctx != null ==> fresh(ctx) && ctx.Valid() && ctx.buffer == buffer && ctx.Remaining() == c.bytes
                                  && ctx.appType == old(Remaining())[0] % 0x20
                                  && old(p) <= ctx.p && ctx.p + ctx.length <= old(p + length))
    {
      assert Enter([], false).NoChild?;
      hide Enter;
      var byte := PeekByte();
      ctx := EnterValue(byte != -1 && byte / 0x20 == 5);
      if ctx != null {
        ctx.appType := byte % 0x20;
      }
    }

    /** asn1_oid_get and asn1_octet_string_get: position and length of the contents in the buffer. */
    method GetPrimitive(tag: Byte) returns (found: bool, at: nat, n: nat)
      requires Valid()
      modifies this
      ensures Valid()
      ensures var c := PrimitiveGet(old(Remaining()), tag);
              && Remaining() == c.rest && found == c.Child?
              && (found ==> old(p) <= at && at + n <= old(p + length) && buffer[at..at + n] == c.bytes)
    {
      at, n := 0, 0;
      var byte := PeekByte();
      hide Enter;
      var ctx := EnterValue(byte != -1 && byte == tag);
      if ctx == null || ctx.length == 0 {
        return false, 0, 0;
      }
      return true, ctx.p, ctx.length;
    }

    /** asn1_constructed_skip_all */
    method SkipAllConstructed() returns (more: bool)
      requires Valid()
      modifies this
      ensures Valid() && p + length == old(p + length)
      ensures (more, Remaining()) == SkipAll(old(Remaining()))
    {
      hide Next, DecodeLength;
      var byte := PeekByte();
      while byte != -1 && byte / 0x20 == 5
        invariant Valid() && p + length == old(p + length)
        invariant byte == if Remaining() == [] then -1 else Remaining()[0]
        invariant SkipAll(old(Remaining())) == SkipAll(Remaining())
        decreases |Remaining()|
      {
        NextShrinks(Remaining());
        var ok := SequenceNext();
        if !ok {
          return false;
        }
        byte := PeekByte();
      }
      return byte != -1;
    }
  }
}
