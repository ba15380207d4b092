/** legacy_property_service.cpp: the property service as it runs on its memory. */
module PropertyService {
  import opened Machine
  import opened SequenceLock
  import opened PropertyArea
  import opened PropertyMemory

  class LegacyProperties {
    const mem: array<Byte>
    ghost var area: Area

    ghost predicate Valid()
      reads this, mem
    {
      mem.Length == SIZE && Rep(mem[..], area)
    }

    /** init_property_area */
    constructor ()
      ensures Valid() && fresh(mem) && area == Area([], 0)
    {
      mem := new Byte[SIZE](i => 0);
      area := Area([], 0);
      new;
      WriteWord(8, MAGIC);
      WriteWord(12, VERSION);
      PutReadBack(Put(Zeros(SIZE), 8, WordBytes(MAGIC)), 12, VERSION);
      PutReadBack(Zeros(SIZE), 8, MAGIC);
      PutWord(Put(Zeros(SIZE), 8, WordBytes(MAGIC)), 12, WordBytes(VERSION), 8);
      hide WordBytes;
      EmptyRep(mem[..]);
    }

    method ReadWord(o: nat) returns (w: nat)
      requires o + 4 <= mem.Length
      ensures w == Word(mem[..], o)
    {
      var b0: int, b1: int, b2: int, b3: int := mem[o], mem[o + 1], mem[o + 2], mem[o + 3];
      w := b0 + 0x100 * (b1 + 0x100 * (b2 + 0x100 * b3));
    }

    /** pa->count */
    method Count() returns (count: nat)
      requires Valid()
      ensures count == |area.entries| <= COUNT_MAX
    {
      count := ReadWord(0);
    }

    method WriteWord(o: nat, w: nat)
      requires o + 4 <= mem.Length && w < TWO32
      modifies mem
      ensures mem[..] == Put(old(mem[..]), o, WordBytes(w))
    {
      CopyIn(o, WordBytes(w));
    }

    /** memcpy into the area */
    method CopyIn(o: nat, b: seq<Byte>)
      requires o + |b| <= mem.Length
      modifies mem
      ensures mem[..] == Put(old(mem[..]), o, b)
    {
      forall k | 0 <= k < |b| {
        mem[o + k] := b[k];
      }
      assert mem[..] == old(mem[..])[..o] + b + old(mem[..])[o + |b|..];
    }

    /** memcmp(b, mem + o, |b|) == 0 */
    method Matches(o: nat, b: seq<Byte>) returns (equal: bool)
      requires o + |b| <= mem.Length
      ensures equal <==> mem[..][o..o + |b|] == b
    {
      for k := 0 to |b|
        invariant mem[..][o..o + k] == b[..k]
      {
        if mem[o + k] != b[k] {
          assert mem[..][o..o + |b|][k] != b[k];
          return false;
        }
        assert mem[..][o..o + k + 1] == mem[..][o..o + k] + [mem[o + k]];
      }
      return true;
    }

    /** The body of the loop in __legacy_property_find: is entry `k` the one called `name`? */
    method EntryIsCalled(k: nat, name: seq<Byte>) returns (yes: bool)
      requires Valid() && k < |area.entries|
      ensures yes <==> area.entries[k].name == name
    {
      EntryIsHeld(mem[..], area, k);
      hide Rep, Word, Holds, EntryOk;
      var entry := ReadWord(TocOffset(k));
      if entry / LENGTH_UNIT != |name| {
        return false;
      }
      yes := Matches(entry % LENGTH_UNIT, name);
    }

    /** __legacy_property_find: the number of the entry, or the count if there is none. */
    method Find(name: seq<Byte>) returns (found: nat)
      requires Valid() && NulFree(name)
      ensures found == IndexOf(area.entries, name)
    {
      var count := Count();
      hide Rep, Word, IndexOf, NulFree;
      found := 0;
      while found < count
        invariant found <= count
        invariant forall j | 0 <= j < found :: area.entries[j].name != name
      {
        var yes := EntryIsCalled(found, name);
        if yes {
          break;
        }
        found := found + 1;
      }
      IndexOfUnique(area.entries, name, found);
    }

    /** update_prop_info for entry `i` */
    method UpdateInfo(i: nat, value: Text)
      requires Valid() && i < |area.entries|
      modifies mem
      ensures mem[..] == UpdateStores(old(mem[..]), InfoOffset(i), area.entries[i].info, value)
    {
      ghost var info := area.entries[i].info;
      EntryIsHeld(mem[..], area, i);
      EntrySerialBound(area.entries[i]);
      SerialFits(info.serial, |value|);
      hide Rep, WordBytes, U32, SetDirty, Bump;
      var o := InfoOffset(i);
      var serial := ReadWord(o);
      assert serial == info.serial;
      WriteWord(o, U32(SetDirty(serial)));
      ghost var m1 := mem[..];
      CopyIn(o + 4, Terminated(value));
      ghost var m2 := mem[..];
      serial := ReadWord(o);
      PutReadBack(old(mem[..]), o, U32(SetDirty(info.serial)));
      PutWord(m1, o + 4, Terminated(value), o);
      hide Word, Put;
      assert serial == SetDirty(info.serial);
      WriteWord(o, U32(Bump(serial, |value|)));
    }

    /** legacy_property_set for a name found in entry `i` */
    method StoreOld(i: nat, value: Text)
      requires Valid() && i < |area.entries|
      modifies mem
      ensures mem[..] == SetOld(old(mem[..]), area, i, value)
    {
      assert |area.entries| <= COUNT_MAX;
      UpdateKeepsHeader(mem[..], i, area.entries[i].info, value, area);
      hide UpdateStores, WordBytes, U32, Word, HoldsAll, Blank, AreaOk, Put, Header;
      UpdateInfo(i, value);
      CountChange();
    }

    /** pa->serial++ */
    method CountChange()
      requires mem.Length == SIZE && Header(mem[..], area)
      modifies mem
      ensures mem[..] == Put(old(mem[..]), 4, WordBytes(U32(area.serial + 1)))
    {
      hide WordBytes, U32, Put, Word;
      var serial := ReadWord(4);
      WriteWord(4, U32(serial + 1));
    }

    /** The first three stores of legacy_property_set for a new name: serial, name and value. */
    method StoreRecord(n: nat, name: seq<Byte>, value: Text)
      requires mem.Length == SIZE && n < COUNT_MAX && |name| < NAME_MAX
      modifies mem
      ensures mem[..] == NewRecord(old(mem[..]), n, name, value)
    {
      hide Put, WordBytes, U32;
      WriteWord(InfoOffset(n), U32(|value| * LENGTH_UNIT));
      CopyIn(Offset(n), name + [0]);
      CopyIn(InfoOffset(n) + 4, Terminated(value));
    }

    /** legacy_property_set for a new name, while there is room */
    method StoreNew(name: seq<Byte>, value: Text)
      requires Valid() && |name| < NAME_MAX && |area.entries| < COUNT_MAX
      modifies mem
      ensures mem[..] == SetNew(old(mem[..]), area, name, value)
    {
      hide WordBytes, U32, TocWord, HoldsAll, Blank, AreaOk, NewRecord, Put, Word;
      var n := ReadWord(0);
      assert n == |area.entries|;
      NewKeepsHeader(mem[..], area, name, value);
      StoreRecord(n, name, value);
      WriteWord(TocOffset(n), U32(TocWord(|name|, Offset(n))));
      Publish();
    }

    /** pa->count++ and pa->serial++ */
    method Publish()
      requires mem.Length == SIZE && |area.entries| < COUNT_MAX && Header(mem[..], area)
      modifies mem
      ensures mem[..] == Put(Put(old(mem[..]), 0, WordBytes(|area.entries| + 1)), 4, WordBytes(U32(area.serial + 1)))
    {
      hide WordBytes, U32, Put, Word;
      ghost var m := mem[..];
      var count := ReadWord(0);
      WriteWord(0, count + 1);
      PutWord(m, 0, WordBytes(count + 1), 4);
      var serial := ReadWord(4);
      WriteWord(4, U32(serial + 1));
    }

    /** The branch of legacy_property_set for a name that is already there. */
    method SetKnown(i: nat, name: seq<Byte>, value: Text) returns (result: int)
      requires Valid() && NulFree(name) && Allowed(name, value) && i == IndexOf(area.entries, name) < |area.entries|
      modifies this, mem
      ensures Valid() && (area, result) == Set(old(area), name, value)
    {
      SetKeepsArea(area, name, value);
      ghost var after := Set(area, name, value).0;
      if ReadOnly(name) {
        return -1;
      }
      hide Rep, AreaOk, SetOld, NulFree, ReadOnly;
      SetOldRep(mem[..], area, i, value);
      StoreOld(i, value);
      area := after;
      return 0;
    }

    /** The branch of legacy_property_set for a new name. */
    method SetUnknown(name: seq<Byte>, value: Text) returns (result: int)
      requires Valid() && NulFree(name) && Allowed(name, value) && IndexOf(area.entries, name) == |area.entries|
      modifies this, mem
      ensures Valid() && (area, result) == Set(old(area), name, value)
    {
      SetKeepsArea(area, name, value);
      ghost var after := Set(area, name, value).0;
      var count := Count();
      if count == COUNT_MAX {
        return -1;
      }
      hide Rep, AreaOk, SetNew, NulFree, ReadOnly, NewEntry;
      SetNewRep(mem[..], area, name, value);
      StoreNew(name, value);
      area := after;
      return 0;
    }

    /** legacy_property_set */
    method SetProperty(name: seq<Byte>, value: seq<Byte>) returns (result: int)
      requires Valid() && NulFree(name) && NulFree(value)
      modifies this, mem
      ensures Valid() && (area, result) == Set(old(area), name, value)
    {
      if |name| >= NAME_MAX || |value| >= VALUE_MAX || |name| < 1 {
        return -1;
      }
      var i := Find(name);
      var count := Count();
      hide Rep, Set, AreaOk, Word, NulFree, IndexOf;
      if i < count {
        result := SetKnown(i, name, value);
      } else {
        result := SetUnknown(name, value);
      }
    }
  }

  lemma EntryIsHeld(m: seq<Byte>, a: Area, i: nat)
    requires Rep(m, a) && i < |a.entries|
    ensures |m| == SIZE && |a.entries| <= COUNT_MAX && EntryOk(a.entries[i]) && Holds(m, i, a.entries[i])
    ensures Word(m, TocOffset(i)) / LENGTH_UNIT == |a.entries[i].name|
    ensures Word(m, TocOffset(i)) % LENGTH_UNIT == Offset(i)
    ensures m[Offset(i)..Offset(i) + |a.entries[i].name|] == a.entries[i].name
  {
    var e := a.entries[i];
    assert Holds(m, i, e);
    hide Word;
    assert m[Offset(i)..Offset(i) + |e.name|] == m[Offset(i)..Offset(i) + |e.name| + 1][..|e.name|];
  }

  lemma {:induction false} IndexOfUnique(entries: seq<Entry>, name: seq<Byte>, i: nat)
    requires i <= |entries| && (i < |entries| ==> entries[i].name == name)
    requires forall j | 0 <= j < i :: entries[j].name != name
    ensures i == IndexOf(entries, name)
  {
  }
}