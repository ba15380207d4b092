/**
 legacy_property_service.cpp on its bytes: header, table of contents and property records share
 one flat area, and find, set and update_prop_info read and write it in place.
 */
module PropertyMemory {
  import opened Machine
  import opened SequenceLock
  import opened PropertyArea

  /** The 32-bit little-endian word at offset `o`. */
  function Word(m: seq<Byte>, o: nat): (w: nat)
    requires o + 4 <= |m|
    ensures w < TWO32
  {
    var b0: int, b1: int, b2: int, b3: int := m[o], m[o + 1], m[o + 2], m[o + 3];
    b0 + 0x100 * (b1 + 0x100 * (b2 + 0x100 * b3))
  }

  function WordBytes(w: nat): (b: seq<Byte>)
    requires w < TWO32
    ensures |b| == 4 && Word(b, 0) == w
  {
    var w1 := w / 0x100;
    var w2 := w1 / 0x100;
    [w % 0x100, w1 % 0x100, w2 % 0x100, w2 / 0x100]
  }

  function Offset(i: nat): nat {
    INFO_START + INFO_SIZE * i
  }

  function TocOffset(i: nat): nat {
    TOC_START + 4 * i
  }

  /** (namelen << 24) | offset */
  function TocWord(nameLength: nat, offset: nat): nat {
    nameLength * LENGTH_UNIT + offset
  }

  /** The table word and the name of entry number `i` as they lie in memory. */
  ghost predicate HoldsName(m: seq<Byte>, i: nat, name: seq<Byte>)
    requires |m| == SIZE && i < COUNT_MAX
  {
    && |name| < NAME_MAX
    && Word(m, TocOffset(i)) == TocWord(|name|, Offset(i))
    && m[Offset(i)..Offset(i) + |name| + 1] == name + [0]
  }

  /** The serial and the value field at offset `o`. */
  ghost predicate HoldsInfo(m: seq<Byte>, o: nat, info: Info)
    requires o + 4 + VALUE_MAX <= |m|
  {
    Word(m, o) == info.serial && m[o + 4..o + 4 + VALUE_MAX] == info.value
  }

  function InfoOffset(i: nat): nat {
    Offset(i) + NAME_MAX
  }

  ghost predicate Holds(m: seq<Byte>, i: nat, e: Entry)
    requires |m| == SIZE && i < COUNT_MAX
  {
    HoldsName(m, i, e.name) && HoldsInfo(m, InfoOffset(i), e.info)
  }

  ghost predicate Header(m: seq<Byte>, a: Area)
    requires |m| == SIZE
  {
    && Word(m, 0) == |a.entries| && Word(m, 4) == a.serial
    && Word(m, 8) == MAGIC && Word(m, 12) == VERSION
  }

  ghost predicate HoldsAll(m: seq<Byte>, entries: seq<Entry>)
    requires |m| == SIZE && |entries| <= COUNT_MAX
  {
    forall i | 0 <= i < |entries| :: Holds(m, i, entries[i])
  }

  /** Records that are not allocated are still zero. */
  ghost predicate Blank(m: seq<Byte>, count: nat) {
    forall k | Offset(count) <= k < |m| :: m[k] == 0
  }

  /** The memory represents the table `a`. */
  ghost predicate Rep(m: seq<Byte>, a: Area) {
    |m| == SIZE && AreaOk(a) && Header(m, a) && HoldsAll(m, a.entries) && Blank(m, |a.entries|)
  }

  /** Header, table words and records are pairwise disjoint and fit. */
  lemma LayoutDisjoint(i: nat, j: nat)
    requires i < j < COUNT_MAX
    ensures TOC_START <= TocOffset(i) && TocOffset(i) + 4 <= TocOffset(j) && TocOffset(j) + 4 <= INFO_START
    ensures INFO_START <= Offset(i) && Offset(i) + INFO_SIZE <= Offset(j) && Offset(j) + INFO_SIZE <= SIZE
    ensures NAME_MAX + 4 + VALUE_MAX == INFO_SIZE
  {
  }

  predicate Apart(o: nat, n: nat, p: nat, k: nat) {
    o + n <= p || p + k <= o
  }

  lemma PutWord(m: seq<Byte>, o: nat, b: seq<Byte>, p: nat)
    requires o + |b| <= |m| && p + 4 <= |m| && Apart(o, |b|, p, 4)
    ensures Word(Put(m, o, b), p) == Word(m, p)
  {
  }

  lemma PutSlice(m: seq<Byte>, o: nat, b: seq<Byte>, p: nat, k: nat)
    requires o + |b| <= |m| && p + k <= |m| && Apart(o, |b|, p, k)
    ensures Put(m, o, b)[p..p + k] == m[p..p + k]
  {
    var m' := Put(m, o, b);
    forall i | p <= i < p + k
      ensures m'[i] == m[i]
    {
    }
    assert m'[p..p + k] == m[p..p + k];
  }

  lemma PutFrame(m: seq<Byte>, o: nat, b: seq<Byte>)
    requires o + |b| <= |m|
    ensures Put(m, o, b)[o..o + |b|] == b
    ensures forall k | 0 <= k < |m| && !(o <= k < o + |b|) :: Put(m, o, b)[k] == m[k]
  {
  }

  lemma PutReadBack(m: seq<Byte>, o: nat, w: nat)
    requires o + 4 <= |m| && w < TWO32
    ensures Word(Put(m, o, WordBytes(w)), o) == w
  {
    var b := WordBytes(w);
    var m' := Put(m, o, b);
    assert forall k | 0 <= k < 4 :: m'[o + k] == b[k];
  }

  lemma PutKeepsName(m: seq<Byte>, o: nat, b: seq<Byte>, i: nat, name: seq<Byte>)
    requires |m| == SIZE && i < COUNT_MAX && HoldsName(m, i, name) && o + |b| <= SIZE
    requires Apart(o, |b|, TocOffset(i), 4) && Apart(o, |b|, Offset(i), NAME_MAX)
    ensures HoldsName(Put(m, o, b), i, name)
  {
    PutWord(m, o, b, TocOffset(i));
    PutSlice(m, o, b, Offset(i), |name| + 1);
    hide Put, Word;
  }

  lemma PutKeepsInfo(m: seq<Byte>, o: nat, b: seq<Byte>, p: nat, info: Info)
    requires p + 4 + VALUE_MAX <= |m| && HoldsInfo(m, p, info) && o + |b| <= |m|
    requires Apart(o, |b|, p, 4 + VALUE_MAX)
    ensures HoldsInfo(Put(m, o, b), p, info)
  {
    PutWord(m, o, b, p);
    PutSlice(m, o, b, p + 4, VALUE_MAX);
    hide Put, Word;
  }

  /** A store outside an entry's table word and record does not change the entry. */
  lemma PutKeepsHolds(m: seq<Byte>, o: nat, b: seq<Byte>, i: nat, e: Entry)
    requires |m| == SIZE && i < COUNT_MAX && Holds(m, i, e) && o + |b| <= SIZE
    requires Apart(o, |b|, TocOffset(i), 4) && Apart(o, |b|, Offset(i), INFO_SIZE)
    ensures Holds(Put(m, o, b), i, e)
  {
    PutKeepsName(m, o, b, i, e.name);
    PutKeepsInfo(m, o, b, InfoOffset(i), e.info);
    hide Put, HoldsName, HoldsInfo;
  }

  /** The area right after init_property_area. */
  lemma EmptyRep(m: seq<Byte>)
    requires |m| == SIZE && forall k | 16 <= k < SIZE :: m[k] == 0
    requires Word(m, 0) == 0 && Word(m, 4) == 0 && Word(m, 8) == MAGIC && Word(m, 12) == VERSION
    ensures Rep(m, Area([], 0))
  {
  }

  // ---------------------------------------------------------------- the stores of one call

  /** Memory after update_prop_info has stored its three pieces at offset `o`. */
  function UpdateStores(m: seq<Byte>, o: nat, info: Info, value: Text): (m': seq<Byte>)
    requires o + 4 + VALUE_MAX <= |m|
    ensures |m'| == |m|
  {
    var m1 := Put(m, o, WordBytes(U32(SetDirty(info.serial))));
    var m2 := Put(m1, o + 4, Terminated(value));
    Put(m2, o, WordBytes(U32(Bump(SetDirty(info.serial), |value|))))
  }

  lemma SerialFits(serial: nat, length: nat)
    requires serial < VALUE_MAX * LENGTH_UNIT && length < VALUE_MAX
    ensures U32(SetDirty(serial)) == SetDirty(serial)
    ensures U32(Bump(SetDirty(serial), length)) == Bump(SetDirty(serial), length)
  {
  }

  /** A serial word followed by a value that is overwritten from its start. */
  lemma InfoStores(m: seq<Byte>, o: nat, serial: nat, value: Text)
    requires o + 4 + VALUE_MAX <= |m| && serial < TWO32
    ensures var m' := Put(Put(m, o + 4, Terminated(value)), o, WordBytes(serial));
            HoldsInfo(m', o, Info(serial, Terminated(value) + m[o + 4..o + 4 + VALUE_MAX][|value| + 1..]))
  {
    var m1 := Put(m, o + 4, Terminated(value));
    PutReadBack(m1, o, serial);
    PutSlice(m1, o, WordBytes(serial), o + 4, VALUE_MAX);
    ValueStored(m, o + 4, value);
    hide Word, WordBytes, Put;
  }

  /** A value field that is overwritten from its start keeps its end. */
  lemma ValueStored(m: seq<Byte>, p: nat, value: Text)
    requires p + VALUE_MAX <= |m|
    ensures Put(m, p, Terminated(value))[p..p + VALUE_MAX] == Terminated(value) + m[p..p + VALUE_MAX][|value| + 1..]
  {
    var m', t := Put(m, p, Terminated(value)), Terminated(value);
    var stored, expected := m'[p..p + VALUE_MAX], t + m[p..p + VALUE_MAX][|value| + 1..];
    forall k | 0 <= k < VALUE_MAX
      ensures stored[k] == expected[k]
    {
      assert stored[k] == m'[p + k];
      if k < |t| {
        assert m'[p + k] == t[k];
      } else {
        assert m'[p + k] == m[p + k] == m[p..p + VALUE_MAX][k];
      }
    }
  }

  lemma UpdateHolds(m: seq<Byte>, o: nat, info: Info, value: Text)
    requires o + 4 + VALUE_MAX <= |m| && HoldsInfo(m, o, info) && info.serial < VALUE_MAX * LENGTH_UNIT
    ensures HoldsInfo(UpdateStores(m, o, info, value), o, Updated(info, value))
  {
    hide Put, WordBytes, Word, SetDirty, Bump, U32;
    SerialFits(info.serial, |value|);
    var dirty := SetDirty(info.serial);
    InfoStores(Put(m, o, WordBytes(dirty)), o, Bump(dirty, |value|), value);
    PutSlice(m, o, WordBytes(dirty), o + 4, VALUE_MAX);
  }

  lemma UpdateFrame(m: seq<Byte>, o: nat, info: Info, value: Text)
    requires o + 4 + VALUE_MAX <= |m|
    ensures var m' := UpdateStores(m, o, info, value);
            forall k | 0 <= k < |m| && !(o <= k < o + 4 + VALUE_MAX) :: m'[k] == m[k]
  {
    hide WordBytes, SetDirty, Bump, Put;
    var w1, w2 := WordBytes(U32(SetDirty(info.serial))), WordBytes(U32(Bump(SetDirty(info.serial), |value|)));
    var m1 := Put(m, o, w1);
    PutFrame(m, o, w1);
    PutFrame(m1, o + 4, Terminated(value));
    PutFrame(Put(m1, o + 4, Terminated(value)), o, w2);
  }

  lemma PutKeepsHeader(m: seq<Byte>, o: nat, b: seq<Byte>, a: Area)
    requires |m| == SIZE && 16 <= o && o + |b| <= SIZE && Header(m, a)
    ensures Header(Put(m, o, b), a)
  {
    hide Put, Word;
    PutWord(m, o, b, 0);
    PutWord(m, o, b, 4);
    PutWord(m, o, b, 8);
    PutWord(m, o, b, 12);
  }

  /** Stores into the header, or into the table words and records from number |entries| on, leave all entries alone. */
  lemma PutKeepsAll(m: seq<Byte>, o: nat, b: seq<Byte>, entries: seq<Entry>)
    requires |m| == SIZE && |entries| <= COUNT_MAX && HoldsAll(m, entries) && o + |b| <= SIZE
    requires || o + |b| <= TOC_START
             || (TocOffset(|entries|) <= o && o + |b| <= INFO_START)
             || Offset(|entries|) <= o
    ensures HoldsAll(Put(m, o, b), entries)
  {
    hide Put, Holds;
    forall i | 0 <= i < |entries|
      ensures Holds(Put(m, o, b), i, entries[i])
    {
      PutKeepsHolds(m, o, b, i, entries[i]);
    }
  }

  /** The stores of legacy_property_set for a name that is already in entry `i`. */
  function SetOld(m: seq<Byte>, a: Area, i: nat, value: Text): (m': seq<Byte>)
    requires |m| == SIZE && i < |a.entries| <= COUNT_MAX
    ensures |m'| == SIZE
  {
    Put(UpdateStores(m, InfoOffset(i), a.entries[i].info, value), 4, WordBytes(U32(a.serial + 1)))
  }

  lemma UpdateKeepsOthers(m: seq<Byte>, i: nat, info: Info, value: Text, j: nat, e: Entry)
    requires |m| == SIZE && i < COUNT_MAX && j < COUNT_MAX && i != j && Holds(m, j, e)
    ensures Holds(UpdateStores(m, InfoOffset(i), info, value), j, e)
  {
    hide Put, WordBytes, SetDirty, Bump, U32, Holds;
    var o := InfoOffset(i);
    var w1, w2 := WordBytes(U32(SetDirty(info.serial))), WordBytes(U32(Bump(SetDirty(info.serial), |value|)));
    var m1 := Put(m, o, w1);
    var m2 := Put(m1, o + 4, Terminated(value));
    PutKeepsHolds(m, o, w1, j, e);
    PutKeepsHolds(m1, o + 4, Terminated(value), j, e);
    PutKeepsHolds(m2, o, w2, j, e);
  }

  lemma UpdateKeepsName(m: seq<Byte>, i: nat, info: Info, value: Text, name: seq<Byte>)
    requires |m| == SIZE && i < COUNT_MAX && HoldsName(m, i, name)
    ensures HoldsName(UpdateStores(m, InfoOffset(i), info, value), i, name)
  {
    hide Put, WordBytes, SetDirty, Bump, U32, HoldsName;
    var o := InfoOffset(i);
    var w1, w2 := WordBytes(U32(SetDirty(info.serial))), WordBytes(U32(Bump(SetDirty(info.serial), |value|)));
    var m1 := Put(m, o, w1);
    var m2 := Put(m1, o + 4, Terminated(value));
    PutKeepsName(m, o, w1, i, name);
    PutKeepsName(m1, o + 4, Terminated(value), i, name);
    PutKeepsName(m2, o, w2, i, name);
  }

  lemma UpdateKeepsHeader(m: seq<Byte>, i: nat, info: Info, value: Text, a: Area)
    requires |m| == SIZE && i < COUNT_MAX && Header(m, a)
    ensures Header(UpdateStores(m, InfoOffset(i), info, value), a)
  {
    hide Put, WordBytes, SetDirty, Bump, U32, Header;
    var o := InfoOffset(i);
    var w1, w2 := WordBytes(U32(SetDirty(info.serial))), WordBytes(U32(Bump(SetDirty(info.serial), |value|)));
    var m1 := Put(m, o, w1);
    var m2 := Put(m1, o + 4, Terminated(value));
    PutKeepsHeader(m, o, w1, a);
    PutKeepsHeader(m1, o + 4, Terminated(value), a);
    PutKeepsHeader(m2, o, w2, a);
  }

  /** Counting up pa->serial. */
  lemma SerialStore(m: seq<Byte>, a: Area, serial: nat)
    requires |m| == SIZE && Header(m, a) && serial < TWO32
    ensures Header(Put(m, 4, WordBytes(serial)), a.(serial := serial))
  {
    hide Put, Word, WordBytes;
    PutReadBack(m, 4, serial);
    PutWord(m, 4, WordBytes(serial), 0);
    PutWord(m, 4, WordBytes(serial), 8);
    PutWord(m, 4, WordBytes(serial), 12);
  }

  lemma CountStore(m: seq<Byte>, a: Area, e: Entry)
    requires |m| == SIZE && Header(m, a) && |a.entries| < COUNT_MAX
    ensures Header(Put(m, 0, WordBytes(|a.entries| + 1)), a.(entries := a.entries + [e]))
  {
    hide Put, Word, WordBytes;
    PutReadBack(m, 0, |a.entries| + 1);
    PutWord(m, 0, WordBytes(|a.entries| + 1), 4);
    PutWord(m, 0, WordBytes(|a.entries| + 1), 8);
    PutWord(m, 0, WordBytes(|a.entries| + 1), 12);
  }

  lemma EntrySerialBound(e: Entry)
    requires EntryOk(e)
    ensures e.info.serial < VALUE_MAX * LENGTH_UNIT
  {
  }

  lemma SetOldBlank(m: seq<Byte>, a: Area, i: nat, value: Text)
    requires |m| == SIZE && i < |a.entries| <= COUNT_MAX && Blank(m, |a.entries|)
    ensures Blank(SetOld(m, a, i, value), |a.entries|)
  {
    hide WordBytes, U32, Put, UpdateStores;
    var m1 := UpdateStores(m, InfoOffset(i), a.entries[i].info, value);
    UpdateFrame(m, InfoOffset(i), a.entries[i].info, value);
    assert Blank(m1, |a.entries|);
    PutKeepsBlank(m1, 4, WordBytes(U32(a.serial + 1)), |a.entries|);
  }

  lemma UpdateHoldsAll(m: seq<Byte>, entries: seq<Entry>, i: nat, value: Text)
    requires |m| == SIZE && i < |entries| <= COUNT_MAX && HoldsAll(m, entries)
    requires entries[i].info.serial < VALUE_MAX * LENGTH_UNIT && |entries[i].info.value| == VALUE_MAX
    ensures HoldsAll(UpdateStores(m, InfoOffset(i), entries[i].info, value),
                     entries[i := Entry(entries[i].name, Updated(entries[i].info, value), value)])
  {
    hide Updated, UpdateStores, HoldsName, HoldsInfo;
    var e := entries[i];
    var m1 := UpdateStores(m, InfoOffset(i), e.info, value);
    assert Holds(m, i, e);
    UpdateHolds(m, InfoOffset(i), e.info, value);
    UpdateKeepsName(m, i, e.info, value, e.name);
    forall j | 0 <= j < |entries| && j != i
      ensures Holds(m1, j, entries[j])
    {
      assert Holds(m, j, entries[j]);
      UpdateKeepsOthers(m, i, e.info, value, j, entries[j]);
    }
  }

  lemma SetOldRep(m: seq<Byte>, a: Area, i: nat, value: Text)
    requires Rep(m, a) && i < |a.entries|
    ensures var e := a.entries[i];
            var a' := Area(a.entries[i := Entry(e.name, Updated(e.info, value), value)], U32(a.serial + 1));
            AreaOk(a') ==> Rep(SetOld(m, a, i, value), a')
  {
    var e := a.entries[i];
    assert EntryOk(e);
    EntrySerialBound(e);
    hide AreaOk, EntryOk, UpdateStores, HoldsAll, Header, Put, U32, WordBytes, Updated, Blank;
    var serial := U32(a.serial + 1);
    var o := InfoOffset(i);
    var entries := a.entries[i := Entry(e.name, Updated(e.info, value), value)];
    var m1 := UpdateStores(m, o, e.info, value);
    UpdateHoldsAll(m, a.entries, i, value);
    UpdateKeepsHeader(m, i, e.info, value, a);
    SetOldBlank(m, a, i, value);
    SameHeader(m1, a, Area(entries, a.serial));
    SerialStore(m1, Area(entries, a.serial), serial);
    PutKeepsAll(m1, 4, WordBytes(serial), entries);
  }

  lemma SameHeader(m: seq<Byte>, a: Area, a': Area)
    requires |m| == SIZE && Header(m, a) && |a.entries| == |a'.entries| && a.serial == a'.serial
    ensures Header(m, a')
  {
  }

  /** The serial, name and value stored for a new entry. */
  function NewRecord(m: seq<Byte>, n: nat, name: seq<Byte>, value: Text): (m': seq<Byte>)
    requires |m| == SIZE && n < COUNT_MAX && |name| < NAME_MAX
    ensures |m'| == SIZE
  {
    var m1 := Put(m, InfoOffset(n), WordBytes(U32(|value| * LENGTH_UNIT)));
    Put(Put(m1, Offset(n), name + [0]), InfoOffset(n) + 4, Terminated(value))
  }

  /** The stores of legacy_property_set for a new name. */
  function SetNew(m: seq<Byte>, a: Area, name: seq<Byte>, value: Text): (m': seq<Byte>)
    requires |m| == SIZE && |a.entries| < COUNT_MAX && |name| < NAME_MAX
    ensures |m'| == SIZE
  {
    var n := |a.entries|;
    var m4 := Put(NewRecord(m, n, name, value), TocOffset(n), WordBytes(U32(TocWord(|name|, Offset(n)))));
    var m5 := Put(m4, 0, WordBytes(n + 1));
    Put(m5, 4, WordBytes(U32(a.serial + 1)))
  }

  lemma NewWordsFit(n: nat, nameLength: nat, valueLength: nat)
    requires n < COUNT_MAX && nameLength < NAME_MAX && valueLength < VALUE_MAX
    ensures U32(valueLength * LENGTH_UNIT) == valueLength * LENGTH_UNIT
    ensures U32(TocWord(nameLength, Offset(n))) == TocWord(nameLength, Offset(n))
  {
  }

  /** The record and table word of a new entry, after the first four stores. */
  lemma NewEntryStores(m: seq<Byte>, n: nat, name: seq<Byte>, value: Text)
    requires |m| == SIZE && n < COUNT_MAX && |name| < NAME_MAX && Blank(m, n)
    ensures var m4 := Put(NewRecord(m, n, name, value), TocOffset(n), WordBytes(U32(TocWord(|name|, Offset(n)))));
            Holds(m4, n, NewEntry(name, value))
  {
    NewWordsFit(n, |name|, |value|);
    hide WordBytes, Word, U32, TocWord, Put;
    var o := InfoOffset(n);
    var w, t := WordBytes(|value| * LENGTH_UNIT), WordBytes(TocWord(|name|, Offset(n)));
    var m1 := Put(m, o, w);
    var m2 := Put(m1, Offset(n), name + [0]);
    var m3 := Put(m2, o + 4, Terminated(value));
    PutReadBack(m, o, |value| * LENGTH_UNIT);
    PutWord(m1, Offset(n), name + [0], o);
    PutWord(m2, o + 4, Terminated(value), o);
    NewValue(m, n, w, name, value);
    PutKeepsInfo(m3, TocOffset(n), t, o, NewEntry(name, value).info);
    PutReadBack(m3, TocOffset(n), TocWord(|name|, Offset(n)));
    PutSlice(m2, o + 4, Terminated(value), Offset(n), |name| + 1);
    PutSlice(m3, TocOffset(n), t, Offset(n), |name| + 1);
  }

  lemma NewValue(m: seq<Byte>, n: nat, w: seq<Byte>, name: seq<Byte>, value: Text)
    requires |m| == SIZE && n < COUNT_MAX && |name| < NAME_MAX && Blank(m, n) && |w| == 4
    ensures var m2 := Put(Put(m, InfoOffset(n), w), Offset(n), name + [0]);
            var o := InfoOffset(n) + 4;
            Put(m2, o, Terminated(value))[o..o + VALUE_MAX] == NewEntry(name, value).info.value
  {
    hide Put;
    var o := InfoOffset(n) + 4;
    var m1 := Put(m, InfoOffset(n), w);
    var m2 := Put(m1, Offset(n), name + [0]);
    var m3 := Put(m2, o, Terminated(value));
    PutFrame(m, InfoOffset(n), w);
    PutFrame(m1, Offset(n), name + [0]);
    PutFrame(m2, o, Terminated(value));
    var v, v3 := NewEntry(name, value).info.value, m3[o..o + VALUE_MAX];
    forall k | 0 <= k < VALUE_MAX
      ensures v3[k] == v[k]
    {
      if k <= |value| {
        assert m3[o..o + |value| + 1][k] == Terminated(value)[k];
      } else {
        assert m3[o + k] == m2[o + k] == m1[o + k] == m[o + k] == 0;
      }
    }
  }

  lemma SetNewRep(m: seq<Byte>, a: Area, name: seq<Byte>, value: Text)
    requires Rep(m, a) && |a.entries| < COUNT_MAX && |name| < NAME_MAX
    ensures var a' := Area(a.entries + [NewEntry(name, value)], U32(a.serial + 1));
            AreaOk(a') ==> Rep(SetNew(m, a, name, value), a')
  {
    hide AreaOk, Header, Put, WordBytes, U32, TocWord, Holds, NewEntry, HoldsAll, Blank;
    var n, e := |a.entries|, NewEntry(name, value);
    var w1, w4 := WordBytes(U32(|value| * LENGTH_UNIT)), WordBytes(U32(TocWord(|name|, Offset(n))));
    var w5, w6 := WordBytes(n + 1), WordBytes(U32(a.serial + 1));
    var m1 := Put(m, InfoOffset(n), w1);
    var m2 := Put(m1, Offset(n), name + [0]);
    var m3 := Put(m2, InfoOffset(n) + 4, Terminated(value));
    var m4 := Put(m3, TocOffset(n), w4);
    var m5 := Put(m4, 0, w5);
    PutKeepsAll(m, InfoOffset(n), w1, a.entries);
    PutKeepsAll(m1, Offset(n), name + [0], a.entries);
    PutKeepsAll(m2, InfoOffset(n) + 4, Terminated(value), a.entries);
    PutKeepsAll(m3, TocOffset(n), w4, a.entries);
    NewKeepsHeader(m, a, name, value);
    NewEntryStores(m, n, name, value);
    OneMoreHeld(m4, a.entries, e);
    PutKeepsAll(m4, 0, w5, a.entries + [e]);
    PutKeepsAll(m5, 4, w6, a.entries + [e]);
    CountStore(m4, a, e);
    SerialStore(m5, a.(entries := a.entries + [e]), U32(a.serial + 1));
    NewBlank(m, a, name, value);
  }

  lemma OneMoreHeld(m: seq<Byte>, entries: seq<Entry>, e: Entry)
    requires |m| == SIZE && |entries| < COUNT_MAX && HoldsAll(m, entries) && Holds(m, |entries|, e)
    ensures HoldsAll(m, entries + [e])
  {
    hide Holds;
  }

  lemma PutKeepsBlank(m: seq<Byte>, o: nat, b: seq<Byte>, count: nat)
    requires o + |b| <= |m| && o + |b| <= Offset(count) && Blank(m, count)
    ensures Blank(Put(m, o, b), count)
  {
    PutFrame(m, o, b);
    hide Put;
  }

  lemma NewBlank(m: seq<Byte>, a: Area, name: seq<Byte>, value: Text)
    requires |m| == SIZE && |a.entries| < COUNT_MAX && |name| < NAME_MAX && Blank(m, |a.entries|)
    ensures Blank(SetNew(m, a, name, value), |a.entries| + 1)
  {
    hide WordBytes, U32, TocWord, Put, Blank, NewRecord;
    var n := |a.entries|;
    var w4 := WordBytes(U32(TocWord(|name|, Offset(n))));
    var m3 := NewRecord(m, n, name, value);
    var m4 := Put(m3, TocOffset(n), w4);
    NewRecordBlank(m, n, name, value);
    PutKeepsBlank(m3, TocOffset(n), w4, n + 1);
    PutKeepsBlank(m4, 0, WordBytes(n + 1), n + 1);
    PutKeepsBlank(Put(m4, 0, WordBytes(n + 1)), 4, WordBytes(U32(a.serial + 1)), n + 1);
  }

  lemma NewRecordBlank(m: seq<Byte>, n: nat, name: seq<Byte>, value: Text)
    requires |m| == SIZE && n < COUNT_MAX && |name| < NAME_MAX && Blank(m, n)
    ensures Blank(NewRecord(m, n, name, value), n + 1)
  {
    assert Blank(m, n + 1);
    hide WordBytes, U32, Put, Blank;
    var w1 := WordBytes(U32(|value| * LENGTH_UNIT));
    var m1 := Put(m, InfoOffset(n), w1);
    PutKeepsBlank(m, InfoOffset(n), w1, n + 1);
    PutKeepsBlank(m1, Offset(n), name + [0], n + 1);
    PutKeepsBlank(Put(m1, Offset(n), name + [0]), InfoOffset(n) + 4, Terminated(value), n + 1);
  }

  /** Count and serial are still there when legacy_property_set has stored a new record and its table word. */
  lemma NewKeepsHeader(m: seq<Byte>, a: Area, name: seq<Byte>, value: Text)
    requires |m| == SIZE && |a.entries| < COUNT_MAX && |name| < NAME_MAX && Header(m, a)
    ensures var n := |a.entries|;
            Header(Put(NewRecord(m, n, name, value), TocOffset(n), WordBytes(U32(TocWord(|name|, Offset(n))))), a)
  {
    hide Header, Put, WordBytes, U32, TocWord;
    var n := |a.entries|;
    var w1, w4 := WordBytes(U32(|value| * LENGTH_UNIT)), WordBytes(U32(TocWord(|name|, Offset(n))));
    var m1 := Put(m, InfoOffset(n), w1);
    var m2 := Put(m1, Offset(n), name + [0]);
    PutKeepsHeader(m, InfoOffset(n), w1, a);
    PutKeepsHeader(m1, Offset(n), name + [0], a);
    PutKeepsHeader(m2, InfoOffset(n) + 4, Terminated(value), a);
    PutKeepsHeader(NewRecord(m, n, name, value), TocOffset(n), w4, a);
  }
}