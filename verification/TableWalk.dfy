/**
 legacy_property_service.cpp: readers walk the table while the service stores into it.  Stores and reads of the two
 sides are interleaved one word or one byte of a memcpy at a time.
 */
module TableWalk {
  import opened Machine
  import opened SequenceLock
  import opened PropertyArea
  import opened PropertyMemory

  // ---------------------------------------------------------------- single stores

  datatype Store = Store(o: nat, b: seq<Byte>)

  predicate Fits(stores: seq<Store>, size: nat) {
    forall k | 0 <= k < |stores| :: stores[k].o + |stores[k].b| <= size
  }

  function Apply(m: seq<Byte>, stores: seq<Store>): (m': seq<Byte>)
    requires Fits(stores, |m|)
    ensures |m'| == |m|
  {
    if stores == [] then m
    else
      var last := stores[|stores| - 1];
      Put(Apply(m, stores[..|stores| - 1]), last.o, last.b)
  }

  lemma {:induction false} ApplyConcat(m: seq<Byte>, a: seq<Store>, b: seq<Store>)
    requires Fits(a, |m|) && Fits(b, |m|)
    ensures Fits(a + b, |m|) && Apply(m, a + b) == Apply(Apply(m, a), b)
    decreases |b|
  {
    if b == [] {
      assert a + b == a;
    } else {
      var n := |b| - 1;
      assert (a + b)[..|a + b| - 1] == a + b[..n];
      ApplyConcat(m, a, b[..n]);
    }
  }

  lemma ApplyOne(m: seq<Byte>, s: Store)
    requires s.o + |s.b| <= |m|
    ensures Apply(m, [s]) == Put(m, s.o, s.b)
  {
    assert [s][..0] == [];
  }

  /** memcpy, byte by byte */
  function Bytes(o: nat, b: seq<Byte>): (stores: seq<Store>)
    ensures |stores| == |b| && forall k | 0 <= k < |b| :: stores[k] == Store(o + k, [b[k]])
  {
    seq(|b|, k requires 0 <= k < |b| => Store(o + k, [b[k]]))
  }

  lemma {:induction false} BytesStored(m: seq<Byte>, o: nat, b: seq<Byte>)
    requires o + |b| <= |m|
    ensures Fits(Bytes(o, b), |m|) && Apply(m, Bytes(o, b)) == Put(m, o, b)
    decreases |b|
  {
    if b == [] {
      assert Put(m, o, b) == m;
    } else {
      var n := |b| - 1;
      assert Bytes(o, b)[..n] == Bytes(o, b[..n]);
      BytesStored(m, o, b[..n]);
      PutMore(m, o, b);
    }
  }

  lemma PutMore(m: seq<Byte>, o: nat, b: seq<Byte>)
    requires o + |b| <= |m| && b != []
    ensures Put(m, o, b) == Put(Put(m, o, b[..|b| - 1]), o + |b| - 1, [b[|b| - 1]])
  {
    var n := |b| - 1;
    var l, r := Put(m, o, b), Put(Put(m, o, b[..n]), o + n, [b[n]]);
    forall k | 0 <= k < |m|
      ensures l[k] == r[k]
    {
    }
  }

  // ---------------------------------------------------------------- the stores of legacy_property_set

  /** Serial, name and value of a new record, and its table word */
  function Record(n: nat, name: seq<Byte>, value: Text): seq<Store>
    requires n < COUNT_MAX && |name| < NAME_MAX
  {
    [Store(InfoOffset(n), WordBytes(U32(|value| * LENGTH_UNIT)))] + Bytes(Offset(n), name + [0])
      + Bytes(InfoOffset(n) + 4, Terminated(value))
      + [Store(TocOffset(n), WordBytes(U32(TocWord(|name|, Offset(n)))))]
  }

  /** After them the count, which publishes the record, and the area's serial */
  function NewStores(a: Area, name: seq<Byte>, value: Text): seq<Store>
    requires |a.entries| < COUNT_MAX && |name| < NAME_MAX
  {
    Record(|a.entries|, name, value) + [Store(0, WordBytes(|a.entries| + 1))] + [Store(4, WordBytes(U32(a.serial + 1)))]
  }

  /** update_prop_info, and the area's serial */
  function OldStores(a: Area, i: nat, value: Text): seq<Store>
    requires i < |a.entries| <= COUNT_MAX
  {
    var o, info := InfoOffset(i), a.entries[i].info;
    [Store(o, WordBytes(U32(SetDirty(info.serial))))] + Bytes(o + 4, Terminated(value))
      + [Store(o, WordBytes(U32(Bump(SetDirty(info.serial), |value|))))] + [Store(4, WordBytes(U32(a.serial + 1)))]
  }

  /** The record is complete in memory when its count is stored. */
  lemma RecordStored(m: seq<Byte>, n: nat, name: seq<Byte>, value: Text)
    requires |m| == SIZE && n < COUNT_MAX && |name| < NAME_MAX
    ensures Fits(Record(n, name, value), SIZE)
    ensures Apply(m, Record(n, name, value))
         == Put(NewRecord(m, n, name, value), TocOffset(n), WordBytes(U32(TocWord(|name|, Offset(n)))))
  {
    hide Put, WordBytes, U32, Bytes, TocWord, Terminated, Apply, Fits;
    FourStored(m, InfoOffset(n), WordBytes(U32(|value| * LENGTH_UNIT)), Offset(n), name + [0],
               InfoOffset(n) + 4, Terminated(value), TocOffset(n), WordBytes(U32(TocWord(|name|, Offset(n)))));
  }

  lemma FourStored(m: seq<Byte>, o1: nat, w1: seq<Byte>, o2: nat, b2: seq<Byte>, o3: nat, b3: seq<Byte>, o4: nat, w4: seq<Byte>)
    requires o1 + |w1| <= |m| && o2 + |b2| <= |m| && o3 + |b3| <= |m| && o4 + |w4| <= |m|
    ensures var stores := [Store(o1, w1)] + Bytes(o2, b2) + Bytes(o3, b3) + [Store(o4, w4)];
            Fits(stores, |m|) && Apply(m, stores) == Put(Put(Put(Put(m, o1, w1), o2, b2), o3, b3), o4, w4)
  {
    hide Put, Bytes, Apply, Fits;
    var first, second := [Store(o1, w1)] + Bytes(o2, b2), Bytes(o3, b3) + [Store(o4, w4)];
    WordThenText(m, o1, w1, o2, b2);
    TextThenWord(Put(Put(m, o1, w1), o2, b2), o3, b3, o4, w4);
    ApplyConcat(m, first, second);
    assert [Store(o1, w1)] + Bytes(o2, b2) + Bytes(o3, b3) + [Store(o4, w4)] == first + second;
  }

  lemma WordThenText(m: seq<Byte>, o: nat, w: seq<Byte>, p: nat, b: seq<Byte>)
    requires o + |w| <= |m| && p + |b| <= |m|
    ensures Fits([Store(o, w)] + Bytes(p, b), |m|) && Apply(m, [Store(o, w)] + Bytes(p, b)) == Put(Put(m, o, w), p, b)
  {
    hide Put, Bytes;
    ApplyOne(m, Store(o, w));
    BytesStored(Put(m, o, w), p, b);
    ApplyConcat(m, [Store(o, w)], Bytes(p, b));
  }

  lemma TextThenWord(m: seq<Byte>, p: nat, b: seq<Byte>, o: nat, w: seq<Byte>)
    requires o + |w| <= |m| && p + |b| <= |m|
    ensures Fits(Bytes(p, b) + [Store(o, w)], |m|) && Apply(m, Bytes(p, b) + [Store(o, w)]) == Put(Put(m, p, b), o, w)
  {
    hide Put, Bytes;
    BytesStored(m, p, b);
    ApplyOne(Put(m, p, b), Store(o, w));
    ApplyConcat(m, Bytes(p, b), [Store(o, w)]);
  }

  lemma FitsOne(s: Store)
    requires s.o + |s.b| <= SIZE
    ensures Fits([s], SIZE)
  {
  }

  lemma NewStored(m: seq<Byte>, a: Area, name: seq<Byte>, value: Text)
    requires |m| == SIZE && |a.entries| < COUNT_MAX && |name| < NAME_MAX
    ensures Fits(NewStores(a, name, value), SIZE) && Apply(m, NewStores(a, name, value)) == SetNew(m, a, name, value)
  {
    hide Put, WordBytes, U32, Record, TocWord, NewRecord;
    var n := |a.entries|;
    var r := Record(n, name, value);
    var s5, s6 := Store(0, WordBytes(n + 1)), Store(4, WordBytes(U32(a.serial + 1)));
    RecordStored(m, n, name, value);
    var m4 := Apply(m, r);
    ApplyOne(m4, s5);
    ApplyOne(Put(m4, 0, s5.b), s6);
    FitsOne(s5);
    FitsOne(s6);
    hide Apply, Fits;
    ApplyConcat(m, r, [s5]);
    ApplyConcat(m, r + [s5], [s6]);
  }

  lemma OldStored(m: seq<Byte>, a: Area, i: nat, value: Text)
    requires |m| == SIZE && i < |a.entries| <= COUNT_MAX
    ensures Fits(OldStores(a, i, value), SIZE) && Apply(m, OldStores(a, i, value)) == SetOld(m, a, i, value)
  {
    hide Put, WordBytes, U32, Bytes, SetDirty, Bump, Terminated;
    var o, info := InfoOffset(i), a.entries[i].info;
    var s1, s3 := Store(o, WordBytes(U32(SetDirty(info.serial)))), Store(o, WordBytes(U32(Bump(SetDirty(info.serial), |value|))));
    var s2, s4 := Bytes(o + 4, Terminated(value)), Store(4, WordBytes(U32(a.serial + 1)));
    ApplyOne(m, s1);
    var m1 := Put(m, o, s1.b);
    BytesStored(m1, o + 4, Terminated(value));
    var m2 := Put(m1, o + 4, Terminated(value));
    ApplyOne(m2, s3);
    var m3 := Put(m2, o, s3.b);
    ApplyOne(m3, s4);
    FitsOne(s1);
    FitsOne(s3);
    FitsOne(s4);
    hide Apply, Fits;
    ApplyConcat(m, [s1], s2);
    ApplyConcat(m, [s1] + s2, [s3]);
    ApplyConcat(m, [s1] + s2 + [s3], [s4]);
  }

  // ---------------------------------------------------------------- what readers see

  /** The published entries: their table words and names are in memory, and the count is theirs. */
  ghost predicate Visible(m: seq<Byte>, names: seq<seq<Byte>>) {
    && |m| == SIZE && |names| <= COUNT_MAX && Word(m, 0) == |names|
    && forall i | 0 <= i < |names| :: HoldsName(m, i, names[i])
  }

  /** A store that touches neither the count nor any table word or name of the first n entries */
  predicate Quiet(s: Store, n: nat) {
    && s.o + |s.b| <= SIZE && Apart(s.o, |s.b|, 0, 4)
    && forall i | 0 <= i < n :: Apart(s.o, |s.b|, TocOffset(i), 4) && Apart(s.o, |s.b|, Offset(i), NAME_MAX)
  }

  lemma QuietKeepsVisible(m: seq<Byte>, names: seq<seq<Byte>>, s: Store)
    requires Visible(m, names) && Quiet(s, |names|)
    ensures Visible(Put(m, s.o, s.b), names)
  {
    PutWord(m, s.o, s.b, 0);
    forall i | 0 <= i < |names|
      ensures HoldsName(Put(m, s.o, s.b), i, names[i])
    {
      PutKeepsName(m, s.o, s.b, i, names[i]);
    }
    hide Put, Word, HoldsName;
  }

  /** Storing the count publishes a record that is complete. */
  lemma CountPublishes(m: seq<Byte>, names: seq<seq<Byte>>, name: seq<Byte>)
    requires Visible(m, names) && |names| < COUNT_MAX && HoldsName(m, |names|, name)
    ensures Visible(Put(m, 0, WordBytes(|names| + 1)), names + [name])
  {
    hide Put, WordBytes, Word;
    var b := WordBytes(|names| + 1);
    PutReadBack(m, 0, |names| + 1);
    forall i | 0 <= i < |names + [name]|
      ensures HoldsName(Put(m, 0, b), i, (names + [name])[i])
    {
      PutKeepsName(m, 0, b, i, (names + [name])[i]);
    }
  }

  lemma RecordIsQuiet(n: nat, name: seq<Byte>, value: Text, k: nat)
    requires n < COUNT_MAX && |name| < NAME_MAX && k < |Record(n, name, value)|
    ensures Quiet(Record(n, name, value)[k], n)
  {
    hide WordBytes, U32, TocWord;
  }

  lemma OldIsQuiet(a: Area, i: nat, value: Text, k: nat)
    requires i < |a.entries| <= COUNT_MAX && k < |OldStores(a, i, value)|
    ensures Quiet(OldStores(a, i, value)[k], |a.entries|)
  {
    hide WordBytes, U32, SetDirty, Bump;
  }
}
