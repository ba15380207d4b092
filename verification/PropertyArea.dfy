/**
 legacy_property_service.cpp: an append-only table of at most 247 properties in one flat area of
 32768 bytes, and what any sequence of legacy_property_set calls does to it.
 */
module PropertyArea {
  import opened Machine
  import opened SequenceLock

  const COUNT_MAX: nat := 247
  const INFO_START: nat := 1024
  const INFO_SIZE: nat := 128
  const TOC_START: nat := 32
  const SIZE: nat := 32768
  const NAME_MAX: nat := 32
  const MAGIC: nat := 0x504f5250
  const VERSION: nat := 0x45434f76

  /** One allocated prop_info; `value` is the string that its value field currently holds. */
  datatype Entry = Entry(name: seq<Byte>, info: Info, value: Text)

  datatype Area = Area(entries: seq<Entry>, serial: nat)

  const READ_ONLY_PREFIX: seq<Byte> := [114, 111, 46]

  predicate NulFree(s: seq<Byte>) {
    forall i | 0 <= i < |s| :: s[i] != 0
  }

  /** !strncmp(name, "ro.", 3) */
  predicate ReadOnly(name: seq<Byte>) {
    |name| >= 3 && name[..3] == READ_ONLY_PREFIX
  }

  // ---------------------------------------------------------------- what the calls mean

  /** Index of the first entry with this name, or the number of entries. */
  function IndexOf(entries: seq<Entry>, name: seq<Byte>): (i: nat)
    ensures i <= |entries|
    ensures i < |entries| ==> entries[i].name == name
    ensures forall j | 0 <= j < i :: entries[j].name != name
  {
    if entries == [] then 0 else if entries[0].name == name then 0 else 1 + IndexOf(entries[1..], name)
  }

  predicate Allowed(name: seq<Byte>, value: seq<Byte>) {
    1 <= |name| < NAME_MAX && |value| < VALUE_MAX
  }

  function NewEntry(name: seq<Byte>, value: Text): Entry {
    Entry(name, Info(|value| * LENGTH_UNIT, Terminated(value) + Zeros(VALUE_MAX - 1 - |value|)), value)
  }

  /** legacy_property_set: the new area and the return value. */
  function Set(a: Area, name: seq<Byte>, value: seq<Byte>): (Area, int)
    requires forall e | e in a.entries :: |e.info.value| == VALUE_MAX
  {
    var i := IndexOf(a.entries, name);
    if !Allowed(name, value) then (a, -1)
    else if i < |a.entries| then
      if ReadOnly(name) then (a, -1)
      else
        var e := a.entries[i];
        (Area(a.entries[i := Entry(name, Updated(e.info, value), value)], U32(a.serial + 1)), 0)
    else if |a.entries| == COUNT_MAX then (a, -1)
    else (Area(a.entries + [NewEntry(name, value)], U32(a.serial + 1)), 0)
  }

  predicate EntryOk(e: Entry) {
    && 1 <= |e.name| < NAME_MAX && NulFree(e.name)
    && |e.info.value| == VALUE_MAX
    && e.info.value[..|e.value| + 1] == Terminated(e.value)
    && SerialLength(e.info.serial) == |e.value| && !Dirty(e.info.serial)
  }

  ghost predicate AreaOk(a: Area) {
    && |a.entries| <= COUNT_MAX && a.serial < TWO32
    && (forall i | 0 <= i < |a.entries| :: EntryOk(a.entries[i]))
    && (forall i, j | 0 <= i < j < |a.entries| :: a.entries[i].name != a.entries[j].name)
  }

  lemma UpdatedOk(e: Entry, value: Text)
    requires EntryOk(e)
    ensures EntryOk(Entry(e.name, Updated(e.info, value), value))
  {
    assert Updated(e.info, value).value[..|value| + 1] == Terminated(value);
  }

  lemma NewEntryOk(name: seq<Byte>, value: Text)
    requires 1 <= |name| < NAME_MAX && NulFree(name)
    ensures EntryOk(NewEntry(name, value))
  {
    assert NewEntry(name, value).info.value[..|value| + 1] == Terminated(value);
  }

  lemma SetKeepsArea(a: Area, name: seq<Byte>, value: seq<Byte>)
    requires AreaOk(a) && NulFree(name)
    ensures AreaOk(Set(a, name, value).0)
  {
    if Allowed(name, value) {
      NewEntryOk(name, value);
      var i := IndexOf(a.entries, name);
      if i < |a.entries| {
        UpdatedOk(a.entries[i], value);
      }
    }
    hide EntryOk, Updated;
  }

  // ---------------------------------------------------------------- the table as a map

  function Lookup(a: Area, name: seq<Byte>): Option<seq<Byte>> {
    var i := IndexOf(a.entries, name);
    if i < |a.entries| then Some(a.entries[i].value) else None
  }

  lemma SetChangesLookup(a: Area, name: seq<Byte>, value: seq<Byte>, other: seq<Byte>)
    requires AreaOk(a) && NulFree(name)
    ensures var (a', rc) := Set(a, name, value);
            Lookup(a', other) == if rc == 0 && other == name then Some(value) else Lookup(a, other)
  {
    var (a', rc) := Set(a, name, value);
    SetKeepsArea(a, name, value);
    var i, j, k := IndexOf(a.entries, name), IndexOf(a.entries, other), IndexOf(a'.entries, other);
    hide EntryOk, Updated, ReadOnly;
    if rc == 0 {
      assert a'.entries[i].name == name && a'.entries[i].value == value;
      if j < |a.entries| {
        assert a'.entries[j].name == other;
      }
      if k < |a.entries| {
        assert a.entries[k].name == other;
      }
    }
  }

  function Names(entries: seq<Entry>): set<seq<Byte>> {
    set i | 0 <= i < |entries| :: entries[i].name
  }

  function AsMap(a: Area): map<seq<Byte>, seq<Byte>> {
    map n | n in Names(a.entries) && Lookup(a, n).Some? :: Lookup(a, n).value
  }

  lemma AsMapIsLookup(a: Area, name: seq<Byte>)
    ensures name in AsMap(a) <==> Lookup(a, name).Some?
    ensures name in AsMap(a) ==> AsMap(a)[name] == Lookup(a, name).value
  {
    var i := IndexOf(a.entries, name);
    if i < |a.entries| {
      assert a.entries[i].name in Names(a.entries);
    }
  }

  lemma {:induction false} NamesCount(entries: seq<Entry>)
    requires forall i, j | 0 <= i < j < |entries| :: entries[i].name != entries[j].name
    ensures |Names(entries)| == |entries|
  {
    if entries != [] {
      var n := |entries| - 1;
      NamesCount(entries[..n]);
      assert Names(entries) == Names(entries[..n]) + {entries[n].name};
    }
  }

  lemma AsMapSize(a: Area)
    requires AreaOk(a)
    ensures |AsMap(a)| == |a.entries|
  {
    NamesCount(a.entries);
    hide Lookup;
    forall n
      ensures n in AsMap(a).Keys <==> n in Names(a.entries)
    {
      AsMapIsLookup(a, n);
      NameFound(a, n);
    }
    assert AsMap(a).Keys == Names(a.entries);
  }

  lemma NameFound(a: Area, name: seq<Byte>)
    ensures name in Names(a.entries) <==> Lookup(a, name).Some?
  {
  }

  lemma SameLookupSameMap(a: Area, a': Area, m: map<seq<Byte>, seq<Byte>>)
    requires forall n :: Lookup(a', n) == if n in m then Some(m[n]) else None
    ensures AsMap(a') == m
  {
    forall n
      ensures n in AsMap(a') <==> n in m
      ensures n in AsMap(a') ==> AsMap(a')[n] == m[n]
    {
      AsMapIsLookup(a', n);
    }
    hide Lookup, AsMap;
  }

  /** Name and value fit, and the name is new while there is room, or known and does not begin with "ro." */
  predicate Settable(m: map<seq<Byte>, seq<Byte>>, name: seq<Byte>, value: seq<Byte>) {
    && 1 <= |name| < 32 && |value| < 92
    && (if name in m then !([114, 111, 46] <= name) else |m| < 247)
  }

  lemma SetSucceedsExactlyWhen(a: Area, name: seq<Byte>, value: seq<Byte>)
    requires AreaOk(a)
    ensures var (a', rc) := Set(a, name, value);
            && (rc == 0 <==> Settable(AsMap(a), name, value))
            && (rc != 0 ==> rc == -1 && a' == a)
  {
    AsMapSize(a);
    AsMapIsLookup(a, name);
    hide AsMap;
  }

  /** A name that begins with "ro." keeps the value that it was given first. */
  lemma ReadOnlyIsKept(a: Area, rest: seq<Byte>, value: seq<Byte>)
    requires AreaOk(a) && Lookup(a, [114, 111, 46] + rest).Some?
    ensures Set(a, [114, 111, 46] + rest, value) == (a, -1)
  {
    AsMapIsLookup(a, [114, 111, 46] + rest);
    SetSucceedsExactlyWhen(a, [114, 111, 46] + rest, value);
    hide AreaOk, AsMap, Lookup, Set;
  }

  /** Every other name that is known takes each value that fits. */
  lemma OtherIsReplaced(a: Area, name: seq<Byte>, value: seq<Byte>)
    requires AreaOk(a) && Lookup(a, name).Some? && !([114, 111, 46] <= name) && |value| < 92
    ensures var (a', rc) := Set(a, name, value);
            rc == 0 && Lookup(a', name) == Some(value) && |a'.entries| == |a.entries|
  {
    var i := IndexOf(a.entries, name);
    assert EntryOk(a.entries[i]);
    SetChangesLookup(a, name, value, name);
  }

  /** The table refines a map: which calls succeed, and what they do, depends on the map alone. */
  lemma SetRefinesMap(a: Area, name: seq<Byte>, value: seq<Byte>)
    requires AreaOk(a) && NulFree(name)
    ensures var m := AsMap(a);
            var (a', rc) := Set(a, name, value);
            if Settable(m, name, value) then rc == 0 && AsMap(a') == m[name := value] else rc == -1 && a' == a
  {
    var m := AsMap(a);
    var (a', rc) := Set(a, name, value);
    SetSucceedsExactlyWhen(a, name, value);
    hide Set, AsMap, AreaOk, Settable, Lookup;
    if rc == 0 {
      forall n
        ensures Lookup(a', n) == if n in m[name := value] then Some(m[name := value][n]) else None
      {
        AsMapIsLookup(a, n);
        SetChangesLookup(a, name, value, n);
      }
      SameLookupSameMap(a, a', m[name := value]);
    }
  }

  // ---------------------------------------------------------------- whole runs

  datatype Call = Call(name: seq<Byte>, value: seq<Byte>)

  /** The area after a sequence of calls, and their return values. */
  function Run(a: Area, calls: seq<Call>): (r: (Area, seq<int>))
    requires AreaOk(a) && forall i | 0 <= i < |calls| :: NulFree(calls[i].name)
    ensures |r.1| == |calls| && AreaOk(r.0)
    decreases |calls|
  {
    if calls == [] then (a, [])
    else
      SetKeepsArea(a, calls[0].name, calls[0].value);
      var (a1, rc) := Set(a, calls[0].name, calls[0].value);
      var (a2, rcs) := Run(a1, calls[1..]);
      (a2, [rc] + rcs)
  }

  /** The value given by the last call of the run that set `name` successfully. */
  function LastSet(calls: seq<Call>, results: seq<int>, name: seq<Byte>): Option<seq<Byte>>
    requires |results| == |calls|
  {
    if calls == [] then None
    else
      var n := |calls| - 1;
      if results[n] == 0 && calls[n].name == name then Some(calls[n].value)
      else LastSet(calls[..n], results[..n], name)
  }

  lemma {:induction false} LastSetFirst(call: Call, result: int, calls: seq<Call>, results: seq<int>, name: seq<Byte>)
    requires |results| == |calls|
    ensures LastSet([call] + calls, [result] + results, name) ==
            match LastSet(calls, results, name)
            case Some(v) => Some(v)
            case None => if result == 0 && call.name == name then Some(call.value) else None
  {
    var n := |calls|;
    assert ([call] + calls)[n] == if n == 0 then call else calls[n - 1];
    if n == 0 {
      assert ([call] + calls)[..0] == [] && ([result] + results)[..0] == [];
    } else {
      assert ([call] + calls)[..n] == [call] + calls[..n - 1];
      assert ([result] + results)[..n] == [result] + results[..n - 1];
      LastSetFirst(call, result, calls[..n - 1], results[..n - 1], name);
    }
  }

  /** Lookup returns the value of the last successful call, or what was there before. */
  lemma {:induction false} LookupIsLastSet(a: Area, calls: seq<Call>, name: seq<Byte>)
    requires AreaOk(a) && forall i | 0 <= i < |calls| :: NulFree(calls[i].name)
    ensures var (a', results) := Run(a, calls);
            Lookup(a', name) == match LastSet(calls, results, name)
                                case Some(v) => Some(v)
                                case None => Lookup(a, name)
    decreases |calls|
  {
    if calls != [] {
      var (a1, rc) := Set(a, calls[0].name, calls[0].value);
      SetKeepsArea(a, calls[0].name, calls[0].value);
      SetChangesLookup(a, calls[0].name, calls[0].value, name);
      LookupIsLastSet(a1, calls[1..], name);
      LastSetFirst(calls[0], rc, calls[1..], Run(a1, calls[1..]).1, name);
      assert calls == [calls[0]] + calls[1..];
      hide Set, Lookup, AreaOk;
    }
  }

  /** Entries stay where they are under the name they were given, and ro.* entries keep their first value. */
  predicate Stable(a: Area, a': Area) {
    && |a.entries| <= |a'.entries|
    && forall i | 0 <= i < |a.entries| ::
         && a'.entries[i].name == a.entries[i].name
         && ([114, 111, 46] <= a.entries[i].name ==> a'.entries[i] == a.entries[i])
  }

  lemma {:induction false} RunIsStable(a: Area, calls: seq<Call>)
    requires AreaOk(a) && forall i | 0 <= i < |calls| :: NulFree(calls[i].name)
    ensures Stable(a, Run(a, calls).0)
    decreases |calls|
  {
    if calls != [] {
      var a1 := Set(a, calls[0].name, calls[0].value).0;
      SetKeepsArea(a, calls[0].name, calls[0].value);
      SetIsStable(a, calls[0].name, calls[0].value);
      RunIsStable(a1, calls[1..]);
      hide Set, AreaOk;
    }
  }

  lemma SetIsStable(a: Area, name: seq<Byte>, value: seq<Byte>)
    requires AreaOk(a)
    ensures Stable(a, Set(a, name, value).0)
  {
  }

  function Successes(results: seq<int>): nat {
    if results == [] then 0 else (if results[0] == 0 then 1 else 0) + Successes(results[1..])
  }

  /** The serial of the area counts the successful calls, modulo 2^32. */
  lemma {:induction false} SerialCountsSuccesses(a: Area, calls: seq<Call>)
    requires AreaOk(a) && forall i | 0 <= i < |calls| :: NulFree(calls[i].name)
    ensures var (a', results) := Run(a, calls);
            a'.serial == (a.serial + Successes(results)) % 0x1_0000_0000
    decreases |calls|
  {
    if calls != [] {
      var (a1, rc) := Set(a, calls[0].name, calls[0].value);
      SetKeepsArea(a, calls[0].name, calls[0].value);
      var rcs := Run(a1, calls[1..]).1;
      SerialCountsSuccesses(a1, calls[1..]);
      assert ([rc] + rcs)[1..] == rcs;
      assert a1.serial == (a.serial + if rc == 0 then 1 else 0) % 0x1_0000_0000;
      hide Set, AreaOk;
      SumWraps(a.serial, if rc == 0 then 1 else 0, Successes(rcs));
    }
  }

  lemma SumWraps(a: nat, b: nat, c: nat)
    ensures ((a + b) % 0x1_0000_0000 + c) % 0x1_0000_0000 == (a + (b + c)) % 0x1_0000_0000
  {
  }
}
