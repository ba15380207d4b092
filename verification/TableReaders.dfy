/**
 legacy_property_service.cpp: any number of readers look names up while the service stores into the table.  A reader
 reads the count, and then table words and names, in single words and bytes.
 */
module TableReaders {
  import opened Machine
  import opened SequenceLock
  import opened PropertyArea
  import opened PropertyMemory
  import opened TableWalk

  /** __legacy_property_find, at one of its reads; Astray stands for a read outside of the area. */
  datatype Walker =
    | AtCount
    | AtWord(count: nat, i: nat)
    | AtName(count: nat, i: nat, o: nat, j: nat)
    | FoundAt(count: nat, i: nat)
    | NotThere(count: nat)
    | Astray

  datatype Search = Search(name: seq<Byte>, walker: Walker)

  /**
   `area` is the table as it was when the service was last idle, `start` the memory then, `names` the names of the
   entries that the count covers, and `pos` how many stores of the call have been made.
   */
  datatype State = State(
    mem: seq<Byte>, area: Area, call: Option<(seq<Byte>, Text)>, start: seq<Byte>, pos: nat,
    names: seq<seq<Byte>>, readers: seq<Search>)

  datatype Step = Serve(name: seq<Byte>, value: Text) | Read(reader: nat)

  // ---------------------------------------------------------------- the service

  /** The tests of legacy_property_set before it stores anything */
  predicate Accepted(a: Area, name: seq<Byte>, value: Text) {
    && Allowed(name, value) && |a.entries| <= COUNT_MAX
    && if IndexOf(a.entries, name) < |a.entries| then !ReadOnly(name) else |a.entries| < COUNT_MAX
  }

  /** The stores of an accepted call, in their order */
  function Stores(a: Area, name: seq<Byte>, value: Text): seq<Store> {
    if !Accepted(a, name, value) then []
    else if IndexOf(a.entries, name) < |a.entries| then OldStores(a, IndexOf(a.entries, name), value)
    else NewStores(a, name, value)
  }

  function After(a: Area, name: seq<Byte>, value: Text): Area {
    if forall e | e in a.entries :: |e.info.value| == VALUE_MAX then Set(a, name, value).0 else a
  }

  /** One store, or the beginning or end of a call; storing the count publishes an entry. */
  function ServeNext(s: State, name: seq<Byte>, value: Text): State {
    match s.call
    case None =>
      if NulFree(name) && Accepted(s.area, name, value) then s.(call := Some((name, value)), start := s.mem, pos := 0) else s
    case Some((n, v)) =>
      var stores := Stores(s.area, n, v);
      if s.pos < |stores| then
        var st := stores[s.pos];
        if st.o + |st.b| <= |s.mem| then
          s.(mem := Put(s.mem, st.o, st.b), pos := s.pos + 1, names := if st.o == 0 then s.names + [n] else s.names)
        else s
      else s.(area := After(s.area, n, v), call := None)
  }

  // ---------------------------------------------------------------- a reader

  function ReadNext(m: seq<Byte>, name: seq<Byte>, w: Walker): Walker {
    match w
    case AtCount => if 4 <= |m| then AtWord(Word(m, 0), 0) else Astray
    case AtWord(count, i) =>
      if i >= count then NotThere(count)
      else if TocOffset(i) + 4 > |m| then Astray
      else
        var entry := Word(m, TocOffset(i));
        if entry / LENGTH_UNIT != |name| then AtWord(count, i + 1) else AtName(count, i, entry % LENGTH_UNIT, 0)
    case AtName(count, i, o, j) =>
      if j == |name| then FoundAt(count, i)
      else if o + j >= |m| || j > |name| then Astray
      else if m[o + j] != name[j] then AtWord(count, i + 1)
      else AtName(count, i, o, j + 1)
    case _ => w
  }

  function Next(s: State, e: Step): State {
    match e
    case Serve(name, value) => ServeNext(s, name, value)
    case Read(r) =>
      if r < |s.readers| then
        s.(readers := s.readers[r := s.readers[r].(walker := ReadNext(s.mem, s.readers[r].name, s.readers[r].walker))])
      else s
  }

  function Exec(s: State, es: seq<Step>): State
    decreases |es|
  {
    if es == [] then s else Exec(Next(s, es[0]), es[1..])
  }

  // ---------------------------------------------------------------- the invariant

  function NamesOf(a: Area): (names: seq<seq<Byte>>)
    ensures |names| == |a.entries| && forall i | 0 <= i < |names| :: names[i] == a.entries[i].name
  {
    seq(|a.entries|, i requires 0 <= i < |a.entries| => a.entries[i].name)
  }

  /** None of the first i published names is the one looked for. */
  predicate Passed(names: seq<seq<Byte>>, name: seq<Byte>, i: nat) {
    i <= |names| && forall k | 0 <= k < i :: names[k] != name
  }

  predicate WalkerOk(names: seq<seq<Byte>>, name: seq<Byte>, w: Walker) {
    match w
    case AtCount => true
    case AtWord(count, i) => i <= count <= |names| && Passed(names, name, i)
    case AtName(count, i, o, j) =>
      && i < count <= |names| && Passed(names, name, i)
      && o == Offset(i) && |names[i]| == |name| && j <= |name| && names[i][..j] == name[..j]
    case FoundAt(count, i) => i < count <= |names| && Passed(names, name, i) && names[i] == name
    case NotThere(count) => Passed(names, name, count)
    case Astray => false
  }

  /** How far the service has got */
  ghost predicate ServiceOk(s: State) {
    match s.call
    case None => Rep(s.mem, s.area) && s.names == NamesOf(s.area)
    case Some((n, v)) =>
      var stores := Stores(s.area, n, v);
      && Rep(s.start, s.area) && NulFree(n) && Accepted(s.area, n, v)
      && s.pos <= |stores| && Fits(stores, SIZE) && s.mem == Apply(s.start, stores[..s.pos])
      && s.names == if IndexOf(s.area.entries, n) == |s.area.entries| && s.pos + 1 >= |stores| then NamesOf(s.area) + [n] else NamesOf(s.area)
  }

  ghost predicate Inv(s: State) {
    && Visible(s.mem, s.names) && ServiceOk(s)
    && forall r | 0 <= r < |s.readers| :: WalkerOk(s.names, s.readers[r].name, s.readers[r].walker)
  }

  // ---------------------------------------------------------------- steps of a reader

  lemma ReadKeeps(m: seq<Byte>, names: seq<seq<Byte>>, name: seq<Byte>, w: Walker)
    requires Visible(m, names) && WalkerOk(names, name, w)
    ensures WalkerOk(names, name, ReadNext(m, name, w))
    ensures w.AtCount? ==> ReadNext(m, name, w) == AtWord(|names|, 0)
  {
    hide Word, HoldsName, TocOffset, Offset;
    match w
    case AtWord(count, i) =>
      if i < count {
        WordRead(m, names, i);
        AtWordKeeps(names, name, count, i, Word(m, TocOffset(i)));
      }
    case AtName(count, i, o, j) =>
      if j < |name| {
        NameByte(m, i, names[i], j);
        AtNameKeeps(names, name, count, i, j);
      } else {
        assert names[i][..j] == names[i] && name[..j] == name;
      }
    case _ =>
  }

  lemma WordRead(m: seq<Byte>, names: seq<seq<Byte>>, i: nat)
    requires Visible(m, names) && i < |names|
    ensures |m| == SIZE && TocOffset(i) + 4 <= SIZE && |names[i]| < NAME_MAX && HoldsName(m, i, names[i])
    ensures Word(m, TocOffset(i)) / LENGTH_UNIT == |names[i]| && Word(m, TocOffset(i)) % LENGTH_UNIT == Offset(i)
  {
    assert HoldsName(m, i, names[i]);
    hide Word;
    WordParts(|names[i]|, i);
  }

  lemma AtWordKeeps(names: seq<seq<Byte>>, name: seq<Byte>, count: nat, i: nat, entry: nat)
    requires i < count <= |names| && Passed(names, name, i)
    requires entry / LENGTH_UNIT == |names[i]| && entry % LENGTH_UNIT == Offset(i)
    ensures if entry / LENGTH_UNIT != |name| then WalkerOk(names, name, AtWord(count, i + 1))
            else WalkerOk(names, name, AtName(count, i, entry % LENGTH_UNIT, 0))
  {
    hide Offset;
    assert names[i][..0] == name[..0];
  }

  lemma AtNameKeeps(names: seq<seq<Byte>>, name: seq<Byte>, count: nat, i: nat, j: nat)
    requires WalkerOk(names, name, AtName(count, i, Offset(i), j)) && j < |name|
    ensures if names[i][j] != name[j] then WalkerOk(names, name, AtWord(count, i + 1))
            else WalkerOk(names, name, AtName(count, i, Offset(i), j + 1))
  {
    hide Offset;
    assert names[i][..j + 1] == names[i][..j] + [names[i][j]] && name[..j + 1] == name[..j] + [name[j]];
    assert names[i][j] != name[j] ==> names[i] != name;
  }

  lemma WordParts(length: nat, i: nat)
    requires length < NAME_MAX && i < COUNT_MAX
    ensures TocWord(length, Offset(i)) / LENGTH_UNIT == length && TocWord(length, Offset(i)) % LENGTH_UNIT == Offset(i)
  {
  }

  lemma NameByte(m: seq<Byte>, i: nat, name: seq<Byte>, j: nat)
    requires |m| == SIZE && i < COUNT_MAX && HoldsName(m, i, name) && j < |name|
    ensures Offset(i) + j < |m| && m[Offset(i) + j] == name[j]
  {
    hide Word;
    assert m[Offset(i)..Offset(i) + |name| + 1][j] == (name + [0])[j];
  }

  /** More published names do not disturb a reader. */
  lemma MoreNames(names: seq<seq<Byte>>, more: seq<seq<Byte>>, name: seq<Byte>, w: Walker)
    requires names <= more && WalkerOk(names, name, w)
    ensures WalkerOk(more, name, w)
  {
  }

  // ---------------------------------------------------------------- steps of the service

  lemma StoresFit(a: Area, name: seq<Byte>, value: Text)
    requires Accepted(a, name, value)
    ensures Fits(Stores(a, name, value), SIZE)
    ensures forall m: seq<Byte> | |m| == SIZE ::
              Apply(m, Stores(a, name, value))
                == if IndexOf(a.entries, name) < |a.entries| then SetOld(m, a, IndexOf(a.entries, name), value)
                   else SetNew(m, a, name, value)
  {
    hide SetOld, SetNew, OldStores, NewStores, Apply, Fits;
    var i := IndexOf(a.entries, name);
    forall m: seq<Byte> | |m| == SIZE
      ensures Fits(Stores(a, name, value), SIZE)
      ensures Apply(m, Stores(a, name, value)) == if i < |a.entries| then SetOld(m, a, i, value) else SetNew(m, a, name, value)
    {
      if i < |a.entries| {
        OldStored(m, a, i, value);
      } else {
        NewStored(m, a, name, value);
      }
    }
    assert |Zeros(SIZE)| == SIZE;
  }

  /** Of the stores of a call only the count of a new entry is not quiet, and the record is complete before it. */
  lemma StoreKeepsVisible(s: State)
    requires Visible(s.mem, s.names) && ServiceOk(s) && s.call.Some?
    requires var (n, v) := s.call.value; s.pos < |Stores(s.area, n, v)|
    ensures var (n, v) := s.call.value;
            var st := Stores(s.area, n, v)[s.pos];
            && st.o + |st.b| <= SIZE
            && (st.o == 0 <==> IndexOf(s.area.entries, n) == |s.area.entries| && s.pos + 2 == |Stores(s.area, n, v)|)
            && Visible(Put(s.mem, st.o, st.b), if st.o == 0 then s.names + [n] else s.names)
            && (st.o == 0 ==> Holds(s.mem, |s.names|, NewEntry(n, v)))
  {
    var (n, v) := s.call.value;
    if IndexOf(s.area.entries, n) < |s.area.entries| {
      UpdateKeepsVisible(s, n, v);
    } else {
      AllocationKeepsVisible(s, n, v);
    }
  }

  lemma UpdateKeepsVisible(s: State, n: seq<Byte>, v: Text)
    requires Visible(s.mem, s.names) && ServiceOk(s) && s.call == Some((n, v)) && s.pos < |Stores(s.area, n, v)|
    requires IndexOf(s.area.entries, n) < |s.area.entries|
    ensures var st := Stores(s.area, n, v)[s.pos];
            st.o > 0 && st.o + |st.b| <= SIZE && Visible(Put(s.mem, st.o, st.b), s.names)
  {
    hide Visible, Rep, Apply, Put, OldStores, Fits;
    var i := IndexOf(s.area.entries, n);
    OldIsQuiet(s.area, i, v, s.pos);
    OldNotAtZero(s.area, i, v, s.pos);
    QuietKeepsVisible(s.mem, s.names, Stores(s.area, n, v)[s.pos]);
  }

  lemma OldNotAtZero(a: Area, i: nat, value: Text, k: nat)
    requires i < |a.entries| <= COUNT_MAX && k < |OldStores(a, i, value)|
    ensures OldStores(a, i, value)[k].o > 0
  {
    hide WordBytes, U32, SetDirty, Bump;
  }

  lemma NewStoreAt(a: Area, name: seq<Byte>, value: Text, k: nat)
    requires |a.entries| < COUNT_MAX && |name| < NAME_MAX && k < |NewStores(a, name, value)|
    ensures var n, r, st := |a.entries|, Record(|a.entries|, name, value), NewStores(a, name, value);
            && |st| == |r| + 2 && st[..|r|] == r
            && (k < |r| ==> st[k] == r[k] && r[k].o > 0)
            && (k == |r| ==> st[k] == Store(0, WordBytes(n + 1)))
            && (k == |r| + 1 ==> st[k] == Store(4, WordBytes(U32(a.serial + 1))))
  {
    hide WordBytes, U32, TocWord;
  }

  lemma AllocationKeepsVisible(s: State, n: seq<Byte>, v: Text)
    requires Visible(s.mem, s.names) && ServiceOk(s) && s.call == Some((n, v)) && s.pos < |Stores(s.area, n, v)|
    requires IndexOf(s.area.entries, n) == |s.area.entries|
    ensures var st := Stores(s.area, n, v)[s.pos];
            && st.o + |st.b| <= SIZE
            && (st.o == 0 <==> s.pos + 2 == |Stores(s.area, n, v)|)
            && Visible(Put(s.mem, st.o, st.b), if st.o == 0 then s.names + [n] else s.names)
            && (st.o == 0 ==> Holds(s.mem, |s.names|, NewEntry(n, v)))
  {
    hide Visible, Put, NewStores, Fits, WordBytes, U32, Record, Holds, HoldsName, TocOffset;
    var a, count := s.area, |s.area.entries|;
    var r := Record(count, n, v);
    AllocationFacts(s, n, v);
    NewStoreAt(a, n, v, s.pos);
    hide ServiceOk, Stores;
    if s.pos < |r| {
      RecordIsQuiet(count, n, v, s.pos);
      QuietKeepsVisible(s.mem, s.names, r[s.pos]);
    } else if s.pos == |r| {
      HeldName(s.mem, count, n, v);
      CountPublishes(s.mem, s.names, n);
    } else {
      SerialIsQuiet(a.serial, |s.names|);
      QuietKeepsVisible(s.mem, s.names, Store(4, WordBytes(U32(a.serial + 1))));
    }
  }

  /** Where the service stands in an allocation; the record is complete when only count and serial are left. */
  lemma AllocationFacts(s: State, n: seq<Byte>, v: Text)
    requires Visible(s.mem, s.names) && ServiceOk(s) && s.call == Some((n, v)) && s.pos < |Stores(s.area, n, v)|
    requires IndexOf(s.area.entries, n) == |s.area.entries|
    ensures |s.area.entries| < COUNT_MAX && |n| < NAME_MAX && |s.mem| == SIZE
    ensures Stores(s.area, n, v) == NewStores(s.area, n, v)
    ensures |s.names| == |s.area.entries| + (if s.pos + 1 >= |NewStores(s.area, n, v)| then 1 else 0)
    ensures s.pos == |Record(|s.area.entries|, n, v)| ==> Holds(s.mem, |s.area.entries|, NewEntry(n, v))
  {
    VisibleSize(s.mem, s.names);
    hide Visible, Rep, Apply, NewStores, OldStores, Fits, Record, Holds, NewEntry;
    var r := Record(|s.area.entries|, n, v);
    NewStoreAt(s.area, n, v, s.pos);
    if s.pos == |r| {
      RecordComplete(s.start, s.area, n, v);
    }
  }

  lemma SerialIsQuiet(serial: nat, n: nat)
    ensures Quiet(Store(4, WordBytes(U32(serial + 1))), n)
  {
  }

  lemma HeldName(m: seq<Byte>, i: nat, name: seq<Byte>, value: Text)
    requires |m| == SIZE && i < COUNT_MAX && Holds(m, i, NewEntry(name, value))
    ensures HoldsName(m, i, name)
  {
  }

  lemma RecordComplete(m: seq<Byte>, a: Area, name: seq<Byte>, value: Text)
    requires Rep(m, a) && |a.entries| < COUNT_MAX && |name| < NAME_MAX
    ensures var r := Record(|a.entries|, name, value);
            Fits(r, SIZE) && Holds(Apply(m, r), |a.entries|, NewEntry(name, value))
  {
    hide Put, Record, NewRecord, WordBytes, U32, TocWord, Holds, Apply, Fits, NewEntry, HoldsAll, Header, AreaOk, Blank;
    RecordStored(m, |a.entries|, name, value);
    NewEntryStores(m, |a.entries|, name, value);
  }

  lemma ServeKeeps(s: State, name: seq<Byte>, value: Text)
    requires Visible(s.mem, s.names) && ServiceOk(s)
    ensures var s' := ServeNext(s, name, value);
            Visible(s'.mem, s'.names) && ServiceOk(s') && s.names <= s'.names && s'.readers == s.readers
  {
    VisibleSize(s.mem, s.names);
    hide Visible, ServiceOk, Rep, Apply, Fits, Put, Stores, After, NulFree, Accepted;
    match s.call
    case None =>
      if NulFree(name) && Accepted(s.area, name, value) {
        CallBegins(s, name, value);
      }
    case Some((n, v)) =>
      if s.pos < |Stores(s.area, n, v)| {
        StoreKeepsVisible(s);
        StoreMade(s);
      } else {
        CallEnds(s, n, v);
      }
  }

  lemma CallBegins(s: State, name: seq<Byte>, value: Text)
    requires Visible(s.mem, s.names) && ServiceOk(s) && s.call.None? && NulFree(name) && Accepted(s.area, name, value)
    ensures ServiceOk(s.(call := Some((name, value)), start := s.mem, pos := 0))
  {
    hide Rep, OldStores, NewStores, Visible, NulFree, Accepted;
    StoresFit(s.area, name, value);
    StoresCount(s.area, name, value);
    assert Stores(s.area, name, value)[..0] == [];
  }

  lemma StoresCount(a: Area, name: seq<Byte>, value: Text)
    requires Accepted(a, name, value)
    ensures |Stores(a, name, value)| > 2
  {
    hide WordBytes, U32, TocWord, SetDirty, Bump;
  }

  lemma StoreMade(s: State)
    requires Visible(s.mem, s.names) && ServiceOk(s) && s.call.Some?
    requires var (n, v) := s.call.value; s.pos < |Stores(s.area, n, v)|
    requires var (n, v) := s.call.value;
             var st := Stores(s.area, n, v)[s.pos];
             && st.o + |st.b| <= SIZE
             && (st.o == 0 <==> IndexOf(s.area.entries, n) == |s.area.entries| && s.pos + 2 == |Stores(s.area, n, v)|)
    ensures ServiceOk(ServeNext(s, [], []))
  {
    hide Rep, Stores, Visible, NulFree, Accepted, Put, IndexOf;
    var (n, v) := s.call.value;
    var stores := Stores(s.area, n, v);
    assert stores[..s.pos + 1][..s.pos] == stores[..s.pos];
    VisibleSize(s.mem, s.names);
  }

  lemma VisibleSize(m: seq<Byte>, names: seq<seq<Byte>>)
    requires Visible(m, names)
    ensures |m| == SIZE
  {
  }

  lemma CallEnds(s: State, n: seq<Byte>, v: Text)
    requires Visible(s.mem, s.names) && ServiceOk(s) && s.call == Some((n, v)) && s.pos == |Stores(s.area, n, v)|
    ensures ServiceOk(s.(area := After(s.area, n, v), call := None))
  {
    hide Stores, Apply, Fits, Rep, Visible, NulFree, Accepted, After, IndexOf;
    var stores, a := Stores(s.area, n, v), s.area;
    assert stores[..s.pos] == stores;
    StoredRep(s.start, a, n, v);
    RepArea(s.start, a);
    AfterIs(a, n, v);
    StoresCount(a, n, v);
  }

  lemma RepArea(m: seq<Byte>, a: Area)
    requires Rep(m, a)
    ensures |m| == SIZE && AreaOk(a)
  {
  }

  /** All stores of a call together make the memory of the table that the call makes. */
  lemma StoredRep(m: seq<Byte>, a: Area, n: seq<Byte>, v: Text)
    requires Rep(m, a) && NulFree(n) && Accepted(a, n, v)
    ensures Fits(Stores(a, n, v), SIZE) && Rep(Apply(m, Stores(a, n, v)), After(a, n, v))
  {
    hide Set, IndexOf, Rep, AreaOk, Stores, SetOld, SetNew, Apply, Fits, NulFree, After, Updated, U32, NewEntry, NamesOf;
    RepArea(m, a);
    StoresFit(a, n, v);
    SetKeepsArea(a, n, v);
    AfterIs(a, n, v);
    var i := IndexOf(a.entries, n);
    if i < |a.entries| {
      SetOldRep(m, a, i, v);
    } else {
      SetNewRep(m, a, n, v);
    }
  }

  lemma AfterIs(a: Area, name: seq<Byte>, value: Text)
    requires AreaOk(a) && Accepted(a, name, value)
    ensures var i := IndexOf(a.entries, name);
            && After(a, name, value) == Set(a, name, value).0
            && After(a, name, value) ==
                 if i < |a.entries|
                 then Area(a.entries[i := Entry(a.entries[i].name, Updated(a.entries[i].info, value), value)], U32(a.serial + 1))
                 else Area(a.entries + [NewEntry(name, value)], U32(a.serial + 1))
    ensures NamesOf(After(a, name, value)) == if IndexOf(a.entries, name) < |a.entries| then NamesOf(a) else NamesOf(a) + [name]
  {
    assert forall e | e in a.entries :: EntryOk(e);
    hide Updated, U32;
  }

  // ---------------------------------------------------------------- every schedule

  lemma NextKeepsInv(s: State, e: Step)
    requires Inv(s)
    ensures Inv(Next(s, e)) && s.names <= Next(s, e).names
  {
    hide Visible, ServiceOk, WalkerOk, ServeNext, ReadNext;
    match e
    case Serve(name, value) =>
      ServeKeeps(s, name, value);
      var s' := ServeNext(s, name, value);
      forall r | 0 <= r < |s.readers|
        ensures WalkerOk(s'.names, s.readers[r].name, s.readers[r].walker)
      {
        MoreNames(s.names, s'.names, s.readers[r].name, s.readers[r].walker);
      }
    case Read(r) =>
      if r < |s.readers| {
        ReadKeeps(s.mem, s.names, s.readers[r].name, s.readers[r].walker);
        SameService(s, Next(s, e));
      }
  }

  lemma SameService(s: State, s': State)
    requires ServiceOk(s) && s' == s.(readers := s'.readers)
    ensures ServiceOk(s')
  {
    hide Rep, Stores, Apply;
  }

  lemma {:induction false} ExecKeepsInv(s: State, es: seq<Step>)
    requires Inv(s)
    ensures Inv(Exec(s, es)) && s.names <= Exec(s, es).names
    decreases |es|
  {
    hide Inv;
    if es != [] {
      NextKeepsInv(s, es[0]);
      hide Next;
      ExecKeepsInv(Next(s, es[0]), es[1..]);
    }
  }

  lemma SameReaders(s: State, e: Step)
    ensures |Next(s, e).readers| == |s.readers| && forall r | 0 <= r < |s.readers| :: Next(s, e).readers[r].name == s.readers[r].name
  {
    hide Stores, Accepted, After, ReadNext;
  }

  /** An idle service with its table, and readers that have not begun */
  function Fresh(m: seq<Byte>, a: Area, lookups: seq<seq<Byte>>): State {
    State(m, a, None, m, 0, NamesOf(a), seq(|lookups|, i requires 0 <= i < |lookups| => Search(lookups[i], AtCount)))
  }

  /**
   Under every schedule of the service's stores, for any calls, and of the reads of any readers: a reader never leaves the
   area, an entry that it finds is published under its name, with none of that name before it, and a name it does
   not find is none of those that were published when it read the count.
   */
  lemma LookupsAreSound(m: seq<Byte>, a: Area, lookups: seq<seq<Byte>>, es: seq<Step>, r: nat)
    requires Rep(m, a) && r < |lookups|
    ensures var s := Exec(Fresh(m, a, lookups), es);
            && Inv(s) && |s.readers| == |lookups| && NamesOf(a) <= s.names
            && s.readers[r].name == lookups[r]
            && match s.readers[r].walker
               case FoundAt(count, i) =>
                 i < count <= |s.names| && s.names[i] == lookups[r] && forall k | 0 <= k < i :: s.names[k] != lookups[r]
               case NotThere(count) => count <= |s.names| && forall k | 0 <= k < count :: s.names[k] != lookups[r]
               case Astray => false
               case _ => true
  {
    FreshInv(m, a, lookups);
    ExecKeepsInv(Fresh(m, a, lookups), es);
    ExecKeepsLookups(Fresh(m, a, lookups), es);
    var s := Exec(Fresh(m, a, lookups), es);
    assert WalkerOk(s.names, s.readers[r].name, s.readers[r].walker);
    hide Exec, Visible, ServiceOk;
  }

  predicate Ended(w: Walker) {
    w.FoundAt? || w.NotThere?
  }

  /** The reads that k entries can take */
  function Cost(k: nat, length: nat): nat {
    if k == 0 then 0 else Cost(k - 1, length) + (length + 2)
  }

  lemma {:induction false} CostIs(k: nat, length: nat)
    ensures Cost(k, length) == k * (length + 2)
  {
    if k > 0 {
      CostIs(k - 1, length);
      assert k * (length + 2) == (k - 1) * (length + 2) + (length + 2);
    }
  }

  lemma {:induction false} CostGrows(j: nat, k: nat, length: nat)
    requires j <= k
    ensures Cost(j, length) <= Cost(k, length)
  {
    if j < k {
      CostGrows(j, k - 1, length);
    }
  }

  /** How many more reads a lookup of a name of this length can take */
  function ReadsLeft(length: nat, w: Walker): int {
    match w
    case AtCount => 2 + Cost(247, length)
    case AtWord(count, i) => if i <= count then 1 + Cost(count - i, length) else 0
    case AtName(count, i, _, j) => if i < count then 1 + Cost(count - i - 1, length) + (length + 1 - j) else 0
    case _ => 0
  }

  /** What one read of a lookup can lead to */
  predicate Follows(w: Walker, w': Walker, length: nat) {
    match w
    case AtCount => w'.AtWord? && w'.count <= 247 && w'.i == 0
    case AtWord(count, i) =>
      i <= count && (Ended(w') || (i < count && (w' == AtWord(count, i + 1) || (w'.AtName? && w'.count == count && w'.i == i && w'.j == 0))))
    case AtName(count, i, o, j) =>
      i < count && j <= length && (Ended(w') || w' == AtWord(count, i + 1) || (j < length && w' == AtName(count, i, o, j + 1)))
    case _ => false
  }

  lemma ReadFollows(m: seq<Byte>, names: seq<seq<Byte>>, name: seq<Byte>, w: Walker)
    requires Visible(m, names) && WalkerOk(names, name, w) && !Ended(w)
    ensures Follows(w, ReadNext(m, name, w), |name|)
  {
    ReadKeeps(m, names, name, w);
    CountBound(m, names);
    hide Visible, Word, TocOffset, Offset, Passed;
  }

  lemma ReadSpends(w: Walker, w': Walker, length: nat)
    requires Follows(w, w', length)
    ensures 0 <= ReadsLeft(length, w') < ReadsLeft(length, w)
  {
    if w.AtCount? {
      CostGrows(w'.count, 247, length);
    }
  }

  lemma CountBound(m: seq<Byte>, names: seq<seq<Byte>>)
    requires Visible(m, names)
    ensures |names| <= 247
  {
  }

  /** How many of the steps are reads of this reader */
  function OwnReads(es: seq<Step>, r: nat): nat {
    if es == [] then 0 else (if es[0] == Read(r) then 1 else 0) + OwnReads(es[1..], r)
  }

  lemma {:induction false} OwnReadsSpend(s: State, es: seq<Step>, r: nat)
    requires Inv(s) && r < |s.readers|
    ensures var s' := Exec(s, es); var length := |s.readers[r].name|;
            && r < |s'.readers|
            && (!Ended(s'.readers[r].walker) ==> ReadsLeft(length, s'.readers[r].walker) <= ReadsLeft(length, s.readers[r].walker) - OwnReads(es, r))
    decreases |es|
  {
    hide Inv, Next, ReadsLeft;
    if es != [] {
      NextKeepsInv(s, es[0]);
      OneStepSpends(s, es[0], r);
      OwnReadsSpend(Next(s, es[0]), es[1..], r);
      if Ended(Next(s, es[0]).readers[r].walker) {
        EndedStays(Next(s, es[0]), es[1..], r);
      }
    }
  }

  lemma OneStepSpends(s: State, e: Step, r: nat)
    requires Inv(s) && r < |s.readers|
    ensures var s' := Next(s, e);
            && r < |s'.readers| && s'.readers[r].name == s.readers[r].name
            && (e != Read(r) ==> s'.readers[r] == s.readers[r])
            && (e == Read(r) && Ended(s.readers[r].walker) ==> s'.readers[r] == s.readers[r])
            && (e == Read(r) && !Ended(s.readers[r].walker) ==>
                  ReadsLeft(|s.readers[r].name|, s'.readers[r].walker) <= ReadsLeft(|s.readers[r].name|, s.readers[r].walker) - 1)
  {
    SameReaders(s, e);
    hide Visible, ServiceOk, WalkerOk, ReadsLeft, Stores, Accepted, After;
    var s' := Next(s, e);
    if e == Read(r) && !Ended(s.readers[r].walker) {
      assert WalkerOk(s.names, s.readers[r].name, s.readers[r].walker);
      ReadFollows(s.mem, s.names, s.readers[r].name, s.readers[r].walker);
      hide ReadNext, Follows;
      ReadSpends(s.readers[r].walker, s'.readers[r].walker, |s.readers[r].name|);
    }
  }

  lemma {:induction false} EndedStays(s: State, es: seq<Step>, r: nat)
    requires r < |s.readers| && Ended(s.readers[r].walker)
    ensures r < |Exec(s, es).readers| && Ended(Exec(s, es).readers[r].walker)
    decreases |es|
  {
    if es != [] {
      hide Stores, Accepted, After;
      EndedStays(Next(s, es[0]), es[1..], r);
    }
  }

  /** Under every schedule a lookup ends after a bounded number of its own reads, so that it finds the name or misses it. */
  lemma LookupsEnd(m: seq<Byte>, a: Area, lookups: seq<seq<Byte>>, es: seq<Step>, r: nat)
    requires Rep(m, a) && r < |lookups| && OwnReads(es, r) >= 2 + 247 * (|lookups[r]| + 2)
    ensures var s := Exec(Fresh(m, a, lookups), es);
            && |s.readers| == |lookups|
            && (s.readers[r].walker.FoundAt? || s.readers[r].walker.NotThere?)
  {
    hide Inv, Exec, NamesOf, OwnReads;
    var s0 := Fresh(m, a, lookups);
    FreshInv(m, a, lookups);
    OwnReadsSpend(s0, es, r);
    ExecKeepsLookups(s0, es);
    ExecKeepsInv(s0, es);
    var s := Exec(s0, es);
    InvReader(s, r);
    StartLeft(|lookups[r]|);
    hide ReadsLeft;
    if !Ended(s.readers[r].walker) {
      LeftIsPositive(s.names, s.readers[r].name, s.readers[r].walker);
    }
  }

  lemma StartLeft(length: nat)
    ensures ReadsLeft(length, AtCount) == 2 + 247 * (length + 2)
  {
    CostIs(247, length);
  }

  lemma InvReader(s: State, r: nat)
    requires Inv(s) && r < |s.readers|
    ensures WalkerOk(s.names, s.readers[r].name, s.readers[r].walker)
  {
    hide Visible, ServiceOk, WalkerOk;
  }

  lemma LeftIsPositive(names: seq<seq<Byte>>, name: seq<Byte>, w: Walker)
    requires WalkerOk(names, name, w) && !Ended(w)
    ensures ReadsLeft(|name|, w) > 0
  {
    hide Passed, Offset;
  }

  lemma {:induction false} ExecKeepsLookups(s: State, es: seq<Step>)
    ensures |Exec(s, es).readers| == |s.readers|
    ensures forall r | 0 <= r < |s.readers| :: Exec(s, es).readers[r].name == s.readers[r].name
    decreases |es|
  {
    if es != [] {
      SameReaders(s, es[0]);
      hide Next;
      ExecKeepsLookups(Next(s, es[0]), es[1..]);
    }
  }

  lemma FreshInv(m: seq<Byte>, a: Area, lookups: seq<seq<Byte>>)
    requires Rep(m, a)
    ensures Inv(Fresh(m, a, lookups))
  {
    forall i | 0 <= i < |NamesOf(a)|
      ensures HoldsName(m, i, NamesOf(a)[i])
    {
      assert Holds(m, i, a.entries[i]);
    }
    hide HoldsName, Blank, Word;
  }

  function Serves(name: seq<Byte>, value: Text, n: nat): seq<Step> {
    seq(n, i => Serve(name, value))
  }

  lemma FirstOfServes(s: State, name: seq<Byte>, value: Text, n: nat)
    requires n > 0
    ensures Exec(s, Serves(name, value, n)) == Exec(ServeNext(s, name, value), Serves(name, value, n - 1))
  {
    hide ServeNext;
    assert Serves(name, value, n)[1..] == Serves(name, value, n - 1);
  }

  /** The service goes on from store to store, and is idle again after the last. */
  lemma {:induction false} CallProceeds(s: State, name: seq<Byte>, value: Text, left: nat)
    requires Inv(s) && s.call == Some((name, value)) && left == |Stores(s.area, name, value)| - s.pos
    ensures var s' := Exec(s, Serves(name, value, left + 1));
            s'.call == None && s'.area == After(s.area, name, value) && s'.readers == s.readers
    decreases left
  {
    hide Stores, After, Visible, WalkerOk, Exec, ServiceOk;
    FirstOfServes(s, name, value, left + 1);
    NextKeepsInv(s, Serve(name, value));
    if left > 0 {
      StoreKeepsVisible(s);
      VisibleSize(s.mem, s.names);
      hide Inv;
      CallProceeds(ServeNext(s, name, value), name, value, left - 1);
    } else {
      NoServes(ServeNext(s, name, value), name, value);
    }
  }

  lemma NoServes(s: State, name: seq<Byte>, value: Text)
    ensures Exec(s, Serves(name, value, 0)) == s
  {
  }

  lemma IdleFacts(s: State)
    requires Inv(s) && s.call == None
    ensures Rep(s.mem, s.area) && AreaOk(s.area) && s.names == NamesOf(s.area)
    ensures forall e | e in s.area.entries :: |e.info.value| == VALUE_MAX
  {
    hide WalkerOk, Visible, HoldsAll, Blank, Header;
    assert forall e | e in s.area.entries :: EntryOk(e);
  }

  lemma SetIsAccepted(a: Area, name: seq<Byte>, value: Text)
    requires AreaOk(a) && (forall e | e in a.entries :: |e.info.value| == VALUE_MAX) && Set(a, name, value).1 == 0
    ensures Accepted(a, name, value)
  {
    hide EntryOk;
  }

  /** A call of the idle service that is left alone makes the table that legacy_property_set makes. */
  lemma UndisturbedCall(s: State, name: seq<Byte>, value: Text)
    requires Inv(s) && s.call == None && NulFree(name)
    requires AreaOk(s.area) && (forall e | e in s.area.entries :: |e.info.value| == VALUE_MAX) && Set(s.area, name, value).1 == 0
    ensures var s' := Exec(s, Serves(name, value, |Stores(s.area, name, value)| + 2));
            s'.call == None && s'.area == Set(s.area, name, value).0 && Rep(s'.mem, s'.area) && s'.names == NamesOf(s'.area)
  {
    hide Inv, Exec, Set, Stores, AreaOk, After, NulFree, Accepted, Serves;
    SetIsAccepted(s.area, name, value);
    AfterIs(s.area, name, value);
    var left := |Stores(s.area, name, value)|;
    FirstOfServes(s, name, value, left + 2);
    NextKeepsInv(s, Serve(name, value));
    CallProceeds(ServeNext(s, name, value), name, value, left);
    ExecKeepsInv(s, Serves(name, value, left + 2));
    IdleFacts(Exec(s, Serves(name, value, left + 2)));
  }

  /** The count that a reader reads is the number of published entries, and each of these was complete when it was published. */
  lemma PublishedIsComplete(s: State, e: Step)
    requires Inv(s) && |Next(s, e).names| > |s.names|
    ensures e.Serve? && s.call.Some? && Next(s, e).names == s.names + [s.call.value.0]
    ensures |s.names| < COUNT_MAX && Holds(s.mem, |s.names|, NewEntry(s.call.value.0, s.call.value.1))
  {
    hide Visible, Holds, HoldsName, Rep;
    if e.Serve? && s.call.Some? && s.pos < |Stores(s.area, s.call.value.0, s.call.value.1)| {
      StoreKeepsVisible(s);
      MoreVisible(s.mem, s.names, Next(s, e).mem, Next(s, e).names);
    }
  }

  lemma MoreVisible(m: seq<Byte>, names: seq<seq<Byte>>, m': seq<Byte>, names': seq<seq<Byte>>)
    requires Visible(m, names) && Visible(m', names') && |names'| > |names|
    ensures |names| < COUNT_MAX && |m| == SIZE
  {
  }
}
