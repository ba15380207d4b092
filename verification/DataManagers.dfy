/** data.cpp: settings in three layers, the constant ones over the persistent ones over all others. */
module DataManagers {
  import opened Machine
  import opened InfoManagers

  datatype Layers = Layers(constants: map<string, string>, persist: map<string, string>, data: map<string, string>)

  // ---------------------------------------------------------------- names

  predicate Wrapped(name: string) {
    |name| > 2 && name[0] == '%' && name[|name| - 1] == '%'
  }

  function Unwrapped(name: string): string {
    if Wrapped(name) then name[1..|name| - 1] else name
  }

  predicate IsProperty(name: string) {
    |name| > 9 && name[..9] == "property."
  }

  /** Names for which neither GetMagicValue nor the system properties answer */
  predicate Ordinary(name: string, magic: string -> Option<string>) {
    !Wrapped(name) && !IsProperty(name) && magic(name).None?
  }

  // ---------------------------------------------------------------- one store

  /** What the layers hold, seen as one map */
  function View(l: Layers): map<string, string> {
    l.data + l.persist + l.constants
  }

  /** A call of SetValue */
  datatype Call = Call(name: string, value: string, persist: bool)

  /** The call finds its name acceptable and not constant. */
  predicate Succeeds(l: Layers, c: Call) {
    !IsProperty(c.name) && Acceptable(c.name) && c.name !in l.constants
  }

  function Set(l: Layers, c: Call): Layers {
    if !Succeeds(l, c) then l
    else if c.persist || c.name in l.persist then l.(persist := l.persist[c.name := c.value])
    else l.(data := l.data[c.name := c.value])
  }

  function Run(l: Layers, calls: seq<Call>): Layers {
    if calls == [] then l else Set(Run(l, calls[..|calls| - 1]), calls[|calls| - 1])
  }

  /** The value that the last successful call for a name leaves, if there is one */
  function LastSet(constants: map<string, string>, calls: seq<Call>, name: string): Option<string> {
    if calls == [] then None
    else
      var c := calls[|calls| - 1];
      if c.name == name && Succeeds(Layers(constants, map[], map[]), c) then Some(c.value)
      else LastSet(constants, calls[..|calls| - 1], name)
  }

  function Lookup(m: map<string, string>, name: string): Option<string> {
    if name in m then Some(m[name]) else None
  }

  /** The layers are a representation of one map. */
  lemma SetRefinesMap(l: Layers, c: Call)
    ensures View(Set(l, c)) == if Succeeds(l, c) then View(l)[c.name := c.value] else View(l)
  {
  }

  /** After any calls a name holds what the last successful one stored, or what it held before. */
  lemma {:induction false} RunHoldsLastSet(l: Layers, calls: seq<Call>, name: string)
    ensures Run(l, calls).constants == l.constants
    ensures Lookup(View(Run(l, calls)), name)
         == var last := LastSet(l.constants, calls, name); if last.Some? then last else Lookup(View(l), name)
    decreases |calls|
  {
    if calls != [] {
      var before, c := Run(l, calls[..|calls| - 1]), calls[|calls| - 1];
      RunHoldsLastSet(l, calls[..|calls| - 1], name);
      SetRefinesMap(before, c);
    }
  }

  /** A constant name keeps its value through every run. */
  lemma {:induction false} ConstantsKeep(l: Layers, calls: seq<Call>, name: string)
    requires name in l.constants
    ensures Lookup(View(Run(l, calls)), name) == Some(l.constants[name]) && LastSet(l.constants, calls, name).None?
    decreases |calls|
  {
    RunHoldsLastSet(l, calls, name);
    if calls != [] {
      ConstantsKeep(l, calls[..|calls| - 1], name);
    }
  }

  /** From when a name is in the persistent layer, that layer answers for it and the data layer is not written. */
  lemma {:induction false} PersistentStays(l: Layers, calls: seq<Call>, name: string)
    requires name in l.persist && name !in l.constants
    ensures var r := Run(l, calls);
            && name in r.persist && Lookup(View(r), name) == Some(r.persist[name])
            && Lookup(r.data, name) == Lookup(l.data, name)
            && r.persist[name] == var last := LastSet(l.constants, calls, name); if last.Some? then last.value else l.persist[name]
    decreases |calls|
  {
    RunHoldsLastSet(l, calls, name);
    if calls != [] {
      PersistentStays(l, calls[..|calls| - 1], name);
      RunHoldsLastSet(l, calls[..|calls| - 1], name);
    }
  }

  // ---------------------------------------------------------------- reading

  /** What DataManager::GetValue finds */
  function Get(l: Layers, magic: string -> Option<string>, property: string -> string, name: string): Option<string> {
    var plain := Unwrapped(name);
    if magic(plain).Some? then magic(plain)
    else if IsProperty(plain) then Some(property(plain[9..]))
    else if plain in l.constants then Some(l.constants[plain])
    else if plain in l.persist then Some(l.persist[plain])
    else Lookup(l.data, plain)
  }

  /** For an ordinary name, GetValue returns what the last successful SetValue stored. */
  lemma GetAfterRun(l: Layers, calls: seq<Call>, magic: string -> Option<string>, property: string -> string, name: string)
    requires Ordinary(name, magic)
    ensures Get(Run(l, calls), magic, property, name)
         == var last := LastSet(l.constants, calls, name); if last.Some? then last else Get(l, magic, property, name)
  {
    RunHoldsLastSet(l, calls, name);
  }

  /** "%x%" stands for x. */
  lemma GetWrapped(l: Layers, magic: string -> Option<string>, property: string -> string, x: string)
    requires x != "" && !(|x| > 2 && x[0] == '%' && x[|x| - 1] == '%')
    ensures Get(l, magic, property, "%" + x + "%") == Get(l, magic, property, x)
  {
    var name := "%" + x + "%";
    assert name[1..|name| - 1] == x;
  }

  /** Behind "property." comes the name of a system property. */
  lemma GetProperty(l: Layers, magic: string -> Option<string>, property: string -> string, x: string)
    requires x != "" && magic("property." + x).None?
    ensures Get(l, magic, property, "property." + x) == Some(property(x))
  {
    var name := "property." + x;
    assert name[0] == "property."[0] == 'p' && name[..9] == "property." && name[9..] == x;
  }

  /** For other names a magic value goes before a constant, a constant before a persistent value, and that before the rest. */
  lemma GetInOrder(l: Layers, magic: string -> Option<string>, property: string -> string, name: string)
    requires name != "" && name[0] != '%' && !("property." < name)
    ensures Get(l, magic, property, name) ==
            if magic(name).Some? then magic(name)
            else if name in l.constants then Some(l.constants[name])
            else if name in l.persist then Some(l.persist[name])
            else if name in l.data then Some(l.data[name])
            else None
  {
    assert |name| > 9 && name[..9] == "property." ==> "property." < name;
  }

  /** System properties, constants, empty names and names that begin with a digit are not stored; everything else is. */
  lemma SucceedsExactlyWhen(l: Layers, c: Call)
    ensures !Succeeds(l, c) ==> Set(l, c) == l
    ensures Succeeds(l, c) && c.persist ==> Lookup(Set(l, c).persist, c.name) == Some(c.value)
    ensures !c.persist && c.name !in l.persist ==> Set(l, c).persist == l.persist
    ensures Succeeds(l, c) <==> !("property." < c.name) && c.name != "" && !('0' <= c.name[0] <= '9') && c.name !in l.constants
  {
    assert |c.name| > 9 && c.name[..9] == "property." <==> "property." < c.name;
  }

  lemma UnwrappedDiffers(name: string)
    requires Wrapped(name)
    ensures Unwrapped(name) != name
  {
    assert |Unwrapped(name)| == |name| - 2;
  }

  /** A successful SetValue is what GetValue returns next if and only if the name is ordinary, or the value was there all along. */
  lemma SetThenGetExactlyWhen(l: Layers, c: Call, magic: string -> Option<string>, property: string -> string)
    requires Succeeds(l, c)
    ensures Get(Set(l, c), magic, property, c.name) == Some(c.value)
       <==> Ordinary(c.name, magic) || Get(l, magic, property, c.name) == Some(c.value)
  {
    if Wrapped(c.name) {
      UnwrappedDiffers(c.name);
      assert Get(Set(l, c), magic, property, c.name) == Get(l, magic, property, c.name);
    }
  }

  /** "%x%" is stored under its whole name and looked for under "x". */
  lemma WrappedNameIsLost(property: string -> string)
    ensures var l := Layers(map[], map[], map[]);
            var c := Call("%x%", "1", false);
            && Succeeds(l, c) && View(Set(l, c)) == map["%x%" := "1"]
            && Get(Set(l, c), name => None, property, "%x%") == None
  {
    UnwrappedDiffers("%x%");
    assert Unwrapped("%x%") == "x";
  }

  // ---------------------------------------------------------------- the program

  class DataManager {
    const mConst: InfoManager
    const mPersist: InfoManager
    const mData: InfoManager

    constructor (c: InfoManager, p: InfoManager, d: InfoManager)
      requires c != p && c != d && p != d && !p.isConst && !d.isConst
      ensures mConst == c && mPersist == p && mData == d && Valid()
    {
      mConst, mPersist, mData := c, p, d;
    }

    predicate Valid()
      reads mPersist, mData
    {
      mConst != mPersist && mConst != mData && mPersist != mData && !mPersist.isConst && !mData.isConst
    }

    function State(): Layers
      reads mConst, mPersist, mData
    {
      Layers(mConst.values, mPersist.values, mData.values)
    }

    /** GetMagicValue and the system properties are given by `magic` and `property`. */
    method GetValue(name: string, magic: string -> Option<string>, property: string -> string, held: string)
      returns (ret: int, value: string)
      ensures var r := Get(State(), magic, property, name);
              if r.Some? then ret == 0 && value == r.value else ret == -1 && value == held
    {
      var local := name;
      if |local| > 2 && local[0] == '%' && local[|local| - 1] == '%' {
        local := local[1..];
        local := local[..|local| - 1];
        assert local == Unwrapped(name);
      }
      var m := magic(local);
      if m.Some? {
        return 0, m.value;
      }
      if |local| > 9 && local[..9] == "property." {
        return 0, property(local[9..]);
      }
      ret, value := mConst.GetValue(local, held);
      if ret == 0 {
        return;
      }
      ret, value := mPersist.GetValue(local, held);
      if ret == 0 {
        return;
      }
      ret, value := mData.GetValue(local, held);
    }

    /** `propertySet` is what property_set would return. */
    method SetValue(name: string, value: string, persist: bool, propertySet: int) returns (ret: int)
      requires Valid()
      modifies mPersist`values, mData`values
      ensures Valid() && State() == Set(old(State()), Call(name, value, persist))
      ensures ret == if IsProperty(name) then propertySet else if Succeeds(old(State()), Call(name, value, persist)) then 0 else -1
    {
      if |name| > 9 && name[..9] == "property." {
        return propertySet;
      }
      if |name| == 0 || ('0' <= name[0] && name[0] <= '9') {
        return -1;
      }
      var check, test := mConst.GetValue(name, "");
      if check == 0 {
        return -1;
      }
      if persist {
        var _ := mPersist.SetValue(name, value);
      } else {
        check, test := mPersist.GetValue(name, "");
        if check == 0 {
          var _ := mPersist.SetValue(name, value);
        } else {
          var _ := mData.SetValue(name, value);
        }
      }
      ret := 0;
    }
  }
}
