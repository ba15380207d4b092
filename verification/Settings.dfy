/**
 infomanager.cpp: the file in which a settings map is kept.  Every name and every value is written as its
 length, a 16-bit number, followed by its characters; both count the terminating NUL.
 */
module Settings {
  import opened Machine
  import opened CText

  // ---------------------------------------------------------------- the order of std::map

  /** a comes before b */
  predicate Below(a: string, b: string)
    decreases |a|
  {
    b != "" && (a == "" || a[0] < b[0] || (a[0] == b[0] && Below(a[1..], b[1..])))
  }

  lemma {:induction false} BelowTransitive(a: string, b: string, c: string)
    requires Below(a, b) && Below(b, c)
    ensures Below(a, c)
    decreases |a|
  {
    if a != "" && a[0] == b[0] == c[0] {
      BelowTransitive(a[1..], b[1..], c[1..]);
    }
  }

  lemma {:induction false} BelowTotal(a: string, b: string)
    ensures a == b || Below(a, b) || Below(b, a)
    ensures !(Below(a, b) && Below(b, a)) && !Below(a, a)
    decreases |a|
  {
    if a != "" {
      BelowTotal(a[1..], a[1..]);
    }
    if a != "" && b != "" && a[0] == b[0] {
      BelowTotal(a[1..], b[1..]);
      assert a == [a[0]] + a[1..] && b == [b[0]] + b[1..];
    }
  }

  predicate IsLeast(k: string, s: set<string>) {
    k in s && forall o | o in s :: o == k || Below(k, o)
  }

  lemma {:induction false} LeastExists(s: set<string>)
    requires s != {}
    ensures exists k :: IsLeast(k, s)
    decreases |s|
  {
    var x :| x in s;
    if s == {x} {
      assert IsLeast(x, s);
    } else {
      LeastExists(s - {x});
      var y :| IsLeast(y, s - {x});
      BelowTotal(x, y);
      var k := if Below(x, y) then x else y;
      forall o | o in s
        ensures o == k || Below(k, o)
      {
        if Below(x, y) && Below(y, o) {
          BelowTransitive(x, y, o);
        }
      }
      assert IsLeast(k, s);
    }
  }

  ghost function Least(s: set<string>): (k: string)
    requires s != {}
    ensures IsLeast(k, s)
  {
    LeastExists(s);
    var k :| IsLeast(k, s);
    k
  }

  lemma LeastIs(s: set<string>, k: string)
    requires IsLeast(k, s)
    ensures k == Least(s)
  {
    BelowTotal(k, Least(s));
  }

  /** The keys in the order in which a std::map is iterated over */
  ghost function Ordered(s: set<string>): seq<string>
    decreases |s|
  {
    if s == {} then [] else [Least(s)] + Ordered(s - {Least(s)})
  }

  lemma {:induction false} OrderedIsAscending(s: set<string>)
    ensures forall i, j | 0 <= i < j < |Ordered(s)| :: Below(Ordered(s)[i], Ordered(s)[j])
    ensures forall k :: k in Ordered(s) <==> k in s
    ensures |Ordered(s)| == |s|
    decreases |s|
  {
    if s != {} {
      var k, rest := Least(s), Ordered(s - {Least(s)});
      var all := Ordered(s);
      OrderedIsAscending(s - {k});
      assert all == [k] + rest;
      forall i, j | 0 <= i < j < |all|
        ensures Below(all[i], all[j])
      {
        assert all[j] == rest[j - 1] && rest[j - 1] in rest;
        assert i > 0 ==> all[i] == rest[i - 1];
      }
      forall x
        ensures x in all <==> x in s
      {
        assert x in all <==> x == k || x in rest;
      }
    }
  }

  // ---------------------------------------------------------------- writing

  function U16(n: nat): string
    requires n < 65536
  {
    [(n % 256) as char, (n / 256) as char]
  }

  /** The length as it is cast to an unsigned short, and that many characters of c_str() */
  function Field(s: string): string {
    var length := (|s| % 65536 + 1) % 65536;
    U16(length) + (s + "\0")[..length]
  }

  function Body(m: map<string, string>, keys: seq<string>): string
    requires forall k | k in keys :: k in m
  {
    if keys == [] then "" else Field(keys[0]) + Field(m[keys[0]]) + Body(m, keys[1..])
  }

  /** The version, if there is one, as the four bytes of an int */
  function Header(version: nat): string
    requires version < TWO32
  {
    if version == 0 then "" else U16(version % 65536) + U16(version / 65536)
  }

  // ---------------------------------------------------------------- reading

  datatype FieldRead = NoField | FieldRead(text: string, rest: string)

  /** One field; `junk` is what the byte behind the characters read happens to hold. */
  function ReadField(file: string, junk: nat -> char): FieldRead {
    if |file| < 2 then NoField
    else
      var length := file[0] as int + 256 * file[1] as int;
      if length >= 512 || |file| < 2 + length then NoField
      else
        var buffer := file[2..2 + length] + [junk(|file|)] + "\0";
        assert buffer[|buffer| - 1] == '\0';
        FieldRead(CStr(buffer), file[2 + length..])
  }

  /** The loop of LoadValues: it ends at the first field that cannot be read. */
  function Load(file: string, junk: nat -> char, m: map<string, string>): map<string, string>
    decreases |file|
  {
    var name := ReadField(file, junk);
    if name.NoField? then m
    else
      var value := ReadField(name.rest, junk);
      if value.NoField? then m else Load(value.rest, junk, m[name.text := value.text])
  }

  // ---------------------------------------------------------------- round trip

  predicate Small(s: string) {
    |s| <= 510
  }

  predicate Restorable(s: string) {
    Small(s) && '\0' !in s
  }

  lemma FieldParts(s: string, rest: string)
    requires |s| < 65535
    ensures var f := Field(s) + rest;
            && |f| == |s| + 3 + |rest| && f[0] as int + 256 * f[1] as int == |s| + 1
            && f[2..|s| + 3] == s + "\0" && f[|s| + 3..] == rest
  {
    assert (|s| % 65536 + 1) % 65536 == |s| + 1;
    assert (s + "\0")[..|s| + 1] == s + "\0";
  }

  /** A small string is read as the C string it is, a larger one is not read. */
  lemma ReadWritten(s: string, rest: string, junk: nat -> char)
    requires |s| < 65535
    ensures var r := ReadField(Field(s) + rest, junk);
            if Small(s) then r.FieldRead? && r.rest == rest && ('\0' !in s ==> r.text == s) && '\0' !in r.text else r.NoField?
  {
    FieldParts(s, rest);
    hide Field;
    if Small(s) {
      var f := Field(s) + rest;
      var buffer := f[2..2 + (|s| + 1)] + [junk(|f|)] + "\0";
      assert buffer[|buffer| - 1] == '\0';
      if '\0' !in s {
        assert buffer[..|s|] == s && buffer[|s|] == '\0';
        CStrIs(buffer, s);
      }
    }
  }

  predicate Oversized(m: map<string, string>, k: string)
    requires k in m
  {
    !Small(k) || !Small(m[k])
  }

  /** How many entries stand in front of the first oversized one */
  function Fitting(m: map<string, string>, keys: seq<string>): (n: nat)
    requires forall k | k in keys :: k in m
    ensures n <= |keys| && (n < |keys| ==> Oversized(m, keys[n]))
    ensures forall i | 0 <= i < n :: !Oversized(m, keys[i])
  {
    if keys == [] || Oversized(m, keys[0]) then 0 else 1 + Fitting(m, keys[1..])
  }

  /** The entries of m for some keys */
  function Only(m: map<string, string>, keys: set<string>): map<string, string> {
    map k | k in m && k in keys :: m[k]
  }

  function KeySet(keys: seq<string>): set<string> {
    set k | k in keys
  }

  predicate Plain(m: map<string, string>, k: string)
    requires k in m
  {
    '\0' !in k && '\0' !in m[k] && |k| < 65535 && |m[k]| < 65535
  }

  lemma BodyStep(m: map<string, string>, keys: seq<string>)
    requires keys != [] && forall k | k in keys :: k in m
    ensures Body(m, keys) == Field(keys[0]) + (Field(m[keys[0]]) + Body(m, keys[1..]))
  {
  }

  /** One turn of the loop of LoadValues */
  lemma LoadStep(m: map<string, string>, keys: seq<string>, junk: nat -> char, m0: map<string, string>)
    requires keys != [] && forall k | k in keys :: k in m
    requires Plain(m, keys[0])
    ensures var k := keys[0];
            Load(Body(m, keys), junk, m0) == if Oversized(m, k) then m0 else Load(Body(m, keys[1..]), junk, m0[k := m[k]])
  {
    hide Field, ReadField;
    var k, tail := keys[0], Body(m, keys[1..]);
    BodyStep(m, keys);
    ReadWritten(k, Field(m[k]) + tail, junk);
    ReadWritten(m[k], tail, junk);
  }

  /** Loading what was saved overrides the store with the entries before the first oversized one. */
  lemma {:induction false} LoadBody(m: map<string, string>, keys: seq<string>, junk: nat -> char, m0: map<string, string>)
    requires forall k | k in keys :: k in m && Plain(m, k)
    ensures Load(Body(m, keys), junk, m0) == m0 + Only(m, KeySet(keys[..Fitting(m, keys)]))
    decreases |keys|
  {
    hide Load, Body, Plain, Only, KeySet;
    if keys == [] {
      NothingSaved(m, m0, keys, junk);
    } else {
      var k, n := keys[0], Fitting(m, keys[1..]);
      LoadStep(m, keys, junk, m0);
      if Oversized(m, k) {
        NoKeys(m, m0, keys);
      } else {
        LoadBody(m, keys[1..], junk, m0[k := m[k]]);
        assert keys[..n + 1] == [k] + keys[1..][..n];
        KeySetStep(m, m0, k, keys[1..][..n]);
      }
    }
  }

  lemma NothingSaved(m: map<string, string>, m0: map<string, string>, keys: seq<string>, junk: nat -> char)
    requires keys == []
    ensures Load(Body(m, keys), junk, m0) == m0 == m0 + Only(m, KeySet(keys[..0]))
  {
  }

  lemma NoKeys(m: map<string, string>, m0: map<string, string>, keys: seq<string>)
    ensures m0 == m0 + Only(m, KeySet(keys[..0]))
  {
  }

  lemma KeySetStep(m: map<string, string>, m0: map<string, string>, k: string, keys: seq<string>)
    requires k in m
    ensures m0[k := m[k]] + Only(m, KeySet(keys)) == m0 + Only(m, KeySet([k] + keys))
  {
    assert KeySet([k] + keys) == {k} + KeySet(keys);
  }

  // ---------------------------------------------------------------- whole files

  /** Neither the entry for k nor one in front of it is oversized. */
  ghost predicate InFront(m: map<string, string>, k: string)
    requires k in m
  {
    !Oversized(m, k) && forall o | o in m && Below(o, k) :: !Oversized(m, o)
  }

  ghost function Restored(m: map<string, string>): map<string, string> {
    map k | k in m && InFront(m, k) :: m[k]
  }

  lemma FittingIsInFront(m: map<string, string>)
    ensures var keys := Ordered(m.Keys);
            (forall k | k in keys :: k in m) && Only(m, KeySet(keys[..Fitting(m, keys)])) == Restored(m)
  {
    hide Ordered, Fitting, InFront, Oversized;
    var keys := Ordered(m.Keys);
    OrderedIsAscending(m.Keys);
    var n := Fitting(m, keys);
    forall k | k in m
      ensures k in keys[..n] <==> InFront(m, k)
    {
      assert k in keys;
      var i :| 0 <= i < |keys| && keys[i] == k;
      FrontIndex(m, keys, n, i);
    }
    hide Below;
    FrontIsRestored(m, keys[..n]);
  }

  lemma FrontIsRestored(m: map<string, string>, front: seq<string>)
    requires forall k | k in m :: k in front <==> InFront(m, k)
    ensures Only(m, KeySet(front)) == Restored(m)
  {
    hide InFront;
  }

  lemma FrontIndex(m: map<string, string>, keys: seq<string>, n: nat, i: nat)
    requires forall k :: k in keys <==> k in m
    requires forall a, b | 0 <= a < b < |keys| :: Below(keys[a], keys[b])
    requires n == Fitting(m, keys) && i < |keys|
    ensures keys[i] in keys[..n] <==> i < n
    ensures InFront(m, keys[i]) <==> i < n
  {
    forall a | 0 <= a < |keys|
      ensures Below(keys[a], keys[i]) <==> a < i
      ensures keys[a] == keys[i] <==> a == i
    {
      BelowTotal(keys[a], keys[i]);
    }
    if i < n {
      assert keys[..n][i] == keys[i];
      forall o | o in m && Below(o, keys[i])
        ensures !Oversized(m, o)
      {
        var a :| 0 <= a < |keys| && keys[a] == o;
      }
    } else {
      assert n < |keys| && Oversized(m, keys[n]);
      assert n < i ==> Below(keys[n], keys[i]);
    }
  }

  ghost function Saved(version: nat, m: map<string, string>): string
    requires version < TWO32
  {
    OrderedIsAscending(m.Keys);
    Header(version) + Body(m, Ordered(m.Keys))
  }

  function LoadFile(version: nat, file: string, junk: nat -> char, m: map<string, string>): map<string, string>
    requires version < TWO32
  {
    if version == 0 then Load(file, junk, m)
    else if |file| < 4 || file[..4] != Header(version) then m
    else Load(file[4..], junk, m)
  }

  /** The header is the version as a little-endian number. */
  lemma HeaderIs(version: nat, b: string)
    requires 0 < version < TWO32 && |b| == 4 && forall i | 0 <= i < 4 :: b[i] as int < 256
    ensures b == Header(version) <==>
            b[0] as int + 0x100 * b[1] as int + 0x1_0000 * b[2] as int + 0x100_0000 * b[3] as int == version
  {
    var low, high := version % 65536, version / 65536;
    assert Header(version) == [(low % 256) as char, (low / 256) as char, (high % 256) as char, (high / 256) as char];
    var value := b[0] as int + 0x100 * b[1] as int + 0x1_0000 * b[2] as int + 0x100_0000 * b[3] as int;
    if value == version {
      BytesOf(b[0] as int, b[1] as int, b[2] as int, b[3] as int, version);
    }
  }

  lemma BytesOf(b0: nat, b1: nat, b2: nat, b3: nat, n: nat)
    requires b0 < 256 && b1 < 256 && b2 < 256 && b3 < 256 && n == b0 + 0x100 * b1 + 0x1_0000 * b2 + 0x100_0000 * b3
    ensures n % 65536 == b0 + 0x100 * b1 && n / 65536 == b2 + 0x100 * b3
    ensures (b0 + 0x100 * b1) % 256 == b0 && (b0 + 0x100 * b1) / 256 == b1
    ensures (b2 + 0x100 * b3) % 256 == b2 && (b2 + 0x100 * b3) / 256 == b3
  {
  }

  /** Of any file, nothing is loaded unless it begins with the version that the store expects, if it expects one. */
  lemma VersionIsChecked(version: nat, file: string, junk: nat -> char, m: map<string, string>)
    requires 0 < version < TWO32 && forall i | 0 <= i < |file| :: file[i] as int < 256
    ensures LoadFile(version, file, junk, m) ==
            if |file| >= 4 && file[0] as int + 0x100 * file[1] as int + 0x1_0000 * file[2] as int + 0x100_0000 * file[3] as int == version
            then Load(file[4..], junk, m) else m
  {
    if |file| >= 4 {
      HeaderIs(version, file[..4]);
    }
  }

  /** A file that was saved with another version is left alone. */
  lemma OtherVersionRefused(version: nat, other: nat, m: map<string, string>, junk: nat -> char, m0: map<string, string>)
    requires 0 < version < TWO32 && 0 < other < TWO32 && other != version
    ensures LoadFile(version, Saved(other, m), junk, m0) == m0
  {
    SavedBegins(other, m);
    hide Saved, Load;
    var b := Header(other);
    HeaderIs(other, b);
    HeaderIs(version, b);
    hide Header;
  }

  lemma SavedBegins(version: nat, m: map<string, string>)
    requires 0 < version < TWO32
    ensures var b := Header(version);
            |b| == 4 && b <= Saved(version, m) && forall i | 0 <= i < 4 :: b[i] as int < 256
  {
    OrderedIsAscending(m.Keys);
    hide Ordered, Body;
  }

  /** The strings agree up to position k, and there a has ended or has the smaller character. */
  predicate DifferAt(a: string, b: string, k: nat) {
    k <= |a| && k < |b| && a[..k] == b[..k] && (k == |a| || a[k] < b[k])
  }

  lemma DifferFurther(a: string, b: string, k: nat)
    requires a != "" && b != "" && a[0] == b[0]
    ensures DifferAt(a, b, k + 1) <==> DifferAt(a[1..], b[1..], k)
  {
    if k < |a| && k + 1 < |b| {
      assert a[..k + 1] == [a[0]] + a[1..][..k] && b[..k + 1] == [b[0]] + b[1..][..k];
      assert a[1..][..k] == a[..k + 1][1..] && b[1..][..k] == b[..k + 1][1..];
    }
  }

  /** The order is the lexicographic one. */
  lemma {:induction false} BelowExactlyWhen(a: string, b: string)
    ensures Below(a, b) <==> exists k: nat :: DifferAt(a, b, k)
    decreases |a|
  {
    if a == "" || b == "" || a[0] != b[0] {
      assert DifferAt(a, b, 0) == Below(a, b);
      assert forall k: nat | DifferAt(a, b, k) :: k == 0 || a[..k][0] == b[..k][0];
    } else {
      BelowExactlyWhen(a[1..], b[1..]);
      hide DifferAt;
      forall k: nat
        ensures DifferAt(a, b, k + 1) <==> DifferAt(a[1..], b[1..], k)
      {
        DifferFurther(a, b, k);
      }
      NotAtFirst(a, b);
      if k: nat :| DifferAt(a, b, k) {
        assert DifferAt(a[1..], b[1..], k - 1);
      }
      if k: nat :| DifferAt(a[1..], b[1..], k) {
        assert DifferAt(a, b, k + 1);
      }
    }
  }

  lemma NotAtFirst(a: string, b: string)
    requires a != "" && b != "" && a[0] == b[0]
    ensures forall k: nat | DifferAt(a, b, k) :: k > 0
  {
  }

  lemma LoadSavedIsLoad(version: nat, m: map<string, string>, junk: nat -> char, m0: map<string, string>)
    requires version < TWO32 && forall k | k in Ordered(m.Keys) :: k in m
    ensures LoadFile(version, Saved(version, m), junk, m0) == Load(Body(m, Ordered(m.Keys)), junk, m0)
  {
    var file, body := Saved(version, m), Body(m, Ordered(m.Keys));
    if version != 0 {
      assert file[..4] == Header(version) && file[4..] == body;
    } else {
      assert file == body;
    }
  }

  /** Loading a saved file overrides the store with every entry up to the first oversized one in the order of the names. */
  lemma LoadSaved(version: nat, m: map<string, string>, junk: nat -> char, m0: map<string, string>)
    requires version < TWO32 && forall k | k in m :: Plain(m, k)
    ensures LoadFile(version, Saved(version, m), junk, m0) == m0 + Restored(m)
  {
    OrderedIsAscending(m.Keys);
    LoadSavedIsLoad(version, m, junk, m0);
    hide Load, Body, Only, KeySet, Fitting;
    LoadBody(m, Ordered(m.Keys), junk, m0);
    FittingIsInFront(m);
  }

  /** What can come out of a file */
  predicate Loadable(m: map<string, string>) {
    forall k | k in m :: '\0' !in k && '\0' !in m[k] && |k| <= 512 && |m[k]| <= 512
  }

  lemma {:induction false} LoadIsLoadable(file: string, junk: nat -> char, m: map<string, string>)
    requires Loadable(m)
    ensures Loadable(Load(file, junk, m))
    decreases |file|
  {
    var name := ReadField(file, junk);
    if name.FieldRead? {
      var value := ReadField(name.rest, junk);
      if value.FieldRead? {
        LoadIsLoadable(value.rest, junk, m[name.text := value.text]);
      }
    }
  }

  lemma SmallIsRestored(m: map<string, string>)
    ensures Restored(m) == m <==> forall k | k in m :: !Oversized(m, k)
  {
    if Restored(m) == m {
      forall k | k in m
        ensures !Oversized(m, k)
      {
        assert k in Restored(m);
      }
    }
  }

  /** A settings map survives exactly when its names and values have at most 510 characters and no NUL. */
  lemma RoundTripExactlyWhen(version: nat, m: map<string, string>, junk: nat -> char)
    requires version < TWO32
    ensures LoadFile(version, Saved(version, m), junk, map[]) == m
       <==> forall k | k in m :: Restorable(k) && Restorable(m[k])
  {
    hide Load, Body, LoadFile, Saved, Ordered, Restored;
    var result := LoadFile(version, Saved(version, m), junk, map[]);
    LoadedIsLoadable(version, m, junk);
    if Loadable(m) {
      PlainIfLoadable(m);
      LoadSaved(version, m, junk, map[]);
      assert result == map[] + Restored(m) == Restored(m);
      SmallIsRestored(m);
    }
  }

  lemma PlainIfLoadable(m: map<string, string>)
    requires Loadable(m)
    ensures forall k | k in m :: Plain(m, k)
  {
  }

  lemma LoadedIsLoadable(version: nat, m: map<string, string>, junk: nat -> char)
    requires version < TWO32
    ensures Loadable(LoadFile(version, Saved(version, m), junk, map[]))
  {
    OrderedIsAscending(m.Keys);
    LoadSavedIsLoad(version, m, junk, map[]);
    LoadIsLoadable(Body(m, Ordered(m.Keys)), junk, map[]);
  }
}
