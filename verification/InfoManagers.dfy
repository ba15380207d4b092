/** infomanager.cpp: the class that keeps a settings map and its file. */
module InfoManagers {
  import opened Machine
  import opened CText
  import opened Settings

  /** No empty names, and none that begin with a digit */
  predicate Acceptable(name: string) {
    name != "" && !('0' <= name[0] <= '9')
  }

  /** The bytes are those of a string if they count it with its NUL, modulo 2^16, and hold as much of it. */
  lemma FieldIs(s: string, bytes: string)
    requires |bytes| == 2 + (|s| + 1) % 65536
    requires bytes[0] as int < 256 && bytes[1] as int < 256 && bytes[0] as int + 256 * bytes[1] as int == |bytes| - 2
    requires bytes[2..] <= s + "\0"
    ensures bytes == Field(s)
  {
    var n := |bytes| - 2;
    assert (|s| % 65536 + 1) % 65536 == n;
    TwoBytes(bytes[0] as int, bytes[1] as int);
    assert bytes[..2] == U16(n);
    hide U16;
    assert bytes == bytes[..2] + bytes[2..];
    assert bytes[2..] == (s + "\0")[..n];
  }

  lemma TwoBytes(b0: nat, b1: nat)
    requires b0 < 256
    ensures (b0 + 256 * b1) % 256 == b0 && (b0 + 256 * b1) / 256 == b1
  {
  }

  /** One length and that many characters, which for a string that can be restored is what LoadValues reads back. */
  method WriteField(s: string) returns (bytes: string)
    ensures |bytes| == 2 + (|s| + 1) % 65536
    ensures bytes[0] as int < 256 && bytes[1] as int < 256 && bytes[0] as int + 256 * bytes[1] as int == |bytes| - 2
    ensures bytes[2..] <= s + "\0"
    ensures |s| < 65535 ==> bytes[2..] == s + "\0"
    ensures Restorable(s) ==> forall rest, junk :: ReadField(bytes + rest, junk) == FieldRead(s, rest)
  {
    var length := |s| % 65536 + 1;
    length := length % 65536;
    var terminated := s + "\0";
    bytes := U16(length) + terminated[..length];
    assert bytes[2..] == terminated[..length];
    assert bytes == Field(s) by { FieldIs(s, bytes); }
    if Restorable(s) {
      forall rest, junk
        ensures ReadField(bytes + rest, junk) == FieldRead(s, rest)
      {
        ReadWritten(s, rest, junk);
      }
    }
  }

  /** A name and its value */
  method WriteEntry(name: string, value: string) returns (bytes: string)
    ensures bytes == Field(name) + Field(value)
  {
    hide Field, ReadField;
    var first := WriteField(name);
    FieldIs(name, first);
    var second := WriteField(value);
    FieldIs(value, second);
    bytes := first + second;
  }

  /** fread of a length, fread of so many characters into an array of 513, and the C string that is then in it */
  method ReadString(file: string, pos: nat, junk: nat -> char) returns (ok: bool, text: string, pos': nat)
    requires pos <= |file|
    ensures ok <==> ReadField(file[pos..], junk).FieldRead?
    ensures ok ==> pos < pos' <= |file| && ReadField(file[pos..], junk) == FieldRead(text, file[pos'..])
  {
    var left := |file| - pos;
    if left < 2 {
      return false, "", pos;
    }
    var length := file[pos] as int + 256 * file[pos + 1] as int;
    if length >= 512 || left - 2 < length {
      return false, "", pos;
    }
    text := ReadArray(file, pos + 2, length, junk(left));
    ReadFieldIs(file[pos..], length, junk);
    assert file[pos..][2..2 + length] == file[pos + 2..pos + 2 + length];
    assert file[pos..][2 + length..] == file[pos + 2 + length..];
    return true, text, pos + 2 + length;
  }

  lemma ReadFieldIs(file: string, length: nat, junk: nat -> char)
    requires |file| >= 2 && length == file[0] as int + 256 * file[1] as int && length < 512 && |file| >= 2 + length
    ensures var buffer := file[2..2 + length] + [junk(|file|)] + "\0";
            '\0' in buffer && ReadField(file, junk) == FieldRead(CStr(buffer), file[2 + length..])
  {
    var buffer := file[2..2 + length] + [junk(|file|)] + "\0";
    assert buffer[|buffer| - 1] == '\0';
  }

  /** `behind` is what the array holds behind the characters. */
  method ReadArray(file: string, pos: nat, length: nat, behind: char) returns (text: string)
    requires length < 512 && pos + length <= |file|
    ensures var buffer := file[pos..pos + length] + [behind] + "\0"; '\0' in buffer && text == CStr(buffer)
  {
    var buffer := new char[513];
    buffer[length] := behind;
    forall k | 0 <= k < length {
      buffer[k] := file[pos + k];
    }
    buffer[length + 1] := '\0';
    assert buffer[..length] == file[pos..pos + length];
    assert buffer[..length + 2] == file[pos..pos + length] + [behind] + "\0";
    text := TextOf(buffer, length + 1);
  }

  /** The assignment of a char array to a std::string */
  method TextOf(buffer: array<char>, last: nat) returns (text: string)
    requires last < buffer.Length && buffer[last] == '\0'
    ensures '\0' in buffer[..last + 1] && text == CStr(buffer[..last + 1])
  {
    var n := 0;
    while buffer[n] != '\0'
      invariant n <= last && '\0' !in buffer[..n]
      decreases last - n
    {
      n := n + 1;
    }
    text := buffer[..n];
    assert buffer[..last + 1][..n] == text;
    CStrIs(buffer[..last + 1], text);
  }

  class InfoManager {
    var fileName: string
    var fileVersion: nat
    var isConst: bool
    var values: map<string, string>

    constructor (name: string)
      ensures fileName == name && fileVersion == 0 && !isConst && values == map[]
    {
      fileName, fileVersion, isConst, values := name, 0, false, map[];
    }

    method SetConst()
      modifies this`isConst
      ensures isConst
    {
      isConst := true;
    }

    /** A constant store takes new names, but keeps the values of those it has. */
    method SetValue(name: string, value: string) returns (ret: int)
      modifies this`values
      ensures ret == if name == "" || '0' <= name[0] <= '9' then -1 else 0
      ensures values == if ret == -1 || (name in old(values) && isConst) then old(values) else old(values)[name := value]
    {
      if |name| == 0 || ('0' <= name[0] && name[0] <= '9') {
        return -1;
      }
      if name !in values {
        values := values[name := value];
      } else if !isConst {
        values := values[name := value];
      }
      ret := 0;
    }

    /** When the name is not there, the caller's variable keeps what it held. */
    method GetValue(name: string, held: string) returns (ret: int, value: string)
      ensures if name in values then ret == 0 && value == values[name] else ret == -1 && value == held
    {
      if name !in values {
        return -1, held;
      }
      return 0, values[name];
    }

    /** The entries in the order of their names; `canOpen` says whether fopen succeeds. */
    method SaveValues(canOpen: bool) returns (ret: int, file: Option<string>)
      requires fileVersion < TWO32
      ensures ret == (if fileName != "" && canOpen then 0 else -1)
      ensures file == if ret == 0 then Some(Saved(fileVersion, values)) else None
    {
      if |fileName| == 0 || !canOpen {
        return -1, None;
      }
      hide Field, Ordered, Body, Saved;
      var out := "";
      if fileVersion != 0 {
        out := U16(fileVersion % 65536) + U16(fileVersion / 65536);
      }
      var rest := values.Keys;
      SavingStarts(values, fileVersion, out);
      while rest != {}
        invariant rest <= values.Keys && forall k | k in Ordered(rest) :: k in values
        invariant out + Body(values, Ordered(rest)) == Saved(fileVersion, values)
      {
        LeastExists(rest);
        var k :| IsLeast(k, rest);
        LeastIs(rest, k);
        var entry := WriteEntry(k, values[k]);
        OrderedStep(values, rest, out);
        out := out + entry;
        rest := rest - {k};
      }
      SavingEnds(values, rest, out);
      return 0, Some(out);
    }

    /** `file` is the file's content, if it can be opened. */
    method LoadValues(file: Option<string>, junk: nat -> char) returns (ret: int)
      requires fileVersion < TWO32
      modifies this`values
      ensures ret == (if file.Some? then 0 else -1)
      ensures values == if file.Some? then LoadFile(fileVersion, file.value, junk, old(values)) else old(values)
    {
      if file.None? {
        return -1;
      }
      var text, pos := file.value, 0;
      if fileVersion != 0 {
        if |text| < 4 || text[..4] != U16(fileVersion % 65536) + U16(fileVersion / 65536) {
          return 0;
        }
        pos := 4;
      }
      ghost var goal := LoadFile(fileVersion, text, junk, values);
      assert pos == 0 ==> text[pos..] == text;
      var going := true;
      while going
        invariant pos <= |text|
        invariant goal == if going then Load(text[pos..], junk, values) else values
        decreases going, |text| - pos
      {
        var ok, name, at := ReadString(text, pos, junk);
        if !ok {
          going := false;
        } else {
          var value, at';
          ok, value, at' := ReadString(text, at, junk);
          if !ok {
            going := false;
          } else {
            values := values[name := value];
            pos := at';
          }
        }
      }
      ret := 0;
    }
  }

  lemma Regroup(a: string, b: string, c: string, d: string)
    ensures a + (b + (c + d)) == a + (b + c) + d
  {
  }

  lemma OrderedStep(m: map<string, string>, rest: set<string>, out: string)
    requires rest != {} && forall k | k in Ordered(rest) :: k in m
    ensures var k := Least(rest);
            && (forall o | o in Ordered(rest - {k}) :: o in m) && k in m
            && out + Body(m, Ordered(rest)) == out + (Field(k) + Field(m[k])) + Body(m, Ordered(rest - {k}))
  {
    hide Field;
    var k := Least(rest);
    var tail := Ordered(rest - {k});
    assert Ordered(rest) == [k] + tail;
    assert forall o | o in tail :: o in Ordered(rest);
    assert k in Ordered(rest);
    hide Ordered, Body;
    assert ([k] + tail)[1..] == tail;
    BodyStep(m, Ordered(rest));
    Regroup(out, Field(k), Field(m[k]), Body(m, tail));
  }

  lemma SavingStarts(m: map<string, string>, version: nat, out: string)
    requires version < TWO32 && out == Header(version)
    ensures (forall k | k in Ordered(m.Keys) :: k in m) && out + Body(m, Ordered(m.Keys)) == Saved(version, m)
  {
    OrderedIsAscending(m.Keys);
  }

  lemma SavingEnds(m: map<string, string>, rest: set<string>, out: string)
    requires rest == {}
    ensures Ordered(rest) == [] && out + Body(m, []) == out
  {
  }
}
