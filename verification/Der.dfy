/**
 asn1_decoder.cpp on byte strings: what each operation of the cursor consumes and returns, and
 what that means for encoded tag-length-value trees (ITU-T X.690, section 8.1).
 */
module Der {
  import opened Machine

  /** Largest number of length octets after the first that is accepted, and the bound this puts on lengths. */
  const MAX_OCTETS: nat := 7
  const LENGTH_LIMIT: nat := 0x100_0000_0000_0000

  const TAG_OCTET_STRING: Byte := 0x04
  const TAG_OID: Byte := 0x06
  const TAG_SEQUENCE: Byte := 0x30
  const TAG_SET: Byte := 0x31

  /** A decoded length and the bytes after it, or what is left when decoding fails. */
  datatype Length = Good(value: nat, rest: seq<Byte>) | Bad(rest: seq<Byte>)

  function BigEndian(s: seq<Byte>): nat {
    if s == [] then 0 else 0x100 * BigEndian(s[..|s| - 1]) + s[|s| - 1]
  }

  function Power256(k: nat): (p: nat)
    ensures p > 0
  {
    if k == 0 then 1 else 0x100 * Power256(k - 1)
  }

  lemma BigEndianBound(s: seq<Byte>)
    ensures BigEndian(s) < Power256(|s|)
  {
  }

  lemma Power256Grows(a: nat, b: nat)
    requires a <= b
    ensures Power256(a) <= Power256(b)
  {
  }

  /** asn1_context::decode_length */
  function DecodeLength(s: seq<Byte>): Length {
    if s == [] then Bad([])
    else if s[0] < 0x80 then Good(s[0], s[1..])
    else
      var k := s[0] - 0x80;
      if k > MAX_OCTETS then Bad(s[1..])
      else if |s| - 1 < k then Bad([])
      else Good(BigEndian(s[1..1 + k]), s[1 + k..])
  }

  /** The octets of a number, without leading zeros. */
  function Octets(n: nat): (s: seq<Byte>)
    ensures BigEndian(s) == n
  {
    if n == 0 then [] else
      var s := Octets(n / 0x100) + [n % 0x100];
      assert s[..|s| - 1] == Octets(n / 0x100);
      s
  }

  /** Length octets in the definite form with as few octets as possible. */
  function EncodeLength(n: nat): seq<Byte>
    requires n < LENGTH_LIMIT
  {
    if n < 0x80 then [n]
    else
      OctetsCount(n, MAX_OCTETS);
      [0x80 + |Octets(n)|] + Octets(n)
  }

  lemma {:induction false} OctetsCount(n: nat, k: nat)
    requires n < Power256(k)
    ensures |Octets(n)| <= k
  {
    if n > 0 {
      OctetsCount(n / 0x100, k - 1);
    }
  }

  /** X.690 section 8.1.3: lengths are read back as they were written, and the bytes after them are left. */
  lemma LengthRoundTrip(n: nat, rest: seq<Byte>)
    requires n < LENGTH_LIMIT
    ensures DecodeLength(EncodeLength(n) + rest) == Good(n, rest)
  {
    var e := EncodeLength(n);
    var s := e + rest;
    if n >= 0x80 {
      OctetsCount(n, MAX_OCTETS);
      var k := |Octets(n)|;
      assert s[1..1 + k] == Octets(n) && s[1 + k..] == rest;
    } else {
      assert s[1..] == rest;
    }
  }

  /** The long form with any number of octets up to the limit, leading zeros included. */
  lemma LongFormRoundTrip(octets: seq<Byte>, rest: seq<Byte>)
    requires |octets| <= MAX_OCTETS
    ensures DecodeLength([0x80 + |octets|] + octets + rest) == Good(BigEndian(octets), rest)
  {
    var s := [0x80 + |octets|] + octets + rest;
    assert s[1..1 + |octets|] == octets && s[1 + |octets|..] == rest;
  }

  /** No accepted length comes near the range of a 64-bit size. */
  lemma AcceptedLengthBound(s: seq<Byte>)
    ensures DecodeLength(s).Good? ==> DecodeLength(s).value < LENGTH_LIMIT
  {
    if DecodeLength(s).Good? && s[0] >= 0x80 {
      var k := s[0] - 0x80;
      BigEndianBound(s[1..1 + k]);
      Power256Grows(k, MAX_OCTETS);
      assert Power256(MAX_OCTETS) == LENGTH_LIMIT;
    }
  }

  /** What is left is the end of what there was. */
  predicate IsRest(rest: seq<Byte>, s: seq<Byte>) {
    |rest| <= |s| && rest == s[|s| - |rest|..]
  }

  lemma DecodeLengthRest(s: seq<Byte>)
    ensures IsRest(DecodeLength(s).rest, s)
  {
  }

  // ---------------------------------------------------------------- the operations of the cursor

  /** A child's bytes, if the operation succeeds, and what the cursor is left with. */
  datatype Child = Child(bytes: seq<Byte>, rest: seq<Byte>) | NoChild(rest: seq<Byte>)

  /** Skipping to the next value: whether it worked, and what is left. */
  function Next(s: seq<Byte>): (r: (bool, seq<Byte>)) {
    if s == [] then (false, [])
    else
      match DecodeLength(s[1..])
      case Bad(rest) => (false, rest)
      case Good(n, rest) => if n <= |rest| then (true, rest[n..]) else (false, rest)
  }

  /** The header of a value whose tag is accepted; the cursor stops in front of the contents. */
  function Enter(s: seq<Byte>, accepted: bool): Child {
    if s == [] then NoChild([])
    else if !accepted then NoChild(s[1..])
    else
      match DecodeLength(s[1..])
      case Bad(rest) => NoChild(rest)
      case Good(n, rest) => if n <= |rest| then Child(rest[..n], rest) else NoChild(rest)
  }

  /** (type & 0xE0) == 0xA0: a constructed value of the context-specific class. */
  predicate IsConstructed(tag: Byte) {
    tag / 0x20 == 5
  }

  /** Tags are compared in their lower seven bits only. */
  function SequenceGet(s: seq<Byte>): Child {
    Enter(s, s != [] && s[0] % 0x80 == TAG_SEQUENCE)
  }

  function SetGet(s: seq<Byte>): Child {
    Enter(s, s != [] && s[0] % 0x80 == TAG_SET)
  }

  function ConstructedGet(s: seq<Byte>): Child {
    Enter(s, s != [] && IsConstructed(s[0]))
  }

  /** Contents of a primitive value with this tag; empty contents are refused. */
  function PrimitiveGet(s: seq<Byte>, tag: Byte): Child {
    var c := Enter(s, s != [] && s[0] == tag);
    if c.Child? && c.bytes == [] then NoChild(c.rest) else c
  }

  lemma NextShrinks(s: seq<Byte>)
    requires s != []
    ensures |Next(s).1| < |s| && IsRest(Next(s).1, s)
  {
    DecodeLengthRest(s[1..]);
  }

  lemma EnterInside(s: seq<Byte>, accepted: bool)
    ensures IsRest(Enter(s, accepted).rest, s)
    ensures Enter(s, accepted).Child? ==> Enter(s, accepted).bytes <= Enter(s, accepted).rest
  {
    if s != [] {
      DecodeLengthRest(s[1..]);
    }
  }

  /** Skipping all leading constructed values: whether something is left behind them. */
  function SkipAll(s: seq<Byte>): (bool, seq<Byte>)
    decreases |s|
  {
    if s == [] then (false, [])
    else if !IsConstructed(s[0]) then (true, s)
    else
      NextShrinks(s);
      var (ok, rest) := Next(s);
      if ok then SkipAll(rest) else (false, rest)
  }

  // ---------------------------------------------------------------- encoded trees

  datatype Value = Primitive(tag: Byte, content: seq<Byte>) | Constructed(tag: Byte, children: seq<Value>)

  /** Contents octets small enough for the decoder, here and in all children. */
  ghost predicate Encodable(v: Value)
    decreases v, 1
  {
    |Contents(v)| < LENGTH_LIMIT && (v.Constructed? ==> AllEncodable(v.children))
  }

  ghost predicate AllEncodable(vs: seq<Value>)
    decreases vs, 0
  {
    forall i | 0 <= i < |vs| :: Encodable(vs[i])
  }

  function Contents(v: Value): seq<Byte>
    decreases v, 0
  {
    match v
    case Primitive(_, content) => content
    case Constructed(_, children) => EncodeAll(children)
  }

  /** Tag, length and contents; nothing for a value that is too large, which Encodable excludes. */
  function Encode(v: Value): seq<Byte>
    decreases v, 1
  {
    if |Contents(v)| < LENGTH_LIMIT then [v.tag] + EncodeLength(|Contents(v)|) + Contents(v) else []
  }

  function EncodeAll(vs: seq<Value>): seq<Byte>
    decreases vs, 0
  {
    if vs == [] then [] else Encode(vs[0]) + EncodeAll(vs[1..])
  }

  /** Reading a value's header leaves its contents and what follows. */
  lemma HeaderRead(v: Value, rest: seq<Byte>)
    requires Encodable(v)
    ensures var s := Encode(v) + rest;
            s != [] && s[0] == v.tag && DecodeLength(s[1..]) == Good(|Contents(v)|, Contents(v) + rest)
  {
    var n := |Contents(v)|;
    var s := Encode(v) + rest;
    assert s[1..] == EncodeLength(n) + (Contents(v) + rest);
    LengthRoundTrip(n, Contents(v) + rest);
  }

  lemma NextStepsOver(v: Value, rest: seq<Byte>)
    requires Encodable(v)
    ensures Next(Encode(v) + rest) == (true, rest)
  {
    HeaderRead(v, rest);
    hide Encode, DecodeLength;
    assert (Contents(v) + rest)[|Contents(v)|..] == rest;
  }

  lemma EnterFindsContents(v: Value, rest: seq<Byte>)
    requires Encodable(v)
    ensures Enter(Encode(v) + rest, true) == Child(Contents(v), Contents(v) + rest)
  {
    HeaderRead(v, rest);
    hide Encode, DecodeLength;
    assert (Contents(v) + rest)[..|Contents(v)|] == Contents(v);
  }

  /** Repeated asn1_sequence_next. */
  function NextTimes(s: seq<Byte>, k: nat): (bool, seq<Byte>) {
    if k == 0 then (true, s)
    else
      var (ok, rest) := Next(s);
      if ok then NextTimes(rest, k - 1) else (false, rest)
  }

  /** After k steps the cursor is in front of the k-th value. */
  lemma {:induction false} NextTimesSkips(vs: seq<Value>, k: nat)
    requires AllEncodable(vs) && k <= |vs|
    ensures NextTimes(EncodeAll(vs), k) == (true, EncodeAll(vs[k..]))
  {
    if k > 0 {
      assert Encodable(vs[0]);
      NextStepsOver(vs[0], EncodeAll(vs[1..]));
      NextTimesSkips(vs[1..], k - 1);
      assert vs[1..][k - 1..] == vs[k..];
    } else {
      assert vs[0..] == vs;
    }
  }

  /** One step past the last value fails. */
  lemma NextTooOften(vs: seq<Value>)
    requires AllEncodable(vs)
    ensures NextTimes(EncodeAll(vs), |vs|) == (true, []) && Next([]) == (false, [])
  {
    NextTimesSkips(vs, |vs|);
    assert EncodeAll(vs[|vs|..]) == [];
  }

  predicate LeadingConstructed(vs: seq<Value>, k: nat) {
    && k <= |vs|
    && (forall i | 0 <= i < k :: IsConstructed(vs[i].tag))
    && (k < |vs| ==> !IsConstructed(vs[k].tag))
  }

  /** asn1_constructed_skip_all consumes exactly the leading constructed values. */
  lemma {:induction false} SkipAllStopsAt(vs: seq<Value>, k: nat)
    requires AllEncodable(vs) && LeadingConstructed(vs, k)
    ensures SkipAll(EncodeAll(vs)) == (k < |vs|, EncodeAll(vs[k..]))
  {
    if vs != [] {
      assert Encodable(vs[0]);
      var tail := EncodeAll(vs[1..]);
      HeaderRead(vs[0], tail);
      if k > 0 {
        NextStepsOver(vs[0], tail);
        SkipAllStopsAt(vs[1..], k - 1);
        assert vs[1..][k - 1..] == vs[k..];
      } else {
        assert vs[0..] == vs;
      }
    }
  }

  // ---------------------------------------------------------------- walking down a tree

  /** The getter that a caller uses for a tag. */
  function GetByTag(s: seq<Byte>, tag: Byte): Child {
    if tag == TAG_SEQUENCE then SequenceGet(s)
    else if tag == TAG_SET then SetGet(s)
    else ConstructedGet(s)
  }

  predicate Enterable(tag: Byte) {
    tag == TAG_SEQUENCE || tag == TAG_SET || IsConstructed(tag)
  }

  lemma GetFindsContents(v: Value, rest: seq<Byte>)
    requires Encodable(v) && Enterable(v.tag)
    ensures GetByTag(Encode(v) + rest, v.tag) == Child(Contents(v), Contents(v) + rest)
  {
    HeaderRead(v, rest);
    EnterFindsContents(v, rest);
    hide Encode, Enter, DecodeLength;
  }

  /** asn1_oid_get and asn1_octet_string_get return exactly the contents, unless they are empty. */
  lemma PrimitiveGetFindsContents(v: Value, rest: seq<Byte>)
    requires Encodable(v)
    ensures PrimitiveGet(Encode(v) + rest, v.tag) ==
            if Contents(v) == [] then NoChild(rest) else Child(Contents(v), Contents(v) + rest)
  {
    HeaderRead(v, rest);
    EnterFindsContents(v, rest);
    hide Encode, Enter, DecodeLength;
    assert [] + rest == rest;
  }

  /** More than seven length octets are refused, and so are length octets that are not all there. */
  lemma LengthsRefused(s: seq<Byte>)
    ensures s == [] ==> DecodeLength(s) == Bad([])
    ensures s != [] && s[0] > 0x87 ==> DecodeLength(s) == Bad(s[1..])
    ensures s != [] && 0x80 <= s[0] <= 0x87 && |s| - 1 < s[0] - 0x80 ==> DecodeLength(s) == Bad([])
  {
  }

  /** A value that claims to be longer than what follows is refused by every operation, whatever its tag. */
  lemma TooLongRefused(tag: Byte, n: nat, left: seq<Byte>)
    requires |left| < n < LENGTH_LIMIT
    ensures var s := [tag] + EncodeLength(n) + left;
            && Next(s) == (false, left)
            && SequenceGet(s).NoChild? && SetGet(s).NoChild? && ConstructedGet(s).NoChild?
            && forall t: Byte :: PrimitiveGet(s, t).NoChild?
  {
    var s := [tag] + EncodeLength(n) + left;
    assert s[1..] == EncodeLength(n) + left;
    LengthRoundTrip(n, left);
    hide DecodeLength, EncodeLength;
    EnterTooLong(s, n, left);
    hide Enter, Next;
  }

  lemma EnterTooLong(s: seq<Byte>, n: nat, left: seq<Byte>)
    requires s != [] && DecodeLength(s[1..]) == Good(n, left) && n > |left|
    ensures Next(s) == (false, left) && forall accepted :: Enter(s, accepted).NoChild?
  {
  }

  /** Which tags the getters accept, whatever follows: SEQUENCE and SET in their lower seven bits, and 0xA0 to 0xBF. */
  lemma TagsAccepted(s: seq<Byte>)
    ensures SequenceGet(s).Child? ==> s != [] && s[0] in {0x30, 0xB0}
    ensures SetGet(s).Child? ==> s != [] && s[0] in {0x31, 0xB1}
    ensures ConstructedGet(s).Child? ==> s != [] && 0xA0 <= s[0] <= 0xBF
    ensures PrimitiveGet(s, TAG_OID).Child? ==> s != [] && s[0] == 6
    ensures PrimitiveGet(s, TAG_OCTET_STRING).Child? ==> s != [] && s[0] == 4
  {
  }

  /** In front of an encoded value a getter finds its contents, or fails behind a tag that is not its own. */
  lemma GetExactlyWhen(v: Value, rest: seq<Byte>)
    requires Encodable(v)
    ensures var s, found, after := Encode(v) + rest, Child(Contents(v), Contents(v) + rest), NoChild((Encode(v) + rest)[1..]);
            && SequenceGet(s) == (if v.tag in {0x30, 0xB0} then found else after)
            && SetGet(s) == (if v.tag in {0x31, 0xB1} then found else after)
            && ConstructedGet(s) == (if 0xA0 <= v.tag <= 0xBF then found else after)
            && forall tag: Byte | tag != v.tag :: PrimitiveGet(s, tag) == after
  {
    HeaderRead(v, rest);
    EnterFindsContents(v, rest);
    hide Encode, DecodeLength;
  }

  /** The values met on the way down: the path[0]-th value, in it the path[1]-th, and so on. */
  ghost predicate Along(vs: seq<Value>, path: seq<nat>) {
    path == [] ||
      (path[0] < |vs| && vs[path[0]].Constructed? && Enterable(vs[path[0]].tag) && Along(vs[path[0]].children, path[1..]))
  }

  ghost function Inside(vs: seq<Value>, path: seq<nat>): seq<Value>
    requires Along(vs, path)
  {
    if path == [] then vs else Inside(vs[path[0]].children, path[1..])
  }

  /** What the cursor does: on every level, step to the value and enter it. */
  ghost function Descend(vs: seq<Value>, s: seq<Byte>, path: seq<nat>): Option<seq<Byte>>
    requires Along(vs, path)
    decreases |path|
  {
    if path == [] then Some(s)
    else
      var (ok, rest) := NextTimes(s, path[0]);
      if !ok then None
      else
        var c := GetByTag(rest, vs[path[0]].tag);
        if c.Child? then Descend(vs[path[0]].children, c.bytes, path[1..]) else None
  }

  /** Walking down any path of a tree lands on exactly the bytes encoded there. */
  lemma {:induction false} DescendLandsOn(vs: seq<Value>, path: seq<nat>)
    requires AllEncodable(vs) && Along(vs, path)
    ensures Descend(vs, EncodeAll(vs), path) == Some(EncodeAll(Inside(vs, path)))
    decreases |path|
  {
    if path != [] {
      var k := path[0];
      var v := vs[k];
      assert Encodable(v);
      hide NextTimes, Encode, GetByTag;
      NextTimesSkips(vs, k);
      assert vs[k..][0] == v;
      GetFindsContents(v, EncodeAll(vs[k..][1..]));
      assert AllEncodable(v.children);
      DescendLandsOn(v.children, path[1..]);
    }
  }
}
