/**
 fuse_sideload.cpp: a read-only file served from an untrusted host through a cache of one block.

 The host is asked for a block each time the cache misses and may answer differently every time.
 A digest per block pins what was accepted first.  The hash is an arbitrary function: the
 results hold for every run in which it neither collides nor yields the all-zero digest on the
 blocks that this run hashes.

 The cache is described over a Geometry, which hides how block numbers and sizes are computed;
 SideloadArithmetic supplies the program's own, wrapping, computation.
 */
module Sideload {
  import opened Machine

  const DIGEST_LENGTH: nat := 32
  const ENOENT: int := 2
  const EIO: int := 5
  const PACKAGE_FILE_ID: nat := 2
  /** The value -1 of the unsigned field curr_block: nothing is cached. */
  const NONE: nat := TWO32 - 1

  type Digest = d: seq<Byte> | |d| == DIGEST_LENGTH witness Zeros(DIGEST_LENGTH)

  const ZERO_DIGEST: Digest := Zeros(DIGEST_LENGTH)

  /** How a file is cut into blocks: bytes to ask the host for, block of a position, place in its block. */
  datatype Geometry = Geometry(blockSize: nat, blocks: nat, ask: nat -> int, blockOf: nat -> nat, at: nat -> int)

  /** Where the k-th byte of a read starting at `offset` lies. */
  ghost predicate Adjacent(g: Geometry, offset: nat, k: nat) {
    k < g.blockSize ==>
      if g.at(offset) + k < g.blockSize
      then g.blockOf(offset + k) == g.blockOf(offset) && g.at(offset + k) == g.at(offset) + k
      else g.blockOf(offset + k) == U32(g.blockOf(offset) + 1) && g.at(offset + k) == g.at(offset) + k - g.blockSize
  }

  ghost predicate Sound(g: Geometry) {
    && 0 < g.blockSize < 0x8000_0000
    && (forall b | 0 <= b < g.blocks :: 0 < g.ask(b) <= g.blockSize)
    && (forall p: nat :: 0 <= g.at(p) < g.blockSize)
    && (forall offset: nat, k: nat :: Adjacent(g, offset, k))
  }

  /** What one call of read_block does: its return value, and the bytes it leaves at the start of the buffer. */
  datatype Answer = Answer(status: int, bytes: seq<Byte>)

  /** One FUSE_READ request, with the host's answers for the one or two blocks it may need. */
  datatype Request = Request(nodeid: nat, offset: nat, size: nat, first: Answer, second: Answer)

  datatype Reply = Data(bytes: seq<Byte>) | Errno(code: int)

  /**
   The cache.  `pins` records the content of each block when it was first accepted and `seen`
   every block content that was hashed; the program keeps neither.
   */
  datatype Cache = Cache(
    curr: nat, data: seq<Byte>, hashes: seq<Digest>,
    pins: map<nat, seq<Byte>>, seen: set<seq<Byte>>)

  predicate Shaped(g: Geometry, s: Cache) {
    |s.data| == g.blockSize && |s.hashes| == g.blocks
  }

  /** The host's bytes replace the first `n` bytes of the buffer, or fewer when it sends fewer. */
  function Overwrite(data: seq<Byte>, bytes: seq<Byte>, n: nat): (r: seq<Byte>)
    requires n <= |data|
    ensures |r| == |data|
    ensures forall i | n <= i < |data| :: r[i] == data[i]
  {
    var k := if |bytes| < n then |bytes| else n;
    bytes[..k] + data[k..]
  }

  /** The buffer after the padding and the host's answer. */
  function Filled(g: Geometry, s: Cache, block: nat, a: Answer): (data: seq<Byte>)
    requires Sound(g) && Shaped(g, s) && block < g.blocks
    ensures |data| == g.blockSize
    ensures forall i | g.ask(block) <= i < g.blockSize :: data[i] == 0
  {
    var n := g.ask(block);
    Overwrite(s.data[..n] + Zeros(g.blockSize - n), a.bytes, n)
  }

  /** The second half of fetch_block: compare the digest of the block just received with the stored one. */
  function Check(H: seq<Byte> -> Digest, s: Cache, block: nat, data: seq<Byte>): (r: (Cache, int))
    requires block < |s.hashes|
  {
    var seen := s.seen + {data};
    if H(data) == s.hashes[block] || s.hashes[block] == ZERO_DIGEST then
      (Cache(block, data, s.hashes[block := H(data)],
             if block in s.pins then s.pins else s.pins[block := data], seen), 0)
    else
      (s.(data := data, curr := NONE, seen := seen), -EIO)
  }

  /**
   fetch_block.  The program leaves curr_block alone while the host fills the buffer; with
   `early` set, curr_block is reset before the host is asked, which repairs it.
   */
  function Fetch(g: Geometry, H: seq<Byte> -> Digest, s: Cache, block: nat, a: Answer, early: bool): (r: (Cache, int))
    requires Sound(g) && Shaped(g, s)
    ensures Shaped(g, r.0)
  {
    if block == s.curr then
      (s, 0)
    else if block >= g.blocks then
      (s.(data := Zeros(g.blockSize), curr := block), 0)
    else
      var data := Filled(g, s, block, a);
      if a.status < 0 then
        (s.(data := data, curr := if early then NONE else s.curr), a.status)
      else
        Check(H, s, block, data)
  }

  /** The part of handle_read after its first block is in the buffer. */
  function ReadOn(g: Geometry, H: seq<Byte> -> Digest, s: Cache, q: Request, early: bool): (r: (Cache, Reply))
    requires Sound(g) && Shaped(g, s) && q.size <= g.blockSize
    ensures Shaped(g, r.0)
    ensures r.1.Data? ==> |r.1.bytes| == q.size
  {
    var at := g.at(q.offset);
    if U32(q.size + at) <= g.blockSize then
      (s, Data(s.data[at..at + q.size]))
    else
      var extra := s.data[at..];
      var (s2, r2) := Fetch(g, H, s, U32(g.blockOf(q.offset) + 1), q.second, early);
      if r2 != 0 then
        (s2, Errno(r2))
      else
        (s2, Data(extra + s2.data[..q.size - |extra|]))
  }

  /** handle_read. */
  function HandleRead(g: Geometry, H: seq<Byte> -> Digest, s: Cache, q: Request, early: bool): (r: (Cache, Reply))
    requires Sound(g) && Shaped(g, s) && q.size <= g.blockSize
    ensures Shaped(g, r.0)
    ensures r.1.Data? ==> |r.1.bytes| == q.size
  {
    if q.nodeid != PACKAGE_FILE_ID then
      (s, Errno(-ENOENT))
    else
      var (s1, r1) := Fetch(g, H, s, g.blockOf(q.offset), q.first, early);
      if r1 != 0 then (s1, Errno(r1)) else ReadOn(g, H, s1, q, early)
  }

  // ---------------------------------------------------------------- what a fetch keeps

  predicate CollisionFree(H: seq<Byte> -> Digest, blocks: set<seq<Byte>>) {
    && (forall x, y | x in blocks && y in blocks :: H(x) == H(y) ==> x == y)
    && (forall x | x in blocks :: H(x) != ZERO_DIGEST)
  }

  /** What an accepted read of a block shows: its pinned bytes, or zeros past the end of the file. */
  function Content(g: Geometry, pins: map<nat, seq<Byte>>, block: nat): seq<Byte> {
    if block in pins then pins[block] else Zeros(g.blockSize)
  }

  /** Pinned blocks are real blocks, zero-padded beyond what the host is asked for. */
  ghost predicate Pinned(g: Geometry, pins: map<nat, seq<Byte>>) {
    forall b | b in pins ::
      && b < g.blocks && |pins[b]| == g.blockSize
      && forall i | 0 <= g.ask(b) <= i < g.blockSize :: pins[b][i] == 0
  }

  ghost predicate Inv(g: Geometry, H: seq<Byte> -> Digest, s: Cache) {
    && Shaped(g, s)
    && Pinned(g, s.pins)
    && (forall b | b in s.pins :: s.pins[b] in s.seen)
    && (forall b | 0 <= b < g.blocks ::
          s.hashes[b] == if b in s.pins then H(s.pins[b]) else ZERO_DIGEST)
    && (s.curr != NONE ==>
          && s.data == Content(g, s.pins, s.curr)
          && (s.curr < g.blocks ==> s.curr in s.pins))
  }

  predicate Extends(p: map<nat, seq<Byte>>, p': map<nat, seq<Byte>>) {
    forall b | b in p :: b in p' && p'[b] == p[b]
  }

  lemma CheckKeepsInv(g: Geometry, H: seq<Byte> -> Digest, s: Cache, block: nat, data: seq<Byte>)
    requires Inv(g, H, s) && block < g.blocks && |data| == g.blockSize && block != NONE
    requires forall i | 0 <= g.ask(block) <= i < g.blockSize :: data[i] == 0
    requires CollisionFree(H, s.seen + {data})
    ensures var (s', r) := Check(H, s, block, data);
            && Inv(g, H, s') && Extends(s.pins, s'.pins)
            && (r == 0 ==> s'.curr == block)
  {
    hide CollisionFree;
    CheckVerdict(g, H, s, block, data);
    var (s', r) := Check(H, s, block, data);
    PinnedMore(g, s.pins, block, data);
    hide Pinned;
    if r == 0 {
      assert s'.pins == s.pins[block := data];
      assert s'.hashes == s.hashes[block := H(data)];
    }
  }

  lemma PinnedMore(g: Geometry, pins: map<nat, seq<Byte>>, block: nat, data: seq<Byte>)
    requires Pinned(g, pins) && block < g.blocks && |data| == g.blockSize
    requires forall i | 0 <= g.ask(block) <= i < g.blockSize :: data[i] == 0
    ensures Pinned(g, pins[block := data])
  {
  }

  /** A block that is pinned is accepted again exactly when it comes back unchanged. */
  lemma CheckVerdict(g: Geometry, H: seq<Byte> -> Digest, s: Cache, block: nat, data: seq<Byte>)
    requires Inv(g, H, s) && block < g.blocks
    requires CollisionFree(H, s.seen + {data})
    ensures Check(H, s, block, data).1 == 0 <==> (block in s.pins ==> data == s.pins[block])
  {
    assert data in s.seen + {data};
    if block in s.pins {
      assert s.pins[block] in s.seen + {data};
    }
  }

  /** The host is not asked, or does not fail, or nothing is cached. */
  predicate FetchSafe(g: Geometry, s: Cache, block: nat, a: Answer) {
    block == s.curr || block >= g.blocks || a.status >= 0 || s.curr == NONE
  }

  lemma FetchKeepsInv(g: Geometry, H: seq<Byte> -> Digest, s: Cache, block: nat, a: Answer, early: bool)
    requires Sound(g) && Inv(g, H, s) && block != NONE
    requires CollisionFree(H, Fetch(g, H, s, block, a, early).0.seen)
    requires early || FetchSafe(g, s, block, a)
    ensures var (s', r) := Fetch(g, H, s, block, a, early);
            && Inv(g, H, s') && Extends(s.pins, s'.pins)
            && (r == 0 ==> s'.curr == block)
  {
    if block != s.curr && block < g.blocks && a.status >= 0 {
      CheckKeepsInv(g, H, s, block, Filled(g, s, block, a));
    }
  }

  /** A failing host can leave the cache showing bytes that the cached block never had. */
  lemma FailedFetchBreaks(g: Geometry, H: seq<Byte> -> Digest, s: Cache, block: nat, status: int)
    requires Sound(g) && Inv(g, H, s) && CollisionFree(H, s.seen)
    requires block != s.curr && block < g.blocks && status < 0 && s.curr != NONE
    ensures exists bytes: seq<Byte> ::
              var s' := Fetch(g, H, s, block, Answer(status, bytes), false).0;
              CollisionFree(H, s'.seen) && !Inv(g, H, s')
  {
    var other: Byte := if s.data[0] == 0 then 1 else 0;
    var s' := Fetch(g, H, s, block, Answer(status, [other]), false).0;
    assert s'.data[0] != s.data[0];
  }

  /** For one fetch: the program keeps its invariant, whatever the host leaves in the buffer, exactly when the fetch is safe. */
  lemma FetchKeepsInvExactlyWhen(g: Geometry, H: seq<Byte> -> Digest, s: Cache, block: nat, status: int)
    requires Sound(g) && Inv(g, H, s) && CollisionFree(H, s.seen) && block != NONE
    ensures (forall bytes: seq<Byte> ::
               var s' := Fetch(g, H, s, block, Answer(status, bytes), false).0;
               CollisionFree(H, s'.seen) ==> Inv(g, H, s'))
            <==> FetchSafe(g, s, block, Answer(status, []))
  {
    if FetchSafe(g, s, block, Answer(status, [])) {
      forall bytes: seq<Byte> | CollisionFree(H, Fetch(g, H, s, block, Answer(status, bytes), false).0.seen)
        ensures Inv(g, H, Fetch(g, H, s, block, Answer(status, bytes), false).0)
      {
        FetchKeepsInv(g, H, s, block, Answer(status, bytes), false);
      }
    } else {
      FailedFetchBreaks(g, H, s, block, status);
    }
  }

  // ---------------------------------------------------------------- replies over whole runs

  /** The byte a reader finds at a position of the file. */
  function FileByte(g: Geometry, pins: map<nat, seq<Byte>>, position: nat): Byte
    requires Sound(g) && Pinned(g, pins)
  {
    Content(g, pins, g.blockOf(position))[g.at(position)]
  }

  /** Block number -1 marks an empty cache, so it is not usable. */
  predicate Admissible(g: Geometry, q: Request) {
    && g.blockOf(q.offset) != NONE
    && (g.at(q.offset) + q.size > g.blockSize ==> U32(g.blockOf(q.offset) + 1) != NONE)
  }

  /** Both fetches that a request may need are safe. */
  predicate ReadSafe(g: Geometry, H: seq<Byte> -> Digest, s: Cache, q: Request)
    requires Sound(g) && Shaped(g, s)
  {
    q.nodeid == PACKAGE_FILE_ID ==>
      && FetchSafe(g, s, g.blockOf(q.offset), q.first)
      && var (s1, r1) := Fetch(g, H, s, g.blockOf(q.offset), q.first, false);
         r1 == 0 && g.at(q.offset) + q.size > g.blockSize ==> FetchSafe(g, s1, U32(g.blockOf(q.offset) + 1), q.second)
  }

  /** `value` is what the pinned file has at `position`; if that lies in a real block, the block is pinned. */
  ghost predicate ByteAgrees(g: Geometry, pins: map<nat, seq<Byte>>, position: nat, value: Byte)
    requires Sound(g) && Pinned(g, pins)
  {
    && value == FileByte(g, pins, position)
    && (g.blockOf(position) < g.blocks ==> g.blockOf(position) in pins)
  }

  ghost predicate BytesAgree(g: Geometry, pins: map<nat, seq<Byte>>, offset: nat, bytes: seq<Byte>)
    requires Sound(g) && Pinned(g, pins)
  {
    forall k | 0 <= k < |bytes| :: ByteAgrees(g, pins, offset + k, bytes[k])
  }

  ghost predicate ReplyAgrees(g: Geometry, pins: map<nat, seq<Byte>>, q: Request, reply: Reply)
    requires Sound(g) && Pinned(g, pins)
  {
    reply.Data? ==>
      && |reply.bytes| == q.size
      && BytesAgree(g, pins, q.offset, reply.bytes)
  }

  /** A cached block shows what the file has, now and after more blocks have been pinned. */
  lemma CachedByte(g: Geometry, H: seq<Byte> -> Digest, s: Cache, pins: map<nat, seq<Byte>>, position: nat)
    requires Sound(g) && Inv(g, H, s) && s.curr == g.blockOf(position) != NONE
    requires Pinned(g, pins) && Extends(s.pins, pins)
    ensures ByteAgrees(g, pins, position, s.data[g.at(position)])
  {
  }

  /** A read inside one block. */
  lemma ShortReadShows(g: Geometry, H: seq<Byte> -> Digest, s: Cache, offset: nat, size: nat)
    requires Sound(g) && Inv(g, H, s) && s.curr == g.blockOf(offset) != NONE
    requires g.at(offset) + size <= g.blockSize
    ensures BytesAgree(g, s.pins, offset, s.data[g.at(offset)..g.at(offset) + size])
  {
    var bytes := s.data[g.at(offset)..g.at(offset) + size];
    forall k | 0 <= k < |bytes|
      ensures ByteAgrees(g, s.pins, offset + k, bytes[k])
    {
      assert Adjacent(g, offset, k);
      CachedByte(g, H, s, s.pins, offset + k);
    }
  }

  /** A read that starts in the block cached in `s` and ends in the one cached in `s'`. */
  lemma LongReadShows(g: Geometry, H: seq<Byte> -> Digest, s: Cache, s': Cache, offset: nat, size: nat)
    requires Sound(g) && Inv(g, H, s) && s.curr == g.blockOf(offset) != NONE
    requires Inv(g, H, s') && s'.curr == U32(g.blockOf(offset) + 1) != NONE && Extends(s.pins, s'.pins)
    requires g.blockSize - g.at(offset) <= size <= g.blockSize
    ensures BytesAgree(g, s'.pins, offset, s.data[g.at(offset)..] + s'.data[..size - (g.blockSize - g.at(offset))])
  {
    var rest := g.blockSize - g.at(offset);
    FirstPartShows(g, H, s, s'.pins, offset, rest);
    SecondPartShows(g, H, s', offset, rest, size - rest);
    hide ByteAgrees, Inv, Sound, Pinned, Extends;
    var first, second := s.data[g.at(offset)..], s'.data[..size - rest];
    forall k | 0 <= k < |first + second|
      ensures ByteAgrees(g, s'.pins, offset + k, (first + second)[k])
    {
      if k >= rest {
        assert (first + second)[k] == second[k - rest];
        assert ByteAgrees(g, s'.pins, offset + rest + (k - rest), second[k - rest]);
      }
    }
  }

  /** The end of the block cached in `s`, seen with the pins of a later state. */
  lemma FirstPartShows(g: Geometry, H: seq<Byte> -> Digest, s: Cache, pins: map<nat, seq<Byte>>, offset: nat, rest: nat)
    requires Sound(g) && Inv(g, H, s) && s.curr == g.blockOf(offset) != NONE && rest == g.blockSize - g.at(offset)
    requires Pinned(g, pins) && Extends(s.pins, pins)
    ensures BytesAgree(g, pins, offset, s.data[g.at(offset)..])
  {
    forall k | 0 <= k < rest
      ensures ByteAgrees(g, pins, offset + k, s.data[g.at(offset)..][k])
    {
      assert Adjacent(g, offset, k);
      CachedByte(g, H, s, pins, offset + k);
    }
  }

  /** The beginning of the next block. */
  lemma SecondPartShows(g: Geometry, H: seq<Byte> -> Digest, s: Cache, offset: nat, rest: nat, n: nat)
    requires Sound(g) && Inv(g, H, s) && s.curr == U32(g.blockOf(offset) + 1) != NONE
    requires rest == g.blockSize - g.at(offset) && n + rest <= g.blockSize
    ensures BytesAgree(g, s.pins, offset + rest, s.data[..n])
  {
    forall k | 0 <= k < n
      ensures ByteAgrees(g, s.pins, offset + rest + k, s.data[..n][k])
    {
      assert Adjacent(g, offset, rest + k);
      CachedByte(g, H, s, s.pins, offset + rest + k);
    }
  }

  lemma InvFacts(g: Geometry, H: seq<Byte> -> Digest, s: Cache)
    requires Inv(g, H, s)
    ensures Shaped(g, s) && Pinned(g, s.pins)
  {
  }

  /** The part of handle_read after the first fetch has succeeded. */
  lemma ReadShows(g: Geometry, H: seq<Byte> -> Digest, s: Cache, q: Request, early: bool)
    requires Sound(g) && Inv(g, H, s) && q.size <= g.blockSize && Admissible(g, q)
    requires s.curr == g.blockOf(q.offset)
    requires early || g.at(q.offset) + q.size <= g.blockSize || FetchSafe(g, s, U32(g.blockOf(q.offset) + 1), q.second)
    requires CollisionFree(H, ReadOn(g, H, s, q, early).0.seen)
    ensures var (s', reply) := ReadOn(g, H, s, q, early);
            && Inv(g, H, s') && Extends(s.pins, s'.pins)
            && ReplyAgrees(g, s'.pins, q, reply)
  {
    hide Shaped, Pinned, ByteAgrees;
    InvFacts(g, H, s);
    ReadOnCases(g, H, s, q, early);
    hide ReadOn, Fetch, Inv, BytesAgree, CollisionFree, Sound, FetchSafe;
    if g.at(q.offset) + q.size <= g.blockSize {
      ShortReadShows(g, H, s, q.offset, q.size);
    } else {
      SecondFetchShows(g, H, s, q, early);
    }
  }

  /** The fetch of the next block, for a read that spills over into it. */
  lemma SecondFetchShows(g: Geometry, H: seq<Byte> -> Digest, s: Cache, q: Request, early: bool)
    requires Sound(g) && Inv(g, H, s) && q.size <= g.blockSize && Admissible(g, q)
    requires s.curr == g.blockOf(q.offset) && g.at(q.offset) + q.size > g.blockSize
    requires early || FetchSafe(g, s, U32(g.blockOf(q.offset) + 1), q.second)
    requires CollisionFree(H, Fetch(g, H, s, U32(g.blockOf(q.offset) + 1), q.second, early).0.seen)
    ensures var (s', r) := Fetch(g, H, s, U32(g.blockOf(q.offset) + 1), q.second, early);
            && Inv(g, H, s') && Extends(s.pins, s'.pins)
            && (r == 0 ==> BytesAgree(g, s'.pins, q.offset,
                                      s.data[g.at(q.offset)..] + s'.data[..q.size - (g.blockSize - g.at(q.offset))]))
  {
    assert Shaped(g, s);
    var next := U32(g.blockOf(q.offset) + 1);
    FetchKeepsInv(g, H, s, next, q.second, early);
    hide Fetch, Inv, BytesAgree, CollisionFree, Sound, FetchSafe, Extends;
    var (s', r) := Fetch(g, H, s, next, q.second, early);
    if r == 0 {
      LongReadShows(g, H, s, s', q.offset, q.size);
    }
  }

  /** handle_read's test for a read that fits into one block does not suffer from 32-bit wrap-around. */
  lemma ReadOnCases(g: Geometry, H: seq<Byte> -> Digest, s: Cache, q: Request, early: bool)
    requires Sound(g) && Shaped(g, s) && q.size <= g.blockSize
    ensures var at := g.at(q.offset);
            if at + q.size <= g.blockSize then
              ReadOn(g, H, s, q, early) == (s, Data(s.data[at..at + q.size]))
            else
              var (s2, r2) := Fetch(g, H, s, U32(g.blockOf(q.offset) + 1), q.second, early);
              ReadOn(g, H, s, q, early) ==
                (s2, if r2 != 0 then Errno(r2) else Data(s.data[at..] + s2.data[..q.size - (g.blockSize - at)]))
  {
    hide Fetch;
  }

  lemma ReadKeepsInv(g: Geometry, H: seq<Byte> -> Digest, s: Cache, q: Request, early: bool)
    requires Sound(g) && Inv(g, H, s) && q.size <= g.blockSize && Admissible(g, q)
    requires early || ReadSafe(g, H, s, q)
    requires CollisionFree(H, HandleRead(g, H, s, q, early).0.seen)
    ensures var (s', reply) := HandleRead(g, H, s, q, early);
            && Inv(g, H, s') && Extends(s.pins, s'.pins)
            && ReplyAgrees(g, s'.pins, q, reply)
  {
    if q.nodeid == PACKAGE_FILE_ID {
      var (s1, r1) := Fetch(g, H, s, g.blockOf(q.offset), q.first, early);
      SeenGrows(g, H, s1, q, early);
      hide Inv, ReadOn, Fetch, Extends, FetchSafe;
      FetchKeepsInv(g, H, s, g.blockOf(q.offset), q.first, early);
      if r1 == 0 {
        ReadShows(g, H, s1, q, early);
        ExtendsTransitive(s.pins, s1.pins, ReadOn(g, H, s1, q, early).0.pins);
      }
    }
  }

  lemma ExtendsTransitive(p: map<nat, seq<Byte>>, p1: map<nat, seq<Byte>>, p2: map<nat, seq<Byte>>)
    requires Extends(p, p1) && Extends(p1, p2)
    ensures Extends(p, p2)
  {
  }

  lemma FetchSeenGrows(g: Geometry, H: seq<Byte> -> Digest, s: Cache, block: nat, a: Answer, early: bool)
    requires Sound(g) && Shaped(g, s)
    ensures s.seen <= Fetch(g, H, s, block, a, early).0.seen
  {
  }

  lemma SeenGrows(g: Geometry, H: seq<Byte> -> Digest, s: Cache, q: Request, early: bool)
    requires Sound(g) && Shaped(g, s) && q.size <= g.blockSize
    ensures s.seen <= ReadOn(g, H, s, q, early).0.seen
  {
    FetchSeenGrows(g, H, s, U32(g.blockOf(q.offset) + 1), q.second, early);
    hide Fetch;
  }

  predicate AllFit(g: Geometry, qs: seq<Request>) {
    forall i | 0 <= i < |qs| :: qs[i].size <= g.blockSize
  }

  predicate AllAdmissible(g: Geometry, qs: seq<Request>) {
    forall i | 0 <= i < |qs| :: Admissible(g, qs[i])
  }

  /** The request loop: the state it ends in and the replies in order. */
  function Run(g: Geometry, H: seq<Byte> -> Digest, s: Cache, qs: seq<Request>, early: bool): (r: (Cache, seq<Reply>))
    requires Sound(g) && Shaped(g, s) && AllFit(g, qs)
    ensures |r.1| == |qs| && Shaped(g, r.0)
    ensures forall i | 0 <= i < |qs| :: r.1[i].Data? ==> |r.1[i].bytes| == qs[i].size
    decreases |qs|
  {
    if qs == [] then (s, [])
    else
      var (s1, reply) := HandleRead(g, H, s, qs[0], early);
      var (s2, replies) := Run(g, H, s1, qs[1..], early);
      (s2, [reply] + replies)
  }

  lemma {:induction false} RunConcat(g: Geometry, H: seq<Byte> -> Digest, s: Cache, a: seq<Request>, b: seq<Request>)
    requires Sound(g) && Shaped(g, s) && AllFit(g, a) && AllFit(g, b)
    ensures AllFit(g, a + b)
    ensures var (s1, ra) := Run(g, H, s, a, false); var (s2, rb) := Run(g, H, s1, b, false);
            Run(g, H, s, a + b, false) == (s2, ra + rb)
    decreases |a|
  {
    if a == [] {
      assert a + b == b;
      assert [] + Run(g, H, s, b, false).1 == Run(g, H, s, b, false).1;
    } else {
      assert (a + b)[1..] == a[1..] + b;
      hide HandleRead;
      RunConcat(g, H, HandleRead(g, H, s, a[0], false).0, a[1..], b);
      var (s1, ra) := Run(g, H, HandleRead(g, H, s, a[0], false).0, a[1..], false);
      var rb := Run(g, H, s1, b, false).1;
      assert [HandleRead(g, H, s, a[0], false).1] + (ra + rb) == [HandleRead(g, H, s, a[0], false).1] + ra + rb;
    }
  }

  lemma RunNone(g: Geometry, H: seq<Byte> -> Digest, s: Cache)
    requires Sound(g) && Shaped(g, s)
    ensures Run(g, H, s, [], false) == (s, [])
  {
  }

  lemma RunFirst(g: Geometry, H: seq<Byte> -> Digest, s: Cache, q: Request, rest: seq<Request>)
    requires Sound(g) && Shaped(g, s) && q.size <= g.blockSize && AllFit(g, rest)
    ensures AllFit(g, [q] + rest)
    ensures var (s1, r1) := HandleRead(g, H, s, q, false); var (s2, r2) := Run(g, H, s1, rest, false);
            Run(g, H, s, [q] + rest, false) == (s2, [r1] + r2)
  {
    hide HandleRead;
    assert ([q] + rest)[1..] == rest;
  }

  lemma RunThree(g: Geometry, H: seq<Byte> -> Digest, s: Cache, q0: Request, q1: Request, q2: Request)
    requires Sound(g) && Shaped(g, s) && q0.size <= g.blockSize && q1.size <= g.blockSize && q2.size <= g.blockSize
    ensures AllFit(g, [q0, q1, q2])
    ensures var (s1, r0) := HandleRead(g, H, s, q0, false);
            var (s2, r1) := HandleRead(g, H, s1, q1, false);
            var (s3, r2) := HandleRead(g, H, s2, q2, false);
            Run(g, H, s, [q0, q1, q2], false) == (s3, [r0, r1, r2])
  {
    hide HandleRead, Run;
    var (s1, r0) := HandleRead(g, H, s, q0, false);
    var (s2, r1) := HandleRead(g, H, s1, q1, false);
    var (s3, r2) := HandleRead(g, H, s2, q2, false);
    RunNone(g, H, s3);
    RunFirst(g, H, s2, q2, []);
    assert [q2] + [] == [q2] && [r2] + [] == [r2];
    assert Run(g, H, s2, [q2], false) == (s3, [r2]);
    RunFirst(g, H, s1, q1, [q2]);
    assert [q1] + [q2] == [q1, q2] && [r1] + [r2] == [r1, r2];
    assert Run(g, H, s1, [q1, q2], false) == (s3, [r1, r2]);
    RunFirst(g, H, s, q0, [q1, q2]);
    assert [q0] + [q1, q2] == [q0, q1, q2] && [r0] + [r1, r2] == [r0, r1, r2];
  }

  /** Every fetch of the run is safe. */
  predicate RunSafe(g: Geometry, H: seq<Byte> -> Digest, s: Cache, qs: seq<Request>)
    requires Sound(g) && Shaped(g, s) && AllFit(g, qs)
    decreases |qs|
  {
    qs == [] || (ReadSafe(g, H, s, qs[0]) && RunSafe(g, H, HandleRead(g, H, s, qs[0], false).0, qs[1..]))
  }

  /** A host that never fails is safe. */
  lemma {:induction false} AnsweringHostIsSafe(g: Geometry, H: seq<Byte> -> Digest, s: Cache, qs: seq<Request>)
    requires Sound(g) && Shaped(g, s) && AllFit(g, qs)
    requires forall i | 0 <= i < |qs| :: qs[i].first.status >= 0 && qs[i].second.status >= 0
    ensures RunSafe(g, H, s, qs)
    decreases |qs|
  {
    if qs != [] {
      hide HandleRead, Fetch;
      AnsweringHostIsSafe(g, H, HandleRead(g, H, s, qs[0], false).0, qs[1..]);
    }
  }

  function Start(g: Geometry, garbage: seq<Byte>): Cache {
    Cache(NONE, garbage, seq(g.blocks, i => ZERO_DIGEST), map[], {})
  }

  lemma StartInv(g: Geometry, H: seq<Byte> -> Digest, garbage: seq<Byte>)
    requires |garbage| == g.blockSize
    ensures Inv(g, H, Start(g, garbage))
  {
  }

  lemma {:induction false} RunSeenGrows(g: Geometry, H: seq<Byte> -> Digest, s: Cache, qs: seq<Request>, early: bool)
    requires Sound(g) && Shaped(g, s) && AllFit(g, qs)
    ensures s.seen <= Run(g, H, s, qs, early).0.seen
    decreases |qs|
  {
    if qs != [] {
      var s1 := Fetch(g, H, s, g.blockOf(qs[0].offset), qs[0].first, early).0;
      FetchSeenGrows(g, H, s, g.blockOf(qs[0].offset), qs[0].first, early);
      SeenGrows(g, H, s1, qs[0], early);
      hide Fetch, ReadOn;
      RunSeenGrows(g, H, HandleRead(g, H, s, qs[0], early).0, qs[1..], early);
    }
  }

  /** Every successful reply of a run agrees with the one file that the run ends up having pinned. */
  lemma {:induction false} RunServesOneFile(g: Geometry, H: seq<Byte> -> Digest, s: Cache, qs: seq<Request>, early: bool)
    requires Sound(g) && Inv(g, H, s)
    requires AllFit(g, qs) && AllAdmissible(g, qs)
    requires early || RunSafe(g, H, s, qs)
    requires CollisionFree(H, Run(g, H, s, qs, early).0.seen)
    ensures var (s', replies) := Run(g, H, s, qs, early);
            && Inv(g, H, s') && Extends(s.pins, s'.pins)
            && forall i | 0 <= i < |qs| :: ReplyAgrees(g, s'.pins, qs[i], replies[i])
    decreases |qs|
  {
    if qs != [] {
      var (s1, reply) := HandleRead(g, H, s, qs[0], early);
      var (s', replies) := Run(g, H, s1, qs[1..], early);
      RunSeenGrows(g, H, s1, qs[1..], early);
      hide HandleRead, Admissible, ReadSafe;
      ReadKeepsInv(g, H, s, qs[0], early);
      RunServesOneFile(g, H, s1, qs[1..], early);
      ReplyStaysRight(g, s1.pins, s'.pins, qs[0], reply);
      hide Inv, ReplyAgrees, CollisionFree;
    }
  }

  lemma ReplyStaysRight(g: Geometry, pins: map<nat, seq<Byte>>, pins': map<nat, seq<Byte>>, q: Request, reply: Reply)
    requires Sound(g) && Pinned(g, pins) && Pinned(g, pins') && Extends(pins, pins') && ReplyAgrees(g, pins, q, reply)
    ensures ReplyAgrees(g, pins', q, reply)
  {
    if reply.Data? {
      forall k | 0 <= k < |reply.bytes|
        ensures ByteAgrees(g, pins', q.offset + k, reply.bytes[k])
      {
        assert ByteAgrees(g, pins, q.offset + k, reply.bytes[k]);
      }
    }
  }

  /** The invariant at the head of fuse_sideload.cpp: two successful reads of one position agree. */
  lemma EachPositionReadsTheSame(g: Geometry, H: seq<Byte> -> Digest, garbage: seq<Byte>, qs: seq<Request>,
                                 early: bool, i: nat, j: nat, position: nat)
    requires Sound(g) && |garbage| == g.blockSize
    requires AllFit(g, qs) && AllAdmissible(g, qs)
    requires early || RunSafe(g, H, Start(g, garbage), qs)
    requires CollisionFree(H, Run(g, H, Start(g, garbage), qs, early).0.seen)
    requires i < |qs| && j < |qs|
    requires qs[i].offset <= position < qs[i].offset + qs[i].size
    requires qs[j].offset <= position < qs[j].offset + qs[j].size
    ensures var replies := Run(g, H, Start(g, garbage), qs, early).1;
            replies[i].Data? && replies[j].Data? ==>
              replies[i].bytes[position - qs[i].offset] == replies[j].bytes[position - qs[j].offset]
  {
    hide Run, RunSafe, CollisionFree, Admissible, Content, HandleRead;
    var (s', replies) := Run(g, H, Start(g, garbage), qs, early);
    StartInv(g, H, garbage);
    RunServesOneFile(g, H, Start(g, garbage), qs, early);
    assert ReplyAgrees(g, s'.pins, qs[i], replies[i]);
    assert ReplyAgrees(g, s'.pins, qs[j], replies[j]);
    if replies[i].Data? && replies[j].Data? {
      var k, l := position - qs[i].offset, position - qs[j].offset;
      assert ByteAgrees(g, s'.pins, qs[i].offset + k, replies[i].bytes[k]);
      assert ByteAgrees(g, s'.pins, qs[j].offset + l, replies[j].bytes[l]);
    }
  }
}