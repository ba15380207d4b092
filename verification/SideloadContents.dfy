/**
 fuse_sideload.cpp: which bytes a reader gets.  What the host sends for a block that was never read is what readers get
 of it, and a host that sends the blocks of one file serves that file, padded with zeros.
 */
module SideloadContents {
  import opened Machine
  import opened Sideload
  import opened SideloadProgram

  // ---------------------------------------------------------------- any host

  /** A fetch that asks the host: its bytes are in front, what it did not send is left as it was, and zeros follow. */
  lemma AskedBytesArrive(g: Geometry, H: seq<Byte> -> Digest, s: Cache, block: nat, a: Answer, early: bool, i: nat)
    requires Sound(g) && Shaped(g, s) && block != s.curr && block < g.blocks && i < g.blockSize
    ensures var data := Fetch(g, H, s, block, a, early).0.data;
            && |data| == g.blockSize
            && data[i] == if i >= g.ask(block) then 0 else if i < |a.bytes| then a.bytes[i] else s.data[i]
  {
  }

  /** A block whose stored digest is zero is accepted, and caches what the host sent. */
  lemma FreshFetch(g: Geometry, H: seq<Byte> -> Digest, s: Cache, block: nat, a: Answer, early: bool)
    requires Sound(g) && Shaped(g, s) && block != s.curr && block < g.blocks && s.hashes[block] == ZERO_DIGEST
    requires a.status >= 0 && |a.bytes| >= g.ask(block)
    ensures var (s', r) := Fetch(g, H, s, block, a, early);
            && r == 0 && s'.curr == block && Shaped(g, s')
            && s'.data == a.bytes[..g.ask(block)] + Zeros(g.blockSize - g.ask(block))
            && s'.hashes == s.hashes[block := H(s'.data)]
  {
    var s' := Fetch(g, H, s, block, a, early).0;
    var sent := a.bytes[..g.ask(block)] + Zeros(g.blockSize - g.ask(block));
    forall i | 0 <= i < g.blockSize
      ensures s'.data[i] == sent[i]
    {
      AskedBytesArrive(g, H, s, block, a, early, i);
    }
    assert s'.data == sent;
  }

  /** The first fetch of a block is accepted, and caches and pins what the host sent. */
  lemma FirstFetchDelivers(g: Geometry, H: seq<Byte> -> Digest, s: Cache, block: nat, a: Answer, early: bool)
    requires Sound(g) && Inv(g, H, s) && block != s.curr && block < g.blocks && block !in s.pins
    requires a.status >= 0 && |a.bytes| >= g.ask(block)
    ensures var (s', r) := Fetch(g, H, s, block, a, early);
            && r == 0 && s'.curr == block && Shaped(g, s')
            && s'.data == a.bytes[..g.ask(block)] + Zeros(g.blockSize - g.ask(block))
            && s'.pins == s.pins[block := s'.data]
            && s'.hashes == s.hashes[block := H(s'.data)]
  {
    FreshFetch(g, H, s, block, a, early);
  }

  /** A block that was read before is accepted when it comes back as it was; otherwise the reader gets error 5 (EIO). */
  lemma NextFetchVerdict(g: Geometry, H: seq<Byte> -> Digest, s: Cache, block: nat, a: Answer, early: bool)
    requires Sound(g) && Inv(g, H, s) && block != s.curr && block < g.blocks && block in s.pins
    requires a.status >= 0 && |a.bytes| >= g.ask(block)
    requires CollisionFree(H, Fetch(g, H, s, block, a, early).0.seen)
    ensures |s.pins[block]| == g.blockSize
    ensures var (s', r) := Fetch(g, H, s, block, a, early);
            if a.bytes[..g.ask(block)] == s.pins[block][..g.ask(block)]
            then r == 0 && s'.curr == block && s'.data == s.pins[block]
            else r == -5 && s'.curr == 0xFFFF_FFFF
  {
    var (s', r) := Fetch(g, H, s, block, a, early);
    var n := g.ask(block);
    CheckVerdict(g, H, s, block, s'.data);
    forall i | 0 <= i < g.blockSize
      ensures s'.data[i] == if i >= n then 0 else a.bytes[i]
    {
      AskedBytesArrive(g, H, s, block, a, early, i);
    }
    assert s'.data[..n] == a.bytes[..n];
    if a.bytes[..n] == s.pins[block][..n] {
      assert forall i | 0 <= i < n :: a.bytes[..n][i] == a.bytes[i] && s.pins[block][..n][i] == s.pins[block][i];
      assert s'.data == s.pins[block];
    }
  }

  /** A first read inside one block returns the host's bytes. */
  lemma FirstReadWithin(g: Geometry, H: seq<Byte> -> Digest, s: Cache, q: Request, early: bool)
    requires Sound(g) && Inv(g, H, s) && q.nodeid == 2 && g.at(q.offset) + q.size <= g.blockSize
    requires var block := g.blockOf(q.offset);
             && block != s.curr && block < g.blocks && block !in s.pins
             && q.first.status >= 0 && g.at(q.offset) + q.size <= g.ask(block) <= |q.first.bytes|
    ensures HandleRead(g, H, s, q, early).1 == Data(q.first.bytes[g.at(q.offset)..g.at(q.offset) + q.size])
  {
    var block, at := g.blockOf(q.offset), g.at(q.offset);
    FirstFetchDelivers(g, H, s, block, q.first, early);
    var s1 := Fetch(g, H, s, block, q.first, early).0;
    ReadOnCases(g, H, s1, q, early);
    hide Fetch, ReadOn, Inv;
    assert s1.data[at..at + q.size] == q.first.bytes[at..at + q.size];
  }

  /** A first read across two blocks returns the end of the first answer and the beginning of the second. */
  lemma FirstReadAcross(g: Geometry, H: seq<Byte> -> Digest, s: Cache, q: Request, early: bool)
    requires Sound(g) && Inv(g, H, s) && q.nodeid == 2 && q.size <= g.blockSize < g.at(q.offset) + q.size
    requires var block, next := g.blockOf(q.offset), U32(g.blockOf(q.offset) + 1);
             && block != s.curr && block < g.blocks && block !in s.pins
             && next != block && next < g.blocks && next !in s.pins
             && q.first.status >= 0 && g.blockSize == g.ask(block) <= |q.first.bytes|
             && q.second.status >= 0 && g.at(q.offset) + q.size - g.blockSize <= g.ask(next) <= |q.second.bytes|
    ensures var at := g.at(q.offset);
            HandleRead(g, H, s, q, early).1 ==
              Data(q.first.bytes[at..g.blockSize] + q.second.bytes[..at + q.size - g.blockSize])
  {
    var block, next, at := g.blockOf(q.offset), U32(g.blockOf(q.offset) + 1), g.at(q.offset);
    FirstFetchDelivers(g, H, s, block, q.first, early);
    var s1 := Fetch(g, H, s, block, q.first, early).0;
    assert next !in s1.pins && s1.hashes[next] == ZERO_DIGEST;
    FreshFetch(g, H, s1, next, q.second, early);
    var s2 := Fetch(g, H, s1, next, q.second, early).0;
    ReadOnCases(g, H, s1, q, early);
    hide Fetch, ReadOn, Inv;
    assert s1.data[at..] == q.first.bytes[at..g.blockSize];
    assert s2.data[..at + q.size - g.blockSize] == q.second.bytes[..at + q.size - g.blockSize];
  }

  /** Only node 2 is the package: for every other one, error 2 (ENOENT). */
  lemma OtherNodes(g: Geometry, H: seq<Byte> -> Digest, s: Cache, q: Request, early: bool)
    requires Sound(g) && Shaped(g, s) && q.size <= g.blockSize && q.nodeid != 2
    ensures HandleRead(g, H, s, q, early) == (s, Errno(-2))
  {
  }

  // ---------------------------------------------------------------- a host that has the file

  /** A byte of the file, or a zero past its end */
  function Padded(file: seq<Byte>, position: nat): Byte {
    if position < |file| then file[position] else 0
  }

  /** The answer for a block: as many bytes as the file has for it, and perhaps more. */
  predicate Honest(c: Config, file: seq<Byte>, block: nat, a: Answer) {
    block * c.blockSize < |file| ==>
      && a.status >= 0
      && |a.bytes| >= Min(c.blockSize, |file| - block * c.blockSize)
      && forall i | 0 <= i < Min(c.blockSize, |file| - block * c.blockSize) :: a.bytes[i] == file[block * c.blockSize + i]
  }

  predicate HonestRequest(c: Config, file: seq<Byte>, q: Request)
    requires c.blockSize > 0
  {
    Honest(c, file, q.offset / c.blockSize, q.first) && Honest(c, file, q.offset / c.blockSize + 1, q.second)
  }

  /** Requests for the package below the block number that marks an empty cache, all answered from the file */
  predicate HonestRun(c: Config, file: seq<Byte>, qs: seq<Request>)
    requires c.blockSize > 0
  {
    forall k | 0 <= k < |qs| ::
      && qs[k].nodeid == 2 && qs[k].size <= c.blockSize
      && qs[k].offset < 0xFFFF_FFFF * c.blockSize && qs[k].offset + qs[k].size <= 0xFFFF_FFFF * c.blockSize
      && HonestRequest(c, file, qs[k])
  }

  predicate ReplyIsFile(file: seq<Byte>, q: Request, reply: Reply) {
    && reply.Data? && |reply.bytes| == q.size
    && forall k | 0 <= k < q.size :: reply.bytes[k] == Padded(file, q.offset + k)
  }

  /** The block `b` of the padded file */
  predicate IsBlock(c: Config, file: seq<Byte>, b: nat, data: seq<Byte>) {
    |data| == c.blockSize && forall i | 0 <= i < c.blockSize :: data[i] == Padded(file, b * c.blockSize + i)
  }

  ghost predicate HonestInv(c: Config, file: seq<Byte>, H: seq<Byte> -> Digest, s: Cache)
    requires c.blockSize > 0
  {
    && Shaped(Geo(c), s)
    && (forall b, data | 0 <= b < FileBlocks(c) && IsBlock(c, file, b, data) ::
          s.hashes[b] == ZERO_DIGEST || s.hashes[b] == H(data))
    && (s.curr != NONE ==> IsBlock(c, file, s.curr, s.data))
  }

  /** The block count is not truncated and no partial block starts at 4 GiB or later. */
  predicate WholeFileAsked(c: Config)
    requires c.blockSize > 0
  {
    || c.fileSize == 0
    || (&& c.fileSize <= 0x4_0000 * c.blockSize
        && ((c.fileSize - 1) / c.blockSize * c.blockSize < TWO32 || c.fileSize % c.blockSize == 0))
  }

  lemma AsksForFile(c: Config, block: nat)
    requires Legal(c) && WholeFileAsked(c)
    ensures if block < FileBlocks(c)
            then block * c.blockSize < c.fileSize && FetchSize(c, block) == Min(c.blockSize, c.fileSize - block * c.blockSize)
            else block * c.blockSize >= c.fileSize
  {
    if c.fileSize > 0 {
      var last := (c.fileSize - 1) / c.blockSize;
      NotTruncated(c);
      assert last * c.blockSize + (c.fileSize - 1) % c.blockSize == c.fileSize - 1;
      assert (last + 1) * c.blockSize == last * c.blockSize + c.blockSize;
      if block <= last {
        BlockStartsInside(c, block);
        FetchSizeExactlyWhen(c, block);
        LastBlockFull(c);
        MulMonotone(block, last, c.blockSize);
        assert block * c.blockSize + c.blockSize == (block + 1) * c.blockSize;
        if block < last {
          MulMonotone(block + 1, last, c.blockSize);
        }
      } else {
        MulMonotone(last + 1, block, c.blockSize);
      }
    }
  }

  /** A fetch from an honest host succeeds and caches that block of the file. */
  lemma HonestFetch(c: Config, file: seq<Byte>, H: seq<Byte> -> Digest, s: Cache, block: nat, a: Answer)
    requires Legal(c) && Sound(Geo(c)) && WholeFileAsked(c) && |file| == c.fileSize
    requires HonestInv(c, file, H, s) && block != NONE && Honest(c, file, block, a)
    ensures var (s', r) := Fetch(Geo(c), H, s, block, a, false);
            r == 0 && s'.curr == block && HonestInv(c, file, H, s') && IsBlock(c, file, block, s'.data)
  {
    var g := Geo(c);
    AsksForFile(c, block);
    assert g.blocks == FileBlocks(c) && g.blockSize == c.blockSize && g.ask(block) == FetchSize(c, block);
    hide Geo, FileBlocks, FetchSize, Legal, WholeFileAsked, Sound;
    if block != s.curr {
      var s' := Fetch(g, H, s, block, a, false).0;
      if block < g.blocks {
        var data := Filled(g, s, block, a);
        forall i | 0 <= i < c.blockSize
          ensures data[i] == Padded(file, block * c.blockSize + i)
        {
          AskedBytesArrive(g, H, s, block, a, false, i);
        }
        assert IsBlock(c, file, block, data);
        hide Filled;
        SameBlock(c, file, block, data);
      } else {
        assert IsBlock(c, file, block, s'.data);
      }
    }
  }

  lemma SameBlock(c: Config, file: seq<Byte>, b: nat, data: seq<Byte>)
    requires IsBlock(c, file, b, data)
    ensures forall other | IsBlock(c, file, b, other) :: other == data
  {
  }

  /** Where a low request lies, without wrap-around */
  lemma LowPlaces(c: Config, offset: nat, size: nat)
    requires Legal(c) && size <= c.blockSize && offset < NONE * c.blockSize && offset + size <= NONE * c.blockSize
    ensures var g := Geo(c); var b, at := offset / c.blockSize, offset % c.blockSize;
            && g.blockSize == c.blockSize && g.at(offset) == at < c.blockSize && g.blockOf(offset) == b < NONE
            && (at + size > c.blockSize ==> U32(g.blockOf(offset) + 1) == b + 1 < NONE)
  {
    hide U32, FileBlocks, FetchSize;
    BlockOffsetIsRemainder(c, offset);
    hide BlockOffset;
    LowQuotient(c.blockSize, offset, NONE);
    LowNumber(offset / c.blockSize);
    if offset % c.blockSize + size > c.blockSize {
      NextQuotient(c.blockSize, offset, size, NONE);
      LowNumber(offset / c.blockSize + 1);
    }
  }

  lemma LowQuotient(b: nat, offset: nat, limit: nat)
    requires b > 0 && offset < limit * b
    ensures 0 <= offset / b < limit && 0 <= offset % b < b
  {
    BlockBelow(b, offset, limit);
  }

  lemma NextQuotient(b: nat, offset: nat, size: nat, limit: nat)
    requires b > 0 && size <= b < offset % b + size && offset + size <= limit * b
    ensures offset / b + 1 < limit
  {
    BlockBelow(b, offset + size - 1, limit);
    QuotientOfNext(b, offset, size - 1);
  }

  lemma Products(b: nat, offset: nat)
    requires b > 0
    ensures offset == offset / b * b + offset % b && (offset / b + 1) * b == offset / b * b + b
  {
  }

  /** A request answered by an honest host is answered with the bytes of the file. */
  lemma HonestRead(c: Config, file: seq<Byte>, H: seq<Byte> -> Digest, s: Cache, q: Request)
    requires Legal(c) && Sound(Geo(c)) && WholeFileAsked(c) && |file| == c.fileSize
    requires HonestInv(c, file, H, s) && q.size <= c.blockSize && HonestRun(c, file, [q])
    ensures var (s', reply) := HandleRead(Geo(c), H, s, q, false);
            HonestInv(c, file, H, s') && ReplyIsFile(file, q, reply)
  {
    assert [q][0] == q;
    LowPlaces(c, q.offset, q.size);
    hide Geo, FileBlocks, Legal, WholeFileAsked, Sound, Fetch, ReadOn, Honest, U32, IsBlock, ReplyIsFile;
    HonestFetch(c, file, H, s, q.offset / c.blockSize, q.first);
    Products(c.blockSize, q.offset);
    var s1, b, at := Fetch(Geo(c), H, s, q.offset / c.blockSize, q.first, false).0, q.offset / c.blockSize, q.offset % c.blockSize;
    if at + q.size <= c.blockSize {
      HonestWithin(c, file, H, s1, q, b, at);
    } else {
      HonestAcross(c, file, H, s1, q, b, at);
    }
  }

  /** The same for the part of handle_read after its first fetch, when the read fits into the block */
  lemma HonestWithin(c: Config, file: seq<Byte>, H: seq<Byte> -> Digest, s: Cache, q: Request, b: nat, at: nat)
    requires Legal(c) && Sound(Geo(c)) && Shaped(Geo(c), s) && IsBlock(c, file, b, s.data) && Geo(c).blockSize == c.blockSize
    requires Geo(c).at(q.offset) == at && q.offset == b * c.blockSize + at && at + q.size <= c.blockSize
    ensures var (s', reply) := ReadOn(Geo(c), H, s, q, false);
            s' == s && ReplyIsFile(file, q, reply)
  {
    ReadOnCases(Geo(c), H, s, q, false);
    hide *;
    WithinBlock(c, file, b, at, q, s.data);
  }

  /** And when it spills over into the next */
  lemma HonestAcross(c: Config, file: seq<Byte>, H: seq<Byte> -> Digest, s: Cache, q: Request, b: nat, at: nat)
    requires Legal(c) && Sound(Geo(c)) && WholeFileAsked(c) && |file| == c.fileSize && q.size <= c.blockSize == Geo(c).blockSize
    requires HonestInv(c, file, H, s) && Shaped(Geo(c), s) && IsBlock(c, file, b, s.data)
    requires Geo(c).at(q.offset) == at && U32(Geo(c).blockOf(q.offset) + 1) == b + 1 < NONE && Honest(c, file, b + 1, q.second)
    requires at < c.blockSize < at + q.size && q.offset == b * c.blockSize + at && (b + 1) * c.blockSize == b * c.blockSize + c.blockSize
    ensures var (s', reply) := ReadOn(Geo(c), H, s, q, false);
            HonestInv(c, file, H, s') && ReplyIsFile(file, q, reply)
  {
    ReadOnCases(Geo(c), H, s, q, false);
    hide *;
    HonestFetch(c, file, H, s, b + 1, q.second);
    AcrossBlocks(c, file, b, at, q, s.data, Fetch(Geo(c), H, s, b + 1, q.second, false).0.data);
  }

  lemma WithinBlock(c: Config, file: seq<Byte>, b: nat, at: nat, q: Request, data: seq<Byte>)
    requires IsBlock(c, file, b, data) && q.offset == b * c.blockSize + at && at + q.size <= c.blockSize
    ensures ReplyIsFile(file, q, Data(data[at..at + q.size]))
  {
    hide Padded;
    var bytes := data[at..at + q.size];
    forall k | 0 <= k < q.size
      ensures bytes[k] == Padded(file, q.offset + k)
    {
      assert bytes[k] == data[at + k];
    }
  }

  lemma AcrossBlocks(c: Config, file: seq<Byte>, b: nat, at: nat, q: Request, data: seq<Byte>, next: seq<Byte>)
    requires IsBlock(c, file, b, data) && IsBlock(c, file, b + 1, next) && (b + 1) * c.blockSize == b * c.blockSize + c.blockSize
    requires q.offset == b * c.blockSize + at && at <= c.blockSize && q.size <= c.blockSize <= at + q.size
    ensures ReplyIsFile(file, q, Data(data[at..] + next[..q.size - (c.blockSize - at)]))
  {
    hide Padded;
    var rest := c.blockSize - at;
    var bytes := data[at..] + next[..q.size - rest];
    forall k | 0 <= k < q.size
      ensures bytes[k] == Padded(file, q.offset + k)
    {
      if k < rest {
        assert bytes[k] == data[at + k];
      } else {
        assert bytes[k] == next[k - rest];
        assert (b + 1) * c.blockSize + (k - rest) == q.offset + k;
      }
    }
  }

  /** Over whole runs with an honest host every read succeeds and returns the bytes of the padded file. */
  lemma {:induction false} RunServesTheFile(c: Config, file: seq<Byte>, H: seq<Byte> -> Digest, s: Cache, qs: seq<Request>)
    requires Legal(c) && Sound(Geo(c)) && WholeFileAsked(c) && |file| == c.fileSize
    requires HonestInv(c, file, H, s) && AllFit(Geo(c), qs) && HonestRun(c, file, qs)
    ensures forall i | 0 <= i < |qs| :: ReplyIsFile(file, qs[i], Run(Geo(c), H, s, qs, false).1[i])
    decreases |qs|
  {
    if qs != [] {
      var (s1, reply) := HandleRead(Geo(c), H, s, qs[0], false);
      forall k | 0 <= k < |qs[1..]|
        ensures qs[1..][k] == qs[k + 1]
      {
      }
      assert HonestRun(c, file, [qs[0]]) && HonestRun(c, file, qs[1..]);
      hide HandleRead, HonestInv, ReplyIsFile, Legal, Sound, WholeFileAsked, HonestRun;
      HonestRead(c, file, H, s, qs[0]);
      RunServesTheFile(c, file, H, s1, qs[1..]);
    }
  }

  /** Every honest run of the program replies with the bytes of the file, whatever the file and the buffer hold. */
  ghost predicate ServesFiles(c: Config, H: seq<Byte> -> Digest)
    requires Legal(c) && Sound(Geo(c))
  {
    forall file: seq<Byte>, garbage: seq<Byte>, qs: seq<Request>, i: nat ::
      |file| == c.fileSize && |garbage| == c.blockSize && AllFit(Geo(c), qs) && HonestRun(c, file, qs) && i < |qs|
      ==> ReplyIsFile(file, qs[i], Run(Geo(c), H, Start(Geo(c), garbage), qs, false).1[i])
  }

  function Ones(n: nat): (s: seq<Byte>)
    ensures |s| == n
    ensures forall i | 0 <= i < n :: s[i] == 1
  {
    seq(n, i => 1)
  }

  /** One byte at `position` of a file of ones, with `sent` ones for its block and a whole block for the next one */
  function AskOne(c: Config, position: nat, sent: nat): Request {
    Request(PACKAGE_FILE_ID, position, 1, Answer(0, Ones(sent)), Answer(0, Ones(c.blockSize)))
  }

  lemma RunOne(g: Geometry, H: seq<Byte> -> Digest, s: Cache, q: Request)
    requires Sound(g) && Shaped(g, s) && q.size <= g.blockSize
    ensures AllFit(g, [q]) && Run(g, H, s, [q], false).1 == [HandleRead(g, H, s, q, false).1]
  {
    hide HandleRead;
    RunNone(g, H, HandleRead(g, H, s, q, false).0);
    RunFirst(g, H, s, q, []);
    hide Run;
    assert [q] + [] == [q] && [HandleRead(g, H, s, q, false).1] + [] == [HandleRead(g, H, s, q, false).1];
  }

  /** A run of one request */
  lemma ServesOne(c: Config, H: seq<Byte> -> Digest, file: seq<Byte>, garbage: seq<Byte>, q: Request)
    requires Legal(c) && Sound(Geo(c)) && ServesFiles(c, H) && |file| == c.fileSize && |garbage| == c.blockSize
    requires q.size <= c.blockSize && HonestRun(c, file, [q])
    ensures ReplyIsFile(file, q, HandleRead(Geo(c), H, Start(Geo(c), garbage), q, false).1)
  {
    assert Shaped(Geo(c), Start(Geo(c), garbage)) && Geo(c).blockSize == c.blockSize;
    hide Sound, ReplyIsFile, HandleRead, HonestRun, Start, Geo, Shaped;
    RunOne(Geo(c), H, Start(Geo(c), garbage), q);
    hide Run;
    assert [q][0] == q;
  }

  /** A run of this one request does not reply with the file. */
  lemma OneWrongReply(c: Config, H: seq<Byte> -> Digest, position: nat, sent: nat)
    requires Legal(c) && Sound(Geo(c)) && Shaped(Geo(c), Start(Geo(c), Ones(c.blockSize))) && Geo(c).blockSize == c.blockSize
    requires HandleRead(Geo(c), H, Start(Geo(c), Ones(c.blockSize)), AskOne(c, position, sent), false).1
             == Data([1 - Padded(Ones(c.fileSize), position)])
    requires HonestRun(c, Ones(c.fileSize), [AskOne(c, position, sent)])
    ensures !ServesFiles(c, H)
  {
    var s, q, file := Start(Geo(c), Ones(c.blockSize)), AskOne(c, position, sent), Ones(c.fileSize);
    assert Shaped(Geo(c), s) && Geo(c).blockSize == c.blockSize;
    hide HandleRead, Sound, Start, Geo, ServesFiles, Shaped, HonestRun, Honest;
    var reply := HandleRead(Geo(c), H, s, q, false).1;
    assert reply.bytes[0] != Padded(file, q.offset + 0);
    if ServesFiles(c, H) {
      ServesOne(c, H, file, Ones(c.blockSize), q);
    }
  }

  lemma AskOneIsHonest(c: Config, position: nat, sent: nat)
    requires c.blockSize > 0 && position + 1 <= NONE * c.blockSize
    requires Honest(c, Ones(c.fileSize), position / c.blockSize, Answer(0, Ones(sent)))
    ensures HonestRun(c, Ones(c.fileSize), [AskOne(c, position, sent)])
  {
    SecondIsHonest(c, position / c.blockSize + 1);
    hide Honest;
  }

  lemma SecondIsHonest(c: Config, block: nat)
    ensures Honest(c, Ones(c.fileSize), block, Answer(0, Ones(c.blockSize)))
  {
  }

  /** Where the block count is truncated, the blocks that are missing read as zeros. */
  lemma MissingBlocks(c: Config, H: seq<Byte> -> Digest)
    requires Legal(c) && Sound(Geo(c)) && c.fileSize > 0x4_0000 * c.blockSize
    ensures !ServesFiles(c, H)
  {
    Truncated(c);
    var block, b := FileBlocks(c), c.blockSize;
    var p := block * b;
    hide FileBlocks;
    MulMonotone(block, 0x4_0000, b);
    RemainderUnique(block, b, 0);
    LowPlaces(c, p, 1);
    ZeroRead(Geo(c), H, Start(Geo(c), Ones(b)), AskOne(c, p, b));
    AskOneIsHonest(c, p, b);
    OneWrongReply(c, H, p, b);
  }

  lemma ZeroRead(g: Geometry, H: seq<Byte> -> Digest, s: Cache, q: Request)
    requires Sound(g) && Shaped(g, s) && q.nodeid == PACKAGE_FILE_ID && q.size == 1 && g.at(q.offset) == 0
    requires g.blockOf(q.offset) >= g.blocks && g.blockOf(q.offset) != s.curr
    ensures HandleRead(g, H, s, q, false).1 == Data([0])
  {
    var s1 := Fetch(g, H, s, g.blockOf(q.offset), q.first, false).0;
    ReadOnCases(g, H, s1, q, false);
    assert s1.data[0..1] == [0];
  }

  /** Where a last, partial block starts at 4 GiB or later, what the buffer held shows behind the end of the file. */
  lemma OldBufferShows(c: Config, H: seq<Byte> -> Digest)
    requires Legal(c) && Sound(Geo(c)) && 0 < c.fileSize <= 0x4_0000 * c.blockSize
    requires (c.fileSize - 1) / c.blockSize * c.blockSize >= TWO32 && c.fileSize % c.blockSize != 0
    ensures !ServesFiles(c, H)
  {
    var b, last, p := c.blockSize, (c.fileSize - 1) / c.blockSize, c.fileSize;
    NotTruncated(c);
    LastPartial(c);
    AskedWhole(c, last);
    assert Geo(c).blocks == last + 1 && Geo(c).ask(last) == b;
    hide FileBlocks, FetchSize;
    LowPlaces(c, p, 1);
    OldByteRead(Geo(c), H, Start(Geo(c), Ones(b)), AskOne(c, p, p - last * b));
    AskOneIsHonest(c, p, p - last * b);
    hide Sound, HandleRead;
    OneWrongReply(c, H, p, p - last * b);
  }

  /** The end of the file lies in its last block, which is partial. */
  lemma LastPartial(c: Config)
    requires 0 < c.blockSize <= 0x40_0000 && 0 < c.fileSize <= 0x4_0000 * c.blockSize && c.fileSize % c.blockSize != 0
    ensures var last := (c.fileSize - 1) / c.blockSize;
            && c.fileSize / c.blockSize == last && c.fileSize % c.blockSize == c.fileSize - last * c.blockSize
            && last * c.blockSize < c.fileSize < last * c.blockSize + c.blockSize
            && c.fileSize + 1 <= 0xFFFF_FFFF * c.blockSize
  {
    var b, last := c.blockSize, (c.fileSize - 1) / c.blockSize;
    Products(b, c.fileSize - 1);
    LastBlockFull(c);
    RemainderUnique(last, b, c.fileSize - last * b);
  }

  lemma AskedWhole(c: Config, block: nat)
    requires Legal(c) && TWO32 <= block * c.blockSize < c.fileSize < block * c.blockSize + c.blockSize
    ensures FetchSize(c, block) == c.blockSize
  {
    var start := block * c.blockSize;
    assert U32(start) <= start - TWO32;
    hide U32;
  }

  /** The byte behind a short first answer is the one that the buffer held. */
  lemma OldByteRead(g: Geometry, H: seq<Byte> -> Digest, s: Cache, q: Request)
    requires Sound(g) && Shaped(g, s) && q.nodeid == PACKAGE_FILE_ID && q.size == 1
    requires g.blockOf(q.offset) < g.blocks && g.blockOf(q.offset) != s.curr && s.hashes[g.blockOf(q.offset)] == ZERO_DIGEST
    requires q.first.status >= 0 && |q.first.bytes| <= g.at(q.offset) < g.ask(g.blockOf(q.offset))
    ensures HandleRead(g, H, s, q, false).1 == Data([s.data[g.at(q.offset)]])
  {
    var at := g.at(q.offset);
    var s1 := Fetch(g, H, s, g.blockOf(q.offset), q.first, false).0;
    AskedBytesArrive(g, H, s, g.blockOf(q.offset), q.first, false, at);
    ReadOnCases(g, H, s1, q, false);
    assert s1.data[at..at + 1] == [s.data[at]];
  }

  lemma StartIsHonest(c: Config, file: seq<Byte>, H: seq<Byte> -> Digest, garbage: seq<Byte>)
    requires c.blockSize > 0 && |garbage| == c.blockSize
    ensures HonestInv(c, file, H, Start(Geo(c), garbage))
  {
  }

  /** The program serves every file that the host has exactly when the file is asked for as a whole. */
  lemma ServesFilesExactlyWhen(c: Config, H: seq<Byte> -> Digest)
    requires Legal(c) && Sound(Geo(c))
    ensures ServesFiles(c, H) <==>
            || c.fileSize == 0
            || (&& c.fileSize <= 0x4_0000 * c.blockSize
                && ((c.fileSize - 1) / c.blockSize * c.blockSize < 0x1_0000_0000 || c.fileSize % c.blockSize == 0))
  {
    if WholeFileAsked(c) {
      forall file: seq<Byte>, garbage: seq<Byte>, qs: seq<Request>, i: nat
        | |file| == c.fileSize && |garbage| == c.blockSize && AllFit(Geo(c), qs) && HonestRun(c, file, qs) && i < |qs|
        ensures ReplyIsFile(file, qs[i], Run(Geo(c), H, Start(Geo(c), garbage), qs, false).1[i])
      {
        StartIsHonest(c, file, H, garbage);
        hide HonestInv, ReplyIsFile, Run, HonestRun, AllFit, Start, Geo, Sound, Legal;
        RunServesTheFile(c, file, H, Start(Geo(c), garbage), qs);
      }
    } else if c.fileSize > 0x4_0000 * c.blockSize {
      MissingBlocks(c, H);
    } else {
      OldBufferShows(c, H);
    }
  }
}
