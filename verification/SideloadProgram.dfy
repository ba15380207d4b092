/**
 fuse_sideload.cpp: the 32-bit arithmetic of the block cache, and fetch_block and handle_read as
 they run on their buffers.
 */
module SideloadProgram {
  import opened Machine
  import opened Sideload

  datatype Config = Config(fileSize: nat, blockSize: nat)

  /** file_blocks is a uint32_t, so the number of blocks is truncated. */
  function FileBlocks(c: Config): nat
    requires c.blockSize > 0
  {
    if c.fileSize == 0 then 0 else U32((c.fileSize - 1) / c.blockSize + 1)
  }

  /** The size checks made before the file system is mounted. */
  predicate Legal(c: Config) {
    c.fileSize < TWO64 && 4096 <= c.blockSize <= 0x40_0000 && FileBlocks(c) <= 0x4_0000
  }

  /** The 32-bit product block * block_size decides how much of a block the host is asked for. */
  function FetchSize(c: Config, block: nat): int {
    AskFrom(c, block * c.blockSize)
  }

  function AskFrom(c: Config, start: nat): int {
    if U32(start) + c.blockSize > c.fileSize then c.fileSize - U32(start) else c.blockSize
  }

  lemma AskFromExactlyWhen(c: Config, start: nat)
    requires 0 < c.blockSize <= 0x40_0000 && start < c.fileSize
    ensures 0 < AskFrom(c, start) <= c.blockSize
    ensures AskFrom(c, start) == Min(c.blockSize, c.fileSize - start)
            <==> start < TWO32 || start + c.blockSize <= c.fileSize
  {
  }

  function BlockOf(c: Config, position: nat): nat
    requires c.blockSize > 0
  {
    U32(position / c.blockSize)
  }

  /** The uint32_t that handle_read uses to index the buffer. */
  function BlockOffset(c: Config, offset: nat): nat
    requires c.blockSize > 0
  {
    U32(offset - U32(BlockOf(c, offset) * c.blockSize))
  }

  function Geo(c: Config): Geometry
    requires c.blockSize > 0
  {
    Geometry(c.blockSize, FileBlocks(c), (b: nat) => FetchSize(c, b), (p: nat) => BlockOf(c, p), (p: nat) => BlockOffset(c, p))
  }

  // ---------------------------------------------------------------- arithmetic

  /** The offset arithmetic wraps twice, and the two wraps cancel. */
  lemma BlockOffsetIsRemainder(c: Config, offset: nat)
    requires 0 < c.blockSize < TWO32
    ensures BlockOffset(c, offset) == offset % c.blockSize
  {
    var q, r, b := offset / c.blockSize, offset % c.blockSize, c.blockSize;
    var q1 := q / TWO32;
    var q0 := q % TWO32;
    var product := q0 * b;
    var k := product / TWO32;
    assert offset == q * b + r;
    MulSplit(q1, TWO32, q0, b);
    assert offset - U32(product) == (q1 * b + k) * TWO32 + r;
    RemainderUnique(q1 * b + k, TWO32, r);
  }

  lemma QuotientOfNext(b: nat, offset: nat, k: nat)
    requires k < b
    ensures if offset % b + k < b
            then (offset + k) / b == offset / b && (offset + k) % b == offset % b + k
            else (offset + k) / b == offset / b + 1 && (offset + k) % b == offset % b + k - b
  {
    var block, at := offset / b, offset % b;
    assert offset == block * b + at;
    if at + k < b {
      RemainderUnique(block, b, at + k);
    } else {
      assert (block + 1) * b == block * b + b;
      RemainderUnique(block + 1, b, at + k - b);
    }
  }

  lemma NextBlock(c: Config, offset: nat, k: nat)
    requires k < c.blockSize
    ensures var at := offset % c.blockSize;
            if at + k < c.blockSize
            then BlockOf(c, offset + k) == BlockOf(c, offset) && (offset + k) % c.blockSize == at + k
            else BlockOf(c, offset + k) == U32(BlockOf(c, offset) + 1)
                 && (offset + k) % c.blockSize == at + k - c.blockSize
  {
    QuotientOfNext(c.blockSize, offset, k);
    NextWraps(offset / c.blockSize);
    hide U32;
  }

  lemma NextWraps(q: nat)
    ensures U32(q + 1) == U32(U32(q) + 1)
  {
  }

  lemma AdjacentBytes(c: Config, offset: nat, k: nat)
    requires 0 < c.blockSize < TWO32
    ensures Adjacent(Geo(c), offset, k)
  {
    hide BlockOffset, BlockOf, U32, FileBlocks, FetchSize;
    BlockOffsetIsRemainder(c, offset);
    BlockOffsetIsRemainder(c, offset + k);
    if k < c.blockSize {
      NextBlock(c, offset, k);
    }
  }

  lemma Located(c: Config, offset: nat)
    requires 0 < c.blockSize <= 0x40_0000
    ensures var g := Geo(c);
            && g.blockSize == c.blockSize < 0x8000_0000
            && g.blockOf(offset) == BlockOf(c, offset)
            && g.at(offset) == BlockOffset(c, offset) < c.blockSize
  {
    BlockOffsetIsRemainder(c, offset);
  }

  /** Blocks that exist start inside the file. */
  lemma BlockStartsInside(c: Config, block: nat)
    requires c.blockSize > 0 && block < FileBlocks(c)
    ensures block * c.blockSize < c.fileSize
  {
    var last := (c.fileSize - 1) / c.blockSize;
    ModBelow(last + 1, TWO32);
    assert last * c.blockSize + (c.fileSize - 1) % c.blockSize == c.fileSize - 1;
    MulMonotone(block, last, c.blockSize);
  }

  lemma FetchSizeBounds(c: Config, block: nat)
    requires 0 < c.blockSize <= 0x40_0000 && block < FileBlocks(c)
    ensures 0 < FetchSize(c, block) <= c.blockSize
  {
    BlockStartsInside(c, block);
    AskFromExactlyWhen(c, block * c.blockSize);
  }

  lemma GeometryIsSound(c: Config)
    requires Legal(c)
    ensures Sound(Geo(c))
  {
    var g := Geo(c);
    forall b | 0 <= b < g.blocks
      ensures 0 < g.ask(b) <= g.blockSize
    {
      FetchSizeBounds(c, b);
    }
    forall p: nat
      ensures 0 <= g.at(p) < g.blockSize
    {
      BlockOffsetIsRemainder(c, p);
    }
    forall offset: nat, k: nat
      ensures Adjacent(g, offset, k)
    {
      AdjacentBytes(c, offset, k);
    }
  }

  /** The host is asked for exactly the bytes that belong to the block unless the last, partial block starts at 4 GiB or later. */
  lemma FetchSizeExactlyWhen(c: Config, block: nat)
    requires Legal(c) && block < FileBlocks(c)
    ensures FetchSize(c, block) == Min(c.blockSize, c.fileSize - block * c.blockSize)
            <==> block * c.blockSize < TWO32 || block * c.blockSize + c.blockSize <= c.fileSize
  {
    BlockStartsInside(c, block);
    AskFromExactlyWhen(c, block * c.blockSize);
    hide AskFrom;
  }

  /** A file of 4 GiB and one byte in blocks of 4 MiB: for its last byte the host is asked for a whole block. */
  lemma LastByteOverasked()
    ensures var c := Config(TWO32 + 1, 0x40_0000);
            && Legal(c) && FileBlocks(c) == 1025
            && FetchSize(c, 1024) == 0x40_0000 && Min(c.blockSize, c.fileSize - 1024 * c.blockSize) == 1
            && SumOfFetches(c, FileBlocks(c)) != c.fileSize
  {
    var c := Config(TWO32 + 1, 0x40_0000);
    assert 1024 * c.blockSize == TWO32 && (c.fileSize - 1) / c.blockSize == 1024;
    FetchesCoverFileExactlyWhen(c);
    FetchSizeExactlyWhen(c, 1024);
  }

  /** Total number of bytes asked for when the first `blocks` blocks are each fetched once. */
  function SumOfFetches(c: Config, blocks: nat): int {
    if blocks == 0 then 0 else SumOfFetches(c, blocks - 1) + FetchSize(c, blocks - 1)
  }

  lemma {:induction false} FullBlocks(c: Config, blocks: nat)
    requires Legal(c) && blocks <= FileBlocks(c) && blocks * c.blockSize <= c.fileSize
    ensures SumOfFetches(c, blocks) == blocks * c.blockSize
  {
    if blocks > 0 {
      assert blocks * c.blockSize == (blocks - 1) * c.blockSize + c.blockSize;
      FullBlocks(c, blocks - 1);
      FetchSizeExactlyWhen(c, blocks - 1);
    }
  }

  /** Fetching every block asks for the whole file exactly when the block count was not truncated and no partial block starts at 4 GiB or later. */
  lemma FetchesCoverFileExactlyWhen(c: Config)
    requires Legal(c)
    ensures SumOfFetches(c, FileBlocks(c)) == c.fileSize <==>
            || c.fileSize == 0
            || (&& c.fileSize <= 0x4_0000 * c.blockSize
                && ((c.fileSize - 1) / c.blockSize * c.blockSize < TWO32 || c.fileSize % c.blockSize == 0))
  {
    if c.fileSize > 0 {
      var b, last := c.blockSize, (c.fileSize - 1) / c.blockSize;
      assert last * b + (c.fileSize - 1) % b == c.fileSize - 1;
      assert (last + 1) * b == last * b + b;
      if c.fileSize <= 0x4_0000 * b {
        NotTruncated(c);
        FullBlocks(c, last);
        FetchSizeExactlyWhen(c, last);
        LastBlockFull(c);
        FetchSizeBounds(c, last);
      } else {
        Truncated(c);
        FullBlocks(c, FileBlocks(c));
      }
    }
  }

  lemma NotTruncated(c: Config)
    requires Legal(c) && 0 < c.fileSize <= 0x4_0000 * c.blockSize
    ensures FileBlocks(c) == (c.fileSize - 1) / c.blockSize + 1
  {
    var last := (c.fileSize - 1) / c.blockSize;
    assert last * c.blockSize <= c.fileSize - 1;
    if last >= 0x4_0000 {
      MulMonotone(0x4_0000, last, c.blockSize);
    }
  }

  lemma Truncated(c: Config)
    requires Legal(c) && c.fileSize > 0x4_0000 * c.blockSize
    ensures FileBlocks(c) * c.blockSize < c.fileSize
  {
    MulMonotone(FileBlocks(c), 0x4_0000, c.blockSize);
  }

  lemma LastBlockFull(c: Config)
    requires c.blockSize > 0 && c.fileSize > 0
    ensures var last := (c.fileSize - 1) / c.blockSize;
            last * c.blockSize + c.blockSize <= c.fileSize <==> c.fileSize % c.blockSize == 0
  {
    var b, last, rest := c.blockSize, (c.fileSize - 1) / c.blockSize, (c.fileSize - 1) % c.blockSize;
    assert c.fileSize == last * b + rest + 1;
    if rest + 1 < b {
      RemainderUnique(last, b, rest + 1);
    } else {
      assert (last + 1) * b == last * b + b;
      RemainderUnique(last + 1, b, 0);
    }
  }

  // ---------------------------------------------------------------- the program's runs

  /** Reads below block 2^32 - 1 never meet the block number that marks an empty cache. */
  lemma LowReadsAreAdmissible(c: Config, q: Request)
    requires Legal(c) && q.size <= c.blockSize
    requires q.offset < NONE * c.blockSize && q.offset + q.size <= NONE * c.blockSize
    ensures Admissible(Geo(c), q)
  {
    Located(c, q.offset);
    BlockOffsetIsRemainder(c, q.offset);
    LowBlocks(c, q.offset, q.size);
    hide Geo, BlockOffset, BlockOf, FileBlocks;
  }

  lemma LowBlocks(c: Config, offset: nat, size: nat)
    requires size <= c.blockSize && c.blockSize > 0
    requires offset < NONE * c.blockSize && offset + size <= NONE * c.blockSize
    ensures BlockOf(c, offset) < NONE
    ensures offset % c.blockSize + size > c.blockSize ==> U32(BlockOf(c, offset) + 1) < NONE
  {
    hide U32;
    var b, q := c.blockSize, offset / c.blockSize;
    BlockBelow(b, offset, NONE);
    LowNumber(q);
    if offset % b + size > b {
      BlockBelow(b, offset + size - 1, NONE);
      QuotientOfNext(b, offset, size - 1);
      LowNumber(q + 1);
    }
  }

  lemma LowNumber(n: nat)
    requires n < NONE
    ensures U32(n) == n
  {
  }

  lemma BlockBelow(b: nat, position: nat, limit: nat)
    requires b > 0 && position < limit * b
    ensures position / b < limit
  {
    var block := position / b;
    assert position == block * b + position % b;
    if block >= limit {
      MulMonotone(limit, block, b);
    }
  }

  /** Up to 4 GiB, positions past the end of the file read as zero. */
  lemma PaddedWithZeros(c: Config, pins: map<nat, seq<Byte>>, position: nat)
    requires Legal(c) && Sound(Geo(c)) && Pinned(Geo(c), pins)
    requires c.fileSize <= position < TWO32 * c.blockSize && c.fileSize <= TWO32
    ensures FileByte(Geo(c), pins, position) == 0
  {
    BlockOffsetIsRemainder(c, position);
    if BlockOf(c, position) < FileBlocks(c) {
      PaddingNotAsked(c, position);
    }
    assert Geo(c).blocks == FileBlocks(c);
    hide BlockOf, BlockOffset, FetchSize, FileBlocks, Legal;
  }

  lemma PaddingNotAsked(c: Config, position: nat)
    requires c.blockSize > 0 && c.fileSize <= position < TWO32 * c.blockSize && c.fileSize <= TWO32
    requires BlockOf(c, position) < FileBlocks(c)
    ensures 0 <= FetchSize(c, BlockOf(c, position)) <= position % c.blockSize
  {
    LowBlock(c, position);
    var block := position / c.blockSize;
    assert position == block * c.blockSize + position % c.blockSize;
    BlockStartsInside(c, block);
    RemainderUnique(0, TWO32, block * c.blockSize);
  }

  lemma LowBlock(c: Config, position: nat)
    requires c.blockSize > 0 && position < TWO32 * c.blockSize
    ensures BlockOf(c, position) == position / c.blockSize
  {
    BlockBelow(c.blockSize, position, TWO32);
  }

  /** The stated invariant, for the program's own arithmetic; without `early` no fetch may fail while a block is cached. */
  lemma PackageReadsTheSame(c: Config, H: seq<Byte> -> Digest, garbage: seq<Byte>, qs: seq<Request>,
                            early: bool, i: nat, j: nat, position: nat)
    requires Legal(c) && Sound(Geo(c)) && |garbage| == c.blockSize && AllFit(Geo(c), qs)
    requires forall k | 0 <= k < |qs| :: qs[k].offset < NONE * c.blockSize && qs[k].offset + qs[k].size <= NONE * c.blockSize
    requires early || RunSafe(Geo(c), H, Start(Geo(c), garbage), qs)
    requires CollisionFree(H, Run(Geo(c), H, Start(Geo(c), garbage), qs, early).0.seen)
    requires i < |qs| && j < |qs|
    requires qs[i].offset <= position < qs[i].offset + qs[i].size
    requires qs[j].offset <= position < qs[j].offset + qs[j].size
    ensures var replies := Run(Geo(c), H, Start(Geo(c), garbage), qs, early).1;
            replies[i].Data? && replies[j].Data? ==>
              replies[i].bytes[position - qs[i].offset] == replies[j].bytes[position - qs[j].offset]
  {
    forall k | 0 <= k < |qs|
      ensures Admissible(Geo(c), qs[k])
    {
      LowReadsAreAdmissible(c, qs[k]);
    }
    hide Sound, Geo, Run, CollisionFree, Legal, RunSafe, Admissible;
    EachPositionReadsTheSame(Geo(c), H, garbage, qs, early, i, j, position);
  }

  /** The same position read twice, with a failing fetch of another block in between, gives 7 and then 9. */
  lemma FailureBreaksTheInvariant(H: seq<Byte> -> Digest)
    ensures var c := Config(8192, 4096);
            var qs := [Request(PACKAGE_FILE_ID, 0, 1, Answer(0, [7]), Answer(0, [])),
                       Request(PACKAGE_FILE_ID, 4096, 1, Answer(-EIO, [9]), Answer(0, [])),
                       Request(PACKAGE_FILE_ID, 0, 1, Answer(0, [7]), Answer(0, []))];
            && Legal(c) && Sound(Geo(c)) && AllFit(Geo(c), qs)
            && Run(Geo(c), H, Start(Geo(c), Zeros(4096)), qs, false).1 == [Data([7]), Errno(-EIO), Data([9])]
  {
    var c := Config(8192, 4096);
    var g := Geo(c);
    TwoBlocks();
    var q0 := Request(PACKAGE_FILE_ID, 0, 1, Answer(0, [7]), Answer(0, []));
    var q1 := Request(PACKAGE_FILE_ID, 4096, 1, Answer(-EIO, [9]), Answer(0, []));
    hide Sound, Geo, Legal;
    var s0 := Start(g, Zeros(4096));
    assert s0.hashes[0] == ZERO_DIGEST;
    hide Start;
    var s1 := FirstRead(g, H, s0, q0);
    var s2 := FailedRead(g, H, s1, q1);
    CachedRead(g, H, s2, q0);
    hide HandleRead;
    RunThree(g, H, s0, q0, q1, q0);
  }

  lemma TwoBlocks()
    ensures var c := Config(8192, 4096); var g := Geo(c);
            && Legal(c) && Sound(g) && g.blocks == 2 && g.blockSize == 4096
            && g.at(0) == 0 && g.at(4096) == 0 && g.blockOf(0) == 0 && g.blockOf(4096) == 1
  {
    GeometryIsSound(Config(8192, 4096));
    hide Sound;
  }

  /** A one-byte read at the start of a block never read before. */
  lemma FirstRead(g: Geometry, H: seq<Byte> -> Digest, s: Cache, q: Request) returns (s': Cache)
    requires Sound(g) && Shaped(g, s) && q.nodeid == PACKAGE_FILE_ID && q.size == 1 && g.at(q.offset) == 0
    requires g.blockOf(q.offset) < g.blocks && g.blockOf(q.offset) != s.curr
    requires s.hashes[g.blockOf(q.offset)] == ZERO_DIGEST && q.first.status == 0 && |q.first.bytes| == 1
    ensures HandleRead(g, H, s, q, false) == (s', Data(q.first.bytes))
    ensures s'.curr == g.blockOf(q.offset) && s'.data[0] == q.first.bytes[0] && Shaped(g, s')
  {
    s' := HandleRead(g, H, s, q, false).0;
    assert s'.data[0..1] == q.first.bytes;
  }

  /** A read whose block the host fails to deliver after having written one byte of it. */
  lemma FailedRead(g: Geometry, H: seq<Byte> -> Digest, s: Cache, q: Request) returns (s': Cache)
    requires Sound(g) && Shaped(g, s) && q.nodeid == PACKAGE_FILE_ID && q.size == 1
    requires g.blockOf(q.offset) < g.blocks && g.blockOf(q.offset) != s.curr
    requires q.first.status < 0 && |q.first.bytes| == 1
    ensures HandleRead(g, H, s, q, false) == (s', Errno(q.first.status))
    ensures s'.curr == s.curr && s'.data[0] == q.first.bytes[0] && Shaped(g, s')
  {
    s' := HandleRead(g, H, s, q, false).0;
  }

  lemma CachedRead(g: Geometry, H: seq<Byte> -> Digest, s: Cache, q: Request)
    requires Sound(g) && Shaped(g, s) && q.nodeid == PACKAGE_FILE_ID && q.size == 1 && g.at(q.offset) == 0
    requires g.blockOf(q.offset) == s.curr
    ensures HandleRead(g, H, s, q, false).1 == Data([s.data[0]])
  {
  }

  /** The test at line 335 of fuse_sideload.cpp, in 32 bits */
  predicate FitsInBlock(c: Config, at: nat, size: nat) {
    U32(size + at) <= c.blockSize
  }

  lemma SmallSum(c: Config, at: nat, size: nat)
    requires at <= c.blockSize && size <= c.blockSize && c.blockSize < 0x8000_0000
    ensures FitsInBlock(c, at, size) <==> at + size <= c.blockSize
  {
  }

  /** A read that starts at `at` in the block cached in s and spills over into the block `next` */
  function Across(c: Config, H: seq<Byte> -> Digest, s: Cache, next: nat, at: nat, size: nat, second: Answer): (Cache, Reply)
    requires Legal(c) && Sound(Geo(c)) && Shaped(Geo(c), s) && at <= c.blockSize && c.blockSize - at <= size <= c.blockSize
  {
    var (s2, r2) := Fetch(Geo(c), H, s, next, second, false);
    (s2, if r2 != 0 then Errno(r2) else Data(s.data[at..] + s2.data[..size - (c.blockSize - at)]))
  }

  /** The two cases of handle_read, in the program's own numbers */
  lemma ReadOnParts(c: Config, H: seq<Byte> -> Digest, s: Cache, q: Request, at: nat)
    requires Legal(c) && Sound(Geo(c)) && Shaped(Geo(c), s) && q.size <= c.blockSize && at == BlockOffset(c, q.offset)
    ensures at < c.blockSize == |s.data|
    ensures FitsInBlock(c, at, q.size) ==>
              at + q.size <= c.blockSize && ReadOn(Geo(c), H, s, q, false) == (s, Data(s.data[at..at + q.size]))
    ensures !FitsInBlock(c, at, q.size) ==>
              c.blockSize - at <= q.size && ReadOn(Geo(c), H, s, q, false) == Across(c, H, s, U32(BlockOf(c, q.offset) + 1), at, q.size, q.second)
  {
    Located(c, q.offset);
    SmallSum(c, at, q.size);
    ReadOnCases(Geo(c), H, s, q, false);
    hide Geo, BlockOf, BlockOffset, Fetch, ReadOn, Sound, Legal, U32, FitsInBlock;
  }

  lemma FilledIs(g: Geometry, s: Cache, block: nat, a: Answer, data: seq<Byte>)
    requires Sound(g) && Shaped(g, s) && block < g.blocks && |data| == g.blockSize
    requires forall i | 0 <= i < g.blockSize ::
               data[i] == if i >= g.ask(block) then 0 else if i < |a.bytes| then a.bytes[i] else s.data[i]
    ensures data == Filled(g, s, block, a)
  {
  }

  /** struct fuse_data, with fetch_block and handle_read. */
  class FuseData {
    const c: Config
    const sha: seq<Byte> -> Digest
    const blockData: array<Byte>
    const extraBlock: array<Byte>
    const hashes: array<Digest>
    var currBlock: nat
    ghost var pins: map<nat, seq<Byte>>
    ghost var seen: set<seq<Byte>>

    ghost predicate Valid() {
      && Legal(c) && Sound(Geo(c))
      && blockData.Length == c.blockSize && extraBlock.Length == c.blockSize && blockData != extraBlock
      && hashes.Length == FileBlocks(c)
    }

    ghost function State(): Cache
      reads this, blockData, hashes
    {
      Cache(currBlock, blockData[..], hashes[..], pins, seen)
    }

    constructor (c: Config, sha: seq<Byte> -> Digest)
      requires Legal(c)
      ensures Valid() && this.c == c && this.sha == sha && fresh(blockData) && fresh(extraBlock) && fresh(hashes)
      ensures State() == Start(Geo(c), blockData[..])
    {
      this.c, this.sha := c, sha;
      blockData, extraBlock := new Byte[c.blockSize], new Byte[c.blockSize];
      hashes := new Digest[FileBlocks(c)](i => ZERO_DIGEST);
      currBlock, pins, seen := NONE, map[], {};
      new;
      GeometryIsSound(c);
      assert hashes[..] == Start(Geo(c), blockData[..]).hashes;
    }

    /** The part of fetch_block that pads the buffer and lets the host fill it. */
    method AskHost(block: nat, a: Answer)
      requires Valid() && block < FileBlocks(c)
      modifies blockData
      ensures blockData[..] == Filled(Geo(c), old(State()), block, a)
    {
      ghost var before := State();
      FetchSizeBounds(c, block);
      assert Geo(c).ask(block) == FetchSize(c, block) && Geo(c).blockSize == c.blockSize && Geo(c).blocks == FileBlocks(c);
      hide Geo, Legal, FileBlocks, Sound;
      var start := U32(block * c.blockSize);
      var fetchSize: nat := c.blockSize;
      if start + fetchSize > c.fileSize {
        fetchSize := c.fileSize - start;
        forall i | fetchSize <= i < c.blockSize {
          blockData[i] := 0;
        }
      }
      assert fetchSize == Geo(c).ask(block);
      hide FetchSize, AskFrom, U32, Filled;
      var n := if |a.bytes| < fetchSize then |a.bytes| else fetchSize;
      forall i | 0 <= i < n {
        blockData[i] := a.bytes[i];
      }
      FilledIs(Geo(c), before, block, a, blockData[..]);
    }

    /** The part of fetch_block that verifies the digest of the block just received. */
    method CheckDigest(block: nat) returns (result: int)
      requires Valid() && block < FileBlocks(c)
      modifies this, hashes
      ensures (State(), result) == Check(sha, old(State()), block, old(blockData[..]))
    {
      hide Legal, FileBlocks, Sound;
      ghost var before := State();
      currBlock := block;
      var hash := sha(blockData[..]);
      seen := seen + {blockData[..]};
      if hash == hashes[block] {
        pins := if block in pins then pins else pins[block := blockData[..]];
        assert hashes[..] == before.hashes[block := hash];
        return 0;
      }
      for i := 0 to DIGEST_LENGTH
        invariant forall k | 0 <= k < i :: hashes[block][k] == 0
      {
        if hashes[block][i] != 0 {
          assert hashes[block] != ZERO_DIGEST;
          currBlock := NONE;
          return -EIO;
        }
      }
      assert hashes[block] == ZERO_DIGEST;
      hashes[block] := hash;
      pins := if block in pins then pins else pins[block := blockData[..]];
      return 0;
    }

    /** fetch_block, given what read_block does if it is called. */
    method FetchBlock(block: nat, a: Answer) returns (result: int)
      requires Valid()
      modifies this, blockData, hashes
      ensures (State(), result) == Fetch(Geo(c), sha, old(State()), block, a, false)
    {
      assert FileBlocks(c) == Geo(c).blocks;
      hide FileBlocks, FetchSize, BlockOf, BlockOffset, Filled;
      if block == currBlock {
        return 0;
      }
      if block >= FileBlocks(c) {
        forall i | 0 <= i < c.blockSize {
          blockData[i] := 0;
        }
        currBlock := block;
        assert blockData[..] == Zeros(c.blockSize) && hashes[..] == old(hashes[..]);
        return 0;
      }
      AskHost(block, a);
      assert hashes[..] == old(hashes[..]);
      if a.status < 0 {
        return a.status;
      }
      result := CheckDigest(block);
    }

    /** The case of handle_read in which the read spills over into the next block. */
    method ReadAcross(block: nat, blockOffset: nat, size: nat, second: Answer) returns (reply: Reply)
      requires Valid() && blockOffset < c.blockSize && c.blockSize - blockOffset <= size <= c.blockSize
      modifies this, blockData, extraBlock, hashes
      ensures (State(), reply) == Across(c, sha, old(State()), U32(block + 1), blockOffset, size, second)
    {
      assert c.blockSize == Geo(c).blockSize;
      hide Geo, Fetch, FileBlocks, Sound, Legal;
      ghost var s1 := State();
      forall i | 0 <= i < c.blockSize - blockOffset {
        extraBlock[i] := blockData[blockOffset + i];
      }
      assert extraBlock[..c.blockSize - blockOffset] == s1.data[blockOffset..];
      assert State() == s1 by {
        assert blockData[..] == s1.data && hashes[..] == s1.hashes;
      }
      var result := FetchBlock(U32(block + 1), second);
      if result != 0 {
        return Errno(result);
      }
      reply := Data(extraBlock[..c.blockSize - blockOffset] + blockData[..size - (c.blockSize - blockOffset)]);
      assert blockData[..size - (c.blockSize - blockOffset)] == State().data[..size - (c.blockSize - blockOffset)];
    }

    /** The case of handle_read in which the read fits into the block. */
    method ReadWithin(q: Request, blockOffset: nat) returns (reply: Reply)
      requires Valid() && q.size <= c.blockSize && blockOffset == BlockOffset(c, q.offset) && FitsInBlock(c, blockOffset, q.size)
      ensures (State(), reply) == ReadOn(Geo(c), sha, State(), q, false)
    {
      ReadOnParts(c, sha, State(), q, blockOffset);
      hide Across, Geo, BlockOf, BlockOffset, U32, Fetch, ReadOn, FileBlocks, Sound, Legal, FitsInBlock;
      reply := Data(blockData[..][blockOffset..blockOffset + q.size]);
    }

    /** The rest of handle_read once the block that the request starts in has been fetched. */
    method ReadCached(q: Request) returns (reply: Reply)
      requires Valid() && q.size <= c.blockSize
      modifies this, blockData, extraBlock, hashes
      ensures (State(), reply) == ReadOn(Geo(c), sha, old(State()), q, false)
    {
      ReadOnParts(c, sha, State(), q, BlockOffset(c, q.offset));
      hide Across, Geo, BlockOf, BlockOffset, U32, Fetch, ReadOn, FileBlocks, Sound, Legal, FitsInBlock, Shaped;
      var blockOffset := BlockOffset(c, q.offset);
      if FitsInBlock(c, blockOffset, q.size) {
        reply := ReadWithin(q, blockOffset);
      } else {
        reply := ReadAcross(BlockOf(c, q.offset), blockOffset, q.size, q.second);
      }
    }

    /** handle_read, for a request no longer than a block as max_read guarantees. */
    method Read(q: Request) returns (reply: Reply)
      requires Valid() && q.size <= c.blockSize
      modifies this, blockData, extraBlock, hashes
      ensures (State(), reply) == HandleRead(Geo(c), sha, old(State()), q, false)
    {
      if q.nodeid != PACKAGE_FILE_ID {
        return Errno(-ENOENT);
      }
      Located(c, q.offset);
      hide Geo, BlockOf, BlockOffset, Fetch, ReadOn, FileBlocks, Sound, Legal;
      var result := FetchBlock(BlockOf(c, q.offset), q.first);
      if result != 0 {
        reply := Errno(result);
      } else {
        reply := ReadCached(q);
      }
    }
  }
}