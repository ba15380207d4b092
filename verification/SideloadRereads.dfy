/**
 fuse_sideload.cpp: when the promise of the sideload file system survives a failing host.  A block is cached, a
 request of any kind comes in between, and any part of the block is read again.
 */
module SideloadRereads {
  import opened Machine
  import opened Sideload
  import opened SideloadProgram

  /** A read inside of the cached block */
  predicate ReadsCached(g: Geometry, s: Cache, q: Request) {
    q.nodeid == PACKAGE_FILE_ID && g.at(q.offset) + q.size <= g.blockSize && g.blockOf(q.offset) == s.curr != NONE
  }

  /** A read of its first byte */
  predicate ReadsFirst(g: Geometry, s: Cache, q: Request) {
    ReadsCached(g, s, q) && q.size == 1 && g.at(q.offset) == 0
  }

  /** The request makes the host fail while the block is cached: by its first fetch, or by its second if it starts in the block. */
  predicate Harms(g: Geometry, s: Cache, f: Request) {
    var b, next := g.blockOf(f.offset), U32(g.blockOf(f.offset) + 1);
    if b != s.curr then b < g.blocks && f.first.status < 0
    else g.at(f.offset) + f.size > g.blockSize && next != s.curr && next < g.blocks && f.second.status < 0
  }

  /** The same request, with other bytes from the host */
  function Sending(f: Request, b1: seq<Byte>, b2: seq<Byte>): (r: Request)
    ensures r.offset == f.offset && r.size == f.size
  {
    f.(first := Answer(f.first.status, b1), second := Answer(f.second.status, b2))
  }

  /** Pins and digests are in order, and so is the cache if it holds block c. */
  ghost predicate KeepsFor(g: Geometry, H: seq<Byte> -> Digest, s: Cache, c: nat) {
    Inv(g, H, s.(curr := NONE)) && (s.curr == c ==> Inv(g, H, s))
  }

  /** A fetch that leaves block c alone: it is not a failing fetch of another block while c is cached. */
  predicate Spares(g: Geometry, s: Cache, block: nat, a: Answer, c: nat) {
    s.curr == c ==> FetchSafe(g, s, block, a)
  }

  lemma CheckForgets(g: Geometry, H: seq<Byte> -> Digest, s: Cache, block: nat, data: seq<Byte>)
    requires block < |s.hashes|
    ensures Check(H, s, block, data) == Check(H, s.(curr := NONE), block, data)
  {
  }

  lemma FetchKeepsFor(g: Geometry, H: seq<Byte> -> Digest, s: Cache, block: nat, a: Answer, c: nat)
    requires Sound(g) && KeepsFor(g, H, s, c) && block != NONE && c != NONE
    requires Spares(g, s, block, a, c)
    requires CollisionFree(H, Fetch(g, H, s, block, a, false).0.seen)
    ensures var (s', r) := Fetch(g, H, s, block, a, false);
            KeepsFor(g, H, s', c) && Extends(s.pins, s'.pins) && (r == 0 ==> s'.curr == block)
  {
    if block != s.curr && block < g.blocks && a.status >= 0 {
      var data := Filled(g, s, block, a);
      CheckForgets(g, H, s, block, data);
      CheckKeepsInv(g, H, s.(curr := NONE), block, data);
    }
  }

  /** A part of block c, if that is pinned or past the end, is delivered as it was or not at all. */
  lemma DeliveredAsBefore(g: Geometry, H: seq<Byte> -> Digest, s: Cache, q: Request, c: nat)
    requires Sound(g) && KeepsFor(g, H, s, c) && c != NONE
    requires q.nodeid == PACKAGE_FILE_ID && g.at(q.offset) + q.size <= g.blockSize && g.blockOf(q.offset) == c
    requires c < g.blocks ==> c in s.pins
    requires CollisionFree(H, HandleRead(g, H, s, q, false).0.seen)
    ensures |Content(g, s.pins, c)| == g.blockSize
    ensures HandleRead(g, H, s, q, false).1.Data? ==>
              HandleRead(g, H, s, q, false).1 == Data(Content(g, s.pins, c)[g.at(q.offset)..g.at(q.offset) + q.size])
  {
    var (s', r) := Fetch(g, H, s, c, q.first, false);
    ReadOnCases(g, H, s', q, false);
    if r == 0 {
      if c != s.curr && c < g.blocks {
        CheckForgets(g, H, s, c, Filled(g, s, c, q.first));
        CheckVerdict(g, H, s.(curr := NONE), c, Filled(g, s, c, q.first));
      }
      assert s'.data == Content(g, s.pins, c);
    }
  }

  /** A request that does no harm leaves the cached block as it was. */
  lemma HarmlessKeeps(g: Geometry, H: seq<Byte> -> Digest, s: Cache, f: Request)
    requires Sound(g) && Inv(g, H, s) && s.curr != NONE && f.size <= g.blockSize && Admissible(g, f)
    requires f.nodeid == PACKAGE_FILE_ID ==> !Harms(g, s, f)
    requires CollisionFree(H, HandleRead(g, H, s, f, false).0.seen)
    ensures var s' := HandleRead(g, H, s, f, false).0;
            KeepsFor(g, H, s', s.curr) && Extends(s.pins, s'.pins)
  {
    if f.nodeid == PACKAGE_FILE_ID {
      var (s1, r1) := Fetch(g, H, s, g.blockOf(f.offset), f.first, false);
      SeenGrows(g, H, s1, f, false);
      hide Inv, ReadOn, Fetch, Extends;
      FetchKeepsFor(g, H, s, g.blockOf(f.offset), f.first, s.curr);
      if r1 == 0 {
        ReadOnCases(g, H, s1, f, false);
        if g.at(f.offset) + f.size > g.blockSize {
          FetchKeepsFor(g, H, s1, U32(g.blockOf(f.offset) + 1), f.second, s.curr);
          ExtendsTransitive(s.pins, s1.pins, ReadOn(g, H, s1, f, false).0.pins);
        }
      }
    }
  }

  /** A request that does harm can leave any first byte in the cached block. */
  lemma HarmfulChanges(g: Geometry, H: seq<Byte> -> Digest, s: Cache, f: Request, other: Byte)
    requires Sound(g) && Shaped(g, s) && s.curr != NONE && f.size <= g.blockSize && f.nodeid == PACKAGE_FILE_ID && Harms(g, s, f)
    ensures var s' := HandleRead(g, H, s, Sending(f, [other], [other]), false).0;
            s'.curr == s.curr && s'.data[0] == other && s'.seen == s.seen
  {
    var f' := Sending(f, [other], [other]);
    if g.blockOf(f.offset) == s.curr {
      ReadOnCases(g, H, s, f', false);
    }
  }

  /**
   From every state that keeps the invariant: all reads inside of the cached block are answered as before a request, if
   they are answered, whatever bytes the host sends, if and only if the request does not make the host fail while
   the block is cached.  `first` is one of these reads.
   */
  lemma RereadsTheSameExactlyWhen(g: Geometry, H: seq<Byte> -> Digest, s: Cache, f: Request, first: Request)
    requires Sound(g) && Inv(g, H, s) && CollisionFree(H, s.seen)
    requires ReadsFirst(g, s, first) && f.size <= g.blockSize && Admissible(g, f)
    ensures (forall q, b1, b2 | ReadsCached(g, s, q) :: RereadsTheSame(g, H, s, Sending(f, b1, b2), q))
       <==> f.nodeid != PACKAGE_FILE_ID || !Harms(g, s, f)
  {
    if f.nodeid != PACKAGE_FILE_ID || !Harms(g, s, f) {
      forall q, b1, b2 | ReadsCached(g, s, q)
        ensures RereadsTheSame(g, H, s, Sending(f, b1, b2), q)
      {
        HarmlessReread(g, H, s, Sending(f, b1, b2), q);
      }
    } else {
      HarmfulReread(g, H, s, f, first);
    }
  }

  /** A read inside of the cached block changes nothing. */
  lemma CachedReply(g: Geometry, H: seq<Byte> -> Digest, s: Cache, q: Request)
    requires Sound(g) && Shaped(g, s) && ReadsCached(g, s, q)
    ensures HandleRead(g, H, s, q, false) == (s, Data(s.data[g.at(q.offset)..g.at(q.offset) + q.size]))
  {
    ReadOnCases(g, H, s, q, false);
  }

  /** The reply to q after f, if it is a success, is the one that q has before f. */
  ghost predicate RereadsTheSame(g: Geometry, H: seq<Byte> -> Digest, s: Cache, f: Request, q: Request)
    requires Sound(g) && Shaped(g, s) && f.size <= g.blockSize && q.size <= g.blockSize
  {
    var (s', reply) := HandleRead(g, H, HandleRead(g, H, s, f, false).0, q, false);
    CollisionFree(H, s'.seen) && reply.Data? ==> reply == HandleRead(g, H, s, q, false).1
  }

  lemma HarmlessReread(g: Geometry, H: seq<Byte> -> Digest, s: Cache, f: Request, q: Request)
    requires Sound(g) && Inv(g, H, s) && ReadsCached(g, s, q) && f.size <= g.blockSize && Admissible(g, f)
    requires f.nodeid == PACKAGE_FILE_ID ==> !Harms(g, s, f)
    ensures RereadsTheSame(g, H, s, f, q)
  {
    hide Harms, Admissible, KeepsFor, Content, Extends, Fetch, ReadOn, HandleRead;
    var s1 := HandleRead(g, H, s, f, false).0;
    var (s2, reply) := HandleRead(g, H, s1, q, false);
    CachedReply(g, H, s, q);
    if CollisionFree(H, s2.seen) && reply.Data? {
      ReadSeenGrows(g, H, s1, q);
      HarmlessKeeps(g, H, s, f);
      CachedContent(g, H, s, s1);
      DeliveredAsBefore(g, H, s1, q, s.curr);
    }
  }

  lemma CachedContent(g: Geometry, H: seq<Byte> -> Digest, s: Cache, s1: Cache)
    requires Sound(g) && Inv(g, H, s) && s.curr != NONE && Extends(s.pins, s1.pins) && KeepsFor(g, H, s1, s.curr)
    ensures Content(g, s1.pins, s.curr) == s.data && (s.curr < g.blocks ==> s.curr in s1.pins)
  {
  }

  lemma ReadSeenGrows(g: Geometry, H: seq<Byte> -> Digest, s: Cache, q: Request)
    requires Sound(g) && Shaped(g, s) && q.size <= g.blockSize
    ensures s.seen <= HandleRead(g, H, s, q, false).0.seen
  {
    FetchSeenGrows(g, H, s, g.blockOf(q.offset), q.first, false);
    SeenGrows(g, H, Fetch(g, H, s, g.blockOf(q.offset), q.first, false).0, q, false);
    hide Fetch, ReadOn;
  }

  lemma HarmfulReread(g: Geometry, H: seq<Byte> -> Digest, s: Cache, f: Request, first: Request)
    requires Sound(g) && Shaped(g, s) && CollisionFree(H, s.seen)
    requires ReadsFirst(g, s, first) && f.size <= g.blockSize && f.nodeid == PACKAGE_FILE_ID && Harms(g, s, f)
    ensures exists b1, b2 :: !RereadsTheSame(g, H, s, Sending(f, b1, b2), first)
  {
    var other: Byte := if s.data[0] == 0 then 1 else 0;
    HarmfulChanges(g, H, s, f, other);
    hide HandleRead;
    var f' := Sending(f, [other], [other]);
    CachedReply(g, H, HandleRead(g, H, s, f', false).0, first);
    CachedReply(g, H, s, first);
    assert !RereadsTheSame(g, H, s, f', first);
  }

  // ---------------------------------------------------------------- whole runs

  /** In the run of qs, q, f and q again, both replies to q agree if the second is a success. */
  ghost predicate RunRereads(c: Config, H: seq<Byte> -> Digest, garbage: seq<Byte>, qs: seq<Request>, f: Request, q: Request)
    requires Legal(c) && Sound(Geo(c)) && |garbage| == c.blockSize
    requires AllFit(Geo(c), qs) && f.size <= c.blockSize && q.size <= c.blockSize
  {
    assert AllFit(Geo(c), qs + [q, f, q]);
    var (s', replies) := Run(Geo(c), H, Start(Geo(c), garbage), qs + [q, f, q], false);
    CollisionFree(H, s'.seen) && replies[|qs| + 2].Data? ==> replies[|qs| + 2] == replies[|qs|]
  }

  /** Block numbers have 32 bits. */
  lemma {:induction false} CurrBelow(c: Config, H: seq<Byte> -> Digest, s: Cache, qs: seq<Request>)
    requires Legal(c) && Sound(Geo(c)) && Shaped(Geo(c), s) && AllFit(Geo(c), qs) && s.curr < TWO32
    ensures Run(Geo(c), H, s, qs, false).0.curr < TWO32
    decreases |qs|
  {
    if qs != [] {
      ReadCurrBelow(c, H, s, qs[0]);
      hide HandleRead, Geo;
      CurrBelow(c, H, HandleRead(Geo(c), H, s, qs[0], false).0, qs[1..]);
    }
  }

  lemma ReadCurrBelow(c: Config, H: seq<Byte> -> Digest, s: Cache, q: Request)
    requires Legal(c) && Sound(Geo(c)) && Shaped(Geo(c), s) && q.size <= c.blockSize && s.curr < TWO32
    ensures HandleRead(Geo(c), H, s, q, false).0.curr < TWO32
  {
    var g := Geo(c);
    Located(c, q.offset);
    var b, next := g.blockOf(q.offset), U32(g.blockOf(q.offset) + 1);
    var s1 := Fetch(g, H, s, b, q.first, false).0;
    FetchCurr(g, H, s, b, q.first);
    FetchCurr(g, H, s1, next, q.second);
    hide Fetch, Geo, FileBlocks, BlockOffset;
  }

  lemma FetchCurr(g: Geometry, H: seq<Byte> -> Digest, s: Cache, block: nat, a: Answer)
    requires Sound(g) && Shaped(g, s)
    ensures var curr := Fetch(g, H, s, block, a, false).0.curr; curr == s.curr || curr == block || curr == NONE
  {
  }

  /** Every block begins somewhere. */
  lemma FirstRead(c: Config, s: Cache) returns (first: Request)
    requires Legal(c) && s.curr < TWO32 && s.curr != NONE
    ensures ReadsFirst(Geo(c), s, first)
  {
    var none := Answer(0, []);
    first := Request(PACKAGE_FILE_ID, s.curr * c.blockSize, 1, none, none);
    BlockOffsetIsRemainder(c, first.offset);
    RemainderUnique(s.curr, c.blockSize, 0);
  }

  /**
   The promise over whole runs of the program: after any safe run, all reads inside of the block that is then cached
   are answered as before one more request, if they are answered, whatever the host sends for it, if and only if
   that request does not make the host fail while the block is cached.
   */
  lemma RunRereadsExactlyWhen(c: Config, H: seq<Byte> -> Digest, garbage: seq<Byte>, qs: seq<Request>, f: Request)
    requires Legal(c) && Sound(Geo(c)) && |garbage| == c.blockSize
    requires AllFit(Geo(c), qs) && AllAdmissible(Geo(c), qs) && RunSafe(Geo(c), H, Start(Geo(c), garbage), qs)
    requires CollisionFree(H, Run(Geo(c), H, Start(Geo(c), garbage), qs, false).0.seen)
    requires Run(Geo(c), H, Start(Geo(c), garbage), qs, false).0.curr != NONE
    requires f.size <= c.blockSize && Admissible(Geo(c), f)
    ensures var s := Run(Geo(c), H, Start(Geo(c), garbage), qs, false).0;
            (forall q, b1, b2 | ReadsCached(Geo(c), s, q) :: RunRereads(c, H, garbage, qs, Sending(f, b1, b2), q))
            <==> f.nodeid != PACKAGE_FILE_ID || !Harms(Geo(c), s, f)
  {
    var g, s0 := Geo(c), Start(Geo(c), garbage);
    var s := Run(g, H, s0, qs, false).0;
    CurrBelow(c, H, s0, qs);
    assert g.blockSize == c.blockSize;
    hide Geo, Legal, Sound, Start, RunSafe, CollisionFree, Admissible, HandleRead, Harms, Run, ReadsCached;
    var first := FirstRead(c, s);
    StartInv(g, H, garbage);
    RunServesOneFile(g, H, s0, qs, false);
    RereadsTheSameExactlyWhen(g, H, s, f, first);
    forall q, b1, b2 | ReadsCached(g, s, q)
      ensures q.size <= c.blockSize && RunRereads(c, H, garbage, qs, Sending(f, b1, b2), q) == RereadsTheSame(g, H, s, Sending(f, b1, b2), q)
    {
      CachedSize(c, s, q);
      InRun(c, H, garbage, qs, Sending(f, b1, b2), q);
    }
  }

  lemma CachedSize(c: Config, s: Cache, q: Request)
    requires Legal(c) && ReadsCached(Geo(c), s, q)
    ensures q.size <= c.blockSize
  {
    Located(c, q.offset);
  }

  lemma InRun(c: Config, H: seq<Byte> -> Digest, garbage: seq<Byte>, qs: seq<Request>, f: Request, q: Request)
    requires Legal(c) && Sound(Geo(c)) && |garbage| == c.blockSize && AllFit(Geo(c), qs) && f.size <= c.blockSize
    requires ReadsCached(Geo(c), Run(Geo(c), H, Start(Geo(c), garbage), qs, false).0, q)
    ensures RunRereads(c, H, garbage, qs, f, q)
         == RereadsTheSame(Geo(c), H, Run(Geo(c), H, Start(Geo(c), garbage), qs, false).0, f, q)
  {
    var g, s0 := Geo(c), Start(Geo(c), garbage);
    var s := Run(g, H, s0, qs, false).0;
    CachedReply(g, H, s, q);
    hide Sound, Legal, Start, CollisionFree, HandleRead, Run;
    RunThree(g, H, s, q, f, q);
    RunConcat(g, H, s0, qs, [q, f, q]);
  }
}
