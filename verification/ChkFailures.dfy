/**
  Legal runs from the empty index after which an operation goes wrong: a `shrink` that releases what is
  no block, and an address that leads back to the wrong chunk (chk/chk_base.cpp).
 */
module ChkFailures {
  import opened ChkBase
  import opened ChkHeap
  import opened ChkAlloc
  import opened ChkImage
  import opened ChkIndexSpec
  import opened ChkOwnership
  import opened ChkOperations
  import opened ChkRuns
  import opened ChkAddress

  // ---------- allocations in a row ----------

  /** One full-size chunk, empty free lists, and the bump pointer at `virgin`. */
  predicate OneChunk(ix: Index, virgin: nat) {
    && ix.packed.None? && |ix.heap.chunks| == 1 && ix.heap.chunks[0].cap == MAX_CAP
       && ix.heap.chunks[0].virgin == virgin
    && ix.heap.mgr.heads == [CHK_NULL, CHK_NULL, CHK_NULL]
  }

  lemma OpenAlloc(env: Env, ix: Index, g: Ghost, words: nat)
    requires IxInv(env, ix, g) && ix.packed.None? && 1 <= words <= MAX_WORDS
    ensures Ready(env, ix)
    ensures Step(env, ix, g, OpAlloc(8 * words, true, true)).0 == AllocOp(env, ix, 8 * words, true, true).0
    ensures AllocOp(env, ix, 8 * words, true, true) == AllocIx(env, ix, 8 * words, true)
  {
    ReadyOf(env, ix, g);
    assert Uncompress(env, ix, true) == (ix, 0);
  }

  /** The first allocation. */
  lemma AllocFirst(env: Env, ix: Index, g: Ghost, words: nat)
    requires IxInv(env, ix, g) && ix.packed.None? && ix.heap.chunks == [] && 1 <= words <= MAX_WORDS
    ensures var (ix', g') := Step(env, ix, g, OpAlloc(8 * words, true, true));
            OneChunk(ix', Lo(0) + words) && IsLive(g', Blk(0, Lo(0), words, LIVE))
  {
    OpenAlloc(env, ix, g, words);
    AllocExactly(env, ix, g, 8 * words, true, true);
  }

  /** An allocation that still fits the chunk. */
  lemma AllocBumps(env: Env, ix: Index, g: Ghost, words: nat, virgin: nat)
    requires IxInv(env, ix, g) && OneChunk(ix, virgin) && 1 <= words <= MAX_WORDS && virgin + words <= WordsIn(MAX_CAP)
    ensures var (ix', g') := Step(env, ix, g, OpAlloc(8 * words, true, true));
            && OneChunk(ix', virgin + words) && IsLive(g', Blk(0, virgin, words, LIVE))
            && forall b :: IsLive(g, b) ==> IsLive(g', b)
  {
    hide Step;
    OpenAlloc(env, ix, g, words);
    AllocExactly(env, ix, g, 8 * words, true, true);
    ShapeOf(env, ix, g);
    hide IxInv;
    hide AllocOp;
    assert CeilDiv(8 * words, 8) == words;
    assert FirstFit(ix.heap.mgr, words) == 3 && BumpFits(ix.heap, words) && !CanEnlarge(Last(ix.heap));
    assert AllocIx(env, ix, 8 * words, true) == AllocChunked(ix, words, true);
  }

  lemma DonateSpares(h: Heap, no: nat)
    requires h.mgr.Shaped() && no < |h.chunks| && no < NULL_NO && Sane(h.chunks[no], no)
    ensures forall i :: 0 <= i < |h.chunks| && i != no ==> Donate(h, no).chunks[i] == h.chunks[i]
  {
    hide Carve;
    var v, left := h.chunks[no].virgin, WordsIn(h.chunks[no].cap) - h.chunks[no].virgin;
    var h1 := SetVirgin(h, no, v + left);
    DonateUnfold(h, EMPTY_BOOK, no, h1, v, left);
    CarveWrites(h1, no, v, left, Carve(h1, no, v, left));
  }

  lemma GrowTop(h: Heap, words: nat, at: Addr)
    requires Shape(h) && |h.chunks| < NULL_NO
    ensures var h' := Bump(Donate(AddChunk(h, at), |h.chunks| - 1), words);
            |h'.chunks| == |h.chunks| + 1 && Last(h').virgin == HEADER + words
  {
    hide Donate;
    var n := |h.chunks|;
    var h1 := AddChunk(h, at);
    assert Sane(h.chunks[n - 1], n - 1);
    assert h1.chunks[n - 1] == h.chunks[n - 1];
    DonateSpares(h1, n - 1);
  }

  /** An allocation that no longer does: it opens a second chunk. */
  lemma AllocGrows(env: Env, ix: Index, g: Ghost, words: nat, virgin: nat)
    requires IxInv(env, ix, g) && OneChunk(ix, virgin) && 1 <= words <= MAX_WORDS && virgin + words > WordsIn(MAX_CAP)
    ensures var (ix', g') := Step(env, ix, g, OpAlloc(8 * words, true, true));
            && ix'.packed.None? && |ix'.heap.chunks| == 2 && Last(ix'.heap).virgin == HEADER + words
            && IsLive(g', Blk(1, HEADER, words, LIVE))
  {
    hide Bump;
    hide Donate;
    hide Step;
    OpenAlloc(env, ix, g, words);
    AllocExactly(env, ix, g, 8 * words, true, true);
    ShapeOf(env, ix, g);
    GrowTop(ix.heap, words, Addr(ix.sys.next, 0));
    hide IxInv;
    assert Usable(ix.heap);
    var (ix', r) := AllocIx(env, ix, 8 * words, true);
    assert CeilDiv(8 * words, 8) == words;
    assert (ix', r) == AllocChunked(ix, words, true);
    assert FirstFit(ix.heap.mgr, words) == 3 && !BumpFits(ix.heap, words);
  }

  // ---------- a shrink that releases what is no block ----------

  /** Compress, uncompress, and release block `b`. */
  function Squeeze(percent: nat, b: Blk): seq<Op> {
    [OpCompress(percent, true), OpUncompress(true), OpFree(HandleOf(b), 0, true)]
  }

  lemma Packed1(env: Env, ix: Index, g: Ghost, percent: nat) returns (ix1: Index, g1: Ghost)
    requires IxInv(env, ix, g) && ix.packed.None?
    requires Step(env, ix, g, OpCompress(percent, true)).0.packed.Some?
    ensures (ix1, g1) == Step(env, ix, g, OpCompress(percent, true)) && Legal(ix, g, OpCompress(percent, true))
    ensures EnvOk(env) && Closed(env, ix1, g1) && g1 == g.(frozen := ix.heap)
  {
    hide Inv;
    hide Closed;
    hide Compress;
    hide Layout;
    var step := Step(env, ix, g, OpCompress(percent, true));
    ix1, g1 := step.0, step.1;
    OpenOf(env, ix, g);
    CompressKeeps(env, ix, g.book, percent, true);
  }

  /** What uncompressing without a pool makes of the last of several chunks. */
  lemma Repacked(env: Env, ix: Index, g: Ghost) returns (ix': Index)
    requires EnvOk(env) && Closed(env, ix, g) && !env.pooled && |g.frozen.chunks| > 1
    ensures IxInv(env, ix, g) && Legal(ix, g, OpUncompress(true))
    ensures (ix', g) == Step(env, ix, g, OpUncompress(true)) && IxInv(env, ix', g)
    ensures ix'.packed.None? && |ix'.heap.chunks| == |g.frozen.chunks|
    ensures var c := Last(ix'.heap);
            c.virgin == Last(g.frozen).virgin && c.cap == Tight(c.virgin) && c.allocCap == 0
  {
    hide Inv;
    hide Closed;
    hide Uncompress;
    assert IxInv(env, ix, g);
    var h := UncompressWalks(env, ix, g);
    UncompressKeeps(env, ix, g, true);
    hide Open;
    ix' := Walked1(env, ix, h);
  }

  /** Releasing a topmost block lowers the bump pointer of its chunk to it. */
  lemma ReleasedTop(env: Env, ix: Index, g: Ghost, b: Blk) returns (ix': Index, g': Ghost)
    requires IxInv(env, ix, g) && ix.packed.None? && IsLive(g, b)
    requires b.no == |ix.heap.chunks| - 1 && b.off + b.size == Last(ix.heap).virgin
    ensures Legal(ix, g, OpFree(HandleOf(b), 0, true)) && (ix', g') == Step(env, ix, g, OpFree(HandleOf(b), 0, true))
    ensures IxInv(env, ix', g') && ix'.packed.None? && |ix'.heap.chunks| == |ix.heap.chunks|
    ensures var c, c' := Last(ix.heap), Last(ix'.heap);
            c'.virgin == b.off && c'.cap == c.cap && c'.allocCap == c.allocCap
  {
    var op := OpFree(HandleOf(b), 0, true);
    assert Heads(g, b, NamedBlk(HandleOf(b), 0));
    OpenOf(env, ix, g);
    FreeIxKeeps(env, ix, g.book, b);
    FreePlaces(ix.heap, g.book, b);
    FreedTop(ix.heap, b);
    StepKeeps(env, ix, g, op);
    var step := Step(env, ix, g, op);
    ix', g' := step.0, step.1;
    hide IxInv;
    hide Inv;
    hide Free;
    hide Room;
    assert ix' == ix.(heap := Free(ix.heap, b));
    assert SamePlace(Last(ix.heap), Last(ix'.heap));
  }

  lemma FreedTop(h: Heap, b: Blk)
    requires h.mgr.Shaped() && b.no < |h.chunks| && Room(h, b.no, b.off, b.size)
               && b.off + b.size == h.chunks[b.no].virgin
    ensures |Free(h, b).chunks| == |h.chunks| && Free(h, b).chunks[b.no].virgin == b.off
  {
  }

  /** From any index without a pool that has several chunks: when `compress` stores it, `uncompress`
      brings it back and the topmost block of the last chunk is released, then `shrink` releases what
      is no block exactly when fewer kilobytes would do without that block. */
  lemma ShrinkFaultsAfter(env: Env, ix: Index, g: Ghost, b: Blk, percent: nat) returns (ix': Index, g': Ghost)
    requires IxInv(env, ix, g) && !env.pooled && |ix.heap.chunks| > 1
    requires IsLive(g, b) && b.no == |ix.heap.chunks| - 1 && b.off + b.size == Last(ix.heap).virgin
    requires ix.packed.None? && Step(env, ix, g, OpCompress(percent, true)).0.packed.Some?
    ensures Leads(env, ix, g, Squeeze(percent, b), ix', g') && IxInv(env, ix', g')
    ensures ix'.heap.chunks != [] && Shape(ix'.heap)
    ensures Shrink(env, ix', true).sys.faults > 0 <==> Tight(b.off) < Tight(b.off + b.size)
  {
    hide IxInv;
    hide Closed;
    hide Step;
    hide Legal;
    hide Shrink;
    var ix1, g1 := Packed1(env, ix, g, percent);
    var ix2 := Repacked(env, ix1, g1);
    ix', g' := ReleasedTop(env, ix2, g1, b);
    var free := OpFree(HandleOf(b), 0, true);
    LeadsNowhere(env, ix', g');
    LeadsFrom(env, ix2, g1, free, [], ix', g');
    LeadsFrom(env, ix1, g1, OpUncompress(true), [free] + [], ix', g');
    LeadsFrom(env, ix, g, OpCompress(percent, true), [OpUncompress(true)] + ([free] + []), ix', g');
    assert Squeeze(percent, b) == [OpCompress(percent, true)] + ([OpUncompress(true)] + ([free] + []));
    ShapeOf(env, ix', g');
    OpenOf(env, ix', g');
    ShrinkFaultsIff(env, ix', g'.book);
    assert Sane(Last(ix'.heap), |ix'.heap.chunks| - 1);
    ExcessIsTight(Last(ix'.heap), |ix'.heap.chunks| - 1);
  }

  const FULL: Op := OpAlloc(8 * MAX_WORDS, true, true)

  /** One more of the largest blocks in the first chunk. */
  lemma FullBlock(env: Env, ops: seq<Op>, ix: Index, g: Ghost, virgin: nat) returns (ix': Index, g': Ghost)
    requires Leads(env, EMPTY, START, ops, ix, g) && IxInv(env, ix, g)
    requires OneChunk(ix, virgin) && virgin + MAX_WORDS <= WordsIn(MAX_CAP)
    ensures Leads(env, EMPTY, START, ops + [FULL], ix', g') && IxInv(env, ix', g')
    ensures OneChunk(ix', virgin + MAX_WORDS) && IsLive(g', Blk(0, virgin, MAX_WORDS, LIVE))
    ensures forall b :: IsLive(g, b) ==> IsLive(g', b)
  {
    hide IxInv;
    hide Step;
    AllocBumps(env, ix, g, MAX_WORDS, virgin);
    LeadsOn(env, EMPTY, START, ops, ix, g, FULL);
    var step := Step(env, ix, g, FULL);
    ix', g' := step.0, step.1;
  }

  /** The first block of an empty index. */
  lemma BootBlock(env: Env) returns (ix: Index, g: Ghost)
    requires EnvOk(env)
    ensures Leads(env, EMPTY, START, [FULL], ix, g) && IxInv(env, ix, g)
    ensures OneChunk(ix, Lo(0) + MAX_WORDS) && IsLive(g, Blk(0, Lo(0), MAX_WORDS, LIVE))
  {
    EmptyInv(env);
    AllocFirst(env, EMPTY, START, MAX_WORDS);
    LeadsNowhere(env, EMPTY, START);
    hide IxInv;
    hide Step;
    LeadsOn(env, EMPTY, START, [], EMPTY, START, FULL);
    var step := Step(env, EMPTY, START, FULL);
    ix, g := step.0, step.1;
    assert [] + [FULL] == [FULL];
  }

  /** Four of the largest blocks: the first three fill a chunk, the fourth opens another. */
  lemma FourBlocks(env: Env) returns (ops: seq<Op>, ix: Index, g: Ghost)
    requires EnvOk(env)
    ensures Leads(env, EMPTY, START, ops, ix, g) && IxInv(env, ix, g)
    ensures ix.packed.None? && |ix.heap.chunks| == 2 && Last(ix.heap).virgin == HEADER + MAX_WORDS
    ensures IsLive(g, Blk(1, HEADER, MAX_WORDS, LIVE))
  {
    hide IxInv;
    hide Step;
    hide Leads;
    hide OneChunk;
    var ix1, g1 := BootBlock(env);
    var ix2, g2 := FullBlock(env, [FULL], ix1, g1, 516);
    var ix3, g3 := FullBlock(env, [FULL] + [FULL], ix2, g2, 1027);
    ops := [FULL] + [FULL] + [FULL];
    AllocGrows(env, ix3, g3, MAX_WORDS, 1538);
    LeadsOn(env, EMPTY, START, ops, ix3, g3, FULL);
    var step := Step(env, ix3, g3, FULL);
    ops, ix, g := ops + [FULL], step.0, step.1;
  }

  /** So a legal run from the empty index leads to a `shrink` that goes wrong. */
  lemma ShrinkCanFault(env: Env) returns (ops: seq<Op>, ix: Index, g: Ghost)
    requires EnvOk(env) && !env.pooled
    ensures Leads(env, EMPTY, START, ops, ix, g) && IxInv(env, ix, g)
    ensures (ix.heap.chunks == [] || Shape(ix.heap)) && Shrink(env, ix, true).sys.faults > 0
  {
    var four, ix1, g1 := FourBlocks(env);
    WritableOf(env, ix1, g1);
    var percent := |env.codec.pack(Flatten(ix1.heap))| + 4;
    StoresAt(env, ix1, g1, percent);
    var b := Blk(1, HEADER, MAX_WORDS, LIVE);
    hide IxInv;
    hide Step;
    ix, g := ShrinkFaultsAfter(env, ix1, g1, b, percent);
    ops := four + Squeeze(percent, b);
    LeadsThrough(env, EMPTY, START, four, ix1, g1, Squeeze(percent, b), ix, g);
  }

  /** With a generous target `compress` stores. */
  lemma StoresAt(env: Env, ix: Index, g: Ghost, percent: nat)
    requires IxInv(env, ix, g) && ix.packed.None? && ix.heap.chunks != []
    ensures HeapWritable(ix.heap)
    ensures |env.codec.pack(Flatten(ix.heap))| + 4 <= percent ==>
              Step(env, ix, g, OpCompress(percent, true)).0.packed.Some?
  {
    hide Inv;
    hide Open;
    hide Closed;
    hide Flatten;
    hide Compress;
    hide Sum;
    hide HeapWritable;
    WritableOf(env, ix, g);
    OpenOf(env, ix, g);
    CompressKeeps(env, ix, g.book, percent, true);
    OpenInv(env, ix, g.book);
    InvParts(ix.heap, g.book);
    SumAtLeast(ix.heap);
    Generous(|env.codec.pack(Flatten(ix.heap))| + 4, percent, Sum(Caps(ix.heap.chunks)));
  }

  lemma Generous(n: nat, percent: nat, sum: int)
    requires sum >= 1
    ensures n <= percent ==> 100 * n <= percent * 1024 * sum
  {
    assert percent * 1024 * sum >= percent * 1024;
  }

  lemma SumAtLeast(h: Heap)
    requires Shape(h)
    ensures Sum(Caps(h.chunks)) >= 1
  {
    forall i | 0 <= i < |h.chunks| ensures Caps(h.chunks)[i] >= 1 { assert Sane(h.chunks[i], i); }
    SumPrefix(Caps(h.chunks), 0);
  }

  // ---------- an address that leads back to the wrong chunk ----------

  /** Memory with the given cells from kilobyte `base` on. */
  function MemoryAt(base: int, cells: seq<Cell>): Memory {
    k => if 0 <= k - 256 * base < |cells| then cells[k - 256 * base] else 0
  }

  /** One store of a client into a live block. */
  lemma StoreOn(env: Env, ops: seq<Op>, ix: Index, g: Ghost, b: Blk, k: nat, v: Cell) returns (ix': Index)
    requires Leads(env, EMPTY, START, ops, ix, g) && IxInv(env, ix, g) && ix.packed.None?
    requires IsLive(g, b) && 2 * b.off <= k < 2 * (b.off + b.size)
    ensures Leads(env, EMPTY, START, ops + [OpStore(b, k, v)], ix', g) && IxInv(env, ix', g) && ix'.packed.None?
    ensures b.no < |ix.heap.chunks| == |ix'.heap.chunks| && ix'.heap.mgr == ix.heap.mgr
    ensures var c, c' := ix.heap.chunks[b.no], ix'.heap.chunks[b.no];
            k < |c.cells| && c' == c.(cells := c.cells[k := v])
  {
    LeadsOn(env, EMPTY, START, ops, ix, g, OpStore(b, k, v));
    OpenOf(env, ix, g);
    StoreKeeps(env, ix, g.book, b, k, v);
    ix' := Step(env, ix, g, OpStore(b, k, v)).0;
  }

  /** Cells 1024 to 1027 look like the header of a chunk of one kilobyte. */
  predicate Forged(cells: seq<Cell>) {
    |cells| > 1027 && cells[1024] == CHK_MAGIC && cells[1025] == 1 && cells[1027] == CHK_PADDING
  }

  lemma ForgedImage(h: Heap)
    requires HeapWritable(h) && Forged(h.chunks[0].cells) && h.chunks[0].virgin >= 514
    ensures Forged(Images(h)[0])
  {
    var c := h.chunks[0];
    assert Writable(c, 0, h.mgr);
    ImageParts(c, 0, h.mgr);
    var r := ChunkImage(c, 0, h.mgr);
    hide ChunkImage;
    hide EncodeHeader;
    hide EncodeMgr;
    hide DecodeHeader;
    assert r[1024] == c.cells[1024] && r[1025] == c.cells[1025] && r[1027] == c.cells[1027];
  }

  lemma ForgedIsDecoy(cells: seq<Cell>, base: int)
    requires Forged(cells)
    ensures var m := MemoryAt(base, cells);
            Holds(m, 256 * base, cells) && Decoy(m, base, base + 5) && Scan(m, base + 5, 1) == Some(base + 4)
  {
    assert PassesTest(MemoryAt(base, cells), base + 5, 1);
  }

  /** Two blocks, and the look of a header stored at the end of the first. */
  lemma ForgedRun(env: Env) returns (ops: seq<Op>, ix: Index, g: Ghost)
    requires EnvOk(env)
    ensures Leads(env, EMPTY, START, ops, ix, g) && IxInv(env, ix, g) && IsLive(g, Blk(0, 516, 1, LIVE))
    ensures ix.packed.None? && |ix.heap.chunks| == 1 && ix.heap.chunks[0].virgin == 517
              && Forged(ix.heap.chunks[0].cells)
  {
    hide IxInv;
    hide Leads;
    hide Step;
    var below := Blk(0, Lo(0), MAX_WORDS, LIVE);
    var ix1, g1 := BootBlock(env);
    AllocBumps(env, ix1, g1, 1, 516);
    LeadsOn(env, EMPTY, START, [FULL], ix1, g1, OpAlloc(8, true, true));
    var step := Step(env, ix1, g1, OpAlloc(8, true, true));
    var ix2 := step.0;
    g := step.1;
    ops := [FULL] + [OpAlloc(8, true, true)];
    var ix3 := StoreOn(env, ops, ix2, g, below, 1024, CHK_MAGIC);
    ops := ops + [OpStore(below, 1024, CHK_MAGIC)];
    var ix4 := StoreOn(env, ops, ix3, g, below, 1025, 1);
    ops := ops + [OpStore(below, 1025, 1)];
    ix := StoreOn(env, ops, ix4, g, below, 1027, CHK_PADDING);
    ops := ops + [OpStore(below, 1027, CHK_PADDING)];
  }

  lemma LookupFails(h: Heap, bk: Book, base: int)
    requires Inv(h, bk) && HeapWritable(h) && Forged(Images(h)[0]) && Blk(0, 516, 1, LIVE) in bk.blocks
    ensures var m, p := MemoryAt(base, Images(h)[0]), Ptr(0, 1032, 1);
            && Holds(m, 256 * base, Images(h)[0]) && Decoy(m, base, RoundedUp(AddrOf(base, p)))
            && Addr2Ptr(m, AddrOf(base, p), 8) != Some(p)
  {
    hide Inv;
    hide Addr2Ptr;
    hide Images;
    hide Holds;
    hide Decoy;
    hide Scan;
    ForgedIsDecoy(Images(h)[0], base);
    BlockRoundTrip(MemoryAt(base, Images(h)[0]), h, bk, Blk(0, 516, 1, LIVE), base);
    assert RoundedUp(AddrOf(base, Ptr(0, 1032, 1))) == base + 5;
  }

  /** A legal run from the empty index after which the lookup of a live block's own address goes wrong,
      wherever its chunk lies: the client of the block below it has stored the look of a header there. */
  lemma DecoyReached(env: Env, base: int) returns (ops: seq<Op>, ix: Index, g: Ghost, b: Blk, m: Memory)
    requires EnvOk(env)
    ensures Leads(env, EMPTY, START, ops, ix, g) && IxInv(env, ix, g) && IsLive(g, b) && b.no == 0
    ensures HeapWritable(ix.heap) && Holds(m, 256 * base, Images(ix.heap)[0])
    ensures Decoy(m, base, RoundedUp(AddrOf(base, HandleOf(b))))
    ensures Addr2Ptr(m, AddrOf(base, HandleOf(b)), 8 * b.size) != Some(HandleOf(b))
  {
    hide IxInv;
    hide Leads;
    hide Inv;
    hide Open;
    hide Addr2Ptr;
    hide AddrOf;
    hide RoundedUp;
    hide Images;
    hide MemoryAt;
    hide HeapWritable;
    hide Holds;
    hide Decoy;
    ops, ix, g := ForgedRun(env);
    b := Blk(0, 516, 1, LIVE);
    WritableOf(env, ix, g);
    ForgedImage(ix.heap);
    m := MemoryAt(base, Images(ix.heap)[0]);
    OpenOf(env, ix, g);
    OpenInv(env, ix, g.book);
    LookupFails(ix.heap, g.book, base);
  }
}
