/**
  What single operations do exactly: which block `alloc` hands out, what it finds in it and what becomes
  of the lists, where `free` puts a block, what the operations return, and when they change nothing
  (chk/chk_base.cpp, chk/chk_mem_mgr.cpp).
 */
module ChkExact {
  import opened ChkBase
  import opened ChkHeap
  import opened ChkAlloc
  import opened ChkCarving
  import opened ChkImage
  import opened ChkIndexSpec
  import opened ChkOwnership
  import opened ChkOperations
  import opened ChkCapacity
  import opened ChkRuns

  // ---------- alloc: which block ----------

  /** List `i` is the first that is long enough for the size and not empty. */
  ghost predicate Serves(h: Heap, bk: Book, size: nat, i: nat)
    requires |bk.lists| == 3 && |h.mgr.sizes| == 3
  {
    && i < 3 && size <= h.mgr.sizes[i] && bk.lists[i] != []
    && forall j :: 0 <= j < i ==> h.mgr.sizes[j] < size || bk.lists[j] == []
  }

  ghost predicate NoneServes(h: Heap, bk: Book, size: nat)
    requires |bk.lists| == 3 && |h.mgr.sizes| == 3
  {
    forall j :: 0 <= j < 3 ==> h.mgr.sizes[j] < size || bk.lists[j] == []
  }

  /** Every list of the book has the blocks of `bs` of its class on its front, the last one foremost. */
  ghost predicate ListsGain(lists: seq<seq<Blk>>, bs: seq<Blk>, lists': seq<seq<Blk>>) {
    |lists| == |lists'| == 3 && forall k :: 0 <= k < 3 ==> lists'[k] == Reversed(OfClass(bs, k)) + lists[k]
  }

  /** Chunk for chunk the same, but for used words and memory. */
  ghost predicate SameBumps(h: Heap, h': Heap, n: nat) {
    && n <= |h.chunks| && n <= |h'.chunks|
    && forall k :: 0 <= k < n ==> h'.chunks[k].virgin == h.chunks[k].virgin && SamePlace(h.chunks[k], h'.chunks[k])
  }

  lemma FirstFitServes(h: Heap, bk: Book, size: nat)
    requires Struct(h, bk)
    ensures |bk.lists| == 3 && |h.mgr.sizes| == 3 && HeadsOk(h)
    ensures FirstFit(h.mgr, size) < 3 ==> Serves(h, bk, size, FirstFit(h.mgr, size))
    ensures FirstFit(h.mgr, size) == 3 ==> NoneServes(h, bk, size)
  {
    HeadsOfLists(h, bk);
    forall i | 0 <= i < 3 ensures h.mgr.heads[i].IsNull() <==> bk.lists[i] == [] { HeadOfList(h, bk, i); }
  }

  /** What `chk_slist_pop` leaves: the block's link is a null handle, and every other cell as it was. */
  lemma PopNulls(h: Heap, bk: Book, i: nat)
    requires Struct(h, bk) && i < 3 && !h.mgr.heads[i].IsNull()
    ensures HeadOk(h, i) && bk.lists[i] != []
    ensures var b, h' := bk.lists[i][0], Pop(h, i);
            && Readable(h, b) && Readable(h', b) && LinkAt(h', b).IsNull()
            && LinkAt(h', b).off == LinkAt(h, b).off && LinkAt(h', b).size == LinkAt(h, b).size
            && h'.mgr == h.mgr.(heads := h.mgr.heads[i := LinkAt(h, b)])
            && OnlyWrote(h, h', b.no, b.off, b.off + 1)
            && h'.chunks[b.no].cells[2 * b.off + 1] == h.chunks[b.no].cells[2 * b.off + 1]
  {
    HeadOfList(h, bk, i);
    PopWrites(h, i);
    var b := bk.lists[i][0];
    assert b in bk.lists[i];
    assert Placed(h, b);
    assert Sane(h.chunks[b.no], b.no);
    hide EncodePtr;
    hide DecodePtr;
    var link := LinkAt(h, b);
    PtrRoundTrip(Ptr(NULL_NO, link.off, link.size), 0);
  }

  /** What a hit leaves in memory: the first cell of the block is a null handle, its other cells are as
      they were, and so is everything outside the `full` words that the block was taken from. */
  ghost predicate FrontTaken(h: Heap, h': Heap, b: Blk, full: nat) {
    && Readable(h, b) && Readable(h', b) && LinkAt(h', b).IsNull()
    && 2 * (b.off + b.size) <= |h.chunks[b.no].cells| && OnlyWroteCells(h, h', b.no, 2 * b.off, 2 * (b.off + full))
    && forall k :: 2 * b.off < k < 2 * (b.off + b.size) ==> h'.chunks[b.no].cells[k] == h.chunks[b.no].cells[k]
  }

  ghost predicate OnlyWroteCells(h: Heap, h': Heap, no: nat, lo: nat, hi: nat) {
    && |h'.chunks| == |h.chunks| && no < |h.chunks|
    && (forall i :: 0 <= i < |h.chunks| && i != no ==> h'.chunks[i].cells == h.chunks[i].cells)
    && SameCellsBut(h.chunks[no].cells, h'.chunks[no].cells, lo, hi)
  }

  lemma TakeWrites(h: Heap, bk: Book, i: nat, size: nat, b: Blk)
    requires Struct(h, bk) && i < 3 && !h.mgr.heads[i].IsNull() && 1 <= size <= h.mgr.sizes[i]
    requires bk.lists[i] != [] ==> b == Blk(bk.lists[i][0].no, bk.lists[i][0].off, size, LIVE)
    ensures HeadOk(h, i) && bk.lists[i] != []
    ensures var h' := PoolTake(h, i, size);
            && FrontTaken(h, h', b, h.mgr.sizes[i]) && SameBumps(h, h', |h.chunks|)
            && h'.mgr == h.mgr.(heads := h'.mgr.heads)
  {
    hide FrontTaken;
    hide SameBumps;
    hide OnlyWrote;
    hide Pop;
    hide Carve;
    hide LinkAt;
    hide Readable;
    HeadOfList(h, bk, i);
    PopNulls(h, bk, i);
    var full := h.mgr.sizes[i];
    var h1 := Pop(h, i);
    hide Struct;
    PopRoom(h, i, size);
    var h' := Carve(h1, b.no, b.off + size, full - size);
    CarveWrites(h1, b.no, b.off + size, full - size, h');
    FrontOf(h, h1, h', b, bk.lists[i][0], full);
  }

  lemma PopRoom(h: Heap, i: nat, size: nat)
    requires h.mgr.Shaped() && i < 3 && HeadOk(h, i) && size <= h.mgr.sizes[i]
    ensures var p, full := h.mgr.heads[i], h.mgr.sizes[i];
            && Room(Pop(h, i), p.no, p.off / 2 + size, full - size)
            && p.no < |h.chunks| && 2 * (p.off / 2 + full) <= |h.chunks[p.no].cells|
  {
    hide EncodePtr;
    hide DecodePtr;
  }

  lemma FrontOf(h: Heap, h1: Heap, h': Heap, b: Blk, l: Blk, full: nat)
    requires b.no == l.no && b.off == l.off && Readable(h, l) && Readable(h1, l) && LinkAt(h1, l).IsNull()
    requires 1 <= b.size <= full && l.size == full && 2 * (b.off + full) <= |h.chunks[b.no].cells|
    requires OnlyWrote(h, h1, b.no, b.off, b.off + 1) && OnlyWrote(h1, h', b.no, b.off + b.size, b.off + full)
    requires h1.chunks[b.no].cells[2 * b.off + 1] == h.chunks[b.no].cells[2 * b.off + 1]
    requires h1.mgr == h.mgr.(heads := h1.mgr.heads)
    ensures FrontTaken(h, h', b, full) && SameBumps(h, h', |h.chunks|) && h'.mgr == h.mgr.(heads := h'.mgr.heads)
  {
    hide DecodePtr;
  }

  /** What a hit does to the lists of the book. */
  lemma TakeGains(sizes: seq<nat>, bk: Book, i: nat, b: Blk, size: nat)
    requires SizesOk(sizes) && |bk.lists| == 3 && i < 3 && bk.lists[i] != [] && size <= sizes[i]
    ensures ListsGain(bk.lists[i := bk.lists[i][1..]], CarveBlocks(sizes, b.no, b.off + size, sizes[i] - size),
                      BookTake(sizes, bk, i, b, size).lists)
  {
    hide BookCarve;
    hide CarveBlocks;
    hide Reversed;
    hide OfClass;
    CarvedBook(sizes, BookPop(bk, i), b.no, b.off + size, sizes[i] - size);
  }

  /** A block from a list: the front of the list's first block.  Its first cell is a null handle, the
      others are as they were.  The rest of the first block goes to the lists. */
  lemma TakenFromList(h: Heap, bk: Book, i: nat, size: nat, at: Option<Addr>)
    requires Inv(h, bk) && |bk.lists| == 3 && 1 <= size <= MAX_WORDS && |h.mgr.sizes| == 3 && Serves(h, bk, size, i)
    ensures Shape(h) && HeadsOk(h)
    ensures var l := bk.lists[i]; var b := Blk(l[0].no, l[0].off, size, LIVE);
            var (h', r) := Alloc(h, size, at); var bk' := BookAlloc(h, bk, size, at);
            && r == Some(b) && |h'.chunks| == |h.chunks| && SameBumps(h, h', |h.chunks|)
            && h'.mgr.totalFree == h.mgr.totalFree - size && h'.mgr.totalCap == h.mgr.totalCap
            && FrontTaken(h, h', b, h.mgr.sizes[i])
            && ListsGain(bk.lists[i := l[1..]],
                         CarveBlocks(h.mgr.sizes, b.no, b.off + size, h.mgr.sizes[i] - size), bk'.lists)
  {
    hide Struct;
    hide ListsGain;
    hide CarveBlocks;
    hide FrontTaken;
    hide SameBumps;
    hide HeadsOk;
    hide HeadOk;
    hide PoolTake;
    hide BookTake;
    hide Alloc;
    hide BookAlloc;
    InvParts(h, bk);
    hide Inv;
    FirstFitServes(h, bk, size);
    HeadOfList(h, bk, i);
    FirstFitIs(h, bk, size, i);
    var l := bk.lists[i];
    var b := Blk(l[0].no, l[0].off, size, LIVE);
    TakeWrites(h, bk, i, size, b);
    TakeGains(h.mgr.sizes, bk, i, b, size);
    HitIs(h, bk, i, size, at, b);
    TakenCharged(h, PoolTake(h, i, size), b, h.mgr.sizes[i], size);
  }

  lemma HitIs(h: Heap, bk: Book, i: nat, size: nat, at: Option<Addr>, b: Blk)
    requires Shape(h) && HeadsOk(h) && |bk.lists| == 3 && size <= MAX_WORDS && i == FirstFit(h.mgr, size) < 3
    requires HeadOk(h, i) && bk.lists[i] != [] && b == Blk(h.mgr.heads[i].no, h.mgr.heads[i].off / 2, size, LIVE)
    ensures |PoolTake(h, i, size).chunks| == |h.chunks| && b.no < |h.chunks|
    ensures Alloc(h, size, at) == (Charge(AddFree(PoolTake(h, i, size), 0 - size), b.no, size), Some(b))
    ensures BookAlloc(h, bk, size, at).lists == BookTake(h.mgr.sizes, bk, i, b, size).lists
  {
    hide Carve;
    hide BookTake;
    hide HeadsOk;
  }

  lemma TakenCharged(h: Heap, h1: Heap, b: Blk, full: nat, size: int)
    requires FrontTaken(h, h1, b, full) && SameBumps(h, h1, |h.chunks|)
    ensures var h' := Charge(AddFree(h1, 0 - size), b.no, size);
            FrontTaken(h, h', b, full) && SameBumps(h, h', |h.chunks|) && |h'.chunks| == |h.chunks|
  {
    hide DecodePtr;
  }

  lemma FirstFitIs(h: Heap, bk: Book, size: nat, i: nat)
    requires Struct(h, bk) && |bk.lists| == 3 && |h.mgr.sizes| == 3 && Serves(h, bk, size, i)
    ensures FirstFit(h.mgr, size) == i
  {
    forall j | 0 <= j < 3 ensures h.mgr.heads[j].IsNull() <==> bk.lists[j] == [] { HeadOfList(h, bk, j); }
  }

  /** A block from the last chunk: it starts at the bump pointer, which rises above it.  Memory and lists
      stay as they are. */
  lemma TakenFromLast(h: Heap, bk: Book, size: nat, at: Option<Addr>)
    requires Inv(h, bk) && |bk.lists| == 3 && 1 <= size <= MAX_WORDS && |h.mgr.sizes| == 3 && NoneServes(h, bk, size)
    requires h.chunks != [] && Last(h).virgin + size <= 128 * Last(h).cap
    ensures Shape(h) && HeadsOk(h)
    ensures var n := |h.chunks| - 1; var b := Blk(n, h.chunks[n].virgin, size, LIVE);
            var (h', r) := Alloc(h, size, at); var bk' := BookAlloc(h, bk, size, at);
            && r == Some(b) && |h'.chunks| == |h.chunks| && SameBumps(h, h', n)
            && Last(h').virgin == Last(h).virgin + size && SamePlace(Last(h), Last(h'))
            && (forall k :: 0 <= k <= n ==> h'.chunks[k].cells == h.chunks[k].cells)
            && h'.mgr == h.mgr.(totalUsed := h.mgr.totalUsed + size) && bk' == BookAdd(bk, b)
  {
    InvParts(h, bk);
    FirstFitServes(h, bk, size);
    hide Inv;
    hide HeadsOk;
    NoFit(h, bk, size);
    hide Struct;
    hide PoolTake;
    hide Donate;
  }

  lemma NoFit(h: Heap, bk: Book, size: nat)
    requires Struct(h, bk) && |bk.lists| == 3 && |h.mgr.sizes| == 3 && NoneServes(h, bk, size)
    ensures FirstFit(h.mgr, size) == 3
  {
    forall j | 0 <= j < 3 ensures h.mgr.heads[j].IsNull() <==> bk.lists[j] == [] { HeadOfList(h, bk, j); }
  }

  /** Otherwise a block from a new chunk, if there is to be one: it starts behind the header.  The words
      of the chunk that was last go to the lists, all of them. */
  lemma TakenFromNew(h: Heap, bk: Book, size: nat, at: Option<Addr>)
    requires Inv(h, bk) && |bk.lists| == 3 && 1 <= size <= MAX_WORDS && |h.mgr.sizes| == 3 && NoneServes(h, bk, size)
    requires h.chunks != [] && Last(h).virgin + size > 128 * Last(h).cap
    ensures Shape(h) && HeadsOk(h)
    ensures var n := |h.chunks|; var b := Blk(n, HEADER, size, LIVE);
            var (h', r) := Alloc(h, size, at); var bk' := BookAlloc(h, bk, size, at);
            if n >= NULL_NO || at.None? then r == None && h' == h && bk' == bk
            else
              && r == Some(b) && |h'.chunks| == n + 1 && SameBumps(h, h', n - 1)
              && h'.chunks[n - 1].virgin == 128 * Last(h).cap && SamePlace(Last(h), h'.chunks[n - 1])
              && h'.chunks[n] == NewChunk(n, HEADER + size, at.value)
              && h'.mgr.totalFree == h.mgr.totalFree + (128 * Last(h).cap - Last(h).virgin)
              && h'.mgr.totalCap == h.mgr.totalCap + MAX_CAP
              && ListsGain(bk.lists,
                           CarveBlocks(h.mgr.sizes, n - 1, Last(h).virgin, 128 * Last(h).cap - Last(h).virgin),
                           bk'.lists)
  {
    hide Struct;
    hide HeadsOk;
    hide NoneServes;
    hide FirstFit;
    hide Alloc;
    hide BookAlloc;
    hide Donate;
    hide BookDonate;
    hide Bump;
    hide ListsGain;
    hide CarveBlocks;
    hide SameBumps;
    hide NewChunk;
    hide SamePlace;
    InvParts(h, bk);
    hide Inv;
    FirstFitServes(h, bk, size);
    NoFit(h, bk, size);
    GrowIs(h, bk, size, at);
    var n := |h.chunks|;
    if n < NULL_NO && at.Some? {
      DonatedTail(h, bk, at.value);
      BumpedNew(h, Donate(AddChunk(h, at.value), n - 1), size, at.value);
    }
  }

  lemma GrowIs(h: Heap, bk: Book, size: nat, at: Option<Addr>)
    requires Shape(h) && HeadsOk(h) && |bk.lists| == 3 && size <= MAX_WORDS && FirstFit(h.mgr, size) == 3
    requires Last(h).virgin + size > 128 * Last(h).cap
    ensures |h.chunks| >= NULL_NO || at.None? ==>
              Alloc(h, size, at) == (h, None) && BookAlloc(h, bk, size, at) == bk
    ensures |h.chunks| < NULL_NO && at.Some? ==>
              var n := |h.chunks|; var h1 := AddChunk(h, at.value); var b := Blk(n, HEADER, size, LIVE);
              && h1.mgr.Shaped() && Sane(h1.chunks[n - 1], n - 1) && |Donate(h1, n - 1).chunks| == n + 1
              && Alloc(h, size, at) == (Bump(Donate(h1, n - 1), size), Some(b))
              && BookAlloc(h, bk, size, at).lists == BookDonate(h1, bk, n - 1).lists
  {
    hide Donate;
    hide BookDonate;
    hide PoolTake;
    hide HeadsOk;
    hide NewChunk;
    hide Bump;
    assert Sane(Last(h), |h.chunks| - 1);
  }

  lemma BumpedNew(h: Heap, h1: Heap, size: nat, at: Addr)
    requires |h1.chunks| == |h.chunks| + 1 && h.chunks != []
    requires Last(h1) == NewChunk(|h.chunks|, HEADER, at) && SameBumps(h, h1, |h.chunks| - 1)
    ensures var n := |h.chunks|; var h' := Bump(h1, size);
            && |h'.chunks| == n + 1 && SameBumps(h, h', n - 1) && h'.chunks[n - 1] == h1.chunks[n - 1]
            && h'.chunks[n] == NewChunk(n, HEADER + size, at)
            && h'.mgr == h1.mgr.(totalUsed := h1.mgr.totalUsed + size)
  {
    hide Zeros;
  }

  lemma DonatedTail(h: Heap, bk: Book, at: Addr)
    requires Shape(h) && |h.chunks| < NULL_NO && |bk.lists| == 3
    ensures var n := |h.chunks|; var h1 := AddChunk(h, at); var h' := Donate(h1, n - 1);
            var bk' := BookDonate(h1, bk, n - 1);
            var left := 128 * Last(h).cap - Last(h).virgin;
            && |h'.chunks| == n + 1 && SameBumps(h, h', n - 1)
            && h'.chunks[n - 1].virgin == 128 * Last(h).cap && SamePlace(Last(h), h'.chunks[n - 1])
            && h'.chunks[n] == NewChunk(n, HEADER, at)
            && h'.mgr.totalFree == h.mgr.totalFree + left && h'.mgr.totalCap == h.mgr.totalCap + MAX_CAP
            && ListsGain(bk.lists, CarveBlocks(h.mgr.sizes, n - 1, Last(h).virgin, left), bk'.lists)
  {
    hide Carve;
    hide BookCarve;
    hide CarveBlocks;
    hide Reversed;
    hide OfClass;
    var n := |h.chunks|;
    var h1 := AddChunk(h, at);
    assert Sane(h.chunks[n - 1], n - 1) && h1.chunks[n - 1] == h.chunks[n - 1];
    var v, left := Last(h).virgin, WordsIn(Last(h).cap) - Last(h).virgin;
    var h2 := SetVirgin(h1, n - 1, v + left);
    DonateUnfold(h1, bk, n - 1, h2, v, left);
    CarveWrites(h2, n - 1, v, left, Carve(h2, n - 1, v, left));
    CarvedBook(h.mgr.sizes, bk, n - 1, v, left);
  }

  // ---------- free: where the block goes ----------

  /** A released block at the top of its chunk lowers the bump pointer to its start and joins no list; any
      other goes to the lists, all of it.  Everything else keeps its place. */
  lemma FreedWhere(h: Heap, bk: Book, b: Blk)
    requires Inv(h, bk) && b in bk.blocks && b.tag == LIVE
    ensures h.mgr.Shaped() && b.no < |h.chunks| && Room(h, b.no, b.off, b.size) && |bk.lists| == 3
    ensures var h', bk' := Free(h, b), BookFree(h, bk, b); var top := b.off + b.size == h.chunks[b.no].virgin;
            && |h'.chunks| == |h.chunks|
            && (forall k :: 0 <= k < |h.chunks| ==> SamePlace(h.chunks[k], h'.chunks[k]))
            && (forall k :: 0 <= k < |h.chunks| ==>
                  h'.chunks[k].virgin == if k == b.no && top then b.off else h.chunks[k].virgin)
            && h'.mgr.totalFree == h.mgr.totalFree + (if top then 0 else b.size)
            && h'.mgr.totalUsed == h.mgr.totalUsed - b.size
            && if top then bk'.lists == bk.lists && h'.mgr.heads == h.mgr.heads
               else ListsGain(bk.lists, CarveBlocks(h.mgr.sizes, b.no, b.off, b.size), bk'.lists)
  {
    hide Struct;
    hide Carve;
    hide BookCarve;
    hide CarveBlocks;
    hide Reversed;
    hide OfClass;
    hide UsedOk;
    InvParts(h, bk);
    FreePlaces(h, bk, b);
    LiveFacts(h, bk, b);
    hide Inv;
    hide Shape;
    hide SamePlace;
    var z := Zeroed(h, b);
    ZeroedWrites(h, b);
    CarveWrites(AddFree(z, b.size), b.no, b.off, b.size, Carve(AddFree(z, b.size), b.no, b.off, b.size));
    CarvedBook(h.mgr.sizes, Without(bk, b), b.no, b.off, b.size);
  }

  // ---------- alloc on the index ----------

  /** A size beyond the limit is refused before anything else: even a compressed index stays as it is. */
  lemma AllocRefuses(env: Env, ix: Index, g: Ghost, size: nat, unpack: bool, grant: bool)
    requires IxInv(env, ix, g) && size > 4088
    ensures Ready(env, ix) && AllocOp(env, ix, size, unpack, grant) == (ix, None)
    ensures Step(env, ix, g, OpAlloc(size, unpack, grant)) == (ix, g)
  {
    ReadyOf(env, ix, g);
  }

  /** A last chunk that owns its block and is not at full size must be enlarged first. */
  lemma AllocWantsEnlarge(env: Env, ix: Index, g: Ghost, size: nat, unpack: bool, grant: bool)
    requires IxInv(env, ix, g) && ix.packed.None? && ix.heap.chunks != [] && size >= 1
    requires Last(ix.heap).allocCap != 0 && Last(ix.heap).cap < 16
    ensures Ready(env, ix) && AllocOp(env, ix, size, unpack, grant) == (ix, None)
  {
    ReadyOf(env, ix, g);
  }

  /** Any other open index allocates from its chunks, as described above, given a block for a new chunk or
      not. */
  lemma AllocFromChunks(env: Env, ix: Index, g: Ghost, size: nat, unpack: bool, grant: bool)
    requires IxInv(env, ix, g) && ix.packed.None? && ix.heap.chunks != [] && 1 <= size <= 4088
    requires Last(ix.heap).allocCap == 0 || Last(ix.heap).cap == 16
    ensures Ready(env, ix) && Shape(ix.heap) && HeadsOk(ix.heap)
    ensures var (ix', r) := AllocOp(env, ix, size, unpack, grant);
            (ix'.heap, r) == Alloc(ix.heap, CeilDiv(size, 8), if grant then Some(Addr(ix.sys.next, 0)) else None)
  {
    ReadyOf(env, ix, g);
    ViewInvOpen(env, ix, g);
    HeadsOfLists(ix.heap, g.book);
    hide IxInv;
    hide Alloc;
    hide HeadsOk;
    assert CeilDiv(size, 8) <= MAX_WORDS;
  }

  lemma ViewInvOpen(env: Env, ix: Index, g: Ghost)
    requires IxInv(env, ix, g) && ix.packed.None? && ix.heap.chunks != []
    ensures EnvOk(env) && Open(env, ix, g.book) && Inv(ix.heap, g.book) && Struct(ix.heap, g.book) && Shape(ix.heap)
  {
  }

  /** A compressed index allocates as it would unpacked, if it can be unpacked. */
  lemma AllocUnpacks(env: Env, ix: Index, g: Ghost, size: nat, unpack: bool, grant: bool)
    requires IxInv(env, ix, g) && ix.packed.Some? && 1 <= size <= 4088
    ensures Ready(env, ix)
    ensures !unpack ==> AllocOp(env, ix, size, unpack, grant) == (ix, None)
    ensures unpack ==>
              var ix1 := Uncompress(env, ix, true).0;
              && IxInv(env, ix1, g) && ix1.packed.None? && ix1.heap.chunks != [] && Ready(env, ix1)
              && AllocOp(env, ix, size, true, grant) == AllocOp(env, ix1, size, true, grant)
  {
    ReadyOf(env, ix, g);
    UncompressKeeps(env, ix, g, unpack);
    assert CeilDiv(size, 8) <= MAX_WORDS;
    if unpack {
      var ix1 := Uncompress(env, ix, true).0;
      ReadyOf(env, ix1, g);
      assert Uncompress(env, ix1, true) == (ix1, 0);
    }
  }

  /** When an open index has no block to give. */
  ghost predicate NoBlock(ix: Index, bk: Book, size: nat, grant: bool)
    requires ix.heap.chunks == [] || (|bk.lists| == 3 && |ix.heap.mgr.sizes| == 3)
  {
    || size > 4088
    || (ix.heap.chunks == [] && !grant)
    || (&& ix.heap.chunks != []
        && (|| (Last(ix.heap).allocCap != 0 && Last(ix.heap).cap < 16)
            || (&& NoneServes(ix.heap, bk, CeilDiv(size, 8))
                && Last(ix.heap).virgin + CeilDiv(size, 8) > 128 * Last(ix.heap).cap
                && (|ix.heap.chunks| >= 2047 || !grant))))
  }

  /** When the block it gives is the one right behind the manager. */
  ghost predicate BootBlockFree(ix: Index, bk: Book, size: nat)
    requires ix.heap.chunks == [] || (|bk.lists| == 3 && |ix.heap.mgr.sizes| == 3)
  {
    var words := CeilDiv(size, 8);
    || ix.heap.chunks == []
    || (exists i: nat :: Serves(ix.heap, bk, words, i) && bk.lists[i][0].no == 0 && bk.lists[i][0].off == 5)
    || (&& NoneServes(ix.heap, bk, words) && |ix.heap.chunks| == 1
        && Last(ix.heap).virgin == 5 && 5 + words <= 128 * Last(ix.heap).cap)
  }

  /** So `init_boot` on an open index returns -1, 0 or -2 exactly in these cases. */
  lemma BootCases(env: Env, ix: Index, g: Ghost, size: nat, unpack: bool, grant: bool)
    requires IxInv(env, ix, g) && ix.packed.None? && size >= 1
    ensures Ready(env, ix) && (ix.heap.chunks == [] || (|g.book.lists| == 3 && |ix.heap.mgr.sizes| == 3))
    ensures var r := AllocOp(env, ix, size, unpack, grant).1;
            && (r == None <==> NoBlock(ix, g.book, size, grant))
            && (r == Some(Blk(0, 5, CeilDiv(size, 8), LIVE))
                <==> !NoBlock(ix, g.book, size, grant) && BootBlockFree(ix, g.book, size))
  {
    ReadyOf(env, ix, g);
    if ix.heap.chunks == [] {
      FirstIsBoot(env, ix, g, size, unpack, grant);
    } else {
      ViewInvOpen(env, ix, g);
      if size > 4088 {
        AllocRefuses(env, ix, g, size, unpack, grant);
      } else if Last(ix.heap).allocCap != 0 && Last(ix.heap).cap < 16 {
        AllocWantsEnlarge(env, ix, g, size, unpack, grant);
      } else {
        assert Sane(Last(ix.heap), |ix.heap.chunks| - 1);
        AllocFromChunks(env, ix, g, size, unpack, grant);
        hide IxInv;
        hide AllocOp;
        BootFromChunks(ix.heap, g.book, CeilDiv(size, 8), if grant then Some(Addr(ix.sys.next, 0)) else None);
      }
    }
  }

  lemma BootFromChunks(h: Heap, bk: Book, words: nat, at: Option<Addr>)
    requires Inv(h, bk) && 1 <= words <= MAX_WORDS && |bk.lists| == 3 && |h.mgr.sizes| == 3 && h.chunks != []
    ensures Shape(h) && HeadsOk(h)
    ensures var r := Alloc(h, words, at).1;
            && (r == None <==> && NoneServes(h, bk, words) && Last(h).virgin + words > 128 * Last(h).cap
                               && (|h.chunks| >= NULL_NO || at.None?))
            && (r == Some(Blk(0, 5, words, LIVE))
                <==> || (exists i: nat :: Serves(h, bk, words, i) && bk.lists[i][0].no == 0 && bk.lists[i][0].off == 5)
                     || (NoneServes(h, bk, words) && |h.chunks| == 1 && Last(h).virgin == 5
                         && 5 + words <= 128 * Last(h).cap))
  {
    hide Struct;
    hide HeadsOk;
    hide FrontTaken;
    hide SameBumps;
    hide ListsGain;
    hide CarveBlocks;
    hide Alloc;
    hide BookAlloc;
    hide FirstFit;
    hide Serves;
    hide NoneServes;
    hide NewChunk;
    InvParts(h, bk);
    hide Inv;
    FirstFitServes(h, bk, words);
    var i := FirstFit(h.mgr, words);
    forall j: nat | Serves(h, bk, words, j) ensures j == i < 3 {
      FirstFitIs(h, bk, words, j);
      NotNone(h, bk, words, j);
    }
    if i < 3 {
      TakenFromList(h, bk, i, words, at);
      NotNone(h, bk, words, i);
    } else if Last(h).virgin + words <= 128 * Last(h).cap {
      TakenFromLast(h, bk, words, at);
    } else {
      TakenFromNew(h, bk, words, at);
    }
  }

  lemma NotNone(h: Heap, bk: Book, size: nat, i: nat)
    requires |bk.lists| == 3 && |h.mgr.sizes| == 3 && Serves(h, bk, size, i)
    ensures i < 3 && bk.lists[i] != [] && !NoneServes(h, bk, size)
  {
  }

  /** While the boot block is live there is no second one. */
  lemma BootOnlyOnce(env: Env, ix: Index, g: Ghost, b: Blk, size: nat, unpack: bool, grant: bool)
    requires IxInv(env, ix, g) && IsLive(g, b) && b.no == 0 && b.off == 5 && size >= 1
    ensures Ready(env, ix) && AllocOp(env, ix, size, unpack, grant).1 != Some(Blk(0, 5, CeilDiv(size, 8), LIVE))
  {
    ReadyOf(env, ix, g);
    AllocExactly(env, ix, g, size, unpack, grant);
    StepKeeps(env, ix, g, OpAlloc(size, unpack, grant));
    var (ix', g') := Step(env, ix, g, OpAlloc(size, unpack, grant));
    hide Step;
    hide AllocOp;
    if AllocOp(env, ix, size, unpack, grant).1 == Some(Blk(0, 5, CeilDiv(size, 8), LIVE)) {
      var c := Blk(0, 5, CeilDiv(size, 8), LIVE);
      assert IsLive(g', b) && IsLive(g', c) && b != c;
      ViewOf(env, ix', g', c);
      assert c.size >= 1;
      LiveApart(View(ix', g'), g', b, c);
      assert false;
    }
  }

  lemma LiveApart(h: Heap, g: Ghost, b: Blk, c: Blk)
    requires Inv(h, g.book) && IsLive(g, b) && IsLive(g, c) && b != c
    ensures Disjoint(b, c) && b.size >= 1 && c.size >= 1
  {
    assert Disjoint(b, c);
    assert Placed(h, b) && Placed(h, c);
  }

  // ---------- enlarge and shrink ----------

  /** The capacity of the last chunk once the index is unpacked. */
  ghost function LastCap(ix: Index, g: Ghost): nat
    requires View(ix, g).chunks != []
  {
    if ix.packed.Some? then Tight(Last(g.frozen).virgin) else Last(ix.heap).cap
  }

  /** What `enlarge` returns: -1 exactly when it cannot unpack, -3 exactly when a chunk below full size
      cannot grow for want of memory, and 0 otherwise, also when there is nothing to do. */
  lemma EnlargeCodes(env: Env, ix: Index, g: Ghost, unpack: bool, grant: bool, tail: seq<Cell>)
    requires IxInv(env, ix, g)
    ensures Ready(env, ix)
    ensures var rc := EnlargeOp(env, ix, unpack, grant, tail).1;
            && rc in {0, -1, -3}
            && (rc == -1 <==> ix.packed.Some? && !unpack)
            && (rc == -3 <==> && (ix.packed.None? || unpack) && !grant && !env.pooled
                              && View(ix, g).chunks != [] && LastCap(ix, g) < 16)
  {
    hide Open;
    hide View;
    hide LastCap;
    ReadyOf(env, ix, g);
    UncompressKeeps(env, ix, g, unpack);
    var (ix1, rc) := Uncompress(env, ix, unpack);
    if rc == 0 {
      UnpackedCap(env, ix, g, unpack);
      hide IxInv;
      hide Uncompress;
      SplitIxKeeps(env, ix1, g.book);
      SplitLastCap(env, ix1, g.book);
      GrowCode(env, SplitIx(env, ix1), grant, tail);
    }
  }

  lemma GrowCode(env: Env, ix: Index, grant: bool, tail: seq<Cell>)
    requires ix.heap.chunks != [] ==> Last(ix.heap).allocCap != 0
    ensures EnlargeLast(env, ix, grant, tail).1
            == if ix.heap.chunks != [] && Last(ix.heap).cap < 16 && !grant && !env.pooled then -1 else 0
  {
  }

  lemma UnpackedCap(env: Env, ix: Index, g: Ghost, unpack: bool)
    requires IxInv(env, ix, g) && (ix.packed.None? || unpack)
    ensures var ix1 := Uncompress(env, ix, unpack).0;
            && (ix1.heap.chunks == [] <==> View(ix, g).chunks == [])
            && (ix1.heap.chunks != [] ==> Last(ix1.heap).cap == LastCap(ix, g))
  {
    if ix.packed.Some? {
      EnvClosed(env, ix, g);
      hide IxInv;
      hide Closed;
      RecompressTight(env, ix, g);
      var h := Uncompress(env, ix, true).0.heap;
      hide Uncompress;
      CapsLast(g.frozen, h);
    }
  }

  lemma CapsLast(h: Heap, h': Heap)
    requires h.chunks != [] && Caps(h'.chunks) == TightCaps(h)
    ensures h'.chunks != [] && Last(h').cap == Tight(Last(h).virgin)
  {
    assert |Caps(h'.chunks)| == |h.chunks|;
    assert Caps(h'.chunks)[|h'.chunks| - 1] == Last(h').cap;
  }

  lemma EnvClosed(env: Env, ix: Index, g: Ghost)
    requires IxInv(env, ix, g) && ix.packed.Some?
    ensures EnvOk(env) && Closed(env, ix, g)
  {
  }

  lemma SplitLastCap(env: Env, ix: Index, bk: Book)
    requires Open(env, ix, bk)
    ensures ix.heap.chunks == [] || Shape(ix.heap)
    ensures var h := SplitIx(env, ix).heap;
            && (h.chunks == [] <==> ix.heap.chunks == [])
            && (h.chunks != [] ==> Last(h).cap == Last(ix.heap).cap <= 16)
  {
    if ix.heap.chunks != [] {
      assert Sane(Last(ix.heap), |ix.heap.chunks| - 1);
    }
  }

  /** With nothing to enlarge and nothing to split or unpack, `enlarge` leaves the index as it is. */
  lemma EnlargeLeaves(env: Env, ix: Index, g: Ghost, unpack: bool, grant: bool, tail: seq<Cell>)
    requires IxInv(env, ix, g) && ix.packed.None?
    requires ix.heap.chunks == [] || (Last(ix.heap).cap == 16 && Last(ix.heap).allocCap != 0)
    ensures Ready(env, ix) && EnlargeOp(env, ix, unpack, grant, tail) == (ix, 0)
  {
    ReadyOf(env, ix, g);
    if ix.heap.chunks != [] {
      OpenOf(env, ix, g);
      ViewInvOpen(env, ix, g);
      LastOwnsUnlessContinuous(env, ix.heap, g.book, ix.sys);
    }
  }

  /** What `shrink` does to an open index: nothing if the last capacity is tight, or if memory is refused
      and the chunk would have to move; otherwise it makes the capacity tight and keeps every word below
      the bump pointer.  The chunk stays where it is exactly with a pool and when it keeps more than it
      gives back. */
  lemma ShrinkExactly(env: Env, ix: Index, g: Ghost, grant: bool)
    requires IxInv(env, ix, g) && ix.packed.None? && ix.heap.chunks != []
    ensures Shape(ix.heap)
    ensures var n := |ix.heap.chunks| - 1; var c := Last(ix.heap); var tight := Tight(c.virgin);
            var stays := env.pooled && 2 * tight > c.cap; var ix' := Shrink(env, ix, grant);
            if tight == c.cap || (!grant && !stays) then ix' == ix
            else
              && |ix'.heap.chunks| == n + 1 && ix'.heap.chunks[..n] == ix.heap.chunks[..n]
              && var d := Last(ix'.heap);
                 && d == c.(cap := tight, allocCap := tight, at := if stays then c.at else Addr(ix.sys.next, 0),
                            cells := d.cells)
                 && |d.cells| == 256 * tight && d.cells[..2 * c.virgin] == c.cells[..2 * c.virgin]
                 && (if 2 * tight > c.cap then d.cells == c.cells[..256 * tight]
                     else forall k :: 2 * c.virgin <= k < |d.cells| ==> d.cells[k] == 0)
                 && ix'.heap.mgr == ix.heap.mgr.(totalCap := ix.heap.mgr.totalCap - (c.cap - tight))
                 && ix'.addrSize == ix.addrSize && ix'.packed.None?
  {
    ViewInvOpen(env, ix, g);
    hide IxInv;
    hide Inv;
    hide Struct;
    var n := |ix.heap.chunks| - 1;
    var c := Last(ix.heap);
    assert Sane(c, n);
    ExcessIsTight(c, n);
    hide Shape;
    ShrunkCells(c, n, c.at);
    ShrunkCells(c, n, Addr(ix.sys.next, 0));
    hide ShrinkChunk;
    hide Tight;
    hide Release;
    hide Obtain;
  }

  lemma ShrunkCells(c: Chunk, i: nat, at: Addr)
    requires Sane(c, i)
    ensures 0 <= Excess(c) <= c.cap && c.cap - Excess(c) == Tight(c.virgin)
    ensures var d := ShrinkChunk(c, at); var tight := Tight(c.virgin);
            && d == c.(cap := tight, allocCap := tight, at := at, cells := d.cells)
            && |d.cells| == 256 * tight && 2 * c.virgin <= |d.cells|
               && d.cells[..2 * c.virgin] == c.cells[..2 * c.virgin]
            && (if 2 * tight > c.cap then d.cells == c.cells[..256 * tight]
                else forall k :: 2 * c.virgin <= k < |d.cells| ==> d.cells[k] == 0)
  {
    ExcessIsTight(c, i);
  }

  /** What `chk_enlarge(1)` does to a last chunk that owns its block and is below full size: with a pool it
      stays and shows what the pool chunk holds above, otherwise it moves, if there is memory, and is zero
      above. */
  lemma EnlargeExactly(env: Env, ix: Index, g: Ghost, grant: bool, tail: seq<Cell>)
    requires IxInv(env, ix, g) && ix.packed.None? && ix.heap.chunks != []
    requires Last(ix.heap).allocCap != 0 && Last(ix.heap).cap < 16
    ensures var n := |ix.heap.chunks| - 1; var c := Last(ix.heap); var (ix', rc) := EnlargeLast(env, ix, grant, tail);
            if !grant && !env.pooled then ix' == ix && rc == -1
            else
              && rc == 0 && |ix'.heap.chunks| == n + 1 && ix'.heap.chunks[..n] == ix.heap.chunks[..n]
              && var d := Last(ix'.heap);
                 && d == c.(cap := 16, allocCap := 16, cells := d.cells,
                            at := if env.pooled then c.at else Addr(ix.sys.next, 0))
                 && |d.cells| == 4096 && d.cells[..256 * c.cap] == c.cells
                 && (forall k :: 256 * c.cap <= k < 4096 ==>
                       d.cells[k] == if env.pooled && k - 256 * c.cap < |tail| then tail[k - 256 * c.cap] else 0)
                 && ix'.heap.mgr == ix.heap.mgr.(totalCap := ix.heap.mgr.totalCap + (16 - c.cap))
                 && ix'.addrSize == ix.addrSize && ix'.packed.None?
  {
    ViewInvOpen(env, ix, g);
    hide IxInv;
    hide Inv;
    hide Struct;
    var c := Last(ix.heap);
    assert Sane(c, |ix.heap.chunks| - 1);
    hide Shape;
    hide Release;
    hide Obtain;
    GrownCells(c, c.at, Fit(tail, CellsIn(MAX_CAP - c.cap)), tail);
    GrownCells(c, Addr(ix.sys.next, 0), Zeros(CellsIn(MAX_CAP - c.cap)), []);
    hide EnlargeChunk;
    hide Fit;
    hide Zeros;
  }

  lemma GrownCells(c: Chunk, at: Addr, gained: seq<Cell>, tail: seq<Cell>)
    requires c.cap <= 16 && |c.cells| == 256 * c.cap && |gained| == 256 * (16 - c.cap)
    requires forall k :: 0 <= k < |gained| ==> gained[k] == if k < |tail| then tail[k] else 0
    ensures var d := EnlargeChunk(c, at, gained);
            && d == c.(cap := 16, allocCap := 16, cells := d.cells, at := at)
            && |d.cells| == 4096 && d.cells[..256 * c.cap] == c.cells
            && (forall k :: 256 * c.cap <= k < 4096 ==>
                  d.cells[k] == if k - 256 * c.cap < |tail| then tail[k - 256 * c.cap] else 0)
  {
  }

  /** What `split_continuous_chunk` does to chunks that share one block: each gets a block of its own, the
      last one only with the words below its bump pointer. */
  lemma SplitExactly(env: Env, ix: Index)
    requires Shape(ix.heap) && |ix.heap.chunks| > 1 && ix.heap.mgr.totalCap == ix.heap.chunks[0].allocCap
    ensures var n := |ix.heap.chunks|; var ix' := SplitIx(env, ix);
            && |ix'.heap.chunks| == n && ix'.heap.mgr == ix.heap.mgr && ix'.addrSize == ix.addrSize
               && ix'.packed == ix.packed
            && forall i :: 0 <= i < n ==>
                 var c, d := ix.heap.chunks[i], ix'.heap.chunks[i];
                 && d == c.(allocCap := c.cap, at := Addr(ix.sys.next + i, 0), cells := d.cells)
                 && |d.cells| == |c.cells| && 2 * c.virgin <= |c.cells|
                 && forall k :: 0 <= k < |c.cells| ==>
                    d.cells[k] == if i == n - 1 && k >= 2 * c.virgin then 0 else c.cells[k]
  {
    forall i: nat | i < |ix.heap.chunks| ensures Sane(ix.heap.chunks[i], i) {}
  }

  // ---------- the slots of `_chk_addr` ----------

  /** `alloc` of `words` words on this open index asks for a chunk: for its first one, or because nothing
      that it has can serve. */
  ghost predicate AsksForChunk(ix: Index, bk: Book, words: nat)
    requires ix.heap.chunks == [] || (|bk.lists| == 3 && |ix.heap.mgr.sizes| == 3)
  {
    || ix.heap.chunks == []
    || (&& (Last(ix.heap).allocCap == 0 || Last(ix.heap).cap == 16) && |ix.heap.chunks| < 2047
        && NoneServes(ix.heap, bk, words) && Last(ix.heap).virgin + words > 128 * Last(ix.heap).cap)
  }

  lemma UncompressSlots(env: Env, ix: Index, unpack: bool)
    ensures Uncompress(env, ix, unpack).0.addrSize == ix.addrSize
  {
    hide Unflatten;
    hide Shape;
  }

  /** `_chk_addr` doubles, or gets its first slot, when a chunk is asked for and all slots are taken, whether
      or not the chunk is granted; and only then. */
  lemma SlotsExactly(env: Env, ix: Index, g: Ghost, op: Op)
    requires IxInv(env, ix, g) && Legal(ix, g, op)
    ensures !op.OpAlloc? ==> Step(env, ix, g, op).0.addrSize == ix.addrSize
    ensures op.OpAlloc? ==>
              var (ix1, rc) := Uncompress(env, ix, op.unpack); var words := CeilDiv(op.size, 8);
              && (rc == 0 && ix1.heap.chunks != [] ==> |g.book.lists| == 3 && |ix1.heap.mgr.sizes| == 3)
              && Step(env, ix, g, op).0.addrSize
                 == if op.size <= 4088 && rc == 0 && AsksForChunk(ix1, g.book, words)
                     && |ix1.heap.chunks| == ix.addrSize
                    then if ix.addrSize == 0 then 1 else 2 * ix.addrSize
                    else ix.addrSize
  {
    if op.OpAlloc? {
      AllocSlots(env, ix, g, op);
    } else {
      hide AsksForChunk;
      OtherSlots(env, ix, g, op);
    }
  }

  lemma OtherSlots(env: Env, ix: Index, g: Ghost, op: Op)
    requires IxInv(env, ix, g) && Legal(ix, g, op) && !op.OpAlloc?
    ensures Step(env, ix, g, op).0.addrSize == ix.addrSize
  {
    hide Uncompress;
    hide Inv;
    if op.OpFree? {
      UncompressSlots(env, ix, op.unpack);
    } else if op.OpEnlarge? {
      EnlargeSlots(env, ix, g, op);
    } else if op.OpUncompress? {
      UncompressSlots(env, ix, op.unpack);
    } else if op.OpShrink? {
      ShapeOf(env, ix, g);
    }
  }

  lemma EnlargeSlots(env: Env, ix: Index, g: Ghost, op: Op)
    requires IxInv(env, ix, g) && op.OpEnlarge?
    ensures Step(env, ix, g, op).0.addrSize == ix.addrSize
  {
    UncompressSlots(env, ix, op.unpack);
    ReadyOf(env, ix, g);
    UncompressKeeps(env, ix, g, op.unpack);
    var (ix1, rc) := Uncompress(env, ix, op.unpack);
    hide Uncompress;
    hide IxInv;
    hide Open;
    if rc == 0 {
      SplitIxKeeps(env, ix1, g.book);
      GrowSlots(env, ix1, op.grant, op.tail);
    }
  }

  lemma GrowSlots(env: Env, ix: Index, grant: bool, tail: seq<Cell>)
    requires ix.heap.chunks == [] || Shape(ix.heap)
    ensures EnlargeLast(env, SplitIx(env, ix), grant, tail).0.addrSize == ix.addrSize
  {
    hide Shape;
    hide Split;
  }

  lemma AllocSlots(env: Env, ix: Index, g: Ghost, op: Op)
    requires IxInv(env, ix, g) && Legal(ix, g, op) && op.OpAlloc?
    ensures var (ix1, rc) := Uncompress(env, ix, op.unpack); var words := CeilDiv(op.size, 8);
            && (rc == 0 && ix1.heap.chunks != [] ==> |g.book.lists| == 3 && |ix1.heap.mgr.sizes| == 3)
            && Step(env, ix, g, op).0.addrSize
               == if op.size <= 4088 && rc == 0 && AsksForChunk(ix1, g.book, words) && |ix1.heap.chunks| == ix.addrSize
                  then if ix.addrSize == 0 then 1 else 2 * ix.addrSize
                  else ix.addrSize
  {
    ReadyOf(env, ix, g);
    UncompressSlots(env, ix, op.unpack);
    UncompressKeeps(env, ix, g, op.unpack);
    var (ix1, rc) := Uncompress(env, ix, op.unpack);
    if rc == 0 && op.size <= 4088 {
      assert CeilDiv(op.size, 8) <= MAX_WORDS;
      AllocIxSlots(env, ix1, g.book, op.size, op.grant);
    }
  }

  lemma AllocIxSlots(env: Env, ix: Index, bk: Book, size: nat, grant: bool)
    requires EnvOk(env) && Open(env, ix, bk) && 1 <= size <= 4088
    ensures (ix.heap.chunks == [] || Usable(ix.heap)) && |bk.lists| == 3
    ensures AllocIx(env, ix, size, grant).0.addrSize
            == if AsksForChunk(ix, bk, CeilDiv(size, 8)) && |ix.heap.chunks| == ix.addrSize
               then if ix.addrSize == 0 then 1 else 2 * ix.addrSize
               else ix.addrSize
  {
    var words := CeilDiv(size, 8);
    if ix.heap.chunks == [] {
      AddFirstKeeps(env, ix);
    } else {
      OpenUsable(env, ix, bk);
      ChunkedSlots(env, ix, bk, words, grant);
    }
    hide Alloc;
  }

  lemma ChunkedSlots(env: Env, ix: Index, bk: Book, words: nat, grant: bool)
    requires Open(env, ix, bk) && ix.heap.chunks != [] && words <= MAX_WORDS && Usable(ix.heap)
    ensures |bk.lists| == 3 && |ix.heap.chunks| <= ix.addrSize && Last(ix.heap).cap <= 16
    ensures FirstFit(ix.heap.mgr, words) == 3 <==> NoneServes(ix.heap, bk, words)
  {
    FirstFitServes(ix.heap, bk, words);
    assert Sane(Last(ix.heap), |ix.heap.chunks| - 1);
  }
}
