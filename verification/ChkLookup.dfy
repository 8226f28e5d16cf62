/**
  When the address lookup of chk/chk_base.cpp is right over whole runs: a client that stores no
  CHK_PADDING where the fourth cell of a header could stand cannot lead it astray.
 */
module ChkLookup {
  import opened ChkBase
  import opened ChkHeap
  import opened ChkAlloc
  import opened ChkImage
  import opened ChkIndexSpec
  import opened ChkOwnership
  import opened ChkOperations
  import opened ChkRuns
  import opened ChkAddress
  import opened ChkRestore

  // ---------- memory without stray paddings ----------

  /** No cell but the chunk's own fourth could be the fourth cell of a header. */
  ghost predicate PlainCells(cells: seq<Cell>) {
    forall x :: 4 <= x < |cells| && x % 256 == 3 ==> cells[x] != CHK_PADDING
  }

  ghost predicate Plain(h: Heap) {
    forall i :: 0 <= i < |h.chunks| ==> PlainCells(h.chunks[i].cells)
  }

  /** What a client could check before a store, and of the memory it grants. */
  ghost predicate Tame(op: Op) {
    match op
    case OpStore(_, k, v) => k % 256 != 3 || v != CHK_PADDING
    case OpEnlarge(_, _, tail) => forall x :: 0 <= x < |tail| && x % 256 == 3 ==> tail[x] != CHK_PADDING
    case _ => true
  }

  /** In such memory nothing passes for a header but a header. */
  lemma PlainHasNoDecoy(m: Memory, h: Heap, no: nat, base: int, q: int)
    requires HeapWritable(h) && no < |h.chunks| && Holds(m, 256 * base, Images(h)[no]) && PlainCells(h.chunks[no].cells)
    requires q <= base + h.chunks[no].cap
    ensures !Decoy(m, base, q)
  {
    assert Writable(h.chunks[no], no, h.mgr) && Images(h)[no] == ChunkImage(h.chunks[no], no, h.mgr);
    hide ChunkImage;
    hide HeapWritable;
    hide Images;
    hide PassesTest;
    hide PlainCells;
    hide Holds;
    hide Writable;
    forall j | 1 <= j < q - base ensures !PassesTest(m, q, j) {
      PlainFails(m, h.chunks[no], no, h.mgr, base, q - j - base);
      FourthCell(m, q, j);
    }
  }

  lemma PlainFails(m: Memory, c: Chunk, i: nat, mgr: Mgr, base: int, k: nat)
    requires Writable(c, i, mgr) && Holds(m, 256 * base, ChunkImage(c, i, mgr)) && PlainCells(c.cells)
    requires 1 <= k < c.cap
    ensures m(256 * (base + k) + 3) != CHK_PADDING
  {
    hide ChunkImage;
    var x := 256 * k + 3;
    ImageAbove(c, i, mgr, x);
    assert x % 256 == 3 && 4 <= x < |c.cells|;
    assert m(256 * base + x) == ChunkImage(c, i, mgr)[x];
  }

  lemma FourthCell(m: Memory, q: int, j: int)
    requires m(256 * (q - j) + 3) != CHK_PADDING
    ensures !PassesTest(m, q, j)
  {
  }

  // ---------- the operations on a heap ----------

  lemma SetPlain(h: Heap, no: nat, cells: seq<Cell>)
    requires Plain(h) && no < |h.chunks| && PlainCells(cells)
    ensures Plain(SetCells(h, no, cells))
  {
  }

  lemma PushPlain(h: Heap, i: nat, no: nat, off: nat)
    requires Plain(h) && h.mgr.Shaped() && i < 3 && Room(h, no, off, h.mgr.sizes[i])
    ensures Plain(Push(h, i, no, off))
  {
    hide EncodePtr;
    var cells := Push(h, i, no, off).chunks[no].cells;
    assert PlainCells(h.chunks[no].cells);
    SetPlain(h, no, cells);
  }

  lemma {:induction false} CarvePlain(h: Heap, no: nat, off: nat, left: nat)
    requires Plain(h) && Room(h, no, off, left)
    ensures Plain(Carve(h, no, off, left))
    decreases left
  {
    hide Carve;
    hide Push;
    hide Plain;
    if left < h.mgr.sizes[0] {
      CarveDone(h, no, off, left);
    } else {
      var i := Pick(h.mgr.sizes, left);
      CarveOnce(h, no, off, left, i);
      PushPlain(h, i, no, off);
      CarvePlain(Push(h, i, no, off), no, off + h.mgr.sizes[i], left - h.mgr.sizes[i]);
    }
  }

  lemma PoolTakePlain(h: Heap, i: nat, size: nat)
    requires Plain(h) && h.mgr.Shaped() && i < 3 && HeadOk(h, i) && size <= h.mgr.sizes[i]
    ensures Plain(PoolTake(h, i, size))
  {
    hide Carve;
    hide EncodePtr;
    hide DecodePtr;
    var p := h.mgr.heads[i];
    assert PlainCells(h.chunks[p.no].cells);
    SetPlain(h, p.no, Pop(h, i).chunks[p.no].cells);
    CarvePlain(Pop(h, i), p.no, p.off / 2 + size, h.mgr.sizes[i] - size);
  }

  lemma DonatePlain(h: Heap, no: nat)
    requires Plain(h) && h.mgr.Shaped() && no < |h.chunks| && no < NULL_NO && Sane(h.chunks[no], no)
    ensures Plain(Donate(h, no))
  {
    hide Carve;
    var v, left := h.chunks[no].virgin, WordsIn(h.chunks[no].cap) - h.chunks[no].virgin;
    var h1 := SetVirgin(h, no, v + left);
    DonateUnfold(h, EMPTY_BOOK, no, h1, v, left);
    CarvePlain(h1, no, v, left);
  }

  lemma ChargePlain(h: Heap, no: nat, size: int)
    requires Plain(h) && no < |h.chunks|
    ensures Plain(Charge(h, no, size))
  {
  }

  lemma AllocPlain(h: Heap, size: nat, at: Option<Addr>)
    requires Plain(h) && Shape(h) && HeadsOk(h) && size <= MAX_WORDS
    ensures Plain(Alloc(h, size, at).0)
  {
    hide Carve;
    hide Donate;
    var i, n := FirstFit(h.mgr, size), |h.chunks|;
    if i < 3 {
      PoolTakePlain(h, i, size);
      ChargePlain(AddFree(PoolTake(h, i, size), 0 - size), h.mgr.heads[i].no, size);
    } else if !BumpFits(h, size) && n < NULL_NO && at.Some? {
      assert Sane(h.chunks[n - 1], n - 1);
      var h1 := AddChunk(h, at.value);
      assert h1.chunks[n - 1] == h.chunks[n - 1];
      DonatePlain(h1, n - 1);
    }
  }

  lemma FreePlain(h: Heap, b: Blk)
    requires Plain(h) && h.mgr.Shaped() && b.no < |h.chunks| && Room(h, b.no, b.off, b.size)
    ensures Plain(Free(h, b))
  {
    hide Carve;
    assert PlainCells(h.chunks[b.no].cells);
    SetPlain(h, b.no, Zeroed(h, b).chunks[b.no].cells);
    var z := Zeroed(h, b);
    CarvePlain(AddFree(z, b.size), b.no, b.off, b.size);
  }

  lemma PrefixPlain(cells: seq<Cell>, n: nat, zeros: nat)
    requires PlainCells(cells) && n <= |cells|
    ensures PlainCells(cells[..n] + Zeros(zeros)) && PlainCells(cells[..n])
  {
  }

  lemma TailPlain(cells: seq<Cell>, cap: nat, tail: seq<Cell>)
    requires PlainCells(cells) && |cells| == CellsIn(cap)
    requires forall x :: 0 <= x < |tail| && x % 256 == 3 ==> tail[x] != CHK_PADDING
    ensures PlainCells(cells + tail)
  {
    var all := cells + tail;
    forall x | 4 <= x < |all| && x % 256 == 3 ensures all[x] != CHK_PADDING {
      if x >= |cells| { assert (x - |cells|) % 256 == 3; }
    }
  }

  lemma LastPlain(h: Heap, c: Chunk)
    requires Plain(h) && h.chunks != [] && PlainCells(c.cells)
    ensures Plain(SetLast(h, c))
  {
  }

  lemma ShrinkPlain(env: Env, ix: Index, grant: bool)
    requires Plain(ix.heap) && (ix.heap.chunks == [] || Shape(ix.heap))
    ensures Plain(Shrink(env, ix, grant).heap)
  {
    if ix.heap.chunks != [] {
      var n := |ix.heap.chunks| - 1;
      var c := ix.heap.chunks[n];
      assert Sane(c, n);
      ExcessIsTight(c, n);
      assert PlainCells(c.cells);
      PrefixPlain(c.cells, CellsIn(c.cap - Excess(c)), 0);
      PrefixPlain(c.cells, 2 * c.virgin,
          if Excess(c) < c.cap - Excess(c) then 0 else CellsIn(c.cap - Excess(c)) - 2 * c.virgin);
      forall at | true ensures PlainCells(ShrinkChunk(c, at).cells) {}
      hide ShrinkChunk;
      hide PlainCells;
      hide Plain;
      match ShrinkPlace(env.pooled, ix.sys, c, grant) {
        case None =>
        case Some(p) => LastPlain(ix.heap, ShrinkChunk(c, p.1));
      }
    }
  }

  lemma EnlargeLastPlain(env: Env, ix: Index, grant: bool, tail: seq<Cell>)
    requires Plain(ix.heap) && (ix.heap.chunks == [] || Shape(ix.heap))
    requires forall x :: 0 <= x < |tail| && x % 256 == 3 ==> tail[x] != CHK_PADDING
    ensures Plain(EnlargeLast(env, ix, grant, tail).0.heap)
  {
    if ix.heap.chunks != [] {
      var n := |ix.heap.chunks| - 1;
      var c := ix.heap.chunks[n];
      assert Sane(c, n) && PlainCells(c.cells);
      var left := CellsIn(MAX_CAP - c.cap);
      TailPlain(c.cells, c.cap, Fit(tail, left));
      TailPlain(c.cells, c.cap, Zeros(left));
      hide PlainCells;
      hide Plain;
      var at := Moved(env.pooled, ix.sys, c.at).1;
      LastPlain(ix.heap, EnlargeChunk(c, at, Fit(tail, left)));
      LastPlain(ix.heap, EnlargeChunk(c, at, Zeros(left)));
    }
  }

  lemma SplitPlain(env: Env, ix: Index)
    requires Plain(ix.heap) && (ix.heap.chunks == [] || Shape(ix.heap))
    ensures Plain(SplitIx(env, ix).heap)
  {
    if IsContinuous(ix.heap) {
      var h, n := ix.heap, |ix.heap.chunks|;
      var at := seq(n, i requires 0 <= i < n => Addr(ix.sys.next + i, 0));
      forall i: nat | i < n ensures PlainCells(Split(h, at).chunks[i].cells) {
        assert Sane(h.chunks[i], i) && PlainCells(h.chunks[i].cells);
        PrefixPlain(h.chunks[i].cells, 2 * h.chunks[i].virgin, CellsIn(h.chunks[i].cap) - 2 * h.chunks[i].virgin);
      }
    }
  }

  // ---------- uncompress ----------

  lemma UncompressPlain(env: Env, ix: Index, g: Ghost, grant: bool)
    requires IxInv(env, ix, g) && Plain(View(ix, g))
    ensures var (ix1, rc) := Uncompress(env, ix, grant);
            Plain(View(ix1, g)) && (rc != 0 ==> ix1 == ix) && (rc == 0 ==> ix1.packed.None? && Open(env, ix1, g.book))
  {
    UncompressKeeps(env, ix, g, grant);
    if ix.packed.Some? && grant {
      ClosedOf(env, ix, g);
      hide IxInv;
      hide Uncompress;
      UnpackedPlain(env, ix, g);
    }
  }

  lemma UnpackedPlain(env: Env, ix: Index, g: Ghost)
    requires EnvOk(env) && Closed(env, ix, g) && Plain(g.frozen)
    ensures Plain(Uncompress(env, ix, true).0.heap)
  {
    UncompressBack(env, ix, g);
    hide Closed;
    hide Uncompress;
    hide CellsBack;
    hide PlainCells;
    var cs, ws := g.frozen.chunks, Uncompress(env, ix, true).0.heap.chunks;
    forall j | 0 <= j < |ws| ensures PlainCells(ws[j].cells) {
      assert CellsBack(cs[j], ws[j], 0 + j, j == |cs| - 1);
      BackPlain(cs[j], ws[j], j, j == |cs| - 1);
    }
  }

  lemma BackPlain(c: Chunk, w: Chunk, i: nat, last: bool)
    requires CellsBack(c, w, i, last) && PlainCells(c.cells)
    ensures PlainCells(w.cells)
  {
  }

  // ---------- whole runs ----------

  lemma {:induction false} StepPlain(env: Env, ix: Index, g: Ghost, op: Op)
    requires IxInv(env, ix, g) && Legal(ix, g, op) && Tame(op) && Plain(View(ix, g))
    ensures var (ix', g') := Step(env, ix, g, op); Plain(View(ix', g'))
  {
    match op {
      case OpAlloc(size, unpack, grant) => AllocStepPlain(env, ix, g, op);
      case OpFree(p, bytes, unpack) => FreeStepPlain(env, ix, g, op);
      case OpStore(b, k, v) => StoreStepPlain(env, ix, g, op);
      case OpShrink(grant) => ShrinkStepPlain(env, ix, g, op);
      case OpEnlarge(unpack, grant, tail) => EnlargeStepPlain(env, ix, g, op);
      case OpCompress(percent, grant) => StepCompress(env, ix, g, op);
      case OpUncompress(unpack) => UncompressPlain(env, ix, g, unpack);
      case OpDestruct =>
    }
  }

  lemma AllocIxPlain(env: Env, ix: Index, size: nat, grant: bool)
    requires ix.heap.chunks == [] || Usable(ix.heap)
    requires SizesOk(env.sizes) && env.sizes[0] < 16 && env.sizes[1] < 32 && env.sizes[2] < 128
    requires Plain(ix.heap)
    ensures var ix' := AllocIx(env, ix, size, grant).0; Plain(ix'.heap) && ix'.packed == ix.packed
  {
    hide Alloc;
    hide PlainCells;
    var words := CeilDiv(size, 8);
    if words <= MAX_WORDS {
      var (ix1, rc) := if ix.heap.chunks == [] then AddFirst(env, ix, grant) else (ix, 0);
      FirstPlain(env.sizes, Addr(ix.sys.next, 0));
      if rc >= 0 && !CanEnlarge(Last(ix1.heap)) {
        AllocPlain(ix1.heap, words, if grant then Some(Addr(ix1.sys.next, 0)) else None);
      }
    }
  }

  lemma FirstPlain(sizes: seq<nat>, at: Addr)
    ensures Plain(FirstHeap(sizes, at))
  {
  }

  lemma AllocStepPlain(env: Env, ix: Index, g: Ghost, op: Op)
    requires IxInv(env, ix, g) && op.OpAlloc? && Legal(ix, g, op) && Plain(View(ix, g))
    ensures var (ix', g') := Step(env, ix, g, op); Plain(View(ix', g'))
  {
    hide Plain;
    hide AllocIx;
    hide Usable;
    hide Open;
    ReadyOf(env, ix, g);
    UncompressPlain(env, ix, g, op.unpack);
    var (ix1, rc) := Uncompress(env, ix, op.unpack);
    hide Uncompress;
    hide IxInv;
    if rc == 0 { AllocIxPlain(env, ix1, op.size, op.grant); }
  }

  lemma FreeStepPlain(env: Env, ix: Index, g: Ghost, op: Op)
    requires IxInv(env, ix, g) && op.OpFree? && Legal(ix, g, op) && Plain(View(ix, g))
    ensures var (ix', g') := Step(env, ix, g, op); Plain(View(ix', g'))
  {
    var c := NamedBlk(op.p, op.bytes);
    CleftKeeps(env, ix, g, c);
    FreeOpReady(env, ix, Cleft(g, c), c, op.unpack);
    UncompressPlain(env, ix, g, op.unpack);
    var (ix1, rc) := Uncompress(env, ix, op.unpack);
    if rc == 0 { FreePlain(ix1.heap, c); }
  }

  lemma StoreStepPlain(env: Env, ix: Index, g: Ghost, op: Op)
    requires IxInv(env, ix, g) && op.OpStore? && Legal(ix, g, op) && Tame(op) && Plain(View(ix, g))
    ensures var (ix', g') := Step(env, ix, g, op); Plain(View(ix', g'))
  {
    OpenOf(env, ix, g);
    StoreKeeps(env, ix, g.book, op.b, op.k, op.v);
    hide IxInv;
    assert PlainCells(ix.heap.chunks[op.b.no].cells);
    SetPlain(ix.heap, op.b.no, ix.heap.chunks[op.b.no].cells[op.k := op.v]);
  }

  lemma ShrinkStepPlain(env: Env, ix: Index, g: Ghost, op: Op)
    requires IxInv(env, ix, g) && op.OpShrink? && Legal(ix, g, op) && Plain(View(ix, g))
    ensures var (ix', g') := Step(env, ix, g, op); Plain(View(ix', g'))
  {
    ShapeOf(env, ix, g);
    if ix.packed.None? { ShrinkPlain(env, ix, op.grant); } else { ShrinkNothing(env, ix, op.grant); }
  }

  lemma EnlargeStepPlain(env: Env, ix: Index, g: Ghost, op: Op)
    requires IxInv(env, ix, g) && op.OpEnlarge? && Tame(op) && Plain(View(ix, g))
    ensures var (ix', g') := Step(env, ix, g, op); Plain(View(ix', g'))
  {
    hide Plain;
    hide Open;
    ReadyOf(env, ix, g);
    UncompressPlain(env, ix, g, op.unpack);
    var (ix1, rc) := Uncompress(env, ix, op.unpack);
    hide Uncompress;
    hide IxInv;
    if rc == 0 { EnlargeOpenPlain(env, ix1, g.book, op.grant, op.tail); }
  }

  lemma EnlargeOpenPlain(env: Env, ix: Index, bk: Book, grant: bool, tail: seq<Cell>)
    requires Open(env, ix, bk) && Plain(ix.heap)
    requires forall x :: 0 <= x < |tail| && x % 256 == 3 ==> tail[x] != CHK_PADDING
    ensures ix.heap.chunks == [] || Shape(ix.heap)
    ensures var ix' := EnlargeLast(env, SplitIx(env, ix), grant, tail).0; Plain(ix'.heap) && ix'.packed.None?
  {
    hide Plain;
    hide Open;
    SplitIxKeeps(env, ix, bk);
    SplitPlain(env, ix);
    var ix1 := SplitIx(env, ix);
    hide SplitIx;
    ShapedOpen(env, ix1, bk);
    EnlargeLastPlain(env, ix1, grant, tail);
    EnlargeLastKeeps(env, ix1, bk, grant, tail);
    OpenIsUnpacked(env, EnlargeLast(env, ix1, grant, tail).0, bk);
  }

  lemma ShapedOpen(env: Env, ix: Index, bk: Book)
    requires Open(env, ix, bk)
    ensures ix.heap.chunks == [] || Shape(ix.heap)
  {
  }

  /** Over a run whose client stores no padding in such a cell, and gains no memory with one, memory
      stays without. */
  lemma {:induction false} RunPlain(env: Env, ix: Index, g: Ghost, ops: seq<Op>)
    requires IxInv(env, ix, g) && LegalRun(env, ix, g, ops) && Plain(View(ix, g))
    requires forall i :: 0 <= i < |ops| ==> Tame(ops[i])
    ensures var (ix', g') := Run(env, ix, g, ops); Plain(View(ix', g'))
    decreases |ops|
  {
    hide IxInv;
    hide Step;
    hide Plain;
    hide Legal;
    hide Tame;
    if ops != [] {
      StepKeeps(env, ix, g, ops[0]);
      assert Tame(ops[0]);
      StepPlain(env, ix, g, ops[0]);
      var (ix1, g1) := Step(env, ix, g, ops[0]);
      RunPlain(env, ix1, g1, ops[1..]);
    }
  }

  /** After every such run from the empty index, wherever a chunk lies, the address of any cell between
      its base and its bump pointer gives the handle of that cell. */
  lemma LookupAfterRun(env: Env, ops: seq<Op>, ix: Index, g: Ghost, m: Memory, no: nat, base: int, addr: int,
                       bytes: nat)
    requires Leads(env, EMPTY, START, ops, ix, g) && forall i :: 0 <= i < |ops| ==> Tame(ops[i])
    requires ix.packed.None? && no < |ix.heap.chunks| && HeapWritable(ix.heap)
               && Holds(m, 256 * base, Images(ix.heap)[no])
    requires addr % 4 == 0 && 1024 * base < addr < 1024 * base + 8 * ix.heap.chunks[no].virgin
    ensures Addr2Ptr(m, addr, bytes) == Some(CellHandle(no, base, addr, bytes))
    ensures AddrOf(base, CellHandle(no, base, addr, bytes)) == addr
  {
    hide IxInv;
    hide Plain;
    hide Holds;
    hide Images;
    hide HeapWritable;
    hide Addr2Ptr;
    hide AddrOf;
    hide CellHandle;
    EmptyPlain();
    RunPlain(env, EMPTY, START, ops);
    RunKeeps(env, EMPTY, START, ops);
    OpenOf(env, ix, g);
    OpenInv(env, ix, g.book);
    AddressRoundTrip(m, ix.heap, g.book, no, base, addr, bytes);
    ChunkReach(ix.heap, g.book, no, base, addr);
    PlainAt(ix.heap, no);
    PlainHasNoDecoy(m, ix.heap, no, base, RoundedUp(addr));
  }

  lemma EmptyPlain()
    ensures Plain(View(EMPTY, START))
  {
  }

  lemma PlainAt(h: Heap, no: nat)
    requires Plain(h) && no < |h.chunks|
    ensures PlainCells(h.chunks[no].cells)
  {
  }

  lemma ChunkReach(h: Heap, bk: Book, no: nat, base: int, addr: int)
    requires Inv(h, bk) && no < |h.chunks| && addr < 1024 * base + 8 * h.chunks[no].virgin
    ensures RoundedUp(addr) <= base + h.chunks[no].cap
  {
    assert Sane(h.chunks[no], no);
  }
}
