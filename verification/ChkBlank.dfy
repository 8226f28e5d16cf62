/**
  What `alloc` hands out is blank: over every run whose gained memory is zero, memory that is in no live
  block is zero but for the links of the free blocks, so a new block is zero but for a null handle in its
  first cell at most (chk/chk_base.cpp, chk/chk_mem_mgr.cpp).
 */
module ChkBlank {
  import opened ChkBase
  import opened ChkHeap
  import opened ChkAlloc
  import opened ChkCarving
  import opened ChkImage
  import opened ChkIndexSpec
  import opened ChkOwnership
  import opened ChkOperations
  import opened ChkRuns
  import opened ChkRestore
  import opened ChkExact

  /** The cell lies in a live block, or is the link of a free one. */
  ghost predicate Covers(b: Blk, no: nat, x: nat) {
    b.no == no && if b.tag == LIVE then 2 * b.off <= x < 2 * (b.off + b.size) else x == 2 * b.off
  }

  ghost predicate Taken(blocks: set<Blk>, no: nat, x: nat) {
    exists b :: b in blocks && Covers(b, no, x)
  }

  /** Chunk number `no` is zero behind its overhead wherever no block has taken a cell. */
  ghost predicate BlankCells(cells: seq<Cell>, no: nat, blocks: set<Blk>) {
    forall x :: 2 * Lo(no) <= x < |cells| && cells[x] != 0 ==> Taken(blocks, no, x)
  }

  ghost predicate Blank(h: Heap, blocks: set<Blk>) {
    forall i :: 0 <= i < |h.chunks| ==> BlankCells(h.chunks[i].cells, i, blocks)
  }

  /** Memory gained by `enlarge` is zero. */
  ghost predicate Tidy(op: Op) {
    op.OpEnlarge? ==> forall x :: 0 <= x < |op.tail| ==> op.tail[x] == 0
  }

  // ---------- the operations on a heap ----------

  lemma MoreTaken(cells: seq<Cell>, no: nat, s: set<Blk>, t: set<Blk>)
    requires BlankCells(cells, no, s) && s <= t
    ensures BlankCells(cells, no, t)
  {
    forall x | 2 * Lo(no) <= x < |cells| && cells[x] != 0 ensures Taken(t, no, x) {
      var b :| b in s && Covers(b, no, x);
      assert b in t;
    }
  }

  lemma MoreBlank(h: Heap, s: set<Blk>, t: set<Blk>)
    requires Blank(h, s) && s <= t
    ensures Blank(h, t)
  {
    forall i | 0 <= i < |h.chunks| ensures BlankCells(h.chunks[i].cells, i, t) {
      MoreTaken(h.chunks[i].cells, i, s, t);
    }
  }

  lemma SetBlank(h: Heap, no: nat, cells: seq<Cell>, s: set<Blk>)
    requires Blank(h, s) && no < |h.chunks| && BlankCells(cells, no, s)
    ensures Blank(SetCells(h, no, cells), s)
  {
  }

  lemma PushBlank(h: Heap, i: nat, no: nat, off: nat, s: set<Blk>)
    requires Blank(h, s) && h.mgr.Shaped() && i < 3 && Room(h, no, off, h.mgr.sizes[i])
    ensures Blank(Push(h, i, no, off), s + {Blk(no, off, h.mgr.sizes[i], i)})
  {
    hide EncodePtr;
    var b := Blk(no, off, h.mgr.sizes[i], i);
    var was, cells := h.chunks[no].cells, Push(h, i, no, off).chunks[no].cells;
    MoreBlank(h, s, s + {b});
    forall x | 2 * Lo(no) <= x < |cells| && cells[x] != 0 ensures Taken(s + {b}, no, x) {
      if x == 2 * off {
        assert b in s + {b} && Covers(b, no, x);
      } else {
        assert was[x] != 0 && BlankCells(was, no, s + {b});
      }
    }
    SetBlank(h, no, cells, s + {b});
  }

  lemma {:induction false} CarveBlank(h: Heap, no: nat, off: nat, left: nat, s: set<Blk>)
    requires Blank(h, s) && Room(h, no, off, left)
    ensures Blank(Carve(h, no, off, left), s + (set b | b in CarveBlocks(h.mgr.sizes, no, off, left)))
    decreases left
  {
    hide Carve;
    hide Push;
    hide Blank;
    var sizes := h.mgr.sizes;
    var all := set b | b in CarveBlocks(sizes, no, off, left);
    if left < sizes[0] {
      CarveDone(h, no, off, left);
      MoreBlank(h, s, s + all);
    } else {
      var i := Pick(sizes, left);
      var b := Blk(no, off, sizes[i], i);
      CarveOnce(h, no, off, left, i);
      PushBlank(h, i, no, off, s);
      var rest := CarveBlocks(sizes, no, off + sizes[i], left - sizes[i]);
      CarveBlank(Push(h, i, no, off), no, off + sizes[i], left - sizes[i], s + {b});
      assert CarveBlocks(sizes, no, off, left) == [b] + rest;
      MoreBlank(Carve(h, no, off, left), s + {b} + (set c | c in rest), s + all);
    }
  }

  /** Carving, with the book. */
  lemma CarveBlankBook(h: Heap, bk: Book, no: nat, off: nat, left: nat, s: set<Blk>)
    requires Blank(h, s) && Room(h, no, off, left) && |bk.lists| == 3 && s <= bk.blocks
    ensures Blank(Carve(h, no, off, left), BookCarve(h.mgr.sizes, bk, no, off, left).blocks)
  {
    hide Carve;
    hide BookCarve;
    hide CarveBlocks;
    hide Blank;
    CarveBlank(h, no, off, left, s);
    CarvedBook(h.mgr.sizes, bk, no, off, left);
    MoreBlank(Carve(h, no, off, left), s + (set b | b in CarveBlocks(h.mgr.sizes, no, off, left)),
              BookCarve(h.mgr.sizes, bk, no, off, left).blocks);
  }

  /** Only the first cell of a listed block is left when the block comes off its list, and the block handed
      out takes it. */
  lemma PopBlank(h: Heap, bk: Book, i: nat, b: Blk)
    requires Struct(h, bk) && Blank(h, bk.blocks) && i < 3 && !h.mgr.heads[i].IsNull() && b.tag == LIVE && b.size >= 1
    requires bk.lists[i] != [] ==> b.no == bk.lists[i][0].no && b.off == bk.lists[i][0].off
    ensures HeadOk(h, i) && bk.lists[i] != [] && Blank(Pop(h, i), bk.blocks - {bk.lists[i][0]} + {b})
  {
    PopNulls(h, bk, i);
    var l := bk.lists[i][0];
    ListedBlock(bk, i);
    var s, s', h' := bk.blocks, bk.blocks - {l} + {b}, Pop(h, i);
    hide Struct;
    hide Pop;
    hide DecodePtr;
    forall j: nat, x: nat | j < |h'.chunks| && 2 * Lo(j) <= x < |h'.chunks[j].cells| && h'.chunks[j].cells[x] != 0
      ensures Taken(s', j, x)
    {
      if j == l.no && x == 2 * l.off {
        assert b in s' && Covers(b, j, x);
      } else {
        assert h.chunks[j].cells[x] != 0 && BlankCells(h.chunks[j].cells, j, s);
        var c :| c in s && Covers(c, j, x);
        assert c != l;
        assert c in s';
      }
    }
  }

  lemma ListedBlock(bk: Book, i: nat)
    requires Listed(bk) && i < 3 && bk.lists[i] != []
    ensures bk.lists[i][0] in bk.blocks && bk.lists[i][0].tag == i
  {
    assert bk.lists[i][0] in bk.lists[i];
  }

  lemma TakeBlank(h: Heap, bk: Book, i: nat, size: nat, b: Blk)
    requires Struct(h, bk) && Blank(h, bk.blocks) && i < 3 && !h.mgr.heads[i].IsNull() && 1 <= size <= h.mgr.sizes[i]
    requires bk.lists[i] != [] ==> b == Blk(bk.lists[i][0].no, bk.lists[i][0].off, size, LIVE)
    ensures HeadOk(h, i) && bk.lists[i] != []
    ensures Blank(PoolTake(h, i, size), BookTake(h.mgr.sizes, bk, i, b, size).blocks + {b})
  {
    hide Blank;
    hide Pop;
    hide Carve;
    hide BookCarve;
    hide CarveBlocks;
    hide HeadOk;
    HeadOfList(h, bk, i);
    PopBlank(h, bk, i, b);
    hide Struct;
    PopRoom(h, i, size);
    var sizes, full := h.mgr.sizes, h.mgr.sizes[i];
    var h1, bk1 := Pop(h, i), BookPop(bk, i);
    CarveBlank(h1, b.no, b.off + size, full - size, bk1.blocks + {b});
    CarvedBook(sizes, bk1, b.no, b.off + size, full - size);
    var bs := CarveBlocks(sizes, b.no, b.off + size, full - size);
    Shuffle(bk1.blocks, {b}, set c | c in bs);
  }

  lemma Shuffle(s: set<Blk>, t: set<Blk>, u: set<Blk>)
    ensures s + t + u == s + u + t
  {
  }

  lemma SameCellsBlank(h: Heap, h': Heap, s: set<Blk>)
    requires Blank(h, s) && |h'.chunks| == |h.chunks|
    requires forall i :: 0 <= i < |h.chunks| ==> h'.chunks[i].cells == h.chunks[i].cells
    ensures Blank(h', s)
  {
    forall i | 0 <= i < |h'.chunks| ensures BlankCells(h'.chunks[i].cells, i, s) {
      assert BlankCells(h.chunks[i].cells, i, s);
    }
  }

  lemma AddChunkBlank(h: Heap, at: Addr, s: set<Blk>)
    requires Blank(h, s) && h.chunks != []
    ensures Blank(AddChunk(h, at), s)
  {
    var h1 := AddChunk(h, at);
    forall i | 0 <= i < |h1.chunks| ensures BlankCells(h1.chunks[i].cells, i, s) {
      if i < |h.chunks| { assert BlankCells(h.chunks[i].cells, i, s); }
    }
  }

  lemma DonateBlank(h: Heap, bk: Book, no: nat)
    requires Blank(h, bk.blocks) && |bk.lists| == 3
    requires h.mgr.Shaped() && no < |h.chunks| && no < NULL_NO && Sane(h.chunks[no], no)
    ensures Blank(Donate(h, no), BookDonate(h, bk, no).blocks)
  {
    hide Carve;
    hide BookCarve;
    hide Blank;
    var v, left := h.chunks[no].virgin, WordsIn(h.chunks[no].cap) - h.chunks[no].virgin;
    var h1 := SetVirgin(h, no, v + left);
    DonateUnfold(h, bk, no, h1, v, left);
    SameCellsBlank(h, h1, bk.blocks);
    CarveBlankBook(h1, bk, no, v, left, bk.blocks);
    SameCellsBlank(Carve(h1, no, v, left), Donate(h, no), BookDonate(h, bk, no).blocks);
  }

  lemma AllocBlank(h: Heap, bk: Book, size: nat, at: Option<Addr>)
    requires Inv(h, bk) && Blank(h, bk.blocks) && 1 <= size <= MAX_WORDS
    ensures Shape(h) && HeadsOk(h) && |bk.lists| == 3
    ensures Blank(Alloc(h, size, at).0, BookAlloc(h, bk, size, at).blocks)
  {
    InvParts(h, bk);
    hide Inv;
    FirstFitServes(h, bk, size);
    var i, n := FirstFit(h.mgr, size), |h.chunks|;
    hide Blank;
    if i < 3 {
      HitBlank(h, bk, size, at, i);
    } else if BumpFits(h, size) {
      BumpBlank(h, bk, size, at);
    } else if n < NULL_NO && at.Some? {
      GrowBlank(h, bk, size, at);
    }
  }

  lemma HitBlank(h: Heap, bk: Book, size: nat, at: Option<Addr>, i: nat)
    requires Struct(h, bk) && HeadsOk(h) && Blank(h, bk.blocks) && 1 <= size <= MAX_WORDS
               && i == FirstFit(h.mgr, size) < 3
    ensures Blank(Alloc(h, size, at).0, BookAlloc(h, bk, size, at).blocks)
  {
    hide Blank;
    HeadOfList(h, bk, i);
    var l := bk.lists[i];
    var b := Blk(l[0].no, l[0].off, size, LIVE);
    TakeBlank(h, bk, i, size, b);
    hide Struct;
    HitIs(h, bk, i, size, at, b);
    HitBlocks(h, bk, i, size, at, b);
    hide PoolTake;
    hide BookTake;
    hide HeadsOk;
    hide BookAlloc;
    SameCellsBlank(PoolTake(h, i, size), Alloc(h, size, at).0, BookTake(h.mgr.sizes, bk, i, b, size).blocks + {b});
  }

  lemma HitBlocks(h: Heap, bk: Book, i: nat, size: nat, at: Option<Addr>, b: Blk)
    requires Shape(h) && HeadsOk(h) && |bk.lists| == 3 && size <= MAX_WORDS && i == FirstFit(h.mgr, size) < 3
    requires HeadOk(h, i) && bk.lists[i] != [] && b == Blk(h.mgr.heads[i].no, h.mgr.heads[i].off / 2, size, LIVE)
    ensures BookAlloc(h, bk, size, at).blocks == BookTake(h.mgr.sizes, bk, i, b, size).blocks + {b}
  {
    hide Carve;
    hide BookTake;
    hide PoolTake;
    hide HeadsOk;
  }

  lemma BumpBlank(h: Heap, bk: Book, size: nat, at: Option<Addr>)
    requires Shape(h) && HeadsOk(h) && |bk.lists| == 3 && Blank(h, bk.blocks) && 1 <= size <= MAX_WORDS
    requires FirstFit(h.mgr, size) == 3 && BumpFits(h, size)
    ensures Blank(Alloc(h, size, at).0, BookAlloc(h, bk, size, at).blocks)
  {
    hide Blank;
    hide HeadsOk;
    SameCellsBlank(h, Bump(h, size), bk.blocks);
    MoreBlank(Bump(h, size), bk.blocks, BookAlloc(h, bk, size, at).blocks);
  }

  lemma GrowBlank(h: Heap, bk: Book, size: nat, at: Option<Addr>)
    requires Shape(h) && HeadsOk(h) && |bk.lists| == 3 && Blank(h, bk.blocks) && 1 <= size <= MAX_WORDS
    requires FirstFit(h.mgr, size) == 3 && !BumpFits(h, size) && |h.chunks| < NULL_NO && at.Some?
    ensures Blank(Alloc(h, size, at).0, BookAlloc(h, bk, size, at).blocks)
  {
    hide Blank;
    hide HeadsOk;
    hide BookDonate;
    hide Donate;
    var n := |h.chunks|;
    var h1 := AddChunk(h, at.value);
    assert Sane(h.chunks[n - 1], n - 1) && h1.chunks[n - 1] == h.chunks[n - 1];
    AddChunkBlank(h, at.value, bk.blocks);
    DonateBlank(h1, bk, n - 1);
    var h2, bk2 := Donate(h1, n - 1), BookDonate(h1, bk, n - 1);
    SameCellsBlank(h2, Bump(h2, size), bk2.blocks);
    MoreBlank(Bump(h2, size), bk2.blocks, BookAlloc(h, bk, size, at).blocks);
  }

  lemma FreeBlank(h: Heap, bk: Book, b: Blk)
    requires Inv(h, bk) && b in bk.blocks && b.tag == LIVE && Blank(h, bk.blocks)
    ensures h.mgr.Shaped() && b.no < |h.chunks| && Room(h, b.no, b.off, b.size) && |bk.lists| == 3
    ensures Blank(Free(h, b), BookFree(h, bk, b).blocks)
  {
    LiveFacts(h, bk, b);
    InvParts(h, bk);
    hide Inv;
    hide Struct;
    hide Carve;
    hide BookCarve;
    var z, bk1 := Zeroed(h, b), Without(bk, b);
    ZeroedBlank(h, bk, b);
    hide Blank;
    hide Zeroed;
    ZeroedRoom(h, b);
    SameCellsBlank(z, AddFree(z, b.size), bk1.blocks);
    CarveBlankBook(AddFree(z, b.size), bk1, b.no, b.off, b.size, bk1.blocks);
    var f := if b.off + b.size == h.chunks[b.no].virgin then SetVirgin(z, b.no, b.off)
             else Carve(AddFree(z, b.size), b.no, b.off, b.size);
    if b.off + b.size == h.chunks[b.no].virgin { SameCellsBlank(z, f, bk1.blocks); }
    SameCellsBlank(f, Charge(f, b.no, 0 - b.size), BookFree(h, bk, b).blocks);
  }

  lemma ZeroedRoom(h: Heap, b: Blk)
    requires Room(h, b.no, b.off, b.size)
    ensures var z := Zeroed(h, b); |z.chunks| == |h.chunks| && z.mgr == h.mgr && Room(z, b.no, b.off, b.size)
  {
  }

  lemma ZeroedBlank(h: Heap, bk: Book, b: Blk)
    requires b.tag == LIVE && Room(h, b.no, b.off, b.size) && Blank(h, bk.blocks)
    ensures Blank(Zeroed(h, b), Without(bk, b).blocks)
  {
    var z, s' := Zeroed(h, b), Without(bk, b).blocks;
    forall j: nat, x: nat | j < |z.chunks| && 2 * Lo(j) <= x < |z.chunks[j].cells| && z.chunks[j].cells[x] != 0
      ensures Taken(s', j, x)
    {
      assert h.chunks[j].cells[x] != 0 && BlankCells(h.chunks[j].cells, j, bk.blocks);
      var c :| c in bk.blocks && Covers(c, j, x);
      assert c in s';
    }
  }

  lemma CutBlank(h: Heap, bk: Book, b: Blk, k: nat)
    requires Blank(h, bk.blocks) && b in bk.blocks && b.tag == LIVE && 1 <= k <= b.size
    ensures Blank(h, Cut(bk, b, k).blocks)
  {
    var s' := Cut(bk, b, k).blocks;
    forall j: nat, x: nat | j < |h.chunks| && 2 * Lo(j) <= x < |h.chunks[j].cells| && h.chunks[j].cells[x] != 0
      ensures Taken(s', j, x)
    {
      assert BlankCells(h.chunks[j].cells, j, bk.blocks);
      var c :| c in bk.blocks && Covers(c, j, x);
      if c == b && k < b.size {
        assert Covers(Front(b, k), j, x) || Covers(Rest(b, k), j, x);
      } else {
        assert c in s';
      }
    }
  }

  // ---------- moves ----------

  lemma BackBlank(c: Chunk, w: Chunk, i: nat, last: bool, s: set<Blk>)
    requires CellsBack(c, w, i, last) && BlankCells(c.cells, i, s)
    ensures BlankCells(w.cells, i, s)
  {
  }

  lemma AllBackBlank(h: Heap, h': Heap, s: set<Blk>)
    requires AllBack(h.chunks, h'.chunks, 0) && Blank(h, s)
    ensures Blank(h', s)
  {
    hide BlankCells;
    hide CellsBack;
    forall i | 0 <= i < |h'.chunks| ensures BlankCells(h'.chunks[i].cells, i, s) {
      assert CellsBack(h.chunks[i], h'.chunks[i], 0 + i, i == |h.chunks| - 1);
      BackBlank(h.chunks[i], h'.chunks[i], i, i == |h.chunks| - 1, s);
    }
  }

  lemma LastBlank(h: Heap, c: Chunk, s: set<Blk>)
    requires Blank(h, s) && h.chunks != [] && BlankCells(c.cells, |h.chunks| - 1, s)
    ensures Blank(SetLast(h, c), s)
  {
  }

  lemma PrefixBlank(cells: seq<Cell>, n: nat, zeros: seq<Cell>, no: nat, s: set<Blk>)
    requires BlankCells(cells, no, s) && n <= |cells| && forall x :: 0 <= x < |zeros| ==> zeros[x] == 0
    ensures BlankCells(cells[..n], no, s) && BlankCells(cells[..n] + zeros, no, s)
  {
  }

  lemma ShrinkBlank(env: Env, ix: Index, grant: bool, s: set<Blk>)
    requires Blank(ix.heap, s) && (ix.heap.chunks == [] || Shape(ix.heap))
    ensures Blank(Shrink(env, ix, grant).heap, s)
  {
    if ix.heap.chunks != [] {
      var n := |ix.heap.chunks| - 1;
      var c := ix.heap.chunks[n];
      assert Sane(c, n);
      ExcessIsTight(c, n);
      assert BlankCells(c.cells, n, s);
      var cap := c.cap - Excess(c);
      PrefixBlank(c.cells, CellsIn(cap), [], n, s);
      PrefixBlank(c.cells, 2 * c.virgin, Zeros(if Excess(c) < cap then 0 else CellsIn(cap) - 2 * c.virgin), n, s);
      forall at | true ensures BlankCells(ShrinkChunk(c, at).cells, n, s) {}
      hide ShrinkChunk;
      hide BlankCells;
      hide Blank;
      match ShrinkPlace(env.pooled, ix.sys, c, grant) {
        case None =>
        case Some(p) => LastBlank(ix.heap, ShrinkChunk(c, p.1), s);
      }
    }
  }

  lemma EnlargeLastBlank(env: Env, ix: Index, grant: bool, tail: seq<Cell>, s: set<Blk>)
    requires Blank(ix.heap, s) && (ix.heap.chunks == [] || Shape(ix.heap))
    requires forall x :: 0 <= x < |tail| ==> tail[x] == 0
    ensures Blank(EnlargeLast(env, ix, grant, tail).0.heap, s)
  {
    if ix.heap.chunks != [] {
      var n := |ix.heap.chunks| - 1;
      var c := ix.heap.chunks[n];
      assert Sane(c, n) && BlankCells(c.cells, n, s);
      var left := CellsIn(MAX_CAP - c.cap);
      assert c.cells[..|c.cells|] == c.cells;
      PrefixBlank(c.cells, |c.cells|, Fit(tail, left), n, s);
      PrefixBlank(c.cells, |c.cells|, Zeros(left), n, s);
      hide BlankCells;
      hide Blank;
      var at := Moved(env.pooled, ix.sys, c.at).1;
      LastBlank(ix.heap, EnlargeChunk(c, at, Fit(tail, left)), s);
      LastBlank(ix.heap, EnlargeChunk(c, at, Zeros(left)), s);
    }
  }

  lemma SplitBlank(env: Env, ix: Index, s: set<Blk>)
    requires Blank(ix.heap, s) && (ix.heap.chunks == [] || Shape(ix.heap))
    ensures Blank(SplitIx(env, ix).heap, s)
  {
    if IsContinuous(ix.heap) {
      var h, n := ix.heap, |ix.heap.chunks|;
      var at := seq(n, i requires 0 <= i < n => Addr(ix.sys.next + i, 0));
      forall i: nat | i < n ensures BlankCells(Split(h, at).chunks[i].cells, i, s) {
        var c := h.chunks[i];
        assert Sane(c, i) && BlankCells(c.cells, i, s);
        PrefixBlank(c.cells, 2 * c.virgin, Zeros(CellsIn(c.cap) - 2 * c.virgin), i, s);
      }
    }
  }

  // ---------- the operations on the index ----------

  lemma UncompressBlank(env: Env, ix: Index, g: Ghost, grant: bool)
    requires IxInv(env, ix, g) && Blank(View(ix, g), g.book.blocks)
    ensures var (ix1, rc) := Uncompress(env, ix, grant);
            && Blank(View(ix1, g), g.book.blocks) && (rc != 0 ==> ix1 == ix)
            && (rc == 0 ==> ix1.packed.None? && Open(env, ix1, g.book))
  {
    UncompressKeeps(env, ix, g, grant);
    hide Blank;
    if ix.packed.Some? && grant {
      ClosedOf(env, ix, g);
      UncompressBack(env, ix, g);
      AllBackBlank(g.frozen, Uncompress(env, ix, true).0.heap, g.book.blocks);
    }
  }

  lemma AllocIxBlank(env: Env, ix: Index, bk: Book, size: nat, grant: bool)
    requires EnvOk(env) && Open(env, ix, bk) && size >= 1 && CeilDiv(size, 8) <= MAX_WORDS && Blank(ix.heap, bk.blocks)
    ensures (ix.heap.chunks == [] || Usable(ix.heap)) && |bk.lists| == 3
    ensures var ix' := AllocIx(env, ix, size, grant).0;
            Blank(ix'.heap, BookAllocIx(env, ix, bk, size, grant).blocks) && ix'.packed.None?
  {
    var words := CeilDiv(size, 8);
    if ix.heap.chunks == [] {
      AddFirstKeeps(env, ix);
      if grant {
        FirstBlank(env.sizes, Addr(ix.sys.next, 0), bk.blocks);
        ChunkedBlank(env, AddFirst(env, ix, true).0, bk, words, grant);
      }
    } else {
      OpenUsable(env, ix, bk);
      if !CanEnlarge(Last(ix.heap)) { ChunkedBlank(env, ix, bk, words, grant); }
    }
    hide Blank;
    hide Alloc;
    hide BookAlloc;
    hide FirstHeap;
  }

  lemma FirstBlank(sizes: seq<nat>, at: Addr, s: set<Blk>)
    ensures Blank(FirstHeap(sizes, at), s)
  {
  }

  lemma ChunkedBlank(env: Env, ix: Index, bk: Book, words: nat, grant: bool)
    requires Open(env, ix, bk) && ix.heap.chunks != [] && 1 <= words <= MAX_WORDS && Blank(ix.heap, bk.blocks)
    ensures Usable(ix.heap) && |bk.lists| == 3
    ensures Blank(AllocChunked(ix, words, grant).0.heap, BookAlloc(ix.heap, bk, words, GrantedAt(ix, grant)).blocks)
  {
    OpenUsable(env, ix, bk);
    AllocBlank(ix.heap, bk, words, GrantedAt(ix, grant));
    hide Inv;
    hide Blank;
    hide Alloc;
    hide BookAlloc;
  }

  lemma AllocStepBlank(env: Env, ix: Index, g: Ghost, op: Op)
    requires IxInv(env, ix, g) && op.OpAlloc? && Legal(ix, g, op) && Blank(View(ix, g), g.book.blocks)
    ensures var (ix', g') := Step(env, ix, g, op); Blank(View(ix', g'), g'.book.blocks)
  {
    hide AllocIx;
    hide BookAllocIx;
    hide Blank;
    hide Open;
    ReadyOf(env, ix, g);
    UncompressBlank(env, ix, g, op.unpack);
    var (ix1, rc) := Uncompress(env, ix, op.unpack);
    hide Uncompress;
    if rc == 0 && CeilDiv(op.size, 8) <= MAX_WORDS { AllocIxBlank(env, ix1, g.book, op.size, op.grant); }
  }

  lemma FreeStepBlank(env: Env, ix: Index, g: Ghost, op: Op)
    requires IxInv(env, ix, g) && op.OpFree? && Legal(ix, g, op) && Blank(View(ix, g), g.book.blocks)
    ensures var (ix', g') := Step(env, ix, g, op); Blank(View(ix', g'), g'.book.blocks)
  {
    hide Blank;
    hide Free;
    hide BookFree;
    hide Cut;
    var c := NamedBlk(op.p, op.bytes);
    CleftKeeps(env, ix, g, c);
    FreeOpReady(env, ix, Cleft(g, c), c, op.unpack);
    UncompressBlank(env, ix, g, op.unpack);
    var (ix1, rc) := Uncompress(env, ix, op.unpack);
    CutBlank(View(ix1, g), g.book, HeadedBy(g, c), c.size);
    if rc == 0 {
      FreeFromCut(env, ix1, g, c);
    }
  }

  lemma FreeFromCut(env: Env, ix: Index, g: Ghost, c: Blk)
    requires EnvOk(env) && Open(env, ix, g.book) && (exists b :: Heads(g, b, c))
               && Blank(ix.heap, Cleft(g, c).book.blocks)
    ensures ix.heap.mgr.Shaped() && c.no < |ix.heap.chunks| && Room(ix.heap, c.no, c.off, c.size) && |g.book.lists| == 3
    ensures Blank(Free(ix.heap, c), BookFree(ix.heap, Cleft(g, c).book, c).blocks)
  {
    hide Blank;
    hide Free;
    hide BookFree;
    hide Inv;
    CleftKeeps(env, ix, g, c);
    ViewInv(env, ix, Cleft(g, c));
    FreeBlank(ix.heap, Cleft(g, c).book, c);
  }

  lemma StoreStepBlank(env: Env, ix: Index, g: Ghost, op: Op)
    requires IxInv(env, ix, g) && op.OpStore? && Legal(ix, g, op) && Blank(View(ix, g), g.book.blocks)
    ensures var (ix', g') := Step(env, ix, g, op); Blank(View(ix', g'), g'.book.blocks)
  {
    OpenOf(env, ix, g);
    StoreKeeps(env, ix, g.book, op.b, op.k, op.v);
    hide IxInv;
    hide Open;
    StoreBlank(ix.heap, g.book.blocks, op.b, op.k, op.v);
  }

  lemma StoreBlank(h: Heap, s: set<Blk>, b: Blk, k: nat, v: Cell)
    requires Blank(h, s) && b in s && b.tag == LIVE && 2 * b.off <= k < 2 * (b.off + b.size)
    requires b.no < |h.chunks| && k < |h.chunks[b.no].cells|
    ensures Blank(Store(h, b.no, k, v), s)
  {
    var was, cells := h.chunks[b.no].cells, h.chunks[b.no].cells[k := v];
    forall x | 2 * Lo(b.no) <= x < |cells| && cells[x] != 0 ensures Taken(s, b.no, x) {
      if x == k { assert Covers(b, b.no, x); } else { assert BlankCells(was, b.no, s); }
    }
    SetBlank(h, b.no, cells, s);
  }

  lemma EnlargeStepBlank(env: Env, ix: Index, g: Ghost, op: Op)
    requires IxInv(env, ix, g) && op.OpEnlarge? && Tidy(op) && Blank(View(ix, g), g.book.blocks)
    ensures var (ix', g') := Step(env, ix, g, op); Blank(View(ix', g'), g'.book.blocks)
  {
    hide Blank;
    hide Open;
    ReadyOf(env, ix, g);
    UncompressBlank(env, ix, g, op.unpack);
    var (ix1, rc) := Uncompress(env, ix, op.unpack);
    hide Uncompress;
    hide IxInv;
    if rc == 0 { EnlargeOpenBlank(env, ix1, g.book, op.grant, op.tail); }
  }

  lemma EnlargeOpenBlank(env: Env, ix: Index, bk: Book, grant: bool, tail: seq<Cell>)
    requires Open(env, ix, bk) && Blank(ix.heap, bk.blocks)
    requires forall x :: 0 <= x < |tail| ==> tail[x] == 0
    ensures ix.heap.chunks == [] || Shape(ix.heap)
    ensures var ix' := EnlargeLast(env, SplitIx(env, ix), grant, tail).0; Blank(ix'.heap, bk.blocks) && ix'.packed.None?
  {
    hide Blank;
    hide Open;
    SplitIxKeeps(env, ix, bk);
    SplitBlank(env, ix, bk.blocks);
    var ix1 := SplitIx(env, ix);
    hide SplitIx;
    ShapedIx(env, ix1, bk);
    EnlargeLastBlank(env, ix1, grant, tail, bk.blocks);
    EnlargeLastKeeps(env, ix1, bk, grant, tail);
    OpenIsUnpacked(env, EnlargeLast(env, ix1, grant, tail).0, bk);
  }

  lemma ShapedIx(env: Env, ix: Index, bk: Book)
    requires Open(env, ix, bk)
    ensures ix.heap.chunks == [] || Shape(ix.heap)
  {
  }

  lemma ShrinkStepBlank(env: Env, ix: Index, g: Ghost, op: Op)
    requires IxInv(env, ix, g) && op.OpShrink? && Legal(ix, g, op) && Blank(View(ix, g), g.book.blocks)
    ensures var (ix', g') := Step(env, ix, g, op); Blank(View(ix', g'), g'.book.blocks)
  {
    hide Blank;
    ShapeOf(env, ix, g);
    if ix.packed.None? { ShrinkBlank(env, ix, op.grant, g.book.blocks); } else { ShrinkNothing(env, ix, op.grant); }
  }

  lemma StepBlank(env: Env, ix: Index, g: Ghost, op: Op)
    requires IxInv(env, ix, g) && Legal(ix, g, op) && Tidy(op) && Blank(View(ix, g), g.book.blocks)
    ensures var (ix', g') := Step(env, ix, g, op); Blank(View(ix', g'), g'.book.blocks)
  {
    hide Inv;
    match op {
      case OpAlloc(size, unpack, grant) => AllocStepBlank(env, ix, g, op);
      case OpFree(p, bytes, unpack) => FreeStepBlank(env, ix, g, op);
      case OpStore(b, k, v) => StoreStepBlank(env, ix, g, op);
      case OpShrink(grant) => ShrinkStepBlank(env, ix, g, op);
      case OpEnlarge(unpack, grant, tail) => EnlargeStepBlank(env, ix, g, op);
      case OpCompress(percent, grant) => StepCompress(env, ix, g, op);
      case OpUncompress(unpack) => UncompressBlank(env, ix, g, unpack);
      case OpDestruct =>
    }
  }

  // ---------- whole runs ----------

  lemma {:induction false} RunBlank(env: Env, ix: Index, g: Ghost, ops: seq<Op>)
    requires IxInv(env, ix, g) && LegalRun(env, ix, g, ops) && Blank(View(ix, g), g.book.blocks)
    requires forall i :: 0 <= i < |ops| ==> Tidy(ops[i])
    ensures var (ix', g') := Run(env, ix, g, ops); Blank(View(ix', g'), g'.book.blocks)
    decreases |ops|
  {
    hide IxInv;
    hide Step;
    hide Blank;
    hide Legal;
    hide Tidy;
    if ops != [] {
      StepKeeps(env, ix, g, ops[0]);
      assert Tidy(ops[0]);
      StepBlank(env, ix, g, ops[0]);
      var (ix1, g1) := Step(env, ix, g, ops[0]);
      RunBlank(env, ix1, g1, ops[1..]);
    }
  }

  // ---------- what alloc hands out ----------

  /** The block is zero, but its first cell may be a null handle. */
  ghost predicate BlankBlock(h: Heap, b: Blk) {
    && Readable(h, b) && 2 * (b.off + b.size) <= |h.chunks[b.no].cells|
    && (h.chunks[b.no].cells[2 * b.off] == 0 || LinkAt(h, b).IsNull())
    && forall x :: 2 * b.off < x < 2 * (b.off + b.size) ==> h.chunks[b.no].cells[x] == 0
  }

  /** Where no block has taken a cell there is nothing. */
  lemma ZeroUnlessTaken(h: Heap, s: set<Blk>, no: nat, x: nat)
    requires Blank(h, s) && no < |h.chunks| && 2 * Lo(no) <= x < |h.chunks[no].cells| && !Taken(s, no, x)
    ensures h.chunks[no].cells[x] == 0
  {
    assert BlankCells(h.chunks[no].cells, no, s);
  }

  lemma ListedIsBlank(h: Heap, bk: Book, l: Blk, x: nat)
    requires Struct(h, bk) && Blank(h, bk.blocks) && l in bk.blocks && l.tag != LIVE
    requires 2 * l.off < x < 2 * (l.off + l.size)
    ensures l.no < |h.chunks| && x < |h.chunks[l.no].cells| && h.chunks[l.no].cells[x] == 0
  {
    assert Placed(h, l);
    assert Sane(h.chunks[l.no], l.no);
    forall c | c in bk.blocks ensures !Covers(c, l.no, x) {
      if c != l { assert Disjoint(c, l) && Placed(h, c); }
    }
    ZeroUnlessTaken(h, bk.blocks, l.no, x);
  }

  lemma AboveIsBlank(h: Heap, bk: Book, no: nat, x: nat)
    requires Struct(h, bk) && Blank(h, bk.blocks) && no < |h.chunks|
               && 2 * h.chunks[no].virgin <= x < |h.chunks[no].cells|
    ensures h.chunks[no].cells[x] == 0
  {
    assert Sane(h.chunks[no], no);
    forall c | c in bk.blocks ensures !Covers(c, no, x) { assert Placed(h, c); }
    ZeroUnlessTaken(h, bk.blocks, no, x);
  }

  lemma DeliveredBlank(h: Heap, bk: Book, size: nat, at: Option<Addr>)
    requires Inv(h, bk) && Blank(h, bk.blocks) && 1 <= size <= MAX_WORDS
    ensures Shape(h) && HeadsOk(h)
    ensures var (h', r) := Alloc(h, size, at); r.Some? ==> BlankBlock(h', r.value)
  {
    InvParts(h, bk);
    FirstFitServes(h, bk, size);
    hide HeadsOk;
    hide Struct;
    hide Blank;
    hide ListsGain;
    hide CarveBlocks;
    hide Alloc;
    hide BookAlloc;
    hide FrontTaken;
    hide BlankBlock;
    hide SameBumps;
    hide SamePlace;
    hide NewChunk;
    hide NoneServes;
    hide Serves;
    var i := FirstFit(h.mgr, size);
    hide FirstFit;
    var (h', r) := Alloc(h, size, at);
    if i < 3 {
      TakenFromList(h, bk, i, size, at);
      ListBlank(h, bk, i, size, h', r.value);
    } else if Last(h).virgin + size <= 128 * Last(h).cap {
      TakenFromLast(h, bk, size, at);
      LastIsBlank(h, bk, size, h', r.value);
    } else {
      TakenFromNew(h, bk, size, at);
      if r.Some? { NewIsBlank(h', |h.chunks|, size, at.value); }
    }
  }

  lemma ListBlank(h: Heap, bk: Book, i: nat, size: nat, h': Heap, b: Blk)
    requires Struct(h, bk) && Blank(h, bk.blocks) && |bk.lists| == 3 && |h.mgr.sizes| == 3 && Serves(h, bk, size, i)
    requires size >= 1 && b == Blk(bk.lists[i][0].no, bk.lists[i][0].off, size, LIVE)
    requires FrontTaken(h, h', b, h.mgr.sizes[i])
    ensures BlankBlock(h', b)
  {
    var l := bk.lists[i][0];
    ListedBlock(bk, i);
    assert TagFits(h.mgr, l) && Placed(h, l);
    hide Blank;
    forall x | 2 * b.off < x < 2 * (b.off + b.size) ensures h'.chunks[b.no].cells[x] == 0 {
      ListedIsBlank(h, bk, l, x);
    }
  }

  lemma LastIsBlank(h: Heap, bk: Book, size: nat, h': Heap, b: Blk)
    requires Struct(h, bk) && Blank(h, bk.blocks) && size >= 1 && h.chunks != [] && |h'.chunks| == |h.chunks|
    requires var n := |h.chunks| - 1;
             && b == Blk(n, h.chunks[n].virgin, size, LIVE) && h.chunks[n].virgin + size <= 128 * h.chunks[n].cap
             && h'.chunks[n].virgin == h.chunks[n].virgin + size && h'.chunks[n].cells == h.chunks[n].cells
    ensures BlankBlock(h', b)
  {
    var n := |h.chunks| - 1;
    assert Sane(h.chunks[n], n);
    forall x | 2 * b.off <= x < 2 * (b.off + b.size) ensures h'.chunks[n].cells[x] == 0 { AboveIsBlank(h, bk, n, x); }
    hide DecodePtr;
  }

  lemma NewIsBlank(h: Heap, n: nat, size: nat, at: Addr)
    requires |h.chunks| == n + 1 && h.chunks[n] == NewChunk(n, HEADER + size, at) && 1 <= size <= MAX_WORDS && n > 0
    ensures BlankBlock(h, Blk(n, HEADER, size, LIVE))
  {
    hide DecodePtr;
  }

  /** After every run from the empty index whose gained memory is zero, whatever was stored, released,
      moved or compressed in it: a block from `alloc` is zero, but its first cell may be a null handle. */
  lemma AllocAfterRun(env: Env, ops: seq<Op>, ix: Index, g: Ghost, size: nat, unpack: bool, grant: bool)
    requires Leads(env, EMPTY, START, ops, ix, g) && (forall i :: 0 <= i < |ops| ==> Tidy(ops[i])) && size >= 1
    ensures Ready(env, ix)
    ensures var (ix', r) := AllocOp(env, ix, size, unpack, grant); r.Some? ==> BlankBlock(ix'.heap, r.value)
  {
    hide IxInv;
    hide Blank;
    hide AllocIx;
    EmptyBlank();
    RunBlank(env, EMPTY, START, ops);
    RunKeeps(env, EMPTY, START, ops);
    ReadyOf(env, ix, g);
    UncompressBlank(env, ix, g, unpack);
    var (ix1, rc) := Uncompress(env, ix, unpack);
    EnvOf(env, ix, g);
    hide Uncompress;
    if rc == 0 && CeilDiv(size, 8) <= MAX_WORDS { AllocIxGivesBlank(env, ix1, g.book, size, grant); }
  }

  lemma EmptyBlank()
    ensures Blank(View(EMPTY, START), START.book.blocks)
  {
  }

  lemma EnvOf(env: Env, ix: Index, g: Ghost)
    requires IxInv(env, ix, g)
    ensures EnvOk(env)
  {
  }

  lemma AllocIxGivesBlank(env: Env, ix: Index, bk: Book, size: nat, grant: bool)
    requires EnvOk(env) && Open(env, ix, bk) && size >= 1 && CeilDiv(size, 8) <= MAX_WORDS && Blank(ix.heap, bk.blocks)
    ensures ix.heap.chunks == [] || Usable(ix.heap)
    ensures var (ix', r) := AllocIx(env, ix, size, grant); r.Some? ==> BlankBlock(ix'.heap, r.value)
  {
    if ix.heap.chunks == [] {
      AddFirstKeeps(env, ix);
      FirstBlank(env.sizes, Addr(ix.sys.next, 0), bk.blocks);
      if grant { ChunkedGivesBlank(env, AddFirst(env, ix, true).0, bk, CeilDiv(size, 8), grant); }
    } else {
      ChunkedGivesBlank(env, ix, bk, CeilDiv(size, 8), grant);
    }
    hide Blank;
    hide Alloc;
    hide FirstHeap;
    hide BlankBlock;
  }

  lemma ChunkedGivesBlank(env: Env, ix: Index, bk: Book, words: nat, grant: bool)
    requires Open(env, ix, bk) && ix.heap.chunks != [] && 1 <= words <= MAX_WORDS && Blank(ix.heap, bk.blocks)
    ensures Usable(ix.heap)
    ensures var (ix', r) := AllocChunked(ix, words, grant); r.Some? ==> BlankBlock(ix'.heap, r.value)
  {
    OpenUsable(env, ix, bk);
    DeliveredBlank(ix.heap, bk, words, if grant then Some(Addr(ix.sys.next, 0)) else None);
    hide Inv;
    hide Blank;
    hide Alloc;
    hide BlankBlock;
  }
}
