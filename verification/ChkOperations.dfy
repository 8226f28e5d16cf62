/**
  The global invariant of a chunk index, open or compressed, and what every operation of ChkIndex
  keeps of it (chk/chk_base.cpp).
 */
module ChkOperations {
  import opened ChkBase
  import opened ChkHeap
  import opened ChkAlloc
  import opened ChkImage
  import opened ChkIndexSpec
  import opened ChkOwnership

  ghost predicate EnvOk(env: Env) {
    && Lawful(env.codec)
    && SizesOk(env.sizes) && env.sizes[0] < 16 && env.sizes[1] < 32 && env.sizes[2] < 128
  }

  /** There are such surroundings, in both modes and for all presets that fit. */
  lemma EnvExists(pooled: bool, f0: nat, f1: nat, f2: nat)
    requires 1 <= f0 < 16 && 1 <= f1 < 32 && 1 <= f2 < 128
    ensures EnvOk(Env(pooled, [f0, f1, f2], PLAIN))
  {
    PlainIsLawful();
  }

  /** The bookkeeping of a run: the book of blocks, and the heap a compressed index was made from. */
  datatype Ghost = Ghost(book: Book, frozen: Heap)

  ghost const EMPTY_BOOK: Book := Book({}, [[], [], []], 0)

  /** The invariant of an index that is not compressed. */
  ghost predicate Open(env: Env, ix: Index, bk: Book) {
    && ix.packed.None? && ix.sys.faults == 0
    && if ix.heap.chunks == [] then ix.sys.out == map[] && bk == EMPTY_BOOK
       else Inv(ix.heap, bk) && Layout(env, ix.heap, ix.sys) && |ix.heap.chunks| <= ix.addrSize
  }

  /** The invariant of a compressed index: what it holds is the image of a heap that was in order. */
  ghost predicate Closed(env: Env, ix: Index, g: Ghost) {
    && ix.packed.Some? && ix.sys.faults == 0 && ix.heap.chunks == []
    && ix.sys.out == map[ix.packed.value.block := PackedBlock] && Numbered(ix.sys)
    && Inv(g.frozen, g.book) && AllocCapsFit(g.frozen) && HeapWritable(g.frozen)
    && ix.packed.value.bytes == env.codec.pack(Flatten(g.frozen))
    && |g.frozen.chunks| <= ix.addrSize && PoolSized(env, g.frozen.chunks, 1)
  }

  ghost predicate IxInv(env: Env, ix: Index, g: Ghost) {
    EnvOk(env) && (Open(env, ix, g.book) || Closed(env, ix, g))
  }

  /** The heap that handles resolve in. */
  ghost function View(ix: Index, g: Ghost): Heap {
    if ix.packed.Some? then g.frozen else ix.heap
  }

  /** Live blocks are the same before and after, with the same contents behind their handles. */
  ghost predicate Preserves(h: Heap, bk: Book, h': Heap, bk': Book) {
    SameLive(bk, bk') && KeepsLive(h, h', bk)
  }

  lemma PreservesRelocated(h: Heap, h': Heap, bk: Book)
    requires Inv(h, bk) && Relocates(h, h')
    ensures |h'.chunks| == |h.chunks| && Inv(h', bk) && Preserves(h, bk, h', bk)
  {
    RelocateKeeps(h, h', bk);
  }

  lemma RelocatesSelf(h: Heap, bk: Book)
    requires Inv(h, bk)
    ensures Relocates(h, h)
  {
    forall i | 0 <= i < |h.chunks| ensures ChunkCarriesOver(h.chunks[i], h.chunks[i], i) {
      assert Sane(h.chunks[i], i);
    }
  }

  // ---------- uncompress ----------

  /** With a pool an image goes straight into a pool chunk exactly when it is that of one chunk. */
  lemma DirectIffSingle(env: Env, h: Heap, h': Heap, bk: Book, block: nat)
    requires env.pooled && Inv(h, bk) && PoolSized(env, h.chunks, 1) && Restores(h, h', block)
    ensures h'.mgr.totalCap <= MAX_CAP <==> |h.chunks| == 1
    ensures h'.mgr.totalCap >= 1
  {
    var n := |h.chunks|;
    var cs := h'.chunks;
    forall i | 0 <= i < n ensures 1 <= Caps(cs)[i] <= 16 { assert Sane(cs[i], i); }
    if n == 1 {
      CapsOne(cs[0]);
      assert cs == [cs[0]];
    } else {
      SumPrefix(Caps(cs), 1);
      assert Caps(cs)[..1] == Caps([cs[0]]);
      CapsOne(cs[0]);
      assert cs[0].cap == h.chunks[0].cap;
    }
  }

  /** The index right after the header walk: everything in one block. */
  function Walked1(env: Env, ix: Index, h: Heap): Index
    requires ix.packed.Some?
  {
    var kind := if env.pooled && h.mgr.totalCap > MAX_CAP then RawBlock else ChunkBlock;
    Index(h, None, ix.addrSize, Release(Obtain(ix.sys, kind), Addr(ix.packed.value.block, 0), PackedBlock))
  }

  lemma UncompressWalks(env: Env, ix: Index, g: Ghost) returns (h: Heap)
    requires EnvOk(env) && Closed(env, ix, g)
    ensures Restores(g.frozen, h, ix.sys.next) && Relocates(g.frozen, h) && Shape(h)
    ensures Uncompress(env, ix, true)
              == (if env.pooled then SplitIx(env, Walked1(env, ix, h)) else Walked1(env, ix, h), 0)
  {
    hide Inv;
    hide HeapWritable;
    hide Flatten;
    var img := Flatten(g.frozen);
    var cap := (|img| + 255) / 256;
    var pad := Zeros(CellsIn(cap) - |img|);
    FlattenRoundTrip(g.frozen, g.book, pad, ix.sys.next);
    hide Relocates;
    assert env.codec.unpack(ix.packed.value.bytes) == Some(img);
    h := Unflatten(img, pad, ix.sys.next).value;
    RelocatesShape(g.frozen, h);
    UncompressIs(env, ix, img, cap, h);
  }

  lemma UncompressIs(env: Env, ix: Index, img: seq<Cell>, cap: nat, h: Heap)
    requires ix.packed.Some? && env.codec.unpack(ix.packed.value.bytes) == Some(img) && |img| >= 10
    requires cap == (|img| + 255) / 256 && Unflatten(img, Zeros(CellsIn(cap) - |img|), ix.sys.next) == Some(h)
    requires Shape(h) && h.mgr.totalCap == cap
    ensures Uncompress(env, ix, true)
            == (if env.pooled then SplitIx(env, Walked1(env, ix, h)) else Walked1(env, ix, h), 0)
  {
    hide Unflatten;
    hide Shape;
    hide SplitIx;
    hide Obtain;
    hide Release;
  }

  lemma RelocatesShape(h: Heap, h': Heap)
    requires Relocates(h, h')
    ensures Shape(h')
  {
  }

  /** A failed `uncompress` changes nothing, and it fails only for want of memory.  A successful one
      leaves every block where its handle says, with its contents. */
  lemma UncompressKeeps(env: Env, ix: Index, g: Ghost, grant: bool)
    requires IxInv(env, ix, g)
    ensures var (ix', rc) := Uncompress(env, ix, grant);
            && (rc == 0 ==> EnvOk(env) && Open(env, ix', g.book))
            && (rc == 0 && ix.packed.Some? ==> Relocates(g.frozen, ix'.heap) && ix'.heap.chunks != [])
            && (rc != 0 ==> ix' == ix && rc == -2)
            && (rc == 0 <==> ix.packed.None? || grant)
            && (ix.packed.None? ==> ix' == ix)
  {
    if ix.packed.Some? {
      FlattenRoundTrip(g.frozen, g.book, [], 0);
      assert env.codec.unpack(ix.packed.value.bytes) == Some(Flatten(g.frozen));
      if grant { UncompressOpens(env, ix, g); }
    }
  }

  lemma UncompressOpens(env: Env, ix: Index, g: Ghost)
    requires EnvOk(env) && Closed(env, ix, g)
    ensures var (ix', rc) := Uncompress(env, ix, true);
            rc == 0 && Open(env, ix', g.book) && Relocates(g.frozen, ix'.heap) && ix'.heap.chunks != []
  {
    var h := UncompressWalks(env, ix, g);
    hide Restores;
    hide Uncompress;
    RelocateKeeps(g.frozen, h, g.book);
    var n := |h.chunks|;
    if env.pooled {
      DirectIffSingle(env, g.frozen, h, g.book, ix.sys.next);
      if n > 1 { SplitOpens(env, ix, g, h); } else { WalkOpens(env, ix, g, h); }
    } else {
      WalkOpens(env, ix, g, h);
    }
  }

  lemma RestoredFacts(h: Heap, h': Heap, bk: Book, block: nat)
    requires Inv(h, bk) && Restores(h, h', block)
    ensures Inv(h', bk) && |h'.chunks| == |h.chunks| && h'.chunks[0].at == Addr(block, 0) && h'.mgr.totalCap >= 1
    ensures Relocates(h, h')
    ensures IsContinuous(h') <==> |h'.chunks| > 1
    ensures forall i :: 0 <= i < |h.chunks| - 1 ==> h'.chunks[i].cap == h.chunks[i].cap
  {
    RelocateKeeps(h, h', bk);
    forall i | 0 <= i < |h.chunks| ensures 1 <= Caps(h'.chunks)[i] { assert Sane(h'.chunks[i], i); }
    SumPrefix(Caps(h'.chunks), 0);
  }

  /** One chunk, or no pool: the heap stays in its one block. */
  lemma WalkOpens(env: Env, ix: Index, g: Ghost, h: Heap)
    requires EnvOk(env) && Closed(env, ix, g) && Restores(g.frozen, h, ix.sys.next)
    requires env.pooled ==> |h.chunks| == 1
    ensures var ix1 := Walked1(env, ix, h);
            Shape(h) && Open(env, ix1, g.book) && (env.pooled ==> SplitIx(env, ix1) == ix1)
  {
    hide Inv;
    hide Restores;
    hide Relocates;
    hide HeapWritable;
    hide Flatten;
    hide LayoutAt;
    var ix1 := Walked1(env, ix, h);
    RestoredFacts(g.frozen, h, g.book, ix.sys.next);
    InvParts(h, g.book);
    if env.pooled { DirectIffSingle(env, g.frozen, h, g.book, ix.sys.next); }
    assert ix1.sys.out == map[ix.sys.next := ChunkBlock];
    RestoredLayout(env, g.frozen, h, ix1.sys, ix.sys.next);
  }

  /** Splitting one block that holds all chunks. */
  lemma SplitKeeps(env: Env, ix: Index, bk: Book)
    requires ix.packed.None? && ix.sys.faults == 0 && Inv(ix.heap, bk) && |ix.heap.chunks| <= ix.addrSize
    requires IsContinuous(ix.heap) && ix.heap.chunks[0].at.base == 0 && ix.heap.chunks[0].at.block < ix.sys.next
    requires ix.sys.out == map[ix.heap.chunks[0].at.block := if env.pooled then RawBlock else ChunkBlock]
    requires PoolSized(env, ix.heap.chunks, 1)
    ensures Shape(ix.heap)
    ensures var ix' := SplitIx(env, ix); Open(env, ix', bk) && Relocates(ix.heap, ix'.heap) && ix'.heap.chunks != []
  {
    hide Inv;
    hide Relocates;
    hide LayoutAt;
    hide Split;
    InvParts(ix.heap, bk);
    var h, n := ix.heap, |ix.heap.chunks|;
    var at := seq(n, i requires 0 <= i < n => Addr(ix.sys.next + i, 0));
    SplitLayout(env, h, at, ix.sys, if env.pooled then RawBlock else ChunkBlock);
    SplitRelocates(h, bk, at);
    PreservesRelocated(h, Split(h, at), bk);
  }

  /** With a pool, several chunks: each moves into a block of its own. */
  lemma SplitOpens(env: Env, ix: Index, g: Ghost, h: Heap)
    requires EnvOk(env) && Closed(env, ix, g) && Restores(g.frozen, h, ix.sys.next)
    requires env.pooled && |h.chunks| > 1
    ensures Shape(h)
    ensures var ix2 := SplitIx(env, Walked1(env, ix, h));
            Open(env, ix2, g.book) && Relocates(g.frozen, ix2.heap) && ix2.heap.chunks != []
  {
    hide Inv;
    hide Restores;
    hide Relocates;
    hide Shape;
    hide SplitIx;
    hide Open;
    hide HeapWritable;
    hide AllocCapsFit;
    hide Flatten;
    var ix1 := Walked1(env, ix, h);
    RestoredFacts(g.frozen, h, g.book, ix.sys.next);
    InvParts(h, g.book);
    DirectIffSingle(env, g.frozen, h, g.book, ix.sys.next);
    assert ix1.sys.out == map[ix.sys.next := RawBlock];
    SplitKeeps(env, ix1, g.book);
    RelocateTwice(g.frozen, h, SplitIx(env, ix1).heap);
  }

  // ---------- enlarge and shrink ----------

  /** The same index, or one whose heap is the old one relocated. */
  ghost predicate MovesTo(ix: Index, ix': Index) {
    ix' == ix || (ix.heap.chunks != [] && ix'.heap.chunks != [] && Relocates(ix.heap, ix'.heap))
  }

  /** `split_continuous_chunk` keeps the invariant, and afterwards the last chunk owns its block. */
  lemma SplitIxKeeps(env: Env, ix: Index, bk: Book)
    requires Open(env, ix, bk)
    ensures ix.heap.chunks == [] || Shape(ix.heap)
    ensures var ix' := SplitIx(env, ix);
            Open(env, ix', bk) && MovesTo(ix, ix') && (ix'.heap.chunks != [] ==> Last(ix'.heap).allocCap != 0)
  {
    if ix.heap.chunks != [] {
      hide Inv;
      hide Relocates;
      hide Layout;
      InvParts(ix.heap, bk);
      if IsContinuous(ix.heap) {
        ContinuousHolds(env, ix.heap, bk, ix.sys);
        SplitKeeps(env, ix, bk);
        SplitOwns(env, ix);
      } else {
        LastOwnsUnlessContinuous(env, ix.heap, bk, ix.sys);
      }
    }
  }

  lemma SplitOwns(env: Env, ix: Index)
    requires Shape(ix.heap) && IsContinuous(ix.heap)
    ensures Last(SplitIx(env, ix).heap).allocCap != 0
  {
    var n := |ix.heap.chunks|;
    assert Sane(ix.heap.chunks[n - 1], n - 1);
  }

  /** `chk_enlarge(1)` keeps the invariant; when it reports success and the last chunk owned its
      block, that chunk is at full size. */
  lemma EnlargeLastKeeps(env: Env, ix: Index, bk: Book, grant: bool, tail: seq<Cell>)
    requires Open(env, ix, bk)
    ensures var (ix', rc) := EnlargeLast(env, ix, grant, tail);
            && Open(env, ix', bk) && MovesTo(ix, ix') && (rc == 0 || rc == -1) && (rc != 0 ==> ix' == ix)
            && (rc == 0 && ix.heap.chunks != [] && Last(ix.heap).allocCap != 0 ==> Last(ix'.heap).cap == MAX_CAP)
  {
    hide Inv;
    hide Layout;
    hide Relocates;
    hide Preserves;
    hide Release;
    var h := ix.heap;
    if h.chunks != [] {
      var n := |h.chunks| - 1;
      InvParts(h, bk);
      assert Sane(h.chunks[n], n);
      if CanEnlarge(Last(h)) && (grant || env.pooled) {
        var (s, at) := Moved(env.pooled, ix.sys, Last(h).at);
        var room := CellsIn(MAX_CAP - Last(h).cap);
        var c := EnlargeChunk(Last(h), at, if env.pooled then Fit(tail, room) else Zeros(room));
        EnlargeRelocates(h, bk, at, if env.pooled then Fit(tail, room) else Zeros(room));
        PreservesRelocated(h, SetLast(h, c), bk);
        LayoutMoves(env, h, ix.sys, c, s);
      }
    }
  }

  /** `shrink` is safe on this index: the last chunk owns its block, or has nothing to give back. */
  predicate MayShrink(ix: Index) {
    ix.heap.chunks != [] ==> Last(ix.heap).allocCap != 0 || Excess(Last(ix.heap)) == 0
  }

  /** `shrink` keeps the invariant if the last chunk owns its block or has nothing to give back; then
      the last capacity is the tight one, unless the system refused a block. */
  lemma ShrinkKeeps(env: Env, ix: Index, bk: Book, grant: bool)
    requires Open(env, ix, bk) && MayShrink(ix)
    ensures ix.heap.chunks == [] || Shape(ix.heap)
    ensures var ix' := Shrink(env, ix, grant);
            && Open(env, ix', bk) && MovesTo(ix, ix')
            && (ix.heap.chunks != [] && grant ==> Last(ix'.heap).cap == Tight(Last(ix.heap).virgin))
  {
    hide Inv;
    hide Layout;
    hide Relocates;
    hide Shrink;
    hide Release;
    var h := ix.heap;
    if h.chunks == [] {
      ShrinkNothing(env, ix, grant);
    } else {
      InvParts(h, bk);
      ExcessIsTight(Last(h), |h.chunks| - 1);
      var s', at := ShrinkPlaces(env, ix, grant);
      if Shrink(env, ix, grant) != ix {
        var d := ShrinkChunk(Last(h), at);
        ShrinkRelocates(h, bk, at);
        PreservesRelocated(h, SetLast(h, d), bk);
        LayoutMoves(env, h, ix.sys, d, s');
      }
    }
  }

  /** And only then: otherwise it releases an address in the middle of the block of chunk 0. */
  lemma ShrinkFaultsIff(env: Env, ix: Index, bk: Book)
    requires Open(env, ix, bk)
    ensures ix.heap.chunks == [] || Shape(ix.heap)
    ensures Shrink(env, ix, true).sys.faults == 0 <==> MayShrink(ix)
  {
    if MayShrink(ix) {
      ShrinkKeeps(env, ix, bk, true);
    } else {
      hide Inv;
      hide Layout;
      hide Shrink;
      InvParts(ix.heap, bk);
      NonOwnerInside(env, ix.heap, ix.sys, |ix.heap.chunks| - 1);
      if env.pooled { LastOwnsInPool(env, ix.heap, ix.sys); }
      ShrinkReleases(env, ix);
    }
  }

  lemma LastOwnsInPool(env: Env, h: Heap, s: Sys)
    requires env.pooled && Layout(env, h, s) && h.chunks != []
    ensures Last(h).allocCap != 0
  {
    var k: nat :| LayoutAt(env, h, k, s);
    OwnersAt(h.chunks, k, s.out, |h.chunks| - 1);
  }

  lemma ShrinkReleases(env: Env, ix: Index)
    requires ix.heap.chunks != [] && Shape(ix.heap) && Excess(Last(ix.heap)) != 0 && !env.pooled && ix.sys.faults == 0
    ensures Shrink(env, ix, true).sys.faults == 0 <==>
              CanRelease(Obtain(ix.sys, ChunkBlock), Last(ix.heap).at, ChunkBlock)
  {
  }

  lemma ShrinkNothing(env: Env, ix: Index, grant: bool)
    requires ix.heap.chunks == []
    ensures Shrink(env, ix, grant) == ix
  {
  }

  /** Where `shrink` puts the last chunk, and the ledger afterwards. */
  lemma ShrinkPlaces(env: Env, ix: Index, grant: bool) returns (s: Sys, at: Addr)
    requires ix.heap.chunks != [] && Shape(ix.heap)
    ensures var c := Last(ix.heap); 0 <= Excess(c) <= c.cap && c.virgin <= WordsIn(c.cap) && |c.cells| == CellsIn(c.cap)
    ensures || (at == Addr(ix.sys.next, 0) && s == Release(Obtain(ix.sys, ChunkBlock), Last(ix.heap).at, ChunkBlock))
            || (at == Last(ix.heap).at && s == ix.sys)
    ensures var ix' := Shrink(env, ix, grant);
            || (ix' == ix.(heap := SetLast(ix.heap, ShrinkChunk(Last(ix.heap), at)), sys := s)
                && Excess(Last(ix.heap)) != 0)
            || (ix' == ix && (Excess(Last(ix.heap)) == 0 || !grant))
  {
    var c := Last(ix.heap);
    assert Sane(c, |ix.heap.chunks| - 1);
    ExcessIsTight(c, |ix.heap.chunks| - 1);
    if Excess(c) < c.cap - Excess(c) {
      var m := Moved(env.pooled, ix.sys, c.at);
      s, at := m.0, m.1;
    } else {
      s, at := Release(Obtain(ix.sys, ChunkBlock), c.at, ChunkBlock), Addr(ix.sys.next, 0);
    }
  }

  // ---------- compress and destruct ----------

  lemma OpenWritable(env: Env, ix: Index, bk: Book)
    requires Open(env, ix, bk) && ix.heap.chunks != []
    ensures AllocCapsFit(ix.heap) && HeapWritable(ix.heap)
  {
    LayoutFits(env, ix.heap, bk, ix.sys);
  }

  lemma LayoutReleases(env: Env, h: Heap, s: Sys, extra: map<nat, Kind>, t: Sys)
    requires Layout(env, h, s) && s.out.Keys !! extra.Keys && t.out == s.out + extra
    ensures ReleaseAll(t, h.chunks) == t.(out := extra) && Numbered(s) && PoolSized(env, h.chunks, 1)
  {
    var k: nat :| LayoutAt(env, h, k, s);
    ReleaseAllExactly(t, h.chunks, k, s.out, extra);
  }

  /** A block obtained and released again leaves no trace but its number. */
  lemma GivesUp(env: Env, ix: Index, bk: Book)
    requires Open(env, ix, bk) && ix.heap.chunks != []
    ensures Open(env, ix.(sys := Release(Obtain(ix.sys, PackedBlock), Addr(ix.sys.next, 0), PackedBlock)), bk)
  {
    hide Inv;
    LayoutReleases(env, ix.heap, ix.sys, map[], ix.sys);
    var s := Release(Obtain(ix.sys, PackedBlock), Addr(ix.sys.next, 0), PackedBlock);
    assert s.out == ix.sys.out;
    LayoutSys(env, ix.heap, ix.sys, s);
  }

  /** Storing the image gives all chunk blocks back. */
  lemma Stores(env: Env, ix: Index, bk: Book)
    requires Open(env, ix, bk) && ix.heap.chunks != []
    ensures HeapWritable(ix.heap) && AllocCapsFit(ix.heap)
    ensures var bytes := env.codec.pack(Flatten(ix.heap));
            var ix' := Destruct(ix.(sys := Obtain(ix.sys, PackedBlock))).(packed := Some(Packed(ix.sys.next, bytes)));
            Closed(env, ix', Ghost(bk, ix.heap))
  {
    OpenWritable(env, ix, bk);
    hide Inv;
    hide HeapWritable;
    hide AllocCapsFit;
    hide Flatten;
    hide Layout;
    hide Closed;
    hide Destruct;
    LayoutReleases(env, ix.heap, ix.sys, map[], ix.sys);
    StoresReleased(env, ix);
    StoredIsClosed(env, ix, bk);
  }

  /** With the packed block obtained, all chunk blocks are given back and it alone stays. */
  lemma StoresReleased(env: Env, ix: Index)
    requires Layout(env, ix.heap, ix.sys) && ix.heap.chunks != [] && Numbered(ix.sys)
    ensures var s := Obtain(ix.sys, PackedBlock);
            Destruct(ix.(sys := s)).sys == s.(out := map[ix.sys.next := PackedBlock])
  {
    hide Layout;
    LayoutReleases(env, ix.heap, ix.sys, map[ix.sys.next := PackedBlock], Obtain(ix.sys, PackedBlock));
    hide ReleaseAll;
  }

  lemma StoredIsClosed(env: Env, ix: Index, bk: Book)
    requires Inv(ix.heap, bk) && AllocCapsFit(ix.heap) && HeapWritable(ix.heap) && PoolSized(env, ix.heap.chunks, 1)
    requires ix.heap.chunks != [] && |ix.heap.chunks| <= ix.addrSize && ix.sys.faults == 0
    requires var s := Obtain(ix.sys, PackedBlock);
             Destruct(ix.(sys := s)).sys == s.(out := map[ix.sys.next := PackedBlock])
    ensures var bytes := env.codec.pack(Flatten(ix.heap));
            var ix' := Destruct(ix.(sys := Obtain(ix.sys, PackedBlock))).(packed := Some(Packed(ix.sys.next, bytes)));
            Closed(env, ix', Ghost(bk, ix.heap))
  {
    hide Inv;
    hide HeapWritable;
    hide AllocCapsFit;
    hide Flatten;
    hide ReleaseAll;
    hide PoolSized;
  }

  /** `compress` either leaves the heap as it is, or stores its image and gives all its blocks back. */
  lemma CompressKeeps(env: Env, ix: Index, bk: Book, percent: nat, grant: bool)
    requires EnvOk(env) && Open(env, ix, bk)
    ensures ix.heap.chunks == [] || HeapWritable(ix.heap)
    ensures var (ix', rc) := Compress(env, ix, percent, grant);
            && (ix'.packed.None? ==> Open(env, ix', bk) && ix'.heap == ix.heap)
            && (ix'.packed.Some? ==> Closed(env, ix', Ghost(bk, ix.heap)) && ix.heap.chunks != [])
            && (rc == 0 || rc == -1) && (rc == -1 <==> ix.heap.chunks != [] && !grant)
            && (ix'.packed.Some? <==>
                  (ix.heap.chunks != [] && grant
                   && 100 * (|env.codec.pack(Flatten(ix.heap))| + 4) <= percent * 1024 * Sum(Caps(ix.heap.chunks))))
  {
    if ix.heap.chunks != [] {
      GivesUp(env, ix, bk);
      Stores(env, ix, bk);
      hide Open;
      hide Closed;
      hide HeapWritable;
      hide Flatten;
      hide Destruct;
    }
  }

  /** `destruct` gives every block back exactly when the index is not compressed: a compressed index
      has no chunks to walk, and its one block stays outstanding. */
  lemma DestructIff(env: Env, ix: Index, g: Ghost)
    requires IxInv(env, ix, g)
    ensures Destruct(ix).sys.out == map[] <==> ix.packed.None?
    ensures Destruct(ix).sys.faults == 0
    ensures ix.packed.None? ==> Open(env, Destruct(ix), EMPTY_BOOK) && Destruct(ix).heap.chunks == []
    ensures ix.packed.Some? ==> Destruct(ix) == ix
  {
    if ix.heap.chunks != [] {
      assert ix.sys.out == ix.sys.out + map[];
      LayoutReleases(env, ix.heap, ix.sys, map[], ix.sys);
    } else if ix.packed.Some? {
      assert ix.packed.value.block in ix.sys.out;
    }
  }

  // ---------- allocation ----------

  lemma FirstHeapInv(sizes: seq<nat>, at: Addr)
    requires SizesOk(sizes) && sizes[0] < 16 && sizes[1] < 32 && sizes[2] < 128
    ensures Inv(FirstHeap(sizes, at), EMPTY_BOOK)
  {
    var h := FirstHeap(sizes, at);
    CapsOne(h.chunks[0]);
    assert Useds(h.chunks) == [] + [Lo(0)] && Virgins(h.chunks) == [] + [Lo(0)];
    SumAppend([], Lo(0));
    assert h.chunks == [h.chunks[0]];
    assert LiveIn(EMPTY_BOOK, 0) == {} && Pool(EMPTY_BOOK) == {};
    assert Sane(h.chunks[0], 0);
  }

  lemma DonatePlaces(h: Heap, bk: Book, no: nat)
    requires Inv(h, bk) && no < |h.chunks|
    ensures |Donate(h, no).chunks| == |h.chunks| && SamePlaces(h, Donate(h, no), |h.chunks|)
  {
    hide Inv;
    InvParts(h, bk);
    assert Sane(h.chunks[no], no);
    var v, left := h.chunks[no].virgin, WordsIn(h.chunks[no].cap) - h.chunks[no].virgin;
    var h1 := SetVirgin(h, no, v + left);
    DonateUnfold(h, bk, no, h1, v, left);
    CarveWrites(h1, no, v, left, Carve(h1, no, v, left));
  }

  /** Allocation moves no chunk; when it adds one, that one is full-size in the block it was given. */
  lemma AllocPlaces(h: Heap, bk: Book, size: nat, at: Option<Addr>)
    requires Inv(h, bk) && 1 <= size <= MAX_WORDS
    ensures Shape(h) && HeadsOk(h)
    ensures var (h', r) := Alloc(h, size, at); var n := |h.chunks|;
            var grows := FirstFit(h.mgr, size) == 3 && !BumpFits(h, size) && n < NULL_NO && at.Some?;
            && SamePlaces(h, h', n) && |h'.chunks| == (if grows then n + 1 else n)
            && (grows ==> var c := Last(h'); c.at == at.value && c.cap == MAX_CAP && c.allocCap == MAX_CAP)
  {
    hide Inv;
    hide Struct;
    hide HeadsOk;
    hide PoolTake;
    hide Donate;
    hide SamePlaces;
    hide Charge;
    InvParts(h, bk);
    HeadsOfLists(h, bk);
    var i := FirstFit(h.mgr, size);
    if i < 3 {
      PoolPlaces(h, bk, i, size);
      PlacesCharged(h, AddFree(PoolTake(h, i, size), 0 - size), h.mgr.heads[i].no, size);
    } else if BumpFits(h, size) {
      PlacesBumped(h, size);
    } else if |h.chunks| < NULL_NO && at.Some? {
      GrowPlaces(h, bk, size, at.value);
    } else {
      PlacesItself(h);
    }
  }

  lemma PlacesCharged(h: Heap, h1: Heap, no: nat, size: int)
    requires |h1.chunks| == |h.chunks| && SamePlaces(h, h1, |h.chunks|) && no < |h.chunks|
    ensures |Charge(h1, no, size).chunks| == |h.chunks| && SamePlaces(h, Charge(h1, no, size), |h.chunks|)
  {
  }

  lemma PlacesBumped(h: Heap, size: nat)
    requires h.chunks != []
    ensures |Bump(h, size).chunks| == |h.chunks| && SamePlaces(h, Bump(h, size), |h.chunks|)
  {
  }

  lemma PlacesItself(h: Heap)
    ensures SamePlaces(h, h, |h.chunks|)
  {
  }

  lemma PoolPlaces(h: Heap, bk: Book, i: nat, size: nat)
    requires Struct(h, bk) && i < 3 && !h.mgr.heads[i].IsNull() && 1 <= size <= h.mgr.sizes[i] && size <= MAX_WORDS
    ensures HeadOk(h, i)
    ensures var h1 := PoolTake(h, i, size); |h1.chunks| == |h.chunks| && SamePlaces(h, h1, |h.chunks|)
  {
    var p := h.mgr.heads[i];
    PoolTakeKeeps(h, bk, i, size, Blk(p.no, p.off / 2, size, LIVE));
  }

  lemma GrowPlaces(h: Heap, bk: Book, size: nat, at: Addr)
    requires Inv(h, bk) && |h.chunks| < NULL_NO
    ensures var n := |h.chunks|; var h' := Bump(Donate(AddChunk(h, at), n - 1), size);
            && |h'.chunks| == n + 1 && SamePlaces(h, h', n) && SamePlace(NewChunk(n, HEADER, at), h'.chunks[n])
  {
    hide Inv;
    hide Donate;
    hide KeepsLive;
    hide NewChunk;
    var n := |h.chunks|;
    InvParts(h, bk);
    hide Struct;
    hide UsedOk;
    var h1 := AddChunk(h, at);
    AddChunkKeeps(h, bk, at);
    assert Sane(h.chunks[n - 1], n - 1) && h1.chunks[n - 1] == h.chunks[n - 1];
    DonatePlaces(h1, bk, n - 1);
    var h2 := Donate(h1, n - 1);
    forall i | 0 <= i < n ensures SamePlace(h.chunks[i], h2.chunks[i]) { assert SamePlace(h1.chunks[i], h2.chunks[i]); }
    assert SamePlace(h1.chunks[n], h2.chunks[n]);
  }

  /** What one call of an operation does to the live blocks: at most one comes, at most one goes, and
      the others stay with their contents. */
  ghost predicate Delivered(h: Heap, bk: Book, h': Heap, bk': Book, size: nat, b: Blk) {
    && b.tag == LIVE && b.size == size && b in bk'.blocks && b !in bk.blocks && bk.lost <= bk'.lost
    && (forall c: Blk :: c.tag == LIVE ==> (c in bk'.blocks <==> c in bk.blocks || c == b))
    && KeepsLive(h, h', bk)
  }

  lemma DeliveredOf(h: Heap, bk: Book, h': Heap, bk': Book, size: nat, b: Blk)
    requires Delivers(h, bk, h', bk', size, b)
    ensures Inv(h', bk') && Delivered(h, bk, h', bk', size, b)
  {
  }

  function GrantedAt(ix: Index, grant: bool): Option<Addr> {
    if grant then Some(Addr(ix.sys.next, 0)) else None
  }

  lemma OpenUsable(env: Env, ix: Index, bk: Book)
    requires Open(env, ix, bk) && ix.heap.chunks != []
    ensures Usable(ix.heap) && |bk.lists| == 3
  {
    HeadsOfLists(ix.heap, bk);
  }

  /** Why an allocation on chunks at full size can fail. */
  ghost predicate NoSpace(h: Heap, bk: Book, words: nat, grant: bool)
    requires h.chunks != [] && h.mgr.Shaped() && |bk.lists| == 3
  {
    && (forall i :: 0 <= i < 3 ==> h.mgr.sizes[i] < words || bk.lists[i] == [])
    && !BumpFits(h, words) && (|h.chunks| >= NULL_NO || !grant)
  }

  lemma AllocChunkedKeeps(env: Env, ix: Index, bk: Book, words: nat, grant: bool)
    requires Open(env, ix, bk) && ix.heap.chunks != [] && 1 <= words <= MAX_WORDS && !CanEnlarge(Last(ix.heap))
    ensures Usable(ix.heap) && |bk.lists| == 3
    ensures var (ix', r) := AllocChunked(ix, words, grant);
            var bk' := BookAlloc(ix.heap, bk, words, GrantedAt(ix, grant));
            && Open(env, ix', bk') && ix'.heap.chunks != []
            && (r.Some? ==> Delivered(ix.heap, bk, ix'.heap, bk', words, r.value))
            && (r.None? ==> ix'.heap == ix.heap && bk' == bk && ix'.sys == ix.sys)
            && (r.None? <==> NoSpace(ix.heap, bk, words, grant))
  {
    hide Inv;
    hide Layout;
    hide Delivers;
    hide KeepsLive;
    hide Alloc;
    hide BookAlloc;
    hide HeadsOk;
    OpenUsable(env, ix, bk);
    var h, n, at := ix.heap, |ix.heap.chunks|, GrantedAt(ix, grant);
    InvParts(h, bk);
    assert Sane(Last(h), n - 1);
    AllocKeeps(h, bk, words, at);
    AllocPlaces(h, bk, words, at);
    var (h', r) := Alloc(h, words, at);
    var bk' := BookAlloc(h, bk, words, at);
    if r.Some? { DeliveredOf(h, bk, h', bk', words, r.value); }
    if |h'.chunks| == n { LayoutStays(env, h, h', ix.sys); } else { LayoutGrows(env, h, h', ix.sys); }
  }

  // ---------- the client's operations, uncompressing if need be ----------

  lemma ReadyOf(env: Env, ix: Index, g: Ghost)
    requires IxInv(env, ix, g)
    ensures Ready(env, ix) && |g.book.lists| == 3
  {
    forall grant: bool ensures var h := Uncompress(env, ix, grant).0.heap; h.chunks == [] || Usable(h) {
      UncompressKeeps(env, ix, g, grant);
      var ix1 := Uncompress(env, ix, grant).0;
      if ix1.heap.chunks != [] && ix1.packed.None? { OpenUsable(env, ix1, g.book); }
    }
  }

  /** The book after `alloc` on an open index. */
  ghost function BookAllocIx(env: Env, ix: Index, bk: Book, size: nat, grant: bool): (r: Book)
    requires ix.heap.chunks == [] || Usable(ix.heap)
    requires SizesOk(env.sizes) && env.sizes[0] < 16 && env.sizes[1] < 32 && env.sizes[2] < 128 && |bk.lists| == 3
    ensures |r.lists| == 3
  {
    var (ix1, rc) := if ix.heap.chunks == [] then AddFirst(env, ix, grant) else (ix, 0);
    if CeilDiv(size, 8) > MAX_WORDS || rc < 0 || CanEnlarge(Last(ix1.heap)) then bk
    else BookAlloc(ix1.heap, bk, CeilDiv(size, 8), GrantedAt(ix1, grant))
  }

  lemma AddFirstKeeps(env: Env, ix: Index)
    requires EnvOk(env) && Open(env, ix, EMPTY_BOOK) && ix.heap.chunks == []
    ensures Open(env, AddFirst(env, ix, false).0, EMPTY_BOOK)
    ensures var ix1 := AddFirst(env, ix, true).0;
            Open(env, ix1, EMPTY_BOOK) && ix1.heap.chunks != [] && !CanEnlarge(Last(ix1.heap))
    ensures forall words: nat :: words <= MAX_WORDS ==> BumpFits(AddFirst(env, ix, true).0.heap, words)
  {
    FirstHeapInv(env.sizes, Addr(ix.sys.next, 0));
    LayoutFirst(env, ix.sys);
  }

  /** Whether `alloc` of `words` words on an open index finds no space: there is no chunk and none to
      be had, or the last chunk must be enlarged first, or nothing fits. */
  ghost predicate AllocFails(ix: Index, bk: Book, words: nat, grant: bool)
    requires ix.heap.chunks == [] || (ix.heap.mgr.Shaped() && |bk.lists| == 3)
  {
    if ix.heap.chunks == [] then !grant
    else CanEnlarge(Last(ix.heap)) || NoSpace(ix.heap, bk, words, grant)
  }

  /** The first allocation cannot fail once there is a chunk. */
  lemma AllocFirstKeeps(env: Env, ix: Index, words: nat)
    requires EnvOk(env) && Open(env, ix, EMPTY_BOOK) && ix.heap.chunks == [] && 1 <= words <= MAX_WORDS
    ensures var ix1 := AddFirst(env, ix, true).0;
            && ix1.heap.chunks != [] && Usable(ix1.heap) && !CanEnlarge(Last(ix1.heap))
            && var (ix', r) := AllocChunked(ix1, words, true);
               var bk' := BookAlloc(ix1.heap, EMPTY_BOOK, words, GrantedAt(ix1, true));
               && Open(env, ix', bk') && ix'.heap.chunks != []
               && r.Some? && Delivered(ix.heap, EMPTY_BOOK, ix'.heap, bk', words, r.value)
  {
    hide Inv;
    hide Layout;
    hide AllocChunked;
    hide BookAlloc;
    var ix1 := AddFirst(env, ix, true).0;
    AddFirstKeeps(env, ix);
    AllocChunkedKeeps(env, ix1, EMPTY_BOOK, words, true);
    assert BumpFits(ix1.heap, words);
    assert !NoSpace(ix1.heap, EMPTY_BOOK, words, true);
    var bk' := BookAlloc(ix1.heap, EMPTY_BOOK, words, GrantedAt(ix1, true));
    DeliveredFirst(ix1.heap, AllocChunked(ix1, words, true).0.heap, bk', words, AllocChunked(ix1, words, true).1.value,
        ix.heap);
  }

  lemma DeliveredFirst(h: Heap, h': Heap, bk': Book, size: nat, b: Blk, h0: Heap)
    requires Delivered(h, EMPTY_BOOK, h', bk', size, b)
    ensures Delivered(h0, EMPTY_BOOK, h', bk', size, b)
  {
  }

  /** `alloc` on an open index: a fresh block, or nothing changed, and exactly when. */
  lemma AllocIxKeeps(env: Env, ix: Index, bk: Book, size: nat, grant: bool)
    requires EnvOk(env) && Open(env, ix, bk) && 1 <= size && CeilDiv(size, 8) <= MAX_WORDS
    ensures (ix.heap.chunks == [] || Usable(ix.heap)) && |bk.lists| == 3
    ensures var (ix', r) := AllocIx(env, ix, size, grant);
            var bk' := BookAllocIx(env, ix, bk, size, grant);
            && Open(env, ix', bk')
            && (r.Some? ==> Delivered(ix.heap, bk, ix'.heap, bk', CeilDiv(size, 8), r.value) && ix'.heap.chunks != [])
            && (r.None? ==> ix'.heap == ix.heap && bk' == bk && ix'.sys == ix.sys)
            && (r.None? <==> AllocFails(ix, bk, CeilDiv(size, 8), grant))
  {
    hide Inv;
    hide Layout;
    hide Delivered;
    hide AllocChunked;
    hide BookAlloc;
    hide NoSpace;
    hide FirstHeap;
    hide Usable;
    var words := CeilDiv(size, 8);
    if ix.heap.chunks == [] {
      AddFirstKeeps(env, ix);
      if grant { AllocFirstKeeps(env, ix, words); }
    } else {
      OpenUsable(env, ix, bk);
      if !CanEnlarge(Last(ix.heap)) { AllocChunkedKeeps(env, ix, bk, words, grant); }
    }
  }

  /** `free` on an open index. */
  lemma FreeIxKeeps(env: Env, ix: Index, bk: Book, b: Blk)
    requires Open(env, ix, bk) && b in bk.blocks && b.tag == LIVE
    ensures ix.heap.chunks != [] && |bk.lists| == 3 && Inv(ix.heap, bk) && b.no < |ix.heap.chunks|
    ensures ix.heap.mgr.Shaped() && Room(ix.heap, b.no, b.off, b.size)
    ensures var ix', bk' := ix.(heap := Free(ix.heap, b)), BookFree(ix.heap, bk, b);
            Open(env, ix', bk') && Releases(ix.heap, bk, ix'.heap, bk', b)
  {
    FreeKeeps(ix.heap, bk, b);
    FreePlaces(ix.heap, bk, b);
    hide Free;
    hide BookFree;
    hide Inv;
    LayoutStays(env, ix.heap, Free(ix.heap, b), ix.sys);
  }

  lemma FreePlaces(h: Heap, bk: Book, b: Blk)
    requires Inv(h, bk) && b in bk.blocks && b.tag == LIVE
    ensures b.no < |h.chunks| && h.mgr.Shaped() && Room(h, b.no, b.off, b.size)
    ensures |Free(h, b).chunks| == |h.chunks| && SamePlaces(h, Free(h, b), |h.chunks|)
  {
    hide Carve;
    hide Counted;
    FreeKeeps(h, bk, b);
    ZeroedWrites(h, b);
    var z := Zeroed(h, b);
    if b.off + b.size != h.chunks[b.no].virgin {
      CarveWrites(AddFree(z, b.size), b.no, b.off, b.size, Carve(AddFree(z, b.size), b.no, b.off, b.size));
    }
  }

  /** A client's store inside a live block keeps the invariant and every other block. */
  lemma StoreKeeps(env: Env, ix: Index, bk: Book, b: Blk, k: nat, v: Cell)
    requires Open(env, ix, bk) && b in bk.blocks && b.tag == LIVE && 2 * b.off <= k < 2 * (b.off + b.size)
    ensures ix.heap.chunks != [] && b.no < |ix.heap.chunks| && k < |ix.heap.chunks[b.no].cells|
    ensures var h' := Store(ix.heap, b.no, k, v);
            && Open(env, ix.(heap := h'), bk) && KeepsLive(ix.heap, h', Without(bk, b))
            && h'.chunks[b.no].cells[k] == v
  {
    var h := ix.heap;
    assert Placed(h, b);
    assert Sane(h.chunks[b.no], b.no);
    hide Inv;
    hide Layout;
    hide KeepsLive;
    var h' := Store(h, b.no, k, v);
    assert OnlyWrote(h, h', b.no, b.off, b.off + b.size);
    StoreInv(h, bk, b, h');
    LayoutStays(env, h, h', ix.sys);
  }

  lemma StoreInv(h: Heap, bk: Book, b: Blk, h': Heap)
    requires Inv(h, bk) && b in bk.blocks && b.tag == LIVE
    requires OnlyWrote(h, h', b.no, b.off, b.off + b.size) && h'.mgr == h.mgr
    ensures Inv(h', bk) && KeepsLive(h, h', Without(bk, b))
  {
    hide Counted;
    hide Struct;
    hide OnlyWrote;
    hide KeepsLive;
    hide Vacant;
    hide UsedOk;
    hide SameLive;
    hide Placed;
    InvParts(h, bk);
    ZeroStep(h, bk, b, h');
    WithoutBack(bk, b);
    SizeLegal(h, bk, b);
    AddLive(h', Without(bk, b), b);
    CountedSame(h, h', bk, b);
  }

  lemma WithoutBack(bk: Book, b: Blk)
    requires b in bk.blocks
    ensures BookAdd(Without(bk, b), b) == bk
  {
    assert bk.blocks - {b} + {b} == bk.blocks;
  }

  lemma SizeLegal(h: Heap, bk: Book, b: Blk)
    requires Inv(h, bk) && b in bk.blocks && b.tag == LIVE
    ensures 1 <= b.size <= MAX_WORDS
  {
    assert Placed(h, b) && TagFits(h.mgr, b);
  }

  lemma CountedSame(h: Heap, h': Heap, bk: Book, b: Blk)
    requires Counted(h, bk) && OnlyWrote(h, h', b.no, b.off, b.off + b.size) && h'.mgr == h.mgr
    ensures Counted(h', bk)
  {
    FrameSums(h, h', b.no, b.off, b.off + b.size);
    UsedSame(h, h', bk);
  }

  /** `enlarge` keeps the invariant and every block, and on success the last chunk is at full size. */
  lemma EnlargeOpKeeps(env: Env, ix: Index, g: Ghost, unpack: bool, grant: bool, tail: seq<Cell>)
    requires IxInv(env, ix, g)
    ensures Ready(env, ix)
    ensures var (ix', rc) := EnlargeOp(env, ix, unpack, grant, tail);
            && IxInv(env, ix', g)
            && (rc == 0 ==> Open(env, ix', g.book) && (ix'.heap.chunks == [] || Last(ix'.heap).cap == MAX_CAP))
            && (View(ix', g) == View(ix, g) || Relocates(View(ix, g), View(ix', g)))
  {
    ReadyOf(env, ix, g);
    UncompressKeeps(env, ix, g, unpack);
    var (ix1, rc) := Uncompress(env, ix, unpack);
    if rc == 0 {
      hide Open;
      hide Closed;
      hide Relocates;
      hide SplitIx;
      SplitIxKeeps(env, ix1, g.book);
      var ix2 := SplitIx(env, ix1);
      EnlargeLastKeeps(env, ix2, g.book, grant, tail);
      var ix3 := EnlargeLast(env, ix2, grant, tail).0;
      OpenIsUnpacked(env, ix1, g.book);
      OpenIsUnpacked(env, ix3, g.book);
      MovesTwice(env, ix1, ix2, ix3);
      if ix.packed.Some? && ix3 != ix1 { RelocateTwice(g.frozen, ix1.heap, ix3.heap); }
    }
  }

  lemma OpenIsUnpacked(env: Env, ix: Index, bk: Book)
    requires Open(env, ix, bk)
    ensures ix.packed.None?
  {
  }

  lemma MovesTwice(env: Env, ix: Index, ix1: Index, ix2: Index)
    requires MovesTo(ix, ix1) && MovesTo(ix1, ix2)
    ensures MovesTo(ix, ix2)
  {
    if ix1 != ix && ix2 != ix1 { RelocateTwice(ix.heap, ix1.heap, ix2.heap); }
  }
}
