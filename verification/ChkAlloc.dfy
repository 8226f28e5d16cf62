/**
  Allocation and release keep the heap invariant, keep the contents of every live block, and return
  what they promise (chk/chk_base.cpp, ChkIndex::alloc and ChkIndex::free).
 */
module ChkAlloc {
  import opened ChkBase
  import opened ChkHeap

  ghost predicate SameLive(bk: Book, bk': Book) {
    forall b: Blk :: b.tag == LIVE ==> (b in bk.blocks <==> b in bk'.blocks)
  }

  lemma SameLiveCounts(bk: Book, bk': Book, no: nat)
    requires SameLive(bk, bk')
    ensures LiveIn(bk', no) == LiveIn(bk, no)
  {
  }

  lemma CarveLive(sizes: seq<nat>, bk: Book, no: nat, off: nat, left: nat)
    requires SizesOk(sizes) && |bk.lists| == 3
    ensures SameLive(bk, BookCarve(sizes, bk, no, off, left))
  {
    forall b: Blk | b.tag == LIVE ensures b in bk.blocks <==> b in BookCarve(sizes, bk, no, off, left).blocks {
      BookCarveAdds(sizes, bk, no, off, left, b);
    }
  }

  /** Carving one part of a vacant range leaves a part in front of it vacant. */
  lemma CarveLeavesVacant(sizes: seq<nat>, bk: Book, no: nat, off: nat, size: nat, left: nat)
    requires SizesOk(sizes) && |bk.lists| == 3
    requires Vacant(bk, no, off, size)
    ensures Vacant(BookCarve(sizes, bk, no, off + size, left), no, off, size)
  {
    var bk' := BookCarve(sizes, bk, no, off + size, left);
    forall c | c in bk'.blocks ensures Disjoint(c, Blk(no, off, size, LIVE)) {
      BookCarveAdds(sizes, bk, no, off + size, left, c);
      if c in bk.blocks { assert Disjoint(c, Blk(no, off, size, LIVE)); }
    }
  }

  lemma VacantPart(bk: Book, no: nat, off: nat, size: nat, off': nat, size': nat)
    requires Vacant(bk, no, off, size) && off <= off' && off' + size' <= off + size
    ensures Vacant(bk, no, off', size')
  {
    forall c | c in bk.blocks ensures Disjoint(c, Blk(no, off', size', LIVE)) {
      assert Disjoint(c, Blk(no, off, size, LIVE));
    }
  }

  /** Carving a vacant range: structure, writes and word counts in one place. */
  lemma CarveKeeps(h: Heap, bk: Book, no: nat, off: nat, left: nat)
    requires Struct(h, bk) && InChunk(h, no, off, left) && Vacant(bk, no, off, left)
    ensures var h', bk' := Carve(h, no, off, left), BookCarve(h.mgr.sizes, bk, no, off, left);
            && Struct(h', bk') && OnlyWrote(h, h', no, off, off + left) && SameLive(bk, bk')
            && Words(Pool(bk')) + bk'.lost == Words(Pool(bk)) + bk.lost + left
            && bk.lost <= bk'.lost < bk.lost + h.mgr.sizes[0]
  {
    hide Carve;
    hide BookCarve;
    CarveStruct(h, bk, h.mgr.sizes, no, off, left);
    CarveWrites(h, no, off, left, Carve(h, no, off, left));
    CarveCounts(h.mgr.sizes, bk, no, off, left);
    CarveLive(h.mgr.sizes, bk, no, off, left);
  }

  // ---------- a pool hit ----------

  lemma PoolTakeKeeps(h: Heap, bk: Book, i: nat, size: nat, b: Blk)
    requires Struct(h, bk) && i < 3 && !h.mgr.heads[i].IsNull() && 1 <= size <= h.mgr.sizes[i]
    requires size <= MAX_WORDS && b == Blk(h.mgr.heads[i].no, h.mgr.heads[i].off / 2, size, LIVE)
    ensures HeadOk(h, i) && bk.lists[i] != []
    ensures var h', bk' := PoolTake(h, i, size), BookTake(h.mgr.sizes, bk, i, b, size);
            && Struct(h', bk') && Placed(h', b) && Vacant(bk', b.no, b.off, size) && SameLive(bk, bk')
            && OnlyWrote(h, h', b.no, b.off, b.off + h.mgr.sizes[i])
            && Words(Pool(bk')) + bk'.lost + size == Words(Pool(bk)) + bk.lost
            && bk.lost <= bk'.lost < bk.lost + h.mgr.sizes[0]
  {
    hide Carve;
    hide BookCarve;
    hide Words;
    hide Linked;
    hide NoRepeat;
    hide TagFits;
    HeadOfList(h, bk, i);
    PopKeeps(h, bk, i);
    PopWrites(h, i);
    var full := h.mgr.sizes[i];
    var h1, bk1 := Pop(h, i), BookPop(bk, i);
    assert Placed(h, bk.lists[i][0]);
    assert InChunk(h1, b.no, b.off + size, full - size);
    VacantPart(bk1, b.no, b.off, full, b.off + size, full - size);
    VacantPart(bk1, b.no, b.off, full, b.off, size);
    CarveKeeps(h1, bk1, b.no, b.off + size, full - size);
    CarveLeavesVacant(h.mgr.sizes, bk1, b.no, b.off, size, full - size);
  }

  /** Every live block holds the same in both heaps. */
  ghost predicate KeepsLive(h: Heap, h': Heap, bk: Book) {
    forall c: Blk {:trigger Kept(h, h', c)} :: c in bk.blocks && c.tag == LIVE ==> Kept(h, h', c)
  }

  /** What an allocation must deliver: a live block of the size asked for that met no block before,
      and everything that was live still live with the same contents. */
  ghost predicate Delivers(h: Heap, bk: Book, h': Heap, bk': Book, size: nat, b: Blk) {
    && Inv(h', bk') && bk.lost <= bk'.lost
    && b.tag == LIVE && b.size == size && b in bk'.blocks && b !in bk.blocks
    && (forall c: Blk :: c.tag == LIVE ==> (c in bk'.blocks <==> c in bk.blocks || c == b))
    && KeepsLive(h, h', bk)
  }

  lemma KeepsLiveThrough(h: Heap, h1: Heap, h2: Heap, bk: Book, bk1: Book)
    requires KeepsLive(h, h1, bk) && KeepsLive(h1, h2, bk1) && SameLive(bk, bk1)
    ensures KeepsLive(h, h2, bk)
  {
    forall c: Blk | c in bk.blocks && c.tag == LIVE ensures Kept(h, h2, c) {
      assert Kept(h, h1, c) && Kept(h1, h2, c);
    }
  }

  lemma DeliversVia(h: Heap, bk: Book, h1: Heap, bk1: Book, h2: Heap, b: Blk)
    requires SameLive(bk, bk1) && bk.lost <= bk1.lost && KeepsLive(h, h1, bk)
    requires Inv(h2, BookAdd(bk1, b)) && b !in bk1.blocks && b.tag == LIVE && KeepsLive(h1, h2, bk1)
    ensures Delivers(h, bk, h2, BookAdd(bk1, b), b.size, b)
  {
    KeepsLiveThrough(h, h1, h2, bk, bk1);
  }

  /** The last step of every allocation: a vacant range below the bump pointer becomes a live block
      and is charged to its chunk.  Before it, the words of the block are the only ones not counted. */
  lemma ChargeDelivers(h: Heap, bk: Book, b: Blk)
    requires Struct(h, bk) && UsedOk(h, bk) && Sum(Caps(h.chunks)) == h.mgr.totalCap
    requires Placed(h, b) && b.tag == LIVE && b.size <= MAX_WORDS && Vacant(bk, b.no, b.off, b.size)
    requires Sum(Virgins(h.chunks)) == h.mgr.totalUsed + b.size + h.mgr.totalFree
    requires h.mgr.totalFree == Words(Pool(bk)) + bk.lost
    ensures Inv(Charge(h, b.no, b.size), BookAdd(bk, b)) && b !in bk.blocks
    ensures KeepsLive(h, Charge(h, b.no, b.size), bk)
  {
    hide UsedOk;
    hide Geometry;
    hide Listed;
    hide Chained;
    hide Vacant;
    hide Words;
    hide Sum;
    hide Pool;
    AddLive(h, bk, b);
    ChargeUsed(h, bk, b);
    ChargeCarries(h, b.no, b.size);
    CarryOverKeeps(h, Charge(h, b.no, b.size), BookAdd(bk, b));
  }

  lemma ChargeCarries(h: Heap, no: nat, size: int)
    requires Shape(h) && no < |h.chunks|
    ensures Shape(Charge(h, no, size)) && CarriesOver(h, Charge(h, no, size))
  {
    forall i | 0 <= i < |h.chunks| ensures ChunkCarriesOver(h.chunks[i], Charge(h, no, size).chunks[i], i) {
      assert Sane(h.chunks[i], i);
    }
  }

  lemma AllocPool(h: Heap, bk: Book, i: nat, size: nat, b: Blk)
    requires Inv(h, bk) && i < 3 && !h.mgr.heads[i].IsNull() && 1 <= size <= h.mgr.sizes[i] && size <= MAX_WORDS
    requires b == Blk(h.mgr.heads[i].no, h.mgr.heads[i].off / 2, size, LIVE)
    ensures HeadOk(h, i) && bk.lists[i] != []
    ensures var h' := Charge(AddFree(PoolTake(h, i, size), 0 - size), b.no, size);
            Delivers(h, bk, h', BookAdd(BookTake(h.mgr.sizes, bk, i, b, size), b), size, b)
  {
    var h1, bk1 := TakenOf(h, bk, i, size, b);
    var h2 := AddFree(h1, 0 - size);
    CarryOverKeeps(h1, h2, bk1);
    KeepsLiveThrough(h, h1, h2, bk, bk1);
    ChargeDelivers(h2, bk1, b);
    DeliversVia(h, bk, h2, bk1, Charge(h2, b.no, size), b);
  }

  /** The heap and the book between the pool hit and its accounting. */
  lemma TakenOf(h: Heap, bk: Book, i: nat, size: nat, b: Blk) returns (h1: Heap, bk1: Book)
    requires Inv(h, bk) && i < 3 && !h.mgr.heads[i].IsNull() && 1 <= size <= h.mgr.sizes[i] && size <= MAX_WORDS
    requires b == Blk(h.mgr.heads[i].no, h.mgr.heads[i].off / 2, size, LIVE)
    ensures HeadOk(h, i) && bk.lists[i] != []
    ensures h1 == PoolTake(h, i, size) && bk1 == BookTake(h.mgr.sizes, bk, i, b, size)
    ensures Struct(h1, bk1) && UsedOk(h1, bk1) && Placed(h1, b) && Vacant(bk1, b.no, b.off, size) && SameLive(bk, bk1)
    ensures h1.mgr == h.mgr.(heads := h1.mgr.heads)
    ensures Sum(Virgins(h1.chunks)) == Sum(Virgins(h.chunks)) && Sum(Caps(h1.chunks)) == Sum(Caps(h.chunks))
    ensures Words(Pool(bk1)) + bk1.lost + size == Words(Pool(bk)) + bk.lost && bk.lost <= bk1.lost
    ensures KeepsLive(h, h1, bk)
  {
    hide PoolTake;
    hide BookTake;
    PoolTakeKeeps(h, bk, i, size, b);
    h1, bk1 := PoolTake(h, i, size), BookTake(h.mgr.sizes, bk, i, b, size);
    FrameSums(h, h1, b.no, b.off, b.off + h.mgr.sizes[i]);
    forall k { SameLiveCounts(bk, bk1, k); }
    forall c: Blk | c in bk.blocks && c.tag == LIVE ensures Kept(h, h1, c) {
      PoolTakeApart(h, bk, i, size, b, c);
      KeptFrame(h, h1, b.no, b.off, h.mgr.sizes[i], c);
    }
  }

  /** A live block does not meet the block a pool hit takes. */
  lemma PoolTakeApart(h: Heap, bk: Book, i: nat, size: nat, b: Blk, c: Blk)
    requires Struct(h, bk) && i < 3 && !h.mgr.heads[i].IsNull()
    requires b == Blk(h.mgr.heads[i].no, h.mgr.heads[i].off / 2, size, LIVE)
    requires c in bk.blocks && c.tag == LIVE
    ensures Placed(h, c) && Disjoint(c, Blk(b.no, b.off, h.mgr.sizes[i], LIVE))
  {
    HeadOfList(h, bk, i);
    assert Disjoint(c, bk.lists[i][0]);
  }

  /** The invariant in the parts the composite proofs work with. */
  lemma InvParts(h: Heap, bk: Book)
    requires Inv(h, bk)
    ensures Struct(h, bk) && UsedOk(h, bk) && Shape(h) && |bk.lists| == 3
    ensures Sum(Caps(h.chunks)) == h.mgr.totalCap && Sum(Virgins(h.chunks)) == h.mgr.totalUsed + h.mgr.totalFree
    ensures h.mgr.totalFree == Words(Pool(bk)) + bk.lost
  {
  }

  // ---------- a bump of the last chunk, and a new chunk ----------

  lemma RaiseVirgin(h: Heap, bk: Book, no: nat, v: nat)
    requires Struct(h, bk) && no < |h.chunks| && h.chunks[no].virgin <= v <= WordsIn(h.chunks[no].cap)
    ensures var h1 := SetVirgin(h, no, v);
            && Struct(h1, bk) && (UsedOk(h, bk) ==> UsedOk(h1, bk))
            && Vacant(bk, no, h.chunks[no].virgin, v - h.chunks[no].virgin)
            && Sum(Useds(h1.chunks)) == Sum(Useds(h.chunks)) && Sum(Caps(h1.chunks)) == Sum(Caps(h.chunks))
            && Sum(Virgins(h1.chunks)) == Sum(Virgins(h.chunks)) + v - h.chunks[no].virgin
            && KeepsLive(h, h1, bk)
  {
    var h1 := SetVirgin(h, no, v);
    CarryOverKeeps(h, h1, bk);
    VacantAbove(h, bk, no, h.chunks[no].virgin, v - h.chunks[no].virgin);
    ChunkSums(h.chunks, no, h.chunks[no].(virgin := v));
  }

  lemma SameLiveSelf(bk: Book)
    ensures SameLive(bk, bk)
  {
  }

  lemma AllocBump(h: Heap, bk: Book, size: nat, b: Blk)
    requires Inv(h, bk) && 1 <= size <= MAX_WORDS && BumpFits(h, size)
    requires b == Blk(|h.chunks| - 1, h.chunks[|h.chunks| - 1].virgin, size, LIVE)
    ensures Delivers(h, bk, Bump(h, size), BookAdd(bk, b), size, b)
  {
    hide Inv;
    hide Struct;
    hide UsedOk;
    hide Vacant;
    hide KeepsLive;
    hide SameLive;
    InvParts(h, bk);
    assert Sane(h.chunks[b.no], b.no);
    RaiseVirgin(h, bk, b.no, b.off + size);
    var h1 := SetVirgin(h, b.no, b.off + size);
    ChargeDelivers(h1, bk, b);
    SameLiveSelf(bk);
    DeliversVia(h, bk, h1, bk, Charge(h1, b.no, size), b);
  }

  /** A new chunk joins with nothing in it but its header. */
  lemma AddChunkKeeps(h: Heap, bk: Book, at: Addr)
    requires Inv(h, bk) && |h.chunks| < NULL_NO
    ensures var h1 := AddChunk(h, at); Inv(h1, bk) && KeepsLive(h, h1, bk)
  {
    var n := |h.chunks|;
    var h1 := AddChunk(h, at);
    CarryOverKeeps(h, h1, bk);
    ChunkSumsAppend(h.chunks, NewChunk(n, HEADER, at));
    assert LiveIn(bk, n) == {} by { assert forall b :: b in bk.blocks ==> Placed(h, b); }
  }

  /** Carving a vacant range moves no counter and touches no live block. */
  lemma CarveQuiet(h: Heap, bk: Book, sizes: seq<nat>, no: nat, off: nat, left: nat)
    requires Struct(h, bk) && UsedOk(h, bk) && InChunk(h, no, off, left) && Vacant(bk, no, off, left)
               && sizes == h.mgr.sizes
    ensures Room(h, no, off, left) && SizesOk(sizes) && |bk.lists| == 3
    ensures var h', bk' := Carve(h, no, off, left), BookCarve(sizes, bk, no, off, left);
            && Struct(h', bk') && UsedOk(h', bk') && SameLive(bk, bk') && KeepsLive(h, h', bk)
            && OnlyWrote(h, h', no, off, off + left)
            && Sum(Virgins(h'.chunks)) == Sum(Virgins(h.chunks)) && Sum(Caps(h'.chunks)) == Sum(Caps(h.chunks))
            && Words(Pool(bk')) + bk'.lost == Words(Pool(bk)) + bk.lost + left
            && bk.lost <= bk'.lost < bk.lost + sizes[0]
  {
    hide Carve;
    hide BookCarve;
    CarveKeeps(h, bk, no, off, left);
    var h', bk' := Carve(h, no, off, left), BookCarve(sizes, bk, no, off, left);
    FrameSums(h, h', no, off, off + left);
    forall k { SameLiveCounts(bk, bk', k); }
    forall b: Blk | b in bk.blocks && b.tag == LIVE ensures Kept(h, h', b) {
      assert Placed(h, b);
      assert Disjoint(b, Blk(no, off, left, LIVE));
      KeptFrame(h, h', no, off, left, b);
    }
  }

  lemma DonateUnfold(h: Heap, bk: Book, no: nat, h1: Heap, v: nat, left: nat)
    requires h.mgr.Shaped() && no < |h.chunks| && no < NULL_NO && Sane(h.chunks[no], no) && |bk.lists| == 3
    requires v == h.chunks[no].virgin && left == WordsIn(h.chunks[no].cap) - v && h1 == SetVirgin(h, no, v + left)
    ensures Room(h1, no, v, left) && Donate(h, no) == AddFree(Carve(h1, no, v, left), left)
    ensures BookDonate(h, bk, no) == BookCarve(h1.mgr.sizes, bk, no, v, left)
  {
    hide Carve;
    hide BookCarve;
  }

  /** Adding carved words to the free total settles the counters. */
  lemma SettleFree(h: Heap, bk: Book, left: nat)
    requires Struct(h, bk) && UsedOk(h, bk) && Sum(Caps(h.chunks)) == h.mgr.totalCap
    requires Sum(Virgins(h.chunks)) == h.mgr.totalUsed + h.mgr.totalFree + left
    requires Words(Pool(bk)) + bk.lost == h.mgr.totalFree + left
    ensures Inv(AddFree(h, left), bk) && KeepsLive(h, AddFree(h, left), bk)
  {
    CarryOverKeeps(h, AddFree(h, left), bk);
  }

  /** Carving words that were not counted yet, and counting them as free, completes the invariant. */
  lemma CarveSettles(h: Heap, bk: Book, sizes: seq<nat>, no: nat, off: nat, left: nat)
    requires Struct(h, bk) && UsedOk(h, bk) && InChunk(h, no, off, left) && Vacant(bk, no, off, left)
               && sizes == h.mgr.sizes
    requires Sum(Caps(h.chunks)) == h.mgr.totalCap && Sum(Virgins(h.chunks)) == h.mgr.totalUsed + h.mgr.totalFree + left
    requires h.mgr.totalFree == Words(Pool(bk)) + bk.lost
    ensures Room(h, no, off, left) && SizesOk(sizes) && |bk.lists| == 3
    ensures var h', bk' := AddFree(Carve(h, no, off, left), left), BookCarve(sizes, bk, no, off, left);
            && Inv(h', bk') && SameLive(bk, bk') && bk.lost <= bk'.lost < bk.lost + sizes[0] && KeepsLive(h, h', bk)
            && |h'.chunks| == |h.chunks| && forall i :: 0 <= i < |h.chunks| && i != no ==> h'.chunks[i] == h.chunks[i]
  {
    hide Struct;
    hide UsedOk;
    hide Vacant;
    hide KeepsLive;
    hide SameLive;
    hide Carve;
    hide BookCarve;
    CarveQuiet(h, bk, sizes, no, off, left);
    var h2, bk2 := Carve(h, no, off, left), BookCarve(sizes, bk, no, off, left);
    SettleFree(h2, bk2, left);
    KeepsLiveThrough(h, h2, AddFree(h2, left), bk, bk2);
  }

  /** Donating the tail of a chunk moves its words from above the bump pointer to the free words. */
  lemma DonateKeeps(h: Heap, bk: Book, no: nat)
    requires Inv(h, bk) && no < |h.chunks|
    ensures var h', bk' := Donate(h, no), BookDonate(h, bk, no);
            && Inv(h', bk') && SameLive(bk, bk') && bk.lost <= bk'.lost < bk.lost + h.mgr.sizes[0]
               && KeepsLive(h, h', bk)
            && |h'.chunks| == |h.chunks| && forall i :: 0 <= i < |h.chunks| && i != no ==> h'.chunks[i] == h.chunks[i]
  {
    hide Inv;
    hide Struct;
    hide UsedOk;
    hide Vacant;
    hide KeepsLive;
    hide SameLive;
    hide Carve;
    hide BookCarve;
    InvParts(h, bk);
    assert Sane(h.chunks[no], no);
    var v, left := h.chunks[no].virgin, WordsIn(h.chunks[no].cap) - h.chunks[no].virgin;
    var h1 := SetVirgin(h, no, v + left);
    RaiseVirgin(h, bk, no, v + left);
    DonateUnfold(h, bk, no, h1, v, left);
    CarveSettles(h1, bk, h1.mgr.sizes, no, v, left);
    KeepsLiveThrough(h, h1, AddFree(Carve(h1, no, v, left), left), bk, bk);
  }

  lemma AllocGrow(h: Heap, bk: Book, size: nat, at: Addr, b: Blk)
    requires Inv(h, bk) && 1 <= size <= MAX_WORDS && |h.chunks| < NULL_NO
    requires b == Blk(|h.chunks|, HEADER, size, LIVE)
    ensures var n := |h.chunks|; var h1 := AddChunk(h, at);
            Delivers(h, bk, Bump(Donate(h1, n - 1), size), BookAdd(BookDonate(h1, bk, n - 1), b), size, b)
  {
    hide Inv;
    hide KeepsLive;
    hide SameLive;
    hide Donate;
    hide BookDonate;
    InvParts(h, bk);
    var n := |h.chunks|;
    var h2, bk2 := Grown(h, bk, at);
    InvParts(h2, bk2);
    AllocBump(h2, bk2, size, b);
    KeepsLiveThrough(h, h2, Bump(h2, size), bk, bk2);
  }

  lemma Grown(h: Heap, bk: Book, at: Addr) returns (h2: Heap, bk2: Book)
    requires Inv(h, bk) && |h.chunks| < NULL_NO
    ensures var n := |h.chunks|; var h1 := AddChunk(h, at);
            && h2 == Donate(h1, n - 1) && bk2 == BookDonate(h1, bk, n - 1)
            && Inv(h2, bk2) && SameLive(bk, bk2) && bk.lost <= bk2.lost && KeepsLive(h, h2, bk)
            && |h2.chunks| == n + 1 && h2.chunks[n] == NewChunk(n, HEADER, at)
  {
    var n := |h.chunks|;
    var h1 := AddChunk(h, at);
    AddChunkKeeps(h, bk, at);
    DonateKeeps(h1, bk, n - 1);
    h2, bk2 := Donate(h1, n - 1), BookDonate(h1, bk, n - 1);
    KeepsLiveThrough(h, h1, h2, bk, bk);
    assert h2.chunks[n] == h1.chunks[n];
  }

  /** Allocation delivers a fresh block or changes nothing, and it changes nothing exactly when no
      list, no room in the last chunk and no new chunk can serve. */
  lemma AllocKeeps(h: Heap, bk: Book, size: nat, at: Option<Addr>)
    requires Inv(h, bk) && 1 <= size <= MAX_WORDS
    ensures Shape(h) && HeadsOk(h) && |bk.lists| == 3
    ensures var (h', r) := Alloc(h, size, at);
            && (r.Some? ==> Delivers(h, bk, h', BookAlloc(h, bk, size, at), size, r.value))
            && (r.None? ==> h' == h && BookAlloc(h, bk, size, at) == bk)
            && (r.None? <==> (forall i :: 0 <= i < 3 ==> h.mgr.sizes[i] < size || bk.lists[i] == [])
                             && !BumpFits(h, size) && (|h.chunks| >= NULL_NO || at == None))
  {
    hide Inv;
    hide Struct;
    hide HeadsOk;
    hide Delivers;
    hide PoolTake;
    hide BookTake;
    hide Donate;
    hide BookDonate;
    InvParts(h, bk);
    HeadsOfLists(h, bk);
    forall i | 0 <= i < 3 ensures h.mgr.heads[i].IsNull() <==> bk.lists[i] == [] { HeadOfList(h, bk, i); }
    var i := FirstFit(h.mgr, size);
    var (h', r) := Alloc(h, size, at);
    if i < 3 {
      AllocPool(h, bk, i, size, r.value);
    } else if BumpFits(h, size) {
      AllocBump(h, bk, size, r.value);
    } else if r.Some? {
      AllocGrow(h, bk, size, at.value, r.value);
    }
  }

  // ---------- release ----------

  /** Zeroing a live block and striking it off the book leaves its words vacant. */
  lemma ZeroKeeps(h: Heap, bk: Book, b: Blk, z: Heap)
    requires Struct(h, bk) && b in bk.blocks && b.tag == LIVE && OnlyWrote(h, z, b.no, b.off, b.off + b.size)
    requires z.mgr == h.mgr
    ensures Struct(z, Without(bk, b)) && Vacant(Without(bk, b), b.no, b.off, b.size) && Placed(z, b)
    ensures KeepsLive(h, z, Without(bk, b))
  {
    var bk1 := Without(bk, b);
    assert Placed(h, b);
    WroteShape(h, z, b.no, b.off, b.off + b.size);
    GeometryFrame(h, z, bk, b.no, b.off, b.off + b.size);
    forall c | c in bk1.blocks ensures Disjoint(c, Blk(b.no, b.off, b.size, LIVE)) { assert Disjoint(c, b); }
    forall i, c | 0 <= i < 3 ensures c in bk1.lists[i] <==> c in bk1.blocks && c.tag == i {
      assert c in bk.lists[i] <==> c in bk.blocks && c.tag == i;
    }
    forall i | 0 <= i < 3 ensures Linked(z, z.mgr.heads[i], bk1.lists[i]) {
      var l := bk1.lists[i];
      forall j | 0 <= j < |l| ensures Disjoint(l[j], Blk(b.no, b.off, b.size, LIVE)) { assert l[j] in bk1.blocks; }
      LinkedFrame(h, z, b.no, b.off, b.size, h.mgr.heads[i], l);
    }
    forall c: Blk | c in bk1.blocks && c.tag == LIVE ensures Kept(h, z, c) {
      assert Placed(h, c) && Disjoint(c, Blk(b.no, b.off, b.size, LIVE));
      KeptFrame(h, z, b.no, b.off, b.size, c);
    }
  }

  /** Lowering the bump pointer over vacant words loses no block. */
  lemma LowerVirgin(h: Heap, bk: Book, no: nat, v: nat)
    requires Struct(h, bk) && no < |h.chunks| && Lo(no) <= v <= h.chunks[no].virgin
    requires Vacant(bk, no, v, h.chunks[no].virgin - v)
    ensures var h1 := SetVirgin(h, no, v);
            && Struct(h1, bk) && KeepsLive(h, h1, bk)
            && Sum(Useds(h1.chunks)) == Sum(Useds(h.chunks)) && Sum(Caps(h1.chunks)) == Sum(Caps(h.chunks))
            && Sum(Virgins(h1.chunks)) == Sum(Virgins(h.chunks)) + v - h.chunks[no].virgin
  {
    var h1 := SetVirgin(h, no, v);
    ChunkSums(h.chunks, no, h.chunks[no].(virgin := v));
    forall b | b in bk.blocks ensures Placed(h1, b) && Kept(h, h1, b) {
      assert Placed(h, b);
      assert Disjoint(b, Blk(no, v, h.chunks[no].virgin - v, LIVE));
    }
    forall i | 0 <= i < 3 ensures Linked(h1, h1.mgr.heads[i], bk.lists[i]) {
      forall j | 0 <= j < |bk.lists[i]| ensures Placed(h1, bk.lists[i][j]) && Kept(h, h1, bk.lists[i][j]) {
        assert bk.lists[i][j] in bk.blocks;
      }
      LinkedKept(h, h1, h.mgr.heads[i], bk.lists[i]);
    }
  }

  /** Taking a released block off its chunk's account. */
  lemma UnchargeUsed(h: Heap, bk: Book, bk': Book, b: Blk)
    requires UsedOk(h, bk) && b in bk.blocks && b.tag == LIVE && b.no < |h.chunks| && SameLive(Without(bk, b), bk')
    ensures var h' := Charge(h, b.no, 0 - b.size);
            && UsedOk(h', bk')
            && Sum(Virgins(h'.chunks)) == Sum(Virgins(h.chunks)) && Sum(Caps(h'.chunks)) == Sum(Caps(h.chunks))
  {
    hide SameLive;
    hide LiveIn;
    hide Words;
    hide Sum;
    ChunkSums(h.chunks, b.no, h.chunks[b.no].(used := h.chunks[b.no].used - b.size));
    forall i: nat ensures Words(LiveIn(bk', i)) == Words(LiveIn(bk, i)) - (if i == b.no then b.size else 0) {
      LiveTaken(bk, bk', b, i);
    }
  }

  lemma LiveTaken(bk: Book, bk': Book, b: Blk, i: nat)
    requires b in bk.blocks && b.tag == LIVE && SameLive(Without(bk, b), bk')
    ensures Words(LiveIn(bk', i)) == Words(LiveIn(bk, i)) - (if i == b.no then b.size else 0)
  {
    if i == b.no {
      assert LiveIn(bk', i) == LiveIn(bk, i) - {b};
      WordsRemove(LiveIn(bk, i), b);
    } else {
      assert LiveIn(bk', i) == LiveIn(bk, i);
    }
  }

  /** The last step of a release: the block's words are gone from the blocks, its chunk still pays. */
  lemma UnchargeSettles(h: Heap, bk: Book, bk': Book, b: Blk)
    requires Struct(h, bk') && UsedOk(h, bk) && b in bk.blocks && b.tag == LIVE && b.no < |h.chunks|
    requires SameLive(Without(bk, b), bk') && Sum(Caps(h.chunks)) == h.mgr.totalCap
    requires Sum(Virgins(h.chunks)) + b.size == h.mgr.totalUsed + h.mgr.totalFree
    requires h.mgr.totalFree == Words(Pool(bk')) + bk'.lost
    ensures Inv(Charge(h, b.no, 0 - b.size), bk') && KeepsLive(h, Charge(h, b.no, 0 - b.size), bk')
  {
    hide Geometry;
    hide Chained;
    hide UsedOk;
    hide Words;
    hide Sum;
    UnchargeUsed(h, bk, bk', b);
    CarryOverKeeps(h, Charge(h, b.no, 0 - b.size), bk');
  }

  lemma ZeroedWrites(h: Heap, b: Blk)
    requires b.no < |h.chunks| && 2 * (b.off + b.size) <= |h.chunks[b.no].cells|
    ensures OnlyWrote(h, Zeroed(h, b), b.no, b.off, b.off + b.size) && Zeroed(h, b).mgr == h.mgr
  {
  }

  /** What a release must do: the block is gone, everything else that was live is as it was. */
  ghost predicate Releases(h: Heap, bk: Book, h': Heap, bk': Book, b: Blk) {
    && Inv(h', bk') && bk.lost <= bk'.lost < bk.lost + h'.mgr.sizes[0]
    && SameLive(Without(bk, b), bk') && KeepsLive(h, h', Without(bk, b))
  }

  /** After zeroing, the block is off the book but its chunk still pays for it. */
  lemma ZeroStep(h: Heap, bk: Book, b: Blk, z: Heap)
    requires Inv(h, bk) && b in bk.blocks && b.tag == LIVE && OnlyWrote(h, z, b.no, b.off, b.off + b.size)
    requires z.mgr == h.mgr
    ensures var bk1 := Without(bk, b);
            && Struct(z, bk1) && Vacant(bk1, b.no, b.off, b.size) && Placed(z, b) && KeepsLive(h, z, bk1)
            && UsedOk(z, bk) && SameLive(bk1, bk1)
            && Sum(Caps(z.chunks)) == z.mgr.totalCap && Sum(Virgins(z.chunks)) == z.mgr.totalUsed + z.mgr.totalFree
            && z.mgr.totalFree == Words(Pool(bk1)) + bk1.lost
  {
    ZeroKeeps(h, bk, b, z);
    FrameSums(h, z, b.no, b.off, b.off + b.size);
    UsedSame(h, z, bk);
    assert Pool(Without(bk, b)) == Pool(bk);
  }

  /** Release of the topmost block of its chunk. */
  lemma FreeTop(h: Heap, bk: Book, b: Blk, z: Heap)
    requires Inv(h, bk) && b in bk.blocks && b.tag == LIVE && OnlyWrote(h, z, b.no, b.off, b.off + b.size)
    requires z.mgr == h.mgr && b.off + b.size == h.chunks[b.no].virgin
    ensures Releases(h, bk, Charge(SetVirgin(z, b.no, b.off), b.no, 0 - b.size), Without(bk, b), b)
  {
    hide Inv;
    hide UsedOk;
    hide Struct;
    hide Vacant;
    hide KeepsLive;
    hide SameLive;
    var bk1 := Without(bk, b);
    InvParts(h, bk);
    ZeroStep(h, bk, b, z);
    var f := SetVirgin(z, b.no, b.off);
    LowerVirgin(z, bk1, b.no, b.off);
    UsedSame(z, f, bk);
    UnchargeSettles(f, bk, bk1, b);
    KeepsLiveThrough(h, z, f, bk1, bk1);
    KeepsLiveThrough(h, f, Charge(f, b.no, 0 - b.size), bk1, bk1);
  }

  lemma UsedSame(h: Heap, h': Heap, bk: Book)
    requires UsedOk(h, bk) && |h'.chunks| == |h.chunks| && h'.mgr.totalUsed == h.mgr.totalUsed
    requires forall i :: 0 <= i < |h.chunks| ==> h'.chunks[i].used == h.chunks[i].used
    ensures UsedOk(h', bk)
  {
    assert Useds(h'.chunks) == Useds(h.chunks);
  }

  /** Release of a block below the bump pointer: it is carved into the free lists. */
  lemma FreeCarved(h: Heap, bk: Book, b: Blk, z: Heap)
    requires Inv(h, bk) && b in bk.blocks && b.tag == LIVE && OnlyWrote(h, z, b.no, b.off, b.off + b.size)
    requires z.mgr == h.mgr
    ensures Room(AddFree(z, b.size), b.no, b.off, b.size) && SizesOk(h.mgr.sizes) && |bk.lists| == 3
    ensures Releases(h, bk, Charge(Carve(AddFree(z, b.size), b.no, b.off, b.size), b.no, 0 - b.size),
                     BookCarve(h.mgr.sizes, Without(bk, b), b.no, b.off, b.size), b)
  {
    hide Inv;
    hide UsedOk;
    hide Struct;
    hide Vacant;
    hide KeepsLive;
    hide SameLive;
    hide Carve;
    hide BookCarve;
    var bk1 := Without(bk, b);
    InvParts(h, bk);
    ZeroStep(h, bk, b, z);
    var y := AddFree(z, b.size);
    WroteShape(h, z, b.no, b.off, b.off + b.size);
    CarryOverKeeps(z, y, bk1);
    UsedSame(z, y, bk);
    KeptAll(z, y, bk1);
    assert InChunk(y, b.no, b.off, b.size);
    CarveFree(y, bk, bk1, h.mgr.sizes, b);
    var f, bk2 := Carve(y, b.no, b.off, b.size), BookCarve(h.mgr.sizes, bk1, b.no, b.off, b.size);
    UnchargeSettles(f, bk, bk2, b);
    KeepsLiveThrough(h, z, y, bk1, bk1);
    KeepsLiveThrough(h, y, f, bk1, bk1);
    KeepsLiveThrough(h, f, Charge(f, b.no, 0 - b.size), bk1, bk2);
  }

  lemma KeptAll(h: Heap, h': Heap, bk: Book)
    requires forall b :: b in bk.blocks ==> Kept(h, h', b)
    ensures KeepsLive(h, h', bk)
  {
  }

  /** Carving the released block; `bk` is the book its chunk still pays by. */
  lemma CarveFree(h: Heap, bk: Book, bk1: Book, sizes: seq<nat>, b: Blk)
    requires Struct(h, bk1) && UsedOk(h, bk) && InChunk(h, b.no, b.off, b.size) && sizes == h.mgr.sizes
    requires Vacant(bk1, b.no, b.off, b.size)
    ensures Room(h, b.no, b.off, b.size) && SizesOk(sizes) && |bk1.lists| == 3
    ensures var h', bk2 := Carve(h, b.no, b.off, b.size), BookCarve(sizes, bk1, b.no, b.off, b.size);
            && Struct(h', bk2) && UsedOk(h', bk) && SameLive(bk1, bk2) && KeepsLive(h, h', bk1)
            && |h'.chunks| == |h.chunks| && h'.mgr == h.mgr.(heads := h'.mgr.heads)
            && Sum(Virgins(h'.chunks)) == Sum(Virgins(h.chunks)) && Sum(Caps(h'.chunks)) == Sum(Caps(h.chunks))
            && Words(Pool(bk2)) + bk2.lost == Words(Pool(bk1)) + bk1.lost + b.size
            && bk1.lost <= bk2.lost < bk1.lost + sizes[0]
  {
    hide Carve;
    hide BookCarve;
    CarveKeeps(h, bk1, b.no, b.off, b.size);
    var h' := Carve(h, b.no, b.off, b.size);
    FrameSums(h, h', b.no, b.off, b.off + b.size);
    UsedSame(h, h', bk);
    CarveKeepsLive(h, h', bk1, b);
  }

  lemma CarveKeepsLive(h: Heap, h': Heap, bk: Book, b: Blk)
    requires Struct(h, bk) && OnlyWrote(h, h', b.no, b.off, b.off + b.size) && Vacant(bk, b.no, b.off, b.size)
    ensures KeepsLive(h, h', bk)
  {
    forall c: Blk | c in bk.blocks && c.tag == LIVE ensures Kept(h, h', c) {
      assert Placed(h, c);
      assert Disjoint(c, Blk(b.no, b.off, b.size, LIVE));
      KeptFrame(h, h', b.no, b.off, b.size, c);
    }
  }

  lemma LiveFacts(h: Heap, bk: Book, b: Blk)
    requires Inv(h, bk) && b in bk.blocks
    ensures Shape(h) && |bk.lists| == 3 && Placed(h, b) && Room(h, b.no, b.off, b.size)
  {
    assert Placed(h, b);
    assert Sane(h.chunks[b.no], b.no);
  }

  /** Releasing a live block, topmost or not, keeps the invariant and every other live block. */
  lemma FreeKeeps(h: Heap, bk: Book, b: Blk)
    requires Inv(h, bk) && b in bk.blocks && b.tag == LIVE
    ensures Shape(h) && |bk.lists| == 3 && Placed(h, b) && Room(h, b.no, b.off, b.size)
    ensures Releases(h, bk, Free(h, b), BookFree(h, bk, b), b)
  {
    hide Inv;
    hide Releases;
    hide Carve;
    hide BookCarve;
    LiveFacts(h, bk, b);
    ZeroedWrites(h, b);
    if b.off + b.size == h.chunks[b.no].virgin {
      FreeTop(h, bk, b, Zeroed(h, b));
    } else {
      FreeCarved(h, bk, b, Zeroed(h, b));
    }
  }

  // ---------- a block in two ----------

  function Front(b: Blk, k: nat): Blk {
    b.(size := k)
  }

  function Rest(b: Blk, k: nat): Blk
    requires k <= b.size
  {
    Blk(b.no, b.off + k, b.size - k, b.tag)
  }

  /** The book in which block `b` counts as two, the first of `k` words. */
  ghost function Cut(bk: Book, b: Blk, k: nat): (r: Book)
    requires k <= b.size
    ensures r.lists == bk.lists && r.lost == bk.lost
  {
    if k == b.size then bk else bk.(blocks := bk.blocks - {b} + {Front(b, k), Rest(b, k)})
  }

  /** The pieces take up the words of the block, and nothing else does. */
  lemma CutApart(h: Heap, bk: Book, b: Blk, k: nat)
    requires Shape(h) && Geometry(h, bk) && b in bk.blocks && b.tag == LIVE && 1 <= k < b.size
    ensures Geometry(h, Cut(bk, b, k)) && Front(b, k) !in bk.blocks && Rest(b, k) !in bk.blocks
  {
    var f, r := Front(b, k), Rest(b, k);
    forall c | c in bk.blocks && c != b ensures Disjoint(c, f) && Disjoint(f, c) && Disjoint(c, r) && Disjoint(r, c) {
      assert Disjoint(c, b);
    }
    assert Placed(h, b);
    assert !Disjoint(f, f) && !Disjoint(r, r);
  }

  lemma CutWords(bk: Book, b: Blk, k: nat, no: nat)
    requires b in bk.blocks && b.tag == LIVE && 1 <= k < b.size && Front(b, k) !in bk.blocks && Rest(b, k) !in bk.blocks
    ensures Words(LiveIn(Cut(bk, b, k), no)) == Words(LiveIn(bk, no)) && Pool(Cut(bk, b, k)) == Pool(bk)
  {
    var s, f, r := LiveIn(bk, no), Front(b, k), Rest(b, k);
    if b.no == no {
      assert LiveIn(Cut(bk, b, k), no) == s - {b} + {f} + {r};
      WordsRemove(s, b);
      WordsAdd(s - {b}, f);
      WordsAdd(s - {b} + {f}, r);
    } else {
      assert LiveIn(Cut(bk, b, k), no) == s;
    }
  }

  lemma CutStruct(h: Heap, bk: Book, b: Blk, k: nat)
    requires Struct(h, bk) && b in bk.blocks && b.tag == LIVE && 1 <= k < b.size
    ensures Struct(h, Cut(bk, b, k)) && Front(b, k) !in bk.blocks && Rest(b, k) !in bk.blocks
  {
    CutApart(h, bk, b, k);
    hide Geometry;
    hide Linked;
  }

  lemma CutCounted(h: Heap, bk: Book, b: Blk, k: nat)
    requires Counted(h, bk) && b in bk.blocks && b.tag == LIVE && 1 <= k < b.size
    requires Front(b, k) !in bk.blocks && Rest(b, k) !in bk.blocks
    ensures Counted(h, Cut(bk, b, k))
  {
    hide Words;
    hide Sum;
    hide LiveIn;
    hide Pool;
    hide Cut;
    forall i: nat { CutWords(bk, b, k, i); }
    CutWords(bk, b, k, 0);
  }

  lemma CutBlocks(bk: Book, b: Blk, k: nat)
    requires b in bk.blocks && b.tag == LIVE && 1 <= k <= b.size
    requires k < b.size ==> Front(b, k) !in bk.blocks && Rest(b, k) !in bk.blocks
    ensures Front(b, k) in Cut(bk, b, k).blocks
    ensures forall c: Blk :: c.tag == LIVE ==>
              (c in Cut(bk, b, k).blocks
               <==> (c in bk.blocks && c != b) || c == Front(b, k) || (k < b.size && c == Rest(b, k)))
  {
  }

  /** Counting a live block as two keeps the invariant: nothing in memory tells them apart. */
  lemma CutKeeps(h: Heap, bk: Book, b: Blk, k: nat)
    requires Inv(h, bk) && b in bk.blocks && b.tag == LIVE && 1 <= k <= b.size
    ensures Inv(h, Cut(bk, b, k)) && Front(b, k) in Cut(bk, b, k).blocks
    ensures forall c: Blk :: c.tag == LIVE ==>
              (c in Cut(bk, b, k).blocks
               <==> (c in bk.blocks && c != b) || c == Front(b, k) || (k < b.size && c == Rest(b, k)))
  {
    hide Struct;
    hide Counted;
    if k < b.size {
      CutStruct(h, bk, b, k);
      CutCounted(h, bk, b, k);
    }
    CutBlocks(bk, b, k);
  }
}
