/**
  The chunk index of chk/chk_base.cpp as an object.  Every operation is tied to the function that
  specifies it, and with it to the invariant and the run theorems.
 */
module ChkIndex {
  import opened ChkBase
  import opened ChkHeap
  import opened ChkAlloc
  import opened ChkImage
  import opened ChkIndexSpec
  import opened ChkOwnership
  import opened ChkOperations
  import opened ChkRuns
  import opened ChkExact
  import opened ChkMemory
  import opened ChkMemMgr
  import opened ChkSource

  // ---------- steps on the chunks and the manager ----------

  lemma FitAll(tail: seq<Cell>)
    ensures Fit(tail, |tail|) == tail
  {
  }

  /** Adds to the manager's total capacity. */
  method CountCap(cs: seq<ChkMetadata>, mgr: ChkMemMgr, cap: int)
    requires Wired(cs)
    modifies mgr
    ensures Wired(cs)
    ensures var h := old(mgr.HeapOf(cs)); mgr.HeapOf(cs) == Heap(h.chunks, h.mgr.(totalCap := h.mgr.totalCap + cap))
  {
    hide Wired;
    hide Chunks;
    hide ChkMemMgr.State;
    ghost var ds := Chunks(cs);
    mgr.Count(0, 0, cap);
    assert Chunks(cs) == ds;
  }

  /** The last chunk brought to full size, if the system lets it. */
  method EnlargeLastOf(sys: ChkSystem, cs: seq<ChkMetadata>, mgr: ChkMemMgr, grant: bool, ghost repr: set<object>)
    returns (cs': seq<ChkMetadata>, rc: int, ghost tail: seq<Cell>, ghost repr': set<object>)
    requires Wired(cs) && InRepr(cs, repr) && (sys.pooled ==> OwnBlocks(cs)) && cs != [] && cs[|cs| - 1].MayGrow()
    modifies sys, mgr, cs[|cs| - 1]
    ensures Wired(cs') && InRepr(cs', repr') && (sys.pooled ==> OwnBlocks(cs')) && repr <= repr' && fresh(repr' - repr)
    ensures |cs'| == |cs| && rc == if grant || sys.pooled then 0 else -1
    ensures rc != 0 ==> mgr.HeapOf(cs') == old(mgr.HeapOf(cs)) && sys.ledger == old(sys.ledger)
    ensures rc == 0 ==>
              var h := old(mgr.HeapOf(cs)); var (s, at) := Moved(sys.pooled, old(sys.ledger), Last(h).at);
              && |tail| == CellsIn(MAX_CAP - Last(h).cap) && (!sys.pooled ==> tail == Zeros(|tail|))
                 && Fit(tail, |tail|) == tail
              && sys.ledger == s && mgr.HeapOf(cs') == SetLast(h, EnlargeChunk(Last(h), at, tail))
  {
    hide Wired;
    hide ChkMemMgr.State;
    hide Zeros;
    hide Chunks;
    hide InRepr;
    hide OwnBlocks;
    hide Moved;
    hide Fit;
    hide EnlargeChunk;
    hide SetLast;
    WiredAt(cs, |cs| - 1);
    ghost var h := mgr.HeapOf(cs);
    ghost var at := Moved(sys.pooled, sys.ledger, Last(h).at).1;
    var gained: Option<int>;
    cs', gained, tail, repr' := EnlargeIn(sys, cs, |cs| - 1, grant, repr);
    assert mgr.State() == h.mgr;
    GrownTotal(h, |cs| - 1, at, tail);
    if gained.None? {
      rc := -1;
    } else {
      FitAll(tail);
      CountCap(cs', mgr, gained.value);
      rc := 0;
    }
  }

  /** One more chunk, counted by the manager. */
  method AddOneOf(sys: ChkSystem, cs: seq<ChkMetadata>, mgr: ChkMemMgr, ghost repr: set<object>)
    returns (cs': seq<ChkMetadata>, ghost repr': set<object>)
    requires Wired(cs) && InRepr(cs, repr) && (sys.pooled ==> OwnBlocks(cs)) && cs != []
    modifies sys, mgr
    ensures Wired(cs') && InRepr(cs', repr') && (sys.pooled ==> OwnBlocks(cs')) && repr <= repr' && fresh(repr' - repr)
    ensures |cs'| == |cs| + 1 && sys.ledger == Obtain(old(sys.ledger), ChunkBlock)
    ensures mgr.HeapOf(cs') == AddChunk(old(mgr.HeapOf(cs)), Addr(old(sys.ledger).next, 0))
  {
    hide Wired;
    hide Chunks;
    hide InRepr;
    hide OwnBlocks;
    cs', repr' := AppendTo(sys, cs, repr);
    WiredAt(cs', |cs|);
    mgr.Count(cs'[|cs|].used, 0, cs'[|cs|].cap);
  }

  /** Enlarging the last chunk adds what it gains to the total. */
  lemma GrownTotal(h: Heap, n: nat, at: Addr, tail: seq<Cell>)
    requires |h.chunks| == n + 1
    ensures var c := EnlargeChunk(h.chunks[n], at, tail);
            SetLast(h, c) == Heap(h.chunks[n := c], h.mgr.(totalCap := h.mgr.totalCap + (MAX_CAP - h.chunks[n].cap)))
  {
  }

  lemma EnlargeLastIs(env: Env, ix: Index, grant: bool, tail: seq<Cell>, h: Heap, s: Sys, rc: int)
    requires ix.heap.chunks != [] && CanEnlarge(Last(ix.heap)) && rc == if grant || env.pooled then 0 else -1
    requires rc != 0 ==> h == ix.heap && s == ix.sys
    requires rc == 0 ==>
               var (s', at) := Moved(env.pooled, ix.sys, Last(ix.heap).at);
               && |tail| == CellsIn(MAX_CAP - Last(ix.heap).cap) && (!env.pooled ==> tail == Zeros(|tail|))
               && Fit(tail, |tail|) == tail && s == s' && h == SetLast(ix.heap, EnlargeChunk(Last(ix.heap), at, tail))
    ensures (ix.(heap := h, sys := s), rc) == EnlargeLast(env, ix, grant, tail)
  {
    hide EnlargeChunk;
    hide SetLast;
    hide Moved;
    hide Fit;
  }

  /** Charges words to a chunk and to the manager's total. */
  method ChargeOf(cs: seq<ChkMetadata>, mgr: ChkMemMgr, no: nat, size: int)
    requires Wired(cs) && no < |cs|
    modifies mgr, cs[no]
    ensures Wired(cs) && mgr.HeapOf(cs) == Charge(old(mgr.HeapOf(cs)), no, size)
  {
    hide Wired;
    hide Chunks;
    hide Mems;
    ghost var h := mgr.HeapOf(cs);
    ChargeIn(cs, no, size);
    mgr.Count(size, 0, 0);
    assert Chunks(cs) == h.chunks[no := h.chunks[no].(used := h.chunks[no].used + size)];
  }

  /** Carves a range into the free lists, and adds it to the free count. */
  method CarveOf(cs: seq<ChkMetadata>, mgr: ChkMemMgr, p: Ptr)
    requires Wired(cs) && p.off % 2 == 0 && Room(mgr.HeapOf(cs), p.no, p.off / 2, p.size)
    modifies mgr, cs[p.no].mem
    ensures Wired(cs)
    ensures mgr.HeapOf(cs) == AddFree(Carve(old(mgr.HeapOf(cs)), p.no, p.off / 2, p.size), p.size)
  {
    hide Wired;
    hide Chunks;
    hide Carve;
    hide Room;
    hide ChkMemMgr.State;
    mgr.Free(cs, p);
    ghost var ds := Chunks(cs);
    mgr.Count(0, p.size, 0);
    assert Chunks(cs) == ds;
  }

  /** Gives what is left of a chunk to the free lists. */
  method DonateOf(cs: seq<ChkMetadata>, mgr: ChkMemMgr, no: nat)
    requires Wired(cs) && mgr.State().Shaped() && no < |cs| && no < NULL_NO && Sane(Chunks(cs)[no], no)
    requires WordsIn(Chunks(cs)[no].cap) - Chunks(cs)[no].virgin <= MAX_WORDS
    modifies mgr, cs[no], cs[no].mem
    ensures Wired(cs) && mgr.HeapOf(cs) == Donate(old(mgr.HeapOf(cs)), no)
  {
    hide Wired;
    hide Chunks;
    hide Carve;
    hide Donate;
    WiredAt(cs, no);
    ghost var h := mgr.HeapOf(cs);
    var v := cs[no].virgin;
    var rest := 1024 * cs[no].cap - 8 * v;
    DonateRoom(h, no);
    if rest > 0 {
      var p := AllocIn(cs, no, rest);
      ghost var full := WordsIn(h.chunks[no].cap);
      assert mgr.HeapOf(cs) == SetVirgin(h, no, full);
      assert rest / 8 == full - v && p == Ptr(no, 2 * v, full - v);
      CarveOf(cs, mgr, p);
    }
  }

  lemma DonateRoom(h: Heap, no: nat)
    requires h.mgr.Shaped() && no < |h.chunks| && no < NULL_NO && Sane(h.chunks[no], no)
    ensures var c := h.chunks[no]; var full := WordsIn(c.cap);
            && Room(SetVirgin(h, no, full), no, c.virgin, full - c.virgin)
            && Donate(h, no) == AddFree(Carve(SetVirgin(h, no, full), no, c.virgin, full - c.virgin), full - c.virgin)
    ensures WordsIn(h.chunks[no].cap) == h.chunks[no].virgin ==> Donate(h, no) == h
  {
    var c := h.chunks[no];
    if WordsIn(c.cap) == c.virgin { assert h.chunks[no := c.(virgin := c.virgin)] == h.chunks; }
  }

  /** A block from the free lists, taken out of the free count. */
  method PoolAllocOf(cs: seq<ChkMetadata>, mgr: ChkMemMgr, words: nat) returns (p: Ptr)
    requires Wired(cs) && mgr.State().Shaped() && HeadsOk(mgr.HeapOf(cs))
    modifies mgr, Mems(cs)
    ensures Wired(cs)
    ensures var h := old(mgr.HeapOf(cs)); var i := FirstFit(h.mgr, words);
            if i < 3 then mgr.HeapOf(cs) == AddFree(PoolTake(h, i, words), 0 - words)
                          && p == Ptr(h.mgr.heads[i].no, h.mgr.heads[i].off, words) && p.no < |cs| && !p.IsNull()
            else mgr.HeapOf(cs) == h && p == CHK_NULL
  {
    hide Wired;
    hide Chunks;
    hide PoolTake;
    p := mgr.Alloc(cs, words);
    if !p.IsNull() {
      mgr.Count(0, 0 - words, 0);
    }
  }

  /** The index when the last chunk, or a new one after it, has been bumped for `words` words that are
      not charged yet. */
  ghost function Bumped(ix: Index, words: nat, grant: bool): Index
    requires Usable(ix.heap)
  {
    var h, n := ix.heap, |ix.heap.chunks|;
    if BumpFits(h, words) then ix.(heap := SetVirgin(h, n - 1, h.chunks[n - 1].virgin + words))
    else
      var (ix1, rc) := AddOne(ix, grant);
      if rc < 0 then ix1
      else
        assert Sane(ix1.heap.chunks[n - 1], n - 1);
        ix1.(heap := SetVirgin(Donate(ix1.heap, n - 1), n, HEADER + words))
  }

  /** Where the bumped words start. */
  function BumpedPtr(ix: Index, words: nat, grant: bool): Ptr
    requires ix.heap.chunks != []
  {
    var h, n := ix.heap, |ix.heap.chunks|;
    if BumpFits(h, words) then Ptr(n - 1, 2 * h.chunks[n - 1].virgin, words)
    else if n < NULL_NO && grant then Ptr(n, 2 * HEADER, words)
    else CHK_NULL
  }

  /** A new chunk has room for any allocation. */
  lemma GrownHasRoom(ix: Index, words: nat, grant: bool)
    requires Usable(ix.heap) && words <= MAX_WORDS && !BumpFits(ix.heap, words)
    ensures var (ix1, rc) := AddOne(ix, grant);
            && (rc == 0 || rc == -1)
            && (rc != 0 ==>
                  ix1.heap == ix.heap && Bumped(ix, words, grant) == ix1 && BumpedPtr(ix, words, grant) == CHK_NULL)
            && (rc == 0 ==> BumpedPtr(ix, words, grant) == Ptr(|ix.heap.chunks|, 2 * HEADER, words))
    ensures var (ix1, rc) := AddOne(ix, grant); var n := |ix.heap.chunks|;
            rc == 0 ==>
              && n < NULL_NO && ix1.heap.mgr.Shaped() && |ix1.heap.chunks| == n + 1
                 && Sane(ix1.heap.chunks[n - 1], n - 1)
              && WordsIn(ix1.heap.chunks[n - 1].cap) - ix1.heap.chunks[n - 1].virgin <= MAX_WORDS
              && var h := Donate(ix1.heap, n - 1);
                 |h.chunks| == n + 1 && h.chunks[n] == NewChunk(n, HEADER, Addr(ix.sys.next, 0))
                 && Bumped(ix, words, grant) == ix1.(heap := SetVirgin(h, n, HEADER + words))
  {
    hide Carve;
    hide HeadsOk;
    var n := |ix.heap.chunks|;
    assert Sane(ix.heap.chunks[n - 1], n - 1);
    var (ix1, rc) := AddOne(ix, grant);
    if rc == 0 {
      var c := ix.heap.chunks[n - 1];
      var h1 := SetVirgin(ix1.heap, n - 1, WordsIn(c.cap));
      DonateRoom(ix1.heap, n - 1);
      CarveWrites(h1, n - 1, c.virgin, WordsIn(c.cap) - c.virgin,
          Carve(h1, n - 1, c.virgin, WordsIn(c.cap) - c.virgin));
    }
  }

  /** What `alloc` does when the free lists cannot serve: bump, then charge. */
  lemma BumpedCharged(ix: Index, words: nat, grant: bool)
    requires Usable(ix.heap) && words <= MAX_WORDS && FirstFit(ix.heap.mgr, words) == 3
    ensures var (ix', r) := AllocChunked(ix, words, grant);
            var ix1, p := Bumped(ix, words, grant), BumpedPtr(ix, words, grant);
            if p.IsNull() then ix' == ix1 && r == None
            else
              && p.no < |ix1.heap.chunks| && ix' == ix1.(heap := Charge(ix1.heap, p.no, words))
              && r.Some? && p == HandleOf(r.value)
  {
    hide Donate;
    hide HeadsOk;
    assert Sane(ix.heap.chunks[|ix.heap.chunks| - 1], |ix.heap.chunks| - 1);
    if !BumpFits(ix.heap, words) { GrownHasRoom(ix, words, grant); }
  }

  /** The tail of the chunk before the last goes to the free lists, and the last chunk is bumped. */
  method DonateAndBump(cs: seq<ChkMetadata>, mgr: ChkMemMgr, no: nat, words: nat) returns (p: Ptr)
    requires Wired(cs) && mgr.State().Shaped() && no + 2 == |cs| && no < NULL_NO && Sane(Chunks(cs)[no], no)
    requires WordsIn(Chunks(cs)[no].cap) - Chunks(cs)[no].virgin <= MAX_WORDS && words <= MAX_WORDS
    requires var c := Donate(mgr.HeapOf(cs), no).chunks[no + 1]; c.no == no + 1 && c.virgin + words <= WordsIn(c.cap)
    modifies mgr, cs[no], cs[no].mem, cs[no + 1]
    ensures var h := Donate(old(mgr.HeapOf(cs)), no); var v := h.chunks[no + 1].virgin;
            Wired(cs) && mgr.HeapOf(cs) == SetVirgin(h, no + 1, v + words) && p == Ptr(no + 1, 2 * v, words)
  {
    hide Donate;
    hide Wired;
    hide Chunks;
    hide ChkMemMgr.State;
    ghost var was := mgr.HeapOf(cs);
    DonateOf(cs, mgr, no);
    assert mgr.HeapOf(cs) == Donate(was, no);
    p := AllocIn(cs, no + 1, 8 * words);
  }

  /** `ChkMetadata::free`, and when that fails `ChkMemMgr::free`. */
  method LowerOrFeed(cs: seq<ChkMetadata>, mgr: ChkMemMgr, p: Ptr)
    requires Wired(cs) && p.off % 2 == 0 && p.size != 0 && Room(mgr.HeapOf(cs), p.no, p.off / 2, p.size)
    requires Chunks(cs)[p.no].no == p.no
    modifies mgr, cs[p.no], cs[p.no].mem
    ensures Wired(cs)
    ensures var h := old(mgr.HeapOf(cs)); var off := p.off / 2;
            mgr.HeapOf(cs) == if off + p.size == h.chunks[p.no].virgin then SetVirgin(h, p.no, off)
                              else Carve(AddFree(h, p.size), p.no, off, p.size)
  {
    hide Wired;
    hide Chunks;
    hide Carve;
    WiredAt(cs, p.no);
    ghost var h := mgr.HeapOf(cs);
    var taken := FreeIn(cs, p.no, p);
    if !taken {
      mgr.Count(0, p.size, 0);
      assert mgr.HeapOf(cs) == AddFree(h, p.size);
      mgr.Free(cs, p);
    }
  }

  lemma ZeroIs(h: Heap, b: Blk)
    requires Room(h, b.no, b.off, b.size)
    ensures Zeroed(h, b) == SetCells(h, b.no, ZeroRange(h.chunks[b.no].cells, 2 * b.off, 2 * (b.off + b.size)))
    ensures Room(Zeroed(h, b), b.no, b.off, b.size) && Zeroed(h, b).chunks[b.no].no == h.chunks[b.no].no
    ensures Zeroed(h, b).chunks[b.no].virgin == h.chunks[b.no].virgin
  {
  }

  /** `free` of a block that is zeroed already. */
  method ReleaseZeroed(cs: seq<ChkMetadata>, mgr: ChkMemMgr, p: Ptr)
    requires Wired(cs) && p.off % 2 == 0 && p.size != 0 && Room(mgr.HeapOf(cs), p.no, p.off / 2, p.size)
    requires Chunks(cs)[p.no].no == p.no
    modifies mgr, cs[p.no], cs[p.no].mem
    ensures Wired(cs)
    ensures var h := old(mgr.HeapOf(cs)); var off := p.off / 2;
            mgr.HeapOf(cs) == Charge(if off + p.size == h.chunks[p.no].virgin then SetVirgin(h, p.no, off)
                                     else Carve(AddFree(h, p.size), p.no, off, p.size), p.no, 0 - p.size)
  {
    hide Wired;
    hide Chunks;
    hide Carve;
    LowerOrFeed(cs, mgr, p);
    ChargeOf(cs, mgr, p.no, 0 - p.size);
  }

  /** `free` on the chunks and the manager: zeroes the block, then lowers the bump pointer or feeds the
      free lists. */
  method ReleaseOf(cs: seq<ChkMetadata>, mgr: ChkMemMgr, p: Ptr)
    requires Wired(cs) && p.off % 2 == 0 && p.size != 0 && Room(mgr.HeapOf(cs), p.no, p.off / 2, p.size)
    requires Chunks(cs)[p.no].no == p.no
    modifies mgr, cs[p.no], cs[p.no].mem
    ensures Wired(cs) && mgr.HeapOf(cs) == Free(old(mgr.HeapOf(cs)), Blk(p.no, p.off / 2, p.size, LIVE))
  {
    hide Wired;
    hide Chunks;
    hide Carve;
    hide Zeroed;
    ghost var h, b := mgr.HeapOf(cs), Blk(p.no, p.off / 2, p.size, LIVE);
    WiredAt(cs, p.no);
    ZeroIs(h, b);
    ZeroCells(cs, p.no, p.off, p.off + 2 * p.size);
    assert mgr.HeapOf(cs) == Zeroed(h, b);
    ReleaseZeroed(cs, mgr, p);
  }

  /** `shrink` on the chunks and the manager. */
  method ShrinkLastOf(sys: ChkSystem, cs: seq<ChkMetadata>, mgr: ChkMemMgr, grant: bool, ghost repr: set<object>)
    returns (cs': seq<ChkMetadata>, ghost repr': set<object>)
    requires Wired(cs) && InRepr(cs, repr) && (sys.pooled ==> OwnBlocks(cs)) && cs != []
    requires Sane(Last(mgr.HeapOf(cs)), |cs| - 1)
    modifies sys, mgr, cs[|cs| - 1]
    ensures Wired(cs') && InRepr(cs', repr') && (sys.pooled ==> OwnBlocks(cs')) && repr <= repr' && fresh(repr' - repr)
    ensures var h := old(mgr.HeapOf(cs)); var c := Last(h);
            && |cs'| == |cs| && 0 <= Excess(c) <= c.cap
            && match ShrinkPlace(sys.pooled, old(sys.ledger), c, grant)
               case None => mgr.HeapOf(cs') == h && sys.ledger == old(sys.ledger)
               case Some((s, at)) => sys.ledger == s && mgr.HeapOf(cs') == SetLast(h, ShrinkChunk(c, at))
  {
    hide Wired;
    hide Chunks;
    hide InRepr;
    hide OwnBlocks;
    hide ShrinkPlace;
    hide ShrinkChunk;
    hide SetLast;
    hide Excess;
    ghost var h := mgr.HeapOf(cs);
    ShrunkTotal(h, |cs| - 1);
    var lost: Option<int>;
    cs', lost, repr' := ShrinkIn(sys, cs, |cs| - 1, grant, repr);
    assert mgr.State() == h.mgr;
    if lost.Some? {
      CountCap(cs', mgr, 0 - lost.value);
    }
  }

  lemma ShrinkIs(env: Env, ix: Index, grant: bool, h: Heap, s: Sys)
    requires ix.heap.chunks != [] && Shape(ix.heap)
    requires var c := Last(ix.heap);
             && |c.cells| == CellsIn(c.cap) && c.virgin <= WordsIn(c.cap) && 0 <= Excess(c) <= c.cap
             && match ShrinkPlace(env.pooled, ix.sys, c, grant)
                case None => h == ix.heap && s == ix.sys
                case Some((s', at)) => s == s' && h == SetLast(ix.heap, ShrinkChunk(c, at))
    ensures ix.(heap := h, sys := s) == ChkIndexSpec.Shrink(env, ix, grant)
  {
    hide ShrinkPlace;
    hide ShrinkChunk;
    hide SetLast;
  }

  /** Shrinking the last chunk takes what it gives back off the total. */
  lemma ShrunkTotal(h: Heap, n: nat)
    requires |h.chunks| == n + 1 && Sane(h.chunks[n], n)
    ensures var c := h.chunks[n];
            && 0 <= Excess(c) <= c.cap
            && forall at :: SetLast(h, ShrinkChunk(c, at))
                            == Heap(h.chunks[n := ShrinkChunk(c, at)], h.mgr.(totalCap := h.mgr.totalCap - Excess(c)))
  {
    ExcessIsTight(h.chunks[n], n);
  }

  /** What `alloc` returns for a block, or for none. */
  function PtrOf(r: Option<Blk>): Ptr {
    match r
    case None => CHK_NULL
    case Some(b) => HandleOf(b)
  }

  /** What `alloc` does when the free lists can serve. */
  lemma PoolCharged(ix: Index, words: nat, grant: bool, i: nat)
    requires Usable(ix.heap) && words <= MAX_WORDS && i == FirstFit(ix.heap.mgr, words) < 3
    ensures var p := ix.heap.mgr.heads[i]; var h1 := AddFree(PoolTake(ix.heap, i, words), 0 - words);
            var (ix', r) := AllocChunked(ix, words, grant);
            && p.no < |h1.chunks| && ix' == ix.(heap := Charge(h1, p.no, words))
            && PtrOf(r) == Ptr(p.no, p.off, words) && r.Some? && !p.IsNull()
  {
    hide Carve;
  }

  lemma FirstUsable(env: Env, ix: Index, grant: bool)
    requires EnvOk(env)
    ensures var (ix1, rc) := AddFirst(env, ix, grant);
            rc == 0 ==> Usable(ix1.heap) && |ix1.heap.chunks| == 1 <= ix1.addrSize
  {
    FirstHeapInv(env.sizes, Addr(ix.sys.next, 0));
    HeadsOfLists(FirstHeap(env.sizes, Addr(ix.sys.next, 0)), EMPTY_BOOK);
  }

  /** `split_continuous_chunk` on chunks that share a block. */
  method SplitOf(sys: ChkSystem, cs: seq<ChkMetadata>, mgr: ChkMemMgr)
    returns (out: seq<ChkMetadata>, ghost repr: set<object>)
    requires Wired(cs) && Shape(mgr.HeapOf(cs))
    modifies sys
    ensures Wired(out) && fresh(repr) && InRepr(out, repr) && (sys.pooled ==> OwnBlocks(out)) && |out| == |cs|
    ensures var h, s, n := old(mgr.HeapOf(cs)), old(sys.ledger), |cs|;
            && sys.ledger == Release(ObtainMany(s, n), h.chunks[0].at, if sys.pooled then RawBlock else ChunkBlock)
            && mgr.HeapOf(out) == Split(h, seq(n, i requires 0 <= i < n => Addr(s.next + i, 0)))
  {
    hide Chunks;
    hide Wired;
    hide InRepr;
    hide OwnBlocks;
    hide SplitChunk;
    hide Split;
    ghost var h, s, n := mgr.HeapOf(cs), sys.ledger, |cs|;
    forall i | 0 <= i < n ensures Chunks(cs)[i].cap <= MAX_CAP && Chunks(cs)[i].virgin <= WordsIn(Chunks(cs)[i].cap) {
      assert Sane(h.chunks[i], i);
    }
    WiredAt(cs, 0);
    var org := cs[0].at;
    out, repr := SplitAll(sys, cs);
    sys.Dellocate(org, if sys.pooled then RawBlock else ChunkBlock);
    SplitIs(h, seq(n, i requires 0 <= i < n => Addr(s.next + i, 0)), Chunks(out));
  }

  lemma SplitIs(h: Heap, at: seq<Addr>, cs: seq<Chunk>)
    requires Shape(h) && |at| == |h.chunks| == |cs|
    requires forall i :: 0 <= i < |cs| ==>
               && h.chunks[i].virgin <= WordsIn(h.chunks[i].cap) && |h.chunks[i].cells| == CellsIn(h.chunks[i].cap)
               && cs[i] == SplitChunk(h.chunks[i], i == |cs| - 1, at[i])
    ensures Heap(cs, h.mgr) == Split(h, at)
  {
    hide SplitChunk;
    assert cs == Split(h, at).chunks;
  }

  /** The image in a block and the chunks found in it. */
  method LoadChunks(sys: ChkSystem, img: seq<Cell>, kind: Kind, cap: nat, ghost ws: seq<Chunk>)
    returns (mem: array<Cell>, cs: seq<ChkMetadata>, ghost repr: set<object>)
    requires |img| <= CellsIn(cap) && Walk(img + Zeros(CellsIn(cap) - |img|), sys.ledger.next, 0) == Some(ws)
    modifies sys
    ensures Wired(cs) && fresh(repr) && mem in repr && InRepr(cs, repr) && Chunks(cs) == ws
    ensures mem.Length >= CellsIn(cap) && mem[..CellsIn(cap)] == img + Zeros(CellsIn(cap) - |img|)
    ensures |cs| == 1 && ws[0].at.base == 0 && sys.pooled && kind == ChunkBlock && cap <= MAX_CAP ==> OwnBlocks(cs)
    ensures sys.ledger == Obtain(old(sys.ledger), kind)
  {
    hide Chunks;
    hide Wired;
    hide InRepr;
    hide OwnBlocks;
    hide Walk;
    var at;
    mem, at := LoadImage(sys, kind, cap, img);
    ghost var r;
    cs, r := WalkBlock(mem, at.block, cap);
    repr := r + {mem};
    InReprWider(cs, r, repr);
    if |cs| == 1 {
      WiredAt(cs, 0);
      if cs[0].at.base == 0 && cs[0].mem.Length == CellsIn(MAX_CAP) { OneOwns(cs); }
    }
  }

  /** `uncompress` behind the codec: the image in a block, the chunks found in it, the first of which
      gets the whole block, and the manager from the words behind the first header. */
  method RestoreOf(sys: ChkSystem, img: seq<Cell>, kind: Kind)
    returns (cs: seq<ChkMetadata>, mgr: ChkMemMgr, ghost repr: set<object>)
    requires |img| >= 10 && Parsed(img, sys.ledger.next).Some?
    modifies sys
    ensures Wired(cs) && fresh(repr) && InRepr(cs, repr) && fresh(mgr) && cs != []
    ensures |cs| == 1 && sys.pooled && kind == ChunkBlock && |img| <= CellsIn(MAX_CAP) ==> OwnBlocks(cs)
    ensures sys.ledger == Obtain(old(sys.ledger), kind)
    ensures Some(mgr.HeapOf(cs)) == Parsed(img, old(sys.ledger).next)
  {
    hide Chunks;
    hide Wired;
    hide InRepr;
    hide OwnBlocks;
    hide Walk;
    hide DecodeMgr;
    hide Unflatten;
    var cap := (|img| + 255) / 256;
    ghost var ws := UnflattenIs(img, Zeros(CellsIn(cap) - |img|), sys.ledger.next);
    var mem;
    mem, cs, repr := LoadChunks(sys, img, kind, cap, ws);
    InReprAt(cs, repr, 0);
    SetAllocCap(cs, 0, cap);
    FrontSame(mem, CellsIn(cap), img, Zeros(CellsIn(cap) - |img|));
    mgr := new ChkMemMgr.Read(mem[4..10], cap);
    assert mgr.HeapOf(cs) == Heap(ws[0 := ws[0].(allocCap := cap)], DecodeMgr(img[4..10]).(totalCap := cap));
  }

  lemma FrontSame(mem: array<Cell>, n: nat, img: seq<Cell>, pad: seq<Cell>)
    requires n <= mem.Length && mem[..n] == img + pad && |img| >= 10
    ensures mem[4..10] == img[4..10]
  {
    forall k | 0 <= k < 10 ensures mem[k] == img[k] { assert mem[k] == mem[..n][k] == (img + pad)[k]; }
  }

  /** The parsed image, padded with zeroes, in block `block`. */
  ghost function Parsed(img: seq<Cell>, block: nat): Option<Heap>
    requires |img| >= 10
  {
    Unflatten(img, Zeros(CellsIn((|img| + 255) / 256) - |img|), block)
  }

  lemma UnflattenIs(img: seq<Cell>, pad: seq<Cell>, block: nat) returns (ws: seq<Chunk>)
    requires |img| >= 10 && |img| + |pad| == CellsIn((|img| + 255) / 256) && Unflatten(img, pad, block).Some?
    ensures Walk(img + pad, block, 0) == Some(ws) && ws != [] && ws[0].at == Addr(block, 0)
    ensures var cap := (|img| + 255) / 256;
            Unflatten(img, pad, block).value
                == Heap(ws[0 := ws[0].(allocCap := cap)], DecodeMgr(img[4..10]).(totalCap := cap))
  {
    ws := Walk(img + pad, block, 0).value;
  }

  lemma OneOwns(cs: seq<ChkMetadata>)
    requires |cs| == 1 && cs[0].at.base == 0 && cs[0].mem.Length == CellsIn(MAX_CAP)
    ensures OwnBlocks(cs)
  {
  }

  /** The chunks as they lie in memory. */
  method ImagesOf(cs: seq<ChkMetadata>, m: Mgr) returns (pieces: seq<seq<Cell>>)
    requires Wired(cs) && HeapWritable(Heap(Chunks(cs), m))
    ensures pieces == Images(Heap(Chunks(cs), m))
  {
    hide Chunks;
    hide Wired;
    hide ChunkImage;
    ghost var h := Heap(Chunks(cs), m);
    pieces := [];
    for i := 0 to |cs|
      invariant |pieces| == i && forall j :: 0 <= j < i ==> pieces[j] == Images(h)[j]
    {
      WiredAt(cs, i);
      assert Writable(h.chunks[i], i, m);
      var r := ImageOf(cs[i], i, m);
      pieces := pieces + [r];
    }
  }

  /** What the codec reads: everything that the source offers, piece by piece. */
  method ReadThrough(src: ChkCompressSource<Cell>) returns (img: seq<Cell>)
    requires src.Valid(0)
    modifies src
    ensures img == Flat(src.pieces, src.lastLen)
  {
    hide Flat;
    hide At;
    hide ChkSource.Peek;
    hide ChkSource.Skip;
    hide CanPeek;
    ghost var f := Flat(src.pieces, src.lastLen);
    var left := src.Available(0);
    img := [];
    while left > 0
      invariant |img| <= |f| && left == |f| - |img| && src.Valid(|img|) && img == f[..|img|]
      decreases left
    {
      var s := src.PeekBytes(|img|);
      var n := if |s| < left then |s| else left;
      src.SkipBytes(|img|, n);
      assert f[..|img|] + f[|img|..|img| + n] == f[..|img| + n];
      img := img + s[..n];
      left := left - n;
    }
    assert f[..|f|] == f;
  }

  lemma NoneIn(repr: set<object>)
    ensures Wired([]) && InRepr([], repr) && OwnBlocks([])
  {
  }

  lemma MoreThanOne(h: Heap)
    requires IsContinuous(h)
    ensures |h.chunks| > 1
  {
  }

  /** The image that a compressed index holds can be walked, and with a pool it is that of a single
      chunk if and only if it fits one. */
  lemma ImageFacts(env: Env, ix: Index, g: Ghost)
    requires IxInv(env, ix, g) && ix.packed.Some?
    ensures var r := env.codec.unpack(ix.packed.value.bytes);
            r.Some? && |r.value| >= 10 && Parsed(r.value, ix.sys.next).Some?
    ensures var img := env.codec.unpack(ix.packed.value.bytes).value; var h := Parsed(img, ix.sys.next).value;
            && Shape(h)
            && (env.pooled ==> if |img| <= CellsIn(MAX_CAP) then |h.chunks| == 1 else IsContinuous(h))
  {
    hide Inv;
    hide HeapWritable;
    hide Flatten;
    hide Restores;
    hide Relocates;
    hide Unflatten;
    var img := Flatten(g.frozen);
    var cap := (|img| + 255) / 256;
    FlattenRoundTrip(g.frozen, g.book, Zeros(CellsIn(cap) - |img|), ix.sys.next);
    assert env.codec.unpack(ix.packed.value.bytes) == Some(img);
    var h := Unflatten(img, Zeros(CellsIn(cap) - |img|), ix.sys.next).value;
    RestoredFacts(g.frozen, h, g.book, ix.sys.next);
    RelocatesShape(g.frozen, h);
    UnflattenCap(img, Zeros(CellsIn(cap) - |img|), ix.sys.next);
    if env.pooled { DirectIffSingle(env, g.frozen, h, g.book, ix.sys.next); }
  }

  lemma UncompressInv(env: Env, ix: Index, g: Ghost, grant: bool)
    requires IxInv(env, ix, g)
    ensures IxInv(env, ChkIndexSpec.Uncompress(env, ix, grant).0, g)
  {
    UncompressKeeps(env, ix, g, grant);
  }

  lemma UnflattenCap(img: seq<Cell>, pad: seq<Cell>, block: nat)
    requires |img| >= 10 && |img| + |pad| == CellsIn((|img| + 255) / 256) && Unflatten(img, pad, block).Some?
    ensures Unflatten(img, pad, block).value.mgr.totalCap == (|img| + 255) / 256
  {
  }

  // ---------- what the operations ask for, from the invariant ----------

  lemma AllocStep(env: Env, ix: Index, g: Ghost, size: nat, unpack: bool, grant: bool)
    requires IxInv(env, ix, g) && size >= 1
    ensures var (ix', g') := Step(env, ix, g, OpAlloc(size, unpack, grant)); IxInv(env, ix', g')
    ensures Ready(env, ix)
    ensures var ix' := Step(env, ix, g, OpAlloc(size, unpack, grant)).0;
            var r := AllocOp(env, ix, size, unpack, grant).1;
            if CeilDiv(size, 8) > MAX_WORDS then ix' == ix && r == None
            else
              var (ix1, rc) := ChkIndexSpec.Uncompress(env, ix, unpack);
              if rc != 0 then ix' == ix1 && r == None
              else
                EnvOk(env) && (ix1.heap.chunks == [] || (Usable(ix1.heap) && |ix1.heap.chunks| <= ix1.addrSize))
                && (ix', r) == AllocIx(env, ix1, size, grant)
  {
    StepKeeps(env, ix, g, OpAlloc(size, unpack, grant));
    ReadyOf(env, ix, g);
    UncompressKeeps(env, ix, g, unpack);
    hide IxInv;
    hide AllocIx;
    hide StepOk;
    hide Usable;
  }

  lemma FreeStep(env: Env, ix: Index, g: Ghost, p: Ptr, bytes: nat, unpack: bool)
    requires IxInv(env, ix, g) && Legal(ix, g, OpFree(p, bytes, unpack))
    ensures var (ix', g') := Step(env, ix, g, OpFree(p, bytes, unpack)); IxInv(env, ix', g')
    ensures var ix' := Step(env, ix, g, OpFree(p, bytes, unpack)).0; var b := NamedBlk(p, bytes);
            var (ix1, rc) := ChkIndexSpec.Uncompress(env, ix, unpack);
            if rc != 0 then ix' == ix1
            else
              && p.off == 2 * b.off && b.size != 0 && b.no == p.no && b.no < |ix1.heap.chunks|
                 && ix1.heap.chunks[b.no].no == b.no
              && Room(ix1.heap, b.no, b.off, b.size) && ix' == ix1.(heap := Free(ix1.heap, b))
  {
    StepKeeps(env, ix, g, OpFree(p, bytes, unpack));
    var b := NamedBlk(p, bytes);
    CleftKeeps(env, ix, g, b);
    FreeOpReady(env, ix, Cleft(g, b), b, unpack);
    UncompressKeeps(env, ix, Cleft(g, b), unpack);
    hide StepOk;
    hide Free;
    hide Cleft;
    var (ix1, rc) := ChkIndexSpec.Uncompress(env, ix, unpack);
    if rc == 0 { LiveBlock(ix1.heap, Cleft(g, b).book, b); }
  }

  lemma LiveBlock(h: Heap, bk: Book, b: Blk)
    requires Inv(h, bk) && b in bk.blocks
    ensures b.no < |h.chunks| && h.chunks[b.no].no == b.no && b.size >= 1
  {
    assert Placed(h, b);
    assert Sane(h.chunks[b.no], b.no);
  }

  lemma StoreStep(env: Env, ix: Index, g: Ghost, b: Blk, k: nat, v: Cell)
    requires IxInv(env, ix, g) && Legal(ix, g, OpStore(b, k, v))
    ensures var (ix', g') := Step(env, ix, g, OpStore(b, k, v)); IxInv(env, ix', g') && g' == g
    ensures b.no < |ix.heap.chunks| && k < CellsIn(ix.heap.chunks[b.no].cap) && k < |ix.heap.chunks[b.no].cells|
    ensures Step(env, ix, g, OpStore(b, k, v)).0 == ix.(heap := Store(ix.heap, b.no, k, v))
  {
    StepKeeps(env, ix, g, OpStore(b, k, v));
    StoreKeeps(env, ix, g.book, b, k, v);
    LiveBlock(ix.heap, g.book, b);
    assert Sane(ix.heap.chunks[b.no], b.no);
    hide StepOk;
  }

  lemma MoveStep(env: Env, ix: Index, g: Ghost, op: Op)
    requires IxInv(env, ix, g) && Legal(ix, g, op) && !op.OpAlloc? && !op.OpFree? && !op.OpStore?
    ensures var (ix', g') := Step(env, ix, g, op); IxInv(env, ix', g')
    ensures ix.heap.chunks == []
              || (Shape(ix.heap) && HeapWritable(ix.heap) && Inv(ix.heap, g.book)
                  && Sane(Last(ix.heap), |ix.heap.chunks| - 1))
    ensures op.OpShrink? ==> Step(env, ix, g, op).0 == ChkIndexSpec.Shrink(env, ix, op.grant)
    ensures op.OpCompress? ==> Step(env, ix, g, op).0 == ChkIndexSpec.Compress(env, ix, op.percent, op.grant).0
    ensures op.OpUncompress? ==> Step(env, ix, g, op).0 == ChkIndexSpec.Uncompress(env, ix, op.unpack).0
    ensures op.OpDestruct? ==> Step(env, ix, g, op).0 == ChkIndexSpec.Destruct(ix)
  {
    hide StepOk;
    StepKeeps(env, ix, g, op);
    WritableOf(env, ix, g);
    ShapeOf(env, ix, g);
    if ix.heap.chunks != [] {
      InvOf(env, ix, g);
      assert Sane(Last(ix.heap), |ix.heap.chunks| - 1);
    }
    hide IxInv;
    hide ChkIndexSpec.Shrink;
    hide ChkIndexSpec.Compress;
    hide ChkIndexSpec.Uncompress;
    hide ChkIndexSpec.Destruct;
  }

  lemma InvOf(env: Env, ix: Index, g: Ghost)
    requires IxInv(env, ix, g) && ix.heap.chunks != []
    ensures Inv(ix.heap, g.book) && ix.packed.None?
  {
  }

  /** `enlarge` asks for the tail of memory only once the index is open and split. */
  lemma EnlargeStep(env: Env, ix: Index, g: Ghost, unpack: bool, grant: bool)
    requires IxInv(env, ix, g)
    ensures var (ix1, rc) := ChkIndexSpec.Uncompress(env, ix, unpack);
            rc == 0 ==>
              && (ix1.heap.chunks == [] || Shape(ix1.heap))
              && |SplitIx(env, ix1).heap.chunks| <= SplitIx(env, ix1).addrSize
  {
    UncompressKeeps(env, ix, g, unpack);
    var (ix1, rc) := ChkIndexSpec.Uncompress(env, ix, unpack);
    if rc == 0 { SplitIxKeeps(env, ix1, g.book); }
  }

  lemma EnlargeDone(env: Env, ix: Index, g: Ghost, unpack: bool, grant: bool, tail: seq<Cell>)
    requires IxInv(env, ix, g)
    ensures Ready(env, ix)
    ensures var (ix', g') := Step(env, ix, g, OpEnlarge(unpack, grant, tail)); IxInv(env, ix', g') && g' == g
    ensures Step(env, ix, g, OpEnlarge(unpack, grant, tail)).0 == EnlargeOp(env, ix, unpack, grant, tail).0
    ensures var (ix1, rc) := ChkIndexSpec.Uncompress(env, ix, unpack);
            if rc != 0 then EnlargeOp(env, ix, unpack, grant, tail) == (ix1, -1)
            else
              (ix1.heap.chunks == [] || Shape(ix1.heap)) &&
              var (ix2, rc2) := EnlargeLast(env, SplitIx(env, ix1), grant, tail);
              EnlargeOp(env, ix, unpack, grant, tail) == (ix2, if rc2 != 0 then -3 else 0)
  {
    hide StepOk;
    hide EnlargeLast;
    hide SplitIx;
    hide ChkIndexSpec.Uncompress;
    hide IxInv;
    StepKeeps(env, ix, g, OpEnlarge(unpack, grant, tail));
    ReadyOf(env, ix, g);
    EnlargeStep(env, ix, g, unpack, grant);
  }

  /** `compress` reads the heap, and keeps it or gives it up for its image. */
  lemma CompressStep(env: Env, ix: Index, g: Ghost, percent: nat, grant: bool)
    requires IxInv(env, ix, g)
    ensures var (ix', g') := Step(env, ix, g, OpCompress(percent, grant)); IxInv(env, ix', g')
    ensures ix.heap.chunks == [] || HeapWritable(ix.heap)
    ensures Step(env, ix, g, OpCompress(percent, grant)).0 == ChkIndexSpec.Compress(env, ix, percent, grant).0
    ensures ix.heap.chunks != [] ==> ix.packed.None? && Legible(Images(ix.heap), 2 * Last(ix.heap).virgin)
                                     && 256 * ix.heap.mgr.totalCap == |Block(Images(ix.heap))|
  {
    MoveStep(env, ix, g, OpCompress(percent, grant));
    if ix.heap.chunks != [] {
      InvOf(env, ix, g);
      HeapLegible(ix.heap, g.book);
    }
  }

  lemma AliveBlock(env: Env, ix: Index, g: Ghost, b: Blk)
    requires IxInv(env, ix, g) && IsLive(g, b)
    ensures b.size >= 1
  {
    ViewOf(env, ix, g, b);
    LiveBlock(View(ix, g), g.book, b);
  }

  lemma FreeHandle(ix: Index, g: Ghost, p: Ptr, unpack: bool)
    requires IsLive(g, NamedBlk(p, 0)) && HandleOf(NamedBlk(p, 0)) == p && NamedBlk(p, 0).size >= 1
    ensures Legal(ix, g, OpFree(p, 0, unpack))
  {
    assert Heads(g, NamedBlk(p, 0), NamedBlk(p, 0));
  }

  /** What `init_boot` gets from an index with one empty chunk, and while there is a boot block. */
  lemma BootAgain(env: Env, ix: Index, g: Ghost, size: nat, unpack: bool, grant: bool)
    requires IxInv(env, ix, g) && size >= 1
    ensures Ready(env, ix)
    ensures ix.packed.None? && ix.heap.chunks != [] ==> |g.book.lists| == 3
    ensures var r := AllocOp(env, ix, size, unpack, grant).1; var b := Blk(0, Lo(0), CeilDiv(size, 8), LIVE);
            && (&& ix.packed.None? && |ix.heap.chunks| == 1 && ix.heap.chunks[0].virgin == Lo(0)
                && ix.heap.chunks[0].cap == MAX_CAP && (forall i :: 0 <= i < 3 ==> g.book.lists[i] == [])
                ==> r == if size <= 8 * MAX_WORDS then Some(b) else None)
            && ((exists b :: IsLive(g, b) && b.no == 0 && b.off == Lo(0)) ==> r != Some(b))
  {
    ReadyOf(env, ix, g);
    if ix.packed.None? && ix.heap.chunks != [] {
      BootCases(env, ix, g, size, unpack, grant);
      if |ix.heap.chunks| == 1 && ix.heap.chunks[0].virgin == Lo(0) && ix.heap.chunks[0].cap == MAX_CAP
         && (forall i :: 0 <= i < 3 ==> g.book.lists[i] == []) {
        assert NoneServes(ix.heap, g.book, CeilDiv(size, 8));
      }
    }
    forall c | IsLive(g, c) && c.no == 0 && c.off == Lo(0)
      ensures AllocOp(env, ix, size, unpack, grant).1 != Some(Blk(0, Lo(0), CeilDiv(size, 8), LIVE))
    {
      BootOnlyOnce(env, ix, g, c, size, unpack, grant);
    }
  }

  class ChkIndex {
    const env: Env
    const sys: ChkSystem
    var chkAddr: seq<ChkMetadata>
    var mgr: ChkMemMgr?
    var addrSize: nat
    var packed: Option<Packed>
    ghost var g: Ghost

    ghost var repr: set<object>

    /** The objects are in order: a manager if and only if there are chunks, and chunks that do not
        overlap in memory. */
    ghost predicate Phys()
      reads this, repr
    {
      && this in repr && sys in repr && sys.pooled == env.pooled
      && (mgr == null <==> chkAddr == []) && (mgr != null ==> mgr in repr)
      && InRepr(chkAddr, repr) && Wired(chkAddr)
    }

    /** With a pool every chunk has a pool chunk to itself. */
    ghost predicate InPool()
      reads this
    {
      env.pooled ==> OwnBlocks(chkAddr)
    }

    ghost function State(): Index
      requires Phys()
      reads this, repr
    {
      Index(if mgr == null then NO_HEAP else mgr.HeapOf(chkAddr), packed, addrSize, sys.ledger)
    }

    /** The objects are in order and the index meets the invariant of its runs. */
    ghost predicate Valid()
      reads this, repr
    {
      Phys() && InPool() && IxInv(env, State(), g)
    }

    constructor (env: Env)
      requires EnvOk(env)
      ensures Valid() && fresh(repr) && this.env == env && State() == EMPTY && g == Ghost(EMPTY_BOOK, NO_HEAP)
    {
      this.env, chkAddr, mgr, addrSize, packed := env, [], null, 0, None;
      g := Ghost(EMPTY_BOOK, NO_HEAP);
      sys := new ChkSystem(env.pooled);
      new;
      repr := {this, sys};
      EmptyInv(env);
    }

    /** Takes over the chunks that an operation has made. */
    method Adopt(cs: seq<ChkMetadata>, ghost r: set<object>)
      requires mgr != null && cs != [] && {this, sys, mgr} <= r && sys.pooled == env.pooled
      requires Wired(cs) && InRepr(cs, r) && (env.pooled ==> OwnBlocks(cs))
      modifies `chkAddr, `repr
      ensures Phys() && InPool() && chkAddr == cs && repr == r
      ensures State() == Index(old(mgr.HeapOf(cs)), packed, addrSize, sys.ledger)
    {
      hide Wired;
      hide Chunks;
      hide InRepr;
      hide OwnBlocks;
      ghost var h := mgr.HeapOf(cs);
      chkAddr, repr := cs, r;
      assert mgr.HeapOf(chkAddr) == h;
    }

    /** `chk_enlarge` on the last chunk. */
    method EnlargeLastChunk(grant: bool) returns (rc: int, ghost tail: seq<Cell>)
      requires Phys() && InPool() && chkAddr != [] && chkAddr[|chkAddr| - 1].MayGrow()
      modifies repr
      ensures Phys() && InPool() && fresh(repr - old(repr)) && g == old(g) && mgr == old(mgr)
      ensures (State(), rc) == EnlargeLast(env, old(State()), grant, tail)
    {
      hide Chunks;
      hide Wired;
      hide InRepr;
      hide OwnBlocks;
      hide EnlargeChunk;
      hide Moved;
      hide Fit;
      ghost var was := State();
      InReprAt(chkAddr, repr, |chkAddr| - 1);
      WiredAt(chkAddr, |chkAddr| - 1);
      assert CanEnlarge(Last(was.heap));
      hide EnlargeLast;
      var cs, r, t, rp := EnlargeLastOf(sys, chkAddr, mgr, grant, repr);
      EnlargeLastIs(env, was, grant, t, mgr.HeapOf(cs), sys.ledger, r);
      rc, tail := r, t;
      Adopt(cs, rp);
    }

    /** Room in `_chk_addr` for one more chunk. */
    method ReserveSlot()
      requires |chkAddr| <= addrSize
      modifies `addrSize
      ensures addrSize == AddrRoom(|chkAddr|, old(addrSize))
    {
      if |chkAddr| == addrSize {
        addrSize := if addrSize != 0 then 2 * addrSize else 1;
      }
    }

    /** `chk_enlarge` of an index without chunks: the first chunk and the manager in it. */
    method AddFirstChunk(grant: bool) returns (rc: int)
      requires Phys() && InPool() && chkAddr == []
      modifies repr
      ensures Phys() && InPool() && fresh(repr - old(repr)) && g == old(g)
      ensures (State(), rc) == AddFirst(env, old(State()), grant)
    {
      hide Chunks;
      hide Wired;
      hide InRepr;
      hide OwnBlocks;
      ghost var was := State();
      ReserveSlot();
      if !grant {
        return -1;
      }
      var cs, r := MakeFirst(sys);
      WiredAt(cs, 0);
      var m := new ChkMemMgr(env.sizes);
      m.Count(cs[0].used, 0, cs[0].cap);
      InReprWider(cs, r, repr + r + {m});
      chkAddr, mgr, repr := cs, m, repr + r + {m};
      assert Chunks(chkAddr) == [NewChunk(0, Lo(0), Addr(was.sys.next, 0))];
      assert mgr.State() == FirstHeap(env.sizes, Addr(was.sys.next, 0)).mgr;
      rc := 0;
    }

    /** `chk_enlarge` with one more chunk. */
    method AddOneChunk(grant: bool) returns (rc: int)
      requires Phys() && InPool() && chkAddr != [] && |chkAddr| <= addrSize
      modifies repr
      ensures Phys() && InPool() && fresh(repr - old(repr)) && g == old(g) && mgr == old(mgr)
      ensures (State(), rc) == AddOne(old(State()), grant)
      ensures if rc == 0 then |chkAddr| == |old(chkAddr)| + 1 else chkAddr == old(chkAddr)
    {
      hide Chunks;
      hide Wired;
      hide InRepr;
      hide OwnBlocks;
      ghost var was := State();
      var n := |chkAddr|;
      if n >= NULL_NO {
        return -1;
      }
      ReserveSlot();
      assert mgr.HeapOf(chkAddr) == was.heap;
      if !grant {
        return -1;
      }
      var cs, r := AddOneOf(sys, chkAddr, mgr, repr);
      ghost var h := mgr.HeapOf(cs);
      assert (Index(h, was.packed, addrSize, sys.ledger), 0) == AddOne(was, grant);
      Adopt(cs, r);
      rc := 0;
    }

    /** `chk_enlarge(just_ext_chk)` */
    method ChkEnlarge(justExt: bool, grant: bool) returns (rc: int, ghost tail: seq<Cell>)
      requires Phys() && InPool() && |chkAddr| <= addrSize
      modifies repr
      ensures Phys() && InPool() && fresh(repr - old(repr)) && g == old(g)
      ensures var ix := old(State());
              (State(), rc) == if justExt || (ix.heap.chunks != [] && CanEnlarge(Last(ix.heap)))
                               then EnlargeLast(env, ix, grant, tail)
                               else if ix.heap.chunks == [] then AddFirst(env, ix, grant)
                               else AddOne(ix, grant)
    {
      tail := [];
      ghost var was := State();
      if chkAddr != [] {
        WiredAt(chkAddr, |chkAddr| - 1);
        assert Last(was.heap) == chkAddr[|chkAddr| - 1].State();
        if chkAddr[|chkAddr| - 1].MayGrow() {
          rc, tail := EnlargeLastChunk(grant);
          return;
        }
      }
      if justExt {
        return 0, tail;
      }
      if chkAddr == [] {
        rc := AddFirstChunk(grant);
      } else {
        rc := AddOneChunk(grant);
      }
    }

    /** The tail of the chunk before the new one goes to the free lists, and the new one is bumped. */
    method UseNewChunk(words: nat) returns (p: Ptr)
      requires Phys() && InPool() && |chkAddr| >= 2 && words <= MAX_WORDS
      requires var h, no := State().heap, |chkAddr| - 2;
               && h.mgr.Shaped() && no < NULL_NO && Sane(h.chunks[no], no)
               && WordsIn(h.chunks[no].cap) - h.chunks[no].virgin <= MAX_WORDS
               && var c := Donate(h, no).chunks[no + 1]; c.no == no + 1 && c.virgin + words <= WordsIn(c.cap)
      modifies repr
      ensures Phys() && InPool() && repr == old(repr) && g == old(g) && chkAddr == old(chkAddr)
      ensures var ix, no := old(State()), |chkAddr| - 2; var h := Donate(ix.heap, no); var v := h.chunks[no + 1].virgin;
              State() == ix.(heap := SetVirgin(h, no + 1, v + words)) && p == Ptr(no + 1, 2 * v, words)
    {
      hide Donate;
      hide Wired;
      hide Chunks;
      hide InRepr;
      hide OwnBlocks;
      hide Mems;
      var no := |chkAddr| - 2;
      ghost var h := Donate(mgr.HeapOf(chkAddr), no);
      InReprAt(chkAddr, repr, no);
      InReprAt(chkAddr, repr, no + 1);
      p := DonateAndBump(chkAddr, mgr, no, words);
      assert mgr.HeapOf(chkAddr) == SetVirgin(h, no + 1, h.chunks[no + 1].virgin + words);
    }

    /** One more chunk for an allocation that does not fit the last one: the tail of the last one goes
        to the free lists, and the new one is bumped. */
    method Retry(words: nat, grant: bool) returns (p: Ptr)
      requires Phys() && InPool() && |chkAddr| <= addrSize && 1 <= words <= MAX_WORDS
      requires chkAddr != [] && Usable(State().heap) && !CanEnlarge(Last(State().heap))
                 && !BumpFits(State().heap, words)
      modifies repr
      ensures Phys() && InPool() && fresh(repr - old(repr)) && g == old(g) && chkAddr != []
      ensures State() == Bumped(old(State()), words, grant) && p == BumpedPtr(old(State()), words, grant)
    {
      hide Donate;
      hide Usable;
      hide Bumped;
      hide BumpedPtr;
      hide BumpFits;
      hide AddOne;
      hide AddFirst;
      hide EnlargeLast;
      hide State;
      hide Phys;
      hide InPool;
      ghost var was := State();
      StateChunks();
      GrownHasRoom(was, words, grant);
      var rc, tail := ChkEnlarge(false, grant);
      StateChunks();
      if rc < 0 {
        return CHK_NULL;
      }
      // the last chunk was at full size, so the number of chunks has grown
      p := UseNewChunk(words);
    }

    lemma StateChunks()
      requires Phys()
      ensures |State().heap.chunks| == |chkAddr|
    {
    }

    /** The retry loop of `alloc`: a second pass is never needed. */
    method BumpOrGrow(words: nat, grant: bool) returns (p: Ptr)
      requires Phys() && InPool() && |chkAddr| <= addrSize && 1 <= words <= MAX_WORDS
      requires chkAddr != [] && Usable(State().heap) && !CanEnlarge(Last(State().heap))
      modifies repr
      ensures Phys() && InPool() && fresh(repr - old(repr)) && g == old(g) && chkAddr != []
      ensures State() == Bumped(old(State()), words, grant) && p == BumpedPtr(old(State()), words, grant)
    {
      hide Donate;
      hide Wired;
      hide Chunks;
      hide InRepr;
      hide OwnBlocks;
      hide HeadsOk;
      ghost var was := State();
      var n := |chkAddr| - 1;
      assert Sane(was.heap.chunks[n], n);
      InReprAt(chkAddr, repr, n);
      p := AllocIn(chkAddr, n, 8 * words);
      assert mgr.HeapOf(chkAddr) == if p.IsNull() then was.heap else Bumped(was, words, grant).heap;
      while p.IsNull()
        invariant Phys() && InPool() && fresh(repr - old(repr)) && g == old(g) && chkAddr != []
        invariant if p.IsNull() then State() == was && !BumpFits(was.heap, words) && |chkAddr| <= addrSize
                  else State() == Bumped(was, words, grant) && p == BumpedPtr(was, words, grant)
        decreases if p.IsNull() then 1 else 0
      {
        p := Retry(words, grant);
        if p.IsNull() {
          return;
        }
      }
    }

    /** Charges the words of an allocation. */
    method Settle(no: nat, words: nat)
      requires Phys() && no < |chkAddr|
      modifies repr
      ensures Phys() && repr == old(repr) && chkAddr == old(chkAddr) && g == old(g)
      ensures State() == old(State()).(heap := Charge(old(State()).heap, no, words))
    {
      hide Wired;
      hide Chunks;
      hide InRepr;
      hide OwnBlocks;
      ghost var h := mgr.HeapOf(chkAddr);
      InReprAt(chkAddr, repr, no);
      ChargeOf(chkAddr, mgr, no, words);
      assert mgr.HeapOf(chkAddr) == Charge(h, no, words);
    }

    /** `alloc` on chunks at full size: from the free lists if they can serve, else from the end. */
    method AllocFull(words: nat, grant: bool) returns (p: Ptr)
      requires Phys() && InPool() && |chkAddr| <= addrSize && 1 <= words <= MAX_WORDS
      requires chkAddr != [] && Usable(State().heap) && !CanEnlarge(Last(State().heap))
      modifies repr
      ensures Phys() && InPool() && fresh(repr - old(repr)) && g == old(g)
      ensures var (ix', r) := AllocChunked(old(State()), words, grant); State() == ix' && p == PtrOf(r)
    {
      hide Wired;
      hide Chunks;
      hide InRepr;
      hide OwnBlocks;
      hide HeadsOk;
      hide PoolTake;
      hide Bumped;
      hide AllocChunked;
      hide BumpFits;
      hide CanEnlarge;
      ghost var was := State();
      ghost var i := FirstFit(was.heap.mgr, words);
      InReprMems(chkAddr, repr);
      p := PoolAllocOf(chkAddr, mgr, words);
      if p.IsNull() {
        BumpedCharged(was, words, grant);
        assert State() == was;
        p := BumpOrGrow(words, grant);
        if p.IsNull() {
          return;
        }
      } else {
        PoolCharged(was, words, grant, i);
      }
      Settle(p.no, words);
    }

    method LastMayGrow() returns (b: bool)
      requires Phys() && chkAddr != []
      ensures b <==> CanEnlarge(Last(State().heap))
    {
      WiredAt(chkAddr, |chkAddr| - 1);
      assert Last(State().heap) == chkAddr[|chkAddr| - 1].State();
      b := chkAddr[|chkAddr| - 1].MayGrow();
    }

    /** `alloc` on an index that is not compressed. */
    method AllocOpen(size: nat, grant: bool) returns (p: Ptr)
      requires Phys() && InPool() && EnvOk(env) && |chkAddr| <= addrSize && size >= 1
      requires chkAddr == [] || Usable(State().heap)
      modifies repr
      ensures Phys() && InPool() && fresh(repr - old(repr)) && g == old(g)
      ensures var (ix', r) := AllocIx(env, old(State()), size, grant); State() == ix' && p == PtrOf(r)
    {
      hide Usable;
      hide AllocChunked;
      hide InRepr;
      hide OwnBlocks;
      hide Wired;
      hide Chunks;
      hide CanEnlarge;
      p := CHK_NULL;
      var words := CeilDiv(size, 8);
      if words > MAX_WORDS {
        return;
      }
      ghost var was := State();
      if chkAddr == [] {
        FirstUsable(env, was, grant);
        var rc, tail := ChkEnlarge(false, grant);
        if rc < 0 {
          return;
        }
      }
      var mayGrow := LastMayGrow();
      if mayGrow {
        return;
      }
      p := AllocFull(words, grant);
    }

    /** `is_continuous_chunk` */
    method IsContinuousChunk() returns (b: bool)
      requires Phys()
      ensures b <==> IsContinuous(State().heap)
    {
      if |chkAddr| > 1 {
        WiredAt(chkAddr, 0);
        b := mgr.totalCap == chkAddr[0].allocCap;
      } else {
        b := false;
      }
    }

    /** `split_continuous_chunk` */
    method SplitContinuousChunk()
      requires Phys() && (chkAddr == [] || Shape(State().heap)) && (InPool() || IsContinuous(State().heap))
      modifies repr
      ensures Phys() && InPool() && fresh(repr - old(repr)) && g == old(g)
      ensures State() == SplitIx(env, old(State()))
    {
      hide Chunks;
      hide Wired;
      hide InRepr;
      hide OwnBlocks;
      hide Split;
      hide IsContinuous;
      ghost var was := State();
      var b := IsContinuousChunk();
      if !b {
        return;
      }
      MoreThanOne(was.heap);
      var cs, r := SplitOf(sys, chkAddr, mgr);
      ghost var h := mgr.HeapOf(cs);
      assert Index(h, was.packed, was.addrSize, sys.ledger) == SplitIx(env, was);
      InReprWider(cs, r, repr + r);
      chkAddr, repr := cs, repr + r;
      assert mgr.HeapOf(chkAddr) == h;
    }

    /** Puts a parsed image in place of the compressed block. */
    method Install(img: seq<Cell>, kind: Kind, ghost u: Heap)
      requires Phys() && packed.Some? && |img| >= 10
      requires Parsed(img, State().sys.next) == Some(u)
      requires env.pooled ==>
                 if kind == ChunkBlock then |u.chunks| == 1 && |img| <= CellsIn(MAX_CAP) else IsContinuous(u)
      modifies repr
      ensures Phys() && fresh(repr - old(repr)) && g == old(g) && chkAddr != [] && (InPool() || IsContinuous(u))
      ensures State() == var ix := old(State());
                Index(u, None, ix.addrSize, Release(Obtain(ix.sys, kind), Addr(ix.packed.value.block, 0), PackedBlock))
    {
      hide Chunks;
      hide Wired;
      hide InRepr;
      hide OwnBlocks;
      hide Unflatten;
      hide IsContinuous;
      var cs, m, r := RestoreOf(sys, img, kind);
      sys.Dellocate(Addr(packed.value.block, 0), PackedBlock);
      InReprWider(cs, r, repr + r + {m});
      chkAddr, mgr, packed, repr := cs, m, None, repr + r + {m};
      assert mgr.HeapOf(chkAddr) == u;
    }

    /** `uncompress` */
    method Uncompress(grant: bool) returns (rc: int)
      requires Valid()
      modifies repr
      ensures Valid() && fresh(repr - old(repr)) && g == old(g)
      ensures (State(), rc) == ChkIndexSpec.Uncompress(env, old(State()), grant)
    {
      hide IxInv;
      hide Unflatten;
      hide SplitIx;
      hide Shape;
      hide IsContinuous;
      hide OwnBlocks;
      ghost var was := State();
      UncompressInv(env, was, g, grant);
      if packed.None? {
        return 0;
      }
      ImageFacts(env, was, g);
      var img := env.codec.unpack(packed.value.bytes);
      if img.None? {
        return -1;
      }
      if |img.value| < 10 || !grant {
        return -2;
      }
      ghost var u := Parsed(img.value, was.sys.next).value;
      var direct := !env.pooled || (|img.value| + 255) / 256 <= MAX_CAP;
      Install(img.value, if direct then ChunkBlock else RawBlock, u);
      if env.pooled {
        SplitContinuousChunk();
      }
      rc := 0;
    }

    /** The image that compression reads. */
    method Gather() returns (img: seq<Cell>)
      requires Phys() && chkAddr != [] && HeapWritable(State().heap)
      requires Legible(Images(State().heap), 2 * Last(State().heap).virgin)
      requires 256 * State().heap.mgr.totalCap == |Block(Images(State().heap))|
      ensures img == Flatten(old(State().heap))
    {
      hide Chunks;
      hide Wired;
      hide ChunkImage;
      hide Flat;
      hide Images;
      hide Block;
      hide Legible;
      hide IsContinuous;
      var n := |chkAddr| - 1;
      ghost var h := State().heap;
      WiredAt(chkAddr, n);
      var pieces := ImagesOf(chkAddr, mgr.State());
      var continuous := IsContinuousChunk();
      var src := new ChkCompressSource(pieces, 256 * mgr.totalCap, 2 * chkAddr[n].virgin, continuous);
      img := ReadThrough(src);
    }

    /** `destruct`, the bookkeeping left as it is. */
    method Teardown()
      requires Phys()
      modifies this, sys
      ensures Phys() && InPool() && repr == old(repr) && g == old(g)
      ensures State() == ChkIndexSpec.Destruct(old(State())) && chkAddr == []
    {
      hide Chunks;
      hide Wired;
      hide InRepr;
      hide OwnBlocks;
      NoneIn(repr);
      if chkAddr == [] {
        return;
      }
      ghost var was := State();
      assert was.heap.chunks == Chunks(chkAddr);
      DestructAll(sys, chkAddr);
      assert sys.ledger == ReleaseAll(was.sys, was.heap.chunks);
      chkAddr, mgr, packed := [], null, None;
    }

    /** Ends an operation: the bookkeeping moves on with the state. */
    ghost method Record(g': Ghost)
      requires Phys() && InPool() && IxInv(env, State(), g')
      modifies `g
      ensures Valid() && g == g' && State() == old(State())
    {
      hide Wired;
      hide Chunks;
      hide IxInv;
      g := g';
      assert State() == old(State());
    }

    /** `alloc(size)` */
    method Alloc(size: nat, unpack: bool, grant: bool) returns (p: Ptr)
      requires Valid() && size >= 1
      modifies repr
      ensures Valid() && fresh(repr - old(repr))
      ensures (State(), g) == Step(env, old(State()), old(g), OpAlloc(size, unpack, grant))
      ensures Ready(env, old(State())) && p == PtrOf(AllocOp(env, old(State()), size, unpack, grant).1)
    {
      hide IxInv;
      hide Step;
      hide AllocOp;
      hide AllocIx;
      hide Ready;
      hide Usable;
      hide InPool;
      hide EnvOk;
      AllocStep(env, State(), g, size, unpack, grant);
      ghost var g' := Step(env, State(), g, OpAlloc(size, unpack, grant)).1;
      p := CHK_NULL;
      if CeilDiv(size, 8) <= MAX_WORDS {
        var rc := Uncompress(unpack);
        if rc == 0 {
          p := AllocOpen(size, grant);
        }
      }
      Record(g');
    }

    /** `free(ptr, size)` */
    method Free(p: Ptr, bytes: nat, unpack: bool)
      requires Valid() && Legal(State(), g, OpFree(p, bytes, unpack))
      modifies repr
      ensures Valid() && fresh(repr - old(repr))
      ensures (State(), g) == Step(env, old(State()), old(g), OpFree(p, bytes, unpack))
    {
      hide IxInv;
      hide Step;
      hide Legal;
      hide Wired;
      hide Chunks;
      hide InRepr;
      hide InPool;
      hide ChkHeap.Free;
      FreeStep(env, State(), g, p, bytes, unpack);
      ghost var g' := Step(env, State(), g, OpFree(p, bytes, unpack)).1;
      var rc := Uncompress(unpack);
      if rc == 0 {
        var size := if bytes > 0 then bytes / 8 else p.size;
        InReprAt(chkAddr, repr, p.no);
        ghost var h := mgr.HeapOf(chkAddr);
        ReleaseOf(chkAddr, mgr, Ptr(p.no, p.off, size));
        assert mgr.HeapOf(chkAddr) == ChkHeap.Free(h, NamedBlk(p, bytes));
      }
      Record(g');
    }

    /** A client's store into cell `k` of the chunk of block `b`. */
    method StoreCell(ghost b: Blk, no: nat, k: nat, v: Cell)
      requires Valid() && no == b.no && Legal(State(), g, OpStore(b, k, v))
      modifies repr
      ensures Valid() && repr == old(repr)
      ensures (State(), g) == Step(env, old(State()), old(g), OpStore(b, k, v))
    {
      hide IxInv;
      hide Step;
      hide Legal;
      hide Wired;
      hide Chunks;
      hide InRepr;
      hide InPool;
      StoreStep(env, State(), g, b, k, v);
      ghost var h := mgr.HeapOf(chkAddr);
      InReprAt(chkAddr, repr, no);
      WiredAt(chkAddr, no);
      SetCell(chkAddr, no, k, v);
      assert mgr.HeapOf(chkAddr) == Store(h, no, k, v);
    }

    /** `shrink` of the last chunk. */
    method ShrinkLast(grant: bool)
      requires Phys() && InPool() && chkAddr != [] && Shape(State().heap)
      modifies repr
      ensures Phys() && InPool() && fresh(repr - old(repr)) && g == old(g)
      ensures State() == ChkIndexSpec.Shrink(env, old(State()), grant)
    {
      hide Wired;
      hide Chunks;
      hide InRepr;
      hide OwnBlocks;
      hide ShrinkPlace;
      hide ShrinkChunk;
      hide SetLast;
      hide Excess;
      hide ChkIndexSpec.Shrink;
      ghost var was := State();
      assert Sane(Last(was.heap), |chkAddr| - 1);
      hide Shape;
      InReprAt(chkAddr, repr, |chkAddr| - 1);
      var cs, r := ShrinkLastOf(sys, chkAddr, mgr, grant, repr);
      ShrinkIs(env, was, grant, mgr.HeapOf(cs), sys.ledger);
      Adopt(cs, r);
    }

    /** `shrink()`, where it is safe. */
    method Shrink(grant: bool)
      requires Valid() && MayShrink(State())
      modifies repr
      ensures Valid() && fresh(repr - old(repr))
      ensures (State(), g) == Step(env, old(State()), old(g), OpShrink(grant))
    {
      hide IxInv;
      hide Step;
      hide Wired;
      hide Chunks;
      hide InRepr;
      hide OwnBlocks;
      hide Inv;
      hide Shape;
      hide HeapWritable;
      ghost var was := State();
      MoveStep(env, was, g, OpShrink(grant));
      ghost var g' := Step(env, was, g, OpShrink(grant)).1;
      if chkAddr != [] {
        ShrinkLast(grant);
      }
      Record(g');
    }

    /** `enlarge()` */
    method Enlarge(unpack: bool, grant: bool) returns (rc: int, ghost tail: seq<Cell>)
      requires Valid()
      modifies repr
      ensures Valid() && fresh(repr - old(repr))
      ensures (State(), g) == Step(env, old(State()), old(g), OpEnlarge(unpack, grant, tail))
      ensures Ready(env, old(State())) && rc == EnlargeOp(env, old(State()), unpack, grant, tail).1
      ensures rc == if old(packed.Some?) && !unpack then -1
                    else if !grant && !env.pooled
                        && old(View(State(), g).chunks != [] && LastCap(State(), g) < MAX_CAP) then -3
                    else 0
    {
      hide IxInv;
      hide Step;
      hide EnlargeOp;
      hide Ready;
      hide Wired;
      hide Chunks;
      hide InRepr;
      hide OwnBlocks;
      hide SplitIx;
      hide EnlargeLast;
      hide Shape;
      ghost var was, g0 := State(), g;
      EnlargeStep(env, was, g, unpack, grant);
      forall t { EnlargeCodes(env, was, g, unpack, grant, t); }
      tail := [];
      rc := Uncompress(unpack);
      if rc != 0 {
        EnlargeDone(env, was, g0, unpack, grant, tail);
        return -1, tail;
      }
      SplitContinuousChunk();
      rc, tail := ChkEnlarge(true, grant);
      EnlargeDone(env, was, g0, unpack, grant, tail);
      if rc != 0 {
        rc := -3;
      }
    }

    /** `destruct()`: on a compressed index it does nothing. */
    method Destruct()
      requires Valid()
      modifies repr
      ensures Valid() && repr == old(repr)
      ensures (State(), g) == Step(env, old(State()), old(g), OpDestruct)
    {
      hide IxInv;
      hide Step;
      hide Wired;
      hide Chunks;
      hide InRepr;
      hide OwnBlocks;
      ghost var was := State();
      MoveStep(env, was, g, OpDestruct);
      ghost var g' := Step(env, was, g, OpDestruct).1;
      Teardown();
      Record(g');
    }

    /** `compress` once there is something to compress and memory to do it in. */
    method Pack(percent: nat)
      requires Phys() && InPool() && chkAddr != [] && packed.None? && HeapWritable(State().heap)
      requires Legible(Images(State().heap), 2 * Last(State().heap).virgin)
      requires 256 * State().heap.mgr.totalCap == |Block(Images(State().heap))|
      modifies this, sys
      ensures Phys() && InPool() && repr == old(repr) && g == old(g)
      ensures State() == ChkIndexSpec.Compress(env, old(State()), percent, true).0
    {
      hide Wired;
      hide Chunks;
      hide InRepr;
      hide OwnBlocks;
      hide HeapWritable;
      hide Flatten;
      hide Legible;
      hide Images;
      hide Block;
      ghost var was := State();
      var img := Gather();
      var bytes := env.codec.pack(img);
      var block := sys.Reserve(PackedBlock);
      assert State() == was.(sys := Obtain(was.sys, PackedBlock));
      if (|bytes| + 4) * 100 > percent * 1024 * mgr.totalCap {
        sys.Dellocate(Addr(block, 0), PackedBlock);
        assert mgr.HeapOf(chkAddr) == was.heap;
        return;
      }
      Teardown();
      packed := Some(Packed(block, bytes));
    }

    /** `compress(percent)` */
    method Compress(percent: nat, grant: bool) returns (rc: int)
      requires Valid()
      modifies repr
      ensures Valid() && repr == old(repr)
      ensures (State(), g) == Step(env, old(State()), old(g), OpCompress(percent, grant))
      ensures old(State()).heap.chunks == [] || HeapWritable(old(State()).heap)
      ensures rc == ChkIndexSpec.Compress(env, old(State()), percent, grant).1
    {
      hide IxInv;
      hide Step;
      hide Wired;
      hide Chunks;
      hide InRepr;
      hide OwnBlocks;
      hide HeapWritable;
      hide Flatten;
      hide Legible;
      hide Images;
      hide Block;
      ghost var was := State();
      CompressStep(env, was, g, percent, grant);
      ghost var g' := Step(env, was, g, OpCompress(percent, grant)).1;
      rc := 0;
      if chkAddr != [] && packed.None? {
        if grant {
          Pack(percent);
        } else {
          rc := -1;
        }
      }
      Record(g');
    }

    /** `init_boot(boot_size)`: an allocation that must be the first of the index.  It returns -1 if there is
        no block, 0 if the block is the one right behind the manager, and -2 if it is another one.  After 0
        that block is live; otherwise the live blocks are as before. */
    method InitBoot(bootSize: nat, unpack: bool, grant: bool) returns (rc: int)
      requires Valid() && bootSize >= 1
      modifies repr
      ensures Valid() && fresh(repr - old(repr)) && Ready(env, old(State()))
      ensures var b := Blk(0, Lo(0), CeilDiv(bootSize, 8), LIVE);
              var r := AllocOp(env, old(State()), bootSize, unpack, grant).1;
              && rc == (if r == None then -1 else if r == Some(b) then 0 else -2)
              && if rc == 0 then !IsLive(old(g), b) && forall c :: IsLive(g, c) <==> IsLive(old(g), c) || c == b
                 else forall c :: IsLive(g, c) <==> IsLive(old(g), c)
      ensures old(packed.None? && State().heap.chunks == []) ==>
                (rc == 0 <==> grant && bootSize <= 8 * MAX_WORDS) && rc != -2
      ensures old(packed.None? && |State().heap.chunks| == 1 && State().heap.chunks[0].virgin == Lo(0)
                  && State().heap.chunks[0].cap == MAX_CAP && forall i :: 0 <= i < 3 ==> g.book.lists[i] == []) ==>
                (rc == 0 <==> bootSize <= 8 * MAX_WORDS) && rc != -2
      ensures (exists b :: IsLive(old(g), b) && b.no == 0 && b.off == Lo(0)) ==> rc != 0
    {
      hide IxInv;
      hide Step;
      hide AllocOp;
      hide Ready;
      hide IsLive;
      ghost var was, g0 := State(), g;
      AllocExactly(env, was, g, bootSize, unpack, grant);
      BootAgain(env, was, g, bootSize, unpack, grant);
      if was.packed.None? && was.heap.chunks == [] { FirstIsBoot(env, was, g, bootSize, unpack, grant); }
      var p := Alloc(bootSize, unpack, grant);
      if p.IsNull() {
        return -1;
      }
      if p.no != 0 || p.off != 2 * (HEADER + MANAGER) {
        ghost var ix1, g1 := State(), g;
        AliveBlock(env, ix1, g1, NamedBlk(p, 0));
        FreeHandle(ix1, g1, p, unpack);
        FreeExactly(env, ix1, g1, p, 0, unpack);
        Free(p, 0, unpack);
        return -2;
      }
      rc := 0;
    }

    /** `boot_addr()`: the first cell behind the manager in chunk 0. */
    method BootAddr(unpack: bool) returns (cell: Option<nat>)
      requires Valid()
      modifies repr
      ensures Valid() && fresh(repr - old(repr)) && g == old(g)
      ensures State() == ChkIndexSpec.Uncompress(env, old(State()), unpack).0
      ensures cell == if ChkIndexSpec.Uncompress(env, old(State()), unpack).1 == 0 && State().heap.chunks != []
                      then Some(2 * Lo(0)) else None
    {
      hide IxInv;
      var rc := Uncompress(unpack);
      if rc != 0 || chkAddr == [] {
        return None;
      }
      cell := Some(2 * (HEADER + MANAGER));
    }
  }
}
