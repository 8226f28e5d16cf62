/**
  The allocator of chk/chk_base.cpp and chk/chk_mem_mgr.cpp on values: chunks, the manager with its
  three size-class free lists threaded through free memory, and the allocation and release steps.

  `Book` is the bookkeeping the program does not have: which blocks are live, which free block is on
  which list, and how many words are lost to fragments too small to be listed.
 */
module ChkHeap {
  import opened ChkBase

  /** Where a chunk lies: a system block and the chunk's base in it, in kilobytes. */
  datatype Addr = Addr(block: nat, base: nat)

  /** A chunk: its header fields, its contents and its address.  The cells that hold the header, and
      in chunk 0 the manager, are present in `cells` but their values live in the fields. */
  datatype Chunk = Chunk(no: nat, used: int, virgin: nat, cap: nat, allocCap: nat, cells: seq<Cell>, at: Addr)

  datatype Heap = Heap(chunks: seq<Chunk>, mgr: Mgr)

  /** `size` words of chunk `no` from word `off` on.  `tag` is LIVE or the number of a free list. */
  datatype Blk = Blk(no: nat, off: nat, size: nat, tag: int)

  const LIVE: int := -1

  datatype Book = Book(blocks: set<Blk>, lists: seq<seq<Blk>>, lost: nat)

  /** The first word of a chunk that can be allocated. */
  function Lo(no: nat): nat {
    if no == 0 then HEADER + MANAGER else HEADER
  }

  // ---------- the invariant ----------

  predicate Sane(c: Chunk, i: nat) {
    && c.no == i && 1 <= c.cap <= MAX_CAP && |c.cells| == CellsIn(c.cap)
    && Lo(i) <= c.virgin <= WordsIn(c.cap)
  }

  predicate Shape(h: Heap) {
    && 1 <= |h.chunks| <= NULL_NO
    && (forall i :: 0 <= i < |h.chunks| ==> Sane(h.chunks[i], i))
    && h.mgr.Shaped()
  }

  /** The block lies between the chunk's overhead and its bump pointer. */
  predicate Placed(h: Heap, b: Blk) {
    && b.no < |h.chunks| && 1 <= b.size
    && Lo(b.no) <= b.off && b.off + b.size <= h.chunks[b.no].virgin
  }

  predicate Disjoint(a: Blk, b: Blk) {
    a.no != b.no || a.off + a.size <= b.off || b.off + b.size <= a.off
  }

  ghost predicate Geometry(h: Heap, bk: Book)
    requires h.mgr.Shaped()
  {
    && (forall b :: b in bk.blocks ==> Placed(h, b) && TagFits(h.mgr, b))
    && (forall a, b {:trigger Disjoint(a, b)} :: a in bk.blocks && b in bk.blocks && a != b ==> Disjoint(a, b))
  }

  predicate TagFits(m: Mgr, b: Blk)
    requires m.Shaped()
  {
    (b.tag == LIVE && b.size <= MAX_WORDS) || (0 <= b.tag < 3 && b.size == m.sizes[b.tag])
  }

  /** The block is in its chunk and its first cell is there to be read. */
  predicate Readable(h: Heap, b: Blk) {
    Placed(h, b) && 2 * b.off < |h.chunks[b.no].cells|
  }

  /** The link kept in the first cell of a free block. */
  function LinkAt(h: Heap, b: Blk): ChkPtr
    requires b.no < |h.chunks| && 2 * b.off < |h.chunks[b.no].cells|
  {
    DecodePtr(h.chunks[b.no].cells[2 * b.off])
  }

  /** The handle leads to entry `j` of the list, or is null at its end. */
  predicate LeadsTo(p: ChkPtr, l: seq<Blk>, j: nat) {
    if j < |l| then p.no == l[j].no && p.off == 2 * l[j].off && !p.IsNull() else p.IsNull()
  }

  /** Following the links in memory from `p` visits exactly the blocks `l`, in order, and ends. */
  ghost predicate Linked(h: Heap, p: ChkPtr, l: seq<Blk>) {
    && LeadsTo(p, l, 0)
    && (forall j :: 0 <= j < |l| ==> Readable(h, l[j]))
    && (forall j {:trigger LinkAt(h, l[j])} :: 0 <= j < |l| ==> LeadsTo(LinkAt(h, l[j]), l, j + 1))
  }

  /** List `i` of the book holds exactly the blocks tagged `i`, each once. */
  ghost predicate Listed(bk: Book) {
    && |bk.lists| == 3
    && (forall i :: 0 <= i < 3 ==> NoRepeat(bk.lists[i]))
    && (forall i, b :: 0 <= i < 3 ==> (b in bk.lists[i] <==> b in bk.blocks && b.tag == i))
  }

  /** The free lists in memory are the lists of the book. */
  ghost predicate Chained(h: Heap, bk: Book) {
    && |bk.lists| == 3 && |h.mgr.heads| == 3
    && (forall i :: 0 <= i < 3 ==> Linked(h, h.mgr.heads[i], bk.lists[i]))
  }

  /** The structural half of the invariant. */
  ghost predicate Struct(h: Heap, bk: Book) {
    Shape(h) && Geometry(h, bk) && Listed(bk) && Chained(h, bk)
  }

  // ---------- word counts ----------

  ghost function Words(s: set<Blk>): nat {
    if s == {} then 0 else var b :| b in s; b.size + Words(s - {b})
  }

  lemma {:induction false} WordsRemove(s: set<Blk>, b: Blk)
    requires b in s
    ensures Words(s) == b.size + Words(s - {b})
    decreases s
  {
    var c :| c in s && Words(s) == c.size + Words(s - {c});
    if b != c {
      WordsRemove(s - {c}, b);
      WordsRemove(s - {b}, c);
      assert s - {c} - {b} == s - {b} - {c};
    }
  }

  lemma WordsAdd(s: set<Blk>, b: Blk)
    requires b !in s
    ensures Words(s + {b}) == Words(s) + b.size
  {
    WordsRemove(s + {b}, b);
    assert s + {b} - {b} == s;
  }

  ghost function LiveIn(bk: Book, no: nat): set<Blk> {
    set b | b in bk.blocks && b.tag == LIVE && b.no == no
  }

  ghost function Pool(bk: Book): set<Blk> {
    set b | b in bk.blocks && b.tag != LIVE
  }

  function Useds(cs: seq<Chunk>): seq<int> {
    seq(|cs|, i requires 0 <= i < |cs| => cs[i].used)
  }

  function Virgins(cs: seq<Chunk>): seq<int> {
    seq(|cs|, i requires 0 <= i < |cs| => cs[i].virgin)
  }

  function Caps(cs: seq<Chunk>): seq<int> {
    seq(|cs|, i requires 0 <= i < |cs| => cs[i].cap)
  }

  /** Each chunk's `used` is its overhead plus its live blocks, and they add up to the total. */
  ghost predicate UsedOk(h: Heap, bk: Book) {
    && (forall i :: 0 <= i < |h.chunks| ==> h.chunks[i].used == Lo(i) + Words(LiveIn(bk, i)))
    && Sum(Useds(h.chunks)) == h.mgr.totalUsed
  }

  /** Conservation: the counters of the chunks and of the manager add up, and agree with the blocks. */
  ghost predicate Counted(h: Heap, bk: Book) {
    && UsedOk(h, bk)
    && Sum(Virgins(h.chunks)) == h.mgr.totalUsed + h.mgr.totalFree
    && h.mgr.totalFree == Words(Pool(bk)) + bk.lost
    && Sum(Caps(h.chunks)) == h.mgr.totalCap
  }

  ghost predicate Inv(h: Heap, bk: Book) {
    Struct(h, bk) && Counted(h, bk)
  }

  // ---------- writing memory ----------

  /** `h'` differs from `h` in words `lo..hi` of chunk `no` and in the list heads at most. */
  ghost predicate OnlyWrote(h: Heap, h': Heap, no: nat, lo: nat, hi: nat) {
    && |h'.chunks| == |h.chunks| && no < |h.chunks|
    && (forall i :: 0 <= i < |h.chunks| && i != no ==> h'.chunks[i] == h.chunks[i])
    && h'.chunks[no] == h.chunks[no].(cells := h'.chunks[no].cells)
    && SameCellsBut(h.chunks[no].cells, h'.chunks[no].cells, 2 * lo, 2 * hi)
    && h'.mgr == h.mgr.(heads := h'.mgr.heads)
  }

  ghost predicate SameCellsBut(a: seq<Cell>, b: seq<Cell>, lo: nat, hi: nat) {
    |b| == |a| && forall k :: 0 <= k < |a| && !(lo <= k < hi) ==> b[k] == a[k]
  }

  function Zeros(n: nat): seq<Cell> {
    seq(n, _ => 0)
  }

  /** `bzero` of cells `lo..hi`. */
  function ZeroRange(cells: seq<Cell>, lo: nat, hi: nat): (r: seq<Cell>)
    requires lo <= hi <= |cells|
    ensures |r| == |cells|
    ensures forall k :: 0 <= k < |r| ==> r[k] == if lo <= k < hi then 0 else cells[k]
  {
    cells[..lo] + Zeros(hi - lo) + cells[hi..]
  }

  function SetCells(h: Heap, no: nat, cells: seq<Cell>): Heap
    requires no < |h.chunks|
  {
    h.(chunks := h.chunks[no := h.chunks[no].(cells := cells)])
  }

  function SetHead(m: Mgr, i: nat, p: ChkPtr): Mgr
    requires i < |m.heads|
  {
    m.(heads := m.heads[i := p])
  }

  // ---------- the free lists ----------

  /** The range lies in chunk `no`, below its bump pointer. */
  predicate InChunk(h: Heap, no: nat, off: nat, size: nat)
    requires Shape(h)
  {
    no < |h.chunks| && Lo(no) <= off && off + size <= h.chunks[no].virgin
  }

  /** Words `off .. off + size` of chunk `no` exist and can be named by a handle. */
  predicate Room(h: Heap, no: nat, off: nat, size: nat) {
    && h.mgr.Shaped() && no < |h.chunks| && no < 2048
    && 2 * (off + size) <= |h.chunks[no].cells| <= CellsIn(MAX_CAP)
  }

  /** Zeroes a block of class `i`, stores the old list head in it and makes it the head. */
  function Push(h: Heap, i: nat, no: nat, off: nat): (r: Heap)
    requires h.mgr.Shaped() && i < 3 && Room(h, no, off, h.mgr.sizes[i])
    ensures r.mgr.sizes == h.mgr.sizes && |r.mgr.heads| == 3
    ensures |r.chunks| == |h.chunks| && |r.chunks[no].cells| == |h.chunks[no].cells|
  {
    var cells := h.chunks[no].cells;
    var zeroed := ZeroRange(cells, 2 * off, 2 * (off + h.mgr.sizes[i]));
    var linked := zeroed[2 * off := EncodePtr(h.mgr.heads[i])];
    SetCells(h, no, linked).(mgr := SetHead(h.mgr, i, Ptr(no, 2 * off, 0)))
  }

  /** The class greedy carving takes next: the highest one that still fits. */
  function Pick(sizes: seq<nat>, left: nat): (i: nat)
    requires |sizes| == 3 && left >= sizes[0]
    ensures i < 3 && sizes[i] <= left
  {
    if left >= sizes[2] then 2 else if left >= sizes[1] then 1 else 0
  }

  /** `ChkMemMgr::free`: cuts `left` words from `off` on into blocks and pushes them. */
  function Carve(h: Heap, no: nat, off: nat, left: nat): (r: Heap)
    requires Room(h, no, off, left)
    ensures |r.chunks| == |h.chunks|
    decreases left
  {
    if left < h.mgr.sizes[0] then h
    else
      var i := Pick(h.mgr.sizes, left);
      Carve(Push(h, i, no, off), no, off + h.mgr.sizes[i], left - h.mgr.sizes[i])
  }

  /** The blocks carving makes, in the order it makes them. */
  function CarveBlocks(sizes: seq<nat>, no: nat, off: nat, left: nat): seq<Blk>
    requires SizesOk(sizes)
    decreases left
  {
    if left < sizes[0] then []
    else
      var i := Pick(sizes, left);
      [Blk(no, off, sizes[i], i)] + CarveBlocks(sizes, no, off + sizes[i], left - sizes[i])
  }

  ghost function BookPush(bk: Book, b: Blk): Book
    requires |bk.lists| == 3 && 0 <= b.tag < 3
  {
    Book(bk.blocks + {b}, bk.lists[b.tag := [b] + bk.lists[b.tag]], bk.lost)
  }

  ghost function BookCarve(sizes: seq<nat>, bk: Book, no: nat, off: nat, left: nat): (r: Book)
    requires SizesOk(sizes) && |bk.lists| == 3
    ensures |r.lists| == 3
    decreases left
  {
    if left < sizes[0] then bk.(lost := bk.lost + left)
    else
      var i := Pick(sizes, left);
      BookCarve(sizes, BookPush(bk, Blk(no, off, sizes[i], i)), no, off + sizes[i], left - sizes[i])
  }

  /** No block of the book meets the range. */
  ghost predicate Vacant(bk: Book, no: nat, off: nat, size: nat) {
    forall b {:trigger Disjoint(b, Blk(no, off, size, LIVE))} :: b in bk.blocks ==>
        Disjoint(b, Blk(no, off, size, LIVE))
  }

  /** Writing a range that no block of a list meets leaves the list as it was. */
  lemma LinkedFrame(h: Heap, h': Heap, no: nat, lo: nat, size: nat, p: ChkPtr, l: seq<Blk>)
    requires Shape(h) && OnlyWrote(h, h', no, lo, lo + size) && Linked(h, p, l)
    requires forall j :: 0 <= j < |l| ==> Disjoint(l[j], Blk(no, lo, size, LIVE))
    ensures Linked(h', p, l)
  {
    forall j | 0 <= j < |l|
      ensures Readable(h', l[j]) && LinkAt(h', l[j]) == LinkAt(h, l[j])
    {
      assert Placed(h, l[j]);
    }
  }

  lemma GeometryFrame(h: Heap, h': Heap, bk: Book, no: nat, lo: nat, hi: nat)
    requires Shape(h) && Geometry(h, bk) && OnlyWrote(h, h', no, lo, hi)
    ensures h'.mgr.Shaped() ==> Geometry(h', bk)
  {
    forall b | b in bk.blocks ensures Placed(h', b) { assert Placed(h, b); }
  }

  lemma LinkIs(h: Heap, b: Blk, p: ChkPtr)
    requires b.no < |h.chunks| && 2 * b.off < |h.chunks[b.no].cells|
    requires h.chunks[b.no].cells[2 * b.off] == EncodePtr(p)
    ensures LinkAt(h, b) == p
  {
    PtrRoundTrip(p, 0);
  }

  lemma LinkOfPushed(h: Heap, i: nat, no: nat, off: nat)
    requires Shape(h) && i < 3 && InChunk(h, no, off, h.mgr.sizes[i])
    ensures LinkAt(Push(h, i, no, off), Blk(no, off, h.mgr.sizes[i], i)) == h.mgr.heads[i]
  {
    LinkIs(Push(h, i, no, off), Blk(no, off, h.mgr.sizes[i], i), h.mgr.heads[i]);
  }

  lemma LinkedPush(h: Heap, l: seq<Blk>, i: nat, b: Blk)
    requires Shape(h) && i < 3 && InChunk(h, b.no, b.off, h.mgr.sizes[i]) && b.size == h.mgr.sizes[i]
    requires Linked(Push(h, i, b.no, b.off), h.mgr.heads[i], l)
    ensures var h' := Push(h, i, b.no, b.off); Linked(h', h'.mgr.heads[i], [b] + l)
  {
    var h' := Push(h, i, b.no, b.off);
    var l' := [b] + l;
    LinkOfPushed(h, i, b.no, b.off);
    forall j | 0 <= j < |l'|
      ensures Readable(h', l'[j]) && LeadsTo(LinkAt(h', l'[j]), l', j + 1)
    {
      if j > 0 {
        assert l'[j] == l[j - 1];
        assert LeadsTo(LinkAt(h', l[j - 1]), l, j);
      }
    }
  }

  lemma GeometryPush(h: Heap, bk: Book, b: Blk)
    requires Shape(h) && Geometry(h, bk) && Placed(h, b) && TagFits(h.mgr, b)
    requires Vacant(bk, b.no, b.off, b.size)
    ensures Geometry(h, bk.(blocks := bk.blocks + {b})) && b !in bk.blocks
  {
    forall c | c in bk.blocks ensures Disjoint(c, b) && Disjoint(b, c) {
      assert Disjoint(c, Blk(b.no, b.off, b.size, LIVE));
    }
  }

  lemma ListedPush(bk: Book, b: Blk)
    requires Listed(bk) && b !in bk.blocks && 0 <= b.tag < 3
    ensures Listed(BookPush(bk, b))
  {
    var l := bk.lists[b.tag];
    assert forall j :: 0 <= j < |l| ==> l[j] in bk.blocks;
  }

  lemma PushWrites(h: Heap, i: nat, no: nat, off: nat)
    requires h.mgr.Shaped() && i < 3 && Room(h, no, off, h.mgr.sizes[i])
    ensures OnlyWrote(h, Push(h, i, no, off), no, off, off + h.mgr.sizes[i])
  {
  }

  lemma PushKeeps(h: Heap, bk: Book, i: nat, no: nat, off: nat)
    requires Struct(h, bk) && i < 3 && InChunk(h, no, off, h.mgr.sizes[i])
    requires Vacant(bk, no, off, h.mgr.sizes[i])
    ensures Struct(Push(h, i, no, off), BookPush(bk, Blk(no, off, h.mgr.sizes[i], i)))
    ensures Push(h, i, no, off).chunks[no].virgin == h.chunks[no].virgin
  {
    var b := Blk(no, off, h.mgr.sizes[i], i);
    var h', bk' := Push(h, i, no, off), BookPush(bk, b);
    PushWrites(h, i, no, off);
    WroteShape(h, h', no, off, off + b.size);
    GeometryFrame(h, h', bk, no, off, off + b.size);
    GeometryPush(h', bk, b);
    assert Geometry(h', bk') by { assert bk'.blocks == bk.blocks + {b}; }
    ListedPush(bk, b);
    forall k | 0 <= k < 3 ensures Linked(h', h'.mgr.heads[k], bk'.lists[k]) {
      var l := bk.lists[k];
      forall j | 0 <= j < |l| ensures Disjoint(l[j], b) { assert l[j] in bk.blocks; }
      LinkedFrame(h, h', no, off, b.size, h.mgr.heads[k], l);
      if k == i { LinkedPush(h, l, i, b); }
    }
  }

  /** A block inside `off .. off + size` of chunk `no`. */
  predicate Inside(b: Blk, no: nat, off: nat, size: nat) {
    b.no == no && off <= b.off && b.off + b.size <= off + size
  }

  /** Carving adds free blocks inside the carved range and nothing else. */
  lemma {:induction false} BookCarveAdds(sizes: seq<nat>, bk: Book, no: nat, off: nat, left: nat, b: Blk)
    requires SizesOk(sizes) && |bk.lists| == 3
    ensures b in bk.blocks ==> b in BookCarve(sizes, bk, no, off, left).blocks
    ensures b in BookCarve(sizes, bk, no, off, left).blocks ==>
              b in bk.blocks || (Inside(b, no, off, left) && b.tag != LIVE)
    decreases left
  {
    if left >= sizes[0] {
      var i := Pick(sizes, left);
      var c := Blk(no, off, sizes[i], i);
      BookCarveAdds(sizes, BookPush(bk, c), no, off + sizes[i], left - sizes[i], b);
    }
  }

  /** Filling the front of a vacant range leaves the rest of it vacant. */
  lemma VacantRest(bk: Book, no: nat, off: nat, size: nat, left: nat, tag: int)
    requires Vacant(bk, no, off, left) && 1 <= size <= left && |bk.lists| == 3 && 0 <= tag < 3
    ensures Vacant(bk, no, off, size) && Blk(no, off, size, tag) !in bk.blocks
    ensures Vacant(BookPush(bk, Blk(no, off, size, tag)), no, off + size, left - size)
  {
    forall c | c in bk.blocks
      ensures Disjoint(c, Blk(no, off, size, LIVE)) && Disjoint(c, Blk(no, off + size, left - size, LIVE))
    {
      assert Disjoint(c, Blk(no, off, left, LIVE));
    }
    assert !Disjoint(Blk(no, off, size, tag), Blk(no, off, size, LIVE));
  }

  /** One round of carving, on the heap. */
  lemma CarveOnce(h: Heap, no: nat, off: nat, left: nat, i: nat)
    requires Room(h, no, off, left) && left >= h.mgr.sizes[0] && i == Pick(h.mgr.sizes, left)
    ensures i < 3 && 1 <= h.mgr.sizes[i] <= left && Room(h, no, off, h.mgr.sizes[i])
    ensures var h', size := Push(h, i, no, off), h.mgr.sizes[i];
            && Room(h', no, off + size, left - size)
            && Carve(h', no, off + size, left - size) == Carve(h, no, off, left)
            && h'.mgr.sizes == h.mgr.sizes
  {
  }

  /** The same round, on the book. */
  lemma BookCarveOnce(sizes: seq<nat>, bk: Book, no: nat, off: nat, left: nat, i: nat)
    requires SizesOk(sizes) && |bk.lists| == 3 && left >= sizes[0] && i == Pick(sizes, left)
    ensures BookCarve(sizes, bk, no, off, left)
            == BookCarve(sizes, BookPush(bk, Blk(no, off, sizes[i], i)), no, off + sizes[i], left - sizes[i])
  {
  }

  lemma CarveUnfold(h: Heap, bk: Book, no: nat, off: nat, left: nat, i: nat)
    requires Room(h, no, off, left) && |bk.lists| == 3 && left >= h.mgr.sizes[0] && i == Pick(h.mgr.sizes, left)
    ensures var sizes := h.mgr.sizes;
            && Carve(h, no, off, left) == Carve(Push(h, i, no, off), no, off + sizes[i], left - sizes[i])
            && BookCarve(sizes, bk, no, off, left)
               == BookCarve(sizes, BookPush(bk, Blk(no, off, sizes[i], i)), no, off + sizes[i], left - sizes[i])
  {
    hide Push;
    hide Carve;
    hide BookCarve;
    CarveOnce(h, no, off, left, i);
    BookCarveOnce(h.mgr.sizes, bk, no, off, left, i);
  }

  lemma CarveDone(h: Heap, no: nat, off: nat, left: nat)
    requires Room(h, no, off, left) && left < h.mgr.sizes[0]
    ensures Carve(h, no, off, left) == h
  {
  }

  lemma RoomShaped(h: Heap, no: nat, off: nat, left: nat)
    requires Room(h, no, off, left)
    ensures h.mgr.Shaped() && no < |h.chunks|
  {
  }

  /** One round of the carving loop, on the heap and on the book. */
  lemma CarveRound(h: Heap, bk: Book, sizes: seq<nat>, no: nat, off: nat, left: nat)
    returns (h1: Heap, bk1: Book, size: nat)
    requires Struct(h, bk) && InChunk(h, no, off, left) && Vacant(bk, no, off, left)
    requires h.mgr.sizes == sizes && left >= sizes[0]
    ensures 1 <= size <= left && h1.mgr.sizes == sizes
    ensures Struct(h1, bk1) && InChunk(h1, no, off + size, left - size) && Vacant(bk1, no, off + size, left - size)
    ensures Carve(h, no, off, left) == Carve(h1, no, off + size, left - size)
    ensures BookCarve(sizes, bk, no, off, left) == BookCarve(sizes, bk1, no, off + size, left - size)
  {
    hide Carve;
    hide BookCarve;
    var i := Pick(sizes, left);
    size := sizes[i];
    CarveUnfold(h, bk, no, off, left, i);
    VacantRest(bk, no, off, size, left, i);
    PushKeeps(h, bk, i, no, off);
    h1, bk1 := Push(h, i, no, off), BookPush(bk, Blk(no, off, size, i));
  }

  lemma CarveEnd(h: Heap, bk: Book, no: nat, off: nat, left: nat)
    requires Room(h, no, off, left) && left < h.mgr.sizes[0] && |bk.lists| == 3
    ensures Carve(h, no, off, left) == h
    ensures BookCarve(h.mgr.sizes, bk, no, off, left) == bk.(lost := bk.lost + left)
  {
  }

  lemma {:induction false} CarveStruct(h: Heap, bk: Book, sizes: seq<nat>, no: nat, off: nat, left: nat)
    requires Struct(h, bk) && InChunk(h, no, off, left) && Vacant(bk, no, off, left) && h.mgr.sizes == sizes
    ensures Struct(Carve(h, no, off, left), BookCarve(sizes, bk, no, off, left))
    decreases left
  {
    hide Carve;
    hide BookCarve;
    if left >= sizes[0] {
      var h1, bk1, size := CarveRound(h, bk, sizes, no, off, left);
      CarveStruct(h1, bk1, sizes, no, off + size, left - size);
    } else {
      CarveEnd(h, bk, no, off, left);
    }
  }

  lemma WroteShape(h: Heap, h': Heap, no: nat, lo: nat, hi: nat)
    requires Shape(h) && OnlyWrote(h, h', no, lo, hi) && |h'.mgr.heads| == 3
    ensures Shape(h')
  {
  }

  lemma WroteTwice(h: Heap, h1: Heap, h2: Heap, no: nat, lo: nat, a: nat, b: nat)
    requires OnlyWrote(h, h1, no, lo, lo + a) && OnlyWrote(h1, h2, no, lo + a, lo + a + b)
    ensures OnlyWrote(h, h2, no, lo, lo + a + b)
  {
  }

  /** Carving writes only inside the range it carves. */
  lemma {:induction false} CarveWrites(h: Heap, no: nat, off: nat, left: nat, h': Heap)
    requires Room(h, no, off, left) && h' == Carve(h, no, off, left)
    ensures OnlyWrote(h, h', no, off, off + left) && |h'.mgr.heads| == 3
    decreases left
  {
    if left >= h.mgr.sizes[0] {
      var i := Pick(h.mgr.sizes, left);
      var size := h.mgr.sizes[i];
      var h1 := Push(h, i, no, off);
      PushWrites(h, i, no, off);
      CarveWrites(h1, no, off + size, left - size, h');
      WroteTwice(h, h1, h', no, off, size, left - size);
    }
  }

  /** Every word of a carved range is on a free list or counted as lost; less than the smallest class
      is lost. */
  lemma {:induction false} CarveCounts(sizes: seq<nat>, bk: Book, no: nat, off: nat, left: nat)
    requires SizesOk(sizes) && |bk.lists| == 3
    requires Vacant(bk, no, off, left)
    ensures var bk' := BookCarve(sizes, bk, no, off, left);
            && Words(Pool(bk')) + bk'.lost == Words(Pool(bk)) + bk.lost + left
            && bk.lost <= bk'.lost < bk.lost + sizes[0]
    decreases left
  {
    if left >= sizes[0] {
      var i := Pick(sizes, left);
      var b := Blk(no, off, sizes[i], i);
      VacantRest(bk, no, off, b.size, left, i);
      CarveCounts(sizes, BookPush(bk, b), no, off + b.size, left - b.size);
      assert Pool(BookPush(bk, b)) == Pool(bk) + {b};
      WordsAdd(Pool(bk), b);
    }
  }

  // ---------- taking a block off a list ----------

  /** The head of list `i` is a handle to a whole block of class `i`. */
  predicate HeadOk(h: Heap, i: nat)
    requires h.mgr.Shaped() && i < 3
  {
    var p := h.mgr.heads[i];
    !p.IsNull() && p.off % 2 == 0 && Room(h, p.no, p.off / 2, h.mgr.sizes[i])
  }

  /** `chk_slist_pop`: the head moves on to the block's link, and the link in the block becomes null
      in its chunk number only. */
  function Pop(h: Heap, i: nat): (r: Heap)
    requires h.mgr.Shaped() && i < 3 && HeadOk(h, i)
    ensures r.mgr.sizes == h.mgr.sizes && |r.mgr.heads| == 3
    ensures var no := h.mgr.heads[i].no; |r.chunks| == |h.chunks| && |r.chunks[no].cells| == |h.chunks[no].cells|
  {
    var p := h.mgr.heads[i];
    var cells := h.chunks[p.no].cells;
    var link := DecodePtr(cells[p.off]);
    SetCells(h, p.no, cells[p.off := EncodePtr(Ptr(NULL_NO, link.off, link.size))]).(mgr := SetHead(h.mgr, i, link))
  }

  ghost function BookPop(bk: Book, i: nat): Book
    requires i < |bk.lists| && bk.lists[i] != []
  {
    Book(bk.blocks - {bk.lists[i][0]}, bk.lists[i := bk.lists[i][1..]], bk.lost)
  }

  /** The list in memory is empty exactly when the list of the book is, and its head is usable. */
  lemma HeadOfList(h: Heap, bk: Book, i: nat)
    requires Struct(h, bk) && i < 3
    ensures h.mgr.heads[i].IsNull() <==> bk.lists[i] == []
    ensures bk.lists[i] != [] ==>
              && HeadOk(h, i)
              && var b := bk.lists[i][0]; var p := h.mgr.heads[i];
              b in bk.blocks && b == Blk(p.no, p.off / 2, h.mgr.sizes[i], i)
  {
    var l := bk.lists[i];
    assert LeadsTo(h.mgr.heads[i], l, 0);
    if l != [] {
      assert l[0] in bk.blocks;
      assert Placed(h, l[0]) && TagFits(h.mgr, l[0]);
    }
  }

  lemma ListedPop(bk: Book, i: nat)
    requires Listed(bk) && i < 3 && bk.lists[i] != []
    ensures Listed(BookPop(bk, i))
  {
    var l := bk.lists[i];
    var bk' := BookPop(bk, i);
    assert l == [l[0]] + l[1..];
    assert l[0] in l;
    assert forall j :: 0 <= j < |l[1..]| ==> l[1..][j] == l[j + 1];
    forall k, b | 0 <= k < 3 ensures b in bk'.lists[k] <==> b in bk'.blocks && b.tag == k {
      if k != i { assert b in bk.lists[k] <==> b in bk.blocks && b.tag == k; }
    }
  }

  lemma LinkedPop(h: Heap, h': Heap, i: nat, l: seq<Blk>)
    requires h.mgr.Shaped() && i < 3 && HeadOk(h, i) && h' == Pop(h, i) && l != []
    requires Linked(h, h.mgr.heads[i], l) && Linked(h', LinkAt(h, l[0]), l[1..])
    ensures Linked(h', h'.mgr.heads[i], l[1..])
  {
    assert LeadsTo(h.mgr.heads[i], l, 0);
  }

  lemma LinkedTail(h: Heap, p: ChkPtr, l: seq<Blk>)
    requires Linked(h, p, l) && l != []
    ensures Readable(h, l[0]) && Linked(h, LinkAt(h, l[0]), l[1..])
  {
    var t := l[1..];
    assert LeadsTo(LinkAt(h, l[0]), l, 1);
    forall j | 0 <= j < |t| ensures Readable(h, t[j]) && LeadsTo(LinkAt(h, t[j]), t, j + 1) {
      assert t[j] == l[j + 1];
      assert LeadsTo(LinkAt(h, l[j + 1]), l, j + 2);
    }
  }

  lemma PopWrites(h: Heap, i: nat)
    requires h.mgr.Shaped() && i < 3 && HeadOk(h, i)
    ensures var p := h.mgr.heads[i]; OnlyWrote(h, Pop(h, i), p.no, p.off / 2, p.off / 2 + 1)
  {
  }

  lemma ChainedPop(h: Heap, bk: Book, i: nat)
    requires Struct(h, bk) && i < 3 && HeadOk(h, i) && bk.lists[i] != []
    requires var p := h.mgr.heads[i]; bk.lists[i][0] == Blk(p.no, p.off / 2, h.mgr.sizes[i], i)
    ensures Chained(Pop(h, i), BookPop(bk, i))
  {
    var h', bk' := Pop(h, i), BookPop(bk, i);
    var l := bk.lists[i];
    var b := l[0];
    ListedPop(bk, i);
    PopWrites(h, i);
    LinkedTail(h, h.mgr.heads[i], l);
    assert b in l;
    forall k | 0 <= k < 3 ensures Linked(h', h'.mgr.heads[k], bk'.lists[k]) {
      var t := bk'.lists[k];
      forall j | 0 <= j < |t| ensures Disjoint(t[j], Blk(b.no, b.off, 1, LIVE)) {
        assert t[j] in bk'.blocks && t[j] != b;
        assert Disjoint(t[j], b);
      }
      LinkedFrame(h, h', b.no, b.off, 1, if k == i then LinkAt(h, b) else h.mgr.heads[k], t);
      if k == i { LinkedPop(h, h', i, l); }
    }
  }

  lemma PopKeeps(h: Heap, bk: Book, i: nat)
    requires Struct(h, bk) && i < 3 && !h.mgr.heads[i].IsNull()
    ensures HeadOk(h, i) && bk.lists[i] != []
    ensures var bk' := BookPop(bk, i); var b := bk.lists[i][0];
            && Struct(Pop(h, i), bk') && Vacant(bk', b.no, b.off, b.size)
            && Words(Pool(bk)) == Words(Pool(bk')) + b.size
  {
    HeadOfList(h, bk, i);
    var h', bk' := Pop(h, i), BookPop(bk, i);
    var b := bk.lists[i][0];
    ListedPop(bk, i);
    PopWrites(h, i);
    GeometryFrame(h, h', bk, b.no, b.off, b.off + 1);
    assert Geometry(h', bk') by { assert bk'.blocks <= bk.blocks; }
    ChainedPop(h, bk, i);
    assert Vacant(bk', b.no, b.off, b.size) by {
      forall c | c in bk'.blocks ensures Disjoint(c, Blk(b.no, b.off, b.size, LIVE)) { assert Disjoint(c, b); }
    }
    assert b in Pool(bk);
    assert Pool(bk') == Pool(bk) - {b};
    WordsRemove(Pool(bk), b);
  }

  // ---------- contents ----------

  /** The words of block `b` hold the same in both heaps. */
  ghost predicate Kept(h: Heap, h': Heap, b: Blk) {
    && b.no < |h.chunks| && b.no < |h'.chunks|
    && 2 * (b.off + b.size) <= |h.chunks[b.no].cells| && 2 * (b.off + b.size) <= |h'.chunks[b.no].cells|
    && forall k :: 2 * b.off <= k < 2 * (b.off + b.size) ==> h'.chunks[b.no].cells[k] == h.chunks[b.no].cells[k]
  }

  lemma KeptFrame(h: Heap, h': Heap, no: nat, lo: nat, size: nat, b: Blk)
    requires Shape(h) && OnlyWrote(h, h', no, lo, lo + size) && Placed(h, b)
    requires Disjoint(b, Blk(no, lo, size, LIVE))
    ensures Kept(h, h', b)
  {
  }

  // ---------- conservation ----------

  lemma ChunkSums(cs: seq<Chunk>, no: nat, c: Chunk)
    requires no < |cs|
    ensures Sum(Useds(cs[no := c])) == Sum(Useds(cs)) - cs[no].used + c.used
    ensures Sum(Virgins(cs[no := c])) == Sum(Virgins(cs)) - cs[no].virgin + c.virgin
    ensures Sum(Caps(cs[no := c])) == Sum(Caps(cs)) - cs[no].cap + c.cap
  {
    assert Useds(cs[no := c]) == Useds(cs)[no := c.used];
    assert Virgins(cs[no := c]) == Virgins(cs)[no := c.virgin];
    assert Caps(cs[no := c]) == Caps(cs)[no := c.cap];
    SumUpdate(Useds(cs), no, c.used);
    SumUpdate(Virgins(cs), no, c.virgin);
    SumUpdate(Caps(cs), no, c.cap);
  }

  lemma ChunkSumsAppend(cs: seq<Chunk>, c: Chunk)
    ensures Sum(Useds(cs + [c])) == Sum(Useds(cs)) + c.used
    ensures Sum(Virgins(cs + [c])) == Sum(Virgins(cs)) + c.virgin
    ensures Sum(Caps(cs + [c])) == Sum(Caps(cs)) + c.cap
  {
    assert Useds(cs + [c]) == Useds(cs) + [c.used];
    assert Virgins(cs + [c]) == Virgins(cs) + [c.virgin];
    assert Caps(cs + [c]) == Caps(cs) + [c.cap];
    SumAppend(Useds(cs), c.used);
    SumAppend(Virgins(cs), c.virgin);
    SumAppend(Caps(cs), c.cap);
  }

  /** Heaps that agree on everything but memory and list heads have the same sums. */
  lemma FrameSums(h: Heap, h': Heap, no: nat, lo: nat, hi: nat)
    requires OnlyWrote(h, h', no, lo, hi)
    ensures Sum(Useds(h'.chunks)) == Sum(Useds(h.chunks))
    ensures Sum(Virgins(h'.chunks)) == Sum(Virgins(h.chunks))
    ensures Sum(Caps(h'.chunks)) == Sum(Caps(h.chunks))
  {
    assert Useds(h'.chunks) == Useds(h.chunks);
    assert Virgins(h'.chunks) == Virgins(h.chunks);
    assert Caps(h'.chunks) == Caps(h.chunks);
  }

  // ---------- allocation ----------

  /** The first class that is large enough and has a free block; 3 when there is none. */
  function FirstFit(m: Mgr, size: nat): (i: nat)
    requires m.Shaped()
    ensures i <= 3
    ensures i < 3 ==> size <= m.sizes[i] && !m.heads[i].IsNull()
    ensures forall j :: 0 <= j < i ==> m.sizes[j] < size || m.heads[j].IsNull()
  {
    if size <= m.sizes[0] && !m.heads[0].IsNull() then 0
    else if size <= m.sizes[1] && !m.heads[1].IsNull() then 1
    else if size <= m.sizes[2] && !m.heads[2].IsNull() then 2
    else 3
  }

  /** Every non-null list head is a handle to a whole block of its class. */
  predicate HeadsOk(h: Heap)
    requires h.mgr.Shaped()
  {
    forall i :: 0 <= i < 3 && !h.mgr.heads[i].IsNull() ==> HeadOk(h, i)
  }

  /** `ChkMemMgr::alloc` on a hit: takes the head of list `i` and carves up what is not asked for. */
  function PoolTake(h: Heap, i: nat, size: nat): Heap
    requires h.mgr.Shaped() && i < 3 && HeadOk(h, i) && size <= h.mgr.sizes[i]
  {
    var p := h.mgr.heads[i];
    Carve(Pop(h, i), p.no, p.off / 2 + size, h.mgr.sizes[i] - size)
  }

  /** Counts `size` more words of chunk `no` as used. */
  function Charge(h: Heap, no: nat, size: int): Heap
    requires no < |h.chunks|
  {
    h.(chunks := h.chunks[no := h.chunks[no].(used := h.chunks[no].used + size)],
       mgr := h.mgr.(totalUsed := h.mgr.totalUsed + size))
  }

  function AddFree(h: Heap, size: int): Heap {
    h.(mgr := h.mgr.(totalFree := h.mgr.totalFree + size))
  }

  function SetVirgin(h: Heap, no: nat, virgin: nat): Heap
    requires no < |h.chunks|
  {
    h.(chunks := h.chunks[no := h.chunks[no].(virgin := virgin)])
  }

  predicate BumpFits(h: Heap, size: nat)
    requires h.chunks != []
  {
    var c := h.chunks[|h.chunks| - 1];
    c.virgin + size <= WordsIn(c.cap)
  }

  /** `ChkMetadata::alloc` on the last chunk, charged to it. */
  function Bump(h: Heap, size: nat): Heap
    requires h.chunks != []
  {
    var n := |h.chunks| - 1;
    Charge(SetVirgin(h, n, h.chunks[n].virgin + size), n, size)
  }

  /** A full-size chunk as `ChkMetadata::enlarge(NULL)` makes it. */
  function NewChunk(no: nat, overhead: nat, at: Addr): Chunk {
    Chunk(no, overhead, overhead, MAX_CAP, MAX_CAP, Zeros(CellsIn(MAX_CAP)), at)
  }

  /** The heap of one chunk, holding the manager. */
  function FirstHeap(sizes: seq<nat>, at: Addr): Heap {
    Heap([NewChunk(0, Lo(0), at)], Mgr(Lo(0), 0, MAX_CAP, sizes, [CHK_NULL, CHK_NULL, CHK_NULL]))
  }

  function AddChunk(h: Heap, at: Addr): Heap
    requires h.chunks != []
  {
    Heap(h.chunks + [NewChunk(|h.chunks|, HEADER, at)],
         h.mgr.(totalCap := h.mgr.totalCap + MAX_CAP, totalUsed := h.mgr.totalUsed + HEADER))
  }

  /** Gives the words of chunk `no` above its bump pointer to the free lists. */
  function Donate(h: Heap, no: nat): (r: Heap)
    requires h.mgr.Shaped() && no < |h.chunks| && no < NULL_NO && Sane(h.chunks[no], no)
    ensures |r.chunks| == |h.chunks|
  {
    var c := h.chunks[no];
    var full := WordsIn(c.cap);
    AddFree(Carve(SetVirgin(h, no, full), no, c.virgin, full - c.virgin), full - c.virgin)
  }

  /** `ChkIndex::alloc` once a chunk is there and the last one is at full size: the free lists, else
      the last chunk, else a new chunk at `at` (`None` when the system refuses), whose predecessor
      gives its tail to the free lists.  Returns no block when all of these fail. */
  function Alloc(h: Heap, size: nat, at: Option<Addr>): (Heap, Option<Blk>)
    requires Shape(h) && HeadsOk(h) && size <= MAX_WORDS
  {
    var i := FirstFit(h.mgr, size);
    var n := |h.chunks|;
    if i < 3 then
      var p := h.mgr.heads[i];
      (Charge(AddFree(PoolTake(h, i, size), 0 - size), p.no, size), Some(Blk(p.no, p.off / 2, size, LIVE)))
    else if BumpFits(h, size) then
      (Bump(h, size), Some(Blk(n - 1, h.chunks[n - 1].virgin, size, LIVE)))
    else if n >= NULL_NO || at == None then
      (h, None)
    else
      (Bump(Donate(AddChunk(h, at.value), n - 1), size), Some(Blk(n, HEADER, size, LIVE)))
  }

  /** `ChkIndex::free` of a block: zeroes it, then lowers the bump pointer if it is the topmost block
      of its chunk and otherwise carves it into the free lists. */
  function Free(h: Heap, b: Blk): Heap
    requires h.mgr.Shaped() && b.no < |h.chunks| && Room(h, b.no, b.off, b.size)
  {
    var z := Zeroed(h, b);
    var f := if b.off + b.size == h.chunks[b.no].virgin then SetVirgin(z, b.no, b.off)
             else Carve(AddFree(z, b.size), b.no, b.off, b.size);
    Charge(f, b.no, 0 - b.size)
  }

  function Zeroed(h: Heap, b: Blk): Heap
    requires b.no < |h.chunks| && 2 * (b.off + b.size) <= |h.chunks[b.no].cells|
  {
    SetCells(h, b.no, ZeroRange(h.chunks[b.no].cells, 2 * b.off, 2 * (b.off + b.size)))
  }

  /** A client's store into cell `k` of chunk `no`. */
  function Store(h: Heap, no: nat, k: nat, v: Cell): Heap
    requires no < |h.chunks| && k < |h.chunks[no].cells|
  {
    SetCells(h, no, h.chunks[no].cells[k := v])
  }

  // ---------- the same steps on the book ----------

  ghost function BookAdd(bk: Book, b: Blk): Book {
    bk.(blocks := bk.blocks + {b})
  }

  ghost function BookTake(sizes: seq<nat>, bk: Book, i: nat, b: Blk, size: nat): (r: Book)
    requires SizesOk(sizes) && |bk.lists| == 3 && i < 3
    requires bk.lists[i] != [] && size <= sizes[i]
    ensures |r.lists| == 3
  {
    BookCarve(sizes, BookPop(bk, i), b.no, b.off + size, sizes[i] - size)
  }

  ghost function BookDonate(h: Heap, bk: Book, no: nat): (r: Book)
    requires h.mgr.Shaped() && no < |h.chunks| && Sane(h.chunks[no], no) && |bk.lists| == 3
    ensures |r.lists| == 3
  {
    var c := h.chunks[no];
    BookCarve(h.mgr.sizes, bk, no, c.virgin, WordsIn(c.cap) - c.virgin)
  }

  ghost function BookAlloc(h: Heap, bk: Book, size: nat, at: Option<Addr>): (r: Book)
    requires Shape(h) && HeadsOk(h) && size <= MAX_WORDS && |bk.lists| == 3
    ensures |r.lists| == 3
  {
    var r := Alloc(h, size, at).1;
    var i := FirstFit(h.mgr, size);
    var n := |h.chunks|;
    if r == None then bk
    else if i < 3 then
      if bk.lists[i] == [] then bk else BookAdd(BookTake(h.mgr.sizes, bk, i, r.value, size), r.value)
    else if BumpFits(h, size) then BookAdd(bk, r.value)
    else BookAdd(BookDonate(AddChunk(h, at.value), bk, n - 1), r.value)
  }

  ghost function Without(bk: Book, b: Blk): Book {
    bk.(blocks := bk.blocks - {b})
  }

  ghost function BookFree(h: Heap, bk: Book, b: Blk): (r: Book)
    ensures |r.lists| == 3
    requires SizesOk(h.mgr.sizes) && b.no < |h.chunks| && |bk.lists| == 3
  {
    if b.off + b.size == h.chunks[b.no].virgin then Without(bk, b)
    else BookCarve(h.mgr.sizes, Without(bk, b), b.no, b.off, b.size)
  }

  lemma HeadsOfLists(h: Heap, bk: Book)
    requires Struct(h, bk)
    ensures HeadsOk(h)
  {
    forall i | 0 <= i < 3 && !h.mgr.heads[i].IsNull() ensures HeadOk(h, i) { HeadOfList(h, bk, i); }
  }

  // ---------- what carries over from heap to heap ----------

  ghost predicate AgreeOn(a: seq<Cell>, b: seq<Cell>, lo: nat, hi: nat) {
    hi <= |a| && hi <= |b| && forall k :: lo <= k < hi ==> b[k] == a[k]
  }

  /** Every chunk of `h` is a chunk of `h'` with the same contents between its overhead and its bump
      pointer, which may have risen; the free-list heads and the size classes are the same. */
  ghost predicate CarriesOver(h: Heap, h': Heap) {
    && |h.chunks| <= |h'.chunks| && h'.mgr.sizes == h.mgr.sizes && h'.mgr.heads == h.mgr.heads
    && forall i :: 0 <= i < |h.chunks| ==> ChunkCarriesOver(h.chunks[i], h'.chunks[i], i)
  }

  ghost predicate ChunkCarriesOver(c: Chunk, c': Chunk, i: nat) {
    c.virgin <= c'.virgin && AgreeOn(c.cells, c'.cells, 2 * Lo(i), 2 * c.virgin)
  }

  /** Whatever carries a heap over keeps every block, every list and every block's contents. */
  lemma CarryOverKeeps(h: Heap, h': Heap, bk: Book)
    requires Struct(h, bk) && Shape(h') && CarriesOver(h, h')
    ensures Struct(h', bk)
    ensures forall b :: b in bk.blocks ==> Kept(h, h', b)
  {
    forall b | b in bk.blocks ensures Placed(h', b) && Kept(h, h', b) {
      assert Placed(h, b);
      assert ChunkCarriesOver(h.chunks[b.no], h'.chunks[b.no], b.no);
    }
    forall i | 0 <= i < 3 ensures Linked(h', h'.mgr.heads[i], bk.lists[i]) {
      LinkedKept(h, h', h.mgr.heads[i], bk.lists[i]);
    }
  }

  lemma LinkedKept(h: Heap, h': Heap, p: ChkPtr, l: seq<Blk>)
    requires Shape(h') && Linked(h, p, l)
    requires forall j :: 0 <= j < |l| ==> Placed(h', l[j]) && Kept(h, h', l[j])
    ensures Linked(h', p, l)
  {
    forall j | 0 <= j < |l| ensures Readable(h', l[j]) && LinkAt(h', l[j]) == LinkAt(h, l[j]) {
      assert Readable(h, l[j]);
      assert Kept(h, h', l[j]);
    }
  }

  /** A vacant range below the bump pointer can become a live block. */
  lemma AddLive(h: Heap, bk: Book, b: Blk)
    requires Struct(h, bk) && Placed(h, b) && b.tag == LIVE && b.size <= MAX_WORDS
    requires Vacant(bk, b.no, b.off, b.size)
    ensures Struct(h, BookAdd(bk, b)) && b !in bk.blocks
  {
    GeometryPush(h, bk, b);
    assert BookAdd(bk, b).blocks == bk.blocks + {b};
    assert Geometry(h, BookAdd(bk, b));
  }

  lemma LiveAdded(bk: Book, b: Blk, no: nat)
    requires b !in bk.blocks && b.tag == LIVE
    ensures Words(LiveIn(BookAdd(bk, b), no)) == Words(LiveIn(bk, no)) + (if b.no == no then b.size else 0)
    ensures Pool(BookAdd(bk, b)) == Pool(bk)
  {
    var bk' := BookAdd(bk, b);
    if b.no == no {
      assert LiveIn(bk', no) == LiveIn(bk, no) + {b};
      WordsAdd(LiveIn(bk, no), b);
    } else {
      assert LiveIn(bk', no) == LiveIn(bk, no);
    }
  }

  /** Above the bump pointer everything is vacant. */
  lemma VacantAbove(h: Heap, bk: Book, no: nat, off: nat, size: nat)
    requires Shape(h) && Geometry(h, bk) && no < |h.chunks| && h.chunks[no].virgin <= off
    ensures Vacant(bk, no, off, size)
  {
    forall c | c in bk.blocks ensures Disjoint(c, Blk(no, off, size, LIVE)) { assert Placed(h, c); }
  }

  /** Charging a new live block to its chunk. */
  lemma ChargeUsed(h: Heap, bk: Book, b: Blk)
    requires UsedOk(h, bk) && b !in bk.blocks && b.tag == LIVE && b.no < |h.chunks|
    ensures var h', bk' := Charge(h, b.no, b.size), BookAdd(bk, b);
            && UsedOk(h', bk') && Pool(bk') == Pool(bk)
            && Sum(Virgins(h'.chunks)) == Sum(Virgins(h.chunks)) && Sum(Caps(h'.chunks)) == Sum(Caps(h.chunks))
  {
    hide Words;
    hide LiveIn;
    hide Pool;
    hide Sum;
    var c := h.chunks[b.no];
    ChunkSums(h.chunks, b.no, c.(used := c.used + b.size));
    LiveAdded(bk, b, b.no);
    forall i: nat ensures Words(LiveIn(BookAdd(bk, b), i)) == Words(LiveIn(bk, i)) + (if b.no == i then b.size else 0) {
      LiveAdded(bk, b, i);
    }
  }
}
