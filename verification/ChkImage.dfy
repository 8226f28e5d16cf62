/**
  Bounds of the bit fields, relocation of chunks, and the flat image that compression stores:
  ChkMetadata::shrink and enlarge, split_continuous_chunk, and the header walk of uncompress.
 */
module ChkImage {
  import opened ChkBase
  import opened ChkHeap
  import opened ChkAlloc

  // ---------- every counter fits its bits ----------

  lemma {:induction false} WordsUnion(s: set<Blk>, t: set<Blk>)
    requires s * t == {}
    ensures Words(s + t) == Words(s) + Words(t)
    decreases s
  {
    if s == {} {
      assert s + t == t;
    } else {
      var b :| b in s;
      WordsUnion(s - {b}, t);
      WordsRemove(s, b);
      WordsRemove(s + t, b);
      assert s + t - {b} == (s - {b}) + t;
    }
  }

  ghost predicate AllDisjoint(s: set<Blk>) {
    forall a, b {:trigger Disjoint(a, b)} :: a in s && b in s && a != b ==> Disjoint(a, b)
  }

  /** Pairwise disjoint blocks of one chunk take up no more words than the range they lie in. */
  lemma {:induction false} Packing(s: set<Blk>, no: nat, lo: nat, hi: nat)
    requires AllDisjoint(s) && lo <= hi
    requires forall b :: b in s ==> 1 <= b.size && Inside(b, no, lo, hi - lo)
    ensures Words(s) <= hi - lo
    decreases s
  {
    if s != {} {
      var b :| b in s;
      var l := set c | c in s && c.off + c.size <= b.off;
      var r := set c | c in s && b.off + b.size <= c.off;
      forall c | c in s && c != b ensures c in l || c in r { assert Disjoint(c, b); }
      assert s - {b} == l + r;
      WordsRemove(s, b);
      WordsUnion(l, r);
      Packing(l, no, lo, b.off);
      Packing(r, no, b.off + b.size, hi);
    }
  }

  /** The words in use in a chunk lie below its bump pointer. */
  lemma UsedBelowVirgin(h: Heap, bk: Book, i: nat)
    requires Inv(h, bk) && i < |h.chunks|
    ensures Lo(i) <= h.chunks[i].used <= h.chunks[i].virgin <= 2048
  {
    var s := LiveIn(bk, i);
    forall b | b in s ensures 1 <= b.size && Inside(b, i, Lo(i), h.chunks[i].virgin - Lo(i)) { assert Placed(h, b); }
    Packing(s, i, Lo(i), h.chunks[i].virgin);
  }

  lemma {:induction false} SumBounds(s: seq<int>, lo: int, hi: int)
    requires forall i :: 0 <= i < |s| ==> lo <= s[i] <= hi
    ensures lo * |s| <= Sum(s) <= hi * |s|
  {
    if s != [] {
      SumBounds(s[..|s| - 1], lo, hi);
      assert lo * |s| == lo * (|s| - 1) + lo && hi * |s| == hi * (|s| - 1) + hi;
    }
  }

  /** In every heap that meets the invariant, all header fields and all manager counters fit the bit
      fields they are stored in: nothing wraps around. */
  lemma FieldsFit(h: Heap, bk: Book)
    requires Inv(h, bk)
    ensures h.mgr.Fits()
    ensures forall i :: 0 <= i < |h.chunks| ==> 0 <= h.chunks[i].used < 0x1000 && h.chunks[i].virgin < 0x1000
  {
    forall i | 0 <= i < |h.chunks|
      ensures 0 <= h.chunks[i].used <= h.chunks[i].virgin <= 2048 && h.chunks[i].cap <= 16
    {
      UsedBelowVirgin(h, bk, i);
    }
    InvParts(h, bk);
    CountersFit(h);
  }

  lemma CountersFit(h: Heap)
    requires Shape(h)
    requires forall i :: 0 <= i < |h.chunks| ==>
               0 <= h.chunks[i].used <= h.chunks[i].virgin <= 2048 && h.chunks[i].cap <= 16
    ensures 0 <= Sum(Useds(h.chunks)) <= 2048 * 2047 && 0 <= Sum(Virgins(h.chunks)) <= 2048 * 2047
    ensures 0 <= Sum(Caps(h.chunks)) <= 16 * 2047
  {
    SumBounds(Useds(h.chunks), 0, 2048);
    SumBounds(Virgins(h.chunks), 0, 2048);
    SumBounds(Caps(h.chunks), 0, 16);
  }

  // ---------- relocation ----------

  /** `h'` is `h` moved in memory: same chunks, counters and bump pointers, same contents between each
      chunk's overhead and its bump pointer; capacities, addresses and the memory above may differ. */
  ghost predicate Relocates(h: Heap, h': Heap) {
    && Shape(h') && |h'.chunks| == |h.chunks| && CarriesOver(h, h')
    && (forall i :: 0 <= i < |h.chunks| ==>
          h'.chunks[i].used == h.chunks[i].used && h'.chunks[i].virgin == h.chunks[i].virgin)
    && h'.mgr == h.mgr.(totalCap := h'.mgr.totalCap) && Sum(Caps(h'.chunks)) == h'.mgr.totalCap
  }

  /** Relocation keeps the invariant and every block, live or free, with its contents. */
  lemma RelocateKeeps(h: Heap, h': Heap, bk: Book)
    requires Inv(h, bk) && Relocates(h, h')
    ensures Inv(h', bk) && forall b :: b in bk.blocks ==> Kept(h, h', b)
  {
    CarryOverKeeps(h, h', bk);
    assert Useds(h'.chunks) == Useds(h.chunks);
    assert Virgins(h'.chunks) == Virgins(h.chunks);
  }

  lemma RelocateTwice(h: Heap, h1: Heap, h2: Heap)
    requires Relocates(h, h1) && Relocates(h1, h2)
    ensures Relocates(h, h2)
  {
    forall i | 0 <= i < |h.chunks| ensures ChunkCarriesOver(h.chunks[i], h2.chunks[i], i) {
      assert ChunkCarriesOver(h.chunks[i], h1.chunks[i], i) && ChunkCarriesOver(h1.chunks[i], h2.chunks[i], i);
    }
  }

  /** `reset_chk` of ChkMetadata::shrink: the whole kilobytes above the bump pointer. */
  function Excess(c: Chunk): int {
    (WordsIn(c.cap) - c.virgin) / 128
  }

  /** The capacity that just holds the words below the bump pointer. */
  function Tight(virgin: nat): nat {
    (virgin + 127) / 128
  }

  /** It is the least that does. */
  lemma TightIsLeast(virgin: nat, cap: nat)
    ensures virgin <= WordsIn(cap) <==> Tight(virgin) <= cap
  {
  }

  lemma ExcessIsTight(c: Chunk, i: nat)
    requires Sane(c, i)
    ensures 0 <= Excess(c) && c.cap - Excess(c) == Tight(c.virgin) && 1 <= Tight(c.virgin) <= c.cap
  {
  }

  /** The last chunk replaced; the manager's total capacity follows. */
  function SetLast(h: Heap, c: Chunk): Heap
    requires h.chunks != []
  {
    var n := |h.chunks| - 1;
    Heap(h.chunks[n := c], h.mgr.(totalCap := h.mgr.totalCap + c.cap - h.chunks[n].cap))
  }

  lemma SetLastRelocates(h: Heap, bk: Book, c: Chunk)
    requires Inv(h, bk)
    requires var o := h.chunks[|h.chunks| - 1];
             && Sane(c, |h.chunks| - 1) && c.used == o.used && c.virgin == o.virgin
             && AgreeOn(o.cells, c.cells, 2 * Lo(|h.chunks| - 1), 2 * o.virgin)
    ensures Relocates(h, SetLast(h, c))
  {
    hide Inv;
    hide Struct;
    hide ChunkCarriesOver;
    hide AgreeOn;
    hide Sum;
    InvParts(h, bk);
    var n := |h.chunks| - 1;
    CarriesTo(h.chunks[n], c, n);
    ChunkSums(h.chunks, n, c);
    forall i | 0 <= i <= n ensures ChunkCarriesOver(h.chunks[i], SetLast(h, c).chunks[i], i) {
      if i < n { CarriesItself(h, i); }
    }
  }

  lemma CarriesTo(o: Chunk, c: Chunk, i: nat)
    requires o.virgin <= c.virgin && AgreeOn(o.cells, c.cells, 2 * Lo(i), 2 * o.virgin)
    ensures ChunkCarriesOver(o, c, i)
  {
  }

  lemma CarriesItself(h: Heap, i: nat)
    requires Shape(h) && i < |h.chunks|
    ensures ChunkCarriesOver(h.chunks[i], h.chunks[i], i)
  {
    assert Sane(h.chunks[i], i);
  }

  /** `ChkMetadata::shrink` of a chunk with something to give back: by reallocation when less is given
      back than kept, by a fresh block and a copy up to the bump pointer otherwise. */
  function ShrinkChunk(c: Chunk, at: Addr): Chunk
    requires |c.cells| == CellsIn(c.cap) && c.virgin <= WordsIn(c.cap) && 0 <= Excess(c) <= c.cap
  {
    var cap := c.cap - Excess(c);
    var cells := if Excess(c) < cap then c.cells[..CellsIn(cap)]
                 else c.cells[..2 * c.virgin] + Zeros(CellsIn(cap) - 2 * c.virgin);
    c.(cap := cap, allocCap := cap, cells := cells, at := at)
  }

  /** `ChkMetadata::enlarge` of a chunk to full size; `tail` is what the memory gained holds. */
  function EnlargeChunk(c: Chunk, at: Addr, tail: seq<Cell>): Chunk {
    c.(cap := MAX_CAP, allocCap := MAX_CAP, cells := c.cells + tail, at := at)
  }

  lemma ShrinkRelocates(h: Heap, bk: Book, at: Addr)
    requires Inv(h, bk)
    ensures var n := |h.chunks| - 1; var c := h.chunks[n];
            && 0 <= Excess(c) <= c.cap && c.virgin <= WordsIn(c.cap)
            && var h' := SetLast(h, ShrinkChunk(c, at));
               Relocates(h, h') && h'.chunks[n].cap == Tight(c.virgin)
  {
    var n := |h.chunks| - 1;
    ExcessIsTight(h.chunks[n], n);
    SetLastRelocates(h, bk, ShrinkChunk(h.chunks[n], at));
  }

  lemma EnlargeRelocates(h: Heap, bk: Book, at: Addr, tail: seq<Cell>)
    requires Inv(h, bk)
    requires var c := h.chunks[|h.chunks| - 1]; |tail| == CellsIn(MAX_CAP) - CellsIn(c.cap)
    ensures Relocates(h, SetLast(h, EnlargeChunk(h.chunks[|h.chunks| - 1], at, tail)))
  {
    var n := |h.chunks| - 1;
    assert Sane(h.chunks[n], n);
    SetLastRelocates(h, bk, EnlargeChunk(h.chunks[n], at, tail));
  }

  /** `split_continuous_chunk`: every chunk copied to a block of its own, the last one only up to its
      bump pointer. */
  function SplitChunk(c: Chunk, last: bool, at: Addr): Chunk
    requires c.virgin <= WordsIn(c.cap) && |c.cells| == CellsIn(c.cap)
  {
    c.(allocCap := c.cap, at := at,
       cells := if last then c.cells[..2 * c.virgin] + Zeros(CellsIn(c.cap) - 2 * c.virgin) else c.cells)
  }

  function Split(h: Heap, at: seq<Addr>): Heap
    requires Shape(h) && |at| == |h.chunks|
  {
    var n := |h.chunks|;
    h.(chunks := seq(n, i requires 0 <= i < n =>
         assert Sane(h.chunks[i], i);
         SplitChunk(h.chunks[i], i == n - 1, at[i])))
  }

  lemma SplitRelocates(h: Heap, bk: Book, at: seq<Addr>)
    requires Inv(h, bk) && |at| == |h.chunks|
    ensures Relocates(h, Split(h, at))
  {
    var h' := Split(h, at);
    forall i | 0 <= i < |h.chunks| ensures Sane(h'.chunks[i], i) && ChunkCarriesOver(h.chunks[i], h'.chunks[i], i) {
      assert Sane(h.chunks[i], i);
    }
    assert Caps(h'.chunks) == Caps(h.chunks);
  }

  // ---------- the flat image ----------

  /** All pieces but the last in full, then the first `lastLen` elements of the last one. */
  function Flat<T>(pieces: seq<seq<T>>, lastLen: nat): (r: seq<T>)
    requires pieces != [] && lastLen <= |pieces[|pieces| - 1]|
  {
    if |pieces| == 1 then pieces[0][..lastLen] else pieces[0] + Flat(pieces[1..], lastLen)
  }

  function HeaderOf(c: Chunk): Header
    requires c.used >= 0
  {
    Header(c.no, c.used, c.virgin, c.cap, c.allocCap)
  }

  /** The chunk can be written to memory with its header, and the manager in front of chunk 0. */
  predicate Writable(c: Chunk, i: nat, m: Mgr) {
    Sane(c, i) && c.used >= 0 && HeaderOf(c).Fits() && m.Fits()
  }

  /** The chunk as it lies in memory. */
  function ChunkImage(c: Chunk, i: nat, m: Mgr): (r: seq<Cell>)
    requires Writable(c, i, m)
    ensures |r| == CellsIn(c.cap)
  {
    var head := EncodeHeader(HeaderOf(c)) + if i == 0 then EncodeMgr(m) else [];
    head + c.cells[|head|..]
  }

  predicate HeapWritable(h: Heap) {
    h.chunks != [] && forall i :: 0 <= i < |h.chunks| ==> Writable(h.chunks[i], i, h.mgr)
  }

  function Images(h: Heap): (r: seq<seq<Cell>>)
    requires HeapWritable(h)
    ensures |r| == |h.chunks|
  {
    seq(|h.chunks|, i requires 0 <= i < |h.chunks| => ChunkImage(h.chunks[i], i, h.mgr))
  }

  /** The bytes that compression reads: every chunk in full, the last one up to its bump pointer. */
  function Flatten(h: Heap): seq<Cell>
    requires HeapWritable(h)
  {
    var n := |h.chunks| - 1;
    assert Writable(h.chunks[n], n, h.mgr);
    Flat(Images(h), 2 * h.chunks[n].virgin)
  }

  /** The chunk whose header stands first in `mem`; a capacity beyond the end of memory is cut down. */
  function FirstChunk(mem: seq<Cell>, block: nat, base: nat): (c: Chunk)
    requires |mem| % 256 == 0 && mem != []
    ensures |c.cells| == CellsIn(c.cap) <= |mem|
  {
    var hd := DecodeHeader(mem[..4]);
    var cap := if |mem| < CellsIn(hd.cap) then |mem| / 256 else hd.cap;
    Chunk(hd.no, hd.used, hd.virgin, cap, 0, mem[..CellsIn(cap)], Addr(block, base))
  }

  /** The header walk of `uncompress` over memory `mem`, from kilobyte `base` of block `block` on.
      A header of capacity 0 would keep the walk in place for ever; that is `None`. */
  function Walk(mem: seq<Cell>, block: nat, base: nat): (r: Option<seq<Chunk>>)
    requires |mem| % 256 == 0
    decreases |mem|
  {
    if mem == [] then Some([])
    else
      var c := FirstChunk(mem, block, base);
      if c.cap == 0 then None
      else
        match Walk(mem[CellsIn(c.cap)..], block, base + c.cap)
        case None => None
        case Some(rest) => Some([c] + rest)
  }

  /** `uncompress` after the codec: pads the image to whole kilobytes with `pad`, walks it, and gives
      the first chunk the whole block. */
  function Unflatten(img: seq<Cell>, pad: seq<Cell>, block: nat): Option<Heap>
    requires |img| >= 10 && |img| + |pad| == CellsIn((|img| + 255) / 256)
  {
    var cap := (|img| + 255) / 256;
    match Walk(img + pad, block, 0)
    case None => None
    case Some(cs) =>
      if cs == [] then None
      else Some(Heap(cs[0 := cs[0].(allocCap := cap)], DecodeMgr(img[4..10]).(totalCap := cap)))
  }

  lemma FlatFrom<T>(pieces: seq<seq<T>>, lastLen: nat, pad: seq<T>)
    requires |pieces| > 1 && lastLen <= |pieces[|pieces| - 1]|
    ensures Flat(pieces, lastLen) + pad == pieces[0] + (Flat(pieces[1..], lastLen) + pad)
  {
  }

  /** What the walk recovers of one chunk. */
  ghost predicate Recovers(c: Chunk, w: Chunk, i: nat, last: bool) {
    && w.no == c.no && w.used == c.used && w.virgin == c.virgin && w.allocCap == 0
    && w.cap == (if last then Tight(c.virgin) else c.cap)
    && |w.cells| == CellsIn(w.cap) && AgreeOn(c.cells, w.cells, 2 * Lo(i), 2 * c.virgin)
  }

  /** Chunks laid end to end in one block, from kilobyte `base` on. */
  ghost predicate EndToEnd(cs: seq<Chunk>, block: nat, base: nat) {
    cs == [] || (cs[0].at == Addr(block, base) && EndToEnd(cs[1..], block, base + cs[0].cap))
  }

  lemma ImageParts(c: Chunk, i: nat, m: Mgr)
    requires Writable(c, i, m)
    ensures var r := ChunkImage(c, i, m);
            && r[..4] == EncodeHeader(HeaderOf(c)) && (i == 0 ==> r[4..10] == EncodeMgr(m))
            && DecodeHeader(r[..4]) == HeaderOf(c) && AgreeOn(c.cells, r, 2 * Lo(i), 2 * c.virgin)
  {
    HeaderRoundTrip(HeaderOf(c));
  }

  /** One step of the walk recovers one chunk. */
  lemma WalkStep(c: Chunk, i: nat, m: Mgr, last: bool, mem: seq<Cell>, block: nat, base: nat)
    requires Writable(c, i, m) && |mem| % 256 == 0
    requires last ==> |mem| == CellsIn(Tight(c.virgin)) && mem[..2 * c.virgin] == ChunkImage(c, i, m)[..2 * c.virgin]
    requires !last ==> |mem| > CellsIn(c.cap) && mem[..CellsIn(c.cap)] == ChunkImage(c, i, m)
    ensures mem != [] && Recovers(c, FirstChunk(mem, block, base), i, last)
  {
    ImageParts(c, i, m);
    var r := ChunkImage(c, i, m);
    var n := if last then 2 * c.virgin else CellsIn(c.cap);
    assert forall k :: 0 <= k < n ==> mem[k] == mem[..n][k] == r[k];
    assert mem[..4] == r[..4];
  }

  /** `images` are the chunks `cs`, of which the first is number `i`, as they lie in memory. */
  ghost predicate Laid(cs: seq<Chunk>, i: nat, m: Mgr, images: seq<seq<Cell>>) {
    && cs != [] && |images| == |cs| && 2 * cs[|cs| - 1].virgin <= |images[|cs| - 1]|
    && forall j :: 0 <= j < |cs| ==> Writable(cs[j], i + j, m) && images[j] == ChunkImage(cs[j], i + j, m)
  }

  /** Chunk by chunk, `ws` is what the walk recovers of `cs`, of which the first is number `i`. */
  ghost predicate RecoversAll(cs: seq<Chunk>, ws: seq<Chunk>, i: nat) {
    && |ws| == |cs|
    && (cs == [] || (Recovers(cs[0], ws[0], i, |cs| == 1) && RecoversAll(cs[1..], ws[1..], i + 1)))
  }

  lemma {:induction false} RecoversAt(cs: seq<Chunk>, ws: seq<Chunk>, i: nat, j: nat)
    requires RecoversAll(cs, ws, i) && j < |cs|
    ensures Recovers(cs[j], ws[j], i + j, j == |cs| - 1)
  {
    if j > 0 { RecoversAt(cs[1..], ws[1..], i + 1, j - 1); }
  }

  /** The walk over `mem` recovers the chunks `cs`, laid end to end from `base` on, and fills `mem`. */
  ghost predicate Walked(cs: seq<Chunk>, i: nat, mem: seq<Cell>, block: nat, base: nat) {
    && |mem| % 256 == 0 && mem != []
    && var r := Walk(mem, block, base);
    && r.Some? && RecoversAll(cs, r.value, i) && EndToEnd(r.value, block, base) && |mem| == 256 * Sum(Caps(r.value))
  }

  lemma LaidTail(cs: seq<Chunk>, i: nat, m: Mgr, images: seq<seq<Cell>>)
    requires Laid(cs, i, m, images) && |cs| > 1
    ensures Laid(cs[1..], i + 1, m, images[1..])
  {
    forall j | 0 <= j < |cs| - 1
      ensures Writable(cs[1..][j], i + 1 + j, m) && images[1..][j] == ChunkImage(cs[1..][j], i + 1 + j, m)
    {
      assert Writable(cs[j + 1], i + (j + 1), m) && images[j + 1] == ChunkImage(cs[j + 1], i + (j + 1), m);
    }
  }

  lemma WalkLast(c: Chunk, i: nat, m: Mgr, mem: seq<Cell>, block: nat, base: nat)
    requires Writable(c, i, m) && |mem| % 256 == 0
    requires |mem| == CellsIn(Tight(c.virgin)) && mem[..2 * c.virgin] == ChunkImage(c, i, m)[..2 * c.virgin]
    ensures Walked([c], i, mem, block, base)
  {
    WalkStep(c, i, m, true, mem, block, base);
    var w := FirstChunk(mem, block, base);
    assert mem[CellsIn(w.cap)..] == [];
    assert Walk(mem, block, base) == Some([w] + []);
    CapsCons(w, []);
    assert Sum(Caps([])) == 0;
  }

  lemma WalkMore(cs: seq<Chunk>, i: nat, m: Mgr, mem: seq<Cell>, block: nat, base: nat)
    requires |cs| > 1 && Writable(cs[0], i, m) && |mem| % 256 == 0 && |mem| > CellsIn(cs[0].cap)
    requires mem[..CellsIn(cs[0].cap)] == ChunkImage(cs[0], i, m)
    requires Walked(cs[1..], i + 1, mem[CellsIn(cs[0].cap)..], block, base + cs[0].cap)
    ensures Walked(cs, i, mem, block, base)
  {
    WalkStep(cs[0], i, m, false, mem, block, base);
    var w := FirstChunk(mem, block, base);
    var ts := Walk(mem[CellsIn(w.cap)..], block, base + w.cap).value;
    assert Walk(mem, block, base) == Some([w] + ts);
    hide Walk;
    hide FirstChunk;
    JoinWalks(cs, i, mem, block, base, w, ts);
  }

  lemma JoinWalks(cs: seq<Chunk>, i: nat, mem: seq<Cell>, block: nat, base: nat, w: Chunk, ts: seq<Chunk>)
    requires |cs| > 1 && Recovers(cs[0], w, i, false) && w.at == Addr(block, base)
    requires RecoversAll(cs[1..], ts, i + 1) && EndToEnd(ts, block, base + w.cap)
               && |mem| == 256 * w.cap + 256 * Sum(Caps(ts))
    requires |mem| % 256 == 0 && mem != [] && Walk(mem, block, base) == Some([w] + ts)
    ensures Walked(cs, i, mem, block, base)
  {
    hide Walk;
    hide Recovers;
    CapsCons(w, ts);
    assert ([w] + ts)[1..] == ts;
  }

  /** Walking the image of a run of chunks, padded to whole kilobytes, recovers them. */
  lemma {:induction false} WalkFlat(cs: seq<Chunk>, i: nat, m: Mgr, images: seq<seq<Cell>>, v: nat, pad: seq<Cell>,
                                    block: nat, base: nat)
    requires Laid(cs, i, m, images) && v == cs[|cs| - 1].virgin && |pad| == CellsIn(Tight(v)) - 2 * v
    ensures Walked(cs, i, Flat(images, 2 * v) + pad, block, base)
    decreases |cs|
  {
    LaidHead(cs, i, m, images);
    hide Laid;
    hide Walked;
    hide ChunkImage;
    hide Writable;
    if |cs| == 1 {
      WalkSingle(cs, i, m, images, v, pad, block, base);
    } else {
      LaidTail(cs, i, m, images);
      WalkFlat(cs[1..], i + 1, m, images[1..], v, pad, block, base + cs[0].cap);
      WalkFlatOn(cs, i, m, images, v, pad, block, base);
    }
  }

  lemma WalkSingle(cs: seq<Chunk>, i: nat, m: Mgr, images: seq<seq<Cell>>, v: nat, pad: seq<Cell>, block: nat,
                   base: nat)
    requires |cs| == |images| == 1 && Writable(cs[0], i, m) && images[0] == ChunkImage(cs[0], i, m)
    requires v == cs[0].virgin && |pad| == CellsIn(Tight(v)) - 2 * v
    ensures Walked(cs, i, Flat(images, 2 * v) + pad, block, base)
  {
    var mem := Flat(images, 2 * v) + pad;
    assert mem[..2 * v] == images[0][..2 * v];
    WalkLast(cs[0], i, m, mem, block, base);
    assert cs == [cs[0]];
  }

  lemma LaidHead(cs: seq<Chunk>, i: nat, m: Mgr, images: seq<seq<Cell>>)
    requires Laid(cs, i, m, images)
    ensures cs != [] && |images| == |cs| && Writable(cs[0], i, m) && images[0] == ChunkImage(cs[0], i, m)
    ensures 2 * cs[|cs| - 1].virgin <= |images[|cs| - 1]|
  {
    assert Writable(cs[0], i + 0, m) && images[0] == ChunkImage(cs[0], i + 0, m);
  }

  lemma WalkFlatOn(cs: seq<Chunk>, i: nat, m: Mgr, images: seq<seq<Cell>>, v: nat, pad: seq<Cell>, block: nat,
                   base: nat)
    requires |cs| > 1 && Laid(cs, i, m, images) && |images| == |cs| && 2 * v <= |images[|cs| - 1]|
    requires Walked(cs[1..], i + 1, Flat(images[1..], 2 * v) + pad, block, base + cs[0].cap)
    ensures Walked(cs, i, Flat(images, 2 * v) + pad, block, base)
  {
    hide Laid;
    hide Walked;
    hide ChunkImage;
    hide Writable;
    hide Flat;
    LaidHead(cs, i, m, images);
    FlatFrom(images, 2 * v, pad);
    WalkPrepended(cs, i, m, images[0], Flat(images[1..], 2 * v) + pad, block, base);
  }

  lemma WalkPrepended(cs: seq<Chunk>, i: nat, m: Mgr, image: seq<Cell>, rest: seq<Cell>, block: nat, base: nat)
    requires |cs| > 1 && Writable(cs[0], i, m) && image == ChunkImage(cs[0], i, m)
    requires Walked(cs[1..], i + 1, rest, block, base + cs[0].cap)
    ensures Walked(cs, i, image + rest, block, base)
  {
    var mem := image + rest;
    assert mem[CellsIn(cs[0].cap)..] == rest && mem[..CellsIn(cs[0].cap)] == image;
    WalkMore(cs, i, m, mem, block, base);
  }

  lemma {:induction false} SumCons(v: int, s: seq<int>)
    ensures Sum([v] + s) == v + Sum(s)
  {
    if s != [] {
      SumCons(v, s[..|s| - 1]);
      assert ([v] + s)[..|s|] == [v] + s[..|s| - 1];
    }
  }

  lemma CapsCons(c: Chunk, cs: seq<Chunk>)
    ensures Sum(Caps([c] + cs)) == c.cap + Sum(Caps(cs))
  {
    assert Caps([c] + cs) == [c.cap] + Caps(cs);
    SumCons(c.cap, Caps(cs));
  }

  // ---------- the round trip ----------

  lemma {:induction false} FlatLength(images: seq<seq<Cell>>, v: nat)
    requires images != [] && 2 * v <= |images[|images| - 1]| && forall j :: 0 <= j < |images| ==> |images[j]| % 256 == 0
    ensures (|Flat(images, 2 * v)| - 2 * v) % 256 == 0 && |Flat(images, 2 * v)| >= 2 * v
    decreases |images|
  {
    if |images| > 1 { FlatLength(images[1..], v); }
  }

  /** Padding the image to whole kilobytes adds what the last chunk's tight capacity has to spare. */
  lemma PadLength(n: nat, v: nat, pad: nat)
    requires n >= 2 * v && (n - 2 * v) % 256 == 0 && n + pad == CellsIn((n + 255) / 256)
    ensures pad == CellsIn(Tight(v)) - 2 * v
  {
    var k := (n - 2 * v) / 256;
    assert n == 256 * k + 2 * v;
  }

  ghost predicate AllocCapsFit(h: Heap) {
    forall i :: 0 <= i < |h.chunks| ==> h.chunks[i].allocCap < 0x1_0000
  }

  lemma InvWritable(h: Heap, bk: Book)
    requires Inv(h, bk) && AllocCapsFit(h)
    ensures HeapWritable(h)
  {
    FieldsFit(h, bk);
    forall i | 0 <= i < |h.chunks| ensures Writable(h.chunks[i], i, h.mgr) { assert Sane(h.chunks[i], i); }
  }

  lemma HeapLaid(h: Heap)
    requires HeapWritable(h)
    ensures Laid(h.chunks, 0, h.mgr, Images(h))
    ensures forall j :: 0 <= j < |Images(h)| ==> |Images(h)[j]| % 256 == 0
  {
    forall j | 0 <= j < |h.chunks| ensures Writable(h.chunks[j], 0 + j, h.mgr) && |Images(h)[j]| % 256 == 0 {
      assert Writable(h.chunks[j], j, h.mgr);
    }
  }

  /** The walk over the padded image of a heap. */
  lemma FlattenWalk(h: Heap, pad: seq<Cell>, block: nat)
    requires HeapWritable(h)
    requires var n := |Flatten(h)|; n + |pad| == CellsIn((n + 255) / 256)
    ensures Walked(h.chunks, 0, Flatten(h) + pad, block, 0)
  {
    var v := h.chunks[|h.chunks| - 1].virgin;
    HeapLaid(h);
    FlatLength(Images(h), v);
    PadLength(|Flatten(h)|, v, |pad|);
    WalkFlat(h.chunks, 0, h.mgr, Images(h), v, pad, block, 0);
  }

  lemma ManagerCells(h: Heap)
    requires HeapWritable(h)
    ensures |Flatten(h)| >= 10 && Flatten(h)[4..10] == EncodeMgr(h.mgr) && DecodeMgr(Flatten(h)[4..10]) == h.mgr
  {
    var images := Images(h);
    assert Writable(h.chunks[0], 0, h.mgr);
    ImageParts(h.chunks[0], 0, h.mgr);
    MgrRoundTrip(h.mgr);
    var f := Flatten(h);
    assert f[..10] == images[0][..10];
    assert f[4..10] == f[..10][4..] && images[0][4..10] == images[0][..10][4..];
  }

  /** The parsed heap: what was flattened, relocated into block `block`. */
  ghost predicate Restores(h: Heap, h': Heap, block: nat) {
    && Relocates(h, h')
    && (forall i :: 0 <= i < |h.chunks| ==>
          h'.chunks[i].cap == if i == |h.chunks| - 1 then Tight(h.chunks[i].virgin) else h.chunks[i].cap)
    && EndToEnd(h'.chunks, block, 0)
    && h'.chunks[0].allocCap == h'.mgr.totalCap
    && (forall i :: 0 < i < |h.chunks| ==> h'.chunks[i].allocCap == 0)
  }

  lemma RecoveredSane(h: Heap, bk: Book, ws: seq<Chunk>, i: nat)
    requires Inv(h, bk) && RecoversAll(h.chunks, ws, 0) && i < |h.chunks|
    ensures i < |ws| && Sane(ws[i], i) && ChunkCarriesOver(h.chunks[i], ws[i], i)
    ensures ws[i].used == h.chunks[i].used && ws[i].virgin == h.chunks[i].virgin && ws[i].allocCap == 0
    ensures ws[i].cap == if i == |h.chunks| - 1 then Tight(h.chunks[i].virgin) else h.chunks[i].cap
  {
    RecoversAt(h.chunks, ws, 0, i);
    assert Sane(h.chunks[i], i);
    ExcessIsTight(h.chunks[i], i);
  }

  lemma RestoreParts(h: Heap, bk: Book, ws: seq<Chunk>, block: nat, cap: nat)
    requires Inv(h, bk) && RecoversAll(h.chunks, ws, 0) && EndToEnd(ws, block, 0) && cap == Sum(Caps(ws))
    ensures ws != [] && Restores(h, Heap(ws[0 := ws[0].(allocCap := cap)], h.mgr.(totalCap := cap)), block)
  {
    InvParts(h, bk);
    assert |ws| == |h.chunks|;
    hide Restores;
    hide Relocates;
    hide RecoversAll;
    hide Inv;
    hide Struct;
    hide UsedOk;
    hide AgreeOn;
    forall i | 0 <= i < |ws| ensures Recovered(h, ws, i) { RecoveredSane(h, bk, ws, i); }
    RestoreFrom(h, ws, block, cap);
  }

  /** Chunk `i` as the header walk must find it. */
  ghost predicate Recovered(h: Heap, ws: seq<Chunk>, i: nat)
    requires i < |h.chunks| == |ws|
  {
    && Sane(ws[i], i) && ChunkCarriesOver(h.chunks[i], ws[i], i)
    && ws[i].used == h.chunks[i].used && ws[i].virgin == h.chunks[i].virgin && ws[i].allocCap == 0
    && ws[i].cap == if i == |h.chunks| - 1 then Tight(h.chunks[i].virgin) else h.chunks[i].cap
  }

  lemma RestoreFrom(h: Heap, ws: seq<Chunk>, block: nat, cap: nat)
    requires Shape(h) && |ws| == |h.chunks| && forall i :: 0 <= i < |ws| ==> Recovered(h, ws, i)
    requires EndToEnd(ws, block, 0) && cap == Sum(Caps(ws))
    ensures Restores(h, Heap(ws[0 := ws[0].(allocCap := cap)], h.mgr.(totalCap := cap)), block)
  {
    hide AgreeOn;
    hide Sum;
    var cs := ws[0 := ws[0].(allocCap := cap)];
    assert Recovered(h, ws, 0);
    forall i | 0 < i < |ws| ensures cs[i] == ws[i] && Recovered(h, ws, i) {}
    assert Caps(cs) == Caps(ws);
    assert cs[1..] == ws[1..];
  }

  /** Flattening a heap and parsing the image gives the heap back, relocated: the same chunks in the
      same order with the same counters and contents, non-last capacities unchanged, the last one
      tight, and a total capacity that is the sum of the parts. */
  lemma FlattenRoundTrip(h: Heap, bk: Book, pad: seq<Cell>, block: nat)
    requires Inv(h, bk) && AllocCapsFit(h)
    ensures HeapWritable(h) && |Flatten(h)| >= 10
    ensures var n := |Flatten(h)|;
            n + |pad| == CellsIn((n + 255) / 256) ==>
              var r := Unflatten(Flatten(h), pad, block);
              r.Some? && Restores(h, r.value, block)
  {
    hide Inv;
    hide HeapWritable;
    hide Flatten;
    hide Restores;
    InvWritable(h, bk);
    ManagerCells(h);
    var n := |Flatten(h)|;
    if n + |pad| == CellsIn((n + 255) / 256) {
      FlattenWalk(h, pad, block);
      var ws := Walk(Flatten(h) + pad, block, 0).value;
      assert Sum(Caps(ws)) == (n + 255) / 256;
      RestoreParts(h, bk, ws, block, (n + 255) / 256);
    }
  }
}
