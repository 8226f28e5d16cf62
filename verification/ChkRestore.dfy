/**
  What `uncompress` gives back, cell for cell: of every chunk but the last the whole memory behind its
  overhead, also above the bump pointer, and of the last one the words below it, with zeroes above
  (chk/chk_base.cpp).
 */
module ChkRestore {
  import opened ChkBase
  import opened ChkHeap
  import opened ChkAlloc
  import opened ChkImage
  import opened ChkIndexSpec
  import opened ChkOwnership
  import opened ChkOperations

  /** Chunk `w` holds what chunk `c` held. */
  ghost predicate CellsBack(c: Chunk, w: Chunk, i: nat, last: bool) {
    && |w.cells| == (if last then CellsIn(Tight(c.virgin)) else |c.cells|) <= |c.cells|
    && forall x :: 2 * Lo(i) <= x < |w.cells| ==> w.cells[x] == if last && x >= 2 * c.virgin then 0 else c.cells[x]
  }

  /** Chunk by chunk, of which the first is number `i`. */
  ghost predicate AllBack(cs: seq<Chunk>, ws: seq<Chunk>, i: nat) {
    |ws| == |cs| && forall j :: 0 <= j < |cs| ==> CellsBack(cs[j], ws[j], i + j, j == |cs| - 1)
  }

  /** The walk over this memory finds the chunks with what they held. */
  ghost predicate WalksBack(cs: seq<Chunk>, i: nat, mem: seq<Cell>, block: nat, base: nat) {
    |mem| % 256 == 0 && mem != [] && Walk(mem, block, base).Some? && AllBack(cs, Walk(mem, block, base).value, i)
  }

  lemma ImageAbove(c: Chunk, i: nat, m: Mgr, x: nat)
    requires Writable(c, i, m) && 2 * Lo(i) <= x < CellsIn(c.cap)
    ensures ChunkImage(c, i, m)[x] == c.cells[x]
  {
  }

  lemma {:induction false} WalkBack(cs: seq<Chunk>, i: nat, m: Mgr, images: seq<seq<Cell>>, v: nat, pad: seq<Cell>,
                                    block: nat, base: nat)
    requires Laid(cs, i, m, images) && v == cs[|cs| - 1].virgin && pad == Zeros(CellsIn(Tight(v)) - 2 * v)
    ensures WalksBack(cs, i, Flat(images, 2 * v) + pad, block, base)
    decreases |cs|
  {
    hide WalksBack;
    LaidHead(cs, i, m, images);
    if |cs| == 1 {
      WalkSingleBack(cs, i, m, images, v, pad, block, base);
    } else {
      LaidTail(cs, i, m, images);
      hide Laid;
      hide Flat;
      WalkBack(cs[1..], i + 1, m, images[1..], v, pad, block, base + cs[0].cap);
      WalkBackOn(cs, i, m, images, v, pad, block, base);
    }
  }

  lemma WalkBackOn(cs: seq<Chunk>, i: nat, m: Mgr, images: seq<seq<Cell>>, v: nat, pad: seq<Cell>, block: nat,
                   base: nat)
    requires |cs| > 1 && Laid(cs, i, m, images) && |images| == |cs| && 2 * v <= |images[|cs| - 1]|
    requires WalksBack(cs[1..], i + 1, Flat(images[1..], 2 * v) + pad, block, base + cs[0].cap)
    ensures WalksBack(cs, i, Flat(images, 2 * v) + pad, block, base)
  {
    hide Laid;
    hide Flat;
    hide WalksBack;
    hide ChunkImage;
    hide Writable;
    LaidHead(cs, i, m, images);
    FlatFrom(images, 2 * v, pad);
    WalkHeadBack(cs, i, m, Flat(images[1..], 2 * v) + pad, block, base);
  }

  lemma WalkSingleBack(cs: seq<Chunk>, i: nat, m: Mgr, images: seq<seq<Cell>>, v: nat, pad: seq<Cell>, block: nat,
                       base: nat)
    requires |cs| == |images| == 1 && Laid(cs, i, m, images)
    requires v == cs[0].virgin && pad == Zeros(CellsIn(Tight(v)) - 2 * v)
    ensures WalksBack(cs, i, Flat(images, 2 * v) + pad, block, base)
  {
    LaidHead(cs, i, m, images);
    WalkLastBack(cs[0], i, m, images[0][..2 * v] + pad, block, base);
    assert Flat(images, 2 * v) + pad == images[0][..2 * v] + pad;
    assert cs == [cs[0]];
  }

  lemma WalkLastBack(c: Chunk, i: nat, m: Mgr, mem: seq<Cell>, block: nat, base: nat)
    requires Writable(c, i, m)
    requires mem == ChunkImage(c, i, m)[..2 * c.virgin] + Zeros(CellsIn(Tight(c.virgin)) - 2 * c.virgin)
    ensures WalksBack([c], i, mem, block, base)
  {
    ImageParts(c, i, m);
    WalkStep(c, i, m, true, mem, block, base);
    var w := FirstChunk(mem, block, base);
    assert w.cells == mem[..CellsIn(w.cap)];
    hide FirstChunk;
    hide ChunkImage;
    hide Recovers;
    assert mem[CellsIn(w.cap)..] == [];
    assert Walk(mem, block, base) == Some([w] + []);
    forall x | 2 * Lo(i) <= x < |mem| ensures mem[x] == if x >= 2 * c.virgin then 0 else c.cells[x] {
      if x < 2 * c.virgin { ImageAbove(c, i, m, x); }
    }
    assert CellsBack(c, w, i, true);
  }

  lemma WalkHeadBack(cs: seq<Chunk>, i: nat, m: Mgr, rest: seq<Cell>, block: nat, base: nat)
    requires |cs| > 1 && Writable(cs[0], i, m) && WalksBack(cs[1..], i + 1, rest, block, base + cs[0].cap)
    ensures WalksBack(cs, i, ChunkImage(cs[0], i, m) + rest, block, base)
  {
    var c := cs[0];
    var image := ChunkImage(c, i, m);
    var mem := image + rest;
    assert mem[..CellsIn(c.cap)] == image && mem[CellsIn(c.cap)..] == rest;
    WalkStep(c, i, m, false, mem, block, base);
    var w := FirstChunk(mem, block, base);
    assert w.cells == image && w.cap == c.cap;
    var ws := Walk(rest, block, base + w.cap).value;
    assert Walk(mem, block, base) == Some([w] + ws);
    forall x | 2 * Lo(i) <= x < |image| ensures image[x] == c.cells[x] { ImageAbove(c, i, m, x); }
    assert CellsBack(c, w, i, false);
    hide Walk;
    hide CellsBack;
    JoinBack(cs, i, w, ws);
  }

  lemma JoinBack(cs: seq<Chunk>, i: nat, w: Chunk, ws: seq<Chunk>)
    requires |cs| > 1 && CellsBack(cs[0], w, i, false) && AllBack(cs[1..], ws, i + 1)
    ensures AllBack(cs, [w] + ws, i)
  {
    var all := [w] + ws;
    forall j | 0 <= j < |cs| ensures CellsBack(cs[j], all[j], i + j, j == |cs| - 1) {
      if j > 0 {
        assert CellsBack(cs[1..][j - 1], ws[j - 1], i + 1 + (j - 1), j - 1 == |cs[1..]| - 1);
      }
    }
  }

  lemma PadOf(h: Heap, pad: nat)
    requires HeapWritable(h) && var n := |Flatten(h)|; n + pad == CellsIn((n + 255) / 256)
    ensures var v := h.chunks[|h.chunks| - 1].virgin; pad == CellsIn(Tight(v)) - 2 * v
  {
    hide Laid;
    hide Flat;
    HeapLaid(h);
    var v := h.chunks[|h.chunks| - 1].virgin;
    FlatLength(Images(h), v);
    hide Images;
    PadLength(|Flatten(h)|, v, pad);
  }

  lemma FlattenBack(h: Heap, pad: seq<Cell>, block: nat)
    requires HeapWritable(h) && pad == Zeros(|pad|)
    requires var n := |Flatten(h)|; n + |pad| == CellsIn((n + 255) / 256)
    ensures WalksBack(h.chunks, 0, Flatten(h) + pad, block, 0)
  {
    PadOf(h, |pad|);
    hide Laid;
    hide Flat;
    hide WalksBack;
    hide Tight;
    HeapLaid(h);
    WalkBack(h.chunks, 0, h.mgr, Images(h), h.chunks[|h.chunks| - 1].virgin, pad, block, 0);
  }

  lemma WalkedBack(cs: seq<Chunk>, img: seq<Cell>, pad: seq<Cell>, block: nat)
    requires |img| >= 10 && |img| + |pad| == CellsIn((|img| + 255) / 256) && WalksBack(cs, 0, img + pad, block, 0)
    ensures var r := Unflatten(img, pad, block); r.Some? ==> AllBack(cs, r.value.chunks, 0)
  {
    hide Walk;
    var ws := Walk(img + pad, block, 0).value;
    if ws != [] { FirstBack(cs, ws, (|img| + 255) / 256); }
  }

  lemma FirstBack(cs: seq<Chunk>, ws: seq<Chunk>, cap: nat)
    requires AllBack(cs, ws, 0) && ws != []
    ensures AllBack(cs, ws[0 := ws[0].(allocCap := cap)], 0)
  {
    forall j | 0 <= j < |cs| ensures CellsBack(cs[j], ws[0 := ws[0].(allocCap := cap)][j], j, j == |cs| - 1) {
      assert CellsBack(cs[j], ws[j], 0 + j, j == |cs| - 1);
    }
  }

  lemma ClosedOf(env: Env, ix: Index, g: Ghost)
    requires IxInv(env, ix, g) && ix.packed.Some?
    ensures EnvOk(env) && Closed(env, ix, g)
  {
  }

  /** Splitting copies the last chunk up to its bump pointer and zeroes the rest. */
  lemma SplitBack(env: Env, ix: Index, h: Heap)
    requires ix.heap.chunks != [] && Shape(ix.heap) && AllBack(h.chunks, ix.heap.chunks, 0)
    requires Last(ix.heap).virgin == h.chunks[|h.chunks| - 1].virgin
    ensures AllBack(h.chunks, SplitIx(env, ix).heap.chunks, 0)
  {
    if IsContinuous(ix.heap) {
      var n := |ix.heap.chunks|;
      var at := seq(n, i requires 0 <= i < n => Addr(ix.sys.next + i, 0));
      forall j | 0 <= j < n ensures CellsBack(h.chunks[j], Split(ix.heap, at).chunks[j], 0 + j, j == n - 1) {
        assert Sane(ix.heap.chunks[j], j) && CellsBack(h.chunks[j], ix.heap.chunks[j], 0 + j, j == n - 1);
      }
    }
  }

  /** A successful `uncompress` gives back every cell, and zeroes above the last bump pointer. */
  lemma UncompressBack(env: Env, ix: Index, g: Ghost)
    requires EnvOk(env) && Closed(env, ix, g)
    ensures AllBack(g.frozen.chunks, Uncompress(env, ix, true).0.heap.chunks, 0)
  {
    hide Inv;
    hide HeapWritable;
    hide Flatten;
    hide AllBack;
    hide WalksBack;
    hide Restores;
    var img := Flatten(g.frozen);
    var cap := (|img| + 255) / 256;
    var pad := Zeros(CellsIn(cap) - |img|);
    FlattenRoundTrip(g.frozen, g.book, pad, ix.sys.next);
    FlattenBack(g.frozen, pad, ix.sys.next);
    WalkedBack(g.frozen.chunks, img, pad, ix.sys.next);
    assert env.codec.unpack(ix.packed.value.bytes) == Some(img);
    var h := Unflatten(img, pad, ix.sys.next).value;
    RestoredLast(g.frozen, h, ix.sys.next, g.book);
    assert h.mgr.totalCap == cap;
    hide Unflatten;
    hide Uncompress;
    hide Closed;
    hide Shape;
    UncompressIs(env, ix, img, cap, h);
    SplitBack(env, Walked1(env, ix, h), g.frozen);
  }

  lemma RestoredLast(h: Heap, h': Heap, block: nat, bk: Book)
    requires Inv(h, bk) && Restores(h, h', block)
    ensures Shape(h') && h'.chunks != [] && Last(h').virgin == h.chunks[|h.chunks| - 1].virgin
  {
  }
}
