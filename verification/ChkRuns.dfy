/**
  Whole runs of the chunk index: any sequence of client operations, in which each `free` names a live
  block or the front of one, and each `shrink` finds a last chunk that owns its block or has nothing to
  give back.
 */
module ChkRuns {
  import opened ChkBase
  import opened ChkHeap
  import opened ChkAlloc
  import opened ChkImage
  import opened ChkIndexSpec
  import opened ChkOwnership
  import opened ChkOperations

  // ---------- handles ----------

  /** The handle of a block, as `alloc` returns it. */
  function HandleOf(b: Blk): Ptr {
    Ptr(b.no, 2 * b.off, b.size)
  }

  /** The block that `free(ptr, size)` names: a positive `size` in bytes overrides the handle's. */
  function NamedBlk(p: Ptr, size: nat): Blk {
    Blk(p.no, p.off / 2, if size > 0 then size / 8 else p.size, LIVE)
  }

  /** A handle fits its bits, is not null, and names its block again.  Together with the number of bytes
      that `alloc` was asked for it names the block exactly when that number is one of whole words, for
      `alloc` rounds up and `free` rounds down: otherwise it names all but the last word of the block,
      and nothing at all if there is only one. */
  lemma HandleRoundTrip(h: Heap, bk: Book, b: Blk, bytes: nat)
    requires Inv(h, bk) && b in bk.blocks && b.tag == LIVE
    ensures HandleOf(b).Fits() && !HandleOf(b).IsNull() && NamedBlk(HandleOf(b), 0) == b
    ensures bytes >= 1 && b.size == CeilDiv(bytes, 8) ==>
              && (NamedBlk(HandleOf(b), bytes) == b <==> bytes % 8 == 0)
              && (bytes % 8 != 0 ==> NamedBlk(HandleOf(b), bytes) == Front(b, b.size - 1))
              && (NamedBlk(HandleOf(b), bytes).size == 0 <==> bytes < 8)
  {
    assert Placed(h, b);
    assert Sane(h.chunks[b.no], b.no);
  }

  // ---------- operations ----------

  datatype Op =
    | OpAlloc(size: nat, unpack: bool, grant: bool)
    | OpFree(p: Ptr, bytes: nat, unpack: bool)
    | OpStore(b: Blk, k: nat, v: Cell)
    | OpShrink(grant: bool)
    | OpEnlarge(unpack: bool, grant: bool, tail: seq<Cell>)
    | OpCompress(percent: nat, grant: bool)
    | OpUncompress(unpack: bool)
    | OpDestruct

  ghost predicate IsLive(g: Ghost, b: Blk) {
    b in g.book.blocks && b.tag == LIVE
  }

  /** `c` is a live block `b` or the front of it. */
  ghost predicate Heads(g: Ghost, b: Blk, c: Blk) {
    IsLive(g, b) && c.tag == LIVE && c.no == b.no && c.off == b.off && 1 <= c.size <= b.size
  }

  /** The live block that `c` is the front of. */
  ghost function HeadedBy(g: Ghost, c: Blk): (b: Blk)
    requires exists b :: Heads(g, b, c)
    ensures Heads(g, b, c)
  {
    var b :| Heads(g, b, c);
    b
  }

  lemma HeadedByOne(h: Heap, g: Ghost, b: Blk, c: Blk)
    requires Inv(h, g.book) && Heads(g, b, c)
    ensures HeadedBy(g, c) == b
  {
    var d := HeadedBy(g, c);
    assert d != b ==> Disjoint(d, b);
    assert !Disjoint(d, b);
  }

  /** The bookkeeping in which the block that `c` is the front of counts as two. */
  ghost function Cleft(g: Ghost, c: Blk): (g': Ghost)
    requires exists b :: Heads(g, b, c)
    ensures g'.frozen == g.frozen
  {
    g.(book := Cut(g.book, HeadedBy(g, c), c.size))
  }

  /** What is left of the block when only its front is released. */
  ghost predicate IsLeftover(g: Ghost, op: Op, x: Blk) {
    op.OpFree? && exists b {:trigger Heads(g, b, NamedBlk(op.p, op.bytes))} ::
      Heads(g, b, NamedBlk(op.p, op.bytes)) && NamedBlk(op.p, op.bytes).size < b.size
          && x == Rest(b, NamedBlk(op.p, op.bytes).size)
  }

  /** What the program asks of its callers.  A `free` of less than one word runs into an assertion. */
  ghost predicate Legal(ix: Index, g: Ghost, op: Op) {
    match op
    case OpAlloc(size, _, _) => size >= 1
    case OpFree(p, bytes, _) => p.off % 2 == 0 && exists b :: Heads(g, b, NamedBlk(p, bytes))
    case OpStore(b, k, _) => ix.packed.None? && IsLive(g, b) && 2 * b.off <= k < 2 * (b.off + b.size)
    case OpShrink(_) => MayShrink(ix)
    case _ => true
  }

  ghost function GhostAlloc(env: Env, ix: Index, g: Ghost, size: nat, unpack: bool, grant: bool): Ghost
    requires Ready(env, ix) && |g.book.lists| == 3
  {
    var (ix1, rc) := Uncompress(env, ix, unpack);
    if CeilDiv(size, 8) > MAX_WORDS || rc != 0 then g else g.(book := BookAllocIx(env, ix1, g.book, size, grant))
  }

  /** One operation, on the index and on its bookkeeping. */
  ghost function Step(env: Env, ix: Index, g: Ghost, op: Op): (Index, Ghost)
    requires IxInv(env, ix, g) && Legal(ix, g, op)
  {
    ReadyOf(env, ix, g);
    match op
    case OpAlloc(size, unpack, grant) =>
      (AllocOp(env, ix, size, unpack, grant).0, GhostAlloc(env, ix, g, size, unpack, grant))
    case OpFree(p, bytes, unpack) =>
      var c := NamedBlk(p, bytes);
      CleftKeeps(env, ix, g, c);
      FreeOpReady(env, ix, Cleft(g, c), c, unpack);
      (FreeOp(env, ix, c, unpack), GhostFree(env, ix, g, c, unpack))
    case OpStore(b, k, v) =>
      StoreKeeps(env, ix, g.book, b, k, v);
      (ix.(heap := Store(ix.heap, b.no, k, v)), g)
    case OpShrink(grant) =>
      ShapeOf(env, ix, g);
      (Shrink(env, ix, grant), g)
    case OpEnlarge(unpack, grant, tail) => (EnlargeOp(env, ix, unpack, grant, tail).0, g)
    case OpCompress(percent, grant) =>
      WritableOf(env, ix, g);
      (Compress(env, ix, percent, grant).0, if ix.packed.None? then g.(frozen := ix.heap) else g)
    case OpUncompress(unpack) => (Uncompress(env, ix, unpack).0, g)
    case OpDestruct => (Destruct(ix), if ix.packed.None? then Ghost(EMPTY_BOOK, NO_HEAP) else g)
  }

  /** A `free` that cannot uncompress does nothing. */
  ghost function GhostFree(env: Env, ix: Index, g: Ghost, c: Blk, unpack: bool): Ghost
    requires (exists b :: Heads(g, b, c)) && |g.book.lists| == 3
    requires var (ix1, rc) := Uncompress(env, ix, unpack);
             rc == 0 ==> ix1.heap.mgr.Shaped() && c.no < |ix1.heap.chunks|
  {
    var (ix1, rc) := Uncompress(env, ix, unpack);
    if rc != 0 then g else g.(book := BookFree(ix1.heap, Cleft(g, c).book, c))
  }

  /** Counting a live block as two keeps the invariant of the index. */
  lemma CleftKeeps(env: Env, ix: Index, g: Ghost, c: Blk)
    requires IxInv(env, ix, g) && exists b :: Heads(g, b, c)
    ensures IxInv(env, ix, Cleft(g, c)) && IsLive(Cleft(g, c), c) && |g.book.lists| == 3
    ensures var b := HeadedBy(g, c);
            forall x :: IsLive(Cleft(g, c), x) <==>
                (IsLive(g, x) && x != b) || x == c || (c.size < b.size && x == Rest(b, c.size))
  {
    ViewOf(env, ix, g, HeadedBy(g, c));
    CutKeeps(View(ix, g), g.book, HeadedBy(g, c), c.size);
    hide Inv;
    hide Cut;
  }

  lemma ViewOf(env: Env, ix: Index, g: Ghost, b: Blk)
    requires IxInv(env, ix, g) && IsLive(g, b)
    ensures Inv(View(ix, g), g.book) && View(ix, g).chunks != [] && |g.book.lists| == 3
  {
  }

  lemma ShapeOf(env: Env, ix: Index, g: Ghost)
    requires IxInv(env, ix, g)
    ensures ix.heap.chunks == [] || Shape(ix.heap)
  {
  }

  lemma WritableOf(env: Env, ix: Index, g: Ghost)
    requires IxInv(env, ix, g)
    ensures ix.heap.chunks == [] || HeapWritable(ix.heap)
  {
    if ix.heap.chunks != [] { OpenWritable(env, ix, g.book); }
  }

  lemma FreeOpReady(env: Env, ix: Index, g: Ghost, b: Blk, unpack: bool)
    requires IxInv(env, ix, g) && IsLive(g, b)
    ensures |g.book.lists| == 3
    ensures var (ix1, rc) := Uncompress(env, ix, unpack);
            rc == 0 ==> ix1.heap.mgr.Shaped() && b.no < |ix1.heap.chunks| && Room(ix1.heap, b.no, b.off, b.size)
  {
    ReadyOf(env, ix, g);
    UncompressKeeps(env, ix, g, unpack);
    var (ix1, rc) := Uncompress(env, ix, unpack);
    if rc == 0 { FreeIxKeeps(env, ix1, g.book, b); }
  }

  // ---------- what a step keeps ----------

  /** The operation leaves block `b` alone: it neither releases it nor stores into it. */
  predicate Spares(op: Op, b: Blk) {
    match op
    case OpFree(p, bytes, _) => p.no != b.no || p.off / 2 != b.off
    case OpStore(c, _, _) => c != b
    case OpDestruct => false
    case _ => true
  }

  /** Every live block that the operation leaves alone is still live, with the same contents behind
      its handle; no block comes to life but by `alloc` or as the rest of one that `free` cut short, and
      no lost word is found again. */
  ghost predicate StepOk(ix: Index, g: Ghost, op: Op, ix': Index, g': Ghost) {
    && (forall b :: IsLive(g, b) && Spares(op, b) ==> IsLive(g', b) && Kept(View(ix, g), View(ix', g'), b))
    && (forall b :: IsLive(g', b) && !IsLive(g, b) ==>
       (op.OpAlloc? && b.size == CeilDiv(op.size, 8)) || IsLeftover(g, op, b))
    && (!op.OpDestruct? ==> g.book.lost <= g'.book.lost)
  }

  lemma ViewRelocated(ix: Index, g: Ghost, op: Op, ix': Index, g': Ghost)
    requires g'.book == g.book
    requires View(ix', g') == View(ix, g) || Relocates(View(ix, g), View(ix', g'))
    requires View(ix, g).chunks == [] ==> g.book == EMPTY_BOOK
    requires View(ix, g).chunks != [] ==> Inv(View(ix, g), g.book)
    ensures StepOk(ix, g, op, ix', g')
  {
    var h, h' := View(ix, g), View(ix', g');
    if h.chunks != [] {
      if h' == h { RelocatesSelf(h, g.book); }
      RelocateKeeps(h, h', g.book);
    }
  }

  lemma ViewInv(env: Env, ix: Index, g: Ghost)
    requires IxInv(env, ix, g)
    ensures View(ix, g).chunks == [] ==> g.book == EMPTY_BOOK
    ensures View(ix, g).chunks != [] ==> Inv(View(ix, g), g.book)
  {
  }

  /** After a successful `uncompress` the view is the open heap; before, it is that heap or one it
      was relocated from. */
  lemma UnpackedView(env: Env, ix: Index, g: Ghost, unpack: bool)
    requires IxInv(env, ix, g)
    ensures var (ix1, rc) := Uncompress(env, ix, unpack);
            && (rc == 0 ==> EnvOk(env) && Open(env, ix1, g.book)) && (rc != 0 ==> ix1 == ix)
            && SameLive(g.book, g.book) && (g.book.blocks == {} || KeepsLive(View(ix, g), View(ix1, g), g.book))
            && (View(ix1, g) == View(ix, g) || Relocates(View(ix, g), View(ix1, g)))
  {
    UncompressKeeps(env, ix, g, unpack);
    ViewInv(env, ix, g);
    var ix1 := Uncompress(env, ix, unpack).0;
    if View(ix, g).chunks != [] {
      if ix1 == ix { RelocatesSelf(View(ix, g), g.book); }
      PreservesRelocated(View(ix, g), View(ix1, g), g.book);
    }
  }

  lemma StepAlloc(env: Env, ix: Index, g: Ghost, op: Op)
    requires IxInv(env, ix, g) && Legal(ix, g, op) && op.OpAlloc?
    ensures var (ix', g') := Step(env, ix, g, op); IxInv(env, ix', g') && StepOk(ix, g, op, ix', g')
  {
    ReadyOf(env, ix, g);
    var (ix1, rc) := Uncompress(env, ix, op.unpack);
    if CeilDiv(op.size, 8) > MAX_WORDS {
      ViewInv(env, ix, g);
      ViewRelocated(ix, g, op, ix, g);
    } else {
      UnpackedView(env, ix, g, op.unpack);
      ViewInv(env, ix, g);
      if rc != 0 {
        ViewRelocated(ix, g, op, ix, g);
      } else {
        AllocIxKeeps(env, ix1, g.book, op.size, op.grant);
        StepAllocOpen(env, ix, g, op, ix1);
      }
    }
  }

  lemma StepAllocOpen(env: Env, ix: Index, g: Ghost, op: Op, ix1: Index)
    requires op.OpAlloc? && op.size >= 1 && CeilDiv(op.size, 8) <= MAX_WORDS && EnvOk(env) && Open(env, ix1, g.book)
    requires View(ix1, g) == ix1.heap
    requires g.book.blocks == {} || KeepsLive(View(ix, g), ix1.heap, g.book)
    ensures (ix1.heap.chunks == [] || Usable(ix1.heap)) && |g.book.lists| == 3
    ensures var ix' := AllocIx(env, ix1, op.size, op.grant).0;
            var g' := g.(book := BookAllocIx(env, ix1, g.book, op.size, op.grant));
            StepOk(ix, g, op, ix', g')
  {
    AllocIxKeeps(env, ix1, g.book, op.size, op.grant);
    var (ix', r) := AllocIx(env, ix1, op.size, op.grant);
    var bk' := BookAllocIx(env, ix1, g.book, op.size, op.grant);
    hide AllocIx;
    hide BookAllocIx;
    hide AllocFails;
    hide StepOk;
    hide Delivered;
    hide KeepsLive;
    OpenIsUnpacked(env, ix', bk');
    if r.Some? {
      StepDelivered(ix, g, op, ix1, ix', bk', r.value);
    } else {
      StepUnchanged(ix, g, op, ix1, ix');
    }
  }

  lemma StepDelivered(ix: Index, g: Ghost, op: Op, ix1: Index, ix': Index, bk': Book, b: Blk)
    requires op.OpAlloc? && ix'.packed.None? && (g.book.blocks == {} || KeepsLive(View(ix, g), ix1.heap, g.book))
    requires Delivered(ix1.heap, g.book, ix'.heap, bk', CeilDiv(op.size, 8), b)
    ensures StepOk(ix, g, op, ix', g.(book := bk'))
  {
    forall c | IsLive(g, c) ensures c in bk'.blocks && Kept(View(ix, g), ix'.heap, c) {
      assert Kept(View(ix, g), ix1.heap, c) && Kept(ix1.heap, ix'.heap, c);
    }
  }

  lemma StepUnchanged(ix: Index, g: Ghost, op: Op, ix1: Index, ix': Index)
    requires ix'.packed.None? && ix'.heap == ix1.heap
               && (g.book.blocks == {} || KeepsLive(View(ix, g), ix1.heap, g.book))
    ensures StepOk(ix, g, op, ix', g)
  {
    forall c | IsLive(g, c) ensures Kept(View(ix, g), ix'.heap, c) { assert Kept(View(ix, g), ix1.heap, c); }
  }

  /** What releasing a block must keep: every other live block with its contents, and no more. */
  ghost predicate FreeOk(ix: Index, g: Ghost, ix': Index, g': Ghost, c: Blk) {
    && (forall b :: IsLive(g, b) && b != c ==> IsLive(g', b) && Kept(View(ix, g), View(ix', g'), b))
    && (forall b :: IsLive(g', b) ==> IsLive(g, b))
    && g.book.lost <= g'.book.lost
  }

  /** `free` of a whole block. */
  lemma FreeWhole(env: Env, ix: Index, g: Ghost, c: Blk, unpack: bool)
    requires IxInv(env, ix, g) && IsLive(g, c)
    ensures Ready(env, ix) && |g.book.lists| == 3
    ensures var (ix1, rc) := Uncompress(env, ix, unpack);
            rc == 0 ==>
              && ix1.heap.mgr.Shaped() && c.no < |ix1.heap.chunks| && Room(ix1.heap, c.no, c.off, c.size)
              && var ix', g' := ix1.(heap := Free(ix1.heap, c)), g.(book := BookFree(ix1.heap, g.book, c));
                 IxInv(env, ix', g') && FreeOk(ix, g, ix', g', c) && !IsLive(g', c)
  {
    ReadyOf(env, ix, g);
    UnpackedView(env, ix, g, unpack);
    UncompressKeeps(env, ix, g, unpack);
    ViewInv(env, ix, g);
    var (ix1, rc) := Uncompress(env, ix, unpack);
    if rc == 0 {
      FreeIxKeeps(env, ix1, g.book, c);
      var bk' := BookFree(ix1.heap, g.book, c);
      hide BookFree;
      StepReleased(ix, g, ix1, ix1.(heap := Free(ix1.heap, c)), bk', c);
    }
  }

  lemma StepReleased(ix: Index, g: Ghost, ix1: Index, ix': Index, bk': Book, b: Blk)
    requires ix'.packed.None? && b.tag == LIVE
    requires g.book.blocks == {} || KeepsLive(View(ix, g), ix1.heap, g.book)
    requires Releases(ix1.heap, g.book, ix'.heap, bk', b)
    ensures FreeOk(ix, g, ix', g.(book := bk'), b) && b !in bk'.blocks
  {
    var bk1 := Without(g.book, b);
    forall c | IsLive(g, c) && c != b ensures c in bk'.blocks && Kept(View(ix, g), ix'.heap, c) {
      assert c in bk1.blocks;
      assert Kept(View(ix, g), ix1.heap, c) && Kept(ix1.heap, ix'.heap, c);
    }
    forall c: Blk | c in bk'.blocks && c.tag == LIVE ensures c in g.book.blocks { assert c in bk1.blocks; }
  }

  lemma StepFree(env: Env, ix: Index, g: Ghost, op: Op)
    requires IxInv(env, ix, g) && Legal(ix, g, op) && op.OpFree?
    ensures var (ix', g') := Step(env, ix, g, op); IxInv(env, ix', g') && StepOk(ix, g, op, ix', g')
    ensures var g' := Step(env, ix, g, op).1; var c := NamedBlk(op.p, op.bytes); var b := HeadedBy(g, c);
            (ix.packed.None? || op.unpack) ==>
              forall x :: IsLive(g', x) <==> (IsLive(g, x) && x != b) || (c.size < b.size && x == Rest(b, c.size))
  {
    var c := NamedBlk(op.p, op.bytes);
    var b := HeadedBy(g, c);
    CleftKeeps(env, ix, g, c);
    FreeWhole(env, ix, Cleft(g, c), c, op.unpack);
    UncompressKeeps(env, ix, g, op.unpack);
    ViewInv(env, ix, g);
    ViewOf(env, ix, g, b);
    var (ix1, rc) := Uncompress(env, ix, op.unpack);
    if rc != 0 {
      ViewRelocated(ix, g, op, ix, g);
    } else {
      HeadAlone(View(ix, g), g, b, c);
      hide IxInv;
      hide Free;
      hide BookFree;
      hide Uncompress;
      var g' := g.(book := BookFree(ix1.heap, Cleft(g, c).book, c));
      StepCleft(ix, g, op, ix1.(heap := Free(ix1.heap, c)), g', b, c);
    }
  }

  /** No other live block starts where `b` does, and what `b` leaves when cut is no live block yet. */
  lemma HeadAlone(h: Heap, g: Ghost, b: Blk, c: Blk)
    requires Inv(h, g.book) && Heads(g, b, c)
    ensures forall x :: IsLive(g, x) && x != b ==> x.no != b.no || x.off != b.off
    ensures c.size < b.size ==> !IsLive(g, c) && !IsLive(g, Rest(b, c.size)) && Rest(b, c.size) != c
  {
    assert Placed(h, b);
    forall x | IsLive(g, x) && x != b ensures x.no != b.no || x.off != b.off { assert Placed(h, x) && Disjoint(x, b); }
    if c.size < b.size {
      var r := Rest(b, c.size);
      assert !Disjoint(r, b) && !Disjoint(c, b) && r != b && c != b;
      assert IsLive(g, r) ==> Disjoint(r, b);
      assert IsLive(g, c) ==> Disjoint(c, b);
    }
  }

  lemma StepCleft(ix: Index, g: Ghost, op: Op, ix': Index, g': Ghost, b: Blk, c: Blk)
    requires op.OpFree? && c == NamedBlk(op.p, op.bytes) && Heads(g, b, c) && b == HeadedBy(g, c)
    requires forall x :: IsLive(Cleft(g, c), x) <==>
               (IsLive(g, x) && x != b) || x == c || (c.size < b.size && x == Rest(b, c.size))
    requires forall x :: IsLive(g, x) && x != b ==> x.no != b.no || x.off != b.off
    requires c.size < b.size ==> Rest(b, c.size) != c
    requires View(ix, Cleft(g, c)) == View(ix, g) && FreeOk(ix, Cleft(g, c), ix', g', c) && !IsLive(g', c)
    ensures StepOk(ix, g, op, ix', g')
    ensures forall x :: IsLive(g', x) <==> (IsLive(g, x) && x != b) || (c.size < b.size && x == Rest(b, c.size))
  {
    hide Kept;
    hide View;
    forall x | IsLive(g', x) && !IsLive(g, x) ensures IsLeftover(g, op, x) {
      assert IsLive(Cleft(g, c), x);
      assert Heads(g, b, NamedBlk(op.p, op.bytes));
    }
    forall x | IsLive(g, x) && x != b ensures IsLive(g', x) && Kept(View(ix, g), View(ix', g'), x) {
      assert IsLive(Cleft(g, c), x) && x != c;
    }
    if c.size < b.size { assert IsLive(Cleft(g, c), Rest(b, c.size)); }
  }

  lemma StepMoves(env: Env, ix: Index, g: Ghost, op: Op)
    requires IxInv(env, ix, g) && Legal(ix, g, op)
    requires op.OpShrink? || op.OpEnlarge? || op.OpCompress? || op.OpUncompress?
    ensures var (ix', g') := Step(env, ix, g, op); IxInv(env, ix', g') && StepOk(ix, g, op, ix', g')
  {
    hide StepOk;
    hide IxInv;
    hide Step;
    hide Relocates;
    hide Inv;
    ViewInv(env, ix, g);
    MovedView(env, ix, g, op);
    var (ix', g') := Step(env, ix, g, op);
    ViewRelocated(ix, g, op, ix', g');
  }

  /** These operations leave the heap that handles resolve in as it is, or relocate it. */
  lemma MovedView(env: Env, ix: Index, g: Ghost, op: Op)
    requires IxInv(env, ix, g) && Legal(ix, g, op)
    requires op.OpShrink? || op.OpEnlarge? || op.OpCompress? || op.OpUncompress?
    ensures var (ix', g') := Step(env, ix, g, op);
            && IxInv(env, ix', g') && g'.book == g.book
            && (View(ix', g') == View(ix, g) || Relocates(View(ix, g), View(ix', g')))
  {
    hide Inv;
    hide Relocates;
    match op {
      case OpShrink(grant) => StepShrink(env, ix, g, op);
      case OpEnlarge(unpack, grant, tail) => EnlargeOpKeeps(env, ix, g, unpack, grant, tail);
      case OpCompress(percent, grant) => StepCompress(env, ix, g, op);
      case OpUncompress(unpack) =>
        UncompressKeeps(env, ix, g, unpack);
        UnpackedView(env, ix, g, unpack);
    }
  }

  lemma StepShrink(env: Env, ix: Index, g: Ghost, op: Op)
    requires IxInv(env, ix, g) && Legal(ix, g, op) && op.OpShrink?
    ensures var (ix', g') := Step(env, ix, g, op);
            IxInv(env, ix', g') && (View(ix', g') == View(ix, g) || Relocates(View(ix, g), View(ix', g')))
  {
    if ix.packed.None? { ShrinkKeeps(env, ix, g.book, op.grant); } else { ShrinkNothing(env, ix, op.grant); }
  }

  lemma StepCompress(env: Env, ix: Index, g: Ghost, op: Op)
    requires IxInv(env, ix, g) && op.OpCompress?
    ensures var (ix', g') := Step(env, ix, g, op);
            IxInv(env, ix', g') && View(ix', g') == View(ix, g)
  {
    if ix.packed.None? { CompressKeeps(env, ix, g.book, op.percent, op.grant); }
  }

  lemma StepStore(env: Env, ix: Index, g: Ghost, op: Op)
    requires IxInv(env, ix, g) && Legal(ix, g, op) && op.OpStore?
    ensures var (ix', g') := Step(env, ix, g, op); IxInv(env, ix', g') && StepOk(ix, g, op, ix', g')
  {
    StepStoreOpen(env, ix, g, op);
  }

  lemma StepStoreOpen(env: Env, ix: Index, g: Ghost, op: Op)
    requires EnvOk(env) && Open(env, ix, g.book) && Legal(ix, g, op) && op.OpStore?
    ensures ix.heap.chunks != [] && op.b.no < |ix.heap.chunks| && op.k < |ix.heap.chunks[op.b.no].cells|
    ensures var ix' := ix.(heap := Store(ix.heap, op.b.no, op.k, op.v));
            IxInv(env, ix', g) && StepOk(ix, g, op, ix', g)
  {
    hide Open;
    hide Inv;
    OpenIsUnpacked(env, ix, g.book);
    StoreKeeps(env, ix, g.book, op.b, op.k, op.v);
    var h' := Store(ix.heap, op.b.no, op.k, op.v);
    forall c | IsLive(g, c) && c != op.b ensures Kept(ix.heap, h', c) { assert c in Without(g.book, op.b).blocks; }
  }

  /** Every legal step keeps the invariant and leaves every block alone that it should. */
  lemma StepKeeps(env: Env, ix: Index, g: Ghost, op: Op)
    requires IxInv(env, ix, g) && Legal(ix, g, op)
    ensures var (ix', g') := Step(env, ix, g, op); IxInv(env, ix', g') && StepOk(ix, g, op, ix', g')
  {
    hide StepOk;
    hide IxInv;
    hide Step;
    hide Legal;
    match op {
      case OpAlloc(_, _, _) => StepAlloc(env, ix, g, op);
      case OpFree(_, _, _) => StepFree(env, ix, g, op);
      case OpStore(_, _, _) => StepStore(env, ix, g, op);
      case OpShrink(_) => StepMoves(env, ix, g, op);
      case OpEnlarge(_, _, _) => StepMoves(env, ix, g, op);
      case OpCompress(_, _) => StepMoves(env, ix, g, op);
      case OpUncompress(_) => StepMoves(env, ix, g, op);
      case OpDestruct => StepDestruct(env, ix, g, op);
    }
  }

  lemma StepDestruct(env: Env, ix: Index, g: Ghost, op: Op)
    requires IxInv(env, ix, g) && op.OpDestruct?
    ensures var (ix', g') := Step(env, ix, g, op); IxInv(env, ix', g') && StepOk(ix, g, op, ix', g')
  {
    DestructIff(env, ix, g);
  }

  // ---------- runs ----------

  ghost predicate LegalRun(env: Env, ix: Index, g: Ghost, ops: seq<Op>)
    requires IxInv(env, ix, g)
    decreases |ops|
  {
    ops == [] ||
    (&& Legal(ix, g, ops[0])
     && (StepKeeps(env, ix, g, ops[0]);
         var (ix1, g1) := Step(env, ix, g, ops[0]);
         LegalRun(env, ix1, g1, ops[1..])))
  }

  ghost function Run(env: Env, ix: Index, g: Ghost, ops: seq<Op>): (Index, Ghost)
    requires IxInv(env, ix, g) && LegalRun(env, ix, g, ops)
    decreases |ops|
  {
    if ops == [] then (ix, g)
    else
      StepKeeps(env, ix, g, ops[0]);
      var (ix1, g1) := Step(env, ix, g, ops[0]);
      Run(env, ix1, g1, ops[1..])
  }

  /** Over every legal run the invariant holds at the end, and no block was released that was not
      outstanding and no header read that was gone. */
  lemma {:induction false} RunKeeps(env: Env, ix: Index, g: Ghost, ops: seq<Op>)
    requires IxInv(env, ix, g) && LegalRun(env, ix, g, ops)
    ensures var (ix', g') := Run(env, ix, g, ops); IxInv(env, ix', g') && ix'.sys.faults == 0
    decreases |ops|
  {
    if ops == [] {
      NoFaults(env, ix, g);
    } else {
      StepKeeps(env, ix, g, ops[0]);
      hide IxInv;
      hide Step;
      var (ix1, g1) := Step(env, ix, g, ops[0]);
      RunKeeps(env, ix1, g1, ops[1..]);
    }
  }

  lemma NoFaults(env: Env, ix: Index, g: Ghost)
    requires IxInv(env, ix, g)
    ensures ix.sys.faults == 0
  {
  }

  lemma KeptTransitive(h: Heap, h1: Heap, h2: Heap, b: Blk)
    requires Kept(h, h1, b) && Kept(h1, h2, b)
    ensures Kept(h, h2, b)
  {
  }

  /** A handle is good from allocation to release: over any legal run that neither releases a live
      block nor stores into it, however often chunks are added, moved, shrunk, enlarged, compressed
      or uncompressed, the block stays live and its handle leads to the same contents. */
  lemma {:induction false} RunKeepsBlock(env: Env, ix: Index, g: Ghost, ops: seq<Op>, b: Blk)
    requires IxInv(env, ix, g) && LegalRun(env, ix, g, ops) && IsLive(g, b)
    requires forall i :: 0 <= i < |ops| ==> Spares(ops[i], b)
    ensures var (ix', g') := Run(env, ix, g, ops); IsLive(g', b) && Kept(View(ix, g), View(ix', g'), b)
    decreases |ops|
  {
    if ops == [] {
      LiveKept(env, ix, g, b);
    } else {
      StepKeeps(env, ix, g, ops[0]);
      var (ix1, g1) := Step(env, ix, g, ops[0]);
      assert Spares(ops[0], b);
      hide IxInv;
      hide Step;
      hide Kept;
      RunKeepsBlock(env, ix1, g1, ops[1..], b);
      var (ix', g') := Run(env, ix1, g1, ops[1..]);
      KeptTransitive(View(ix, g), View(ix1, g1), View(ix', g'), b);
    }
  }

  lemma LiveKept(env: Env, ix: Index, g: Ghost, b: Blk)
    requires IxInv(env, ix, g) && IsLive(g, b)
    ensures Kept(View(ix, g), View(ix, g), b)
  {
    ViewInv(env, ix, g);
    assert Placed(View(ix, g), b);
    assert Sane(View(ix, g).chunks[b.no], b.no);
  }

  /** A successful `alloc` brings exactly one block to life, of the size asked for, and its handle names
      it; one that fails changes no block. */
  lemma AllocExactly(env: Env, ix: Index, g: Ghost, size: nat, unpack: bool, grant: bool)
    requires IxInv(env, ix, g) && size >= 1
    ensures Ready(env, ix)
    ensures var (ix', g') := Step(env, ix, g, OpAlloc(size, unpack, grant));
            match AllocOp(env, ix, size, unpack, grant).1
            case None => g' == g
            case Some(b) =>
              && b.size == CeilDiv(size, 8) && b.tag == LIVE && !IsLive(g, b) && ix'.packed.None?
              && (forall c :: IsLive(g', c) <==> IsLive(g, c) || c == b)
              && HandleOf(b).Fits() && !HandleOf(b).IsNull() && NamedBlk(HandleOf(b), 0) == b
  {
    ReadyOf(env, ix, g);
    UncompressKeeps(env, ix, g, unpack);
    var (ix1, rc) := Uncompress(env, ix, unpack);
    hide IxInv;
    hide Uncompress;
    hide KeepsLive;
    if CeilDiv(size, 8) <= MAX_WORDS && rc == 0 {
      AllocIxKeeps(env, ix1, g.book, size, grant);
      var (ix', r) := AllocIx(env, ix1, size, grant);
      var bk' := BookAllocIx(env, ix1, g.book, size, grant);
      hide AllocIx;
      hide BookAllocIx;
      if r.Some? {
        OpenInv(env, ix', bk');
        HandleRoundTrip(ix'.heap, bk', r.value, 0);
      }
    }
  }

  lemma OpenInv(env: Env, ix: Index, bk: Book)
    requires Open(env, ix, bk) && ix.heap.chunks != []
    ensures Inv(ix.heap, bk) && ix.packed.None?
  {
  }

  /** `free` ends the life of exactly the block it names; when it names only the front of one, the rest
      lives on as a block of its own. */
  lemma FreeExactly(env: Env, ix: Index, g: Ghost, p: Ptr, bytes: nat, unpack: bool)
    requires IxInv(env, ix, g) && (ix.packed.None? || unpack) && Legal(ix, g, OpFree(p, bytes, unpack))
    ensures var g' := Step(env, ix, g, OpFree(p, bytes, unpack)).1; var c := NamedBlk(p, bytes);
            && (IsLive(g, c) ==> forall x :: IsLive(g', x) <==> IsLive(g, x) && x != c)
            && (forall b :: Heads(g, b, c) && b != c ==>
                  forall x :: IsLive(g', x) <==> (IsLive(g, x) && x != b) || x == Rest(b, c.size))
  {
    StepFree(env, ix, g, OpFree(p, bytes, unpack));
    var c := NamedBlk(p, bytes);
    ViewOf(env, ix, g, HeadedBy(g, c));
    hide Inv;
    hide Step;
    forall b | Heads(g, b, c) ensures b == HeadedBy(g, c) { HeadedByOne(View(ix, g), g, b, c); }
    if IsLive(g, c) { assert Heads(g, c, c); }
  }

  /** A block allocated for `bytes` bytes and released with the same number: it is gone if the number is
      one of whole words; otherwise all but its last word is, and that word, to which no handle was
      given, is live until the index is destroyed. */
  lemma FreeAsAsked(env: Env, ix: Index, g: Ghost, b: Blk, bytes: nat, unpack: bool)
    requires IxInv(env, ix, g) && (ix.packed.None? || unpack) && IsLive(g, b) && b.size == CeilDiv(bytes, 8)
               && bytes >= 8
    ensures Legal(ix, g, OpFree(HandleOf(b), bytes, unpack))
    ensures var (ix', g') := Step(env, ix, g, OpFree(HandleOf(b), bytes, unpack));
            && IxInv(env, ix', g')
            && (forall x :: IsLive(g', x) <==> (IsLive(g, x) && x != b) || (bytes % 8 != 0 && x == Rest(b, b.size - 1)))
            && (bytes % 8 != 0 ==> Rest(b, b.size - 1).size == 1 && !IsLive(g, Rest(b, b.size - 1)))
  {
    hide IxInv;
    hide Inv;
    hide Step;
    var c := NamedBlk(HandleOf(b), bytes);
    ViewOf(env, ix, g, b);
    HandleRoundTrip(View(ix, g), g.book, b, bytes);
    assert Heads(g, b, c);
    HeadAlone(View(ix, g), g, b, c);
    StepFree(env, ix, g, OpFree(HandleOf(b), bytes, unpack));
    HeadedByOne(View(ix, g), g, b, c);
  }

  // ---------- runs, step by step ----------

  ghost const START: Ghost := Ghost(EMPTY_BOOK, NO_HEAP)

  /** The run `ops` is legal and ends in the given state. */
  ghost predicate Leads(env: Env, ix: Index, g: Ghost, ops: seq<Op>, ix': Index, g': Ghost) {
    IxInv(env, ix, g) && LegalRun(env, ix, g, ops) && Run(env, ix, g, ops) == (ix', g')
  }

  lemma LeadsNowhere(env: Env, ix: Index, g: Ghost)
    requires IxInv(env, ix, g)
    ensures Leads(env, ix, g, [], ix, g)
  {
  }

  /** One more step in front of a run. */
  lemma LeadsFrom(env: Env, ix: Index, g: Ghost, op: Op, ops: seq<Op>, ix': Index, g': Ghost)
    requires IxInv(env, ix, g) && Legal(ix, g, op)
    requires var (ix1, g1) := Step(env, ix, g, op); Leads(env, ix1, g1, ops, ix', g')
    ensures Leads(env, ix, g, [op] + ops, ix', g')
  {
    hide IxInv;
    hide Legal;
    hide Step;
    StepKeeps(env, ix, g, op);
    var all := [op] + ops;
    assert all[0] == op && all[1..] == ops;
  }

  /** One more step at the end of a run. */
  lemma {:induction false} LeadsOn(env: Env, ix: Index, g: Ghost, ops: seq<Op>, ix1: Index, g1: Ghost, op: Op)
    requires Leads(env, ix, g, ops, ix1, g1) && IxInv(env, ix1, g1) && Legal(ix1, g1, op)
    ensures var (ix', g') := Step(env, ix1, g1, op); IxInv(env, ix', g') && Leads(env, ix, g, ops + [op], ix', g')
    decreases |ops|
  {
    hide IxInv;
    hide Legal;
    hide Step;
    StepKeeps(env, ix1, g1, op);
    var (ix', g') := Step(env, ix1, g1, op);
    if ops == [] {
      LeadsNowhere(env, ix', g');
      LeadsFrom(env, ix, g, op, [], ix', g');
      assert ops + [op] == [op] + [];
    } else {
      StepKeeps(env, ix, g, ops[0]);
      var (ix2, g2) := Step(env, ix, g, ops[0]);
      LeadsOn(env, ix2, g2, ops[1..], ix1, g1, op);
      LeadsFrom(env, ix, g, ops[0], ops[1..] + [op], ix', g');
      assert ops + [op] == [ops[0]] + (ops[1..] + [op]);
    }
  }

  /** Runs can be put one after the other. */
  lemma {:induction false} LeadsThrough(env: Env, ix: Index, g: Ghost, ops: seq<Op>, ix1: Index, g1: Ghost,
                                        more: seq<Op>, ix': Index, g': Ghost)
    requires Leads(env, ix, g, ops, ix1, g1) && Leads(env, ix1, g1, more, ix', g')
    ensures Leads(env, ix, g, ops + more, ix', g')
    decreases |ops|
  {
    hide IxInv;
    hide Legal;
    hide Step;
    if ops == [] {
      assert ops + more == more;
    } else {
      StepKeeps(env, ix, g, ops[0]);
      var (ix2, g2) := Step(env, ix, g, ops[0]);
      LeadsThrough(env, ix2, g2, ops[1..], ix1, g1, more, ix', g');
      LeadsFrom(env, ix, g, ops[0], ops[1..] + more, ix', g');
      assert ops + more == [ops[0]] + (ops[1..] + more);
    }
  }

  /** The first allocation of an empty index is the boot block: it starts right behind the manager. */
  lemma FirstIsBoot(env: Env, ix: Index, g: Ghost, size: nat, unpack: bool, grant: bool)
    requires IxInv(env, ix, g) && ix.packed.None? && ix.heap.chunks == [] && 1 <= size
    ensures Ready(env, ix)
    ensures AllocOp(env, ix, size, unpack, grant).1
            == if grant && size <= 8 * MAX_WORDS then Some(Blk(0, Lo(0), CeilDiv(size, 8), LIVE)) else None
  {
    ReadyOf(env, ix, g);
  }

  lemma EmptyInv(env: Env)
    requires EnvOk(env)
    ensures IxInv(env, EMPTY, Ghost(EMPTY_BOOK, NO_HEAP))
  {
  }

  // ---------- what the invariant says ----------

  /** What the invariant says of memory, spelled out: the outstanding blocks are exactly those the
      chunks lie in, a chunk that owns none lies within that of chunk 0, the recorded block sizes add up,
      `_chk_addr` has room, and with a pool every chunk has a block of its own and all but the last are
      at full size. */
  lemma LayoutSpelledOut(env: Env, ix: Index, g: Ghost)
    requires IxInv(env, ix, g) && ix.packed.None? && ix.heap.chunks != []
    ensures var cs := ix.heap.chunks;
            && |cs| <= ix.addrSize && Sum(AllocCaps(cs)) == ix.heap.mgr.totalCap
            && (forall i :: 0 <= i < |cs| ==> cs[i].at.block in ix.sys.out && ix.sys.out[cs[i].at.block] == ChunkBlock)
            && (forall b :: b in ix.sys.out ==> exists i :: 0 <= i < |cs| && cs[i].at.block == b)
            && (forall i :: 0 <= i < |cs| ==> (cs[i].allocCap == 0 <==> cs[i].at.base > 0))
            && (forall i :: 0 <= i < |cs| && cs[i].allocCap == 0 ==>
                  cs[i].at.block == cs[0].at.block && cs[i].at.base + cs[i].cap <= cs[0].allocCap)
    ensures var cs := ix.heap.chunks;
            env.pooled ==>
              && (forall i, j :: 0 <= i < j < |cs| ==> cs[i].at.block != cs[j].at.block)
              && (forall i :: 0 <= i < |cs| - 1 ==> cs[i].cap == MAX_CAP)
  {
    hide IxInv;
    hide Inv;
    hide Layout;
    hide LayoutAt;
    hide Owners;
    hide Sum;
    OpenOf(env, ix, g);
    var k := LayoutOf(env, ix, g.book);
    hide Open;
    InvParts(ix.heap, g.book);
    AllocCapsAddUp(env, ix.heap, g.book, k, ix.sys);
    LayoutParts(env, ix.heap, k, ix.sys);
    OwnersSpelledOut(env, ix.heap, k, ix.sys);
  }

  lemma OpenOf(env: Env, ix: Index, g: Ghost)
    requires IxInv(env, ix, g) && ix.packed.None?
    ensures Open(env, ix, g.book)
  {
  }

  lemma OwnersSpelledOut(env: Env, h: Heap, k: nat, s: Sys)
    requires Shape(h) && Layout(env, h, s) && Owners(h.chunks, k, s.out)
    ensures var cs := h.chunks;
            && (forall i :: 0 <= i < |cs| ==> cs[i].at.block in s.out && s.out[cs[i].at.block] == ChunkBlock)
            && (forall b :: b in s.out ==> exists i :: 0 <= i < |cs| && cs[i].at.block == b)
            && (forall i :: 0 <= i < |cs| ==> (cs[i].allocCap == 0 <==> cs[i].at.base > 0))
            && (forall i :: 0 <= i < |cs| && cs[i].allocCap == 0 ==>
                  cs[i].at.block == cs[0].at.block && cs[i].at.base + cs[i].cap <= cs[0].allocCap)
            && (k == 1 ==> forall i, j :: 0 <= i < j < |cs| ==> cs[i].at.block != cs[j].at.block)
  {
    hide Shape;
    hide Layout;
    hide Owners;
    var cs := h.chunks;
    forall i: nat | i < |cs|
      ensures cs[i].at.block in s.out && s.out[cs[i].at.block] == ChunkBlock
                && (cs[i].allocCap == 0 <==> cs[i].at.base > 0)
      ensures cs[i].allocCap == 0 ==> cs[i].at.block == cs[0].at.block && cs[i].at.base + cs[i].cap <= cs[0].allocCap
    {
      OwnersAt(cs, k, s.out, i);
      NonOwnerInside(env, h, s, i);
    }
    forall b | b in s.out ensures exists i :: 0 <= i < |cs| && cs[i].at.block == b {
      var i := OwnersCover(cs, k, s.out, b);
    }
    if k == 1 {
      forall i: nat, j: nat | i < j < |cs| ensures cs[i].at.block != cs[j].at.block {
        OwnersDiffer(cs, k, s.out, i, j);
      }
    }
  }

  lemma LayoutOf(env: Env, ix: Index, bk: Book) returns (k: nat)
    requires Open(env, ix, bk) && ix.heap.chunks != []
    ensures LayoutAt(env, ix.heap, k, ix.sys) && Layout(env, ix.heap, ix.sys) && |ix.heap.chunks| <= ix.addrSize
              && Inv(ix.heap, bk)
  {
    k :| LayoutAt(env, ix.heap, k, ix.sys);
  }

  lemma LayoutParts(env: Env, h: Heap, k: nat, s: Sys)
    requires LayoutAt(env, h, k, s)
    ensures Owners(h.chunks, k, s.out)
    ensures env.pooled ==> k == 1 && forall i :: 0 <= i < |h.chunks| - 1 ==> h.chunks[i].cap == MAX_CAP
  {
  }

  /** What the invariant says of a heap, spelled out: blocks are disjoint and in their chunks, list
      `i` threads exactly the free blocks of class `i` through memory, and the counters add up. */
  lemma InvSpelledOut(h: Heap, bk: Book)
    requires Inv(h, bk)
    ensures forall b :: b in bk.blocks ==> Placed(h, b)
    ensures forall a, b :: a in bk.blocks && b in bk.blocks && a != b ==> Disjoint(a, b)
    ensures |bk.lists| == 3 && forall i :: 0 <= i < 3 ==>
              Linked(h, h.mgr.heads[i], bk.lists[i]) && NoRepeat(bk.lists[i])
    ensures forall i, b :: 0 <= i < 3 && b in bk.lists[i] ==> b in bk.blocks && b.tag == i && b.size == h.mgr.sizes[i]
    ensures forall i :: 0 <= i < |h.chunks| ==> h.chunks[i].used == Lo(i) + Words(LiveIn(bk, i)) <= h.chunks[i].virgin
    ensures Sum(Useds(h.chunks)) == h.mgr.totalUsed && Sum(Virgins(h.chunks)) == h.mgr.totalUsed + h.mgr.totalFree
    ensures h.mgr.totalFree == Words(Pool(bk)) + bk.lost && Sum(Caps(h.chunks)) == h.mgr.totalCap
  {
    forall a, b | a in bk.blocks && b in bk.blocks && a != b ensures Disjoint(a, b) {}
    forall i | 0 <= i < |h.chunks| ensures h.chunks[i].used <= h.chunks[i].virgin { UsedBelowVirgin(h, bk, i); }
    forall i, b | 0 <= i < 3 && b in bk.lists[i] ensures b in bk.blocks && b.tag == i && b.size == h.mgr.sizes[i] {
      assert TagFits(h.mgr, b);
    }
  }
}
