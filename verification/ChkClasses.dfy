/**
  The size classes of an index over whole runs: they are the presets, from the first chunk on, however
  often the index is compressed, moved or destroyed and built up again (chk/chk_mem_mgr.h).
 */
module ChkClasses {
  import opened ChkBase
  import opened ChkHeap
  import opened ChkAlloc
  import opened ChkImage
  import opened ChkIndexSpec
  import opened ChkOwnership
  import opened ChkOperations
  import opened ChkRuns

  /** The classes of the index are the presets. */
  ghost predicate Preset(env: Env, h: Heap) {
    h.chunks != [] ==> h.mgr.sizes == env.sizes
  }

  // ---------- the operations on a heap ----------

  lemma TakeClasses(h: Heap, i: nat, size: nat)
    requires h.mgr.Shaped() && i < 3 && HeadOk(h, i) && size <= h.mgr.sizes[i]
    ensures PoolTake(h, i, size).mgr.sizes == h.mgr.sizes
  {
    hide Carve;
    hide EncodePtr;
    hide DecodePtr;
    var p := h.mgr.heads[i];
    CarveWrites(Pop(h, i), p.no, p.off / 2 + size, h.mgr.sizes[i] - size, PoolTake(h, i, size));
  }

  lemma DonateClasses(h: Heap, no: nat)
    requires h.mgr.Shaped() && no < |h.chunks| && no < NULL_NO && Sane(h.chunks[no], no)
    ensures Donate(h, no).mgr.sizes == h.mgr.sizes
  {
    hide Carve;
    var v, left := h.chunks[no].virgin, WordsIn(h.chunks[no].cap) - h.chunks[no].virgin;
    var h1 := SetVirgin(h, no, v + left);
    DonateUnfold(h, EMPTY_BOOK, no, h1, v, left);
    CarveWrites(h1, no, v, left, Carve(h1, no, v, left));
  }

  lemma AllocClasses(h: Heap, size: nat, at: Option<Addr>)
    requires Shape(h) && HeadsOk(h) && size <= MAX_WORDS
    ensures Alloc(h, size, at).0.mgr.sizes == h.mgr.sizes && Alloc(h, size, at).0.chunks != []
  {
    hide Carve;
    hide Donate;
    hide Pop;
    var i, n := FirstFit(h.mgr, size), |h.chunks|;
    if i < 3 {
      TakeClasses(h, i, size);
    } else if !BumpFits(h, size) && n < NULL_NO && at.Some? {
      assert Sane(h.chunks[n - 1], n - 1);
      var h1 := AddChunk(h, at.value);
      assert h1.chunks[n - 1] == h.chunks[n - 1];
      DonateClasses(h1, n - 1);
    }
  }

  lemma FreeClasses(h: Heap, b: Blk)
    requires h.mgr.Shaped() && b.no < |h.chunks| && Room(h, b.no, b.off, b.size)
    ensures Free(h, b).mgr.sizes == h.mgr.sizes && Free(h, b).chunks != []
  {
    hide Carve;
    var z := AddFree(Zeroed(h, b), b.size);
    CarveWrites(z, b.no, b.off, b.size, Carve(z, b.no, b.off, b.size));
  }

  // ---------- the operations on the index ----------

  lemma UncompressClasses(env: Env, ix: Index, g: Ghost, grant: bool)
    requires IxInv(env, ix, g) && Preset(env, View(ix, g))
    ensures var (ix1, rc) := Uncompress(env, ix, grant);
            && Preset(env, View(ix1, g)) && (rc != 0 ==> ix1 == ix)
            && (rc == 0 ==> ix1.packed.None? && Open(env, ix1, g.book))
  {
    UncompressKeeps(env, ix, g, grant);
    ViewInv(env, ix, g);
    hide Inv;
    hide Uncompress;
  }

  lemma AllocIxClasses(env: Env, ix: Index, size: nat, grant: bool)
    requires ix.heap.chunks == [] || Usable(ix.heap)
    requires SizesOk(env.sizes) && env.sizes[0] < 16 && env.sizes[1] < 32 && env.sizes[2] < 128
    requires Preset(env, ix.heap)
    ensures var ix' := AllocIx(env, ix, size, grant).0; Preset(env, ix'.heap) && ix'.packed == ix.packed
  {
    hide Alloc;
    var words := CeilDiv(size, 8);
    if words <= MAX_WORDS {
      var (ix1, rc) := if ix.heap.chunks == [] then AddFirst(env, ix, grant) else (ix, 0);
      if rc >= 0 && !CanEnlarge(Last(ix1.heap)) {
        AllocClasses(ix1.heap, words, if grant then Some(Addr(ix1.sys.next, 0)) else None);
      }
    }
  }

  lemma AllocStepClasses(env: Env, ix: Index, g: Ghost, op: Op)
    requires IxInv(env, ix, g) && op.OpAlloc? && Legal(ix, g, op) && Preset(env, View(ix, g))
    ensures var (ix', g') := Step(env, ix, g, op); Preset(env, View(ix', g'))
  {
    hide AllocIx;
    hide Usable;
    hide Open;
    ReadyOf(env, ix, g);
    UncompressClasses(env, ix, g, op.unpack);
    var (ix1, rc) := Uncompress(env, ix, op.unpack);
    hide Uncompress;
    hide IxInv;
    if rc == 0 { AllocIxClasses(env, ix1, op.size, op.grant); }
  }

  lemma FreeStepClasses(env: Env, ix: Index, g: Ghost, op: Op)
    requires IxInv(env, ix, g) && op.OpFree? && Legal(ix, g, op) && Preset(env, View(ix, g))
    ensures var (ix', g') := Step(env, ix, g, op); Preset(env, View(ix', g'))
  {
    hide Free;
    hide Cleft;
    var c := NamedBlk(op.p, op.bytes);
    CleftKeeps(env, ix, g, c);
    FreeOpReady(env, ix, Cleft(g, c), c, op.unpack);
    UncompressClasses(env, ix, g, op.unpack);
    var (ix1, rc) := Uncompress(env, ix, op.unpack);
    if rc == 0 { FreeClasses(ix1.heap, c); }
  }

  lemma MoveStepClasses(env: Env, ix: Index, g: Ghost, op: Op)
    requires IxInv(env, ix, g) && Legal(ix, g, op) && Preset(env, View(ix, g))
    requires op.OpShrink? || op.OpEnlarge? || op.OpCompress? || op.OpUncompress?
    ensures var (ix', g') := Step(env, ix, g, op); Preset(env, View(ix', g'))
  {
    match op {
      case OpShrink(grant) => StepShrink(env, ix, g, op);
      case OpEnlarge(unpack, grant, tail) => EnlargeOpKeeps(env, ix, g, unpack, grant, tail);
      case OpCompress(percent, grant) => StepCompress(env, ix, g, op);
      case OpUncompress(unpack) => UncompressClasses(env, ix, g, unpack);
    }
  }

  lemma StepClasses(env: Env, ix: Index, g: Ghost, op: Op)
    requires IxInv(env, ix, g) && Legal(ix, g, op) && Preset(env, View(ix, g))
    ensures var (ix', g') := Step(env, ix, g, op); Preset(env, View(ix', g'))
  {
    hide Inv;
    if op.OpAlloc? {
      AllocStepClasses(env, ix, g, op);
    } else if op.OpFree? {
      FreeStepClasses(env, ix, g, op);
    } else if !op.OpStore? && !op.OpDestruct? {
      MoveStepClasses(env, ix, g, op);
    }
  }

  // ---------- whole runs ----------

  lemma {:induction false} RunClasses(env: Env, ix: Index, g: Ghost, ops: seq<Op>)
    requires IxInv(env, ix, g) && LegalRun(env, ix, g, ops) && Preset(env, View(ix, g))
    ensures var (ix', g') := Run(env, ix, g, ops); Preset(env, View(ix', g'))
    decreases |ops|
  {
    hide IxInv;
    hide Step;
    hide Preset;
    hide Legal;
    if ops != [] {
      StepKeeps(env, ix, g, ops[0]);
      StepClasses(env, ix, g, ops[0]);
      var (ix1, g1) := Step(env, ix, g, ops[0]);
      RunClasses(env, ix1, g1, ops[1..]);
    }
  }

  lemma EmptyPreset(env: Env)
    ensures Preset(env, View(EMPTY, START))
  {
  }

  /** After every legal run from the empty index the size classes are the presets, and list `i` leads in
      memory through free blocks of preset `i`, each once. */
  lemma ClassesAfterRun(env: Env, ops: seq<Op>, ix: Index, g: Ghost)
    requires Leads(env, EMPTY, START, ops, ix, g) && View(ix, g).chunks != []
    ensures var h, bk := View(ix, g), g.book;
            && h.mgr.sizes == env.sizes && |env.sizes| == 3 && |bk.lists| == 3 && |h.mgr.heads| == 3
            && forall i :: 0 <= i < 3 ==>
                 && Linked(h, h.mgr.heads[i], bk.lists[i]) && NoRepeat(bk.lists[i])
                 && forall b :: b in bk.lists[i] ==> b in bk.blocks && b.tag == i && b.size == env.sizes[i]
  {
    hide IxInv;
    hide Inv;
    EmptyPreset(env);
    RunClasses(env, EMPTY, START, ops);
    RunKeeps(env, EMPTY, START, ops);
    ViewInv(env, ix, g);
    InvSpelledOut(View(ix, g), g.book);
    InvParts(View(ix, g), g.book);
  }
}
