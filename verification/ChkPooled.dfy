/**
  An index over the chunk pool: every run asks for and gives back blocks one at a time, and served by
  the pool of chk/chk_memalign.cpp its chunks lie at different pool addresses.
 */
module ChkPooled {
  import opened ChkBase
  import opened ChkHeap
  import opened ChkAlloc
  import opened ChkImage
  import opened ChkIndexSpec
  import opened ChkOwnership
  import opened ChkOperations
  import opened ChkRuns
  import opened ChkMemalign

  // ---------- what an index asks of the system ----------

  datatype Event = Obtained(kind: Kind) | Released(at: Addr, kind: Kind)

  function Apply(s: Sys, tr: seq<Event>): Sys
    decreases |tr|
  {
    if tr == [] then s
    else
      var n := |tr| - 1;
      ApplyOne(Apply(s, tr[..n]), tr[n])
  }

  function ApplyOne(s: Sys, e: Event): Sys {
    if e.Obtained? then Obtain(s, e.kind) else Release(s, e.at, e.kind)
  }

  /** `s'` comes of `s` by obtaining and releasing blocks. */
  ghost predicate Trades(s: Sys, s': Sys) {
    exists tr :: Apply(s, tr) == s'
  }

  lemma {:induction false} ApplyJoin(s: Sys, a: seq<Event>, b: seq<Event>)
    ensures Apply(s, a + b) == Apply(Apply(s, a), b)
    decreases |b|
  {
    if b == [] {
      assert a + b == a;
    } else {
      var n := |b| - 1;
      ApplyJoin(s, a, b[..n]);
      assert (a + b)[..|a| + n] == a + b[..n];
    }
  }

  lemma TradesThrough(s: Sys, s1: Sys, s2: Sys)
    requires Trades(s, s1) && Trades(s1, s2)
    ensures Trades(s, s2)
  {
    var a :| Apply(s, a) == s1;
    var b :| Apply(s1, b) == s2;
    ApplyJoin(s, a, b);
  }

  lemma TradesNothing(s: Sys)
    ensures Trades(s, s)
  {
    assert Apply(s, []) == s;
  }

  lemma TradesOne(s: Sys, e: Event)
    ensures Trades(s, ApplyOne(s, e))
  {
    assert [e][..0] == [];
    assert Apply(s, [e]) == ApplyOne(s, e);
  }

  lemma TradesFor(s: Sys, kind: Kind, at: Addr, kind': Kind)
    ensures Trades(s, Obtain(s, kind)) && Trades(s, Release(s, at, kind'))
    ensures Trades(s, Release(Obtain(s, kind), at, kind'))
  {
    TradesOne(s, Obtained(kind));
    TradesOne(s, Released(at, kind'));
    TradesOne(Obtain(s, kind), Released(at, kind'));
    TradesThrough(s, Obtain(s, kind), Release(Obtain(s, kind), at, kind'));
  }

  lemma {:induction false} TradesMany(s: Sys, n: nat)
    ensures Trades(s, ObtainMany(s, n))
  {
    if n == 0 {
      TradesNothing(s);
    } else {
      TradesMany(s, n - 1);
      TradesOne(ObtainMany(s, n - 1), Obtained(ChunkBlock));
      TradesThrough(s, ObtainMany(s, n - 1), ObtainMany(s, n));
    }
  }

  /** Releasing all chunks is a trade unless a header is read that is gone. */
  lemma {:induction false} TradesAll(s: Sys, cs: seq<Chunk>)
    ensures ReleaseAll(s, cs).faults >= s.faults
    ensures ReleaseAll(s, cs).faults == s.faults ==> Trades(s, ReleaseAll(s, cs))
    decreases |cs|
  {
    if cs == [] {
      TradesNothing(s);
    } else {
      var c := cs[|cs| - 1];
      var t := ReleaseOne(s, c.at, c.allocCap);
      TradesAll(t, cs[..|cs| - 1]);
      if ReleaseAll(s, cs).faults == s.faults {
        if c.allocCap != 0 { TradesFor(s, ChunkBlock, c.at, ChunkBlock); } else { TradesNothing(s); }
        TradesThrough(s, t, ReleaseAll(s, cs));
      }
    }
  }

  lemma SplitTrades(env: Env, ix: Index)
    requires ix.heap.chunks == [] || Shape(ix.heap)
    ensures Trades(ix.sys, SplitIx(env, ix).sys)
  {
    if IsContinuous(ix.heap) {
      var n := |ix.heap.chunks|;
      TradesMany(ix.sys, n);
      var kind := if env.pooled then RawBlock else ChunkBlock;
      TradesFor(ObtainMany(ix.sys, n), kind, ix.heap.chunks[0].at, kind);
      TradesThrough(ix.sys, ObtainMany(ix.sys, n), SplitIx(env, ix).sys);
    } else {
      TradesNothing(ix.sys);
    }
  }

  lemma UncompressTrades(env: Env, ix: Index, grant: bool)
    ensures Trades(ix.sys, Uncompress(env, ix, grant).0.sys)
  {
    hide Unflatten;
    hide Shape;
    hide Apply;
    TradesNothing(ix.sys);
    if ix.packed.Some? && Uncompress(env, ix, grant).0 != ix {
      var img := env.codec.unpack(ix.packed.value.bytes).value;
      var cap := (|img| + 255) / 256;
      var h := Unflatten(img, Zeros(CellsIn(cap) - |img|), ix.sys.next).value;
      var kind := if env.pooled && cap > MAX_CAP then RawBlock else ChunkBlock;
      TradesFor(ix.sys, kind, Addr(ix.packed.value.block, 0), PackedBlock);
      var s := Release(Obtain(ix.sys, kind), Addr(ix.packed.value.block, 0), PackedBlock);
      var ix1 := Index(h, None, ix.addrSize, s);
      if env.pooled && Shape(h) {
        SplitTrades(env, ix1);
        TradesThrough(ix.sys, s, SplitIx(env, ix1).sys);
      }
    }
  }

  lemma AllocTrades(env: Env, ix: Index, size: nat, grant: bool)
    requires ix.heap.chunks == [] || Usable(ix.heap)
    requires SizesOk(env.sizes) && env.sizes[0] < 16 && env.sizes[1] < 32 && env.sizes[2] < 128
    ensures Trades(ix.sys, AllocIx(env, ix, size, grant).0.sys)
  {
    hide Alloc;
    hide Apply;
    var s1 := Obtain(ix.sys, ChunkBlock);
    TradesNothing(ix.sys);
    TradesOne(ix.sys, Obtained(ChunkBlock));
    TradesOne(s1, Obtained(ChunkBlock));
    TradesThrough(ix.sys, s1, Obtain(s1, ChunkBlock));
  }

  lemma EnlargeTrades(env: Env, ix: Index, grant: bool, tail: seq<Cell>)
    ensures Trades(ix.sys, EnlargeLast(env, ix, grant, tail).0.sys)
  {
    TradesNothing(ix.sys);
    if ix.heap.chunks != [] { TradesFor(ix.sys, ChunkBlock, Last(ix.heap).at, ChunkBlock); }
  }

  lemma ShrinkTrades(env: Env, ix: Index, grant: bool)
    requires ix.heap.chunks == [] || Shape(ix.heap)
    ensures Trades(ix.sys, Shrink(env, ix, grant).sys)
  {
    hide ShrinkChunk;
    hide Shape;
    TradesNothing(ix.sys);
    if ix.heap.chunks != [] { TradesFor(ix.sys, ChunkBlock, Last(ix.heap).at, ChunkBlock); }
  }

  lemma DestructTrades(ix: Index)
    requires Destruct(ix).sys.faults == ix.sys.faults
    ensures Trades(ix.sys, Destruct(ix).sys)
  {
    TradesNothing(ix.sys);
    TradesAll(ix.sys, ix.heap.chunks);
  }

  lemma CompressTrades(env: Env, ix: Index, percent: nat, grant: bool)
    requires ix.heap.chunks == [] || HeapWritable(ix.heap)
    requires Compress(env, ix, percent, grant).0.sys.faults == ix.sys.faults
    ensures Trades(ix.sys, Compress(env, ix, percent, grant).0.sys)
  {
    hide HeapWritable;
    hide Flatten;
    hide Apply;
    var s := Obtain(ix.sys, PackedBlock);
    TradesNothing(ix.sys);
    TradesOne(ix.sys, Obtained(PackedBlock));
    TradesFor(ix.sys, PackedBlock, Addr(ix.sys.next, 0), PackedBlock);
    TradesAll(s, ix.heap.chunks);
    if Trades(s, ReleaseAll(s, ix.heap.chunks)) { TradesThrough(ix.sys, s, ReleaseAll(s, ix.heap.chunks)); }
  }

  /** Whatever an operation does to the blocks, it does by obtaining and releasing them. */
  lemma StepTrades(env: Env, ix: Index, g: Ghost, op: Op)
    requires IxInv(env, ix, g) && Legal(ix, g, op)
    ensures Trades(ix.sys, Step(env, ix, g, op).0.sys)
  {
    StepKeeps(env, ix, g, op);
    match op {
      case OpAlloc(size, unpack, grant) => AllocStepTrades(env, ix, g, op);
      case OpFree(p, bytes, unpack) => UncompressTrades(env, ix, unpack);
      case OpStore(b, k, v) => TradesNothing(ix.sys);
      case OpShrink(grant) =>
        ShapeOf(env, ix, g);
        ShrinkTrades(env, ix, grant);
      case OpEnlarge(unpack, grant, tail) => EnlargeStepTrades(env, ix, g, op);
      case OpCompress(percent, grant) =>
        WritableOf(env, ix, g);
        FaultFree(env, ix, g, op);
        CompressTrades(env, ix, percent, grant);
      case OpUncompress(unpack) => UncompressTrades(env, ix, unpack);
      case OpDestruct =>
        FaultFree(env, ix, g, op);
        DestructTrades(ix);
    }
  }

  lemma FaultFree(env: Env, ix: Index, g: Ghost, op: Op)
    requires IxInv(env, ix, g) && Legal(ix, g, op)
    ensures ix.sys.faults == 0 && Step(env, ix, g, op).0.sys.faults == 0
  {
    StepKeeps(env, ix, g, op);
    NoFaults(env, ix, g);
    var (ix', g') := Step(env, ix, g, op);
    hide Step;
    NoFaults(env, ix', g');
  }

  lemma AllocStepTrades(env: Env, ix: Index, g: Ghost, op: Op)
    requires IxInv(env, ix, g) && op.OpAlloc? && Legal(ix, g, op)
    ensures Trades(ix.sys, Step(env, ix, g, op).0.sys)
  {
    ReadyOf(env, ix, g);
    UncompressTrades(env, ix, op.unpack);
    var (ix1, rc) := Uncompress(env, ix, op.unpack);
    TradesNothing(ix.sys);
    if CeilDiv(op.size, 8) <= MAX_WORDS && rc == 0 {
      AllocTrades(env, ix1, op.size, op.grant);
      TradesThrough(ix.sys, ix1.sys, AllocIx(env, ix1, op.size, op.grant).0.sys);
    }
  }

  lemma EnlargeStepTrades(env: Env, ix: Index, g: Ghost, op: Op)
    requires IxInv(env, ix, g) && op.OpEnlarge? && Legal(ix, g, op)
    ensures Trades(ix.sys, Step(env, ix, g, op).0.sys)
  {
    ReadyOf(env, ix, g);
    UncompressTrades(env, ix, op.unpack);
    var (ix1, rc) := Uncompress(env, ix, op.unpack);
    if rc == 0 {
      UncompressKeeps(env, ix, g, op.unpack);
      SplitIxKeeps(env, ix1, g.book);
      SplitTrades(env, ix1);
      var ix2 := SplitIx(env, ix1);
      EnlargeTrades(env, ix2, op.grant, op.tail);
      TradesThrough(ix.sys, ix1.sys, ix2.sys);
      TradesThrough(ix.sys, ix2.sys, EnlargeLast(env, ix2, op.grant, op.tail).0.sys);
    }
  }

  lemma {:induction false} RunTrades(env: Env, ix: Index, g: Ghost, ops: seq<Op>)
    requires IxInv(env, ix, g) && LegalRun(env, ix, g, ops)
    ensures Trades(ix.sys, Run(env, ix, g, ops).0.sys)
    decreases |ops|
  {
    hide IxInv;
    hide Step;
    hide Legal;
    hide Trades;
    if ops == [] {
      TradesNothing(ix.sys);
    } else {
      StepKeeps(env, ix, g, ops[0]);
      StepTrades(env, ix, g, ops[0]);
      var (ix1, g1) := Step(env, ix, g, ops[0]);
      RunTrades(env, ix1, g1, ops[1..]);
      TradesThrough(ix.sys, ix1.sys, Run(env, ix1, g1, ops[1..]).0.sys);
    }
  }

  // ---------- the pool behind it ----------

  ghost predicate IsChunk(s: Sys, b: nat) {
    b in s.out && s.out[b] == ChunkBlock
  }

  /** Where the pool has put the outstanding chunk blocks: each at an address of its own, and nothing
      else is out. */
  ghost predicate PlacedBy(s: Sys, place: map<nat, int>, out: set<int>) {
    && (forall b :: b in place <==> IsChunk(s, b))
    && (forall b, c :: b in place && c in place && b != c ==> place[b] != place[c])
    && (forall x :: x in out <==> exists b :: b in place && place[b] == x)
  }

  lemma PlaceGained(s: Sys, place: map<nat, int>, out: set<int>, x: int)
    requires PlacedBy(s, place, out) && Numbered(s) && x !in out
    ensures PlacedBy(Obtain(s, ChunkBlock), place[s.next := x], out + {x})
  {
    var p := place[s.next := x];
    assert s.next !in place;
    forall b | b in place ensures p[b] == place[b] && p[b] in out {}
    forall y | y in out + {x} ensures exists b :: b in p && p[b] == y {
      if y == x { assert p[s.next] == x; } else { var b :| b in place && place[b] == y; assert p[b] == y; }
    }
  }

  lemma PlaceGivenBack(s: Sys, place: map<nat, int>, out: set<int>, at: Addr)
    requires PlacedBy(s, place, out) && CanRelease(s, at, ChunkBlock)
    ensures at.block in place && place[at.block] in out
    ensures PlacedBy(Release(s, at, ChunkBlock), place - {at.block}, out - {place[at.block]})
  {
    assert IsChunk(s, at.block);
    var p, x := place - {at.block}, place[at.block];
    forall y | y in out - {x} ensures exists b :: b in p && p[b] == y {
      var b :| b in place && place[b] == y;
      assert p[b] == y;
    }
  }

  lemma PlaceOther(s: Sys, place: map<nat, int>, out: set<int>, e: Event)
    requires PlacedBy(s, place, out) && Numbered(s) && e.kind != ChunkBlock
    requires e.Released? ==> CanRelease(s, e.at, e.kind)
    ensures PlacedBy(ApplyOne(s, e), place, out)
  {
    forall b ensures IsChunk(ApplyOne(s, e), b) <==> IsChunk(s, b) {}
  }

  lemma {:induction false} FaultsGrow(s: Sys, tr: seq<Event>, i: nat)
    requires i <= |tr|
    ensures s.faults <= Apply(s, tr[..i]).faults <= Apply(s, tr).faults
    decreases |tr| + i
  {
    if i < |tr| {
      FaultsGrow(s, tr[..|tr| - 1], i);
      assert tr[..|tr| - 1][..i] == tr[..i];
    } else {
      assert tr[..i] == tr;
      if i > 0 { FaultsGrow(s, tr, i - 1); }
    }
  }

  /** In a trade without faults every release is of an outstanding block. */
  lemma EventAt(s: Sys, tr: seq<Event>, i: nat)
    requires i < |tr| && Apply(s, tr).faults == s.faults
    ensures Apply(s, tr[..i + 1]) == ApplyOne(Apply(s, tr[..i]), tr[i])
    ensures tr[i].Released? ==> CanRelease(Apply(s, tr[..i]), tr[i].at, tr[i].kind)
  {
    assert tr[..i + 1][..i] == tr[..i];
    FaultsGrow(s, tr, i);
    FaultsGrow(s, tr, i + 1);
  }

  /** The regions from number `i` on overlap neither each other nor a chunk obtained before. */
  ghost predicate Granted(obtained: set<int>, bases: seq<int>, i: nat, n: nat) {
    && (forall k :: i <= k < |bases| ==> Untouched(obtained, bases[k], n))
    && (forall k, l :: i <= k < l < |bases| ==> bases[k] + 16384 * n <= bases[l] || bases[l] + 16384 * n <= bases[k])
  }

  lemma GrantedNext(obtained: set<int>, bases: seq<int>, i: nat, n: nat)
    requires Granted(obtained, bases, i, n) && i < |bases|
    ensures Granted(obtained, bases, i + 1, n) && Granted(obtained + Members(Slots(bases[i], n)), bases, i + 1, n)
  {
    forall k, x | i < k < |bases| && x in Members(Slots(bases[i], n))
      ensures x + 16384 <= bases[k] || bases[k] + 16384 * n <= x
    {
      var j := SlotAt(bases[i], n, x);
      assert bases[i] + 16384 * n <= bases[k] || bases[k] + 16384 * n <= bases[i];
    }
  }

  /** The pool serves the trades of an index: `bases` are the regions that the system has for refills. */
  method Serve(pool: ChkMemalign, ghost s: Sys, tr: seq<Event>, bases: seq<int>) returns (place: map<nat, int>)
    requires pool.Valid() && pool.confChunks > 0 && pool.out == {} && s.out == map[] && s.next == 0
    requires |bases| == |tr| && Granted(pool.obtained, bases, 0, pool.confChunks / 4)
    requires Apply(s, tr).faults == s.faults
    modifies pool
    ensures pool.Valid() && pool.confChunks == old(pool.confChunks) && PlacedBy(Apply(s, tr), place, pool.out)
  {
    hide Apply;
    place := map[];
    var next: nat := 0;
    assert tr[..0] == [];
    ApplyNothing(s);
    for i := 0 to |tr|
      invariant pool.Valid() && pool.confChunks == old(pool.confChunks)
      invariant Granted(pool.obtained, bases, i, pool.confChunks / 4)
      invariant Numbered(Apply(s, tr[..i])) && PlacedBy(Apply(s, tr[..i]), place, pool.out)
      invariant next == Apply(s, tr[..i]).next
    {
      ghost var t := Apply(s, tr[..i]);
      EventAt(s, tr, i);
      StaysNumbered(t, tr[i]);
      place := ServeOne(pool, t, next, tr[i], bases, i, place);
      if tr[i].Obtained? {
        next := next + 1;
      }
    }
    assert tr[..|tr|] == tr;
  }

  lemma ApplyNothing(s: Sys)
    ensures Apply(s, []) == s
  {
  }

  lemma StaysNumbered(s: Sys, e: Event)
    requires Numbered(s)
    ensures Numbered(ApplyOne(s, e))
  {
  }

  /** One block obtained or released. */
  method ServeOne(pool: ChkMemalign, ghost s: Sys, next: nat, e: Event, bases: seq<int>, i: nat, place: map<nat, int>)
    returns (place': map<nat, int>)
    requires pool.Valid() && pool.confChunks > 0 && PlacedBy(s, place, pool.out) && Numbered(s) && next == s.next
    requires i < |bases| && Granted(pool.obtained, bases, i, pool.confChunks / 4)
    requires e.Released? ==> CanRelease(s, e.at, e.kind)
    modifies pool
    ensures pool.Valid() && pool.confChunks == old(pool.confChunks)
    ensures Granted(pool.obtained, bases, i + 1, pool.confChunks / 4) && PlacedBy(ApplyOne(s, e), place', pool.out)
  {
    assert Untouched(pool.obtained, bases[i], pool.confChunks / 4);
    GrantedNext(pool.obtained, bases, i, pool.confChunks / 4);
    hide Granted;
    hide ChkMemalign.Valid;
    hide PlacedBy;
    hide Untouched;
    place' := place;
    if e.kind != ChunkBlock {
      PlaceOther(s, place, pool.out, e);
    } else if e.Released? {
      PlaceGivenBack(s, place, pool.out, e.at);
      pool.Dellocate(place[e.at.block]);
      place' := place - {e.at.block};
    } else {
      ghost var out, obtained := pool.out, pool.obtained;
      var chunk := pool.Alloc(bases[i]);
      PlaceGained(s, place, out, chunk);
      place' := place[next := chunk];
      assert obtained + {} == obtained;
    }
  }

  /** A run served by a pool nothing else uses: afterwards every chunk lies at a pool address of its own,
      and as many pool chunks are in use as the index has chunks; none while it is compressed. */
  method ServeRun(pool: ChkMemalign, ghost env: Env, ghost ops: seq<Op>, ghost ix: Index, ghost g: Ghost,
                  tr: seq<Event>, bases: seq<int>)
    returns (place: map<nat, int>)
    requires pool.Valid() && pool.confChunks > 0 && pool.out == {}
    requires |bases| == |tr| && Granted(pool.obtained, bases, 0, pool.confChunks / 4)
    requires env.pooled && Leads(env, EMPTY, START, ops, ix, g) && Apply(EMPTY.sys, tr) == ix.sys
    modifies pool
    ensures pool.Valid() && pool.usedChunks == |ix.heap.chunks|
    ensures var cs := ix.heap.chunks;
            && (forall i :: 0 <= i < |cs| ==> cs[i].at.block in place && place[cs[i].at.block] in pool.out)
            && (forall i, j :: 0 <= i < j < |cs| ==> place[cs[i].at.block] != place[cs[j].at.block])
  {
    hide IxInv;
    hide Granted;
    hide PlacedBy;
    RunKeeps(env, EMPTY, START, ops);
    place := Serve(pool, EMPTY.sys, tr, bases);
    ChunksPlaced(env, ix, g, place, pool.out);
  }

  lemma ChunksPlaced(env: Env, ix: Index, g: Ghost, place: map<nat, int>, out: set<int>)
    requires IxInv(env, ix, g) && env.pooled && PlacedBy(ix.sys, place, out)
    ensures var cs := ix.heap.chunks;
            && (forall i :: 0 <= i < |cs| ==> cs[i].at.block in place && place[cs[i].at.block] in out)
            && (forall i, j :: 0 <= i < j < |cs| ==> place[cs[i].at.block] != place[cs[j].at.block])
            && |out| == |cs|
  {
    if ix.heap.chunks == [] {
      NoChunks(env, ix, g);
    } else {
      HasChunks(env, ix, g);
      LayoutSpelledOut(env, ix, g);
    }
    hide IxInv;
    hide PlacedBy;
    PlacesOf(ix.heap.chunks, ix.sys, place, out);
  }

  lemma PlacesOf(cs: seq<Chunk>, s: Sys, place: map<nat, int>, out: set<int>)
    requires PlacedBy(s, place, out)
    requires forall i :: 0 <= i < |cs| ==> IsChunk(s, cs[i].at.block)
    requires forall i, j :: 0 <= i < j < |cs| ==> cs[i].at.block != cs[j].at.block
    requires forall b :: IsChunk(s, b) ==> exists i :: 0 <= i < |cs| && cs[i].at.block == b
    ensures (forall i :: 0 <= i < |cs| ==> cs[i].at.block in place && place[cs[i].at.block] in out)
    ensures (forall i, j :: 0 <= i < j < |cs| ==> place[cs[i].at.block] != place[cs[j].at.block])
    ensures |out| == |cs|
  {
    forall i | 0 <= i < |cs| ensures cs[i].at.block in place && place[cs[i].at.block] in out {
      assert IsChunk(s, cs[i].at.block);
    }
    var f := seq(|cs|, i requires 0 <= i < |cs| => place[cs[i].at.block]);
    assert NoRepeat(f);
    forall x | x in out ensures x in Members(f) {
      var b :| b in place && place[b] == x;
      assert IsChunk(s, b);
      var i :| 0 <= i < |cs| && cs[i].at.block == b;
      assert f[i] == x;
    }
    hide PlacedBy;
    assert Members(f) == out;
    MembersCount(f);
  }

  lemma NoChunks(env: Env, ix: Index, g: Ghost)
    requires IxInv(env, ix, g) && ix.heap.chunks == []
    ensures forall b :: !IsChunk(ix.sys, b)
  {
  }

  lemma HasChunks(env: Env, ix: Index, g: Ghost)
    requires IxInv(env, ix, g) && ix.heap.chunks != []
    ensures ix.packed.None?
  {
  }

  /** There is such a trade for every run. */
  lemma RunIsServed(env: Env, ops: seq<Op>, ix: Index, g: Ghost) returns (tr: seq<Event>)
    requires Leads(env, EMPTY, START, ops, ix, g)
    ensures Apply(EMPTY.sys, tr) == ix.sys
  {
    hide IxInv;
    RunTrades(env, EMPTY, START, ops);
    tr :| Apply(EMPTY.sys, tr) == ix.sys;
  }
}
