/**
  The capacity of the last chunk: `shrink` makes it tight, compression and decompression make it the
  same, and `enlarge` makes it full again, every block staying where its handle says
  (chk/chk_base.cpp).
 */
module ChkCapacity {
  import opened ChkBase
  import opened ChkHeap
  import opened ChkAlloc
  import opened ChkImage
  import opened ChkIndexSpec
  import opened ChkOwnership
  import opened ChkOperations

  /** The capacities of `h` once the last one is cut down to what holds the words below its bump
      pointer. */
  function TightCaps(h: Heap): seq<int>
    requires h.chunks != []
  {
    Caps(h.chunks)[|h.chunks| - 1 := Tight(Last(h).virgin)]
  }

  lemma SplitCaps(env: Env, ix: Index)
    requires Shape(ix.heap)
    ensures Caps(SplitIx(env, ix).heap.chunks) == Caps(ix.heap.chunks)
  {
  }

  /** Uncompressing gives the chunks back with tight capacities. */
  lemma RecompressTight(env: Env, ix: Index, g: Ghost)
    requires EnvOk(env) && Closed(env, ix, g)
    ensures g.frozen.chunks != [] && Caps(Uncompress(env, ix, true).0.heap.chunks) == TightCaps(g.frozen)
  {
    var h := UncompressWalks(env, ix, g);
    var n := |g.frozen.chunks|;
    hide Inv;
    hide Uncompress;
    InvChunks(g.frozen, g.book);
    SplitCaps(env, Walked1(env, ix, h));
    forall i | 0 <= i < n ensures Caps(h.chunks)[i] == TightCaps(g.frozen)[i] {}
    assert Caps(h.chunks) == TightCaps(g.frozen);
  }

  lemma InvChunks(h: Heap, bk: Book)
    requires Inv(h, bk)
    ensures h.chunks != []
  {
  }

  /** So does `shrink`: the two ways of giving memory back agree. */
  lemma ShrinkAgrees(env: Env, ix: Index, bk: Book, ix': Index, g: Ghost)
    requires EnvOk(env) && Open(env, ix, bk) && ix.heap.chunks != [] && Last(ix.heap).allocCap != 0
    requires Closed(env, ix', g) && g.frozen == ix.heap
    ensures Shape(ix.heap)
    ensures Caps(Shrink(env, ix, true).heap.chunks) == Caps(Uncompress(env, ix', true).0.heap.chunks)
              == TightCaps(ix.heap)
  {
    hide Open;
    hide Closed;
    hide Uncompress;
    hide Shrink;
    hide Inv;
    OpenInvOf(env, ix, bk);
    InvParts(ix.heap, bk);
    ShrinkTight(env, ix);
    RecompressTight(env, ix', g);
  }

  lemma ShrinkTight(env: Env, ix: Index)
    requires ix.heap.chunks != [] && Shape(ix.heap)
    ensures Caps(Shrink(env, ix, true).heap.chunks) == TightCaps(ix.heap)
  {
    var h := ix.heap;
    var n := |h.chunks| - 1;
    assert Sane(h.chunks[n], n);
    ExcessIsTight(h.chunks[n], n);
    if Excess(Last(h)) == 0 {
      assert Caps(h.chunks) == TightCaps(h);
    } else {
      forall at { LastTight(h, at); }
    }
  }

  lemma LastTight(h: Heap, at: Addr)
    requires h.chunks != [] && Shape(h) && Last(h).virgin <= WordsIn(Last(h).cap)
               && |Last(h).cells| == CellsIn(Last(h).cap)
    requires 0 <= Excess(Last(h)) <= Last(h).cap && Last(h).cap - Excess(Last(h)) == Tight(Last(h).virgin)
    ensures Caps(SetLast(h, ShrinkChunk(Last(h), at)).chunks) == TightCaps(h)
  {
    assert Caps(h.chunks[|h.chunks| - 1 := ShrinkChunk(Last(h), at)])
        == Caps(h.chunks)[|h.chunks| - 1 := ShrinkChunk(Last(h), at).cap];
  }

  /** `shrink` and then `enlarge`: tight in between, full at the end, every block kept. */
  lemma ShrinkThenEnlarge(env: Env, ix: Index, bk: Book, tail: seq<Cell>)
    requires Open(env, ix, bk) && ix.heap.chunks != [] && Last(ix.heap).allocCap != 0
    ensures Shape(ix.heap)
    ensures var ix1 := Shrink(env, ix, true); var (ix2, rc) := EnlargeLast(env, ix1, true, tail);
            && rc == 0 && Open(env, ix2, bk) && ix1.heap.chunks != [] && ix2.heap.chunks != []
            && Last(ix1.heap).cap == Tight(Last(ix.heap).virgin) && Last(ix2.heap).cap == MAX_CAP
            && Relocates(ix.heap, ix2.heap) && forall b :: b in bk.blocks ==> Kept(ix.heap, ix2.heap, b)
  {
    var ix1 := Shrink(env, ix, true);
    ShrinkKeeps(env, ix, bk, true);
    StillOwns(env, ix);
    EnlargeLastKeeps(env, ix1, bk, true, tail);
    var ix2 := EnlargeLast(env, ix1, true, tail).0;
    OpenInvOf(env, ix, bk);
    hide Open;
    hide Inv;
    hide Relocates;
    hide Shrink;
    hide EnlargeLast;
    RelocatesSelf(ix.heap, bk);
    MovesTwice(env, ix, ix1, ix2);
    RelocateKeeps(ix.heap, ix2.heap, bk);
  }

  lemma OpenInvOf(env: Env, ix: Index, bk: Book)
    requires Open(env, ix, bk) && ix.heap.chunks != []
    ensures Inv(ix.heap, bk)
  {
  }

  lemma StillOwns(env: Env, ix: Index)
    requires ix.heap.chunks != [] && Shape(ix.heap) && Last(ix.heap).allocCap != 0
    ensures Shrink(env, ix, true).heap.chunks != [] && Last(Shrink(env, ix, true).heap).allocCap != 0
  {
    var n := |ix.heap.chunks| - 1;
    assert Sane(ix.heap.chunks[n], n);
    ExcessIsTight(ix.heap.chunks[n], n);
  }
}
