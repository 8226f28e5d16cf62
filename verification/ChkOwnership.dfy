/**
  Which chunk owns which system block.  A chunk whose `_alloc_capacity` is 0 lies inside the block of
  chunk 0; every other chunk starts a block of its own.  Shows what each operation does to this and
  that `destruct`, from the last chunk down, gives every block back exactly once.
 */
module ChkOwnership {
  import opened ChkBase
  import opened ChkHeap
  import opened ChkAlloc
  import opened ChkImage
  import opened ChkIndexSpec

  /** With the first `k` chunks in one block, chunk `i` owns a block. */
  predicate IsOwner(i: nat, k: nat) {
    i == 0 || k <= i
  }

  /** The outstanding blocks are exactly the blocks of the owners, each owned once: taking the chunks
      off from the last one down, every owner takes its block out of `out`, and none is left. */
  ghost predicate Owners(cs: seq<Chunk>, k: nat, out: map<nat, Kind>)
    decreases |cs|
  {
    if cs == [] then out == map[]
    else
      var n := |cs| - 1;
      var c := cs[n];
      if IsOwner(n, k) then
        && c.allocCap != 0 && c.at.base == 0 && c.at.block in out && out[c.at.block] == ChunkBlock
        && Owners(cs[..n], k, out - {c.at.block})
      else
        c.allocCap == 0 && c.at.block == cs[0].at.block && Owners(cs[..n], k, out)
  }

  lemma {:induction false} OwnersAt(cs: seq<Chunk>, k: nat, out: map<nat, Kind>, i: nat)
    requires Owners(cs, k, out) && i < |cs|
    ensures cs[i].allocCap != 0 <==> IsOwner(i, k)
    ensures cs[i].at.block in out && out[cs[i].at.block] == ChunkBlock
    ensures IsOwner(i, k) ==> cs[i].at.base == 0
    ensures !IsOwner(i, k) ==> cs[i].at.block == cs[0].at.block
    decreases |cs|
  {
    var n := |cs| - 1;
    var rest := if IsOwner(n, k) then out - {cs[n].at.block} else out;
    if i < n {
      OwnersAt(cs[..n], k, rest, i);
    } else if !IsOwner(n, k) {
      OwnersAt(cs[..n], k, rest, 0);
    }
  }

  /** No block is outstanding that no chunk owns. */
  lemma {:induction false} OwnersCover(cs: seq<Chunk>, k: nat, out: map<nat, Kind>, b: nat) returns (i: nat)
    requires Owners(cs, k, out) && b in out
    ensures i < |cs| && IsOwner(i, k) && cs[i].at.block == b
    decreases |cs|
  {
    var n := |cs| - 1;
    if IsOwner(n, k) && cs[n].at.block == b {
      i := n;
    } else {
      i := OwnersCover(cs[..n], k, if IsOwner(n, k) then out - {cs[n].at.block} else out, b);
    }
  }

  /** Two owners own different blocks. */
  lemma {:induction false} OwnersDiffer(cs: seq<Chunk>, k: nat, out: map<nat, Kind>, i: nat, j: nat)
    requires Owners(cs, k, out) && i < j < |cs| && IsOwner(i, k) && IsOwner(j, k)
    ensures cs[i].at.block != cs[j].at.block
    decreases |cs|
  {
    var n := |cs| - 1;
    var rest := if IsOwner(n, k) then out - {cs[n].at.block} else out;
    if j == n { OwnersAt(cs[..n], k, rest, i); } else { OwnersDiffer(cs[..n], k, rest, i, j); }
  }

  /** From the last chunk down, every block is released exactly once, no interior address is
      released, and no header is read after its block is gone.  Blocks of others (`extra`) stay. */
  lemma {:induction false} ReleaseAllExactly(s: Sys, cs: seq<Chunk>, k: nat, own: map<nat, Kind>, extra: map<nat, Kind>)
    requires Owners(cs, k, own) && own.Keys !! extra.Keys && s.out == own + extra
    ensures ReleaseAll(s, cs) == s.(out := extra)
    decreases |cs|
  {
    if cs == [] {
      assert s.out == extra;
    } else {
      var n := |cs| - 1;
      var b := cs[n].at.block;
      OwnersAt(cs, k, own, n);
      if IsOwner(n, k) {
        assert s.out - {b} == (own - {b}) + extra;
        ReleaseAllExactly(Release(s, cs[n].at, ChunkBlock), cs[..n], k, own - {b}, extra);
      } else {
        ReleaseAllExactly(s, cs[..n], k, own, extra);
      }
    }
  }

  /** The loop of `destruct` run the other way round. */
  function ReleaseForward(s: Sys, cs: seq<Chunk>): Sys
    decreases |cs|
  {
    if cs == [] then s
    else
      var c := cs[0];
      ReleaseForward(ReleaseOne(s, c.at, c.allocCap), cs[1..])
  }

  lemma {:induction false} ForwardFaultsMonotone(s: Sys, cs: seq<Chunk>)
    ensures ReleaseForward(s, cs).faults >= s.faults
    decreases |cs|
  {
    if cs != [] {
      var c := cs[0];
      ForwardFaultsMonotone(ReleaseOne(s, c.at, c.allocCap), cs[1..]);
    }
  }

  lemma SharedBlockFaults(s: Sys, cs: seq<Chunk>, k: nat)
    requires Owners(cs, k, s.out) && 2 <= k <= |cs|
    ensures ReleaseForward(s, cs).faults > s.faults
  {
    OwnersAt(cs, k, s.out, 0);
    OwnersAt(cs, k, s.out, 1);
    var s1 := Release(s, cs[0].at, ChunkBlock);
    var t := cs[1..];
    assert ReleaseForward(s, cs) == ReleaseForward(s1, t);
    assert t[0] == cs[1] && t[0].at.block !in s1.out;
    var s2 := s1.(faults := s1.faults + 1);
    assert ReleaseForward(s1, t) == ReleaseForward(s2, t[1..]);
    ForwardFaultsMonotone(s2, t[1..]);
  }

  /** When every chunk owns its block, the first one can be taken off as well as the last. */
  lemma {:induction false} OwnersRest(cs: seq<Chunk>, out: map<nat, Kind>)
    requires Owners(cs, 1, out) && cs != []
    ensures cs[0].at.block in out && Owners(cs[1..], 1, out - {cs[0].at.block})
    decreases |cs|
  {
    var n := |cs| - 1;
    var b, f := cs[n].at.block, cs[0].at.block;
    OwnersAt(cs, 1, out, 0);
    if n > 0 {
      OwnersRest(cs[..n], out - {b});
      assert cs[..n][1..] == cs[1..][..n - 1];
      assert out - {b} - {f} == out - {f} - {b};
    }
  }

  lemma {:induction false} OwnBlocksForward(s: Sys, cs: seq<Chunk>)
    requires Owners(cs, 1, s.out)
    ensures ReleaseForward(s, cs) == s.(out := map[])
    decreases |cs|
  {
    if cs != [] {
      OwnersRest(cs, s.out);
      OwnersAt(cs, 1, s.out, 0);
      OwnBlocksForward(Release(s, cs[0].at, ChunkBlock), cs[1..]);
    }
  }

  /** The direction matters: going up from chunk 0 is free of faults exactly when no two chunks share
      a block; otherwise it reads a header in a block that is already released. */
  lemma ForwardIff(s: Sys, cs: seq<Chunk>, k: nat)
    requires Owners(cs, k, s.out) && 1 <= k <= |cs|
    ensures ReleaseForward(s, cs).faults == s.faults <==> k == 1
  {
    if k == 1 { OwnBlocksForward(s, cs); } else { SharedBlockFaults(s, cs, k); }
  }

  // ---------- layout ----------

  /** The block sizes in the headers: that of chunk 0 covers the first `k` chunks, laid end to end. */
  ghost predicate Recorded(cs: seq<Chunk>, k: nat) {
    && 1 <= k <= |cs|
    && EndToEnd(cs[..k], cs[0].at.block, 0) && cs[0].allocCap == Sum(Caps(cs[..k]))
    && (forall i :: k <= i < |cs| ==> cs[i].allocCap == cs[i].cap)
  }

  /** Block numbers not given out yet are not outstanding. */
  ghost predicate Numbered(s: Sys) {
    forall b :: b in s.out ==> b < s.next
  }

  /** With a pool every chunk has its own block and every chunk but the last is at full size. */
  ghost predicate PoolSized(env: Env, cs: seq<Chunk>, k: nat) {
    env.pooled ==> k == 1 && forall i :: 0 <= i < |cs| - 1 ==> cs[i].cap == MAX_CAP
  }

  /** The first `k` chunks fill the block of chunk 0; every other chunk fills its own. */
  ghost predicate LayoutAt(env: Env, h: Heap, k: nat, s: Sys) {
    var cs := h.chunks;
    && 1 <= k <= |cs| && Owners(cs, k, s.out) && Recorded(cs, k)
    && Numbered(s) && PoolSized(env, cs, k)
  }

  ghost predicate Layout(env: Env, h: Heap, s: Sys) {
    exists k: nat :: LayoutAt(env, h, k, s)
  }

  lemma {:induction false} SumPrefix(s: seq<int>, k: nat)
    requires k <= |s| && forall i :: k <= i < |s| ==> s[i] >= 1
    ensures Sum(s) >= Sum(s[..k]) + (|s| - k)
  {
    if k == |s| {
      assert s[..k] == s;
    } else {
      var t := s[..|s| - 1];
      SumPrefix(t, k);
      assert t[..k] == s[..k];
    }
  }

  lemma CapsPrefix(cs: seq<Chunk>, k: nat)
    requires k <= |cs|
    ensures Caps(cs[..k]) == Caps(cs)[..k]
  {
  }

  /** `is_continuous_chunk` says exactly that several chunks share one block and no chunk owns another. */
  lemma ContinuousIff(env: Env, h: Heap, bk: Book, k: nat, s: Sys)
    requires Inv(h, bk) && LayoutAt(env, h, k, s)
    ensures IsContinuous(h) <==> |h.chunks| > 1 && k == |h.chunks|
  {
    var cs := h.chunks;
    CapsPrefix(cs, k);
    forall i | k <= i < |cs| ensures Caps(cs)[i] >= 1 { assert Sane(cs[i], i); }
    SumPrefix(Caps(cs), k);
    assert k == |cs| ==> cs[..k] == cs;
  }

  function AllocCaps(cs: seq<Chunk>): seq<int> {
    seq(|cs|, i requires 0 <= i < |cs| => cs[i].allocCap)
  }

  /** The block sizes recorded in the headers add up to the total capacity. */
  lemma AllocCapsAddUp(env: Env, h: Heap, bk: Book, k: nat, s: Sys)
    requires Inv(h, bk) && LayoutAt(env, h, k, s)
    ensures Sum(AllocCaps(h.chunks)) == h.mgr.totalCap
  {
    hide Struct;
    hide UsedOk;
    hide LayoutAt;
    LayoutBounds(env, h, k, s);
    AllocCapsPrefix(env, h, k, s, |h.chunks|);
    assert h.chunks[..|h.chunks|] == h.chunks;
  }

  lemma LayoutBounds(env: Env, h: Heap, k: nat, s: Sys)
    requires LayoutAt(env, h, k, s)
    ensures 1 <= k <= |h.chunks| && h.chunks[0].allocCap == Sum(Caps(h.chunks[..k]))
    ensures forall i :: 0 < i < k ==> h.chunks[i].allocCap == 0
    ensures forall i :: k <= i < |h.chunks| ==> h.chunks[i].allocCap == h.chunks[i].cap
  {
    forall i | 0 < i < k ensures h.chunks[i].allocCap == 0 { OwnersAt(h.chunks, k, s.out, i); }
  }

  lemma AllocCapsStep(cs: seq<Chunk>, m: nat)
    requires 1 <= m <= |cs|
    ensures Sum(AllocCaps(cs[..m])) == Sum(AllocCaps(cs[..m - 1])) + cs[m - 1].allocCap
    ensures Sum(Caps(cs[..m])) == Sum(Caps(cs[..m - 1])) + cs[m - 1].cap
  {
    assert AllocCaps(cs[..m]) == AllocCaps(cs[..m - 1]) + [cs[m - 1].allocCap];
    SumAppend(AllocCaps(cs[..m - 1]), cs[m - 1].allocCap);
    assert Caps(cs[..m]) == Caps(cs[..m - 1]) + [cs[m - 1].cap];
    SumAppend(Caps(cs[..m - 1]), cs[m - 1].cap);
  }

  lemma {:induction false} AllocCapsPrefix(env: Env, h: Heap, k: nat, s: Sys, m: nat)
    requires LayoutAt(env, h, k, s) && 1 <= m <= |h.chunks|
    ensures Sum(AllocCaps(h.chunks[..m])) == if m <= k then h.chunks[0].allocCap else Sum(Caps(h.chunks[..m]))
    decreases m
  {
    hide LayoutAt;
    LayoutBounds(env, h, k, s);
    var cs := h.chunks;
    AllocCapsStep(cs, m);
    if m == 1 {
      assert AllocCaps(cs[..0]) == [];
    } else {
      AllocCapsPrefix(env, h, k, s, m - 1);
      assert m - 1 == k ==> cs[..m - 1] == cs[..k];
    }
  }

  /** A chunk's block size fits its 16 bits, so that every header can be written. */
  lemma LayoutFits(env: Env, h: Heap, bk: Book, s: Sys)
    requires Inv(h, bk) && Layout(env, h, s)
    ensures AllocCapsFit(h) && HeapWritable(h)
  {
    hide LayoutAt;
    var k: nat :| LayoutAt(env, h, k, s);
    LayoutBounds(env, h, k, s);
    var cs := h.chunks;
    forall i | 0 <= i < |cs| ensures 1 <= cs[i].cap <= 16 { assert Sane(cs[i], i); }
    SumBounds(Caps(cs[..k]), 0, 16);
    assert AllocCapsFit(h);
    InvWritable(h, bk);
  }

  // ---------- what the operations do to the layout ----------

  predicate SamePlace(c: Chunk, c': Chunk) {
    c'.at == c.at && c'.cap == c.cap && c'.allocCap == c.allocCap
  }

  /** The first `n` chunks of both heaps lie in the same places. */
  predicate SamePlaces(h: Heap, h': Heap, n: nat) {
    n <= |h.chunks| && n <= |h'.chunks| && forall i :: 0 <= i < n ==> SamePlace(h.chunks[i], h'.chunks[i])
  }

  lemma {:induction false} EndToEndSame(cs: seq<Chunk>, cs': seq<Chunk>, block: nat, base: nat)
    requires |cs'| == |cs| && forall i :: 0 <= i < |cs| ==> SamePlace(cs[i], cs'[i])
    ensures EndToEnd(cs, block, base) ==> EndToEnd(cs', block, base)
    ensures Caps(cs') == Caps(cs)
  {
    if cs != [] {
      forall i | 0 <= i < |cs| - 1 ensures SamePlace(cs[1..][i], cs'[1..][i]) {
        assert SamePlace(cs[i + 1], cs'[i + 1]);
      }
      EndToEndSame(cs[1..], cs'[1..], block, base + cs[0].cap);
    }
  }

  lemma {:induction false} OwnersSame(cs: seq<Chunk>, cs': seq<Chunk>, k: nat, out: map<nat, Kind>)
    requires Owners(cs, k, out) && |cs'| == |cs| && forall i :: 0 <= i < |cs| ==> SamePlace(cs[i], cs'[i])
    ensures Owners(cs', k, out)
    decreases |cs|
  {
    if cs != [] {
      var n := |cs| - 1;
      assert SamePlace(cs[n], cs'[n]) && SamePlace(cs[0], cs'[0]);
      OwnersSame(cs[..n], cs'[..n], k, if IsOwner(n, k) then out - {cs[n].at.block} else out);
    }
  }

  lemma RecordedSame(cs: seq<Chunk>, cs': seq<Chunk>, k: nat)
    requires Recorded(cs, k) && |cs| <= |cs'| && forall i :: 0 <= i < |cs| ==> SamePlace(cs[i], cs'[i])
    requires forall i :: |cs| <= i < |cs'| ==> cs'[i].allocCap == cs'[i].cap
    ensures Recorded(cs', k)
  {
    EndToEndSame(cs[..k], cs'[..k], cs[0].at.block, 0);
    assert SamePlace(cs[0], cs'[0]);
    forall i | k <= i < |cs'| ensures cs'[i].allocCap == cs'[i].cap {
      if i < |cs| { assert SamePlace(cs[i], cs'[i]); }
    }
  }

  /** Nothing moved: the layout stays. */
  lemma LayoutStays(env: Env, h: Heap, h': Heap, s: Sys)
    requires Layout(env, h, s) && |h'.chunks| == |h.chunks| && SamePlaces(h, h', |h.chunks|)
    ensures Layout(env, h', s)
  {
    hide Owners;
    hide Recorded;
    hide Numbered;
    var k: nat :| LayoutAt(env, h, k, s);
    OwnersSame(h.chunks, h'.chunks, k, s.out);
    RecordedSame(h.chunks, h'.chunks, k);
    assert forall i :: 0 <= i < |h.chunks| ==> SamePlace(h.chunks[i], h'.chunks[i]);
    assert LayoutAt(env, h', k, s);
  }

  lemma OwnersAppend(cs: seq<Chunk>, k: nat, s: Sys, c: Chunk)
    requires IsOwner(|cs|, k) && Owners(cs, k, s.out) && Numbered(s)
    requires c.at == Addr(s.next, 0) && c.allocCap != 0
    ensures Owners(cs + [c], k, Obtain(s, ChunkBlock).out)
  {
    assert (cs + [c])[..|cs|] == cs;
    assert Obtain(s, ChunkBlock).out - {s.next} == s.out;
  }

  /** A new full-size chunk in a new block joins the layout.  With a pool the chunk before it must be
      at full size, which it is whenever it could not be enlarged. */
  lemma LayoutGrows(env: Env, h: Heap, h': Heap, s: Sys)
    requires Layout(env, h, s) && |h'.chunks| == |h.chunks| + 1 && SamePlaces(h, h', |h.chunks|)
    requires var c := Last(h'); c.at == Addr(s.next, 0) && c.cap == MAX_CAP && c.allocCap == MAX_CAP
    requires !CanEnlarge(Last(h)) && Last(h).cap <= MAX_CAP
    ensures Layout(env, h', Obtain(s, ChunkBlock))
  {
    hide Recorded;
    hide Owners;
    hide PoolSized;
    hide Numbered;
    var k: nat :| LayoutAt(env, h, k, s);
    PoolSizedGrows(env, h, h', k, s);
    OwnersGrow(h.chunks, h'.chunks, k, s);
    RecordedSame(h.chunks, h'.chunks, k);
    assert LayoutAt(env, h', k, Obtain(s, ChunkBlock));
  }

  lemma OwnersGrow(cs: seq<Chunk>, cs': seq<Chunk>, k: nat, s: Sys)
    requires 1 <= k <= |cs| && Owners(cs, k, s.out) && Numbered(s)
    requires |cs'| == |cs| + 1 && forall i :: 0 <= i < |cs| ==> SamePlace(cs[i], cs'[i])
    requires cs'[|cs|].at == Addr(s.next, 0) && cs'[|cs|].allocCap != 0
    ensures Owners(cs', k, Obtain(s, ChunkBlock).out)
  {
    hide Owners;
    var t := cs'[..|cs|];
    forall i | 0 <= i < |cs| ensures SamePlace(cs[i], t[i]) { assert SamePlace(cs[i], cs'[i]); }
    assert IsOwner(|cs|, k);
    OwnersSame(cs, t, k, s.out);
    OwnersAppend(t, k, s, cs'[|cs|]);
    assert cs' == t + [cs'[|cs|]];
  }

  lemma PoolSizedGrows(env: Env, h: Heap, h': Heap, k: nat, s: Sys)
    requires LayoutAt(env, h, k, s) && |h'.chunks| == |h.chunks| + 1 && SamePlaces(h, h', |h.chunks|)
    requires !CanEnlarge(Last(h)) && Last(h).cap <= MAX_CAP
    ensures PoolSized(env, h'.chunks, k) && Numbered(Obtain(s, ChunkBlock))
  {
    if env.pooled {
      OwnersAt(h.chunks, k, s.out, |h.chunks| - 1);
      forall i | 0 <= i < |h.chunks| ensures h'.chunks[i].cap == MAX_CAP {
        assert SamePlace(h.chunks[i], h'.chunks[i]);
      }
    }
  }

  lemma LayoutFirst(env: Env, s: Sys)
    requires s.out == map[]
    ensures Layout(env, FirstHeap(env.sizes, Addr(s.next, 0)), Obtain(s, ChunkBlock))
  {
    var h, s' := FirstHeap(env.sizes, Addr(s.next, 0)), Obtain(s, ChunkBlock);
    var cs := h.chunks;
    CapsOne(cs[0]);
    assert cs[..1] == [cs[0]] && cs[..1][1..] == [];
    assert IsOwner(0, 1) && cs[0].at.block == s.next;
    assert LayoutAt(env, h, 1, s');
  }

  // ---------- moving the last chunk ----------

  /** The last chunk, if it owns its block, moves to a new block and gives the old one back. */
  lemma OwnersMoveLast(cs: seq<Chunk>, k: nat, s: Sys, c: Chunk)
    requires cs != [] && Owners(cs, k, s.out) && Numbered(s) && IsOwner(|cs| - 1, k)
    requires c.at == Addr(s.next, 0) && c.allocCap != 0
    ensures var from := cs[|cs| - 1].at;
            var s' := Release(Obtain(s, ChunkBlock), from, ChunkBlock);
            Owners(cs[|cs| - 1 := c], k, s'.out) && s'.faults == s.faults && Numbered(s')
  {
    var n := |cs| - 1;
    var s1 := Release(s, cs[n].at, ChunkBlock);
    OwnersAppend(cs[..n], k, s1, c);
    assert cs[n := c] == cs[..n] + [c];
    assert Release(Obtain(s, ChunkBlock), cs[n].at, ChunkBlock).out == Obtain(s1, ChunkBlock).out;
  }

  lemma OwnersKeepLast(cs: seq<Chunk>, k: nat, out: map<nat, Kind>, c: Chunk)
    requires cs != [] && Owners(cs, k, out) && IsOwner(|cs| - 1, k)
    requires c.at == cs[|cs| - 1].at && c.allocCap != 0
    ensures Owners(cs[|cs| - 1 := c], k, out)
  {
    var n := |cs| - 1;
    assert cs[n := c][..n] == cs[..n];
  }

  lemma CapsOne(c: Chunk)
    ensures Sum(Caps([c])) == c.cap
  {
    assert Caps([c]) == [] + [c.cap];
    SumAppend([], c.cap);
  }

  lemma RecordedLast(cs: seq<Chunk>, k: nat, c: Chunk)
    requires Recorded(cs, k) && IsOwner(|cs| - 1, k) && c.allocCap == c.cap && c.at.base == 0
    ensures Recorded(cs[|cs| - 1 := c], k)
  {
    var t := cs[|cs| - 1 := c];
    if |cs| == 1 {
      RecordedApart(t);
    } else {
      assert t[..k] == cs[..k];
    }
  }

  /** Moved or, with a pool, staying in place: the layout has the new last chunk and no fault. */
  lemma LayoutMoves(env: Env, h: Heap, s: Sys, c: Chunk, s': Sys)
    requires Layout(env, h, s) && Last(h).allocCap != 0 && c.allocCap == c.cap && c.cap != 0
    requires || (c.at == Addr(s.next, 0) && s' == Release(Obtain(s, ChunkBlock), Last(h).at, ChunkBlock))
             || (c.at == Last(h).at && s' == s)
    ensures Layout(env, SetLast(h, c), s') && s'.faults == s.faults
  {
    hide Owners;
    hide Recorded;
    hide PoolSized;
    hide Numbered;
    var cs, n := h.chunks, |h.chunks| - 1;
    var k: nat :| LayoutAt(env, h, k, s);
    OwnersAt(cs, k, s.out, n);
    if c.at == Last(h).at && s' == s {
      OwnersKeepLast(cs, k, s.out, c);
    } else {
      OwnersMoveLast(cs, k, s, c);
    }
    RecordedLast(cs, k, c);
    PoolSizedLast(env, cs, k, c);
    assert LayoutAt(env, SetLast(h, c), k, s');
  }

  lemma PoolSizedLast(env: Env, cs: seq<Chunk>, k: nat, c: Chunk)
    requires cs != [] && PoolSized(env, cs, k)
    ensures PoolSized(env, cs[|cs| - 1 := c], k)
  {
  }

  // ---------- splitting and restoring ----------

  lemma {:induction false} ObtainManyIs(s: Sys, n: nat)
    requires Numbered(s)
    ensures var t := ObtainMany(s, n);
            && t.next == s.next + n && t.faults == s.faults && Numbered(t)
            && (forall b :: b in t.out <==> b in s.out || s.next <= b < s.next + n)
            && (forall b :: b in t.out ==> t.out[b] == if b < s.next then s.out[b] else ChunkBlock)
  {
    if n > 0 { ObtainManyIs(s, n - 1); }
  }

  lemma SplitPlaces(h: Heap, at: seq<Addr>, i: nat)
    requires Shape(h) && |at| == |h.chunks| && i < |h.chunks|
    ensures var c := Split(h, at).chunks[i]; c.at == at[i] && c.allocCap == c.cap == h.chunks[i].cap && c.cap >= 1
  {
    assert Sane(h.chunks[i], i);
  }

  /** Chunks that each fill a block of their own. */
  lemma RecordedApart(cs: seq<Chunk>)
    requires cs != [] && cs[0].at.base == 0 && forall i :: 0 <= i < |cs| ==> cs[i].allocCap == cs[i].cap
    ensures Recorded(cs, 1)
  {
    CapsOne(cs[0]);
    assert cs[..1] == [cs[0]] && cs[..1][1..] == [];
  }

  /** Splitting one block that holds all chunks leaves every chunk in a block of its own. */
  lemma SplitLayout(env: Env, h: Heap, at: seq<Addr>, s: Sys, kind: Kind)
    requires Shape(h) && |at| == |h.chunks| && h.chunks[0].at.base == 0
    requires forall i :: 0 <= i < |at| ==> at[i] == Addr(s.next + i, 0)
    requires h.chunks[0].at.block < s.next && s.out == map[h.chunks[0].at.block := kind]
    requires PoolSized(env, h.chunks, 1)
    ensures var s' := Release(ObtainMany(s, |h.chunks|), h.chunks[0].at, kind);
            LayoutAt(env, Split(h, at), 1, s') && s'.faults == s.faults
  {
    hide Recorded;
    hide Owners;
    var cs, n := Split(h, at).chunks, |h.chunks|;
    var s' := Release(ObtainMany(s, n), h.chunks[0].at, kind);
    forall i | 0 <= i < n
      ensures cs[i].at == Addr(s.next + i, 0) && cs[i].allocCap == cs[i].cap == h.chunks[i].cap && cs[i].cap >= 1
    {
      SplitPlaces(h, at, i);
    }
    hide Shape;
    SplitSys(s, n, h.chunks[0].at, kind);
    OwnersOfMany(s, cs, n);
    assert cs[..n] == cs;
    RecordedApart(cs);
    assert PoolSized(env, cs, 1);
  }

  lemma SplitSys(s: Sys, n: nat, at: Addr, kind: Kind)
    requires Numbered(s) && at.base == 0 && s.out == map[at.block := kind]
    ensures var s' := Release(ObtainMany(s, n), at, kind);
            s'.out == ObtainMany(s.(out := map[]), n).out && s'.faults == s.faults && Numbered(s')
  {
    ObtainManyIs(s, n);
    ObtainManyIs(s.(out := map[]), n);
  }

  lemma {:induction false} OwnersOfMany(s: Sys, cs: seq<Chunk>, n: nat)
    requires n <= |cs| && forall i :: 0 <= i < n ==> cs[i].at == Addr(s.next + i, 0) && cs[i].allocCap != 0
    ensures Owners(cs[..n], 1, ObtainMany(s.(out := map[]), n).out)
  {
    var t := s.(out := map[]);
    if n > 0 {
      hide Owners;
      OwnersOfMany(s, cs, n - 1);
      ObtainManyIs(t, n - 1);
      var u := ObtainMany(t, n - 1);
      assert ObtainMany(t, n) == Obtain(u, ChunkBlock);
      hide ObtainMany;
      OwnersAppend(cs[..n - 1], 1, u, cs[n - 1]);
      assert cs[..n] == cs[..n - 1] + [cs[n - 1]];
    }
  }

  lemma {:induction false} EndToEndBlock(cs: seq<Chunk>, block: nat, base: nat, i: nat)
    requires EndToEnd(cs, block, base) && i < |cs|
    ensures cs[i].at.block == block
  {
    if i > 0 { EndToEndBlock(cs[1..], block, base + cs[0].cap, i - 1); }
  }

  lemma {:induction false} EndToEndBase(cs: seq<Chunk>, block: nat, base: nat, i: nat)
    requires EndToEnd(cs, block, base) && i < |cs|
    ensures base + (if i > 0 then cs[0].cap else 0) <= cs[i].at.base
    ensures cs[i].at.base + cs[i].cap <= base + Sum(Caps(cs))
  {
    CapsCons(cs[0], cs[1..]);
    assert cs == [cs[0]] + cs[1..];
    CapsNonNegative(cs[1..]);
    if i > 0 { EndToEndBase(cs[1..], block, base + cs[0].cap, i - 1); }
  }

  lemma {:induction false} CapsNonNegative(cs: seq<Chunk>)
    ensures Sum(Caps(cs)) >= 0
  {
    if cs != [] {
      CapsNonNegative(cs[1..]);
      CapsCons(cs[0], cs[1..]);
      assert cs == [cs[0]] + cs[1..];
    }
  }

  /** A chunk that owns no block lies in the middle of the block of chunk 0 and ends within it. */
  lemma NonOwnerInside(env: Env, h: Heap, s: Sys, i: nat)
    requires Shape(h) && Layout(env, h, s) && i < |h.chunks|
    ensures var c, c0 := h.chunks[i], h.chunks[0];
            c.allocCap == 0 ==> c.at.block == c0.at.block && 0 < c.at.base && c.at.base + c.cap <= c0.allocCap
    ensures h.chunks[i].at.block in s.out
  {
    var cs := h.chunks;
    var k: nat :| LayoutAt(env, h, k, s);
    OwnersAt(cs, k, s.out, i);
    if cs[i].allocCap == 0 {
      assert cs[..k][i] == cs[i] && cs[..k][0] == cs[0];
      EndToEndBase(cs[..k], cs[0].at.block, 0, i);
      EndToEndBlock(cs[..k], cs[0].at.block, 0, i);
      assert Sane(cs[0], 0);
    }
  }

  /** A restored heap lies in one block, all of it recorded in chunk 0. */
  lemma RestoredLayout(env: Env, h: Heap, h': Heap, s: Sys, block: nat)
    requires Restores(h, h', block) && h.chunks != [] && s.out == map[block := ChunkBlock] && block < s.next
    requires h'.mgr.totalCap != 0
    requires env.pooled ==> |h'.chunks| == 1
    ensures LayoutAt(env, h', |h'.chunks|, s)
  {
    var cs, n := h'.chunks, |h'.chunks|;
    forall i | 0 <= i < n ensures cs[i].at.block == block { EndToEndBlock(cs, block, 0, i); }
    OwnersOfOne(cs, n, n, block);
    assert cs[..n] == cs && cs[0].at == Addr(block, 0);
  }

  lemma {:induction false} OwnersOfOne(cs: seq<Chunk>, k: nat, m: nat, block: nat)
    requires 1 <= m <= k <= |cs| && cs[0].at == Addr(block, 0) && cs[0].allocCap != 0
    requires forall i :: 0 <= i < m ==> cs[i].at.block == block && (i > 0 ==> cs[i].allocCap == 0)
    ensures Owners(cs[..m], k, map[block := ChunkBlock])
  {
    assert cs[..m][..m - 1] == cs[..m - 1];
    if m > 1 {
      OwnersOfOne(cs, k, m - 1, block);
    } else {
      assert (map[block := ChunkBlock] - {block}) == map[];
    }
  }

  lemma {:induction false} OwnersOfFirst(cs: seq<Chunk>, k: nat, m: nat, out: map<nat, Kind>)
    requires 1 <= m <= k <= |cs| && Owners(cs[..m], k, out)
    ensures cs[0].at.base == 0 && out == map[cs[0].at.block := ChunkBlock]
  {
    assert cs[..m][..m - 1] == cs[..m - 1];
    if m > 1 {
      OwnersOfFirst(cs, k, m - 1, out);
    } else {
      assert out - {cs[0].at.block} == map[];
    }
  }

  /** A continuous heap holds one block and nothing else; with a pool no heap is continuous. */
  lemma ContinuousHolds(env: Env, h: Heap, bk: Book, s: Sys)
    requires Inv(h, bk) && Layout(env, h, s) && IsContinuous(h)
    ensures !env.pooled && h.chunks[0].at.base == 0 && h.chunks[0].at.block < s.next
    ensures s.out == map[h.chunks[0].at.block := ChunkBlock]
  {
    var k: nat :| LayoutAt(env, h, k, s);
    ContinuousIff(env, h, bk, k, s);
    assert h.chunks[..k] == h.chunks;
    OwnersOfFirst(h.chunks, k, k, s.out);
    assert h.chunks[0].at.block in s.out;
  }

  /** If several chunks share no block as a whole, the last chunk owns its block. */
  lemma LastOwnsUnlessContinuous(env: Env, h: Heap, bk: Book, s: Sys)
    requires Inv(h, bk) && Layout(env, h, s)
    ensures Last(h).allocCap != 0 <==> !IsContinuous(h)
  {
    var k: nat :| LayoutAt(env, h, k, s);
    ContinuousIff(env, h, bk, k, s);
    OwnersAt(h.chunks, k, s.out, |h.chunks| - 1);
  }

  lemma LayoutSys(env: Env, h: Heap, s: Sys, s': Sys)
    requires Layout(env, h, s) && s'.out == s.out && s'.next >= s.next
    ensures Layout(env, h, s')
  {
    var k: nat :| LayoutAt(env, h, k, s);
    assert LayoutAt(env, h, k, s');
  }
}
