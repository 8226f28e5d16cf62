/**
  The chunk index of chk/chk_base.cpp as a state machine on values: the heap or its compressed image,
  the blocks obtained from the system, and one function per operation of ChkIndex.

  Inputs that the program gets from its surroundings are arguments: whether the system grants a
  block (`grant`), and what reallocated memory holds above the old contents (`tail`).
 */
module ChkIndexSpec {
  import opened ChkBase
  import opened ChkHeap
  import opened ChkAlloc
  import opened ChkImage

  // ---------- surroundings ----------

  type Byte = x: nat | x < 256

  /** The compression library: a pair of functions of which only the inverse law is assumed. */
  datatype Codec = Codec(pack: seq<Cell> -> seq<Byte>, unpack: seq<Byte> -> Option<seq<Cell>>)

  ghost predicate Lawful(c: Codec) {
    forall x :: c.unpack(c.pack(x)) == Some(x)
  }

  // A codec that packs nothing: every cell as its four bytes.

  function CellBytes(cells: seq<Cell>): seq<Byte> {
    if cells == [] then []
    else
      var c := cells[0];
      [c % 256, c / 0x100 % 256, c / 0x1_0000 % 256, c / 0x100_0000] + CellBytes(cells[1..])
  }

  function Quad(a: nat, b: nat, c: nat, d: nat): Cell
    requires a < 256 && b < 256 && c < 256 && d < 256
  {
    a + 0x100 * b + 0x1_0000 * c + 0x100_0000 * d
  }

  function CellsOf(bytes: seq<Byte>): seq<Cell> {
    if |bytes| < 4 then []
    else
      [Quad(bytes[0], bytes[1], bytes[2], bytes[3])] + CellsOf(bytes[4..])
  }

  const PLAIN: Codec := Codec(cells => CellBytes(cells), bytes => Some(CellsOf(bytes)))

  lemma {:induction false} BytesRoundTrip(cells: seq<Cell>)
    ensures CellsOf(CellBytes(cells)) == cells
  {
    if cells != [] {
      BytesRoundTrip(cells[1..]);
      var bytes, c := CellBytes(cells), cells[0];
      assert bytes[4..] == CellBytes(cells[1..]);
      FourBytes(c);
      assert cells == [c] + cells[1..];
    }
  }

  lemma FourBytes(c: Cell)
    ensures Quad(c % 256, c / 0x100 % 256, c / 0x1_0000 % 256, c / 0x100_0000) == c
  {
    assert c / 0x100 / 0x100 == c / 0x1_0000 && c / 0x1_0000 / 0x100 == c / 0x100_0000;
  }

  /** So the law can be met. */
  lemma PlainIsLawful()
    ensures Lawful(PLAIN)
  {
    forall x ensures PLAIN.unpack(PLAIN.pack(x)) == Some(x) { BytesRoundTrip(x); }
  }

  /** `pooled` is the mode of ChkMemalign, which also sets UNCOMPRESS_SPLIT; `sizes` are the presets. */
  datatype Env = Env(pooled: bool, sizes: seq<nat>, codec: Codec)

  datatype Kind = ChunkBlock | RawBlock | PackedBlock

  /** The blocks obtained and not given back yet.  `faults` counts releases of anything that is not
      the start of an outstanding block of its kind, and reads of a header in a released block. */
  datatype Sys = Sys(next: nat, out: map<nat, Kind>, faults: nat)

  function Obtain(s: Sys, kind: Kind): Sys {
    s.(next := s.next + 1, out := s.out[s.next := kind])
  }

  predicate CanRelease(s: Sys, at: Addr, kind: Kind) {
    at.base == 0 && at.block in s.out && s.out[at.block] == kind
  }

  function Release(s: Sys, at: Addr, kind: Kind): Sys {
    if CanRelease(s, at, kind) then s.(out := s.out - {at.block}) else s.(faults := s.faults + 1)
  }

  datatype Packed = Packed(block: nat, bytes: seq<Byte>)

  /** `heap.chunks` is `_chk_addr[0 .. _chk_num]`; `packed` is set while `_compressed` is. */
  datatype Index = Index(heap: Heap, packed: Option<Packed>, addrSize: nat, sys: Sys)

  const NO_HEAP: Heap := Heap([], Mgr(0, 0, 0, [], []))

  const EMPTY: Index := Index(NO_HEAP, None, 0, Sys(0, map[], 0))

  // ---------- growing ----------

  predicate CanEnlarge(c: Chunk) {
    c.allocCap != 0 && c.cap < MAX_CAP
  }

  function Last(h: Heap): Chunk
    requires h.chunks != []
  {
    h.chunks[|h.chunks| - 1]
  }

  /** `_chk_addr_size` once one more chunk must find room. */
  function AddrRoom(n: nat, size: nat): nat {
    if n < size then size else if size == 0 then 1 else 2 * size
  }

  /** `tail` cut or zero-filled to `n` cells. */
  function Fit(tail: seq<Cell>, n: nat): (r: seq<Cell>)
    ensures |r| == n
  {
    if |tail| >= n then tail[..n] else tail + Zeros(n - |tail|)
  }

  /** `_reallocate`: a new block and the release of the old one, or with a pool the block itself. */
  function Moved(pooled: bool, s: Sys, at: Addr): (Sys, Addr) {
    if pooled then (s, at) else (Release(Obtain(s, ChunkBlock), at, ChunkBlock), Addr(s.next, 0))
  }

  /** `chk_enlarge(1)`: brings the last chunk to full size if it is one that can be. */
  function EnlargeLast(env: Env, ix: Index, grant: bool, tail: seq<Cell>): (Index, int) {
    var h := ix.heap;
    if h.chunks == [] || !CanEnlarge(Last(h)) then (ix, 0)
    else if !grant && !env.pooled then (ix, -1)
    else
      var (s, at) := Moved(env.pooled, ix.sys, Last(h).at);
      var n := CellsIn(MAX_CAP - Last(h).cap);
      (ix.(heap := SetLast(h, EnlargeChunk(Last(h), at, if env.pooled then Fit(tail, n) else Zeros(n))), sys := s), 0)
  }

  /** `chk_enlarge()` of an index without chunks: the first chunk, with the manager in it. */
  function AddFirst(env: Env, ix: Index, grant: bool): (Index, int) {
    var ix1 := ix.(addrSize := AddrRoom(0, ix.addrSize));
    if !grant then (ix1, -1)
    else (ix1.(heap := FirstHeap(env.sizes, Addr(ix.sys.next, 0)), sys := Obtain(ix.sys, ChunkBlock)), 0)
  }

  /** `chk_enlarge()` of an index whose last chunk is at full size: one more chunk. */
  function AddOne(ix: Index, grant: bool): (Index, int)
    requires ix.heap.chunks != []
  {
    if |ix.heap.chunks| >= NULL_NO then (ix, -1)
    else
      var ix1 := ix.(addrSize := AddrRoom(|ix.heap.chunks|, ix.addrSize));
      if !grant then (ix1, -1)
      else (ix1.(heap := AddChunk(ix.heap, Addr(ix.sys.next, 0)), sys := Obtain(ix.sys, ChunkBlock)), 0)
  }

  // ---------- continuous chunks ----------

  predicate IsContinuous(h: Heap) {
    |h.chunks| > 1 && h.mgr.totalCap == h.chunks[0].allocCap
  }

  /** `n` chunk blocks obtained one after the other. */
  function ObtainMany(s: Sys, n: nat): Sys {
    if n == 0 then s else Obtain(ObtainMany(s, n - 1), ChunkBlock)
  }

  /** `split_continuous_chunk`, which asserts that it gets its blocks. */
  function SplitIx(env: Env, ix: Index): Index
    requires ix.heap.chunks == [] || Shape(ix.heap)
  {
    var h := ix.heap;
    if !IsContinuous(h) then ix
    else
      var n := |h.chunks|;
      var at := seq(n, i requires 0 <= i < n => Addr(ix.sys.next + i, 0));
      var s := ObtainMany(ix.sys, n);
      ix.(heap := Split(h, at), sys := Release(s, h.chunks[0].at, if env.pooled then RawBlock else ChunkBlock))
  }

  // ---------- destruct, compress, uncompress ----------

  /** `ChkMetadata::destruct`: reads the header, and gives the block back if the chunk owns one. */
  function ReleaseOne(s: Sys, at: Addr, allocCap: nat): Sys {
    if at.block !in s.out then s.(faults := s.faults + 1)
    else if allocCap != 0 then Release(s, at, ChunkBlock) else s
  }

  /** The loop of `destruct`, from the last chunk down. */
  function ReleaseAll(s: Sys, cs: seq<Chunk>): Sys
    decreases |cs|
  {
    if cs == [] then s
    else
      var c := cs[|cs| - 1];
      ReleaseAll(ReleaseOne(s, c.at, c.allocCap), cs[..|cs| - 1])
  }

  /** With `_chk_num` 0, as it is while compressed, `destruct` returns at once. */
  function Destruct(ix: Index): Index {
    if ix.heap.chunks == [] then ix
    else ix.(heap := NO_HEAP, packed := None, sys := ReleaseAll(ix.sys, ix.heap.chunks))
  }

  /** `compress(percent)`.  The stored length counts the 4 bytes in front of the packed data. */
  function Compress(env: Env, ix: Index, percent: nat, grant: bool): (Index, int)
    requires ix.heap.chunks == [] || HeapWritable(ix.heap)
  {
    if ix.heap.chunks == [] || ix.packed.Some? then (ix, 0)
    else if !grant then (ix, -1)
    else
      var bytes := env.codec.pack(Flatten(ix.heap));
      var s := Obtain(ix.sys, PackedBlock);
      if (|bytes| + 4) * 100 > percent * 1024 * ix.heap.mgr.totalCap
      then (ix.(sys := Release(s, Addr(ix.sys.next, 0), PackedBlock)), 0)
      else (Destruct(ix.(sys := s)).(packed := Some(Packed(ix.sys.next, bytes))), 0)
  }

  /** `uncompress()`.  With a pool, an image of more than one full chunk goes to a raw block, which is
      then split. */
  function Uncompress(env: Env, ix: Index, grant: bool): (Index, int)
  {
    if ix.packed.None? then (ix, 0)
    else
      match env.codec.unpack(ix.packed.value.bytes)
      case None => (ix, -1)
      case Some(img) =>
        if |img| < 10 || !grant then (ix, -2)
        else
          var cap := (|img| + 255) / 256;
          var kind := if env.pooled && cap > MAX_CAP then RawBlock else ChunkBlock;
          match Unflatten(img, Zeros(CellsIn(cap) - |img|), ix.sys.next)
          case None => (ix, -2)
          case Some(h) =>
            var s := Release(Obtain(ix.sys, kind), Addr(ix.packed.value.block, 0), PackedBlock);
            var ix1 := Index(h, None, ix.addrSize, s);
            (if env.pooled && Shape(h) then SplitIx(env, ix1) else ix1, 0)
  }

  // ---------- the client's operations ----------

  /** The heap can be allocated from. */
  predicate Usable(h: Heap) {
    Shape(h) && HeadsOk(h)
  }

  /** `alloc(size)` on an index that is not compressed. */
  function AllocIx(env: Env, ix: Index, size: nat, grant: bool): (Index, Option<Blk>)
    requires ix.heap.chunks == [] || Usable(ix.heap)
    requires SizesOk(env.sizes) && env.sizes[0] < 16 && env.sizes[1] < 32 && env.sizes[2] < 128
  {
    var words := CeilDiv(size, 8);
    if words > MAX_WORDS then (ix, None)
    else
      var (ix1, rc) := if ix.heap.chunks == [] then AddFirst(env, ix, grant) else (ix, 0);
      if rc < 0 then (ix1, None)
      else if CanEnlarge(Last(ix1.heap)) then (ix1, None)
      else AllocChunked(ix1, words, grant)
  }

  /** The part of `alloc` that works on chunks at full size. */
  function AllocChunked(ix: Index, words: nat, grant: bool): (Index, Option<Blk>)
    requires Usable(ix.heap) && words <= MAX_WORDS
  {
    var h := ix.heap;
    var n := |h.chunks|;
    var (h', r) := Alloc(h, words, if grant then Some(Addr(ix.sys.next, 0)) else None);
    var wantsChunk := FirstFit(h.mgr, words) == 3 && !BumpFits(h, words) && n < NULL_NO;
    (Index(h', ix.packed, if wantsChunk then AddrRoom(n, ix.addrSize) else ix.addrSize,
           if wantsChunk && grant then Obtain(ix.sys, ChunkBlock) else ix.sys), r)
  }

  /** Where `ChkMetadata::shrink` puts the chunk, and the ledger afterwards; `None` when there is nothing
      to give back or no block to be had. */
  function ShrinkPlace(pooled: bool, s: Sys, c: Chunk, grant: bool): Option<(Sys, Addr)> {
    var inPlace := Excess(c) < c.cap - Excess(c);
    if Excess(c) == 0 || (!grant && !(pooled && inPlace)) then None
    else if inPlace then Some(Moved(pooled, s, c.at))
    else Some((Release(Obtain(s, ChunkBlock), c.at, ChunkBlock), Addr(s.next, 0)))
  }

  /** `shrink()`. */
  function Shrink(env: Env, ix: Index, grant: bool): Index
    requires ix.heap.chunks == [] || Shape(ix.heap)
  {
    var h := ix.heap;
    if h.chunks == [] then ix
    else
      var c := Last(h);
      assert Sane(c, |h.chunks| - 1);
      ExcessIsTight(c, |h.chunks| - 1);
      match ShrinkPlace(env.pooled, ix.sys, c, grant)
      case None => ix
      case Some((s, at)) => ix.(heap := SetLast(h, ShrinkChunk(c, at)), sys := s)
  }

  /** An index from which, uncompressed if need be, one can allocate. */
  ghost predicate Ready(env: Env, ix: Index) {
    && SizesOk(env.sizes) && env.sizes[0] < 16 && env.sizes[1] < 32 && env.sizes[2] < 128
    && forall grant: bool :: var h := Uncompress(env, ix, grant).0.heap; h.chunks == [] || Usable(h)
  }

  /** `alloc(size)`: refuses sizes over the limit, uncompresses, then allocates. */
  ghost function AllocOp(env: Env, ix: Index, size: nat, unpack: bool, grant: bool): (Index, Option<Blk>)
    requires Ready(env, ix)
  {
    if CeilDiv(size, 8) > MAX_WORDS then (ix, None)
    else
      var (ix1, rc) := Uncompress(env, ix, unpack);
      if rc != 0 then (ix1, None) else AllocIx(env, ix1, size, grant)
  }

  /** `enlarge()`: uncompress, split, and bring the last chunk to full size. */
  ghost function EnlargeOp(env: Env, ix: Index, unpack: bool, grant: bool, tail: seq<Cell>): (Index, int)
    requires Ready(env, ix)
  {
    var (ix1, rc) := Uncompress(env, ix, unpack);
    if rc != 0 then (ix1, -1)
    else
      var (ix2, rc2) := EnlargeLast(env, SplitIx(env, ix1), grant, tail);
      (ix2, if rc2 != 0 then -3 else 0)
  }

  /** `free(ptr, size)` of the block `b` that the handle and the size name. */
  ghost function FreeOp(env: Env, ix: Index, b: Blk, unpack: bool): Index
    requires Ready(env, ix)
    requires var (ix1, rc) := Uncompress(env, ix, unpack);
             rc == 0 ==> ix1.heap.mgr.Shaped() && b.no < |ix1.heap.chunks| && Room(ix1.heap, b.no, b.off, b.size)
  {
    var (ix1, rc) := Uncompress(env, ix, unpack);
    if rc != 0 then ix1 else ix1.(heap := Free(ix1.heap, b))
  }
}
