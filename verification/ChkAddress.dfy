/**
  From addresses back to handles: the downward header scan `chk_addr2chk` and `chk_addr2ptr`
  (chk/chk_base.cpp), and the handle macros of chk/chk_base.h.

  Memory is a function from cell numbers to cells; addresses are byte addresses.
 */
module ChkAddress {
  import opened ChkBase
  import opened ChkHeap
  import opened ChkImage

  type Memory = int -> Cell

  // ---------- the scan ----------

  /** The four cells `i` kilobytes below boundary `q` pass for the header of a chunk that reaches
      up to `q` or beyond. */
  predicate PassesTest(m: Memory, q: int, i: int) {
    && m(256 * (q - i)) == CHK_MAGIC && m(256 * (q - i) + 3) == CHK_PADDING
    && i <= m(256 * (q - i) + 1) % 0x20 <= 16
  }

  /** The first kilobyte boundary at or above the address. */
  function RoundedUp(addr: int): int {
    (addr + 1023) / 1024
  }

  /** The scan from `i` kilobytes below boundary `q` on downwards. */
  function Scan(m: Memory, q: int, i: nat): Option<int>
    decreases 17 - i
  {
    if i >= 17 then None
    else if PassesTest(m, q, i) then Some(q - i)
    else Scan(m, q, i + 1)
  }

  /** What the scan finds is the nearest boundary that passes. */
  lemma {:induction false} ScanIs(m: Memory, q: int, i: nat, k: int)
    requires 1 <= i
    ensures Scan(m, q, i) == Some(k) <==>
              i <= q - k <= 16 && PassesTest(m, q, q - k) && forall j :: i <= j < q - k ==> !PassesTest(m, q, j)
    decreases 17 - i
  {
    if i < 17 { ScanIs(m, q, i + 1, k); }
  }

  /** The header at kilobyte `k`, whatever memory holds there. */
  function HeaderAt(m: Memory, k: int): Header {
    DecodeHeader([m(256 * k), m(256 * k + 1), m(256 * k + 2), m(256 * k + 3)])
  }

  /** At kilobyte `k` stands the header of a chunk of at most 16 kilobytes in which the address lies: above
      its base, and at its end at most. */
  predicate Reaches(m: Memory, k: int, addr: int) {
    && m(256 * k) == CHK_MAGIC && m(256 * k + 3) == CHK_PADDING
    && HeaderAt(m, k).cap <= 16 && 1024 * k < addr <= 1024 * (k + HeaderAt(m, k).cap)
  }

  lemma ReachesIsPassing(m: Memory, k: int, addr: int)
    ensures Reaches(m, k, addr) <==>
              1 <= RoundedUp(addr) - k <= 16 && PassesTest(m, RoundedUp(addr), RoundedUp(addr) - k)
  {
    var q, x := RoundedUp(addr), m(256 * k + 1);
    assert x % 0x100 % 0x20 == x % 0x20;
    assert 1024 * (q - 1) < addr <= 1024 * q;
  }

  /** The lookup finds a chunk exactly when some header reaches the address, and then the nearest one. */
  lemma FoundExactly(m: Memory, addr: int, k: int)
    ensures Scan(m, RoundedUp(addr), 1) == Some(k)
            <==> Reaches(m, k, addr) && forall j :: j > k ==> !Reaches(m, j, addr)
  {
    var q := RoundedUp(addr);
    ScanIs(m, q, 1, k);
    ReachesIsPassing(m, k, addr);
    hide Scan;
    hide PassesTest;
    hide Reaches;
    hide RoundedUp;
    if Reaches(m, k, addr) {
      forall j | j > k ensures Reaches(m, j, addr) <==> 1 <= q - j < q - k && PassesTest(m, q, q - j) {
        ReachesIsPassing(m, j, addr);
      }
      if forall j :: j > k ==> !Reaches(m, j, addr) {
        forall i | 1 <= i < q - k ensures !PassesTest(m, q, i) { assert !Reaches(m, q - i, addr); }
      }
    }
  }

  /** And none when none does. */
  lemma NotFoundIff(m: Memory, addr: int)
    ensures Scan(m, RoundedUp(addr), 1) == None <==> forall k :: !Reaches(m, k, addr)
  {
    var q := RoundedUp(addr);
    ScanEnds(m, q, 1);
    forall k ensures Reaches(m, k, addr) <==> 1 <= q - k <= 16 && PassesTest(m, q, q - k) {
      ReachesIsPassing(m, k, addr);
    }
    hide Scan;
    hide PassesTest;
    hide Reaches;
    hide RoundedUp;
    if forall k :: !Reaches(m, k, addr) {
      forall i | 1 <= i <= 16 ensures !PassesTest(m, q, i) { assert !Reaches(m, q - i, addr); }
    }
  }

  lemma {:induction false} ScanEnds(m: Memory, q: int, i: nat)
    requires 1 <= i
    ensures Scan(m, q, i) == None <==> forall j :: i <= j <= 16 ==> !PassesTest(m, q, j)
    decreases 17 - i
  {
    if i < 17 { ScanEnds(m, q, i + 1); }
  }

  /** `chk_addr2chk`: looks for a header at the kilobyte boundaries below the address, nearest first. */
  method Addr2Chk(m: Memory, addr: int) returns (r: Option<int>)
    ensures r == Scan(m, RoundedUp(addr), 1)
    ensures var q := RoundedUp(addr);
            match r
            case None => forall i :: 1 <= i <= 16 ==> !PassesTest(m, q, i)
            case Some(k) => 1 <= q - k <= 16 && PassesTest(m, q, q - k)
                            && forall i :: 1 <= i < q - k ==> !PassesTest(m, q, i)
    ensures match r
            case None => forall k :: !Reaches(m, k, addr)
            case Some(k) => Reaches(m, k, addr) && forall j :: j > k ==> !Reaches(m, j, addr)
  {
    hide Reaches;
    NotFoundIff(m, addr);
    var align := RoundedUp(addr);
    for i: nat := 1 to 17
      invariant forall j :: 1 <= j < i ==> !PassesTest(m, align, j)
      invariant Scan(m, align, 1) == Scan(m, align, i)
    {
      if PassesTest(m, align, i) {
        FoundExactly(m, addr, align - i);
        return Some(align - i);
      }
    }
    r := None;
  }

  // ---------- chunks in memory ----------

  /** Memory holds the cells from cell `at` on. */
  ghost predicate Holds(m: Memory, at: int, cells: seq<Cell>) {
    forall k :: 0 <= k < |cells| ==> m(at + k) == cells[k]
  }

  /** A kilobyte boundary above the chunk's base and below boundary `q` passes for a header. */
  ghost predicate Decoy(m: Memory, base: int, q: int) {
    exists j :: 1 <= j < q - base && PassesTest(m, q, j)
  }

  lemma ChunkPasses(m: Memory, base: int, c: Chunk, i: nat, mgr: Mgr, n: nat)
    requires Writable(c, i, mgr) && Holds(m, 256 * base, ChunkImage(c, i, mgr)) && n <= c.cap
    ensures PassesTest(m, base + n, n)
    ensures HeaderAt(m, base) == HeaderOf(c)
  {
    var r, hd := ChunkImage(c, i, mgr), HeaderOf(c);
    ImageParts(c, i, mgr);
    hide ChunkImage;
    forall k | 0 <= k < 4 ensures m(256 * base + k) == EncodeHeader(hd)[k] {
      assert r[..4][k] == r[k];
    }
    HeaderBits(hd);
    HeaderRoundTrip(hd);
    hide EncodeHeader;
    hide DecodeHeader;
    assert [m(256 * base), m(256 * base + 1), m(256 * base + 2), m(256 * base + 3)] == EncodeHeader(hd);
    LowBits(EncodeHeader(hd)[1], c.cap);
  }

  lemma LowBits(x: nat, cap: nat)
    requires x % 0x100 == cap < 0x20
    ensures x % 0x20 == cap
  {
  }

  /** The scan finds the chunk that holds an address exactly when nothing between the chunk's base and
      the address passes for a header.  The end of the chunk is in, its base is not. */
  lemma ScanFindsIff(m: Memory, base: int, c: Chunk, i: nat, mgr: Mgr, addr: int)
    requires Writable(c, i, mgr) && Holds(m, 256 * base, ChunkImage(c, i, mgr))
    requires 1024 * base < addr <= 1024 * (base + c.cap)
    ensures Scan(m, RoundedUp(addr), 1) == Some(base) <==> !Decoy(m, base, RoundedUp(addr))
  {
    var q := RoundedUp(addr);
    assert 1 <= q - base <= c.cap;
    ChunkPasses(m, base, c, i, mgr, q - base);
    ScanIs(m, q, 1, base);
  }

  /** The address of a chunk itself is never led back to the chunk. */
  lemma BaseNotFound(m: Memory, base: int)
    ensures Scan(m, RoundedUp(1024 * base), 1) != Some(base)
  {
    hide Scan;
    hide PassesTest;
    ScanIs(m, base, 1, base);
  }

  // ---------- handles ----------

  /** `chk_ptr2addr`, with the chunk's base at kilobyte `base`. */
  function AddrOf(base: int, p: Ptr): int {
    1024 * base + 4 * p.off
  }

  /** `chk_addrchk2ptr`: `None` where it asserts.  The handle's fields are cut to their bits. */
  function HandleAt(base: int, hd: Header, addr: int, bytes: nat): Option<Ptr> {
    var n := addr - 1024 * base;
    if n % 4 == 0 && 0 < n < 8 * hd.virgin then Some(Ptr(hd.no, n / 4 % 0x1000, bytes / 8 % 0x200)) else None
  }

  /** `chk_addr2ptr`: the null handle when no chunk is found. */
  function Addr2Ptr(m: Memory, addr: int, bytes: nat): Option<Ptr> {
    match Scan(m, RoundedUp(addr), 1)
    case None => Some(CHK_NULL)
    case Some(k) =>
      HandleAt(k, HeaderAt(m, k), addr, bytes)
  }

  /** The handle of the cell at an address inside the chunk that lies at kilobyte `base`. */
  function CellHandle(no: nat, base: int, addr: int, bytes: nat): Ptr
    requires addr >= 1024 * base
  {
    Ptr(no, (addr - 1024 * base) / 4, bytes / 8 % 0x200)
  }

  /** From an address back to a handle, for every cell between a chunk's base and its bump pointer: the
      lookup gives the handle of that cell, which leads back to the address, exactly when nothing
      between the chunk's base and the address passes for a header. */
  lemma AddressRoundTrip(m: Memory, h: Heap, bk: Book, no: nat, base: int, addr: int, bytes: nat)
    requires Inv(h, bk) && HeapWritable(h) && no < |h.chunks| && Holds(m, 256 * base, Images(h)[no])
    requires addr % 4 == 0 && 1024 * base < addr < 1024 * base + 8 * h.chunks[no].virgin
    ensures Addr2Ptr(m, addr, bytes) == Some(CellHandle(no, base, addr, bytes)) <==> !Decoy(m, base, RoundedUp(addr))
    ensures AddrOf(base, CellHandle(no, base, addr, bytes)) == addr
  {
    hide Holds;
    hide Decoy;
    hide Addr2Ptr;
    hide AddrOf;
    hide CellHandle;
    ChunkCount(h, bk);
    CellAddress(no, base, addr, bytes);
    hide Inv;
    assert Writable(h.chunks[no], no, h.mgr) && Images(h)[no] == ChunkImage(h.chunks[no], no, h.mgr);
    hide ChunkImage;
    hide HeapWritable;
    hide Images;
    hide Writable;
    ChunkRoundTrip(m, h.chunks[no], no, h.mgr, base, addr, bytes);
  }

  lemma ChunkRoundTrip(m: Memory, c: Chunk, no: nat, mgr: Mgr, base: int, addr: int, bytes: nat)
    requires Writable(c, no, mgr) && no < NULL_NO && Holds(m, 256 * base, ChunkImage(c, no, mgr))
    requires addr % 4 == 0 && 1024 * base < addr < 1024 * base + 8 * c.virgin
    ensures Addr2Ptr(m, addr, bytes) == Some(CellHandle(no, base, addr, bytes)) <==> !Decoy(m, base, RoundedUp(addr))
  {
    hide ChunkImage;
    hide Holds;
    hide Addr2Ptr;
    hide Decoy;
    hide Scan;
    hide PassesTest;
    hide HeaderAt;
    ScanFindsIff(m, base, c, no, mgr, addr);
    ChunkPasses(m, base, c, no, mgr, 1);
    RightChunk(m, base, HeaderOf(c), addr, bytes);
    WrongChunk(m, base, no, addr, bytes);
  }

  lemma RightChunk(m: Memory, base: int, hd: Header, addr: int, bytes: nat)
    requires Scan(m, RoundedUp(addr), 1) == Some(base) ==> HeaderAt(m, base) == hd
    requires addr % 4 == 0 && 1024 * base < addr < 1024 * base + 8 * hd.virgin && hd.virgin <= 2048
    ensures Scan(m, RoundedUp(addr), 1) == Some(base) ==>
              Addr2Ptr(m, addr, bytes) == Some(CellHandle(hd.no, base, addr, bytes))
  {
    hide Scan;
    hide RoundedUp;
    hide HeaderAt;
    hide HandleAt;
    hide CellHandle;
    HandleFits(base, hd, addr, bytes);
  }

  lemma HandleFits(base: int, hd: Header, addr: int, bytes: nat)
    requires addr % 4 == 0 && 1024 * base < addr < 1024 * base + 8 * hd.virgin && hd.virgin <= 2048
    ensures HandleAt(base, hd, addr, bytes) == Some(CellHandle(hd.no, base, addr, bytes))
  {
    var n := addr - 1024 * base;
    var k := n / 4;
    assert n == 4 * k by { assert n == 4 * (addr / 4 - 256 * base); }
    assert n % 4 == 0;
    assert 0 <= k < 0x1000;
    assert k % 0x1000 == k;
  }

  /** An address that no header reaches gives the null handle. */
  lemma UnreachedIsNull(m: Memory, addr: int, bytes: nat)
    requires forall k :: !Reaches(m, k, addr)
    ensures Addr2Ptr(m, addr, bytes) == Some(CHK_NULL)
  {
    NotFoundIff(m, addr);
  }

  /** An address that a chunk is found for, at or above its bump pointer or between two cells, fails the
      assertion of the lookup, and no other does. */
  lemma LookupAssertsIff(m: Memory, h: Heap, bk: Book, no: nat, base: int, addr: int, bytes: nat)
    requires Inv(h, bk) && HeapWritable(h) && no < |h.chunks| && Holds(m, 256 * base, Images(h)[no])
    requires 1024 * base < addr <= 1024 * (base + h.chunks[no].cap) && !Decoy(m, base, RoundedUp(addr))
    ensures Addr2Ptr(m, addr, bytes) == None <==> addr % 4 != 0 || addr >= 1024 * base + 8 * h.chunks[no].virgin
  {
    hide Inv;
    hide Decoy;
    hide Holds;
    hide Addr2Ptr;
    hide RoundedUp;
    assert Writable(h.chunks[no], no, h.mgr) && Images(h)[no] == ChunkImage(h.chunks[no], no, h.mgr);
    hide ChunkImage;
    hide HeapWritable;
    hide Images;
    hide Writable;
    ChunkAsserts(m, h.chunks[no], no, h.mgr, base, addr, bytes);
  }

  lemma ChunkAsserts(m: Memory, c: Chunk, no: nat, mgr: Mgr, base: int, addr: int, bytes: nat)
    requires Writable(c, no, mgr) && Holds(m, 256 * base, ChunkImage(c, no, mgr))
    requires 1024 * base < addr <= 1024 * (base + c.cap) && !Decoy(m, base, RoundedUp(addr))
    ensures Addr2Ptr(m, addr, bytes) == None <==> addr % 4 != 0 || addr >= 1024 * base + 8 * c.virgin
  {
    hide Decoy;
    hide Holds;
    hide ChunkImage;
    hide Scan;
    hide HeaderAt;
    hide HandleAt;
    ScanFindsIff(m, base, c, no, mgr, addr);
    ChunkPasses(m, base, c, no, mgr, 1);
    hide RoundedUp;
    HandleAsserts(base, HeaderOf(c), addr, bytes);
  }

  lemma HandleAsserts(base: int, hd: Header, addr: int, bytes: nat)
    requires addr > 1024 * base
    ensures HandleAt(base, hd, addr, bytes) == None <==> addr % 4 != 0 || addr >= 1024 * base + 8 * hd.virgin
  {
    var n := addr - 1024 * base;
    assert n % 4 == 0 <==> addr % 4 == 0 by { assert addr == n + 4 * (256 * base); }
  }

  lemma WrongChunk(m: Memory, base: int, no: nat, addr: int, bytes: nat)
    requires no < NULL_NO && addr % 4 == 0 && 1024 * base < addr < 1024 * base + 4 * 0x1000
    ensures Scan(m, RoundedUp(addr), 1) != Some(base) ==>
              Addr2Ptr(m, addr, bytes) != Some(CellHandle(no, base, addr, bytes))
  {
    hide Scan;
    hide HeaderAt;
    hide PassesTest;
    match Scan(m, RoundedUp(addr), 1) {
      case None =>
      case Some(k) =>
        ScanIs(m, RoundedUp(addr), 1, k);
        if k != base { OtherOffset(base, k, addr); }
    }
  }

  lemma CellAddress(no: nat, base: int, addr: int, bytes: nat)
    requires addr % 4 == 0 && addr >= 1024 * base
    ensures AddrOf(base, CellHandle(no, base, addr, bytes)) == addr
  {
  }

  lemma ChunkCount(h: Heap, bk: Book)
    requires Inv(h, bk)
    ensures |h.chunks| <= NULL_NO
  {
  }

  /** Seen from another boundary within 16 kilobytes, the address has another offset. */
  lemma OtherOffset(base: int, k: int, addr: int)
    requires addr % 4 == 0 && 1024 * base < addr < 1024 * (base + 16) && 1 <= RoundedUp(addr) - k <= 16 && k != base
    ensures (addr - 1024 * k) / 4 % 0x1000 != (addr - 1024 * base) / 4
  {
  }

  /** In particular the address of a live block gives the block's handle again, or not, on that condition. */
  lemma BlockRoundTrip(m: Memory, h: Heap, bk: Book, b: Blk, base: int)
    requires Inv(h, bk) && HeapWritable(h) && b in bk.blocks && b.tag == LIVE
    ensures b.no < |h.chunks|
    ensures Holds(m, 256 * base, Images(h)[b.no]) ==>
              var p := Ptr(b.no, 2 * b.off, b.size); var addr := AddrOf(base, p);
              Addr2Ptr(m, addr, 8 * b.size) == Some(p) <==> !Decoy(m, base, RoundedUp(addr))
  {
    hide Inv;
    hide Decoy;
    hide Addr2Ptr;
    hide HeapWritable;
    hide Images;
    hide RoundedUp;
    hide AddrOf;
    hide CellHandle;
    BlockFacts(h, bk, b);
    BlockAddress(b, base);
    if Holds(m, 256 * base, Images(h)[b.no]) {
      AddressRoundTrip(m, h, bk, b.no, base, AddrOf(base, Ptr(b.no, 2 * b.off, b.size)), 8 * b.size);
    }
  }

  lemma BlockAddress(b: Blk, base: int)
    requires 1 <= b.off && 1 <= b.size <= MAX_WORDS
    ensures var p := Ptr(b.no, 2 * b.off, b.size); var addr := AddrOf(base, p);
            addr % 4 == 0 && addr == 1024 * base + 8 * b.off && CellHandle(b.no, base, addr, 8 * b.size) == p
  {
  }

  lemma BlockFacts(h: Heap, bk: Book, b: Blk)
    requires Inv(h, bk) && b in bk.blocks && b.tag == LIVE
    ensures b.no < |h.chunks| && 1 <= b.size <= MAX_WORDS && 2 <= b.off && b.off + b.size <= h.chunks[b.no].virgin
  {
    assert Placed(h, b) && TagFits(h.mgr, b);
  }

  /** The other way round: an address that a handle was made from is the handle's address. */
  lemma HandleInverts(base: int, hd: Header, addr: int, bytes: nat)
    requires hd.Fits() && hd.virgin <= 2048
    ensures HandleAt(base, hd, addr, bytes).Some? ==> AddrOf(base, HandleAt(base, hd, addr, bytes).value) == addr
    ensures HandleAt(base, hd, addr, bytes).Some? && bytes <= 8 * MAX_WORDS ==>
              HandleAt(base, hd, addr, bytes).value.Fits()
  {
    var n := addr - 1024 * base;
    if n % 4 == 0 && 0 < n < 8 * hd.virgin { assert n / 4 < 0x1000; }
  }
}
