/**
  The greedy carving of chk/chk_mem_mgr.cpp in closed form, when its loop comes to an end, and which
  presets give size classes it can work with.
 */
module ChkCarving {
  import opened ChkBase
  import opened ChkHeap
  import opened ChkAlloc

  // ---------- presets of the size classes ----------

  /** The most bytes a preset of class `i` may ask for, and the values its bit field can hold. */
  function MaxPreset(i: nat): nat {
    if i == 0 then 127 else if i == 1 then 255 else 1023
  }

  function ClassWidth(i: nat): nat {
    if i == 0 then 0x10 else if i == 1 then 0x20 else 0x80
  }

  /** `preset_free_sizes` and the constructor of ChkMemMgr: the preset cut to its maximum, rounded up
      to words, and cut to the bits of its field. */
  function StoredClass(i: nat, preset: int): nat {
    var bytes := if preset < MaxPreset(i) then preset else MaxPreset(i);
    (bytes + 7) / 8 % ClassWidth(i)
  }

  /** No preset leaves a class of size 0, and so do the largest ones, which wrap around; all others are
      stored as they are. */
  lemma PresetsFit(i: nat, preset: nat)
    requires i < 3
    ensures StoredClass(i, preset) != 0 <==> 1 <= preset <= MaxPreset(i) - 7
    ensures StoredClass(i, preset) != 0 ==> StoredClass(i, preset) == CeilDiv(preset, 8)
  {
    if preset == 0 {
      assert StoredClass(i, preset) == 0;
    } else if preset <= MaxPreset(i) - 7 {
      assert 1 <= CeilDiv(preset, 8) < ClassWidth(i);
    } else {
      var bytes: int := if preset < MaxPreset(i) then preset else MaxPreset(i);
      assert (bytes + 7) / 8 == ClassWidth(i);
    }
  }

  // ---------- the end of the loop ----------

  /** The class a round of the loop takes, whatever the sizes. */
  function RoundTakes(sizes: seq<nat>, left: nat): (size: nat)
    requires |sizes| == 3 && left >= sizes[0]
    ensures size <= left
  {
    sizes[Pick(sizes, left)]
  }

  /** What is left after `k` rounds. */
  function LeftAfter(sizes: seq<nat>, left: nat, k: nat): nat
    requires |sizes| == 3
    decreases k
  {
    if k == 0 || left < sizes[0] then left else LeftAfter(sizes, left - RoundTakes(sizes, left), k - 1)
  }

  ghost predicate Ends(sizes: seq<nat>, left: nat)
    requires |sizes| == 3
  {
    exists k: nat :: LeftAfter(sizes, left, k) < sizes[0]
  }

  lemma EndsNow(sizes: seq<nat>, left: nat)
    requires |sizes| == 3 && left < sizes[0]
    ensures Ends(sizes, left)
  {
    assert LeftAfter(sizes, left, 0) < sizes[0];
  }

  lemma EndsLater(sizes: seq<nat>, left: nat)
    requires |sizes| == 3 && left >= sizes[0]
    ensures Ends(sizes, left) <==> Ends(sizes, left - RoundTakes(sizes, left))
  {
    var rest := left - RoundTakes(sizes, left);
    if Ends(sizes, left) {
      var k: nat :| LeftAfter(sizes, left, k) < sizes[0];
      assert LeftAfter(sizes, rest, k - 1) < sizes[0];
    }
    if Ends(sizes, rest) {
      var k: nat :| LeftAfter(sizes, rest, k) < sizes[0];
      assert LeftAfter(sizes, left, k + 1) < sizes[0];
    }
  }

  lemma {:induction false} StuckAfter(sizes: seq<nat>, left: nat, k: nat)
    requires |sizes| == 3 && left >= sizes[0] && RoundTakes(sizes, left) == 0
    ensures LeftAfter(sizes, left, k) == left
  {
    if k > 0 { StuckAfter(sizes, left, k - 1); }
  }

  /** The loop comes to an end: it has only positive classes to pick, or the largest class takes it
      below the smallest one. */
  predicate Terminates(sizes: seq<nat>, left: nat)
    requires |sizes| == 3
  {
    || left < sizes[0] || (sizes[1] >= 1 && sizes[2] >= 1)
    || (sizes[2] >= 1 && (sizes[2] < sizes[0] || left % sizes[2] < sizes[0]))
  }

  lemma TerminatesLater(sizes: seq<nat>, left: nat)
    requires |sizes| == 3 && sizes[0] >= 1 && left >= sizes[0] && RoundTakes(sizes, left) > 0
    ensures Terminates(sizes, left) <==> Terminates(sizes, left - RoundTakes(sizes, left))
  {
    if sizes[2] > 0 && left >= sizes[2] { LessOne(left, sizes[2]); }
  }

  lemma StuckNow(sizes: seq<nat>, left: nat)
    requires |sizes| == 3 && sizes[0] >= 1 && left >= sizes[0] && RoundTakes(sizes, left) == 0
    ensures !Terminates(sizes, left)
  {
    if sizes[2] > 0 { assert left % sizes[2] == left; }
  }

  /** The loop ends exactly when it never gets to a remainder that is at least the smallest class but
      for which it picks a class of size 0. */
  lemma {:induction false} CarvingEndsIff(sizes: seq<nat>, left: nat)
    requires |sizes| == 3 && sizes[0] >= 1
    ensures Ends(sizes, left) <==> Terminates(sizes, left)
    decreases left
  {
    hide Terminates;
    hide Ends;
    if left < sizes[0] {
      EndsNow(sizes, left);
      TerminatesNow(sizes, left);
    } else if RoundTakes(sizes, left) == 0 {
      NeverEnds(sizes, left);
      StuckNow(sizes, left);
    } else {
      EndsLater(sizes, left);
      TerminatesLater(sizes, left);
      CarvingEndsIff(sizes, left - RoundTakes(sizes, left));
    }
  }

  lemma TerminatesNow(sizes: seq<nat>, left: nat)
    requires |sizes| == 3 && left < sizes[0]
    ensures Terminates(sizes, left)
  {
  }

  lemma NeverEnds(sizes: seq<nat>, left: nat)
    requires |sizes| == 3 && left >= sizes[0] && RoundTakes(sizes, left) == 0
    ensures !Ends(sizes, left)
  {
    forall k: nat ensures LeftAfter(sizes, left, k) >= sizes[0] { StuckAfter(sizes, left, k); }
  }

  lemma LessOne(n: nat, d: nat)
    requires 1 <= d <= n
    ensures (n - d) % d == n % d && n / d == (n - d) / d + 1
  {
    var q, r := (n - d) / d, (n - d) % d;
    assert n == d * (q + 1) + r by { assert n - d == d * q + r; }
    Unpack(r, d, q + 1);
  }

  // ---------- the closed form ----------

  /** `k` blocks of `size` words each, end to end from word `off` on. */
  function Row(no: nat, off: nat, size: nat, tag: nat, k: nat): (r: seq<Blk>)
    ensures |r| == k
    decreases k
  {
    if k == 0 then [] else [Blk(no, off, size, tag)] + Row(no, off + size, size, tag, k - 1)
  }

  /** The blocks stand end to end and fill words `lo` to `hi` of chunk `no`. */
  ghost predicate Tiles(bs: seq<Blk>, no: nat, lo: nat, hi: nat) {
    if bs == [] then lo == hi
    else bs[0].no == no && bs[0].off == lo && bs[0].size >= 1 && Tiles(bs[1..], no, lo + bs[0].size, hi)
  }

  function Reversed(s: seq<Blk>): seq<Blk> {
    if s == [] then [] else Reversed(s[1..]) + [s[0]]
  }

  /** The blocks of class `i`. */
  function OfClass(bs: seq<Blk>, i: nat): seq<Blk> {
    if bs == [] then [] else (if bs[0].tag == i then [bs[0]] else []) + OfClass(bs[1..], i)
  }

  /** A run of rounds that all take class `i`. */
  lemma {:induction false} CarveRow(sizes: seq<nat>, no: nat, off: nat, left: nat, i: nat, hi: nat)
    requires SizesOk(sizes) && sizes[0] <= sizes[1] && sizes[0] <= sizes[2] && i < 3 && left < hi
    requires forall n: nat :: sizes[i] <= n < hi ==> n >= sizes[0] && Pick(sizes, n) == i
    ensures CarveBlocks(sizes, no, off, left) ==
            Row(no, off, sizes[i], i, left / sizes[i])
                + CarveBlocks(sizes, no, off + (left - left % sizes[i]), left % sizes[i])
    decreases left
  {
    var f := sizes[i];
    if left < f {
      assert left / f == 0 && left % f == left;
    } else {
      LessOne(left, f);
      CarveRow(sizes, no, off + f, left - f, i, hi);
      var rest := CarveBlocks(sizes, no, off + (left - left % f), left % f);
      assert CarveBlocks(sizes, no, off, left) == [Blk(no, off, f, i)]
          + (Row(no, off + f, f, i, (left - f) / f) + rest);
    }
  }

  lemma {:induction false} RowTiles(no: nat, off: nat, f: nat, tag: nat, n: nat)
    requires f >= 1
    ensures Tiles(Row(no, off, f, tag, n / f), no, off, off + (n - n % f))
    decreases n
  {
    if n >= f {
      LessOne(n, f);
      RowTiles(no, off + f, f, tag, n - f);
    }
  }

  lemma {:induction false} TilesAppend(a: seq<Blk>, b: seq<Blk>, no: nat, lo: nat, mid: nat, hi: nat)
    requires Tiles(a, no, lo, mid) && Tiles(b, no, mid, hi)
    ensures Tiles(a + b, no, lo, hi)
  {
    if a == [] {
      assert a + b == b;
    } else {
      TilesAppend(a[1..], b, no, lo + a[0].size, mid, hi);
      assert (a + b)[1..] == a[1..] + b;
    }
  }

  lemma {:induction false} TilesEnd(bs: seq<Blk>, no: nat, lo: nat, hi: nat, hi': nat)
    requires Tiles(bs, no, lo, hi) && Tiles(bs, no, lo, hi')
    ensures hi == hi'
  {
    if bs != [] { TilesEnd(bs[1..], no, lo + bs[0].size, hi, hi'); }
  }

  /** The closed form in terms of the quotients and remainders of its three steps. */
  lemma ThreeRows(sizes: seq<nat>, no: nat, off: nat, n: nat, q2: nat, r2: nat, q1: nat, r1: nat, q0: nat, r0: nat)
    requires SizesOk(sizes) && sizes[0] <= sizes[1] && sizes[0] <= sizes[2]
    requires Divides(n, sizes[2], q2, r2) && Divides(r2, sizes[1], q1, r1) && Divides(r1, sizes[0], q0, r0)
    ensures r0 <= r1 <= r2 <= n && r0 < sizes[0]
    ensures var bs := CarveBlocks(sizes, no, off, n);
            && bs == Row(no, off, sizes[2], 2, q2) + Row(no, off + (n - r2), sizes[1], 1, q1)
               + Row(no, off + (n - r1), sizes[0], 0, q0)
            && Tiles(bs, no, off, off + (n - r0))
  {
    hide Divides;
    hide Tiles;
    hide Row;
    RowOf(sizes, no, off, n, 2, n + 1, q2, r2);
    RowOf(sizes, no, off + (n - r2), r2, 1, sizes[2], q1, r1);
    RowOf(sizes, no, off + (n - r1), r1, 0, if sizes[1] < sizes[2] then sizes[1] else sizes[2], q0, r0);
    assert CarveBlocks(sizes, no, off + (n - r0), r0) == [];
    ThreeTiles(Row(no, off, sizes[2], 2, q2), Row(no, off + (n - r2), sizes[1], 1, q1),
               Row(no, off + (n - r1), sizes[0], 0, q0),
               no, off, off + (n - r2), off + (n - r1), off + (n - r0));
  }

  predicate Divides(n: nat, d: nat, q: nat, r: nat) {
    d >= 1 && q == n / d && r == n % d
  }

  lemma RowOf(sizes: seq<nat>, no: nat, off: nat, left: nat, i: nat, hi: nat, q: nat, r: nat)
    requires SizesOk(sizes) && sizes[0] <= sizes[1] && sizes[0] <= sizes[2] && i < 3 && left < hi
    requires forall n: nat :: sizes[i] <= n < hi ==> n >= sizes[0] && Pick(sizes, n) == i
    requires Divides(left, sizes[i], q, r)
    ensures r <= left && r < sizes[i] && Tiles(Row(no, off, sizes[i], i, q), no, off, off + (left - r))
    ensures CarveBlocks(sizes, no, off, left) == Row(no, off, sizes[i], i, q)
              + CarveBlocks(sizes, no, off + (left - r), r)
  {
    CarveRow(sizes, no, off, left, i, hi);
    RowTiles(no, off, sizes[i], i, left);
  }

  /** Greedy carving makes as many blocks of the largest class as fit, then of the middle one out of
      the rest, then of the smallest one; they tile the front of the range, and what they leave is
      smaller than the smallest class.  The order of the two larger classes does not matter. */
  lemma CarvingClosedForm(sizes: seq<nat>, no: nat, off: nat, n: nat)
    requires SizesOk(sizes) && sizes[0] <= sizes[1] && sizes[0] <= sizes[2]
    ensures var (f0, f1, f2) := (sizes[0], sizes[1], sizes[2]);
            var r2 := n % f2; var r1 := r2 % f1; var r0 := r1 % f0;
            && r0 <= r1 <= r2 <= n && r0 < f0
            && CarveBlocks(sizes, no, off, n) ==
               Row(no, off, f2, 2, n / f2) + Row(no, off + (n - r2), f1, 1, r2 / f1)
                   + Row(no, off + (n - r1), f0, 0, r1 / f0)
            && Tiles(CarveBlocks(sizes, no, off, n), no, off, off + (n - r0))
  {
    hide CarveBlocks;
    hide Row;
    hide Tiles;
    var r2 := n % sizes[2];
    var r1 := r2 % sizes[1];
    ThreeRows(sizes, no, off, n, n / sizes[2], r2, r2 / sizes[1], r1, r1 / sizes[0], r1 % sizes[0]);
  }

  lemma ThreeTiles(a: seq<Blk>, b: seq<Blk>, c: seq<Blk>, no: nat, lo: nat, mid: nat, mid': nat, hi: nat)
    requires Tiles(a, no, lo, mid) && Tiles(b, no, mid, mid') && Tiles(c, no, mid', hi)
    ensures a + (b + (c + [])) == a + b + c && Tiles(a + b + c, no, lo, hi)
  {
    TilesAppend(b, c, no, mid, mid', hi);
    TilesAppend(a, b + c, no, lo, mid, hi);
    assert a + (b + c) == a + b + c;
  }

  /** What carving adds to the book: its blocks, each on the front of the list of its class with the
      last one made foremost, and as lost words whatever the blocks do not cover. */
  lemma {:induction false} CarvedBook(sizes: seq<nat>, bk: Book, no: nat, off: nat, left: nat)
    requires SizesOk(sizes) && |bk.lists| == 3
    ensures var bk', bs := BookCarve(sizes, bk, no, off, left), CarveBlocks(sizes, no, off, left);
            && bk'.blocks == bk.blocks + (set b | b in bs)
            && (forall i :: 0 <= i < 3 ==> bk'.lists[i] == Reversed(OfClass(bs, i)) + bk.lists[i])
            && 0 <= bk'.lost - bk.lost <= left && Tiles(bs, no, off, off + left - (bk'.lost - bk.lost))
    decreases left
  {
    hide BookCarve;
    hide CarveBlocks;
    hide Reversed;
    hide OfClass;
    hide Tiles;
    if left < sizes[0] {
      NothingCarved(sizes, bk, no, off, left);
    } else {
      var b := OneCarved(sizes, bk, no, off, left);
      CarvedBook(sizes, BookPush(bk, b), no, off + b.size, left - b.size);
      var rest := CarveBlocks(sizes, no, off + b.size, left - b.size);
      BookPushed(bk, b, rest, BookCarve(sizes, bk, no, off, left), no, left);
    }
  }

  lemma NothingCarved(sizes: seq<nat>, bk: Book, no: nat, off: nat, left: nat)
    requires SizesOk(sizes) && |bk.lists| == 3 && left < sizes[0]
    ensures CarveBlocks(sizes, no, off, left) == []
              && BookCarve(sizes, bk, no, off, left) == bk.(lost := bk.lost + left)
    ensures (set b: Blk | b in []) == {} && Tiles([], no, off, off) && bk.blocks + {} == bk.blocks
    ensures forall i, l: seq<Blk> {:trigger Reversed(OfClass([], i)) + l} :: Reversed(OfClass([], i)) + l == l
  {
    forall i, l: seq<Blk> ensures Reversed(OfClass([], i)) + l == l { assert [] + l == l; }
  }

  lemma OneCarved(sizes: seq<nat>, bk: Book, no: nat, off: nat, left: nat) returns (b: Blk)
    requires SizesOk(sizes) && |bk.lists| == 3 && left >= sizes[0]
    ensures 0 <= b.tag < 3 && b.no == no && b.off == off && 1 <= b.size <= left
    ensures CarveBlocks(sizes, no, off, left) == [b] + CarveBlocks(sizes, no, off + b.size, left - b.size)
    ensures BookCarve(sizes, bk, no, off, left) == BookCarve(sizes, BookPush(bk, b), no, off + b.size, left - b.size)
  {
    var i := Pick(sizes, left);
    b := Blk(no, off, sizes[i], i);
  }

  lemma BookPushed(bk: Book, b: Blk, rest: seq<Blk>, bk': Book, no: nat, left: nat)
    requires |bk.lists| == |bk'.lists| == 3 && 0 <= b.tag < 3 && b.no == no && 1 <= b.size <= left
    requires bk'.blocks == BookPush(bk, b).blocks + (set c | c in rest)
    requires forall i :: 0 <= i < 3 ==> bk'.lists[i] == Reversed(OfClass(rest, i)) + BookPush(bk, b).lists[i]
    requires 0 <= bk'.lost - bk.lost <= left - b.size
    requires Tiles(rest, no, b.off + b.size, b.off + left - (bk'.lost - bk.lost))
    ensures bk'.blocks == bk.blocks + (set c | c in [b] + rest)
    ensures forall i :: 0 <= i < 3 ==> bk'.lists[i] == Reversed(OfClass([b] + rest, i)) + bk.lists[i]
    ensures Tiles([b] + rest, no, b.off, b.off + left - (bk'.lost - bk.lost))
  {
    assert ([b] + rest)[1..] == rest;
    forall k: nat | k < 3 ensures bk'.lists[k] == Reversed(OfClass([b] + rest, k)) + bk.lists[k] {
      ListPushed(rest, b, k, bk.lists[k]);
    }
  }

  lemma ListPushed(rest: seq<Blk>, b: Blk, k: nat, l: seq<Blk>)
    ensures Reversed(OfClass([b] + rest, k)) + l == Reversed(OfClass(rest, k)) + (if b.tag == k then [b] + l else l)
  {
    var r := OfClass(rest, k);
    assert ([b] + rest)[1..] == rest;
    if b.tag == k {
      assert OfClass([b] + rest, k) == [b] + r;
      assert ([b] + r)[1..] == r;
      assert Reversed([b] + r) == Reversed(r) + [b];
      assert Reversed(r) + [b] + l == Reversed(r) + ([b] + l);
    } else {
      assert OfClass([b] + rest, k) == r;
    }
  }

  /** In counts: carving `n` words loses exactly the last remainder. */
  lemma CarvingLoses(sizes: seq<nat>, bk: Book, no: nat, off: nat, n: nat)
    requires SizesOk(sizes) && sizes[0] <= sizes[1] && sizes[0] <= sizes[2] && |bk.lists| == 3
    ensures BookCarve(sizes, bk, no, off, n).lost == bk.lost + n % sizes[2] % sizes[1] % sizes[0]
  {
    hide BookCarve;
    hide CarveBlocks;
    CarvedBook(sizes, bk, no, off, n);
    CarvingClosedForm(sizes, no, off, n);
    var lost := BookCarve(sizes, bk, no, off, n).lost - bk.lost;
    TilesEnd(CarveBlocks(sizes, no, off, n), no, off, off + n - lost, off + (n - n % sizes[2] % sizes[1] % sizes[0]));
  }

  // ---------- what released memory holds ----------

  /** The first cell of some block of the list. */
  ghost predicate StartsBlock(bs: seq<Blk>, k: nat) {
    exists j :: 0 <= j < |bs| && k == 2 * bs[j].off
  }

  /** Cells `lo` to `hi` hold zeroes but for the links of the blocks. */
  ghost predicate ZeroButLinks(cells: seq<Cell>, lo: nat, hi: nat, bs: seq<Blk>) {
    hi <= |cells| && forall k :: lo <= k < hi ==> cells[k] == 0 || StartsBlock(bs, k)
  }

  /** Whatever memory held, a block that goes to a list is zero behind its link. */
  lemma {:induction false} CarveClears(h: Heap, no: nat, off: nat, left: nat, b: Blk, x: nat)
    requires Room(h, no, off, left) && b in CarveBlocks(h.mgr.sizes, no, off, left)
               && 2 * b.off < x < 2 * (b.off + b.size)
    ensures no < |Carve(h, no, off, left).chunks| && b.no == no && off <= b.off && b.off + b.size <= off + left
    ensures x < |Carve(h, no, off, left).chunks[no].cells| && Carve(h, no, off, left).chunks[no].cells[x] == 0
    decreases left
  {
    hide Carve;
    hide Push;
    hide EncodePtr;
    if left >= h.mgr.sizes[0] {
      var i := Pick(h.mgr.sizes, left);
      var size := h.mgr.sizes[i];
      var h1 := Push(h, i, no, off);
      CarveOnce(h, no, off, left, i);
      if b in CarveBlocks(h.mgr.sizes, no, off + size, left - size) {
        CarveClears(h1, no, off + size, left - size, b, x);
      } else {
        PushClears(h, i, no, off, x);
        CarveWrites(h1, no, off + size, left - size, Carve(h1, no, off + size, left - size));
      }
    }
  }

  lemma PushClears(h: Heap, i: nat, no: nat, off: nat, x: nat)
    requires h.mgr.Shaped() && i < 3 && Room(h, no, off, h.mgr.sizes[i]) && 2 * off < x < 2 * (off + h.mgr.sizes[i])
    ensures x < |Push(h, i, no, off).chunks[no].cells| && Push(h, i, no, off).chunks[no].cells[x] == 0
  {
    hide EncodePtr;
  }

  /** Carving zeroed memory leaves it zero but for one link per block. */
  lemma {:induction false} CarvedIsZero(h: Heap, no: nat, off: nat, left: nat)
    requires Room(h, no, off, left) && ZeroButLinks(h.chunks[no].cells, 2 * off, 2 * (off + left), [])
    ensures no < |Carve(h, no, off, left).chunks|
    ensures ZeroButLinks(Carve(h, no, off, left).chunks[no].cells, 2 * off, 2 * (off + left),
              CarveBlocks(h.mgr.sizes, no, off, left))
    decreases left
  {
    hide Carve;
    hide Room;
    hide ZeroButLinks;
    RoomShaped(h, no, off, left);
    if left < h.mgr.sizes[0] {
      CarveDone(h, no, off, left);
    } else {
      var i := Pick(h.mgr.sizes, left);
      var size := h.mgr.sizes[i];
      CarveOnce(h, no, off, left, i);
      var h1 := Push(h, i, no, off);
      PushedIsZero(h, i, no, off, left);
      hide Push;
      CarvedIsZero(h1, no, off + size, left - size);
      CarveWrites(h1, no, off + size, left - size, Carve(h1, no, off + size, left - size));
      JoinZero(h1.chunks[no].cells, Carve(h1, no, off + size, left - size).chunks[no].cells,
               Blk(no, off, size, i), left,
               CarveBlocks(h.mgr.sizes, no, off + size, left - size));
    }
  }

  lemma PushedIsZero(h: Heap, i: nat, no: nat, off: nat, left: nat)
    requires Room(h, no, off, left) && i < 3 && 1 <= h.mgr.sizes[i] <= left
    requires ZeroButLinks(h.chunks[no].cells, 2 * off, 2 * (off + left), [])
    ensures Room(h, no, off, h.mgr.sizes[i])
    ensures var h1, size := Push(h, i, no, off), h.mgr.sizes[i];
            && 2 * (off + left) <= |h1.chunks[no].cells|
            && (forall k :: 2 * off < k < 2 * (off + size) ==> h1.chunks[no].cells[k] == 0)
            && ZeroButLinks(h1.chunks[no].cells, 2 * (off + size), 2 * (off + left), [])
  {
  }

  lemma JoinZero(a: seq<Cell>, c: seq<Cell>, b: Blk, left: nat, rest: seq<Blk>)
    requires 1 <= b.size <= left && SameCellsBut(a, c, 2 * (b.off + b.size), 2 * (b.off + left))
               && 2 * (b.off + left) <= |a|
    requires forall k :: 2 * b.off < k < 2 * (b.off + b.size) ==> a[k] == 0
    requires ZeroButLinks(c, 2 * (b.off + b.size), 2 * (b.off + left), rest)
    ensures ZeroButLinks(c, 2 * b.off, 2 * (b.off + left), [b] + rest)
  {
    var bs := [b] + rest;
    forall k | 2 * b.off <= k < 2 * (b.off + left) ensures c[k] == 0 || StartsBlock(bs, k) {
      if k == 2 * b.off {
        assert k == 2 * bs[0].off;
      } else if k >= 2 * (b.off + b.size) && StartsBlock(rest, k) {
        var j :| 0 <= j < |rest| && k == 2 * rest[j].off;
        assert bs[j + 1] == rest[j];
      }
    }
  }

  /** A released block is zero: all of it when the bump pointer was lowered, and all but the links of
      the free blocks made of it otherwise. */
  lemma FreedIsZero(h: Heap, bk: Book, b: Blk)
    requires Inv(h, bk) && b in bk.blocks && b.tag == LIVE
    ensures h.mgr.Shaped() && b.no < |h.chunks| && Room(h, b.no, b.off, b.size) && b.no < |Free(h, b).chunks|
    ensures ZeroButLinks(Free(h, b).chunks[b.no].cells, 2 * b.off, 2 * (b.off + b.size),
                         if b.off + b.size == h.chunks[b.no].virgin then []
                         else CarveBlocks(h.mgr.sizes, b.no, b.off, b.size))
  {
    LiveFacts(h, bk, b);
    hide Inv;
    ZeroedWrites(h, b);
    var z := Zeroed(h, b);
    assert ZeroButLinks(z.chunks[b.no].cells, 2 * b.off, 2 * (b.off + b.size), []);
    if b.off + b.size != h.chunks[b.no].virgin {
      CarvedIsZero(AddFree(z, b.size), b.no, b.off, b.size);
      hide Carve;
    }
  }
}
