/**
  Units, handles and the bit layout of chk/chk_base.h and chk/chk_mem_mgr.h.

  Memory is a sequence of 4-byte cells, the unit of a handle's offset.  Sizes count 8-byte words
  (two cells), capacities count kilobytes (256 cells).
 */
module ChkBase {

  datatype Option<+T> = None | Some(value: T)

  type Cell = x: nat | x < 0x1_0000_0000

  const NULL_NO: nat := 2047       // CHK_MAX_CHK_NUM: bound on chunk numbers and the null handle's number
  const MAX_WORDS: nat := 511      // CHK_MAX_CONTINUS_LEN
  const MAX_CAP: nat := 16         // CHK_MAX_CHKSIZE
  const HEADER: nat := 2           // sizeof(ChkMetadata)
  const MANAGER: nat := 3          // sizeof(ChkMemMgr)
  const CHK_MAGIC: Cell := 0x128fcd6e
  const CHK_PADDING: Cell := 0x208f2d75

  /** Two bit fields side by side, the low one `a` in a width of `m` values. */
  function Pack(a: nat, m: nat, b: nat): nat {
    a + m * b
  }

  lemma Unpack(a: nat, m: nat, b: nat)
    requires a < m
    ensures Pack(a, m, b) % m == a && Pack(a, m, b) / m == b
  {
    var c := Pack(a, m, b);
    var d := c / m - b;
    assert m * d == a - c % m by { assert m * (c / m) + c % m == c; assert m * d == m * (c / m) - m * b; }
    AtLeast(m, d);
    AtLeast(m, -d);
    assert m * -d == -(m * d);
  }

  lemma AtLeast(m: int, d: int)
    requires m >= 0
    ensures d >= 1 ==> m * d >= m
  {
    if d >= 1 {
      assert m * d == m + m * (d - 1);
      assert m * (d - 1) >= 0;
    }
  }

  lemma Repack(c: nat, m: nat)
    requires m > 0
    ensures Pack(c % m, m, c / m) == c
  {
  }

  /** The words and the cells of `cap` kilobytes. */
  function WordsIn(cap: nat): nat {
    128 * cap
  }

  function CellsIn(cap: nat): nat {
    256 * cap
  }

  // ---------- handles ----------

  datatype Ptr = Ptr(no: nat, off: nat, size: nat) {
    predicate IsNull() {
      no == NULL_NO
    }

    /** The handle fits its 11, 12 and 9 bits. */
    predicate Fits() {
      no < 2048 && off < 4096 && size < 512
    }
  }

  type ChkPtr = p: Ptr | p.Fits() witness Ptr(0, 0, 0)

  /** The null handle: only the chunk number tells it from any other. */
  const CHK_NULL: ChkPtr := Ptr(NULL_NO, 0, 0)

  function EncodePtr(p: ChkPtr): Cell {
    Pack(p.no, 0x800, Pack(p.off, 0x1000, p.size))
  }

  function DecodePtr(c: Cell): ChkPtr {
    Ptr(c % 0x800, c / 0x800 % 0x1000, c / 0x800 / 0x1000)
  }

  lemma PtrRoundTrip(p: ChkPtr, c: Cell)
    ensures DecodePtr(EncodePtr(p)) == p
    ensures EncodePtr(DecodePtr(c)) == c
  {
    Unpack(p.no, 0x800, Pack(p.off, 0x1000, p.size));
    Unpack(p.off, 0x1000, p.size);
    Repack(c, 0x800);
    Repack(c / 0x800, 0x1000);
  }

  /** The bits of a handle, low ones first: 11 for the chunk, 12 for the offset, 9 for the size. */
  lemma PtrBits(p: ChkPtr)
    ensures var c := EncodePtr(p); c % 0x800 == p.no && c / 0x800 % 0x1000 == p.off && c / 0x80_0000 == p.size
  {
    PtrRoundTrip(p, 0);
    var c := EncodePtr(p);
    assert c / 0x800 / 0x1000 == c / 0x80_0000;
  }

  // ---------- chunk headers ----------

  datatype Header = Header(no: nat, used: nat, virgin: nat, cap: nat, allocCap: nat) {
    /** The header fits the widths of its bit fields. */
    predicate Fits() {
      no < 0x800 && used < 0x1000 && virgin < 0x1000 && cap < 0x20 && allocCap < 0x1_0000
    }
  }

  function EncodeHeader(h: Header): (cells: seq<Cell>)
    requires h.Fits()
    ensures |cells| == 4
  {
    [CHK_MAGIC, Pack(h.cap, 0x100, Pack(h.used, 0x1000, h.virgin)), Pack(h.no, 0x800, h.allocCap), CHK_PADDING]
  }

  function DecodeHeader(cells: seq<Cell>): (h: Header)
    requires |cells| == 4
    ensures h.Fits()
  {
    Header(cells[2] % 0x800, cells[1] / 0x100 % 0x1000, cells[1] / 0x100 / 0x1000, cells[1] % 0x100 % 0x20,
           cells[2] / 0x800 % 0x1_0000)
  }

  lemma HeaderRoundTrip(h: Header)
    requires h.Fits()
    ensures DecodeHeader(EncodeHeader(h)) == h
  {
    Unpack(h.cap, 0x100, Pack(h.used, 0x1000, h.virgin));
    Unpack(h.used, 0x1000, h.virgin);
    Unpack(h.no, 0x800, h.allocCap);
  }

  /** The bits of a header: magic; 8, 12 and 12 bits; 11 and 16 bits; padding. */
  lemma HeaderBits(h: Header)
    requires h.Fits()
    ensures var cells := EncodeHeader(h);
            && cells[0] == CHK_MAGIC && cells[3] == CHK_PADDING
            && cells[1] % 0x100 == h.cap && cells[1] / 0x100 % 0x1000 == h.used && cells[1] / 0x10_0000 == h.virgin
            && cells[2] % 0x800 == h.no && cells[2] / 0x800 == h.allocCap
  {
    Unpack(h.cap, 0x100, Pack(h.used, 0x1000, h.virgin));
    Unpack(h.used, 0x1000, h.virgin);
    Unpack(h.no, 0x800, h.allocCap);
    var c := EncodeHeader(h)[1];
    assert c / 0x100 / 0x1000 == c / 0x10_0000;
  }

  // ---------- the manager ----------

  predicate SizesOk(sizes: seq<nat>) {
    |sizes| == 3 && 1 <= sizes[0] && 1 <= sizes[1] && 1 <= sizes[2]
  }

  datatype Mgr = Mgr(totalUsed: int, totalFree: int, totalCap: int, sizes: seq<nat>, heads: seq<ChkPtr>) {
    /** Three size classes, each positive and within its 4, 5 or 7 bits, and three list heads. */
    predicate Shaped() {
      |heads| == 3 && SizesOk(sizes) && sizes[0] < 16 && sizes[1] < 32 && sizes[2] < 128
    }

    /** The counters fit their 32 and 16 bits. */
    predicate Fits() {
      && Shaped()
      && 0 <= totalUsed < 0x1_0000_0000 && 0 <= totalFree < 0x1_0000_0000 && 0 <= totalCap < 0x1_0000
    }
  }

  function EncodeMgr(m: Mgr): (cells: seq<Cell>)
    requires m.Fits()
    ensures |cells| == 6
  {
    [m.totalUsed, m.totalFree,
     Pack(m.totalCap, 0x1_0000, Pack(m.sizes[0], 0x10, Pack(m.sizes[1], 0x20, m.sizes[2]))),
     EncodePtr(m.heads[0]), EncodePtr(m.heads[1]), EncodePtr(m.heads[2])]
  }

  function DecodeMgr(cells: seq<Cell>): (m: Mgr)
    requires |cells| == 6
    ensures |m.sizes| == 3 && |m.heads| == 3
  {
    var c: int := cells[2];
    Mgr(cells[0], cells[1], c % 0x1_0000, [c / 0x1_0000 % 0x10, c / 0x1_0000 / 0x10 % 0x20, c / 0x1_0000 / 0x10 / 0x20],
        [DecodePtr(cells[3]), DecodePtr(cells[4]), DecodePtr(cells[5])])
  }

  lemma MgrRoundTrip(m: Mgr)
    requires m.Fits()
    ensures DecodeMgr(EncodeMgr(m)) == m
  {
    var high := Pack(m.sizes[1], 0x20, m.sizes[2]);
    Unpack(m.totalCap, 0x1_0000, Pack(m.sizes[0], 0x10, high));
    Unpack(m.sizes[0], 0x10, high);
    Unpack(m.sizes[1], 0x20, m.sizes[2]);
    PtrRoundTrip(m.heads[0], 0);
    PtrRoundTrip(m.heads[1], 0);
    PtrRoundTrip(m.heads[2], 0);
    assert DecodeMgr(EncodeMgr(m)).sizes == m.sizes;
    assert DecodeMgr(EncodeMgr(m)).heads == m.heads;
  }

  /** The bits of the manager: two counters; 16, 4, 5 and 7 bits; the three list heads. */
  lemma MgrBits(m: Mgr)
    requires m.Fits()
    ensures var cells := EncodeMgr(m);
            && cells[0] == m.totalUsed && cells[1] == m.totalFree
            && cells[2] % 0x1_0000 == m.totalCap && cells[2] / 0x1_0000 % 0x10 == m.sizes[0]
            && cells[2] / 0x10_0000 % 0x20 == m.sizes[1] && cells[2] / 0x200_0000 == m.sizes[2]
            && forall i :: 0 <= i < 3 ==> DecodePtr(cells[3 + i]) == m.heads[i]
  {
    hide EncodePtr;
    hide DecodePtr;
    SizeBits(m.totalCap, m.sizes[0], m.sizes[1], m.sizes[2]);
    hide Pack;
    PtrRoundTrip(m.heads[0], 0);
    PtrRoundTrip(m.heads[1], 0);
    PtrRoundTrip(m.heads[2], 0);
  }

  lemma SizeBits(cap: nat, f0: nat, f1: nat, f2: nat)
    requires cap < 0x1_0000 && f0 < 0x10 && f1 < 0x20
    ensures var c := Pack(cap, 0x1_0000, Pack(f0, 0x10, Pack(f1, 0x20, f2)));
            c % 0x1_0000 == cap && c / 0x1_0000 % 0x10 == f0 && c / 0x10_0000 % 0x20 == f1 && c / 0x200_0000 == f2
  {
    var a := Pack(f0, 0x10, Pack(f1, 0x20, f2));
    Unpack(cap, 0x1_0000, a);
    Unpack(f0, 0x10, Pack(f1, 0x20, f2));
    Unpack(f1, 0x20, f2);
    var c := Pack(cap, 0x1_0000, a);
    hide Pack;
    assert c / 0x1_0000 == a;
    assert c / 0x1_0000 / 0x10 == c / 0x10_0000;
    assert c / 0x10_0000 / 0x20 == c / 0x200_0000;
  }

  // ---------- sums ----------

  function Sum(s: seq<int>): int {
    if s == [] then 0 else Sum(s[..|s| - 1]) + s[|s| - 1]
  }

  lemma {:induction false} SumUpdate(s: seq<int>, i: nat, v: int)
    requires i < |s|
    ensures Sum(s[i := v]) == Sum(s) - s[i] + v
  {
    var n := |s| - 1;
    if i < n {
      assert s[i := v][..n] == s[..n][i := v];
      SumUpdate(s[..n], i, v);
    } else {
      assert s[i := v][..n] == s[..n];
    }
  }

  lemma SumAppend(s: seq<int>, v: int)
    ensures Sum(s + [v]) == Sum(s) + v
  {
    assert (s + [v])[..|s|] == s;
  }

  ghost predicate NoRepeat<T>(s: seq<T>) {
    forall i, j :: 0 <= i < j < |s| ==> s[i] != s[j]
  }

  function CeilDiv(a: nat, b: nat): nat
    requires b > 0
  {
    (a + b - 1) / b
  }
}
