/**
  The chunk pool and the counting allocator of chk/chk_memalign.cpp.

  The system's answers are arguments: `base` is the address of a region that it hands out.  A chunk
  is 16384 bytes (CHK_MAX_CHKSIZE).
 */
module ChkMemalign {
  import opened ChkBase

  // ---------- regions cut into chunks ----------

  /** The chunks of a region, in the order in which `refill_chunks` lists them. */
  function Slots(base: int, n: nat): (r: seq<int>)
    ensures |r| == n
  {
    if n == 0 then [] else Slots(base, n - 1) + [base + 16384 * (n - 1)]
  }

  predicate Clear(a: int, b: int) {
    a + 16384 <= b || b + 16384 <= a
  }

  /** The chunks do not overlap. */
  ghost predicate Spaced(s: set<int>) {
    forall a, b {:trigger Clear(a, b)} :: a in s && b in s && a != b ==> Clear(a, b)
  }

  ghost function Members(s: seq<int>): set<int> {
    set x | x in s
  }

  /** A region of `n` chunks at `base` overlaps none of the chunks. */
  ghost predicate Untouched(s: set<int>, base: int, n: nat) {
    forall a :: a in s ==> a + 16384 <= base || base + 16384 * n <= a
  }

  lemma {:induction false} SlotsAt(base: int, n: nat, i: nat)
    requires i < n
    ensures Slots(base, n)[i] == base + 16384 * i
  {
    if i < n - 1 { SlotsAt(base, n - 1, i); }
  }

  lemma SlotAt(base: int, n: nat, x: int) returns (i: nat)
    requires x in Members(Slots(base, n))
    ensures i < n && x == base + 16384 * i
  {
    i :| i < n && x == Slots(base, n)[i];
    SlotsAt(base, n, i);
  }

  lemma SlotsDiffer(base: int, n: nat)
    ensures NoRepeat(Slots(base, n)) && |Members(Slots(base, n))| == n
  {
    forall i, j | 0 <= i < j < n ensures Slots(base, n)[i] != Slots(base, n)[j] {
      SlotsAt(base, n, i);
      SlotsAt(base, n, j);
    }
    MembersCount(Slots(base, n));
  }

  lemma SlotClear(s: set<int>, base: int, n: nat, x: int, y: int)
    requires Spaced(s) && Untouched(s, base, n) && x in s + Members(Slots(base, n)) && y in Members(Slots(base, n))
               && x != y
    ensures Clear(x, y) && Clear(y, x) && y !in s
  {
    var j := SlotAt(base, n, y);
    if x !in s { var i := SlotAt(base, n, x); }
  }

  /** Cutting up an untouched region gives as many more chunks as asked for, and no two overlap. */
  lemma SlotsApart(s: set<int>, base: int, n: nat)
    requires Spaced(s) && Untouched(s, base, n)
    ensures Spaced(s + Members(Slots(base, n))) && s !! Members(Slots(base, n))
    ensures |s + Members(Slots(base, n))| == |s| + n
  {
    var added := Members(Slots(base, n));
    forall x, y | x in s + added && y in s + added && x != y ensures Clear(x, y) {
      if y in added { SlotClear(s, base, n, x, y); } else if x in added { SlotClear(s, base, n, y, x); }
    }
    forall y | y in added ensures y !in s { var j := SlotAt(base, n, y); }
    SlotsDiffer(base, n);
    assert s * added == {};
  }

  /** What a refill does to the free chunks. */
  lemma RefillAdds(free: seq<int>, out: set<int>, obtained: set<int>, base: int, n: nat)
    requires Spaced(obtained) && Untouched(obtained, base, n)
    requires Shared(free, out, obtained)
    ensures var free', obtained' := free + Slots(base, n), obtained + Members(Slots(base, n));
            && Shared(free', out, obtained')
            && Spaced(obtained') && |obtained'| == |obtained| + n
  {
    SlotsApart(obtained, base, n);
    SlotsDiffer(base, n);
    NoRepeatAppend(free, Slots(base, n));
    assert Members(free + Slots(base, n)) == Members(free) + Members(Slots(base, n));
  }

  lemma NoRepeatAppend(a: seq<int>, b: seq<int>)
    requires NoRepeat(a) && NoRepeat(b) && Members(a) !! Members(b)
    ensures NoRepeat(a + b)
  {
    forall i, j | 0 <= i < j < |a + b| ensures (a + b)[i] != (a + b)[j] {
      if i < |a| <= j { assert a[i] in Members(a) && b[j - |a|] in Members(b); }
    }
  }

  lemma {:induction false} MembersCount(s: seq<int>)
    requires NoRepeat(s)
    ensures |Members(s)| == |s|
  {
    if s != [] {
      var t := s[..|s| - 1];
      MembersCount(t);
      assert s == t + [s[|s| - 1]];
      assert Members(s) == Members(t) + {s[|s| - 1]};
    }
  }

  lemma OneMore(k: int, n: int)
    ensures (k + 1) * n == k * n + n
  {
  }

  /** Every chunk obtained is free, once, or out. */
  ghost predicate Shared(free: seq<int>, out: set<int>, obtained: set<int>) {
    NoRepeat(free) && Members(free) !! out && Members(free) + out == obtained
  }

  /** Handing out the last chunk of the free list. */
  lemma HandedOut(free: seq<int>, out: set<int>, obtained: set<int>)
    requires Shared(free, out, obtained) && free != []
    ensures var x := free[|free| - 1];
            x in obtained && x !in out && |out + {x}| == |out| + 1 && Shared(free[..|free| - 1], out + {x}, obtained)
  {
    var t, x := free[..|free| - 1], free[|free| - 1];
    assert free == t + [x];
    assert Members(free) == Members(t) + {x};
    assert x !in Members(t);
  }

  lemma TakenBack(free: seq<int>, out: set<int>, obtained: set<int>, x: int)
    requires Shared(free, out, obtained) && x in out
    ensures Shared(free + [x], out - {x}, obtained) && |out - {x}| == |out| - 1
  {
    assert Members(free + [x]) == Members(free) + {x};
  }

  // ---------- the pool ----------

  class ChkMemalign {
    var confChunks: int
    var usedChunks: int
    var freeChunks: seq<int>
    ghost var out: set<int>        // handed out and not given back
    ghost var obtained: set<int>   // everything ever got from the system
    ghost var refills: nat

    /** Every chunk got from the system is either free, once, or out; chunks never overlap; and their
        number is the configured one and a quarter of it for every refill. */
    ghost predicate Valid()
      reads this
    {
      && (confChunks == 0 || confChunks >= 8)
      && Shared(freeChunks, out, obtained)
      && Spaced(obtained) && usedChunks == |out|
      && |obtained| == confChunks + refills * (confChunks / 4)
    }

    constructor ()
      ensures Valid() && confChunks == 0 && freeChunks == [] && out == {} && obtained == {}
    {
      confChunks, usedChunks, freeChunks := 0, 0, [];
      out, obtained, refills := {}, {}, 0;
    }

    method Init(conf: int, base: int)
      requires Valid() && conf >= 8
      modifies this
      ensures Valid()
      ensures old(confChunks) > 0 ==> unchanged(this)
      ensures old(confChunks) == 0 ==>
                confChunks == conf && usedChunks == 0 && freeChunks == Slots(base, conf) && out == {} && refills == 0
    {
      if confChunks > 0 {
        return;
      }
      assert obtained == {} && freeChunks == [] by { MembersCount(freeChunks); }
      confChunks := conf;
      usedChunks := 0;
      RefillChunks(base, conf);
      refills := 0;
    }

    method RefillChunks(base: int, n: nat)
      requires Spaced(obtained) && Untouched(obtained, base, n)
      requires Shared(freeChunks, out, obtained)
      modifies `freeChunks, `obtained
      ensures freeChunks == old(freeChunks) + Slots(base, n) && obtained == old(obtained) + Members(Slots(base, n))
      ensures Shared(freeChunks, out, obtained)
      ensures Spaced(obtained) && |obtained| == |old(obtained)| + n
    {
      var initMem := base;
      for i := 0 to n
        invariant initMem == base + 16384 * i
        invariant freeChunks == old(freeChunks) + Slots(base, i) && obtained == old(obtained)
      {
        freeChunks := freeChunks + [initMem];
        initMem := initMem + 16384;
      }
      RefillAdds(old(freeChunks), out, obtained, base, n);
      obtained := obtained + Members(Slots(base, n));
    }

    /** The refill of `alloc`: a quarter of the configured chunks, at least two. */
    method RefillQuarter(base: int)
      requires Valid() && confChunks > 0 && freeChunks == [] && Untouched(obtained, base, confChunks / 4)
      modifies `freeChunks, `obtained, `refills
      ensures Valid() && refills == old(refills) + 1 && freeChunks != []
      ensures freeChunks == Slots(base, confChunks / 4)
                && obtained == old(obtained) + Members(Slots(base, confChunks / 4))
    {
      hide Shared;
      hide Spaced;
      hide Slots;
      hide Members;
      RefillChunks(base, confChunks / 4);
      OneMore(refills, confChunks / 4);
      refills := refills + 1;
    }

    /** Hands out the chunk freed last, after a refill if none is free: a refill always gives some. */
    method Alloc(base: int) returns (chunk: int)
      requires Valid() && confChunks > 0
      requires freeChunks == [] ==> Untouched(obtained, base, confChunks / 4)
      modifies this
      ensures Valid() && confChunks == old(confChunks)
      ensures chunk in obtained && chunk !in old(out) && out == old(out) + {chunk} && usedChunks == old(usedChunks) + 1
      ensures var was := if old(freeChunks) == [] then Slots(base, confChunks / 4) else old(freeChunks);
              was != [] && chunk == was[|was| - 1] && freeChunks == was[..|was| - 1]
      ensures refills == old(refills) + (if old(freeChunks) == [] then 1 else 0)
      ensures obtained == old(obtained) + (if old(freeChunks) == [] then Members(Slots(base, confChunks / 4)) else {})
    {
      hide Shared;
      hide Spaced;
      hide Slots;
      hide Members;
      hide Valid;
      if freeChunks == [] {
        RefillQuarter(base);
      }
      chunk := TakeLast();
    }

    method TakeLast() returns (chunk: int)
      requires Valid() && freeChunks != []
      modifies `freeChunks, `usedChunks, `out
      ensures Valid() && freeChunks == old(freeChunks[..|freeChunks| - 1])
      ensures chunk == old(freeChunks[|freeChunks| - 1]) && chunk in obtained && chunk !in old(out)
      ensures out == old(out) + {chunk} && usedChunks == old(usedChunks) + 1
    {
      hide Shared;
      hide Spaced;
      chunk := freeChunks[|freeChunks| - 1];
      HandedOut(freeChunks, out, obtained);
      freeChunks := freeChunks[..|freeChunks| - 1];
      usedChunks := usedChunks + 1;
      out := out + {chunk};
    }

    /** Takes back a chunk that is out. */
    method Dellocate(chunk: int)
      requires Valid() && chunk in out
      modifies this
      ensures Valid() && confChunks == old(confChunks) && refills == old(refills) && obtained == old(obtained)
      ensures out == old(out) - {chunk} && freeChunks == old(freeChunks) + [chunk] && usedChunks == old(usedChunks) - 1
    {
      TakenBack(freeChunks, out, obtained, chunk);
      freeChunks := freeChunks + [chunk];
      usedChunks := usedChunks - 1;
      out := out - {chunk};
    }
  }

  /** Used and free chunks together are those configured and a quarter of them for every refill. */
  lemma Balance(p: ChkMemalign)
    requires p.Valid()
    ensures p.usedChunks + |p.freeChunks| == p.confChunks + p.refills * (p.confChunks / 4)
  {
    MembersCount(p.freeChunks);
  }

  // ---------- the counting allocator ----------

  const TWO_TO_THE_64: int := 0x1_0000_0000_0000_0000

  type Size = x: nat | x < TWO_TO_THE_64

  ghost function Total(blocks: map<int, nat>): int {
    if blocks == map[] then 0
    else
      SomeBlock(blocks);
      var p :| p in blocks;
      blocks[p] + Total(blocks - {p})
  }

  lemma SomeBlock(blocks: map<int, nat>)
    requires blocks != map[]
    ensures exists p :: p in blocks
  {
    if forall p :: p !in blocks { assert false; }
  }

  lemma {:induction false} TotalWithout(blocks: map<int, nat>, p: int)
    requires p in blocks
    ensures Total(blocks) == blocks[p] + Total(blocks - {p})
    decreases |blocks|
  {
    var q :| q in blocks && Total(blocks) == blocks[q] + Total(blocks - {q});
    if p != q {
      TotalWithout(blocks - {q}, p);
      TotalWithout(blocks - {p}, q);
      assert blocks - {q} - {p} == blocks - {p} - {q};
    }
  }

  lemma TotalWith(blocks: map<int, nat>, p: int, size: nat)
    requires p !in blocks
    ensures Total(blocks[p := size]) == Total(blocks) + size
  {
    TotalWithout(blocks[p := size], p);
    assert blocks[p := size] - {p} == blocks;
  }

  /** Adding to both sides changes nothing about their being the same in 64 bits. */
  lemma SameShift(total: int, count: Size, d: int)
    ensures count == total % TWO_TO_THE_64 <==> (count + d) % TWO_TO_THE_64 == (total + d) % TWO_TO_THE_64
  {
  }

  lemma ShiftedIff(a: int, d: int)
    requires -TWO_TO_THE_64 < d < TWO_TO_THE_64
    ensures (a + d) % TWO_TO_THE_64 == a % TWO_TO_THE_64 <==> d == 0
  {
  }

  class ChkDefaultMemAlloc {
    var allocSize: Size
    const reallocFix: bool
    ghost var blocks: map<int, nat>

    /** The count is that of the bytes in outstanding blocks. */
    ghost predicate Exact()
      reads this
    {
      allocSize == Total(blocks) % TWO_TO_THE_64
    }

    constructor (fix: bool)
      ensures Exact() && blocks == map[] && reallocFix == fix
    {
      allocSize, reallocFix, blocks := 0, fix, map[];
    }

    method Alloc(size: nat, granted: int) returns (p: int)
      requires granted !in blocks
      modifies this
      ensures p == granted && blocks == old(blocks)[p := size]
      ensures Exact() <==> old(Exact())
    {
      TotalWith(blocks, granted, size);
      SameShift(Total(blocks), allocSize, size);
      p := granted;
      blocks := blocks[p := size];
      allocSize := (allocSize + size) % TWO_TO_THE_64;
    }

    method Dellocate(p: int, size: nat)
      requires p in blocks && blocks[p] == size
      modifies this
      ensures blocks == old(blocks) - {p}
      ensures Exact() <==> old(Exact())
    {
      TotalWithout(blocks, p);
      SameShift(Total(blocks), allocSize, 0 - size);
      blocks := blocks - {p};
      allocSize := (allocSize - size) % TWO_TO_THE_64;
    }

    /** The new size is counted even when plain `realloc` fails and the old block stays: the count
        stays exact if and only if the call succeeds or the sizes are the same. */
    method Reallocate(p: int, orgSize: Size, size: Size, granted: Option<int>) returns (r: Option<int>)
      requires Exact() && p in blocks && blocks[p] == orgSize && (granted.Some? ==> granted.value !in blocks)
      requires reallocFix && size > 0 ==> granted.Some?
      modifies this
      ensures r == (if size > 0 then granted else None)
      ensures blocks == if size == 0 then old(blocks) - {p}
                        else if granted.Some? then (old(blocks) - {p})[granted.value := size] else old(blocks)
      ensures Exact() <==> granted.Some? || size == 0 || size == orgSize
    {
      TotalWithout(blocks, p);
      SameShift(Total(blocks), allocSize, size - orgSize);
      if size == 0 {
        r := None;
        blocks := blocks - {p};
      } else {
        r := granted;
        if r.Some? {
          TotalWith(blocks - {p}, r.value, size);
          blocks := (blocks - {p})[r.value := size];
        } else {
          ShiftedIff(Total(blocks), size - orgSize);
        }
      }
      allocSize := (allocSize + size - orgSize) % TWO_TO_THE_64;
    }
  }
}
