/**
  Chunks as objects over memory: ChkMetadata of chk/chk_base.cpp and the allocation functions it calls.
  A chunk views the memory of a block from its base on; several chunks can view one block.
 */
module ChkMemory {
  import opened ChkBase
  import opened ChkHeap
  import opened ChkAlloc
  import opened ChkImage
  import opened ChkIndexSpec

  // ---------- the system's blocks ----------

  /** The functions behind `_allocate`, `_reallocate` and `_dellocate`, with a ledger of what is out.
      Whether a block is granted is for the caller to say. */
  class ChkSystem {
    const pooled: bool
    var ledger: Sys

    constructor (pooled: bool)
      ensures this.pooled == pooled && ledger == Sys(0, map[], 0)
    {
      this.pooled, ledger := pooled, Sys(0, map[], 0);
    }

    /** A zeroed block; the pool's chunks are full-size whatever is asked for. */
    method Allocate(kind: Kind, cap: nat) returns (mem: array<Cell>, at: Addr)
      modifies this
      ensures fresh(mem)
                && mem.Length == CellsIn(if pooled && kind == ChunkBlock && cap <= MAX_CAP then MAX_CAP else cap)
      ensures forall k :: 0 <= k < mem.Length ==> mem[k] == 0
      ensures ledger == Obtain(old(ledger), kind) && at == Addr(old(ledger).next, 0)
    {
      mem := new Cell[CellsIn(if pooled && kind == ChunkBlock && cap <= MAX_CAP then MAX_CAP else cap)](_ => 0);
      at := Addr(ledger.next, 0);
      ledger := Obtain(ledger, kind);
    }

    /** A block whose contents are kept elsewhere. */
    method Reserve(kind: Kind) returns (block: nat)
      modifies this
      ensures ledger == Obtain(old(ledger), kind) && block == old(ledger).next
    {
      block := ledger.next;
      ledger := Obtain(ledger, kind);
    }

    method Dellocate(at: Addr, kind: Kind)
      modifies this
      ensures ledger == Release(old(ledger), at, kind)
    {
      ledger := Release(ledger, at, kind);
    }
  }

  /** What is left of a chunk that gives back its spare kilobytes. */
  lemma ShrunkIs(c: Chunk, i: nat, d: Chunk)
    requires Sane(c, i)
    requires var cap := c.cap - Excess(c);
             && d == c.(cap := cap, allocCap := cap, at := d.at, cells := d.cells) && 0 <= Excess(c) <= c.cap
             && if Excess(c) < cap
                then d.cells == c.cells[..CellsIn(cap)] || d.cells == c.cells[..CellsIn(cap)] + Zeros(0)
                else d.cells == c.cells[..2 * c.virgin] + Zeros(CellsIn(cap) - 2 * c.virgin)
    ensures d == ShrinkChunk(c, d.at)
  {
  }

  // ---------- chunks ----------

  class ChkMetadata {
    const mem: array<Cell>
    const at: Addr
    var no: nat
    var used: int
    var virgin: nat
    var cap: nat
    var allocCap: nat

    function Start(): nat {
      CellsIn(at.base)
    }

    function End(): nat
      reads this
    {
      Start() + CellsIn(cap)
    }

    predicate InMem()
      reads this
    {
      End() <= mem.Length
    }

    function State(): (c: Chunk)
      requires InMem()
      reads this, mem
      ensures |c.cells| == CellsIn(cap)
    {
      Chunk(no, used, virgin, cap, allocCap, mem[Start()..End()], at)
    }

    /** A chunk whose header has been written. */
    constructor (mem: array<Cell>, at: Addr, no: nat, used: int, virgin: nat, cap: nat, allocCap: nat)
      ensures this.mem == mem && this.at == at
      ensures this.no == no && this.used == used && this.virgin == virgin && this.cap == cap
                && this.allocCap == allocCap
    {
      this.mem, this.at := mem, at;
      this.no, this.used, this.virgin, this.cap, this.allocCap := no, used, virgin, cap, allocCap;
    }

    lemma CellIs(k: nat)
      requires InMem() && k < CellsIn(cap)
      ensures State().cells[k] == mem[Start() + k]
    {
    }

    /** `can_enlarge` */
    predicate MayGrow()
      reads this
    {
      allocCap != 0 && cap < MAX_CAP
    }

    /** `ChkMetadata::alloc`: takes words off the untouched part of the chunk. */
    method Alloc(bytes: nat) returns (p: Ptr)
      modifies `virgin
      ensures var words := CeilDiv(bytes, 8);
              if words <= MAX_WORDS && old(virgin) + words <= WordsIn(cap)
              then p == Ptr(no, 2 * old(virgin), words) && virgin == old(virgin) + words
              else p == CHK_NULL && virgin == old(virgin)
    {
      p := CHK_NULL;
      var words := CeilDiv(bytes, 8);
      if words > MAX_WORDS {
        return;
      }
      if virgin + words > WordsIn(cap) {
        return;
      }
      p := Ptr(no, 2 * virgin, words);
      virgin := virgin + words;
    }

    /** `ChkMetadata::free`: takes the block back if it is the topmost one. */
    method Free(p: Ptr) returns (taken: bool)
      requires p.no == no && p.size != 0
      modifies `virgin
      ensures taken <==> p.off / 2 + p.size == old(virgin)
      ensures virgin == if taken then p.off / 2 else old(virgin)
    {
      if p.off / 2 + p.size == virgin {
        virgin := virgin - p.size;
        return true;
      }
      return false;
    }

    /** Moves the chunk to a new block of `newCap` kilobytes, of which the first `n` cells are copied. */
    method MoveTo(sys: ChkSystem, newCap: nat, n: nat) returns (r: ChkMetadata)
      requires InMem() && n <= CellsIn(cap) && n <= CellsIn(newCap) && newCap <= MAX_CAP
      modifies sys
      ensures fresh(r) && fresh(r.mem) && r.InMem() && r.at.base == 0
                && (sys.pooled ==> r.mem.Length == CellsIn(MAX_CAP))
      ensures sys.ledger == Release(Obtain(old(sys.ledger), ChunkBlock), at, ChunkBlock)
                && r.at == Addr(old(sys.ledger).next, 0)
      ensures r.State() == State().(cap := newCap, allocCap := newCap, at := r.at,
                                    cells := State().cells[..n] + Zeros(CellsIn(newCap) - n))
    {
      var m, a := sys.Allocate(ChunkBlock, newCap);
      forall k | 0 <= k < n {
        m[k] := mem[Start() + k];
      }
      sys.Dellocate(at, ChunkBlock);
      r := new ChkMetadata(m, a, no, used, virgin, newCap, newCap);
      ghost var image, copy := State().cells[..n] + Zeros(CellsIn(newCap) - n), r.State().cells;
      forall k | 0 <= k < CellsIn(newCap) ensures copy[k] == image[k] {
        r.CellIs(k);
        if k < n { CellIs(k); }
      }
    }

    /** `enlarge` of a chunk that can be: to full size, in a new block or in place. */
    method Enlarge(sys: ChkSystem, grant: bool) returns (r: ChkMetadata?, ghost tail: seq<Cell>)
      requires InMem() && cap <= MAX_CAP
      requires sys.pooled ==> at.base == 0 && mem.Length == CellsIn(MAX_CAP)
      modifies this, sys
      ensures r == null <==> !old(MayGrow()) || (!grant && !sys.pooled)
      ensures r == null ==> unchanged(this) && unchanged(sys)
      ensures r != null ==>
                && (if sys.pooled then r == this else fresh(r) && fresh(r.mem) && unchanged(this))
                && r.InMem() && (sys.pooled ==> r.mem == mem)
                && (sys.ledger, r.at) == Moved(sys.pooled, old(sys.ledger), at)
                && |tail| == CellsIn(MAX_CAP - old(cap)) && (!sys.pooled ==> tail == Zeros(|tail|))
                && r.State() == EnlargeChunk(old(State()), r.at, tail)
    {
      tail := [];
      if !MayGrow() {
        return null, tail;
      }
      if sys.pooled {
        tail := mem[CellsIn(cap)..CellsIn(MAX_CAP)];
        r := this;
        r.cap := MAX_CAP;
        r.allocCap := MAX_CAP;
      } else {
        if !grant {
          return null, tail;
        }
        r := MoveTo(sys, MAX_CAP, CellsIn(cap));
        tail := Zeros(CellsIn(MAX_CAP - cap));
      }
      assert r.State().cells == old(State()).cells + tail;
    }

    /** Shrinks the chunk where it is. */
    method CutTo(newCap: nat)
      requires InMem() && newCap <= cap
      modifies `cap, `allocCap
      ensures InMem()
      ensures State()
                == old(State()).(cap := newCap, allocCap := newCap, cells := old(State()).cells[..CellsIn(newCap)])
    {
      ghost var c := State();
      cap := newCap;
      allocCap := newCap;
      forall k | 0 <= k < CellsIn(newCap) ensures State().cells[k] == c.cells[..CellsIn(newCap)][k] {}
    }

    lemma StateFields()
      requires InMem()
      ensures var c := State(); c.no == no && c.virgin == virgin && c.cap == cap && c.at == at
    {
    }

    /** `shrink`: gives the whole kilobytes above the bump pointer back, by reallocation when that is
        less than what stays, else by a new block and a copy up to the bump pointer. */
    method Shrink(sys: ChkSystem, grant: bool) returns (r: ChkMetadata?, freed: int)
      requires InMem() && Sane(State(), no)
      requires sys.pooled ==> at.base == 0 && mem.Length == CellsIn(MAX_CAP)
      modifies this, sys
      ensures var c := old(State()); 0 <= Excess(c) <= c.cap
      ensures var c := old(State());
              match ShrinkPlace(sys.pooled, old(sys.ledger), c, grant)
              case None => r == null && unchanged(this) && unchanged(sys)
              case Some((s, to)) =>
                && r != null && freed == Excess(c) && r.InMem() && sys.ledger == s && r.State() == ShrinkChunk(c, to)
                && (if r == this then sys.pooled else fresh(r) && fresh(r.mem) && unchanged(this))
                && (sys.pooled ==> r.at.base == 0 && r.mem.Length == CellsIn(MAX_CAP))
    {
      hide ShrinkChunk;
      hide State;
      ghost var c := State();
      StateFields();
      ExcessIsTight(c, no);
      freed := (WordsIn(cap) - virgin) / 128;
      if freed == 0 {
        return null, freed;
      }
      var newCap := cap - freed;
      if freed < newCap {
        if sys.pooled {
          CutTo(newCap);
          r := this;
        } else {
          if !grant {
            return null, freed;
          }
          r := MoveTo(sys, newCap, CellsIn(newCap));
        }
      } else {
        if !grant {
          return null, freed;
        }
        r := MoveTo(sys, newCap, 2 * virgin);
      }
      ShrunkIs(c, no, r.State());
    }

    /** `destruct`: gives the block back if the chunk owns one.  The header must not be gone yet. */
    method Destruct(sys: ChkSystem)
      modifies sys
      ensures sys.ledger == ReleaseOne(old(sys.ledger), at, allocCap)
    {
      if at.block !in sys.ledger.out {
        sys.ledger := sys.ledger.(faults := sys.ledger.faults + 1);
      } else if allocCap != 0 {
        sys.Dellocate(at, ChunkBlock);
      }
    }
  }

  /** `ChkMetadata::enlarge` of nothing: a full-size chunk in a block of its own. */
  method NewFullChunk(sys: ChkSystem, no: nat) returns (c: ChkMetadata)
    modifies sys
    ensures fresh(c) && fresh(c.mem) && c.InMem() && c.mem.Length == CellsIn(MAX_CAP)
    ensures sys.ledger == Obtain(old(sys.ledger), ChunkBlock)
    ensures c.State() == NewChunk(no, HEADER, Addr(old(sys.ledger).next, 0))
  {
    var mem, at := sys.Allocate(ChunkBlock, MAX_CAP);
    c := new ChkMetadata(mem, at, no, HEADER, HEADER, MAX_CAP, MAX_CAP);
    assert c.State().cells == Zeros(CellsIn(MAX_CAP));
  }

  /** A copy of the chunk in a block of its own: the last chunk only up to its bump pointer. */
  method CopyOut(sys: ChkSystem, c: ChkMetadata, last: bool) returns (d: ChkMetadata)
    requires c.InMem() && c.cap <= MAX_CAP && c.virgin <= WordsIn(c.cap)
    modifies sys
    ensures fresh(d) && fresh(d.mem) && d.InMem() && d.at.base == 0 && (sys.pooled ==> d.mem.Length == CellsIn(MAX_CAP))
    ensures sys.ledger == Obtain(old(sys.ledger), ChunkBlock)
    ensures d.State() == SplitChunk(c.State(), last, Addr(old(sys.ledger).next, 0))
  {
    var m, a := sys.Allocate(ChunkBlock, c.cap);
    var n := if last then 2 * c.virgin else CellsIn(c.cap);
    forall k | 0 <= k < n {
      m[k] := c.mem[c.Start() + k];
    }
    d := new ChkMetadata(m, a, c.no, c.used, c.virgin, c.cap, c.cap);
    ghost var copy, image := d.State().cells, c.State().cells[..n] + Zeros(CellsIn(c.cap) - n);
    forall k | 0 <= k < CellsIn(c.cap) ensures copy[k] == image[k] {
      d.CellIs(k);
      c.CellIs(k);
    }
  }

  // ---------- sequences of chunks ----------

  function Mems(cs: seq<ChkMetadata>): set<array<Cell>> {
    set c | c in cs :: c.mem
  }

  ghost predicate Clear(a: ChkMetadata, b: ChkMetadata)
    reads a, b
  {
    a.mem != b.mem || a.End() <= b.Start() || b.End() <= a.Start()
  }

  /** Different chunks, each inside its block, no two over the same memory. */
  ghost predicate Wired(cs: seq<ChkMetadata>)
    reads cs
  {
    && (forall i :: 0 <= i < |cs| ==> cs[i].InMem())
    && (forall i, j :: 0 <= i < j < |cs| ==> cs[i] != cs[j])
    && (forall i, j {:trigger Clear(cs[i], cs[j])} :: 0 <= i < j < |cs| ==> Clear(cs[i], cs[j]))
  }

  ghost function Chunks(cs: seq<ChkMetadata>): (r: seq<Chunk>)
    requires Wired(cs)
    reads cs, Mems(cs)
    ensures |r| == |cs| && forall i :: 0 <= i < |cs| ==> r[i] == cs[i].State()
  {
    if cs == [] then []
    else
      var rest := cs[..|cs| - 1];
      assert forall i, j {:trigger Clear(rest[i], rest[j])} :: 0 <= i < j < |rest| ==> Clear(cs[i], cs[j]);
      Chunks(rest) + [cs[|cs| - 1].State()]
  }

  lemma WiredAt(cs: seq<ChkMetadata>, i: nat)
    requires Wired(cs) && i < |cs|
    ensures cs[i].InMem() && Chunks(cs)[i] == cs[i].State()
    ensures OwnBlocks(cs) ==> cs[i].at.base == 0 && cs[i].mem.Length == CellsIn(MAX_CAP)
  {
  }

  /** The chunks and their memory are in the footprint. */
  ghost predicate InRepr(cs: seq<ChkMetadata>, repr: set<object>) {
    forall i :: 0 <= i < |cs| ==> cs[i] in repr && cs[i].mem in repr
  }

  /** Each chunk has a pool chunk to itself. */
  ghost predicate OwnBlocks(cs: seq<ChkMetadata>) {
    && (forall i :: 0 <= i < |cs| ==> cs[i].at.base == 0 && cs[i].mem.Length == CellsIn(MAX_CAP))
    && (forall i, j :: 0 <= i < j < |cs| ==> cs[i].mem != cs[j].mem)
  }

  lemma WiredAppend(cs: seq<ChkMetadata>, repr: set<object>, c: ChkMetadata)
    requires Wired(cs) && InRepr(cs, repr) && c !in repr && c.mem !in repr && c.InMem()
    ensures Wired(cs + [c]) && Chunks(cs + [c]) == Chunks(cs) + [c.State()] && InRepr(cs + [c], repr + {c, c.mem})
    ensures OwnBlocks(cs) && c.at.base == 0 && c.mem.Length == CellsIn(MAX_CAP) ==> OwnBlocks(cs + [c])
  {
    var t := cs + [c];
    forall i, j {:trigger Clear(t[i], t[j])} | 0 <= i < j < |t| ensures Clear(t[i], t[j]) {
      if j < |cs| { assert Clear(cs[i], cs[j]); }
    }
  }

  lemma WiredReplace(cs: seq<ChkMetadata>, repr: set<object>, i: nat, c: ChkMetadata)
    requires Wired(cs) && InRepr(cs, repr) && i < |cs| && c !in repr && c.mem !in repr && c.InMem()
    ensures Wired(cs[i := c]) && Chunks(cs[i := c]) == Chunks(cs)[i := c.State()]
              && InRepr(cs[i := c], repr + {c, c.mem})
    ensures OwnBlocks(cs) && c.at.base == 0 && c.mem.Length == CellsIn(MAX_CAP) ==> OwnBlocks(cs[i := c])
  {
    var t := cs[i := c];
    forall k, j {:trigger Clear(t[k], t[j])} | 0 <= k < j < |t| ensures Clear(t[k], t[j]) {
      if k != i && j != i { assert Clear(cs[k], cs[j]); }
    }
  }

  lemma InReprAt(cs: seq<ChkMetadata>, repr: set<object>, i: nat)
    requires InRepr(cs, repr) && i < |cs|
    ensures cs[i] in repr && cs[i].mem in repr
  {
  }

  lemma InReprMems(cs: seq<ChkMetadata>, repr: set<object>)
    requires InRepr(cs, repr)
    ensures forall m :: m in Mems(cs) ==> m in repr
    ensures forall c :: c in cs ==> c in repr
  {
  }

  lemma InReprWider(cs: seq<ChkMetadata>, repr: set<object>, repr': set<object>)
    requires InRepr(cs, repr) && repr <= repr'
    ensures InRepr(cs, repr')
  {
  }

  /** `ChkMetadata::enlarge` of one of the chunks, in place or replaced by its copy in a new block. */
  method EnlargeIn(sys: ChkSystem, cs: seq<ChkMetadata>, no: nat, grant: bool, ghost repr: set<object>)
    returns (cs': seq<ChkMetadata>, gained: Option<int>, ghost tail: seq<Cell>, ghost repr': set<object>)
    requires Wired(cs) && InRepr(cs, repr) && (sys.pooled ==> OwnBlocks(cs)) && no < |cs| && cs[no].cap <= MAX_CAP
    modifies sys, cs[no]
    ensures gained.Some? <==> old(cs[no].MayGrow()) && (grant || sys.pooled)
    ensures Wired(cs') && InRepr(cs', repr') && (sys.pooled ==> OwnBlocks(cs')) && repr <= repr' && fresh(repr' - repr)
    ensures gained.None? ==> cs' == cs && sys.ledger == old(sys.ledger) && Chunks(cs) == old(Chunks(cs))
    ensures gained.Some? ==>
              var c := old(Chunks(cs))[no]; var (s, at) := Moved(sys.pooled, old(sys.ledger), c.at);
              && |tail| == CellsIn(MAX_CAP - c.cap) && (!sys.pooled ==> tail == Zeros(|tail|))
              && gained.value == MAX_CAP - c.cap && sys.ledger == s
                 && Chunks(cs') == old(Chunks(cs))[no := EnlargeChunk(c, at, tail)]
  {
    hide Chunks;
    var r: ChkMetadata?;
    cs', repr', gained := cs, repr, None;
    var cap := cs[no].cap;
    r, tail := cs[no].Enlarge(sys, grant);
    if r == null {
      return;
    }
    gained := Some(r.cap - cap);
    if sys.pooled {
      forall i, j {:trigger Clear(cs[i], cs[j])} | 0 <= i < j < |cs| ensures Clear(cs[i], cs[j]) {}
      assert forall i :: 0 <= i < |cs| && i != no ==> cs[i].State() == old(cs[i].State());
    } else {
      WiredReplace(cs, repr, no, r);
      cs', repr' := cs[no := r], repr + {r, r.mem};
    }
  }

  /** `ChkMetadata::shrink` of one of the chunks, in place or replaced by its copy in a new block. */
  method ShrinkIn(sys: ChkSystem, cs: seq<ChkMetadata>, no: nat, grant: bool, ghost repr: set<object>)
    returns (cs': seq<ChkMetadata>, lost: Option<int>, ghost repr': set<object>)
    requires Wired(cs) && InRepr(cs, repr) && (sys.pooled ==> OwnBlocks(cs)) && no < |cs| && Sane(Chunks(cs)[no], no)
    modifies sys, cs[no]
    ensures Wired(cs') && InRepr(cs', repr') && (sys.pooled ==> OwnBlocks(cs')) && repr <= repr' && fresh(repr' - repr)
    ensures var c := old(Chunks(cs))[no];
            && |cs'| == |cs| && 0 <= Excess(c) <= c.cap
            && match ShrinkPlace(sys.pooled, old(sys.ledger), c, grant)
               case None => lost == None && sys.ledger == old(sys.ledger) && Chunks(cs') == old(Chunks(cs))
               case Some((s, at)) =>
                 lost == Some(Excess(c)) && sys.ledger == s && Chunks(cs') == old(Chunks(cs))[no := ShrinkChunk(c, at)]
  {
    hide Chunks;
    hide ChkMetadata.State;
    hide ShrinkPlace;
    hide ShrinkChunk;
    hide Excess;
    cs', repr', lost := cs, repr, None;
    cs[no].StateFields();
    var r, freed := cs[no].Shrink(sys, grant);
    if r == null {
      return;
    }
    lost := Some(freed);
    if r == cs[no] {
      forall i, j {:trigger Clear(cs[i], cs[j])} | 0 <= i < j < |cs| ensures Clear(cs[i], cs[j]) {
        assert old(Clear(cs[i], cs[j]));
      }
      assert forall i :: 0 <= i < |cs| && i != no ==> cs[i].State() == old(cs[i].State());
    } else {
      WiredReplace(cs, repr, no, r);
      cs', repr' := cs[no := r], repr + {r, r.mem};
    }
  }

  /** A new full-size chunk at the end. */
  method AppendTo(sys: ChkSystem, cs: seq<ChkMetadata>, ghost repr: set<object>)
    returns (cs': seq<ChkMetadata>, ghost repr': set<object>)
    requires Wired(cs) && InRepr(cs, repr) && (sys.pooled ==> OwnBlocks(cs))
    modifies sys
    ensures Wired(cs') && InRepr(cs', repr') && (sys.pooled ==> OwnBlocks(cs')) && repr <= repr' && fresh(repr' - repr)
    ensures |cs'| == |cs| + 1 && cs' == cs + [cs'[|cs|]] && fresh(cs'[|cs|])
    ensures sys.ledger == Obtain(old(sys.ledger), ChunkBlock)
    ensures Chunks(cs') == old(Chunks(cs)) + [NewChunk(|cs|, HEADER, Addr(old(sys.ledger).next, 0))]
  {
    hide Chunks;
    var c := NewFullChunk(sys, |cs|);
    WiredAppend(cs, repr, c);
    cs', repr' := cs + [c], repr + {c, c.mem};
  }

  /** `ChkMetadata::alloc` on one of the chunks. */
  method AllocIn(cs: seq<ChkMetadata>, no: nat, bytes: nat) returns (p: Ptr)
    requires Wired(cs) && no < |cs|
    modifies cs[no]
    ensures Wired(cs)
    ensures var c := old(Chunks(cs))[no]; var words := CeilDiv(bytes, 8);
            if words <= MAX_WORDS && c.virgin + words <= WordsIn(c.cap)
            then p == Ptr(c.no, 2 * c.virgin, words)
                && Chunks(cs) == old(Chunks(cs))[no := c.(virgin := c.virgin + words)]
            else p == CHK_NULL && Chunks(cs) == old(Chunks(cs))
  {
    hide Chunks;
    ghost var c := cs[no].State();
    p := cs[no].Alloc(bytes);
    assert cs[no].State() == c.(virgin := cs[no].virgin);
    hide ChkMetadata.State;
    forall i, j {:trigger Clear(cs[i], cs[j])} | 0 <= i < j < |cs| ensures Clear(cs[i], cs[j]) {
      assert old(Clear(cs[i], cs[j]));
    }
    assert forall i :: 0 <= i < |cs| && i != no ==> cs[i].State() == old(cs[i].State());
  }

  /** `ChkMetadata::free` on one of the chunks. */
  method FreeIn(cs: seq<ChkMetadata>, no: nat, p: Ptr) returns (taken: bool)
    requires Wired(cs) && no < |cs| && p.no == cs[no].no && p.size != 0
    modifies cs[no]
    ensures Wired(cs)
    ensures var c := old(Chunks(cs))[no];
            && (taken <==> p.off / 2 + p.size == c.virgin)
            && Chunks(cs) == old(Chunks(cs))[no := if taken then c.(virgin := p.off / 2) else c]
  {
    hide Chunks;
    taken := cs[no].Free(p);
    forall i, j {:trigger Clear(cs[i], cs[j])} | 0 <= i < j < |cs| ensures Clear(cs[i], cs[j]) {
      assert old(Clear(cs[i], cs[j]));
    }
    assert forall i :: 0 <= i < |cs| && i != no ==> cs[i].State() == old(cs[i].State());
  }

  /** `_used += size` */
  method ChargeIn(cs: seq<ChkMetadata>, no: nat, size: int)
    requires Wired(cs) && no < |cs|
    modifies cs[no]
    ensures Wired(cs)
    ensures var c := old(Chunks(cs))[no]; Chunks(cs) == old(Chunks(cs))[no := c.(used := c.used + size)]
  {
    hide Chunks;
    cs[no].used := cs[no].used + size;
    forall i, j {:trigger Clear(cs[i], cs[j])} | 0 <= i < j < |cs| ensures Clear(cs[i], cs[j]) {
      assert old(Clear(cs[i], cs[j]));
    }
    assert forall i :: 0 <= i < |cs| && i != no ==> cs[i].State() == old(cs[i].State());
  }

  /** Writes the cells `vs` from cell `lo` of a chunk on.  No other chunk is touched. */
  method WriteCells(cs: seq<ChkMetadata>, no: nat, lo: nat, vs: seq<Cell>)
    requires Wired(cs) && no < |cs| && lo + |vs| <= CellsIn(cs[no].cap)
    modifies cs[no].mem
    ensures Wired(cs)
    ensures var c := old(Chunks(cs))[no];
            Chunks(cs) == old(Chunks(cs))[no := c.(cells := c.cells[..lo] + vs + c.cells[lo + |vs|..])]
  {
    var c := cs[no];
    forall k | 0 <= k < |vs| {
      c.mem[c.Start() + lo + k] := vs[k];
    }
    forall i, j {:trigger Clear(cs[i], cs[j])} | 0 <= i < j < |cs| ensures Clear(cs[i], cs[j]) {
      assert old(Clear(cs[i], cs[j]));
    }
    forall i | 0 <= i < |cs| && i != no ensures cs[i].State() == old(cs[i].State()) {
      assert if i < no then Clear(cs[i], cs[no]) else Clear(cs[no], cs[i]);
      assert cs[i].State().cells == old(cs[i].State()).cells;
    }
    ghost var was := old(c.State()).cells;
    assert c.State().cells == was[..lo] + vs + was[lo + |vs|..];
  }

  /** `bzero` of cells `lo` to `hi` of a chunk. */
  method ZeroCells(cs: seq<ChkMetadata>, no: nat, lo: nat, hi: nat)
    requires Wired(cs) && no < |cs| && lo <= hi <= CellsIn(cs[no].cap)
    modifies cs[no].mem
    ensures Wired(cs)
    ensures var c := old(Chunks(cs))[no]; Chunks(cs) == old(Chunks(cs))[no := c.(cells := ZeroRange(c.cells, lo, hi))]
  {
    WriteCells(cs, no, lo, Zeros(hi - lo));
  }

  method SetCell(cs: seq<ChkMetadata>, no: nat, k: nat, v: Cell)
    requires Wired(cs) && no < |cs| && k < CellsIn(cs[no].cap)
    modifies cs[no].mem
    ensures Wired(cs)
    ensures var c := old(Chunks(cs))[no]; Chunks(cs) == old(Chunks(cs))[no := c.(cells := c.cells[k := v])]
  {
    ghost var was := Chunks(cs)[no].cells;
    assert was[k := v] == was[..k] + [v] + was[k + 1..];
    WriteCells(cs, no, k, [v]);
  }

  /** The first chunk, with the words of the manager taken off and counted as used. */
  method MakeFirst(sys: ChkSystem) returns (cs: seq<ChkMetadata>, ghost repr: set<object>)
    modifies sys
    ensures fresh(repr) && |cs| == 1 && Wired(cs) && InRepr(cs, repr) && OwnBlocks(cs)
    ensures sys.ledger == Obtain(old(sys.ledger), ChunkBlock)
    ensures Chunks(cs) == [NewChunk(0, Lo(0), Addr(old(sys.ledger).next, 0))]
  {
    hide Chunks;
    hide Wired;
    var c := NewFullChunk(sys, 0);
    cs, repr := [c], {c, c.mem};
    OneWired(c);
    var p := AllocIn(cs, 0, 8 * MANAGER);
    ChargeIn(cs, 0, p.size);
  }

  lemma OneWired(c: ChkMetadata)
    requires c.InMem()
    ensures Wired([c]) && Chunks([c]) == [c.State()]
  {
  }

  /** The loop of `split_continuous_chunk`. */
  method SplitAll(sys: ChkSystem, cs: seq<ChkMetadata>) returns (out: seq<ChkMetadata>, ghost repr: set<object>)
    requires Wired(cs) && forall i :: 0 <= i < |cs| ==>
               Chunks(cs)[i].cap <= MAX_CAP && Chunks(cs)[i].virgin <= WordsIn(Chunks(cs)[i].cap)
    modifies sys
    ensures Wired(out) && fresh(repr) && InRepr(out, repr) && (sys.pooled ==> OwnBlocks(out)) && |out| == |cs|
    ensures sys.ledger == ObtainMany(old(sys.ledger), |cs|) && Chunks(cs) == old(Chunks(cs)) && Wired(cs)
    ensures forall i :: 0 <= i < |cs| ==>
              Chunks(out)[i] == SplitChunk(Chunks(cs)[i], i == |cs| - 1, Addr(old(sys.ledger).next + i, 0))
  {
    hide Chunks;
    hide Wired;
    hide InRepr;
    hide OwnBlocks;
    hide SplitChunk;
    out, repr := [], {};
    NoneWired();
    var n := |cs|;
    for i := 0 to n
      invariant Wired(cs) && Chunks(cs) == old(Chunks(cs))
      invariant Wired(out) && fresh(repr) && InRepr(out, repr) && (sys.pooled ==> OwnBlocks(out)) && |out| == i
      invariant sys.ledger == ObtainMany(old(sys.ledger), i) && sys.ledger.next == old(sys.ledger).next + i
      invariant forall j :: 0 <= j < i ==>
                  Chunks(out)[j] == SplitChunk(Chunks(cs)[j], j == n - 1, Addr(old(sys.ledger).next + j, 0))
    {
      WiredAt(cs, i);
      var d := CopyOut(sys, cs[i], i == n - 1);
      WiredAppend(out, repr, d);
      out, repr := out + [d], repr + {d, d.mem};
    }
  }

  lemma NoneWired()
    ensures Wired([]) && InRepr([], {}) && OwnBlocks([])
  {
  }

  /** The loop of `destruct`, from the last chunk down. */
  method DestructAll(sys: ChkSystem, cs: seq<ChkMetadata>)
    requires Wired(cs)
    modifies sys
    ensures sys.ledger == old(ReleaseAll(sys.ledger, Chunks(cs)))
  {
    hide Chunks;
    hide Wired;
    hide ReleaseOne;
    assert Chunks(cs)[..|cs|] == Chunks(cs);
    for i := |cs| downto 0
      invariant Wired(cs) && Chunks(cs) == old(Chunks(cs))
      invariant ReleaseAll(sys.ledger, Chunks(cs)[..i]) == old(ReleaseAll(sys.ledger, Chunks(cs)))
    {
      WiredAt(cs, i);
      ghost var upTo := Chunks(cs)[..i + 1];
      assert upTo[..i] == Chunks(cs)[..i] && upTo[i] == cs[i].State();
      cs[i].Destruct(sys);
    }
  }

  /** `_alloc_capacity = cap` */
  method SetAllocCap(cs: seq<ChkMetadata>, no: nat, cap: nat)
    requires Wired(cs) && no < |cs|
    modifies cs[no]
    ensures Wired(cs)
    ensures Chunks(cs) == old(Chunks(cs))[no := old(Chunks(cs))[no].(allocCap := cap)]
  {
    hide Chunks;
    cs[no].allocCap := cap;
    forall i, j {:trigger Clear(cs[i], cs[j])} | 0 <= i < j < |cs| ensures Clear(cs[i], cs[j]) {
      assert old(Clear(cs[i], cs[j]));
    }
    assert forall i :: 0 <= i < |cs| && i != no ==> cs[i].State() == old(cs[i].State());
  }

  // ---------- from memory and back ----------

  /** The chunk as it lies in memory, header and all. */
  method ImageOf(c: ChkMetadata, i: nat, m: Mgr) returns (r: seq<Cell>)
    requires c.InMem() && Writable(c.State(), i, m)
    ensures r == ChunkImage(c.State(), i, m)
  {
    var head := EncodeHeader(Header(c.no, c.used, c.virgin, c.cap, c.allocCap)) + if i == 0 then EncodeMgr(m) else [];
    r := head + c.mem[c.Start() + |head|..c.End()];
    assert c.mem[c.Start() + |head|..c.End()] == c.State().cells[|head|..];
  }

  /** Chunks found one behind the other in a block. */
  ghost predicate InBlock(cs: seq<ChkMetadata>, mem: array<Cell>, end: nat)
    reads cs
  {
    forall i :: 0 <= i < |cs| ==> cs[i].mem == mem && cs[i].End() <= end
  }

  lemma WiredNext(cs: seq<ChkMetadata>, repr: set<object>, mem: array<Cell>, c: ChkMetadata)
    requires Wired(cs) && InRepr(cs, repr) && InBlock(cs, mem, c.Start()) && c !in cs && c.mem == mem && c.InMem()
    ensures Wired(cs + [c]) && Chunks(cs + [c]) == Chunks(cs) + [c.State()] && InBlock(cs + [c], mem, c.End())
    ensures InRepr(cs + [c], repr + {c, mem})
  {
    var t := cs + [c];
    forall i, j {:trigger Clear(t[i], t[j])} | 0 <= i < j < |t| ensures Clear(t[i], t[j]) {
      if j < |cs| { assert Clear(cs[i], cs[j]); }
    }
  }

  /** The chunk whose header stands at kilobyte `base` of a block that is used up to `cap`. */
  method ReadChunk(mem: array<Cell>, block: nat, base: nat, cap: nat) returns (c: ChkMetadata, next: nat)
    requires CellsIn(cap) <= mem.Length && base < cap && WalkFrom(mem[..CellsIn(cap)], block, base).Some?
    ensures fresh(c) && c.mem == mem && c.InMem() && c.Start() == CellsIn(base) && c.End() == CellsIn(next)
              && base < next <= cap
    ensures var m := mem[..CellsIn(cap)];
            WalkFrom(m, block, next).Some?
                && WalkFrom(m, block, base).value == [c.State()] + WalkFrom(m, block, next).value
  {
    hide WalkFrom;
    hide DecodeHeader;
    var hd := DecodeHeader(mem[CellsIn(base)..CellsIn(base) + 4]);
    var left := cap - base;
    c := new ChkMetadata(mem, Addr(block, base), hd.no, hd.used, hd.virgin, if left < hd.cap then left else hd.cap, 0);
    WalkOnce(mem, mem[..CellsIn(cap)], block, base, cap, c.State());
    next := base + c.cap;
  }

  /** The uncompressed image in a block of its own, zeroes behind it. */
  method LoadImage(sys: ChkSystem, kind: Kind, cap: nat, img: seq<Cell>) returns (mem: array<Cell>, at: Addr)
    requires |img| <= CellsIn(cap)
    modifies sys
    ensures fresh(mem) && CellsIn(cap) <= mem.Length && mem[..CellsIn(cap)] == img + Zeros(CellsIn(cap) - |img|)
    ensures sys.pooled && kind == ChunkBlock && cap <= MAX_CAP ==> mem.Length == CellsIn(MAX_CAP)
    ensures sys.ledger == Obtain(old(sys.ledger), kind) && at == Addr(old(sys.ledger).next, 0)
  {
    mem, at := sys.Allocate(kind, cap);
    forall k | 0 <= k < |img| {
      mem[k] := img[k];
    }
  }

  /** The walk over the first `cap` kilobytes of a block has come to kilobyte `base` and found `cs`. */
  ghost predicate WalkedTo(cs: seq<ChkMetadata>, repr: set<object>, mem: array<Cell>, m: seq<Cell>, block: nat,
                           base: nat, cap: nat)
    requires |m| == CellsIn(cap) && CellsIn(cap) <= mem.Length
    reads cs, Mems(cs)
  {
    && base <= cap && Wired(cs) && InRepr(cs, repr) && InBlock(cs, mem, CellsIn(base))
    && (forall c :: c in cs ==> c.mem == mem)
    && Walk(m, block, 0).Some? && WalkFrom(m, block, base).Some?
    && Walk(m, block, 0).value == Chunks(cs) + WalkFrom(m, block, base).value
  }

  /** One round of the walk. */
  method WalkOn(cs: seq<ChkMetadata>, ghost repr: set<object>, mem: array<Cell>, ghost m: seq<Cell>, block: nat,
                base: nat, cap: nat)
    returns (c: ChkMetadata, next: nat)
    requires CellsIn(cap) <= mem.Length && m == mem[..CellsIn(cap)] && base < cap
    requires WalkedTo(cs, repr, mem, m, block, base, cap)
    ensures fresh(c) && base < next && WalkedTo(cs + [c], repr + {c, mem}, mem, m, block, next, cap)
  {
    hide Chunks;
    hide Wired;
    hide InRepr;
    hide InBlock;
    hide Walk;
    hide WalkFrom;
    c, next := ReadChunk(mem, block, base, cap);
    WiredNext(cs, repr, mem, c);
    Regroup(Chunks(cs), c.State(), WalkFrom(m, block, next).value);
  }

  /** The header walk of `uncompress` over the first `cap` kilobytes of a block. */
  method WalkBlock(mem: array<Cell>, block: nat, cap: nat) returns (cs: seq<ChkMetadata>, ghost repr: set<object>)
    requires CellsIn(cap) <= mem.Length && Walk(mem[..CellsIn(cap)], block, 0).Some?
    ensures Wired(cs) && InRepr(cs, repr) && fresh(repr - {mem}) && forall c :: c in cs ==> fresh(c) && c.mem == mem
    ensures Walk(mem[..CellsIn(cap)], block, 0) == Some(Chunks(cs))
  {
    hide Chunks;
    hide Wired;
    hide InRepr;
    hide InBlock;
    hide Walk;
    hide WalkFrom;
    ghost var m := mem[..CellsIn(cap)];
    var base := 0;
    cs, repr := [], {};
    NoneWired();
    NoneInBlock(mem);
    WalkStart(m, block);
    while base < cap
      invariant WalkedTo(cs, repr, mem, m, block, base, cap)
      invariant fresh(repr - {mem}) && forall c :: c in cs ==> fresh(c)
    {
      var c, next := WalkOn(cs, repr, mem, m, block, base, cap);
      cs, repr, base := cs + [c], repr + {c, mem}, next;
    }
    WalkEnd(m, block, cap, Chunks(cs));
  }

  lemma Regroup(a: seq<Chunk>, c: Chunk, b: seq<Chunk>)
    ensures a + ([c] + b) == (a + [c]) + b
  {
  }

  /** The walk from kilobyte `base` on. */
  ghost function WalkFrom(m: seq<Cell>, block: nat, base: nat): Option<seq<Chunk>>
    requires |m| % 256 == 0 && CellsIn(base) <= |m|
  {
    Walk(m[CellsIn(base)..], block, base)
  }

  lemma WalkStart(m: seq<Cell>, block: nat)
    requires |m| % 256 == 0
    ensures WalkFrom(m, block, 0) == Walk(m, block, 0)
  {
    assert m[CellsIn(0)..] == m;
  }

  lemma NoneInBlock(mem: array<Cell>)
    ensures InBlock([], mem, 0)
  {
  }

  lemma WalkOnce(mem: array<Cell>, m: seq<Cell>, block: nat, base: nat, cap: nat, c: Chunk)
    requires CellsIn(cap) <= mem.Length && m == mem[..CellsIn(cap)] && base < cap && WalkFrom(m, block, base).Some?
    requires var hd := DecodeHeader(mem[CellsIn(base)..CellsIn(base) + 4]);
             var size := if cap - base < hd.cap then cap - base else hd.cap;
             c == Chunk(hd.no, hd.used, hd.virgin, size, 0, mem[CellsIn(base)..CellsIn(base + size)], Addr(block, base))
    ensures 1 <= c.cap <= cap - base && WalkFrom(m, block, base + c.cap).Some?
    ensures WalkFrom(m, block, base).value == [c] + WalkFrom(m, block, base + c.cap).value
  {
    hide Walk;
    hide DecodeHeader;
    var t := m[CellsIn(base)..];
    SlicesSame(mem, m, CellsIn(base), 4);
    SlicesSame(mem, m, CellsIn(base), CellsIn(c.cap));
    assert CellsIn(base) + CellsIn(c.cap) == CellsIn(base + c.cap);
    assert FirstChunk(t, block, base) == c;
    WalkUnfold(t, block, base);
  }

  lemma SlicesSame(mem: array<Cell>, m: seq<Cell>, lo: nat, n: nat)
    requires |m| <= mem.Length && m == mem[..|m|] && lo + n <= |m|
    ensures m[lo..][..n] == mem[lo..lo + n] && m[lo..][n..] == m[lo + n..]
  {
    forall k | 0 <= k < n ensures m[lo..][..n][k] == mem[lo..lo + n][k] { assert m[lo + k] == mem[..|m|][lo + k]; }
  }

  lemma WalkEnd(m: seq<Cell>, block: nat, cap: nat, cs: seq<Chunk>)
    requires |m| == CellsIn(cap)
    ensures WalkFrom(m, block, cap) == Some([]) && cs + [] == cs
  {
    assert m[CellsIn(cap)..] == [];
  }

  lemma WalkUnfold(t: seq<Cell>, block: nat, base: nat)
    requires |t| % 256 == 0 && Walk(t, block, base).Some?
    ensures if t == [] then Walk(t, block, base).value == []
            else
              var c := FirstChunk(t, block, base);
              c.cap != 0 && Walk(t[CellsIn(c.cap)..], block, base + c.cap).Some?
              && Walk(t, block, base).value == [c] + Walk(t[CellsIn(c.cap)..], block, base + c.cap).value
  {
  }
}
