/**
  The memory manager of chk/chk_mem_mgr.cpp as an object, with the push and pop of the singly linked
  lists of chk/chk_list.h that thread the free blocks through the chunks' memory.
 */
module ChkMemMgr {
  import opened ChkBase
  import opened ChkHeap
  import opened ChkIndexSpec
  import opened ChkMemory

  class ChkMemMgr {
    var totalUsed: int
    var totalFree: int
    var totalCap: int
    const sizes: seq<nat>
    var freeList: seq<ChkPtr>

    function State(): Mgr
      reads this
    {
      Mgr(totalUsed, totalFree, totalCap, sizes, freeList)
    }

    constructor (sizes: seq<nat>)
      ensures State() == Mgr(0, 0, 0, sizes, [CHK_NULL, CHK_NULL, CHK_NULL])
    {
      this.sizes, totalUsed, totalFree, totalCap := sizes, 0, 0, 0;
      freeList := [CHK_NULL, CHK_NULL, CHK_NULL];
    }

    /** A manager as it lies in memory, its total capacity corrected. */
    constructor Read(cells: seq<Cell>, cap: nat)
      requires |cells| == 6
      ensures State() == DecodeMgr(cells).(totalCap := cap)
    {
      var m := DecodeMgr(cells);
      this.sizes, totalUsed, totalFree, totalCap, freeList := m.sizes, m.totalUsed, m.totalFree, cap, m.heads;
    }

    /** Adds to the counters. */
    method Count(used: int, free: int, cap: int)
      modifies this
      ensures freeList == old(freeList)
      ensures var m := old(State());
              State() == m.(totalUsed := m.totalUsed + used, totalFree := m.totalFree + free,
                            totalCap := m.totalCap + cap)
    {
      totalUsed := totalUsed + used;
      totalFree := totalFree + free;
      totalCap := totalCap + cap;
    }

    /** The chunks and this manager as a heap. */
    ghost function HeapOf(cs: seq<ChkMetadata>): Heap
      requires Wired(cs)
      reads this, cs, Mems(cs)
    {
      Heap(Chunks(cs), State())
    }

    /** `bzero` and `chk_slist_push` of a block of class `i`. */
    method Push(cs: seq<ChkMetadata>, i: nat, no: nat, off: nat)
      requires Wired(cs) && State().Shaped() && i < 3 && Room(HeapOf(cs), no, off, sizes[i])
      modifies `freeList, cs[no].mem
      ensures Wired(cs) && HeapOf(cs) == ChkHeap.Push(old(HeapOf(cs)), i, no, off)
    {
      hide Wired;
      hide Chunks;
      hide DecodePtr;
      hide EncodePtr;
      hide Mems;
      ghost var m := State();
      ZeroCells(cs, no, 2 * off, 2 * (off + sizes[i]));
      SetCell(cs, no, 2 * off, EncodePtr(freeList[i]));
      ghost var ds := Chunks(cs);
      assert ds == ChkHeap.Push(old(HeapOf(cs)), i, no, off).chunks;
      freeList := freeList[i := Ptr(no, 2 * off, 0)];
    }

    /** `chk_slist_pop`: the block's link becomes the head; what it leaves in the block is a null. */
    method Pop(cs: seq<ChkMetadata>, i: nat) returns (p: ChkPtr)
      requires Wired(cs) && State().Shaped() && i < 3 && HeadOk(HeapOf(cs), i)
      modifies `freeList, cs[freeList[i].no].mem
      ensures Wired(cs) && HeapOf(cs) == ChkHeap.Pop(old(HeapOf(cs)), i) && p == old(freeList[i])
    {
      hide Chunks;
      hide DecodePtr;
      hide EncodePtr;
      p := freeList[i];
      var c := cs[p.no];
      var link := DecodePtr(c.mem[c.Start() + p.off]);
      assert c.mem[c.Start() + p.off] == Chunks(cs)[p.no].cells[p.off];
      SetCell(cs, p.no, p.off, EncodePtr(Ptr(NULL_NO, link.off, link.size)));
      freeList := freeList[i := link];
    }

    /** `ChkMemMgr::free`: cuts the range into blocks, always of the highest class that still fits. */
    method Free(cs: seq<ChkMetadata>, p: Ptr)
      requires Wired(cs) && p.off % 2 == 0 && Room(HeapOf(cs), p.no, p.off / 2, p.size)
      modifies `freeList, cs[p.no].mem
      ensures Wired(cs) && HeapOf(cs) == Carve(old(HeapOf(cs)), p.no, p.off / 2, p.size)
    {
      hide Wired;
      hide Chunks;
      hide DecodePtr;
      hide EncodePtr;
      hide Mems;
      hide Room;
      hide Carve;
      hide ChkHeap.Push;
      var left, off := p.size, p.off;
      RoomShaped(HeapOf(cs), p.no, off / 2, left);
      while left >= sizes[0]
        invariant off % 2 == 0 && Wired(cs) && Room(HeapOf(cs), p.no, off / 2, left)
        invariant State().Shaped() && p.no < |cs|
        invariant Carve(old(HeapOf(cs)), p.no, p.off / 2, p.size) == Carve(HeapOf(cs), p.no, off / 2, left)
        decreases left
      {
        var i := 2;
        while left < sizes[i]
          invariant 0 <= i < 3 && forall j :: i < j < 3 ==> left < sizes[j]
          decreases i
        {
          i := i - 1;
        }
        CarveOnce(HeapOf(cs), p.no, off / 2, left, i);
        Push(cs, i, p.no, off / 2);
        left := left - sizes[i];
        off := off + 2 * sizes[i];
        RoomShaped(HeapOf(cs), p.no, off / 2, left);
      }
      CarveDone(HeapOf(cs), p.no, off / 2, left);
    }

    /** Takes the head of list `i`; what is left of the block is carved up again. */
    method Take(cs: seq<ChkMetadata>, i: nat, size: nat) returns (p: Ptr)
      requires Wired(cs) && State().Shaped() && i < 3 && HeadOk(HeapOf(cs), i) && size <= sizes[i]
      modifies `freeList, cs[freeList[i].no].mem
      ensures Wired(cs) && HeapOf(cs) == PoolTake(old(HeapOf(cs)), i, size)
      ensures p == old(Ptr(freeList[i].no, freeList[i].off, size))
    {
      hide Wired;
      hide Chunks;
      hide DecodePtr;
      hide EncodePtr;
      hide Carve;
      hide Mems;
      var head := Pop(cs, i);
      p := Ptr(head.no, head.off, size);
      var rest := sizes[i] - size;
      if rest > 0 {
        Free(cs, Ptr(head.no, head.off + 2 * size, rest));
      } else {
        CarveDone(HeapOf(cs), head.no, head.off / 2 + size, rest);
      }
    }

    /** `ChkMemMgr::alloc`: serves from the first class that is large enough and has a free block. */
    method Alloc(cs: seq<ChkMetadata>, size: nat) returns (p: Ptr)
      requires Wired(cs) && State().Shaped() && HeadsOk(HeapOf(cs))
      modifies `freeList, Mems(cs)
      ensures Wired(cs)
      ensures var h := old(HeapOf(cs)); var i := FirstFit(h.mgr, size);
              if i < 3 then HeapOf(cs) == PoolTake(h, i, size) && !p.IsNull()
                            && p == Ptr(h.mgr.heads[i].no, h.mgr.heads[i].off, size)
              else HeapOf(cs) == h && p == CHK_NULL
    {
      hide Wired;
      hide Chunks;
      hide PoolTake;
      for i: nat := 0 to 3
        invariant Wired(cs) && HeapOf(cs) == old(HeapOf(cs))
        invariant forall j :: 0 <= j < i ==> sizes[j] < size || freeList[j].IsNull()
      {
        if size <= sizes[i] && !freeList[i].IsNull() {
          p := Take(cs, i, size);
          return;
        }
      }
      p := CHK_NULL;
    }
  }
}
