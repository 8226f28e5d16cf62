/**
  The lists of chk/chk_list.h where they lie: circular lists threaded by handles through live blocks.
  They outlive every run that spares their blocks, whatever happens to the chunks, and the list
  operations are stores into those blocks.
 */
module ChkRings {
  import opened ChkBase
  import opened ChkHeap
  import opened ChkAlloc
  import opened ChkIndexSpec
  import opened ChkOperations
  import opened ChkRuns

  // ---------- nodes and links ----------

  /** A list node in block `b`: cell `k` of the chunk holds its `next` handle, the cell after it `prev`. */
  datatype Node = Node(b: Blk, k: nat)

  /** `chk_addrchk2ptr` of the node. */
  function NodePtr(n: Node): Ptr {
    Ptr(n.b.no, n.k, 0)
  }

  /** The node lies in a live block. */
  ghost predicate Owned(g: Ghost, n: Node) {
    IsLive(g, n.b) && 2 * n.b.off <= n.k && n.k + 2 <= 2 * (n.b.off + n.b.size)
  }

  /** Two nodes do not share a cell. */
  predicate NodesApart(a: Node, b: Node) {
    a.b.no != b.b.no || a.k + 2 <= b.k || b.k + 2 <= a.k
  }

  predicate Mapped(h: Heap, n: Node) {
    n.b.no < |h.chunks| && n.k + 2 <= |h.chunks[n.b.no].cells|
  }

  predicate InMemory(h: Heap, no: nat, k: nat) {
    no < |h.chunks| && k < |h.chunks[no].cells|
  }

  function CellOf(h: Heap, no: nat, k: nat): Cell
    requires InMemory(h, no, k)
  {
    h.chunks[no].cells[k]
  }

  function NextLink(h: Heap, n: Node): Ptr
    requires Mapped(h, n)
  {
    DecodePtr(CellOf(h, n.b.no, n.k))
  }

  function PrevLink(h: Heap, n: Node): Ptr
    requires Mapped(h, n)
  {
    DecodePtr(CellOf(h, n.b.no, n.k + 1))
  }

  /** The position after `i`, around the end. */
  function After(w: seq<Node>, i: nat): (r: nat)
    ensures i < |w| ==> r < |w|
  {
    if i + 1 < |w| then i + 1 else 0
  }

  /** Node `i` and the one after it lead to each other. */
  ghost predicate LinkedAt(h: Heap, w: seq<Node>, i: nat)
    requires i < |w| && Mapped(h, w[i]) && Mapped(h, w[After(w, i)])
  {
    var a, b := w[i], w[After(w, i)];
    NextLink(h, a) == NodePtr(b) && PrevLink(h, b) == NodePtr(a)
  }

  ghost predicate AllApart(w: seq<Node>) {
    forall i, j {:trigger NodesApart(w[i], w[j])} :: 0 <= i < j < |w| ==> NodesApart(w[i], w[j])
  }

  /** The links in memory lead through exactly the nodes `w`, the head first, and back, both ways. */
  ghost predicate Ring(h: Heap, w: seq<Node>) {
    && w != [] && AllApart(w)
    && (forall i :: 0 <= i < |w| ==> Mapped(h, w[i]) && NodePtr(w[i]).Fits())
    && (forall i :: 0 <= i < |w| ==> LinkedAt(h, w, i))
  }

  // ---------- rings over runs ----------

  lemma OwnedMapped(h: Heap, g: Ghost, n: Node)
    requires Inv(h, g.book) && Owned(g, n)
    ensures Mapped(h, n) && NodePtr(n).Fits() && n.b.no < NULL_NO
  {
    assert Placed(h, n.b);
    assert Sane(h.chunks[n.b.no], n.b.no);
  }

  lemma RingFrame(h: Heap, h': Heap, w: seq<Node>)
    requires Ring(h, w)
    requires forall i :: 0 <= i < |w| ==>
               && Mapped(h, w[i]) && Mapped(h', w[i])
               && NextLink(h', w[i]) == NextLink(h, w[i]) && PrevLink(h', w[i]) == PrevLink(h, w[i])
    ensures Ring(h', w)
  {
    forall i: nat | i < |w| ensures LinkedAt(h', w, i) { assert LinkedAt(h, w, i); }
  }

  /** A list lives through every legal run that spares its blocks, however often its chunks are moved,
      shrunk, enlarged, compressed or unpacked. */
  lemma RunKeepsRing(env: Env, ix: Index, g: Ghost, ops: seq<Op>, w: seq<Node>)
    requires IxInv(env, ix, g) && LegalRun(env, ix, g, ops) && Ring(View(ix, g), w)
    requires forall i :: 0 <= i < |w| ==> Owned(g, w[i])
    requires forall i, j :: 0 <= i < |w| && 0 <= j < |ops| ==> Spares(ops[j], w[i].b)
    ensures var (ix', g') := Run(env, ix, g, ops);
            Ring(View(ix', g'), w) && forall i :: 0 <= i < |w| ==> Owned(g', w[i])
  {
    var (ix', g') := Run(env, ix, g, ops);
    var h, h' := View(ix, g), View(ix', g');
    hide IxInv;
    hide Step;
    hide Ring;
    hide View;
    hide Spares;
    forall i | 0 <= i < |w|
      ensures Owned(g', w[i]) && Mapped(h, w[i]) && Mapped(h', w[i])
      ensures NextLink(h', w[i]) == NextLink(h, w[i]) && PrevLink(h', w[i]) == PrevLink(h, w[i])
    {
      assert Owned(g, w[i]);
      RunKeepsBlock(env, ix, g, ops, w[i].b);
      NodeKept(h, h', w[i]);
    }
    RingFrame(h, h', w);
  }

  lemma NodeKept(h: Heap, h': Heap, n: Node)
    requires Kept(h, h', n.b) && 2 * n.b.off <= n.k && n.k + 2 <= 2 * (n.b.off + n.b.size)
    ensures Mapped(h, n) && Mapped(h', n) && NextLink(h', n) == NextLink(h, n) && PrevLink(h', n) == PrevLink(h, n)
  {
  }

  // ---------- runs of stores ----------

  ghost predicate Storing(g: Ghost, op: Op) {
    op.OpStore? && IsLive(g, op.b) && 2 * op.b.off <= op.k < 2 * (op.b.off + op.b.size)
  }

  ghost predicate AllStoring(g: Ghost, ops: seq<Op>) {
    forall i :: 0 <= i < |ops| ==> Storing(g, ops[i])
  }

  /** The cells that the stores leave written, by chunk and position. */
  function Writes(ops: seq<Op>): map<(nat, nat), Cell> {
    if ops == [] then map[]
    else
      var op := ops[|ops| - 1];
      if op.OpStore? then Writes(ops[..|ops| - 1])[(op.b.no, op.k) := op.v] else Writes(ops[..|ops| - 1])
  }

  /** `h'` is `h` with those cells written. */
  ghost predicate Written(h: Heap, h': Heap, cells: map<(nat, nat), Cell>) {
    && (forall no: nat, k: nat :: InMemory(h', no, k) <==> InMemory(h, no, k))
    && (forall no: nat, k: nat {:trigger InMemory(h, no, k)} :: InMemory(h, no, k) ==>
          CellOf(h', no, k) == if (no, k) in cells then cells[(no, k)] else CellOf(h, no, k))
  }

  lemma WrittenMore(h: Heap, h1: Heap, cells: map<(nat, nat), Cell>, no: nat, k: nat, v: Cell)
    requires Written(h, h1, cells) && InMemory(h1, no, k)
    ensures Written(h, Store(h1, no, k, v), cells[(no, k) := v])
  {
    var h' := Store(h1, no, k, v);
    forall i: nat, j: nat
      ensures InMemory(h', i, j) <==> InMemory(h1, i, j)
      ensures InMemory(h1, i, j) ==> CellOf(h', i, j) == if (i, j) == (no, k) then v else CellOf(h1, i, j)
    {}
    hide InMemory;
    hide CellOf;
  }

  /** Stores into live blocks are a legal run, which leaves memory as written. */
  lemma {:induction false} StoresLead(env: Env, ix: Index, g: Ghost, ops: seq<Op>) returns (ix': Index)
    requires IxInv(env, ix, g) && ix.packed.None? && AllStoring(g, ops)
    ensures Leads(env, ix, g, ops, ix', g) && IxInv(env, ix', g) && ix'.packed.None?
    ensures Written(ix.heap, ix'.heap, Writes(ops))
    decreases |ops|
  {
    hide IxInv;
    hide Leads;
    if ops == [] {
      ix' := ix;
      LeadsNowhere(env, ix, g);
    } else {
      var n := |ops| - 1;
      assert Storing(g, ops[n]) && AllStoring(g, ops[..n]);
      hide Storing;
      var ix1 := StoresLead(env, ix, g, ops[..n]);
      var op := ops[n];
      ix' := StoreLeads(env, ix, g, ops[..n], ix1, op);
      assert ops == ops[..n] + [op];
      WrittenMore(ix.heap, ix1.heap, Writes(ops[..n]), op.b.no, op.k, op.v);
    }
  }

  lemma StoreLeads(env: Env, ix: Index, g: Ghost, ops: seq<Op>, ix1: Index, op: Op) returns (ix': Index)
    requires Leads(env, ix, g, ops, ix1, g) && IxInv(env, ix1, g) && ix1.packed.None? && Storing(g, op)
    ensures Leads(env, ix, g, ops + [op], ix', g) && IxInv(env, ix', g) && ix'.packed.None?
    ensures op.OpStore? && InMemory(ix1.heap, op.b.no, op.k)
    ensures ix'.heap == Store(ix1.heap, op.b.no, op.k, op.v)
  {
    LeadsOn(env, ix, g, ops, ix1, g, op);
    OpenOf(env, ix1, g);
    StoreKeeps(env, ix1, g.book, op.b, op.k, op.v);
    ix' := Step(env, ix1, g, op).0;
  }

  // ---------- the list operations ----------

  function SetNext(n: Node, p: Ptr): Op
    requires p.Fits()
  {
    OpStore(n.b, n.k, EncodePtr(p))
  }

  function SetPrev(n: Node, p: Ptr): Op
    requires p.Fits()
  {
    OpStore(n.b, n.k + 1, EncodePtr(p))
  }

  /** `chk_list_init` */
  function InitOps(n: Node): seq<Op>
    requires NodePtr(n).Fits()
  {
    [SetNext(n, NodePtr(n)), SetPrev(n, NodePtr(n))]
  }

  /** `chk_list_insert` */
  function InsertOps(n: Node, prev: Node, next: Node): seq<Op>
    requires NodePtr(n).Fits() && NodePtr(prev).Fits() && NodePtr(next).Fits()
  {
    [SetPrev(next, NodePtr(n)), SetNext(n, NodePtr(next)), SetPrev(n, NodePtr(prev)), SetNext(prev, NodePtr(n))]
  }

  /** `chk_list_del` of a linked node: its own links keep all but their chunk number. */
  function DelOps(n: Node, prev: Node, next: Node): seq<Op>
    requires NodePtr(n).Fits() && NodePtr(prev).Fits() && NodePtr(next).Fits()
  {
    [SetPrev(next, NodePtr(prev)), SetNext(prev, NodePtr(next)),
     SetPrev(n, NodePtr(prev).(no := NULL_NO)), SetNext(n, NodePtr(next).(no := NULL_NO))]
  }

  lemma WritesMore(ops: seq<Op>, op: Op)
    requires op.OpStore?
    ensures Writes(ops + [op]) == Writes(ops)[(op.b.no, op.k) := op.v]
  {
    assert (ops + [op])[..|ops|] == ops;
  }

  lemma WritesOfFour(a: Op, b: Op, c: Op, d: Op)
    requires a.OpStore? && b.OpStore? && c.OpStore? && d.OpStore?
    ensures Writes([a, b, c, d])
            == map[][(a.b.no, a.k) := a.v][(b.b.no, b.k) := b.v][(c.b.no, c.k) := c.v][(d.b.no, d.k) := d.v]
  {
    WritesMore([], a);
    WritesMore([a], b);
    WritesMore([a, b], c);
    WritesMore([a, b, c], d);
    assert [] + [a] == [a] && [a] + [b] == [a, b] && [a, b] + [c] == [a, b, c] && [a, b, c] + [d] == [a, b, c, d];
  }

  /** The links of the node after the writes. */
  lemma LinksWritten(h: Heap, h': Heap, cells: map<(nat, nat), Cell>, n: Node)
    requires Written(h, h', cells) && Mapped(h, n)
    ensures Mapped(h', n)
    ensures NextLink(h', n) == if (n.b.no, n.k) in cells then DecodePtr(cells[(n.b.no, n.k)]) else NextLink(h, n)
    ensures PrevLink(h', n)
              == if (n.b.no, n.k + 1) in cells then DecodePtr(cells[(n.b.no, n.k + 1)]) else PrevLink(h, n)
  {
    hide DecodePtr;
    assert InMemory(h, n.b.no, n.k) && InMemory(h, n.b.no, n.k + 1);
  }

  /** What `chk_list_insert` makes of the links. */
  lemma InsertLinks(h: Heap, h': Heap, w: seq<Node>, j: nat, n: Node)
    requires Ring(h, w) && j < |w| && Mapped(h, n) && NodePtr(n).Fits()
    requires forall i :: 0 <= i < |w| ==> NodesApart(w[i], n)
    requires Written(h, h', Writes(InsertOps(n, w[j], w[After(w, j)])))
    ensures Mapped(h', n) && NextLink(h', n) == NodePtr(w[After(w, j)]) && PrevLink(h', n) == NodePtr(w[j])
    ensures forall i :: 0 <= i < |w| ==>
              && Mapped(h', w[i])
              && NextLink(h', w[i]) == (if i == j then NodePtr(n) else NextLink(h, w[i]))
              && PrevLink(h', w[i]) == (if i == After(w, j) then NodePtr(n) else PrevLink(h, w[i]))
  {
    hide EncodePtr;
    hide DecodePtr;
    hide NextLink;
    hide PrevLink;
    hide Written;
    var p, q := w[j], w[After(w, j)];
    assert LinkedAt(h, w, j) && LinkedAt(h, w, After(w, j));
    var ops := InsertOps(n, p, q);
    WritesOfFour(ops[0], ops[1], ops[2], ops[3]);
    var cells := Writes(ops);
    hide Writes;
    PtrRoundTrip(NodePtr(n), 0);
    PtrRoundTrip(NodePtr(p), 0);
    PtrRoundTrip(NodePtr(q), 0);
    LinksWritten(h, h', cells, n);
    forall i | 0 <= i < |w|
      ensures Mapped(h', w[i])
      ensures NextLink(h', w[i]) == (if i == j then NodePtr(n) else NextLink(h, w[i]))
      ensures PrevLink(h', w[i]) == (if i == After(w, j) then NodePtr(n) else PrevLink(h, w[i]))
    {
      assert LinkedAt(h, w, i);
      LinksWritten(h, h', cells, w[i]);
      assert NodesApart(w[i], n);
      assert i < j ==> NodesApart(w[i], w[j]);
      assert j < i ==> NodesApart(w[j], w[i]);
      assert i < After(w, j) ==> NodesApart(w[i], w[After(w, j)]);
      assert After(w, j) < i ==> NodesApart(w[After(w, j)], w[i]);
    }
  }

  /** `v` is `w` with `n` after position `j`. */
  ghost predicate PutAfter(w: seq<Node>, j: nat, n: Node, v: seq<Node>) {
    && j < |w| && |v| == |w| + 1 && v[j + 1] == n
    && (forall i :: 0 <= i <= j ==> v[i] == w[i])
    && (forall i :: j + 1 < i < |v| ==> v[i] == w[i - 1])
  }

  lemma PutApart(w: seq<Node>, j: nat, n: Node, v: seq<Node>, a: nat, b: nat)
    requires PutAfter(w, j, n, v) && a < b < |v| && AllApart(w)
    requires forall i :: 0 <= i < |w| ==> NodesApart(w[i], n)
    ensures NodesApart(v[a], v[b])
  {
    var a', b' := if a <= j then a else a - 1, if b <= j then b else b - 1;
    if a != j + 1 && b != j + 1 { assert NodesApart(w[a'], w[b']); }
    if a == j + 1 { assert NodesApart(w[b'], n); }
    if b == j + 1 { assert NodesApart(w[a'], n); }
  }

  /** The neighbours in the longer list. */
  lemma PutNext(w: seq<Node>, j: nat, n: Node, v: seq<Node>, i: nat)
    requires PutAfter(w, j, n, v) && i < |v|
    ensures if i == j then v[i] == w[j] && v[After(v, i)] == n
            else if i == j + 1 then v[i] == n && v[After(v, i)] == w[After(w, j)]
            else
              var k := if i < j then i else i - 1;
              v[i] == w[k] && v[After(v, i)] == w[After(w, k)] && k < |w| && k != j && After(w, k) != After(w, j)
  {
  }

  /** Inserting `n` after position `j` leaves the list with `n` in it. */
  lemma InsertRing(h: Heap, h': Heap, w: seq<Node>, j: nat, n: Node, v: seq<Node>)
    requires Ring(h, w) && PutAfter(w, j, n, v) && Mapped(h, n) && NodePtr(n).Fits()
    requires forall i :: 0 <= i < |w| ==> NodesApart(w[i], n)
    requires j < |w| && Written(h, h', Writes(InsertOps(n, w[j], w[After(w, j)])))
    ensures Ring(h', v)
  {
    InsertLinks(h, h', w, j, n);
    hide Written;
    hide Writes;
    hide NextLink;
    hide PrevLink;
    hide NodePtr;
    hide Mapped;
    hide NodesApart;
    hide After;
    forall a: nat, b: nat | a < b < |v| ensures NodesApart(v[a], v[b]) { PutApart(w, j, n, v, a, b); }
    hide PutAfter;
    hide AllApart;
    forall i: nat | i < |v| ensures Mapped(h', v[i]) && NodePtr(v[i]).Fits() { PutNext(w, j, n, v, i); }
    forall i: nat | i < |v| ensures LinkedAt(h', v, i) {
      PutNext(w, j, n, v, i);
      if i != j + 1 { assert LinkedAt(h, w, if i <= j then i else i - 1); }
    }
  }

  /** What `chk_list_del` makes of the links. */
  lemma DelLinks(h: Heap, h': Heap, w: seq<Node>, j: nat)
    requires Ring(h, w) && j + 1 < |w|
    requires Written(h, h', Writes(DelOps(w[j + 1], w[j], w[After(w, j + 1)])))
    ensures Mapped(h', w[j + 1]) && NextLink(h', w[j + 1]).IsNull() && PrevLink(h', w[j + 1]).IsNull()
    ensures forall i :: 0 <= i < |w| && i != j + 1 ==>
              && Mapped(h', w[i])
              && NextLink(h', w[i]) == (if i == j then NodePtr(w[After(w, j + 1)]) else NextLink(h, w[i]))
              && PrevLink(h', w[i]) == (if i == After(w, j + 1) then NodePtr(w[j]) else PrevLink(h, w[i]))
  {
    hide EncodePtr;
    hide DecodePtr;
    hide NextLink;
    hide PrevLink;
    hide Written;
    var n, p, q := w[j + 1], w[j], w[After(w, j + 1)];
    assert LinkedAt(h, w, j) && LinkedAt(h, w, After(w, j + 1));
    var ops := DelOps(n, p, q);
    WritesOfFour(ops[0], ops[1], ops[2], ops[3]);
    var cells := Writes(ops);
    hide Writes;
    PtrRoundTrip(NodePtr(p), 0);
    PtrRoundTrip(NodePtr(q), 0);
    PtrRoundTrip(NodePtr(p).(no := NULL_NO), 0);
    PtrRoundTrip(NodePtr(q).(no := NULL_NO), 0);
    assert LinkedAt(h, w, j + 1);
    LinksWritten(h, h', cells, n);
    assert NodesApart(p, n) && (After(w, j + 1) == 0 ==> NodesApart(q, n))
        && (After(w, j + 1) != 0 ==> NodesApart(n, q));
    forall i | 0 <= i < |w| && i != j + 1
      ensures Mapped(h', w[i])
      ensures NextLink(h', w[i]) == (if i == j then NodePtr(q) else NextLink(h, w[i]))
      ensures PrevLink(h', w[i]) == (if i == After(w, j + 1) then NodePtr(p) else PrevLink(h, w[i]))
    {
      assert LinkedAt(h, w, i);
      LinksWritten(h, h', cells, w[i]);
      assert i < j ==> NodesApart(w[i], w[j]);
      assert j < i ==> NodesApart(w[j], w[i]);
      assert i < j + 1 ==> NodesApart(w[i], w[j + 1]);
      assert j + 1 < i ==> NodesApart(w[j + 1], w[i]);
      assert i < After(w, j + 1) ==> NodesApart(w[i], q);
      assert After(w, j + 1) < i ==> NodesApart(q, w[i]);
    }
  }

  /** The neighbours in the shorter list. */
  lemma DelNext(w: seq<Node>, j: nat, v: seq<Node>, i: nat) returns (k: nat)
    requires j + 1 < |w| && PutAfter(v, j, w[j + 1], w) && i < |v|
    ensures k < |w| && k != j + 1 && v[i] == w[k] && (i == j <==> k == j)
    ensures if i == j then v[After(v, i)] == w[After(w, j + 1)] && After(w, j + 1) != j + 1
            else v[After(v, i)] == w[After(w, k)] && After(w, k) != j + 1 && After(w, k) != After(w, j + 1)
  {
    k := if i <= j then i else i + 1;
  }

  /** Deleting the node after position `j` leaves the list without it, and the node unlinked. */
  lemma DelRing(h: Heap, h': Heap, w: seq<Node>, j: nat, v: seq<Node>)
    requires Ring(h, w) && j + 1 < |w| && PutAfter(v, j, w[j + 1], w)
    requires Written(h, h', Writes(DelOps(w[j + 1], w[j], w[After(w, j + 1)])))
    ensures Ring(h', v)
    ensures Mapped(h', w[j + 1]) && NextLink(h', w[j + 1]).IsNull() && PrevLink(h', w[j + 1]).IsNull()
  {
    DelLinks(h, h', w, j);
    hide Written;
    hide Writes;
    hide NextLink;
    hide PrevLink;
    hide NodePtr;
    hide Mapped;
    hide NodesApart;
    hide After;
    var n := w[j + 1];
    forall a: nat, b: nat | a < b < |v| ensures NodesApart(v[a], v[b]) {
      assert NodesApart(w[if a <= j then a else a + 1], w[if b <= j then b else b + 1]);
    }
    assert |w| == |v| + 1;
    hide PutAfter;
    hide AllApart;
    forall i: nat | i < |v| ensures Mapped(h', v[i]) && NodePtr(v[i]).Fits() { var k := DelNext(w, j, v, i); }
    forall i: nat | i < |v| ensures LinkedAt(h', v, i) {
      var k := DelNext(w, j, v, i);
      assert LinkedAt(h, w, k);
    }
  }

  // ---------- the list operations as runs ----------

  ghost predicate AllOwned(g: Ghost, w: seq<Node>) {
    forall i :: 0 <= i < |w| ==> Owned(g, w[i])
  }

  lemma NodeStores(g: Ghost, n: Node, p: ChkPtr)
    requires Owned(g, n)
    ensures Storing(g, SetNext(n, p)) && Storing(g, SetPrev(n, p))
  {
  }

  lemma OpenMapped(env: Env, ix: Index, g: Ghost, n: Node)
    requires IxInv(env, ix, g) && ix.packed.None? && Owned(g, n)
    ensures Mapped(ix.heap, n) && NodePtr(n).Fits()
  {
    ViewOf(env, ix, g, n.b);
    OwnedMapped(ix.heap, g, n);
  }

  /** `chk_list_init` of a node in a live block is a legal run that leaves an empty list. */
  lemma InitLeads(env: Env, ix: Index, g: Ghost, n: Node) returns (ix': Index)
    requires IxInv(env, ix, g) && ix.packed.None? && Owned(g, n)
    ensures NodePtr(n).Fits() && Leads(env, ix, g, InitOps(n), ix', g)
    ensures IxInv(env, ix', g) && ix'.packed.None? && Ring(ix'.heap, [n])
  {
    hide IxInv;
    hide Leads;
    OpenMapped(env, ix, g, n);
    NodeStores(g, n, NodePtr(n));
    var ops := InitOps(n);
    assert AllStoring(g, ops);
    hide AllStoring;
    hide Storing;
    hide Owned;
    ix' := StoresLead(env, ix, g, ops);
    InitRing(ix.heap, ix'.heap, n);
  }

  lemma InitRing(h: Heap, h': Heap, n: Node)
    requires Mapped(h, n) && NodePtr(n).Fits() && Written(h, h', Writes(InitOps(n)))
    ensures Ring(h', [n])
  {
    hide Written;
    hide DecodePtr;
    hide EncodePtr;
    InitWrites(n);
    PtrRoundTrip(NodePtr(n), 0);
    LinksWritten(h, h', Writes(InitOps(n)), n);
    hide NextLink;
    hide PrevLink;
    hide Writes;
    assert LinkedAt(h', [n], 0);
  }

  lemma InitWrites(n: Node)
    requires NodePtr(n).Fits()
    ensures Writes(InitOps(n))
            == map[][(n.b.no, n.k) := EncodePtr(NodePtr(n))][(n.b.no, n.k + 1) := EncodePtr(NodePtr(n))]
  {
    var a, b := SetNext(n, NodePtr(n)), SetPrev(n, NodePtr(n));
    WritesMore([], a);
    WritesMore([a], b);
    assert [] + [a] == [a] && [a] + [b] == [a, b];
  }

  /** `chk_list_insert` after position `j` of a list in live blocks is a legal run, and its four stores
      leave the list with the node in it. */
  lemma InsertLeads(env: Env, ix: Index, g: Ghost, w: seq<Node>, j: nat, n: Node) returns (ix': Index)
    requires IxInv(env, ix, g) && ix.packed.None? && Ring(ix.heap, w) && AllOwned(g, w) && j < |w|
    requires Owned(g, n) && forall i :: 0 <= i < |w| ==> NodesApart(w[i], n)
    ensures NodePtr(n).Fits() && Leads(env, ix, g, InsertOps(n, w[j], w[After(w, j)]), ix', g)
    ensures IxInv(env, ix', g) && ix'.packed.None?
    ensures var v := w[..j + 1] + [n] + w[j + 1..]; Ring(ix'.heap, v) && AllOwned(g, v)
  {
    hide IxInv;
    hide Leads;
    hide Owned;
    OpenMapped(env, ix, g, n);
    var p, q := w[j], w[After(w, j)];
    var ops := InsertOps(n, p, q);
    InsertStoring(g, n, p, q);
    ix' := StoresLead(env, ix, g, ops);
    hide Ring;
    var v := w[..j + 1] + [n] + w[j + 1..];
    InsertRing(ix.heap, ix'.heap, w, j, n, v);
  }

  lemma InsertStoring(g: Ghost, n: Node, prev: Node, next: Node)
    requires Owned(g, n) && Owned(g, prev) && Owned(g, next)
    requires NodePtr(n).Fits() && NodePtr(prev).Fits() && NodePtr(next).Fits()
    ensures AllStoring(g, InsertOps(n, prev, next)) && AllStoring(g, DelOps(n, prev, next))
  {
    NodeStores(g, next, NodePtr(n));
    NodeStores(g, n, NodePtr(next));
    NodeStores(g, n, NodePtr(prev));
    NodeStores(g, prev, NodePtr(n));
    NodeStores(g, next, NodePtr(prev));
    NodeStores(g, prev, NodePtr(next));
    NodeStores(g, n, NodePtr(prev).(no := NULL_NO));
    NodeStores(g, n, NodePtr(next).(no := NULL_NO));
    hide Owned;
    hide Storing;
  }

  /** `chk_list_del` of the node after position `j` likewise: its four stores leave the list without the
      node, and the node unlinked. */
  lemma DelLeads(env: Env, ix: Index, g: Ghost, w: seq<Node>, j: nat) returns (ix': Index)
    requires IxInv(env, ix, g) && ix.packed.None? && Ring(ix.heap, w) && AllOwned(g, w) && j + 1 < |w|
    ensures Leads(env, ix, g, DelOps(w[j + 1], w[j], w[After(w, j + 1)]), ix', g)
    ensures IxInv(env, ix', g) && ix'.packed.None?
    ensures var v := w[..j + 1] + w[j + 2..]; Ring(ix'.heap, v) && AllOwned(g, v)
    ensures Mapped(ix'.heap, w[j + 1]) && NextLink(ix'.heap, w[j + 1]).IsNull() && PrevLink(ix'.heap, w[j + 1]).IsNull()
  {
    hide IxInv;
    hide Leads;
    hide Owned;
    var n, p, q := w[j + 1], w[j], w[After(w, j + 1)];
    var ops := DelOps(n, p, q);
    InsertStoring(g, n, p, q);
    ix' := StoresLead(env, ix, g, ops);
    hide Ring;
    DelRing(ix.heap, ix'.heap, w, j, w[..j + 1] + w[j + 2..]);
  }
}
