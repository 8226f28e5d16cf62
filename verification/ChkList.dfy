/**
  The intrusive circular doubly linked list of chk/chk_list.h.

  A node object stands for one list node in chunk memory; its links are the `next` and `prev`
  handles, `null` being the null handle.  `val` is the container the node is embedded in: list
  operations never write it.  A list is a head node `h` together with the sequence `s` of the nodes
  reached from it, tied together by `Ring(h, s)`.
 */
module ChkList {

  class ChklistNode<T> {
    var next: ChklistNode?<T>
    var prev: ChklistNode?<T>
    const val: T

    constructor (v: T)
      ensures val == v && Unlinked()
    {
      val := v;
      next, prev := null, null;
    }

    predicate Unlinked()
      reads this
    {
      prev == null || next == null
    }
  }

  /** The closed walk from the head through `s` and back to the head. */
  ghost function Walk<T>(h: ChklistNode<T>, s: seq<ChklistNode<T>>): seq<ChklistNode<T>> {
    [h] + s + [h]
  }

  /** Only the two ends of the walk coincide. */
  ghost predicate Simple<X>(w: seq<X>) {
    forall i, j :: 0 <= i < j < |w| - 1 ==> w[i] != w[j]
  }

  /** `h` heads the circular list of exactly the nodes `s`: next and prev are mutually inverse along
      the walk, and no node occurs twice. */
  ghost predicate Ring<T>(h: ChklistNode<T>, s: seq<ChklistNode<T>>)
    reads h, s
  {
    && var w := Walk(h, s);
    && Simple(w)
    && (forall k {:trigger w[k].next} :: 0 <= k <= |s| ==> w[k].next == w[k + 1])
    && (forall k {:trigger w[k].prev} :: 0 < k <= |s| + 1 ==> w[k].prev == w[k - 1])
  }

  ghost predicate Apart<X>(s: seq<X>, t: seq<X>) {
    forall x :: x in s ==> x !in t
  }

  /** Two lists share no node and no head. */
  ghost predicate Separate<T>(h: ChklistNode<T>, s: seq<ChklistNode<T>>, g: ChklistNode<T>, t: seq<ChklistNode<T>>) {
    h != g && h !in t && g !in s && Apart(s, t)
  }

  /** A ring is determined by its head: the same heap cannot hold two different lists at one head. */
  lemma {:induction false} RingIsUnique<T>(h: ChklistNode<T>, s: seq<ChklistNode<T>>, t: seq<ChklistNode<T>>)
    requires Ring(h, s) && Ring(h, t) && |s| <= |t|
    ensures s == t
  {
    var v, w := Walk(h, s), Walk(h, t);
    var k := 0;
    while k <= |s|
      invariant 0 <= k <= |s| + 1
      invariant forall j :: 0 <= j <= k ==> v[j] == w[j]
    {
      assert v[k].next == v[k + 1] && w[k].next == w[k + 1];
      k := k + 1;
    }
    assert w[|s| + 1] == w[0];
    forall j | 0 <= j < |s| ensures s[j] == t[j] { assert v[j + 1] == w[j + 1]; }
  }

  // ---------- the operations ----------

  method Init<T>(h: ChklistNode<T>)
    modifies h
    ensures Ring(h, [])
  {
    h.next := h;
    h.prev := h.next;
  }

  method Empty<T>(h: ChklistNode<T>, ghost s: seq<ChklistNode<T>>) returns (b: bool)
    requires Ring(h, s)
    ensures b <==> s == []
  {
    b := h.next == h;
    assert Walk(h, s)[0].next == Walk(h, s)[1];
    if s != [] {
      assert Walk(h, s)[0] != Walk(h, s)[1];
    }
  }

  lemma InsertWalk<T>(h: ChklistNode<T>, s: seq<ChklistNode<T>>, k: nat, n: ChklistNode<T>)
    requires Simple(Walk(h, s)) && k <= |s| && n != h && n !in s
    ensures var v, w := Walk(h, s), Walk(h, s[..k] + [n] + s[k..]);
            && Simple(w) && w[k + 1] == n && v[|s| + 1] == v[0]
            && (forall j :: 0 <= j <= k ==> w[j] == v[j])
            && (forall j :: k + 2 <= j < |w| ==> w[j] == v[j - 1])
            && (forall j :: 0 <= j < |v| ==> v[j] != n)
  {
    var v, w := Walk(h, s), Walk(h, s[..k] + [n] + s[k..]);
    assert forall j :: 0 < j <= |s| ==> v[j] in s;
    assert forall j :: 0 <= j <= k ==> w[j] == v[j];
    assert forall j :: k + 2 <= j < |w| ==> w[j] == v[j - 1];
  }

  lemma DelWalk<T>(h: ChklistNode<T>, s: seq<ChklistNode<T>>, k: nat)
    requires Simple(Walk(h, s)) && k < |s|
    ensures var v, w := Walk(h, s), Walk(h, s[..k] + s[k + 1..]);
            && Simple(w) && v[k + 1] == s[k] && v[|s| + 1] == v[0]
            && (forall j :: 0 <= j <= k ==> w[j] == v[j])
            && (forall j :: k < j < |w| ==> w[j] == v[j + 1])
  {
    var v, w := Walk(h, s), Walk(h, s[..k] + s[k + 1..]);
    assert forall j :: 0 <= j <= k ==> w[j] == v[j];
    assert forall j :: k < j < |w| ==> w[j] == v[j + 1];
  }

  lemma SpliceWalk<T>(from: ChklistNode<T>, to: ChklistNode<T>, a: seq<ChklistNode<T>>, b: seq<ChklistNode<T>>)
    requires Simple(Walk(from, a)) && Simple(Walk(to, b)) && Separate(from, a, to, b)
    ensures var u, v, w := Walk(from, a), Walk(to, b), Walk(to, b + a);
            && Simple(w) && v[|b| + 1] == v[0] && u[|a| + 1] == u[0]
            && (forall j :: 0 <= j <= |b| ==> w[j] == v[j])
            && (forall j :: |b| < j <= |b| + |a| ==> w[j] == u[j - |b|])
            && (forall i, j :: 0 <= i < |u| && 0 <= j < |v| ==> u[i] != v[j])
  {
    var u, v, w := Walk(from, a), Walk(to, b), Walk(to, b + a);
    assert forall i :: 0 <= i < |u| ==> u[i] == from || u[i] in a;
    assert forall j :: 0 <= j < |v| ==> v[j] == to || v[j] in b;
    assert forall j :: 0 <= j <= |b| ==> w[j] == v[j];
    assert forall j :: |b| < j <= |b| + |a| ==> w[j] == u[j - |b|];
  }

  /** Links `n` between two neighbours.  The ghost arguments name the list and the position. */
  method Insert<T>(n: ChklistNode<T>, prev: ChklistNode<T>, next: ChklistNode<T>,
                   ghost h: ChklistNode<T>, ghost s: seq<ChklistNode<T>>, ghost k: nat)
    requires Ring(h, s) && n != h && n !in s
    requires k <= |s| && prev == Walk(h, s)[k] && next == Walk(h, s)[k + 1]
    modifies n, prev, next
    ensures Ring(h, s[..k] + [n] + s[k..])
  {
    next.prev := n;
    n.next := next;
    n.prev := prev;
    prev.next := next.prev;
    InsertWalk(h, s, k, n);
  }

  method Add<T>(n: ChklistNode<T>, h: ChklistNode<T>, ghost s: seq<ChklistNode<T>>)
    requires Ring(h, s) && n != h && n !in s
    modifies n, h, h.next
    ensures Ring(h, [n] + s)
  {
    assert Walk(h, s)[0].next == Walk(h, s)[1];
    var next := h.next;
    Insert(n, h, next, h, s, 0);
    assert s[..0] + [n] + s[0..] == [n] + s;
  }

  method AddTail<T>(n: ChklistNode<T>, h: ChklistNode<T>, ghost s: seq<ChklistNode<T>>)
    requires Ring(h, s) && n != h && n !in s
    modifies n, h, h.prev
    ensures Ring(h, s + [n])
  {
    assert Walk(h, s)[|s| + 1].prev == Walk(h, s)[|s|];
    var prev := h.prev;
    Insert(n, prev, h, h, s, |s|);
    assert s[..|s|] + [n] + s[|s|..] == s + [n];
  }

  /** Unlinks `n`.  A node that is already unlinked is left alone, whatever `h` and `s` are. */
  method Del<T>(n: ChklistNode<T>, ghost h: ChklistNode<T>, ghost s: seq<ChklistNode<T>>, ghost k: nat)
    requires n.Unlinked() || (Ring(h, s) && k < |s| && s[k] == n)
    modifies n, n.prev, n.next
    ensures old(n.Unlinked()) ==> unchanged(n)
    ensures old(n.Unlinked()) && old(n.prev) != null ==> unchanged(old(n.prev))
    ensures old(n.Unlinked()) && old(n.next) != null ==> unchanged(old(n.next))
    ensures !old(n.Unlinked()) ==> n.prev == null && n.next == null && Ring(h, s[..k] + s[k + 1..])
  {
    if n.Unlinked() {
      return;
    }
    ghost var v := Walk(h, s);
    assert v[k + 1] == n && v[k + 1].next == v[k + 2] && v[k + 1].prev == v[k];
    var prev, next := n.prev, n.next;
    next.prev := prev;
    prev.next := next;
    n.prev := null;
    n.next := null;
    DelWalk(h, s, k);
  }

  /** Moves the whole of list `from` to the tail of list `to`. */
  method Splice<T>(from: ChklistNode<T>, to: ChklistNode<T>,
                   ghost a: seq<ChklistNode<T>>, ghost b: seq<ChklistNode<T>>)
    requires Ring(from, a) && Ring(to, b) && Separate(from, a, to, b)
    modifies from, from.next, from.prev, to, to.prev
    ensures Ring(from, []) && Ring(to, b + a)
  {
    ghost var u, v := Walk(from, a), Walk(to, b);
    assert u[0].next == u[1] && u[|a| + 1].prev == u[|a|] && v[|b| + 1].prev == v[|b|];
    var isEmpty := Empty(from, a);
    if isEmpty {
      assert b + a == b;
      return;
    }
    var first, last, at := from.next, from.prev, to.prev;
    first.prev := at;
    at.next := first;
    last.next := to;
    to.prev := last;
    Init(from);
    SpliceWalk(from, to, a, b);
  }

  // ---------- ordered merge ----------

  type Cmp<!T> = (T, T) -> int

  /** What `Merge` leaves in the left list.  An equal pair advances the left side and drops the right
      node; a larger left node puts the right node in front of it, and the right node is compared next. */
  function Merged<T>(l: seq<ChklistNode<T>>, r: seq<ChklistNode<T>>, cmp: Cmp<T>): seq<ChklistNode<T>>
    decreases 2 * |r| + |l|
  {
    if l == [] || r == [] then l + r
    else
      var c := cmp(l[0].val, r[0].val);
      if c < 0 then [l[0]] + Merged(l[1..], r, cmp)
      else if c == 0 then [l[0]] + Merged(l[1..], r[1..], cmp)
      else Merged([r[0]] + l, r[1..], cmp)
  }

  /** The right nodes that `Merge` unlinks and puts nowhere. */
  function Dropped<T>(l: seq<ChklistNode<T>>, r: seq<ChklistNode<T>>, cmp: Cmp<T>): seq<ChklistNode<T>>
    decreases 2 * |r| + |l|
  {
    if l == [] || r == [] then []
    else
      var c := cmp(l[0].val, r[0].val);
      if c < 0 then Dropped(l[1..], r, cmp)
      else if c == 0 then [r[0]] + Dropped(l[1..], r[1..], cmp)
      else Dropped([r[0]] + l, r[1..], cmp)
  }

  ghost predicate AllUnlinked<T>(s: seq<ChklistNode<T>>)
    reads s
  {
    forall n :: n in s ==> n.next == null && n.prev == null
  }

  ghost predicate Within<X>(s: seq<X>, all: set<X>) {
    forall i :: 0 <= i < |s| ==> s[i] in all
  }

  /** The state between two passes of `Merge`: two rings and the dropped nodes, all separate, and
      together no more than the nodes the merge began with. */
  ghost predicate Merging<T>(lf: ChklistNode<T>, s: seq<ChklistNode<T>>, rh: ChklistNode<T>,
                             t: seq<ChklistNode<T>>, drops: seq<ChklistNode<T>>, all: set<ChklistNode<T>>)
    reads lf, s, rh, t, drops
  {
    && lf in all && rh in all && Within(s, all) && Within(t, all) && Within(drops, all)
    && Ring(lf, s) && Ring(rh, t) && AllUnlinked(drops)
    && Separate(lf, s, rh, t)
    && lf !in drops && rh !in drops && Apart(drops, s) && Apart(drops, t)
  }

  /** Takes the first node off the right list; it joins the dropped nodes. */
  method TakeFirst<T>(lf: ChklistNode<T>, rh: ChklistNode<T>, node: ChklistNode<T>, ghost s: seq<ChklistNode<T>>,
                      ghost t: seq<ChklistNode<T>>, ghost drops: seq<ChklistNode<T>>, ghost all: set<ChklistNode<T>>)
    requires Merging(lf, s, rh, t, drops, all) && t != [] && node == t[0]
    modifies all
    ensures Merging(lf, s, rh, t[1..], drops + [node], all)
    ensures rh.next == Walk(rh, t)[2]
  {
    ghost var v := Walk(rh, t);
    assert v[1].next == v[2] && v[1].prev == v[0] && (v[2] == rh || v[2] in t) && v[0] != v[1];
    assert node !in t[1..] by { assert forall j :: 1 <= j < |t| ==> v[1] != v[j + 1] && t[j] == v[j + 1]; }
    Del(node, rh, t, 0);
    assert t[..0] + t[1..] == t[1..];
    assert Walk(rh, t[1..])[0].next == Walk(rh, t[1..])[1];
  }

  /** Puts a node that was taken off the right list in front of the left node at position `k`. */
  method PlaceAt<T>(lf: ChklistNode<T>, rh: ChklistNode<T>, node: ChklistNode<T>, at: ChklistNode<T>,
                    ghost s: seq<ChklistNode<T>>, ghost t: seq<ChklistNode<T>>,
                    ghost drops: seq<ChklistNode<T>>, ghost k: nat, ghost all: set<ChklistNode<T>>)
    requires Merging(lf, s, rh, t, drops + [node], all) && node !in drops
    requires k < |s| && at == s[k]
    modifies all
    ensures Merging(lf, s[..k] + [node] + s[k..], rh, t, drops, all)
  {
    ghost var w := Walk(lf, s);
    assert w[k + 1] == at && w[k + 1].prev == w[k] && (w[k] == lf || w[k] in s);
    assert node in drops + [node] && node in all by { assert (drops + [node])[|drops|] == node; }
    assert Within(drops, all) by { assert forall i :: 0 <= i < |drops| ==> drops[i] == (drops + [node])[i]; }
    assert forall d :: d in drops ==> d in drops + [node];
    var pre := at.prev;
    Insert(node, pre, at, lf, s, k);
  }

  /** The iterator's `++`: from a node of the list to the one after it. */
  method NextOf<T>(n: ChklistNode<T>, ghost h: ChklistNode<T>, ghost s: seq<ChklistNode<T>>, ghost k: nat)
    returns (m: ChklistNode<T>)
    requires Ring(h, s) && k < |s| && n == s[k]
    ensures m == Walk(h, s)[k + 2]
  {
    assert Walk(h, s)[k + 1].next == Walk(h, s)[k + 2];
    m := n.next;
  }

  /** Appends what is left of the right list to the left one. */
  method AppendRest<T>(lf: ChklistNode<T>, rh: ChklistNode<T>, ghost s: seq<ChklistNode<T>>,
                       ghost t: seq<ChklistNode<T>>, ghost drops: seq<ChklistNode<T>>, ghost all: set<ChklistNode<T>>)
    requires Merging(lf, s, rh, t, drops, all)
    modifies all
    ensures Merging(lf, s + t, rh, [], drops, all)
  {
    ghost var u, v := Walk(rh, t), Walk(lf, s);
    assert u[0].next == u[1] && u[|t| + 1].prev == u[|t|] && v[|s| + 1].prev == v[|s|];
    assert u[1] in all && u[|t|] in all && v[|s|] in all;
    var isEmpty := Empty(rh, t);
    if isEmpty {
      assert s + t == s;
    } else {
      assert rh !in t by { assert forall j :: 0 <= j < |t| ==> u[0] != u[j + 1] && t[j] == u[j + 1]; }
      Splice(rh, lf, t, s);
    }
  }

  /** With `s` in the left list, the left iterator in front of position `k`, `t` left on the right
      and `drops` unlinked, the merge of `l` and `r` is on its way to its result. */
  ghost predicate Towards<T>(l: seq<ChklistNode<T>>, r: seq<ChklistNode<T>>, cmp: Cmp<T>, s: seq<ChklistNode<T>>,
                             k: nat, t: seq<ChklistNode<T>>, drops: seq<ChklistNode<T>>)
  {
    && k <= |s|
    && s[..k] + Merged(s[k..], t, cmp) == Merged(l, r, cmp)
    && drops + Dropped(s[k..], t, cmp) == Dropped(l, r, cmp)
  }

  lemma TowardsStart<T>(l: seq<ChklistNode<T>>, r: seq<ChklistNode<T>>, cmp: Cmp<T>)
    ensures Towards(l, r, cmp, l, 0, r, []) && AllUnlinked<T>([])
  {
    assert l[0..] == l && l[..0] == [];
  }

  lemma MergedOnce<T>(l: seq<ChklistNode<T>>, r: seq<ChklistNode<T>>, cmp: Cmp<T>)
    requires l != [] && r != []
    ensures var c, l', r' := cmp(l[0].val, r[0].val), l[1..], r[1..];
            && (c < 0 ==> Merged(l, r, cmp) == [l[0]] + Merged(l', r, cmp) && Dropped(l, r, cmp) == Dropped(l', r, cmp))
            && (c == 0 ==> Merged(l, r, cmp) == [l[0]] + Merged(l', r', cmp)
                           && Dropped(l, r, cmp) == [r[0]] + Dropped(l', r', cmp))
            && (c > 0 ==> Merged(l, r, cmp) == Merged([r[0]] + l, r', cmp)
                          && Dropped(l, r, cmp) == Dropped([r[0]] + l, r', cmp))
  {
  }

  lemma {:induction false} TowardsStep<T>(l: seq<ChklistNode<T>>, r: seq<ChklistNode<T>>, cmp: Cmp<T>,
                                          s: seq<ChklistNode<T>>, k: nat, t: seq<ChklistNode<T>>,
                                          drops: seq<ChklistNode<T>>)
    requires Towards(l, r, cmp, s, k, t, drops) && k < |s| && t != []
    ensures cmp(s[k].val, t[0].val) < 0 ==> Towards(l, r, cmp, s, k + 1, t, drops)
    ensures cmp(s[k].val, t[0].val) == 0 ==> Towards(l, r, cmp, s, k + 1, t[1..], drops + [t[0]])
    ensures cmp(s[k].val, t[0].val) > 0 ==> Towards(l, r, cmp, s[..k] + [t[0]] + s[k..], k, t[1..], drops)
  {
    MergedOnce(s[k..], t, cmp);
    hide Merged;
    hide Dropped;
    assert s[k..][1..] == s[k + 1..] && s[..k + 1] == s[..k] + [s[k]];
    var w := s[..k] + [t[0]] + s[k..];
    assert w[..k] == s[..k] && w[k..] == [t[0]] + s[k..];
  }

  lemma {:induction false} TowardsEnd<T>(l: seq<ChklistNode<T>>, r: seq<ChklistNode<T>>, cmp: Cmp<T>,
                                         s: seq<ChklistNode<T>>, k: nat, t: seq<ChklistNode<T>>,
                                         drops: seq<ChklistNode<T>>)
    requires Towards(l, r, cmp, s, k, t, drops) && (k == |s| || t == [])
    ensures s + t == Merged(l, r, cmp) && drops == Dropped(l, r, cmp)
  {
    assert s + t == s[..k] + (s[k..] + t);
  }

  /** Where the two iterators of `Merge` stand. */
  ghost predicate Cursors<T>(lf: ChklistNode<T>, s: seq<ChklistNode<T>>, k: nat, rh: ChklistNode<T>,
                             t: seq<ChklistNode<T>>, iterL: ChklistNode<T>, iterR: ChklistNode<T>)
  {
    k <= |s| && iterL == Walk(lf, s)[k + 1] && iterR == Walk(rh, t)[1]
  }

  /** One pass of the loop of `Merge`: compares the two front nodes and moves the iterators, unlinking
      the right node unless it is the larger one and relinking it in front of the left node if it is
      the smaller one. */
  method MergePass<T>(lf: ChklistNode<T>, rh: ChklistNode<T>, cmp: Cmp<T>, iterL: ChklistNode<T>, iterR: ChklistNode<T>,
                      ghost s: seq<ChklistNode<T>>, ghost k: nat, ghost t: seq<ChklistNode<T>>,
                      ghost drops: seq<ChklistNode<T>>, ghost all: set<ChklistNode<T>>,
                      ghost l: seq<ChklistNode<T>>, ghost r: seq<ChklistNode<T>>)
    returns (nextL: ChklistNode<T>, nextR: ChklistNode<T>, ghost s': seq<ChklistNode<T>>, ghost k': nat,
             ghost t': seq<ChklistNode<T>>, ghost drops': seq<ChklistNode<T>>)
    requires Merging(lf, s, rh, t, drops, all) && k < |s| && t != []
    requires Cursors(lf, s, k, rh, t, iterL, iterR) && Towards(l, r, cmp, s, k, t, drops)
    modifies all
    ensures Merging(lf, s', rh, t', drops', all)
    ensures Cursors(lf, s', k', rh, t', nextL, nextR) && Towards(l, r, cmp, s', k', t', drops')
    ensures 2 * |t'| + |s'| - k' < 2 * |t| + |s| - k
  {
    TowardsStep(l, r, cmp, s, k, t, drops);
    s', k', t', drops' := s, k + 1, t, drops;
    nextL, nextR := iterL, iterR;
    var c := cmp(iterL.val, iterR.val);
    if c < 0 {
      nextL := NextOf(iterL, lf, s, k);
    } else {
      nextR := NextOf(iterR, rh, t, 0);
      TakeFirst(lf, rh, iterR, s, t, drops, all);
      t', drops' := t[1..], drops + [iterR];
      if c == 0 {
        nextL := NextOf(iterL, lf, s, k);
      } else {
        PlaceAt(lf, rh, iterR, iterL, s, t[1..], drops, k, all);
        s', k', drops' := s[..k] + [iterR] + s[k..], k, drops;
        nextL := iterR;
      }
    }
  }

  /** Merges list `rh` into list `lf` in place, for any comparator and any order of the two lists.
      `steps` counts the passes of the loop. */
  method Merge<T>(lf: ChklistNode<T>, rh: ChklistNode<T>, cmp: Cmp<T>,
                  ghost l: seq<ChklistNode<T>>, ghost r: seq<ChklistNode<T>>) returns (ghost steps: nat)
    requires Ring(lf, l) && Ring(rh, r) && Separate(lf, l, rh, r)
    modifies lf, rh, l, r
    ensures Ring(lf, Merged(l, r, cmp)) && Ring(rh, [])
    ensures AllUnlinked(Dropped(l, r, cmp))
    ensures steps <= 2 * |r| + |l|
  {
    hide Towards;
    hide AllUnlinked;
    hide Merged;
    hide Dropped;
    TowardsStart(l, r, cmp);
    ghost var s, k: nat, t, drops := l, 0, r, [];
    ghost var all := {lf, rh} + (set x | x in l) + (set x | x in r);
    steps := 0;
    assert Walk(lf, l)[0].next == Walk(lf, l)[1] && Walk(rh, r)[0].next == Walk(rh, r)[1];
    var iterL: ChklistNode<T>, iterR: ChklistNode<T> := lf.next, rh.next;
    while iterL != lf && iterR != rh
      invariant Merging(lf, s, rh, t, drops, all)
      invariant Cursors(lf, s, k, rh, t, iterL, iterR) && Towards(l, r, cmp, s, k, t, drops)
      invariant steps + 2 * |t| + |s| - k <= 2 * |r| + |l|
      decreases 2 * |t| + |s| - k
    {
      steps := steps + 1;
      iterL, iterR, s, k, t, drops := MergePass(lf, rh, cmp, iterL, iterR, s, k, t, drops, all, l, r);
    }
    assert k < |s| ==> Walk(lf, s)[0] != Walk(lf, s)[k + 1];
    assert t != [] ==> Walk(rh, t)[0] != Walk(rh, t)[1];
    TowardsEnd(l, r, cmp, s, k, t, drops);
    AppendRest(lf, rh, s, t, drops, all);
  }

  // ---------- what the merge means ----------

  /** The comparator is a total preorder: its sign is antisymmetric and `<= 0` is transitive. */
  ghost predicate Order<T(!new)>(cmp: Cmp<T>) {
    && (forall x, y {:trigger cmp(x, y), cmp(y, x)} :: cmp(x, y) < 0 <==> cmp(y, x) > 0)
    && (forall x, y, z {:trigger cmp(x, y), cmp(y, z), cmp(x, z)} ::
          cmp(x, y) <= 0 && cmp(y, z) <= 0 ==> cmp(x, z) <= 0)
  }

  ghost predicate Ascending<T>(s: seq<ChklistNode<T>>, cmp: Cmp<T>) {
    forall i, j :: 0 <= i < j < |s| ==> cmp(s[i].val, s[j].val) < 0
  }

  /** `x` compares equal to some node of `l`. */
  ghost predicate Tied<T>(x: ChklistNode<T>, l: seq<ChklistNode<T>>, cmp: Cmp<T>) {
    exists i :: 0 <= i < |l| && cmp(l[i].val, x.val) == 0
  }

  lemma Below<T(!new)>(cmp: Cmp<T>, x: T, y: T, z: T)
    requires Order(cmp) && ((cmp(x, y) < 0 && cmp(y, z) <= 0) || (cmp(x, y) <= 0 && cmp(y, z) < 0))
    ensures cmp(x, z) < 0
  {
    assert cmp(x, z) >= 0 ==> cmp(z, x) <= 0;
    assert cmp(z, x) <= 0 && cmp(x, y) <= 0 ==> cmp(z, y) <= 0;
    assert cmp(y, z) <= 0 && cmp(z, x) <= 0 ==> cmp(y, x) <= 0;
  }

  /** Nothing is lost, whatever the comparator: the merged list and the dropped nodes are together
      exactly the nodes of both lists, each as often as it occurred. */
  lemma {:induction false} MergeConserves<T>(l: seq<ChklistNode<T>>, r: seq<ChklistNode<T>>, cmp: Cmp<T>,
                                             x: ChklistNode<T>)
    ensures multiset(Merged(l, r, cmp))[x] + multiset(Dropped(l, r, cmp))[x] == multiset(l)[x] + multiset(r)[x]
    decreases 2 * |r| + |l|
  {
    if l != [] && r != [] {
      var c := cmp(l[0].val, r[0].val);
      assert l == [l[0]] + l[1..] && r == [r[0]] + r[1..];
      if c < 0 {
        MergeConserves(l[1..], r, cmp, x);
      } else if c == 0 {
        MergeConserves(l[1..], r[1..], cmp, x);
      } else {
        MergeConserves([r[0]] + l, r[1..], cmp, x);
      }
    }
  }

  /** The membership half of `MergeIsSortedUnion`, for every comparator. */
  lemma {:induction false} MergedFrom<T>(l: seq<ChklistNode<T>>, r: seq<ChklistNode<T>>, cmp: Cmp<T>, x: ChklistNode<T>)
    ensures x in l ==> x in Merged(l, r, cmp)
    ensures x in Merged(l, r, cmp) ==> x in l || x in r
    ensures x in Dropped(l, r, cmp) ==> x in r
    ensures x in r ==> x in Merged(l, r, cmp) || x in Dropped(l, r, cmp)
    decreases 2 * |r| + |l|
  {
    if l != [] && r != [] {
      var c := cmp(l[0].val, r[0].val);
      assert l == [l[0]] + l[1..] && r == [r[0]] + r[1..];
      if c < 0 {
        MergedFrom(l[1..], r, cmp, x);
      } else if c == 0 {
        MergedFrom(l[1..], r[1..], cmp, x);
      } else {
        MergedFrom([r[0]] + l, r[1..], cmp, x);
      }
    }
  }

  /** If the left front node is not above the right one, it is below everything that follows it. */
  lemma FrontBelowRest<T(!new)>(l: seq<ChklistNode<T>>, r: seq<ChklistNode<T>>, cmp: Cmp<T>,
                               rest: seq<ChklistNode<T>>, j: nat)
    requires Order(cmp) && Ascending(l, cmp) && Ascending(r, cmp) && l != [] && r != []
    requires var c := cmp(l[0].val, r[0].val); (c < 0 && rest == r) || (c == 0 && rest == r[1..])
    requires j < |Merged(l[1..], rest, cmp)|
    ensures cmp(l[0].val, Merged(l[1..], rest, cmp)[j].val) < 0
  {
    var x := Merged(l[1..], rest, cmp)[j];
    MergedFrom(l[1..], rest, cmp, x);
    if x in l[1..] {
      var i :| 0 <= i < |l[1..]| && l[1..][i] == x;
      assert l[i + 1] == x;
    } else {
      var i :| 0 <= i < |rest| && rest[i] == x;
      var k := if rest == r then i else i + 1;
      assert r[k] == x;
      if k > 0 { Below(cmp, l[0].val, r[0].val, r[k].val); }
    }
  }

  /** A node put in front of a strictly ascending list it is below keeps the list ascending. */
  lemma FrontAscends<T(!new)>(x: ChklistNode<T>, s: seq<ChklistNode<T>>, cmp: Cmp<T>)
    requires Order(cmp) && s != [] && Ascending(s, cmp) && cmp(s[0].val, x.val) > 0
    ensures Ascending([x] + s, cmp)
  {
    forall i, j | 0 <= i < j < |s| + 1 ensures cmp(([x] + s)[i].val, ([x] + s)[j].val) < 0 {
      if i == 0 && j > 1 {
        Below(cmp, x.val, s[0].val, s[j - 1].val);
      }
    }
  }

  lemma AscendsFrom<T(!new)>(x: ChklistNode<T>, m: seq<ChklistNode<T>>, cmp: Cmp<T>)
    requires Order(cmp) && Ascending(m, cmp) && forall j :: 0 <= j < |m| ==> cmp(x.val, m[j].val) < 0
    ensures Ascending([x] + m, cmp)
  {
    var s := [x] + m;
    forall i, j | 0 <= i < j < |s| ensures cmp(s[i].val, s[j].val) < 0 {
      assert s[j] == m[j - 1];
      assert i > 0 ==> s[i] == m[i - 1];
    }
  }

  lemma TailAscends<T(!new)>(s: seq<ChklistNode<T>>, cmp: Cmp<T>)
    requires Order(cmp) && Ascending(s, cmp) && s != []
    ensures Ascending(s[1..], cmp)
  {
    forall i, j | 0 <= i < j < |s[1..]| ensures cmp(s[1..][i].val, s[1..][j].val) < 0 {
      assert s[1..][i] == s[i + 1] && s[1..][j] == s[j + 1];
    }
  }

  /** Merging two strictly ascending lists leaves a strictly ascending list. */
  lemma {:induction false} MergeAscends<T(!new)>(l: seq<ChklistNode<T>>, r: seq<ChklistNode<T>>, cmp: Cmp<T>)
    requires Order(cmp) && Ascending(l, cmp) && Ascending(r, cmp)
    ensures Ascending(Merged(l, r, cmp), cmp)
    decreases 2 * |r| + |l|
  {
    if l == [] {
      assert l + r == r;
    } else if r == [] {
      assert l + r == l;
    } else {
      TailAscends(l, cmp);
      TailAscends(r, cmp);
      hide Ascending;
      if cmp(l[0].val, r[0].val) > 0 {
        FrontAscends(r[0], l, cmp);
        MergeAscends([r[0]] + l, r[1..], cmp);
      } else {
        var rest := if cmp(l[0].val, r[0].val) < 0 then r else r[1..];
        var m := Merged(l[1..], rest, cmp);
        MergeAscends(l[1..], rest, cmp);
        forall j | 0 <= j < |m| ensures cmp(l[0].val, m[j].val) < 0 {
          FrontBelowRest(l, r, cmp, rest, j);
        }
        AscendsFrom(l[0], m, cmp);
      }
    }
  }

  /** A right node is dropped exactly when it ties with a left node. */
  lemma {:induction false} DroppedIsTied<T(!new)>(l: seq<ChklistNode<T>>, r: seq<ChklistNode<T>>, cmp: Cmp<T>, k: nat)
    requires Order(cmp) && Ascending(l, cmp) && Ascending(r, cmp) && k < |r|
    ensures r[k] in Dropped(l, r, cmp) <==> Tied(r[k], l, cmp)
    decreases 2 * |r| + |l|
  {
    if l != [] {
      var c := cmp(l[0].val, r[0].val);
      var x := r[k];
      if c <= 0 && (c < 0 || k > 0) {
        if k > 0 { Below(cmp, l[0].val, r[0].val, x.val); }
        TiedTail(l, x, cmp);
        if c < 0 {
          DroppedIsTied(l[1..], r, cmp, k);
        } else {
          assert cmp(r[0].val, x.val) < 0 && cmp(x.val, r[0].val) > 0 && x != r[0];
          DroppedIsTied(l[1..], r[1..], cmp, k - 1);
        }
      } else if c > 0 {
        FrontAscends(r[0], l, cmp);
        if k > 0 {
          TiedTail([r[0]] + l, x, cmp);
          DroppedIsTied([r[0]] + l, r[1..], cmp, k - 1);
        } else {
          assert Ascending([x] + l, cmp);
          NotTied(x, l, cmp);
          NotRepeated(r, cmp);
          MergedFrom([x] + l, r[1..], cmp, x);
        }
      }
    }
  }

  lemma NotTied<T(!new)>(x: ChklistNode<T>, l: seq<ChklistNode<T>>, cmp: Cmp<T>)
    requires Order(cmp) && Ascending([x] + l, cmp)
    ensures !Tied(x, l, cmp)
  {
    forall i | 0 <= i < |l| ensures cmp(l[i].val, x.val) > 0 {
      assert ([x] + l)[0] == x && ([x] + l)[i + 1] == l[i];
      assert cmp(x.val, l[i].val) < 0;
    }
  }

  lemma NotRepeated<T(!new)>(r: seq<ChklistNode<T>>, cmp: Cmp<T>)
    requires Order(cmp) && Ascending(r, cmp) && r != []
    ensures r[0] !in r[1..]
  {
    assert forall j :: 0 < j < |r| ==> cmp(r[0].val, r[j].val) < 0;
    assert cmp(r[0].val, r[0].val) == 0;
  }

  /** A front node that does not tie with `x` can be left out of the search for a tie. */
  lemma TiedTail<T>(l: seq<ChklistNode<T>>, x: ChklistNode<T>, cmp: Cmp<T>)
    requires l != [] && cmp(l[0].val, x.val) != 0
    ensures Tied(x, l, cmp) <==> Tied(x, l[1..], cmp)
  {
    if Tied(x, l, cmp) {
      var i :| 0 <= i < |l| && cmp(l[i].val, x.val) == 0;
      assert l[1..][i - 1] == l[i];
    }
  }

  /** The ordered merge is the union by key in which the left list wins ties.  Of two strictly
      ascending lists with no node in common it leaves, in strictly ascending order, every left node
      and every right node that ties with no left node; the other right nodes are the dropped ones. */
  lemma MergeIsSortedUnion<T(!new)>(l: seq<ChklistNode<T>>, r: seq<ChklistNode<T>>, cmp: Cmp<T>)
    requires Order(cmp) && Ascending(l, cmp) && Ascending(r, cmp) && Apart(l, r)
    ensures Ascending(Merged(l, r, cmp), cmp)
    ensures forall x :: x in Merged(l, r, cmp) <==> x in l || (x in r && !Tied(x, l, cmp))
    ensures forall x :: x in Dropped(l, r, cmp) <==> x in r && Tied(x, l, cmp)
  {
    MergeAscends(l, r, cmp);
    forall x
      ensures x in Merged(l, r, cmp) <==> x in l || (x in r && !Tied(x, l, cmp))
      ensures x in Dropped(l, r, cmp) <==> x in r && Tied(x, l, cmp)
    {
      MergedFrom(l, r, cmp, x);
      MergeConserves(l, r, cmp, x);
      if x in r {
        var k :| 0 <= k < |r| && r[k] == x;
        DroppedIsTied(l, r, cmp, k);
        OccursOnce(r, cmp, k);
        assert multiset(l)[x] == 0;
      }
    }
  }

  lemma {:induction false} OccursOnce<T(!new)>(s: seq<ChklistNode<T>>, cmp: Cmp<T>, k: nat)
    requires Order(cmp) && Ascending(s, cmp) && k < |s|
    ensures multiset(s)[s[k]] == 1
  {
    assert s == s[..k] + [s[k]] + s[k + 1..];
    assert forall j :: 0 <= j < |s| && j != k ==> s[j] != s[k] by {
      assert cmp(s[k].val, s[k].val) == 0;
    }
    assert s[k] !in s[..k] && s[k] !in s[k + 1..];
  }
}
