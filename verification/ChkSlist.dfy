/**
  The intrusive singly linked list of chk/chk_list.h on node objects: push, pop and erase.  A list is
  a head node `h` together with the sequence `s` of the nodes reached from it.
 */
module ChkSlist {
  import opened ChkBase

  class ChkSlistNode {
    var next: ChkSlistNode?

    constructor ()
      ensures next == null
    {
      next := null;
    }
  }

  /** From `h` the links lead through exactly the nodes `s`, each once, and end. */
  ghost predicate Chain(h: ChkSlistNode, s: seq<ChkSlistNode>)
    reads h, s
  {
    && var w := [h] + s;
    && NoRepeat(w)
    && (forall k {:trigger w[k].next} :: 0 <= k < |s| ==> w[k].next == w[k + 1])
    && w[|s|].next == null
  }

  /** `s` without its entry `k`. */
  function DropAt<X>(s: seq<X>, k: nat): seq<X>
    requires k < |s|
  {
    s[..k] + s[k + 1..]
  }

  lemma PushWalk<X>(h: X, s: seq<X>, n: X)
    requires NoRepeat([h] + s) && n != h && n !in s
    ensures var v, w := [h] + s, [h] + ([n] + s);
            && NoRepeat(w) && |w| == |v| + 1 && w[0] == h && w[1] == n && v[0] == h
            && (forall k :: 2 <= k < |w| ==> w[k] == v[k - 1] && w[k] != h && w[k] != n)
  {
    var v, w := [h] + s, [h] + ([n] + s);
    assert forall k :: 2 <= k < |w| ==> w[k] == v[k - 1] && w[k] in s;
    assert forall k :: 1 <= k < |v| ==> v[0] != v[k];
  }

  lemma EraseWalk<X>(h: X, s: seq<X>, k: nat)
    requires NoRepeat([h] + s) && k < |s|
    ensures var v, w := [h] + s, [h] + DropAt(s, k);
            && NoRepeat(w) && |w| == |v| - 1 && v[k + 1] == s[k]
            && (forall j :: 0 <= j <= k ==> w[j] == v[j]) && (forall j :: k < j < |w| ==> w[j] == v[j + 1])
  {
    var v, w := [h] + s, [h] + DropAt(s, k);
    assert forall j :: 0 <= j <= k ==> w[j] == v[j];
    assert forall j :: k < j < |w| ==> w[j] == v[j + 1];
    forall i, j | 0 <= i < j < |w| ensures w[i] != w[j] {
      assert v[if i <= k then i else i + 1] != v[if j <= k then j else j + 1];
    }
  }

  method Push(n: ChkSlistNode, h: ChkSlistNode, ghost s: seq<ChkSlistNode>)
    requires Chain(h, s) && n != h && n !in s
    modifies n, h
    ensures Chain(h, [n] + s)
  {
    PushWalk(h, s, n);
    assert ([h] + s)[0].next == if s == [] then null else ([h] + s)[1];
    n.next := h.next;
    h.next := n;
  }

  /** `chk_slist_erase_node` of the entry after `pre`. */
  method EraseNode(pre: ChkSlistNode, target: ChkSlistNode, ghost h: ChkSlistNode, ghost s: seq<ChkSlistNode>,
                   ghost k: nat)
    requires Chain(h, s) && k < |s| && pre == ([h] + s)[k] && target == s[k]
    modifies pre, target
    ensures Chain(h, DropAt(s, k)) && target.next == null
  {
    ghost var v := [h] + s;
    EraseWalk(h, s, k);
    assert v[k].next == v[k + 1] == target && v[k + 1].next == if k + 1 < |s| then v[k + 2] else null;
    pre.next := target.next;
    target.next := null;
  }

  method Pop(h: ChkSlistNode, ghost s: seq<ChkSlistNode>) returns (n: ChkSlistNode?)
    requires Chain(h, s)
    modifies h, h.next
    ensures if s == [] then n == null && Chain(h, s) else n == s[0] && n.next == null && Chain(h, s[1..])
  {
    n := h.next;
    assert ([h] + s)[0].next == if s == [] then null else ([h] + s)[1];
    if n == null {
      return;
    }
    EraseNode(h, n, h, s, 0);
    assert DropAt(s, 0) == s[1..];
  }

  /** Takes the target out wherever it is; fails, and changes nothing, exactly when it is not there. */
  method Erase(h: ChkSlistNode, target: ChkSlistNode, ghost s: seq<ChkSlistNode>) returns (rc: int, ghost k: nat)
    requires Chain(h, s) && target != h
    modifies h, s
    ensures if target in s then rc == 0 && k < |s| && s[k] == target && target.next == null && Chain(h, DropAt(s, k))
            else rc == -1 && Chain(h, s)
    ensures rc == -1 ==> unchanged(h) && forall n :: n in s ==> unchanged(n)
  {
    ghost var w := [h] + s;
    k := 0;
    var pre, node := h, h.next;
    assert w[0].next == if s == [] then null else w[1];
    while node != null
      invariant k <= |s| && pre == w[k] && node == (if k < |s| then s[k] else null)
      invariant target !in s[..k] && unchanged(h) && forall n :: n in s ==> unchanged(n)
      decreases |s| - k
    {
      if node == target {
        EraseNode(pre, target, h, s, k);
        return 0, k;
      }
      assert w[k + 1].next == if k + 1 < |s| then w[k + 2] else null;
      pre := node;
      node := node.next;
      k := k + 1;
    }
    assert s[..|s|] == s;
    rc := -1;
  }
}
