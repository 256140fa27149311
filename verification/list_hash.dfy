/** The hash lists of src/list.c, whose nodes know the slot that holds them but not their head. */
module ListHash {
  import opened Distinct

  /** What a `struct hlist_node **` points to; `Poison` is what a deleted node is left with. */
  datatype Slot = NoSlot | Poison | FirstOf(head: HashHead) | NextOf(node: HashNode)

  class HashHead {
    var first: HashNode?
  }

  class HashNode {
    var next: HashNode?
    var pprev: Slot
  }

  /** The slot that holds the `i`-th node of a list. */
  function SlotOf(h: HashHead, xs: seq<HashNode>, i: nat): Slot
    requires i <= |xs|
  {
    if i == 0 then FirstOf(h) else NextOf(xs[i - 1])
  }

  ghost predicate HangsAt(h: HashHead, xs: seq<HashNode>, i: int)
    reads h, xs
  {
    && 0 <= i <= |xs| && (if i == 0 then h.first else xs[i - 1].next) == (if i < |xs| then xs[i] else null)
    && (i < |xs| ==> xs[i].pprev == SlotOf(h, xs, i))
  }

  /** The list with head `h` and the nodes `xs`: every node's `pprev` names the one slot that holds it. */
  ghost predicate HashList(h: HashHead, xs: seq<HashNode>)
    reads h, xs
  {
    Apart(xs) && forall i {:trigger HangsAt(h, xs, i)} :: 0 <= i <= |xs| ==> HangsAt(h, xs, i)
  }

  /** `*slot = v`. */
  method Store(slot: Slot, v: HashNode?)
    requires slot.FirstOf? || slot.NextOf?
    modifies if slot.FirstOf? then {slot.head as object} else {slot.node as object}
    ensures slot.FirstOf? ==> slot.head.first == v
    ensures slot.NextOf? ==> slot.node.next == v && slot.node.pprev == old(slot.node.pprev)
  {
    match slot
    case FirstOf(h) => h.first := v;
    case NextOf(n) => n.next := v;
  }

  /** INIT_HLIST_NODE. */
  method InitHlistNode(n: HashNode)
    modifies n
    ensures n.next == null && n.pprev == NoSlot
  {
    n.next := null;
    n.pprev := NoSlot;
  }

  /** hlist_unhashed: a node on a list is not. */
  method HlistUnhashed(n: HashNode) returns (r: bool)
    ensures r <==> n.pprev == NoSlot
  {
    return n.pprev == NoSlot;
  }

  /** hlist_empty. */
  method HlistEmpty(h: HashHead, ghost xs: seq<HashNode>) returns (r: bool)
    requires HashList(h, xs)
    ensures r <==> xs == []
  {
    assert HangsAt(h, xs, 0);
    return h.first == null;
  }

  /** hlist_is_singular_node. */
  method HlistIsSingularNode(n: HashNode, h: HashHead, ghost g: HashHead, ghost a: seq<HashNode>,
      ghost b: seq<HashNode>) returns (r: bool)
    requires HashList(g, a + [n] + b)
    ensures r <==> g == h && a + [n] + b == [n]
  {
    ghost var xs := a + [n] + b;
    assert xs[|a|] == n && HangsAt(g, xs, |a|) && HangsAt(g, xs, |a| + 1);
    assert |xs| == 1 <==> a == [] && b == [];
    return n.next == null && n.pprev == FirstOf(h);
  }

  // ---------------------------------------------------------------- deleting

  /** The slot that holds a fake node is its own. */
  predicate Fake(n: HashNode)
    reads n
  {
    n.pprev == NextOf(n)
  }

  /** What deleting `n` may change besides `n`: its list, or for a fake node only the node it leads to. */
  ghost function Touched(n: HashNode, h: HashHead, a: seq<HashNode>, b: seq<HashNode>): set<object>
    reads n
  {
    if !Fake(n) then {h} + (set i | 0 <= i < |a| :: a[i]) + (set i | 0 <= i < |b| :: b[i])
    else if n.next == null then {} else {n.next}
  }

  lemma ListedIsNotFake(n: HashNode, h: HashHead, a: seq<HashNode>, b: seq<HashNode>)
    requires HashList(h, a + [n] + b)
    ensures !Fake(n) && n.pprev != NoSlot
  {
    var xs := a + [n] + b;
    assert xs[|a|] == n && HangsAt(h, xs, |a|);
  }

  /** __hlist_del: exactly `n` leaves its list, although the head is not known.  A fake node is on no list;
      only the node it leads to, if any, is told of it. */
  method Unhook(n: HashNode, ghost h: HashHead, ghost a: seq<HashNode>, ghost b: seq<HashNode>)
    requires Fake(n) || HashList(h, a + [n] + b)
    modifies n, Touched(n, h, a, b)
    ensures n.pprev == old(n.pprev)
    ensures old(Fake(n)) ==> n.next == old(n.next)
    ensures old(Fake(n)) && n.next != null ==> n.next.pprev == NextOf(n) && n.next.next == old(n.next.next)
    ensures !old(Fake(n)) ==> HashList(h, a + b) && n !in a + b
  {
    ghost var xs, ys, k := a + [n] + b, a + b, |a|;
    ghost var listed := !Fake(n);
    assert listed ==> xs[k] == n && HangsAt(h, xs, k) && HangsAt(h, xs, k + 1);
    ApartInserted(a, b, n);
    Cut(a, n, b);
    assert k > 0 ==> xs[k - 1] in a;
    var next := n.next;
    var pprev := n.pprev;
    Store(pprev, next);
    if next != null {
      next.pprev := pprev;
    }
    if listed {
      forall i | 0 <= i <= |ys| ensures HangsAt(h, ys, i) {
        assert old(HangsAt(h, xs, if i < k then i else i + 1));
      }
    }
  }

  lemma Cut(a: seq<HashNode>, n: HashNode, b: seq<HashNode>)
    ensures var xs, ys := a + [n] + b, a + b;
      && (forall i {:trigger ys[i]} :: 0 <= i < |ys| ==> ys[i] == xs[if i < |a| then i else i + 1])
      && (forall i {:trigger xs[i]} :: |a| < i < |xs| ==> xs[i] in b)
      && (forall i {:trigger xs[i]} :: 0 <= i < |a| ==> xs[i] in a)
  {
  }

  /** hlist_del, of a node on a list or a fake one. */
  method HlistDel(n: HashNode, ghost h: HashHead, ghost a: seq<HashNode>, ghost b: seq<HashNode>)
    requires Fake(n) || HashList(h, a + [n] + b)
    modifies n, Touched(n, h, a, b)
    ensures n.next == null && n.pprev == Poison
    ensures !old(Fake(n)) ==> HashList(h, a + b) && n !in a + b
    ensures var next := old(n.next); old(Fake(n)) && next != null && next != n ==>
      (next.pprev == NextOf(n) && next.next == old(n.next.next))
  {
    Unhook(n, h, a, b);
    n.next := null;
    n.pprev := Poison;
  }

  /** hlist_del_init: as hlist_del, but nothing happens to a node that is unhashed. */
  method HlistDelInit(n: HashNode, ghost h: HashHead, ghost a: seq<HashNode>, ghost b: seq<HashNode>)
    requires Fake(n) || HashList(h, a + [n] + b) || n.pprev == NoSlot
    modifies n, Touched(n, h, a, b)
    ensures n.pprev == NoSlot && n.next == if old(n.pprev) == NoSlot then old(n.next) else null
    ensures old(HashList(h, a + [n] + b)) ==> HashList(h, a + b) && n !in a + b
    ensures var next := old(n.next); old(Fake(n)) && next != null && next != n ==>
      (next.pprev == NextOf(n) && next.next == old(n.next.next))
  {
    if HashList(h, a + [n] + b) { ListedIsNotFake(n, h, a, b); }
    var unhashed := HlistUnhashed(n);
    if !unhashed {
      Unhook(n, h, a, b);
      InitHlistNode(n);
    }
  }

  // ---------------------------------------------------------------- adding

  /** hlist_add_head. */
  method HlistAddHead(n: HashNode, h: HashHead, ghost xs: seq<HashNode>)
    requires HashList(h, xs) && n !in xs
    modifies n, h, xs
    ensures HashList(h, [n] + xs)
  {
    ghost var ys := [n] + xs;
    assert HangsAt(h, xs, 0);
    ApartInserted([], xs, n);
    assert [] + xs == xs && [] + [n] + xs == ys;
    var first := h.first;
    n.next := first;
    if first != null {
      first.pprev := NextOf(n);
    }
    h.first := n;
    n.pprev := FirstOf(h);
    forall i | 0 <= i <= |ys| ensures HangsAt(h, ys, i) {
      if i >= 2 { assert old(HangsAt(h, xs, i - 1)); }
    }
  }

  /** hlist_add_before. */
  method HlistAddBefore(n: HashNode, next: HashNode, ghost h: HashHead, ghost a: seq<HashNode>, ghost b: seq<HashNode>)
    requires HashList(h, a + [next] + b) && n !in a + [next] + b
    modifies n, next, h, a, b
    ensures HashList(h, a + [n, next] + b)
  {
    ghost var xs, ys, k := a + [next] + b, a + [n, next] + b, |a|;
    assert xs[k] == next && HangsAt(h, xs, k);
    Split(a, [next] + b, n);
    assert a + ([next] + b) == xs && a + [n] + ([next] + b) == ys;
    ApartInserted(a, [next] + b, n);
    assert k > 0 ==> xs[k - 1] in a;
    n.pprev := next.pprev;
    n.next := next;
    next.pprev := NextOf(n);
    Store(n.pprev, n);
    forall i | 0 <= i <= |ys| ensures HangsAt(h, ys, i) {
      if i < k { assert old(HangsAt(h, xs, i)); }
      if i > k { assert old(HangsAt(h, xs, i - 1)); }
    }
  }

  lemma Split(a: seq<HashNode>, b: seq<HashNode>, n: HashNode)
    ensures var xs, ys := a + b, a + [n] + b;
      && (forall i {:trigger ys[i]} :: 0 <= i < |ys| ==>
        (ys[i] == if i < |a| then xs[i] else if i == |a| then n else xs[i - 1]))
  {
  }

  /** hlist_add_behind. */
  method HlistAddBehind(n: HashNode, prev: HashNode, ghost h: HashHead, ghost a: seq<HashNode>, ghost b: seq<HashNode>)
    requires HashList(h, a + [prev] + b) && n !in a + [prev] + b
    modifies n, prev, h, a, b
    ensures HashList(h, a + [prev, n] + b)
  {
    ghost var xs, ys, k := a + [prev] + b, a + [prev, n] + b, |a| + 1;
    assert xs[k - 1] == prev && HangsAt(h, xs, k);
    Split(a + [prev], b, n);
    assert a + [prev] + [n] + b == ys;
    ApartInserted(a + [prev], b, n);
    n.next := prev.next;
    prev.next := n;
    n.pprev := NextOf(prev);
    if n.next != null {
      n.next.pprev := NextOf(n);
    }
    forall i | 0 <= i <= |ys| ensures HangsAt(h, ys, i) {
      if i < k { assert old(HangsAt(h, xs, i)); }
      if i > k { assert old(HangsAt(h, xs, i - 1)); }
    }
  }

  /** hlist_add_fake: the node seems to be on a list, and hlist_del works on it. */
  method HlistAddFake(n: HashNode)
    modifies n
    ensures Fake(n) && n.next == old(n.next)
  {
    n.pprev := NextOf(n);
  }

  /** hlist_fake: no node on a list looks fake. */
  method HlistFake(n: HashNode, ghost h: HashHead, ghost a: seq<HashNode>, ghost b: seq<HashNode>) returns (r: bool)
    ensures r <==> Fake(n)
    ensures HashList(h, a + [n] + b) ==> !r
  {
    if HashList(h, a + [n] + b) { ListedIsNotFake(n, h, a, b); }
    return n.pprev == NextOf(n);
  }

  /** A node fresh from INIT_HLIST_NODE that is made fake and deleted leaves every list alone. */
  method FakeAndDelete(n: HashNode, ghost h: HashHead, ghost xs: seq<HashNode>)
    requires HashList(h, xs) && n !in xs
    modifies n
    ensures n.next == null && n.pprev == Poison && HashList(h, xs)
  {
    InitHlistNode(n);
    HlistAddFake(n);
    HlistDel(n, h, [], []);
    forall i | 0 <= i <= |xs| ensures HangsAt(h, xs, i) {
      assert old(HangsAt(h, xs, i));
    }
  }

  // ---------------------------------------------------------------- moving

  /** hlist_move_list: `to`, which must not hold anything of its own, takes over all nodes; but moved to
      its own head, a list is lost unless it is empty. */
  method HlistMoveList(from: HashHead, to: HashHead, ghost xs: seq<HashNode>)
    requires HashList(from, xs)
    modifies from, to, xs
    ensures HashList(to, xs) <==> from != to || xs == []
    ensures HashList(from, [])
  {
    assert HangsAt(from, xs, 0);
    to.first := from.first;
    if to.first != null {
      to.first.pprev := FirstOf(to);
    }
    from.first := null;
    if from != to {
      forall i | 0 <= i <= |xs| ensures HangsAt(to, xs, i) {
        assert old(HangsAt(from, xs, i));
      }
    }
    assert from == to && xs != [] ==> !HangsAt(to, xs, 0);
  }
}
