/** The circular doubly linked lists of src/list.c. */
module ListRing {
  import opened Distinct

  class Link {
    var next: Link?
    var prev: Link?
  }

  /** The `i`-th and the next node of `s` point to each other. */
  ghost predicate JoinedAt(s: seq<Link>, i: int)
    reads s
  {
    0 <= i < |s| - 1 && s[i].next == s[i + 1] && s[i + 1].prev == s[i]
  }

  ghost predicate Chain(s: seq<Link>)
    reads s
  {
    forall i {:trigger JoinedAt(s, i)} :: 0 <= i < |s| - 1 ==> JoinedAt(s, i)
  }

  /** The list with head `head` and the entries `xs`: both link directions agree all the way round. */
  ghost predicate List(head: Link, xs: seq<Link>)
    reads {head}, xs
  {
    Apart([head] + xs) && Chain([head] + xs + [head])
  }

  // ---------------------------------------------------------------- the same ring, seen from elsewhere

  /** Every entry can serve as the head of the ring it is on. */
  lemma SeenFrom(head: Link, a: seq<Link>, e: Link, b: seq<Link>)
    requires List(head, a + [e] + b)
    ensures List(e, b + [head] + a)
  {
    var c, c' := [head] + (a + [e] + b) + [head], [e] + (b + [head] + a) + [e];
    assert [head] + (a + [e] + b) == ([head] + a) + ([e] + b);
    ApartSwapped([head] + a, [e] + b);
    assert [e] + (b + [head] + a) == ([e] + b) + ([head] + a);
    forall i | 0 <= i < |c'| - 1 ensures JoinedAt(c', i) {
      assert JoinedAt(c, if i <= |b| then i + |a| + 1 else i - |b| - 1);
    }
  }

  lemma OnlyHeadTwice(head: Link, xs: seq<Link>)
    requires Apart([head] + xs)
    ensures var c := [head] + xs + [head]; forall i, j :: 0 <= i < j < |c| && c[i] == c[j] ==> i == 0 && j == |c| - 1
  {
    var s, c := [head] + xs, [head] + xs + [head];
    assert forall i {:trigger c[i]} :: 0 <= i < |s| ==> c[i] == s[i];
    assert c[|c| - 1] == s[0];
  }

  // ---------------------------------------------------------------- adding

  /** INIT_LIST_HEAD. */
  method InitListHead(list: Link)
    modifies list
    ensures List(list, [])
  {
    list.next := list;
    list.prev := list;
  }

  /** __list_add. */
  method Insert(n: Link, prev: Link, next: Link)
    requires n != prev && n != next
    modifies n, prev, next
    ensures next.prev == n && n.next == next && n.prev == prev && prev.next == n
    ensures prev != next ==> prev.prev == old(prev.prev) && next.next == old(next.next)
  {
    next.prev := n;
    n.next := next;
    n.prev := prev;
    prev.next := n;
  }

  /** list_add: a stack's push. */
  method ListAdd(n: Link, head: Link, ghost xs: seq<Link>)
    requires List(head, xs) && n !in [head] + xs
    modifies n, head, xs
    ensures List(head, [n] + xs)
  {
    ghost var c, c' := [head] + xs + [head], [head] + ([n] + xs) + [head];
    assert JoinedAt(c, 0);
    assert c[1] == head.next && (xs != [] ==> c[1] in xs);
    ApartInserted([head], xs, n);
    assert [head] + [n] + xs == [head] + ([n] + xs);
    Insert(n, head, head.next);
    forall i | 0 <= i < |c'| - 1 ensures JoinedAt(c', i) {
      if i >= 2 { assert old(JoinedAt(c, i - 1)); }
    }
  }

  /** list_add_tail: a queue's put. */
  method ListAddTail(n: Link, head: Link, ghost xs: seq<Link>)
    requires List(head, xs) && n !in [head] + xs
    modifies n, head, xs
    ensures List(head, xs + [n])
  {
    ghost var c, c' := [head] + xs + [head], [head] + (xs + [n]) + [head];
    assert JoinedAt(c, |xs|);
    assert c[|xs|] == head.prev && (xs != [] ==> c[|xs|] in xs);
    ApartInserted([head] + xs, [], n);
    assert [head] + xs + [n] + [] == [head] + (xs + [n]);
    Insert(n, head.prev, head);
    forall i | 0 <= i < |c'| - 1 ensures JoinedAt(c', i) {
      if i < |xs| { assert old(JoinedAt(c, i)); }
    }
  }

  // ---------------------------------------------------------------- deleting

  /** __list_del. */
  method Bridge(prev: Link, next: Link)
    modifies prev, next
    ensures next.prev == prev && prev.next == next
    ensures prev != next ==> prev.prev == old(prev.prev) && next.next == old(next.next)
  {
    next.prev := prev;
    prev.next := next;
  }

  /** __list_del_entry: the ring closes behind `e`. */
  method ListDelEntry(e: Link, ghost head: Link, ghost a: seq<Link>, ghost b: seq<Link>)
    requires List(head, a + [e] + b)
    modifies head, a, b
    ensures List(head, a + b) && e !in [head] + a + b
  {
    ghost var c, c' := [head] + (a + [e] + b) + [head], [head] + (a + b) + [head];
    ghost var k := |a| + 1;
    assert JoinedAt(c, k - 1) && JoinedAt(c, k);
    assert c[k] == e;
    ApartInserted([head] + a, b, e);
    assert [head] + a + [e] + b == [head] + (a + [e] + b) && [head] + a + b == [head] + (a + b);
    assert e.prev in [head] + a && e.next in b + [head];
    Bridge(e.prev, e.next);
    forall i | 0 <= i < |c'| - 1 ensures JoinedAt(c', i) {
      if i < k - 1 { assert old(JoinedAt(c, i)); }
      if i > k - 1 { assert old(JoinedAt(c, i + 1)); }
    }
  }

  /** list_del. */
  method ListDel(e: Link, ghost head: Link, ghost a: seq<Link>, ghost b: seq<Link>)
    requires List(head, a + [e] + b)
    modifies head, a, b, e
    ensures List(head, a + b) && e !in [head] + a + b && e.next == null && e.prev == null
  {
    ListDelEntry(e, head, a, b);
    e.next := null;
    e.prev := null;
  }

  /** list_del_init. */
  method ListDelInit(e: Link, ghost head: Link, ghost a: seq<Link>, ghost b: seq<Link>)
    requires List(head, a + [e] + b)
    modifies head, a, b, e
    ensures List(head, a + b) && List(e, []) && e !in [head] + a + b
  {
    ListDelEntry(e, head, a, b);
    InitListHead(e);
  }

  // ---------------------------------------------------------------- replacing

  /** The assignments of list_replace. */
  method TakeOver(o: Link, n: Link)
    requires o.next != null && o.prev != null && n != o && n != o.next && n != o.prev && (o.next == o <==> o.prev == o)
    modifies n, o, o.next, o.prev
    ensures n.next == (if old(o.next) == o then n else old(o.next))
    ensures n.prev == (if old(o.prev) == o then n else old(o.prev))
    ensures n.next != null && n.next.prev == n && n.prev != null && n.prev.next == n
    ensures n.next != n.prev ==> n.next.next == old(o.next.next) && n.prev.prev == old(o.prev.prev)
  {
    n.next := o.next;
    n.next.prev := n;
    n.prev := o.prev;
    n.prev.next := n;
  }

  /** list_replace: `n` takes the place of `o` on its ring; an empty head leaves an empty head. */
  method ListReplace(o: Link, n: Link, ghost xs: seq<Link>)
    requires List(o, xs) && n !in [o] + xs
    modifies n, o, xs
    ensures List(n, xs)
  {
    ghost var c, c' := [o] + xs + [o], [n] + xs + [n];
    assert JoinedAt(c, 0) && JoinedAt(c, |xs|) && (xs != [] ==> c[1] == xs[0] && c[|xs|] == xs[|xs| - 1]);
    ApartInserted([], xs, o);
    ApartInserted([], xs, n);
    assert [] + xs == xs && [] + [n] + xs == [n] + xs && [] + [o] + xs == [o] + xs;
    OnlyHeadTwice(o, xs);
    TakeOver(o, n);
    forall i | 0 <= i < |c'| - 1 ensures JoinedAt(c', i) {
      assert old(JoinedAt(c, i));
      if 0 < i {
        assert c'[i] == c[i] && c[i] in xs && (i < |xs| ==> c[i] != c[|xs|]);
      }
      if i < |xs| {
        assert c'[i + 1] == c[i + 1] && c[i + 1] in xs && (0 < i ==> c[i + 1] != c[1]);
      }
    }
  }

  /** list_replace_init. */
  method ListReplaceInit(o: Link, n: Link, ghost xs: seq<Link>)
    requires List(o, xs) && n !in [o] + xs
    modifies n, o, xs
    ensures List(n, xs) && List(o, [])
  {
    ApartInserted([], xs, o);
    assert [] + xs == xs && [] + [o] + xs == [o] + xs;
    ListReplace(o, n, xs);
    label replaced:
    InitListHead(o);
    ghost var c := [n] + xs + [n];
    forall i | 0 <= i < |c| - 1 ensures JoinedAt(c, i) {
      assert old@replaced(JoinedAt(c, i));
    }
  }

  // ---------------------------------------------------------------- asking

  /** list_empty. */
  method ListEmpty(head: Link, ghost xs: seq<Link>) returns (r: bool)
    requires List(head, xs)
    ensures r <==> xs == []
  {
    assert JoinedAt([head] + xs + [head], 0);
    return head.next == head;
  }

  /** list_is_last. */
  method ListIsLast(e: Link, head: Link, ghost a: seq<Link>, ghost b: seq<Link>) returns (r: bool)
    requires List(head, a + [e] + b)
    ensures r <==> b == []
  {
    ghost var c := [head] + (a + [e] + b) + [head];
    assert JoinedAt(c, |a| + 1) && c[|a| + 1] == e;
    assert c[0] == head && (b != [] ==> c[|a| + 2] == b[0] == ([head] + (a + [e] + b))[|a| + 2]);
    return e.next == head;
  }

  /** list_is_singular. */
  method ListIsSingular(head: Link, ghost xs: seq<Link>) returns (r: bool)
    requires List(head, xs)
    ensures r <==> |xs| == 1
  {
    assert JoinedAt([head] + xs + [head], 0) && JoinedAt([head] + xs + [head], |xs|);
    var empty := ListEmpty(head, xs);
    return !empty && head.next == head.prev;
  }
}
