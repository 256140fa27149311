/** Moving, rotating, cutting, splicing and traversing the lists of src/list.c. */
module ListSplice {
  import opened Distinct
  import opened Division
  import opened ListRing

  // ---------------------------------------------------------------- moving

  /** list_move within one list: the entry becomes the first. */
  method ListMove(e: Link, head: Link, ghost a: seq<Link>, ghost b: seq<Link>)
    requires List(head, a + [e] + b)
    modifies head, a, b, e
    ensures List(head, [e] + a + b)
  {
    ListDelEntry(e, head, a, b);
    ListAdd(e, head, a + b);
    assert [e] + a + b == [e] + (a + b);
  }

  /** list_move to another list. */
  method ListMoveAcross(e: Link, head: Link, ghost xs: seq<Link>, ghost src: Link, ghost a: seq<Link>,
      ghost b: seq<Link>)
    requires List(src, a + [e] + b) && List(head, xs) && Disjoint([head] + xs, [src] + (a + [e] + b))
    modifies src, a, b, e, head, xs
    ensures List(src, a + b) && List(head, [e] + xs)
  {
    Elsewhere(head, xs, src, a, e, b);
    ListDelEntry(e, src, a, b);
    ghost var c, d := [head] + xs + [head], [src] + (a + b) + [src];
    forall i | 0 <= i < |c| - 1 ensures JoinedAt(c, i) {
      assert old(JoinedAt(c, i)) && c[i] in [head] + xs && c[i + 1] in [head] + xs;
    }
    label deleted:
    ListAdd(e, head, xs);
    forall i | 0 <= i < |d| - 1 ensures JoinedAt(d, i) {
      assert old@deleted(JoinedAt(d, i)) && d[i] in [src] + (a + b) && d[i + 1] in [src] + (a + b);
    }
  }

  lemma Elsewhere(head: Link, xs: seq<Link>, src: Link, a: seq<Link>, e: Link, b: seq<Link>)
    requires Disjoint([head] + xs, [src] + (a + [e] + b))
    ensures forall x :: x in [head] + xs ==> x != src && x !in a && x !in b && x != e
    ensures forall x :: x in [src] + (a + b) ==> x != head && x !in xs
  {
    forall x | x in [src] + (a + b) ensures x in [src] + (a + [e] + b) {
    }
  }

  /** list_move_tail within one list: the entry becomes the last. */
  method ListMoveTail(e: Link, head: Link, ghost a: seq<Link>, ghost b: seq<Link>)
    requires List(head, a + [e] + b)
    modifies head, a, b, e
    ensures List(head, a + b + [e])
  {
    ListDelEntry(e, head, a, b);
    ListAddTail(e, head, a + b);
  }

  /** list_move_tail to another list. */
  method ListMoveTailAcross(e: Link, head: Link, ghost xs: seq<Link>, ghost src: Link, ghost a: seq<Link>,
      ghost b: seq<Link>)
    requires List(src, a + [e] + b) && List(head, xs) && Disjoint([head] + xs, [src] + (a + [e] + b))
    modifies src, a, b, e, head, xs
    ensures List(src, a + b) && List(head, xs + [e])
  {
    Elsewhere(head, xs, src, a, e, b);
    ListDelEntry(e, src, a, b);
    ghost var c, d := [head] + xs + [head], [src] + (a + b) + [src];
    forall i | 0 <= i < |c| - 1 ensures JoinedAt(c, i) {
      assert old(JoinedAt(c, i)) && c[i] in [head] + xs && c[i + 1] in [head] + xs;
    }
    label deleted:
    ListAddTail(e, head, xs);
    forall i | 0 <= i < |d| - 1 ensures JoinedAt(d, i) {
      assert old@deleted(JoinedAt(d, i)) && d[i] in [src] + (a + b) && d[i + 1] in [src] + (a + b);
    }
  }

  // ---------------------------------------------------------------- rotating

  function Rotated(xs: seq<Link>, k: nat): seq<Link> {
    if xs == [] then [] else xs[k % |xs|..] + xs[..k % |xs|]
  }

  function RotatedOnce(xs: seq<Link>): seq<Link> { if xs == [] then [] else xs[1..] + [xs[0]] }

  /** list_rotate_left: the first entry becomes the last. */
  method ListRotateLeft(head: Link, ghost xs: seq<Link>)
    requires List(head, xs)
    modifies head, xs
    ensures List(head, RotatedOnce(xs)) && (xs != [] ==> List(head, xs[1..] + [xs[0]]))
  {
    var empty := ListEmpty(head, xs);
    if !empty {
      assert JoinedAt([head] + xs + [head], 0);
      var first := head.next;
      assert xs == [] + [first] + xs[1..];
      ListMoveTail(first, head, [], xs[1..]);
      assert [] + xs[1..] + [first] == xs[1..] + [xs[0]];
    }
  }

  /** Which entry comes to which place. */
  lemma RotatedAt(xs: seq<Link>, k: nat, i: nat)
    requires i < |xs|
    ensures |Rotated(xs, k)| == |xs| && Rotated(xs, k)[i] == xs[(i + k) % |xs|]
  {
    ModSum(i, k, |xs|);
  }

  lemma ModSum(i: nat, k: nat, n: nat)
    requires i < n
    ensures k % n < n && (i + k) % n == if i + k % n < n then i + k % n else i + k % n - n
  {
    var q, r := k / n, k % n;
    assert k == q * n + r;
    if i + r < n {
      ModIs(i + k, n, q, i + r);
    } else {
      assert (q + 1) * n == q * n + n;
      ModIs(i + k, n, q + 1, i + r - n);
    }
  }

  lemma RotatedStep(xs: seq<Link>, k: nat)
    ensures Rotated(xs, k + 1) == RotatedOnce(Rotated(xs, k))
    ensures forall i :: 0 <= i < |Rotated(xs, k)| ==> Rotated(xs, k)[i] in xs
  {
    if xs != [] {
      var n, i := |xs|, k % |xs|;
      ModNext(k, n);
      var r := Rotated(xs, k);
      RotatedTwoParts(xs, i);
    }
  }

  lemma RotatedTwoParts(xs: seq<Link>, i: nat)
    requires i < |xs|
    ensures var r := xs[i..] + xs[..i];
      r[1..] + [r[0]] == if i + 1 == |xs| then xs[0..] + xs[..0] else xs[i + 1..] + xs[..i + 1]
  {
  }

  lemma ModNext(k: nat, n: nat)
    requires n > 0
    ensures (k + 1) % n == if k % n + 1 == n then 0 else k % n + 1
  {
    var q, r := k / n, k % n;
    if r + 1 == n {
      assert k + 1 == (q + 1) * n;
      ModIs(k + 1, n, q + 1, 0);
    } else {
      ModIs(k + 1, n, q, r + 1);
    }
  }

  lemma RotatedNone(xs: seq<Link>)
    ensures Rotated(xs, 0) == xs
  {
  }

  /** `k` rotations rotate by `k` modulo the length. */
  method RotateBy(head: Link, k: nat, ghost xs: seq<Link>)
    requires List(head, xs)
    modifies head, xs
    ensures List(head, Rotated(xs, k))
  {
    hide List, Rotated;
    RotatedNone(xs);
    var i := 0;
    while i < k
      invariant 0 <= i <= k && List(head, Rotated(xs, i))
    {
      RotatedStep(xs, i);
      ListRotateLeft(head, Rotated(xs, i));
      i := i + 1;
    }
  }

  // ---------------------------------------------------------------- cutting

  /** __list_cut_position. */
  method CutAt(list: Link, head: Link, entry: Link, ghost xs: seq<Link>, ghost k: nat)
    requires List(head, xs) && list !in [head] + xs && 1 <= k <= |xs| && entry == xs[k - 1]
    modifies list, head, xs
    ensures List(list, xs[..k]) && List(head, xs[k..])
  {
    ghost var c, c1, c2 := [head] + xs + [head], [list] + xs[..k] + [list], [head] + xs[k..] + [head];
    assert JoinedAt(c, 0) && JoinedAt(c, k) && c[k] == entry && c[1] == xs[0] && (k < |xs| ==> c[k + 1] == xs[k]);
    CutApart(list, head, xs, k);
    var newFirst := entry.next;
    list.next := head.next;
    list.next.prev := list;
    list.prev := entry;
    entry.next := list;
    head.next := newFirst;
    newFirst.prev := head;
    forall i | 0 <= i < |c1| - 1 ensures JoinedAt(c1, i) {
      assert old(JoinedAt(c, i));
    }
    forall i | 0 <= i < |c2| - 1 ensures JoinedAt(c2, i) {
      assert old(JoinedAt(c, i + k));
    }
  }

  lemma CutApart(list: Link, head: Link, xs: seq<Link>, k: nat)
    requires Apart([head] + xs) && list !in [head] + xs && k <= |xs|
    ensures Apart([list] + xs[..k]) && Apart([head] + xs[k..]) && Disjoint([list] + xs[..k], [head] + xs[k..])
  {
    hide Apart;
    assert xs == xs[..k] + xs[k..];
    ApartSum([head], xs);
    ApartSum(xs[..k], xs[k..]);
    ApartOne(list);
    ApartSum([list], xs[..k]);
    ApartSum([head], xs[k..]);
  }

  /** list_cut_position: the entries up to and including `entry` move to `list`.  Nothing is cut from an
      empty list, nor from a single entry that is not `entry`, and then `list` is left as it is. */
  method ListCutPosition(list: Link, head: Link, entry: Link, ghost xs: seq<Link>, ghost k: nat)
    requires List(head, xs) && list !in [head] + xs && k <= |xs|
    requires if k > 0 then entry == xs[k - 1] else entry == head || xs == [] || (|xs| == 1 && entry !in [head] + xs)
    modifies list, head, xs
    ensures List(head, xs[k..])
    ensures xs != [] && (k > 0 || entry == head) ==> List(list, xs[..k])
    ensures xs == [] || (k == 0 && entry != head) ==> list.next == old(list.next) && list.prev == old(list.prev)
  {
    assert xs[0..] == xs && xs[..0] == [];
    assert xs != [] ==> JoinedAt([head] + xs + [head], 0) && ([head] + xs)[1] == xs[0];
    var empty := ListEmpty(head, xs);
    if empty {
      return;
    }
    var singular := ListIsSingular(head, xs);
    if singular && head.next != entry && head != entry {
      return;
    }
    EntryIsNotHead(head, xs);
    if entry == head {
      InitListHead(list);
    } else {
      CutAt(list, head, entry, xs, k);
    }
  }

  lemma EntryIsNotHead(head: Link, xs: seq<Link>)
    requires Apart([head] + xs)
    ensures head !in xs
  {
    assert [head] + xs == [] + [head] + xs && [] + xs == xs;
    ApartInserted([], xs, head);
  }

  // ---------------------------------------------------------------- splicing

  /** __list_splice. */
  method SpliceBetween(list: Link, prev: Link, next: Link)
    requires list.next != null && list.prev != null
    requires prev != list.next && prev != list.prev && next != list.next && next != list.prev
    modifies list.next, list.prev, prev, next
    ensures old(list.next).prev == prev && prev.next == old(list.next) && old(list.prev).next == next
    ensures next.prev == old(list.prev)
    ensures old(list.next) != old(list.prev) ==>
      (old(list.next).next == old(list.next.next) && old(list.prev).prev == old(list.prev.prev))
    ensures prev != next ==> prev.prev == old(prev.prev) && next.next == old(next.next)
  {
    var first := list.next;
    var last := list.prev;
    first.prev := prev;
    prev.next := first;
    last.next := next;
    next.prev := last;
  }

  /** What both splices do: `ys` comes to lie between `a` and `b`. */
  method SpliceInto(list: Link, prev: Link, next: Link, ghost ys: seq<Link>, ghost head: Link, ghost a: seq<Link>,
      ghost b: seq<Link>)
    requires List(list, ys) && List(head, a + b) && Disjoint([list] + ys, [head] + (a + b)) && ys != []
    requires prev == ([head] + a)[|a|] && next == (b + [head])[0]
    modifies ys, head, a, b
    ensures List(head, a + ys + b)
  {
    ghost var d, c, c' := [list] + ys + [list], [head] + (a + b) + [head], [head] + (a + ys + b) + [head];
    SplicedEnds(list, prev, next, ys, head, a, b);
    assert JoinedAt(c, |a|) && c[|a|] == prev && c[|a| + 1] == next;
    JoinedApart(list, ys, head, a, b);
    Places(list, ys, head, a, b);
    OnlyHeadTwice(head, a + b);
    OnlyHeadTwice(list, ys);
    assert d[1] == list.next && d[|ys|] == list.prev;
    SpliceBetween(list, prev, next);
    forall i | 0 <= i < |c'| - 1 ensures JoinedAt(c', i) {
      if i < |a| {
        assert old(JoinedAt(c, i));
        assert c'[i] == c[i] && c'[i + 1] == c[i + 1];
        assert c[i].next == old(c[i].next);
        assert c[i + 1].prev == old(c[i + 1].prev);
      } else if i == |a| {
        assert c'[i] == c[i] == prev;
        assert c'[i + 1] == d[1];
      } else if i < |a| + |ys| {
        assert old(JoinedAt(d, i - |a|));
        assert c'[i] == d[i - |a|] && c'[i + 1] == d[i - |a| + 1];
        assert c'[i] in ys && c'[i] != d[|ys|] && c'[i + 1] in ys && c'[i + 1] != d[1];
        assert c'[i].next == old(c'[i].next);
      } else if i == |a| + |ys| {
        assert c'[i] == d[|ys|];
        assert c'[i + 1] == c[|a| + 1] == next;
      } else {
        assert old(JoinedAt(c, i - |ys|));
        assert c'[i] == c[i - |ys|] && c'[i + 1] == c[i - |ys| + 1];
        assert c'[i].next == old(c'[i].next);
      }
    }
  }

  lemma SplicedEnds(list: Link, prev: Link, next: Link, ys: seq<Link>, head: Link, a: seq<Link>, b: seq<Link>)
    requires List(list, ys) && ys != [] && Disjoint([list] + ys, [head] + (a + b))
    requires prev == ([head] + a)[|a|] && next == (b + [head])[0]
    ensures list.next == ys[0] && list.prev == ys[|ys| - 1]
    ensures prev in [head] + (a + b) && next in [head] + (a + b) && prev !in ys && next !in ys
  {
    var d := [list] + ys + [list];
    assert JoinedAt(d, 0) && JoinedAt(d, |ys|) && d[1] == ys[0] && d[|ys|] == ys[|ys| - 1];
  }

  lemma Places(list: Link, ys: seq<Link>, head: Link, a: seq<Link>, b: seq<Link>)
    ensures var d, c, c' := [list] + ys + [list], [head] + (a + b) + [head], [head] + (a + ys + b) + [head];
      forall i {:trigger c'[i]} :: 0 <= i < |c'| ==>
        (c'[i] == if i <= |a| then c[i] else if i <= |a| + |ys| then d[i - |a|] else c[i - |ys|])
    ensures var d := [list] + ys + [list]; forall i {:trigger d[i]} :: 0 < i <= |ys| ==> d[i] in ys
    ensures var c := [head] + (a + b) + [head]; forall i {:trigger c[i]} :: 0 <= i < |c| ==> c[i] in [head] + (a + b)
  {
  }

  lemma JoinedApart(list: Link, ys: seq<Link>, head: Link, a: seq<Link>, b: seq<Link>)
    requires Apart([list] + ys) && Apart([head] + (a + b)) && Disjoint([list] + ys, [head] + (a + b))
    ensures Apart([head] + (a + ys + b)) && forall x :: x in ys ==> x !in [head] + (a + b)
  {
    hide Apart;
    ApartSum([list], ys);
    ApartSum([head], a + b);
    ApartSum(a, b);
    forall x | x in ys ensures x != head && x !in a && x !in b {
      assert x in [list] + ys && x !in [head] + (a + b);
    }
    ApartSum(a, ys);
    ApartSum(a + ys, b);
    ApartSum([head], a + ys + b);
  }

  /** list_splice: the entries of `list` come before those of `head`. */
  method ListSplice(list: Link, head: Link, ghost ys: seq<Link>, ghost xs: seq<Link>)
    requires List(list, ys) && List(head, xs) && Disjoint([list] + ys, [head] + xs)
    modifies ys, head, xs
    ensures List(head, ys + xs) && list.next == old(list.next) && list.prev == old(list.prev)
  {
    SeparateHeads(list, ys, head, xs);
    var empty := ListEmpty(list, ys);
    if !empty {
      assert JoinedAt([head] + xs + [head], 0) && ([head] + xs + [head])[1] == (xs + [head])[0];
      assert [] + xs == xs && [] + ys + xs == ys + xs;
      SpliceInto(list, head, head.next, ys, head, [], xs);
    } else {
      assert ys + xs == xs;
    }
  }

  lemma SeparateHeads(list: Link, ys: seq<Link>, head: Link, xs: seq<Link>)
    requires Apart([list] + ys) && Disjoint([list] + ys, [head] + xs)
    ensures list != head && list !in ys && list !in xs && head !in ys
  {
    EntryIsNotHead(list, ys);
    assert list in [list] + ys && head in [head] + xs;
  }

  /** list_splice_tail: the entries of `list` come behind those of `head`. */
  method ListSpliceTail(list: Link, head: Link, ghost ys: seq<Link>, ghost xs: seq<Link>)
    requires List(list, ys) && List(head, xs) && Disjoint([list] + ys, [head] + xs)
    modifies ys, head, xs
    ensures List(head, xs + ys) && list.next == old(list.next) && list.prev == old(list.prev)
  {
    SeparateHeads(list, ys, head, xs);
    var empty := ListEmpty(list, ys);
    if !empty {
      assert JoinedAt([head] + xs + [head], |xs|) && ([head] + xs + [head])[|xs|] == ([head] + xs)[|xs|];
      assert xs + [] == xs && xs + ys + [] == xs + ys;
      SpliceInto(list, head.prev, head, ys, head, xs, []);
    } else {
      assert xs + ys == xs;
    }
  }

  /** list_splice_init: as list_splice, and `list` is left empty. */
  method ListSpliceInit(list: Link, head: Link, ghost ys: seq<Link>, ghost xs: seq<Link>)
    requires List(list, ys) && List(head, xs) && Disjoint([list] + ys, [head] + xs)
    modifies list, ys, head, xs
    ensures List(head, ys + xs) && List(list, [])
  {
    SeparateHeads(list, ys, head, xs);
    var empty := ListEmpty(list, ys);
    ListSplice(list, head, ys, xs);
    if !empty {
      InitListHead(list);
    }
  }

  /** list_splice_tail_init. */
  method ListSpliceTailInit(list: Link, head: Link, ghost ys: seq<Link>, ghost xs: seq<Link>)
    requires List(list, ys) && List(head, xs) && Disjoint([list] + ys, [head] + xs)
    modifies list, ys, head, xs
    ensures List(head, xs + ys) && List(list, [])
  {
    SeparateHeads(list, ys, head, xs);
    var empty := ListEmpty(list, ys);
    ListSpliceTail(list, head, ys, xs);
    if !empty {
      InitListHead(list);
    }
  }

  /** Cutting a list at an entry and splicing what was cut back in restores it. */
  method CutAndSplice(list: Link, head: Link, entry: Link, ghost xs: seq<Link>, ghost k: nat)
    requires List(head, xs) && list !in [head] + xs && 1 <= k <= |xs| && entry == xs[k - 1]
    modifies list, head, xs
    ensures List(head, xs) && List(list, [])
  {
    CutApart(list, head, xs, k);
    ListCutPosition(list, head, entry, xs, k);
    ListSpliceInit(list, head, xs[..k], xs[k..]);
    assert xs[..k] + xs[k..] == xs;
  }

  // ---------------------------------------------------------------- traversing

  /** list_for_each visits the entries in order. */
  method ForEach(head: Link, ghost xs: seq<Link>) returns (visited: seq<Link>)
    requires List(head, xs)
    ensures visited == xs
  {
    ghost var c := [head] + xs + [head];
    EntryIsNotHead(head, xs);
    assert JoinedAt(c, 0);
    visited := [];
    var p := head.next;
    while p != head
      invariant |visited| <= |xs| && visited == xs[..|visited|] && p == c[|visited| + 1]
      decreases |xs| - |visited|
    {
      assert JoinedAt(c, |visited| + 1) && c[|visited| + 1] == if |visited| < |xs| then xs[|visited|] else head;
      visited := visited + [p];
      p := p.next;
    }
    assert p == c[|visited| + 1] == (xs + [head])[|visited|];
  }

  /** list_for_each_safe whose body deletes the cursor: every entry is visited once, and none is left. */
  method DeleteEach(head: Link, ghost xs: seq<Link>) returns (visited: seq<Link>)
    requires List(head, xs)
    modifies head, xs
    ensures visited == xs && List(head, [])
    ensures Unlinked(xs)
  {
    hide List, Apart, Unlinked;
    ghost var rest := xs;
    ListApart(head, xs);
    CursorIs(head, rest);
    assert Unlinked([]) by { NoneUnlinked(); }
    visited := [];
    var p: Link := head.next;
    var n := p.next;
    while p != head
      invariant visited + rest == xs && List(head, rest) && p == (rest + [head])[0] && n == p.next && n != null
      invariant Unlinked(visited)
      invariant forall i :: 0 <= i < |rest| ==> rest[i] in xs
      decreases |rest|
    {
      CursorIs(head, rest);
      VisitedApart(visited, rest, head, xs);
      Shifted(visited, rest);
      DeleteFirst(p, head, visited, rest);
      visited := visited + [p];
      rest := rest[1..];
      CursorIs(head, rest);
      p := n;
      n := p.next;
    }
    CursorIs(head, rest);
  }

  lemma Shifted(a: seq<Link>, b: seq<Link>)
    requires b != []
    ensures a + b == (a + [b[0]]) + b[1..]
  {
  }

  lemma NoneUnlinked()
    ensures Unlinked([])
  {
  }

  lemma ListApart(head: Link, xs: seq<Link>)
    requires List(head, xs)
    ensures Apart([head] + xs)
  {
  }

  predicate Unlinked(s: seq<Link>)
    reads s
  {
    forall x :: x in s ==> x.next == null && x.prev == null
  }

  method DeleteFirst(p: Link, head: Link, ghost visited: seq<Link>, ghost rest: seq<Link>)
    requires List(head, rest) && rest != [] && p == rest[0]
    requires Unlinked(visited) && forall x :: x in visited ==> x != head && x !in rest
    modifies head, rest
    ensures List(head, rest[1..]) && Unlinked(visited + [p])
  {
    assert rest == [] + [p] + rest[1..] && [] + rest[1..] == rest[1..];
    ListDel(p, head, [], rest[1..]);
  }

  /** What the first two pointers of a traversal lead to. */
  lemma CursorIs(head: Link, rest: seq<Link>)
    requires List(head, rest)
    ensures head.next == (rest + [head])[0] && head.next != null && head.next.next != null
    ensures rest != [] ==> rest[0].next == (rest[1..] + [head])[0]
    ensures rest != [] ==> rest[0] != head
  {
    var c := [head] + rest + [head];
    assert JoinedAt(c, 0) && c[1] == (rest + [head])[0];
    EntryIsNotHead(head, rest);
    if rest != [] { assert JoinedAt(c, 1) && c[2] == (rest[1..] + [head])[0]; }
  }

  lemma VisitedApart(visited: seq<Link>, rest: seq<Link>, head: Link, xs: seq<Link>)
    requires Apart([head] + xs) && visited + rest == xs
    ensures forall x :: x in visited ==> x != head && x !in rest
  {
    assert forall x :: x in visited ==> x in visited + rest;
    assert head in [head];
    ApartSum([head], xs);
    ApartSum(visited, rest);
  }
}
