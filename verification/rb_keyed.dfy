/** What an index with unique keys stands for over whole runs: a finite map. */
module RbKeyed {
  import opened RbTree
  import opened RbLink
  import opened RbOrder
  import opened RbIndex

  /** Link a unit under a key, unlink a unit, ask for a key. */
  datatype Request = Put(e: Entry) | Remove(n: Node) | Get(key: int)
  datatype Reply = Code(r: int) | Done | Found(n: Node?)

  function Updated(m: map<int, Node>, q: Request): map<int, Node> {
    match q
    case Put(e) => if e.key in m then m else m[e.key := e.node]
    case Remove(n) => map k | k in m && m[k] != n :: m[k]
    case Get(_) => m
  }

  function Answer(m: map<int, Node>, q: Request): Reply {
    match q
    case Put(e) => Code(if e.key in m then -1 else 0)
    case Remove(_) => Done
    case Get(key) => Found(Lookup(m, key))
  }

  /** The map after a run. */
  function Kept(qs: seq<Request>): map<int, Node> {
    if qs == [] then map[] else Updated(Kept(qs[..|qs| - 1]), qs[|qs| - 1])
  }

  function Replies(qs: seq<Request>): seq<Reply> {
    if qs == [] then [] else Replies(qs[..|qs| - 1]) + [Answer(Kept(qs[..|qs| - 1]), qs[|qs| - 1])]
  }

  predicate HasUnit(m: map<int, Node>, n: Node) { exists k :: k in m && m[k] == n }

  /** A unit's key stays as it is while the unit is linked, and only linked units are unlinked. */
  predicate Admissible(qs: seq<Request>) {
    qs == [] || (
      var m, q := Kept(qs[..|qs| - 1]), qs[|qs| - 1];
      && Admissible(qs[..|qs| - 1]) && (q.Remove? ==> HasUnit(m, q.n))
      && (q.Put? ==> forall k :: k in m && m[k] == q.e.node ==> k == q.e.key))
  }

  lemma {:induction false} AdmissiblePrefix(qs: seq<Request>, k: nat)
    requires Admissible(qs) && k <= |qs|
    ensures Admissible(qs[..k])
    decreases |qs|
  {
    if k == |qs| {
      assert qs[..k] == qs;
    } else {
      assert qs[..|qs| - 1][..k] == qs[..k];
      AdmissiblePrefix(qs[..|qs| - 1], k);
    }
  }

  lemma RunStep(qs: seq<Request>, k: nat)
    requires Admissible(qs) && k < |qs|
    ensures Kept(qs[..k + 1]) == Updated(Kept(qs[..k]), qs[k])
    ensures Replies(qs[..k + 1]) == Replies(qs[..k]) + [Answer(Kept(qs[..k]), qs[k])]
    ensures qs[k].Remove? ==> HasUnit(Kept(qs[..k]), qs[k].n)
    ensures qs[k].Put? ==> qs[k].e.node in Units(qs)
    ensures qs[k].Put? ==> forall x :: x in Kept(qs[..k]) && Kept(qs[..k])[x] == qs[k].e.node ==> x == qs[k].e.key
  {
    AdmissiblePrefix(qs, k + 1);
    assert qs[..k + 1][..k] == qs[..k];
  }

  // ---------------------------------------------------------------- the law of a run

  /** Request `i` linked a unit, which is still linked when request `j` comes. */
  predicate HeldSince(qs: seq<Request>, rs: seq<Reply>, i: int, j: int) {
    && 0 <= i < j <= |qs| && i < |rs| && qs[i].Put? && rs[i] == Code(0)
    && forall x :: i < x < j ==> qs[x] != Remove(qs[i].e.node)
  }

  predicate NoneHeld(qs: seq<Request>, rs: seq<Reply>, j: int, k: int) {
    forall i :: 0 <= i < j && HeldSince(qs, rs, i, j) ==> qs[i].e.key != k
  }

  /** What replies must be, said by requests and replies only: a key is refused exactly if a unit is held under
      it, a query finds that unit, or nothing if there is none. */
  ghost predicate Lawful(qs: seq<Request>, rs: seq<Reply>) {
    && |rs| == |qs|
    && (forall j :: 0 <= j < |qs| && qs[j].Put? ==>
      rs[j] == Code(if exists i :: HeldSince(qs, rs, i, j) && qs[i].e.key == qs[j].e.key then -1 else 0))
    && (forall j :: 0 <= j < |qs| && qs[j].Get? ==> rs[j].Found?)
    && (forall i, j :: HeldSince(qs, rs, i, j) && j < |qs| && qs[j].Get? && qs[j].key == qs[i].e.key ==>
      rs[j] == Found(qs[i].e.node))
    && (forall j :: 0 <= j < |qs| && qs[j].Get? && NoneHeld(qs, rs, j, qs[j].key) ==> rs[j] == Found(null))
    && (forall j :: 0 <= j < |qs| && qs[j].Remove? ==> rs[j] == Done)
  }

  lemma {:induction false} ReplyAt(qs: seq<Request>, i: nat)
    requires i < |qs|
    ensures |Replies(qs)| == |qs| && Replies(qs)[i] == Answer(Kept(qs[..i]), qs[i])
    decreases |qs|
  {
    var n := |qs| - 1;
    if n > 0 { ReplyAt(qs[..n], if i < n then i else n - 1); }
    if i < n { assert qs[..n][..i] == qs[..i]; }
  }

  /** The map holds exactly the units that are held, under their keys. */
  lemma {:induction false} KeptIsHeld(qs: seq<Request>, j: nat, n: Node, k: int)
    requires j <= |qs|
    ensures (k in Kept(qs[..j]) && Kept(qs[..j])[k] == n <==>
      exists i :: HeldSince(qs, Replies(qs), i, j) && qs[i].e == Entry(n, k))
  {
    if j > 0 {
      var rs, i0 := Replies(qs), j - 1;
      assert qs[..j][..i0] == qs[..i0] && qs[..j][i0] == qs[i0];
      KeptIsHeld(qs, i0, n, k);
      ReplyAt(qs, i0);
      forall i ensures HeldSince(qs, rs, i, j) && qs[i].e == Entry(n, k) <==>
        ((HeldSince(qs, rs, i, i0) && qs[i].e == Entry(n, k) && qs[i0] != Remove(n))
          || (i == i0 && qs[i0] == Put(Entry(n, k)) && rs[i0] == Code(0)))
      {
      }
    }
  }

  lemma RepliesAreLawful(qs: seq<Request>)
    ensures Lawful(qs, Replies(qs))
  {
    var rs := Replies(qs);
    if qs != [] { ReplyAt(qs, 0); }
    forall j | 0 <= j < |qs|
      ensures qs[j].Put? ==>
        (rs[j] == Code(if exists i :: HeldSince(qs, rs, i, j) && qs[i].e.key == qs[j].e.key then -1 else 0))
    {
      ReplyAt(qs, j);
      if qs[j].Put? { KeyIsHeld(qs, j, qs[j].e.key); }
    }
    forall i, j | HeldSince(qs, rs, i, j) && j < |qs| && qs[j].Get? && qs[j].key == qs[i].e.key
      ensures rs[j] == Found(qs[i].e.node)
    {
      ReplyAt(qs, j);
      KeptIsHeld(qs, j, qs[i].e.node, qs[i].e.key);
    }
    forall j | 0 <= j < |qs| && qs[j].Get? && NoneHeld(qs, rs, j, qs[j].key)
      ensures rs[j] == Found(null)
    {
      ReplyAt(qs, j);
      KeyIsHeld(qs, j, qs[j].key);
    }
    forall j | 0 <= j < |qs| ensures qs[j].Get? ==> rs[j].Found? ensures qs[j].Remove? ==> rs[j] == Done {
      ReplyAt(qs, j);
    }
  }

  lemma KeyIsHeld(qs: seq<Request>, j: nat, k: int)
    requires j <= |qs|
    ensures k in Kept(qs[..j]) <==> exists i :: HeldSince(qs, Replies(qs), i, j) && qs[i].e.key == k
  {
    if k in Kept(qs[..j]) {
      KeptIsHeld(qs, j, Kept(qs[..j])[k], k);
    }
    if i :| HeldSince(qs, Replies(qs), i, j) && qs[i].e.key == k {
      KeptIsHeld(qs, j, qs[i].e.node, k);
    }
  }

  /** Which runs are admissible, said by requests and replies only. */
  lemma AdmissibleRuns(qs: seq<Request>, q: Request)
    ensures Admissible([])
    ensures Admissible(qs + [q]) <==> (
      && Admissible(qs)
      && (q.Remove? ==> exists i :: HeldSince(qs, Replies(qs), i, |qs|) && qs[i].e.node == q.n)
      && (q.Put? ==> forall i :: HeldSince(qs, Replies(qs), i, |qs|) && qs[i].e.node == q.e.node ==> qs[i].e == q.e))
  {
    var all, m := qs + [q], Kept(qs);
    assert all[..|all| - 1] == qs && all[|all| - 1] == q && qs[..|qs|] == qs;
    if q.Remove? {
      if HasUnit(m, q.n) {
        var k :| k in m && m[k] == q.n;
        KeptIsHeld(qs, |qs|, q.n, k);
      }
      if i :| HeldSince(qs, Replies(qs), i, |qs|) && qs[i].e.node == q.n {
        KeptIsHeld(qs, |qs|, q.n, qs[i].e.key);
      }
    }
    if q.Put? {
      forall k ensures k in m && m[k] == q.e.node <==>
        exists i :: HeldSince(qs, Replies(qs), i, |qs|) && qs[i].e == Entry(q.e.node, k)
      {
        KeptIsHeld(qs, |qs|, q.e.node, k);
      }
    }
  }

  // ---------------------------------------------------------------- the sequence and the map

  /** The linked nodes are the map's values. */
  lemma NodeIsValue(s: seq<Node>, n: Node)
    requires Strict(View(s))
    ensures Sorted(View(s)) && (n in s <==> HasUnit(AsMap(View(s)), n))
    ensures n in s ==> n.unit.key in AsMap(View(s)) && AsMap(View(s))[n.unit.key] == n
    ensures forall k :: k in AsMap(View(s)) && AsMap(View(s))[k] == n ==> k == n.unit.key
  {
    var v, m := View(s), AsMap(View(s));
    AsMapIs(v);
    if n in s {
      var i :| 0 <= i < |s| && s[i] == n;
      assert v[i].key in m && m[v[i].key] == v[i].node;
    }
    forall k | k in m && m[k] == n ensures k == n.unit.key && n in s {
      var i :| 0 <= i < |v| && v[i].key == k;
      assert m[v[i].key] == v[i].node;
    }
  }

  /** Taking a unit's key out of the map takes out the unit. */
  lemma WithoutKey(s: seq<Node>, n: Node)
    requires Strict(View(s)) && n in s
    ensures AsMap(View(s)) - {n.unit.key} == Updated(AsMap(View(s)), Remove(n))
  {
    NodeIsValue(s, n);
    var m := AsMap(View(s));
    var a, b := m - {n.unit.key}, Updated(m, Remove(n));
    forall k ensures k in a <==> k in b {
      assert k in b <==> k in m && m[k] != n;
    }
    assert forall k :: k in a ==> a[k] == m[k] == b[k];
  }

  // ---------------------------------------------------------------- every run

  ghost function Units(qs: seq<Request>): set<Node> { set i | 0 <= i < |qs| && qs[i].Put? :: qs[i].e.node }

  /** One request to the tree has the effect and the answer that it has on the map. */
  method Handle(t: RbRoot, q: Request, ghost nodes: set<Node>) returns (a: Reply)
    requires t.Valid() && Strict(View(t.Contents)) && OwnUnits(nodes)
    requires forall i :: 0 <= i < |t.Contents| ==> t.Contents[i] in nodes
    requires q.Put? ==> q.e.node in nodes
    requires q.Remove? ==> HasUnit(AsMap(View(t.Contents)), q.n)
    requires var m := AsMap(View(t.Contents)); q.Put? ==> forall k :: k in m && m[k] == q.e.node ==> k == q.e.key
    modifies t`root, t`tree, t`Contents, nodes, set n | n in nodes :: n.unit
    ensures t.Valid() && Strict(View(t.Contents)) && AsMap(View(t.Contents)) == Updated(old(AsMap(View(t.Contents))), q)
    ensures a == Answer(old(AsMap(View(t.Contents))), q)
    ensures forall i :: 0 <= i < |t.Contents| ==> t.Contents[i] in nodes
  {
    hide RbRoot.Valid, Strict, Sorted, AsMap, Drop;
    ghost var s := t.Contents;
    match q {
      case Put(e) =>
        NodeIsValue(s, e.node);
        Stamp(e, s, nodes);
        var r;
        ghost var i, steps;
        r, i, steps := LinkUnique(t, e.node);
        if r == 0 { WithAt(s, i, e.node); }
        return Code(r);
      case Remove(n) =>
        NodeIsValue(s, n);
        WithoutKey(s, n);
        Unlink(t, n);
        return Done;
      case Get(key) =>
        var r;
        ghost var steps;
        r, steps := Query(t, key);
        return Found(r);
    }
  }

  /** Over every run of links, unlinks and queries on an empty index, the index is the finite map of the
      run: codes and answers are the map's. */
  method Serve(t: RbRoot, qs: seq<Request>) returns (replies: seq<Reply>)
    requires t.Valid() && t.Contents == [] && Admissible(qs) && OwnUnits(Units(qs))
    modifies t`root, t`tree, t`Contents, Units(qs), set n | n in Units(qs) :: n.unit
    ensures t.Valid() && Strict(View(t.Contents)) && AsMap(View(t.Contents)) == Kept(qs) && replies == Replies(qs)
    ensures Lawful(qs, replies)
    ensures forall n: Node :: n in t.Contents <==>
      exists i :: HeldSince(qs, replies, i, |qs|) && qs[i].e == Entry(n, n.unit.key)
  {
    hide Lawful, RbRoot.Valid, Strict, AsMap, Admissible, Kept, Replies, Updated, Answer, Units, OwnUnits;
    replies := [];
    var k := 0;
    Beginning();
    assert qs[..0] == [] && View(t.Contents) == [];
    while k < |qs|
      invariant 0 <= k <= |qs| && t.Valid() && Strict(View(t.Contents))
      invariant AsMap(View(t.Contents)) == Kept(qs[..k]) && replies == Replies(qs[..k])
      invariant forall i :: 0 <= i < |t.Contents| ==> t.Contents[i] in Units(qs)
      decreases |qs| - k
    {
      RunStep(qs, k);
      var a := Handle(t, qs[k], Units(qs));
      replies := replies + [a];
      k := k + 1;
    }
    assert qs[..k] == qs;
    RepliesAreLawful(qs);
    LinkedAreHeld(t.Contents, qs);
  }

  /** What is linked in the end is what is held. */
  lemma LinkedAreHeld(s: seq<Node>, qs: seq<Request>)
    requires Strict(View(s)) && AsMap(View(s)) == Kept(qs)
    ensures forall n: Node :: n in s <==>
      exists i :: HeldSince(qs, Replies(qs), i, |qs|) && qs[i].e == Entry(n, n.unit.key)
  {
    hide AsMap, Kept, Strict, Replies;
    assert qs[..|qs|] == qs;
    forall n: Node
      ensures n in s <==> exists i :: HeldSince(qs, Replies(qs), i, |qs|) && qs[i].e == Entry(n, n.unit.key)
    {
      NodeIsValue(s, n);
      KeptIsHeld(qs, |qs|, n, n.unit.key);
    }
  }

  lemma Beginning()
    ensures Strict([]) && AsMap([]) == Kept([]) && Replies([]) == []
  {
  }
}
