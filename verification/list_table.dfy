/** Runs over many hash lists at once, such as the buckets of a table. */
module ListTable {
  import opened Distinct
  import opened ListHash

  type Lists = map<HashHead, seq<HashNode>>

  predicate Listed(lists: Lists, n: HashNode) { exists h :: h in lists && n in lists[h] }

  /** The heads and the nodes of their lists. */
  ghost function Footprint(lists: Lists): set<object> {
    (set h | h in lists :: h as object) + (set h, i | h in lists && 0 <= i < |lists[h]| :: lists[h][i] as object)
  }

  /** Every head has its list, and no node is on two of them. */
  ghost predicate Table(lists: Lists)
    reads Footprint(lists)
  {
    && (forall h :: h in lists ==> HashList(h, lists[h]))
    && forall g, h :: g in lists && h in lists && g != h ==> Disjoint(lists[g], lists[h])
  }

  datatype Op =
    | AddHead(n: HashNode, h: HashHead) | AddBefore(n: HashNode, m: HashNode) | AddBehind(n: HashNode, m: HashNode)
    | Delete(n: HashNode) | DeleteInit(n: HashNode) | Move(from: HashHead, to: HashHead)

  /** New nodes are on no list; the others are on one; a list moves to an empty head. */
  predicate Legal(lists: Lists, op: Op) {
    match op
    case AddHead(n, h) => h in lists && !Listed(lists, n)
    case AddBefore(n, m) => Listed(lists, m) && !Listed(lists, n)
    case AddBehind(n, m) => Listed(lists, m) && !Listed(lists, n)
    case Delete(n) => Listed(lists, n)
    case DeleteInit(n) => Listed(lists, n)
    case Move(from, to) => from in lists && to in lists && lists[to] == []
  }

  /** The head of the list that a node is on. */
  ghost function Home(lists: Lists, n: HashNode): (h: HashHead)
    requires Listed(lists, n)
    ensures h in lists && n in lists[h]
  {
    var h :| h in lists && n in lists[h];
    h
  }

  function Minus(xs: seq<HashNode>, n: HashNode): seq<HashNode>
    requires n in xs
  {
    xs[..Position(xs, n)] + xs[Position(xs, n) + 1..]
  }

  /** `n` enters `d` places behind the place of `m`. */
  function Plus(xs: seq<HashNode>, n: HashNode, m: HashNode, d: nat): seq<HashNode>
    requires m in xs && d <= 1
  {
    xs[..Position(xs, m) + d] + [n] + xs[Position(xs, m) + d..]
  }

  /** What an operation means for the sequences. */
  ghost function Apply(lists: Lists, op: Op): Lists
    requires Legal(lists, op)
  {
    match op
    case AddHead(n, h) => lists[h := [n] + lists[h]]
    case AddBefore(n, m) => var h := Home(lists, m); lists[h := Plus(lists[h], n, m, 0)]
    case AddBehind(n, m) => var h := Home(lists, m); lists[h := Plus(lists[h], n, m, 1)]
    case Delete(n) => var h := Home(lists, n); lists[h := Minus(lists[h], n)]
    case DeleteInit(n) => var h := Home(lists, n); lists[h := Minus(lists[h], n)]
    case Move(from, to) => lists[to := lists[from]][from := []]
  }

  ghost function NewNode(op: Op): set<object> {
    if op.AddHead? || op.AddBefore? || op.AddBehind? then {op.n} else {}
  }

  /** One list changes, and takes in at most a node that was on none. */
  lemma StillDisjoint(lists: Lists, h: HashHead, ys: seq<HashNode>)
    requires h in lists && forall g, k :: g in lists && k in lists && g != k ==> Disjoint(lists[g], lists[k])
    requires forall x :: x in ys ==> x in lists[h] || !Listed(lists, x)
    ensures var l := lists[h := ys]; forall g, k :: g in l && k in l && g != k ==> Disjoint(l[g], l[k])
  {
  }

  lemma Elsewhere(lists: Lists, g: HashHead, h: HashHead)
    requires g in lists && h in lists && Disjoint(lists[g], lists[h])
    ensures forall j :: 0 <= j < |lists[g]| ==> lists[g][j] !in lists[h] && Listed(lists, lists[g][j])
    ensures forall j, i :: 0 <= j < |lists[g]| && 0 <= i < |lists[h]| ==> lists[g][j] != lists[h][i]
  {
  }

  method DeleteFrom(n: HashNode, init: bool, ghost h: HashHead, ghost xs: seq<HashNode>)
    requires HashList(h, xs) && n in xs
    modifies h, xs
    ensures HashList(h, Minus(xs, n)) && n.next == null && n.pprev == if init then NoSlot else Poison
  {
    ghost var i := Position(xs, n);
    assert xs == xs[..i] + [n] + xs[i + 1..];
    ListedIsNotFake(n, h, xs[..i], xs[i + 1..]);
    if init {
      HlistDelInit(n, h, xs[..i], xs[i + 1..]);
    } else {
      HlistDel(n, h, xs[..i], xs[i + 1..]);
    }
  }

  method DeleteIn(n: HashNode, init: bool, ghost lists: Lists)
    requires Table(lists) && Listed(lists, n)
    modifies Footprint(lists)
    ensures var h := Home(lists, n); Table(lists[h := Minus(lists[h], n)])
    ensures n.next == null && n.pprev == if init then NoSlot else Poison
  {
    hide HashList;
    ghost var h := Home(lists, n);
    DeleteFrom(n, init, h, lists[h]);
    forall g | g in lists && g != h ensures HashList(g, lists[g]) {
      Elsewhere(lists, g, h);
      assert old(HashList(g, lists[g]));
    }
    StillDisjoint(lists, h, Minus(lists[h], n));
  }

  method AddHeadIn(n: HashNode, h: HashHead, ghost lists: Lists)
    requires Table(lists) && h in lists && !Listed(lists, n)
    modifies Footprint(lists), n
    ensures Table(lists[h := [n] + lists[h]])
  {
    hide HashList;
    HlistAddHead(n, h, lists[h]);
    forall g | g in lists && g != h ensures HashList(g, lists[g]) {
      Elsewhere(lists, g, h);
      assert old(HashList(g, lists[g]));
    }
    StillDisjoint(lists, h, [n] + lists[h]);
  }

  method AddBeside(n: HashNode, m: HashNode, behind: bool, ghost h: HashHead, ghost xs: seq<HashNode>)
    requires HashList(h, xs) && m in xs && n !in xs
    modifies n, h, xs
    ensures HashList(h, Plus(xs, n, m, if behind then 1 else 0))
  {
    hide HashList;
    ghost var i := Position(xs, m);
    ghost var a, b := xs[..i], xs[i + 1..];
    assert xs == a + [m] + b;
    if behind {
      HlistAddBehind(n, m, h, a, b);
      assert a + [m, n] + b == Plus(xs, n, m, 1);
    } else {
      HlistAddBefore(n, m, h, a, b);
      assert a + [n, m] + b == Plus(xs, n, m, 0);
    }
  }

  method AddBesideIn(n: HashNode, m: HashNode, behind: bool, ghost lists: Lists)
    requires Table(lists) && Listed(lists, m) && !Listed(lists, n)
    modifies Footprint(lists), n
    ensures var h := Home(lists, m); Table(lists[h := Plus(lists[h], n, m, if behind then 1 else 0)])
  {
    hide HashList;
    ghost var h := Home(lists, m);
    AddBeside(n, m, behind, h, lists[h]);
    forall g | g in lists && g != h ensures HashList(g, lists[g]) {
      Elsewhere(lists, g, h);
      assert old(HashList(g, lists[g]));
    }
    StillDisjoint(lists, h, Plus(lists[h], n, m, if behind then 1 else 0));
  }

  method MoveIn(from: HashHead, to: HashHead, ghost lists: Lists)
    requires Table(lists) && from in lists && to in lists && lists[to] == []
    modifies Footprint(lists)
    ensures Table(lists[to := lists[from]][from := []])
  {
    HlistMoveList(from, to, lists[from]);
    forall g | g in lists && g != from && g != to ensures HashList(g, lists[g]) {
      Elsewhere(lists, g, from);
      assert old(HashList(g, lists[g]));
    }
  }

  /** The change that an operation makes, place by place: `h` is the head of the list that changes, `a` and `b`
      are what lies before and behind the place. */
  lemma ApplyMeans(lists: Lists, op: Op) returns (h: HashHead, a: seq<HashNode>, b: seq<HashNode>)
    requires Legal(lists, op)
    ensures h in lists
    ensures op.AddHead? ==> h == op.h && Apply(lists, op) == lists[h := [op.n] + lists[h]]
    ensures op.AddBefore? ==> lists[h] == a + [op.m] + b && Apply(lists, op) == lists[h := a + [op.n, op.m] + b]
    ensures op.AddBehind? ==> lists[h] == a + [op.m] + b && Apply(lists, op) == lists[h := a + [op.m, op.n] + b]
    ensures op.Delete? || op.DeleteInit? ==> lists[h] == a + [op.n] + b && Apply(lists, op) == lists[h := a + b]
    ensures op.Move? ==> h == op.to && Apply(lists, op) == lists[h := lists[op.from]][op.from := []]
  {
    match op
    case AddHead(_, g) => return g, [], [];
    case AddBefore(n, m) =>
      h := Home(lists, m);
      a, b := Around(lists[h], m);
      assert a + [n, m] + b == Plus(lists[h], n, m, 0);
    case AddBehind(n, m) =>
      h := Home(lists, m);
      a, b := Around(lists[h], m);
      assert a + [m, n] + b == Plus(lists[h], n, m, 1);
    case Delete(n) =>
      h := Home(lists, n);
      a, b := Around(lists[h], n);
    case DeleteInit(n) =>
      h := Home(lists, n);
      a, b := Around(lists[h], n);
    case Move(_, to) => return to, [], [];
  }

  lemma Around(xs: seq<HashNode>, n: HashNode) returns (a: seq<HashNode>, b: seq<HashNode>)
    requires n in xs
    ensures xs == a + [n] + b && a == xs[..Position(xs, n)] && b == xs[Position(xs, n) + 1..]
  {
    a, b := xs[..Position(xs, n)], xs[Position(xs, n) + 1..];
  }

  /** One operation on one of many lists: what that list is afterwards, and that all others stay. */
  method Step(op: Op, ghost lists: Lists) returns (ghost h: HashHead, ghost a: seq<HashNode>, ghost b: seq<HashNode>)
    requires Table(lists) && Legal(lists, op)
    modifies Footprint(lists), NewNode(op)
    ensures Table(Apply(lists, op)) && h in lists
    ensures forall g :: g in lists && g != h && !(op.Move? && g == op.from) ==> HashList(g, lists[g])
    ensures op.AddHead? ==> h == op.h && HashList(h, [op.n] + lists[h])
    ensures op.AddBefore? ==> lists[h] == a + [op.m] + b && HashList(h, a + [op.n, op.m] + b)
    ensures op.AddBehind? ==> lists[h] == a + [op.m] + b && HashList(h, a + [op.m, op.n] + b)
    ensures op.Delete? || op.DeleteInit? ==> lists[h] == a + [op.n] + b && HashList(h, a + b) && op.n.next == null
    ensures (op.Delete? ==> op.n.pprev == Poison) && (op.DeleteInit? ==> op.n.pprev == NoSlot)
    ensures op.Move? ==> h == op.to && HashList(op.from, []) && (op.from != h ==> HashList(h, lists[op.from]))
  {
    hide HashList, Table;
    h, a, b := ApplyMeans(lists, op);
    match op {
      case AddHead(n, g) => AddHeadIn(n, g, lists);
      case AddBefore(n, m) => AddBesideIn(n, m, false, lists);
      case AddBehind(n, m) => AddBesideIn(n, m, true, lists);
      case Delete(n) => DeleteIn(n, false, lists);
      case DeleteInit(n) => DeleteIn(n, true, lists);
      case Move(from, to) => MoveIn(from, to, lists);
    }
    if op.Move? {
      ListsNow(lists, Apply(lists, op), h, lists[op.from], op.from);
    } else {
      ghost var ys := if op.AddHead? then [op.n] + lists[h] else if op.AddBefore? then a + [op.n, op.m] + b
        else if op.AddBehind? then a + [op.m, op.n] + b else a + b;
      ListsNow(lists, Apply(lists, op), h, ys, h);
    }
  }

  /** Once `h` has the list `ys` and all other heads but `g` have theirs as before, that is what the heap says. */
  lemma ListsNow(lists: Lists, now: Lists, h: HashHead, ys: seq<HashNode>, from: HashHead)
    requires Table(now) && h in lists && from in lists && (now == lists[h := ys] || now == lists[h := ys][from := []])
    ensures forall g :: g in lists && g != h && g != from ==> HashList(g, lists[g])
    ensures now == lists[h := ys] && from != h ==> HashList(from, lists[from])
    ensures now == lists[h := ys] || from != h ==> HashList(h, ys)
    ensures now == lists[h := ys][from := []] ==> HashList(from, [])
  {
    hide HashList;
    forall g | g in lists && g != h && g != from ensures HashList(g, lists[g]) {
      assert now[g] == lists[g];
    }
    assert HashList(h, now[h]) && HashList(from, now[from]);
  }

  ghost predicate AllLegal(lists: Lists, ops: seq<Op>)
    decreases |ops|
  {
    ops != [] ==> Legal(lists, ops[0]) && AllLegal(Apply(lists, ops[0]), ops[1..])
  }

  ghost function After(lists: Lists, ops: seq<Op>): Lists
    requires AllLegal(lists, ops)
    decreases |ops|
  {
    if ops == [] then lists else After(Apply(lists, ops[0]), ops[1..])
  }

  /** The lists after a run: nothing changes without operations, and the last one acts on what the others left. */
  lemma {:induction false} AfterLaws(lists: Lists, ops: seq<Op>, op: Op)
    ensures AllLegal(lists, []) && After(lists, []) == lists
    ensures AllLegal(lists, ops + [op]) <==> AllLegal(lists, ops) && Legal(After(lists, ops), op)
    ensures AllLegal(lists, ops + [op]) ==> After(lists, ops + [op]) == Apply(After(lists, ops), op)
    decreases |ops|
  {
    if ops == [] {
      assert ops + [op] == [op] && [op][1..] == [];
    } else {
      assert (ops + [op])[1..] == ops[1..] + [op];
      if Legal(lists, ops[0]) { AfterLaws(Apply(lists, ops[0]), ops[1..], op); }
    }
  }

  ghost function NewNodes(ops: seq<Op>): set<object> {
    set i, o | 0 <= i < |ops| && o in NewNode(ops[i]) :: o
  }

  lemma FootprintGrows(lists: Lists, op: Op)
    requires Legal(lists, op)
    ensures Footprint(Apply(lists, op)) <= Footprint(lists) + NewNode(op)
  {
  }

  /** Over every legal run, every `pprev` keeps naming the one slot that holds its node, and the lists are
      those of the run on sequences. */
  method Run(ops: seq<Op>, ghost lists: Lists)
    requires Table(lists) && AllLegal(lists, ops)
    modifies Footprint(lists), NewNodes(ops)
    ensures Table(After(lists, ops))
  {
    hide Table, Legal, Apply, Footprint, NewNode;
    var k := 0;
    ghost var now := lists;
    while k < |ops|
      invariant 0 <= k <= |ops| && Table(now) && AllLegal(now, ops[k..]) && After(now, ops[k..]) == After(lists, ops)
      invariant Footprint(now) <= Footprint(lists) + NewNodes(ops)
      decreases |ops| - k
    {
      FootprintGrows(now, ops[k]);
      assert NewNode(ops[k]) <= NewNodes(ops);
      ghost var h, a, b := Step(ops[k], now);
      now := Apply(now, ops[k]);
      assert ops[k..][1..] == ops[k + 1..];
      k := k + 1;
    }
  }
}
