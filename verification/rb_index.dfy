/** The templates of src/rbtree_tpl.h: units kept in a red-black tree by a key. */
module RbIndex {
  import opened Distinct
  import opened RbShape
  import opened RbBalance
  import opened RbHeight
  import opened RbTrace
  import opened RbRerank
  import opened RbTree
  import opened RbInsert
  import opened RbErase
  import opened RbLink
  import opened RbOrder
  import W = RbWalk

  /** The nodes of a sequence with the keys of their units. */
  ghost function View(s: seq<Node>): seq<Entry>
    reads set i | 0 <= i < |s| :: s[i].unit
  {
    seq(|s|, i requires 0 <= i < |s| reads set j | 0 <= j < |s| :: s[j].unit => Entry(s[i], s[i].unit.key))
  }

  lemma ViewWith(s: seq<Node>, i: int, n: Node)
    requires 0 <= i <= |s|
    ensures View(With(s, i, n)) == View(s)[..i] + [Entry(n, n.unit.key)] + View(s)[i..]
  {
    WithAt(s, i, n);
  }

  lemma ViewWithout(s: seq<Node>, k: int)
    requires 0 <= k < |s|
    ensures View(Without(s, k)) == View(s)[..k] + View(s)[k + 1..]
  {
    WithoutAt(s, k);
  }

  /** Different nodes are embedded in different structs. */
  ghost predicate OwnUnits(nodes: set<Node>) {
    forall m, n :: m in nodes && n in nodes && m != n ==> m.unit != n.unit
  }

  /** A caller gives a unit, used for the first time or again, its key before it is linked. */
  method Stamp(e: Entry, ghost s: seq<Node>, ghost nodes: set<Node>)
    requires OwnUnits(nodes) && e.node in nodes && (e.node in s ==> e.node.unit.key == e.key)
    requires forall i :: 0 <= i < |s| ==> s[i] in nodes
    modifies e.node.unit
    ensures e.node.unit.key == e.key && View(s) == old(View(s))
  {
    e.node.unit.key := e.key;
  }

  // ---------------------------------------------------------------- the descent to an empty slot

  /** `slot` holds the pointer to the subtree at `z`, whose parent is `parent`. */
  ghost function Hanging(t: RbRoot, z: Spot, h: int, parent: Node?, slot: Slot): Fit
    reads t`root, t`Contents, t.Contents
  {
    if t.At(z) == Fits && Level(z, h, 0) == Fits && !RedPair(z) && (z.q.Top? ==> !IsRed(z.t))
        && parent == t.Ref(Holder(z.q))
      && (if z.q.Top? then slot == RootSlot else parent != null && slot == ChildSlot(parent, z.q.side))
    then Fits else Misfit
  }

  lemma HangingRoot(t: RbRoot)
    requires t.Valid()
    ensures Hanging(t, Spot(t.tree, Top, 0, |t.Contents|), BlackHeight(t.tree), null, RootSlot) == Fits
  {
  }

  /** What a slot holds. */
  lemma HangingFacts(t: RbRoot, z: Spot, h: int, parent: Node?, slot: Slot)
    requires Hanging(t, z, h, parent, slot) == Fits
    ensures Load(t, slot) == t.Ref(Ptr(z.t)) && (Load(t, slot) == null <==> z.t.Nil?)
    ensures 0 <= z.lo <= z.hi <= |t.Contents|
    ensures z.t.Nil? ==> z.lo == z.hi && Vacant(t, z, parent, slot) == Fits
    ensures z.t.Bin? ==> z.lo <= z.t.k < z.hi && Load(t, slot) == t.Contents[z.t.k]
    ensures Pow2(Depth(z.q)) <= (|t.Contents| + 1) * (|t.Contents| + 1)
  {
    hide Apart, Rank, Pow2;
    var m, top := t.Fields(), Rank(t.Contents, t.root);
    t.Look(z);
    Around(m, top, z);
    DescentBound(m, top, z, h);
    SpotRanks(m, top, z);
  }

  lemma SpotRanks(m: Mem, root: int, z: Spot)
    requires Linked(m, root, z) == Fits
    ensures 0 <= z.lo <= z.hi <= |m| && (z.t.Nil? ==> z.lo == z.hi)
    decreases Depth(z.q)
  {
    ShapeFrame(m, m, z.t, Holder(z.q), z.lo, z.hi);
  }

  lemma HangingDown(t: RbRoot, z: Spot, h: int, parent: Node?, slot: Slot, s: Side)
    requires Hanging(t, z, h, parent, slot) == Fits && z.t.Bin?
    ensures var p := t.Ref(z.t.k);
      p != null && Hanging(t, Down(z, s), h - Weight(z.t.color), p, ChildSlot(p, s)) == Fits
  {
    hide RbRoot.At;
    t.Look(z);
    t.GoDown(z, s);
  }

  /** The end of every link template: rb_link_node, then rb_insert_color. */
  method LinkAndColor(t: RbRoot, n: Node, parent: Node?, slot: Slot, ghost z: Spot)
    requires t.Valid() && Vacant(t, z, parent, slot) == Fits && n !in t.Contents
    modifies t`root, t`tree, t`Contents, t.Contents, n
    ensures t.Valid() && 0 <= z.lo <= |old(t.Contents)| && t.Contents == With(old(t.Contents), z.lo, n)
  {
    hide RbRoot.At, RbRoot.Valid, Vacant, Wired, Walk, Apart, Rank, Traced, RedAt;
    ghost var was := t.Fields();
    t.LinksAgree();
    LinkNode(t, n, parent, slot, z);
    InsertColor(t, n, LeafSpot(z), 0, Inserted(was, z.lo), z.lo);
  }

  /** Every empty child slot of a valid tree is vacant, at the rank right before or behind its node. */
  lemma VacantBelow(t: RbRoot, p: Node, s: Side) returns (z: Spot)
    requires t.Valid() && p in t.Contents && (if s == Left then p.left else p.right) == null
    ensures Vacant(t, z, p, ChildSlot(p, s)) == Fits
    ensures z.lo == Rank(t.Contents, p) + if s == Left then 0 else 1
  {
    hide Apart, Rank, RbRoot.At;
    var w, h := W.SpottedNode(t, p);
    W.SpottedFacts(t, w, h, p);
    W.SpottedDown(t, w, h, s);
    t.Look(w);
    z := Down(w, s);
  }

  /** The slot of an empty tree is vacant. */
  lemma VacantRoot(t: RbRoot) returns (z: Spot)
    requires t.Valid() && t.root == null
    ensures Vacant(t, z, null, RootSlot) == Fits && z.lo == 0 && t.Contents == []
  {
    W.SpottedRoot(t);
    z := Spot(t.tree, Top, 0, 0);
    t.Look(z);
  }

  /** Where rb_link_node puts a node: in the empty tree, or right before or behind the parent. */
  ghost function PlaceIn(s: seq<Node>, slot: Slot): int {
    match slot
    case RootSlot => 0
    case ChildSlot(p, side) => Rank(s, p) + if side == Left then 0 else 1
  }

  /** rb_link_node in any empty slot of a valid tree, then rb_insert_color. */
  method LinkInto(t: RbRoot, n: Node, parent: Node?, slot: Slot)
    requires t.Valid() && n !in t.Contents && Load(t, slot) == null
    requires if parent == null then slot == RootSlot else parent in t.Contents && slot.ChildSlot? && slot.of == parent
    modifies t`root, t`tree, t`Contents, t.Contents, n
    ensures t.Valid() && 0 <= PlaceIn(old(t.Contents), slot) <= |old(t.Contents)|
    ensures t.Contents == With(old(t.Contents), PlaceIn(old(t.Contents), slot), n)
  {
    hide RbRoot.Valid, Vacant, Rank;
    ghost var z;
    if parent == null {
      z := VacantRoot(t);
    } else {
      z := VacantBelow(t, parent, slot.side);
    }
    LinkAndColor(t, n, parent, slot, z);
  }

  /** LINK_RBTREENODE_INT_ALLOWDUPLICATE: the unit goes behind all units whose keys are not greater. */
  method LinkAllowDuplicate(t: RbRoot, n: Node) returns (r: int, ghost i: int, ghost steps: nat)
    requires t.Valid() && n !in t.Contents
    modifies t`root, t`tree, t`Contents, t.Contents, n
    ensures r == 0 && t.Valid() && 0 <= i <= |old(t.Contents)| && t.Contents == With(old(t.Contents), i, n)
    ensures Sorted(old(View(t.Contents))) ==> View(t.Contents) == Insert(old(View(t.Contents)), Entry(n, n.unit.key))
    ensures Sorted(old(View(t.Contents))) ==> forall j :: 0 <= j < i ==> old(t.Contents)[j].unit.key <= n.unit.key
    ensures Sorted(old(View(t.Contents))) ==>
      forall j :: i <= j < |old(t.Contents)| ==> old(t.Contents)[j].unit.key > n.unit.key
    ensures Pow2(steps) <= (|old(t.Contents)| + 1) * (|old(t.Contents)| + 1)
  {
    hide RbRoot.At, RbRoot.Valid, Hanging, Vacant, Wired, Walk, Apart, Rank, Pow2, With, Traced, RedAt, Sorted, Insert;
    ghost var s, v, key := t.Contents, View(t.Contents), n.unit.key;
    HangingRoot(t);
    var slot, parent := RootSlot, null;
    ghost var z, h := Spot(t.tree, Top, 0, |s|), BlackHeight(t.tree);
    steps := 0;
    while Load(t, slot) != null
      invariant Hanging(t, z, h, parent, slot) == Fits && steps == Depth(z.q) && 0 <= z.lo <= z.hi <= |s|
      invariant (z.lo > 0 ==> v[z.lo - 1].key <= key) && (z.hi < |s| ==> v[z.hi].key > key)
      modifies {}
      decreases z.t
    {
      HangingFacts(t, z, h, parent, slot);
      HangingDown(t, z, h, parent, slot, Left);
      HangingDown(t, z, h, parent, slot, Right);
      var p := Load(t, slot);
      parent := p;
      if n.unit.key < p.unit.key {
        slot, z, h := ChildSlot(p, Left), Down(z, Left), h - Weight(z.t.color);
      } else if n.unit.key > p.unit.key {
        slot, z, h := ChildSlot(p, Right), Down(z, Right), h - Weight(z.t.color);
      } else {
        slot, z, h := ChildSlot(p, Right), Down(z, Right), h - Weight(z.t.color);
      }
      steps := steps + 1;
    }
    HangingFacts(t, z, h, parent, slot);
    i := z.lo;
    LinkAndColor(t, n, parent, slot, z);
    ViewWith(s, i, n);
    InsertedView(v, Entry(n, key), i);
    PlacedKeys(s, v, key, i);
    r := 0;
  }

  /** A place between two neighbours in a sorted sequence, said by the units' keys. */
  lemma PlacedKeys(s: seq<Node>, v: seq<Entry>, key: int, i: int)
    requires v == View(s) && 0 <= i <= |v| && (i > 0 ==> v[i - 1].key <= key) && (i < |v| ==> v[i].key > key)
    ensures Sorted(v) ==> forall j :: 0 <= j < i ==> s[j].unit.key <= key
    ensures Sorted(v) ==> forall j :: i <= j < |s| ==> s[j].unit.key > key
  {
    if Sorted(v) {
      forall j | 0 <= j < |s| ensures if j < i then s[j].unit.key <= key else s[j].unit.key > key {
        assert v[j].key == s[j].unit.key && if j < i then v[j].key <= v[i - 1].key else v[i].key <= v[j].key;
      }
    }
  }

  lemma InsertedView(v: seq<Entry>, e: Entry, i: int)
    requires 0 <= i <= |v| && (i > 0 ==> v[i - 1].key <= e.key) && (i < |v| ==> v[i].key > e.key)
    ensures Sorted(v) ==> v[..i] + [e] + v[i..] == Insert(v, e)
  {
    if Sorted(v) { PlaceIs(v, e.key, i); }
  }

  // ---------------------------------------------------------------- unique keys

  function Lookup(m: map<int, Node>, k: int): Node? { if k in m then m[k] else null }

  /** LINK_RBTREENODE_INT (and _STRING, _PTR, LINK_RBTREENODE): refuses a key that is there already. */
  method LinkUnique(t: RbRoot, n: Node) returns (r: int, ghost i: int, ghost steps: nat)
    requires t.Valid() && (n in t.Contents ==> Sorted(View(t.Contents)))
    modifies t`root, t`tree, t`Contents, t.Contents, n
    ensures t.Valid() && (r == -1 || r == 0) && Pow2(steps) <= (|old(t.Contents)| + 1) * (|old(t.Contents)| + 1)
    ensures r == -1 ==>
      (unchanged(t) && unchanged(old(t.Contents)) && unchanged(n) && HasKey(old(View(t.Contents)), n.unit.key))
    ensures n in old(t.Contents) ==> r == -1
    ensures r == 0 ==> 0 <= i <= |old(t.Contents)| && t.Contents == With(old(t.Contents), i, n)
    ensures Strict(old(View(t.Contents))) ==>
      (Strict(View(t.Contents)) && (r == -1 <==> n.unit.key in old(AsMap(View(t.Contents)))))
    ensures Strict(old(View(t.Contents))) && r == 0 ==>
      (AsMap(View(t.Contents)) == old(AsMap(View(t.Contents)))[n.unit.key := n])
  {
    hide RbRoot.At, RbRoot.Valid, Hanging, Vacant, Wired, Walk, Apart, Rank, Pow2, With, Traced, RedAt, Strict,
      Insert, AsMap, HasKey;
    ghost var s, v, key := t.Contents, View(t.Contents), n.unit.key;
    HangingRoot(t);
    var slot, parent := RootSlot, null;
    ghost var z, h := Spot(t.tree, Top, 0, |s|), BlackHeight(t.tree);
    i, steps := 0, 0;
    while Load(t, slot) != null
      invariant Hanging(t, z, h, parent, slot) == Fits && steps == Depth(z.q) && 0 <= z.lo <= z.hi <= |s|
      invariant (z.lo > 0 ==> v[z.lo - 1].key < key) && (z.hi < |s| ==> v[z.hi].key > key)
      modifies {}
      decreases z.t
    {
      HangingFacts(t, z, h, parent, slot);
      HangingDown(t, z, h, parent, slot, Left);
      HangingDown(t, z, h, parent, slot, Right);
      var p := Load(t, slot);
      parent := p;
      if n.unit.key < p.unit.key {
        slot, z, h := ChildSlot(p, Left), Down(z, Left), h - Weight(z.t.color);
      } else if n.unit.key > p.unit.key {
        slot, z, h := ChildSlot(p, Right), Down(z, Right), h - Weight(z.t.color);
      } else {
        KeyFound(v, key, z.t.k);
        r := -1;
        return;
      }
      steps := steps + 1;
    }
    HangingFacts(t, z, h, parent, slot);
    i := z.lo;
    NotThere(s, n, i);
    LinkAndColor(t, n, parent, slot, z);
    ViewWith(s, i, n);
    KeyNew(v, Entry(n, key), i);
    r := 0;
  }

  lemma KeyFound(v: seq<Entry>, key: int, k: int)
    requires 0 <= k < |v| && v[k].key == key
    ensures HasKey(v, key) && (Strict(v) ==> key in AsMap(v) && AsMap(v)[key] == v[k].node)
  {
    if Strict(v) { AsMapIs(v); }
  }

  /** Between two neighbours that are less and greater there is no such key. */
  lemma KeyAbsent(v: seq<Entry>, key: int, i: int)
    requires 0 <= i <= |v| && (i > 0 ==> v[i - 1].key < key) && (i < |v| ==> v[i].key > key)
    ensures Sorted(v) ==> !HasKey(v, key)
    ensures Strict(v) ==> key !in AsMap(v)
  {
    if Sorted(v) {
      forall j | 0 <= j < |v| ensures v[j].key != key {
        if j < i { assert v[j].key <= v[i - 1].key; } else { assert v[i].key <= v[j].key; }
      }
    }
    if Strict(v) { MapHas(v, key); }
  }

  /** A linked unit's own key is found. */
  lemma NotThere(s: seq<Node>, n: Node, i: int)
    requires var v := View(s);
      0 <= i <= |v| && (i > 0 ==> v[i - 1].key < n.unit.key) && (i < |v| ==> v[i].key > n.unit.key)
    ensures Sorted(View(s)) ==> n !in s
  {
    KeyAbsent(View(s), n.unit.key, i);
    if n in s {
      var j :| 0 <= j < |s| && s[j] == n;
      assert View(s)[j].key == n.unit.key;
    }
  }

  lemma KeyNew(v: seq<Entry>, e: Entry, i: int)
    requires 0 <= i <= |v| && (i > 0 ==> v[i - 1].key < e.key) && (i < |v| ==> v[i].key > e.key)
    ensures Strict(v) ==>
      (e.key !in AsMap(v) && Strict(v[..i] + [e] + v[i..]) && AsMap(v[..i] + [e] + v[i..]) == AsMap(v)[e.key := e.node])
  {
    KeyAbsent(v, e.key, i);
    if Strict(v) {
      InsertedView(v, e, i);
      MapInserted(v, e);
    }
  }

  /** QUERY_RBTREENODE_INT (and _STRING, _PTR, QUERY_RBTREENODE). */
  method Query(t: RbRoot, key: int) returns (r: Node?, ghost steps: nat)
    requires t.Valid()
    ensures r != null ==> r in t.Contents && r.unit.key == key
    ensures r == null && Sorted(View(t.Contents)) ==> forall n :: n in t.Contents ==> n.unit.key != key
    ensures Strict(View(t.Contents)) ==> r == Lookup(AsMap(View(t.Contents)), key)
    ensures Pow2(steps) <= (|t.Contents| + 1) * (|t.Contents| + 1)
  {
    hide RbRoot.At, RbRoot.Valid, Hanging, Vacant, Apart, Rank, Pow2, Strict, Sorted, AsMap;
    ghost var s, v := t.Contents, View(t.Contents);
    HangingRoot(t);
    var node := t.root;
    ghost var slot, parent := RootSlot, null;
    ghost var z, h := Spot(t.tree, Top, 0, |s|), BlackHeight(t.tree);
    steps := 0;
    while node != null
      invariant Hanging(t, z, h, parent, slot) == Fits && steps == Depth(z.q) && 0 <= z.lo <= z.hi <= |s|
      invariant node == Load(t, slot)
      invariant (z.lo > 0 ==> v[z.lo - 1].key < key) && (z.hi < |s| ==> v[z.hi].key > key)
      decreases z.t
    {
      HangingFacts(t, z, h, parent, slot);
      HangingDown(t, z, h, parent, slot, Left);
      HangingDown(t, z, h, parent, slot, Right);
      if key < node.unit.key {
        parent, slot, z, h := node, ChildSlot(node, Left), Down(z, Left), h - Weight(z.t.color);
        node := node.left;
      } else if key > node.unit.key {
        parent, slot, z, h := node, ChildSlot(node, Right), Down(z, Right), h - Weight(z.t.color);
        node := node.right;
      } else {
        KeyFound(v, key, z.t.k);
        return node, steps;
      }
      steps := steps + 1;
    }
    HangingFacts(t, z, h, parent, slot);
    KeyAbsent(v, key, z.lo);
    forall n | n in s && Sorted(v) ensures n.unit.key != key {
      var j :| 0 <= j < |s| && s[j] == n;
      assert v[j].key == n.unit.key;
    }
    r := null;
  }

  // ---------------------------------------------------------------- unlink and update

  lemma ViewDropped(s: seq<Node>, k: int)
    requires Apart(s) && 0 <= k < |s|
    ensures OwnNodes(View(s)) && View(Without(s, k)) == Drop(View(s), s[k])
    ensures Strict(View(s)) ==>
      (Strict(View(Without(s, k))) && AsMap(View(Without(s, k))) == AsMap(View(s)) - {s[k].unit.key})
  {
    hide Strict;
    ViewWithout(s, k);
    DropAt(View(s), k);
    if Strict(View(s)) { MapDropped(View(s), k); }
  }

  /** UNLINK_RBTREENODE: the unit is out, all others stay in order. */
  method Unlink(t: RbRoot, n: Node)
    requires t.Valid() && n in t.Contents
    modifies t`root, t`tree, t`Contents, t.Contents
    ensures t.Valid() && n !in t.Contents && View(t.Contents) == Drop(old(View(t.Contents)), n)
    ensures forall i :: 0 <= i < |t.Contents| ==> t.Contents[i] in old(t.Contents)
    ensures Strict(old(View(t.Contents))) ==>
      (Strict(View(t.Contents)) && AsMap(View(t.Contents)) == old(AsMap(View(t.Contents))) - {n.unit.key})
  {
    hide RbRoot.At, RbRoot.Valid, Wired, Rank, Walk, Strict, AsMap, Drop, Deepest, BeforeErase;
    ghost var s, k := t.Contents, Rank(t.Contents, n);
    t.LinksAgree();
    ViewDropped(s, k);
    Erase(t, n);
  }

  /** UPDATE_RBTREENODE over the allow-duplicate link.  The key may have changed while the unit was linked:
      what counts is that the others are sorted. */
  method UpdateAllowDuplicate(t: RbRoot, n: Node) returns (r: int)
    requires t.Valid() && n in t.Contents
    modifies t`root, t`tree, t`Contents, t.Contents
    ensures r == 0 && t.Valid() && n in t.Contents
    ensures Sorted(Drop(old(View(t.Contents)), n)) ==>
      (View(t.Contents) == Insert(Drop(old(View(t.Contents)), n), Entry(n, n.unit.key)) && Sorted(View(t.Contents)))
  {
    hide RbRoot.Valid, Sorted, Strict, AsMap, Drop, Insert, Pow2;
    Unlink(t, n);
    ghost var s, v, i, steps := t.Contents, View(t.Contents), 0, 0;
    r, i, steps := LinkAllowDuplicate(t, n);
    WithAt(s, i, n);
    assert t.Contents[i] == n;
    if Sorted(v) { InsertSorted(v, Entry(n, n.unit.key)); }
  }

  /** UPDATE_RBTREENODE over a unique link: the unit is in the tree afterwards exactly if 0 is returned. */
  method UpdateUnique(t: RbRoot, n: Node) returns (r: int)
    requires t.Valid() && n in t.Contents
    modifies t`root, t`tree, t`Contents, t.Contents
    ensures t.Valid() && (r == 0 || r == -1) && (r == 0 <==> n in t.Contents)
    ensures r == -1 ==> View(t.Contents) == Drop(old(View(t.Contents)), n)
    ensures var v := Drop(old(View(t.Contents)), n); Strict(v) ==>
      (Strict(View(t.Contents)) && (r == -1 <==> n.unit.key in AsMap(v))
        && (r == 0 ==> AsMap(View(t.Contents)) == AsMap(v)[n.unit.key := n]))
  {
    hide RbRoot.Valid, Sorted, Strict, AsMap, Drop, Pow2;
    Unlink(t, n);
    ghost var s, i, steps := t.Contents, 0, 0;
    r, i, steps := LinkUnique(t, n);
    if r == 0 {
      WithAt(s, i, n);
      assert t.Contents[i] == n;
    }
  }

  // ---------------------------------------------------------------- travel and destroy

  /** TRAVEL_RBTREENODE: the first unit for NULL, otherwise the one behind. */
  method Travel(t: RbRoot, n: Node?) returns (r: Node?)
    requires t.Valid() && (n != null ==> n in t.Contents)
    ensures n == null ==> r == if t.Contents == [] then null else t.Contents[0]
    ensures n != null ==> r == W.Following(t.Contents, n)
  {
    hide RbRoot.At, RbRoot.Valid, Position, Pow2;
    if n == null {
      ghost var steps;
      r, steps := W.First(t);
    } else {
      W.NotOwnParent(t, n);
      r := W.Next(n, t);
    }
  }

  /** A caller that travels from NULL to NULL meets every unit once, in sequence. */
  method TravelAll(t: RbRoot) returns (visited: seq<Node>)
    requires t.Valid()
    ensures visited == t.Contents
  {
    hide RbRoot.Valid, Wired, W.Following;
    t.LinksAgree();
    var n := Travel(t, null);
    visited := [];
    while n != null
      invariant |visited| <= |t.Contents| && visited == t.Contents[..|visited|]
      invariant n == W.Travelled(t.Contents, |visited|)
      decreases |t.Contents| - |visited|
    {
      W.TravelVisitsAll(t.Contents, |visited|);
      visited := visited + [n];
      n := Travel(t, n);
    }
    W.TravelVisitsAll(t.Contents, |visited|);
  }

  /** The free function given to DESTROY_RBTREE: none, free itself, or a function of the caller's. */
  datatype FreeFunction = NoFree | FreeDirectly | FreeEntry

  datatype Event = Erased(n: Node) | Freed(n: Node) | Entered(n: Node)

  /** What happens to each node: it is erased, and only then handed to the free function, if there is one. */
  function Farewell(n: Node, free: FreeFunction): seq<Event> {
    match free
    case NoFree => [Erased(n)]
    case FreeDirectly => [Erased(n), Freed(n)]
    case FreeEntry => [Erased(n), Entered(n)]
  }

  function Farewells(s: seq<Node>, free: FreeFunction): seq<Event> {
    if s == [] then [] else Farewell(s[0], free) + Farewells(s[1..], free)
  }

  /** The log of a sequence: one entry a node, or two, the erasure first. */
  lemma {:induction false} FarewellsAre(s: seq<Node>, free: FreeFunction)
    ensures var log := Farewells(s, free);
      && (free == NoFree ==> |log| == |s| && forall i :: 0 <= i < |s| ==> log[i] == Erased(s[i]))
      && (free != NoFree ==> |log| == 2 * |s| && forall i :: 0 <= i < |s| ==> log[2 * i] == Erased(s[i]))
      && (free == FreeDirectly ==> forall i :: 0 <= i < |s| ==> log[2 * i + 1] == Freed(s[i]))
      && (free == FreeEntry ==> forall i :: 0 <= i < |s| ==> log[2 * i + 1] == Entered(s[i]))
  {
    if s != [] {
      FarewellsAre(s[1..], free);
      var log, rest := Farewells(s, free), Farewells(s[1..], free);
      forall i | 0 < i < |s|
        ensures free == NoFree ==> log[i] == rest[i - 1]
        ensures free != NoFree ==> log[2 * i] == rest[2 * (i - 1)] && log[2 * i + 1] == rest[2 * (i - 1) + 1]
      {
      }
    }
  }

  /** DESTROY_RBTREE: every node is erased once, in sequence, each time from a valid tree. */
  method Destroy(t: RbRoot, free: FreeFunction) returns (log: seq<Event>)
    requires t.Valid()
    modifies t`root, t`tree, t`Contents, t.Contents
    ensures t.Valid() && t.Contents == [] && t.root == null
    ensures log == Farewells(old(t.Contents), free)
    ensures var s := old(t.Contents);
      && (free == NoFree ==> |log| == |s| && forall i :: 0 <= i < |s| ==> log[i] == Erased(s[i]))
      && (free != NoFree ==> |log| == 2 * |s| && forall i :: 0 <= i < |s| ==> log[2 * i] == Erased(s[i]))
      && (free == FreeDirectly ==> forall i :: 0 <= i < |s| ==> log[2 * i + 1] == Freed(s[i]))
      && (free == FreeEntry ==> forall i :: 0 <= i < |s| ==> log[2 * i + 1] == Entered(s[i]))
  {
    hide RbRoot.At, RbRoot.Valid, Pow2, Farewells, Without, Apart, Rank, Wired, Walk, Deepest, BeforeErase;
    log := [];
    ghost var s := t.Contents;
    ghost var steps;
    var node;
    node, steps := W.First(t);
    while node != null
      invariant t.Valid() && (node == null <==> t.Contents == []) && (node != null ==> node == t.Contents[0])
      invariant forall i :: 0 <= i < |t.Contents| ==> t.Contents[i] in s
      invariant log + Farewells(t.Contents, free) == Farewells(s, free)
      decreases |t.Contents|
    {
      t.LinksAgree();
      FirstOut(t.Contents);
      FarewellsStep(t.Contents, free, log);
      ghost var said := log + Farewell(node, free);
      Erase(t, node);
      log := log + [Erased(node)];
      if free == FreeDirectly {
        log := log + [Freed(node)];
      } else if free == FreeEntry {
        log := log + [Entered(node)];
      }
      assert log == said;
      node, steps := W.First(t);
    }
    FarewellsNone(free, log);
    FarewellsAre(s, free);
    RootOfNone(t);
  }

  lemma FirstOut(s: seq<Node>)
    requires Apart(s) && s != []
    ensures Rank(s, s[0]) == 0 && Without(s, 0) == s[1..]
  {
  }

  lemma FarewellsStep(s: seq<Node>, free: FreeFunction, log: seq<Event>)
    requires s != []
    ensures log + Farewells(s, free) == (log + Farewell(s[0], free)) + Farewells(s[1..], free)
  {
  }

  lemma FarewellsNone(free: FreeFunction, log: seq<Event>)
    ensures log + Farewells([], free) == log
  {
  }

  lemma RootOfNone(t: RbRoot)
    requires t.Valid()
    ensures t.Contents == [] ==> t.root == null
  {
    W.SpottedRoot(t);
  }
}
