/** rb_link_node of src/rbtree.c, and the pointer to a pointer that names where it links. */
module RbLink {
  import opened Distinct
  import opened RbShape
  import opened RbBalance
  import opened RbTrace
  import opened RbRerank
  import opened RbTree
  import opened RbInsert

  /** What a `struct rb_node **` of the link templates points to. */
  datatype Slot = RootSlot | ChildSlot(of: Node, side: Side)

  function Load(t: RbRoot, slot: Slot): Node?
    reads t`root, if slot.ChildSlot? then {slot.of} else {}
  {
    match slot
    case RootSlot => t.root
    case ChildSlot(n, s) => if s == Left then n.left else n.right
  }

  method Store(t: RbRoot, slot: Slot, n: Node)
    modifies t`root, if slot.ChildSlot? then {slot.of} else {}
    ensures slot.RootSlot? ==> t.root == n
    ensures slot.ChildSlot? ==>
      (t.root == old(t.root) && slot.of.parent == old(slot.of.parent) && slot.of.color == old(slot.of.color))
    ensures slot.ChildSlot? ==> slot.of.left == (if slot.side == Left then n else old(slot.of.left))
    ensures slot.ChildSlot? ==> slot.of.right == (if slot.side == Right then n else old(slot.of.right))
  {
    match slot
    case RootSlot => t.root := n;
    case ChildSlot(p, s) => if s == Left { p.left := n; } else { p.right := n; }
  }

  function With(s: seq<Node>, i: int, n: Node): seq<Node>
    requires 0 <= i <= |s|
  {
    s[..i] + [n] + s[i..]
  }

  lemma WithAt(s: seq<Node>, i: int, n: Node)
    requires 0 <= i <= |s|
    ensures |With(s, i, n)| == |s| + 1
    ensures forall j {:trigger With(s, i, n)[j]} :: 0 <= j <= |s| ==>
      (With(s, i, n)[j] == if j < i then s[j] else if j == i then n else s[j - 1])
  {
  }

  lemma ApartWith(s: seq<Node>, i: int, n: Node)
    requires Apart(s) && 0 <= i <= |s| && n !in s
    ensures Apart(With(s, i, n))
  {
    WithAt(s, i, n);
  }

  lemma RankWith(s: seq<Node>, i: int, n: Node, x: Node?)
    requires Apart(s) && 0 <= i <= |s| && n !in s && x != n && Rank(s, x) >= -1
    ensures Rank(With(s, i, n), x) == Mv(i, 1, Rank(s, x))
  {
    if x != null {
      WithAt(s, i, n);
      assert With(s, i, n)[Mv(i, 1, Rank(s, x))] == x;
      ApartWith(s, i, n);
    }
  }

  /** A node that nothing points to may enter the sequence anywhere. */
  lemma SnapshotWith(s: seq<Node>, i: int, n: Node)
    requires Apart(s) && 0 <= i <= |s| && n !in s && Wired(Snapshot(s))
    ensures |Snapshot(With(s, i, n))| == |s| + 1
    ensures forall j {:trigger Snapshot(With(s, i, n))[j]} :: 0 <= j <= |s| && j != i ==>
      (Snapshot(With(s, i, n))[j] == Inserted(Snapshot(s), i)[j])
  {
    hide CellOf, MvCell, Apart, Rank, With;
    WithAt(s, i, n);
    forall j | 0 <= j <= |s| && j != i
      ensures Snapshot(With(s, i, n))[j] == Inserted(Snapshot(s), i)[j]
    {
      CellWith(s, i, n, if j < i then j else j - 1);
    }
  }

  lemma CellWith(s: seq<Node>, i: int, n: Node, x: int)
    requires Apart(s) && 0 <= i <= |s| && n !in s && 0 <= x < |s| && WiredAt(Snapshot(s), x)
    ensures CellOf(With(s, i, n), s[x]) == MvCell(i, 1, Snapshot(s)[x])
  {
    hide Apart, Rank, With;
    PointsIn(s, s[x].left, n);
    PointsIn(s, s[x].right, n);
    PointsIn(s, s[x].parent, n);
    RankWith(s, i, n, s[x].left);
    RankWith(s, i, n, s[x].right);
    RankWith(s, i, n, s[x].parent);
  }

  lemma PointsIn(s: seq<Node>, x: Node?, n: Node)
    requires n !in s && Rank(s, x) >= -1
    ensures x != n
  {
  }

  /** `z` is an empty place, `slot` the slot that holds its NULL, `parent` the node of that slot. */
  ghost function Vacant(t: RbRoot, z: Spot, parent: Node?, slot: Slot): Fit
    reads t`root, t`Contents, t.Contents
  {
    if t.At(z) == Fits && Level(z, 0, 0) == Fits && z.t.Nil? && parent == t.Ref(Holder(z.q))
      && (if z.q.Top? then slot == RootSlot else parent != null && slot == ChildSlot(parent, z.q.side))
    then Fits else Misfit
  }

  lemma VacantFacts(t: RbRoot, z: Spot, parent: Node?, slot: Slot)
    requires Vacant(t, z, parent, slot) == Fits
    ensures var m, s, top := t.Fields(), t.Contents, Rank(t.Contents, t.root);
      && Apart(s) && Linked(m, top, z) == Fits && 0 <= z.lo == z.hi <= |s|
      && (z.q.Top? ==> t.root == null && slot == RootSlot)
      && (z.q.Step? ==> 0 <= z.q.k < |s| && parent == s[z.q.k] && top >= 0)
      && (z.q.Step? ==> parent != null && slot == ChildSlot(parent, z.q.side))
      && Rank(s, parent) == Holder(z.q) && (parent != null ==> parent in s) && (z.q.Top? ==> parent == null)
      && Level(z, 0, 0) == Fits && z.t.Nil?
  {
    Around(t.Fields(), Rank(t.Contents, t.root), z);
    if z.q.Step? {
      t.GoToTop(z);
      WholeNodes(z);
      Around(t.Fields(), Rank(t.Contents, t.root), Whole(z));
    }
  }

  /** The assignments of rb_link_node. */
  method HangLeaf(t: RbRoot, node: Node, parent: Node?, slot: Slot)
    requires Apart(t.Contents) && Rank(t.Contents, node) >= 0 && Rank(t.Contents, parent) >= -1 && parent != node
    requires if parent == null then slot == RootSlot else slot.ChildSlot? && slot.of == parent
    modifies t`root, node, if parent == null then {} else {parent}
    ensures t.root == if parent == null then node else old(t.root)
    ensures forall j {:trigger t.Fields()[j]} :: 0 <= j < |t.Contents| ==>
      (t.Fields()[j] == (var m, i := old(t.Fields()), Rank(t.Contents, node);
        if j == i then Cell(-1, -1, Rank(t.Contents, parent), Red)
        else if parent != null && j == Rank(t.Contents, parent) then WithChild(m[j], slot.side, i) else m[j]))
  {
    hide Apart, Rank;
    node.parent, node.color := parent, Red;
    node.left, node.right := null, null;
    Store(t, slot, node);
  }

  /** rb_link_node: `node` becomes a red leaf. */
  method LinkNode(t: RbRoot, node: Node, parent: Node?, slot: Slot, ghost z: Spot)
    requires Vacant(t, z, parent, slot) == Fits && Wired(t.Fields()) && node !in t.Contents
    modifies t`root, t`Contents, node, t.Contents
    ensures 0 <= z.lo <= |old(t.Contents)| && t.Contents == With(old(t.Contents), z.lo, node)
    ensures RedAt(t, LeafSpot(z), 0, node) == Fits && Traced(Inserted(old(t.Fields()), z.lo), LeafSpot(z), z.lo) == Fits
  {
    hide Apart, Rank, RbRoot.At, Level, Linked, Wired, Vacant, Traced, With;
    ghost var s, m, i, top := t.Contents, t.Fields(), z.lo, Rank(t.Contents, t.root);
    VacantFacts(t, z, parent, slot);
    t.Contents := With(s, i, node);
    SnapshotWith(s, i, node);
    WithAt(s, i, node);
    ApartWith(s, i, node);
    RankIn(t.Contents, i);
    RankWith(s, i, node, parent);
    ghost var m1 := t.Fields();
    assert node == t.Contents[i];
    HangLeaf(t, node, parent, slot);
    LeafSpotted(t, s, m, m1, z, node, top);
    LeafTraced(m, top, z);
  }

  lemma RankIn(s: seq<Node>, i: int)
    requires Apart(s) && 0 <= i < |s|
    ensures Rank(s, s[i]) == i
  {
  }

  lemma LeafSpotted(t: RbRoot, s: seq<Node>, m: Mem, m1: Mem, z: Spot, node: Node, top: int)
    requires Apart(s) && Linked(m, top, z) == Fits && Level(z, 0, 0) == Fits && z.t.Nil? && |s| == |m|
    requires 0 <= z.lo == z.hi <= |m|
    requires node !in s && t.Contents == With(s, z.lo, node) && |m1| == |m| + 1 == |t.Fields()|
    requires forall j :: 0 <= j <= |m| && j != z.lo ==> m1[j] == Inserted(m, z.lo)[j]
    requires forall j :: 0 <= j <= |m| ==>
      (t.Fields()[j] == if j == z.lo then Cell(-1, -1, Mv(z.lo, 1, Holder(z.q)), Red)
        else if z.q.Step? && j == Mv(z.lo, 1, z.q.k) then WithChild(m1[j], z.q.side, z.lo) else m1[j])
    requires if z.q.Top? then t.root == node else Rank(s, t.root) == top && top >= 0
    ensures RedAt(t, LeafSpot(z), 0, node) == Fits
  {
    var i, h := z.lo, Holder(z.q);
    ApartWith(s, i, node);
    WithAt(s, i, node);
    RankIn(t.Contents, i);
    if z.q.Step? { RankWith(s, i, node, t.root); }
    Around(m, top, z);
    LeafLinked(m, t.Fields(), top, Rank(t.Contents, t.root), z);
    LeafLevel(z);
  }
}
