/** rb_erase of src/rbtree.c. */
module RbErase {
  import opened Distinct
  import opened RbShape
  import opened RbBalance
  import opened RbTrace
  import opened RbRerank
  import opened RbTree
  import opened RbEraseColor

  function Without(s: seq<Node>, k: int): seq<Node>
    requires 0 <= k < |s|
  {
    s[..k] + s[k + 1..]
  }

  lemma WithoutAt(s: seq<Node>, k: int)
    requires 0 <= k < |s|
    ensures |Without(s, k)| == |s| - 1
    ensures forall j :: 0 <= j < |s| - 1 ==> Without(s, k)[j] == s[if j < k then j else j + 1]
  {
  }

  lemma RankWithout(s: seq<Node>, k: int, x: Node?)
    requires Apart(s) && 0 <= k < |s| && x != s[k] && Rank(s, x) >= -1
    ensures Rank(Without(s, k), x) == Mv(k + 1, -1, Rank(s, x))
  {
    if x != null {
      var r := Rank(s, x);
      assert Without(s, k)[Mv(k + 1, -1, r)] == x;
      ApartWithout(s, k);
    }
  }

  lemma ApartWithout(s: seq<Node>, k: int)
    requires Apart(s) && 0 <= k < |s|
    ensures Apart(Without(s, k))
  {
  }

  /** Once nothing points to the node of rank `k` it may leave the sequence. */
  lemma SnapshotWithout(s: seq<Node>, k: int)
    requires Apart(s) && 0 <= k < |s|
    requires forall i :: 0 <= i < |s| && i != k ==> Unlinked(Snapshot(s)[i], k)
    ensures |Snapshot(Without(s, k))| == |s| - 1
    ensures forall j :: 0 <= j < |s| - 1 ==>
      (Snapshot(Without(s, k))[j] == MvCell(k + 1, -1, Snapshot(s)[if j < k then j else j + 1]))
  {
    forall j | 0 <= j < |s| - 1
      ensures Snapshot(Without(s, k))[j] == MvCell(k + 1, -1, Snapshot(s)[if j < k then j else j + 1])
    {
      var i := if j < k then j else j + 1;
      assert Unlinked(Snapshot(s)[i], k);
      RankWithout(s, k, s[i].left);
      RankWithout(s, k, s[i].right);
      RankWithout(s, k, s[i].parent);
    }
  }

  predicate Unlinked(c: Cell, k: int) { -1 <= c.left != k && -1 <= c.right != k && -1 <= c.parent != k }

  /** Replaces `node`, which has at most one child, by that child. */
  method Bypass(t: RbRoot, node: Node, child: Node?)
    requires Apart(t.Contents) && Wired(t.Fields()) && WiredAt(t.Fields(), Rank(t.Contents, node))
    requires (node.left == null || node.right == null) && child == if node.left == null then node.right else node.left
    requires child != null ==> child != node.parent
    modifies t`root, t.Contents
    ensures node.parent == old(node.parent) && node.color == old(node.color)
    ensures t.root == if old(node.parent) == null then child else old(t.root)
    ensures forall i :: 0 <= i < |t.Contents| ==>
      (t.Fields()[i] == BypassedCell(old(t.Fields()), Rank(t.Contents, node), i))
  {
    hide Apart, Rank;
    ghost var m, k := t.Fields(), Rank(t.Contents, node);
    assert m[k].parent >= 0 ==> WiredAt(m, m[k].parent);
    var parent := node.parent;
    if child != null {
      child.parent := parent;
    }
    if parent != null {
      if parent.left == node {
        parent.left := child;
      } else {
        parent.right := child;
      }
    } else {
      t.root := child;
    }
  }

  /** Makes the slot that holds `gone`, in its parent or in the root, hold `node`. */
  method Reseat(t: RbRoot, gone: Node, node: Node)
    requires Apart(t.Contents) && WiredAt(t.Fields(), Rank(t.Contents, gone))
    modifies t`root, if gone.parent == null then {} else {gone.parent}
    ensures t.root == if old(gone.parent) == null then node else old(t.root)
    ensures forall i :: 0 <= i < |t.Contents| ==>
      (t.Fields()[i] == ReseatedCell(old(t.Fields()), Rank(t.Contents, gone), Rank(t.Contents, node), i))
  {
    hide Apart, Rank;
    if gone.parent != null {
      if gone.parent.left == gone {
        gone.parent.left := node;
      } else {
        gone.parent.right := node;
      }
    } else {
      t.root := node;
    }
  }

  /** Hangs the right child of `node` in its place and the right subtree of `gone` below `node`. */
  method LiftOut(t: RbRoot, gone: Node, node: Node, child: Node?, parent: Node)
    requires Apart(t.Contents) && Rank(t.Contents, gone) >= 0 && Rank(t.Contents, node) >= 0
    requires Rank(t.Contents, parent) >= 0
    requires Rank(t.Contents, gone.right) >= 0 && Rank(t.Contents, child) >= -1
    requires node != gone && parent != gone && gone.right != gone && gone.right != child && gone.right != node
    requires parent != node && parent != child && child != node
    modifies parent, node, gone.right, if child == null then {} else {child}
    ensures forall i {:trigger t.Fields()[i]} :: 0 <= i < |t.Contents| ==>
      t.Fields()[i] == LiftedOutCell(old(t.Fields()), Rank(t.Contents, gone), Rank(t.Contents, node),
        Rank(t.Contents, parent), Rank(t.Contents, child), i)
  {
    hide Apart, Rank;
    if child != null {
      child.parent := parent;
    }
    parent.left := child;

    node.right := gone.right;
    gone.right.parent := node;
  }

  /** Gives `node` the parent, color and left subtree of `gone`. */
  method TakePlace(t: RbRoot, gone: Node, node: Node)
    requires Apart(t.Contents) && Rank(t.Contents, gone) >= 0 && Rank(t.Contents, node) >= 0
    requires Rank(t.Contents, gone.left) >= 0 && node != gone && gone.left != node && gone.left != gone
    modifies node, gone.left
    ensures forall i :: 0 <= i < |t.Contents| ==>
      (t.Fields()[i] == PlacedCell(old(t.Fields()), Rank(t.Contents, gone), Rank(t.Contents, node), i))
  {
    hide Apart, Rank;
    node.parent, node.color := gone.parent, gone.color;
    node.left := gone.left;
    gone.left.parent := node;
  }

  /** Moves `node`, the successor of `gone`, out of its place and into the place of `gone`. */
  method Supplant(t: RbRoot, gone: Node, node: Node, child: Node?, p: Node)
    requires Apart(t.Contents) && Wired(t.Fields())
    requires CanSupplant(t.Fields(), Rank(t.Contents, gone), Rank(t.Contents, node)) && child == node.right
    requires p == node.parent
    modifies t`root, t.Contents
    ensures t.root == if old(gone.parent) == null then node else old(t.root)
    ensures forall i {:trigger t.Fields()[i]} :: 0 <= i < |t.Contents| && i != Rank(t.Contents, gone) ==>
      t.Fields()[i] == SupplantedCell(old(t.Fields()), Rank(t.Contents, gone), Rank(t.Contents, node), i)
  {
    hide Apart, Rank, SupplantedCell;
    ghost var s, m, g, n := t.Contents, t.Fields(), Rank(t.Contents, gone), Rank(t.Contents, node);
    Reseat(t, gone, node);
    ghost var m1 := t.Fields();
    assert m1[g] == m[g] && m1[n] == m[n];
    if p != gone {
      LiftOut(t, gone, node, child, p);
    }
    ghost var m2 := t.Fields();
    assert m2[g] == m[g];
    TakePlace(t, gone, node);
    forall i | 0 <= i < |s| && i != g ensures t.Fields()[i] == SupplantedCell(m, g, n, i) {
      SupplantedInSteps(m, m1, m2, t.Fields(), g, n, i);
    }
  }

  /** Every node of a valid tree has its spot, and child and parent links agree. */
  lemma Find(t: RbRoot, node: Node) returns (z: Spot, h: int)
    requires t.Valid() && Rank(t.Contents, node) >= 0
    ensures EvenAt(t, z, h) == Fits && z.t.Bin? && z.t.k == Rank(t.Contents, node) && Apart(t.Contents)
    ensures Wired(t.Fields())
  {
    hide Rank;
    var m, w := t.Fields(), Spot(t.tree, Top, 0, |t.Contents|);
    ShapeWired(m, t.tree, -1, 0, |t.Contents|);
    z, h := Locate(m, Rank(t.Contents, t.root), w, BlackHeight(t.tree), Rank(t.Contents, node));
  }

  /** The state at the label `color` of rb_erase: the tree is even, or it is a black short at `w`. */
  ghost function Unhooked(t: RbRoot, w: Spot, h: int, child: Node?, parent: Node?, color: Color, was: Mem, x: int): Fit
    reads t`root, t`Contents, t.Contents
  {
    if (if color == Red then EvenAt(t, w, h) == Fits && w.t.Nil? else ShortAt(t, w, h, child, parent) == Fits)
      && (w.t.Bin? || w.q.Step? ==> Traced(was, w, x) == Fits)
    then Fits else Misfit
  }

  lemma BecomesUnhooked(t: RbRoot, w: Spot, h: int, child: Node?, parent: Node?, color: Color, was: Mem, x: int)
    requires t.At(w) == Fits && child == t.Ref(Ptr(w.t)) && parent == t.Ref(Holder(w.q))
    requires if color == Red then Level(w, h, 0) == Fits && w.t.Nil? else Short(w, h) == Fits
    requires w.t.Bin? || w.q.Step? ==> Traced(was, w, x) == Fits
    ensures Unhooked(t, w, h, child, parent, color, was, x) == Fits
  {
  }

  /** The first two cases of rb_erase, and its straight part up to the label `color`. */
  method UnhookOne(t: RbRoot, node: Node, child: Node?, ghost z: Spot, ghost h: int)
    returns (parent: Node?, color: Color, ghost w: Spot, ghost h': int)
    requires EvenAt(t, z, h) == Fits && Wired(t.Fields()) && z.t.Bin? && z.t.k == Rank(t.Contents, node)
    requires (node.left == null || node.right == null) && child == if node.left == null then node.right else node.left
    modifies t`root, t`Contents, t.Contents
    ensures t.Contents == Without(old(t.Contents), z.t.k)
    ensures 0 <= z.t.k < |old(t.Fields())| && SplicePoint(old(t.Fields()), z.t.k) == z.t.k
    ensures Unhooked(t, w, h', child, parent, color, BeforeErase(old(t.Fields()), z.t.k),
      Deepest(old(t.Fields()), z.t.k)) == Fits
  {
    hide Apart, Rank, RbRoot.At, EvenAt, Level, Short, Linked, Wired, BypassedCell, Before, Traced, Unhooked;
    ghost var s, m, k, top := t.Contents, t.Fields(), z.t.k, Rank(t.Contents, t.root);
    parent := node.parent;
    color := node.color;
    OneChildFacts(t, z, h, node, child);
    Bypass(t, node, child);
    ghost var m1 := t.Fields();
    assert forall i :: 0 <= i < |s| ==> m1[i] == BypassedCell(m, k, i);
    BypassedAway(s, m, m1, k);
    t.Contents := Without(s, k);
    SnapshotWithout(s, k);
    w, h' := SplicedSpot(z), if color == Red then h else h - 1;
    OneSpliced(t, s, m, z, child, parent, top);
    SplicedAll(m, top, k, z, h);
    BecomesUnhooked(t, w, h', child, parent, color, BeforeErase(m, k), Deepest(m, k));
  }

  lemma BypassedAway(s: seq<Node>, m: Mem, m1: Mem, k: int)
    requires Wired(m) && WiredAt(m, k) && (m[k].left == -1 || m[k].right == -1) && |m1| == |m|
    requires OnlyChild(m[k]) != -1 ==> OnlyChild(m[k]) != m[k].parent
    requires forall i :: 0 <= i < |m| ==> m1[i] == BypassedCell(m, k, i)
    ensures forall i :: 0 <= i < |m| && i != k ==> Unlinked(m1[i], k)
  {
    forall i | 0 <= i < |m| && i != k ensures Unlinked(m1[i], k) {
      BypassedUnlinked(m, k, i);
    }
  }

  /** The spot of the child once the node above it is gone. */
  lemma OneSpliced(t: RbRoot, s: seq<Node>, m: Mem, z: Spot, child: Node?, parent: Node?, top: int)
    requires Apart(s) && Linked(m, top, z) == Fits && z.t.Bin? && (z.t.left.Nil? || z.t.right.Nil?) && |s| == |m|
    requires WiredAt(m, z.t.k)
    requires t.Contents == Without(s, z.t.k) && |t.Fields()| == |m| - 1
    requires forall j :: 0 <= j < |m| - 1 ==> t.Fields()[j] == SplicedCell(m, z.t.k, j)
    requires Rank(s, child) == Ptr(Child(z.t)) && Rank(s, parent) == Holder(z.q)
    requires if z.q.Top? then t.root == child else Rank(s, t.root) == top && top != z.t.k && top >= -1
    ensures t.At(SplicedSpot(z)) == Fits && child == t.Ref(Ptr(SplicedSpot(z).t))
    ensures parent == t.Ref(Holder(SplicedSpot(z).q))
  {
    var k := z.t.k;
    ApartWithout(s, k);
    Around(m, top, z);
    PtrMoved(k + 1, -1, Child(z.t));
    RankWithout(s, k, child);
    RankWithout(s, k, parent);
    RankWithout(s, k, t.root);
    SplicedLinked(m, t.Fields(), top, Rank(t.Contents, t.root), z);
  }

  lemma OneChildFacts(t: RbRoot, z: Spot, h: int, node: Node, child: Node?)
    requires EvenAt(t, z, h) == Fits && Wired(t.Fields()) && z.t.Bin? && z.t.k == Rank(t.Contents, node)
    requires (node.left == null || node.right == null) && child == if node.left == null then node.right else node.left
    ensures var m, k := t.Fields(), z.t.k;
      && WiredAt(m, k) && (child != null ==> child != node.parent) && (m[k].left == -1 || m[k].right == -1)
      && OnlyChild(m[k]) == Rank(t.Contents, child) && (OnlyChild(m[k]) != -1 ==> OnlyChild(m[k]) != m[k].parent)
      && (z.t.left.Nil? || z.t.right.Nil?) && Ptr(Child(z.t)) == Rank(t.Contents, child)
      && Holder(z.q) == Rank(t.Contents, node.parent)
      && node.color == z.t.color && (z.q.Top? <==> node.parent == null)
    ensures var m, k, top := t.Fields(), z.t.k, Rank(t.Contents, t.root);
      && Apart(t.Contents) && Linked(m, top, z) == Fits && Level(z, h, 0) == Fits
      && (z.q.Step? ==> top != k && top >= -1)
  {
    hide Apart, Rank;
    Around(t.Fields(), Rank(t.Contents, t.root), z);
    assert WiredAt(t.Fields(), z.t.k);
    WholeLinked(t.Fields(), Rank(t.Contents, t.root), z);
    WholeNodes(z);
    Around(t.Fields(), Rank(t.Contents, t.root), Whole(z));
  }

  /** `y` is a spot on the way from the right child of `z` down to the left. */
  predicate Leftmost(z: Spot, y: Spot) {
    && z.t.Bin? && y.t.Bin? && y.q.Step? && y.lo == z.t.k + 1 && y.hi <= z.hi
    && OnPath(y.q, z.t.k) && (z.q.Step? ==> OnPath(y.q, z.q.k))
    && (y.q.side == Right ==> y.q.k == z.t.k) && (y.q.side == Left ==> y.q.k == y.hi < z.hi && y.q.k != z.t.k)
  }

  /** The descent of rb_erase to the node behind `node`. */
  method Successor(t: RbRoot, node: Node, ghost z: Spot, ghost h: int)
    returns (succ: Node, ghost y: Spot, ghost h': int)
    requires EvenAt(t, z, h) == Fits && z.t.Bin? && node == t.Ref(z.t.k) && node.left != null && node.right != null
    ensures EvenAt(t, y, h') == Fits && Leftmost(z, y) && y.t.left.Nil? && succ == t.Ref(y.t.k) && succ.left == null
  {
    hide RbRoot.At, Level;
    t.Look(z);
    t.GoDown(z, Right);
    DownEven(t, z, h, Right);
    succ := node.right;
    y, h' := Down(z, Right), h - Weight(z.t.color);
    DownLinks(t, z, Right);
    assert z.q.Step? ==> OnPath(z.q, z.q.k);
    t.Look(y);
    while succ.left != null
      invariant EvenAt(t, y, h') == Fits && Leftmost(z, y) && succ == t.Ref(y.t.k)
      invariant succ.left == t.Ref(Ptr(y.t.left)) && (succ.left == null <==> y.t.left.Nil?)
      decreases y.t
    {
      t.GoDown(y, Left);
      DownEven(t, y, h', Left);
      DownLinks(t, y, Left);
      succ := succ.left;
      y, h' := Down(y, Left), h' - Weight(y.t.color);
      t.Look(y);
    }
  }

  lemma DownEven(t: RbRoot, z: Spot, h: int, s: Side)
    requires EvenAt(t, z, h) == Fits && z.t.Bin?
    ensures EvenAt(t, Down(z, s), h - Weight(z.t.color)) == Fits
  {
    hide RbRoot.At;
    t.GoDown(z, s);
  }

  /** The ranks below a node, and of the node above it. */
  lemma DownLinks(t: RbRoot, z: Spot, s: Side)
    requires t.At(z) == Fits && z.t.Bin?
    ensures z.lo <= z.t.k < z.hi
  {
    Around(t.Fields(), Rank(t.Contents, t.root), z);
  }

  /** The successor is where rb_erase expects it. */
  lemma SuccessorFacts(t: RbRoot, z: Spot, h: int, y: Spot, h': int, node: Node, succ: Node)
    requires EvenAt(t, z, h) == Fits && EvenAt(t, y, h') == Fits && Leftmost(z, y) && y.t.left.Nil? && Apart(t.Contents)
    requires Wired(t.Fields())
    requires node == t.Ref(z.t.k) && succ == t.Ref(y.t.k) && z.t.left.Bin? && z.t.right.Bin?
    ensures var s, m, k, p, top := t.Contents, t.Fields(), z.t.k, y.t.k, Rank(t.Contents, t.root);
      && y.t.Bin? && y.q.Step? && p == k + 1 && WiredAt(m, p) && 0 <= k < |m|
      && CanSupplant(m, k, p) && Rank(s, node) == k && Rank(s, succ) == p && Linked(m, top, y) == Fits
      && Level(y, h', 0) == Fits
      && SplicePoint(m, k) == p && OnPath(y.q, k) && (m[k].parent >= 0 ==> OnPath(y.q, m[k].parent))
      && Rank(s, succ.right) == Ptr(Child(y.t)) && Rank(s, succ.parent) == Holder(y.q) && succ.color == y.t.color
      && top >= -1 && top != p && (top == k <==> node.parent == null)
  {
    var s, m, k, p, top := t.Contents, t.Fields(), z.t.k, y.t.k, Rank(t.Contents, t.root);
    Around(m, top, z);
    Around(m, top, y);
    assert WiredAt(m, k) && WiredAt(m, p);
    WholeLinked(m, top, y);
    WholeNodes(y);
    Around(m, top, Whole(y));
    assert Shape(m, y.t.left, p, y.lo, p);
  }

  lemma SupplantedAway(s: seq<Node>, m: Mem, m1: Mem, k: int, p: int)
    requires Wired(m) && CanSupplant(m, k, p) && |m1| == |m|
    requires forall i :: 0 <= i < |m| && i != k ==> m1[i] == SupplantedCell(m, k, p, i)
    ensures forall i :: 0 <= i < |m| && i != k ==> Unlinked(m1[i], k)
    ensures forall j :: 0 <= j < |m| - 1 ==> MvCell(k + 1, -1, m1[if j < k then j else j + 1]) == SplicedCell(m, p, j)
  {
    forall i | 0 <= i < |m| && i != k ensures Unlinked(m1[i], k) {
      SupplantedUnlinked(m, k, p, i);
    }
    forall j | 0 <= j < |m| - 1 ensures MvCell(k + 1, -1, m1[if j < k then j else j + 1]) == SplicedCell(m, p, j) {
      SupplantedIsSpliced(m, k, p, j);
    }
  }

  /** The spot the successor has left, once it has taken the place of node `k`. */
  lemma TwoSpliced(t: RbRoot, s: seq<Node>, m: Mem, y: Spot, k: int, child: Node?, parent: Node, top: int)
    requires Apart(s) && Linked(m, top, y) == Fits && y.t.Bin? && y.t.left.Nil? && y.q.Step? && |s| == |m|
    requires WiredAt(m, y.t.k)
    requires y.t.k == k + 1 && 0 <= k < |s| && t.Contents == Without(s, k) && |t.Fields()| == |m| - 1
    requires forall j :: 0 <= j < |m| - 1 ==> t.Fields()[j] == SplicedCell(m, k + 1, j)
    requires Rank(s, child) == Ptr(y.t.right) && child != s[k]
    requires parent == if Holder(y.q) == k then s[k + 1] else s[Holder(y.q)]
    requires top >= -1 && top != k + 1 && t.root != s[k] && Rank(s, t.root) == if top == k then k + 1 else top
    ensures t.At(SplicedSpot(y)) == Fits && child == t.Ref(Ptr(SplicedSpot(y).t))
    ensures parent == t.Ref(Holder(SplicedSpot(y).q))
  {
    hide Apart, Rank, Linked, SplicedCell, Without;
    ApartWithout(s, k);
    WithoutAt(s, k);
    Around(m, top, y);
    assert y.t.right.Bin? ==> y.t.right.k > k + 1;
    PtrMoved(k + 2, -1, y.t.right);
    RankWithout(s, k, child);
    RankWithout(s, k, t.root);
    SplicedLinked(m, t.Fields(), top, Rank(t.Contents, t.root), y);
  }

  /** Lines 251-276 of rb_erase: `node` replaces `gone`, which leaves the sequence. */
  method MoveUp(t: RbRoot, gone: Node, node: Node, child: Node?, p: Node)
    requires Apart(t.Contents) && Wired(t.Fields())
    requires CanSupplant(t.Fields(), Rank(t.Contents, gone), Rank(t.Contents, node)) && child == node.right
    requires p == node.parent
    modifies t`root, t`Contents, t.Contents
    ensures t.root == if old(gone.parent) == null then node else old(t.root)
    ensures 0 <= Rank(old(t.Contents), gone) < |old(t.Contents)|
    ensures t.Contents == Without(old(t.Contents), Rank(old(t.Contents), gone))
    ensures |t.Fields()| == |old(t.Contents)| - 1 && WiredAt(old(t.Fields()), Rank(old(t.Contents), node))
    ensures forall j :: 0 <= j < |old(t.Contents)| - 1 ==>
      t.Fields()[j] == SplicedCell(old(t.Fields()), Rank(old(t.Contents), node), j)
  {
    hide Apart, Rank, Wired, SupplantedCell, SplicedCell;
    ghost var s, m, k := t.Contents, t.Fields(), Rank(t.Contents, gone);
    Supplant(t, gone, node, child, p);
    ghost var m1 := t.Fields();
    SupplantedAway(s, m, m1, k, k + 1);
    t.Contents := Without(s, k);
    SnapshotWithout(s, k);
  }

  /** The third case of rb_erase up to the label `color`: the successor moves up. */
  method UnhookTwo(t: RbRoot, old_: Node, ghost z: Spot, ghost h: int)
    returns (child: Node?, parent: Node?, color: Color, ghost w: Spot, ghost h': int)
    requires EvenAt(t, z, h) == Fits && Wired(t.Fields()) && z.t.Bin? && old_ == t.Ref(z.t.k) && z.t.left.Bin?
    requires z.t.right.Bin?
    requires old_.left != null && old_.right != null && Apart(t.Contents)
    modifies t`root, t`Contents, t.Contents
    ensures 0 <= z.t.k < |old(t.Fields())| && t.Contents == Without(old(t.Contents), z.t.k)
    ensures SplicePoint(old(t.Fields()), z.t.k) == z.t.k + 1 < |old(t.Fields())|
    ensures Unhooked(t, w, h', child, parent, color, BeforeErase(old(t.Fields()), z.t.k),
      Deepest(old(t.Fields()), z.t.k + 1)) == Fits
  {
    hide Apart, Rank, RbRoot.At, EvenAt, Level, Short, Linked, Wired, SupplantedCell, Traced, CanSupplant,
      SplicedCell, Unhooked,
      BeforeErase, Deepest, Leftmost;
    ghost var s, m, k, top := t.Contents, t.Fields(), z.t.k, Rank(t.Contents, t.root);
    var node;
    ghost var y, hy;
    node, y, hy := Successor(t, old_, z, h);
    SuccessorFacts(t, z, h, y, hy, old_, node);
    child := node.right;
    parent := node.parent;
    color := node.color;
    MoveUp(t, old_, node, child, parent);
    if parent == old_ {
      parent := node;
    }
    TwoSpliced(t, s, m, y, k, child, parent, top);
    w, h' := SplicedSpot(y), if color == Red then hy else hy - 1;
    SplicedAll(m, top, k, y, hy);
    BecomesUnhooked(t, w, h', child, parent, color, BeforeErase(m, k), Deepest(m, k + 1));
  }

  /** rb_erase.  The tree stays a red-black tree; its sequence loses exactly `node`.  All nodes off the way
      to the place `Deepest` that the splice has left keep their children. */
  method Erase(t: RbRoot, node: Node)
    requires t.Valid() && Rank(t.Contents, node) >= 0
    modifies t`root, t`tree, t`Contents, t.Contents
    ensures t.Valid() && t.Contents == Without(old(t.Contents), Rank(old(t.Contents), node))
    ensures var m, k := old(t.Fields()), Rank(old(t.Contents), node);
      && 0 <= k < |m| && SplicePoint(m, k) < |m|
      && (t.tree.Bin? ==> Walk(BeforeErase(m, k), t.tree, Deepest(m, SplicePoint(m, k)), true))
  {
    hide Apart, Rank, RbRoot.At, RbRoot.Valid, EvenAt, ShortAt, Wired, Traced, Walk;
    ghost var z, h := Find(t, node);
    ghost var m, k := t.Fields(), z.t.k;
    EraseLook(t, z, h);
    var child, parent, color;
    ghost var w, h';
    if node.left == null {
      child := node.right;
      parent, color, w, h' := UnhookOne(t, node, child, z, h);
    } else if node.right == null {
      child := node.left;
      parent, color, w, h' := UnhookOne(t, node, child, z, h);
    } else {
      child, parent, color, w, h' := UnhookTwo(t, node, z, h);
    }
    ghost var was, x := BeforeErase(m, k), Deepest(m, SplicePoint(m, k));
    if color == Black {
      EraseColor(t, child, parent, w, h', was, x);
    } else {
      t.tree := Whole(w).t;
      FinishEven(t, w, h', was, x);
    }
  }

  lemma EraseLook(t: RbRoot, z: Spot, h: int)
    requires EvenAt(t, z, h) == Fits && z.t.Bin?
    ensures var n := t.Ref(z.t.k);
      n != null && (n.left == null <==> z.t.left.Nil?) && (n.right == null <==> z.t.right.Nil?)
  {
    t.Look(z);
  }

  /** A red node is gone: nothing is left to repair. */
  lemma FinishEven(t: RbRoot, w: Spot, h: int, was: Mem, x: int)
    requires EvenAt(t, w, h) == Fits && w.t.Nil? && t.tree == Whole(w).t && (w.q.Step? ==> Traced(was, w, x) == Fits)
    ensures t.Valid() && (t.tree.Bin? ==> Walk(was, t.tree, x, true))
  {
    hide RbRoot.At;
    t.GoToTop(w);
    WholeRedBlack(w, h);
    if w.q.Step? {
      TracedUp(was, w, x);
      TracedIsWalked(was, Up(w), x, true);
      WalkedWhole(was, Up(w), x, true);
    }
  }
}
