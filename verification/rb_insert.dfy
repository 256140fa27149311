/** rb_insert_color of src/rbtree.c: the repair after a red leaf has been linked. */
module RbInsert {
  import opened RbShape
  import opened RbBalance
  import opened RbTrace
  import opened RbTree

  /** `n` is red and sits at `z`; but for a red parent above it, all is balanced. */
  ghost function RedAt(t: RbRoot, z: Spot, h: int, n: Node): Fit
    reads t`root, t`Contents, t.Contents
  {
    if t.At(z) == Fits && Level(z, h, 0) == Fits && IsRed(z.t) && n == t.Ref(z.t.k) then Fits else Misfit
  }

  /** As `RedAt`, with the red parent `p` and the grandparent `g`. */
  ghost function Pair(t: RbRoot, z: Spot, h: int, n: Node, p: Node, g: Node): Fit
    reads t`root, t`Contents, t.Contents
  {
    if t.At(z) == Fits && Level(z, h, 0) == Fits && RedPair(z) && z.q.up.Step?
      && n == t.Ref(z.t.k) && p == t.Ref(z.q.k) && g == t.Ref(z.q.up.k) then Fits else Misfit
  }

  /** The pointers and colors that the repair reads around a red pair. */
  lemma Kin(t: RbRoot, z: Spot, h: int, n: Node, p: Node, g: Node)
    requires Pair(t, z, h, n, p, g) == Fits
    ensures RedPair(z) && z.q.up.Step? && p.parent == g
    ensures z.q.side == Left ==> p.left == n && p.right != n
    ensures z.q.side == Right ==> p.right == n && p.left != n
    ensures z.q.up.side == Left ==> g.left == p && g.right == t.Ref(Ptr(z.q.up.sib))
    ensures z.q.up.side == Right ==> g.left != p && g.right == p && g.left == t.Ref(Ptr(z.q.up.sib))
    ensures t.Ref(Ptr(z.q.up.sib)) == null <==> z.q.up.sib.Nil?
    ensures z.q.up.sib.Bin? ==> t.Ref(z.q.up.sib.k) != null && t.Ref(z.q.up.sib.k).color == z.q.up.sib.color
  {
    hide RbRoot.At, Level;
    t.Look(z);
    t.GoUp(z);
    t.Look(Up(z));
    t.LookSib(Up(z));
  }

  /** What the loop guard of rb_insert_color tells. */
  lemma Guard(t: RbRoot, z: Spot, h: int, n: Node)
    requires RedAt(t, z, h, n) == Fits
    ensures z.t.Bin? && n.parent == t.Ref(Holder(z.q)) && (n.parent == null <==> z.q.Top?)
    ensures n.parent != null ==> (n.parent.color == Red <==> RedPair(z))
    ensures RedPair(z) ==> n.parent.parent != null && Pair(t, z, h, n, n.parent, n.parent.parent) == Fits
  {
    t.Look(z);
    if RedPair(z) {
      Grandparent(z, h);
      t.GoUp(z);
      t.Look(Up(z));
    }
  }

  /** The red-uncle case: uncle and parent turn black, the grandparent red. */
  method LiftRed(t: RbRoot, uncle: Node, parent: Node, gparent: Node, ghost n: Node, ghost z: Spot, ghost h: int)
    requires Pair(t, z, h, n, parent, gparent) == Fits && RedPair(z) && z.q.up.Step?
    requires IsRed(z.q.up.sib) && uncle == t.Ref(z.q.up.sib.k)
    modifies t.Contents`color
    ensures RedAt(t, Lifted(z), h + 1, gparent) == Fits && Depth(Lifted(z).q) + 2 == Depth(z.q)
  {
    hide RbRoot.At, Level;
    LiftedLevel(z, h);
    t.GoUp(z);
    t.SetSibColor(uncle, Black, Up(z));
    t.SetColor(parent, Black, PaintSib(Up(z), Black));
    t.SetHolderColor(gparent, Red, Paint(PaintSib(Up(z), Black), Black));
    t.GoUp(PaintHolder(Paint(PaintSib(Up(z), Black), Black), Red));
  }

  /** Rotates the inner child of a left parent to the outside. */
  method TurnOutLeft(t: RbRoot, parent: Node, ghost n: Node, ghost g: Node, ghost z: Spot, ghost h: int)
    requires Pair(t, z, h, n, parent, g) == Fits && RedPair(z) && z.q.up.Step? && z.q.side == Right
    modifies t`root, t.Contents
    ensures Pair(t, TurnedOut(z), h, parent, n, g) == Fits && RedPair(TurnedOut(z))
    ensures Depth(TurnedOut(z).q) == Depth(z.q)
    ensures TurnedOut(z).q.up == z.q.up && TurnedOut(z).q.side == Left
  {
    hide RbRoot.At, Level;
    TurnedOutLevel(z, h);
    t.GoUp(z);
    t.RotateLeftAt(parent, Up(z));
    t.GoDown(Up(z).(t := RotL(Up(z).t)), Left);
  }

  /** Blackens the parent, reddens the grandparent and rotates it right. */
  method SettleRight(t: RbRoot, parent: Node, gparent: Node, ghost n: Node, ghost z: Spot, ghost h: int)
    requires Pair(t, z, h, n, parent, gparent) == Fits && RedPair(z) && z.q.up.Step?
    requires z.q.side == Left && z.q.up.side == Left && !IsRed(z.q.up.sib)
    modifies t`root, t.Contents
    ensures RedAt(t, Settled(z), h, n) == Fits && Depth(Settled(z).q) + 1 == Depth(z.q) && !RedPair(Settled(z))
    ensures Settled(z).q.Step?
  {
    hide RbRoot.At, Level;
    SettledLevel(z, h);
    t.GoUp(z);
    t.SetColor(parent, Black, Up(z));
    ghost var y := PaintHolder(Paint(Up(z), Black), Red);
    t.SetHolderColor(gparent, Red, Paint(Up(z), Black));
    t.GoUp(y);
    t.RotateRightAt(gparent, Up(y));
    t.GoDown(Up(y).(t := RotR(Up(y).t)), Left);
  }

  /** One pass of the loop, for a parent that is a left child.  Either it lifts the focus two levels, or
      it rotates and leaves no red pair. */
  method InsertLeft(t: RbRoot, n: Node, p: Node, gparent: Node, ghost z: Spot, ghost h: int, ghost was: Mem,
      ghost x: int)
    returns (node: Node, ghost w: Spot, ghost h': int)
    requires Pair(t, z, h, n, p, gparent) == Fits && z.q.Step? && z.q.up.Step? && z.q.up.side == Left
    requires Traced(was, z, x) == Fits
    modifies t`root, t.Contents
    ensures RedAt(t, w, h', node) == Fits && Depth(w.q) < Depth(z.q)
    ensures if Depth(w.q) + 2 == Depth(z.q) then Traced(was, w, x) == Fits
      else !RedPair(w) && w.q.Step? && Walked(was, Up(w), x, false) == Fits
  {
    hide RbRoot.At, Pair, RedAt, Traced, Walked;
    var parent := p;
    node, w, h' := n, z, h;
    Kin(t, z, h, n, p, gparent);
    var uncle := gparent.right;
    if uncle != null && uncle.color == Red {
      LiftRed(t, uncle, parent, gparent, n, z, h);
      LiftedTraced(was, z, x);
      return gparent, Lifted(z), h + 1;
    }
    if parent.right == node {
      TurnedWalked(was, z, x);
      TurnOutLeft(t, parent, node, gparent, z, h);
      w := TurnedOut(z);
      node, parent := parent, node;
    } else {
      SettledWalked(was, z, x);
    }
    SettleRight(t, parent, gparent, node, w, h);
    w := Settled(w);
  }

  /** Rotates the inner child of a right parent to the outside. */
  method TurnOutRight(t: RbRoot, parent: Node, ghost n: Node, ghost g: Node, ghost z: Spot, ghost h: int)
    requires Pair(t, z, h, n, parent, g) == Fits && RedPair(z) && z.q.up.Step? && z.q.side == Left
    modifies t`root, t.Contents
    ensures Pair(t, TurnedOut(z), h, parent, n, g) == Fits && RedPair(TurnedOut(z))
    ensures Depth(TurnedOut(z).q) == Depth(z.q)
    ensures TurnedOut(z).q.up == z.q.up && TurnedOut(z).q.side == Right
  {
    hide RbRoot.At, Level;
    TurnedOutLevel(z, h);
    t.GoUp(z);
    t.RotateRightAt(parent, Up(z));
    t.GoDown(Up(z).(t := RotR(Up(z).t)), Right);
  }

  /** Blackens the parent, reddens the grandparent and rotates it left. */
  method SettleLeft(t: RbRoot, parent: Node, gparent: Node, ghost n: Node, ghost z: Spot, ghost h: int)
    requires Pair(t, z, h, n, parent, gparent) == Fits && RedPair(z) && z.q.up.Step?
    requires z.q.side == Right && z.q.up.side == Right && !IsRed(z.q.up.sib)
    modifies t`root, t.Contents
    ensures RedAt(t, Settled(z), h, n) == Fits && Depth(Settled(z).q) + 1 == Depth(z.q) && !RedPair(Settled(z))
    ensures Settled(z).q.Step?
  {
    hide RbRoot.At, Level;
    SettledLevel(z, h);
    t.GoUp(z);
    t.SetColor(parent, Black, Up(z));
    ghost var y := PaintHolder(Paint(Up(z), Black), Red);
    t.SetHolderColor(gparent, Red, Paint(Up(z), Black));
    t.GoUp(y);
    t.RotateLeftAt(gparent, Up(y));
    t.GoDown(Up(y).(t := RotL(Up(y).t)), Right);
  }

  /** One pass of the loop, for a parent that is a right child.  Either it lifts the focus two levels, or
      it rotates and leaves no red pair. */
  method InsertRight(t: RbRoot, n: Node, p: Node, gparent: Node, ghost z: Spot, ghost h: int, ghost was: Mem,
      ghost x: int)
    returns (node: Node, ghost w: Spot, ghost h': int)
    requires Pair(t, z, h, n, p, gparent) == Fits && z.q.Step? && z.q.up.Step? && z.q.up.side == Right
    requires Traced(was, z, x) == Fits
    modifies t`root, t.Contents
    ensures RedAt(t, w, h', node) == Fits && Depth(w.q) < Depth(z.q)
    ensures if Depth(w.q) + 2 == Depth(z.q) then Traced(was, w, x) == Fits
      else !RedPair(w) && w.q.Step? && Walked(was, Up(w), x, false) == Fits
  {
    hide RbRoot.At, Pair, RedAt, Traced, Walked;
    var parent := p;
    node, w, h' := n, z, h;
    Kin(t, z, h, n, p, gparent);
    var uncle := gparent.left;
    if uncle != null && uncle.color == Red {
      LiftRed(t, uncle, parent, gparent, n, z, h);
      LiftedTraced(was, z, x);
      return gparent, Lifted(z), h + 1;
    }
    if parent.left == node {
      TurnedWalked(was, z, x);
      TurnOutRight(t, parent, node, gparent, z, h);
      w := TurnedOut(z);
      node, parent := parent, node;
    } else {
      SettledWalked(was, z, x);
    }
    SettleLeft(t, parent, gparent, node, w, h);
    w := Settled(w);
  }

  /** rb_insert_color.  `z` is where `n` was linked, `was` any memory in which nodes off the way down to
      `n` have the children they have now. */
  method InsertColor(t: RbRoot, n: Node, ghost z0: Spot, ghost h0: int, ghost was: Mem, ghost x: int)
    requires RedAt(t, z0, h0, n) == Fits && Traced(was, z0, x) == Fits
    modifies t`root, t`tree, t.Contents
    ensures t.Valid() && Walk(was, t.tree, x, false)
  {
    hide RbRoot.At, Pair, RedAt, Traced, Walked, Walk;
    var node := n;
    ghost var z, h := z0, h0;
    Guard(t, z, h, node);
    var parent := node.parent;
    while parent != null && parent.color == Red
      invariant RedAt(t, z, h, node) == Fits && parent == node.parent
      invariant Traced(was, z, x) == Fits || (!RedPair(z) && z.q.Step? && Walked(was, Up(z), x, false) == Fits)
      decreases Depth(z.q)
    {
      Guard(t, z, h, node);
      var gparent := parent.parent;
      Kin(t, z, h, node, parent, gparent);
      if parent == gparent.left {
        node, z, h := InsertLeft(t, node, parent, gparent, z, h, was, x);
      } else {
        node, z, h := InsertRight(t, node, parent, gparent, z, h, was, x);
      }
      parent := node.parent;
    }
    Guard(t, z, h, node);
    if Traced(was, z, x) == Fits {
      TracedIsWalked(was, z, x, false);
      WalkedWhole(was, z, x, false);
    } else {
      WalkedWhole(was, Up(z), x, false);
    }
    BlackenRoot(t, z, h, node);
    Recolored(was, Whole(z).t, Black, x, false);
  }

  /** The last statement of rb_insert_color: the root turns black. */
  method BlackenRoot(t: RbRoot, ghost z: Spot, ghost h: int, ghost n: Node)
    requires RedAt(t, z, h, n) == Fits && !RedPair(z)
    modifies t`tree, t.Contents`color
    ensures Whole(z).t.Bin? && t.tree == Whole(z).t.(color := Black) && t.Valid()
  {
    hide RbRoot.At;
    ghost var w := Whole(z);
    t.GoToTop(z);
    WholeRedBlack(z, h);
    WholeNodes(z);
    t.Look(w);
    t.SetColor(t.root, Black, w);
    t.tree := w.t.(color := Black);
    BlackenedRedBlack(w.t);
  }
}
