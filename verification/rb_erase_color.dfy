/** __rb_erase_color of src/rbtree.c: the repair after a black node has left the tree. */
module RbEraseColor {
  import opened RbShape
  import opened RbBalance
  import opened RbTrace
  import opened RbTree

  /** One black is missing at `z`, where `node` (NULL if the focus is empty) hangs below `parent`. */
  ghost function ShortAt(t: RbRoot, z: Spot, h: int, node: Node?, parent: Node?): Fit
    reads t`root, t`Contents, t.Contents
  {
    if t.At(z) == Fits && Short(z, h) == Fits && node == t.Ref(Ptr(z.t)) && parent == t.Ref(Holder(z.q))
    then Fits else Misfit
  }

  /** Nothing is missing any more. */
  ghost function EvenAt(t: RbRoot, z: Spot, h: int): Fit
    reads t`root, t`Contents, t.Contents
  {
    if t.At(z) == Fits && Level(z, h, 0) == Fits && !RedPair(z) && (z.q.Top? ==> !IsRed(z.t)) then Fits else Misfit
  }

  /** What the loop guard of __rb_erase_color tells. */
  lemma Guard(t: RbRoot, z: Spot, h: int, node: Node?, parent: Node?)
    requires ShortAt(t, z, h, node, parent) == Fits
    ensures node == null <==> z.t.Nil?
    ensures node != null ==> node.color == z.t.color && node.parent == parent
    ensures node == t.root <==> z.q.Top?
    ensures z.q.Step? ==> parent != null
  {
    hide RbRoot.At, Short;
    t.Look(z);
    t.GoToTop(z);
    t.Look(Whole(z));
    if z.q.Step? { WholeNodes(z); }
  }

  /** The pointers and colors that the repair reads around a focus that is short: the sibling is never
      NULL, nor is a child of it that the repair recolors. */
  lemma Kin(t: RbRoot, z: Spot, h: int, node: Node?, parent: Node)
    requires ShortAt(t, z, h, node, parent) == Fits && z.q.Step? && !IsRed(z.t)
    ensures z.q.sib.Bin? && t.Ref(z.q.sib.k) != null
    ensures z.q.side == Left ==> parent.left == node && parent.right == t.Ref(z.q.sib.k)
    ensures z.q.side == Right ==> parent.left != node && parent.right == node && parent.left == t.Ref(z.q.sib.k)
    ensures parent.color == z.q.color && (IsRed(z.q.sib) ==> z.q.sib.left.Bin? && z.q.sib.right.Bin?)
    ensures var other, sib := t.Ref(z.q.sib.k), z.q.sib;
      && other.color == sib.color && other.left == t.Ref(Ptr(sib.left)) && other.right == t.Ref(Ptr(sib.right))
      && (other.left == null <==> sib.left.Nil?) && (other.left != null ==> other.left.color == sib.left.color)
      && (other.right == null <==> sib.right.Nil?) && (other.right != null ==> other.right.color == sib.right.color)
  {
    hide RbRoot.At, Balanced, PathBalanced;
    SiblingExists(z, h);
    t.Look(z);
    t.GoUp(z);
    var y := Down(Up(z), Flip(z.q.side));
    t.GoDown(Up(z), Flip(z.q.side));
    t.Look(y);
    t.GoDown(y, Left);
    t.GoDown(y, Right);
    t.Look(Down(y, Left));
    t.Look(Down(y, Right));
  }

  /** Blackens a red sibling, reddens the parent and rotates it left. */
  method LowerSibLeft(t: RbRoot, other: Node, parent: Node, ghost node: Node?, ghost z: Spot, ghost h: int)
    requires ShortAt(t, z, h, node, parent) == Fits && z.q.Step? && z.q.side == Left
    requires !IsRed(z.t) && IsRed(z.q.sib) && other == t.Ref(z.q.sib.k)
    modifies t`root, t.Contents
    ensures Near(z.q.sib, Left).Bin? && ShortAt(t, SibLowered(z), h, node, parent) == Fits
    ensures var w := SibLowered(z);
      && w.t == z.t && w.q.Step? && w.q.side == Left && w.q.color == Red && !IsRed(w.q.sib)
      && Depth(w.q) == Depth(z.q) + 1
  {
    hide RbRoot.At, Short;
    SibLoweredShort(z, h);
    SiblingExists(z, h);
    t.SetSibColor(other, Black, z);
    t.SetHolderColor(parent, Red, PaintSib(z, Black));
    ghost var u := Up(PaintHolder(PaintSib(z, Black), Red));
    t.GoUp(PaintHolder(PaintSib(z, Black), Red));
    t.RotateLeftAt(parent, u);
    ghost var v := u.(t := Rotate(u.t, Left));
    t.GoDown(v, Left);
    t.GoDown(Down(v, Left), Left);
  }

  /** Reddens a black sibling without red children. */
  method ReddenSibLeft(t: RbRoot, other: Node, parent: Node, ghost node: Node?, ghost z: Spot, ghost h: int)
    requires ShortAt(t, z, h, node, parent) == Fits && z.q.Step? && z.q.side == Left
    requires !IsRed(z.t) && z.q.sib.Bin? && !IsRed(z.q.sib) && other == t.Ref(z.q.sib.k)
    requires !IsRed(z.q.sib.left) && !IsRed(z.q.sib.right)
    modifies t.Contents`color
    ensures ShortAt(t, SibReddened(z), h + Weight(z.q.color), parent, parent.parent) == Fits
    ensures SibReddened(z).q == z.q.up && SibReddened(z).t.Bin? && SibReddened(z).t.color == z.q.color
  {
    hide RbRoot.At, Short;
    SibReddenedShort(z, h);
    t.SetSibColor(other, Red, z);
    t.GoUp(PaintSib(z, Red));
    t.Look(SibReddened(z));
  }

  /** Blackens the left child of the sibling, reddens the sibling and rotates it right. */
  method TurnSibLeft(t: RbRoot, other: Node, inner: Node, ghost node: Node?, ghost parent: Node, ghost z: Spot,
      ghost h: int)
    requires ShortAt(t, z, h, node, parent) == Fits && z.q.Step? && z.q.side == Left
    requires !IsRed(z.t) && z.q.sib.Bin? && !IsRed(z.q.sib) && other == t.Ref(z.q.sib.k)
    requires IsRed(z.q.sib.left) && !IsRed(z.q.sib.right) && inner == t.Ref(z.q.sib.left.k)
    modifies t`root, t.Contents
    ensures ShortAt(t, SibTurned(z), h, node, parent) == Fits
    ensures var w := SibTurned(z);
      && w.t == z.t && w.q.Step? && w.q.side == Left && w.q.color == z.q.color && w.q.sib.Bin? && !IsRed(w.q.sib)
      && IsRed(w.q.sib.right)
  {
    hide RbRoot.At, Short;
    SibTurnedShort(z, h);
    t.GoUp(z);
    t.GoDown(Up(z), Right);
    t.GoDown(Down(Up(z), Right), Left);
    ghost var y := Down(Down(Up(z), Right), Left);
    t.SetColor(inner, Black, y);
    t.SetHolderColor(other, Red, Paint(y, Black));
    ghost var u := Up(PaintHolder(Paint(y, Black), Red));
    t.GoUp(PaintHolder(Paint(y, Black), Red));
    t.RotateRightAt(other, u);
    ghost var v := u.(t := Rotate(u.t, Right));
    t.GoUp(v);
    t.GoDown(Up(v), Left);
  }

  /** Gives the sibling the parent's color, blackens the parent and the sibling's right child, and rotates
      the parent left. */
  method MendLeft(t: RbRoot, other: Node, parent: Node, outer: Node, ghost node: Node?, ghost z: Spot, ghost h: int)
    requires ShortAt(t, z, h, node, parent) == Fits && z.q.Step? && z.q.side == Left
    requires !IsRed(z.t) && z.q.sib.Bin? && !IsRed(z.q.sib) && other == t.Ref(z.q.sib.k)
    requires IsRed(z.q.sib.right) && outer == t.Ref(z.q.sib.right.k)
    modifies t`root, t.Contents
    ensures EvenAt(t, Mended(z), h + 1 + Weight(z.q.color)) == Fits
  {
    hide RbRoot.At, Short, Level;
    MendedLevel(z, h);
    t.Look(z);
    t.SetSibColor(other, parent.color, z);
    t.SetHolderColor(parent, Black, PaintSib(z, z.q.color));
    ghost var y := PaintHolder(PaintSib(z, z.q.color), Black);
    t.GoUp(y);
    t.GoDown(Up(y), Right);
    t.GoDown(Down(Up(y), Right), Right);
    ghost var o := Down(Down(Up(y), Right), Right);
    t.SetColor(outer, Black, o);
    t.GoUp(Paint(o, Black));
    t.GoUp(Up(Paint(o, Black)));
    t.RotateLeftAt(parent, Up(Up(Paint(o, Black))));
  }

  /** One pass of the loop, for a focus that is a left child.  Either it ends the loop, or it lifts the
      focus one level, or, after a red sibling, it leaves a red focus that ends the loop. */
  method EraseLeft(t: RbRoot, n: Node?, p: Node, ghost z: Spot, ghost h: int, ghost was: Mem, ghost x: int)
    returns (node: Node?, parent: Node?, done: bool, ghost w: Spot, ghost h': int)
    requires ShortAt(t, z, h, n, p) == Fits && z.q.Step? && z.q.side == Left && !IsRed(z.t)
    requires Traced(was, z, x) == Fits
    modifies t`root, t.Contents
    ensures done ==> EvenAt(t, w, h') == Fits && Walked(was, w, x, true) == Fits
    ensures !done ==> ShortAt(t, w, h', node, parent) == Fits && Traced(was, w, x) == Fits
    ensures !done ==> Depth(w.q) < Depth(z.q) || (Depth(w.q) == Depth(z.q) && IsRed(w.t))
    ensures done ==> node == t.root
  {
    hide RbRoot.At, ShortAt, EvenAt, Traced, Walked, Short;
    node, parent, done, w, h' := n, p, false, z, h;
    Kin(t, z, h, n, p);
    var other := parent.right;
    if other.color == Red {
      SibLoweredTraced(was, z, x);
      LowerSibLeft(t, other, parent, node, z, h);
      w := SibLowered(z);
      Kin(t, w, h, node, parent);
      other := parent.right;
    }
    if (other.left == null || other.left.color == Black) && (other.right == null || other.right.color == Black) {
      SibReddenedTraced(was, w, x);
      ReddenSibLeft(t, other, parent, node, w, h);
      node := parent;
      parent := node.parent;
      w, h' := SibReddened(w), h + Weight(w.q.color);
    } else {
      if other.right == null || other.right.color == Black {
        TurnedMendedWalked(was, w, x);
        TurnSibLeft(t, other, other.left, node, parent, w, h);
        w := SibTurned(w);
        Kin(t, w, h, node, parent);
        other := parent.right;
      } else {
        MendedWalked(was, w, x);
      }
      MendLeft(t, other, parent, other.right, node, w, h);
      node, done := t.root, true;
      w, h' := Mended(w), h + 1 + Weight(w.q.color);
    }
  }

  /** Blackens a red sibling, reddens the parent and rotates it right. */
  method LowerSibRight(t: RbRoot, other: Node, parent: Node, ghost node: Node?, ghost z: Spot, ghost h: int)
    requires ShortAt(t, z, h, node, parent) == Fits && z.q.Step? && z.q.side == Right
    requires !IsRed(z.t) && IsRed(z.q.sib) && other == t.Ref(z.q.sib.k)
    modifies t`root, t.Contents
    ensures Near(z.q.sib, Right).Bin? && ShortAt(t, SibLowered(z), h, node, parent) == Fits
    ensures var w := SibLowered(z);
      && w.t == z.t && w.q.Step? && w.q.side == Right && w.q.color == Red && !IsRed(w.q.sib)
      && Depth(w.q) == Depth(z.q) + 1
  {
    hide RbRoot.At, Short;
    SibLoweredShort(z, h);
    SiblingExists(z, h);
    t.SetSibColor(other, Black, z);
    t.SetHolderColor(parent, Red, PaintSib(z, Black));
    ghost var u := Up(PaintHolder(PaintSib(z, Black), Red));
    t.GoUp(PaintHolder(PaintSib(z, Black), Red));
    t.RotateRightAt(parent, u);
    ghost var v := u.(t := Rotate(u.t, Right));
    t.GoDown(v, Right);
    t.GoDown(Down(v, Right), Right);
  }

  /** Reddens a black sibling without red children. */
  method ReddenSibRight(t: RbRoot, other: Node, parent: Node, ghost node: Node?, ghost z: Spot, ghost h: int)
    requires ShortAt(t, z, h, node, parent) == Fits && z.q.Step? && z.q.side == Right
    requires !IsRed(z.t) && z.q.sib.Bin? && !IsRed(z.q.sib) && other == t.Ref(z.q.sib.k)
    requires !IsRed(z.q.sib.left) && !IsRed(z.q.sib.right)
    modifies t.Contents`color
    ensures ShortAt(t, SibReddened(z), h + Weight(z.q.color), parent, parent.parent) == Fits
    ensures SibReddened(z).q == z.q.up && SibReddened(z).t.Bin? && SibReddened(z).t.color == z.q.color
  {
    hide RbRoot.At, Short;
    SibReddenedShort(z, h);
    t.SetSibColor(other, Red, z);
    t.GoUp(PaintSib(z, Red));
    t.Look(SibReddened(z));
  }

  /** Blackens the right child of the sibling, reddens the sibling and rotates it left. */
  method TurnSibRight(t: RbRoot, other: Node, inner: Node, ghost node: Node?, ghost parent: Node, ghost z: Spot,
      ghost h: int)
    requires ShortAt(t, z, h, node, parent) == Fits && z.q.Step? && z.q.side == Right
    requires !IsRed(z.t) && z.q.sib.Bin? && !IsRed(z.q.sib) && other == t.Ref(z.q.sib.k)
    requires IsRed(z.q.sib.right) && !IsRed(z.q.sib.left) && inner == t.Ref(z.q.sib.right.k)
    modifies t`root, t.Contents
    ensures ShortAt(t, SibTurned(z), h, node, parent) == Fits
    ensures var w := SibTurned(z);
      && w.t == z.t && w.q.Step? && w.q.side == Right && w.q.color == z.q.color && w.q.sib.Bin? && !IsRed(w.q.sib)
      && IsRed(w.q.sib.left)
  {
    hide RbRoot.At, Short;
    SibTurnedShort(z, h);
    t.GoUp(z);
    t.GoDown(Up(z), Left);
    t.GoDown(Down(Up(z), Left), Right);
    ghost var y := Down(Down(Up(z), Left), Right);
    t.SetColor(inner, Black, y);
    t.SetHolderColor(other, Red, Paint(y, Black));
    ghost var u := Up(PaintHolder(Paint(y, Black), Red));
    t.GoUp(PaintHolder(Paint(y, Black), Red));
    t.RotateLeftAt(other, u);
    ghost var v := u.(t := Rotate(u.t, Left));
    t.GoUp(v);
    t.GoDown(Up(v), Right);
  }

  /** Gives the sibling the parent's color, blackens the parent and the sibling's left child, and rotates
      the parent right. */
  method MendRight(t: RbRoot, other: Node, parent: Node, outer: Node, ghost node: Node?, ghost z: Spot, ghost h: int)
    requires ShortAt(t, z, h, node, parent) == Fits && z.q.Step? && z.q.side == Right
    requires !IsRed(z.t) && z.q.sib.Bin? && !IsRed(z.q.sib) && other == t.Ref(z.q.sib.k)
    requires IsRed(z.q.sib.left) && outer == t.Ref(z.q.sib.left.k)
    modifies t`root, t.Contents
    ensures EvenAt(t, Mended(z), h + 1 + Weight(z.q.color)) == Fits
  {
    hide RbRoot.At, Short, Level;
    MendedLevel(z, h);
    t.Look(z);
    t.SetSibColor(other, parent.color, z);
    t.SetHolderColor(parent, Black, PaintSib(z, z.q.color));
    ghost var y := PaintHolder(PaintSib(z, z.q.color), Black);
    t.GoUp(y);
    t.GoDown(Up(y), Left);
    t.GoDown(Down(Up(y), Left), Left);
    ghost var o := Down(Down(Up(y), Left), Left);
    t.SetColor(outer, Black, o);
    t.GoUp(Paint(o, Black));
    t.GoUp(Up(Paint(o, Black)));
    t.RotateRightAt(parent, Up(Up(Paint(o, Black))));
  }

  /** One pass of the loop, for a focus that is a right child.  Either it ends the loop, or it lifts the
      focus one level, or, after a red sibling, it leaves a red focus that ends the loop. */
  method EraseRight(t: RbRoot, n: Node?, p: Node, ghost z: Spot, ghost h: int, ghost was: Mem, ghost x: int)
    returns (node: Node?, parent: Node?, done: bool, ghost w: Spot, ghost h': int)
    requires ShortAt(t, z, h, n, p) == Fits && z.q.Step? && z.q.side == Right && !IsRed(z.t)
    requires Traced(was, z, x) == Fits
    modifies t`root, t.Contents
    ensures done ==> EvenAt(t, w, h') == Fits && Walked(was, w, x, true) == Fits
    ensures !done ==> ShortAt(t, w, h', node, parent) == Fits && Traced(was, w, x) == Fits
    ensures !done ==> Depth(w.q) < Depth(z.q) || (Depth(w.q) == Depth(z.q) && IsRed(w.t))
    ensures done ==> node == t.root
  {
    hide RbRoot.At, ShortAt, EvenAt, Traced, Walked, Short;
    node, parent, done, w, h' := n, p, false, z, h;
    Kin(t, z, h, n, p);
    var other := parent.left;
    if other.color == Red {
      SibLoweredTraced(was, z, x);
      LowerSibRight(t, other, parent, node, z, h);
      w := SibLowered(z);
      Kin(t, w, h, node, parent);
      other := parent.left;
    }
    if (other.left == null || other.left.color == Black) && (other.right == null || other.right.color == Black) {
      SibReddenedTraced(was, w, x);
      ReddenSibRight(t, other, parent, node, w, h);
      node := parent;
      parent := node.parent;
      w, h' := SibReddened(w), h + Weight(w.q.color);
    } else {
      if other.left == null || other.left.color == Black {
        TurnedMendedWalked(was, w, x);
        TurnSibRight(t, other, other.right, node, parent, w, h);
        w := SibTurned(w);
        Kin(t, w, h, node, parent);
        other := parent.left;
      } else {
        MendedWalked(was, w, x);
      }
      MendRight(t, other, parent, other.left, node, w, h);
      node, done := t.root, true;
      w, h' := Mended(w), h + 1 + Weight(w.q.color);
    }
  }

  /** __rb_erase_color.  `z` is where the black is missing; `x` is the node in the focus or, if the focus
      is empty, its parent, from where the summaries have to be renewed. */
  method EraseColor(t: RbRoot, n: Node?, p: Node?, ghost z0: Spot, ghost h0: int, ghost was: Mem, ghost x: int)
    requires ShortAt(t, z0, h0, n, p) == Fits && (z0.t.Bin? || z0.q.Step? ==> Traced(was, z0, x) == Fits)
    modifies t`root, t`tree, t.Contents
    ensures t.Valid() && (t.tree.Bin? ==> Walk(was, t.tree, x, true))
  {
    hide RbRoot.At, ShortAt, EvenAt, Traced, Walked, Short, RbRoot.Valid, Walk;
    var node, parent, done := n, p, false;
    ghost var z, h := z0, h0;
    Guard(t, z, h, node, parent);
    while (node == null || node.color == Black) && node != t.root
      invariant !done ==>
        (ShortAt(t, z, h, node, parent) == Fits && (z.t.Bin? || z.q.Step? ==> Traced(was, z, x) == Fits))
      invariant !done ==>
        ((node == null <==> z.t.Nil?) && (node != null ==> node.color == z.t.color) && (node == t.root <==> z.q.Top?))
      invariant done ==> EvenAt(t, z, h) == Fits && Walked(was, z, x, true) == Fits && node == t.root
      decreases if done then 0 else 1, Depth(z.q), if IsRed(z.t) then 0 else 1
    {
      Guard(t, z, h, node, parent);
      Kin(t, z, h, node, parent);
      if parent.left == node {
        node, parent, done, z, h := EraseLeft(t, node, parent, z, h, was, x);
      } else {
        node, parent, done, z, h := EraseRight(t, node, parent, z, h, was, x);
      }
      if !done {
        Guard(t, z, h, node, parent);
      }
    }
    if done {
      EvenTop(t, z, h, was, x);
      z := Whole(z);
    } else {
      ShortTop(t, z, h, node, parent, was, x);
    }
    if node != null {
      t.SetColor(node, Black, z);
    }
    z := Blackened(z);
    t.GoToTop(z);
    t.tree := Whole(z).t;
    FinalTree(t, z, was, x);
  }

  function Blackened(z: Spot): Spot { if z.t.Bin? then Paint(z, Black) else z }

  /** The tree is empty, or all is well once the focus is black. */
  function Last(z: Spot, was: Mem, x: int): Fit {
    if if z.t.Nil? then z.q.Top? else
      var w := Paint(z, Black);
      Balanced(w.t, BlackHeight(w.t)) && PathBalanced(z.q, BlackHeight(w.t)) && PathNearKept(was, z.q)
        && Walk(was, w.t, x, true)
    then Fits else Misfit
  }

  /** Where the loop is left by its break. */
  lemma EvenTop(t: RbRoot, z: Spot, h: int, was: Mem, x: int)
    requires EvenAt(t, z, h) == Fits && Walked(was, z, x, true) == Fits
    ensures t.At(Whole(z)) == Fits && t.root == t.Ref(Ptr(Whole(z).t)) && t.root != null && Whole(z).t.Bin?
    ensures Last(Whole(z), was, x) == Fits
  {
    hide RbRoot.At;
    t.GoToTop(z);
    t.Look(Whole(z));
    WholeNodes(z);
    WholeRedBlack(z, h);
    WalkedWhole(was, z, x, true);
  }

  /** Where the loop is left by its guard. */
  lemma ShortTop(t: RbRoot, z: Spot, h: int, node: Node?, parent: Node?, was: Mem, x: int)
    requires ShortAt(t, z, h, node, parent) == Fits && (z.t.Bin? || z.q.Step? ==> Traced(was, z, x) == Fits)
    requires IsRed(z.t) || z.q.Top?
    ensures t.At(z) == Fits && node == t.Ref(Ptr(z.t)) && (node == null <==> z.t.Nil?) && Last(z, was, x) == Fits
  {
    hide RbRoot.At;
    Guard(t, z, h, node, parent);
    if z.t.Bin? {
      TracedIsWalked(was, z, x, true);
      Recolored(was, z.t, Black, x, true);
      HeightIsUnique(z.t.(color := Black), if IsRed(z.t) then h + 1 else h);
    }
  }

  lemma FinalTree(t: RbRoot, z: Spot, was: Mem, x: int)
    requires t.At(z) == Fits && Last(z, was, x) == Fits && z == Blackened(z) && t.tree == Whole(z).t
    ensures t.Valid() && (t.tree.Bin? ==> Walk(was, t.tree, x, true))
  {
    hide RbRoot.At;
    t.GoToTop(z);
    if z.t.Bin? {
      WholeRedBlack(z, BlackHeight(z.t));
      WalkedWhole(was, z, x, true);
    }
  }
}
