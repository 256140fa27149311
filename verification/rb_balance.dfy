/** Colors and black heights, on the pure trees: what the two repair loops of src/rbtree.c keep. */
module RbBalance {
  import opened RbShape

  function Weight(c: Color): int { if c == Black then 1 else 0 }

  /** No red node has a red child, and every way from the root of `t` down to a NULL passes `h` black nodes. */
  predicate Balanced(t: Tree, h: int) {
    match t
    case Nil => h == 0
    case Bin(l, _, c, r) => (
      && Balanced(l, h - Weight(c)) && Balanced(r, h - Weight(c))
      && (c == Red ==> !IsRed(l) && !IsRed(r)))
  }

  /** The context is that of a balanced tree with a black root, once its hole holds a tree of black
      height `h` (with a black root, if the hole is below a red node). */
  predicate PathBalanced(q: Path, h: int) {
    match q
    case Top => true
    case Step(up, _, _, c, sib, _) => (
      && Balanced(sib, h) && (c == Red ==> !IsRed(sib) && up.Step? && up.color == Black)
      && PathBalanced(up, h + Weight(c)))
  }

  /** The focus has black height `h`, its context wants `h + missing`. */
  function Level(z: Spot, h: int, missing: int): Fit {
    if Balanced(z.t, h) && PathBalanced(z.q, h + missing) then Fits else Misfit
  }

  // ---------------------------------------------------------------- rb_insert_color

  /** `z` is a red node below a red node. */
  predicate RedPair(z: Spot) { IsRed(z.t) && z.q.Step? && z.q.color == Red }

  /** A red pair has a black grandparent. */
  lemma Grandparent(z: Spot, h: int)
    requires Level(z, h, 0) == Fits && RedPair(z)
    ensures z.q.up.Step? && z.q.up.color == Black
  {
  }

  /** Uncle and parent blackened, grandparent reddened: the focus two levels up. */
  function Lifted(z: Spot): Spot
    requires RedPair(z) && z.q.up.Step? && z.q.up.sib.Bin?
  {
    Up(PaintHolder(PaintSib(Paint(Up(z), Black), Black), Red))
  }

  lemma LiftedLevel(z: Spot, h: int)
    requires Level(z, h, 0) == Fits && RedPair(z) && z.q.up.Step? && IsRed(z.q.up.sib)
    ensures Level(Lifted(z), h + 1, 0) == Fits && IsRed(Lifted(z).t) && Lifted(z).t.k == z.q.up.k
    ensures Lifted(z).q == z.q.up.up && Depth(Lifted(z).q) + 2 == Depth(z.q)
  {
    var up := z.q.up;
    assert PathBalanced(up, h) && PathBalanced(up.up, h + 1);
    assert Balanced(up.sib.(color := Black), h + 1);
    assert Balanced(Paint(Up(z), Black).t, h + 1);
  }

  /** The pair turned so that the lower node is on the outer side; the focus is the node that went down. */
  function TurnedOut(z: Spot): Spot
    requires z.t.Bin? && z.q.Step?
  {
    if z.q.side == Right then Down(Up(z).(t := RotL(Up(z).t)), Left) else Down(Up(z).(t := RotR(Up(z).t)), Right)
  }

  lemma TurnedOutLevel(z: Spot, h: int)
    requires Level(z, h, 0) == Fits && RedPair(z) && z.q.up.Step?
    ensures var w := TurnedOut(z);
      Level(w, h, 0) == Fits && RedPair(w) && w.q.up == z.q.up && w.q.side == Flip(z.q.side) && w.q.k == z.t.k
        && w.t.k == z.q.k && Depth(w.q) == Depth(z.q)
  {
  }

  /** Parent blackened, grandparent reddened and rotated down: the focus keeps its place below the parent. */
  function Settled(z: Spot): Spot
    requires RedPair(z) && z.q.up.Step? && z.q.up.side == z.q.side
  {
    var parent := Paint(Up(z), Black);
    var grandparent := Up(PaintHolder(parent, Red));
    if z.q.side == Left then Down(grandparent.(t := RotR(grandparent.t)), Left)
    else Down(grandparent.(t := RotL(grandparent.t)), Right)
  }

  lemma SettledLevel(z: Spot, h: int)
    requires Level(z, h, 0) == Fits && RedPair(z) && z.q.up.Step? && z.q.up.side == z.q.side && !IsRed(z.q.up.sib)
    ensures var w := Settled(z);
      Level(w, h, 0) == Fits && w.t == z.t && !RedPair(w) && w.q.Step? && w.q.up == z.q.up.up
      && Depth(w.q) + 1 == Depth(z.q)
  {
    var up := z.q.up;
    assert PathBalanced(up, h) && PathBalanced(up.up, h + 1);
    assert Balanced(Settled(z).q.sib, h);
  }

  // ---------------------------------------------------------------- __rb_erase_color

  /** One black is missing at the focus: its context wants height `h + 1`.  Blackening a red focus
      supplies it (and may be needed to part it from a red child). */
  function Short(z: Spot, h: int): Fit {
    if PathBalanced(z.q, h + 1) && (if IsRed(z.t) then Balanced(z.t.(color := Black), h + 1) else Balanced(z.t, h))
    then Fits else Misfit
  }

  lemma HeightNonNegative(t: Tree, h: int)
    requires Balanced(t, h)
    ensures h >= 0 && (h > 0 ==> t.Bin?)
  {
  }

  lemma BlackHasHeight(t: Tree, h: int)
    requires Balanced(t, h)
    ensures t.Bin? && t.color == Black ==> h > 0
  {
    if t.Bin? && t.color == Black { HeightNonNegative(t.left, h - 1); }
  }

  /** The focus that is short has a sibling, and a red sibling has two black children. */
  lemma SiblingExists(z: Spot, h: int)
    requires Short(z, h) == Fits && z.q.Step? && !IsRed(z.t)
    ensures h >= 0 && z.q.sib.Bin?
    ensures IsRed(z.q.sib) ==> z.q.sib.left.Bin? && z.q.sib.right.Bin? && !IsRed(z.q.sib.left) && !IsRed(z.q.sib.right)
  {
    HeightNonNegative(z.t, h);
    HeightNonNegative(z.q.sib, h + 1);
    if IsRed(z.q.sib) {
      HeightNonNegative(z.q.sib.left, h + 1);
      HeightNonNegative(z.q.sib.right, h + 1);
    }
  }

  function Near(t: Tree, s: Side): Tree
    requires t.Bin?
  {
    if s == Left then t.left else t.right
  }

  function Rotate(t: Tree, s: Side): Tree
    requires t.Bin? && Near(t, Flip(s)).Bin?
  {
    if s == Left then RotL(t) else RotR(t)
  }

  /** Red sibling blackened, parent reddened and rotated towards the focus. */
  function SibLowered(z: Spot): Spot
    requires z.q.Step? && z.q.sib.Bin?
  {
    var u := Up(PaintHolder(PaintSib(z, Black), Red));
    Down(Down(u.(t := Rotate(u.t, z.q.side)), z.q.side), z.q.side)
  }

  lemma SibLoweredShort(z: Spot, h: int)
    requires Short(z, h) == Fits && z.q.Step? && !IsRed(z.t) && IsRed(z.q.sib)
    ensures var w := SibLowered(z);
      && Short(w, h) == Fits && w.t == z.t && w.q.Step? && w.q.k == z.q.k && w.q.side == z.q.side && w.q.color == Red
      && !IsRed(w.q.sib) && Depth(w.q) == Depth(z.q) + 1
  {
    SiblingExists(z, h);
    var w := SibLowered(z);
    assert PathBalanced(z.q.up, h + 2);
    assert Balanced(w.q.sib, h + 1) && Balanced(w.q.up.sib, h + 1);
    assert PathBalanced(w.q.up, h + 1);
  }

  /** Black sibling without red children reddened: the focus one level up. */
  function SibReddened(z: Spot): Spot
    requires z.q.Step? && z.q.sib.Bin?
  {
    Up(PaintSib(z, Red))
  }

  lemma SibReddenedShort(z: Spot, h: int)
    requires Short(z, h) == Fits && z.q.Step? && !IsRed(z.t) && z.q.sib.Bin? && !IsRed(z.q.sib)
    requires !IsRed(z.q.sib.left) && !IsRed(z.q.sib.right)
    ensures var w := SibReddened(z);
      Short(w, h + Weight(z.q.color)) == Fits && w.q == z.q.up && w.t.Bin? && w.t.k == z.q.k && w.t.color == z.q.color
  {
    var w := SibReddened(z);
    assert Balanced(PaintSib(z, Red).q.sib, h);
  }

  /** The sibling's red inner child blackened, the sibling reddened and rotated away from the focus. */
  function SibTurned(z: Spot): Spot
    requires z.q.Step? && z.q.sib.Bin? && Near(z.q.sib, z.q.side).Bin?
  {
    var inner := Down(Down(Up(z), Flip(z.q.side)), z.q.side);
    var sib := Up(PaintHolder(Paint(inner, Black), Red));
    Down(Up(sib.(t := Rotate(sib.t, Flip(z.q.side)))), z.q.side)
  }

  lemma SibTurnedShort(z: Spot, h: int)
    requires Short(z, h) == Fits && z.q.Step? && !IsRed(z.t) && z.q.sib.Bin? && !IsRed(z.q.sib)
    requires IsRed(Near(z.q.sib, z.q.side)) && !IsRed(Near(z.q.sib, Flip(z.q.side)))
    ensures var w := SibTurned(z);
      && Short(w, h) == Fits && w.t == z.t && w.q.Step? && w.q.k == z.q.k && w.q.side == z.q.side && w.q.up == z.q.up
      && w.q.color == z.q.color
      && w.q.sib.Bin? && !IsRed(w.q.sib) && IsRed(Near(w.q.sib, Flip(w.q.side)))
  {
    var w := SibTurned(z);
    var inner := Near(z.q.sib, z.q.side);
    assert Balanced(inner, h) && Balanced(Near(z.q.sib, Flip(z.q.side)), h);
    assert Balanced(inner.left, h) && Balanced(inner.right, h);
    assert Balanced(w.q.sib, h + 1);
  }

  /** The sibling takes over the parent's color, parent and outer child turn black, the parent is
      rotated towards the focus: nothing is missing any more. */
  function Mended(z: Spot): Spot
    requires z.q.Step? && z.q.sib.Bin? && Near(z.q.sib, Flip(z.q.side)).Bin?
  {
    var sib := Down(Up(PaintHolder(PaintSib(z, z.q.color), Black)), Flip(z.q.side));
    var outer := Paint(Down(sib, Flip(z.q.side)), Black);
    var parent := Up(Up(outer));
    parent.(t := Rotate(parent.t, z.q.side))
  }

  lemma MendedLevel(z: Spot, h: int)
    requires Short(z, h) == Fits && z.q.Step? && !IsRed(z.t) && z.q.sib.Bin? && !IsRed(z.q.sib)
    requires IsRed(Near(z.q.sib, Flip(z.q.side)))
    ensures var w := Mended(z);
      Level(w, h + 1 + Weight(z.q.color), 0) == Fits && w.q == z.q.up && !RedPair(w) && (w.q.Top? ==> !IsRed(w.t))
  {
    var w := Mended(z);
    var outer := Near(z.q.sib, Flip(z.q.side));
    assert Balanced(outer, h) && Balanced(outer.left, h) && Balanced(outer.right, h);
    assert Balanced(outer.(color := Black), h + 1);
    assert Balanced(Near(w.t, z.q.side), h + 1);
  }

  // ---------------------------------------------------------------- the whole tree

  function BlackHeight(t: Tree): int {
    if t.Nil? then 0 else BlackHeight(t.left) + Weight(t.color)
  }

  predicate RedBlack(t: Tree) { !IsRed(t) && Balanced(t, BlackHeight(t)) }

  lemma HeightIsUnique(t: Tree, h: int)
    requires Balanced(t, h)
    ensures h == BlackHeight(t)
  {
  }

  function Whole(z: Spot): Spot
    decreases Depth(z.q)
  {
    if z.q.Top? then z else Whole(Up(z))
  }

  lemma WholeLinked(m: Mem, root: int, z: Spot)
    requires Linked(m, root, z) == Fits
    ensures Linked(m, root, Whole(z)) == Fits && Whole(z).q == Top && Whole(z).lo == 0 && Whole(z).hi == |m|
    decreases Depth(z.q)
  {
    if z.q.Step? {
      UpLinked(m, root, z);
      WholeLinked(m, root, Up(z));
    }
  }

  lemma WholeNodes(z: Spot)
    requires z.t.Bin? || z.q.Step?
    ensures Whole(z).t.Bin?
    decreases Depth(z.q)
  {
    if z.q.Step? { WholeNodes(Up(z)); }
  }

  /** A balanced focus in a balanced context is a balanced tree. */
  lemma WholeRedBlack(z: Spot, h: int)
    requires Level(z, h, 0) == Fits && !RedPair(z)
    ensures Balanced(Whole(z).t, BlackHeight(Whole(z).t)) && (z.q.Step? || !IsRed(z.t) ==> !IsRed(Whole(z).t))
    decreases Depth(z.q)
  {
    if z.q.Step? {
      WholeRedBlack(Up(z), h + Weight(z.q.color));
    } else {
      HeightIsUnique(z.t, h);
    }
  }

  lemma BlackenedRedBlack(t: Tree)
    requires t.Bin? && Balanced(t, BlackHeight(t))
    ensures RedBlack(t.(color := Black))
  {
  }

  /** Every node of a tree has its spot. */
  lemma Locate(m: Mem, root: int, z: Spot, h: int, k: int) returns (w: Spot, h': int)
    requires Linked(m, root, z) == Fits && Level(z, h, 0) == Fits && !RedPair(z) && z.lo <= k < z.hi
    requires (z.q.Top? ==> !IsRed(z.t))
    ensures Linked(m, root, w) == Fits && Level(w, h', 0) == Fits && !RedPair(w) && w.t.Bin? && w.t.k == k
    ensures w.q.Top? ==> !IsRed(w.t)
    decreases z.t
  {
    if z.t.k == k { return z, h; }
    var s := if k < z.t.k then Left else Right;
    DownLinked(m, root, z, s);
    w, h' := Locate(m, root, Down(z, s), h - Weight(z.t.color), k);
  }
}
