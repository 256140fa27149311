/** Which nodes keep their children through a repair.  `old` is the memory a tree is compared with:
    what the two repairs of src/rbtree.c leave alone is what rb_augment_path need not visit. */
module RbTrace {
  import opened RbShape
  import opened RbBalance

  /** Every node of `t` has the children it has in `was`. */
  predicate Kept(was: Mem, t: Tree) {
    match t
    case Nil => true
    case Bin(l, k, _, r) => (
      && 0 <= k < |was| && was[k].left == Ptr(l) && was[k].right == Ptr(r)
      && Kept(was, l) && Kept(was, r))
  }

  /** Every node of `t` but its root has the children it has in `was`. */
  predicate NearKept(was: Mem, t: Tree) { t.Bin? ==> Kept(was, t.left) && Kept(was, t.right) }

  predicate PathKept(was: Mem, q: Path) { q.Step? ==> Kept(was, q.sib) && PathKept(was, q.up) }
  predicate PathNearKept(was: Mem, q: Path) { q.Step? ==> NearKept(was, q.sib) && PathNearKept(was, q.up) }

  /** Node `x` is in `t`, and all that hangs off the way down to it is kept. */
  predicate Trail(was: Mem, t: Tree, x: int) {
    && t.Bin?
    && ((t.k == x && Kept(was, t.left) && Kept(was, t.right))
        || (Trail(was, t.left, x) && Kept(was, t.right))
        || (Kept(was, t.left) && Trail(was, t.right, x)))
  }

  /** Node `x` is in `t`, and all that hangs off the way down to it is kept but for the roots of what
      hangs off; the children of `x` itself are kept whole if `firm`. */
  predicate Walk(was: Mem, t: Tree, x: int, firm: bool) {
    && t.Bin?
    && ((t.k == x && NearKept(was, t.left) && NearKept(was, t.right)
      && (firm ==> Kept(was, t.left) && Kept(was, t.right)))
        || (Walk(was, t.left, x, firm) && NearKept(was, t.right))
        || (NearKept(was, t.left) && Walk(was, t.right, x, firm)))
  }

  /** `x` is in the focus, or it is the parent of an empty focus. */
  function Traced(was: Mem, z: Spot, x: int): Fit {
    if PathKept(was, z.q) && (Trail(was, z.t, x) || (z.t.Nil? && z.q.Step? && z.q.k == x)) then Fits else Misfit
  }

  function Walked(was: Mem, z: Spot, x: int, firm: bool): Fit {
    if PathNearKept(was, z.q) && Walk(was, z.t, x, firm) then Fits else Misfit
  }

  lemma KeptIsNear(was: Mem, t: Tree)
    ensures Kept(was, t) ==> NearKept(was, t)
  {
  }

  lemma TrailIsWalk(was: Mem, t: Tree, x: int, firm: bool)
    requires Trail(was, t, x)
    ensures Walk(was, t, x, firm)
  {
    KeptIsNear(was, t.left);
    KeptIsNear(was, t.right);
    if Trail(was, t.left, x) { TrailIsWalk(was, t.left, x, firm); }
    if Trail(was, t.right, x) { TrailIsWalk(was, t.right, x, firm); }
  }

  lemma PathKeptIsNear(was: Mem, q: Path)
    requires PathKept(was, q)
    ensures PathNearKept(was, q)
  {
  }

  lemma TracedIsWalked(was: Mem, z: Spot, x: int, firm: bool)
    requires Traced(was, z, x) == Fits && z.t.Bin?
    ensures Walked(was, z, x, firm) == Fits
  {
    TrailIsWalk(was, z.t, x, firm);
    PathKeptIsNear(was, z.q);
  }

  lemma TracedUp(was: Mem, z: Spot, x: int)
    requires Traced(was, z, x) == Fits && z.q.Step?
    ensures Traced(was, Up(z), x) == Fits
  {
  }

  lemma WalkedUp(was: Mem, z: Spot, x: int, firm: bool)
    requires Walked(was, z, x, firm) == Fits && z.q.Step?
    ensures Walked(was, Up(z), x, firm) == Fits
  {
  }

  lemma WalkedWhole(was: Mem, z: Spot, x: int, firm: bool)
    requires Walked(was, z, x, firm) == Fits
    ensures Walk(was, Whole(z).t, x, firm)
    decreases Depth(z.q)
  {
    if z.q.Step? {
      WalkedUp(was, z, x, firm);
      WalkedWhole(was, Up(z), x, firm);
    }
  }

  lemma Recolored(was: Mem, t: Tree, c: Color, x: int, firm: bool)
    requires t.Bin? && Walk(was, t, x, firm)
    ensures Walk(was, t.(color := c), x, firm)
  {
  }

  // ---------------------------------------------------------------- rb_insert_color

  lemma LiftedTraced(was: Mem, z: Spot, x: int)
    requires RedPair(z) && z.q.up.Step? && z.q.up.sib.Bin? && Traced(was, z, x) == Fits
    ensures Traced(was, Lifted(z), x) == Fits
  {
    assert PathKept(was, z.q.up);
    assert Kept(was, z.q.up.sib.(color := Black));
    assert Trail(was, Paint(Up(z), Black).t, x);
  }

  lemma SettledWalked(was: Mem, z: Spot, x: int)
    requires RedPair(z) && z.q.up.Step? && z.q.up.side == z.q.side && Traced(was, z, x) == Fits && z.t.Bin?
    ensures Walked(was, Up(Settled(z)), x, false) == Fits
  {
    assert PathKept(was, z.q.up);
    PathKeptIsNear(was, z.q.up.up);
    TrailIsWalk(was, z.t, x, false);
    var w := Settled(z);
    assert NearKept(was, w.q.sib);
  }

  lemma TurnedWalked(was: Mem, z: Spot, x: int)
    requires RedPair(z) && z.q.up.Step? && z.q.up.side != z.q.side && Traced(was, z, x) == Fits
    ensures RedPair(TurnedOut(z)) && Walked(was, Up(Settled(TurnedOut(z))), x, false) == Fits
  {
    assert PathKept(was, z.q.up);
    PathKeptIsNear(was, z.q.up.up);
    var top := Up(Settled(TurnedOut(z))).t;
    var l, r := z.t.left, z.t.right;
    KeptIsNear(was, l);
    KeptIsNear(was, r);
    if Trail(was, l, x) && Kept(was, r) {
      TrailIsWalk(was, l, x, false);
      assert Walk(was, top.left, x, false);
    } else if Kept(was, l) && Trail(was, r, x) {
      TrailIsWalk(was, r, x, false);
      assert Walk(was, top.right, x, false);
    }
  }

  // ---------------------------------------------------------------- __rb_erase_color

  lemma SibLoweredTraced(was: Mem, z: Spot, x: int)
    requires z.q.Step? && z.q.sib.Bin? && Near(z.q.sib, z.q.side).Bin? && Traced(was, z, x) == Fits
    ensures Traced(was, SibLowered(z), x) == Fits
  {
    var w := SibLowered(z);
    assert Kept(was, z.q.sib.left) && Kept(was, z.q.sib.right);
    assert w.q.up.up == z.q.up && PathKept(was, w.q.up);
  }

  lemma SibReddenedTraced(was: Mem, z: Spot, x: int)
    requires z.q.Step? && z.q.sib.Bin? && Traced(was, z, x) == Fits
    ensures Traced(was, SibReddened(z), x) == Fits
  {
    assert Kept(was, z.q.sib.(color := Red));
  }

  lemma MendedWalked(was: Mem, z: Spot, x: int)
    requires z.q.Step? && z.q.sib.Bin? && Near(z.q.sib, Flip(z.q.side)).Bin? && Traced(was, z, x) == Fits
    ensures Walked(was, Mended(z), x, true) == Fits
  {
    var w := Mended(z);
    var near, outer := Near(z.q.sib, z.q.side), Near(z.q.sib, Flip(z.q.side));
    assert Kept(was, near) && Kept(was, outer);
    KeptIsNear(was, near);
    assert NearKept(was, outer.(color := Black));
    PathKeptIsNear(was, z.q.up);
    if z.t.Bin? { TrailIsWalk(was, z.t, x, true); }
    assert Walk(was, Near(w.t, z.q.side), x, true);
  }

  lemma TurnedMendedWalked(was: Mem, z: Spot, x: int)
    requires z.q.Step? && z.q.sib.Bin? && Near(z.q.sib, z.q.side).Bin? && Traced(was, z, x) == Fits
    ensures var w := SibTurned(z);
      w.q.Step? && w.q.sib.Bin? && Near(w.q.sib, Flip(w.q.side)).Bin? && Walked(was, Mended(w), x, true) == Fits
  {
    var w := Mended(SibTurned(z));
    var near, outer := Near(z.q.sib, z.q.side), Near(z.q.sib, Flip(z.q.side));
    assert Kept(was, near) && Kept(was, outer);
    assert Kept(was, near.left) && Kept(was, near.right);
    KeptIsNear(was, near.left);
    KeptIsNear(was, near.right);
    PathKeptIsNear(was, z.q.up);
    if z.t.Bin? { TrailIsWalk(was, z.t, x, true); }
    assert Walk(was, Near(w.t, z.q.side), x, true);
    assert NearKept(was, Near(w.t, Flip(z.q.side)));
  }
}
