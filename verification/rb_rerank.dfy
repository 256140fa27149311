/** A node enters or leaves the in-order sequence: the ranks behind it move by one. */
module RbRerank {
  import opened RbShape
  import opened RbBalance
  import opened RbTrace

  /** Ranks from `i` on move by `d`. */
  function Mv(i: int, d: int, p: int): int { if p >= i then p + d else p }

  function MvCell(i: int, d: int, c: Cell): Cell {
    Cell(Mv(i, d, c.left), Mv(i, d, c.right), Mv(i, d, c.parent), c.color)
  }

  function MvTree(i: int, d: int, t: Tree): Tree {
    match t
    case Nil => Nil
    case Bin(l, k, c, r) => Bin(MvTree(i, d, l), Mv(i, d, k), c, MvTree(i, d, r))
  }

  function MvPath(i: int, d: int, q: Path): Path {
    match q
    case Top => Top
    case Step(up, s, k, c, sib, e) => Step(MvPath(i, d, up), s, Mv(i, d, k), c, MvTree(i, d, sib), Mv(i, d, e))
  }

  /** The cell of rank `j` in `m` is found, moved, in `m'`. */
  predicate Moves(m: Mem, m': Mem, i: int, d: int, j: int) {
    0 <= j < |m| && 0 <= Mv(i, d, j) < |m'| && m'[Mv(i, d, j)] == MvCell(i, d, m[j])
  }

  lemma PtrMoved(i: int, d: int, t: Tree)
    requires 0 <= i
    ensures Ptr(MvTree(i, d, t)) == Mv(i, d, Ptr(t))
  {
  }

  /** A subtree on one side of `i` moves as a whole. */
  lemma ShapeMoved(m: Mem, m': Mem, t: Tree, par: int, lo: int, hi: int, i: int, d: int, shift: bool)
    requires Shape(m, t, par, lo, hi) && 0 <= i && 0 <= i + d
    requires if shift then i <= lo else hi <= i
    requires forall j :: lo <= j < hi ==> Moves(m, m', i, d, j)
    ensures Shape(m', MvTree(i, d, t), Mv(i, d, par), if shift then lo + d else lo, if shift then hi + d else hi)
  {
    match t
    case Nil =>
    case Bin(l, k, c, r) =>
      ShapeFrame(m, m, l, k, lo, k);
      ShapeFrame(m, m, r, k, k + 1, hi);
      ShapeMoved(m, m', l, k, lo, k, i, d, shift);
      ShapeMoved(m, m', r, k, k + 1, hi, i, d, shift);
      assert Moves(m, m', i, d, k);
      PtrMoved(i, d, l);
      PtrMoved(i, d, r);
  }

  /** The context of an interval around `i` moves. */
  lemma PathMoved(m: Mem, m': Mem, q: Path, p: int, root: int, lo: int, hi: int, i: int, d: int)
    requires PathShape(m, q, p, root, lo, hi) && |m'| == |m| + d
    requires 0 <= lo <= i <= hi && lo <= hi + d && 0 <= i + d
    requires forall j :: 0 <= j < |m| && !(lo <= j < hi) ==> Moves(m, m', i, d, j)
    ensures PathShape(m', MvPath(i, d, q), Mv(i, d, p), Mv(i, d, root), lo, hi + d)
  {
    match q
    case Top =>
    case Step(up, s, k, c, sib, e) =>
      assert Moves(m, m', i, d, k);
      PtrMoved(i, d, sib);
      assert Holder(MvPath(i, d, up)) == Mv(i, d, Holder(up));
      if s == Left {
        ShapeFrame(m, m, sib, k, k + 1, e);
        ShapeMoved(m, m', sib, k, k + 1, e, i, d, true);
        PathMoved(m, m', up, k, root, lo, e, i, d);
      } else {
        ShapeMoved(m, m', sib, k, e, k, i, d, false);
        PathMoved(m, m', up, k, root, e, hi, i, d);
      }
  }

  lemma BalancedMoved(i: int, d: int, t: Tree, h: int)
    requires Balanced(t, h)
    ensures Balanced(MvTree(i, d, t), h) && IsRed(MvTree(i, d, t)) == IsRed(t)
  {
  }

  lemma PathBalancedMoved(i: int, d: int, q: Path, h: int)
    requires PathBalanced(q, h)
    ensures PathBalanced(MvPath(i, d, q), h)
  {
    match q
    case Top =>
    case Step(up, _, _, c, sib, _) =>
      BalancedMoved(i, d, sib, h);
      PathBalancedMoved(i, d, up, h + Weight(c));
  }

  lemma KeptMoved(m: Mem, was: Mem, t: Tree, par: int, lo: int, hi: int, i: int, d: int)
    requires Shape(m, t, par, lo, hi)
    requires forall j :: lo <= j < hi ==> Moves(m, was, i, d, j)
    requires i >= 0
    ensures Kept(was, MvTree(i, d, t))
  {
    match t
    case Nil =>
    case Bin(l, k, c, r) =>
      ShapeFrame(m, m, l, k, lo, k);
      ShapeFrame(m, m, r, k, k + 1, hi);
      KeptMoved(m, was, l, k, lo, k, i, d);
      KeptMoved(m, was, r, k, k + 1, hi, i, d);
      assert Moves(m, was, i, d, k);
      PtrMoved(i, d, l);
      PtrMoved(i, d, r);
  }

  /** Node `j` is on the way from the root to the focus. */
  predicate OnPath(q: Path, j: int) { q.Step? && (q.k == j || OnPath(q.up, j)) }

  lemma OnPathOutside(m: Mem, q: Path, p: int, root: int, lo: int, hi: int, j: int)
    requires PathShape(m, q, p, root, lo, hi) && OnPath(q, j)
    ensures !(lo <= j < hi) && 0 <= j < |m|
  {
    if q.k != j {
      var lo', hi' := if q.side == Left then lo else q.edge, if q.side == Left then q.edge else hi;
      OnPathOutside(m, q.up, q.k, root, lo', hi', j);
    }
  }

  lemma PathKeptMoved(m: Mem, was: Mem, q: Path, p: int, root: int, lo: int, hi: int, i: int, d: int)
    requires PathShape(m, q, p, root, lo, hi) && i >= 0
    requires forall j :: 0 <= j < |m| && !(lo <= j < hi) && !OnPath(q, j) ==> Moves(m, was, i, d, j)
    ensures PathKept(was, MvPath(i, d, q))
  {
    if q.Step? {
      var k, lo', hi' := q.k, if q.side == Left then lo else q.edge, if q.side == Left then q.edge else hi;
      var a, b := if q.side == Left then k + 1 else q.edge, if q.side == Left then q.edge else k;
      ShapeFrame(m, m, q.sib, k, a, b);
      forall j | a <= j < b ensures Moves(m, was, i, d, j) {
        if OnPath(q.up, j) { OnPathOutside(m, q.up, k, root, lo', hi', j); }
      }
      KeptMoved(m, was, q.sib, k, a, b, i, d);
      PathKeptMoved(m, was, q.up, k, root, lo', hi', i, d);
    }
  }

  // ---------------------------------------------------------------- a leaf is linked

  /** `m` with a cell at rank `i` that no tree has. */
  function Inserted(m: Mem, i: int): Mem
    requires 0 <= i <= |m|
  {
    seq(|m| + 1, j requires 0 <= j < |m| + 1 =>
      if j < i then MvCell(i, 1, m[j]) else if j == i then Cell(-2, -2, -2, Red) else MvCell(i, 1, m[j - 1]))
  }

  lemma InsertedMoves(m: Mem, i: int)
    requires 0 <= i <= |m|
    ensures forall j :: 0 <= j < |m| ==> Moves(m, Inserted(m, i), i, 1, j)
  {
  }

  /** The cell of rank `j` once a red leaf of rank `i` hangs on side `s` of node `h` (-1: it is the root). */
  function LinkedCell(m: Mem, i: int, h: int, s: Side, j: int): Cell
    requires 0 <= i <= |m| && 0 <= j <= |m|
  {
    if j == i then Cell(-1, -1, Mv(i, 1, h), Red)
    else if h >= 0 && j == Mv(i, 1, h) then WithChild(Inserted(m, i)[j], s, i)
    else Inserted(m, i)[j]
  }

  function LeafSpot(z: Spot): Spot {
    Spot(Bin(Nil, z.lo, Red, Nil), MvPath(z.lo, 1, z.q), z.lo, z.lo + 1)
  }

  lemma LeafLinked(m: Mem, m': Mem, root: int, root': int, z: Spot)
    requires Linked(m, root, z) == Fits && z.t.Nil?
    requires 0 <= z.lo <= |m| && |m'| == |m| + 1 && root' == if z.q.Top? then z.lo else Mv(z.lo, 1, root)
    requires forall j :: 0 <= j < |m'| ==>
      (m'[j] == LinkedCell(m, z.lo, Holder(z.q), if z.q.Step? then z.q.side else Left, j))
    ensures Linked(m', root', LeafSpot(z)) == Fits
  {
    var i, w := z.lo, LeafSpot(z);
    var m1 := Inserted(m, i);
    Around(m, root, z);
    InsertedMoves(m, i);
    PathMoved(m, m1, z.q, -1, root, i, i, i, 1);
    assert Holder(w.q) == Mv(i, 1, Holder(z.q));
    Reslot(m1, m', w.q, -1, i, Mv(i, 1, root), root', i, i + 1);
    assert m'[i] == Cell(-1, -1, Holder(w.q), Red);
    assert Shape(m', Nil, i, i, i) && Shape(m', Nil, i, i + 1, i + 1);
  }

  lemma LeafLevel(z: Spot)
    requires Level(z, 0, 0) == Fits && z.t.Nil?
    ensures Level(LeafSpot(z), 0, 0) == Fits
  {
    PathBalancedMoved(z.lo, 1, z.q, 0);
  }

  lemma LeafTraced(m: Mem, root: int, z: Spot)
    requires Linked(m, root, z) == Fits && z.t.Nil? && 0 <= z.lo <= |m|
    ensures Traced(Inserted(m, z.lo), LeafSpot(z), z.lo) == Fits
  {
    InsertedMoves(m, z.lo);
    PathKeptMoved(m, Inserted(m, z.lo), z.q, -1, root, z.lo, z.lo, z.lo, 1);
  }

  // ---------------------------------------------------------------- a node is spliced out

  /** `m` without the cell of rank `p`. */
  function Removed(m: Mem, p: int): Mem
    requires 0 <= p < |m|
  {
    seq(|m| - 1, j requires 0 <= j < |m| - 1 => MvCell(p + 1, -1, m[if j < p then j else j + 1]))
  }

  lemma RemovedMoves(m: Mem, p: int, i: int)
    requires 0 <= p < |m| && i == p + 1
    ensures forall j :: 0 <= j < |m| && j != p ==> Moves(m, Removed(m, p), i, -1, j)
  {
  }

  function OnlyChild(c: Cell): int { if c.left == -1 then c.right else c.left }

  /** The cell of rank `i` once the only child of node `p` hangs where `p` did. */
  function BypassedCell(m: Mem, p: int, i: int): Cell
    requires WiredAt(m, p) && 0 <= i < |m|
  {
    var h, child := m[p].parent, OnlyChild(m[p]);
    if i == h then WithChild(m[i], if m[h].left == p then Left else Right, child)
    else if i == child then m[i].(parent := h)
    else m[i]
  }

  /** The cell of rank `j` once node `p` has also left the sequence. */
  function SplicedCell(m: Mem, p: int, j: int): Cell
    requires WiredAt(m, p) && 0 <= j < |m| - 1
  {
    MvCell(p + 1, -1, BypassedCell(m, p, if j < p then j else j + 1))
  }

  lemma BypassedUnlinked(m: Mem, p: int, i: int)
    requires Wired(m) && WiredAt(m, p) && (m[p].left == -1 || m[p].right == -1) && 0 <= i < |m| && i != p
    requires OnlyChild(m[p]) != -1 ==> OnlyChild(m[p]) != m[p].parent
    ensures var c := BypassedCell(m, p, i); -1 <= c.left != p && -1 <= c.right != p && -1 <= c.parent != p
  {
    assert WiredAt(m, i);
  }

  function Child(t: Tree): Tree
    requires t.Bin?
  {
    if t.left.Nil? then t.right else t.left
  }

  function SplicedSpot(z: Spot): Spot
    requires z.t.Bin?
  {
    Spot(MvTree(z.t.k + 1, -1, Child(z.t)), MvPath(z.t.k + 1, -1, z.q), z.lo, z.hi - 1)
  }

  lemma SplicedParts(m: Mem, m': Mem, root: int, z: Spot)
    requires Linked(m, root, z) == Fits && z.t.Bin? && (z.t.left.Nil? || z.t.right.Nil?)
    requires |m'| == |m| - 1 && WiredAt(m, z.t.k)
    requires forall j :: 0 <= j < |m'| ==> m'[j] == SplicedCell(m, z.t.k, j)
    ensures var m1, w := Removed(m, z.t.k), SplicedSpot(z);
      && (forall j :: w.lo <= j < w.hi && 0 <= j < |m'| ==>
        (m'[j] == if w.t.Bin? && j == w.t.k then m1[j].(parent := Holder(w.q)) else m1[j]))
      && (forall j :: 0 <= j < |m'| && !(w.lo <= j < w.hi) ==>
        (m'[j] == if w.q.Step? && j == w.q.k then WithChild(m1[j], w.q.side, Ptr(w.t)) else m1[j]))
  {
    var p, w := z.t.k, SplicedSpot(z);
    Around(m, root, z);
    PtrMoved(p + 1, -1, Child(z.t));
    assert Shape(m, z.t.left, p, z.lo, p) && Shape(m, z.t.right, p, p + 1, z.hi);
    assert OnlyChild(m[p]) == Ptr(Child(z.t));
    assert Holder(w.q) == Mv(p + 1, -1, Holder(z.q));
    forall j | 0 <= j < |m'|
      ensures m'[j] == MvCell(p + 1, -1, BypassedCell(m, p, if j < p then j else j + 1))
      ensures Removed(m, p)[j] == MvCell(p + 1, -1, m[if j < p then j else j + 1])
    {
    }
  }

  lemma MovedParts(m: Mem, root: int, z: Spot)
    requires Linked(m, root, z) == Fits && z.t.Bin? && (z.t.left.Nil? || z.t.right.Nil?) && 0 <= z.t.k < |m|
    ensures var m1, i, w := Removed(m, z.t.k), z.t.k + 1, SplicedSpot(z);
      && Shape(m1, w.t, Mv(i, -1, z.t.k), w.lo, w.hi)
      && PathShape(m1, w.q, Mv(i, -1, z.t.k), Mv(i, -1, root), w.lo, w.hi)
      && Ptr(w.t) == Mv(i, -1, Ptr(Child(z.t))) && w.q.Top? == z.q.Top?
  {
    var p, i, child := z.t.k, z.t.k + 1, Child(z.t);
    var m1 := Removed(m, p);
    Around(m, root, z);
    assert Shape(m, z.t.left, p, z.lo, p) && Shape(m, z.t.right, p, p + 1, z.hi);
    RemovedMoves(m, p, i);
    PathMoved(m, m1, z.q, p, root, z.lo, z.hi, i, -1);
    PtrMoved(i, -1, child);
    if z.t.left.Nil? {
      ShapeMoved(m, m1, child, p, p + 1, z.hi, i, -1, true);
    } else {
      ShapeMoved(m, m1, child, p, z.lo, p, i, -1, false);
    }
  }

  lemma SplicedLinked(m: Mem, m': Mem, root: int, root': int, z: Spot)
    requires Linked(m, root, z) == Fits && z.t.Bin? && (z.t.left.Nil? || z.t.right.Nil?)
    requires |m'| == |m| - 1 && WiredAt(m, z.t.k)
    requires root' == Mv(z.t.k + 1, -1, if z.q.Top? then Ptr(Child(z.t)) else root)
    requires forall j :: 0 <= j < |m'| ==> m'[j] == SplicedCell(m, z.t.k, j)
    ensures Linked(m', root', SplicedSpot(z)) == Fits
  {
    var p, i, w := z.t.k, z.t.k + 1, SplicedSpot(z);
    var m1 := Removed(m, p);
    MovedParts(m, root, z);
    SplicedParts(m, m', root, z);
    Rehang(m1, m', w.t, Mv(i, -1, p), Holder(w.q), w.lo, w.hi);
    Reslot(m1, m', w.q, Mv(i, -1, p), Ptr(w.t), Mv(i, -1, root), root', w.lo, w.hi);
  }

  /** Splicing out a red node leaves all even; splicing out a black one leaves its place short. */
  lemma SplicedLevel(z: Spot, h: int)
    requires Level(z, h, 0) == Fits && z.t.Bin? && (z.t.left.Nil? || z.t.right.Nil?)
    ensures z.t.color == Red ==> Level(SplicedSpot(z), h, 0) == Fits && SplicedSpot(z).t.Nil?
    ensures z.t.color == Black ==> Short(SplicedSpot(z), h - 1) == Fits
  {
    var i := z.t.k + 1;
    PathBalancedMoved(i, -1, z.q, h);
    BalancedMoved(i, -1, Child(z.t), h - Weight(z.t.color));
    if z.t.color == Red {
      BlackHasHeight(z.t.left, h);
      BlackHasHeight(z.t.right, h);
    }
  }

  /** The node from which the summaries have to be renewed once `p` is spliced out: its child or, failing
      that, its parent. */
  function Deepest(m: Mem, p: int): int
    requires 0 <= p < |m|
  {
    Mv(p + 1, -1, if OnlyChild(m[p]) != -1 then OnlyChild(m[p]) else m[p].parent)
  }

  /** All but the way from the root to the spliced node, as it was before. */
  predicate Before(m: Mem, was: Mem, p: int, q: Path) {
    forall j :: 0 <= j < |m| && j != p && !OnPath(q, j) ==> Moves(m, was, p + 1, -1, j)
  }

  lemma SplicedTraced(m: Mem, was: Mem, root: int, z: Spot)
    requires Linked(m, root, z) == Fits && z.t.Bin? && (z.t.left.Nil? || z.t.right.Nil?) && 0 <= z.t.k < |m|
    requires Before(m, was, z.t.k, z.q)
    ensures var w := SplicedSpot(z); w.t.Bin? || w.q.Step? ==> Traced(was, w, Deepest(m, z.t.k)) == Fits
  {
    var p, i := z.t.k, z.t.k + 1;
    Around(m, root, z);
    assert Shape(m, z.t.left, p, z.lo, p) && Shape(m, z.t.right, p, p + 1, z.hi);
    PathKeptMoved(m, was, z.q, p, root, z.lo, z.hi, i, -1);
    forall j | z.lo <= j < z.hi && j != p ensures Moves(m, was, i, -1, j) {
      if OnPath(z.q, j) { OnPathOutside(m, z.q, p, root, z.lo, z.hi, j); }
    }
    KeptMoved(m, was, z.t.left, p, z.lo, p, i, -1);
    KeptMoved(m, was, z.t.right, p, p + 1, z.hi, i, -1);
    PtrMoved(i, -1, Child(z.t));
  }

  // ---------------------------------------------------------------- the successor takes a node's place

  /** Node `k` has two children, and `p`, the node behind it, is the leftmost one below its right child. */
  predicate CanSupplant(m: Mem, k: int, p: int) {
    && p == k + 1 && WiredAt(m, k) && WiredAt(m, p) && m[k].left >= 0 && m[k].right >= 0 && m[p].left == -1
    && var l, r, g, h, c := m[k].left, m[k].right, m[k].parent, m[p].parent, m[p].right;
    && l < k && r > k && (if h == k then r == p else r > p && h > p && m[h].left == p)
    && (c == -1 || (c > p && c != h)) && (g == -1 || (g != l && g != r && g != h && g != c && g != p))
  }

  /** The cell of node `i` once `p` has taken the place and the color of `k`, and its right child the place of `p`. */
  function SupplantedCell(m: Mem, k: int, p: int, i: int): Cell
    requires CanSupplant(m, k, p) && 0 <= i < |m|
  {
    var g, h, c := m[k].parent, m[p].parent, m[p].right;
    if i == p then m[k].(right := if h == k then c else m[k].right)
    else if i == g then WithChild(m[i], if m[g].left == k then Left else Right, p)
    else
      var here := if i == h then m[i].(left := c) else m[i];
      if i == m[k].left || i == m[k].right then here.(parent := p)
      else if i == c then here.(parent := if h == k then p else h)
      else here
  }

  /** The three steps of that: the cell of node `i` once the slot that held `k` holds `p`; */
  function ReseatedCell(m: Mem, k: int, p: int, i: int): Cell
    requires WiredAt(m, k) && 0 <= i < |m|
  {
    if i == m[k].parent then WithChild(m[i], if m[i].left == k then Left else Right, p) else m[i]
  }

  /** once `c` hangs in the place of `p` below `h`, and the right subtree of `k` below `p`; */
  function LiftedOutCell(m: Mem, k: int, p: int, h: int, c: int, i: int): Cell
    requires 0 <= k < |m| && 0 <= i < |m|
  {
    if i == p then m[i].(right := m[k].right)
    else
      var here := if i == h then m[i].(left := c) else m[i];
      if i == m[k].right then here.(parent := p) else if i == c then here.(parent := h) else here
  }

  /** and once `p` has the parent, the color and the left subtree of `k`. */
  function PlacedCell(m: Mem, k: int, p: int, i: int): Cell
    requires 0 <= k < |m| && 0 <= i < |m|
  {
    if i == p then m[k].(right := m[i].right) else if i == m[k].left then m[i].(parent := p) else m[i]
  }

  lemma SupplantedInSteps(m: Mem, m1: Mem, m2: Mem, m3: Mem, k: int, p: int, i: int)
    requires Wired(m) && CanSupplant(m, k, p) && |m| == |m1| == |m2| == |m3| && 0 <= i < |m| && i != k
    requires forall j :: 0 <= j < |m| ==> m1[j] == ReseatedCell(m, k, p, j)
    requires forall j :: 0 <= j < |m| ==>
      (m2[j] == if m[p].parent == k then m1[j] else LiftedOutCell(m1, k, p, m[p].parent, m[p].right, j))
    requires forall j :: 0 <= j < |m| ==> m3[j] == PlacedCell(m2, k, p, j)
    ensures m3[i] == SupplantedCell(m, k, p, i)
  {
    assert m[k].parent >= 0 ==> WiredAt(m, m[k].parent);
    assert m2[k] == m1[k] == m[k];
    assert m1[i] == ReseatedCell(m, k, p, i);
    assert m1[p] == m[p];
  }

  lemma SupplantedUnlinked(m: Mem, k: int, p: int, i: int)
    requires Wired(m) && CanSupplant(m, k, p) && 0 <= i < |m| && i != k
    ensures var c := SupplantedCell(m, k, p, i); -1 <= c.left != k && -1 <= c.right != k && -1 <= c.parent != k
  {
    assert WiredAt(m, i);
  }

  /** Taking a node's place and leaving its own comes, rank by rank, to splicing the successor out. */
  lemma SupplantedIsSpliced(m: Mem, k: int, p: int, j: int)
    requires Wired(m) && CanSupplant(m, k, p) && 0 <= j < |m| - 1
    ensures MvCell(k + 1, -1, SupplantedCell(m, k, p, if j < k then j else j + 1)) == SplicedCell(m, p, j)
  {
    var i := if j < k then j else j + 1;
    assert WiredAt(m, i);
    if j != k { SameMove(m, k, p, i); }
  }

  /** Away from `k` and `p`: pointers to `k` become pointers to `p`, which takes over its rank. */
  lemma SameMove(m: Mem, k: int, p: int, i: int)
    requires WiredAt(m, i) && CanSupplant(m, k, p) && i != k && i != p
    ensures MvCell(k + 1, -1, SupplantedCell(m, k, p, i)) == MvCell(p + 1, -1, BypassedCell(m, p, i))
  {
  }

  /** Which rank rb_erase takes out of the tree to be rid of node `k`: its own, or its successor's. */
  function SplicePoint(m: Mem, k: int): int
    requires 0 <= k < |m|
  {
    if m[k].left == -1 || m[k].right == -1 then k else k + 1
  }

  /** The memory before node `k` is erased, in the ranks after it, with cells that no tree has for the
      nodes that lose or change a child: the parent of what is spliced out and, if that is the successor
      of `k`, the successor itself and the parent of `k`. */
  function BeforeErase(m: Mem, k: int): Mem
    requires 0 <= k < |m| && SplicePoint(m, k) < |m|
  {
    var p := SplicePoint(m, k);
    var r := Removed(m, p);
    seq(|r|, j requires 0 <= j < |r| => if Disturbed(m, k, p, j) then Cell(-2, -2, -2, Red) else r[j])
  }

  predicate Disturbed(m: Mem, k: int, p: int, j: int)
    requires 0 <= k < |m| && 0 <= p < |m|
  {
    j == Mv(p + 1, -1, m[p].parent) || (p != k && (j == k || j == Mv(p + 1, -1, m[k].parent)))
  }

  lemma BeforeEraseIs(m: Mem, root: int, k: int, z: Spot)
    requires Linked(m, root, z) == Fits && z.t.Bin? && 0 <= k < |m| && z.t.k == SplicePoint(m, k)
    requires z.t.k != k ==> OnPath(z.q, k) && (m[k].parent >= 0 ==> OnPath(z.q, m[k].parent))
    ensures SplicePoint(m, k) < |m| && Before(m, BeforeErase(m, k), z.t.k, z.q)
  {
    hide Shape, PathShape, Linked, BeforeErase, Removed, Moves;
    var p := z.t.k;
    Around(m, root, z);
    if p != k && m[k].parent >= 0 { NotOnPath(m, root, z, m[k].parent); }
    RemovedMoves(m, p, p + 1);
    forall j | 0 <= j < |m| && j != p && !OnPath(z.q, j) ensures Moves(m, BeforeErase(m, k), p + 1, -1, j) {
      NotDisturbed(m, k, p, j);
    }
  }

  /** What is off the way keeps its cell. */
  lemma NotDisturbed(m: Mem, k: int, p: int, j: int)
    requires 0 <= k < |m| && p == SplicePoint(m, k) < |m| && 0 <= j < |m| && j != p && j != m[p].parent
    requires p != k ==> j != k && j != m[k].parent && m[k].parent != p
    requires Moves(m, Removed(m, p), p + 1, -1, j) && m[p].parent != p
    ensures Moves(m, BeforeErase(m, k), p + 1, -1, j)
  {
    assert !Disturbed(m, k, p, Mv(p + 1, -1, j));
  }

  lemma NotOnPath(m: Mem, root: int, z: Spot, j: int)
    requires Linked(m, root, z) == Fits && OnPath(z.q, j) && z.t.Bin?
    ensures j != z.t.k
  {
    OnPathOutside(m, z.q, Ptr(z.t), root, z.lo, z.hi, j);
  }

  /** What splicing `z` out, to be rid of node `k`, leaves. */
  lemma SplicedAll(m: Mem, root: int, k: int, z: Spot, h: int)
    requires Linked(m, root, z) == Fits && Level(z, h, 0) == Fits && z.t.Bin? && (z.t.left.Nil? || z.t.right.Nil?)
    requires 0 <= k < |m| && z.t.k == SplicePoint(m, k)
    requires z.t.k != k ==> OnPath(z.q, k) && (m[k].parent >= 0 ==> OnPath(z.q, m[k].parent))
    ensures z.t.color == Red ==> Level(SplicedSpot(z), h, 0) == Fits && SplicedSpot(z).t.Nil?
    ensures z.t.color == Black ==> Short(SplicedSpot(z), h - 1) == Fits
    ensures 0 <= SplicePoint(m, k) < |m| && var w := SplicedSpot(z);
      w.t.Bin? || w.q.Step? ==> Traced(BeforeErase(m, k), w, Deepest(m, SplicePoint(m, k))) == Fits
  {
    hide Linked, Level, Short, Traced, Before;
    SplicedLevel(z, h);
    BeforeEraseIs(m, root, k, z);
    assert 0 <= z.t.k < |m| by { Around(m, root, z); }
    SplicedTraced(m, BeforeErase(m, k), root, z);
  }
}
