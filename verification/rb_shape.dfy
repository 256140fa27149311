/** The pure model under the red-black tree of src/rbtree.c.

    A node is named by its rank, its position in the in-order sequence.  A `Mem` holds, rank by
    rank, what the four fields of the node say; a `Tree` and a `Path` (the context of a focused
    subtree, up to the root) say how those fields hang together.  Every subtree covers an
    interval of ranks, so that separation of subtrees is arithmetic, and a tree that covers
    [0, n) has exactly the in-order sequence it is numbered by. */
module RbShape {

  datatype Color = Red | Black
  datatype Side = Left | Right

  datatype Tree = Nil | Bin(left: Tree, k: int, color: Color, right: Tree)

  /** The context of a subtree, innermost frame first: the frame's node has rank `k`, the focus is
      its child on `side`, `sib` is the other child, which reaches out to `edge`. */
  datatype Path = Top | Step(up: Path, side: Side, k: int, color: Color, sib: Tree, edge: int)

  /** A subtree `t` covering [lo, hi), in its context. */
  datatype Spot = Spot(t: Tree, q: Path, lo: int, hi: int)

  /** The fields of one node; pointers are ranks, -1 is NULL. */
  datatype Cell = Cell(left: int, right: int, parent: int, color: Color)
  type Mem = seq<Cell>

  /** A verdict instead of a bool: the verifier then treats a fit as one fact and does not take
      it apart wherever it is asserted. */
  datatype Fit = Fits | Misfit

  function Ptr(t: Tree): int { if t.Nil? then -1 else t.k }
  function Holder(q: Path): int { if q.Top? then -1 else q.k }
  function Depth(q: Path): nat { if q.Top? then 0 else 1 + Depth(q.up) }
  predicate IsRed(t: Tree) { t.Bin? && t.color == Red }

  // ---------------------------------------------------------------- memory and tree agree

  predicate Shape(m: Mem, t: Tree, par: int, lo: int, hi: int) {
    match t
    case Nil => lo == hi
    case Bin(l, k, c, r) => (
      && 0 <= lo <= k < hi <= |m| && m[k] == Cell(Ptr(l), Ptr(r), par, c)
      && Shape(m, l, k, lo, k) && Shape(m, r, k, k + 1, hi))
  }

  predicate PathShape(m: Mem, q: Path, p: int, root: int, lo: int, hi: int) {
    match q
    case Top => p == root && lo == 0 && hi == |m|
    case Step(up, s, k, c, sib, e) => (
      if s == Left then
        && 0 <= lo <= hi == k < e <= |m| && m[k] == Cell(p, Ptr(sib), Holder(up), c)
        && Shape(m, sib, k, k + 1, e) && PathShape(m, up, k, root, lo, e)
      else
        && 0 <= e <= k < lo == k + 1 <= hi <= |m| && m[k] == Cell(Ptr(sib), p, Holder(up), c)
        && Shape(m, sib, k, e, k) && PathShape(m, up, k, root, e, hi))
  }

  function Linked(m: Mem, root: int, z: Spot): Fit {
    if Shape(m, z.t, Holder(z.q), z.lo, z.hi) && PathShape(m, z.q, Ptr(z.t), root, z.lo, z.hi) then Fits else Misfit
  }

  lemma ShapeFrame(m: Mem, m': Mem, t: Tree, par: int, lo: int, hi: int)
    requires Shape(m, t, par, lo, hi) && |m| == |m'|
    requires forall i :: 0 <= lo <= i < hi <= |m| ==> m'[i] == m[i]
    ensures Shape(m', t, par, lo, hi) && lo <= hi
  {
  }

  lemma PathFrame(m: Mem, m': Mem, q: Path, p: int, root: int, lo: int, hi: int)
    requires PathShape(m, q, p, root, lo, hi) && |m| == |m'|
    requires forall i :: 0 <= i < |m| && !(lo <= i < hi) ==> m'[i] == m[i]
    ensures PathShape(m', q, p, root, lo, hi)
  {
    match q
    case Top =>
    case Step(up, s, k, c, sib, e) =>
      if s == Left {
        ShapeFrame(m, m', sib, k, k + 1, e);
        PathFrame(m, m', up, k, root, lo, e);
      } else {
        ShapeFrame(m, m', sib, k, e, k);
        PathFrame(m, m', up, k, root, e, hi);
      }
  }

  function WithChild(c: Cell, s: Side, p: int): Cell {
    if s == Left then c.(left := p) else c.(right := p)
  }

  /** A subtree keeps its shape when only its root is given another parent and color. */
  lemma Rehang(m: Mem, m': Mem, t: Tree, was: int, par: int, lo: int, hi: int)
    requires Shape(m, t, was, lo, hi) && |m| == |m'|
    requires forall i :: 0 <= lo <= i < hi <= |m| ==> m'[i] == if t.Bin? && i == t.k then m[i].(parent := par) else m[i]
    ensures Shape(m', t, par, lo, hi)
  {
    if t.Bin? {
      ShapeFrame(m, m', t.left, t.k, lo, t.k);
      ShapeFrame(m, m', t.right, t.k, t.k + 1, hi);
    }
  }

  /** A context keeps its shape when only the slot that holds the focus is given another pointer. */
  lemma Reslot(m: Mem, m': Mem, q: Path, was: int, p: int, root: int, root': int, lo: int, hi: int)
    requires PathShape(m, q, was, root, lo, hi) && |m| == |m'|
    requires root' == if q.Top? then p else root
    requires forall i :: 0 <= i < |m| && !(lo <= i < hi) ==>
      m'[i] == if q.Step? && i == q.k then WithChild(m[i], q.side, p) else m[i]
    ensures PathShape(m', q, p, root', lo, hi)
  {
    match q
    case Top =>
    case Step(up, s, k, c, sib, e) =>
      if s == Left {
        ShapeFrame(m, m', sib, k, k + 1, e);
        PathFrame(m, m', up, k, root, lo, e);
      } else {
        ShapeFrame(m, m', sib, k, e, k);
        PathFrame(m, m', up, k, root, e, hi);
      }
  }

  // ---------------------------------------------------------------- moving the focus

  function Up(z: Spot): Spot
    requires z.q.Step?
  {
    if z.q.side == Left then Spot(Bin(z.t, z.q.k, z.q.color, z.q.sib), z.q.up, z.lo, z.q.edge)
    else Spot(Bin(z.q.sib, z.q.k, z.q.color, z.t), z.q.up, z.q.edge, z.hi)
  }

  function Down(z: Spot, s: Side): Spot
    requires z.t.Bin?
  {
    if s == Left then Spot(z.t.left, Step(z.q, Left, z.t.k, z.t.color, z.t.right, z.hi), z.lo, z.t.k)
    else Spot(z.t.right, Step(z.q, Right, z.t.k, z.t.color, z.t.left, z.lo), z.t.k + 1, z.hi)
  }

  lemma UpLinked(m: Mem, root: int, z: Spot)
    requires Linked(m, root, z) == Fits && z.q.Step?
    ensures Linked(m, root, Up(z)) == Fits
  {
  }

  lemma DownLinked(m: Mem, root: int, z: Spot, s: Side)
    requires Linked(m, root, z) == Fits && z.t.Bin?
    ensures Linked(m, root, Down(z, s)) == Fits
  {
    ShapeFrame(m, m, z.t.left, z.t.k, z.lo, z.t.k);
    ShapeFrame(m, m, z.t.right, z.t.k, z.t.k + 1, z.hi);
  }

  /** What the fields around the focus say. */
  lemma Around(m: Mem, root: int, z: Spot)
    requires Linked(m, root, z) == Fits
    ensures z.t.Bin? ==>
      (0 <= z.lo <= z.t.k < z.hi <= |m| && m[z.t.k] == Cell(Ptr(z.t.left), Ptr(z.t.right), Holder(z.q), z.t.color))
    ensures z.t.Bin? && z.t.left.Bin? ==> z.lo <= z.t.left.k < z.t.k
    ensures z.t.Bin? && z.t.right.Bin? ==> z.t.k < z.t.right.k < z.hi
    ensures z.q.Top? ==> Ptr(z.t) == root && z.lo == 0 && z.hi == |m|
    ensures z.q.Step? ==>
      (0 <= z.q.k < |m| && !(z.lo <= z.q.k < z.hi) && -1 <= Holder(z.q.up) < |m| && m[z.q.k].parent == Holder(z.q.up)
      && m[z.q.k].color == z.q.color)
    ensures z.q.Step? && z.q.side == Left ==> m[z.q.k].left == Ptr(z.t) && m[z.q.k].right == Ptr(z.q.sib)
    ensures z.q.Step? && z.q.side == Right ==> m[z.q.k].right == Ptr(z.t) && m[z.q.k].left == Ptr(z.q.sib)
    ensures z.q.Step? && z.q.sib.Bin? ==> 0 <= z.q.sib.k < |m| && !(z.lo <= z.q.sib.k < z.hi)
  {
    if z.t.Bin? {
      assert Shape(m, z.t.left, z.t.k, z.lo, z.t.k);
      assert Shape(m, z.t.right, z.t.k, z.t.k + 1, z.hi);
    }
    if z.q.Step? {
      var u := Up(z);
      assert PathShape(m, z.q.up, z.q.k, root, u.lo, u.hi);
      assert if z.q.side == Left then Shape(m, z.q.sib, z.q.k, z.q.k + 1, z.q.edge)
        else Shape(m, z.q.sib, z.q.k, z.q.edge, z.q.k);
    }
  }

  // ---------------------------------------------------------------- links agree

  /** Node `j`: its pointers lead to other nodes or are NULL, its children point back to it, and it is
      a child of its parent. */
  predicate WiredAt(m: Mem, j: int) {
    && 0 <= j < |m| && -1 <= m[j].left < |m| && -1 <= m[j].right < |m| && -1 <= m[j].parent < |m|
    && m[j].left != j && m[j].right != j && m[j].parent != j && (m[j].left == m[j].right ==> m[j].left == -1)
    && (m[j].left >= 0 ==> m[m[j].left].parent == j) && (m[j].right >= 0 ==> m[m[j].right].parent == j)
    && (m[j].parent >= 0 ==> m[m[j].parent].left == j || m[m[j].parent].right == j)
  }

  predicate Wired(m: Mem) { forall j :: 0 <= j < |m| ==> WiredAt(m, j) }

  lemma {:induction false} ShapeWired(m: Mem, t: Tree, par: int, lo: int, hi: int)
    requires Shape(m, t, par, lo, hi) && -1 <= par < |m| && !(lo <= par < hi)
    requires t.Bin? && par >= 0 ==> m[par].left == t.k || m[par].right == t.k
    ensures forall j :: lo <= j < hi ==> WiredAt(m, j)
  {
    match t
    case Nil =>
    case Bin(l, k, _, r) =>
      ShapeFrame(m, m, l, k, lo, k);
      ShapeFrame(m, m, r, k, k + 1, hi);
      ShapeWired(m, l, k, lo, k);
      ShapeWired(m, r, k, k + 1, hi);
      assert WiredAt(m, k);
  }

  // ---------------------------------------------------------------- recoloring and rotating

  lemma RecolorLinked(m: Mem, m': Mem, root: int, z: Spot, c: Color)
    requires Linked(m, root, z) == Fits && z.t.Bin?
    requires |m'| == |m| && forall i :: 0 <= i < |m| ==> m'[i] == if i == z.t.k then m[i].(color := c) else m[i]
    ensures Linked(m', root, Paint(z, c)) == Fits
  {
    ShapeFrame(m, m', z.t.left, z.t.k, z.lo, z.t.k);
    ShapeFrame(m, m', z.t.right, z.t.k, z.t.k + 1, z.hi);
    PathFrame(m, m', z.q, z.t.k, root, z.lo, z.hi);
  }

  function Flip(s: Side): Side { if s == Left then Right else Left }

  function Paint(z: Spot, c: Color): Spot
    requires z.t.Bin?
  {
    z.(t := z.t.(color := c))
  }

  function PaintHolder(z: Spot, c: Color): Spot
    requires z.q.Step?
  {
    z.(q := z.q.(color := c))
  }

  function PaintSib(z: Spot, c: Color): Spot
    requires z.q.Step? && z.q.sib.Bin?
  {
    z.(q := z.q.(sib := z.q.sib.(color := c)))
  }

  lemma RecolorHolderLinked(m: Mem, m': Mem, root: int, z: Spot, c: Color)
    requires Linked(m, root, z) == Fits && z.q.Step?
    requires |m'| == |m| && forall i :: 0 <= i < |m| ==> m'[i] == if i == z.q.k then m[i].(color := c) else m[i]
    ensures Linked(m', root, PaintHolder(z, c)) == Fits
  {
    UpLinked(m, root, z);
    RecolorLinked(m, m', root, Up(z), c);
    DownLinked(m', root, Paint(Up(z), c), z.q.side);
  }

  lemma RecolorSibLinked(m: Mem, m': Mem, root: int, z: Spot, c: Color)
    requires Linked(m, root, z) == Fits && z.q.Step? && z.q.sib.Bin?
    requires |m'| == |m| && forall i :: 0 <= i < |m| ==> m'[i] == if i == z.q.sib.k then m[i].(color := c) else m[i]
    ensures Linked(m', root, PaintSib(z, c)) == Fits
  {
    UpLinked(m, root, z);
    var y := Down(Up(z), Flip(z.q.side));
    DownLinked(m, root, Up(z), Flip(z.q.side));
    RecolorLinked(m, m', root, y, c);
    UpLinked(m', root, Paint(y, c));
    DownLinked(m', root, Up(Paint(y, c)), z.q.side);
  }

  function RotL(t: Tree): Tree
    requires t.Bin? && t.right.Bin?
  {
    Bin(Bin(t.left, t.k, t.color, t.right.left), t.right.k, t.right.color, t.right.right)
  }

  function RotR(t: Tree): Tree
    requires t.Bin? && t.left.Bin?
  {
    Bin(t.left.left, t.left.k, t.left.color, Bin(t.left.right, t.k, t.color, t.right))
  }

  /** The fields let node `n` be rotated left: its right child, that child's left child and its
      parent are other nodes, or NULL where that is allowed. */
  predicate CanTurnLeft(m: Mem, n: int) {
    && 0 <= n < |m| && 0 <= m[n].right < |m| && -1 <= m[n].parent < |m| && -1 <= m[m[n].right].left < |m|
    && var c, h := m[n].right, m[n].parent;
    && var b := m[c].left;
    && c != n && h != n && h != c && b != n && b != c && (b == h ==> b == -1)
    && (h != -1 ==> (m[h].left == n) != (m[h].right == n))
  }

  /** The cell of rank `i` once node `n` has been rotated left. */
  function TurnedLeft(m: Mem, n: int, i: int): Cell
    requires CanTurnLeft(m, n) && 0 <= i < |m|
  {
    var c, h := m[n].right, m[n].parent;
    var b := m[c].left;
    if i == n then m[i].(right := b, parent := c)
    else if i == c then m[i].(left := n, parent := h)
    else if i == b then m[i].(parent := n)
    else if i == h then WithChild(m[i], if m[h].left == n then Left else Right, c)
    else m[i]
  }

  /** The fields let node `n` be rotated right: its left child, that child's right child and its
      parent are other nodes, or NULL where that is allowed. */
  predicate CanTurnRight(m: Mem, n: int) {
    && 0 <= n < |m| && 0 <= m[n].left < |m| && -1 <= m[n].parent < |m| && -1 <= m[m[n].left].right < |m|
    && var c, h := m[n].left, m[n].parent;
    && var b := m[c].right;
    && c != n && h != n && h != c && b != n && b != c && (b == h ==> b == -1)
    && (h != -1 ==> (m[h].left == n) != (m[h].right == n))
  }

  /** The cell of rank `i` once node `n` has been rotated right. */
  function TurnedRight(m: Mem, n: int, i: int): Cell
    requires CanTurnRight(m, n) && 0 <= i < |m|
  {
    var c, h := m[n].left, m[n].parent;
    var b := m[c].right;
    if i == n then m[i].(left := b, parent := c)
    else if i == c then m[i].(right := n, parent := h)
    else if i == b then m[i].(parent := n)
    else if i == h then WithChild(m[i], if m[h].left == n then Left else Right, c)
    else m[i]
  }

  /** Halfway through a rotation to the left: node `n` has taken over the inner subtree and hangs below its child. */
  function SunkLeft(m: Mem, n: int, i: int): Cell
    requires CanTurnLeft(m, n) && 0 <= i < |m|
  {
    var c := m[n].right;
    if i == n then m[i].(right := m[c].left)
    else if i == c then m[i].(left := n)
    else if i == m[c].left then m[i].(parent := n)
    else m[i]
  }

  /** Halfway through a rotation to the right. */
  function SunkRight(m: Mem, n: int, i: int): Cell
    requires CanTurnRight(m, n) && 0 <= i < |m|
  {
    var c := m[n].left;
    if i == n then m[i].(left := m[c].right)
    else if i == c then m[i].(right := n)
    else if i == m[c].right then m[i].(parent := n)
    else m[i]
  }

  /** The second half: `c` takes the place of `n` below `h`, and `n` gets `c` as its parent. */
  function Risen(m: Mem, n: int, c: int, h: int, i: int): Cell
    requires 0 <= i < |m|
  {
    if i == n then m[i].(parent := c)
    else if i == c then m[i].(parent := h)
    else if i == h then WithChild(m[i], if m[h].left == n then Left else Right, c)
    else m[i]
  }

  lemma TurnedLeftInSteps(m: Mem, m1: Mem, n: int, i: int)
    requires CanTurnLeft(m, n) && |m1| == |m| && 0 <= i < |m|
    requires forall j :: 0 <= j < |m| ==> m1[j] == SunkLeft(m, n, j)
    ensures Risen(m1, n, m[n].right, m[n].parent, i) == TurnedLeft(m, n, i)
  {
    assert m1[i] == SunkLeft(m, n, i);
  }

  lemma TurnedRightInSteps(m: Mem, m1: Mem, n: int, i: int)
    requires CanTurnRight(m, n) && |m1| == |m| && 0 <= i < |m|
    requires forall j :: 0 <= j < |m| ==> m1[j] == SunkRight(m, n, j)
    ensures Risen(m1, n, m[n].left, m[n].parent, i) == TurnedRight(m, n, i)
  {
    assert m1[i] == SunkRight(m, n, i);
  }

  lemma TurnLeftFacts(m: Mem, root: int, z: Spot)
    requires z.t.Bin? && z.t.right.Bin? && Linked(m, root, z) == Fits
    ensures CanTurnLeft(m, z.t.k) && m[z.t.k].right == z.t.right.k
  {
    Around(m, root, z);
    assert Shape(m, z.t.right, z.t.k, z.t.k + 1, z.hi);
    assert Shape(m, z.t.right.left, z.t.right.k, z.t.k + 1, z.t.right.k);
  }

  lemma TurnRightFacts(m: Mem, root: int, z: Spot)
    requires z.t.Bin? && z.t.left.Bin? && Linked(m, root, z) == Fits
    ensures CanTurnRight(m, z.t.k) && m[z.t.k].left == z.t.left.k
  {
    Around(m, root, z);
    assert Shape(m, z.t.left, z.t.k, z.lo, z.t.k);
    assert Shape(m, z.t.left.right, z.t.left.k, z.t.left.k + 1, z.t.k);
  }

  lemma RotLShape(m: Mem, m': Mem, root: int, z: Spot)
    requires z.t.Bin? && z.t.right.Bin? && Linked(m, root, z) == Fits
    requires CanTurnLeft(m, z.t.k) && |m'| == |m| && forall i :: 0 <= i < |m| ==> m'[i] == TurnedLeft(m, z.t.k, i)
    ensures Shape(m', RotL(z.t), Holder(z.q), z.lo, z.hi)
  {
    var n, u, r := z.t.k, z.t.right, z.t.right.k;
    Around(m, root, z);
    assert Shape(m, u, n, n + 1, z.hi);
    assert Shape(m, u.left, r, n + 1, r);
    assert Shape(m', z.t.left, n, z.lo, n) by { ShapeFrame(m, m', z.t.left, n, z.lo, n); }
    assert Shape(m', u.right, r, r + 1, z.hi) by { ShapeFrame(m, m', u.right, r, r + 1, z.hi); }
    assert Shape(m', u.left, n, n + 1, r) by { Rehang(m, m', u.left, r, n, n + 1, r); }
    assert Shape(m', Bin(z.t.left, n, z.t.color, u.left), r, z.lo, r);
  }

  lemma RotLPath(m: Mem, m': Mem, root: int, root': int, z: Spot)
    requires z.t.Bin? && z.t.right.Bin? && Linked(m, root, z) == Fits
    requires root' == if z.q.Top? then z.t.right.k else root
    requires CanTurnLeft(m, z.t.k) && |m'| == |m| && forall i :: 0 <= i < |m| ==> m'[i] == TurnedLeft(m, z.t.k, i)
    ensures PathShape(m', z.q, z.t.right.k, root', z.lo, z.hi)
  {
    var n, u, r := z.t.k, z.t.right, z.t.right.k;
    Around(m, root, z);
    assert Shape(m, u, n, n + 1, z.hi);
    assert Shape(m, u.left, r, n + 1, r);
    Reslot(m, m', z.q, n, r, root, root', z.lo, z.hi);
  }

  lemma RotLLinked(m: Mem, m': Mem, root: int, root': int, z: Spot)
    requires z.t.Bin? && z.t.right.Bin? && Linked(m, root, z) == Fits
    requires root' == if z.q.Top? then z.t.right.k else root
    requires CanTurnLeft(m, z.t.k) && |m'| == |m| && forall i :: 0 <= i < |m| ==> m'[i] == TurnedLeft(m, z.t.k, i)
    ensures Linked(m', root', z.(t := RotL(z.t))) == Fits
  {
    RotLShape(m, m', root, z);
    RotLPath(m, m', root, root', z);
  }

  lemma RotRShape(m: Mem, m': Mem, root: int, z: Spot)
    requires z.t.Bin? && z.t.left.Bin? && Linked(m, root, z) == Fits
    requires CanTurnRight(m, z.t.k) && |m'| == |m| && forall i :: 0 <= i < |m| ==> m'[i] == TurnedRight(m, z.t.k, i)
    ensures Shape(m', RotR(z.t), Holder(z.q), z.lo, z.hi)
  {
    var n, u, l := z.t.k, z.t.left, z.t.left.k;
    Around(m, root, z);
    assert Shape(m, u, n, z.lo, n);
    assert Shape(m, u.right, l, l + 1, n);
    assert Shape(m', z.t.right, n, n + 1, z.hi) by { ShapeFrame(m, m', z.t.right, n, n + 1, z.hi); }
    assert Shape(m', u.left, l, z.lo, l) by { ShapeFrame(m, m', u.left, l, z.lo, l); }
    assert Shape(m', u.right, n, l + 1, n) by { Rehang(m, m', u.right, l, n, l + 1, n); }
    assert Shape(m', Bin(u.right, n, z.t.color, z.t.right), l, l + 1, z.hi);
  }

  lemma RotRPath(m: Mem, m': Mem, root: int, root': int, z: Spot)
    requires z.t.Bin? && z.t.left.Bin? && Linked(m, root, z) == Fits
    requires root' == if z.q.Top? then z.t.left.k else root
    requires CanTurnRight(m, z.t.k) && |m'| == |m| && forall i :: 0 <= i < |m| ==> m'[i] == TurnedRight(m, z.t.k, i)
    ensures PathShape(m', z.q, z.t.left.k, root', z.lo, z.hi)
  {
    var n, u, l := z.t.k, z.t.left, z.t.left.k;
    Around(m, root, z);
    assert Shape(m, u, n, z.lo, n);
    assert Shape(m, u.right, l, l + 1, n);
    Reslot(m, m', z.q, n, l, root, root', z.lo, z.hi);
  }

  lemma RotRLinked(m: Mem, m': Mem, root: int, root': int, z: Spot)
    requires z.t.Bin? && z.t.left.Bin? && Linked(m, root, z) == Fits
    requires root' == if z.q.Top? then z.t.left.k else root
    requires CanTurnRight(m, z.t.k) && |m'| == |m| && forall i :: 0 <= i < |m| ==> m'[i] == TurnedRight(m, z.t.k, i)
    ensures Linked(m', root', z.(t := RotR(z.t))) == Fits
  {
    RotRShape(m, m', root, z);
    RotRPath(m, m', root, root', z);
  }
}
