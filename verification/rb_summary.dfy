/** Summaries of subtrees, on the pure trees: which of them a repair can have made wrong, and why one
    walk to the root makes all of them right again. */
module RbSummary {
  import opened Distinct
  import opened RbShape
  import opened RbTrace
  import opened RbRerank
  import opened RbTree
  import opened RbErase
  import opened RbLink

  datatype Option<T> = None | Some(value: T)

  /** What a node's summary is made of: the node's own data and the summaries of its two children. */
  type Summarize<!S> = (Node, Option<S>, Option<S>) -> S

  /** The summaries on record, of the nodes of the sequence `s`. */
  datatype Book<!S> = Book(f: Summarize<S>, of: map<Node, S>, s: seq<Node>)

  function Val<S>(b: Book<S>, r: int): Option<S> {
    if 0 <= r < |b.s| && b.s[r] in b.of then Some(b.of[b.s[r]]) else None
  }

  /** The summary of the node of rank `i` is what it should be, given its children's. */
  ghost predicate CorrectAt<S>(b: Book<S>, i: int, left: int, right: int) {
    0 <= i < |b.s| && Val(b, i) == Some(b.f(b.s[i], Val(b, left), Val(b, right)))
  }

  /** Every node that has a cell in `was` has the right summary for the children it has there. */
  ghost predicate CorrectIn<S>(b: Book<S>, was: Mem) {
    |was| == |b.s| && forall i :: 0 <= i < |was| && was[i].left != -2 ==> CorrectAt(b, i, was[i].left, was[i].right)
  }

  ghost predicate Correct<S>(b: Book<S>, t: Tree) {
    t.Bin? ==> CorrectAt(b, t.k, Ptr(t.left), Ptr(t.right)) && Correct(b, t.left) && Correct(b, t.right)
  }

  ghost predicate NearCorrect<S>(b: Book<S>, t: Tree) { t.Bin? ==> Correct(b, t.left) && Correct(b, t.right) }

  ghost predicate PathNearCorrect<S>(b: Book<S>, q: Path) {
    q.Step? ==> NearCorrect(b, q.sib) && PathNearCorrect(b, q.up)
  }

  /** All that hangs off the way down to `x` is right, but for the roots of what hangs off. */
  ghost predicate Track<S>(b: Book<S>, t: Tree, x: int, firm: bool) {
    && t.Bin?
    && ((t.k == x && NearCorrect(b, t.left) && NearCorrect(b, t.right)
      && (firm ==> Correct(b, t.left) && Correct(b, t.right)))
        || (Track(b, t.left, x, firm) && NearCorrect(b, t.right))
        || (NearCorrect(b, t.left) && Track(b, t.right, x, firm)))
  }

  lemma {:induction false} KeptCorrect<S>(b: Book<S>, was: Mem, t: Tree)
    requires CorrectIn(b, was) && Kept(was, t)
    ensures Correct(b, t)
  {
    if t.Bin? {
      KeptCorrect(b, was, t.left);
      KeptCorrect(b, was, t.right);
    }
  }

  lemma NearKeptCorrect<S>(b: Book<S>, was: Mem, t: Tree)
    requires CorrectIn(b, was)
    ensures NearKept(was, t) ==> NearCorrect(b, t)
    ensures Kept(was, t) ==> Correct(b, t)
  {
    if t.Bin? && NearKept(was, t) {
      KeptCorrect(b, was, t.left);
      KeptCorrect(b, was, t.right);
    }
    if Kept(was, t) { KeptCorrect(b, was, t); }
  }

  /** A repair that keeps the children of all nodes off a way keeps their summaries right. */
  lemma {:induction false} WalkTrack<S>(b: Book<S>, was: Mem, t: Tree, x: int, firm: bool)
    requires CorrectIn(b, was) && Walk(was, t, x, firm)
    ensures Track(b, t, x, firm)
  {
    NearKeptCorrect(b, was, t.left);
    NearKeptCorrect(b, was, t.right);
    if t.left.Bin? && Walk(was, t.left, x, firm) { WalkTrack(b, was, t.left, x, firm); }
    if t.right.Bin? && Walk(was, t.right, x, firm) { WalkTrack(b, was, t.right, x, firm); }
  }

  /** Down that way to `x`. */
  lemma TrackDown<S>(b: Book<S>, m: Mem, root: int, z: Spot, x: int, firm: bool) returns (w: Spot)
    requires Linked(m, root, z) == Fits && Track(b, z.t, x, firm) && PathNearCorrect(b, z.q)
    ensures Linked(m, root, w) == Fits && PathNearCorrect(b, w.q) && w.t.Bin? && w.t.k == x && NearCorrect(b, w.t.left)
    ensures NearCorrect(b, w.t.right)
    ensures firm ==> NearCorrect(b, w.t)
    decreases z.t
  {
    if z.t.k == x && NearCorrect(b, z.t.left) && NearCorrect(b, z.t.right)
      && (firm ==> Correct(b, z.t.left) && Correct(b, z.t.right)) {
      return z;
    }
    var s := if Track(b, z.t.left, x, firm) && NearCorrect(b, z.t.right) then Left else Right;
    DownLinked(m, root, z, s);
    w := TrackDown(b, m, root, Down(z, s), x, firm);
  }

  // ---------------------------------------------------------------- a summary is renewed

  function Renewed<S>(b: Book<S>, i: int, left: int, right: int): Book<S>
    requires 0 <= i < |b.s|
  {
    b.(of := b.of[b.s[i] := b.f(b.s[i], Val(b, left), Val(b, right))])
  }

  /** A renewed summary does not matter to a subtree without that node. */
  lemma {:induction false} CorrectFrame<S>(b: Book<S>, b': Book<S>, m: Mem, t: Tree, par: int, lo: int, hi: int)
    requires Shape(m, t, par, lo, hi) && b'.f == b.f && b'.s == b.s
    requires forall j :: lo <= j < hi ==> Val(b', j) == Val(b, j)
    ensures Correct(b, t) ==> Correct(b', t)
  {
    if t.Bin? {
      ShapeFrame(m, m, t.left, t.k, lo, t.k);
      ShapeFrame(m, m, t.right, t.k, t.k + 1, hi);
      CorrectFrame(b, b', m, t.left, t.k, lo, t.k);
      CorrectFrame(b, b', m, t.right, t.k, t.k + 1, hi);
      assert t.left.Bin? ==> lo <= t.left.k < hi;
      assert t.right.Bin? ==> lo <= t.right.k < hi;
    }
  }

  lemma NearCorrectFrame<S>(b: Book<S>, b': Book<S>, m: Mem, t: Tree, par: int, lo: int, hi: int)
    requires Shape(m, t, par, lo, hi) && b'.f == b.f && b'.s == b.s
    requires forall j :: lo <= j < hi && !(t.Bin? && j == t.k) ==> Val(b', j) == Val(b, j)
    ensures NearCorrect(b, t) ==> NearCorrect(b', t)
  {
    if t.Bin? {
      ShapeFrame(m, m, t.left, t.k, lo, t.k);
      ShapeFrame(m, m, t.right, t.k, t.k + 1, hi);
      CorrectFrame(b, b', m, t.left, t.k, lo, t.k);
      CorrectFrame(b, b', m, t.right, t.k, t.k + 1, hi);
    }
  }

  lemma {:induction false} PathNearCorrectFrame<S>(b: Book<S>, b': Book<S>, m: Mem, q: Path, p: int, root: int,
      lo: int, hi: int)
    requires PathShape(m, q, p, root, lo, hi) && b'.f == b.f && b'.s == b.s && PathNearCorrect(b, q)
    requires forall j :: 0 <= j < |m| && !(lo <= j < hi) ==> Val(b', j) == Val(b, j)
    ensures PathNearCorrect(b', q)
  {
    if q.Step? {
      var k := q.k;
      var lo', hi' := if q.side == Left then lo else q.edge, if q.side == Left then q.edge else hi;
      var x, y := if q.side == Left then k + 1 else q.edge, if q.side == Left then q.edge else k;
      NearCorrectFrame(b, b', m, q.sib, k, x, y);
      PathNearCorrectFrame(b, b', m, q.up, k, root, lo', hi');
    }
  }

  lemma RenewedVal<S>(b: Book<S>, i: int, left: int, right: int, j: int)
    requires Apart(b.s) && 0 <= i < |b.s|
    ensures Val(Renewed(b, i, left, right), j) == if j ==
      i then Some(b.f(b.s[i], Val(b, left), Val(b, right))) else Val(b, j)
  {
  }

  /** Renewing the root of a subtree that is right but for its root makes it right. */
  lemma RenewedCorrect<S>(b: Book<S>, m: Mem, root: int, z: Spot)
    requires Apart(b.s) && |b.s| == |m| && Linked(m, root, z) == Fits && z.t.Bin? && NearCorrect(b, z.t)
    requires PathNearCorrect(b, z.q)
    ensures 0 <= z.t.k < |m|
    ensures var b' := Renewed(b, z.t.k, Ptr(z.t.left), Ptr(z.t.right)); Correct(b', z.t) && PathNearCorrect(b', z.q)
  {
    hide Apart, Val;
    var b' := Renewed(b, z.t.k, Ptr(z.t.left), Ptr(z.t.right));
    Around(m, root, z);
    forall j | j != z.t.k ensures Val(b', j) == Val(b, j) {
      RenewedVal(b, z.t.k, Ptr(z.t.left), Ptr(z.t.right), j);
    }
    RenewedVal(b, z.t.k, Ptr(z.t.left), Ptr(z.t.right), z.t.k);
    assert Val(b', Ptr(z.t.left)) == Val(b, Ptr(z.t.left)) && Val(b', Ptr(z.t.right)) == Val(b, Ptr(z.t.right));
    RenewedBelow(b, b', m, z);
    PathNearCorrectFrame(b, b', m, z.q, Ptr(z.t), root, z.lo, z.hi);
  }

  lemma RenewedBelow<S>(b: Book<S>, b': Book<S>, m: Mem, z: Spot)
    requires z.t.Bin? && Shape(m, z.t, Holder(z.q), z.lo, z.hi) && b'.f == b.f && b'.s == b.s && NearCorrect(b, z.t)
    requires forall j :: j != z.t.k ==> Val(b', j) == Val(b, j)
    ensures Correct(b', z.t.left) && Correct(b', z.t.right)
  {
    ShapeFrame(m, m, z.t.left, z.t.k, z.lo, z.t.k);
    ShapeFrame(m, m, z.t.right, z.t.k, z.t.k + 1, z.hi);
    CorrectFrame(b, b', m, z.t.left, z.t.k, z.lo, z.t.k);
    CorrectFrame(b, b', m, z.t.right, z.t.k, z.t.k + 1, z.hi);
  }

  /** Renewing a right root changes nothing. */
  lemma RenewedSame<S>(b: Book<S>, t: Tree)
    requires t.Bin? && Correct(b, t)
    ensures 0 <= t.k < |b.s| && Renewed(b, t.k, Ptr(t.left), Ptr(t.right)) == b
  {
  }

  /** Renewing the sibling of a right subtree makes the tree above both right but for its root. */
  lemma RenewedSib<S>(b: Book<S>, m: Mem, root: int, z: Spot)
    requires Apart(b.s) && |b.s| == |m| && Linked(m, root, z) == Fits && z.q.Step? && Correct(b, z.t)
    requires PathNearCorrect(b, z.q)
    ensures z.q.sib.Nil? ==> NearCorrect(b, Up(z).t) && PathNearCorrect(b, Up(z).q)
    ensures z.q.sib.Bin? ==>
      (0 <= z.q.sib.k < |m| && var b' := Renewed(b, z.q.sib.k, Ptr(z.q.sib.left), Ptr(z.q.sib.right));
        NearCorrect(b', Up(z).t) && PathNearCorrect(b', Up(z).q))
  {
    hide Apart, CorrectAt;
    if z.q.sib.Bin? {
      UpLinked(m, root, z);
      Around(m, root, z);
      var y := Down(Up(z), Flip(z.q.side));
      DownLinked(m, root, Up(z), Flip(z.q.side));
      RenewedCorrect(b, m, root, y);
      var b' := Renewed(b, z.q.sib.k, Ptr(z.q.sib.left), Ptr(z.q.sib.right));
      RenewedKeeps(b, b', m, root, z);
      assert PathNearCorrect(b', y.q) && y.q.up == z.q.up;
    }
  }

  lemma RenewedKeeps<S>(b: Book<S>, b': Book<S>, m: Mem, root: int, z: Spot)
    requires Apart(b.s) && Linked(m, root, z) == Fits && z.q.Step? && z.q.sib.Bin? && Correct(b, z.t)
    requires 0 <= z.q.sib.k < |b.s|
    requires b' == Renewed(b, z.q.sib.k, Ptr(z.q.sib.left), Ptr(z.q.sib.right))
    ensures Correct(b', z.t)
  {
    Around(m, root, z);
    forall j | z.lo <= j < z.hi ensures Val(b', j) == Val(b, j) {
      RenewedVal(b, z.q.sib.k, Ptr(z.q.sib.left), Ptr(z.q.sib.right), j);
    }
    CorrectFrame(b, b', m, z.t, Holder(z.q), z.lo, z.hi);
  }

  /** A right whole tree has all summaries right. */
  lemma {:induction false} CorrectEverywhere<S>(b: Book<S>, m: Mem, t: Tree, par: int, lo: int, hi: int, i: int)
    requires Shape(m, t, par, lo, hi) && Correct(b, t) && lo <= i < hi
    ensures 0 <= i < |m| && CorrectAt(b, i, m[i].left, m[i].right)
  {
    if i < t.k { CorrectEverywhere(b, m, t.left, t.k, lo, t.k, i); }
    if i > t.k { CorrectEverywhere(b, m, t.right, t.k, t.k + 1, hi, i); }
  }

  // ---------------------------------------------------------------- a node enters or leaves the sequence

  lemma CorrectInsertedAt<S>(b: Book<S>, m: Mem, i: int, n: Node, j: int, j': int)
    requires 0 <= i <= |m| == |b.s| && 0 <= j <= |m| && j != i && j' == if j < i then j else j - 1
    requires WiredAt(m, j') && CorrectAt(b, j', m[j'].left, m[j'].right)
    ensures var c := MvCell(i, 1, m[j']); c.left != -2 && CorrectAt(b.(s := With(b.s, i, n)), j, c.left, c.right)
  {
    hide With, Val;
    WithAt(b.s, i, n);
    ValInserted(b, i, n, j');
    ValInserted(b, i, n, m[j'].left);
    ValInserted(b, i, n, m[j'].right);
  }

  /** With a leaf that has no summary yet, the summaries are right for the children all nodes had before. */
  lemma CorrectInserted<S>(b: Book<S>, m: Mem, i: int, n: Node)
    requires CorrectIn(b, m) && Wired(m) && 0 <= i <= |m|
    ensures CorrectIn(b.(s := With(b.s, i, n)), Inserted(m, i))
  {
    hide With, CorrectAt, MvCell, WiredAt;
    var b', was := b.(s := With(b.s, i, n)), Inserted(m, i);
    WithAt(b.s, i, n);
    forall j | 0 <= j < |was| && was[j].left != -2 ensures CorrectAt(b', j, was[j].left, was[j].right) {
      var j' := if j < i then j else j - 1;
      assert j != i && was[j] == MvCell(i, 1, m[j']) && WiredAt(m, j');
      NotBlank(m, j');
      CorrectInsertedAt(b, m, i, n, j, j');
    }
  }

  lemma NotBlank(m: Mem, j: int)
    requires WiredAt(m, j)
    ensures m[j].left != -2
  {
  }

  lemma ValInserted<S>(b: Book<S>, i: int, n: Node, r: int)
    requires 0 <= i <= |b.s| && r < |b.s|
    ensures Val(b.(s := With(b.s, i, n)), Mv(i, 1, r)) == Val(b, r)
    ensures 0 <= r ==> With(b.s, i, n)[Mv(i, 1, r)] == b.s[r]
  {
    WithAt(b.s, i, n);
  }

  lemma CorrectErasedAt<S>(b: Book<S>, m: Mem, k: int, p: int, j: int, j': int)
    requires 0 <= k < |m| == |b.s| && k <= p <= k + 1 && p < |m| && 0 <= j < |m| - 1 && j' == if j < p then j else j + 1
    requires Wired(m) && CorrectAt(b, j', m[j'].left, m[j'].right)
    requires j' != m[p].parent && (p != k ==> j' != k && j' != m[k].parent)
    ensures var c := MvCell(p + 1, -1, m[j']); CorrectAt(b.(s := Without(b.s, k)), j, c.left, c.right)
  {
    hide Without, Val;
    WithoutAt(b.s, k);
    assert WiredAt(m, j');
    ValErased(b, k, p, j');
    ValErased(b, k, p, m[j'].left);
    ValErased(b, k, p, m[j'].right);
  }

  /** Without node `k`, the summaries are right for the children all nodes but the disturbed ones had before. */
  lemma CorrectErased<S>(b: Book<S>, m: Mem, k: int)
    requires CorrectIn(b, m) && Wired(m) && 0 <= k < |m| && SplicePoint(m, k) < |m|
    ensures CorrectIn(b.(s := Without(b.s, k)), BeforeErase(m, k))
  {
    hide Without, CorrectAt, MvCell, WiredAt;
    var p := SplicePoint(m, k);
    var b', was := b.(s := Without(b.s, k)), BeforeErase(m, k);
    WithoutAt(b.s, k);
    forall j | 0 <= j < |was| && was[j].left != -2 ensures CorrectAt(b', j, was[j].left, was[j].right) {
      var j' := if j < p then j else j + 1;
      assert was[j] == MvCell(p + 1, -1, m[j']) && j == Mv(p + 1, -1, j');
      assert WiredAt(m, j') && !Disturbed(m, k, p, j);
      NotBlank(m, j');
      CorrectErasedAt(b, m, k, p, j, j');
    }
  }

  lemma ValErased<S>(b: Book<S>, k: int, p: int, r: int)
    requires 0 <= k < |b.s| && k <= p <= k + 1 && r < |b.s| && r != p && r != k
    ensures Val(b.(s := Without(b.s, k)), Mv(p + 1, -1, r)) == Val(b, r)
    ensures 0 <= r ==> Mv(p + 1, -1, r) < |Without(b.s, k)| && Without(b.s, k)[Mv(p + 1, -1, r)] == b.s[r]
  {
    WithoutAt(b.s, k);
  }
}
