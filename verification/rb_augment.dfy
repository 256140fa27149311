/** rb_augment_path, rb_augment_insert, rb_augment_erase_begin and rb_augment_erase_end of src/rbtree.c. */
module RbAugment {
  import opened Distinct
  import opened RbShape
  import opened RbBalance
  import opened RbTrace
  import opened RbRerank
  import opened RbTree
  import opened RbInsert
  import opened RbErase
  import opened RbLink
  import opened RbSummary
  import W = RbWalk

  /** The summaries that are kept with the nodes; `f` is what the callback computes. */
  class Summaries<S> {
    const f: Summarize<S>
    var of: map<Node, S>

    constructor (f: Summarize<S>)
      ensures this.f == f && of == map[]
    {
      this.f := f;
      of := map[];
    }

    function At(n: Node?): Option<S>
      reads this
    {
      if n != null && n in of then Some(of[n]) else None
    }

    ghost function On(s: seq<Node>): Book<S>
      reads this
    {
      Book(f, of, s)
    }

    method Renew(n: Node)
      modifies this
      ensures of == old(of)[n := f(n, old(At(n.left)), old(At(n.right)))]
    {
      of := of[n := f(n, At(n.left), At(n.right))];
    }
  }

  /** Every summary in the tree is correct. */
  ghost predicate Fresh<S>(t: RbRoot, a: Summaries<S>)
    reads t`Contents, t.Contents, a
  {
    forall n :: n in t.Contents ==> a.At(n) == Some(a.f(n, a.At(n.left), a.At(n.right)))
  }

  lemma ValIsAt<S>(t: RbRoot, a: Summaries<S>, x: Node?)
    requires Rank(t.Contents, x) >= -1
    ensures Val(a.On(t.Contents), Rank(t.Contents, x)) == a.At(x)
  {
  }

  lemma FreshIsCorrect<S>(t: RbRoot, a: Summaries<S>)
    requires Apart(t.Contents) && Wired(t.Fields())
    ensures Fresh(t, a) <==> CorrectIn(a.On(t.Contents), t.Fields())
  {
    hide Apart, Rank, Val;
    var s, m := t.Contents, t.Fields();
    forall i | 0 <= i < |s|
      ensures m[i].left != -2
      ensures CorrectAt(a.On(s), i, m[i].left, m[i].right) <==>
        (a.At(s[i]) == Some(a.f(s[i], a.At(s[i].left), a.At(s[i].right))))
    {
      assert WiredAt(m, i);
      assert Rank(s, s[i]) == i;
      ValIsAt(t, a, s[i]);
      ValIsAt(t, a, s[i].left);
      ValIsAt(t, a, s[i].right);
    }
  }

  // ---------------------------------------------------------------- rb_augment_path

  /** At the focus all summaries are right but for its own root and the roots of what hangs off the way up. */
  ghost function Pending<S>(t: RbRoot, a: Summaries<S>, z: Spot, n: Node?): Fit
    reads t`root, t`Contents, t.Contents, a
  {
    if t.At(z) == Fits && z.t.Bin? && n != null && n == t.Ref(z.t.k) && NearCorrect(a.On(t.Contents), z.t)
        && PathNearCorrect(a.On(t.Contents), z.q)
    then Fits else Misfit
  }

  /** The same, once the root of the focus has been renewed too. */
  ghost function UpToDate<S>(t: RbRoot, a: Summaries<S>, z: Spot, n: Node): Fit
    reads t`root, t`Contents, t.Contents, a
  {
    if t.At(z) == Fits && z.t.Bin? && n == t.Ref(z.t.k) && Correct(a.On(t.Contents), z.t)
        && PathNearCorrect(a.On(t.Contents), z.q)
    then Fits else Misfit
  }

  method RenewFocus<S>(node: Node, a: Summaries<S>, ghost t: RbRoot, ghost z: Spot)
    requires Pending(t, a, z, node) == Fits
    modifies a
    ensures UpToDate(t, a, z, node) == Fits
  {
    hide Apart, Rank, Correct, NearCorrect, PathNearCorrect;
    ghost var b := a.On(t.Contents);
    t.Look(z);
    RenewedCorrect(b, t.Fields(), Rank(t.Contents, t.root), z);
    a.Renew(node);
    assert a.On(t.Contents) == Renewed(b, z.t.k, Ptr(z.t.left), Ptr(z.t.right));
  }

  /** The summaries after the one of `x` is renewed. */
  ghost function RenewedAt<S>(a: Summaries<S>, s: seq<Node>, x: Node): Book<S>
    reads a, x
  {
    a.On(s).(of := a.of[x := a.f(x, a.At(x.left), a.At(x.right))])
  }

  lemma SameRenewal<S>(t: RbRoot, a: Summaries<S>, z: Spot)
    requires t.At(z) == Fits && z.t.Bin?
    ensures 0 <= z.t.k < |t.Contents| && var x := t.Contents[z.t.k];
      RenewedAt(a, t.Contents, x) == Renewed(a.On(t.Contents), z.t.k, Ptr(z.t.left), Ptr(z.t.right))
  {
    hide Apart, Rank;
    t.Look(z);
  }

  lemma SibRenewal<S>(t: RbRoot, a: Summaries<S>, z: Spot)
    requires t.At(z) == Fits && z.q.Step? && z.q.sib.Bin? && Correct(a.On(t.Contents), z.t)
    requires PathNearCorrect(a.On(t.Contents), z.q)
    ensures 0 <= z.q.sib.k < |t.Contents| && var b := RenewedAt(a, t.Contents, t.Contents[z.q.sib.k]);
      NearCorrect(b, Up(z).t) && PathNearCorrect(b, Up(z).q)
  {
    hide Rank, Correct, NearCorrect, PathNearCorrect;
    t.GoUp(z);
    t.GoDown(Up(z), Flip(z.q.side));
    SameRenewal(t, a, Down(Up(z), Flip(z.q.side)));
    RenewedSib(a.On(t.Contents), t.Fields(), Rank(t.Contents, t.root), z);
  }

  /** What rb_augment_path needs to know before it renews beside the way up. */
  lemma Beside<S>(t: RbRoot, a: Summaries<S>, z: Spot, node: Node)
    requires UpToDate(t, a, z, node) == Fits && z.q.Step?
    ensures t.At(Up(z)) == Fits && node.parent == t.Ref(z.q.k) && node.parent != null
    ensures (z.q.sib.Nil? <==> t.Ref(Ptr(z.q.sib)) == null)
    ensures node.parent.left == (if z.q.side == Left then node else t.Ref(Ptr(z.q.sib))) && t.Ref(Ptr(z.q.sib)) != node
    ensures node.parent.right == if z.q.side == Left then t.Ref(Ptr(z.q.sib)) else node
    ensures var b := RenewedAt(a, t.Contents, node);
      z.q.sib.Nil? ==> NearCorrect(b, Up(z).t) && PathNearCorrect(b, Up(z).q)
    ensures z.q.sib.Nil? ==> NearCorrect(a.On(t.Contents), Up(z).t) && PathNearCorrect(a.On(t.Contents), Up(z).q)
    ensures z.q.sib.Bin? ==> 0 <= z.q.sib.k < |t.Contents| && var b := RenewedAt(a, t.Contents, t.Contents[z.q.sib.k]);
      NearCorrect(b, Up(z).t) && PathNearCorrect(b, Up(z).q)
  {
    hide Apart, Rank, RbRoot.At;
    t.Look(z);
    t.GoUp(z);
    if z.q.sib.Bin? {
      SibRenewal(t, a, z);
    } else {
      SameRenewal(t, a, z);
      RenewedSame(a.On(t.Contents), z.t);
    }
  }

  /** What rb_augment_path does beside the way up. */
  method RenewBeside<S>(node: Node, parent: Node, a: Summaries<S>, ghost t: RbRoot, ghost z: Spot)
    requires UpToDate(t, a, z, node) == Fits && z.q.Step? && parent == node.parent
    modifies a
    ensures Pending(t, a, Up(z), parent) == Fits
  {
    hide RbRoot.At, UpToDate, Correct, NearCorrect, PathNearCorrect;
    Beside(t, a, z, node);
    if node == parent.left && parent.right != null {
      a.Renew(parent.right);
    } else if parent.left != null {
      a.Renew(parent.left);
    }
  }

  /** rb_augment_path: afterwards every summary is correct. */
  method AugmentPath<S>(n: Node, a: Summaries<S>, ghost t: RbRoot, ghost z0: Spot)
    requires t.Valid() && Pending(t, a, z0, n) == Fits
    modifies a
    ensures Fresh(t, a)
  {
    hide RbRoot.At, RbRoot.Valid, Pending, UpToDate;
    var node := n;
    ghost var z := z0;
    while true
      invariant node != null && Pending(t, a, z, node) == Fits && t.Valid()
      decreases Depth(z.q)
    {
      RenewFocus(node, a, t, z);
      ParentLinks(t, a, z, node);
      var parent := node.parent;
      if parent == null {
        AllCorrect(t, a, z, node);
        return;
      }
      RenewBeside(node, parent, a, t, z);
      node, z := parent, Up(z);
    }
  }

  lemma ParentLinks<S>(t: RbRoot, a: Summaries<S>, z: Spot, n: Node)
    requires UpToDate(t, a, z, n) == Fits
    ensures n.parent == null <==> z.q.Top?
  {
    t.Look(z);
  }

  lemma AllCorrect<S>(t: RbRoot, a: Summaries<S>, z: Spot, n: Node)
    requires UpToDate(t, a, z, n) == Fits && z.q.Top? && t.Valid()
    ensures Fresh(t, a)
  {
    hide Apart, Rank;
    var b, m := a.On(t.Contents), t.Fields();
    Around(m, Rank(t.Contents, t.root), z);
    forall i | 0 <= i < |m| ensures CorrectAt(b, i, m[i].left, m[i].right) {
      CorrectEverywhere(b, m, z.t, -1, 0, |m|, i);
    }
    t.LinksAgree();
    FreshIsCorrect(t, a);
  }

  // ---------------------------------------------------------------- around an insertion

  lemma StartBelow<S>(t: RbRoot, a: Summaries<S>, n: Node, firm: bool) returns (z: Spot)
    requires t.Valid() && Rank(t.Contents, n) >= 0 && Track(a.On(t.Contents), t.tree, Rank(t.Contents, n), firm)
    ensures t.At(z) == Fits && PathNearCorrect(a.On(t.Contents), z.q) && z.t.Bin? && n == t.Ref(z.t.k)
    ensures NearCorrect(a.On(t.Contents), z.t.left) && NearCorrect(a.On(t.Contents), z.t.right)
    ensures (firm ==> NearCorrect(a.On(t.Contents), z.t))
  {
    z := TrackDown(a.On(t.Contents), t.Fields(), Rank(t.Contents, t.root), Spot(t.tree, Top, 0, |t.Contents|),
      Rank(t.Contents, n), firm);
  }

  /** Where rb_augment_insert starts, all below is correct. */
  lemma StartPending<S>(t: RbRoot, a: Summaries<S>, z: Spot, n: Node)
    requires t.At(z) == Fits && PathNearCorrect(a.On(t.Contents), z.q) && z.t.Bin? && n == t.Ref(z.t.k)
    requires NearCorrect(a.On(t.Contents), z.t.left) && NearCorrect(a.On(t.Contents), z.t.right)
    ensures n.left != null ==> Pending(t, a, Down(z, Left), n.left) == Fits
    ensures n.left == null && n.right != null ==> Pending(t, a, Down(z, Right), n.right) == Fits
    ensures n.left == null && n.right == null ==> Pending(t, a, z, n) == Fits
  {
    hide RbRoot.At;
    t.Look(z);
    t.GoDown(z, Left);
    t.GoDown(z, Right);
  }

  /** rb_augment_insert: correct summaries, after a repair that kept the children of all nodes off the way to `n`. */
  method AugmentInsert<S>(n: Node, a: Summaries<S>, ghost t: RbRoot)
    requires t.Valid() && Rank(t.Contents, n) >= 0 && Track(a.On(t.Contents), t.tree, Rank(t.Contents, n), false)
    modifies a
    ensures Fresh(t, a)
  {
    hide RbRoot.At, RbRoot.Valid, Pending, Track, Rank, NearCorrect, PathNearCorrect;
    ghost var z := StartBelow(t, a, n, false);
    StartPending(t, a, z, n);
    var node := n;
    if node.left != null {
      node := node.left;
      z := Down(z, Left);
    } else if node.right != null {
      node := node.right;
      z := Down(z, Right);
    }
    AugmentPath(node, a, t, z);
  }

  /** Linking a leaf, rb_insert_color and rb_augment_insert leave every summary correct. */
  method InsertAugmented<S>(t: RbRoot, node: Node, parent: Node?, slot: Slot, a: Summaries<S>, ghost z: Spot)
    requires t.Valid() && Vacant(t, z, parent, slot) == Fits && node !in t.Contents && Fresh(t, a)
    modifies t`root, t`tree, t`Contents, t.Contents, node, a
    ensures 0 <= z.lo <= |old(t.Contents)| && t.Contents == With(old(t.Contents), z.lo, node)
    ensures t.Valid() && Fresh(t, a)
  {
    hide RbRoot.At, RbRoot.Valid, Vacant, Wired, Fresh, Walk, Track, CorrectIn, Traced, RedAt, Apart, Rank;
    ghost var s, m, i := t.Contents, t.Fields(), z.lo;
    t.LinksAgree();
    FreshIsCorrect(t, a);
    LinkNode(t, node, parent, slot, z);
    InsertColor(t, node, LeafSpot(z), 0, Inserted(m, i), i);
    ghost var b := Book(a.f, a.of, s);
    CorrectInserted(b, m, i, node);
    assert a.On(t.Contents) == b.(s := With(s, i, node));
    WalkTrack(a.On(t.Contents), Inserted(m, i), t.tree, i, false);
    WithAt(s, i, node);
    t.LinksAgree();
    RankIn(t.Contents, i);
    AugmentInsert(node, a, t);
  }

  // ---------------------------------------------------------------- around an erasure

  /** The lowest rank below a node has no left child. */
  lemma {:induction false} LowestHasNoLeft(m: Mem, t: Tree, par: int, lo: int, hi: int)
    requires Shape(m, t, par, lo, hi) && t.Bin?
    ensures 0 <= lo < hi <= |m| && m[lo].left == -1
  {
    if t.left.Bin? { LowestHasNoLeft(m, t.left, t.k, lo, t.k); }
  }

  /** Ranks around a node with two children and the node behind it. */
  lemma NextRanks(t: RbRoot, k: int)
    requires t.Valid() && 0 <= k < |t.Contents| && var m := t.Fields(); m[k].left != -1 && m[k].right != -1
    ensures var m := t.Fields(); k + 1 < |m| && m[k + 1].left == -1 && (m[k + 1].right == -1 || m[k + 1].right > k + 1)
  {
    var m, root, top := t.Fields(), Rank(t.Contents, t.root), Spot(t.tree, Top, 0, |t.Contents|);
    RanksBelow(m, root, top, BlackHeight(t.tree), k);
  }

  lemma RanksBelow(m: Mem, root: int, top: Spot, h: int, k: int)
    requires Linked(m, root, top) == Fits && Level(top, h, 0) == Fits && top.q == Top && !IsRed(top.t)
    requires top.lo == 0 && top.hi == |m| && 0 <= k < |m| && m[k].left != -1 && m[k].right != -1
    ensures k + 1 < |m| && m[k + 1].left == -1 && (m[k + 1].right == -1 || m[k + 1].right > k + 1)
  {
    hide Level;
    var z, g := Locate(m, root, top, h, k);
    Around(m, root, z);
    RightShape(m, root, z);
    LowestHasNoLeft(m, z.t.right, k, k + 1, z.hi);
    var y, g' := Locate(m, root, top, h, k + 1);
    Around(m, root, y);
  }

  lemma RightShape(m: Mem, root: int, z: Spot)
    requires Linked(m, root, z) == Fits && z.t.Bin?
    ensures Shape(m, z.t.right, z.t.k, z.t.k + 1, z.hi)
  {
  }

  /** Which node rb_augment_erase_begin finds, if `next` is the one behind `n`. */
  ghost function DeepestNode(n: Node, next: Node?): Node?
    reads n, next
  {
    if n.right == null && n.left == null then n.parent
    else if n.right == null then n.left
    else if n.left == null then n.right
    else if next == null then null
    else if next.right != null then next.right
    else if next.parent != n then next.parent
    else next
  }

  lemma DeepestNodeIs(t: RbRoot, n: Node, next: Node?)
    requires t.Valid() && n in t.Contents && next == W.Following(t.Contents, n)
    ensures var s, m, k, d := t.Contents, t.Fields(), Rank(t.Contents, n), DeepestNode(n, next);
      && 0 <= k < |s| && SplicePoint(m, k) < |s| && d != n && (d == null || d in s)
      && Rank(Without(s, k), d) == Deepest(m, SplicePoint(m, k)) >= -1
      && (n.left != null && n.right != null ==> next != null)
  {
    hide Apart, Rank, RbRoot.At, RbRoot.Valid, Position, Without;
    var s, m, k := t.Contents, t.Fields(), Rank(t.Contents, n);
    t.LinksAgree();
    W.PositionIsRank(s, n);
    assert WiredAt(m, k);
    if m[k].left == -1 || m[k].right == -1 {
      StaysRanked(s, m, k, k, DeepestNode(n, next));
    } else {
      NextRanks(t, k);
      assert WiredAt(m, k + 1);
      StaysRanked(s, m, k, k + 1, DeepestNode(n, next));
    }
  }

  /** A node other than `s[k]` and its rank once `s[k]` has left. */
  lemma StaysRanked(s: seq<Node>, m: Mem, k: int, p: int, d: Node?)
    requires Apart(s) && 0 <= k < |s| && k <= p <= k + 1 && d != s[k] && Rank(s, d) >= -1
    ensures d == null || d in s
    ensures Rank(Without(s, k), d) == Mv(k + 1, -1, Rank(s, d))
  {
    RankWithout(s, k, d);
  }

  /** rb_augment_erase_begin: a node that is still there once `node` is erased, and from which the way to
      the root will pass all that the erasure disturbs; NULL if none will be left. */
  method AugmentEraseBegin(node: Node, ghost t: RbRoot) returns (deepest: Node?)
    requires t.Valid() && node in t.Contents
    ensures deepest != node && (deepest == null || deepest in t.Contents)
    ensures var s, m, k := t.Contents, t.Fields(), Rank(t.Contents, node);
      0 <= k < |s| && SplicePoint(m, k) < |s| && Rank(Without(s, k), deepest) == Deepest(m, SplicePoint(m, k)) >= -1
  {
    hide RbRoot.At, RbRoot.Valid, Apart, Rank, Deepest, Without, Wired, W.Following;
    ghost var d := DeepestNode(node, W.Following(t.Contents, node));
    DeepestNodeIs(t, node, W.Following(t.Contents, node));
    W.NotOwnParent(t, node);
    if node.right == null && node.left == null {
      deepest := node.parent;
    } else if node.right == null {
      deepest := node.left;
    } else if node.left == null {
      deepest := node.right;
    } else {
      deepest := W.Next(node, t);
      if deepest.right != null {
        deepest := deepest.right;
      } else if deepest.parent != node {
        deepest := deepest.parent;
      }
    }
    assert deepest == d;
  }

  /** rb_augment_erase_end: correct summaries, after a repair that kept the children of all nodes off the way to `n`. */
  method AugmentEraseEnd<S>(n: Node?, a: Summaries<S>, ghost t: RbRoot)
    requires t.Valid() && (n == null ==> t.Contents == [])
    requires n != null ==> Rank(t.Contents, n) >= 0 && Track(a.On(t.Contents), t.tree, Rank(t.Contents, n), true)
    modifies a
    ensures Fresh(t, a)
  {
    hide RbRoot.At, RbRoot.Valid, Track, Rank;
    if n != null {
      ghost var z := StartBelow(t, a, n, true);
      AugmentPath(n, a, t, z);
    }
  }

  /** What rb_erase leaves for rb_augment_erase_end to do. */
  lemma EndFacts<S>(t: RbRoot, a: Summaries<S>, was: Mem, x: int, n: Node?)
    requires t.Valid() && CorrectIn(a.On(t.Contents), was) && Rank(t.Contents, n) == x
    requires (t.tree.Bin? ==> Walk(was, t.tree, x, true))
    requires x >= -1
    ensures n == null ==> t.Contents == []
    ensures n != null ==> Rank(t.Contents, n) >= 0 && Track(a.On(t.Contents), t.tree, Rank(t.Contents, n), true)
  {
    hide CorrectIn;
    var m, root, top := t.Fields(), Rank(t.Contents, t.root), Spot(t.tree, Top, 0, |t.Contents|);
    Around(m, root, top);
    if t.tree.Bin? {
      WalkTrack(a.On(t.Contents), was, t.tree, x, true);
      var w := TrackDown(a.On(t.Contents), m, root, top, x, true);
      Around(m, root, w);
    }
  }

  /** rb_augment_erase_begin, rb_erase and rb_augment_erase_end leave every summary correct. */
  method EraseAugmented<S>(t: RbRoot, node: Node, a: Summaries<S>)
    requires t.Valid() && Rank(t.Contents, node) >= 0 && Fresh(t, a)
    modifies t`root, t`tree, t`Contents, t.Contents, a
    ensures t.Valid() && t.Contents == Without(old(t.Contents), Rank(old(t.Contents), node)) && Fresh(t, a)
  {
    hide RbRoot.At, RbRoot.Valid, Wired, Fresh, Walk, Track, CorrectIn, Apart, Rank, Deepest, BeforeErase;
    ghost var s, m, k := t.Contents, t.Fields(), Rank(t.Contents, node);
    t.LinksAgree();
    FreshIsCorrect(t, a);
    var deepest := AugmentEraseBegin(node, t);
    Erase(t, node);
    ghost var b := Book(a.f, a.of, s);
    CorrectErased(b, m, k);
    assert a.On(t.Contents) == b.(s := Without(s, k));
    EndFacts(t, a, BeforeErase(m, k), Deepest(m, SplicePoint(m, k)), deepest);
    AugmentEraseEnd(deepest, a, t);
  }
}
