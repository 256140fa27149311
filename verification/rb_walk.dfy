/** rb_first, rb_last, rb_next and rb_prev of src/rbtree.c. */
module RbWalk {
  import opened Distinct
  import opened RbShape
  import opened RbBalance
  import opened RbHeight
  import opened RbTree

  // ---------------------------------------------------------------- neighbours in a sequence

  /** The neighbours of `n` in `s`, NULL at the ends. */
  function Following(s: seq<Node>, n: Node): Node?
    requires n in s
  {
    var i := Position(s, n);
    if i + 1 < |s| then s[i + 1] else null
  }

  function Preceding(s: seq<Node>, n: Node): Node?
    requires n in s
  {
    var i := Position(s, n);
    if i > 0 then s[i - 1] else null
  }

  lemma PositionIsRank(s: seq<Node>, n: Node)
    requires Apart(s) && n in s
    ensures Position(s, n) == Rank(s, n)
  {
  }

  lemma FollowingPreceding(s: seq<Node>, n: Node, p: Node)
    requires Apart(s) && n in s && p in s
    ensures Following(s, n) == p <==> Preceding(s, p) == n
  {
    PositionIsRank(s, n);
    PositionIsRank(s, p);
  }

  /** The `i`-th unit of a travel: the first, and then always the one behind. */
  function Travelled(s: seq<Node>, i: nat): Node?
    requires Apart(s)
    ensures Travelled(s, i) == null || Travelled(s, i) in s
  {
    if i == 0 then if s == [] then null else s[0]
    else var n := Travelled(s, i - 1); if n == null then null else Following(s, n)
  }

  /** A travel visits every node exactly once, in sequence, and then stops. */
  lemma {:induction false} TravelVisitsAll(s: seq<Node>, i: nat)
    requires Apart(s)
    ensures Travelled(s, i) == if i < |s| then s[i] else null
  {
    if i > 0 {
      TravelVisitsAll(s, i - 1);
      if i - 1 < |s| { PositionIsRank(s, s[i - 1]); }
    }
  }

  // ---------------------------------------------------------------- the walks

  /** A node of a valid tree, where it hangs. */
  ghost function Spotted(t: RbRoot, z: Spot, h: int, n: Node?): Fit
    reads t`root, t`Contents, t.Contents
  {
    if t.At(z) == Fits && Level(z, h, 0) == Fits && !RedPair(z) && (z.q.Top? ==> !IsRed(z.t)) && z.t.Bin?
        && n != null && n == t.Ref(z.t.k)
    then Fits else Misfit
  }

  lemma SpottedRoot(t: RbRoot)
    requires t.Valid()
    ensures t.root == null <==> |t.Contents| == 0
    ensures t.root != null ==> Spotted(t, Spot(t.tree, Top, 0, |t.Contents|), BlackHeight(t.tree), t.root) == Fits
  {
    t.Look(Spot(t.tree, Top, 0, |t.Contents|));
    Around(t.Fields(), Rank(t.Contents, t.root), Spot(t.tree, Top, 0, |t.Contents|));
  }

  lemma SpottedNode(t: RbRoot, n: Node) returns (z: Spot, h: int)
    requires t.Valid() && n in t.Contents
    ensures Spotted(t, z, h, n) == Fits && z.t.Bin? && 0 <= z.t.k < |t.Contents| && n == t.Contents[z.t.k]
    ensures z.t.k == Rank(t.Contents, n)
    ensures Apart(t.Contents) && n.parent != n
  {
    var m := t.Fields();
    z, h := Locate(m, Rank(t.Contents, t.root), Spot(t.tree, Top, 0, |t.Contents|), BlackHeight(t.tree),
      Rank(t.Contents, n));
    Around(m, Rank(t.Contents, t.root), z);
  }

  lemma NotOwnParent(t: RbRoot, n: Node)
    requires t.Valid() && n in t.Contents
    ensures n.parent != n
  {
    var z, h := SpottedNode(t, n);
  }

  lemma EmptyChildren(m: Mem, root: int, z: Spot)
    requires Linked(m, root, z) == Fits && z.t.Bin?
    ensures (z.t.left.Nil? ==> z.lo == z.t.k) && (z.t.right.Nil? ==> z.hi == z.t.k + 1)
  {
    assert Shape(m, z.t.left, z.t.k, z.lo, z.t.k) && Shape(m, z.t.right, z.t.k, z.t.k + 1, z.hi);
  }

  /** What a spotted node's pointers say, and where its ranks lie. */
  lemma SpottedFacts(t: RbRoot, z: Spot, h: int, n: Node?)
    requires Spotted(t, z, h, n) == Fits
    ensures z.t.Bin? && n != null && 0 <= z.lo <= z.t.k < z.hi <= |t.Contents| && n == t.Contents[z.t.k]
    ensures (z.q.Top? ==> z.lo == 0 && z.hi == |t.Contents|)
    ensures n.left == null ==> z.lo == z.t.k
    ensures n.right == null ==> z.hi == z.t.k + 1
    ensures n.left != null ==> Spotted(t, Down(z, Left), h - Weight(z.t.color), n.left) == Fits
    ensures n.right != null ==> Spotted(t, Down(z, Right), h - Weight(z.t.color), n.right) == Fits
    ensures Pow2(Depth(z.q)) <= (|t.Contents| + 1) * (|t.Contents| + 1)
  {
    hide Apart, Rank, Linked, Level, Pow2;
    t.Look(z);
    Around(t.Fields(), Rank(t.Contents, t.root), z);
    EmptyChildren(t.Fields(), Rank(t.Contents, t.root), z);
    DescentBound(t.Fields(), Rank(t.Contents, t.root), z, h);
    SpottedDown(t, z, h, Left);
    SpottedDown(t, z, h, Right);
  }

  lemma SpottedDown(t: RbRoot, z: Spot, h: int, s: Side)
    requires t.At(z) == Fits && Level(z, h, 0) == Fits && !RedPair(z) && (z.q.Top? ==> !IsRed(z.t)) && z.t.Bin?
    ensures var w := Down(z, s);
      t.At(w) == Fits && Level(w, h - Weight(z.t.color), 0) == Fits && !RedPair(w) && w.q.Step?
  {
    hide RbRoot.At;
    t.GoDown(z, s);
  }

  lemma SpottedUp(t: RbRoot, z: Spot, h: int, n: Node?)
    requires Spotted(t, z, h, n) == Fits && z.q.Step?
    ensures t.At(Up(z)) == Fits && Level(Up(z), h + Weight(z.q.color), 0) == Fits && !RedPair(Up(z))
    ensures (Up(z).q.Top? ==> !IsRed(Up(z).t))
  {
    hide RbRoot.At;
    t.GoUp(z);
  }

  /** Which rank is above the focus. */
  lemma EdgeRank(m: Mem, root: int, z: Spot)
    requires Linked(m, root, z) == Fits && z.q.Step?
    ensures z.q.k == if z.q.side == Left then z.hi else z.lo - 1
  {
  }

  lemma SpottedParent(t: RbRoot, z: Spot, h: int, n: Node?)
    requires Spotted(t, z, h, n) == Fits
    ensures n != null && (n.parent == null <==> z.q.Top?)
    ensures z.q.Step? ==>
      (n.parent == t.Ref(z.q.k) && (n.parent.left == n <==> z.q.side == Left)
      && (n.parent.right == n <==> z.q.side == Right))
    ensures z.q.Step? ==>
      (Spotted(t, Up(z), h + Weight(z.q.color), n.parent) == Fits
      && z.q.k == if z.q.side == Left then z.hi else z.lo - 1)
  {
    hide Apart, Rank, Linked, Level;
    t.Look(z);
    if z.q.Step? {
      SpottedUp(t, z, h, n);
      EdgeRank(t.Fields(), Rank(t.Contents, t.root), z);
    }
  }

  /** rb_first: the first node of the sequence, in at most 2 log2(n + 1) steps down. */
  method First(t: RbRoot) returns (n: Node?, ghost steps: nat)
    requires t.Valid()
    ensures |t.Contents| == 0 ==> n == null
    ensures |t.Contents| > 0 ==> n == t.Contents[0]
    ensures Pow2(steps) <= (|t.Contents| + 1) * (|t.Contents| + 1)
  {
    hide RbRoot.At, Spotted, RbRoot.Valid;
    SpottedRoot(t);
    steps := 0;
    n := t.root;
    if n == null {
      return null, 0;
    }
    ghost var z, h := Spot(t.tree, Top, 0, |t.Contents|), BlackHeight(t.tree);
    while n.left != null
      invariant n != null && Spotted(t, z, h, n) == Fits && z.lo == 0 && steps == Depth(z.q)
      decreases z.t
    {
      SpottedFacts(t, z, h, n);
      z, h, n, steps := Down(z, Left), h - Weight(z.t.color), n.left, steps + 1;
    }
    SpottedFacts(t, z, h, n);
  }

  /** rb_last: the last node of the sequence, in at most 2 log2(n + 1) steps down. */
  method Last(t: RbRoot) returns (n: Node?, ghost steps: nat)
    requires t.Valid()
    ensures |t.Contents| == 0 ==> n == null
    ensures |t.Contents| > 0 ==> n == t.Contents[|t.Contents| - 1]
    ensures Pow2(steps) <= (|t.Contents| + 1) * (|t.Contents| + 1)
  {
    hide RbRoot.At, Spotted, RbRoot.Valid;
    SpottedRoot(t);
    steps := 0;
    n := t.root;
    if n == null {
      return null, 0;
    }
    ghost var z, h := Spot(t.tree, Top, 0, |t.Contents|), BlackHeight(t.tree);
    while n.right != null
      invariant n != null && Spotted(t, z, h, n) == Fits && z.hi == |t.Contents| && steps == Depth(z.q)
      decreases z.t
    {
      SpottedFacts(t, z, h, n);
      z, h, n, steps := Down(z, Right), h - Weight(z.t.color), n.right, steps + 1;
    }
    SpottedFacts(t, z, h, n);
  }

  /** rb_next: the neighbour in the sequence; NULL for a node that points to itself as its parent. */
  method Next(n: Node, ghost t: RbRoot) returns (r: Node?)
    requires n.parent == n || (t.Valid() && n in t.Contents)
    ensures n.parent == n ==> r == null
    ensures n.parent != n ==> r == Following(t.Contents, n)
  {
    hide RbRoot.At, Spotted, RbRoot.Valid, Position;
    if n.parent == n {
      return null;
    }
    ghost var z, h := SpottedNode(t, n);
    ghost var k := z.t.k;
    PositionIsRank(t.Contents, n);
    SpottedFacts(t, z, h, n);
    var node := n;
    if node.right != null {
      node := node.right;
      z, h := Down(z, Right), h - Weight(z.t.color);
      while node.left != null
        invariant node != null && Spotted(t, z, h, node) == Fits && z.lo == k + 1
        decreases z.t
      {
        SpottedFacts(t, z, h, node);
        z, h, node := Down(z, Left), h - Weight(z.t.color), node.left;
      }
      SpottedFacts(t, z, h, node);
      return node;
    }
    var parent := node.parent;
    SpottedParent(t, z, h, node);
    while parent != null && node == parent.right
      invariant node != null && Spotted(t, z, h, node) == Fits && parent == node.parent && z.hi == k + 1
      decreases Depth(z.q)
    {
      SpottedParent(t, z, h, node);
      node, z, h := parent, Up(z), h + Weight(z.q.color);
      parent := node.parent;
    }
    SpottedParent(t, z, h, node);
    SpottedFacts(t, z, h, node);
    r := parent;
  }

  /** rb_prev: the neighbour in the sequence; NULL for a node that points to itself as its parent. */
  method Prev(n: Node, ghost t: RbRoot) returns (r: Node?)
    requires n.parent == n || (t.Valid() && n in t.Contents)
    ensures n.parent == n ==> r == null
    ensures n.parent != n ==> r == Preceding(t.Contents, n)
  {
    hide RbRoot.At, Spotted, RbRoot.Valid, Position;
    if n.parent == n {
      return null;
    }
    ghost var z, h := SpottedNode(t, n);
    ghost var k := z.t.k;
    PositionIsRank(t.Contents, n);
    SpottedFacts(t, z, h, n);
    var node := n;
    if node.left != null {
      node := node.left;
      z, h := Down(z, Left), h - Weight(z.t.color);
      while node.right != null
        invariant node != null && Spotted(t, z, h, node) == Fits && z.hi == k
        decreases z.t
      {
        SpottedFacts(t, z, h, node);
        z, h, node := Down(z, Right), h - Weight(z.t.color), node.right;
      }
      SpottedFacts(t, z, h, node);
      return node;
    }
    var parent := node.parent;
    SpottedParent(t, z, h, node);
    while parent != null && node == parent.left
      invariant node != null && Spotted(t, z, h, node) == Fits && parent == node.parent && z.lo == k
      decreases Depth(z.q)
    {
      SpottedParent(t, z, h, node);
      node, z, h := parent, Up(z), h + Weight(z.q.color);
      parent := node.parent;
    }
    SpottedParent(t, z, h, node);
    SpottedFacts(t, z, h, node);
    r := parent;
  }
}
