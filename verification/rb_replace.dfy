/** rb_replace_node of src/rbtree.c. */
module RbReplace {
  import opened Distinct
  import opened RbShape
  import opened RbBalance
  import opened RbTree

  lemma RankReplaced(s: seq<Node>, k: int, n: Node, x: Node?)
    requires Apart(s) && 0 <= k < |s| && n !in s && Rank(s, x) >= -1
    ensures Apart(s[k := n]) && Rank(s[k := n], if x == s[k] then n else x) == Rank(s, x)
  {
    var s' := s[k := n];
    assert forall i, j :: 0 <= i < j < |s'| ==> s'[i] != s'[j];
    if x != null { assert s'[Rank(s, x)] == if x == s[k] then n else x; }
  }

  /** Every pointer that led to `victim` leads to `n`, and `n` points where `victim` did. */
  twostate predicate Swapped(s: seq<Node>, victim: Node, n: Node, i: int)
    requires 0 <= i < |s|
    reads s, n
  {
    var x := s[i];
    if x == victim then
      && n.left == old(x.left) && n.right == old(x.right)
      && n.parent == old(x.parent) && n.color == old(x.color)
    else
      && x.color == old(x.color) && x.left == Swap(old(x.left), victim, n)
      && x.right == Swap(old(x.right), victim, n) && x.parent == Swap(old(x.parent), victim, n)
  }

  function Swap(x: Node?, victim: Node, n: Node): Node? { if x == victim then n else x }

  /** Only the parent and the children of `v` point to it. */
  ghost predicate OnlyKin(s: seq<Node>, v: Node)
    reads s, v
  {
    && (v.parent != null ==> v.parent in s && (v.parent.left == v) != (v.parent.right == v))
    && (v.left != null ==> v.left in s && v.left.parent == v)
    && (v.right != null ==> v.right in s && v.right.parent == v)
    && v.left != v && v.right != v && v.parent != v && (v.left == v.right ==> v.left == null)
    && (v.parent != null ==> v.parent != v.left && v.parent != v.right)
    && forall i {:trigger s[i]} :: 0 <= i < |s| ==>
      (s[i].left == v ==> s[i] == v.parent) && (s[i].right == v ==> s[i] == v.parent)
        && (s[i].parent == v ==> s[i] == v.left || s[i] == v.right)
  }

  /** Of the pointers of node `i`, only those to the kin of `v` lead to `v`. */
  lemma KinAt(s: seq<Node>, v: Node, i: int)
    requires Apart(s) && Wired(Snapshot(s)) && v in s && 0 <= i < |s|
    ensures (s[i].left == v ==> s[i] == v.parent) && (s[i].right == v ==> s[i] == v.parent)
    ensures s[i].parent == v ==> s[i] == v.left || s[i] == v.right
  {
    hide Apart, Rank;
    var m := Snapshot(s);
    assert WiredAt(m, i);
  }

  lemma WiredKin(s: seq<Node>, v: Node)
    requires Apart(s) && Wired(Snapshot(s)) && v in s
    requires v.parent != null ==> v.parent != v.left && v.parent != v.right
    ensures OnlyKin(s, v)
  {
    hide Apart, Rank;
    var m, k := Snapshot(s), Rank(s, v);
    assert WiredAt(m, k);
    if v.parent != null { assert WiredAt(m, m[k].parent); }
    forall i | 0 <= i < |s|
      ensures (s[i].left == v ==> s[i] == v.parent) && (s[i].right == v ==> s[i] == v.parent)
      ensures s[i].parent == v ==> s[i] == v.left || s[i] == v.right
    {
      KinAt(s, v, i);
    }
  }

  method Substitute(t: RbRoot, victim: Node, n: Node)
    requires OnlyKin(t.Contents, victim) && victim in t.Contents && n !in t.Contents
    modifies t`root, t.Contents, n
    ensures t.root == if old(victim.parent) == null then n else old(t.root)
    ensures forall i {:trigger t.Contents[i]} :: 0 <= i < |t.Contents| ==> Swapped(t.Contents, victim, n, i)
  {
    ghost var s := t.Contents;
    var parent := victim.parent;
    if parent != null {
      if victim == parent.left {
        parent.left := n;
      } else {
        parent.right := n;
      }
    } else {
      t.root := n;
    }
    if victim.left != null {
      victim.left.parent := n;
    }
    if victim.right != null {
      victim.right.parent := n;
    }
    n.left, n.right, n.parent, n.color := victim.left, victim.right, victim.parent, victim.color;
    forall i | 0 <= i < |s| ensures Swapped(s, victim, n, i) {
      var x := s[i];
      assert x != n;
      assert (old(x.left) == victim || old(x.right) == victim ==> x == parent);
      assert (old(x.parent) == victim ==> x == old(victim.left) || x == old(victim.right));
    }
  }

  /** Where a node hangs, as its fields say it. */
  lemma VictimFacts(t: RbRoot, v: Node)
    requires t.Valid() && v in t.Contents
    ensures Apart(t.Contents) && OnlyKin(t.Contents, v) && (v == t.root <==> v.parent == null)
    ensures forall i :: 0 <= i < |t.Contents| ==> WiredAt(t.Fields(), i)
    ensures Rank(t.Contents, t.root) >= 0 && 0 <= Rank(t.Contents, v) < |t.Contents|
    ensures t.Contents[Rank(t.Contents, v)] == v
  {
    hide OnlyKin, RedBlack;
    var m, root, top := t.Fields(), Rank(t.Contents, t.root), Spot(t.tree, Top, 0, |t.Contents|);
    ShapeWired(m, t.tree, -1, 0, |t.Contents|);
    Around(m, root, top);
    VictimPlace(t, v);
    WiredKin(t.Contents, v);
  }

  lemma VictimPlace(t: RbRoot, v: Node)
    requires t.Valid() && v in t.Contents
    ensures v == t.root <==> v.parent == null
    ensures v.parent != null ==> v.parent != v.left && v.parent != v.right
  {
    var m, root, top := t.Fields(), Rank(t.Contents, t.root), Spot(t.tree, Top, 0, |t.Contents|);
    var z, h := Locate(m, root, top, BlackHeight(t.tree), Rank(t.Contents, v));
    Around(m, root, z);
    Around(m, root, top);
    t.Look(z);
    RootPlace(m, root, z);
  }

  /** The root is outside every subtree but the whole tree. */
  lemma RootPlace(m: Mem, root: int, z: Spot)
    requires Linked(m, root, z) == Fits && z.t.Bin?
    ensures z.lo <= z.t.k < z.hi && (if z.q.Top? then root == z.t.k else !(z.lo <= root < z.hi))
    decreases Depth(z.q)
  {
    Around(m, root, z);
    if z.q.Step? {
      UpLinked(m, root, z);
      RootPlace(m, root, Up(z));
    }
  }

  /** rb_replace_node: `n` takes the place of `victim`; shape, colors and all links stay as they are. */
  method ReplaceNode(t: RbRoot, victim: Node, n: Node)
    requires t.Valid() && victim in t.Contents && n !in t.Contents
    modifies t`root, t`Contents, t.Contents, n
    ensures t.Valid() && t.tree == old(t.tree) && t.Fields() == old(t.Fields())
    ensures var k := Rank(old(t.Contents), victim); 0 <= k < |old(t.Contents)| && t.Contents == old(t.Contents)[k := n]
  {
    hide Apart, Rank, OnlyKin, RedBlack;
    ghost var s, m, k := t.Contents, t.Fields(), Rank(t.Contents, victim);
    VictimFacts(t, victim);
    Substitute(t, victim, n);
    forall i | 0 <= i < |s| ensures CellOf(s[k := n], s[k := n][i]) == m[i] {
      assert WiredAt(m, i) && t.Contents[i] == s[i];
      assert Swapped(s, victim, n, i);
      RankReplaced(s, k, n, old(s[i].left));
      RankReplaced(s, k, n, old(s[i].right));
      RankReplaced(s, k, n, old(s[i].parent));
    }
    assert Snapshot(s[k := n]) == m;
    RankReplaced(s, k, n, old(t.root));
    t.Contents := s[k := n];
  }
}
