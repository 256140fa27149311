/** What a valid tree is, said without heights and without the ghost tree. */
module RbReading {
  import opened RbShape
  import opened RbBalance
  import opened RbHeight
  import opened RbTree
  import W = RbWalk

  /** A way from the root of `t` down to a NULL. */
  predicate IsWay(t: Tree, w: seq<Side>) {
    if t.Nil? then w == [] else w != [] && IsWay(Near(t, w[0]), w[1..])
  }

  /** How many black nodes it passes. */
  function Blacks(t: Tree, w: seq<Side>): int
    requires IsWay(t, w)
  {
    if t.Nil? then 0 else (if t.color == Black then 1 else 0) + Blacks(Near(t, w[0]), w[1..])
  }

  predicate NoRedPair(t: Tree) {
    t.Bin? ==> NoRedPair(t.left) && NoRedPair(t.right) && (t.color == Red ==> !IsRed(t.left) && !IsRed(t.right))
  }

  ghost predicate EvenWays(t: Tree) { forall v, w :: IsWay(t, v) && IsWay(t, w) ==> Blacks(t, v) == Blacks(t, w) }

  lemma {:induction false} BalancedWays(t: Tree, h: int, w: seq<Side>)
    requires Balanced(t, h)
    ensures NoRedPair(t) && (IsWay(t, w) ==> Blacks(t, w) == h)
  {
    if t.Bin? {
      BalancedWays(t.left, h - Weight(t.color), if w == [] then [] else w[1..]);
      BalancedWays(t.right, h - Weight(t.color), if w == [] then [] else w[1..]);
    }
  }

  /** The way that keeps left. */
  function LeftWay(t: Tree): (w: seq<Side>)
    ensures IsWay(t, w) && Blacks(t, w) == BlackHeight(t)
  {
    if t.Nil? then [] else
      assert ([Left] + LeftWay(t.left))[1..] == LeftWay(t.left);
      [Left] + LeftWay(t.left)
  }

  lemma WayStep(t: Tree, s: Side, w: seq<Side>)
    requires t.Bin? && IsWay(Near(t, s), w)
    ensures IsWay(t, [s] + w) && Blacks(t, [s] + w) == Weight(t.color) + Blacks(Near(t, s), w)
  {
    assert ([s] + w)[1..] == w;
  }

  lemma BelowEven(t: Tree, s: Side)
    requires EvenWays(t) && t.Bin?
    ensures EvenWays(Near(t, s)) && Weight(t.color) + BlackHeight(Near(t, s)) == BlackHeight(t)
  {
    hide IsWay, Blacks, Near, BlackHeight;
    var u := Near(t, s);
    forall v, w | IsWay(u, v) && IsWay(u, w) ensures Blacks(u, v) == Blacks(u, w) {
      WayStep(t, s, v);
      WayStep(t, s, w);
    }
    WayStep(t, s, LeftWay(u));
    assert IsWay(t, LeftWay(t));
  }

  lemma {:induction false} WaysBalanced(t: Tree)
    requires NoRedPair(t) && EvenWays(t)
    ensures Balanced(t, BlackHeight(t))
  {
    if t.Bin? {
      BelowEven(t, Left);
      BelowEven(t, Right);
      WaysBalanced(t.left);
      WaysBalanced(t.right);
    }
  }

  /** The definition by heights is the textbook one: a black root, no red node with a red child, as many
      black nodes on every way to a NULL as on any other. */
  lemma RedBlackReads(t: Tree)
    ensures RedBlack(t) <==> !IsRed(t) && NoRedPair(t) && EvenWays(t)
  {
    if RedBlack(t) {
      BalancedWays(t, BlackHeight(t), []);
      forall v, w | IsWay(t, v) && IsWay(t, w) ensures Blacks(t, v) == Blacks(t, w) {
        BalancedWays(t, BlackHeight(t), v);
        BalancedWays(t, BlackHeight(t), w);
      }
    }
    if !IsRed(t) && NoRedPair(t) && EvenWays(t) { WaysBalanced(t); }
  }

  /** What the fields of a node of a valid tree say. */
  lemma NodeReads(t: RbRoot, n: Node)
    requires t.Valid() && n in t.Contents
    ensures n.left != null ==> n.left in t.Contents && n.left.parent == n && (n.color == Red ==> n.left.color == Black)
    ensures n.right != null ==>
      (n.right in t.Contents && n.right.parent == n && (n.color == Red ==> n.right.color == Black))
    ensures n.parent != null ==> n.parent in t.Contents && (n.parent.left == n) != (n.parent.right == n)
    ensures n.parent == null <==> n == t.root
    ensures n == t.root ==> n.color == Black
    ensures n.left != null && n.right != null ==> n.left != n.right
  {
    var z, h := W.SpottedNode(t, n);
    W.SpottedParent(t, z, h, n);
    W.SpottedFacts(t, z, h, n);
  }

  /** The height is the length of the longest way. */
  lemma {:induction false} HeightIsLongestWay(t: Tree, w: seq<Side>) returns (longest: seq<Side>)
    ensures IsWay(t, w) ==> |w| <= Height(t)
    ensures IsWay(t, longest) && |longest| == Height(t)
  {
    if t.Nil? { return []; }
    var l := HeightIsLongestWay(t.left, if w == [] then [] else w[1..]);
    var r := HeightIsLongestWay(t.right, if w == [] then [] else w[1..]);
    longest := if Height(t.left) < Height(t.right) then [Right] + r else [Left] + l;
    assert longest[1..] == if Height(t.left) < Height(t.right) then r else l;
  }

  /** A valid tree of n nodes has at most 2 log2(n + 1) levels. */
  lemma ValidHeight(t: RbRoot)
    requires t.Valid()
    ensures Pow2(Height(t.tree)) <= (|t.Contents| + 1) * (|t.Contents| + 1)
  {
    HeightBound(t.tree);
    SizeIsSpan(t.Fields(), t.tree, -1, 0, |t.Contents|);
  }
}
