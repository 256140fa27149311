/** How deep a red-black tree can be. */
module RbHeight {
  import opened RbShape
  import opened RbBalance

  function Pow2(n: nat): nat { if n == 0 then 1 else 2 * Pow2(n - 1) }
  function Size(t: Tree): nat { if t.Nil? then 0 else Size(t.left) + 1 + Size(t.right) }
  function Max(a: nat, b: nat): nat { if a < b then b else a }
  function Height(t: Tree): nat { if t.Nil? then 0 else 1 + Max(Height(t.left), Height(t.right)) }

  lemma {:induction false} Pow2Doubles(n: nat)
    ensures Pow2(0) == 1 && Pow2(n + 1) == Pow2(n) + Pow2(n) && n < Pow2(n)
  {
    if n > 0 { Pow2Doubles(n - 1); }
  }

  lemma {:induction false} Pow2Sum(a: nat, b: nat)
    ensures Pow2(a + b) == Pow2(a) * Pow2(b)
  {
    if a > 0 {
      Pow2Sum(a - 1, b);
      assert Pow2(a + b) == 2 * Pow2(a + b - 1);
    }
  }

  lemma {:induction false} Pow2Monotonic(a: nat, b: nat)
    requires a <= b
    ensures Pow2(a) <= Pow2(b)
  {
    if a < b { Pow2Monotonic(a, b - 1); }
  }

  /** A tree covers as many ranks as it has nodes. */
  lemma {:induction false} SizeIsSpan(m: Mem, t: Tree, par: int, lo: int, hi: int)
    requires Shape(m, t, par, lo, hi)
    ensures hi - lo == Size(t)
  {
    match t
    case Nil =>
    case Bin(l, k, _, r) =>
      SizeIsSpan(m, l, k, lo, k);
      SizeIsSpan(m, r, k, k + 1, hi);
  }

  /** A tree of black height `h` has at least 2^h - 1 nodes and at most 2h levels, 2h + 1 below a red root. */
  lemma {:induction false} BalancedSize(t: Tree, h: nat)
    requires Balanced(t, h)
    ensures Pow2(h) <= Size(t) + 1 && Height(t) <= 2 * h + (if IsRed(t) then 1 else 0)
  {
    match t
    case Nil =>
    case Bin(l, _, c, r) =>
      HeightNonNegative(l, h - Weight(c));
      BalancedSize(l, h - Weight(c));
      BalancedSize(r, h - Weight(c));
  }

  /** A red-black tree of n nodes has at most 2 log2(n + 1) levels. */
  lemma HeightBound(t: Tree)
    requires RedBlack(t)
    ensures Pow2(Height(t)) <= (Size(t) + 1) * (Size(t) + 1)
  {
    var h := BlackHeight(t);
    HeightNonNegative(t, h);
    BalancedSize(t, h);
    Pow2Monotonic(Height(t), h + h);
    Pow2Sum(h, h);
    Squares(Pow2(h), Size(t) + 1);
  }

  lemma Squares(a: nat, b: nat)
    requires a <= b
    ensures a * a <= b * b
  {
    assert a * a <= a * b <= b * b;
  }

  /** The focus is not deeper than the tree is high. */
  lemma {:induction false} DepthBound(z: Spot)
    ensures Depth(z.q) + Height(z.t) <= Height(Whole(z).t)
    decreases Depth(z.q)
  {
    if z.q.Step? { DepthBound(Up(z)); }
  }

  /** Hence a descent in a tree of n nodes takes at most 2 log2(n + 1) steps. */
  lemma DescentBound(m: Mem, root: int, z: Spot, h: int)
    requires Linked(m, root, z) == Fits && Level(z, h, 0) == Fits && !RedPair(z) && (z.q.Top? ==> !IsRed(z.t))
    ensures Pow2(Depth(z.q)) <= (|m| + 1) * (|m| + 1)
  {
    WholeLinked(m, root, z);
    WholeRedBlack(z, h);
    SizeIsSpan(m, Whole(z).t, -1, 0, |m|);
    HeightBound(Whole(z).t);
    DepthBound(z);
    Pow2Monotonic(Depth(z.q), Height(Whole(z).t));
  }
}
