/** The nodes and the root of src/rbtree.h on the heap, and the rotations of src/rbtree.c.

    `RbRoot.Contents` is the in-order sequence of the nodes, `RbRoot.tree` their shape.  `Fields` reads the
    nodes' fields as ranks; `At(z)` says that they, and the root, are those of the spot `z`. */
module RbTree {
  import opened Distinct
  import opened RbShape
  import opened RbBalance

  /** The struct that a node is embedded in, with the key that the index sorts by. */
  class Unit { var key: int }

  class Node {
    var left: Node?
    var right: Node?
    var parent: Node?
    var color: Color
    const unit: Unit

    constructor (unit: Unit)
      ensures this.unit == unit
    {
      this.unit := unit;
      left, right, parent, color := null, null, null, Red;
    }
  }

  /** Where `x` is in `s`: -1 for NULL, -2 for a node that is not in it. */
  ghost function Rank(s: seq<Node>, x: Node?): (r: int)
    ensures x == null <==> r == -1
    ensures r >= 0 ==> r < |s| && s[r] == x
    ensures Apart(s) ==> forall i :: 0 <= i < |s| && s[i] == x ==> r == i
  {
    if x == null then -1 else if x in s then Position(s, x) else -2
  }

  ghost function CellOf(s: seq<Node>, n: Node): Cell
    reads n
  {
    Cell(Rank(s, n.left), Rank(s, n.right), Rank(s, n.parent), n.color)
  }

  ghost function Snapshot(s: seq<Node>): Mem
    reads s
  {
    seq(|s|, i requires 0 <= i < |s| reads s => CellOf(s, s[i]))
  }

  class RbRoot {
    var root: Node?
    ghost var Contents: seq<Node>
    ghost var tree: Tree

    /** RB_ROOT: the empty tree, from which all others come. */
    constructor ()
      ensures Valid() && root == null && Contents == []
    {
      root, Contents, tree := null, [], Nil;
    }

    ghost function Fields(): Mem
      reads this`Contents, Contents
    {
      Snapshot(Contents)
    }

    ghost function At(z: Spot): Fit
      reads this`root, this`Contents, Contents
    {
      if Apart(Contents) then Linked(Fields(), Rank(Contents, root), z) else Misfit
    }

    /** A red-black tree whose in-order sequence is `Contents`. */
    ghost predicate Valid()
      reads this, Contents
    {
      At(Spot(tree, Top, 0, |Contents|)) == Fits && RedBlack(tree)
    }

    /** In a valid tree, child and parent links agree. */
    lemma LinksAgree()
      requires Valid()
      ensures Apart(Contents) && Wired(Fields())
    {
      ShapeWired(Fields(), tree, -1, 0, |Contents|);
    }

    ghost function Ref(i: int): (n: Node?)
      reads this`Contents
      ensures n != null ==> n in Contents
    {
      if 0 <= i < |Contents| then Contents[i] else null
    }

    lemma GoUp(z: Spot)
      requires At(z) == Fits && z.q.Step?
      ensures At(Up(z)) == Fits
    {
      UpLinked(Fields(), Rank(Contents, root), z);
    }

    lemma GoDown(z: Spot, s: Side)
      requires At(z) == Fits && z.t.Bin?
      ensures At(Down(z, s)) == Fits
    {
      DownLinked(Fields(), Rank(Contents, root), z, s);
    }

    lemma GoToTop(z: Spot)
      requires At(z) == Fits
      ensures At(Whole(z)) == Fits && Whole(z).q == Top && Whole(z).lo == 0 && Whole(z).hi == |Contents|
    {
      WholeLinked(Fields(), Rank(Contents, root), z);
    }

    /** What the fields of the focused node and of its parent say. */
    lemma Look(z: Spot)
      requires At(z) == Fits
      ensures z.t.Bin? ==> 0 <= z.t.k < |Contents| && var n := Contents[z.t.k];
        n.left == Ref(Ptr(z.t.left)) && n.right == Ref(Ptr(z.t.right)) && n.parent == Ref(Holder(z.q))
        && n.color == z.t.color
      ensures z.t.Bin? && z.t.left.Bin? ==> Ref(z.t.left.k) != null
      ensures z.t.Bin? && z.t.right.Bin? ==> Ref(z.t.right.k) != null
      ensures z.q.Top? ==> root == Ref(Ptr(z.t))
      ensures z.q.Step? ==> 0 <= z.q.k < |Contents| && var p := Contents[z.q.k];
        && p.parent == Ref(Holder(z.q.up)) && p.color == z.q.color
        && p.left == Ref(Ptr(if z.q.side == Left then z.t else z.q.sib))
        && p.right == Ref(Ptr(if z.q.side == Left then z.q.sib else z.t))
      ensures z.q.Step? && z.q.sib.Bin? ==> Ref(z.q.sib.k) != null && Ref(z.q.sib.k) != Ref(Ptr(z.t))
    {
      Around(Fields(), Rank(Contents, root), z);
    }

    /** What the color field of the sibling says. */
    lemma LookSib(z: Spot)
      requires At(z) == Fits && z.q.Step?
      ensures z.q.sib.Bin? ==> 0 <= z.q.sib.k < |Contents| && Contents[z.q.sib.k].color == z.q.sib.color
    {
      GoUp(z);
      GoDown(Up(z), Flip(z.q.side));
      Look(Down(Up(z), Flip(z.q.side)));
    }

    method SetColor(n: Node, c: Color, ghost z: Spot)
      requires At(z) == Fits && z.t.Bin? && n == Ref(z.t.k)
      modifies n`color
      ensures At(Paint(z, c)) == Fits
    {
      ghost var m := Fields();
      Around(m, Rank(Contents, root), z);
      n.color := c;
      RecolorLinked(m, Fields(), Rank(Contents, root), z, c);
    }

    method SetHolderColor(n: Node, c: Color, ghost z: Spot)
      requires At(z) == Fits && z.q.Step? && n == Ref(z.q.k)
      modifies n`color
      ensures At(PaintHolder(z, c)) == Fits
    {
      ghost var m := Fields();
      Around(m, Rank(Contents, root), z);
      n.color := c;
      RecolorHolderLinked(m, Fields(), Rank(Contents, root), z, c);
    }

    method SetSibColor(n: Node, c: Color, ghost z: Spot)
      requires At(z) == Fits && z.q.Step? && z.q.sib.Bin? && n == Ref(z.q.sib.k)
      modifies n`color
      ensures At(PaintSib(z, c)) == Fits
    {
      ghost var m := Fields();
      Around(m, Rank(Contents, root), z);
      n.color := c;
      RecolorSibLinked(m, Fields(), Rank(Contents, root), z, c);
    }

    /** The first statements of a rotation: `node` goes below `right`. */
    method SinkLeft(node: Node, right: Node)
      requires Apart(Contents) && node in Contents && right in Contents && right == node.right
      requires CanTurnLeft(Fields(), Rank(Contents, node))
      modifies Contents
      ensures var h := old(node.parent); node.parent == h && h != node && (h != null ==>
        (h in Contents && (h.left == node) != (h.right == node)))
      ensures forall i {:trigger Fields()[i]} :: 0 <= i < |Contents| ==>
        (Fields()[i] == SunkLeft(old(Fields()), Rank(Contents, node), i))
    {
      hide Apart, Rank;
      node.right := right.left;
      if node.right != null {
        right.left.parent := node;
      }
      right.left := node;
    }

    /** The other statements: `right` goes below the former parent of `node`. */
    method RiseLeft(node: Node, right: Node, parent: Node?)
      requires Apart(Contents) && node in Contents && right in Contents && (parent != null ==> parent in Contents)
      requires node != right && parent != node && parent != right
      requires parent != null ==> (parent.left == node) != (parent.right == node)
      modifies this`root, Contents
      ensures root == if parent == null then right else old(root)
      ensures forall i {:trigger Fields()[i]} :: 0 <= i < |Contents| ==> (var s := Contents;
        Fields()[i] == Risen(old(Fields()), Rank(s, node), Rank(s, right), Rank(s, parent), i))
    {
      hide Apart, Rank;
      right.parent := parent;

      if parent != null {
        if node == parent.left {
          parent.left := right;
        } else {
          parent.right := right;
        }
      } else {
        root := right;
      }
      node.parent := right;
    }

    method RotateLeft(node: Node)
      requires Apart(Contents) && node in Contents && node.right in Contents
      requires CanTurnLeft(Fields(), Rank(Contents, node))
      modifies this`root, Contents
      ensures root == if old(node.parent) == null then old(node.right) else old(root)
      ensures forall i {:trigger Fields()[i]} :: 0 <= i < |Contents| ==>
        (Fields()[i] == TurnedLeft(old(Fields()), Rank(Contents, node), i))
    {
      hide Apart, Rank, TurnedLeft, Risen;
      ghost var m := Fields();
      var right := node.right;
      var parent := node.parent;
      SinkLeft(node, right);
      ghost var m1 := Fields();
      RiseLeft(node, right, parent);
      forall i | 0 <= i < |Contents| ensures Fields()[i] == TurnedLeft(m, Rank(Contents, node), i) {
        TurnedLeftInSteps(m, m1, Rank(Contents, node), i);
      }
    }

    method RotateLeftAt(node: Node, ghost z: Spot)
      requires At(z) == Fits && z.t.Bin? && z.t.right.Bin? && node == Ref(z.t.k)
      modifies this`root, Contents
      ensures At(z.(t := RotL(z.t))) == Fits
    {
      ghost var m, top := Fields(), Rank(Contents, root);
      TurnLeftFacts(m, top, z);
      Around(m, top, z);
      RotateLeft(node);
      RotLLinked(m, Fields(), top, Rank(Contents, root), z);
    }

    /** The first statements of a rotation: `node` goes below `left`. */
    method SinkRight(node: Node, left: Node)
      requires Apart(Contents) && node in Contents && left in Contents && left == node.left
      requires CanTurnRight(Fields(), Rank(Contents, node))
      modifies Contents
      ensures var h := old(node.parent); node.parent == h && h != node && (h != null ==>
        (h in Contents && (h.left == node) != (h.right == node)))
      ensures forall i {:trigger Fields()[i]} :: 0 <= i < |Contents| ==>
        (Fields()[i] == SunkRight(old(Fields()), Rank(Contents, node), i))
    {
      hide Apart, Rank;
      node.left := left.right;
      if node.left != null {
        left.right.parent := node;
      }
      left.right := node;
    }

    /** The other statements: `left` goes below the former parent of `node`. */
    method RiseRight(node: Node, left: Node, parent: Node?)
      requires Apart(Contents) && node in Contents && left in Contents && (parent != null ==> parent in Contents)
      requires node != left && parent != node && parent != left
      requires parent != null ==> (parent.left == node) != (parent.right == node)
      modifies this`root, Contents
      ensures root == if parent == null then left else old(root)
      ensures forall i {:trigger Fields()[i]} :: 0 <= i < |Contents| ==> (var s := Contents;
        Fields()[i] == Risen(old(Fields()), Rank(s, node), Rank(s, left), Rank(s, parent), i))
    {
      hide Apart, Rank;
      left.parent := parent;

      if parent != null {
        if node == parent.right {
          parent.right := left;
        } else {
          parent.left := left;
        }
      } else {
        root := left;
      }
      node.parent := left;
    }

    method RotateRight(node: Node)
      requires Apart(Contents) && node in Contents && node.left in Contents
      requires CanTurnRight(Fields(), Rank(Contents, node))
      modifies this`root, Contents
      ensures root == if old(node.parent) == null then old(node.left) else old(root)
      ensures forall i {:trigger Fields()[i]} :: 0 <= i < |Contents| ==>
        (Fields()[i] == TurnedRight(old(Fields()), Rank(Contents, node), i))
    {
      hide Apart, Rank, TurnedRight, Risen;
      ghost var m := Fields();
      var left := node.left;
      var parent := node.parent;
      SinkRight(node, left);
      ghost var m1 := Fields();
      RiseRight(node, left, parent);
      forall i | 0 <= i < |Contents| ensures Fields()[i] == TurnedRight(m, Rank(Contents, node), i) {
        TurnedRightInSteps(m, m1, Rank(Contents, node), i);
      }
    }

    method RotateRightAt(node: Node, ghost z: Spot)
      requires At(z) == Fits && z.t.Bin? && z.t.left.Bin? && node == Ref(z.t.k)
      modifies this`root, Contents
      ensures At(z.(t := RotR(z.t))) == Fits
    {
      ghost var m, top := Fields(), Rank(Contents, root);
      TurnRightFacts(m, top, z);
      Around(m, top, z);
      RotateRight(node);
      RotRLinked(m, Fields(), top, Rank(Contents, root), z);
    }
  }
}
