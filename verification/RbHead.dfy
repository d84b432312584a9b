/** The head of a red-black tree and the steps all operations share: reading around a node,
    painting a node, and the two rotations. */
module RbHead {
  import opened RbShape
  import opened RbLinks
  import opened KeyOrder

  method SetColor(x: Node, red: bool, ghost s: set<Node>)
    requires x in s
    modifies x`red
    ensures Snapshot(s) == old(Snapshot(s))[x := old(Snapshot(s))[x].(red := red)]
  {
    x.red := red;
  }

  class Head {
    var root: Node?
    ghost var shape: Tree<Node>

    /** RB_INIT. */
    constructor ()
      ensures shape == Leaf && Shows(shape)
    {
      root, shape := null, Leaf;
    }

    ghost predicate Shows(t: Tree<Node>)
      reads this`root, Nodes(t)
    {
      At(Snapshot(Nodes(t)), root, Top, t)
    }

    /** The heap carries the shape, which is a red-black tree and a search tree for `cmp`. */
    ghost predicate Valid(cmp: (Node, Node) -> int)
      reads this, Nodes(shape)
    {
      && Shows(shape) && RedBlack(shape)
      && Comparator(cmp, Nodes(shape)) && Sorted(cmp, Inorder(shape))
    }

    /** What can be read around a node that is the top of the subtree `t` in context `c`. */
    lemma Look(c: Ctx<Node>, t: Tree<Node>)
      requires Shows(Plug(c, t))
      ensures t.Bin? ==>
        && t.node.left == RootOf(t.left) && t.node.right == RootOf(t.right)
        && t.node.parent == Up(c) && t.node.red == t.red && t.node in Nodes(Plug(c, t))
      ensures if c.Top? then root == RootOf(t)
        else
          && c.node.parent == Up(c.up) && c.node.red == c.red && c.node in Nodes(Plug(c, t))
          && (c.side == Left ==> c.node.left == RootOf(t) && c.node.right == RootOf(c.other))
          && (c.side == Right ==> c.node.right == RootOf(t) && c.node.left == RootOf(c.other))
      ensures c.Under? && t.Bin? && c.other.Bin? ==> t.node != c.other.node
    {
      NodesPlug(c, t);
      AtPlug(Snapshot(Nodes(Plug(c, t))), root, c, t);
      assert t.Bin? ==> t.node in Nodes(t);
      assert c.Under? && c.other.Bin? ==> c.other.node in Nodes(c.other);
    }

    lemma RootOrNot(c: Ctx<Node>, t: Tree<Node>)
      requires Shows(Plug(c, t))
      ensures root != RootOf(t) <==> c.Under?
    {
      NodesPlug(c, t);
      if c.Under? {
        PlugBin(c, t);
        RootIn(c, t);
      }
    }

    /** RB_COLOR(x) = red. */
    method Paint(x: Node, red: bool, ghost c: Ctx<Node>, ghost t: Tree<Node>)
      requires t.Bin? && t.node == x && Shows(Plug(c, t))
      modifies Nodes(Plug(c, t))`red
      ensures Shows(Plug(c, t.(red := red)))
      ensures Nodes(Plug(c, t.(red := red))) == Nodes(Plug(c, t))
      ensures Inorder(Plug(c, t.(red := red))) == Inorder(Plug(c, t))
    {
      ghost var s := Nodes(Plug(c, t));
      ghost var m := Snapshot(s);
      AtPlug(m, root, c, t);
      NodesPlug(c, t);
      NodesPlug(c, t.(red := red));
      assert x in Nodes(t);
      SetColor(x, red, s);
      SameOrder(c, t, t.(red := red));
      Painted(m, Snapshot(s), root, c, t, red);
      AtPlug(Snapshot(s), root, c, t.(red := red));
    }

    /** RB_ROTATE_LEFT on nodes drawn from `s`. */
    method TurnLeft(elm: Node, ghost s: set<Node>) returns (tmp: Node)
      requires elm in s && elm.right != null && elm.right in s && elm.right != elm
      requires elm.right.left != null ==> elm.right.left in s - {elm, elm.right, elm.parent}
      requires elm.parent != null ==> elm.parent in s - {elm, elm.right}
      modifies this`root, s
      ensures Rotation(Left, old(Snapshot(s)), old(root), elm, tmp, Snapshot(s), root)
      ensures tmp == old(elm.right)
    {
      tmp := elm.right;
      elm.right := tmp.left;
      if elm.right != null {
        tmp.left.parent := elm;
      }
      tmp.parent := elm.parent;
      if tmp.parent != null {
        if elm == elm.parent.left {
          elm.parent.left := tmp;
        } else {
          elm.parent.right := tmp;
        }
      } else {
        root := tmp;
      }
      tmp.left := elm;
      elm.parent := tmp;
    }

    method RotateLeft(elm: Node, ghost c: Ctx<Node>, ghost t: Tree<Node>) returns (tmp: Node)
      requires t.Bin? && t.node == elm && t.right.Bin? && Shows(Plug(c, t))
      modifies this`root, Nodes(Plug(c, t))
      ensures Shows(Plug(c, LeftTurn(t))) && tmp == t.right.node
      ensures Nodes(Plug(c, LeftTurn(t))) == Nodes(Plug(c, t)) && Inorder(Plug(c, LeftTurn(t))) == Inorder(Plug(c, t))
    {
      ghost var s, root0 := Nodes(Plug(c, t)), root;
      ghost var m := Snapshot(s);
      AtPlug(m, root, c, t);
      LeftTurnNodes(c, t);
      LeftTurned(c, t);
      assert Linked(m, t.right, elm) && Linked(m, t.right.left, t.right.node);
      tmp := TurnLeft(elm, s);
      RotatedLeft(m, root0, Snapshot(s), root, c, t.left, elm, t.red, t.right.left, tmp, t.right.red, t.right.right);
      AtPlug(Snapshot(s), root, c, LeftTurn(t));
    }

    /** RB_ROTATE_RIGHT on nodes drawn from `s`. */
    method TurnRight(elm: Node, ghost s: set<Node>) returns (tmp: Node)
      requires elm in s && elm.left != null && elm.left in s && elm.left != elm
      requires elm.left.right != null ==> elm.left.right in s - {elm, elm.left, elm.parent}
      requires elm.parent != null ==> elm.parent in s - {elm, elm.left}
      modifies this`root, s
      ensures Rotation(Right, old(Snapshot(s)), old(root), elm, tmp, Snapshot(s), root)
      ensures tmp == old(elm.left)
    {
      tmp := elm.left;
      elm.left := tmp.right;
      if elm.left != null {
        tmp.right.parent := elm;
      }
      tmp.parent := elm.parent;
      if tmp.parent != null {
        if elm == elm.parent.left {
          elm.parent.left := tmp;
        } else {
          elm.parent.right := tmp;
        }
      } else {
        root := tmp;
      }
      tmp.right := elm;
      elm.parent := tmp;
    }

    method RotateRight(elm: Node, ghost c: Ctx<Node>, ghost t: Tree<Node>) returns (tmp: Node)
      requires t.Bin? && t.node == elm && t.left.Bin? && Shows(Plug(c, t))
      modifies this`root, Nodes(Plug(c, t))
      ensures Shows(Plug(c, RightTurn(t))) && tmp == t.left.node
      ensures Nodes(Plug(c, RightTurn(t))) == Nodes(Plug(c, t)) && Inorder(Plug(c, RightTurn(t))) == Inorder(Plug(c, t))
    {
      ghost var s, root0 := Nodes(Plug(c, t)), root;
      ghost var m := Snapshot(s);
      AtPlug(m, root, c, t);
      RightTurnNodes(c, t);
      RightTurned(c, t);
      assert Linked(m, t.left, elm) && Linked(m, t.left.right, t.left.node);
      tmp := TurnRight(elm, s);
      RotatedRight(m, root0, Snapshot(s), root, c, t.right, elm, t.red, t.left.right, tmp, t.left.red, t.left.left);
      AtPlug(Snapshot(s), root, c, RightTurn(t));
    }
  }

  lemma {:induction false} LeftTurnNodes<T>(c: Ctx<T>, t: Tree<T>)
    requires t.Bin? && t.right.Bin? && Distinct(t) && Nodes(t) !! CtxNodes(c)
    ensures Nodes(Plug(c, LeftTurn(t))) == Nodes(Plug(c, t)) == CtxNodes(c) + Nodes(t)
    ensures var (x, y, b) := (t.node, t.right.node, t.right.left);
      && x != y && x in Nodes(t) && y in Nodes(t)
      && (b.Bin? ==> b.node in Nodes(t) && b.node != x && b.node != y)
      && (c.Under? ==> c.node in CtxNodes(c))
  {
    NodesPlug(c, t);
    NodesPlug(c, LeftTurn(t));
    assert Distinct(t.right);
  }

  lemma {:induction false} RightTurnNodes<T>(c: Ctx<T>, t: Tree<T>)
    requires t.Bin? && t.left.Bin? && Distinct(t) && Nodes(t) !! CtxNodes(c)
    ensures Nodes(Plug(c, RightTurn(t))) == Nodes(Plug(c, t)) == CtxNodes(c) + Nodes(t)
    ensures var (x, y, b) := (t.node, t.left.node, t.left.right);
      && x != y && x in Nodes(t) && y in Nodes(t)
      && (b.Bin? ==> b.node in Nodes(t) && b.node != x && b.node != y)
      && (c.Under? ==> c.node in CtxNodes(c))
  {
    NodesPlug(c, t);
    NodesPlug(c, RightTurn(t));
    assert Distinct(t.left);
  }

  lemma {:induction false} RootIn<T>(c: Ctx<T>, t: Tree<T>)
    requires c.Under?
    ensures Plug(c, t).Bin? && Plug(c, t).node in CtxNodes(c)
  {
    if !c.up.Under? {
    } else {
      RootIn(c.up, Join(c.side, t, c.node, c.red, c.other));
    }
  }
}
