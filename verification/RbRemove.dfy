/** Removal from a red-black tree. */
module RbRemove {
  import opened KeyOrder
  import opened RbShape
  import opened RbLinks
  import opened RbHead

  ghost function LoweredLeft<T>(c: Ctx<T>): Ctx<T>
    requires c.Under? && c.other.Bin?
  {
    var s := c.other;
    Under(Under(c.up, Left, s.node, false, s.right), Left, c.node, true, s.left)
  }

  ghost function LoweredRight<T>(c: Ctx<T>): Ctx<T>
    requires c.Under? && c.other.Bin?
  {
    var s := c.other;
    Under(Under(c.up, Right, s.node, false, s.left), Right, c.node, true, s.right)
  }

  /** Decreases at every round of the removal loop: a red top ends it. */
  ghost function Hunger<T>(c: Ctx<T>, t: Tree<T>): nat {
    if Red(t) then 0 else 1 + Depth(c)
  }

  /** A red sibling: it turns black, the parent red, and the parent is rotated down. */
  method LowerLeft(head: Head, parent: Node, sibling: Node, ghost c: Ctx<Node>, ghost t: Tree<Node>)
    requires head.Shows(Plug(c, t)) && Starved(c, t) && c.Under? && Red(c.other) && c.side == Left
    requires c.node == parent && c.other.node == sibling
    modifies head`root, Nodes(Plug(c, t))
    ensures var c' := LoweredLeft(c);
      && head.Shows(Plug(c', t)) && Starved(c', t)
      && Nodes(Plug(c', t)) == Nodes(Plug(c, t)) && Inorder(Plug(c', t)) == Inorder(Plug(c, t))
  {
    ghost var s := c.other;
    StarvedRedSibling(c, t);
    head.Paint(sibling, false, Under(c.up, Right, parent, c.red, t), s);
    head.Paint(parent, true, c.up, Bin(t, parent, c.red, s.(red := false)));
    var _ := head.RotateLeft(parent, c.up, Bin(t, parent, true, s.(red := false)));
  }

  /** A black sibling with its red child on the near side: that child takes its place. */
  method TurnNearLeft(head: Head, sibling: Node, ghost c: Ctx<Node>, ghost t: Tree<Node>)
    requires head.Shows(Plug(c, t)) && Starved(c, t) && c.Under? && c.side == Left && c.other.Bin? && !c.other.red
    requires Red(c.other.left) && !Red(c.other.right) && c.other.node == sibling
    modifies head`root, Nodes(Plug(c, t))
    ensures var c' := c.(other := RightTurn(c.other.(red := true, left := c.other.left.(red := false))));
      && head.Shows(Plug(c', t)) && Starved(c', t) && Red(c'.other.right)
      && Nodes(Plug(c', t)) == Nodes(Plug(c, t)) && Inorder(Plug(c', t)) == Inorder(Plug(c, t))
  {
    ghost var (s, sc) := (c.other, Under(c.up, Right, c.node, c.red, t));
    ghost var s' := s.(red := true, left := s.left.(red := false));
    head.Look(sc, s);
    var oleft := sibling.left;
    if oleft != null {
      head.Paint(oleft, false, Under(sc, Left, sibling, false, s.right), s.left);
    }
    head.Paint(sibling, true, sc, s.(left := s.left.(red := false)));
    oleft := head.RotateRight(sibling, sc, s');
    StarvedNear(c, t);
  }

  /** A black sibling with a red child on the far side: the last step. */
  method FeedLeft(head: Head, parent: Node, tmp: Node, ghost c: Ctx<Node>, ghost t: Tree<Node>) returns (ghost t': Tree<Node>)
    requires head.Shows(Plug(c, t)) && Starved(c, t) && !Red(t) && c.Under? && c.side == Left
    requires c.other.Bin? && !c.other.red && Red(c.other.right) && c.node == parent && c.other.node == tmp
    modifies head`root, Nodes(Plug(c, t))
    ensures head.Shows(t') && RedBlack(t') && Nodes(t') == Nodes(Plug(c, t)) && Inorder(t') == Inorder(Plug(c, t))
  {
    ghost var (s, f) := (c.other, c.other.right);
    ghost var s1 := s.(red := c.red);
    ghost var s2 := s1.(right := f.(red := false));
    head.Look(c, t);
    head.Look(Under(c.up, Right, parent, c.red, t), s);
    head.Paint(tmp, parent.red, Under(c.up, Right, parent, c.red, t), s);
    head.Paint(parent, false, c.up, Bin(t, parent, c.red, s1));
    head.Look(Under(c.up, Right, parent, false, t), s1);
    if tmp.right != null {
      head.Paint(tmp.right, false, Under(Under(c.up, Right, parent, false, t), Right, tmp, c.red, s.left), f);
    }
    var _ := head.RotateLeft(parent, c.up, Bin(t, parent, false, s2));
    t' := Plug(c.up, LeftTurn(Bin(t, parent, false, s2)));
    StarvedFar(c, t);
  }

  /** The rest of the removal loop's body for a left child, once the sibling `tmp0` is black. */
  method FillLeft(head: Head, parent0: Node, tmp0: Node, ghost c0: Ctx<Node>, ghost t0: Tree<Node>)
    returns (elm: Node?, parent: Node?, done: bool, ghost c: Ctx<Node>, ghost t: Tree<Node>)
    requires head.Shows(Plug(c0, t0)) && Starved(c0, t0) && !Red(t0) && c0.Under? && c0.side == Left
    requires c0.other.Bin? && !c0.other.red && parent0 == c0.node && tmp0 == c0.other.node
    modifies head`root, Nodes(Plug(c0, t0))
    ensures head.Shows(Plug(c, t)) && Starved(c, t) && elm == RootOf(t) && (done ==> c == Top)
    ensures !done ==> parent == Up(c) && Hunger(c, t) < if c0.red then 1 else 1 + Depth(c0)
    ensures Nodes(Plug(c, t)) == Nodes(Plug(c0, t0)) && Inorder(Plug(c, t)) == Inorder(Plug(c0, t0))
  {
    var tmp := tmp0;
    parent, done, c, t := parent0, false, c0, t0;
    ghost var (s, sc) := (c.other, Under(c.up, Right, parent0, c.red, t));
    head.Look(sc, s);
    head.Look(Under(sc, Left, tmp, s.red, s.right), s.left);
    head.Look(Under(sc, Right, tmp, s.red, s.left), s.right);
    if (tmp.left == null || !tmp.left.red) && (tmp.right == null || !tmp.right.red) {
      StarvedUp(c, t);
      head.Paint(tmp, true, sc, s);
      t := Bin(t, parent0, c.red, s.(red := true));
      c := c.up;
      elm := parent0;
      head.Look(c, t);
      parent := elm.parent;
    } else {
      if tmp.right == null || !tmp.right.red {
        TurnNearLeft(head, tmp, c, t);
        c := c.(other := RightTurn(s.(red := true, left := s.left.(red := false))));
        head.Look(c, t);
        tmp := parent0.right;
      }
      t := FeedLeft(head, parent0, tmp, c, t);
      c, done := Top, true;
      head.Look(c, t);
      elm := head.root;
    }
  }

  /** The body of the removal loop for a left child; `done` where the loop breaks off. */
  method RefillLeft(head: Head, elm0: Node?, parent0: Node, ghost c0: Ctx<Node>, ghost t0: Tree<Node>)
    returns (elm: Node?, parent: Node?, done: bool, ghost c: Ctx<Node>, ghost t: Tree<Node>)
    requires head.Shows(Plug(c0, t0)) && Starved(c0, t0) && !Red(t0) && c0.Under? && c0.side == Left
    requires elm0 == RootOf(t0) && parent0 == c0.node
    modifies head`root, Nodes(Plug(c0, t0))
    ensures head.Shows(Plug(c, t)) && Starved(c, t) && elm == RootOf(t) && (done ==> c == Top)
    ensures !done ==> parent == Up(c) && Hunger(c, t) < Hunger(c0, t0)
    ensures Nodes(Plug(c, t)) == Nodes(Plug(c0, t0)) && Inorder(Plug(c, t)) == Inorder(Plug(c0, t0))
  {
    ghost var c1 := c0;
    StarvedSibling(c1, t0);
    head.Look(c1, t0);
    head.Look(Under(c1.up, Right, parent0, c1.red, t0), c1.other);
    var tmp := parent0.right;
    if tmp.red {
      StarvedRedSibling(c1, t0);
      LowerLeft(head, parent0, tmp, c1, t0);
      c1 := LoweredLeft(c1);
      StarvedSibling(c1, t0);
      head.Look(c1, t0);
      tmp := parent0.right;
    }
    elm, parent, done, c, t := FillLeft(head, parent0, tmp, c1, t0);
  }

  /** A red sibling: it turns black, the parent red, and the parent is rotated down. */
  method LowerRight(head: Head, parent: Node, sibling: Node, ghost c: Ctx<Node>, ghost t: Tree<Node>)
    requires head.Shows(Plug(c, t)) && Starved(c, t) && c.Under? && Red(c.other) && c.side == Right
    requires c.node == parent && c.other.node == sibling
    modifies head`root, Nodes(Plug(c, t))
    ensures var c' := LoweredRight(c);
      && head.Shows(Plug(c', t)) && Starved(c', t)
      && Nodes(Plug(c', t)) == Nodes(Plug(c, t)) && Inorder(Plug(c', t)) == Inorder(Plug(c, t))
  {
    ghost var s := c.other;
    StarvedRedSibling(c, t);
    head.Paint(sibling, false, Under(c.up, Left, parent, c.red, t), s);
    head.Paint(parent, true, c.up, Bin(s.(red := false), parent, c.red, t));
    var _ := head.RotateRight(parent, c.up, Bin(s.(red := false), parent, true, t));
  }

  /** A black sibling with its red child on the near side: that child takes its place. */
  method TurnNearRight(head: Head, sibling: Node, ghost c: Ctx<Node>, ghost t: Tree<Node>)
    requires head.Shows(Plug(c, t)) && Starved(c, t) && c.Under? && c.side == Right && c.other.Bin? && !c.other.red
    requires Red(c.other.right) && !Red(c.other.left) && c.other.node == sibling
    modifies head`root, Nodes(Plug(c, t))
    ensures var c' := c.(other := LeftTurn(c.other.(red := true, right := c.other.right.(red := false))));
      && head.Shows(Plug(c', t)) && Starved(c', t) && Red(c'.other.left)
      && Nodes(Plug(c', t)) == Nodes(Plug(c, t)) && Inorder(Plug(c', t)) == Inorder(Plug(c, t))
  {
    ghost var (s, sc) := (c.other, Under(c.up, Left, c.node, c.red, t));
    ghost var s' := s.(red := true, right := s.right.(red := false));
    head.Look(sc, s);
    var oright := sibling.right;
    if oright != null {
      head.Paint(oright, false, Under(sc, Right, sibling, false, s.left), s.right);
    }
    head.Paint(sibling, true, sc, s.(right := s.right.(red := false)));
    oright := head.RotateLeft(sibling, sc, s');
    StarvedNear(c, t);
  }

  /** A black sibling with a red child on the far side: the last step. */
  method FeedRight(head: Head, parent: Node, tmp: Node, ghost c: Ctx<Node>, ghost t: Tree<Node>) returns (ghost t': Tree<Node>)
    requires head.Shows(Plug(c, t)) && Starved(c, t) && !Red(t) && c.Under? && c.side == Right
    requires c.other.Bin? && !c.other.red && Red(c.other.left) && c.node == parent && c.other.node == tmp
    modifies head`root, Nodes(Plug(c, t))
    ensures head.Shows(t') && RedBlack(t') && Nodes(t') == Nodes(Plug(c, t)) && Inorder(t') == Inorder(Plug(c, t))
  {
    ghost var (s, f) := (c.other, c.other.left);
    ghost var s1 := s.(red := c.red);
    ghost var s2 := s1.(left := f.(red := false));
    head.Look(c, t);
    head.Look(Under(c.up, Left, parent, c.red, t), s);
    head.Paint(tmp, parent.red, Under(c.up, Left, parent, c.red, t), s);
    head.Paint(parent, false, c.up, Bin(s1, parent, c.red, t));
    head.Look(Under(c.up, Left, parent, false, t), s1);
    if tmp.left != null {
      head.Paint(tmp.left, false, Under(Under(c.up, Left, parent, false, t), Left, tmp, c.red, s.right), f);
    }
    var _ := head.RotateRight(parent, c.up, Bin(s2, parent, false, t));
    t' := Plug(c.up, RightTurn(Bin(s2, parent, false, t)));
    StarvedFar(c, t);
  }

  /** The rest of the body for a right child. */
  method FillRight(head: Head, parent0: Node, tmp0: Node, ghost c0: Ctx<Node>, ghost t0: Tree<Node>)
    returns (elm: Node?, parent: Node?, done: bool, ghost c: Ctx<Node>, ghost t: Tree<Node>)
    requires head.Shows(Plug(c0, t0)) && Starved(c0, t0) && !Red(t0) && c0.Under? && c0.side == Right
    requires c0.other.Bin? && !c0.other.red && parent0 == c0.node && tmp0 == c0.other.node
    modifies head`root, Nodes(Plug(c0, t0))
    ensures head.Shows(Plug(c, t)) && Starved(c, t) && elm == RootOf(t) && (done ==> c == Top)
    ensures !done ==> parent == Up(c) && Hunger(c, t) < if c0.red then 1 else 1 + Depth(c0)
    ensures Nodes(Plug(c, t)) == Nodes(Plug(c0, t0)) && Inorder(Plug(c, t)) == Inorder(Plug(c0, t0))
  {
    var tmp := tmp0;
    parent, done, c, t := parent0, false, c0, t0;
    ghost var (s, sc) := (c.other, Under(c.up, Left, parent0, c.red, t));
    head.Look(sc, s);
    head.Look(Under(sc, Right, tmp, s.red, s.left), s.right);
    head.Look(Under(sc, Left, tmp, s.red, s.right), s.left);
    if (tmp.left == null || !tmp.left.red) && (tmp.right == null || !tmp.right.red) {
      StarvedUp(c, t);
      head.Paint(tmp, true, sc, s);
      t := Bin(s.(red := true), parent0, c.red, t);
      c := c.up;
      elm := parent0;
      head.Look(c, t);
      parent := elm.parent;
    } else {
      if tmp.left == null || !tmp.left.red {
        TurnNearRight(head, tmp, c, t);
        c := c.(other := LeftTurn(s.(red := true, right := s.right.(red := false))));
        head.Look(c, t);
        tmp := parent0.left;
      }
      t := FeedRight(head, parent0, tmp, c, t);
      c, done := Top, true;
      head.Look(c, t);
      elm := head.root;
    }
  }

  /** The body of the removal loop for a right child; `done` where the loop breaks off. */
  method RefillRight(head: Head, elm0: Node?, parent0: Node, ghost c0: Ctx<Node>, ghost t0: Tree<Node>)
    returns (elm: Node?, parent: Node?, done: bool, ghost c: Ctx<Node>, ghost t: Tree<Node>)
    requires head.Shows(Plug(c0, t0)) && Starved(c0, t0) && !Red(t0) && c0.Under? && c0.side == Right
    requires elm0 == RootOf(t0) && parent0 == c0.node
    modifies head`root, Nodes(Plug(c0, t0))
    ensures head.Shows(Plug(c, t)) && Starved(c, t) && elm == RootOf(t) && (done ==> c == Top)
    ensures !done ==> parent == Up(c) && Hunger(c, t) < Hunger(c0, t0)
    ensures Nodes(Plug(c, t)) == Nodes(Plug(c0, t0)) && Inorder(Plug(c, t)) == Inorder(Plug(c0, t0))
  {
    ghost var c1 := c0;
    StarvedSibling(c1, t0);
    head.Look(c1, t0);
    head.Look(Under(c1.up, Left, parent0, c1.red, t0), c1.other);
    var tmp := parent0.left;
    if tmp.red {
      StarvedRedSibling(c1, t0);
      LowerRight(head, parent0, tmp, c1, t0);
      c1 := LoweredRight(c1);
      StarvedSibling(c1, t0);
      head.Look(c1, t0);
      tmp := parent0.left;
    }
    elm, parent, done, c, t := FillRight(head, parent0, tmp, c1, t0);
  }

  /** One turn of the removal loop. */
  method Refill(head: Head, elm0: Node?, parent0: Node, ghost c0: Ctx<Node>, ghost t0: Tree<Node>)
    returns (elm: Node?, parent: Node?, done: bool, ghost c: Ctx<Node>, ghost t: Tree<Node>)
    requires head.Shows(Plug(c0, t0)) && Starved(c0, t0) && !Red(t0) && c0.Under?
    requires elm0 == RootOf(t0) && parent0 == c0.node
    modifies head`root, Nodes(Plug(c0, t0))
    ensures head.Shows(Plug(c, t)) && Starved(c, t) && elm == RootOf(t) && (done ==> c == Top)
    ensures !done ==> parent == Up(c) && Hunger(c, t) < Hunger(c0, t0)
    ensures (elm != head.root <==> c.Under?) && (t.Bin? ==> elm.red == t.red)
    ensures Nodes(Plug(c, t)) == Nodes(Plug(c0, t0)) && Inorder(Plug(c, t)) == Inorder(Plug(c0, t0))
  {
    head.Look(c0, t0);
    if parent0.left == elm0 {
      elm, parent, done, c, t := RefillLeft(head, elm0, parent0, c0, t0);
    } else {
      elm, parent, done, c, t := RefillRight(head, elm0, parent0, c0, t0);
    }
    head.Look(c, t);
    head.RootOrNot(c, t);
  }

  /** Restores the black counts upwards from `elm0`, the possibly missing child of `parent0`. */
  method RemoveColor(head: Head, parent0: Node?, elm0: Node?, ghost c0: Ctx<Node>, ghost t0: Tree<Node>)
    returns (ghost t': Tree<Node>)
    requires head.Shows(Plug(c0, t0)) && Starved(c0, t0) && elm0 == RootOf(t0) && parent0 == Up(c0)
    modifies head`root, Nodes(Plug(c0, t0))
    ensures head.Shows(t') && RedBlack(t')
    ensures Nodes(t') == Nodes(Plug(c0, t0)) && Inorder(t') == Inorder(Plug(c0, t0))
  {
    var (elm, parent) := (elm0, parent0);
    ghost var (c, t) := (c0, t0);
    head.Look(c, t);
    head.RootOrNot(c, t);
    while (elm == null || !elm.red) && elm != head.root
      invariant head.Shows(Plug(c, t)) && Starved(c, t) && elm == RootOf(t) && parent == Up(c)
      invariant t.Bin? ==> elm.red == t.red
      invariant elm != head.root <==> c.Under?
      invariant Nodes(Plug(c, t)) == Nodes(Plug(c0, t0)) && Inorder(Plug(c, t)) == Inorder(Plug(c0, t0))
      decreases Hunger(c, t)
    {
      var done;
      elm, parent, done, c, t := Refill(head, elm, parent, c, t);
      if done {
        break;
      }
    }
    StarvedDone(c, t);
    if elm != null {
      head.Paint(elm, false, c, t);
    }
    t' := Plug(c, Blackened(t));
  }

  /** `child` gets `parent` as parent, and the link that led to `elm` leads to `child`. */
  method Bypass(head: Head, elm: Node, child: Node?, parent: Node?, ghost s: set<Node>)
    requires (parent != null ==> parent in s) && (child != null ==> child in s && child != parent)
    modifies head`root, set n | n in s && (n == parent || n == child)
    ensures child != null ==> Snapshot(s)[child] == old(Snapshot(s))[child].(parent := parent)
    ensures Redirected(old(Snapshot(s)), old(head.root), parent, elm, Snapshot(s), head.root, child)
    ensures forall n | n in s && n != parent && n != child :: Snapshot(s)[n] == old(Snapshot(s))[n]
  {
    if child != null {
      child.parent := parent;
    }
    if parent != null {
      if parent.left == elm {
        parent.left := child;
      } else {
        parent.right := child;
      }
    } else {
      head.root := child;
    }
  }

  /** Bypasses `elm`, which has no child besides `child`. */
  method Splice(head: Head, elm: Node, child: Node?, parent: Node?,
      ghost c: Ctx<Node>, ghost t: Tree<Node>, ghost ch: Tree<Node>)
    requires head.Shows(Plug(c, t)) && t.Bin? && t.node == elm && child == RootOf(ch) && parent == Up(c)
    requires (t.left == Leaf && ch == t.right) || (t.right == Leaf && ch == t.left)
    modifies head`root, Nodes(Plug(c, t)) - {elm}
    ensures head.Shows(Plug(c, ch)) && Nodes(Plug(c, ch)) == Nodes(Plug(c, t)) - {elm}
  {
    ghost var (s, root0) := (Nodes(Plug(c, ch)), head.root);
    ghost var m := Snapshot(Nodes(Plug(c, t)));
    AtPlug(m, root0, c, t);
    BypassedNodes(c, t, ch);
    Bypass(head, elm, child, parent, s);
    Spliced(m, root0, c, t, ch, Snapshot(s), head.root);
    AtPlug(Snapshot(s), head.root, c, ch);
  }

  lemma {:induction false} BypassedNodes<T>(c: Ctx<T>, t: Tree<T>, ch: Tree<T>)
    requires Distinct(t) && CtxDistinct(c) && Nodes(t) !! CtxNodes(c) && t.Bin?
    requires (t.left == Leaf && ch == t.right) || (t.right == Leaf && ch == t.left)
    ensures Nodes(Plug(c, ch)) == Nodes(Plug(c, t)) - {t.node}
    ensures CtxNodes(c) <= Nodes(Plug(c, ch)) && Nodes(ch) <= Nodes(Plug(c, ch))
    ensures (c.Under? ==> c.node in CtxNodes(c)) && (ch.Bin? ==> ch.node in Nodes(ch) && ch.node !in CtxNodes(c))
  {
    NodesPlug(c, t);
    NodesPlug(c, ch);
    assert ch.Bin? ==> ch.node in Nodes(ch);
  }

  /** `elm`, outside the tree, takes over the links and colour of `was`, and its place. */
  method TakeOver(head: Head, was: Node, elm: Node, ghost s: set<Node>)
    requires was in s && elm in s && was != elm
    requires was.left != null && was.left in s - {was, elm} && (was.right != null ==> was.right in s - {was, elm, was.left})
    requires was.parent != null ==> was.parent in s - {was, elm, was.left, was.right}
    modifies head`root, s - {was}
    ensures Snapshot(s)[elm] == old(Snapshot(s))[was]
    ensures var l := old(was.left); Snapshot(s)[l] == old(Snapshot(s))[l].(parent := elm)
    ensures var r := old(was.right); r != null ==> Snapshot(s)[r] == old(Snapshot(s))[r].(parent := elm)
    ensures Redirected(old(Snapshot(s)), old(head.root), old(was.parent), was, Snapshot(s), head.root, elm)
    ensures forall n | n in s && n != elm && n != old(was.left) && n != old(was.right) && n != old(was.parent) ::
      Snapshot(s)[n] == old(Snapshot(s))[n]
  {
    elm.left, elm.right, elm.parent, elm.red := was.left, was.right, was.parent, was.red;
    if was.parent != null {
      if was.parent.left == was {
        was.parent.left := elm;
      } else {
        was.parent.right := elm;
      }
    } else {
      head.root := elm;
    }
    was.left.parent := elm;
    if was.right != null {
      was.right.parent := elm;
    }
  }

  method Substitute(head: Head, was: Node, elm: Node, ghost c: Ctx<Node>, ghost t: Tree<Node>)
    requires head.Shows(Plug(c, t)) && t.Bin? && t.node == was && t.left.Bin? && elm !in Nodes(Plug(c, t))
    modifies head`root, elm, Nodes(Plug(c, t)) - {was}
    ensures head.Shows(Plug(c, t.(node := elm)))
    ensures Nodes(Plug(c, t.(node := elm))) == Nodes(Plug(c, t)) - {was} + {elm}
  {
    ghost var (s, root0) := (Nodes(Plug(c, t)) + {elm}, head.root);
    ghost var m := Snapshot(Nodes(Plug(c, t)));
    AtPlug(m, root0, c, t);
    SubstitutedNodes(c, t, elm);
    assert Nodes(Plug(c, t.(node := elm))) == s - {was};
    TakeOver(head, was, elm, s);
    Substituted(m, root0, c, t, Snapshot(s - {was}), head.root, elm);
    AtPlug(Snapshot(s - {was}), head.root, c, t.(node := elm));
  }

  lemma {:induction false} SubstitutedNodes<T>(c: Ctx<T>, t: Tree<T>, x: T)
    requires Distinct(t) && CtxDistinct(c) && Nodes(t) !! CtxNodes(c) && t.Bin? && x !in Nodes(Plug(c, t))
    ensures Nodes(Plug(c, t.(node := x))) == Nodes(Plug(c, t)) - {t.node} + {x}
    ensures Nodes(Plug(c, t)) == CtxNodes(c) + Nodes(t)
    ensures t.node !in CtxNodes(c) && t.node !in Nodes(t.left) && t.node !in Nodes(t.right) && t.node in Nodes(t)
    ensures c.Under? ==> c.node in CtxNodes(c)
    ensures t.left.Bin? ==> t.left.node in Nodes(t) && t.left.node !in Nodes(t.right)
    ensures t.right.Bin? ==> t.right.node in Nodes(t) && t.right.node !in Nodes(t.left)
    ensures t.left.Bin? && t.right.Bin? ==> t.left.node != t.right.node
  {
    NodesPlug(c, t);
    NodesPlug(c, t.(node := x));
    assert t.left.Bin? ==> t.left.node in Nodes(t.left);
    assert t.right.Bin? ==> t.right.node in Nodes(t.right);
  }

  // ---------- the successor takes the place of a node with two children ----------

  ghost function Below<T>(c: Ctx<T>, t: Tree<T>, d: Ctx<T>): Ctx<T>
    requires t.Bin?
  {
    Graft(d, Under(c, Right, t.node, t.red, t.left))
  }

  /** The leftmost node `w.node` of the right subtree, `d` being the way down to it. */
  ghost predicate Leftmost<T>(t: Tree<T>, d: Ctx<T>, w: Tree<T>) {
    t.Bin? && t.left.Bin? && Plug(d, w) == t.right && w.Bin? && Before(d) == []
  }

  /** What is left of `t` when its leftmost right-hand node has moved to its top. */
  ghost function Topped<T>(t: Tree<T>, d: Ctx<T>, w: Tree<T>): Tree<T>
    requires Leftmost(t, d, w)
  {
    Bin(t.left, w.node, t.red, Plug(d, w.right))
  }

  lemma {:induction false} ToppedPlug<T>(c: Ctx<T>, t: Tree<T>, d: Ctx<T>, w: Tree<T>)
    requires Leftmost(t, d, w)
    ensures Plug(Below(c, t, d), w) == Plug(c, t)
    ensures Plug(Below(c, t, d), w.right) == Plug(c, t.(right := Plug(d, w.right)))
    ensures Plug(Below(c, Topped(t, d, w), d), w.right) == Plug(c, Topped(t, d, w))
  {
    PlugGraft(d, Under(c, Right, t.node, t.red, t.left), w);
    PlugGraft(d, Under(c, Right, t.node, t.red, t.left), w.right);
    PlugGraft(d, Under(c, Right, w.node, t.red, t.left), w.right);
  }

  lemma {:induction false} ToppedOrder<T>(t: Tree<T>, d: Ctx<T>, w: Tree<T>)
    requires Leftmost(t, d, w) && w.left == Leaf
    ensures Inorder(Topped(t, d, w)) == Inorder(t.left) + Inorder(t.right)
  {
    InorderPlug(d, w);
    InorderPlug(d, w.right);
    assert Inorder(w.left) == [];
    FirstMoved(Inorder(t.left), w.node, Inorder(w.right), After(d));
  }

  lemma FirstMoved<T>(l: seq<T>, x: T, r: seq<T>, a: seq<T>)
    ensures l + [x] + ([] + r + a) == l + ([] + ([] + [x] + r) + a)
  {
  }

  lemma {:induction false} ToppedColors<T>(c: Ctx<T>, t: Tree<T>, d: Ctx<T>, w: Tree<T>)
    requires Leftmost(t, d, w) && w.left == Leaf && RedBlack(Plug(c, t))
    ensures var c' := Below(c, Topped(t, d, w), d);
      (w.red ==> Fits(c', w.right)) && (!w.red ==> Starved(c', w.right))
  {
    ToppedPlug(c, t, d, w);
    RedBlackPlug(Below(c, t, d), w);
    GraftNeeds(d, Under(c, Right, t.node, t.red, t.left), w.node, BlackHeight(w));
    var c' := Below(c, Topped(t, d, w), d);
    assert RedTop(c') == RedTop(Below(c, t, d)) && c'.Under?;
    Bypassed(c', w, w.right);
  }

  lemma {:induction false} ToppedApart<T>(c: Ctx<T>, t: Tree<T>, d: Ctx<T>, w: Tree<T>)
    requires Leftmost(t, d, w) && Distinct(Plug(c, t))
    ensures w.node in Nodes(Plug(c, t)) && w.node != t.node
    ensures d.Under? ==> d.node != t.node
  {
    ToppedPlug(c, t, d, w);
    NodesPlug(Below(c, t, d), w);
    var base := Under(c, Right, t.node, t.red, t.left);
    GraftNodes(d, base);
    assert t.node in CtxNodes(base);
    if d.Under? {
      GraftNodes(d.up, base);
    }
  }

  lemma {:induction false} ToppedAll(c: Ctx<Node>, t: Tree<Node>, d: Ctx<Node>, w: Tree<Node>)
    requires Leftmost(t, d, w) && w.left == Leaf && RedBlack(Plug(c, t))
    ensures var c' := Below(c, Topped(t, d, w), d);
      && (w.red ==> Fits(c', w.right)) && (!w.red ==> Starved(c', w.right))
      && Inorder(Plug(c', w.right)) == Before(c) + (Inorder(t.left) + Inorder(t.right)) + After(c)
      && Up(c') == (if d.Under? then Up(Below(c, t, d)) else w.node)
  {
    ToppedPlug(c, t, d, w);
    ToppedOrder(t, d, w);
    ToppedColors(c, t, d, w);
    InorderPlug(c, Topped(t, d, w));
  }

  /** Down to the leftmost node of the right subtree. */
  method Successor(head: Head, was: Node, ghost c: Ctx<Node>, ghost t: Tree<Node>)
    returns (elm: Node, ghost d: Ctx<Node>, ghost w: Tree<Node>)
    requires head.Shows(Plug(c, t)) && t.Bin? && t.node == was && t.left.Bin? && t.right.Bin?
    ensures head.Shows(Plug(c, t)) && Leftmost(t, d, w) && elm == w.node && w.left == Leaf
    ensures elm.right == RootOf(w.right) && elm.parent == Up(Below(c, t, d)) && elm.red == w.red
    ensures elm in Nodes(Plug(c, t)) && elm != was && (elm.parent == was <==> !d.Under?)
  {
    head.Look(c, t);
    elm := was.right;
    d, w := Top, t.right;
    head.Look(Below(c, t, d), w);
    var left := elm.left;
    while left != null
      invariant Leftmost(t, d, w) && elm == w.node && left == RootOf(w.left)
      invariant head.Shows(Plug(c, t))
      decreases w
    {
      elm := left;
      d, w := Under(d, Left, w.node, w.red, w.right), w.left;
      ToppedPlug(c, t, d, w);
      head.Look(Below(c, t, d), w);
      left := elm.left;
    }
    ToppedPlug(c, t, d, w);
    ToppedApart(c, t, d, w);
    head.Look(Below(c, t, d), w);
    NoTree(w.left);
  }

  lemma OutAndIn<T>(s: set<T>, x: T, y: T)
    requires x in s && x != y
    ensures s - {x} - {y} + {x} == s - {y}
  {
  }

  /** The successor `elm` leaves its own place and takes that of `was`. */
  method Supplant(head: Head, was: Node, elm: Node, ghost c: Ctx<Node>, ghost t: Tree<Node>, ghost d: Ctx<Node>, ghost w: Tree<Node>)
    returns (child: Node?, parent: Node?, red: bool)
    requires head.Shows(Plug(c, t)) && t.Bin? && t.node == was && Leftmost(t, d, w) && w.left == Leaf && elm == w.node
    requires elm.right == RootOf(w.right) && elm.parent == Up(Below(c, t, d)) && elm.red == w.red
    requires elm in Nodes(Plug(c, t)) && elm != was && (elm.parent == was <==> !d.Under?)
    modifies head`root, Nodes(Plug(c, t))
    ensures head.Shows(Plug(c, Topped(t, d, w))) && red == w.red && child == RootOf(w.right)
    ensures parent == if d.Under? then Up(Below(c, t, d)) else elm
    ensures Nodes(Plug(c, Topped(t, d, w))) == Nodes(Plug(c, t)) - {was}
  {
    ToppedPlug(c, t, d, w);
    OutAndIn(Nodes(Plug(c, t)), elm, was);
    child, parent, red := elm.right, elm.parent, elm.red;
    Splice(head, elm, child, parent, Below(c, t, d), w, w.right);
    if elm.parent == was {
      parent := elm;
    }
    Substitute(head, was, elm, c, t.(right := Plug(d, w.right)));
  }

  method Exchange(head: Head, was: Node, ghost c: Ctx<Node>, ghost t: Tree<Node>)
    returns (child: Node?, parent: Node?, red: bool, ghost c': Ctx<Node>, ghost t': Tree<Node>)
    requires head.Shows(Plug(c, t)) && RedBlack(Plug(c, t)) && t.Bin? && t.node == was && t.left.Bin? && t.right.Bin?
    modifies head`root, Nodes(Plug(c, t))
    ensures head.Shows(Plug(c', t')) && child == RootOf(t') && parent == Up(c')
    ensures (red ==> Fits(c', t')) && (!red ==> Starved(c', t'))
    ensures Nodes(Plug(c', t')) == Nodes(Plug(c, t)) - {was}
    ensures Inorder(Plug(c', t')) == Before(c) + (Inorder(t.left) + Inorder(t.right)) + After(c)
  {
    var elm;
    ghost var d, w;
    elm, d, w := Successor(head, was, c, t);
    ToppedAll(c, t, d, w);
    child, parent, red := Supplant(head, was, elm, c, t, d, w);
    ToppedPlug(c, t, d, w);
    c', t' := Below(c, Topped(t, d, w), d), w.right;
  }

  lemma {:induction false} Shrunk(cmp: (Node, Node) -> int, c: Ctx<Node>, t: Tree<Node>, s': seq<Node>)
    requires t.Bin? && Sorted(cmp, Inorder(Plug(c, t)))
    requires s' == Before(c) + (Inorder(t.left) + Inorder(t.right)) + After(c)
    ensures Sorted(cmp, s') && Removed(Inorder(Plug(c, t)), t.node, s')
  {
    InorderPlug(c, t);
    TakenOut(cmp, Before(c), Inorder(t.left), t.node, Inorder(t.right), After(c));
  }

  lemma TakenOut<T>(cmp: (T, T) -> int, b: seq<T>, l: seq<T>, x: T, r: seq<T>, a: seq<T>)
    requires Sorted(cmp, b + (l + [x] + r) + a)
    ensures Sorted(cmp, b + (l + r) + a) && Removed(b + (l + [x] + r) + a, x, b + (l + r) + a)
  {
    var (s, k) := (b + (l + [x] + r) + a, |b| + |l|);
    assert s[k] == x && s[..k] + s[k + 1..] == b + (l + r) + a;
    SortedWithout(cmp, s, k);
  }

  /** Removal of a node with at most one child. */
  method Unlink(head: Head, elm: Node, ghost c: Ctx<Node>, ghost t: Tree<Node>)
    returns (child: Node?, parent: Node?, red: bool, ghost c': Ctx<Node>, ghost t': Tree<Node>)
    requires head.Shows(Plug(c, t)) && RedBlack(Plug(c, t)) && t.Bin? && t.node == elm
    requires elm.left == null || elm.right == null
    modifies head`root, Nodes(Plug(c, t))
    ensures head.Shows(Plug(c', t')) && child == RootOf(t') && parent == Up(c')
    ensures (red ==> Fits(c', t')) && (!red ==> Starved(c', t'))
    ensures Nodes(Plug(c', t')) == Nodes(Plug(c, t)) - {elm}
    ensures Inorder(Plug(c', t')) == Before(c) + (Inorder(t.left) + Inorder(t.right)) + After(c)
  {
    head.Look(c, t);
    c' := c;
    if elm.left == null {
      child, t' := elm.right, t.right;
      NoTree(t.left);
    } else {
      child, t' := elm.left, t.left;
      NoTree(t.right);
    }
    parent, red := elm.parent, elm.red;
    RedBlackPlug(c, t);
    Bypassed(c, t, t');
    InorderPlug(c, t');
    assert Inorder(t') == Inorder(t.left) + Inorder(t.right);
    Splice(head, elm, child, parent, c, t, t');
  }

  /** Takes `elm` out of the links; what remains may lack a black node above `child`. */
  method Detach(head: Head, elm: Node, ghost c: Ctx<Node>, ghost t: Tree<Node>, ghost cmp: (Node, Node) -> int)
    returns (child: Node?, parent: Node?, red: bool, ghost c': Ctx<Node>, ghost t': Tree<Node>)
    requires head.Valid(cmp) && head.shape == Plug(c, t) && t.Bin? && t.node == elm
    modifies head`root, Nodes(head.shape)
    ensures head.Shows(Plug(c', t')) && child == RootOf(t') && parent == Up(c')
    ensures if red then RedBlack(Plug(c', t')) else Starved(c', t')
    ensures Nodes(Plug(c', t')) == Nodes(Plug(c, t)) - {elm}
    ensures Removed(Inorder(Plug(c, t)), elm, Inorder(Plug(c', t')))
    ensures Comparator(cmp, Nodes(Plug(c', t'))) && Sorted(cmp, Inorder(Plug(c', t')))
  {
    head.Look(c, t);
    if elm.left == null || elm.right == null {
      child, parent, red, c', t' := Unlink(head, elm, c, t);
    } else {
      child, parent, red, c', t' := Exchange(head, elm, c, t);
    }
    Shrunk(cmp, c, t, Inorder(Plug(c', t')));
    ComparatorWithin(cmp, Nodes(Plug(c, t)), Nodes(Plug(c', t')));
    RedBlackPlug(c', t');
  }

  method Remove(head: Head, elm: Node, ghost cmp: (Node, Node) -> int) returns (r: Node)
    requires head.Valid(cmp) && elm in Nodes(head.shape)
    modifies head, Nodes(head.shape)
    ensures head.Valid(cmp) && RedBlack(head.shape) && Sorted(cmp, Inorder(head.shape)) && r == elm
    ensures Nodes(head.shape) == old(Nodes(head.shape)) - {elm}
    ensures Removed(old(Inorder(head.shape)), elm, Inorder(head.shape))
  {
    ghost var c, t := Locate(Top, head.shape, elm);
    var child, parent, red;
    child, parent, red, c, t := Detach(head, elm, c, t, cmp);
    head.shape := Plug(c, t);
    if !red {
      head.shape := RemoveColor(head, parent, child, c, t);
    }
    return elm;
  }
}
