/** Insertion into a red-black tree. */
module RbInsert {
  import opened KeyOrder
  import opened RbShape
  import opened RbLinks
  import opened RbHead
  import opened RbWalk

  /** Uncle red: it and the parent turn black, the grandparent red. */
  method PushBlackDown(head: Head, parent: Node, uncle: Node, gparent: Node, ghost c: Ctx<Node>, ghost t: Tree<Node>)
    requires head.Shows(Plug(c, t)) && Climbs(c, t) && RedTop(c) && Red(c.up.other)
    requires c.node == parent && c.up.other.node == uncle && c.up.node == gparent
    modifies Nodes(Plug(c, t))`red
    ensures var t' := Join(c.up.side, Join(c.side, t, parent, false, c.other), gparent, true, c.up.other.(red := false));
      && head.Shows(Plug(c.up.up, t')) && Climbs(c.up.up, t')
      && Nodes(Plug(c.up.up, t')) == Nodes(Plug(c, t)) && Inorder(Plug(c.up.up, t')) == Inorder(Plug(c, t))
  {
    ghost var (gc, side, u, j) := (c.up.up, c.up.side, c.up.other, Join(c.side, t, parent, true, c.other));
    ghost var (u', j') := (u.(red := false), j.(red := false));
    head.Look(c, t);
    head.Look(c.up, j);
    head.Look(Under(gc, Opp(side), gparent, false, j), u);
    head.Paint(uncle, false, Under(gc, Opp(side), gparent, false, j), u);
    head.Paint(parent, false, Under(gc, side, gparent, false, u'), j);
    head.Paint(gparent, true, gc, Join(side, j', gparent, false, u'));
    ClimbPast(c, t);
  }

  /** Parent black, grandparent red, and a rotation of the grandparent to the right. */
  method RaiseLeft(head: Head, parent: Node, gparent: Node, ghost c: Ctx<Node>, ghost t: Tree<Node>)
    requires head.Shows(Plug(c, t)) && Climbs(c, t) && RedTop(c) && !Red(c.up.other)
    requires c.side == c.up.side == Left && c.node == parent && c.up.node == gparent
    modifies head`root, Nodes(Plug(c, t))
    ensures var c' := Under(c.up.up, Left, parent, false, Bin(c.other, gparent, true, c.up.other));
      && head.Shows(Plug(c', t)) && Climbs(c', t)
      && Nodes(Plug(c', t)) == Nodes(Plug(c, t)) && Inorder(Plug(c', t)) == Inorder(Plug(c, t))
  {
    ghost var (gc, u, j) := (c.up.up, c.up.other, Bin(t, parent, true, c.other));
    head.Look(c, t);
    head.Look(c.up, j);
    head.Paint(parent, false, Under(gc, Left, gparent, false, u), j);
    head.Paint(gparent, true, gc, Bin(j.(red := false), gparent, false, u));
    var _ := head.RotateRight(gparent, gc, Bin(j.(red := false), gparent, true, u));
    ClimbEnds(c, t);
  }

  method RaiseRight(head: Head, parent: Node, gparent: Node, ghost c: Ctx<Node>, ghost t: Tree<Node>)
    requires head.Shows(Plug(c, t)) && Climbs(c, t) && RedTop(c) && !Red(c.up.other)
    requires c.side == c.up.side == Right && c.node == parent && c.up.node == gparent
    modifies head`root, Nodes(Plug(c, t))
    ensures var c' := Under(c.up.up, Right, parent, false, Bin(c.up.other, gparent, true, c.other));
      && head.Shows(Plug(c', t)) && Climbs(c', t)
      && Nodes(Plug(c', t)) == Nodes(Plug(c, t)) && Inorder(Plug(c', t)) == Inorder(Plug(c, t))
  {
    ghost var (gc, u, j) := (c.up.up, c.up.other, Bin(c.other, parent, true, t));
    head.Look(c, t);
    head.Look(c.up, j);
    head.Paint(parent, false, Under(gc, Right, gparent, false, u), j);
    head.Paint(gparent, true, gc, Bin(u, gparent, false, j.(red := false)));
    var _ := head.RotateLeft(gparent, gc, Bin(u, gparent, true, j.(red := false)));
    ClimbEnds(c, t);
  }

  /** The body of the insertion loop when the parent is a left child. */
  method ClimbLeft(head: Head, elm0: Node, parent0: Node, gparent: Node, ghost c0: Ctx<Node>, ghost t0: Tree<Node>)
    returns (elm: Node, ghost c: Ctx<Node>, ghost t: Tree<Node>)
    requires head.Shows(Plug(c0, t0)) && Climbs(c0, t0) && RedTop(c0) && c0.up.side == Left
    requires t0.node == elm0 && c0.node == parent0 && c0.up.node == gparent
    modifies head`root, Nodes(Plug(c0, t0))
    ensures head.Shows(Plug(c, t)) && Climbs(c, t) && t.node == elm && Depth(c) < Depth(c0)
    ensures Nodes(Plug(c, t)) == Nodes(Plug(c0, t0)) && Inorder(Plug(c, t)) == Inorder(Plug(c0, t0))
  {
    elm, c, t := elm0, c0, t0;
    var parent := parent0;
    ghost var j := Join(c.side, t, parent, true, c.other);
    head.Look(c, t);
    head.Look(c.up, j);
    head.Look(Under(c.up.up, Right, gparent, false, j), c.up.other);
    assert Depth(c) == 1 + Depth(c.up) == 2 + Depth(c.up.up);
    var tmp := gparent.right;
    if tmp != null && tmp.red {
      PushBlackDown(head, parent, tmp, gparent, c, t);
      elm := gparent;
      t := Bin(Join(c.side, t, parent, false, c.other), gparent, true, c.up.other.(red := false));
      c := c.up.up;
    } else {
      if parent.right == elm {
        ClimbInward(c, t);
        tmp := head.RotateLeft(parent, c.up, j);
        c, t := Under(c.up, Left, elm, true, t.right), Bin(c.other, parent, true, t.left);
        elm, parent := parent, elm;
      }
      RaiseLeft(head, parent, gparent, c, t);
      c := Under(c.up.up, Left, parent, false, Bin(c.other, gparent, true, c.up.other));
    }
  }

  /** The same when it is a right child. */
  method ClimbRight(head: Head, elm0: Node, parent0: Node, gparent: Node, ghost c0: Ctx<Node>, ghost t0: Tree<Node>)
    returns (elm: Node, ghost c: Ctx<Node>, ghost t: Tree<Node>)
    requires head.Shows(Plug(c0, t0)) && Climbs(c0, t0) && RedTop(c0) && c0.up.side == Right
    requires t0.node == elm0 && c0.node == parent0 && c0.up.node == gparent
    modifies head`root, Nodes(Plug(c0, t0))
    ensures head.Shows(Plug(c, t)) && Climbs(c, t) && t.node == elm && Depth(c) < Depth(c0)
    ensures Nodes(Plug(c, t)) == Nodes(Plug(c0, t0)) && Inorder(Plug(c, t)) == Inorder(Plug(c0, t0))
  {
    elm, c, t := elm0, c0, t0;
    var parent := parent0;
    ghost var j := Join(c.side, t, parent, true, c.other);
    head.Look(c, t);
    head.Look(c.up, j);
    head.Look(Under(c.up.up, Left, gparent, false, j), c.up.other);
    assert Depth(c) == 1 + Depth(c.up) == 2 + Depth(c.up.up);
    var tmp := gparent.left;
    if tmp != null && tmp.red {
      PushBlackDown(head, parent, tmp, gparent, c, t);
      elm := gparent;
      t := Bin(c.up.other.(red := false), gparent, true, Join(c.side, t, parent, false, c.other));
      c := c.up.up;
    } else {
      if parent.left == elm {
        ClimbInward(c, t);
        tmp := head.RotateRight(parent, c.up, j);
        c, t := Under(c.up, Right, elm, true, t.left), Bin(t.right, parent, true, c.other);
        elm, parent := parent, elm;
      }
      RaiseRight(head, parent, gparent, c, t);
      c := Under(c.up.up, Right, parent, false, Bin(c.up.other, gparent, true, c.other));
    }
  }

  /** Restores the colours upwards from the new red node `elm0`. */
  method InsertColor(head: Head, elm0: Node, ghost c0: Ctx<Node>, ghost t0: Tree<Node>) returns (ghost t': Tree<Node>)
    requires head.Shows(Plug(c0, t0)) && Climbs(c0, t0) && t0.node == elm0
    modifies head`root, Nodes(Plug(c0, t0))
    ensures head.Shows(t') && RedBlack(t')
    ensures Nodes(t') == Nodes(Plug(c0, t0)) && Inorder(t') == Inorder(Plug(c0, t0))
  {
    var elm := elm0;
    ghost var (c, t) := (c0, t0);
    head.Look(c, t);
    while elm.parent != null && elm.parent.red
      invariant head.Shows(Plug(c, t)) && Climbs(c, t) && t.node == elm
      invariant elm.parent == Up(c) && (c.Under? ==> c.node.red == c.red)
      invariant Nodes(Plug(c, t)) == Nodes(Plug(c0, t0)) && Inorder(Plug(c, t)) == Inorder(Plug(c0, t0))
      decreases Depth(c)
    {
      var parent := elm.parent;
      head.Look(c, t);
      Grandparent(c, t);
      head.Look(c.up, Join(c.side, t, parent, true, c.other));
      var gparent := parent.parent;
      if parent == gparent.left {
        elm, c, t := ClimbLeft(head, elm, parent, gparent, c, t);
      } else {
        elm, c, t := ClimbRight(head, elm, parent, gparent, c, t);
      }
      head.Look(c, t);
    }
    t' := Plug(c, t);
    ClimbDone(c, t);
    head.Look(Top, t');
    head.Paint(head.root, false, Top, t');
    t' := t'.(red := false);
  }

  /** RB_SET and the link to the new node. */
  method Hang(head: Head, elm: Node, parent: Node?, comp: int, ghost s: set<Node>)
    requires elm !in s && (parent != null ==> parent in s)
    modifies head`root, elm, if parent != null then {parent} else {}
    ensures Snapshot(s + {elm})[elm] == Cell(null, null, parent, true)
    ensures parent == null ==> head.root == elm
    ensures parent != null ==>
      && head.root == old(head.root)
      && Snapshot(s + {elm})[parent] == old(Snapshot(s))[parent].WithKid(if comp < 0 then Left else Right, elm)
    ensures forall n | n in s && n != parent :: Snapshot(s + {elm})[n] == old(Snapshot(s))[n]
  {
    elm.parent := parent;
    elm.left, elm.right := null, null;
    elm.red := true;
    if parent != null {
      if comp < 0 {
        parent.left := elm;
      } else {
        parent.right := elm;
      }
    } else {
      head.root := elm;
    }
  }

  method Attach(head: Head, elm: Node, parent: Node?, comp: int, ghost c: Ctx<Node>)
    requires head.Shows(Plug(c, Leaf)) && elm !in Nodes(Plug(c, Leaf))
    requires parent == Up(c) && (c.Under? ==> (comp < 0 <==> c.side == Left))
    modifies head`root, elm, Nodes(Plug(c, Leaf))
    ensures head.Shows(Plug(c, Bin(Leaf, elm, true, Leaf)))
    ensures Nodes(Plug(c, Bin(Leaf, elm, true, Leaf))) == Nodes(Plug(c, Leaf)) + {elm}
  {
    ghost var t := Bin(Leaf, elm, true, Leaf);
    ghost var (s, root0) := (Nodes(Plug(c, Leaf)), head.root);
    ghost var m := Snapshot(s);
    AtPlug(m, root0, c, Leaf);
    NodesPlug(c, Leaf);
    NodesPlug(c, t);
    assert c.Under? ==> c.node in CtxNodes(c);
    Hang(head, elm, parent, comp, s);
    Attached(m, root0, c, Snapshot(s + {elm}), head.root, elm);
    AtPlug(Snapshot(s + {elm}), head.root, c, t);
    assert Nodes(Plug(c, t)) == s + {elm};
  }

  /** The search of RB_INSERT: an equal node, or the free place to hang the new one. */
  method Seek(head: Head, elm: Node, cmp: (Node, Node) -> int)
    returns (found: Node?, parent: Node?, comp: int, ghost c: Ctx<Node>)
    requires head.Valid(cmp) && Comparator(cmp, Nodes(head.shape) + {elm})
    ensures found != null ==> found in Inorder(head.shape) && cmp(elm, found) == 0
    ensures found == null ==>
      && Plug(c, Leaf) == head.shape && Spans(cmp, elm, Inorder(head.shape), c, Leaf)
      && parent == Up(c) && (c.Under? ==> (comp < 0 <==> c.side == Left))
  {
    var tmp := head.root;
    found, parent, comp := null, null, 0;
    ghost var (s, t) := (Inorder(head.shape), head.shape);
    c := Top;
    while tmp != null
      invariant Plug(c, t) == head.shape && head.Shows(head.shape) && tmp == RootOf(t)
      invariant parent == Up(c) && (c.Under? ==> (comp < 0 <==> c.side == Left))
      invariant Spans(cmp, elm, s, c, t)
      decreases t
    {
      head.Look(c, t);
      Descend(cmp, elm, c, t);
      parent := tmp;
      comp := cmp(elm, parent);
      if comp < 0 {
        tmp := tmp.left;
        c, t := Under(c, Left, t.node, t.red, t.right), t.left;
      } else if comp > 0 {
        tmp := tmp.right;
        c, t := Under(c, Right, t.node, t.red, t.left), t.right;
      } else {
        found := tmp;
        return;
      }
    }
    NoTree(t);
  }

  /** An element equals itself, so one that differs from every node is not in the tree. */
  lemma {:induction false} NotLinked(cmp: (Node, Node) -> int, e: Node, w: Tree<Node>)
    requires Comparator(cmp, Nodes(w) + {e})
    requires forall n | n in Inorder(w) :: cmp(e, n) != 0
    ensures e !in Nodes(w)
  {
    NodesInorder(w);
    Less(cmp, Nodes(w) + {e}, e, e, e);
  }

  lemma {:induction false} NewLeaf<T>(c: Ctx<T>, e: T)
    requires RedBlack(Plug(c, Leaf))
    ensures Climbs(c, Bin(Leaf, e, true, Leaf))
  {
    RedBlackPlug(c, Leaf);
  }

  /** Hangs `elm` into the free place and restores the colours. */
  method Settle(head: Head, elm: Node, parent: Node?, comp: int, ghost cmp: (Node, Node) -> int, ghost c: Ctx<Node>)
    requires head.Valid(cmp) && head.shape == Plug(c, Leaf) && elm !in Nodes(head.shape)
    requires Comparator(cmp, Nodes(head.shape) + {elm}) && Spans(cmp, elm, Inorder(head.shape), c, Leaf)
    requires parent == Up(c) && (c.Under? ==> (comp < 0 <==> c.side == Left))
    modifies head, elm, Nodes(head.shape)
    ensures head.Valid(cmp) && Inserted(old(Inorder(head.shape)), elm, Inorder(head.shape))
    ensures Nodes(head.shape) == old(Nodes(head.shape)) + {elm}
  {
    NewLeaf(c, elm);
    Grown(cmp, elm, c, Nodes(head.shape) + {elm});
    Attach(head, elm, parent, comp, c);
    head.shape := InsertColor(head, elm, c, Bin(Leaf, elm, true, Leaf));
  }

  /** An equal element, `elm` itself among them, is returned and nothing is changed. */
  method Insert(head: Head, elm: Node, cmp: (Node, Node) -> int) returns (r: Node?)
    requires head.Valid(cmp) && Comparator(cmp, Nodes(head.shape) + {elm})
    modifies head, elm, Nodes(head.shape)
    ensures head.Valid(cmp) && RedBlack(head.shape) && Sorted(cmp, Inorder(head.shape))
    ensures r != null ==>
      && r in Inorder(head.shape) && cmp(elm, r) == 0 && unchanged(head) && unchanged(elm)
      && Snapshot(Nodes(head.shape)) == old(Snapshot(Nodes(head.shape)))
    ensures r == null ==>
      && (forall n | n in old(Inorder(head.shape)) :: cmp(elm, n) != 0) && elm !in old(Nodes(head.shape))
      && Inserted(old(Inorder(head.shape)), elm, Inorder(head.shape))
      && Nodes(head.shape) == old(Nodes(head.shape)) + {elm}
  {
    var tmp, parent, comp;
    ghost var c;
    tmp, parent, comp, c := Seek(head, elm, cmp);
    assert Snapshot(Nodes(head.shape)) == old(Snapshot(Nodes(head.shape)));
    if tmp == null {
      Grown(cmp, elm, c, Nodes(head.shape) + {elm});
      NotLinked(cmp, elm, head.shape);
      Settle(head, elm, parent, comp, cmp, c);
    }
    return tmp;
  }

  lemma {:induction false} Grown(cmp: (Node, Node) -> int, e: Node, c: Ctx<Node>, u: set<Node>)
    requires Comparator(cmp, u) && u == Nodes(Plug(c, Leaf)) + {e}
    requires Sorted(cmp, Inorder(Plug(c, Leaf))) && Spans(cmp, e, Inorder(Plug(c, Leaf)), c, Leaf)
    ensures var s' := Inorder(Plug(c, Bin(Leaf, e, true, Leaf)));
      Sorted(cmp, s') && Inserted(Inorder(Plug(c, Leaf)), e, s')
    ensures forall n | n in Inorder(Plug(c, Leaf)) :: cmp(e, n) != 0
  {
    var (s, k) := (Inorder(Plug(c, Leaf)), |Before(c)|);
    NodesInorder(Plug(c, Leaf));
    SortedInsert(cmp, u, e, s, k);
    GrownAt(c, e);
  }

  lemma {:induction false} GrownAt<T>(c: Ctx<T>, e: T)
    ensures var (s, k) := (Inorder(Plug(c, Leaf)), |Before(c)|);
      && k <= |s| && Inorder(Plug(c, Bin(Leaf, e, true, Leaf))) == s[..k] + [e] + s[k..]
  {
    var s := Inorder(Plug(c, Leaf));
    InorderPlug(c, Leaf);
    InorderPlug(c, Bin(Leaf, e, true, Leaf));
    assert Inorder(Bin(Leaf, e, true, Leaf)) == [e];
    assert s == Before(c) + After(c);
  }
}
