/** The splay tree: the top-down splay, and the operations that rest on it. */
module SplayTree {
  import opened KeyOrder
  import opened SplayLinks

  class Head {
    var root: Node?
    ghost var shape: Tree<Node>

    /** SPLAY_INIT. */
    constructor ()
      ensures shape == Leaf && Shows(shape)
    {
      root, shape := null, Leaf;
    }

    ghost predicate Shows(t: Tree<Node>)
      reads this`root, Nodes(t)
    {
      root == RootOf(t) && Distinct(t) && Linked(Snapshot(Nodes(t)), t)
    }

    ghost predicate Valid(cmp: (Node, Node) -> int)
      reads this, Nodes(shape)
    {
      Shows(shape) && Comparator(cmp, Nodes(shape)) && Sorted(cmp, Inorder(shape))
    }
  }

  /** SPLAY_LEFT(n) = v, and SPLAY_RIGHT(n) = v, as the cells see it. */
  method SetLeft(n: Node, v: Node?, ghost s: set<Node>)
    requires n in s
    modifies n`left
    ensures Snapshot(s) == old(Snapshot(s))[n := old(Snapshot(s))[n].(left := v)]
  {
    n.left := v;
  }

  method SetRight(n: Node, v: Node?, ghost s: set<Node>)
    requires n in s
    modifies n`right
    ensures Snapshot(s) == old(Snapshot(s))[n := old(Snapshot(s))[n].(right := v)]
  {
    n.right := v;
  }

  method TurnRight(x: Node, tmp: Node, ghost s: set<Node>)
    requires x in s && tmp in s && x != tmp
    modifies x`left, tmp`right
    ensures var m := old(Snapshot(s));
      Snapshot(s) == m[x := m[x].(left := m[tmp].right)][tmp := m[tmp].(right := x)]
  {
    SetLeft(x, tmp.right, s);
    SetRight(tmp, x, s);
  }

  /** SPLAY_ROTATE_RIGHT; `tmp` is the left child of the root. */
  method RotateRight(head: Head, tmp: Node, ghost s: set<Node>, ghost dummy: Node,
      ghost l: Spine<Node>, ghost t: Tree<Node>, ghost r: Spine<Node>)
    requires Split(Snapshot(s), dummy, l, t, r) && head.root == RootOf(t)
    requires t.Bin? && t.left.Bin? && t.left.node == tmp
    modifies head`root, s
    ensures Split(Snapshot(s), dummy, l, RightTurn(t), r) && head.root == tmp
  {
    ghost var m := Snapshot(s);
    assert Linked(m, t.left) && t.node != tmp;
    TurnRight(head.root, tmp, s);
    SplitRightTurn(m, Snapshot(s), dummy, l, t, r);
    head.root := tmp;
  }

  /** SPLAY_LINKLEFT with the tip of the right spine. */
  method LinkLeft(head: Head, tip: Node, ghost s: set<Node>, ghost dummy: Node,
      ghost l: Spine<Node>, ghost t: Tree<Node>, ghost r: Spine<Node>) returns (tip': Node)
    requires Split(Snapshot(s), dummy, l, t, r) && head.root == RootOf(t) && t.Bin? && tip == Tip(r, dummy)
    modifies head`root, s
    ensures Split(Snapshot(s), dummy, l, t.left, Hang(r, t.right, t.node))
    ensures head.root == RootOf(t.left) && tip' == t.node
  {
    ghost var m := Snapshot(s);
    assert r.Hang? ==> r.node in SpineNodes(r);
    assert t.node != tip;
    SetLeft(tip, head.root, s);
    SplitLinkLeft(m, Snapshot(s), dummy, l, t, r);
    tip' := head.root;
    head.root := head.root.left;
  }

  method TurnLeft(x: Node, tmp: Node, ghost s: set<Node>)
    requires x in s && tmp in s && x != tmp
    modifies x`right, tmp`left
    ensures var m := old(Snapshot(s));
      Snapshot(s) == m[x := m[x].(right := m[tmp].left)][tmp := m[tmp].(left := x)]
  {
    SetRight(x, tmp.left, s);
    SetLeft(tmp, x, s);
  }

  /** SPLAY_ROTATE_LEFT; `tmp` is the right child of the root. */
  method RotateLeft(head: Head, tmp: Node, ghost s: set<Node>, ghost dummy: Node,
      ghost l: Spine<Node>, ghost t: Tree<Node>, ghost r: Spine<Node>)
    requires Split(Snapshot(s), dummy, l, t, r) && head.root == RootOf(t)
    requires t.Bin? && t.right.Bin? && t.right.node == tmp
    modifies head`root, s
    ensures Split(Snapshot(s), dummy, l, LeftTurn(t), r) && head.root == tmp
  {
    ghost var m := Snapshot(s);
    assert Linked(m, t.right) && t.node != tmp;
    TurnLeft(head.root, tmp, s);
    SplitLeftTurn(m, Snapshot(s), dummy, l, t, r);
    head.root := tmp;
  }

  /** SPLAY_LINKRIGHT with the tip of the left spine. */
  method LinkRight(head: Head, tip: Node, ghost s: set<Node>, ghost dummy: Node,
      ghost l: Spine<Node>, ghost t: Tree<Node>, ghost r: Spine<Node>) returns (tip': Node)
    requires Split(Snapshot(s), dummy, l, t, r) && head.root == RootOf(t) && t.Bin? && tip == Tip(l, dummy)
    modifies head`root, s
    ensures Split(Snapshot(s), dummy, Hang(l, t.left, t.node), t.right, r)
    ensures head.root == RootOf(t.right) && tip' == t.node
  {
    ghost var m := Snapshot(s);
    assert l.Hang? ==> l.node in SpineNodes(l);
    assert t.node != tip;
    SetRight(tip, head.root, s);
    SplitLinkRight(m, Snapshot(s), dummy, l, t, r);
    tip' := head.root;
    head.root := head.root.right;
  }

  /** The whole order is the left spine, the middle tree and the right spine. */
  ghost predicate Spread(order: seq<Node>, s: set<Node>, l: Spine<Node>, t: Tree<Node>, r: Spine<Node>) {
    && t.Bin? && order == LeftOrder(l) + Inorder(t) + RightOrder(r)
    && s == SpineNodes(l) + Nodes(t) + SpineNodes(r)
  }

  /** Moreover only the middle tree spans places that `e` could take. */
  ghost predicate Underway(cmp: (Node, Node) -> int, e: Node, order: seq<Node>, s: set<Node>,
      l: Spine<Node>, t: Tree<Node>, r: Spine<Node>) {
    && Spread(order, s, l, t, r)
    && Brackets(cmp, e, order, |LeftOrder(l)|, |LeftOrder(l)| + |Inorder(t)|)
  }

  /** At place `k` stands an equal of `e`, or else the neighbour of the place `e` would take. */
  ghost predicate Nearest<T>(cmp: (T, T) -> int, e: T, s: seq<T>, k: nat) {
    && k < |s|
    && if cmp(e, s[k]) == 0 then true
       else if cmp(e, s[k]) < 0 then Brackets(cmp, e, s, k, k)
       else Brackets(cmp, e, s, k + 1, k + 1)
  }

  lemma Reorder<T>(a: seq<T>, b: seq<T>, x: T, c: seq<T>, d: seq<T>)
    ensures a + (b + [x] + c) + d == a + b + ([x] + c + d)
    ensures a + (b + [x] + c) + d == (a + b + [x]) + c + d
    ensures (a + (b + [x] + c) + d)[|a| + |b|] == x
  {
  }

  /** Setting the middle root and one side of it aside keeps the order. */
  lemma {:induction false} SetAside<T>(l: Spine<T>, t: Tree<T>, r: Spine<T>)
    requires t.Bin?
    ensures var order := LeftOrder(l) + Inorder(t) + RightOrder(r);
      && order == LeftOrder(l) + Inorder(t.left) + RightOrder(Hang(r, t.right, t.node))
      && order == LeftOrder(Hang(l, t.left, t.node)) + Inorder(t.right) + RightOrder(r)
  {
    Reorder(LeftOrder(l), Inorder(t.left), t.node, Inorder(t.right), RightOrder(r));
  }

  /** The places in the order that belong to the two sides of the middle root. */
  lemma {:induction false} RootPlace<T>(l: Spine<T>, t: Tree<T>, r: Spine<T>)
    requires t.Bin?
    ensures |Inorder(t)| == |Inorder(t.left)| + 1 + |Inorder(t.right)|
    ensures |LeftOrder(Hang(l, t.left, t.node))| == |LeftOrder(l)| + |Inorder(t.left)| + 1
    ensures (LeftOrder(l) + Inorder(t) + RightOrder(r))[|LeftOrder(l)| + |Inorder(t.left)|] == t.node
  {
    Reorder(LeftOrder(l), Inorder(t.left), t.node, Inorder(t.right), RightOrder(r));
  }

  lemma {:induction false} SpreadLeft(order: seq<Node>, s: set<Node>, l: Spine<Node>, t: Tree<Node>, r: Spine<Node>)
    requires Spread(order, s, l, t, r) && t.left.Bin?
    ensures Spread(order, s, l, t.left, Hang(r, t.right, t.node)) && |Inorder(t.left)| < |Inorder(t)|
  {
    SetAside(l, t, r);
    RootPlace(l, t, r);
  }

  lemma {:induction false} SpreadRight(order: seq<Node>, s: set<Node>, l: Spine<Node>, t: Tree<Node>, r: Spine<Node>)
    requires Spread(order, s, l, t, r) && t.right.Bin?
    ensures Spread(order, s, Hang(l, t.left, t.node), t.right, r) && |Inorder(t.right)| < |Inorder(t)|
  {
    SetAside(l, t, r);
    RootPlace(l, t, r);
  }

  /** What one comparison with the middle root leaves to search. */
  lemma {:induction false} GoLeft(cmp: (Node, Node) -> int, e: Node, order: seq<Node>, s: set<Node>,
      l: Spine<Node>, t: Tree<Node>, r: Spine<Node>)
    requires Underway(cmp, e, order, s, l, t, r) && cmp(e, t.node) < 0 && t.left.Bin?
    requires Comparator(cmp, s + {e}) && Sorted(cmp, order) && Drawn(order, s + {e})
    ensures Underway(cmp, e, order, s, l, t.left, Hang(r, t.right, t.node))
  {
    var (a, b) := (|LeftOrder(l)|, |Inorder(t.left)|);
    SpreadLeft(order, s, l, t, r);
    RootPlace(l, t, r);
    Narrow(cmp, s + {e}, e, order, a, a + b, a + |Inorder(t)|);
  }

  lemma {:induction false} GoRight(cmp: (Node, Node) -> int, e: Node, order: seq<Node>, s: set<Node>,
      l: Spine<Node>, t: Tree<Node>, r: Spine<Node>)
    requires Underway(cmp, e, order, s, l, t, r) && cmp(e, t.node) > 0 && t.right.Bin?
    requires Comparator(cmp, s + {e}) && Sorted(cmp, order) && Drawn(order, s + {e})
    ensures Underway(cmp, e, order, s, Hang(l, t.left, t.node), t.right, r)
  {
    var (a, b) := (|LeftOrder(l)|, |Inorder(t.left)|);
    SpreadRight(order, s, l, t, r);
    RootPlace(l, t, r);
    Narrow(cmp, s + {e}, e, order, a, a + b, a + |Inorder(t)|);
  }

  ghost predicate Stops(cmp: (Node, Node) -> int, e: Node, t: Tree<Node>) {
    && t.Bin?
    && (cmp(e, t.node) < 0 ==> t.left == Leaf)
    && (cmp(e, t.node) > 0 ==> t.right == Leaf)
  }

  lemma {:induction false} Stopped(cmp: (Node, Node) -> int, e: Node, order: seq<Node>, s: set<Node>,
      l: Spine<Node>, t: Tree<Node>, r: Spine<Node>)
    requires Underway(cmp, e, order, s, l, t, r) && Stops(cmp, e, t)
    requires Comparator(cmp, s + {e}) && Sorted(cmp, order) && Drawn(order, s + {e})
    ensures Nearest(cmp, e, order, |LeftOrder(l)| + |Inorder(t.left)|)
  {
    var (a, b) := (|LeftOrder(l)|, |Inorder(t.left)|);
    RootPlace(l, t, r);
    Narrow(cmp, s + {e}, e, order, a, a + b, a + |Inorder(t)|);
    assert t.left == Leaf ==> b == 0;
    assert t.right == Leaf ==> |Inorder(t.right)| == 0;
  }

  lemma Reassemble<T>(a: seq<T>, b: seq<T>, x: T, c: seq<T>, d: seq<T>)
    ensures a + (b + [x] + c) + d == (a + b) + [x] + (c + d)
  {
  }

  lemma {:induction false} AssembledOrder<T>(l: Spine<T>, t: Tree<T>, r: Spine<T>)
    requires t.Bin?
    ensures Inorder(Assembled(l, t, r)) == LeftOrder(l) + Inorder(t) + RightOrder(r)
    ensures Nodes(Assembled(l, t, r)) == SpineNodes(l) + Nodes(t) + SpineNodes(r)
    ensures |Inorder(Assembled(l, t, r).left)| == |LeftOrder(l)| + |Inorder(t.left)|
  {
    LeftPlugOrder(l, t.left);
    RightPlugOrder(r, t.right);
    LeftPlugNodes(l, t.left);
    RightPlugNodes(r, t.right);
    Reassemble(LeftOrder(l), Inorder(t.left), t.node, Inorder(t.right), RightOrder(r));
  }

  lemma {:induction false} TurnedOrder<T>(t: Tree<T>)
    ensures t.Bin? && t.left.Bin? ==> Inorder(RightTurn(t)) == Inorder(t) && Nodes(RightTurn(t)) == Nodes(t)
    ensures t.Bin? && t.right.Bin? ==> Inorder(LeftTurn(t)) == Inorder(t) && Nodes(LeftTurn(t)) == Nodes(t)
  {
    TurnedNodes(t);
    if t.Bin? && t.left.Bin? {
      Assoc(Inorder(t.left.left) + [t.left.node], Inorder(t.left.right), [t.node], Inorder(t.right));
    }
    if t.Bin? && t.right.Bin? {
      Assoc(Inorder(t.left) + [t.node], Inorder(t.right.left), [t.right.node], Inorder(t.right.right));
    }
  }

  lemma {:induction false} Turned(cmp: (Node, Node) -> int, e: Node, order: seq<Node>, s: set<Node>,
      l: Spine<Node>, t: Tree<Node>, r: Spine<Node>)
    requires Underway(cmp, e, order, s, l, t, r)
    ensures t.left.Bin? ==> Underway(cmp, e, order, s, l, RightTurn(t), r) && |Inorder(RightTurn(t))| == |Inorder(t)|
    ensures t.right.Bin? ==> Underway(cmp, e, order, s, l, LeftTurn(t), r) && |Inorder(LeftTurn(t))| == |Inorder(t)|
  {
    TurnedOrder(t);
  }

  /** Sets the root and its right side aside and goes on to its left. */
  method PassLeft(head: Head, elm: Node, tip: Node, ghost cmp: (Node, Node) -> int, ghost order: seq<Node>, ghost s: set<Node>,
      ghost dummy: Node, ghost l: Spine<Node>, ghost t: Tree<Node>, ghost r: Spine<Node>) returns (tip': Node)
    requires Split(Snapshot(s + {dummy}), dummy, l, t, r) && head.root == RootOf(t) && tip == Tip(r, dummy)
    requires Underway(cmp, elm, order, s, l, t, r) && cmp(elm, t.node) < 0 && t.left.Bin?
    requires Comparator(cmp, s + {elm}) && Sorted(cmp, order) && Drawn(order, s + {elm})
    modifies head`root, s + {dummy}
    ensures Split(Snapshot(s + {dummy}), dummy, l, t.left, Hang(r, t.right, t.node)) && head.root == RootOf(t.left) && tip' == t.node
    ensures Underway(cmp, elm, order, s, l, t.left, Hang(r, t.right, t.node)) && |Inorder(t.left)| < |Inorder(t)|
  {
    GoLeft(cmp, elm, order, s, l, t, r);
    tip' := LinkLeft(head, tip, s + {dummy}, dummy, l, t, r);
  }

  /** Brings the left child to the root; `done` where nothing lies further left. */
  method ZigLeft(head: Head, elm: Node, tmp: Node, ghost cmp: (Node, Node) -> int, ghost order: seq<Node>, ghost s: set<Node>,
      ghost dummy: Node, ghost l: Spine<Node>, ghost t: Tree<Node>, ghost r: Spine<Node>) returns (done: bool)
    requires Split(Snapshot(s + {dummy}), dummy, l, t, r) && head.root == RootOf(t)
    requires Underway(cmp, elm, order, s, l, t, r) && t.left.Bin? && t.left.node == tmp
    modifies head`root, s + {dummy}
    ensures Split(Snapshot(s + {dummy}), dummy, l, RightTurn(t), r) && head.root == tmp
    ensures Underway(cmp, elm, order, s, l, RightTurn(t), r) && |Inorder(RightTurn(t))| == |Inorder(t)|
    ensures if done then RightTurn(t).left == Leaf else RightTurn(t).left.Bin?
  {
    RotateRight(head, tmp, s + {dummy}, dummy, l, t, r);
    Turned(cmp, elm, order, s, l, t, r);
    done := head.root.left == null;
    if done {
      NoTree(RightTurn(t).left);
    }
  }

  /** A round of the loop where `elm` belongs left of the root. */
  method StepLeft(head: Head, elm: Node, tip: Node, cmp: (Node, Node) -> int, ghost order: seq<Node>, ghost s: set<Node>,
      ghost dummy: Node, ghost l: Spine<Node>, ghost t: Tree<Node>, ghost r: Spine<Node>)
    returns (done: bool, tip': Node, ghost t': Tree<Node>, ghost r': Spine<Node>)
    requires Split(Snapshot(s + {dummy}), dummy, l, t, r) && head.root == RootOf(t) && tip == Tip(r, dummy)
    requires Underway(cmp, elm, order, s, l, t, r) && cmp(elm, t.node) < 0
    requires Comparator(cmp, s + {elm}) && Sorted(cmp, order) && Drawn(order, s + {elm})
    modifies head`root, s + {dummy}
    ensures Split(Snapshot(s + {dummy}), dummy, l, t', r') && head.root == RootOf(t') && tip' == Tip(r', dummy)
    ensures Underway(cmp, elm, order, s, l, t', r')
    ensures if done then Stops(cmp, elm, t') else |Inorder(t')| < |Inorder(t)|
  {
    done, tip', t', r' := false, tip, t, r;
    var tmp := head.root.left;
    if tmp == null {
      NoTree(t.left);
      done := true;
    } else if cmp(elm, tmp) < 0 {
      t' := RightTurn(t);
      done := ZigLeft(head, elm, tmp, cmp, order, s, dummy, l, t, r);
    }
    if !done {
      tip' := PassLeft(head, elm, tip, cmp, order, s, dummy, l, t', r);
      t', r' := t'.left, Hang(r, t'.right, t'.node);
    }
  }

  /** Sets the root and its left side aside and goes on to its right. */
  method PassRight(head: Head, elm: Node, tip: Node, ghost cmp: (Node, Node) -> int, ghost order: seq<Node>, ghost s: set<Node>,
      ghost dummy: Node, ghost l: Spine<Node>, ghost t: Tree<Node>, ghost r: Spine<Node>) returns (tip': Node)
    requires Split(Snapshot(s + {dummy}), dummy, l, t, r) && head.root == RootOf(t) && tip == Tip(l, dummy)
    requires Underway(cmp, elm, order, s, l, t, r) && cmp(elm, t.node) > 0 && t.right.Bin?
    requires Comparator(cmp, s + {elm}) && Sorted(cmp, order) && Drawn(order, s + {elm})
    modifies head`root, s + {dummy}
    ensures Split(Snapshot(s + {dummy}), dummy, Hang(l, t.left, t.node), t.right, r) && head.root == RootOf(t.right) && tip' == t.node
    ensures Underway(cmp, elm, order, s, Hang(l, t.left, t.node), t.right, r) && |Inorder(t.right)| < |Inorder(t)|
  {
    GoRight(cmp, elm, order, s, l, t, r);
    tip' := LinkRight(head, tip, s + {dummy}, dummy, l, t, r);
  }

  /** Brings the right child to the root; `done` where nothing lies further right. */
  method ZigRight(head: Head, elm: Node, tmp: Node, ghost cmp: (Node, Node) -> int, ghost order: seq<Node>, ghost s: set<Node>,
      ghost dummy: Node, ghost l: Spine<Node>, ghost t: Tree<Node>, ghost r: Spine<Node>) returns (done: bool)
    requires Split(Snapshot(s + {dummy}), dummy, l, t, r) && head.root == RootOf(t)
    requires Underway(cmp, elm, order, s, l, t, r) && t.right.Bin? && t.right.node == tmp
    modifies head`root, s + {dummy}
    ensures Split(Snapshot(s + {dummy}), dummy, l, LeftTurn(t), r) && head.root == tmp
    ensures Underway(cmp, elm, order, s, l, LeftTurn(t), r) && |Inorder(LeftTurn(t))| == |Inorder(t)|
    ensures if done then LeftTurn(t).right == Leaf else LeftTurn(t).right.Bin?
  {
    RotateLeft(head, tmp, s + {dummy}, dummy, l, t, r);
    Turned(cmp, elm, order, s, l, t, r);
    done := head.root.right == null;
    if done {
      NoTree(LeftTurn(t).right);
    }
  }

  /** A round of the loop where `elm` belongs right of the root. */
  method StepRight(head: Head, elm: Node, tip: Node, cmp: (Node, Node) -> int, ghost order: seq<Node>, ghost s: set<Node>,
      ghost dummy: Node, ghost l: Spine<Node>, ghost t: Tree<Node>, ghost r: Spine<Node>)
    returns (done: bool, tip': Node, ghost t': Tree<Node>, ghost l': Spine<Node>)
    requires Split(Snapshot(s + {dummy}), dummy, l, t, r) && head.root == RootOf(t) && tip == Tip(l, dummy)
    requires Underway(cmp, elm, order, s, l, t, r) && cmp(elm, t.node) > 0
    requires Comparator(cmp, s + {elm}) && Sorted(cmp, order) && Drawn(order, s + {elm})
    modifies head`root, s + {dummy}
    ensures Split(Snapshot(s + {dummy}), dummy, l', t', r) && head.root == RootOf(t') && tip' == Tip(l', dummy)
    ensures Underway(cmp, elm, order, s, l', t', r)
    ensures if done then Stops(cmp, elm, t') else |Inorder(t')| < |Inorder(t)|
  {
    done, tip', t', l' := false, tip, t, l;
    var tmp := head.root.right;
    if tmp == null {
      NoTree(t.right);
      done := true;
    } else if cmp(elm, tmp) > 0 {
      t' := LeftTurn(t);
      done := ZigRight(head, elm, tmp, cmp, order, s, dummy, l, t, r);
    }
    if !done {
      tip' := PassRight(head, elm, tip, cmp, order, s, dummy, l, t', r);
      t', l' := t'.right, Hang(l, t'.left, t'.node);
    }
  }

  lemma NoTree<T>(t: Tree<T>)
    requires !t.Bin?
    ensures t == Leaf
  {
    match t {
      case Leaf =>
      case Bin(_, _, _) =>
    }
  }

  /** SPLAY_ASSEMBLE. */
  method Assemble(head: Head, dummy: Node, left: Node, right: Node, ghost s: set<Node>,
      ghost l: Spine<Node>, ghost t: Tree<Node>, ghost r: Spine<Node>)
    requires Split(Snapshot(s + {dummy}), dummy, l, t, r) && head.root == RootOf(t) && t.Bin?
    requires left == Tip(l, dummy) && right == Tip(r, dummy) && s == SpineNodes(l) + Nodes(t) + SpineNodes(r)
    modifies s + {dummy}
    ensures Linked(Snapshot(s + {dummy}), Assembled(l, t, r)) && Distinct(Assembled(l, t, r))
    ensures head.root == RootOf(Assembled(l, t, r))
  {
    ghost var m := Snapshot(s + {dummy});
    TipsIn(dummy, l, t, r);
    CloseTips(head.root, left, right, s + {dummy});
    ghost var m2 := Snapshot(s + {dummy});
    TakeSides(head.root, dummy, s + {dummy});
    SplitJoined(m, m[left := m[left].(right := RootOf(t.left))], m2, Snapshot(s + {dummy}), dummy, l, t, r);
  }

  lemma {:induction false} TipsIn(dummy: Node, l: Spine<Node>, t: Tree<Node>, r: Spine<Node>)
    requires Apart(dummy, l, t, r) && t.Bin?
    ensures Tip(l, dummy) in SpineNodes(l) + {dummy} && Tip(r, dummy) in SpineNodes(r) + {dummy} && t.node in Nodes(t)
    ensures t.node != dummy && t.node != Tip(l, dummy) && t.node != Tip(r, dummy)
  {
  }

  /** The root takes over what hangs off the dummy, with the sides exchanged. */
  method TakeSides(root: Node, dummy: Node, ghost s: set<Node>)
    requires root in s && dummy in s && root != dummy
    modifies root
    ensures var m := old(Snapshot(s)); Snapshot(s) == m[root := Cell(m[dummy].right, m[dummy].left)]
  {
    SetLeft(root, dummy.right, s);
    SetRight(root, dummy.left, s);
  }

  method CloseTips(root: Node, left: Node, right: Node, ghost s: set<Node>)
    requires root in s && left in s - {root} && right in s - {root}
    modifies s - {root}
    ensures var m := old(Snapshot(s));
      var m1 := m[left := m[left].(right := m[root].left)];
      Snapshot(s) == m1[right := m1[right].(left := m[root].right)]
  {
    SetRight(left, root.left, s);
    SetLeft(right, root.right, s);
  }

  lemma {:induction false} SplitStart(m: Links, m': Links, dummy: Node, t: Tree<Node>)
    requires Linked(m, t) && Distinct(t) && m.Keys == Nodes(t) && dummy !in Nodes(t)
    requires m' == m[dummy := Cell(null, null)]
    ensures Split(m', dummy, End, t, End)
  {
    FrameLinked(m, m', t);
  }

  lemma {:induction false} Finished(cmp: (Node, Node) -> int, e: Node, order: seq<Node>, s: set<Node>,
      l: Spine<Node>, t: Tree<Node>, r: Spine<Node>)
    requires Underway(cmp, e, order, s, l, t, r) && Stops(cmp, e, t)
    requires Comparator(cmp, s + {e}) && Sorted(cmp, order) && Drawn(order, s + {e})
    ensures var w := Assembled(l, t, r);
      Inorder(w) == order && Nodes(w) == s && Nearest(cmp, e, order, |Inorder(w.left)|)
  {
    Stopped(cmp, e, order, s, l, t, r);
    AssembledOrder(l, t, r);
  }

  lemma {:induction false} Begun(cmp: (Node, Node) -> int, e: Node, t: Tree<Node>)
    requires t.Bin?
    ensures Underway(cmp, e, Inorder(t), Nodes(t), End, t, End) && Drawn(Inorder(t), Nodes(t) + {e})
  {
    NodesInorder(t);
    assert [] + Inorder(t) + [] == Inorder(t);
  }

  /** The dummy node, with nothing set aside yet. */
  method MakeDummy(head: Head, ghost t: Tree<Node>) returns (dummy: Node)
    requires head.Shows(t)
    ensures fresh(dummy) && head.Shows(t) && Split(Snapshot(Nodes(t) + {dummy}), dummy, End, t, End)
  {
    ghost var m := Snapshot(Nodes(t));
    dummy := new Node();
    assert Snapshot(Nodes(t) + {dummy}) == m[dummy := Cell(null, null)];
    SplitStart(m, Snapshot(Nodes(t) + {dummy}), dummy, t);
  }

  /** The assembly, after which the dummy is given up. */
  method Close(head: Head, dummy: Node, left: Node, right: Node, ghost s: set<Node>,
      ghost l: Spine<Node>, ghost t: Tree<Node>, ghost r: Spine<Node>)
    requires Split(Snapshot(s + {dummy}), dummy, l, t, r) && head.root == RootOf(t) && t.Bin?
    requires left == Tip(l, dummy) && right == Tip(r, dummy) && s == SpineNodes(l) + Nodes(t) + SpineNodes(r)
    modifies s + {dummy}
    ensures head.Shows(Assembled(l, t, r)) && Nodes(Assembled(l, t, r)) == s
  {
    AssembledOrder(l, t, r);
    Assemble(head, dummy, left, right, s, l, t, r);
    FrameLinked(Snapshot(s + {dummy}), Snapshot(s), Assembled(l, t, r));
  }

  /** The loop and the assembly; what the head shows in the end is returned. */
  method TopDown(head: Head, elm: Node, cmp: (Node, Node) -> int, ghost t0: Tree<Node>) returns (ghost w: Tree<Node>)
    requires head.Shows(t0) && t0.Bin?
    requires Comparator(cmp, Nodes(t0) + {elm}) && Sorted(cmp, Inorder(t0))
    modifies head`root, Nodes(t0)
    ensures head.Shows(w) && w.Bin? && Inorder(w) == Inorder(t0) && Nodes(w) == Nodes(t0)
    ensures Nearest(cmp, elm, Inorder(t0), |Inorder(w.left)|)
  {
    ghost var (order, s) := (Inorder(t0), Nodes(t0));
    var dummy := MakeDummy(head, t0);
    var left, right := dummy, dummy;
    ghost var (l, t, r) := (Spine<Node>.End, t0, Spine<Node>.End);
    Begun(cmp, elm, t);
    var comp := cmp(elm, head.root);
    while comp != 0
      invariant Split(Snapshot(s + {dummy}), dummy, l, t, r) && head.root == RootOf(t)
      invariant left == Tip(l, dummy) && right == Tip(r, dummy)
      invariant Underway(cmp, elm, order, s, l, t, r) && comp == cmp(elm, t.node)
      decreases |Inorder(t)|
    {
      var done;
      if comp < 0 {
        done, right, t, r := StepLeft(head, elm, right, cmp, order, s, dummy, l, t, r);
      } else {
        done, left, t, l := StepRight(head, elm, left, cmp, order, s, dummy, l, t, r);
      }
      if done {
        break;
      }
      comp := cmp(elm, head.root);
    }
    Finished(cmp, elm, order, s, l, t, r);
    w := Assembled(l, t, r);
    Close(head, dummy, left, right, s, l, t, r);
  }

  method Splay(head: Head, elm: Node, cmp: (Node, Node) -> int)
    requires head.Valid(cmp) && head.shape.Bin? && Comparator(cmp, Nodes(head.shape) + {elm})
    modifies head, Nodes(head.shape)
    ensures head.Valid(cmp) && head.shape.Bin?
    ensures Inorder(head.shape) == old(Inorder(head.shape)) && Nodes(head.shape) == old(Nodes(head.shape))
    ensures Nearest(cmp, elm, Inorder(head.shape), |Inorder(head.shape.left)|)
  {
    head.shape := TopDown(head, elm, cmp, head.shape);
  }
}
