/** The operations of the splay tree: each one splays, and then works at the root. */
module SplayOps {
  import opened KeyOrder
  import opened SplayLinks
  import opened SplayTree

  /** A round of SPLAY_MINMAX towards the minimum. */
  method StepMin(head: Head, tip: Node, ghost order: seq<Node>, ghost s: set<Node>,
      ghost dummy: Node, ghost l: Spine<Node>, ghost t: Tree<Node>, ghost r: Spine<Node>)
    returns (done: bool, tip': Node, ghost t': Tree<Node>, ghost r': Spine<Node>)
    requires Split(Snapshot(s + {dummy}), dummy, l, t, r) && head.root == RootOf(t) && tip == Tip(r, dummy)
    requires Spread(order, s, l, t, r)
    modifies head`root, s + {dummy}
    ensures Split(Snapshot(s + {dummy}), dummy, l, t', r') && head.root == RootOf(t') && tip' == Tip(r', dummy)
    ensures Spread(order, s, l, t', r')
    ensures if done then t'.left == Leaf else |Inorder(t')| < |Inorder(t)|
  {
    done, tip', t', r' := false, tip, t, r;
    var tmp := head.root.left;
    if tmp == null {
      NoTree(t.left);
      done := true;
    } else {
      RotateRight(head, tmp, s + {dummy}, dummy, l, t, r);
      TurnedOrder(t);
      t' := RightTurn(t);
      if head.root.left == null {
        NoTree(t'.left);
        done := true;
      }
    }
    if !done {
      SpreadLeft(order, s, l, t', r);
      tip' := LinkLeft(head, tip, s + {dummy}, dummy, l, t', r);
      t', r' := t'.left, Hang(r, t'.right, t'.node);
    }
  }

  /** The same towards the maximum. */
  method StepMax(head: Head, tip: Node, ghost order: seq<Node>, ghost s: set<Node>,
      ghost dummy: Node, ghost l: Spine<Node>, ghost t: Tree<Node>, ghost r: Spine<Node>)
    returns (done: bool, tip': Node, ghost t': Tree<Node>, ghost l': Spine<Node>)
    requires Split(Snapshot(s + {dummy}), dummy, l, t, r) && head.root == RootOf(t) && tip == Tip(l, dummy)
    requires Spread(order, s, l, t, r)
    modifies head`root, s + {dummy}
    ensures Split(Snapshot(s + {dummy}), dummy, l', t', r) && head.root == RootOf(t') && tip' == Tip(l', dummy)
    ensures Spread(order, s, l', t', r)
    ensures if done then t'.right == Leaf else |Inorder(t')| < |Inorder(t)|
  {
    done, tip', t', l' := false, tip, t, l;
    var tmp := head.root.right;
    if tmp == null {
      NoTree(t.right);
      done := true;
    } else {
      RotateLeft(head, tmp, s + {dummy}, dummy, l, t, r);
      TurnedOrder(t);
      t' := LeftTurn(t);
      if head.root.right == null {
        NoTree(t'.right);
        done := true;
      }
    }
    if !done {
      SpreadRight(order, s, l, t', r);
      tip' := LinkRight(head, tip, s + {dummy}, dummy, l, t', r);
      t', l' := t'.right, Hang(l, t'.left, t'.node);
    }
  }

  /** SPLAY_MINMAX; the sign of `comp` tells which end. */
  method MinMaxDown(head: Head, comp: int, ghost t0: Tree<Node>) returns (ghost w: Tree<Node>)
    requires head.Shows(t0) && t0.Bin? && comp != 0
    modifies head`root, Nodes(t0)
    ensures head.Shows(w) && w.Bin? && Inorder(w) == Inorder(t0) && Nodes(w) == Nodes(t0)
    ensures if comp < 0 then w.left == Leaf else w.right == Leaf
  {
    ghost var (order, s) := (Inorder(t0), Nodes(t0));
    var dummy := MakeDummy(head, t0);
    var left, right := dummy, dummy;
    ghost var (l, t, r) := (Spine<Node>.End, t0, Spine<Node>.End);
    assert [] + order + [] == order;
    while true
      invariant Split(Snapshot(s + {dummy}), dummy, l, t, r) && head.root == RootOf(t)
      invariant left == Tip(l, dummy) && right == Tip(r, dummy)
      invariant Spread(order, s, l, t, r) && (comp < 0 ==> l == End) && (comp > 0 ==> r == End)
      decreases |Inorder(t)|
    {
      var done;
      if comp < 0 {
        done, right, t, r := StepMin(head, right, order, s, dummy, l, t, r);
      } else {
        done, left, t, l := StepMax(head, left, order, s, dummy, l, t, r);
      }
      if done {
        break;
      }
    }
    AssembledOrder(l, t, r);
    w := Assembled(l, t, r);
    Close(head, dummy, left, right, s, l, t, r);
  }

  /** SPLAY_MIN and SPLAY_MAX. */
  method MinMax(head: Head, comp: int, ghost cmp: (Node, Node) -> int) returns (r: Node?)
    requires head.Valid(cmp) && comp != 0
    modifies head, Nodes(head.shape)
    ensures head.Valid(cmp)
    ensures Inorder(head.shape) == old(Inorder(head.shape)) && Nodes(head.shape) == old(Nodes(head.shape))
    ensures var s := Inorder(head.shape);
      r == if s == [] then null else if comp < 0 then s[0] else s[|s| - 1]
  {
    if head.root == null {
      return null;
    }
    head.shape := MinMaxDown(head, comp, head.shape);
    return head.root;
  }

  method Find(head: Head, elm: Node, cmp: (Node, Node) -> int) returns (r: Node?)
    requires head.Valid(cmp) && Comparator(cmp, Nodes(head.shape) + {elm})
    modifies head, Nodes(head.shape)
    ensures head.Valid(cmp)
    ensures Inorder(head.shape) == old(Inorder(head.shape)) && Nodes(head.shape) == old(Nodes(head.shape))
    ensures r != null ==> r in Inorder(head.shape) && cmp(elm, r) == 0
    ensures r == null ==> forall n | n in Inorder(head.shape) :: cmp(elm, n) != 0
  {
    if head.root == null {
      return null;
    }
    Splay(head, elm, cmp);
    assert head.shape.node == Inorder(head.shape)[|Inorder(head.shape.left)|];
    if cmp(elm, head.root) == 0 {
      return head.root;
    }
    return null;
  }

  // ---------- insertion ----------

  /** Where `elm` goes once its neighbour is at the root. */
  ghost function Entered(cmp: (Node, Node) -> int, e: Node, t: Tree<Node>): Tree<Node>
    requires t.Bin?
  {
    if cmp(e, t.node) < 0 then Bin(t.left, e, Bin(Leaf, t.node, t.right)) else Bin(Bin(t.left, t.node, Leaf), e, t.right)
  }

  lemma EnteredBetween<T>(cmp: (T, T) -> int, u: set<T>, a: seq<T>, x: T, b: seq<T>, e: T)
    requires var s := a + [x] + b;
      && Comparator(cmp, u) && e in u && Drawn(s, u) && Sorted(cmp, s)
      && cmp(e, x) != 0 && Nearest(cmp, e, s, |a|)
    ensures var s' := if cmp(e, x) < 0 then a + [e] + ([] + [x] + b) else (a + [x] + []) + [e] + b;
      Sorted(cmp, s') && Inserted(a + [x] + b, e, s')
    ensures forall n | n in a + [x] + b :: cmp(e, n) != 0
  {
    var s := a + [x] + b;
    assert s[|a|] == x;
    var k := if cmp(e, x) < 0 then |a| else |a| + 1;
    SortedInsert(cmp, u, e, s, k);
    assert cmp(e, x) < 0 ==> a + [e] + ([] + [x] + b) == s[..|a|] + [e] + s[|a|..];
    assert cmp(e, x) > 0 ==> (a + [x] + []) + [e] + b == s[..|a| + 1] + [e] + s[|a| + 1..];
  }

  lemma {:induction false} EnteredOrder(cmp: (Node, Node) -> int, e: Node, t: Tree<Node>, u: set<Node>)
    requires t.Bin? && cmp(e, t.node) != 0 && Nearest(cmp, e, Inorder(t), |Inorder(t.left)|)
    requires Comparator(cmp, u) && u == Nodes(t) + {e} && Sorted(cmp, Inorder(t))
    ensures var s' := Inorder(Entered(cmp, e, t));
      Sorted(cmp, s') && Inserted(Inorder(t), e, s')
    ensures (forall n | n in Inorder(t) :: cmp(e, n) != 0) && e !in Nodes(t)
  {
    NodesInorder(t);
    Less(cmp, u, e, e, e);
    EnteredBetween(cmp, u, Inorder(t.left), t.node, Inorder(t.right), e);
    EnteredInorder(cmp, e, t);
  }

  lemma {:induction false} EnteredInorder(cmp: (Node, Node) -> int, e: Node, t: Tree<Node>)
    requires t.Bin?
    ensures Inorder(Entered(cmp, e, t)) ==
      if cmp(e, t.node) < 0 then Inorder(t.left) + [e] + ([] + [t.node] + Inorder(t.right))
      else (Inorder(t.left) + [t.node] + []) + [e] + Inorder(t.right)
    ensures Nodes(Entered(cmp, e, t)) == Nodes(t) + {e}
  {
    if cmp(e, t.node) < 0 {
      var w := Bin(Leaf, t.node, t.right);
      assert Inorder(w) == [] + [t.node] + Inorder(t.right) && Nodes(w) == {t.node} + Nodes(t.right);
    } else {
      var w := Bin(t.left, t.node, Leaf);
      assert Inorder(w) == Inorder(t.left) + [t.node] + [] && Nodes(w) == Nodes(t.left) + {t.node};
    }
  }

  lemma {:induction false} EnteredLinked(cmp: (Node, Node) -> int, e: Node, t: Tree<Node>, m: Links, m': Links)
    requires Linked(m, t) && Distinct(t) && t.Bin? && e !in Nodes(t) && e in m'
    requires t.node in m && t.node in m'
    requires if cmp(e, t.node) < 0
      then m'[e] == Cell(m[t.node].left, t.node) && m'[t.node] == m[t.node].(left := null)
      else m'[e] == Cell(t.node, m[t.node].right) && m'[t.node] == m[t.node].(right := null)
    requires forall n | n in Nodes(t) && n != t.node && n in m :: n in m' && m'[n] == m[n]
    ensures Linked(m', Entered(cmp, e, t)) && Distinct(Entered(cmp, e, t))
  {
    FrameLinked(m, m', t.left);
    FrameLinked(m, m', t.right);
    if cmp(e, t.node) < 0 {
      assert Linked(m', Bin(Leaf, t.node, t.right)) && Distinct(Bin(Leaf, t.node, t.right));
    } else {
      assert Linked(m', Bin(t.left, t.node, Leaf)) && Distinct(Bin(t.left, t.node, Leaf));
    }
  }

  method Enter(head: Head, elm: Node, comp: int, ghost cmp: (Node, Node) -> int, ghost t: Tree<Node>)
    requires head.Shows(t) && t.Bin? && elm !in Nodes(t) && comp == cmp(elm, t.node)
    modifies head`root, elm, Nodes(t)
    ensures head.Shows(Entered(cmp, elm, t)) && Nodes(Entered(cmp, elm, t)) == Nodes(t) + {elm}
  {
    ghost var m := Snapshot(Nodes(t));
    if comp < 0 {
      elm.left := head.root.left;
      elm.right := head.root;
      head.root.left := null;
    } else {
      elm.right := head.root.right;
      elm.left := head.root;
      head.root.right := null;
    }
    head.root := elm;
    EnteredInorder(cmp, elm, t);
    EnteredLinked(cmp, elm, t, m, Snapshot(Nodes(t) + {elm}));
  }

  /** Puts `elm` above its neighbour, the root. */
  method EnterBeside(head: Head, elm: Node, comp: int, ghost cmp: (Node, Node) -> int)
    requires head.Valid(cmp) && head.shape.Bin? && Comparator(cmp, Nodes(head.shape) + {elm})
    requires Nearest(cmp, elm, Inorder(head.shape), |Inorder(head.shape.left)|) && comp == cmp(elm, head.shape.node) != 0
    modifies head, elm, Nodes(head.shape)
    ensures head.Valid(cmp)
    ensures (forall n | n in old(Inorder(head.shape)) :: cmp(elm, n) != 0) && elm !in old(Nodes(head.shape))
    ensures Inserted(old(Inorder(head.shape)), elm, Inorder(head.shape))
    ensures Nodes(head.shape) == old(Nodes(head.shape)) + {elm}
  {
    EnteredOrder(cmp, elm, head.shape, Nodes(head.shape) + {elm});
    Enter(head, elm, comp, cmp, head.shape);
    head.shape := Entered(cmp, elm, head.shape);
  }

  /** An equal element, `elm` itself among them, comes to the root and is returned. */
  method Insert(head: Head, elm: Node, cmp: (Node, Node) -> int) returns (r: Node?)
    requires head.Valid(cmp) && Comparator(cmp, Nodes(head.shape) + {elm})
    modifies head, elm, Nodes(head.shape)
    ensures head.Valid(cmp)
    ensures r != null ==>
      && r in Inorder(head.shape) && cmp(elm, r) == 0 && (elm in old(Nodes(head.shape)) || unchanged(elm))
      && Inorder(head.shape) == old(Inorder(head.shape)) && Nodes(head.shape) == old(Nodes(head.shape))
    ensures r == null ==>
      && (forall n | n in old(Inorder(head.shape)) :: cmp(elm, n) != 0) && elm !in old(Nodes(head.shape))
      && Inserted(old(Inorder(head.shape)), elm, Inorder(head.shape))
      && Nodes(head.shape) == old(Nodes(head.shape)) + {elm}
  {
    if head.root == null {
      elm.left, elm.right := null, null;
      head.root := elm;
      head.shape := Bin(Leaf, elm, Leaf);
      assert [] + [elm] + [] == old(Inorder(head.shape))[..0] + [elm] + old(Inorder(head.shape))[0..];
      return null;
    }
    Splay(head, elm, cmp);
    assert head.shape.node == Inorder(head.shape)[|Inorder(head.shape.left)|];
    var comp := cmp(elm, head.root);
    if comp == 0 {
      return head.root;
    }
    EnterBeside(head, elm, comp, cmp);
    return null;
  }

  // ---------- removal ----------

  /** The largest element is at the root when everything compares below `e`. */
  lemma {:induction false} LargestUp(cmp: (Node, Node) -> int, e: Node, w: Tree<Node>)
    requires w.Bin? && Nearest(cmp, e, Inorder(w), |Inorder(w.left)|)
    requires forall i :: 0 <= i < |Inorder(w)| ==> cmp(e, Inorder(w)[i]) > 0
    ensures w.right == Leaf
  {
    var (s, k) := (Inorder(w), |Inorder(w.left)|);
    assert cmp(e, s[|s| - 1]) > 0;
    assert w.right.Bin? ==> |Inorder(w.right)| > 0;
    NoTree(w.right);
  }

  ghost function RootOut<T>(t: Tree<T>, w: Tree<T>): Tree<T> {
    if w.Bin? then Bin(w.left, w.node, t) else t
  }

  lemma {:induction false} RemovedRoot(cmp: (Node, Node) -> int, e: Node, t: Tree<Node>, w: Tree<Node>)
    requires t.Bin? && Inorder(w) == Inorder(t.left) && Nodes(w) == Nodes(t.left) && (w.Bin? ==> w.right == Leaf)
    requires Sorted(cmp, Inorder(t)) && Distinct(t) && Comparator(cmp, Nodes(t))
    ensures var t' := RootOut(t.right, w);
      && Sorted(cmp, Inorder(t')) && Removed(Inorder(t), t.node, Inorder(t'))
      && Nodes(t') == Nodes(t) - {t.node} && Comparator(cmp, Nodes(t'))
  {
    assert Nodes(RootOut(t.right, w)) == Nodes(t.left) + Nodes(t.right);
    ComparatorWithin(cmp, Nodes(t), Nodes(RootOut(t.right, w)));
    var (s, k) := (Inorder(t), |Inorder(t.left)|);
    if w.Bin? {
      assert Inorder(w) == Inorder(w.left) + [w.node];
    } else {
      NoTree(w);
      assert Inorder(t.left) == [];
    }
    assert Inorder(RootOut(t.right, w)) == Inorder(t.left) + Inorder(t.right);
    assert s[k] == t.node && s[..k] == Inorder(t.left) && s[k + 1..] == Inorder(t.right);
    SortedWithout(cmp, s, k);
  }

  /** Puts `right` below the root, which has no right child. */
  method HangRight(head: Head, tmp: Node?, ghost w: Tree<Node>, ghost right: Tree<Node>)
    requires head.Shows(w) && w.Bin? && w.right == Leaf && tmp == RootOf(right)
    requires Linked(Snapshot(Nodes(right)), right) && Distinct(right) && Nodes(right) !! Nodes(w)
    modifies Nodes(w)
    ensures head.Shows(RootOut(right, w))
  {
    ghost var (m1, m) := (Snapshot(Nodes(w)), Snapshot(Nodes(right)));
    head.root.right := tmp;
    GraftRight(m, m1, Snapshot(Nodes(w) + Nodes(right)), right, w);
    assert Nodes(RootOut(right, w)) == Nodes(w) + Nodes(right);
  }

  /** The second splay of SPLAY_REMOVE brings up a root with no right child. */
  method LiftLargest(head: Head, elm: Node, cmp: (Node, Node) -> int, ghost t: Tree<Node>) returns (ghost w: Tree<Node>)
    requires t.Bin? && head.Shows(t.left) && t.left.Bin? && Sorted(cmp, Inorder(t)) && Comparator(cmp, Nodes(t) + {elm})
    requires forall i :: 0 <= i < |Inorder(t.left)| ==> cmp(elm, Inorder(t.left)[i]) > 0
    modifies head`root, Nodes(t.left)
    ensures head.Shows(w) && w.Bin? && w.right == Leaf && Inorder(w) == Inorder(t.left) && Nodes(w) == Nodes(t.left)
  {
    LeftPart(cmp, t, Nodes(t) + {elm}, Nodes(t.left) + {elm});
    w := TopDown(head, elm, cmp, t.left);
    LargestUp(cmp, elm, w);
  }

  /** Steps down to the left subtree, keeping the right one aside. */
  method DropToLeft(head: Head, ghost t: Tree<Node>) returns (tmp: Node?)
    requires head.Shows(t) && t.Bin?
    modifies head`root
    ensures head.Shows(t.left) && tmp == RootOf(t.right)
    ensures Linked(Snapshot(Nodes(t.right)), t.right) && Distinct(t.right) && Nodes(t.right) !! Nodes(t.left)
  {
    ghost var m := Snapshot(Nodes(t));
    tmp := head.root.right;
    head.root := head.root.left;
    FrameLinked(m, Snapshot(Nodes(t.left)), t.left);
    FrameLinked(m, Snapshot(Nodes(t.right)), t.right);
  }

  /** The removal of a root with a left subtree. */
  method JoinSides(head: Head, elm: Node, cmp: (Node, Node) -> int, ghost t: Tree<Node>) returns (ghost w: Tree<Node>)
    requires head.Shows(t) && t.Bin? && t.left.Bin? && Sorted(cmp, Inorder(t)) && Comparator(cmp, Nodes(t) + {elm})
    requires forall i :: 0 <= i < |Inorder(t.left)| ==> cmp(elm, Inorder(t.left)[i]) > 0
    modifies head`root, Nodes(t)
    ensures Inorder(w) == Inorder(t.left) && Nodes(w) == Nodes(t.left) && w.Bin? && w.right == Leaf
    ensures head.Shows(RootOut(t.right, w))
  {
    var tmp := DropToLeft(head, t);
    ghost var m := Snapshot(Nodes(t.right));
    w := LiftLargest(head, elm, cmp, t);
    assert Snapshot(Nodes(t.right)) == m;
    HangRight(head, tmp, w, t.right);
  }

  /** The removal of the root. */
  method RemoveRoot(head: Head, elm: Node, cmp: (Node, Node) -> int)
    requires head.Valid(cmp) && head.shape.Bin? && Comparator(cmp, Nodes(head.shape) + {elm})
    requires Nearest(cmp, elm, Inorder(head.shape), |Inorder(head.shape.left)|) && cmp(elm, head.shape.node) == 0
    modifies head, Nodes(head.shape)
    ensures head.Valid(cmp)
    ensures Removed(old(Inorder(head.shape)), old(head.shape.node), Inorder(head.shape))
    ensures Nodes(head.shape) == old(Nodes(head.shape)) - {old(head.shape.node)}
  {
    ghost var t := head.shape;
    NearestRoot(cmp, elm, t);
    ghost var w := TakeRootOut(head, elm, cmp, t);
    RemovedRoot(cmp, elm, t, w);
    head.shape := RootOut(t.right, w);
  }

  method TakeRootOut(head: Head, elm: Node, cmp: (Node, Node) -> int, ghost t: Tree<Node>) returns (ghost w: Tree<Node>)
    requires head.Shows(t) && t.Bin? && Sorted(cmp, Inorder(t)) && Comparator(cmp, Nodes(t) + {elm})
    requires forall i :: 0 <= i < |Inorder(t.left)| ==> cmp(elm, Inorder(t.left)[i]) > 0
    modifies head`root, Nodes(t)
    ensures Inorder(w) == Inorder(t.left) && Nodes(w) == Nodes(t.left) && (w.Bin? ==> w.right == Leaf)
    ensures head.Shows(RootOut(t.right, w))
  {
    if head.root.left == null {
      NoTree(t.left);
      FrameLinked(Snapshot(Nodes(t)), Snapshot(Nodes(t.right)), t.right);
      head.root := head.root.right;
      w := Leaf;
    } else {
      w := JoinSides(head, elm, cmp, t);
    }
  }

  lemma {:induction false} LeftPart(cmp: (Node, Node) -> int, t: Tree<Node>, u: set<Node>, v: set<Node>)
    requires t.Bin? && Sorted(cmp, Inorder(t)) && Comparator(cmp, u) && v <= u
    ensures Sorted(cmp, Inorder(t.left)) && Comparator(cmp, v)
  {
    var (s, a) := (Inorder(t), Inorder(t.left));
    assert forall i :: 0 <= i < |a| ==> a[i] == s[i];
  }

  lemma {:induction false} GraftRight(m: Links, m1: Links, m': Links, right: Tree<Node>, w: Tree<Node>)
    requires Linked(m, right) && Distinct(right) && w.Bin? && w.right == Leaf && Nodes(right) !! Nodes(w)
    requires Linked(m1, w) && Distinct(w)
    requires forall n | n in Nodes(w) && n != w.node && n in m1 :: n in m' && m'[n] == m1[n]
    requires w.node in m1 && w.node in m' && m'[w.node] == m1[w.node].(right := RootOf(right))
    requires forall n | n in Nodes(right) && n in m :: n in m' && m'[n] == m[n]
    ensures Linked(m', RootOut(right, w)) && Distinct(RootOut(right, w))
    ensures Nodes(RootOut(right, w)) == Nodes(w) + Nodes(right)
  {
    FrameLinked(m1, m', w.left);
    FrameLinked(m, m', right);
  }

  method Remove(head: Head, elm: Node, cmp: (Node, Node) -> int) returns (r: Node?)
    requires head.Valid(cmp) && Comparator(cmp, Nodes(head.shape) + {elm})
    modifies head, Nodes(head.shape)
    ensures head.Valid(cmp)
    ensures if r == null then
        && (forall n | n in Inorder(head.shape) :: cmp(elm, n) != 0)
        && Inorder(head.shape) == old(Inorder(head.shape)) && Nodes(head.shape) == old(Nodes(head.shape))
      else
        && r == elm && exists n | n in old(Inorder(head.shape)) ::
            && cmp(elm, n) == 0 && Removed(old(Inorder(head.shape)), n, Inorder(head.shape))
            && Nodes(head.shape) == old(Nodes(head.shape)) - {n}
  {
    if head.root == null {
      NoTree(head.shape);
      return null;
    }
    Splay(head, elm, cmp);
    ghost var n := head.shape.node;
    assert Inorder(head.shape)[|Inorder(head.shape.left)|] == n;
    NearestRoot(cmp, elm, head.shape);
    if cmp(elm, head.root) == 0 {
      RemoveRoot(head, elm, cmp);
      return elm;
    }
    return null;
  }

  lemma {:induction false} NearestRoot(cmp: (Node, Node) -> int, e: Node, t: Tree<Node>)
    requires t.Bin? && Nearest(cmp, e, Inorder(t), |Inorder(t.left)|)
    requires Sorted(cmp, Inorder(t)) && Comparator(cmp, Nodes(t) + {e})
    ensures if cmp(e, t.node) == 0
      then forall i :: 0 <= i < |Inorder(t.left)| ==> cmp(e, Inorder(t.left)[i]) > 0
      else forall n | n in Inorder(t) :: cmp(e, n) != 0
  {
    var (s, k, u) := (Inorder(t), |Inorder(t.left)|, Nodes(t) + {e});
    NodesInorder(t);
    assert s[k] == t.node;
    if cmp(e, t.node) == 0 {
      forall i | 0 <= i < k ensures cmp(e, Inorder(t.left)[i]) > 0 {
        assert Inorder(t.left)[i] == s[i];
        Less(cmp, u, s[i], t.node, e);
        Less(cmp, u, s[i], e, e);
        Less(cmp, u, e, t.node, e);
      }
    }
  }
}
