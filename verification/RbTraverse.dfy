/** Stepping through a red-black tree: the neighbours of a node, the two ends, and the loop
    that may remove what it visits. */
module RbTraverse {
  import opened KeyOrder
  import opened RbShape
  import opened RbLinks
  import opened RbHead
  import opened RbWalk
  import opened RbRemove

  ghost function NodeBefore(s: seq<Node>, k: nat): Node?
  {
    if 0 < k <= |s| then s[k - 1] else null
  }

  /** `r` comes right after `e` in `s`, which has `e` just once; null after the last. */
  ghost predicate Follows(s: seq<Node>, e: Node, r: Node?) {
    && e in s
    && forall k | 0 <= k < |s| && s[k] == e :: r == NodeAt(s, k + 1)
  }

  ghost predicate Precedes(s: seq<Node>, e: Node, r: Node?) {
    && e in s
    && forall k | 0 <= k < |s| && s[k] == e :: r == NodeBefore(s, k)
  }

  lemma {:induction false} OnlyAt(cmp: (Node, Node) -> int, w: Tree<Node>, k: nat)
    requires Comparator(cmp, Nodes(w)) && Sorted(cmp, Inorder(w)) && k < |Inorder(w)|
    ensures var s := Inorder(w); forall i | 0 <= i < |s| && s[i] == s[k] :: i == k
  {
    var s := Inorder(w);
    NodesInorder(w);
    forall i | 0 <= i < |s| && s[i] == s[k] ensures i == k {
      SortedOnce(cmp, Nodes(w), s, i, k);
    }
  }

  /** A node without a left subtree comes first in its own tree, one without a right subtree last. */
  lemma {:induction false} EndNode(c: Ctx<Node>, t: Tree<Node>)
    requires t.Bin?
    ensures t.left == Leaf ==> NodeAt(Inorder(Plug(c, t)), |Before(c)|) == t.node
    ensures t.right == Leaf ==> NodeBefore(Inorder(Plug(c, t)), Hi(c, t)) == t.node
  {
    IndexPlug(c, t);
  }

  /** RB_NEXT where there is a right subtree: its leftmost node. */
  method NextBelow(head: Head, elm0: Node, ghost c0: Ctx<Node>, ghost t0: Tree<Node>) returns (elm: Node)
    requires head.Shows(Plug(c0, t0)) && t0.Bin? && t0.node == elm0 && elm0.right != null
    ensures head.Shows(Plug(c0, t0)) && elm == NodeAt(Inorder(Plug(c0, t0)), Index(c0, t0) + 1)
  {
    ghost var (c, t) := (Under(c0, Right, t0.node, t0.red, t0.left), t0.right);
    head.Look(c0, t0);
    head.Look(c, t);
    elm := elm0.right;
    while elm.left != null
      invariant Plug(c, t) == Plug(c0, t0) && head.Shows(Plug(c0, t0)) && elm == RootOf(t)
      invariant elm.left == RootOf(t.left) && |Before(c)| == Index(c0, t0) + 1
      decreases t
    {
      elm := elm.left;
      c, t := Under(c, Left, t.node, t.red, t.right), t.left;
      head.Look(c, t);
    }
    NoTree(t.left);
    EndNode(c, t);
  }

  /** RB_NEXT where there is none: the first ancestor from whose left side the walk comes. */
  method NextAbove(head: Head, elm0: Node, ghost c0: Ctx<Node>, ghost t0: Tree<Node>) returns (elm: Node?)
    requires head.Shows(Plug(c0, t0)) && t0.Bin? && t0.node == elm0 && t0.right == Leaf
    ensures head.Shows(Plug(c0, t0)) && elm == NodeAt(Inorder(Plug(c0, t0)), Index(c0, t0) + 1)
  {
    elm := elm0;
    ghost var (c, t) := (c0, t0);
    assert Inorder(t.right) == [];
    head.Look(c, t);
    if elm.parent != null && elm == elm.parent.left {
      elm := elm.parent;
      AboveIndex(c, t);
    } else {
      while elm.parent != null && elm == elm.parent.right
        invariant Plug(c, t) == Plug(c0, t0) && head.Shows(Plug(c0, t0)) && t.Bin? && elm == t.node
        invariant elm.parent == Up(c) && Hi(c, t) == Index(c0, t0) + 1
        invariant c.Under? ==> (c.node.right == elm <==> c.side == Right)
        decreases c
      {
        elm := elm.parent;
        c, t := c.up, Join(c.side, t, c.node, c.red, c.other);
        head.Look(c, t);
      }
      AboveIndex(c, t);
      elm := elm.parent;
    }
  }

  method Next(head: Head, elm0: Node, ghost cmp: (Node, Node) -> int) returns (elm: Node?)
    requires head.Valid(cmp) && elm0 in Nodes(head.shape)
    ensures head.Valid(cmp) && Follows(Inorder(head.shape), elm0, elm)
    ensures var s := Inorder(head.shape);
      forall k | 0 <= k < |s| && s[k] == elm0 :: elm == if k + 1 < |s| then s[k + 1] else null
  {
    ghost var c, t := Locate(Top, head.shape, elm0);
    IndexPlug(c, t);
    OnlyAt(cmp, head.shape, Index(c, t));
    head.Look(c, t);
    if elm0.right != null {
      elm := NextBelow(head, elm0, c, t);
    } else {
      NoTree(t.right);
      elm := NextAbove(head, elm0, c, t);
    }
  }

  /** RB_PREV where there is a left subtree: its rightmost node. */
  method PrevBelow(head: Head, elm0: Node, ghost c0: Ctx<Node>, ghost t0: Tree<Node>) returns (elm: Node)
    requires head.Shows(Plug(c0, t0)) && t0.Bin? && t0.node == elm0 && elm0.left != null
    ensures head.Shows(Plug(c0, t0)) && elm == NodeBefore(Inorder(Plug(c0, t0)), Index(c0, t0))
  {
    ghost var (c, t) := (Under(c0, Left, t0.node, t0.red, t0.right), t0.left);
    head.Look(c0, t0);
    head.Look(c, t);
    elm := elm0.left;
    while elm.right != null
      invariant Plug(c, t) == Plug(c0, t0) && head.Shows(Plug(c0, t0)) && elm == RootOf(t)
      invariant elm.right == RootOf(t.right) && Hi(c, t) == Index(c0, t0)
      decreases t
    {
      elm := elm.right;
      c, t := Under(c, Right, t.node, t.red, t.left), t.right;
      head.Look(c, t);
    }
    NoTree(t.right);
    EndNode(c, t);
  }

  /** RB_PREV where there is none: the first ancestor from whose right side the walk comes. */
  method PrevAbove(head: Head, elm0: Node, ghost c0: Ctx<Node>, ghost t0: Tree<Node>) returns (elm: Node?)
    requires head.Shows(Plug(c0, t0)) && t0.Bin? && t0.node == elm0 && t0.left == Leaf
    ensures head.Shows(Plug(c0, t0)) && elm == NodeBefore(Inorder(Plug(c0, t0)), Index(c0, t0))
  {
    elm := elm0;
    ghost var (c, t) := (c0, t0);
    head.Look(c, t);
    if elm.parent != null && elm == elm.parent.right {
      elm := elm.parent;
      AboveIndex(c, t);
    } else {
      while elm.parent != null && elm == elm.parent.left
        invariant Plug(c, t) == Plug(c0, t0) && head.Shows(Plug(c0, t0)) && t.Bin? && elm == t.node
        invariant elm.parent == Up(c) && |Before(c)| == Index(c0, t0)
        invariant c.Under? ==> (c.node.left == elm <==> c.side == Left)
        decreases c
      {
        elm := elm.parent;
        c, t := c.up, Join(c.side, t, c.node, c.red, c.other);
        head.Look(c, t);
      }
      AboveIndex(c, t);
      elm := elm.parent;
    }
  }

  method Prev(head: Head, elm0: Node, ghost cmp: (Node, Node) -> int) returns (elm: Node?)
    requires head.Valid(cmp) && elm0 in Nodes(head.shape)
    ensures head.Valid(cmp) && Precedes(Inorder(head.shape), elm0, elm)
    ensures var s := Inorder(head.shape);
      forall k | 0 <= k < |s| && s[k] == elm0 :: elm == if 0 < k then s[k - 1] else null
  {
    ghost var c, t := Locate(Top, head.shape, elm0);
    IndexPlug(c, t);
    OnlyAt(cmp, head.shape, Index(c, t));
    head.Look(c, t);
    if elm0.left != null {
      elm := PrevBelow(head, elm0, c, t);
    } else {
      NoTree(t.left);
      elm := PrevAbove(head, elm0, c, t);
    }
  }

  /** A parent of which `t` is the left child comes right after `t`; one of which it is the right
      child comes right before it; without a parent `t` is everything. */
  lemma {:induction false} AboveIndex<T>(c: Ctx<T>, t: Tree<T>)
    ensures var s := Inorder(Plug(c, t));
      && |Before(c)| <= Hi(c, t) <= |s|
      && (c.Under? && c.side == Left ==> Hi(c, t) < |s| && s[Hi(c, t)] == c.node)
      && (c.Under? && c.side == Right ==> 0 < |Before(c)| && s[|Before(c)| - 1] == c.node)
      && (!c.Under? ==> Before(c) == [] && Hi(c, t) == |s|)
  {
    InorderPlug(c, t);
  }

  method MinMax(head: Head, val: int) returns (parent: Node?)
    requires head.Shows(head.shape)
    ensures head.Shows(head.shape)
    ensures var s := Inorder(head.shape);
      parent == if s == [] then null else if val < 0 then s[0] else s[|s| - 1]
  {
    var tmp := head.root;
    parent := null;
    ghost var (c, t) := (Top, head.shape);
    while tmp != null
      invariant Plug(c, t) == head.shape && head.Shows(head.shape) && tmp == RootOf(t)
      invariant parent == Up(c) && (val < 0 ==> Before(c) == []) && (val >= 0 ==> After(c) == [])
      invariant c.Under? ==> (val < 0 <==> c.side == Left)
      decreases t
    {
      head.Look(c, t);
      parent := tmp;
      if val < 0 {
        tmp := tmp.left;
        c, t := Under(c, Left, t.node, t.red, t.right), t.left;
      } else {
        tmp := tmp.right;
        c, t := Under(c, Right, t.node, t.red, t.left), t.right;
      }
    }
    NoTree(t);
    AboveIndex(c, t);
    InorderPlug(c, t);
  }

  // ---------- RB_FOREACH_SAFE ----------

  /** The elements of `s` that the loop body leaves in. */
  function Kept<T>(s: seq<T>, doomed: T -> bool): (r: seq<T>) {
    if s == [] then [] else if doomed(s[|s| - 1]) then Kept(s[..|s| - 1], doomed) else Kept(s[..|s| - 1], doomed) + [s[|s| - 1]]
  }

  lemma {:induction false} KeptNext<T>(s: seq<T>, x: T, doomed: T -> bool)
    ensures Kept(s + [x], doomed) == if doomed(x) then Kept(s, doomed) else Kept(s, doomed) + [x]
  {
    assert (s + [x])[..|s|] == s;
  }

  ghost predicate OnceAt<T>(s: seq<T>, x: T, i: nat) {
    i < |s| && s[i] == x && forall k | 0 <= k < |s| && s[k] == x :: k == i
  }

  lemma {:induction false} BetweenOnce(cmp: (Node, Node) -> int, w: Tree<Node>, a: seq<Node>, x: Node, b: seq<Node>)
    requires Comparator(cmp, Nodes(w)) && Sorted(cmp, Inorder(w)) && Inorder(w) == a + [x] + b
    ensures x in Nodes(w) && OnceAt(Inorder(w), x, |a|)
  {
    NodesInorder(w);
    OnlyAt(cmp, w, |a|);
    assert Inorder(w)[|a|] == x;
  }

  lemma RemovedBetween<T>(s: seq<T>, a: seq<T>, x: T, b: seq<T>, s': seq<T>)
    requires s == a + [x] + b && OnceAt(s, x, |a|) && Removed(s, x, s')
    ensures s' == a + b
  {
    var k :| 0 <= k < |s| && s[k] == x && s' == s[..k] + s[k + 1..];
    assert k == |a|;
  }

  lemma FollowsBetween(s: seq<Node>, a: seq<Node>, x: Node, b: seq<Node>, y: Node?)
    requires s == a + [x] + b && OnceAt(s, x, |a|) && Follows(s, x, y)
    ensures y == NodeAt(b, 0)
  {
    assert y == NodeAt(s, |a| + 1);
  }

  ghost predicate Progress(s: seq<Node>, visited: seq<Node>, b: seq<Node>, x: Node?,
      order: seq<Node>, doomed: Node -> bool) {
    s == visited + b && x == NodeAt(b, 0) && order == Kept(visited, doomed) + b
  }

  lemma {:induction false} Progressed(s: seq<Node>, visited: seq<Node>, b: seq<Node>, x: Node,
      order: seq<Node>, doomed: Node -> bool)
    requires Progress(s, visited, b, x, order, doomed)
    ensures |b| > 0 && b[0] == x && order == Kept(visited, doomed) + [x] + b[1..]
    ensures Progress(s, visited + [x], b[1..], NodeAt(b[1..], 0),
      if doomed(x) then Kept(visited, doomed) + b[1..] else order, doomed)
  {
    Ahead(visited, b);
    Ahead(Kept(visited, doomed), b);
    KeptNext(visited, x, doomed);
  }

  lemma Ahead<T>(a: seq<T>, b: seq<T>)
    requires |b| > 0
    ensures a + b == a + [b[0]] + b[1..]
  {
  }

  lemma {:induction false} ProgressDone(s: seq<Node>, visited: seq<Node>, b: seq<Node>,
      order: seq<Node>, doomed: Node -> bool)
    requires Progress(s, visited, b, null, order, doomed)
    ensures visited == s && order == Kept(s, doomed)
  {
    assert b == [];
  }

  /** One round of the loop. */
  method Visit(head: Head, x: Node, doomed: Node -> bool, ghost cmp: (Node, Node) -> int,
      ghost s: seq<Node>, ghost visited: seq<Node>, ghost b: seq<Node>) returns (y: Node?)
    requires head.Valid(cmp) && Progress(s, visited, b, x, Inorder(head.shape), doomed)
    modifies head, Nodes(head.shape)
    ensures head.Valid(cmp) && Nodes(head.shape) <= old(Nodes(head.shape)) && |b| > 0
    ensures Progress(s, visited + [x], b[1..], y, Inorder(head.shape), doomed)
  {
    Progressed(s, visited, b, x, Inorder(head.shape), doomed);
    ghost var (a, order) := (Kept(visited, doomed), Inorder(head.shape));
    BetweenOnce(cmp, head.shape, a, x, b[1..]);
    y := Next(head, x, cmp);
    FollowsBetween(order, a, x, b[1..], y);
    if doomed(x) {
      var _ := Remove(head, x, cmp);
      RemovedBetween(order, a, x, b[1..], Inorder(head.shape));
    }
  }

  /** Visits every node once and in order, although the body removes the doomed ones as it goes. */
  method ForeachSafe(head: Head, doomed: Node -> bool, ghost cmp: (Node, Node) -> int)
    returns (visited: seq<Node>)
    requires head.Valid(cmp)
    modifies head, Nodes(head.shape)
    ensures head.Valid(cmp)
    ensures visited == old(Inorder(head.shape))
    ensures Inorder(head.shape) == Kept(old(Inorder(head.shape)), doomed)
  {
    ghost var s, b := Inorder(head.shape), Inorder(head.shape);
    visited := [];
    var x := MinMax(head, -1);
    while x != null
      invariant head.Valid(cmp) && Nodes(head.shape) <= old(Nodes(head.shape))
      invariant Progress(s, visited, b, x, Inorder(head.shape), doomed)
      decreases |b|
    {
      var n: Node := x;
      x := Visit(head, n, doomed, cmp, s, visited, b);
      visited := visited + [n];
      b := b[1..];
    }
    ProgressDone(s, visited, b, Inorder(head.shape), doomed);
  }
}
