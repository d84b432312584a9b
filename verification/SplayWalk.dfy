/** Walking a splay tree, every step of which splays. */
module SplayWalk {
  import opened KeyOrder
  import opened SplayLinks
  import opened SplayTree
  import opened SplayOps

  ghost function NodeAt(s: seq<Node>, k: nat): Node? {
    if k < |s| then s[k] else null
  }

  lemma {:induction false} RootAt(cmp: (Node, Node) -> int, e: Node, t: Tree<Node>, k: nat)
    requires t.Bin? && Nearest(cmp, e, Inorder(t), |Inorder(t.left)|)
    requires Sorted(cmp, Inorder(t)) && Comparator(cmp, Nodes(t))
    requires k < |Inorder(t)| && Inorder(t)[k] == e
    ensures |Inorder(t.left)| == k && t.node == e
    ensures NodeAt(Inorder(t.right), 0) == NodeAt(Inorder(t), k + 1)
  {
    var (s, i) := (Inorder(t), |Inorder(t.left)|);
    NodesInorder(t);
    assert s[i] == t.node;
    Less(cmp, Nodes(t), e, e, e);
    Less(cmp, Nodes(t), s[i], s[k], s[i]);
    assert cmp(e, s[k]) == 0;
  }

  /** The node after `elm`, which stands at place `k`; the splay has made `elm` the root. */
  method Next(head: Head, elm0: Node, cmp: (Node, Node) -> int, ghost k: nat) returns (elm: Node?)
    requires head.Valid(cmp) && k < |Inorder(head.shape)| && Inorder(head.shape)[k] == elm0
    modifies head, Nodes(head.shape)
    ensures head.Valid(cmp)
    ensures Inorder(head.shape) == old(Inorder(head.shape)) && Nodes(head.shape) == old(Nodes(head.shape))
    ensures elm == NodeAt(Inorder(head.shape), k + 1)
  {
    NodesInorder(head.shape);
    assert Nodes(head.shape) + {elm0} == Nodes(head.shape);
    Splay(head, elm0, cmp);
    RootAt(cmp, elm0, head.shape, k);
    elm := Leftmost(head, elm0);
  }

  method Leftmost(head: Head, elm0: Node) returns (elm: Node?)
    requires head.Shows(head.shape) && head.shape.Bin? && head.shape.node == elm0
    ensures head.Shows(head.shape) && elm == NodeAt(Inorder(head.shape.right), 0)
  {
    ghost var m := Snapshot(Nodes(head.shape));
    ghost var t := head.shape.right;
    if elm0.right != null {
      elm := elm0.right;
      while elm.left != null
        invariant t.Bin? && elm == t.node && Linked(m, t) && Nodes(t) <= Nodes(head.shape)
        invariant Inorder(t)[0] == Inorder(head.shape.right)[0]
        decreases t
      {
        elm := elm.left;
        t := t.left;
      }
      NoTree(t.left);
    } else {
      NoTree(t);
      elm := null;
    }
  }

  /** So far `visited`, and `x` is next; null at the end. */
  ghost predicate Walked(s: seq<Node>, visited: seq<Node>, x: Node?) {
    |visited| <= |s| && visited == s[..|visited|] && x == NodeAt(s, |visited|)
  }

  lemma WalkOn(s: seq<Node>, visited: seq<Node>, x: Node)
    requires Walked(s, visited, x)
    ensures |visited| < |s| && s[|visited|] == x && Walked(s, visited + [x], NodeAt(s, |visited| + 1))
  {
  }

  lemma WalkDone(s: seq<Node>, visited: seq<Node>)
    requires Walked(s, visited, null)
    ensures visited == s
  {
  }

  /** SPLAY_FOREACH. */
  method Foreach(head: Head, cmp: (Node, Node) -> int) returns (visited: seq<Node>)
    requires head.Valid(cmp)
    modifies head, Nodes(head.shape)
    ensures head.Valid(cmp)
    ensures visited == old(Inorder(head.shape)) == Inorder(head.shape)
  {
    ghost var s := Inorder(head.shape);
    visited := [];
    var x := MinMax(head, -1, cmp);
    while x != null
      invariant head.Valid(cmp) && Nodes(head.shape) == old(Nodes(head.shape)) && Inorder(head.shape) == s
      invariant Walked(s, visited, x)
      decreases |s| - |visited|
    {
      var n: Node := x;
      WalkOn(s, visited, n);
      x := Next(head, n, cmp, |visited|);
      visited := visited + [n];
    }
    WalkDone(s, visited);
  }
}
