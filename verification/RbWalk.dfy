/** Searches and traversals of a red-black tree. */
module RbWalk {
  import opened KeyOrder
  import opened RbShape
  import opened RbLinks
  import opened RbHead

  /** The subtree at the hole spans all places that `e` can still take in the whole tree. */
  ghost predicate Spans(cmp: (Node, Node) -> int, e: Node, s: seq<Node>, c: Ctx<Node>, t: Tree<Node>) {
    Brackets(cmp, e, s, |Before(c)|, Hi(c, t))
  }

  ghost function Hi<T>(c: Ctx<T>, t: Tree<T>): nat {
    |Before(c)| + |Inorder(t)|
  }

  lemma {:induction false} Descend(cmp: (Node, Node) -> int, e: Node, c: Ctx<Node>, t: Tree<Node>)
    requires var w := Plug(c, t); Comparator(cmp, Nodes(w) + {e}) && Sorted(cmp, Inorder(w)) && Spans(cmp, e, Inorder(w), c, t)
    requires t.Bin?
    ensures var s := Inorder(Plug(c, t));
      && s[Index(c, t)] == t.node && Hi(Under(c, Left, t.node, t.red, t.right), t.left) == Index(c, t)
      && Hi(Under(c, Right, t.node, t.red, t.left), t.right) == Hi(c, t) <= |s|
      && (cmp(e, t.node) < 0 ==> Spans(cmp, e, s, Under(c, Left, t.node, t.red, t.right), t.left))
      && (cmp(e, t.node) > 0 ==> Spans(cmp, e, s, Under(c, Right, t.node, t.red, t.left), t.right))
      && (cmp(e, t.node) == 0 ==> Brackets(cmp, e, s, Index(c, t), Index(c, t) + 1))
  {
    var s := Inorder(Plug(c, t));
    NodesInorder(Plug(c, t));
    IndexPlug(c, t);
    Narrow(cmp, Nodes(Plug(c, t)) + {e}, e, s, |Before(c)|, Index(c, t), Hi(c, t));
  }

  method Find(head: Head, elm: Node, cmp: (Node, Node) -> int) returns (r: Node?)
    requires head.Valid(cmp) && Comparator(cmp, Nodes(head.shape) + {elm})
    ensures r != null ==> r in Inorder(head.shape) && cmp(elm, r) == 0
    ensures r == null ==> forall n | n in Inorder(head.shape) :: cmp(elm, n) != 0
  {
    var tmp := head.root;
    ghost var s := Inorder(head.shape);
    ghost var (c, t) := (Top, head.shape);
    while tmp != null
      invariant Plug(c, t) == head.shape && head.Shows(head.shape) && tmp == RootOf(t)
      invariant Spans(cmp, elm, s, c, t)
      decreases t
    {
      head.Look(c, t);
      Descend(cmp, elm, c, t);
      var comp := cmp(elm, tmp);
      if comp < 0 {
        tmp := tmp.left;
        c, t := Under(c, Left, t.node, t.red, t.right), t.left;
      } else if comp > 0 {
        tmp := tmp.right;
        c, t := Under(c, Right, t.node, t.red, t.left), t.right;
      } else {
        return tmp;
      }
    }
    return null;
  }

  ghost function NodeAt(s: seq<Node>, k: nat): Node? {
    if k < |s| then s[k] else null
  }

  /** `res` is the first of `s` that is not below `e`, or null where all are. */
  ghost predicate FirstNotBelow(cmp: (Node, Node) -> int, e: Node, s: seq<Node>, res: Node?) {
    && (res != null ==> res in s && cmp(e, res) <= 0)
    && forall n | n in s :: cmp(e, n) <= 0 <==> res != null && (n == res || cmp(res, n) < 0)
  }

  method NFind(head: Head, elm: Node, cmp: (Node, Node) -> int) returns (res: Node?)
    requires head.Valid(cmp) && Comparator(cmp, Nodes(head.shape) + {elm})
    ensures FirstNotBelow(cmp, elm, Inorder(head.shape), res)
    ensures res == null ==> forall n | n in Inorder(head.shape) :: cmp(elm, n) > 0
    ensures res != null ==>
      && res in Inorder(head.shape) && cmp(elm, res) <= 0
      && forall n | n in Inorder(head.shape) && cmp(elm, n) <= 0 :: n == res || cmp(res, n) < 0
  {
    var tmp := head.root;
    res := null;
    ghost var s := Inorder(head.shape);
    ghost var (c, t) := (Top, head.shape);
    while tmp != null
      invariant Plug(c, t) == head.shape && head.Shows(head.shape) && tmp == RootOf(t)
      invariant Spans(cmp, elm, s, c, t) && res == NodeAt(s, Hi(c, t))
      decreases t
    {
      head.Look(c, t);
      Descend(cmp, elm, c, t);
      var comp := cmp(elm, tmp);
      if comp < 0 {
        res := tmp;
        tmp := tmp.left;
        c, t := Under(c, Left, t.node, t.red, t.right), t.left;
      } else if comp > 0 {
        tmp := tmp.right;
        c, t := Under(c, Right, t.node, t.red, t.left), t.right;
      } else {
        FirstIs(cmp, elm, head.shape, Index(c, t));
        return tmp;
      }
    }
    FirstIs(cmp, elm, head.shape, Hi(c, t));
  }

  lemma {:induction false} FirstIs(cmp: (Node, Node) -> int, e: Node, w: Tree<Node>, k: nat)
    requires Comparator(cmp, Nodes(w) + {e}) && Sorted(cmp, Inorder(w)) && k <= |Inorder(w)|
    requires var s := Inorder(w);
      Brackets(cmp, e, s, k, k) || (k < |s| && cmp(e, s[k]) == 0 && Brackets(cmp, e, s, k, k + 1))
    ensures FirstNotBelow(cmp, e, Inorder(w), NodeAt(Inorder(w), k))
  {
    var (s, u) := (Inorder(w), Nodes(w) + {e});
    NodesInorder(w);
    forall n | n in s ensures cmp(e, n) <= 0 <==> k < |s| && (n == s[k] || cmp(s[k], n) < 0) {
      var i :| 0 <= i < |s| && s[i] == n;
      if i < k < |s| {
        Less(cmp, u, s[i], s[k], s[i]);
        Less(cmp, u, s[i], s[k], s[k]);
      }
    }
  }
}
