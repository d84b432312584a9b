/** The shapes top-down splaying works on, and what it means for heap nodes to carry them: a
    middle tree, and on either side a spine of nodes already set aside, whose innermost link is
    where the next node will be hung. */
module SplayLinks {

  datatype Tree<T> = Leaf | Bin(left: Tree<T>, node: T, right: Tree<T>)

  /** Nodes set aside, innermost first, each with its finished subtree. */
  datatype Spine<T> = End | Hang(rest: Spine<T>, side: Tree<T>, node: T)

  function Inorder<T>(t: Tree<T>): seq<T> {
    match t
    case Leaf => []
    case Bin(l, x, r) => Inorder(l) + [x] + Inorder(r)
  }

  /** On the left spine subtrees hang to the left, and the way on leads right. */
  function LeftOrder<T>(s: Spine<T>): seq<T> {
    match s
    case End => []
    case Hang(rest, l, x) => LeftOrder(rest) + Inorder(l) + [x]
  }

  function RightOrder<T>(s: Spine<T>): seq<T> {
    match s
    case End => []
    case Hang(rest, r, x) => [x] + Inorder(r) + RightOrder(rest)
  }

  function LeftPlug<T>(s: Spine<T>, t: Tree<T>): Tree<T> {
    match s
    case End => t
    case Hang(rest, l, x) => LeftPlug(rest, Bin(l, x, t))
  }

  function RightPlug<T>(s: Spine<T>, t: Tree<T>): Tree<T> {
    match s
    case End => t
    case Hang(rest, r, x) => RightPlug(rest, Bin(t, x, r))
  }

  lemma Assoc<T>(a: seq<T>, b: seq<T>, c: seq<T>, d: seq<T>)
    ensures a + (b + c + d) == a + b + c + d
    ensures (a + b + c) + d == a + b + (c + d)
  {
  }

  lemma {:induction false} LeftPlugOrder<T>(s: Spine<T>, t: Tree<T>)
    ensures Inorder(LeftPlug(s, t)) == LeftOrder(s) + Inorder(t)
  {
    match s
    case End =>
    case Hang(rest, l, x) =>
      LeftPlugOrder(rest, Bin(l, x, t));
      Assoc(LeftOrder(rest), Inorder(l), [x], Inorder(t));
  }

  lemma {:induction false} RightPlugOrder<T>(s: Spine<T>, t: Tree<T>)
    ensures Inorder(RightPlug(s, t)) == Inorder(t) + RightOrder(s)
  {
    match s
    case End =>
    case Hang(rest, r, x) =>
      RightPlugOrder(rest, Bin(t, x, r));
      Assoc(Inorder(t), [x], Inorder(r), RightOrder(rest));
      Assoc([x], Inorder(r), RightOrder(rest), []);
  }

  ghost function Nodes<T>(t: Tree<T>): set<T> {
    if t.Bin? then Nodes(t.left) + {t.node} + Nodes(t.right) else {}
  }

  ghost function SpineNodes<T>(s: Spine<T>): set<T> {
    if s.Hang? then SpineNodes(s.rest) + {s.node} + Nodes(s.side) else {}
  }

  ghost predicate Distinct<T>(t: Tree<T>) {
    t.Bin? ==>
      && t.node !in Nodes(t.left) && t.node !in Nodes(t.right) && Nodes(t.left) !! Nodes(t.right)
      && Distinct(t.left) && Distinct(t.right)
  }

  ghost predicate SpineDistinct<T>(s: Spine<T>) {
    s.Hang? ==>
      && s.node !in SpineNodes(s.rest) && s.node !in Nodes(s.side) && Nodes(s.side) !! SpineNodes(s.rest)
      && SpineDistinct(s.rest) && Distinct(s.side)
  }

  lemma {:induction false} LeftPlugNodes<T>(s: Spine<T>, t: Tree<T>)
    ensures Nodes(LeftPlug(s, t)) == SpineNodes(s) + Nodes(t)
    ensures Distinct(LeftPlug(s, t)) <==> Distinct(t) && SpineDistinct(s) && Nodes(t) !! SpineNodes(s)
  {
    if !s.Hang? {
    } else {
      LeftPlugNodes(s.rest, Bin(s.side, s.node, t));
    }
  }

  lemma {:induction false} RightPlugNodes<T>(s: Spine<T>, t: Tree<T>)
    ensures Nodes(RightPlug(s, t)) == SpineNodes(s) + Nodes(t)
    ensures Distinct(RightPlug(s, t)) <==> Distinct(t) && SpineDistinct(s) && Nodes(t) !! SpineNodes(s)
  {
    if !s.Hang? {
    } else {
      RightPlugNodes(s.rest, Bin(t, s.node, s.side));
    }
  }

  lemma {:induction false} NodesInorder<T>(t: Tree<T>)
    ensures forall n :: n in Nodes(t) <==> n in Inorder(t)
    ensures forall i :: 0 <= i < |Inorder(t)| ==> Inorder(t)[i] in Nodes(t)
  {
    if !t.Bin? {
    } else {
      NodesInorder(t.left);
      NodesInorder(t.right);
    }
  }

  // ---------- the heap ----------

  /** An element with its SPLAY_ENTRY links. */
  class Node {
    var left: Node?
    var right: Node?

    constructor ()
      ensures left == null && right == null
    {
      left, right := null, null;
    }
  }

  datatype Cell = Cell(left: Node?, right: Node?)

  type Links = map<Node, Cell>

  ghost function Snapshot(s: set<Node>): (m: Links)
    reads s
  {
    map n | n in s :: Cell(n.left, n.right)
  }

  ghost function RootOf(t: Tree<Node>): Node? {
    if t.Bin? then t.node else null
  }

  ghost predicate Linked(m: Links, t: Tree<Node>) {
    t.Bin? ==>
      && t.node in m && m[t.node] == Cell(RootOf(t.left), RootOf(t.right))
      && Linked(m, t.left) && Linked(m, t.right)
  }

  /** Where the next node is hung: the innermost node of the spine, or the dummy. */
  ghost function Tip(s: Spine<Node>, dummy: Node): Node {
    if s.Hang? then s.node else dummy
  }

  /** The spine hangs off the dummy's right link; beyond its tip comes `n`. */
  ghost predicate HoldsLeft(m: Links, dummy: Node, s: Spine<Node>, n: Node?) {
    if s.Hang? then
      && s.node in m && m[s.node] == Cell(RootOf(s.side), n)
      && Linked(m, s.side) && HoldsLeft(m, dummy, s.rest, s.node)
    else
      dummy in m && m[dummy].right == n
  }

  ghost predicate HoldsRight(m: Links, dummy: Node, s: Spine<Node>, n: Node?) {
    if s.Hang? then
      && s.node in m && m[s.node] == Cell(n, RootOf(s.side))
      && Linked(m, s.side) && HoldsRight(m, dummy, s.rest, s.node)
    else
      dummy in m && m[dummy].left == n
  }

  ghost predicate Apart(dummy: Node, l: Spine<Node>, t: Tree<Node>, r: Spine<Node>) {
    && Distinct(t) && SpineDistinct(l) && SpineDistinct(r)
    && Nodes(t) !! SpineNodes(l) && Nodes(t) !! SpineNodes(r) && SpineNodes(l) !! SpineNodes(r)
    && dummy !in Nodes(t) && dummy !in SpineNodes(l) && dummy !in SpineNodes(r)
  }

  /** The state of the loop: the links beyond the two tips are not used any more. */
  ghost predicate Split(m: Links, dummy: Node, l: Spine<Node>, t: Tree<Node>, r: Spine<Node>) {
    && dummy in m && Apart(dummy, l, t, r) && Linked(m, t)
    && Tip(l, dummy) in m && HoldsLeft(m, dummy, l, m[Tip(l, dummy)].right)
    && Tip(r, dummy) in m && HoldsRight(m, dummy, r, m[Tip(r, dummy)].left)
  }

  lemma {:induction false} FrameLinked(m: Links, m': Links, t: Tree<Node>)
    requires Linked(m, t)
    requires forall n | n in Nodes(t) && n in m :: n in m' && m'[n] == m[n]
    ensures Linked(m', t)
  {
    if !t.Bin? {
    } else {
      FrameLinked(m, m', t.left);
      FrameLinked(m, m', t.right);
    }
  }

  lemma {:induction false} FrameLeft(m: Links, m': Links, dummy: Node, s: Spine<Node>, n: Node?)
    requires HoldsLeft(m, dummy, s, n)
    requires forall x | x in SpineNodes(s) && x in m :: x in m' && m'[x] == m[x]
    requires dummy in m && dummy in m' && m'[dummy].right == m[dummy].right
    ensures HoldsLeft(m', dummy, s, n)
  {
    if !s.Hang? {
    } else {
      FrameLinked(m, m', s.side);
      FrameLeft(m, m', dummy, s.rest, s.node);
    }
  }

  lemma {:induction false} FrameRight(m: Links, m': Links, dummy: Node, s: Spine<Node>, n: Node?)
    requires HoldsRight(m, dummy, s, n)
    requires forall x | x in SpineNodes(s) && x in m :: x in m' && m'[x] == m[x]
    requires dummy in m && dummy in m' && m'[dummy].left == m[dummy].left
    ensures HoldsRight(m', dummy, s, n)
  {
    if !s.Hang? {
    } else {
      FrameLinked(m, m', s.side);
      FrameRight(m, m', dummy, s.rest, s.node);
    }
  }

  /** A new link beyond the tip. */
  lemma {:induction false} ExtendLeft(m: Links, m': Links, dummy: Node, s: Spine<Node>, n: Node?, n': Node?)
    requires HoldsLeft(m, dummy, s, n) && SpineDistinct(s) && dummy !in SpineNodes(s)
    requires dummy in m && dummy in m' && (s.Hang? ==> m'[dummy].right == m[dummy].right)
    requires Tip(s, dummy) in m' && m'[Tip(s, dummy)].right == n'
    requires s.Hang? ==> m'[s.node].left == m[s.node].left
    requires forall x | x in SpineNodes(s) && x in m && x != Tip(s, dummy) :: x in m' && m'[x] == m[x]
    ensures HoldsLeft(m', dummy, s, n')
  {
    if s.Hang? {
      FrameLinked(m, m', s.side);
      FrameLeft(m, m', dummy, s.rest, s.node);
    }
  }

  lemma {:induction false} ExtendRight(m: Links, m': Links, dummy: Node, s: Spine<Node>, n: Node?, n': Node?)
    requires HoldsRight(m, dummy, s, n) && SpineDistinct(s) && dummy !in SpineNodes(s)
    requires dummy in m && dummy in m' && (s.Hang? ==> m'[dummy].left == m[dummy].left)
    requires Tip(s, dummy) in m' && m'[Tip(s, dummy)].left == n'
    requires s.Hang? ==> m'[s.node].right == m[s.node].right
    requires forall x | x in SpineNodes(s) && x in m && x != Tip(s, dummy) :: x in m' && m'[x] == m[x]
    ensures HoldsRight(m', dummy, s, n')
  {
    if s.Hang? {
      FrameLinked(m, m', s.side);
      FrameRight(m, m', dummy, s.rest, s.node);
    }
  }

  // ---------- the steps ----------

  function RightTurn<T>(t: Tree<T>): Tree<T>
    requires t.Bin? && t.left.Bin?
  {
    Bin(t.left.left, t.left.node, Bin(t.left.right, t.node, t.right))
  }

  function LeftTurn<T>(t: Tree<T>): Tree<T>
    requires t.Bin? && t.right.Bin?
  {
    Bin(Bin(t.left, t.node, t.right.left), t.right.node, t.right.right)
  }

  lemma {:induction false} TurnedNodes<T>(t: Tree<T>)
    ensures t.Bin? && t.left.Bin? ==> Nodes(RightTurn(t)) == Nodes(t)
    ensures t.Bin? && t.right.Bin? ==> Nodes(LeftTurn(t)) == Nodes(t)
  {
  }

  /** SPLAY_ROTATE_RIGHT on the middle tree. */
  lemma {:induction false} SplitRightTurn(m: Links, m': Links, dummy: Node, l: Spine<Node>, t: Tree<Node>, r: Spine<Node>)
    requires Split(m, dummy, l, t, r) && t.Bin? && t.left.Bin?
    requires t.node in m && t.left.node in m && t.node != t.left.node
    requires m' == m[t.node := m[t.node].(left := m[t.left.node].right)][t.left.node := m[t.left.node].(right := t.node)]
    ensures Split(m', dummy, l, RightTurn(t), r) && Nodes(RightTurn(t)) == Nodes(t)
  {
    TurnedNodes(t);
    assert Linked(m, t.left) && Distinct(t.left);
    assert Distinct(Bin(t.left.right, t.node, t.right));
    FrameLinked(m, m', t.left.left);
    FrameLinked(m, m', t.left.right);
    FrameLinked(m, m', t.right);
    assert Linked(m', Bin(t.left.right, t.node, t.right));
    FrameLeft(m, m', dummy, l, m[Tip(l, dummy)].right);
    FrameRight(m, m', dummy, r, m[Tip(r, dummy)].left);
    assert r.Hang? ==> r.node in SpineNodes(r);
    assert l.Hang? ==> l.node in SpineNodes(l);
  }

  /** SPLAY_LINKLEFT: the root and its right subtree go to the right spine. */
  lemma {:induction false} SplitLinkLeft(m: Links, m': Links, dummy: Node, l: Spine<Node>, t: Tree<Node>, r: Spine<Node>)
    requires Split(m, dummy, l, t, r) && t.Bin?
    requires m' == m[Tip(r, dummy) := m[Tip(r, dummy)].(left := t.node)]
    ensures Split(m', dummy, l, t.left, Hang(r, t.right, t.node))
  {
    FrameLinked(m, m', t.left);
    FrameLinked(m, m', t.right);
    assert r.Hang? ==> r.node in SpineNodes(r);
    assert l.Hang? ==> l.node in SpineNodes(l);
    FrameLeft(m, m', dummy, l, m[Tip(l, dummy)].right);
    ExtendRight(m, m', dummy, r, m[Tip(r, dummy)].left, t.node);
  }

  /** SPLAY_ROTATE_LEFT on the middle tree. */
  lemma {:induction false} SplitLeftTurn(m: Links, m': Links, dummy: Node, l: Spine<Node>, t: Tree<Node>, r: Spine<Node>)
    requires Split(m, dummy, l, t, r) && t.Bin? && t.right.Bin?
    requires t.node in m && t.right.node in m && t.node != t.right.node
    requires m' == m[t.node := m[t.node].(right := m[t.right.node].left)][t.right.node := m[t.right.node].(left := t.node)]
    ensures Split(m', dummy, l, LeftTurn(t), r) && Nodes(LeftTurn(t)) == Nodes(t)
  {
    TurnedNodes(t);
    assert Linked(m, t.right) && Distinct(t.right);
    assert Distinct(Bin(t.left, t.node, t.right.left));
    FrameLinked(m, m', t.right.right);
    FrameLinked(m, m', t.right.left);
    FrameLinked(m, m', t.left);
    assert Linked(m', Bin(t.left, t.node, t.right.left));
    FrameRight(m, m', dummy, r, m[Tip(r, dummy)].left);
    FrameLeft(m, m', dummy, l, m[Tip(l, dummy)].right);
    assert l.Hang? ==> l.node in SpineNodes(l);
    assert r.Hang? ==> r.node in SpineNodes(r);
  }

  /** SPLAY_LINKRIGHT: the root and its left subtree go to the left spine. */
  lemma {:induction false} SplitLinkRight(m: Links, m': Links, dummy: Node, l: Spine<Node>, t: Tree<Node>, r: Spine<Node>)
    requires Split(m, dummy, l, t, r) && t.Bin?
    requires m' == m[Tip(l, dummy) := m[Tip(l, dummy)].(right := t.node)]
    ensures Split(m', dummy, Hang(l, t.left, t.node), t.right, r)
  {
    FrameLinked(m, m', t.right);
    FrameLinked(m, m', t.left);
    assert l.Hang? ==> l.node in SpineNodes(l);
    assert r.Hang? ==> r.node in SpineNodes(r);
    FrameRight(m, m', dummy, r, m[Tip(r, dummy)].left);
    ExtendLeft(m, m', dummy, l, m[Tip(l, dummy)].right, t.node);
  }

  lemma {:induction false} LeftPlugLinked(m: Links, dummy: Node, s: Spine<Node>, t: Tree<Node>)
    requires HoldsLeft(m, dummy, s, RootOf(t)) && Linked(m, t)
    ensures Linked(m, LeftPlug(s, t)) && dummy in m && m[dummy].right == RootOf(LeftPlug(s, t))
  {
    if !s.Hang? {
    } else {
      LeftPlugLinked(m, dummy, s.rest, Bin(s.side, s.node, t));
    }
  }

  lemma {:induction false} RightPlugLinked(m: Links, dummy: Node, s: Spine<Node>, t: Tree<Node>)
    requires HoldsRight(m, dummy, s, RootOf(t)) && Linked(m, t)
    ensures Linked(m, RightPlug(s, t)) && dummy in m && m[dummy].left == RootOf(RightPlug(s, t))
  {
    if !s.Hang? {
    } else {
      RightPlugLinked(m, dummy, s.rest, Bin(t, s.node, s.side));
    }
  }

  function Assembled<T>(l: Spine<T>, t: Tree<T>, r: Spine<T>): Tree<T>
    requires t.Bin?
  {
    Bin(LeftPlug(l, t.left), t.node, RightPlug(r, t.right))
  }

  /** SPLAY_ASSEMBLE: the tips take the root's subtrees, the root takes what hangs off the dummy. */
  lemma {:induction false} SplitJoined(m: Links, m1: Links, m2: Links, m': Links, dummy: Node, l: Spine<Node>, t: Tree<Node>, r: Spine<Node>)
    requires Split(m, dummy, l, t, r) && t.Bin?
    requires m1 == m[Tip(l, dummy) := m[Tip(l, dummy)].(right := RootOf(t.left))]
    requires m2 == m1[Tip(r, dummy) := m1[Tip(r, dummy)].(left := RootOf(t.right))]
    requires m' == m2[t.node := Cell(m2[dummy].right, m2[dummy].left)]
    ensures Linked(m', Assembled(l, t, r)) && Distinct(Assembled(l, t, r))
  {
    JoinedTips(m, m1, m2, dummy, l, t, r);
    LeftPlugLinked(m2, dummy, l, t.left);
    RightPlugLinked(m2, dummy, r, t.right);
    LeftPlugNodes(l, t.left);
    RightPlugNodes(r, t.right);
    FrameLinked(m2, m', LeftPlug(l, t.left));
    FrameLinked(m2, m', RightPlug(r, t.right));
  }

  lemma {:induction false} JoinedTips(m: Links, m1: Links, m2: Links, dummy: Node, l: Spine<Node>, t: Tree<Node>, r: Spine<Node>)
    requires Split(m, dummy, l, t, r) && t.Bin?
    requires m1 == m[Tip(l, dummy) := m[Tip(l, dummy)].(right := RootOf(t.left))]
    requires m2 == m1[Tip(r, dummy) := m1[Tip(r, dummy)].(left := RootOf(t.right))]
    ensures HoldsLeft(m2, dummy, l, RootOf(t.left)) && HoldsRight(m2, dummy, r, RootOf(t.right))
    ensures Linked(m2, t.left) && Linked(m2, t.right)
  {
    assert r.Hang? ==> r.node in SpineNodes(r);
    assert l.Hang? ==> l.node in SpineNodes(l);
    FrameLinked(m, m2, t.left);
    FrameLinked(m, m2, t.right);
    ExtendLeft(m, m2, dummy, l, m[Tip(l, dummy)].right, RootOf(t.left));
    ExtendRight(m, m2, dummy, r, m[Tip(r, dummy)].left, RootOf(t.right));
  }
}
