/** The heap side of the red-black tree: nodes with left, right and parent links, and
    what it means for them to carry a given shape. Link fields are read off the heap once,
    as a map from nodes to cells, and all reasoning about links is about such maps. */
module RbLinks {
  import opened RbShape

  /** An element with its RB_ENTRY links; what `cmp` looks at does not change while it is linked. */
  class Node {
    var left: Node?
    var right: Node?
    var parent: Node?
    var red: bool

    constructor ()
    {
      left, right, parent, red := null, null, null, false;
    }
  }

  datatype Cell = Cell(left: Node?, right: Node?, parent: Node?, red: bool) {
    function Kid(side: Side): Node? {
      if side == Left then left else right
    }

    function WithKid(side: Side, n: Node?): Cell {
      if side == Left then this.(left := n) else this.(right := n)
    }
  }

  type Links = map<Node, Cell>

  ghost function Snapshot(s: set<Node>): (m: Links)
    reads s
  {
    map n | n in s :: Cell(n.left, n.right, n.parent, n.red)
  }

  ghost function RootOf(t: Tree<Node>): Node? {
    if t.Bin? then t.node else null
  }

  ghost function Up(c: Ctx<Node>): Node? {
    if c.Under? then c.node else null
  }

  /** The cells of the nodes of `t` carry its links and colours; the topmost has parent `p`. */
  ghost predicate Linked(m: Links, t: Tree<Node>, p: Node?) {
    match t
    case Leaf => true
    case Bin(l, x, red, r) =>
      && x in m && m[x] == Cell(RootOf(l), RootOf(r), p, red)
      && Linked(m, l, x) && Linked(m, r, x)
  }

  /** The cells around the hole carry the links of `c`, and `n` hangs in the hole. */
  ghost predicate Holds(m: Links, root: Node?, c: Ctx<Node>, n: Node?) {
    match c
    case Top => root == n
    case Under(up, side, x, red, o) =>
      && x in m && m[x].Kid(side) == n && m[x].Kid(Opp(side)) == RootOf(o)
      && m[x].parent == Up(up) && m[x].red == red
      && Linked(m, o, x) && Holds(m, root, up, x)
  }

  ghost predicate At(m: Links, root: Node?, c: Ctx<Node>, t: Tree<Node>) {
    && Linked(m, t, Up(c)) && Holds(m, root, c, RootOf(t))
    && Distinct(t) && CtxDistinct(c) && Nodes(t) !! CtxNodes(c)
  }

  lemma {:induction false} AtPlug(m: Links, root: Node?, c: Ctx<Node>, t: Tree<Node>)
    ensures At(m, root, c, t) <==> At(m, root, Top, Plug(c, t))
  {
    if !c.Under? {
    } else {
      AtPlug(m, root, c.up, Join(c.side, t, c.node, c.red, c.other));
    }
  }

  lemma {:induction false} FrameLinked(m: Links, m': Links, t: Tree<Node>, p: Node?)
    requires Linked(m, t, p)
    requires forall n | n in Nodes(t) && n in m :: n in m' && m'[n] == m[n]
    ensures Linked(m', t, p)
  {
    if !t.Bin? {
    } else {
      FrameLinked(m, m', t.left, t.node);
      FrameLinked(m, m', t.right, t.node);
    }
  }

  lemma {:induction false} Reparented(m: Links, m': Links, t: Tree<Node>, p: Node?, q: Node?)
    requires Linked(m, t, p) && Distinct(t)
    requires t.Bin? ==> t.node in m' && m'[t.node] == m[t.node].(parent := q)
    requires forall n | n in Nodes(t) && n in m && n != RootOf(t) :: n in m' && m'[n] == m[n]
    ensures Linked(m', t, q)
  {
    if t.Bin? {
      FrameLinked(m, m', t.left, t.node);
      FrameLinked(m, m', t.right, t.node);
    }
  }

  lemma {:induction false} FrameHolds(m: Links, m': Links, root: Node?, c: Ctx<Node>, n: Node?)
    requires Holds(m, root, c, n)
    requires forall n | n in CtxNodes(c) && n in m :: n in m' && m'[n] == m[n]
    ensures Holds(m', root, c, n)
  {
    if !c.Under? {
    } else {
      FrameLinked(m, m', c.other, c.node);
      FrameHolds(m, m', root, c.up, c.node);
    }
  }

  // ---------- repainting and rotating ----------

  lemma {:induction false} Painted(m: Links, m': Links, root: Node?, c: Ctx<Node>,
      t: Tree<Node>, red: bool)
    requires At(m, root, c, t) && t.Bin?
    requires m' == m[t.node := m[t.node].(red := red)]
    ensures At(m', root, c, t.(red := red))
  {
    FrameLinked(m, m', t.left, t.node);
    FrameLinked(m, m', t.right, t.node);
    FrameHolds(m, m', root, c, t.node);
  }

  /** The link to `x` in its parent, or in the head, now leads to `y`; a context changes only there. */
  ghost predicate Redirected(m: Links, root: Node?, p: Node?, x: Node,
      m': Links, root': Node?, y: Node?)
    requires p != null ==> p in m
  {
    if p == null then root' == y
    else
      && root' == root && p in m'
      && m'[p] == if m[p].left == x then m[p].(left := y) else m[p].(right := y)
  }

  lemma {:induction false} Rehung(m: Links, root: Node?, c: Ctx<Node>, n: Node?,
      m': Links, root': Node?, n': Node?)
    requires Holds(m, root, c, n) && CtxDistinct(c)
    requires if c.Under? then root' == root && c.node in m' && m'[c.node] == m[c.node].WithKid(c.side, n') else root' == n'
    requires forall x | x in CtxNodes(c) && x in m && x != Up(c) :: x in m' && m'[x] == m[x]
    ensures Holds(m', root', c, n')
  {
    if c.Under? {
      FrameLinked(m, m', c.other, c.node);
      FrameHolds(m, m', root, c.up, c.node);
    }
  }

  lemma {:induction false} HoldsOther(m: Links, root: Node?, c: Ctx<Node>, x: Node,
      m': Links, root': Node?, y: Node?)
    requires Holds(m, root, c, x) && CtxDistinct(c) && x !in CtxNodes(c)
    requires Redirected(m, root, Up(c), x, m', root', y)
    requires forall n | n in CtxNodes(c) && n in m && n != Up(c) :: n in m' && m'[n] == m[n]
    ensures Holds(m', root', c, y)
  {
    if c.Under? {
      assert c.other.Bin? ==> c.other.node in Nodes(c.other);
    }
    Rehung(m, root, c, x, m', root', y);
  }

  /** A new red leaf hung into a free place. */
  lemma {:induction false} Attached(m: Links, root: Node?, c: Ctx<Node>, m': Links, root': Node?, x: Node)
    requires At(m, root, c, Leaf) && x !in CtxNodes(c)
    requires x in m' && m'[x] == Cell(null, null, Up(c), true)
    requires if c.Under? then root' == root && c.node in m' && m'[c.node] == m[c.node].WithKid(c.side, x) else root' == x
    requires forall n | n in CtxNodes(c) && n in m && n != Up(c) :: n in m' && m'[n] == m[n]
    ensures At(m', root', c, Bin(Leaf, x, true, Leaf))
  {
    Rehung(m, root, c, null, m', root', x);
  }

  /** What a rotation leaves in the cells: `x` becomes the `side` child of `y`, which was its
      child on the other side, and takes over the inner child of `y`. */
  ghost predicate Rotation(side: Side, m: Links, root: Node?, x: Node, y: Node,
      m': Links, root': Node?)
  {
    && x in m && y in m && m'.Keys == m.Keys
    && var b := m[y].Kid(side);
    && var p := m[x].parent;
    && (b != null ==> b in m) && (p != null ==> p in m)
    && m'[x] == m[x].WithKid(Opp(side), b).(parent := y)
    && m'[y] == m[y].WithKid(side, x).(parent := p)
    && (b != null ==> m'[b] == m[b].(parent := x))
    && Redirected(m, root, p, x, m', root', y)
    && forall n | n in m && n != x && n != y && n != b && n != p :: m'[n] == m[n]
  }

  lemma {:induction false} ApartLeft<T>(a: Tree<T>, x: T, xr: bool, b: Tree<T>, y: T, yr: bool, d: Tree<T>)
    requires Distinct(Bin(a, x, xr, Bin(b, y, yr, d)))
    ensures x != y && x !in Nodes(a) && x !in Nodes(b) && x !in Nodes(d)
    ensures y !in Nodes(a) && y !in Nodes(b) && y !in Nodes(d)
    ensures Nodes(a) !! Nodes(b) && Nodes(b) !! Nodes(d) && Distinct(b)
    ensures Distinct(Bin(Bin(a, x, xr, b), y, yr, d))
  {
    assert Distinct(Bin(b, y, yr, d)) && Distinct(Bin(a, x, xr, b));
  }

  lemma {:induction false} TurnedLeft(m: Links, root: Node?, m': Links, root': Node?,
      a: Tree<Node>, x: Node, xr: bool, b: Tree<Node>, y: Node, yr: bool, d: Tree<Node>, p: Node?)
    requires var t := Bin(a, x, xr, Bin(b, y, yr, d));
      Linked(m, t, p) && Distinct(t) && (p != null ==> p !in Nodes(t))
    requires Rotation(Left, m, root, x, y, m', root')
    ensures Linked(m', Bin(Bin(a, x, xr, b), y, yr, d), p)
  {
    ApartLeft(a, x, xr, b, y, yr, d);
    assert Linked(m, Bin(b, y, yr, d), x);
    assert b.Bin? ==> b.node in Nodes(b);
    FrameLinked(m, m', a, x);
    FrameLinked(m, m', d, y);
    Reparented(m, m', b, y, x);
    assert Linked(m', Bin(a, x, xr, b), y);
  }

  lemma {:induction false} RotatedLeft(m: Links, root: Node?, m': Links, root': Node?,
      c: Ctx<Node>, a: Tree<Node>, x: Node, xr: bool, b: Tree<Node>, y: Node, yr: bool, d: Tree<Node>)
    requires At(m, root, c, Bin(a, x, xr, Bin(b, y, yr, d)))
    requires Rotation(Left, m, root, x, y, m', root')
    ensures At(m', root', c, Bin(Bin(a, x, xr, b), y, yr, d))
  {
    ApartLeft(a, x, xr, b, y, yr, d);
    assert Linked(m, Bin(b, y, yr, d), x);
    assert b.Bin? ==> b.node in Nodes(b);
    assert c.Under? ==> c.node in CtxNodes(c);
    TurnedLeft(m, root, m', root', a, x, xr, b, y, yr, d, Up(c));
    HoldsOther(m, root, c, x, m', root', y);
  }

  lemma {:induction false} ApartRight<T>(a: Tree<T>, x: T, xr: bool, b: Tree<T>, y: T, yr: bool, d: Tree<T>)
    requires Distinct(Bin(Bin(d, y, yr, b), x, xr, a))
    ensures x != y && x !in Nodes(a) && x !in Nodes(b) && x !in Nodes(d)
    ensures y !in Nodes(a) && y !in Nodes(b) && y !in Nodes(d)
    ensures Nodes(a) !! Nodes(b) && Nodes(b) !! Nodes(d) && Distinct(b)
    ensures Distinct(Bin(d, y, yr, Bin(b, x, xr, a)))
  {
    assert Distinct(Bin(d, y, yr, b)) && Distinct(Bin(b, x, xr, a));
  }

  lemma {:induction false} TurnedRight(m: Links, root: Node?, m': Links, root': Node?,
      a: Tree<Node>, x: Node, xr: bool, b: Tree<Node>, y: Node, yr: bool, d: Tree<Node>, p: Node?)
    requires var t := Bin(Bin(d, y, yr, b), x, xr, a);
      Linked(m, t, p) && Distinct(t) && (p != null ==> p !in Nodes(t))
    requires Rotation(Right, m, root, x, y, m', root')
    ensures Linked(m', Bin(d, y, yr, Bin(b, x, xr, a)), p)
  {
    ApartRight(a, x, xr, b, y, yr, d);
    assert Linked(m, Bin(d, y, yr, b), x);
    assert b.Bin? ==> b.node in Nodes(b);
    FrameLinked(m, m', a, x);
    FrameLinked(m, m', d, y);
    Reparented(m, m', b, y, x);
    assert Linked(m', Bin(b, x, xr, a), y);
  }

  lemma {:induction false} RotatedRight(m: Links, root: Node?, m': Links, root': Node?,
      c: Ctx<Node>, a: Tree<Node>, x: Node, xr: bool, b: Tree<Node>, y: Node, yr: bool, d: Tree<Node>)
    requires At(m, root, c, Bin(Bin(d, y, yr, b), x, xr, a))
    requires Rotation(Right, m, root, x, y, m', root')
    ensures At(m', root', c, Bin(d, y, yr, Bin(b, x, xr, a)))
  {
    ApartRight(a, x, xr, b, y, yr, d);
    assert Linked(m, Bin(d, y, yr, b), x);
    assert b.Bin? ==> b.node in Nodes(b);
    assert c.Under? ==> c.node in CtxNodes(c);
    TurnedRight(m, root, m', root', a, x, xr, b, y, yr, d, Up(c));
    HoldsOther(m, root, c, x, m', root', y);
  }

  // ---------- taking a node out, and putting one in the place of another ----------

  /** A node with at most one child is bypassed. */
  lemma {:induction false} Spliced(m: Links, root: Node?, c: Ctx<Node>, t: Tree<Node>, child: Tree<Node>,
      m': Links, root': Node?)
    requires At(m, root, c, t) && t.Bin?
    requires (t.left == Leaf && child == t.right) || (t.right == Leaf && child == t.left)
    requires child.Bin? ==> child.node in m && child.node in m' && m'[child.node] == m[child.node].(parent := Up(c))
    requires Redirected(m, root, Up(c), t.node, m', root', RootOf(child))
    requires forall n | n in CtxNodes(c) + Nodes(child) && n in m && n != Up(c) && n != RootOf(child) :: n in m' && m'[n] == m[n]
    ensures At(m', root', c, child)
  {
    assert child.Bin? ==> child.node in Nodes(child);
    assert c.Under? ==> c.node in CtxNodes(c);
    Reparented(m, m', child, t.node, Up(c));
    HoldsOther(m, root, c, t.node, m', root', RootOf(child));
  }

  /** `x`, so far outside the tree, takes the place of the top node of `t`. */
  lemma {:induction false} Substituted(m: Links, root: Node?, c: Ctx<Node>, t: Tree<Node>,
      m': Links, root': Node?, x: Node)
    requires At(m, root, c, t) && t.Bin? && x !in CtxNodes(c) && x !in Nodes(t)
    requires x in m' && m'[x] == m[t.node]
    requires t.left.Bin? ==> t.left.node in m && t.left.node in m' && m'[t.left.node] == m[t.left.node].(parent := x)
    requires t.right.Bin? ==> t.right.node in m && t.right.node in m' && m'[t.right.node] == m[t.right.node].(parent := x)
    requires Redirected(m, root, Up(c), t.node, m', root', x)
    requires forall n | n in CtxNodes(c) + Nodes(t.left) + Nodes(t.right) && n in m && n != Up(c) && n != RootOf(t.left) && n != RootOf(t.right) ::
      n in m' && m'[n] == m[n]
    ensures At(m', root', c, t.(node := x))
  {
    assert t.left.Bin? ==> t.left.node in Nodes(t.left);
    assert t.right.Bin? ==> t.right.node in Nodes(t.right);
    assert c.Under? ==> c.node in CtxNodes(c);
    Reparented(m, m', t.left, t.node, x);
    Reparented(m, m', t.right, t.node, x);
    HoldsOther(m, root, c, t.node, m', root', x);
  }
}
