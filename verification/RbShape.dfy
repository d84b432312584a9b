/** Shapes of red-black trees: the tree a heap of linked nodes stands for, one-hole
    contexts ("the rest of the tree, seen from a node"), and the red-black conditions. */
module RbShape {

  datatype Side = Left | Right

  function Opp(side: Side): Side { if side == Left then Right else Left }

  datatype Tree<T> = Leaf | Bin(left: Tree<T>, node: T, red: bool, right: Tree<T>)

  lemma NoTree<T>(t: Tree<T>)
    requires !t.Bin?
    ensures t == Leaf
  {
    match t {
      case Leaf =>
      case Bin(_, _, _, _) =>
    }
  }

  /** The surroundings of a subtree: the hole is the `side` child of `node`. */
  datatype Ctx<T> = Top | Under(up: Ctx<T>, side: Side, node: T, red: bool, other: Tree<T>)

  function Join<T>(side: Side, t: Tree<T>, node: T, red: bool, other: Tree<T>): Tree<T> {
    if side == Left then Bin(t, node, red, other) else Bin(other, node, red, t)
  }

  function Plug<T>(c: Ctx<T>, t: Tree<T>): Tree<T> {
    match c
    case Top => t
    case Under(up, side, node, red, other) => Plug(up, Join(side, t, node, red, other))
  }

  function Inorder<T>(t: Tree<T>): seq<T> {
    match t
    case Leaf => []
    case Bin(l, x, _, r) => Inorder(l) + [x] + Inorder(r)
  }

  /** What precedes and what follows the hole in symmetric order. */
  function Before<T>(c: Ctx<T>): seq<T> {
    match c
    case Top => []
    case Under(up, side, x, _, other) =>
      if side == Left then Before(up) else Before(up) + Inorder(other) + [x]
  }

  function After<T>(c: Ctx<T>): seq<T> {
    match c
    case Top => []
    case Under(up, side, x, _, other) =>
      if side == Left then [x] + Inorder(other) + After(up) else After(up)
  }

  lemma {:induction false} InorderPlug<T>(c: Ctx<T>, t: Tree<T>)
    ensures Inorder(Plug(c, t)) == Before(c) + Inorder(t) + After(c)
  {
    match c
    case Top =>
    case Under(up, side, x, red, other) =>
      InorderPlug(up, Join(side, t, x, red, other));
      if side == Left {
        Shift(Before(up), Inorder(t), [x], Inorder(other), After(up));
      } else {
        Shift(Before(up), Inorder(other), [x], Inorder(t), After(up));
      }
  }

  lemma Shift<T>(a: seq<T>, b: seq<T>, c: seq<T>, d: seq<T>, e: seq<T>)
    ensures a + (b + c + d) + e == a + b + (c + d + e)
    ensures a + (b + c + d) + e == a + b + c + d + e
  {
  }

  /** The place of a subtree's top node in the symmetric order of the whole tree. */
  function Index<T>(c: Ctx<T>, t: Tree<T>): nat
    requires t.Bin?
  {
    |Before(c)| + |Inorder(t.left)|
  }

  lemma {:induction false} IndexPlug<T>(c: Ctx<T>, t: Tree<T>)
    ensures |Inorder(Plug(c, t))| == |Before(c)| + |Inorder(t)| + |After(c)|
    ensures t.Bin? ==> Inorder(Plug(c, t))[Index(c, t)] == t.node
  {
    InorderPlug(c, t);
  }

  // ---------- no node occurs twice ----------

  ghost function Nodes<T>(t: Tree<T>): set<T> {
    match t
    case Leaf => {}
    case Bin(l, x, _, r) => Nodes(l) + {x} + Nodes(r)
  }

  ghost function CtxNodes<T>(c: Ctx<T>): set<T> {
    match c
    case Top => {}
    case Under(up, _, x, _, other) => CtxNodes(up) + {x} + Nodes(other)
  }

  ghost predicate Distinct<T>(t: Tree<T>) {
    match t
    case Leaf => true
    case Bin(l, x, _, r) =>
      x !in Nodes(l) && x !in Nodes(r) && Nodes(l) !! Nodes(r) && Distinct(l) && Distinct(r)
  }

  ghost predicate CtxDistinct<T>(c: Ctx<T>) {
    match c
    case Top => true
    case Under(up, _, x, _, other) =>
      x !in CtxNodes(up) && x !in Nodes(other) && Nodes(other) !! CtxNodes(up) &&
      Distinct(other) && CtxDistinct(up)
  }

  lemma {:induction false} NodesPlug<T>(c: Ctx<T>, t: Tree<T>)
    ensures Nodes(Plug(c, t)) == CtxNodes(c) + Nodes(t)
    ensures Distinct(Plug(c, t)) <==> Distinct(t) && CtxDistinct(c) && Nodes(t) !! CtxNodes(c)
  {
    if !c.Under? {
    } else {
      NodesPlug(c.up, Join(c.side, t, c.node, c.red, c.other));
    }
  }

  lemma {:induction false} NodesInorder<T>(t: Tree<T>)
    ensures forall n :: n in Nodes(t) <==> n in Inorder(t)
    ensures forall i :: 0 <= i < |Inorder(t)| ==> Inorder(t)[i] in Nodes(t)
  {
    if !t.Bin? {
    } else {
      NodesInorder(t.left);
      NodesInorder(t.right);
    }
  }

  /** Every node of a tree is the top of some subtree. */
  lemma {:induction false} Locate<T>(c: Ctx<T>, t: Tree<T>, x: T) returns (c': Ctx<T>, t': Tree<T>)
    requires x in Nodes(t)
    ensures Plug(c', t') == Plug(c, t) && t'.Bin? && t'.node == x
    decreases t
  {
    if t.node == x {
      c', t' := c, t;
    } else if x in Nodes(t.left) {
      c', t' := Locate(Under(c, Left, t.node, t.red, t.right), t.left, x);
    } else {
      c', t' := Locate(Under(c, Right, t.node, t.red, t.left), t.right, x);
    }
  }

  // ---------- contexts inside contexts ----------

  /** `d`, with `base` continuing where it ends. */
  function Graft<T>(d: Ctx<T>, base: Ctx<T>): Ctx<T> {
    if d.Under? then d.(up := Graft(d.up, base)) else base
  }

  lemma {:induction false} PlugGraft<T>(d: Ctx<T>, base: Ctx<T>, t: Tree<T>)
    ensures Plug(Graft(d, base), t) == Plug(base, Plug(d, t))
  {
    if !d.Under? {
    } else {
      PlugGraft(d.up, base, Join(d.side, t, d.node, d.red, d.other));
    }
  }

  lemma {:induction false} GraftNodes<T>(d: Ctx<T>, base: Ctx<T>)
    ensures CtxNodes(base) <= CtxNodes(Graft(d, base))
  {
    if !d.Under? {
    } else {
      GraftNodes(d.up, base);
    }
  }

  lemma {:induction false} GraftNeeds<T>(d: Ctx<T>, base: Ctx<T>, x: T, h: nat)
    requires base.Under?
    ensures Needs(Graft(d, base), h) <==> Needs(Graft(d, base.(node := x)), h)
  {
    if !d.Under? {
    } else {
      GraftNeeds(d.up, base, x, h + if d.red then 0 else 1);
    }
  }

  // ---------- the red-black conditions ----------

  predicate Red<T>(t: Tree<T>) { t.Bin? && t.red }

  function BlackHeight<T>(t: Tree<T>): nat {
    match t
    case Leaf => 0
    case Bin(l, _, red, _) => BlackHeight(l) + if red then 0 else 1
  }

  /** Equal black count on every path, and no red node with a red parent. */
  predicate Balanced<T>(t: Tree<T>) {
    match t
    case Leaf => true
    case Bin(l, _, red, r) =>
      BlackHeight(l) == BlackHeight(r) && (red ==> !Red(l) && !Red(r)) && Balanced(l) && Balanced(r)
  }

  predicate RedBlack<T>(t: Tree<T>) { Balanced(t) && !Red(t) }

  predicate RedTop<T>(c: Ctx<T>) { c.Under? && c.red }

  /** A context that needs a subtree of black height `h` with a black root. */
  predicate Needs<T>(c: Ctx<T>, h: nat) {
    match c
    case Top => true
    case Under(up, _, _, red, other) =>
      Balanced(other) && BlackHeight(other) == h &&
      (red ==> !Red(other) && up.Under? && !up.red) &&
      Needs(up, h + if red then 0 else 1)
  }

  /** A subtree may stand in a context. */
  predicate Fits<T>(c: Ctx<T>, t: Tree<T>) {
    Balanced(t) && Needs(c, BlackHeight(t)) && (Red(t) ==> c.Under? && !c.red)
  }

  lemma {:induction false} RedBlackPlug<T>(c: Ctx<T>, t: Tree<T>)
    ensures RedBlack(Plug(c, t)) <==> Fits(c, t)
  {
    if !c.Under? {
    } else {
      RedBlackPlug(c.up, Join(c.side, t, c.node, c.red, c.other));
    }
  }

  function Depth<T>(c: Ctx<T>): nat {
    if c.Top? then 0 else 1 + Depth(c.up)
  }

  lemma SameOrder<T>(c: Ctx<T>, t: Tree<T>, t': Tree<T>)
    requires Inorder(t) == Inorder(t')
    ensures Inorder(Plug(c, t)) == Inorder(Plug(c, t'))
  {
    InorderPlug(c, t);
    InorderPlug(c, t');
  }

  lemma {:induction false} LeftTurned<T>(c: Ctx<T>, t: Tree<T>)
    requires t.Bin? && t.right.Bin?
    ensures Inorder(LeftTurn(t)) == Inorder(t) && Inorder(Plug(c, LeftTurn(t))) == Inorder(Plug(c, t))
  {
    var (a, x, b, y, d) := (Inorder(t.left), [t.node], Inorder(t.right.left), [t.right.node], Inorder(t.right.right));
    assert Inorder(t.right) == b + y + d;
    assert a + x + (b + y + d) == (a + x + b) + y + d;
    SameOrder(c, t, LeftTurn(t));
  }

  lemma {:induction false} RightTurned<T>(c: Ctx<T>, t: Tree<T>)
    requires t.Bin? && t.left.Bin?
    ensures Inorder(RightTurn(t)) == Inorder(t) && Inorder(Plug(c, RightTurn(t))) == Inorder(Plug(c, t))
  {
    var (d, y, b, x, a) := (Inorder(t.left.left), [t.left.node], Inorder(t.left.right), [t.node], Inorder(t.right));
    assert Inorder(t.left) == d + y + b;
    assert (d + y + b) + x + a == d + y + (b + x + a);
    SameOrder(c, t, RightTurn(t));
  }

  /** A red node, sound below, that may still have a red parent. */
  predicate Climbs<T>(c: Ctx<T>, t: Tree<T>) {
    Red(t) && Balanced(t) && Needs(c, BlackHeight(t))
  }

  /** A red parent is never the root: the grandparent exists, and it is black. */
  lemma {:induction false} Grandparent<T>(c: Ctx<T>, t: Tree<T>)
    requires Climbs(c, t) && RedTop(c)
    ensures c.up.Under? && !c.up.red
  {
    assert Needs(c, BlackHeight(t));
  }

  /** Red parent and red uncle: both turn black and the grandparent red. */
  lemma {:induction false} ClimbPast<T>(c: Ctx<T>, t: Tree<T>)
    requires Climbs(c, t) && RedTop(c) && Red(c.up.other)
    ensures Climbs(c.up.up, Join(c.up.side, Join(c.side, t, c.node, false, c.other), c.up.node, true, c.up.other.(red := false)))
  {
    assert Needs(c.up, BlackHeight(t));
  }

  /** Red parent, black uncle, and the red node on the outer side: the parent rises. */
  lemma {:induction false} ClimbEnds<T>(c: Ctx<T>, t: Tree<T>)
    requires Climbs(c, t) && RedTop(c) && !Red(c.up.other) && c.side == c.up.side
    ensures Climbs(Under(c.up.up, c.side, c.node, false, Join(c.side, c.other, c.up.node, true, c.up.other)), t)
  {
    assert Needs(c.up, BlackHeight(t));
  }

  /** The red node on the inner side and its red parent change places first. */
  lemma {:induction false} ClimbInward<T>(c: Ctx<T>, t: Tree<T>)
    requires Climbs(c, t) && RedTop(c) && c.side == Opp(c.up.side)
    ensures c.side == Right ==> Climbs(Under(c.up, Left, t.node, true, t.right), Bin(c.other, c.node, true, t.left))
    ensures c.side == Left ==> Climbs(Under(c.up, Right, t.node, true, t.left), Bin(t.right, c.node, true, c.other))
  {
    assert Needs(c.up, BlackHeight(t));
  }

  /** Once the red node has no red parent, a black root completes the tree. */
  lemma {:induction false} ClimbDone<T>(c: Ctx<T>, t: Tree<T>)
    requires Climbs(c, t) && !RedTop(c)
    ensures var s := Plug(c, t); s.Bin? && RedBlack(s.(red := false))
  {
    if c.Under? {
      RedBlackPlug(c, t);
      PlugBin(c, t);
    }
  }

  lemma {:induction false} PlugBin<T>(c: Ctx<T>, t: Tree<T>)
    requires c.Under? || t.Bin?
    ensures Plug(c, t).Bin?
  {
    if !c.Under? {
    } else {
      PlugBin(c.up, Join(c.side, t, c.node, c.red, c.other));
    }
  }

  function Blackened<T>(t: Tree<T>): Tree<T> {
    if t.Bin? then t.(red := false) else t
  }

  /** A subtree that lacks one black node on every path, and is sound once its top is black. */
  predicate Starved<T>(c: Ctx<T>, t: Tree<T>) {
    Balanced(Blackened(t)) && Needs(c, BlackHeight(t) + 1)
  }

  lemma {:induction false} StarvedDone<T>(c: Ctx<T>, t: Tree<T>)
    requires Starved(c, t) && (Red(t) || !c.Under?)
    ensures RedBlack(Plug(c, Blackened(t)))
  {
    RedBlackPlug(c, Blackened(t));
  }

  /** The sibling of a starved subtree is never missing, so its links may be followed. */
  lemma {:induction false} StarvedSibling<T>(c: Ctx<T>, t: Tree<T>)
    requires Starved(c, t) && c.Under?
    ensures c.other.Bin?
  {
  }

  /** Red sibling: after a rotation the starved subtree has a red parent and a black sibling. */
  lemma {:induction false} StarvedRedSibling<T>(c: Ctx<T>, t: Tree<T>)
    requires Starved(c, t) && c.Under? && Red(c.other)
    ensures !c.red
    ensures var s := c.other;
      && (c.side == Left ==> !Red(s.left) && Starved(Under(Under(c.up, Left, s.node, false, s.right), Left, c.node, true, s.left), t))
      && (c.side == Right ==> !Red(s.right) && Starved(Under(Under(c.up, Right, s.node, false, s.left), Right, c.node, true, s.right), t))
  {
  }

  /** Black sibling with black children: it turns red and the lack moves to the parent. */
  lemma {:induction false} StarvedUp<T>(c: Ctx<T>, t: Tree<T>)
    requires Starved(c, t) && !Red(t) && c.Under? && c.other.Bin? && !c.other.red
    requires !Red(c.other.left) && !Red(c.other.right)
    ensures Starved(c.up, Join(c.side, t, c.node, c.red, c.other.(red := true)))
  {
  }

  /** Black sibling whose red child is on the near side: that child takes its place. */
  lemma {:induction false} StarvedNear<T>(c: Ctx<T>, t: Tree<T>)
    requires Starved(c, t) && c.Under? && c.other.Bin? && !c.other.red
    ensures var s := c.other;
      && (c.side == Left && Red(s.left) && !Red(s.right) ==>
            Starved(c.(other := Bin(s.left.left, s.left.node, false, Bin(s.left.right, s.node, true, s.right))), t))
      && (c.side == Right && Red(s.right) && !Red(s.left) ==>
            Starved(c.(other := Bin(Bin(s.left, s.node, true, s.right.left), s.right.node, false, s.right.right)), t))
  {
    var s := c.other;
    assert Balanced(s.left) && Balanced(s.right) && BlackHeight(s.left) == BlackHeight(s.right) == BlackHeight(t);
  }

  /** Black sibling whose far child is red: one rotation of the parent feeds the starved side. */
  lemma {:induction false} StarvedFar<T>(c: Ctx<T>, t: Tree<T>)
    requires Starved(c, t) && !Red(t) && c.Under? && c.other.Bin? && !c.other.red
    ensures var s := c.other;
      && (c.side == Left && Red(s.right) ==>
            RedBlack(Plug(c.up, Bin(Bin(t, c.node, false, s.left), s.node, c.red, s.right.(red := false)))))
      && (c.side == Right && Red(s.left) ==>
            RedBlack(Plug(c.up, Bin(s.left.(red := false), s.node, c.red, Bin(s.right, c.node, false, t)))))
  {
    var s := c.other;
    assert Balanced(s.left) && Balanced(s.right) && BlackHeight(s.left) == BlackHeight(s.right) == BlackHeight(t);
    if c.side == Left && Red(s.right) {
      var (fed, far) := (Bin(t, c.node, false, s.left), s.right.(red := false));
      assert Balanced(fed) && Balanced(far) && BlackHeight(fed) == BlackHeight(far) == BlackHeight(t) + 1;
      RedBlackPlug(c.up, Bin(fed, s.node, c.red, far));
    } else if c.side == Right && Red(s.left) {
      var (fed, far) := (Bin(s.right, c.node, false, t), s.left.(red := false));
      assert Balanced(fed) && Balanced(far) && BlackHeight(fed) == BlackHeight(far) == BlackHeight(t) + 1;
      RedBlackPlug(c.up, Bin(far, s.node, c.red, fed));
    }
  }

  /** Bypassing a node that lacks a child: a red one is not missed, a black one leaves a lack. */
  lemma {:induction false} Bypassed<T>(c: Ctx<T>, t: Tree<T>, child: Tree<T>)
    requires Fits(c, t) && t.Bin?
    requires (t.left == Leaf && child == t.right) || (t.right == Leaf && child == t.left)
    ensures t.red ==> Fits(c, child)
    ensures !t.red ==> Starved(c, child)
  {
    assert Balanced(child) && BlackHeight(child) == 0;
  }

  function LeftTurn<T>(t: Tree<T>): Tree<T>
    requires t.Bin? && t.right.Bin?
  {
    Bin(Bin(t.left, t.node, t.red, t.right.left), t.right.node, t.right.red, t.right.right)
  }

  function RightTurn<T>(t: Tree<T>): Tree<T>
    requires t.Bin? && t.left.Bin?
  {
    Bin(t.left.left, t.left.node, t.left.red, Bin(t.left.right, t.node, t.red, t.right))
  }
}
