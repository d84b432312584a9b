/** What the red-black conditions mean path by path, and the height they guarantee. */
module RbHeight {
  import opened Numbers
  import opened RbShape

  function Down<T>(t: Tree<T>, side: Side): Tree<T>
    requires t.Bin?
  {
    if side == Left then t.left else t.right
  }

  /** `p` leads from the top of `t` to a missing child. */
  predicate IsPath<T>(t: Tree<T>, p: seq<Side>)
    decreases |p|
  {
    if t.Bin? then p != [] && IsPath(Down(t, p[0]), p[1..]) else p == []
  }

  function BlacksOn<T>(t: Tree<T>, p: seq<Side>): nat
    requires IsPath(t, p)
    decreases |p|
  {
    if t.Bin? then BlacksOn(Down(t, p[0]), p[1..]) + (if t.red then 0 else 1) else 0
  }

  predicate NoRedPair<T>(t: Tree<T>) {
    t.Bin? ==> (t.red ==> !Red(t.left) && !Red(t.right)) && NoRedPair(t.left) && NoRedPair(t.right)
  }

  ghost predicate SameBlacks<T>(t: Tree<T>, h: nat) {
    forall p {:trigger IsPath(t, p)} :: IsPath(t, p) ==> BlacksOn(t, p) == h
  }

  lemma {:induction false} BalancedPaths<T>(t: Tree<T>)
    requires Balanced(t)
    ensures NoRedPair(t) && SameBlacks(t, BlackHeight(t))
  {
    if !t.Bin? {
    } else {
      BalancedPaths(t.left);
      BalancedPaths(t.right);
      forall p | IsPath(t, p) ensures BlacksOn(t, p) == BlackHeight(t) {
        assert IsPath(Down(t, p[0]), p[1..]);
      }
    }
  }

  lemma {:induction false} PathsBalanced<T>(t: Tree<T>, h: nat)
    requires NoRedPair(t) && SameBlacks(t, h)
    ensures Balanced(t) && BlackHeight(t) == h
  {
    if t.Bin? {
      var k := if t.red then 0 else 1;
      var q := SomePath(t.left);
      assert ([Left] + q)[1..] == q && IsPath(t, [Left] + q);
      PathsBalanced(t.left, h - k) by { BelowSame(t, Left, h); }
      PathsBalanced(t.right, h - k) by { BelowSame(t, Right, h); }
    } else {
      assert IsPath(t, []);
    }
  }

  lemma {:induction false} BelowSame<T>(t: Tree<T>, side: Side, h: nat)
    requires t.Bin? && SameBlacks(t, h) && h >= (if t.red then 0 else 1)
    ensures SameBlacks(Down(t, side), h - if t.red then 0 else 1)
  {
    forall p | IsPath(Down(t, side), p) ensures BlacksOn(Down(t, side), p) == h - (if t.red then 0 else 1) {
      assert ([side] + p)[1..] == p;
      assert IsPath(t, [side] + p);
    }
  }

  lemma {:induction false} SomePath<T>(t: Tree<T>) returns (p: seq<Side>)
    ensures IsPath(t, p)
  {
    if t.Bin? {
      var q := SomePath(t.left);
      p := [Left] + q;
      assert p[1..] == q;
    } else {
      p := [];
    }
  }

  // ---------- the height bound ----------

  function Height<T>(t: Tree<T>): nat {
    if t.Bin? then 1 + (if Height(t.left) > Height(t.right) then Height(t.left) else Height(t.right)) else 0
  }

  lemma {:induction false} Pow2Add(a: nat, b: nat)
    ensures Pow2(a + b) == Pow2(a) * Pow2(b)
  {
    if a == 0 {
    } else {
      Pow2Add(a - 1, b);
    }
  }

  lemma {:induction false} Pow2Grows(a: nat, b: nat)
    requires a <= b
    ensures Pow2(a) <= Pow2(b)
  {
    if a == b {
    } else {
      Pow2Grows(a, b - 1);
    }
  }

  lemma {:induction false} FewReds<T>(t: Tree<T>)
    requires Balanced(t)
    ensures Height(t) <= 2 * BlackHeight(t) + if Red(t) then 1 else 0
  {
    if !t.Bin? {
    } else {
      FewReds(t.left);
      FewReds(t.right);
    }
  }

  lemma {:induction false} ManyNodes<T>(t: Tree<T>)
    requires Balanced(t)
    ensures Pow2(BlackHeight(t)) <= |Inorder(t)| + 1
  {
    if !t.Bin? {
    } else {
      ManyNodes(t.left);
      ManyNodes(t.right);
    }
  }

  /** The height is at most 2 lg(n + 1). */
  lemma HeightBound<T>(t: Tree<T>)
    requires RedBlack(t)
    ensures Pow2(Height(t)) <= (|Inorder(t)| + 1) * (|Inorder(t)| + 1)
  {
    var b := BlackHeight(t);
    FewReds(t);
    ManyNodes(t);
    Pow2Grows(Height(t), b + b);
    Pow2Add(b, b);
    Square(Pow2(b), |Inorder(t)| + 1);
  }

  lemma Square(x: nat, y: nat)
    requires x <= y
    ensures x * x <= y * y
  {
  }
}
