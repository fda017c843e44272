/**
  Why the top-down insertion keeps the red-black conditions: the colour flip and
  the restructuring of `reorient` keep every path's black count and leave no red
  node with a red child, provided the uncle of a flipped node below a red parent
  is black, which the way the search descends guarantees.
*/
module RedBlackBalance {
  import opened LexOrder
  import opened RedBlackTrees
  import opened RedBlackPaths
  import opened RedBlackOrder

  /** A real node with two black children. */
  ghost predicate BlackKids<V>(t: Tree<V>)
  {
    t.Node? && IsBlack(t.left) && IsBlack(t.right)
  }

  /** The test `insert` makes at each node it enters. */
  predicate TwoRed<V>(t: Tree<V>)
  {
    t.Node? && IsRed(t.left) && IsRed(t.right)
  }

  lemma {:induction false} NoRedRedAt<V>(t: Tree<V>, key: string, j: nat)
    requires NoRedRed(t)
    ensures NoRedRed(At(t, key, j))
  {
    if j > 0 && t.Node? {
      NoRedRedAt(Next(t, key), key, j - 1);
    }
  }

  lemma {:induction false} BalancedAt<V>(t: Tree<V>, key: string, j: nat)
    requires Balanced(t)
    ensures Balanced(At(t, key, j))
  {
    if j > 0 && t.Node? {
      BalancedAt(Next(t, key), key, j - 1);
    }
  }

  /** Blackening the root of a tree without red-red edges gives a red-black tree;
      on a black root it changes nothing. */
  lemma BlackenRB<V>(u: Tree<V>)
    requires NoRedRed(u) && Balanced(u)
    ensures IsRedBlack(Blacken(u))
    ensures IsBlack(u) ==> Blacken(u) == u
    ensures Entries(Blacken(u)) == Entries(u) && Inorder(Blacken(u)) == Inorder(u)
  {
  }

  /** The colour flip of a node with two red children: the node was black, and the
      flip keeps its black height, leaves no red-red edge inside it, and its
      children now have black children. */
  lemma FlipFacts<V>(c: Tree<V>, key: string)
    requires TwoRed(c) && NoRedRed(c) && Balanced(c)
    ensures c.color == Black
    ensures IsRed(Flip(c)) && BlackKids(Flip(c))
    ensures NoRedRed(Flip(c)) && Balanced(Flip(c)) && BlackHeight(Flip(c)) == BlackHeight(c)
    ensures BlackKids(Next(Flip(c), key)) && BlackKids(Next(c, key))
    ensures Entries(Flip(c)) == Entries(c) && Inorder(Flip(c)) == Inorder(c)
    ensures Depth(Flip(c), key) == Depth(c, key)
  {
  }

  /** The restructuring at a black grandparent `g` whose red child `p` (on the
      search path) has got the red subtree `x` as its child on the search path,
      while the uncle and the sibling of `x` are black: the result has a black
      root, the same black height, no red-red edge, a red child on the search path
      and below it the child of `x` on the search path. */
  lemma RestructureRB<V>(g: Tree<V>, key: string, x: Tree<V>)
    requires g.Node? && g.color == Black && IsRed(Next(g, key)) && Balanced(g)
    requires IsBlack(Other(g, key)) && NoRedRed(Other(g, key))
    requires IsBlack(Other(Next(g, key), key)) && NoRedRed(Other(Next(g, key), key))
    requires x.Node? && x.color == Red && BlackKids(x) && NoRedRed(x) && Balanced(x)
    requires BlackHeight(x) == BlackHeight(Next(Next(g, key), key))
    ensures var r := Restructure(SetChild(g, key, SetChild(Next(g, key), key, x)), key);
      r.Node? && r.color == Black && NoRedRed(r) && Balanced(r) &&
      BlackHeight(r) == BlackHeight(g) &&
      IsRed(Next(r, key)) && Next(Next(r, key), key) == Next(x, key)
  {
    var p := Next(g, key);
    var w := SetChild(g, key, SetChild(p, key, x));
    assert BlackHeight(Other(p, key)) == BlackHeight(Next(p, key));
    assert BlackHeight(Other(g, key)) == BlackHeight(p);
  }

  /** The restructuring lifts the search path by one step at most. */
  lemma RestructureDepth<V>(g: Tree<V>, key: string, x: Tree<V>)
    requires g.Node? && Next(g, key).Node? && x.Node?
    requires g.key != key && Next(g, key).key != key
    ensures Depth(Restructure(SetChild(g, key, SetChild(Next(g, key), key, x)), key), key)
      <= 1 + Depth(x, key)
  {
  }

  /** The repair after the node `d` steps down has become the red subtree `x`
      (of the black height of what was there) keeps the red-black conditions,
      provided a red parent has a black sibling. */
  lemma RepairedRB<V>(t: Tree<V>, key: string, d: nat, x: Tree<V>)
    requires IsRedBlack(t) && (d >= 1 ==> At(t, key, d - 1).Node?)
    requires x.Node? && x.color == Red && BlackKids(x) && NoRedRed(x) && Balanced(x)
    requires BlackHeight(x) == BlackHeight(At(t, key, d))
    requires d >= 2 && IsRed(At(t, key, d - 1)) && At(t, key, d - 2).Node? ==>
      IsBlack(Other(At(t, key, d - 2), key))
    ensures IsRedBlack(Repaired(t, key, d, x))
  {
    if d >= 1 && IsRed(At(t, key, d - 1)) {
      AtNext(t, key, d - 2);
      AtNext(t, key, d - 1);
      var g := At(t, key, d - 2);
      NoRedRedAt(t, key, d - 2);
      BalancedAt(t, key, d - 2);
      RestructureRB(g, key, x);
      var r := Restructure(SetChild(g, key, SetChild(Next(g, key), key, x)), key);
      BalancedReplace(t, key, d - 2, r);
      NoRedRedReplace(t, key, d - 2, r);
      BlackenRB(ReplaceAt(t, key, d - 2, r));
    } else {
      BalancedReplace(t, key, d, x);
      NoRedRedReplace(t, key, d, x);
      BlackenRB(ReplaceAt(t, key, d, x));
    }
  }

  // ---------------------------------------------------------------------------
  // The descent of `insert`

  /** If both children of `p` are red, the grandchild the search enters has two
      black children. */
  ghost predicate Guarded<V>(p: Tree<V>, key: string)
  {
    p.Node? && IsRed(Next(p, key)) && IsRed(Other(p, key)) ==> BlackKids(Next(Next(p, key), key))
  }

  /** The node a rotation has just lifted into the current position: black, with a
      red child on the search path whose own child on the path has black children. */
  ghost predicate Lifted<V>(r: Tree<V>, key: string)
  {
    r.Node? && r.color == Black && IsRed(Next(r, key)) && BlackKids(Next(Next(r, key), key))
  }

  /** The colour invariant of the descent of `insert`, with the current node `d`
      steps down the search path (-1 for the header). `phase` counts the steps
      since the last rotation: 1 right after it, then 2 and 3, and 0 once the
      steps since have renewed all four pointers. */
  ghost predicate Descent<V>(t: Tree<V>, key: string, d: int, phase: nat)
  {
    IsRedBlack(t) && -1 <= d && phase < 4 && (d == -1 ==> phase == 0) &&
    (d >= 0 ==>
      OnPath(t, key, d) &&
      (phase == 1 ==> Lifted(At(t, key, d), key)) &&
      (phase == 2 ==> IsRed(At(t, key, d)) && BlackKids(Next(At(t, key, d), key))) &&
      (phase == 3 ==> At(t, key, d).Node?) &&
      (phase != 1 ==>
        !TwoRed(At(t, key, d)) &&
        (d >= 1 ==> Guarded(At(t, key, d - 1), key)) &&
        (d >= 2 ==> Guarded(At(t, key, d - 2), key))))
  }

  /** The loop of `insert` goes on: the current node is the header or a real node
      that does not hold the key. */
  ghost predicate Continues<V>(t: Tree<V>, key: string, d: int)
  {
    d == -1 || (d >= 0 && At(t, key, d).Node? && At(t, key, d).key != key)
  }

  function NextPhase(phase: nat): nat
  {
    if phase == 1 then 2 else if phase == 2 then 3 else 0
  }

  /** How far the descent still has to go. */
  ghost function Remaining<V>(t: Tree<V>, key: string, d: int): nat
  {
    if d < 0 then 1 + Depth(t, key) else Depth(At(t, key, d), key)
  }

  /** A step down into a node without two red children keeps the invariant, in
      the next phase, and shortens the rest of the descent. */
  lemma StepPlain<V>(t: Tree<V>, key: string, d: int, phase: nat)
    requires Descent(t, key, d, phase) && Continues(t, key, d) && !TwoRed(At(t, key, d + 1))
    ensures Descent(t, key, d + 1, NextPhase(phase))
    ensures Remaining(t, key, d + 1) < Remaining(t, key, d)
  {
    if d >= 0 {
      OnPathExtend(t, key, d);
      AtNext(t, key, d);
      NoRedRedAt(t, key, d + 1);
      if d >= 1 {
        AtNext(t, key, d - 1);
      }
    }
  }

  /** A step down into a node with two red children, which `reorient` flips:
      this never happens in phases 1 and 2; it keeps the stored pairs and the
      red-black conditions; without a rotation the invariant holds one step
      further down, after one the lifted node is current, in phase 1, one step
      higher, with no more of the descent left than before. */
  lemma StepFlip<V>(t: Tree<V>, key: string, d: int, phase: nat)
    requires Descent(t, key, d, phase) && Continues(t, key, d) && TwoRed(At(t, key, d + 1))
    ensures phase == 0 || phase == 3
    ensures IsBlack(t)
    ensures Entries(Reoriented(t, key, d + 1)) == Entries(t)
    ensures Inorder(Reoriented(t, key, d + 1)) == Inorder(t)
    ensures d >= 0 && IsRed(At(t, key, d)) ==>
      d >= 1 && Descent(Reoriented(t, key, d + 1), key, d - 1, 1) &&
      Remaining(Reoriented(t, key, d + 1), key, d - 1) <= Remaining(t, key, d)
    ensures !(d >= 0 && IsRed(At(t, key, d))) ==>
      Descent(Reoriented(t, key, d + 1), key, d + 1, 0) &&
      Remaining(Reoriented(t, key, d + 1), key, d + 1) < Remaining(t, key, d)
  {
    var dc := d + 1;
    var c := At(t, key, dc);
    if d >= 0 {
      OnPathExtend(t, key, d);
      AtNext(t, key, d);
      NoRedRedAt(t, key, d);
    }
    NoRedRedAt(t, key, dc);
    BalancedAt(t, key, dc);
    FlipFacts(c, key);
    var x := Flip(c);
    if d >= 1 {
      AtNext(t, key, d - 1);
    }
    RepairedRB(t, key, dc, x);
    RepairedKeepsOrder(t, key, dc, x);
    EntriesReplace(t, key, dc, x);
    if d >= 0 && IsRed(At(t, key, d)) {
      assert d >= 1;
      AtNext(t, key, d - 1);
      RotationStep(t, key, d);
    } else {
      FlipStep(t, key, d);
    }
  }

  /** The rotation case of `StepFlip`: the lifted node is black with a red child
      on the search path and two black grandchildren below that, and the rest of
      the descent from it is no longer than from the red parent before. */
  lemma RotationStep<V>(t: Tree<V>, key: string, d: nat)
    requires IsRedBlack(t) && d >= 1 && OnPath(t, key, d + 1)
    requires IsRed(At(t, key, d)) && TwoRed(At(t, key, d + 1))
    requires Guarded(At(t, key, d - 1), key)
    ensures OnPath(Reoriented(t, key, d + 1), key, d - 1)
    ensures Lifted(At(Reoriented(t, key, d + 1), key, d - 1), key)
    ensures Depth(At(Reoriented(t, key, d + 1), key, d - 1), key) <= Depth(At(t, key, d), key)
  {
    RotationLocal(t, key, d);
    var r := RotationLocalTree(t, key, d);
    OnPathPrefix(t, key, d - 1, d + 1);
    var u := ReplaceAt(t, key, d - 1, r);
    if d - 1 >= 1 {
      OnPathPrefix(t, key, d - 2, d + 1);
      ReplaceKeepsRoot(t, key, d - 1, r);
    }
    if d >= 2 {
      AtNext(t, key, d - 2);
    }
    AtWithin(t, key, d - 1, 0, r);
    OnPathReplace(t, key, d - 1, r);
    ReorientedRotating(t, key, d);
    assert Blacken(u) == u;
  }

  /** `Reoriented` below a red parent, in terms of `RotationLocalTree`. */
  lemma ReorientedRotating<V>(t: Tree<V>, key: string, d: nat)
    requires IsBlack(t) && d >= 1 && At(t, key, d + 1).Node? && IsRed(At(t, key, d))
    ensures At(t, key, d - 1).Node? && Next(At(t, key, d - 1), key).Node?
    ensures Reoriented(t, key, d + 1) == Blacken(ReplaceAt(t, key, d - 1, RotationLocalTree(t, key, d)))
  {
    AtNext(t, key, d);
    AtNext(t, key, d - 1);
  }

  /** The subtree that replaces the grandparent `d - 1` steps down when the
      node `d + 1` steps down is flipped under a red parent. */
  ghost function RotationLocalTree<V>(t: Tree<V>, key: string, d: nat): (r: Tree<V>)
    requires d >= 1 && At(t, key, d + 1).Node?
    requires At(t, key, d - 1).Node? && Next(At(t, key, d - 1), key).Node?
  {
    var g := At(t, key, d - 1);
    Restructure(SetChild(g, key, SetChild(Next(g, key), key, Flip(At(t, key, d + 1)))), key)
  }

  /** The rotation case seen at the grandparent: the lifted node is black with a
      red child on the path and black grandchildren below that, and the search
      from it is no longer than from the red parent. */
  lemma RotationLocal<V>(t: Tree<V>, key: string, d: nat)
    requires IsRedBlack(t) && d >= 1 && OnPath(t, key, d + 1)
    requires IsRed(At(t, key, d)) && TwoRed(At(t, key, d + 1))
    requires Guarded(At(t, key, d - 1), key)
    ensures At(t, key, d - 1).Node? && Next(At(t, key, d - 1), key).Node?
    ensures Lifted(RotationLocalTree(t, key, d), key)
    ensures Depth(RotationLocalTree(t, key, d), key) <= Depth(At(t, key, d), key)
  {
    AtNext(t, key, d);
    AtNext(t, key, d - 1);
    OnPathPrefix(t, key, d - 1, d + 1);
    OnPathPrefix(t, key, d, d + 1);
    NoRedRedAt(t, key, d - 1);
    BalancedAt(t, key, d - 1);
    LiftAtGrand(At(t, key, d - 1), key);
  }

  /** The rotation case at a grandparent `g` whose child and grandchild on the
      path are a red node and a node with two red children. */
  lemma LiftAtGrand<V>(g: Tree<V>, key: string)
    requires g.Node? && g.key != key && NoRedRed(g) && Balanced(g) && Guarded(g, key)
    requires Next(g, key).Node? && Next(g, key).key != key && IsRed(Next(g, key))
    requires TwoRed(Next(Next(g, key), key))
    ensures var r := Restructure(SetChild(g, key, SetChild(Next(g, key), key, Flip(Next(Next(g, key), key)))), key);
      Lifted(r, key) && Depth(r, key) <= Depth(Next(g, key), key)
  {
    var c := Next(Next(g, key), key);
    assert NoRedRed(c) && Balanced(c);
    FlipFacts(c, key);
    var x := Flip(c);
    assert IsBlack(Other(g, key));
    RestructureRB(g, key, x);
    RestructureDepth(g, key, x);
  }



  /** The flip-only case of `StepFlip`. */
  lemma FlipStep<V>(t: Tree<V>, key: string, d: int)
    requires IsRedBlack(t) && -1 <= d && (d >= 0 ==> OnPath(t, key, d))
    requires Continues(t, key, d) && TwoRed(At(t, key, d + 1))
    requires !(d >= 0 && IsRed(At(t, key, d)))
    ensures OnPath(Reoriented(t, key, d + 1), key, d + 1)
    ensures !TwoRed(At(Reoriented(t, key, d + 1), key, d + 1))
    ensures d >= 0 ==> Guarded(At(Reoriented(t, key, d + 1), key, d), key)
    ensures d >= 1 ==> Guarded(At(Reoriented(t, key, d + 1), key, d - 1), key)
    ensures Remaining(Reoriented(t, key, d + 1), key, d + 1) < Remaining(t, key, d)
  {
    var dc := d + 1;
    var c := At(t, key, dc);
    NoRedRedAt(t, key, dc);
    BalancedAt(t, key, dc);
    FlipFacts(c, key);
    var x := Flip(c);
    var u := ReplaceAt(t, key, dc, x);
    if d >= 0 {
      OnPathExtend(t, key, d);
      AtNext(t, key, d);
      ReplaceKeepsRoot(t, key, dc, x);
      AtWithin(t, key, dc, 0, x);
      AtReplace(t, key, d, dc, x);
      assert At(u, key, d) == SetChild(At(t, key, d), key, x);
      if d >= 1 {
        AtNext(t, key, d - 1);
        AtReplace(t, key, d - 1, dc, x);
        assert At(u, key, d - 1) == SetChild(At(t, key, d - 1), key, At(u, key, d));
      }
      OnPathReplace(t, key, dc, x);
      assert Reoriented(t, key, d + 1) == Blacken(u) == u;
    }
  }

  /** A repair after attaching the new node `n` where the search fell off the
      tree is the repair of the original tree with `n` made red. */
  lemma AttachedRepair<V>(t: Tree<V>, key: string, d: nat, n: Tree<V>)
    requires IsBlack(t) && OnPath(t, key, d) && At(t, key, d).Leaf? && n.Node? && n.color == Black
    ensures IsBlack(ReplaceAt(t, key, d, n)) && At(ReplaceAt(t, key, d, n), key, d) == n
    ensures Reoriented(ReplaceAt(t, key, d, n), key, d) == Repaired(t, key, d, Flip(n))
  {
    AttachedAbove(t, key, d, n);
    if d >= 1 && IsRed(At(t, key, d - 1)) {
      AttachedRotates(t, key, d, n);
    } else {
      ReplaceAbove(t, key, d, d, n, Flip(n));
    }
  }

  /** Attaching `n` keeps the root and the colour of the parent. */
  lemma AttachedAbove<V>(t: Tree<V>, key: string, d: nat, n: Tree<V>)
    requires IsBlack(t) && OnPath(t, key, d) && n.Node? && n.color == Black
    ensures IsBlack(ReplaceAt(t, key, d, n)) && At(ReplaceAt(t, key, d, n), key, d) == n
    ensures d >= 1 ==>
      At(t, key, d - 1).Node? && IsRed(At(ReplaceAt(t, key, d, n), key, d - 1)) == IsRed(At(t, key, d - 1))
  {
    var t1 := ReplaceAt(t, key, d, n);
    if d >= 1 {
      OnPathPrefix(t, key, d - 1, d);
      AtWithin(t, key, d, 0, n);
      ReplaceKeepsRoot(t, key, d, n);
      AtReplace(t, key, d - 1, d, n);
      assert At(t1, key, d - 1).color == At(t, key, d - 1).color;
    }
    assert At(t1, key, d) == n;
  }

  /** The case of `AttachedRepair` where the parent of the new node is red:
      both repairs restructure at the same grandparent. */
  lemma AttachedRotates<V>(t: Tree<V>, key: string, d: nat, n: Tree<V>)
    requires IsBlack(t) && OnPath(t, key, d) && At(t, key, d).Leaf? && n.Node?
    requires d >= 1 && IsRed(At(t, key, d - 1))
    requires IsBlack(ReplaceAt(t, key, d, n)) && IsRed(At(ReplaceAt(t, key, d, n), key, d - 1))
    ensures Repaired(ReplaceAt(t, key, d, n), key, d, Flip(n)) == Repaired(t, key, d, Flip(n))
  {
    var t1 := ReplaceAt(t, key, d, n);
    var x := Flip(n);
    assert d >= 2;
    OnPathPrefix(t, key, d - 2, d);
    OnPathPrefix(t, key, d - 1, d);
    AtNext(t, key, d - 2);
    AtNext(t, key, d - 1);
    AtReplace(t, key, d - 2, d, n);
    var g := At(t, key, d - 2);
    var w := Restructure(SetChild(g, key, SetChild(Next(g, key), key, x)), key);
    assert ReplaceAt(Next(g, key), key, 1, n) == SetChild(Next(g, key), key, n);
    assert ReplaceAt(g, key, 2, n) == SetChild(g, key, ReplaceAt(Next(g, key), key, 1, n));
    assert At(t1, key, d - 2) == SetChild(g, key, SetChild(Next(g, key), key, n));
    ReplaceAbove(t, key, d - 2, d, n, w);
  }


  /** Attaching a new black node `n` where the search fell off the tree and
      reorienting at it gives a red-black tree with the same pairs as the tree
      with `n` attached. */
  lemma AttachRepair<V>(t: Tree<V>, key: string, d: nat, n: Tree<V>)
    requires Descent(t, key, d, 0) && At(t, key, d).Leaf?
    requires n.Node? && n.color == Black && n.left.Leaf? && n.right.Leaf?
    ensures IsBlack(ReplaceAt(t, key, d, n)) && At(ReplaceAt(t, key, d, n), key, d) == n
    ensures IsRedBlack(Reoriented(ReplaceAt(t, key, d, n), key, d))
    ensures Entries(Reoriented(ReplaceAt(t, key, d, n), key, d)) == Entries(ReplaceAt(t, key, d, n))
    ensures Inorder(Reoriented(ReplaceAt(t, key, d, n), key, d)) == Inorder(ReplaceAt(t, key, d, n))
  {
    var t1 := ReplaceAt(t, key, d, n);
    var x := Flip(n);
    AttachedRepair(t, key, d, n);
    if d >= 1 {
      OnPathPrefix(t, key, d - 1, d);
      AtNext(t, key, d - 1);
    }
    if d >= 2 {
      OnPathPrefix(t, key, d - 2, d);
      AtNext(t, key, d - 2);
    }
    RepairedRB(t, key, d, x);
    RepairedKeepsOrder(t1, key, d, x);
    ReplaceAbove(t, key, d, d, n, x);
    if d >= 1 {
      OnPathPrefix(t, key, d - 1, d);
      ReplaceKeepsRoot(t, key, d, n);
      AtNext(t1, key, d - 1);
    }
    EntriesReplace(t1, key, d, x);
  }
}
