/**
  How a change made at one point of the search path for a key shows in the whole
  tree: looking up and replacing subtrees along the path, and the properties a
  replacement keeps when the new subtree keeps them locally.
*/
module RedBlackPaths {
  import opened RedBlackTrees

  /** Putting back the subtree that is already there changes nothing. */
  lemma {:induction false} ReplaceSame<V>(t: Tree<V>, key: string, j: nat)
    ensures ReplaceAt(t, key, j, At(t, key, j)) == t
  {
    if j > 0 && t.Node? {
      ReplaceSame(Next(t, key), key, j - 1);
    }
  }

  /** `j + i` steps are `j` steps and then `i` more. */
  lemma {:induction false} AtAdd<V>(t: Tree<V>, key: string, j: nat, i: nat)
    ensures At(t, key, j + i) == At(At(t, key, j), key, i)
  {
    if j > 0 && t.Node? {
      AtAdd(Next(t, key), key, j - 1, i);
    }
  }

  /** Seen from a point at or above the replaced one, the replacement is local. */
  lemma {:induction false} AtReplace<V>(t: Tree<V>, key: string, j: nat, k: nat, s: Tree<V>)
    requires j <= k && (k == 0 || At(t, key, k - 1).Node?)
    ensures At(ReplaceAt(t, key, k, s), key, j) == ReplaceAt(At(t, key, j), key, k - j, s)
  {
    if j > 0 {
      AtNext(t, key, 0);
      if k - 1 > 0 {
        AtReplaceNode(t, key, k - 1);
      }
      AtReplace(Next(t, key), key, j - 1, k - 1, s);
    }
  }

  /** A real node `d` steps down means the root is a real node. */
  lemma {:induction false} AtReplaceNode<V>(t: Tree<V>, key: string, d: nat)
    requires d > 0 && At(t, key, d).Node?
    ensures t.Node? && At(Next(t, key), key, d - 1).Node?
  {
  }

  /** The subtree at the replaced point is the new one, and below it the new one's own. */
  lemma {:induction false} AtWithin<V>(t: Tree<V>, key: string, j: nat, i: nat, w: Tree<V>)
    requires j == 0 || At(t, key, j - 1).Node?
    ensures At(ReplaceAt(t, key, j, w), key, j) == w
    ensures At(ReplaceAt(t, key, j, w), key, j + i) == At(w, key, i)
  {
    AtReplace(t, key, j, j, w);
    AtAdd(ReplaceAt(t, key, j, w), key, j, i);
  }

  /** A later replacement at or above an earlier one overrides it. */
  lemma {:induction false} ReplaceAbove<V>(t: Tree<V>, key: string, j: nat, k: nat, s: Tree<V>, w: Tree<V>)
    requires j <= k
    ensures ReplaceAt(ReplaceAt(t, key, k, s), key, j, w) == ReplaceAt(t, key, j, w)
  {
    if j > 0 && t.Node? {
      ReplaceAbove(Next(t, key), key, j - 1, k - 1, s, w);
    }
  }

  /** A replacement below a replaced point happens inside the new subtree. */
  lemma {:induction false} ReplaceWithin<V>(t: Tree<V>, key: string, j: nat, i: nat, w: Tree<V>, s: Tree<V>)
    ensures ReplaceAt(ReplaceAt(t, key, j, w), key, j + i, s) == ReplaceAt(t, key, j, ReplaceAt(w, key, i, s))
  {
    if j > 0 && t.Node? {
      ReplaceWithin(Next(t, key), key, j - 1, i, w, s);
    }
  }

  /** A deep replacement is a replacement at a shallower point of a locally changed subtree. */
  lemma ReplaceSplit<V>(t: Tree<V>, key: string, j: nat, i: nat, s: Tree<V>)
    ensures ReplaceAt(t, key, j + i, s) == ReplaceAt(t, key, j, ReplaceAt(At(t, key, j), key, i, s))
  {
    ReplaceSame(t, key, j);
    ReplaceWithin(t, key, j, i, At(t, key, j), s);
  }

  /** A replacement two steps below the grandparent `g` is a replacement of `g`. */
  lemma ReplaceBelowGrand<V>(t: Tree<V>, key: string, d: nat, x: Tree<V>)
    requires d >= 2 && At(t, key, d - 1).Node?
    ensures At(t, key, d - 2).Node? && Next(At(t, key, d - 2), key).Node?
    ensures At(t, key, d - 1) == Next(At(t, key, d - 2), key)
    ensures At(t, key, d) == Next(Next(At(t, key, d - 2), key), key)
    ensures ReplaceAt(t, key, d, x) == ReplaceAt(t, key, d - 2,
      SetChild(At(t, key, d - 2), key, SetChild(Next(At(t, key, d - 2), key), key, x)))
  {
    AtNext(t, key, d - 1);
    AtNext(t, key, d - 2);
    ReplaceSplit(t, key, d - 2, 2, x);
    var g := At(t, key, d - 2);
    assert ReplaceAt(g, key, 2, x) == SetChild(g, key, ReplaceAt(Next(g, key), key, 1, x));
    assert ReplaceAt(Next(g, key), key, 1, x) == SetChild(Next(g, key), key, x);
  }

  /** A search path continues through a real node that does not hold the key. */
  lemma {:induction false} OnPathExtend<V>(t: Tree<V>, key: string, d: nat)
    requires OnPath(t, key, d) && At(t, key, d).Node? && At(t, key, d).key != key
    ensures OnPath(t, key, d + 1)
  {
    if d > 0 {
      OnPathExtend(Next(t, key), key, d - 1);
    }
  }

  /** Every node strictly above the end of a search path is real and does not
      hold the key. */
  lemma {:induction false} OnPathPrefix<V>(t: Tree<V>, key: string, j: nat, k: nat)
    requires j <= k && OnPath(t, key, k)
    ensures OnPath(t, key, j)
    ensures j < k ==> At(t, key, j).Node? && At(t, key, j).key != key
  {
    if j > 0 {
      OnPathPrefix(Next(t, key), key, j - 1, k - 1);
    }
  }

  /** Replacing the subtree at the end of a search path keeps the path. */
  lemma {:induction false} OnPathReplace<V>(t: Tree<V>, key: string, k: nat, s: Tree<V>)
    requires OnPath(t, key, k)
    ensures OnPath(ReplaceAt(t, key, k, s), key, k)
  {
    if k > 0 {
      OnPathReplace(Next(t, key), key, k - 1, s);
    }
  }

  // ---------------------------------------------------------------------------
  // Properties a local replacement keeps

  /** A replacement with the same in-order content keeps the whole tree's. */
  lemma {:induction false} EntriesReplace<V>(t: Tree<V>, key: string, k: nat, s: Tree<V>)
    requires Entries(s) == Entries(At(t, key, k)) && Inorder(s) == Inorder(At(t, key, k))
    ensures Entries(ReplaceAt(t, key, k, s)) == Entries(t)
    ensures Inorder(ReplaceAt(t, key, k, s)) == Inorder(t)
  {
    if k > 0 && t.Node? {
      EntriesReplace(Next(t, key), key, k - 1, s);
    }
  }

  /** A replacement that reuses the same slots keeps every slot used once. */
  lemma {:induction false} IdsReplace<V>(t: Tree<V>, key: string, k: nat, s: Tree<V>)
    requires UniqueIds(t) && UniqueIds(s) && Ids(s) == Ids(At(t, key, k))
    ensures UniqueIds(ReplaceAt(t, key, k, s)) && Ids(ReplaceAt(t, key, k, s)) == Ids(t)
  {
    if k > 0 && t.Node? {
      IdsReplace(Next(t, key), key, k - 1, s);
    }
  }

  /** A balanced replacement of the same black height keeps the tree balanced. */
  lemma {:induction false} BalancedReplace<V>(t: Tree<V>, key: string, k: nat, s: Tree<V>)
    requires Balanced(t) && Balanced(s) && BlackHeight(s) == BlackHeight(At(t, key, k))
    ensures Balanced(ReplaceAt(t, key, k, s))
    ensures BlackHeight(ReplaceAt(t, key, k, s)) == BlackHeight(t)
  {
    if k > 0 && t.Node? {
      BalancedReplace(Next(t, key), key, k - 1, s);
    }
  }

  /** A replacement without red-red edges keeps the tree free of them, as long
      as it does not put a red root under a red parent. */
  lemma {:induction false} NoRedRedReplace<V>(t: Tree<V>, key: string, k: nat, s: Tree<V>)
    requires NoRedRed(t) && NoRedRed(s)
    requires k >= 1 && IsRed(At(t, key, k - 1)) ==> IsBlack(s)
    ensures NoRedRed(ReplaceAt(t, key, k, s))
  {
    if k > 0 && t.Node? {
      NoRedRedReplace(Next(t, key), key, k - 1, s);
    }
  }

  /** A replacement below the root leaves the root node's own fields alone. */
  lemma ReplaceKeepsRoot<V>(t: Tree<V>, key: string, k: nat, s: Tree<V>)
    requires k >= 1 && t.Node?
    ensures ReplaceAt(t, key, k, s).Node?
    ensures ReplaceAt(t, key, k, s).color == t.color && ReplaceAt(t, key, k, s).key == t.key
    ensures ReplaceAt(t, key, k, s).id == t.id
    ensures Other(ReplaceAt(t, key, k, s), key) == Other(t, key)
    ensures Next(ReplaceAt(t, key, k, s), key) == ReplaceAt(Next(t, key), key, k - 1, s)
  {
  }
}
