/**
  How the nodes of `RedBlackTree` lie in memory. Every node object is a slot of
  an arena; a child pointer is a slot index. Slot 0 is nullNode, slot 1 the
  header, and the real nodes occupy slots 2 and up. `Repr` says that an arena
  holds a given abstract tree, which lets each pointer update be read as a change
  of that tree.
*/
module RedBlackArena {
  import opened Optional
  import opened LexOrder
  import opened RedBlackTrees
  import opened RedBlackPaths
  import opened RedBlackOrder
  import opened RedBlackBalance

  /** One node object: `data` is `None` for nullNode and the header. */
  datatype Slot<V> = Slot(key: string, data: Option<V>, left: nat, right: nat, color: Color)

  const NullSlot: nat := 0
  const HeaderSlot: nat := 1

  /** The node object `t` is stored in. */
  ghost function SlotOf<V>(t: Tree<V>): Slot<V>
    requires t.Node?
  {
    Slot(t.key, Some(t.data), IdOf(t.left), IdOf(t.right), t.color)
  }

  /** The arena holds the tree `t`: each node of `t` sits in its own slot,
      pointing at the slots of its children. */
  ghost predicate Repr<V>(nodes: seq<Slot<V>>, t: Tree<V>)
  {
    t.Node? ==>
      2 <= t.id < |nodes| && nodes[t.id] == SlotOf(t) &&
      Repr(nodes, t.left) && Repr(nodes, t.right)
  }

  /** The arena holds the tree `t` below its header, whose left pointer is
      nullNode; nullNode is black and points at itself. */
  ghost predicate Rooted<V>(nodes: seq<Slot<V>>, t: Tree<V>)
  {
    |nodes| >= 2 &&
    nodes[NullSlot].left == NullSlot && nodes[NullSlot].right == NullSlot &&
    nodes[NullSlot].color == Black && nodes[NullSlot].data == None &&
    nodes[HeaderSlot] == Slot("", None, NullSlot, IdOf(t), Black) &&
    Repr(nodes, t) && UniqueIds(t)
  }

  /** The slot of the node the search for `key` passes `n` steps above depth
      `d`; the header above the root. */
  ghost function Above<V>(t: Tree<V>, key: string, d: int, n: nat): nat
  {
    if d - n >= 0 then IdOf(At(t, key, d - n)) else HeaderSlot
  }

  /** A slot with the child pointer in the direction of `key` set to `c`. */
  function Linked<V>(s: Slot<V>, key: string, c: nat): Slot<V>
  {
    if Less(key, s.key) then s.(left := c) else s.(right := c)
  }

  // ---------------------------------------------------------------------------
  // Lemmas about the arena

  lemma {:induction false} ReprBounds<V>(nodes: seq<Slot<V>>, t: Tree<V>)
    requires Repr(nodes, t)
    ensures forall i :: i in Ids(t) ==> 2 <= i < |nodes|
  {
    if t.Node? {
      ReprBounds(nodes, t.left);
      ReprBounds(nodes, t.right);
    }
  }

  /** A tree is still held when the slots it uses are unchanged. */
  lemma {:induction false} ReprFrame<V>(nodes: seq<Slot<V>>, nodes': seq<Slot<V>>, t: Tree<V>)
    requires Repr(nodes, t)
    requires |nodes| <= |nodes'|
    requires forall i :: i in Ids(t) ==> i < |nodes| && nodes'[i] == nodes[i]
    ensures Repr(nodes', t)
  {
    if t.Node? {
      ReprFrame(nodes, nodes', t.left);
      ReprFrame(nodes, nodes', t.right);
    }
  }

  /** Rewriting slots inside the subtree at depth `k` so that they hold `s`,
      which sits in the same slot, leaves the whole new tree held. */
  lemma {:induction false} ReprInPlace<V>(nodes: seq<Slot<V>>, nodes': seq<Slot<V>>, t: Tree<V>, key: string, k: nat, s: Tree<V>)
    requires Repr(nodes, t) && UniqueIds(t) && Repr(nodes', s)
    requires IdOf(s) == IdOf(At(t, key, k))
    requires |nodes| <= |nodes'|
    requires forall i :: i in Ids(t) && i !in Ids(At(t, key, k)) ==> i < |nodes| && nodes'[i] == nodes[i]
    ensures Repr(nodes', ReplaceAt(t, key, k, s))
  {
    if k > 0 && t.Node? {
      AtIdsWithin(t, key, k);
      ReprFrame(nodes, nodes', Other(t, key));
      ReprInPlace(nodes, nodes', Next(t, key), key, k - 1, s);
      if k - 1 > 0 && Next(t, key).Node? {
        ReplaceKeepsRoot(Next(t, key), key, k - 1, s);
      }
    }
  }

  /** Relinking the parent of the subtree at depth `k >= 1` to the slot of a new
      subtree `s`, with every slot above `k` otherwise unchanged, leaves the whole
      new tree held. */
  lemma ReprRelink<V>(nodes: seq<Slot<V>>, nodes': seq<Slot<V>>, t: Tree<V>, key: string, k: nat, s: Tree<V>)
    requires Repr(nodes, t) && UniqueIds(t) && Repr(nodes', s)
    requires k >= 1 && At(t, key, k - 1).Node?
    requires IdOf(At(t, key, k - 1)) < |nodes| <= |nodes'|
    requires nodes'[IdOf(At(t, key, k - 1))] == Linked(nodes[IdOf(At(t, key, k - 1))], key, IdOf(s))
    requires forall i :: i in Ids(t) && i !in Ids(At(t, key, k)) && i != IdOf(At(t, key, k - 1)) ==>
      i < |nodes| && nodes'[i] == nodes[i]
    ensures Repr(nodes', ReplaceAt(t, key, k, s))
  {
    RelinkedParent(nodes, nodes', t, key, k, s);
    forall i | i in Ids(t) && i !in Ids(At(t, key, k - 1))
      ensures i < |nodes| && nodes'[i] == nodes[i]
    {
      assert i !in Ids(At(t, key, k)) && i != IdOf(At(t, key, k - 1));
    }
    ReprInPlace(nodes, nodes', t, key, k - 1, SetChild(At(t, key, k - 1), key, s));
    ReplaceSplit(t, key, k - 1, 1, s);
    assert ReplaceAt(t, key, k, s) == ReplaceAt(t, key, k - 1, SetChild(At(t, key, k - 1), key, s));
  }

  /** The parent of the relinked subtree, rewritten in place, is held by the
      new arena, and its old subtree covers the one replaced. */
  lemma RelinkedParent<V>(nodes: seq<Slot<V>>, nodes': seq<Slot<V>>, t: Tree<V>, key: string, k: nat, s: Tree<V>)
    requires Repr(nodes, t) && UniqueIds(t) && Repr(nodes', s)
    requires k >= 1 && At(t, key, k - 1).Node?
    requires IdOf(At(t, key, k - 1)) < |nodes| <= |nodes'|
    requires nodes'[IdOf(At(t, key, k - 1))] == Linked(nodes[IdOf(At(t, key, k - 1))], key, IdOf(s))
    requires forall i :: i in Ids(t) && i !in Ids(At(t, key, k)) && i != IdOf(At(t, key, k - 1)) ==>
      i < |nodes| && nodes'[i] == nodes[i]
    ensures Repr(nodes', SetChild(At(t, key, k - 1), key, s))
    ensures Ids(At(t, key, k)) <= Ids(At(t, key, k - 1)) && IdOf(At(t, key, k - 1)) in Ids(At(t, key, k - 1))
    ensures ReplaceAt(At(t, key, k - 1), key, 1, s) == SetChild(At(t, key, k - 1), key, s)
  {
    var p := At(t, key, k - 1);
    AtNext(t, key, k - 1);
    AtIdsWithin(t, key, k - 1);
    assert p.id in Ids(p);
    ReprAt(nodes, t, key, k - 1);
    AtIdsWithin(p, key, 1);
    ReprFrame(nodes, nodes', Other(p, key));
    ReprSetChild(nodes', p, key, s);
  }

  lemma ReprSetChild<V>(nodes: seq<Slot<V>>, t: Tree<V>, key: string, c: Tree<V>)
    requires t.Node? && Repr(nodes, c) && Repr(nodes, Other(t, key))
    requires 2 <= t.id < |nodes| && nodes[t.id] == SlotOf(SetChild(t, key, c))
    ensures Repr(nodes, SetChild(t, key, c))
  {
  }

  /** The slots of the subtree at depth `k` belong to the child on the path,
      apart from the root's. */
  lemma {:induction false} AtIdsWithin<V>(t: Tree<V>, key: string, k: nat)
    requires UniqueIds(t)
    ensures Ids(At(t, key, k)) <= Ids(t)
    ensures k > 0 && t.Node? ==>
      Ids(At(t, key, k)) <= Ids(Next(t, key)) && Ids(Next(t, key)) !! Ids(Other(t, key)) &&
      t.id !in Ids(Next(t, key)) && t.id !in Ids(Other(t, key)) &&
      UniqueIds(Next(t, key)) && At(t, key, k) == At(Next(t, key), key, k - 1)
  {
    if k > 0 && t.Node? {
      AtIdsWithin(Next(t, key), key, k - 1);
    }
  }

  /** The slots of the nodes above a replaced point keep their places. */
  lemma AboveReplace<V>(t: Tree<V>, key: string, k: nat, s: Tree<V>, j: nat)
    requires j < k && At(t, key, k - 1).Node?
    ensures At(t, key, j).Node? && At(ReplaceAt(t, key, k, s), key, j).Node?
    ensures IdOf(At(ReplaceAt(t, key, k, s), key, j)) == IdOf(At(t, key, j))
    ensures At(ReplaceAt(t, key, k, s), key, j).color == At(t, key, j).color
    ensures At(ReplaceAt(t, key, k, s), key, j).key == At(t, key, j).key
  {
    AtReplace(t, key, j, k, s);
    AtPrefixNode(t, key, j, k - 1);
    ReplaceKeepsRoot(At(t, key, j), key, k - j, s);
  }

  /** A replacement at depth `d` moves none of the slots above it. */
  lemma AboveKept<V>(t: Tree<V>, key: string, d: nat, s: Tree<V>, n: nat)
    requires n >= 1 && (d == 0 || At(t, key, d - 1).Node?)
    ensures Above(ReplaceAt(t, key, d, s), key, d, n) == Above(t, key, d, n)
  {
    if d - n >= 0 {
      AboveReplace(t, key, d, s, d - n);
    }
  }

  /** Every node above a real node of the path is real. */
  lemma {:induction false} AtPrefixNode<V>(t: Tree<V>, key: string, j: nat, k: nat)
    requires j <= k && At(t, key, k).Node?
    ensures At(t, key, j).Node?
  {
    if j < k {
      AtNext(t, key, k - 1);
      AtPrefixNode(t, key, j, k - 1);
    }
  }

  /** Blackening the root moves no node. */
  lemma AtBlacken<V>(u: Tree<V>, key: string, j: nat)
    ensures IdOf(At(Blacken(u), key, j)) == IdOf(At(u, key, j))
    ensures j >= 1 ==> At(Blacken(u), key, j) == At(u, key, j)
  {
  }

  /** Rotations keep the slots of a subtree and lift the child on the path. */
  lemma RotIds<V>(s: Tree<V>, key: string)
    requires UniqueIds(s) && s.Node? && Next(s, key).Node?
    ensures UniqueIds(Rot(s, key)) && Ids(Rot(s, key)) == Ids(s)
    ensures IdOf(Rot(s, key)) == Next(s, key).id
  {
  }

  /** Attaching a node in a fresh slot where the path falls off keeps every slot
      used once. */
  lemma {:induction false} IdsAttach<V>(t: Tree<V>, key: string, d: nat, n: Tree<V>)
    requires UniqueIds(t) && At(t, key, d).Leaf? && (d == 0 || At(t, key, d - 1).Node?)
    requires n.Node? && n.left.Leaf? && n.right.Leaf? && n.id !in Ids(t)
    ensures UniqueIds(ReplaceAt(t, key, d, n)) && Ids(ReplaceAt(t, key, d, n)) == Ids(t) + {n.id}
  {
    if d > 0 && t.Node? {
      IdsAttach(Next(t, key), key, d - 1, n);
    }
  }

  // ---------------------------------------------------------------------------
  // What the pointers of `RedBlackTree` see

  /** The subtree at any point of the search path is held too. */
  lemma {:induction false} ReprAt<V>(nodes: seq<Slot<V>>, t: Tree<V>, key: string, j: nat)
    requires Repr(nodes, t) && UniqueIds(t)
    ensures Repr(nodes, At(t, key, j)) && UniqueIds(At(t, key, j))
  {
    if j > 0 && t.Node? {
      ReprAt(nodes, Next(t, key), key, j - 1);
    }
  }

  /** The slot of a held real node, and the colours its child pointers lead to. */
  lemma SlotOfNode<V>(nodes: seq<Slot<V>>, u: Tree<V>)
    requires Repr(nodes, u) && u.Node? && |nodes| >= 1 && nodes[NullSlot].color == Black
    ensures u.id < |nodes| && nodes[u.id] == SlotOf(u)
    ensures IdOf(u.left) < |nodes| && IdOf(u.right) < |nodes|
    ensures nodes[IdOf(u.left)].color == Red <==> IsRed(u.left)
    ensures nodes[IdOf(u.right)].color == Red <==> IsRed(u.right)
  {
  }

  /** The slot a pointer `n` steps above depth `d` of the path leads to. */
  lemma AboveSlot<V>(nodes: seq<Slot<V>>, t: Tree<V>, key: string, d: int, n: nat)
    requires Rooted(nodes, t)
    ensures Above(t, key, d, n) < |nodes|
    ensures d - n < 0 ==> Above(t, key, d, n) == HeaderSlot
    ensures d - n >= 0 && At(t, key, d - n).Leaf? ==> Above(t, key, d, n) == NullSlot
    ensures d - n >= 0 && At(t, key, d - n).Node? ==>
      nodes[Above(t, key, d, n)] == SlotOf(At(t, key, d - n))
    ensures nodes[Above(t, key, d, n)].color == Red <==> d - n >= 0 && IsRed(At(t, key, d - n))
  {
    if d - n >= 0 {
      ReprAt(nodes, t, key, d - n);
    }
  }

  /** The step `insert` takes from the current slot follows the search path. */
  lemma DescendSlot<V>(nodes: seq<Slot<V>>, t: Tree<V>, key: string, d: int)
    requires Rooted(nodes, t) && d >= -1
    requires d >= 0 ==> At(t, key, d).Node?
    ensures Above(t, key, d, 0) < |nodes|
    ensures (if Less(key, nodes[Above(t, key, d, 0)].key) then nodes[Above(t, key, d, 0)].left
             else nodes[Above(t, key, d, 0)].right) == Above(t, key, d + 1, 0)
  {
    AboveSlot(nodes, t, key, d, 0);
    if d >= 0 {
      AtNext(t, key, d);
    } else {
      EmptyLeast(key);
    }
  }

  /** The test `insert` makes on the slot it enters is `TwoRed` of the subtree there. */
  lemma TwoRedSlot<V>(nodes: seq<Slot<V>>, t: Tree<V>, key: string, e: nat)
    requires Rooted(nodes, t)
    ensures Above(t, key, e, 0) < |nodes|
    ensures nodes[Above(t, key, e, 0)].left < |nodes| && nodes[Above(t, key, e, 0)].right < |nodes|
    ensures (nodes[nodes[Above(t, key, e, 0)].left].color == Red &&
             nodes[nodes[Above(t, key, e, 0)].right].color == Red) <==> TwoRed(At(t, key, e))
  {
    AboveSlot(nodes, t, key, e, 0);
    ReprAt(nodes, t, key, e);
    if At(t, key, e).Node? {
      SlotOfNode(nodes, At(t, key, e));
    }
  }

  /** The slots of a node and its child on the path below a replaced point. */
  lemma GrandSlots<V>(nodes: seq<Slot<V>>, t: Tree<V>, key: string, k: nat, w: Tree<V>)
    requires Rooted(nodes, ReplaceAt(t, key, k, w)) && w.Node? && Next(w, key).Node?
    requires k == 0 || At(t, key, k - 1).Node?
    ensures w.id < |nodes| && nodes[w.id] == SlotOf(w)
    ensures Next(w, key).id < |nodes| && nodes[Next(w, key).id] == SlotOf(Next(w, key))
  {
    AtWithin(t, key, k, 0, w);
    ReprAt(nodes, ReplaceAt(t, key, k, w), key, k);
  }

  // ---------------------------------------------------------------------------
  // The arena updates of `reorient`, `rotate` and `insert`

  /** Setting the key of nullNode, as `insert` does, keeps the tree held. */
  lemma RootedNullKey<V>(nodes: seq<Slot<V>>, t: Tree<V>, key: string)
    requires Rooted(nodes, t)
    ensures Rooted(nodes[NullSlot := nodes[NullSlot].(key := key)], t)
  {
    ReprBounds(nodes, t);
    ReprFrame(nodes, nodes[NullSlot := nodes[NullSlot].(key := key)], t);
  }

  /** What the loop test of `insert` on the current slot tells: while it holds
      the descent goes on; once it fails, either the search has fallen off the
      tree at nullNode, or the key is stored (or is the header's empty key). */
  lemma LoopTest<V>(nodes: seq<Slot<V>>, t: Tree<V>, key: string, d: int)
    requires Rooted(nodes, t) && d >= -1 && nodes[NullSlot].key == key
    ensures Above(t, key, d, 0) < |nodes|
    ensures nodes[Above(t, key, d, 0)].key != key ==> Continues(t, key, d)
    ensures nodes[Above(t, key, d, 0)].key == key && Above(t, key, d, 0) == NullSlot ==>
      d >= 0 && At(t, key, d).Leaf?
    ensures nodes[Above(t, key, d, 0)].key == key && Above(t, key, d, 0) != NullSlot ==>
      key == "" || key in Contents(t)
  {
    AboveSlot(nodes, t, key, d, 0);
    if d >= 0 {
      ReprAt(nodes, t, key, d);
      if At(t, key, d).Node? && At(t, key, d).key == key {
        FoundOnPath(t, key, d);
      }
    }
  }

  /** The colour flip of `reorient` on the slot `c` and the slots its children
      point at. */
  ghost function FlipSlots<V>(nodes: seq<Slot<V>>, c: nat): seq<Slot<V>>
    requires c < |nodes| && nodes[c].left < |nodes| && nodes[c].right < |nodes|
  {
    var n1 := nodes[c := nodes[c].(color := Red)];
    var n2 := n1[n1[c].left := n1[n1[c].left].(color := Black)];
    n2[n2[c].right := n2[n2[c].right].(color := Black)]
  }

  /** Which slots the colour flip changes, and how. */
  lemma FlipSlotsAt<V>(nodes: seq<Slot<V>>, c: nat)
    requires c < |nodes| && nodes[c].left < |nodes| && nodes[c].right < |nodes|
    requires nodes[c].left != c && nodes[c].right != c
    ensures |FlipSlots(nodes, c)| == |nodes|
    ensures FlipSlots(nodes, c)[c] == nodes[c].(color := Red)
    ensures nodes[c].left != nodes[c].right ==>
      FlipSlots(nodes, c)[nodes[c].left] == nodes[nodes[c].left].(color := Black)
    ensures FlipSlots(nodes, c)[nodes[c].right] == nodes[nodes[c].right].(color := Black)
    ensures forall i :: 0 <= i < |nodes| && i != c && i != nodes[c].left && i != nodes[c].right ==>
      FlipSlots(nodes, c)[i] == nodes[i]
  {
  }

  /** Repainting the root slot of a held subtree holds the repainted subtree. */
  lemma ReprRecolor<V>(nodes: seq<Slot<V>>, nodes': seq<Slot<V>>, u: Tree<V>, color: Color)
    requires Repr(nodes, u) && UniqueIds(u) && u.Node? && u.id < |nodes| <= |nodes'|
    requires nodes'[u.id] == nodes[u.id].(color := color)
    requires forall i :: i in Ids(u) && i != u.id && i < |nodes| ==> nodes'[i] == nodes[i]
    ensures Repr(nodes', u.(color := color))
  {
    ReprBounds(nodes, u);
    forall i | i in Ids(u.left) || i in Ids(u.right)
      ensures i < |nodes| && nodes'[i] == nodes[i]
    {
      assert i in Ids(u) && i != u.id;
    }
    ReprFrame(nodes, nodes', u.left);
    ReprFrame(nodes, nodes', u.right);
  }

  /** The colour flip on the slots holds the flipped subtree and leaves every
      other slot as it was. */
  lemma ReprFlip<V>(nodes: seq<Slot<V>>, c: Tree<V>)
    requires Repr(nodes, c) && UniqueIds(c) && c.Node? && |nodes| >= 1 && nodes[NullSlot].color == Black
    ensures c.id < |nodes| && nodes[c.id].left < |nodes| && nodes[c.id].right < |nodes|
    ensures |FlipSlots(nodes, c.id)| == |nodes| && Repr(FlipSlots(nodes, c.id), Flip(c))
    ensures forall i :: 0 <= i < |nodes| && i !in Ids(c) ==> FlipSlots(nodes, c.id)[i] == nodes[i]
  {
    SlotOfNode(nodes, c);
    ReprBounds(nodes, c);
    var l := IdOf(c.left);
    var r := IdOf(c.right);
    assert l != c.id && r != c.id;
    assert l != r || l == NullSlot;
    FlipSlotsAt(nodes, c.id);
    var nodes' := FlipSlots(nodes, c.id);
    assert Ids(c.left) <= Ids(c) && Ids(c.right) <= Ids(c);
    if c.left.Node? {
      forall i | i in Ids(c.left) && i != c.left.id && i < |nodes|
        ensures nodes'[i] == nodes[i]
      {
        assert i in Ids(c) && i != c.id && i != r;
      }
      ReprRecolor(nodes, nodes', c.left, Black);
    }
    if c.right.Node? {
      forall i | i in Ids(c.right) && i != c.right.id && i < |nodes|
        ensures nodes'[i] == nodes[i]
      {
        assert i in Ids(c) && i != c.id && i != l;
      }
      ReprRecolor(nodes, nodes', c.right, Black);
    }
    assert nodes'[c.id] == SlotOf(Flip(c));
    forall i | 0 <= i < |nodes| && i !in Ids(c)
      ensures nodes'[i] == nodes[i]
    {
      if i == l || i == r {
        assert i == NullSlot && nodes[i].color == Black;
      }
    }
  }

  /** The colour flip on the slots holds the flipped tree. */
  lemma RootedFlip<V>(nodes: seq<Slot<V>>, t: Tree<V>, key: string, d: nat)
    requires Rooted(nodes, t) && At(t, key, d).Node?
    ensures At(t, key, d).id < |nodes|
    ensures nodes[At(t, key, d).id].left < |nodes| && nodes[At(t, key, d).id].right < |nodes|
    ensures Rooted(FlipSlots(nodes, At(t, key, d).id), ReplaceAt(t, key, d, Flip(At(t, key, d))))
  {
    var c := At(t, key, d);
    ReprAt(nodes, t, key, d);
    ReprFlip(nodes, c);
    var nodes' := FlipSlots(nodes, c.id);
    var x := Flip(c);
    AtIdsWithin(t, key, d);
    ReprBounds(nodes, t);
    ReprInPlace(nodes, nodes', t, key, d, x);
    IdsReplace(t, key, d, x);
    if d > 0 {
      AtPrefixNode(t, key, 0, d);
      ReplaceKeepsRoot(t, key, d, x);
    }
  }

  /** Repainting the root slot of the subtree at depth `k` holds the repainted tree. */
  lemma RootedPaint<V>(nodes: seq<Slot<V>>, t: Tree<V>, key: string, k: nat, s: Tree<V>, color: Color)
    requires Rooted(nodes, ReplaceAt(t, key, k, s)) && s.Node?
    requires k == 0 || At(t, key, k - 1).Node?
    ensures s.id < |nodes|
    ensures Rooted(nodes[s.id := nodes[s.id].(color := color)], ReplaceAt(t, key, k, s.(color := color)))
  {
    var u := ReplaceAt(t, key, k, s);
    AtWithin(t, key, k, 0, s);
    ReprAt(nodes, u, key, k);
    ReprBounds(nodes, u);
    AtIdsWithin(u, key, k);
    assert s.id in Ids(s);
    var nodes' := nodes[s.id := nodes[s.id].(color := color)];
    var s' := s.(color := color);
    forall i | i in Ids(s.left) || i in Ids(s.right) || (i in Ids(u) && i !in Ids(s))
      ensures i < |nodes| && nodes'[i] == nodes[i]
    {
      assert i in Ids(u) && i != s.id;
    }
    ReprFrame(nodes, nodes', s.left);
    ReprFrame(nodes, nodes', s.right);
    ReprInPlace(nodes, nodes', u, key, k, s');
    var t' := ReplaceAt(t, key, k, s');
    ReplaceAbove(t, key, k, k, s, s');
    assert Repr(nodes', t');
    RepaintIds(t, key, k, s, color);
  }

  /** Repainting the subtree at depth `k` changes neither which slots the
      tree uses nor its root slot. */
  lemma RepaintIds<V>(t: Tree<V>, key: string, k: nat, s: Tree<V>, color: Color)
    requires UniqueIds(ReplaceAt(t, key, k, s)) && UniqueIds(s) && s.Node?
    requires k == 0 || At(t, key, k - 1).Node?
    ensures UniqueIds(ReplaceAt(t, key, k, s.(color := color)))
    ensures IdOf(ReplaceAt(t, key, k, s.(color := color))) == IdOf(ReplaceAt(t, key, k, s))
  {
    var u := ReplaceAt(t, key, k, s);
    var s' := s.(color := color);
    AtWithin(t, key, k, 0, s);
    assert UniqueIds(s') && Ids(s') == Ids(s);
    IdsReplace(u, key, k, s');
    ReplaceAbove(t, key, k, k, s, s');
    if k > 0 {
      AtPrefixNode(t, key, 0, k - 1);
      ReplaceKeepsRoot(t, key, k, s);
      ReplaceKeepsRoot(t, key, k, s');
    }
  }

  /** Relinking the slot above depth `k + 1` (the header when `k` is -1) to a
      subtree that reuses the slots of the one there holds the new tree. */
  lemma RootedRelink<V>(nodes: seq<Slot<V>>, nodes': seq<Slot<V>>, t: Tree<V>, key: string, k: int, s: Tree<V>)
    requires Rooted(nodes, t) && -1 <= k && At(t, key, k + 1).Node?
    requires Repr(nodes', s) && UniqueIds(s) && Ids(s) == Ids(At(t, key, k + 1))
    requires |nodes'| == |nodes| && Above(t, key, k, 0) < |nodes|
    requires nodes'[Above(t, key, k, 0)] == Linked(nodes[Above(t, key, k, 0)], key, IdOf(s))
    requires forall i :: 0 <= i < |nodes| && i != Above(t, key, k, 0) && i !in Ids(At(t, key, k + 1)) ==>
      nodes'[i] == nodes[i]
    ensures Rooted(nodes', ReplaceAt(t, key, k + 1, s))
  {
    IdsReplace(t, key, k + 1, s);
    ReprBounds(nodes, t);
    AtIdsWithin(t, key, k + 1);
    if k == -1 {
      EmptyLeast(key);
    } else {
      AtPrefixNode(t, key, 0, k + 1);
      AtPrefixNode(t, key, k, k + 1);
      AtIdsWithin(t, key, k);
      assert Above(t, key, k, 0) in Ids(At(t, key, k));
      ReprRelink(nodes, nodes', t, key, k + 1, s);
      ReplaceKeepsRoot(t, key, k + 1, s);
    }
  }

  /** Attaching a node stored in a fresh slot where the path falls off holds the
      tree with the node attached. */
  lemma RootedAttach<V>(nodes: seq<Slot<V>>, t: Tree<V>, key: string, d: nat, n: Tree<V>)
    requires Rooted(nodes, t) && At(t, key, d).Leaf? && (d >= 1 ==> At(t, key, d - 1).Node?)
    requires n.Node? && n.left.Leaf? && n.right.Leaf? && n.id == |nodes|
    ensures Above(t, key, d, 1) < |nodes|
    ensures var nodes1 := nodes + [SlotOf(n)];
      Rooted(nodes1[Above(t, key, d, 1) := Linked(nodes1[Above(t, key, d, 1)], key, n.id)],
             ReplaceAt(t, key, d, n))
  {
    AboveSlot(nodes, t, key, d, 1);
    ReprBounds(nodes, t);
    var nodes1 := nodes + [SlotOf(n)];
    var p := Above(t, key, d, 1);
    var nodes' := nodes1[p := Linked(nodes1[p], key, n.id)];
    IdsAttach(t, key, d, n);
    assert Repr(nodes', n);
    if d == 0 {
      EmptyLeast(key);
    } else {
      ReprFrame(nodes, nodes1, t);
      AtPrefixNode(t, key, 0, d - 1);
      ReprRelink(nodes1, nodes', t, key, d, n);
      ReplaceKeepsRoot(t, key, d, n);
    }
  }

  // ---------------------------------------------------------------------------
  // The steps of `reorient` read on the tree

  /** Seen from a replacement `g` at depth `k`, its child on the path is at
      depth `k + 1`, and replacing that is replacing the child inside `g`. */
  lemma ChildOfReplaced<V>(t: Tree<V>, key: string, k: nat, g: Tree<V>, z: Tree<V>)
    requires g.Node? && (k == 0 || At(t, key, k - 1).Node?)
    ensures At(ReplaceAt(t, key, k, g), key, k) == g
    ensures At(ReplaceAt(t, key, k, g), key, k + 1) == Next(g, key)
    ensures ReplaceAt(ReplaceAt(t, key, k, g), key, k + 1, z) == ReplaceAt(t, key, k, SetChild(g, key, z))
  {
    AtWithin(t, key, k, 1, g);
    ReplaceWithin(t, key, k, 1, g, z);
  }

  /** Replacing a replacement at the same depth. */
  lemma ReplaceReplaced<V>(t: Tree<V>, key: string, k: nat, g: Tree<V>, z: Tree<V>)
    requires k == 0 || At(t, key, k - 1).Node?
    ensures At(ReplaceAt(t, key, k, g), key, k) == g
    ensures ReplaceAt(ReplaceAt(t, key, k, g), key, k, z) == ReplaceAt(t, key, k, z)
    ensures k >= 1 ==> Above(ReplaceAt(t, key, k, g), key, k - 1, 0) == Above(t, key, k - 1, 0)
  {
    AtWithin(t, key, k, 0, g);
    ReplaceAbove(t, key, k, k, g, z);
    if k >= 1 {
      AboveReplace(t, key, k, g, k - 1);
    }
  }

  /** Without a rotation `reorient` moves no node on the path down to the
      flipped one. */
  lemma AboveReoriented<V>(t: Tree<V>, key: string, d: nat, n: nat)
    requires IsBlack(t) && At(t, key, d).Node? && !(d >= 1 && IsRed(At(t, key, d - 1)))
    ensures Above(Reoriented(t, key, d), key, d, n) == Above(t, key, d, n)
  {
    var x := Flip(At(t, key, d));
    if d - n >= 0 {
      AtBlacken(ReplaceAt(t, key, d, x), key, d - n);
      if n == 0 {
        if d > 0 {
          AtPrefixNode(t, key, d - 1, d);
        }
        AtWithin(t, key, d, 0, x);
      } else {
        AtPrefixNode(t, key, d - 1, d);
        AboveReplace(t, key, d, x, d - n);
      }
    }
  }
}
