/**
  The top-down red-black tree: string keys with attached data, a header node
  whose right child is the root, a shared black nullNode, and an insertion that
  flips colours and rotates on the way down so that no repair pass back up the
  tree is needed. The object state is an arena of node slots plus the four
  pointers `current`, `parent`, `grand` and `great` that `insert` and `reorient`
  share; the ghost field `tree` is the abstract tree the arena holds.
*/
module RedBlack {
  import opened Optional
  import opened LexOrder
  import opened RedBlackTrees
  import opened RedBlackPaths
  import opened RedBlackOrder
  import opened RedBlackBalance
  import opened RedBlackArena

  /** The traversal output format: every key followed by one space. */
  function Spaced(keys: seq<string>): (r: string)
    ensures keys == [] ==> r == ""
  {
    if keys == [] then "" else keys[0] + " " + Spaced(keys[1..])
  }

  /** Spacing a concatenation is concatenating the spaced parts. */
  lemma {:induction false} SpacedConcat(a: seq<string>, b: seq<string>)
    ensures Spaced(a + b) == Spaced(a) + Spaced(b)
  {
    if a == [] {
      assert a + b == b;
    } else {
      assert (a + b)[0] == a[0] && (a + b)[1..] == a[1..] + b;
      SpacedConcat(a[1..], b);
    }
  }

  /** One key, spaced. */
  lemma SpacedSingle(k: string)
    ensures Spaced([k]) == k + " "
  {
    assert [k][1..] == [];
  }

  /** Spacing the keys of a node and its subtrees in preorder. */
  lemma SpacedPre(k: string, a: seq<string>, b: seq<string>)
    ensures Spaced([k] + a + b) == k + " " + Spaced(a) + Spaced(b)
  {
    SpacedConcat([k] + a, b);
    SpacedConcat([k], a);
    SpacedSingle(k);
  }

  /** Spacing the keys of a node and its subtrees in inorder. */
  lemma SpacedIn(k: string, a: seq<string>, b: seq<string>)
    ensures Spaced(a + [k] + b) == Spaced(a) + k + " " + Spaced(b)
  {
    SpacedConcat(a + [k], b);
    SpacedConcat(a, [k]);
    SpacedSingle(k);
    assert Spaced(a) + (k + " ") == Spaced(a) + k + " ";
  }

  /** Spacing the keys of a node and its subtrees in postorder. */
  lemma SpacedPost(k: string, a: seq<string>, b: seq<string>)
    ensures Spaced(a + b + [k]) == Spaced(a) + Spaced(b) + k + " "
  {
    SpacedConcat(a + b, [k]);
    SpacedConcat(a, b);
    SpacedSingle(k);
    assert Spaced(a) + Spaced(b) + (k + " ") == Spaced(a) + Spaced(b) + k + " ";
  }

  class RedBlackTree<V> {
    /** The node objects: slot 0 is nullNode, slot 1 the header. */
    var nodes: seq<Slot<V>>
    var current: nat
    var parent: nat
    var grand: nat
    var great: nat
    /** The tree hanging below the header. */
    ghost var tree: Tree<V>

    ghost predicate Valid()
      reads this
    {
      Rooted(nodes, tree) && IsRedBlack(tree) && Ordered(tree)
    }

    /** An empty tree: nullNode, black and pointing at itself, and a header with
        key "" pointing at nullNode on both sides. */
    constructor ()
      ensures Valid() && tree == Leaf && Contents(tree) == map[]
    {
      nodes := [Slot("", None, NullSlot, NullSlot, Black), Slot("", None, NullSlot, NullSlot, Black)];
      current, parent, grand, great := NullSlot, NullSlot, NullSlot, NullSlot;
      tree := Leaf;
    }

    // -------------------------------------------------------------------------
    // Lookup and traversals

    /** The data stored under `key`, if any. */
    method Find(key: string) returns (r: Option<V>)
      requires Valid()
      ensures r == if key in Contents(tree) then Some(Contents(tree)[key]) else None
    {
      if nodes[HeaderSlot].right == NullSlot {
        return None;
      }
      r := FindFrom(nodes[HeaderSlot].right, key, tree);
    }

    /** The search from the slot of the subtree `t`. */
    method FindFrom(node: nat, key: string, ghost t: Tree<V>) returns (r: Option<V>)
      requires Repr(nodes, t) && Ordered(t) && node == IdOf(t)
      ensures r == if key in Contents(t) then Some(Contents(t)[key]) else None
      decreases t
    {
      if node == NullSlot {
        return None;
      }
      SearchStep(t, key);
      if key == nodes[node].key {
        r := nodes[node].data;
      } else if Less(key, nodes[node].key) {
        r := FindFrom(nodes[node].left, key, t.left);
      } else {
        r := FindFrom(nodes[node].right, key, t.right);
      }
    }

    /** The keys in preorder, each followed by a space. */
    method GetPreorder() returns (s: string)
      requires Valid()
      ensures s == Spaced(Preorder(tree))
    {
      if nodes[HeaderSlot].right == NullSlot {
        return "";
      }
      s := PreorderFrom(nodes[HeaderSlot].right, tree);
    }

    method PreorderFrom(node: nat, ghost t: Tree<V>) returns (s: string)
      requires Repr(nodes, t) && node == IdOf(t)
      ensures s == Spaced(Preorder(t))
      decreases t
    {
      s := "";
      if node != NullSlot {
        s := s + nodes[node].key + " ";
        var l := PreorderFrom(nodes[node].left, t.left);
        s := s + l;
        var r := PreorderFrom(nodes[node].right, t.right);
        s := s + r;
        SpacedPre(t.key, Preorder(t.left), Preorder(t.right));
      }
    }

    /** The keys in in-order (ascending), each followed by a space. */
    method GetInorder() returns (s: string)
      requires Valid()
      ensures s == Spaced(Inorder(tree))
    {
      if nodes[HeaderSlot].right == NullSlot {
        return "";
      }
      s := InorderFrom(nodes[HeaderSlot].right, tree);
    }

    method InorderFrom(node: nat, ghost t: Tree<V>) returns (s: string)
      requires Repr(nodes, t) && node == IdOf(t)
      ensures s == Spaced(Inorder(t))
      decreases t
    {
      s := "";
      if node != NullSlot {
        var l := InorderFrom(nodes[node].left, t.left);
        s := s + l;
        s := s + nodes[node].key + " ";
        var r := InorderFrom(nodes[node].right, t.right);
        s := s + r;
        SpacedIn(t.key, Inorder(t.left), Inorder(t.right));
      }
    }

    /** The keys in postorder, each followed by a space. */
    method GetPostorder() returns (s: string)
      requires Valid()
      ensures s == Spaced(Postorder(tree))
    {
      if nodes[HeaderSlot].right == NullSlot {
        return "";
      }
      s := PostorderFrom(nodes[HeaderSlot].right, tree);
    }

    method PostorderFrom(node: nat, ghost t: Tree<V>) returns (s: string)
      requires Repr(nodes, t) && node == IdOf(t)
      ensures s == Spaced(Postorder(t))
      decreases t
    {
      s := "";
      if node != NullSlot {
        var l := PostorderFrom(nodes[node].left, t.left);
        s := s + l;
        var r := PostorderFrom(nodes[node].right, t.right);
        s := s + r;
        s := s + nodes[node].key + " ";
        SpacedPost(t.key, Postorder(t.left), Postorder(t.right));
      }
    }

    // -------------------------------------------------------------------------
    // Rotations

    /** Single right rotation at the slot of `s`; returns the slot of the new
        subtree root. Only the two slots involved change. */
    method RotateRight(node: nat, ghost s: Tree<V>) returns (child: nat)
      requires Repr(nodes, s) && UniqueIds(s) && s.Node? && s.left.Node? && node == s.id
      modifies this`nodes
      ensures child == s.left.id && |nodes| == |old(nodes)|
      ensures Repr(nodes, RotR(s))
      ensures forall i :: 0 <= i < |nodes| && i != node && i != child ==> nodes[i] == old(nodes)[i]
    {
      RotRFrame(nodes, s);
      child := nodes[node].left;
      nodes := nodes[node := nodes[node].(left := nodes[child].right)];
      nodes := nodes[child := nodes[child].(right := node)];
    }

    /** Single left rotation, the mirror image of `RotateRight`. */
    method RotateLeft(node: nat, ghost s: Tree<V>) returns (child: nat)
      requires Repr(nodes, s) && UniqueIds(s) && s.Node? && s.right.Node? && node == s.id
      modifies this`nodes
      ensures child == s.right.id && |nodes| == |old(nodes)|
      ensures Repr(nodes, RotL(s))
      ensures forall i :: 0 <= i < |nodes| && i != node && i != child ==> nodes[i] == old(nodes)[i]
    {
      RotLFrame(nodes, s);
      child := nodes[node].right;
      nodes := nodes[node := nodes[node].(right := nodes[child].left)];
      nodes := nodes[child := nodes[child].(left := node)];
    }

    /** The rotation at the child, in the direction of `key`, of `theParent`,
        which is the node at depth `k` of the path (the header when `k` is -1);
        the parent is relinked to the new subtree root, whose slot is returned. */
    method Rotate(key: string, theParent: nat, ghost t: Tree<V>, ghost k: int) returns (r: nat)
      requires Rooted(nodes, t) && -1 <= k && theParent == Above(t, key, k, 0)
      requires At(t, key, k + 1).Node? && Next(At(t, key, k + 1), key).Node?
      modifies this`nodes
      ensures Rooted(nodes, ReplaceAt(t, key, k + 1, Rot(At(t, key, k + 1), key)))
      ensures r == IdOf(Rot(At(t, key, k + 1), key))
      ensures nodes[NullSlot].key == old(nodes[NullSlot].key)
    {
      ghost var s := At(t, key, k + 1);
      RotateSetup(nodes, t, key, k);
      if Less(key, nodes[theParent].key) {
        var top := RotateAt(key, nodes[theParent].left, s);
        ghost var mid := nodes;
        nodes := nodes[theParent := nodes[theParent].(left := top)];
        r := nodes[theParent].left;
        RotateRelink(old(nodes), mid, nodes, t, key, k);
      } else {
        var top := RotateAt(key, nodes[theParent].right, s);
        ghost var mid := nodes;
        nodes := nodes[theParent := nodes[theParent].(right := top)];
        r := nodes[theParent].right;
        RotateRelink(old(nodes), mid, nodes, t, key, k);
      }
    }

    /** The single rotation at slot `c` that lifts the child the search for
        `key` goes to: a right rotation when that is the left child. */
    method RotateAt(key: string, c: nat, ghost s: Tree<V>) returns (top: nat)
      requires Repr(nodes, s) && UniqueIds(s) && s.Node? && Next(s, key).Node? && c == s.id
      modifies this`nodes
      ensures top == Next(s, key).id && |nodes| == |old(nodes)|
      ensures Repr(nodes, Rot(s, key))
      ensures forall i :: 0 <= i < |nodes| && i != s.id && i != Next(s, key).id ==> nodes[i] == old(nodes)[i]
    {
      if Less(key, nodes[c].key) {
        top := RotateRight(c, s);
      } else {
        top := RotateLeft(c, s);
      }
    }

    // -------------------------------------------------------------------------
    // Reorientation

    /** The first part of the red-parent case of `reorient`: the grandparent
        turns red, and a zig-zag is straightened by a rotation at the parent,
        after which `parent` points at the lifted node. */
    method Straighten(key: string, ghost t: Tree<V>, ghost d: nat)
      requires d >= 2 && At(t, key, d).Node? && (d - 2 == 0 || At(t, key, d - 3).Node?)
      requires Rooted(nodes, ReplaceAt(t, key, d - 2, FlippedBelow(t, key, d)))
      requires grand == Above(t, key, d, 2) && parent == Above(t, key, d, 1)
      modifies this`nodes, this`parent
      ensures Rooted(nodes, ReplaceAt(t, key, d - 2, Straightened(t, key, d)))
      ensures parent == Next(Straightened(t, key, d), key).id
      ensures nodes[NullSlot].key == old(nodes[NullSlot].key)
    {
      ghost var g1 := FlippedBelow(t, key, d).(color := Red);
      PaintGrand(key, t, d);
      if Less(key, nodes[grand].key) != Less(key, nodes[parent].key) {
        ChildOfReplaced(t, key, d - 2, g1, Rot(Next(g1, key), key));
        parent := Rotate(key, grand, ReplaceAt(t, key, d - 2, g1), d - 2);
      }
    }

    /** The grandparent turns red. */
    method PaintGrand(key: string, ghost t: Tree<V>, ghost d: nat)
      requires d >= 2 && At(t, key, d).Node? && (d - 2 == 0 || At(t, key, d - 3).Node?)
      requires Rooted(nodes, ReplaceAt(t, key, d - 2, FlippedBelow(t, key, d)))
      requires grand == Above(t, key, d, 2)
      modifies this`nodes
      ensures var g1 := FlippedBelow(t, key, d).(color := Red);
        Rooted(nodes, ReplaceAt(t, key, d - 2, g1)) &&
        grand < |nodes| && nodes[grand] == SlotOf(g1) &&
        Next(g1, key).id < |nodes| && nodes[Next(g1, key).id] == SlotOf(Next(g1, key))
      ensures nodes[NullSlot].key == old(nodes[NullSlot].key)
    {
      ghost var w := FlippedBelow(t, key, d);
      RootedPaint(nodes, t, key, d - 2, w, Red);
      nodes := nodes[grand := nodes[grand].(color := Red)];
      GrandSlots(nodes, t, key, d - 2, w.(color := Red));
    }

    /** Stores `data` under `key` unless the key is stored already (or is the
        empty key the header holds). On the way down every node with two red
        children is flipped and reoriented; a new black node is attached where
        the search falls off the tree and reoriented too. */
    method Insert(key: string, data: V)
      requires Valid()
      modifies this
      ensures Valid()
      ensures Contents(tree) ==
        if key == "" || key in old(Contents(tree)) then old(Contents(tree))
        else old(Contents(tree))[key := data]
    {
      ghost var t := tree;
      current, parent, grand := HeaderSlot, HeaderSlot, HeaderSlot;
      RootedNullKey(nodes, t, key);
      nodes := nodes[NullSlot := nodes[NullSlot].(key := key)];
      ghost var d: int := -1;
      ghost var phase: nat := 0;

      while nodes[current].key != key
        invariant Rooted(nodes, t) && Descent(t, key, d, phase)
        invariant Ordered(t) && Contents(t) == old(Contents(tree))
        invariant nodes[NullSlot].key == key && (d >= 0 ==> key != "")
        invariant Pointers(t, key, d, phase, current, parent, grand, great) && current < |nodes|
        decreases Remaining(t, key, d), if phase == 1 then 0 else 1
      {
        t, d, phase := Descend(key, t, d, phase);
      }

      LoopTest(nodes, t, key, d);
      if current != NullSlot {
        tree := t;
        return;
      }
      tree := Attach(key, data, t, d, phase);
    }

    /** One turn of the descent loop of `insert`: move the four pointers one
        step down the search path and reorient when the node entered has two
        red children. The descent invariant is kept, and the pair (rest of
        the path, phase is not 1) decreases. */
    method Descend(key: string, ghost t: Tree<V>, ghost d: int, ghost phase: nat)
      returns (ghost t': Tree<V>, ghost d': int, ghost phase': nat)
      requires Rooted(nodes, t) && Descent(t, key, d, phase) && Ordered(t)
      requires nodes[NullSlot].key == key && (d >= 0 ==> key != "")
      requires Pointers(t, key, d, phase, current, parent, grand, great) && current < |nodes|
      requires nodes[current].key != key
      modifies this`nodes, this`current, this`parent, this`grand, this`great
      ensures Rooted(nodes, t') && Descent(t', key, d', phase')
      ensures Ordered(t') && Contents(t') == Contents(t)
      ensures nodes[NullSlot].key == key && (d' >= 0 ==> key != "")
      ensures Pointers(t', key, d', phase', current, parent, grand, great) && current < |nodes|
      ensures Remaining(t', key, d') < Remaining(t, key, d) ||
              (Remaining(t', key, d') <= Remaining(t, key, d) && phase' == 1 && phase != 1)
    {
      StepSetup(nodes, t, key, d, phase, current, parent, grand, great);
      great, grand, parent := grand, parent, current;
      current := if Less(key, nodes[current].key) then nodes[current].left else nodes[current].right;
      if nodes[nodes[current].left].color == Red && nodes[nodes[current].right].color == Red {
        t', d', phase' := ReorientOnDescent(key, t, d, phase);
      } else {
        StepPlain(t, key, d, phase);
        t', d', phase' := t, d + 1, NextPhase(phase);
      }
    }

    /** The end of `insert` when the search reached nullNode: a new black node
        with the pair takes the place of that leaf, linked from `parent`, and is
        reoriented, which makes it red (or rotates it into place) and keeps the
        root black. */
    method Attach(key: string, data: V, ghost t: Tree<V>, ghost d: int, ghost phase: nat)
      returns (ghost t': Tree<V>)
      requires Rooted(nodes, t) && Descent(t, key, d, phase) && Ordered(t)
      requires nodes[NullSlot].key == key && (d >= 0 ==> key != "")
      requires Pointers(t, key, d, phase, current, parent, grand, great)
      requires d >= 0 && At(t, key, d).Leaf?
      modifies this`nodes, this`current, this`parent
      ensures Rooted(nodes, t') && IsRedBlack(t') && Ordered(t')
      ensures key != "" && key !in Contents(t) && Contents(t') == Contents(t)[key := data]
    {
      ghost var n := Node(|nodes|, Black, key, data, Leaf, Leaf);
      AttachSetup(t, key, d, n);
      RootedAttach(nodes, t, key, d, n);
      current := |nodes|;
      nodes := nodes + [Slot(key, Some(data), NullSlot, NullSlot, Black)];
      if Less(key, nodes[parent].key) {
        nodes := nodes[parent := nodes[parent].(left := current)];
      } else {
        nodes := nodes[parent := nodes[parent].(right := current)];
      }
      ghost var t1 := ReplaceAt(t, key, d, n);
      AttachRepair(t, key, d, n);
      InsertAtLeaf(t, key, d, n);
      Reorient(key, t1, d);
      t' := Reoriented(t1, key, d);
    }

    /** The call of `reorient` in the descent of `insert`, once the node
        entered, one step below the node `d` steps down, has two red children:
        the stored pairs stay, and the descent goes on either from the flipped
        node or, after a rotation, from the lifted node one step higher. */
    method ReorientOnDescent(key: string, ghost t: Tree<V>, ghost d: int, ghost phase: nat)
      returns (ghost t': Tree<V>, ghost d': int, ghost phase': nat)
      requires Rooted(nodes, t) && Descent(t, key, d, phase) && Continues(t, key, d) && Ordered(t)
      requires TwoRed(At(t, key, d + 1))
      requires Pointers(t, key, d + 1, NextPhase(phase), current, parent, grand, great)
      modifies this`nodes, this`current, this`parent
      ensures Rooted(nodes, t') && Descent(t', key, d', phase')
      ensures Ordered(t') && Contents(t') == Contents(t)
      ensures nodes[NullSlot].key == old(nodes[NullSlot].key)
      ensures Pointers(t', key, d', phase', current, parent, grand, great) && current < |nodes|
      ensures Remaining(t', key, d') < Remaining(t, key, d) ||
              (Remaining(t', key, d') <= Remaining(t, key, d) && phase' == 1 && phase != 1)
    {
      FlipSetup(t, key, d, phase, current, parent, grand, great);
      t' := Reoriented(t, key, d + 1);
      Reorient(key, t, d + 1);
      ghost var rotated := d >= 0 && IsRed(At(t, key, d));
      d', phase' := if rotated then d - 1 else d + 1, if rotated then 1 else 0;
      DescentResumed(nodes, t, key, d, phase, current, parent, grand, great);
    }

    /** The rotation part of `reorient`, once the current node `d` steps down
        has been flipped and its parent is red: the grandparent turns red, a
        zig-zag is straightened by a rotation at the parent, a rotation at the
        grandparent lifts the middle node, which turns black; `current` and
        `parent` both point at it. */
    method RotateAtGrand(key: string, ghost t: Tree<V>, ghost d: nat)
      requires IsBlack(t) && At(t, key, d).Node? && d >= 1 && IsRed(At(t, key, d - 1))
      requires Rooted(nodes, ReplaceAt(t, key, d, Flip(At(t, key, d))))
      requires parent == Above(t, key, d, 1) && grand == Above(t, key, d, 2) && great == Above(t, key, d, 3)
      modifies this`nodes, this`current, this`parent
      ensures d >= 2
      ensures Rooted(nodes, ReplaceAt(t, key, d - 2, Restructure(FlippedBelow(t, key, d), key)))
      ensures current == parent == Above(Reoriented(t, key, d), key, d - 2, 0)
      ensures nodes[NullSlot].key == old(nodes[NullSlot].key)
    {
      RedParent(nodes, t, key, d);
      Straighten(key, t, d);
      LiftAtGreat(key, t, d);
    }

    /** The second part of the red-parent case of `reorient`: the rotation at
        the grandparent, below `great`, lifts the node `parent` points at, which
        turns black. */
    method LiftAtGreat(key: string, ghost t: Tree<V>, ghost d: nat)
      requires IsBlack(t) && At(t, key, d).Node? && d >= 2 && IsRed(At(t, key, d - 1))
      requires Rooted(nodes, ReplaceAt(t, key, d - 2, Straightened(t, key, d)))
      requires great == Above(t, key, d, 3) && parent == Next(Straightened(t, key, d), key).id
      modifies this`nodes, this`current
      ensures Rooted(nodes, ReplaceAt(t, key, d - 2, Restructure(FlippedBelow(t, key, d), key)))
      ensures current == parent == Above(Reoriented(t, key, d), key, d - 2, 0)
      ensures nodes[NullSlot].key == old(nodes[NullSlot].key)
    {
      ghost var g2 := Straightened(t, key, d);
      LiftSetup(t, key, d, g2);
      current := Rotate(key, great, ReplaceAt(t, key, d - 2, g2), d - 3);
      LiftedSlots(nodes, t, key, d, g2);
      nodes := nodes[current := nodes[current].(color := Black)];
    }

    /** The colour flip at the current node, `d` steps down the search path,
        then, when its parent is red, the rotations of `RotateAtGrand`; the root
        is painted black at the end. */
    method Reorient(key: string, ghost t: Tree<V>, ghost d: nat)
      requires Rooted(nodes, t) && IsBlack(t) && At(t, key, d).Node?
      requires current == Above(t, key, d, 0) && parent == Above(t, key, d, 1)
      requires grand == Above(t, key, d, 2) && great == Above(t, key, d, 3)
      modifies this`nodes, this`current, this`parent
      ensures Rooted(nodes, Reoriented(t, key, d))
      ensures nodes[NullSlot].key == old(nodes[NullSlot].key)
      ensures d >= 1 && IsRed(At(t, key, d - 1)) ==>
        d >= 2 && current == parent == Above(Reoriented(t, key, d), key, d - 2, 0)
      ensures !(d >= 1 && IsRed(At(t, key, d - 1))) ==>
        current == old(current) && parent == old(parent)
    {
      ghost var x := Flip(At(t, key, d));
      FlipColors(key, t, d);
      FlipParent(nodes, t, key, d);
      ReorientedTree(t, key, d);
      if nodes[parent].color == Red {
        RotateAtGrand(key, t, d);
        PaintRoot(ReplaceAt(t, key, d - 2, Restructure(FlippedBelow(t, key, d), key)));
      } else {
        PaintRoot(ReplaceAt(t, key, d, x));
      }
    }

    /** The colour flip of `reorient`: the current node turns red, its two
        children black. */
    method FlipColors(key: string, ghost t: Tree<V>, ghost d: nat)
      requires Rooted(nodes, t) && At(t, key, d).Node? && current == Above(t, key, d, 0)
      modifies this`nodes
      ensures Rooted(nodes, ReplaceAt(t, key, d, Flip(At(t, key, d))))
      ensures nodes[NullSlot].key == old(nodes[NullSlot].key)
    {
      RootedFlip(nodes, t, key, d);
      nodes := nodes[current := nodes[current].(color := Red)];
      nodes := nodes[nodes[current].left := nodes[nodes[current].left].(color := Black)];
      nodes := nodes[nodes[current].right := nodes[nodes[current].right].(color := Black)];
      assert nodes == FlipSlots(old(nodes), current);
    }

    /** The root is painted black, the last step of `reorient`. */
    method PaintRoot(ghost u: Tree<V>)
      requires Rooted(nodes, u) && u.Node?
      modifies this`nodes
      ensures Rooted(nodes, Blacken(u))
      ensures nodes[NullSlot].key == old(nodes[NullSlot].key)
    {
      RootPaint(nodes, u, "", 0, u);
      nodes := nodes[nodes[HeaderSlot].right := nodes[nodes[HeaderSlot].right].(color := Black)];
    }
  }

  /** The subtree of the grandparent of the node `d` steps down the path once
      that node has been flipped. */
  ghost function FlippedBelow<V>(t: Tree<V>, key: string, d: nat): (r: Tree<V>)
    requires d >= 2 && At(t, key, d).Node?
    ensures r.Node? && Next(r, key).Node? && Next(Next(r, key), key) == Flip(At(t, key, d))
    ensures r.id == Above(t, key, d, 2) && Next(r, key).id == Above(t, key, d, 1)
  {
    AtNext(t, key, d - 1);
    AtNext(t, key, d - 2);
    var g := At(t, key, d - 2);
    SetChild(g, key, SetChild(Next(g, key), key, Flip(At(t, key, d))))
  }

  /** The grandparent's subtree once it is painted red and a zig-zag below it
      has been straightened by a rotation at its child. */
  ghost function Straightened<V>(t: Tree<V>, key: string, d: nat): (r: Tree<V>)
    requires d >= 2 && At(t, key, d).Node?
    ensures r.Node? && Next(r, key).Node?
  {
    var w := FlippedBelow(t, key, d);
    assert w.Node?;
    var g1 := w.(color := Red);
    if Less(key, g1.key) != Less(key, Next(g1, key).key)
    then SetChild(g1, key, Rot(Next(g1, key), key))
    else g1
  }

  /** Whether the parent of the flipped node is red, read from its slot. */
  lemma FlipParent<V>(nodes: seq<Slot<V>>, t: Tree<V>, key: string, d: nat)
    requires At(t, key, d).Node? && Rooted(nodes, ReplaceAt(t, key, d, Flip(At(t, key, d))))
    ensures d == 0 || At(t, key, d - 1).Node?
    ensures Above(t, key, d, 1) < |nodes|
    ensures nodes[Above(t, key, d, 1)].color == Red <==> d >= 1 && IsRed(At(t, key, d - 1))
  {
    var v := ReplaceAt(t, key, d, Flip(At(t, key, d)));
    AboveSlot(nodes, v, key, d, 1);
    if d >= 1 {
      AtPrefixNode(t, key, d - 1, d);
      AboveReplace(t, key, d, Flip(At(t, key, d)), d - 1);
    }
  }

  /** Below a red parent the flipped node has a grandparent, whose slot and its
      child's hold the flipped tree's subtree there. */
  lemma RedParent<V>(nodes: seq<Slot<V>>, t: Tree<V>, key: string, d: nat)
    requires IsBlack(t) && At(t, key, d).Node? && d >= 1 && IsRed(At(t, key, d - 1))
    requires Rooted(nodes, ReplaceAt(t, key, d, Flip(At(t, key, d))))
    ensures d >= 2 && (d - 2 == 0 || At(t, key, d - 3).Node?)
    ensures FlippedBelow(t, key, d).Node? && Next(FlippedBelow(t, key, d), key).Node?
    ensures Next(Next(FlippedBelow(t, key, d), key), key) == Flip(At(t, key, d))
    ensures FlippedBelow(t, key, d).id == Above(t, key, d, 2)
    ensures Next(FlippedBelow(t, key, d), key).id == Above(t, key, d, 1)
    ensures Rooted(nodes, ReplaceAt(t, key, d - 2, FlippedBelow(t, key, d)))
  {
    ReplaceBelowGrand(t, key, d, Flip(At(t, key, d)));
    if d - 2 > 0 {
      AtPrefixNode(t, key, d - 3, d);
    }
  }

  /** The rotation at the grandparent sees, at depth `d - 2`, the straightened
      subtree `g2`, and `great` is the slot above it. */
  lemma LiftSetup<V>(t: Tree<V>, key: string, d: nat, g2: Tree<V>)
    requires d >= 2 && At(t, key, d).Node? && g2.Node? && Next(g2, key).Node?
    ensures At(ReplaceAt(t, key, d - 2, g2), key, d - 2) == g2
    ensures Above(ReplaceAt(t, key, d - 2, g2), key, d - 3, 0) == Above(t, key, d, 3)
    ensures ReplaceAt(ReplaceAt(t, key, d - 2, g2), key, d - 2, Rot(g2, key)) ==
      ReplaceAt(t, key, d - 2, Rot(g2, key))
  {
    if d - 2 > 0 {
      AtPrefixNode(t, key, d - 3, d);
    }
    ReplaceReplaced(t, key, d - 2, g2, Rot(g2, key));
  }

  /** After the rotation at the grandparent, painting the lifted node black
      completes the restructuring of `Reoriented`; the lifted node is the one at
      depth `d - 2` of the reoriented tree. */
  lemma LiftedSlots<V>(nodes: seq<Slot<V>>, t: Tree<V>, key: string, d: nat, g2: Tree<V>)
    requires IsBlack(t) && At(t, key, d).Node? && d >= 2 && IsRed(At(t, key, d - 1))
    requires g2 == Straightened(t, key, d)
    requires Rooted(nodes, ReplaceAt(t, key, d - 2, Rot(g2, key)))
    ensures IdOf(Rot(g2, key)) == Next(g2, key).id < |nodes|
    ensures Rooted(nodes[Next(g2, key).id := nodes[Next(g2, key).id].(color := Black)],
      ReplaceAt(t, key, d - 2, Restructure(FlippedBelow(t, key, d), key)))
    ensures Next(g2, key).id == Above(Reoriented(t, key, d), key, d - 2, 0)
  {
    var w := FlippedBelow(t, key, d);
    var s := Restructure(w, key);
    AtPrefixNode(t, key, d - 2, d);
    if d - 2 > 0 {
      AtPrefixNode(t, key, d - 3, d);
    }
    RootedPaint(nodes, t, key, d - 2, Rot(g2, key), Black);
    assert Rot(g2, key).(color := Black) == s;
    ReplaceBelowGrand(t, key, d, Flip(At(t, key, d)));
    AtWithin(t, key, d - 2, 0, s);
    AtBlacken(ReplaceAt(t, key, d - 2, s), key, d - 2);
  }

  /** `Reoriented` in the two cases of `reorient`: below a red parent the
      restructured grandparent, otherwise the flipped node, then the root
      blackened. */
  lemma ReorientedTree<V>(t: Tree<V>, key: string, d: nat)
    requires IsBlack(t) && At(t, key, d).Node?
    ensures d >= 1 && IsRed(At(t, key, d - 1)) ==>
      d >= 2 && (d - 2 == 0 || At(t, key, d - 3).Node?) &&
      Reoriented(t, key, d) == Blacken(ReplaceAt(t, key, d - 2, Restructure(FlippedBelow(t, key, d), key)))
    ensures !(d >= 1 && IsRed(At(t, key, d - 1))) ==>
      (d == 0 || At(t, key, d - 1).Node?) &&
      Reoriented(t, key, d) == Blacken(ReplaceAt(t, key, d, Flip(At(t, key, d))))
  {
    if d >= 1 {
      AtPrefixNode(t, key, d - 1, d);
    }
    if d >= 1 && IsRed(At(t, key, d - 1)) {
      assert d >= 2;
      if d - 2 > 0 {
        AtPrefixNode(t, key, d - 3, d);
      }
    }
  }

  /** Where the four pointers of `insert` stand while the current node is `d`
      steps down the search path: `phase` counts the steps since the last
      rotation, which leaves `current` and `parent` both at the lifted node;
      `grand` and `great` catch up over the next steps. */
  ghost predicate Pointers<V>(t: Tree<V>, key: string, d: int, phase: nat,
                              current: nat, parent: nat, grand: nat, great: nat)
  {
    current == Above(t, key, d, 0) &&
    (phase == 1 ==> parent == current) &&
    (phase == 2 ==> parent == grand == Above(t, key, d, 1)) &&
    (phase == 0 || phase == 3 ==> parent == Above(t, key, d, 1) && grand == Above(t, key, d, 2)) &&
    (phase == 0 && d >= 0 ==> great == Above(t, key, d, 3))
  }

  /** A step down shifts the pointers by one node. */
  lemma PointersStep<V>(t: Tree<V>, key: string, d: int, phase: nat,
                        current: nat, parent: nat, grand: nat, great: nat)
    requires Pointers(t, key, d, phase, current, parent, grand, great) && phase < 4
    ensures Pointers(t, key, d + 1, NextPhase(phase), Above(t, key, d + 1, 0), current, parent, grand)
  {
  }

  /** What one turn of the descent loop needs to know about the arena: the
      search goes on from the current slot, the slot it steps into is the next
      one on the path, the pointers shift by one, and the colour test on the
      new slot's children is the two-red test on the tree. */
  lemma StepSetup<V>(nodes: seq<Slot<V>>, t: Tree<V>, key: string, d: int, phase: nat,
                     current: nat, parent: nat, grand: nat, great: nat)
    requires Rooted(nodes, t) && Descent(t, key, d, phase) && nodes[NullSlot].key == key
    requires Pointers(t, key, d, phase, current, parent, grand, great) && current < |nodes|
    requires nodes[current].key != key
    ensures Continues(t, key, d)
    ensures var next := if Less(key, nodes[current].key) then nodes[current].left else nodes[current].right;
      next < |nodes| && nodes[next].left < |nodes| && nodes[next].right < |nodes| &&
      Pointers(t, key, d + 1, NextPhase(phase), next, current, parent, grand) &&
      (nodes[nodes[next].left].color == Red && nodes[nodes[next].right].color == Red <==>
       TwoRed(At(t, key, d + 1)))
  {
    LoopTest(nodes, t, key, d);
    DescendSlot(nodes, t, key, d);
    PointersStep(t, key, d, phase, current, parent, grand, great);
    TwoRedSlot(nodes, t, key, d + 1);
  }

  /** When the node entered has two red children, `reorient` may be called:
      the tree is black-rooted, the node is there, the four pointers are the
      slots above it, and the reoriented tree holds the same pairs in order. */
  lemma FlipSetup<V>(t: Tree<V>, key: string, d: int, phase: nat,
                     current: nat, parent: nat, grand: nat, great: nat)
    requires Descent(t, key, d, phase) && Continues(t, key, d) && TwoRed(At(t, key, d + 1)) && Ordered(t)
    requires Pointers(t, key, d + 1, NextPhase(phase), current, parent, grand, great)
    ensures IsBlack(t) && At(t, key, d + 1).Node?
    ensures current == Above(t, key, d + 1, 0) && parent == Above(t, key, d + 1, 1)
    ensures grand == Above(t, key, d + 1, 2) && great == Above(t, key, d + 1, 3)
    ensures Ordered(Reoriented(t, key, d + 1)) && Contents(Reoriented(t, key, d + 1)) == Contents(t)
  {
    StepFlip(t, key, d, phase);
  }

  /** After the reorientation in the descent, the descent resumes: after a
      rotation from the lifted node one step higher, in phase 1, and otherwise
      from the flipped node, in phase 0, with the pointers unmoved. */
  lemma DescentResumed<V>(nodes: seq<Slot<V>>, t: Tree<V>, key: string, d: int, phase: nat,
                          current: nat, parent: nat, grand: nat, great: nat)
    requires Descent(t, key, d, phase) && Continues(t, key, d) && TwoRed(At(t, key, d + 1))
    requires Rooted(nodes, Reoriented(t, key, d + 1))
    requires d >= 0 && IsRed(At(t, key, d)) ==>
      current == parent == Above(Reoriented(t, key, d + 1), key, d + 1 - 2, 0)
    requires !(d >= 0 && IsRed(At(t, key, d))) ==> Pointers(t, key, d + 1, 0, current, parent, grand, great)
    ensures var rotated := d >= 0 && IsRed(At(t, key, d));
      var d' := if rotated then d - 1 else d + 1;
      var phase' := if rotated then 1 else 0;
      Descent(Reoriented(t, key, d + 1), key, d', phase') &&
      Pointers(Reoriented(t, key, d + 1), key, d', phase', current, parent, grand, great) &&
      current < |nodes| &&
      (Remaining(Reoriented(t, key, d + 1), key, d') < Remaining(t, key, d) ||
       (Remaining(Reoriented(t, key, d + 1), key, d') <= Remaining(t, key, d) && phase' == 1 && phase != 1))
  {
    if d >= 0 && IsRed(At(t, key, d)) {
      DescentLifted(nodes, t, key, d, phase, current, parent, grand, great);
    } else {
      DescentKept(nodes, t, key, d, phase, current, parent, grand, great);
    }
  }

  /** After a reorientation with rotation during the descent, the descent
      resumes from the lifted node one step higher, in phase 1. */
  lemma DescentLifted<V>(nodes: seq<Slot<V>>, t: Tree<V>, key: string, d: int, phase: nat,
                         current: nat, parent: nat, grand: nat, great: nat)
    requires Descent(t, key, d, phase) && Continues(t, key, d) && TwoRed(At(t, key, d + 1))
    requires d >= 0 && IsRed(At(t, key, d))
    requires Rooted(nodes, Reoriented(t, key, d + 1))
    requires current == parent == Above(Reoriented(t, key, d + 1), key, d - 1, 0)
    ensures Descent(Reoriented(t, key, d + 1), key, d - 1, 1) && phase != 1
    ensures Remaining(Reoriented(t, key, d + 1), key, d - 1) <= Remaining(t, key, d)
    ensures Pointers(Reoriented(t, key, d + 1), key, d - 1, 1, current, parent, grand, great)
    ensures current < |nodes|
  {
    StepFlip(t, key, d, phase);
    AboveSlot(nodes, Reoriented(t, key, d + 1), key, d - 1, 0);
  }

  /** After a reorientation without rotation during the descent, the descent
      resumes from the flipped node, in phase 0, with the pointers unmoved. */
  lemma DescentKept<V>(nodes: seq<Slot<V>>, t: Tree<V>, key: string, d: int, phase: nat,
                       current: nat, parent: nat, grand: nat, great: nat)
    requires Descent(t, key, d, phase) && Continues(t, key, d) && TwoRed(At(t, key, d + 1))
    requires !(d >= 0 && IsRed(At(t, key, d)))
    requires Pointers(t, key, d + 1, 0, current, parent, grand, great)
    requires Rooted(nodes, Reoriented(t, key, d + 1))
    ensures Descent(Reoriented(t, key, d + 1), key, d + 1, 0)
    ensures Remaining(Reoriented(t, key, d + 1), key, d + 1) < Remaining(t, key, d)
    ensures Pointers(Reoriented(t, key, d + 1), key, d + 1, 0, current, parent, grand, great)
    ensures current < |nodes|
  {
    StepFlip(t, key, d, phase);
    PointersKept(t, key, d + 1, current, parent, grand, great);
    AboveSlot(nodes, Reoriented(t, key, d + 1), key, d + 1, 0);
  }

  /** A reorientation without rotation moves none of the four pointers' nodes. */
  lemma PointersKept<V>(t: Tree<V>, key: string, e: nat,
                        current: nat, parent: nat, grand: nat, great: nat)
    requires Pointers(t, key, e, 0, current, parent, grand, great)
    requires IsBlack(t) && At(t, key, e).Node? && !(e >= 1 && IsRed(At(t, key, e - 1)))
    ensures Pointers(Reoriented(t, key, e), key, e, 0, current, parent, grand, great)
  {
    AboveReoriented(t, key, e, 0);
    AboveReoriented(t, key, e, 1);
    AboveReoriented(t, key, e, 2);
    AboveReoriented(t, key, e, 3);
  }

  /** Where the descent falls off the tree, the pointers above nullNode are
      the ones above the new node once it is attached there. */
  lemma AttachSetup<V>(t: Tree<V>, key: string, d: nat, n: Tree<V>)
    requires OnPath(t, key, d) && n.Node?
    ensures d >= 1 ==> At(t, key, d - 1).Node?
    ensures At(ReplaceAt(t, key, d, n), key, d) == n
    ensures Above(ReplaceAt(t, key, d, n), key, d, 0) == n.id
    ensures Above(ReplaceAt(t, key, d, n), key, d, 1) == Above(t, key, d, 1)
    ensures Above(ReplaceAt(t, key, d, n), key, d, 2) == Above(t, key, d, 2)
    ensures Above(ReplaceAt(t, key, d, n), key, d, 3) == Above(t, key, d, 3)
  {
    if d >= 1 {
      OnPathPrefix(t, key, d - 1, d);
    }
    AtWithin(t, key, d, 0, n);
    AboveKept(t, key, d, n, 1);
    AboveKept(t, key, d, n, 2);
    AboveKept(t, key, d, n, 3);
  }

  /** Painting the root black, through the header's right pointer. */
  lemma RootPaint<V>(nodes: seq<Slot<V>>, t: Tree<V>, key: string, k: nat, s: Tree<V>)
    requires Rooted(nodes, ReplaceAt(t, key, k, s)) && s.Node? && (k == 0 || At(t, key, k - 1).Node?)
    ensures ReplaceAt(t, key, k, s).Node?
    ensures nodes[HeaderSlot].right == ReplaceAt(t, key, k, s).id < |nodes|
    ensures Rooted(nodes[nodes[HeaderSlot].right := nodes[nodes[HeaderSlot].right].(color := Black)],
      Blacken(ReplaceAt(t, key, k, s)))
  {
    var v := ReplaceAt(t, key, k, s);
    if k > 0 {
      AtPrefixNode(t, key, 0, k - 1);
      ReplaceKeepsRoot(t, key, k, s);
    }
    RootedPaint(nodes, v, key, 0, v, Black);
  }

  /** What `rotate` finds at the parent slot and below it. */
  lemma RotateSetup<V>(nodes: seq<Slot<V>>, t: Tree<V>, key: string, k: int)
    requires Rooted(nodes, t) && -1 <= k
    requires At(t, key, k + 1).Node? && Next(At(t, key, k + 1), key).Node?
    ensures var p := Above(t, key, k, 0); var s := At(t, key, k + 1);
      p < |nodes| && (if Less(key, nodes[p].key) then nodes[p].left else nodes[p].right) == s.id &&
      Repr(nodes, s) && UniqueIds(s) && nodes[s.id] == SlotOf(s) &&
      p !in Ids(s) && NullSlot !in Ids(s) && s.id in Ids(s) && Next(s, key).id in Ids(s) &&
      UniqueIds(Rot(s, key)) && Ids(Rot(s, key)) == Ids(s) && IdOf(Rot(s, key)) == Next(s, key).id &&
      (forall i :: i in Ids(s) ==> i < |nodes|)
  {
    var s := At(t, key, k + 1);
    if k >= 0 {
      AtPrefixNode(t, key, k, k + 1);
      ReprAt(nodes, t, key, k);
      AtIdsWithin(t, key, k);
      assert Above(t, key, k, 0) in Ids(At(t, key, k));
      AtIdsWithin(At(t, key, k), key, 1);
      AtNext(t, key, k);
    }
    AboveSlot(nodes, t, key, k, 0);
    DescendSlot(nodes, t, key, k);
    ReprAt(nodes, t, key, k + 1);
    SlotOfNode(nodes, s);
    RotIds(s, key);
    ReprBounds(nodes, t);
    AtIdsWithin(t, key, k + 1);
    ReprBounds(nodes, s);
  }

  /** The slot updates of `rotate` hold the tree rotated at depth `k + 1`. */
  lemma RotateRelink<V>(nodes: seq<Slot<V>>, mid: seq<Slot<V>>, nodes': seq<Slot<V>>, t: Tree<V>, key: string, k: int)
    requires Rooted(nodes, t) && -1 <= k
    requires At(t, key, k + 1).Node? && Next(At(t, key, k + 1), key).Node?
    requires var p := Above(t, key, k, 0); var s := At(t, key, k + 1);
      p < |nodes| && p !in Ids(s) && NullSlot !in Ids(s) && s.id in Ids(s) && Next(s, key).id in Ids(s) &&
      UniqueIds(Rot(s, key)) && Ids(Rot(s, key)) == Ids(s) &&
      (forall i :: i in Ids(s) ==> i < |nodes|) &&
      |mid| == |nodes| && Repr(mid, Rot(s, key)) &&
      (forall i :: 0 <= i < |mid| && i != s.id && i != Next(s, key).id ==> mid[i] == nodes[i]) &&
      nodes' == mid[p := Linked(mid[p], key, IdOf(Rot(s, key)))]
    ensures Rooted(nodes', ReplaceAt(t, key, k + 1, Rot(At(t, key, k + 1), key)))
  {
    var s := At(t, key, k + 1);
    var p := Above(t, key, k, 0);
    ReprBounds(mid, Rot(s, key));
    ReprFrame(mid, nodes', Rot(s, key));
    RootedRelink(nodes, nodes', t, key, k, Rot(s, key));
  }

  /** The two slot updates of `rotateRight` hold the right rotation of the
      subtree. */
  lemma RotRFrame<V>(nodes: seq<Slot<V>>, s: Tree<V>)
    requires Repr(nodes, s) && UniqueIds(s) && s.Node? && s.left.Node?
    ensures s.id < |nodes| && s.left.id < |nodes| && s.id != s.left.id
    ensures var n1 := nodes[s.id := nodes[s.id].(left := nodes[s.left.id].right)];
      Repr(n1[s.left.id := n1[s.left.id].(right := s.id)], RotR(s))
  {
    var l := s.left;
    var n1 := nodes[s.id := nodes[s.id].(left := nodes[l.id].right)];
    var n2 := n1[l.id := n1[l.id].(right := s.id)];
    ReprBounds(nodes, s);
    assert Ids(l) <= Ids(s) && Ids(s.right) <= Ids(s) && UniqueIds(l);
    assert Ids(l.left) <= Ids(l) && Ids(l.right) <= Ids(l);
    ReprFrame(nodes, n2, l.left);
    ReprFrame(nodes, n2, l.right);
    ReprFrame(nodes, n2, s.right);
    assert Repr(n2, s.(left := l.right));
  }

  /** The two slot updates of `rotateLeft` hold the left rotation of the subtree. */
  lemma RotLFrame<V>(nodes: seq<Slot<V>>, s: Tree<V>)
    requires Repr(nodes, s) && UniqueIds(s) && s.Node? && s.right.Node?
    ensures s.id < |nodes| && s.right.id < |nodes| && s.id != s.right.id
    ensures var n1 := nodes[s.id := nodes[s.id].(right := nodes[s.right.id].left)];
      Repr(n1[s.right.id := n1[s.right.id].(left := s.id)], RotL(s))
  {
    var r := s.right;
    var n1 := nodes[s.id := nodes[s.id].(right := nodes[r.id].left)];
    var n2 := n1[r.id := n1[r.id].(left := s.id)];
    ReprBounds(nodes, s);
    assert Ids(r) <= Ids(s) && Ids(s.left) <= Ids(s) && UniqueIds(r);
    assert Ids(r.left) <= Ids(r) && Ids(r.right) <= Ids(r);
    ReprFrame(nodes, n2, r.left);
    ReprFrame(nodes, n2, r.right);
    ReprFrame(nodes, n2, s.left);
    assert Repr(n2, s.(right := r.left));
  }
}
