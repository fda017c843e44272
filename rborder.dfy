/**
  Search-tree order and the mapping a tree stores: why `find` may follow one
  child, what attaching a new leaf at the end of the search path does to the
  mapping, and that the restructuring of `reorient` keeps the in-order sequence.
*/
module RedBlackOrder {
  import opened LexOrder
  import opened RedBlackTrees
  import opened RedBlackPaths

  // ---------------------------------------------------------------------------
  // Sorted sequences and mappings of pairs

  /** A sequence is sorted around `k` exactly when both sides are sorted and lie on
      their own side of `k`. */
  lemma SortedSplit(a: seq<string>, k: string, b: seq<string>)
    ensures StrictlySorted(a + [k] + b) <==>
      StrictlySorted(a) && StrictlySorted(b) &&
      (forall x :: x in a ==> Less(x, k)) && (forall y :: y in b ==> Less(k, y))
  {
    var s := a + [k] + b;
    if StrictlySorted(s) {
      forall i, j | 0 <= i < j < |a|
        ensures Less(a[i], a[j])
      {
        assert a[i] == s[i] && a[j] == s[j];
      }
      forall i, j | 0 <= i < j < |b|
        ensures Less(b[i], b[j])
      {
        assert b[i] == s[|a| + 1 + i] && b[j] == s[|a| + 1 + j];
      }
      forall x | x in a
        ensures Less(x, k)
      {
        var i :| 0 <= i < |a| && a[i] == x;
        assert s[i] == x && s[|a|] == k;
      }
      forall y | y in b
        ensures Less(k, y)
      {
        var i :| 0 <= i < |b| && b[i] == y;
        assert s[|a| + 1 + i] == y && s[|a|] == k;
      }
    }
    if StrictlySorted(a) && StrictlySorted(b) &&
       (forall x :: x in a ==> Less(x, k)) && (forall y :: y in b ==> Less(k, y))
    {
      forall i, j | 0 <= i < j < |s|
        ensures Less(s[i], s[j])
      {
        if j < |a| {
          assert s[i] == a[i] && s[j] == a[j];
        } else if i > |a| {
          assert s[i] == b[i - |a| - 1] && s[j] == b[j - |a| - 1];
        } else if i == |a| {
          assert s[j] == b[j - |a| - 1];
        } else if j == |a| {
          assert s[i] == a[i];
        } else {
          assert s[i] == a[i] && s[j] == b[j - |a| - 1];
          Transitive(s[i], k, s[j]);
        }
      }
    }
  }

  /** Reading pairs in two batches: the second batch wins. */
  lemma {:induction false} MapOfConcat<V>(a: seq<(string, V)>, b: seq<(string, V)>)
    ensures MapOf(a + b) == MapOf(a) + MapOf(b)
  {
    if b == [] {
      assert a + b == a;
    } else {
      assert (a + b)[..|a + b| - 1] == a + b[..|b| - 1];
      MapOfConcat(a, b[..|b| - 1]);
    }
  }

  /** The mapping of a node: the left subtree's, the node's own pair, the right subtree's. */
  lemma ContentsNode<V>(t: Tree<V>)
    requires t.Node?
    ensures Contents(t) == Contents(t.left)[t.key := t.data] + Contents(t.right)
  {
    MapOfConcat(Entries(t.left) + [(t.key, t.data)], Entries(t.right));
    MapOfConcat(Entries(t.left), [(t.key, t.data)]);
    assert MapOf([(t.key, t.data)]) == map[t.key := t.data] by {
      assert [(t.key, t.data)][..0] == [];
    }
  }

  /** The keys of the mapping are the keys the in-order traversal lists. */
  lemma {:induction false} ContentsKeys<V>(t: Tree<V>)
    ensures forall x :: x in Contents(t) <==> x in Inorder(t)
  {
    if t.Node? {
      ContentsNode(t);
      ContentsKeys(t.left);
      ContentsKeys(t.right);
    }
  }

  // ---------------------------------------------------------------------------
  // Searching

  /** One step of `find`: at a node holding the key the search stops with the
      node's data; elsewhere the key is stored iff it is stored in the child the
      search moves to, with the same data. */
  lemma SearchStep<V>(t: Tree<V>, key: string)
    requires t.Node? && Ordered(t)
    ensures Ordered(t.left) && Ordered(t.right)
    ensures key == t.key ==> key in Contents(t) && Contents(t)[key] == t.data
    ensures key != t.key ==>
      (key in Contents(t) <==> key in Contents(Next(t, key))) &&
      (key in Contents(t) ==> Contents(t)[key] == Contents(Next(t, key))[key])
  {
    SortedSplit(Inorder(t.left), t.key, Inorder(t.right));
    ContentsNode(t);
    ContentsKeys(t.left);
    ContentsKeys(t.right);
    if key in Inorder(t.right) && !Less(t.key, key) {
      assert false;
    }
    if key in Inorder(t.left) && !Less(key, t.key) {
      assert false;
    }
    Irreflexive(key);
    if Less(key, t.key) {
      if key in Inorder(t.right) {
        Asymmetric(key, t.key);
      }
    } else if key != t.key {
      Total(key, t.key);
    }
  }

  /** A node holding the key on its own search path means the key is stored. */
  lemma {:induction false} FoundOnPath<V>(t: Tree<V>, key: string, d: nat)
    requires At(t, key, d).Node? && At(t, key, d).key == key
    ensures key in Contents(t)
  {
    if d > 0 && t.Node? && t.key != key {
      FoundOnPath(Next(t, key), key, d - 1);
      ContentsKeys(Next(t, key));
      ContentsKeys(t);
    } else {
      ContentsKeys(t);
    }
  }

  /** The search for a key that is not on any node of its path down to nullNode
      fails: the key is not stored. Attaching a new node for it there keeps the
      order and adds exactly that key. */
  lemma {:induction false} InsertAtLeaf<V>(t: Tree<V>, key: string, d: nat, n: Tree<V>)
    requires Ordered(t) && OnPath(t, key, d) && At(t, key, d).Leaf?
    requires n.Node? && n.key == key && n.left.Leaf? && n.right.Leaf?
    ensures key !in Contents(t)
    ensures Ordered(ReplaceAt(t, key, d, n))
    ensures Contents(ReplaceAt(t, key, d, n)) == Contents(t)[key := n.data]
    ensures forall x :: x in Inorder(ReplaceAt(t, key, d, n)) <==> x in Inorder(t) || x == key
  {
    if d == 0 {
      assert Entries(n) == [(key, n.data)];
      assert [(key, n.data)][..0] == [];
    } else {
      SortedSplit(Inorder(t.left), t.key, Inorder(t.right));
      InsertAtLeaf(Next(t, key), key, d - 1, n);
      var r := ReplaceAt(Next(t, key), key, d - 1, n);
      assert ReplaceAt(t, key, d, n) == SetChild(t, key, r);
      if Less(key, t.key) {
        InsertLeft(t, key, n.data, r);
      } else {
        InsertRight(t, key, n.data, r);
      }
    }
  }

  /** Adding a key to the left subtree, where the search for it goes. */
  lemma InsertLeft<V>(t: Tree<V>, key: string, v: V, r: Tree<V>)
    requires t.Node? && Ordered(t) && Less(key, t.key)
    requires key !in Contents(t.left) && Ordered(r)
    requires Contents(r) == Contents(t.left)[key := v]
    requires forall x :: x in Inorder(r) <==> x in Inorder(t.left) || x == key
    ensures key !in Contents(t)
    ensures Ordered(t.(left := r))
    ensures Contents(t.(left := r)) == Contents(t)[key := v]
    ensures forall x :: x in Inorder(t.(left := r)) <==> x in Inorder(t) || x == key
  {
    SortedSplit(Inorder(t.left), t.key, Inorder(t.right));
    Irreflexive(key);
    assert key !in Inorder(t.right) by {
      if key in Inorder(t.right) {
        Asymmetric(key, t.key);
      }
    }
    assert Ordered(t.(left := r)) by {
      SortedSplit(Inorder(r), t.key, Inorder(t.right));
    }
    ContentsKeys(t.right);
    ContentsNode(t);
    ContentsNode(t.(left := r));
    UpdateCommutes(Contents(t.left), Contents(t.right), key, v, t.key, t.data);
  }

  /** Adding a key to the right subtree, where the search for it goes. */
  lemma InsertRight<V>(t: Tree<V>, key: string, v: V, r: Tree<V>)
    requires t.Node? && Ordered(t) && !Less(key, t.key) && key != t.key
    requires key !in Contents(t.right) && Ordered(r)
    requires Contents(r) == Contents(t.right)[key := v]
    requires forall x :: x in Inorder(r) <==> x in Inorder(t.right) || x == key
    ensures key !in Contents(t)
    ensures Ordered(t.(right := r))
    ensures Contents(t.(right := r)) == Contents(t)[key := v]
    ensures forall x :: x in Inorder(t.(right := r)) <==> x in Inorder(t) || x == key
  {
    SortedSplit(Inorder(t.left), t.key, Inorder(t.right));
    Total(key, t.key);
    assert key !in Inorder(t.left);
    assert Ordered(t.(right := r)) by {
      SortedSplit(Inorder(t.left), t.key, Inorder(r));
    }
    ContentsKeys(t.left);
    ContentsNode(t);
    ContentsNode(t.(right := r));
    UnionUpdate(Contents(t.left)[t.key := t.data], Contents(t.right), key, v);
  }

  /** Two updates of different keys commute, and one of a key the right operand
      lacks passes through a union. */
  lemma UpdateCommutes<V>(m: map<string, V>, n: map<string, V>, key: string, v: V, k: string, w: V)
    requires key != k && key !in n
    ensures m[key := v][k := w] + n == (m[k := w] + n)[key := v]
  {
  }

  /** An update of the right operand of a union is an update of the union. */
  lemma UnionUpdate<V>(m: map<string, V>, n: map<string, V>, key: string, v: V)
    ensures m + n[key := v] == (m + n)[key := v]
  {
  }

  // ---------------------------------------------------------------------------
  // Restructuring keeps the in-order sequence

  /** `rotate` keeps the in-order sequence of keys and of pairs. */
  lemma RotKeepsOrder<V>(t: Tree<V>, key: string)
    requires t.Node? && Next(t, key).Node?
    ensures Entries(Rot(t, key)) == Entries(t) && Inorder(Rot(t, key)) == Inorder(t)
  {
  }

  /** The rotations and recolourings of `reorient` keep the in-order sequence. */
  lemma RestructureKeepsOrder<V>(g: Tree<V>, key: string)
    requires g.Node? && Next(g, key).Node? && Next(Next(g, key), key).Node?
    ensures Entries(Restructure(g, key)) == Entries(g)
    ensures Inorder(Restructure(g, key)) == Inorder(g)
  {
    var g1 := g.(color := Red);
    RotKeepsOrder(Next(g1, key), key);
    var g2 :=
      if Less(key, g.key) != Less(key, Next(g, key).key)
      then SetChild(g1, key, Rot(Next(g1, key), key))
      else g1;
    RotKeepsOrder(g2, key);
  }

  /** The repair after a flip or a new red leaf changes colours and shape only:
      the in-order sequence is the one of the tree with `x` put in place. */
  lemma RepairedKeepsOrder<V>(t: Tree<V>, key: string, d: nat, x: Tree<V>)
    requires x.Node? && IsBlack(t)
    ensures Entries(Repaired(t, key, d, x)) == Entries(ReplaceAt(t, key, d, x))
    ensures Inorder(Repaired(t, key, d, x)) == Inorder(ReplaceAt(t, key, d, x))
  {
    if d >= 1 && IsRed(At(t, key, d - 1)) {
      RotatedKeepsOrder(t, key, d, x);
    }
  }

  /** The rotating case of `RepairedKeepsOrder`. */
  lemma RotatedKeepsOrder<V>(t: Tree<V>, key: string, d: nat, x: Tree<V>)
    requires x.Node? && IsBlack(t) && d >= 1 && IsRed(At(t, key, d - 1))
    ensures Entries(Repaired(t, key, d, x)) == Entries(ReplaceAt(t, key, d, x))
    ensures Inorder(Repaired(t, key, d, x)) == Inorder(ReplaceAt(t, key, d, x))
  {
    ReplaceBelowGrand(t, key, d, x);
    var g := At(t, key, d - 2);
    var w := SetChild(g, key, SetChild(Next(g, key), key, x));
    assert Repaired(t, key, d, x) == Blacken(ReplaceAt(t, key, d - 2, Restructure(w, key)));
    if d >= 3 {
      AtNext(t, key, d - 3);
    }
    RestructureAtKeepsOrder(t, key, d - 2, w);
  }

  /** Restructuring a subtree on the search path keeps the whole tree's order. */
  lemma RestructureAtKeepsOrder<V>(t: Tree<V>, key: string, k: nat, w: Tree<V>)
    requires k == 0 || At(t, key, k - 1).Node?
    requires w.Node? && Next(w, key).Node? && Next(Next(w, key), key).Node?
    ensures Entries(ReplaceAt(t, key, k, Restructure(w, key))) == Entries(ReplaceAt(t, key, k, w))
    ensures Inorder(ReplaceAt(t, key, k, Restructure(w, key))) == Inorder(ReplaceAt(t, key, k, w))
  {
    RestructureKeepsOrder(w, key);
    AtWithin(t, key, k, 0, w);
    EntriesReplace(ReplaceAt(t, key, k, w), key, k, Restructure(w, key));
    ReplaceAbove(t, key, k, k, w, Restructure(w, key));
  }

  // ---------------------------------------------------------------------------
  // The three traversals

  /** The three traversals list the same keys, each once per node. */
  lemma {:induction false} TraversalsAgree<V>(t: Tree<V>)
    ensures multiset(Preorder(t)) == multiset(Inorder(t))
    ensures multiset(Postorder(t)) == multiset(Inorder(t))
  {
    if t.Node? {
      TraversalsAgree(t.left);
      TraversalsAgree(t.right);
    }
  }
}
