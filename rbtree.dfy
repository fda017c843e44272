/**
  The abstract red-black tree that the arena of `RedBlackArena` represents: the
  shape below the header node, the orders the traversals produce, the
  red-black conditions, the key-directed search path, and the tree-level
  meaning of the rotations and of `reorient`.
*/
module RedBlackTrees {
  import opened LexOrder

  datatype Color = Red | Black

  /** The subtree hanging below a slot. `Leaf` is the shared nullNode; `id` is the
      arena slot a node lives in, so that the arena can be related to the tree. */
  datatype Tree<V> =
    | Leaf
    | Node(id: nat, color: Color, key: string, data: V, left: Tree<V>, right: Tree<V>)

  /** The slot a child pointer holds for this subtree (0 is nullNode). */
  function IdOf<V>(t: Tree<V>): nat
  {
    if t.Leaf? then 0 else t.id
  }

  ghost function Ids<V>(t: Tree<V>): set<nat>
  {
    if t.Leaf? then {} else {t.id} + Ids(t.left) + Ids(t.right)
  }

  /** No slot is used twice: the arena holds a tree, not a graph. */
  ghost predicate UniqueIds<V>(t: Tree<V>)
  {
    t.Node? ==>
      UniqueIds(t.left) && UniqueIds(t.right) && Ids(t.left) !! Ids(t.right) &&
      t.id !in Ids(t.left) && t.id !in Ids(t.right)
  }

  // ---------------------------------------------------------------------------
  // What the tree stores, and in which orders it lists its keys

  ghost function Inorder<V>(t: Tree<V>): seq<string>
  {
    if t.Leaf? then [] else Inorder(t.left) + [t.key] + Inorder(t.right)
  }

  ghost function Preorder<V>(t: Tree<V>): seq<string>
  {
    if t.Leaf? then [] else [t.key] + Preorder(t.left) + Preorder(t.right)
  }

  ghost function Postorder<V>(t: Tree<V>): seq<string>
  {
    if t.Leaf? then [] else Postorder(t.left) + Postorder(t.right) + [t.key]
  }

  /** The key/data pairs in in-order. */
  ghost function Entries<V>(t: Tree<V>): seq<(string, V)>
  {
    if t.Leaf? then [] else Entries(t.left) + [(t.key, t.data)] + Entries(t.right)
  }

  /** The mapping a list of pairs denotes; a later pair wins over an earlier one. */
  ghost function MapOf<V>(es: seq<(string, V)>): map<string, V>
  {
    if es == [] then map[] else MapOf(es[..|es| - 1])[es[|es| - 1].0 := es[|es| - 1].1]
  }

  /** The mapping from keys to data the tree stores. */
  ghost function Contents<V>(t: Tree<V>): map<string, V>
  {
    MapOf(Entries(t))
  }

  ghost predicate StrictlySorted(s: seq<string>)
  {
    forall i, j :: 0 <= i < j < |s| ==> Less(s[i], s[j])
  }

  /** Binary-search-tree order: the in-order key sequence strictly increases. */
  ghost predicate Ordered<V>(t: Tree<V>)
  {
    StrictlySorted(Inorder(t))
  }

  // ---------------------------------------------------------------------------
  // Colours

  predicate IsRed<V>(t: Tree<V>)
  {
    t.Node? && t.color == Red
  }

  /** nullNode is black. */
  predicate IsBlack<V>(t: Tree<V>)
  {
    !IsRed(t)
  }

  /** Black nodes on the leftmost path below and including `t`. */
  ghost function BlackHeight<V>(t: Tree<V>): nat
  {
    if t.Leaf? then 0 else BlackHeight(t.left) + (if t.color == Black then 1 else 0)
  }

  /** Every path from a node down to nullNode meets the same number of black nodes. */
  ghost predicate Balanced<V>(t: Tree<V>)
  {
    t.Node? ==>
      Balanced(t.left) && Balanced(t.right) && BlackHeight(t.left) == BlackHeight(t.right)
  }

  /** A red node has no red child. */
  ghost predicate NoRedRed<V>(t: Tree<V>)
  {
    t.Node? ==>
      NoRedRed(t.left) && NoRedRed(t.right) &&
      (t.color == Red ==> IsBlack(t.left) && IsBlack(t.right))
  }

  /** The red-black conditions, with a black root. */
  ghost predicate IsRedBlack<V>(t: Tree<V>)
  {
    IsBlack(t) && NoRedRed(t) && Balanced(t)
  }

  // ---------------------------------------------------------------------------
  // The search path of a key

  /** The child the search for `key` moves to. */
  ghost function Next<V>(t: Tree<V>, key: string): Tree<V>
    requires t.Node?
  {
    if Less(key, t.key) then t.left else t.right
  }

  /** The child the search for `key` does not take. */
  ghost function Other<V>(t: Tree<V>, key: string): Tree<V>
    requires t.Node?
  {
    if Less(key, t.key) then t.right else t.left
  }

  /** `t` with the child in the direction of `key` replaced by `c`. */
  ghost function SetChild<V>(t: Tree<V>, key: string, c: Tree<V>): Tree<V>
    requires t.Node?
  {
    if Less(key, t.key) then t.(left := c) else t.(right := c)
  }

  /** The first `d` steps of the search for `key` pass real nodes that do not hold `key`. */
  ghost predicate OnPath<V>(t: Tree<V>, key: string, d: nat)
  {
    d == 0 || (t.Node? && t.key != key && OnPath(Next(t, key), key, d - 1))
  }

  /** The subtree the search for `key` reaches after `d` steps (nullNode once it
      has fallen off the tree). */
  ghost function At<V>(t: Tree<V>, key: string, d: nat): Tree<V>
  {
    if d == 0 || t.Leaf? then t else At(Next(t, key), key, d - 1)
  }

  /** `t` with the subtree at depth `d` of the search path replaced by `s` (no
      change when the path is shorter than `d`). */
  ghost function ReplaceAt<V>(t: Tree<V>, key: string, d: nat, s: Tree<V>): Tree<V>
  {
    if d == 0 then s
    else if t.Leaf? then t
    else SetChild(t, key, ReplaceAt(Next(t, key), key, d - 1, s))
  }

  /** How many more nodes the search for `key` passes before it stops at nullNode or at `key`. */
  ghost function Depth<V>(t: Tree<V>, key: string): nat
  {
    if t.Leaf? || t.key == key then 0 else 1 + Depth(Next(t, key), key)
  }

  // ---------------------------------------------------------------------------
  // The restructuring operations

  ghost function Blacken<V>(t: Tree<V>): Tree<V>
  {
    if t.Leaf? then t else t.(color := Black)
  }

  /** The colour flip of `reorient`: the node turns red, its children black. */
  ghost function Flip<V>(t: Tree<V>): Tree<V>
    requires t.Node?
  {
    t.(color := Red, left := Blacken(t.left), right := Blacken(t.right))
  }

  /** Single right rotation: the left child becomes the subtree's root. */
  ghost function RotR<V>(t: Tree<V>): Tree<V>
    requires t.Node? && t.left.Node?
  {
    t.left.(right := t.(left := t.left.right))
  }

  /** Single left rotation: the right child becomes the subtree's root. */
  ghost function RotL<V>(t: Tree<V>): Tree<V>
    requires t.Node? && t.right.Node?
  {
    t.right.(left := t.(right := t.right.left))
  }

  /** The rotation `rotate` applies to the child of its parent argument: right when
      `key` lies left of it, left otherwise. */
  ghost function Rot<V>(t: Tree<V>, key: string): Tree<V>
    requires t.Node? && Next(t, key).Node?
  {
    if Less(key, t.key) then RotR(t) else RotL(t)
  }

  /** The rotation part of `reorient`, on the subtree rooted at the grandparent `g`
      once the current node (two steps below `g`) has been flipped: the grandparent
      turns red, a zig-zag is first straightened by a rotation at the parent, a
      rotation at the grandparent lifts the middle node, which turns black. */
  ghost function Restructure<V>(g: Tree<V>, key: string): Tree<V>
    requires g.Node? && Next(g, key).Node? && Next(Next(g, key), key).Node?
  {
    var g1 := g.(color := Red);
    var g2 :=
      if Less(key, g.key) != Less(key, Next(g, key).key)
      then SetChild(g1, key, Rot(Next(g1, key), key))
      else g1;
    Rot(g2, key).(color := Black)
  }

  /** The repair `reorient` performs once the node `d` steps down the search path
      has become the red subtree `x` (by a colour flip, or as a new red leaf): if
      its parent is red, restructure at the grandparent; finally blacken the root. */
  ghost function Repaired<V>(t: Tree<V>, key: string, d: nat, x: Tree<V>): Tree<V>
    requires x.Node? && IsBlack(t)
  {
    if d >= 1 && IsRed(At(t, key, d - 1)) then
      assert d >= 2;
      AtNext(t, key, d - 2);
      var g := At(t, key, d - 2);
      Blacken(ReplaceAt(t, key, d - 2,
        Restructure(SetChild(g, key, SetChild(Next(g, key), key, x)), key)))
    else
      Blacken(ReplaceAt(t, key, d, x))
  }

  /** The tree-level effect of `reorient` at the node `d` steps down the search path. */
  ghost function Reoriented<V>(t: Tree<V>, key: string, d: nat): Tree<V>
    requires At(t, key, d).Node? && IsBlack(t)
  {
    Repaired(t, key, d, Flip(At(t, key, d)))
  }

  /** Each step of a search path moves to the child in the direction of `key`. */
  lemma {:induction false} AtNext<V>(t: Tree<V>, key: string, j: nat)
    ensures At(t, key, j + 1).Node? ==> At(t, key, j).Node?
    ensures At(t, key, j).Node? ==> At(t, key, j + 1) == Next(At(t, key, j), key)
  {
    if j > 0 && t.Node? {
      AtNext(Next(t, key), key, j - 1);
    }
  }
}
