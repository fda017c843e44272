# Verified model of a chained hash table and a top-down red-black tree

This project models the two data structures of a small Python repository:

- **`HashTable`** (`hashtable.py`) maps keys to values. It keeps an array of
  `capacity` bins. Each bin is a chain of key/value pairs in insertion order.
  The bin of a key is the SHA-1 digest of the key modulo `capacity`.
  - `insert` overwrites the value of a key that is already stored, or appends the pair to the key's chain.
  - Once the load factor `size / capacity` exceeds 0.75, `reHash` moves every pair into twice as many bins.
  - `find` scans the key's chain.
  - `remove` unlinks the key's pair from its chain.
- **`RedBlackTree`** (`redblacktree.py`) maps string keys to data.
  - It has a header node whose right child is the root, and a shared black `nullNode` sentinel.
  - `insert` works top-down. On the way down, every node with two red children is colour-flipped and reoriented: rotated when its parent is red. The new node is attached where the search falls off the tree, then reoriented too. No repair pass runs back up the tree.
  - `find` searches the tree.
  - `getPreorder`, `getInorder` and `getPostorder` list the keys, each followed by a space.

## Structure

- `optional.dfy` (`Optional`): the `Option` type. It stands for Python's `None` result.
- `lexorder.dfy` (`LexOrder`): string `<` as lexicographic order on characters, proved to be a strict total order with `""` least.
- `hashtable.dfy` (`HashTables`): the `HashTable` class.
  - Its bins are an `array` of chains.
  - A ghost `Contents` map is the mapping the table stores.
  - `Valid()` says three things: each key is stored once, in the bin it hashes to, with its value; `size` counts the keys; the load factor is at most 0.75.
- `rbtree.dfy` (`RedBlackTrees`): the abstract tree below the header.
  - Its traversals and stored mapping.
  - The red-black conditions.
  - The search path of a key.
  - The tree-level effects of a rotation, of the colour flip and of `reorient` (`Reoriented`).
- `rbpaths.dfy`, `rborder.dfy` and `rbbalance.dfy` (`RedBlackPaths`, `RedBlackOrder`, `RedBlackBalance`) prove three things about these tree functions:
  - rotations and `reorient` keep the stored pairs and their order;
  - `reorient` restores the red-black conditions;
  - an invariant holds along the descent of `insert`.
- `rbarena.dfy` (`RedBlackArena`): the node objects as an arena of slots, in which a pointer is a slot index.
  - Slot 0 is `nullNode` and slot 1 the header.
  - `Rooted(nodes, t)` says that the arena holds the tree `t`.
- `redblack.dfy` (`RedBlack`): the `RedBlackTree` class.
  - Its fields are the arena `nodes`, the four pointers `current`, `parent`, `grand` and `great`, and a ghost `tree`.
  - Every method states its effect on the arena as a change of the abstract tree.

## Model

| member | source | states |
|---|---|---|
| LexOrder.EmptyLeast | redblacktree.py:38-40 | `""` is below every non-empty string and no string is below `""`. This is the header key's reason for being `""`. |
| LexOrder.Irreflexive | redblacktree.py:46-51 | No key is below itself, so the search's three-way test (equal, below, above) has disjoint cases. |
| LexOrder.Asymmetric | redblacktree.py:46-51 | If `a < b` then not `b < a`. |
| LexOrder.Transitive | redblacktree.py:46-51 | String order is transitive, which binary-search-tree order relies on. |
| LexOrder.Total | redblacktree.py:46-51 | Two different keys are always ordered one way or the other. |
| RedBlack.RedBlackTree.constructor | redblacktree.py:33-40 | The new tree is valid and empty: a black self-linked `nullNode`, and a header with key `""` whose children are both `nullNode`. |
| RedBlack.RedBlackTree.Find | redblacktree.py:42-56 | The result is the data stored under `key` when the key is in the tree, and `None` otherwise. This includes the empty tree. |
| RedBlack.RedBlackTree.FindFrom | redblacktree.py:43-51 | The recursive search from a subtree's node returns that subtree's data for `key`, or `None`. |
| RedBlack.RedBlackTree.GetPreorder | redblacktree.py:58-71 | The result is the preorder key sequence, each key followed by a space (`""` for the empty tree). |
| RedBlack.RedBlackTree.PreorderFrom | redblacktree.py:59-66 | The recursive helper yields the spaced preorder of the subtree. |
| RedBlack.RedBlackTree.GetInorder | redblacktree.py:73-86 | The result is the in-order (ascending) key sequence, spaced. |
| RedBlack.RedBlackTree.InorderFrom | redblacktree.py:74-81 | The recursive helper yields the spaced in-order of the subtree. |
| RedBlack.RedBlackTree.GetPostorder | redblacktree.py:88-101 | The result is the postorder key sequence, spaced. |
| RedBlack.RedBlackTree.PostorderFrom | redblacktree.py:89-96 | The recursive helper yields the spaced postorder of the subtree. |
| RedBlack.SpacedConcat | redblacktree.py:60-66 | Spacing a concatenation of key lists concatenates the spaced strings. This is why appending the subtrees' strings gives the whole traversal. |
| RedBlack.RedBlackTree.RotateRight | redblacktree.py:103-108 | The arena afterwards holds the right rotation of the subtree. The returned slot is the former left child, now the subtree root. Only the two slots involved change. |
| RedBlack.RedBlackTree.RotateLeft | redblacktree.py:110-115 | This is the mirror image of `RotateRight`. |
| RedBlack.RedBlackTree.RotateAt | redblacktree.py:120-125 | The rotation is right when the search goes left of the child and left otherwise. It returns the lifted node's slot. |
| RedBlack.RedBlackTree.Rotate | redblacktree.py:117-126 | The child of `theParent` in the direction of `key` is replaced in the tree by its rotation. `theParent` is relinked to the new subtree root, whose slot is returned. |
| RedBlack.RedBlackTree.Reorient | redblacktree.py:128-145 | The arena holds `Reoriented(t, key, d)`: a colour flip, rotations when the parent is red, and a black root. When a rotation happened, `current` and `parent` both point at the lifted node; otherwise neither moves. |
| RedBlack.RedBlackTree.FlipColors | redblacktree.py:130-133 | The current node turns red and its two children turn black. No other node changes. |
| RedBlack.RedBlackTree.RotateAtGrand | redblacktree.py:135-143 | The red-parent case: the grandparent's subtree becomes `Restructure` of it, and `current` and `parent` point at the lifted, now black, node. |
| RedBlack.RedBlackTree.Straighten | redblacktree.py:137-140 | The grandparent turns red. A zig-zag is straightened by a rotation at the parent, after which `parent` points at the lifted node. |
| RedBlack.RedBlackTree.PaintGrand | redblacktree.py:137 | The grandparent is red afterwards, and its slot and its child's slot match the repainted subtree. |
| RedBlack.RedBlackTree.LiftAtGreat | redblacktree.py:142-143 | The rotation below `great` lifts the middle node, which turns black. The result is the restructured subtree. |
| RedBlack.RedBlackTree.PaintRoot | redblacktree.py:145 | The root is black afterwards and nothing else changes in the tree. |
| RedBlack.RedBlackTree.Insert | redblacktree.py:147-172 | The tree stays a valid red-black binary search tree. The pair is added when the key is new. A key already stored, or the header's key `""`, leaves the mapping unchanged and does not overwrite the data. |
| RedBlack.RedBlackTree.Descend | redblacktree.py:152-159 | One turn of the descent loop keeps the descent invariant, the stored mapping and the pointer relations, and it decreases the loop measure. |
| RedBlack.RedBlackTree.ReorientOnDescent | redblacktree.py:158-159 | A reorientation during the descent keeps the mapping, the order and the red-black conditions. The descent resumes from the flipped node or from the lifted node. |
| RedBlack.RedBlackTree.Attach | redblacktree.py:161-172 | The new node takes the place of the leaf where the search ended, and `reorient` is applied. The result is red-black and ordered and stores exactly the old mapping plus the new pair. |
| RedBlackOrder.SearchStep | redblacktree.py:46-51 | At an ordered node the key is either the node's key (its data is the stored value) or stored exactly when it is stored in the child the search moves to. |
| RedBlackOrder.FoundOnPath | redblacktree.py:152-163 | A node on the search path that holds `key` means the key is stored, so `insert` rightly treats it as a duplicate. |
| RedBlackOrder.InsertAtLeaf | redblacktree.py:164-171 | Attaching a node where the search fell off the tree keeps search-tree order. The key was absent, and the mapping gains exactly the new pair. |
| RedBlackOrder.RotKeepsOrder | redblacktree.py:103-115 | A rotation keeps the in-order pairs and keys. |
| RedBlackOrder.RestructureKeepsOrder | redblacktree.py:136-143 | The red-parent restructuring keeps the in-order pairs and keys. |
| RedBlackOrder.RepairedKeepsOrder | redblacktree.py:128-145 | The whole of `reorient` keeps the in-order pairs and keys of the tree. |
| RedBlackOrder.TraversalsAgree | redblacktree.py:58-101 | The preorder, in-order and postorder traversals list the same keys with the same multiplicities. |
| RedBlackBalance.RestructureRB | redblacktree.py:136-143 | After a red node under a red parent, the restructuring yields a black-rooted subtree with no red-red edge and the same black height. |
| RedBlackBalance.RepairedRB | redblacktree.py:128-145 | `reorient` at a node of matching black height turns a red-black tree into a red-black tree, provided that when the parent is red its sibling (the uncle) is black, which the top-down descent guarantees. |
| RedBlackBalance.StepPlain | redblacktree.py:152-157 | A descent step without a reorientation keeps the descent invariant, and the rest of the path shrinks. |
| RedBlackBalance.StepFlip | redblacktree.py:158-159 | A reorientation during the descent keeps the pairs and keys, keeps the descent invariant, and does not lengthen the rest of the path. |
| RedBlackBalance.FlipStep | redblacktree.py:131-145 | A colour flip under a black parent leaves the flipped node without two red children, its parent and grandparent guarded, and the path shorter. |
| RedBlackBalance.RotationStep | redblacktree.py:136-143 | A flip under a red parent followed by the rotations leaves the lifted node without a red-red edge below it, and the path no longer. |
| RedBlackBalance.AttachRepair | redblacktree.py:164-172 | Reorienting the newly attached node gives a red-black tree with the same pairs and keys. |
| RedBlackArena.RootedFlip | redblacktree.py:130-133 | Recolouring the three slots of the flip is the tree-level colour flip of that node. |
| RedBlackArena.RootedPaint | redblacktree.py:137-145 | Recolouring a node's slot recolours that node in the tree. |
| RedBlackArena.RootedRelink | redblacktree.py:120-126 | Relinking the parent's child pointer to a rearranged subtree makes the arena hold the tree with that subtree replaced. |
| RedBlackArena.RootedAttach | redblacktree.py:164-171 | A fresh slot linked from the parent makes the arena hold the tree with the new node at the end of the search path. |
| RedBlackArena.LoopTest | redblacktree.py:150-163 | With `nullNode`'s key set to `key`, the loop stops exactly at the end of the search. Stopping at `nullNode` means the search fell off the tree. Stopping at a real node means the key is stored, or is `""`. |
| HashTables.Bin | hashtable.py:22-26 | A key's bin is its digest modulo the bin count, and it is a valid index. |
| HashTables.HashTable.Hash | hashtable.py:22-26 | The bin of `key` under the current capacity is below `capacity`. |
| HashTables.HashTable.constructor | hashtable.py:14-20 | A table with `capacity` empty bins (one bin when no capacity is given), size 0 and no contents, which satisfies the invariant. |
| HashTables.NewTable | hashtable.py:14-20 | A capacity below 1 yields no usable table. Otherwise the result is an empty valid table of that capacity, which defaults to 1. |
| HashTables.HashTable.KeyStoredOnce | hashtable.py:28-48 | No key occurs at two positions of the table, since `insert` overwrites rather than duplicates. |
| HashTables.HashTable.Find | hashtable.py:54-62 | The result is the stored value when the key is in the table, and `None` otherwise. |
| HashTables.HashTable.Put | hashtable.py:29-48 | The mapping becomes the old one with `key` bound to `value`. `size` grows exactly when the key was new. A new key's pair is appended at the tail of its bin (starting the chain when the bin is empty); a stored key's entry is overwritten in place. No other bin changes. The invariant apart from the load factor is kept. |
| HashTables.HashTable.Insert | hashtable.py:28-52 | The mapping gains or overwrites the pair and `size` counts keys. Capacity doubles exactly when a new key pushes the load factor above 0.75. Without a rehash, a new pair sits at the tail of its bin and an overwritten entry keeps its position, with no other bin changed. After a rehash the bins are the old chains plus the new pair at its bin's tail, reinserted in bin order and then chain order, each at the tail of its new bin. The table stays valid. |
| HashTables.HashTable.ReHash | hashtable.py:80-93 | Fresh bins of twice the capacity hold the same mapping and the same size, and the load factor is back within 0.75. Each new chain holds the old entries that land there in old-bin order and then chain order, each appended at the tail. |
| HashTables.HashTable.ReinsertBins | hashtable.py:89-93 | Reinserting every old bin in order rebuilds exactly the old mapping, and the bins equal the old entries appended one by one in bin order and then chain order. |
| HashTables.HashTable.ReinsertChain | hashtable.py:90-93 | Reinserting one old chain adds exactly its pairs, each at the tail of its new bin in chain order. The nested `insert` never triggers a second rehash. |
| HashTables.ReinsertedAll | hashtable.py:89-93 | Once every old bin has been reinserted, the new mapping equals the old one. |
| HashTables.StoredOverwrite | hashtable.py:40-43 | Overwriting the value of a stored key in its chain stores the updated mapping. |
| HashTables.StoredAppend | hashtable.py:33-46 | Starting or extending the chain of an absent key stores the mapping with the new pair. |
| HashTables.StoredDelete | hashtable.py:75-78 | Unlinking a key's entry from its chain stores the mapping without that key. |
| HashTables.HashTable.Locate | hashtable.py:65-70 | The scan stops at the key's position in its chain, which exists exactly when the key is stored. |
| HashTables.HashTable.Remove | hashtable.py:64-78 | The corrected `remove`: the key's pair is gone, `size` drops by one exactly when the key was stored, and the table stays valid. A stored key's entry is unlinked from its chain, whose remaining entries keep their order, and no other bin changes; for an absent key the bins are unchanged. |
| HashTables.HashTable.Unlink | hashtable.py:77-78 | The corrected unlink that `Remove` uses: entry `i` leaves chain `h`, the rest of the chain keeps its order and every other bin is unchanged. For a later entry this is the source's `prev.next = curr.next`; for the first entry the bin is repointed to the next pair, which the source does not do (see Findings). |
| HashTables.HashTable.RemoveAsWritten | hashtable.py:64-78 | `remove` as written, on any table whose bins place its keys, also one whose `size` already undercounts. An absent key changes nothing. A key not at the head of its chain is unlinked: that entry, at a position after the head, leaves its chain, the rest of the chain keeps its order, no other bin changes, and a valid table stays valid. A key at the head stays stored while `size` drops, so `size` falls one further below the number of keys. |
| HashTables.RehashKeepsChainOrder | hashtable.py:80-93 | With a constant digest and the default capacity, inserting `"a"` and then `"b"` grows the table to four bins, and bin 0 holds `"a"` then `"b"`, so `"a"` stays at the head. |
| HashTables.RemovedHeadTwice | hashtable.py:71-76 | Removing a head key twice drops `size` by two while the key stays stored; from a table holding only that key, `size` ends at -1. The bins are untouched and still place the keys. |
| HashTables.RemovedHeadStillFound | hashtable.py:75-76 | After removing a key that heads its chain, `find` still returns its value, though `size` has dropped; the bins are untouched and still place the keys, so the table can be used further. |

## Left out

- The SHA-1 digest of a key is a parameter `digest` of the table, a function from keys to non-negative integers. The hashing library is not part of this model. Keys are of any type with equality, whereas the source needs strings because it encodes them.
- The float test `size / capacity > 0.75` is modelled as the integer test `4 * size > 3 * capacity`. For exact division the two agree; floating-point rounding is not modelled.
- The chains of `Pair` objects linked by `next` are modelled as sequences of pairs. Because of this the model cannot tell a chain node apart from its position in the chain.
- Python's string `<` is modelled as lexicographic order on characters (code points). Unicode and encoding details are not modelled.
- Red-black node objects are modelled as slots of an arena `seq`, and a pointer is a slot index. Nodes are never freed, and `nullNode` and the header are slots 0 and 1.
- `nullNode`'s initial key, Python's `None`, is modelled as `""`. Only the key that `insert` writes into it is ever read.
- `insert` and `reorient` are split into helper methods (`Descend`, `ReorientOnDescent`, `Attach`, `FlipColors`, `RotateAtGrand`, `Straighten`, `PaintGrand`, `LiftAtGreat`, `PaintRoot`, `RotateAt`). Each helper performs a contiguous part of the source's statements in the same order.
- HashTables.HashTable.constructor: requires a capacity of at least 1. In the source, a smaller capacity returns early from `__init__` and leaves an object without fields; that case is modelled by `HashTables.NewTable`, which yields `null`.
- HashTables.HashTable.Insert: requires a valid table, as `Remove` does. After `RemoveAsWritten` has removed a head key, `size` no longer counts the keys; only `Find` and further `RemoveAsWritten` calls are modelled on such a table, not an `insert` or a rehash from it.
- HashTables.HashTable.ReinsertChain: calls the placement part of `insert` (`Put`) without its load check. It is proved that the check cannot fire during a rehash.
- `printTable`, the `__main__` block, `app.py` and `download_data.py` are console and file I/O, and they are not part of this model.
- Return values that the source discards (`remove` returning `None` for a missing key) are not modelled.

## Findings

| source | as written | input that shows it | evidently intended | confidence | as-written member | corrected member |
|---|---|---|---|---|---|---|
| hashtable.py:75-76 | When the key heads its chain, `remove` only sets the local `curr` to `None`. The bin still points at the pair, while `size` is decremented. | Insert one key into an empty table, then remove it: `find` still returns its value and `size` is 0 while one key is stored. Removing it again takes `size` to -1. | The bin should be repointed to the next pair in the chain, so the key is removed. | high (not executed) | HashTables.HashTable.RemoveAsWritten, HashTables.RemovedHeadStillFound, HashTables.RemovedHeadTwice | HashTables.HashTable.Remove |
