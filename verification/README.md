# Left-leaning red-black tree and ordered set

A model of the core of a header-only C++ container library: the
left-leaning red-black (LLRB) tree in `llrb_tree.h`, the `RbTree` that
owns it (root, cached leftmost node, node count), and the deduplicating
`set` built on it.

Nodes are immutable values (`LlrbNode.Tree`). Each C++ routine that
relinks nodes in place becomes a function here. It takes a subtree and
returns the subtree that replaces it, just as the C++ routines return the
new local root. Keys are `int` and the comparator is `<`.

The modules follow the header:

- `LlrbNode` (node.dfy): the node, `isRed`, and the invariants. The
  invariants are ordered keys, LLRB colouring, and equal black height on
  every path.
- `Primitives` (primitives.dfy): `leftRotate`, `rightRotate`,
  `colorFlip` and `insertFixup`.
- `Insertion` (insert.dfy): `nodeInsert`.
- `Traversal` (traversal.dfy): `treeMin`, `treeMax`, `nextNode`,
  `prevNode` and `RbTree::find`.
- `Deletion` (delete.dfy): `moveRedLeft`, `moveRedRight`,
  `deleteMinNode` and `deleteAnyNode`, with the key-set contracts.
- `DeleteBalance` (delete_balance.dfy): colour and black-height facts for
  the delete path.
- `Container` (rb_tree.dfy): `RbTree::insert` and `RbTree::erase`.
- `OrderedSet` (set.dfy): `set::insert`, `erase`, `find`, `size`, `empty`
  and `begin`.

**The root is not always black.** A red-black tree normally keeps a black
root. This code blackens the root after insert but not after erase.
`deleteAnyNode` can return a red root, even a red root whose left child is
also red. `Container.EraseCanLeaveRedRoot` exhibits this on the three-key
tree. The model follows the code. The invariant kept by every public
operation (`Container.Valid`) therefore asks the tree to be:

- ordered;
- black-balanced;
- LLRB strictly below its root, with a root whose right child is not red
  (`NearLlrb`).

It does not ask for a black root. The next insert repairs the root.

**The count.** `RbTree::insert` increments the count even when the key is
already present. In that case `nodeInsert` discards the new node. The raw
tree's count is therefore only an upper bound on the number of keys
(`Container.InsertTwiceOvercounts`). The `set` asks `find` before each
insert and erase, so at the set level the count equals the number of keys.

## Model

| member | source | states |
|---|---|---|
| LlrbNode.IsRed | llrb_tree.h:81-87 | an empty link is black; a node is red exactly when its colour is red |
| Primitives.LeftRotate | llrb_tree.h:29-53 | the in-order key sequence is unchanged; the identity when there is no right child; otherwise the right child is promoted and takes the old root's colour, the old root becomes its red left child, and the three moved subtrees (old left, promoted node's left, promoted node's right) are carried over unchanged |
| Primitives.RightRotate | llrb_tree.h:55-79 | mirror image of LeftRotate: the left child is promoted with the old root's colour, the old root becomes its red right child, and the three moved subtrees are carried over unchanged |
| Primitives.RotationsInverse | llrb_tree.h:29-79 | a right rotation about a red left link is undone by a left rotation |
| Primitives.LeftRotateBalanced | llrb_tree.h:29-53 | rotating about a red right link keeps black balance and black height |
| Primitives.RightRotateBalanced | llrb_tree.h:55-79 | rotating about a red left link keeps black balance and black height |
| Primitives.ColorFlip | llrb_tree.h:89-106 | keys and shape unchanged; the node and each existing child get the opposite colour; the grandchildren are carried over unchanged |
| Primitives.ColorFlipInvolution | llrb_tree.h:89-106 | flipping twice gives back the subtree it started from |
| Primitives.ColorFlipBalanced | llrb_tree.h:89-106 | on a node whose children share a colour, the flip keeps black balance and moves the black height by the stated amount in each colour case |
| Primitives.InsertFixup | llrb_tree.h:108-123 | the in-order sequence is unchanged; empty stays empty |
| Primitives.InsertFixupBalanced | llrb_tree.h:108-123 | the fixup keeps black balance; the black height changes only when a red node with two red children is flipped, and then by two |
| Primitives.InsertFixupIdentity | llrb_tree.h:108-123 | none of the three guarded steps fires on a subtree with no red right child and no two reds in a row on the left |
| Insertion.NodeInsert | llrb_tree.h:125-145 | the result is a node whose keys are the old keys plus the new key; an ordered tree stays ordered |
| Insertion.InsertPresentIsIdentity | llrb_tree.h:125-145 | inserting a key that is already present leaves the tree exactly as it was |
| Insertion.InsertKeepsLlrb | llrb_tree.h:125-145 | on an LLRB subtree, insert keeps black balance and black height; a black subtree stays LLRB; a red one stays red, with any red-red left pair left for the parent's fixup |
| Insertion.InsertKeepsNearLlrb | llrb_tree.h:125-145 | a tree that is LLRB below its root and balanced stays so after insert |
| Traversal.TreeMin | llrb_tree.h:147-156 | the first key of the in-order sequence, or nothing for an empty tree |
| Traversal.TreeMax | llrb_tree.h:158-167 | the last key of the in-order sequence, or nothing for an empty tree |
| Traversal.TreeMinMaxAreExtremes | llrb_tree.h:147-167 | in an ordered non-empty tree, treeMin is a key no greater than any key and treeMax a key no smaller than any key |
| Traversal.NextKey | llrb_tree.h:260-275 | the key after x in the in-order sequence, or nothing when x is last |
| Traversal.PrevKey | llrb_tree.h:246-258 | the key before x in the in-order sequence, or nothing when x is first |
| Traversal.NextKeyIsSuccessor | llrb_tree.h:260-275 | nextNode gives the least key greater than x, and the end exactly when no key exceeds x |
| Traversal.PrevKeyIsPredecessor | llrb_tree.h:246-258 | prevNode gives the greatest key less than x, and nothing exactly when no key is below x |
| Traversal.NextNode | llrb_tree.h:260-275 | stepping forward from the end iterator stays at the end; from a key, the least key above it, and the end exactly when no key is above it |
| Traversal.PrevNode | llrb_tree.h:246-258 | stepping back from the end iterator stays at the end, so it never reaches the greatest key; from a key, the greatest key below it, and nothing exactly when no key is below it |
| Traversal.Find | llrb_tree.h:347-359 | a node found holds the key; the node found roots a subtree of the tree, ordered and holding only keys of the tree; in an ordered tree a node is found exactly when the key is present |
| Deletion.MoveRedLeft | llrb_tree.h:180-189 | the in-order sequence is unchanged; a plain colour flip when the right child's left child is black, otherwise the named double rotation with the colours it leaves |
| Deletion.MoveRedRight | llrb_tree.h:191-199 | the in-order sequence is unchanged; a plain colour flip when the left child's left child is black, otherwise a right rotation followed by a flip, with the colours it leaves |
| Deletion.MoveRedLeftShape | llrb_tree.h:207-210 | when deleteMinNode meets a black left child with a black left child, moveRedLeft leaves a left child that is LLRB, balanced, red or starting with a red link, and holds every key of the old left child, so the descent never enters a lone black node |
| Deletion.DeleteMin | llrb_tree.h:201-212 | the in-order sequence loses exactly its first key |
| Deletion.DeleteMinKeys | llrb_tree.h:201-212 | on an ordered LLRB tree the result is ordered, holds every key but the minimum, and every remaining key exceeds that minimum |
| Deletion.ReplaceBySuccessor | llrb_tree.h:236-238 | overwriting a node's key with the minimum of its right subtree and deleting that minimum there keeps the tree ordered and removes exactly the node's old key |
| Deletion.DeleteAny | llrb_tree.h:214-244 | for a present key, the result is ordered and holds exactly the other keys |
| DeleteBalance.MoveRedLeftBalance | llrb_tree.h:180-189 | in the situation where the delete routines call it, moveRedLeft keeps black balance; with the double rotation it keeps the colour and black height and leaves two black children, without it it is a colour flip leaving two red children |
| DeleteBalance.MoveRedRightBalance | llrb_tree.h:191-199 | in the situation where deleteAnyNode calls it, moveRedRight keeps black balance; with the rotation it keeps the colour and black height and its right child is a black node over a red right child keyed by the old root, without it it is a colour flip leaving two red children |
| DeleteBalance.DeleteMinReady | llrb_tree.h:201-212 | on an LLRB subtree whose root or left child is red, deleteMinNode keeps it LLRB and balanced with the same black height, and the result is red only if the input was |
| DeleteBalance.DeleteBalanced | llrb_tree.h:214-244 | deleteAnyNode leaves a balanced tree that is LLRB below its root; on the subtrees the recursion visits, it keeps LLRB shape and black height |
| Container.Empty | llrb_tree.h:293 | the default tree is valid and holds no key with count zero |
| Container.Blacken | llrb_tree.h:330 | the root turns black while the keys and both subtrees are unchanged |
| Container.Insert | llrb_tree.h:327-335 | the keys gain the new key, the root is a black node, the count goes up by one and order is kept |
| Container.InsertKeepsValid | llrb_tree.h:327-335 | from any valid tree, insert keeps the container invariant, including the cached leftmost key, and leaves a fully LLRB tree |
| Container.InsertKeepsLeftmost | llrb_tree.h:331-333 | after insert the cached leftmost key is the least key of the new tree |
| Container.InsertTwiceOvercounts | llrb_tree.h:327-335 | inserting the same key twice counts it twice while the tree holds one node with that key |
| Container.Erase | llrb_tree.h:423-429 | the keys lose the key, the leftmost key is the new minimum, a non-empty tree's count drops by one, and an empty tree is untouched |
| Container.EraseKeepsValid | llrb_tree.h:423-429 | erasing a present key keeps the container invariant and removes exactly one key |
| Container.EraseCanLeaveRedRoot | llrb_tree.h:423-429 | erasing 3 from the black three-key tree leaves a red root with a red left child |
| OrderedSet.Empty | llrb_tree.h:536 | a new set is valid and holds no key |
| OrderedSet.Find | llrb_tree.h:621-622 | a found key is the key asked for, and in an ordered tree it is found exactly when present |
| OrderedSet.Insert | llrb_tree.h:618-620 | the elements gain the key; a valid set stays valid and its size grows by one exactly when the key was absent |
| OrderedSet.Erase | llrb_tree.h:631-636 | the elements lose the key; the set stays valid and its size shrinks by one exactly when the key was present |
| OrderedSet.Size | llrb_tree.h:612 | on a valid set, the stored count is the number of distinct elements |
| OrderedSet.IsEmpty | llrb_tree.h:611 | on a valid set, empty holds exactly when there are no elements |
| OrderedSet.Begin | llrb_tree.h:603 | on a valid set, the cached leftmost key is the least element, and the end iterator exactly when the set is empty |
| OrderedSet.NoOpCases | llrb_tree.h:615-636 | inserting a present key or erasing an absent key changes nothing |
| OrderedSet.InsertIdempotent | llrb_tree.h:615-620 | inserting twice is inserting once |
| OrderedSet.EraseIdempotent | llrb_tree.h:631-636 | erasing twice is erasing once |
| OrderedSet.EraseUndoesInsert | llrb_tree.h:615-636 | erasing a key just inserted gives back the elements and the size of before |
| OrderedSet.FindAfterUpdate | llrb_tree.h:615-636 | after insert the key is found, after erase it is not |

## Left out

- Parent links: nodes are values here. The parent bookkeeping in the rotations and in `nodeInsert`, and `treeIsLeftChild`, are not modelled. `nextNode`/`prevNode` are modelled by their result (the key reached), computed by descending from the root.
- Iterators (`RbTreeIter`, `ConstRbTreeIter`): an iterator is reduced to the key under it, or nothing for the end iterator (`Traversal.NextNode`, `Traversal.PrevNode`). Pointer identity and the iterator classes' own operators are not modelled.
- `clear`, `reset`, `copyFrom`, the copy and move constructors and assignments: these are memory management and are not modelled. They hold three defects that the model does not treat as correct behaviour:
  - `set::clear` calls `RbTree::clear`, which does not reset the count, so a cleared set still reports its old size.
  - `copyFrom` builds every copied node with the constructor's default colour, red, so the colours are not copied.
  - The move constructor resets the new tree instead of the one moved from.
- The set's comparison operators (`==`, `!=`, `<`, `>`) and its initializer-list constructor are not modelled.
- Templates and the `Less` comparator: keys are `int` ordered by `<`.
- The `size_t` count is a `nat`. Wrap-around on a decrement from zero cannot arise on the modelled paths.
- Deletion.DeleteAny: requires the key to be present and the tree to be in a shape the recursion actually meets. On an absent key the C++ code either drops a subtree or dereferences an empty link.
- Deletion.DeleteAny: the `!root->lch` branch at llrb_tree.h:218-220 is not modelled. For a present key smaller than a node's key, the left subtree is never empty, so the branch is never taken.
- Deletion.DeleteMin: requires a balanced LLRB subtree, which is what every caller passes. On other shapes `moveRedLeft` can dereference an empty right link.
- Deletion.MoveRedLeft, Deletion.MoveRedRight: require the child that the C++ code dereferences to exist.
- Container.Erase: requires the key to be present or the tree empty. The raw `RbTree::erase` of an absent key is not modelled: the set wrapper never calls it that way.
- DeleteBalance.DeleteBalanced: states black balance and the LLRB shape below the root, not a black root, because the code does not restore one (see above).
