/**
 RbTree: the root, a cached pointer to the leftmost node, and a node count.

 The leftmost node is kept as its key. The count is unbounded here; the
 C++ code's size_t would wrap on a decrement from zero, which cannot happen
 on the paths modelled (erase is only given keys that are present).
 */
module Container {
  import opened Options
  import opened LlrbNode
  import opened Primitives
  import opened Insertion
  import opened Traversal
  import opened Deletion
  import opened DeleteBalance

  datatype RbTree = RbTree(root: Tree, leftmost: Option<int>, nodeCnt: nat)

  /** The invariant insert and erase keep: an ordered, balanced tree that is
      LLRB below its root, a leftmost key that is the least key, and a count
      that is at least the number of keys. The count can exceed the number of
      keys, because insert counts a key that was already present. */
  ghost predicate Valid(t: RbTree)
  {
    && Ordered(t.root) && Balanced(t.root) && NearLlrb(t.root)
    && t.leftmost == TreeMin(t.root)
    && t.nodeCnt >= |Keys(t.root)|
  }

  /** The default constructor: no root, no leftmost node, count zero. */
  function Empty(): (r: RbTree)
    ensures Valid(r) && Keys(r.root) == {} && r.nodeCnt == 0
  {
    RbTree(Leaf, None, 0)
  }

  /** Paints the root black; an empty tree stays empty. */
  function Blacken(t: Tree): (r: Tree)
    ensures InOrder(r) == InOrder(t)
    ensures !IsRed(r)
    ensures t.Node? ==> r.Node? && r.left == t.left && r.right == t.right
  {
    if t.Leaf? then t else t.(color := Black)
  }

  /** RbTree::insert: nodeInsert from the root, then a black root; the cached
      leftmost key moves to the new key when it is smaller. The count goes up
      by one whether or not the key was already present. */
  function Insert(t: RbTree, k: int): (r: RbTree)
    ensures Keys(r.root) == Keys(t.root) + {k}
    ensures r.root.Node? && !IsRed(r.root)
    ensures r.nodeCnt == t.nodeCnt + 1
    ensures Ordered(t.root) ==> Ordered(r.root)
  {
    var root := Blacken(NodeInsert(t.root, k));
    SameInOrder(root, NodeInsert(t.root, k));
    var leftmost := if t.leftmost.None? || k < t.leftmost.value then Some(k) else t.leftmost;
    RbTree(root, leftmost, t.nodeCnt + 1)
  }

  /** The least key of a tree is the only key that is at most every key. */
  lemma LeastKeyUnique(t: Tree, v: int)
    requires Ordered(t) && v in Keys(t) && forall y :: y in Keys(t) ==> v <= y
    ensures TreeMin(t) == Some(v)
  {
    TreeMinMaxAreExtremes(t);
  }

  /** A black root over a tree that is LLRB below its root makes it LLRB. */
  lemma BlackenNearLlrb(t: Tree)
    requires NearLlrb(t) && Balanced(t)
    ensures Llrb(Blacken(t)) && Balanced(Blacken(t))
  {
  }

  /** Insert keeps the invariant of any valid tree, and the tree it leaves is
      LLRB with a black root. */
  lemma InsertKeepsValid(t: RbTree, k: int)
    ensures Valid(t) ==> Valid(Insert(t, k)) && Llrb(Insert(t, k).root)
  {
    if Valid(t) {
      var n := NodeInsert(t.root, k);
      InsertKeepsNearLlrb(t.root, k);
      BlackenNearLlrb(n);
      InsertKeepsLeftmost(t, k);
      var r := Insert(t, k);
      assert |Keys(r.root)| <= |Keys(t.root)| + 1;
    }
  }

  /** The cached leftmost key after insert is the least key of the new tree. */
  lemma InsertKeepsLeftmost(t: RbTree, k: int)
    requires Ordered(t.root) && t.leftmost == TreeMin(t.root)
    ensures Insert(t, k).leftmost == TreeMin(Insert(t, k).root)
  {
    var r := Insert(t, k);
    if t.root.Node? {
      TreeMinMaxAreExtremes(t.root);
    }
    LeastKeyUnique(r.root, r.leftmost.value);
  }

  /** RbTree::erase. A non-empty tree loses the key through deleteAnyNode and
      the leftmost key is recomputed; the count goes down by one. The key must
      be present, as the set wrapper ensures. */
  function Erase(t: RbTree, k: int): (r: RbTree)
    requires Valid(t) && (t.root.Leaf? || k in Keys(t.root))
    ensures Keys(r.root) == Keys(t.root) - {k}
    ensures r.leftmost == TreeMin(r.root)
    ensures t.root.Node? ==> r.nodeCnt + 1 == t.nodeCnt
    ensures t.root.Leaf? ==> r == t
  {
    if t.root.Leaf? then t
    else
      var root := DeleteAny(t.root, k);
      RbTree(root, TreeMin(root), t.nodeCnt - 1)
  }

  /** Erasing a present key keeps the invariant; the count and the number of
      keys both go down by one. */
  lemma EraseKeepsValid(t: RbTree, k: int)
    requires Valid(t) && k in Keys(t.root)
    ensures Valid(Erase(t, k))
    ensures |Keys(Erase(t, k).root)| == |Keys(t.root)| - 1
  {
    DeleteBalanced(t.root, k);
  }

  /** The count is only an upper bound: inserting a key twice counts it twice
      while the tree holds a single node. */
  lemma InsertTwiceOvercounts()
    ensures var t := Insert(Insert(Empty(), 5), 5);
      t.nodeCnt == 2 && Keys(t.root) == {5} && Size(t.root) == 1
  {
  }

  /** The perfectly balanced tree of the keys 1, 2 and 3, all black: what
      inserting 1, 2 and 3 in that order builds. */
  lemma ThreeKeysValid()
    ensures var t := RbTree(Node(Black, Node(Black, Leaf, 1, Leaf), 2, Node(Black, Leaf, 3, Leaf)), Some(1), 3);
      Valid(t) && Keys(t.root) == {1, 2, 3}
  {
    var a, c := Node(Black, Leaf, 1, Leaf), Node(Black, Leaf, 3, Leaf);
    assert Keys(a) == {1} && Keys(c) == {3};
    assert Ordered(a) && Ordered(c);
    var root := Node(Black, a, 2, c);
    assert Ordered(root);
    assert Keys(root) == {1, 2, 3};
    assert |{1, 2, 3}| == 3;
    assert TreeMin(root) == Some(1);
  }

  /** Erase does not restore a black root: removing the largest key of that
      tree leaves a red root with a red left child. */
  lemma EraseCanLeaveRedRoot()
    ensures var t := RbTree(Node(Black, Node(Black, Leaf, 1, Leaf), 2, Node(Black, Leaf, 3, Leaf)), Some(1), 3);
      && Valid(t) && 3 in Keys(t.root)
      && Erase(t, 3).root == Node(Red, Node(Red, Leaf, 1, Leaf), 2, Leaf)
  {
    ThreeKeysValid();
    var root := Node(Black, Node(Black, Leaf, 1, Leaf), 2, Node(Black, Leaf, 3, Leaf));
    var flipped := Node(Red, Node(Red, Leaf, 1, Leaf), 2, Node(Red, Leaf, 3, Leaf));
    assert RightStep(RightLean(root)) == flipped;
    assert DeleteAny(flipped.right, 3) == Leaf;
    var n := Node(Red, Node(Red, Leaf, 1, Leaf), 2, Leaf);
    InsertFixupIdentity(n);
    assert DeleteAny(root, 3) == n;
  }

}
