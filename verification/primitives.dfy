/**
 The rotation and colour primitives every rebalancing step is built from:
 leftRotate, rightRotate, isRed, colorFlip and insertFixup.
 Each takes a subtree and returns the subtree that replaces it.
 */
module Primitives {
  import opened LlrbNode

  /** The right child is promoted: it takes the old root's colour and the old
      root becomes its red left child, taking over the promoted node's left
      subtree; all three moved subtrees are carried over unchanged. The
      identity when there is no right child.
      The C++ code dereferences its argument, so it must not be empty. */
  function LeftRotate(z: Tree): (r: Tree)
    requires z.Node?
    ensures InOrder(r) == InOrder(z)
    ensures z.right.Leaf? ==> r == z
    ensures z.right.Node? ==>
      && r.Node? && r.key == z.right.key && r.color == z.color
      && r.left.Node? && r.left.key == z.key && r.left.color == Red
    ensures z.right.Node? ==>
      r.left.left == z.left && r.left.right == z.right.left && r.right == z.right.right
  {
    if z.right.Leaf? then z
    else Node(z.color, Node(Red, z.left, z.key, z.right.left), z.right.key, z.right.right)
  }

  /** Mirror image of LeftRotate. */
  function RightRotate(z: Tree): (r: Tree)
    requires z.Node?
    ensures InOrder(r) == InOrder(z)
    ensures z.left.Leaf? ==> r == z
    ensures z.left.Node? ==>
      && r.Node? && r.key == z.left.key && r.color == z.color
      && r.right.Node? && r.right.key == z.key && r.right.color == Red
    ensures z.left.Node? ==>
      r.left == z.left.left && r.right.left == z.left.right && r.right.right == z.right
  {
    if z.left.Leaf? then z
    else Node(z.color, z.left.left, z.left.key, Node(Red, z.left.right, z.key, z.right))
  }

  /** The shape and keys of a tree with every colour forgotten. */
  ghost function Uncolored(t: Tree): Tree
  {
    match t
    case Leaf => Leaf
    case Node(_, l, k, r) => Node(Black, Uncolored(l), k, Uncolored(r))
  }

  /** Inverts the colour of one node, if there is one. */
  function Toggle(t: Tree): Tree
  {
    if t.Leaf? then t else t.(color := Negate(t.color))
  }

  /** Inverts the colour of the node and of each child that exists; keys,
      shape and every node below the children are unchanged. */
  function ColorFlip(z: Tree): (r: Tree)
    requires z.Node?
    ensures Uncolored(r) == Uncolored(z)
    ensures InOrder(r) == InOrder(z)
    ensures r.color != z.color
    ensures z.left.Node? ==> r.left.Node? && r.left.color != z.left.color
    ensures z.right.Node? ==> r.right.Node? && r.right.color != z.right.color
    ensures r.key == z.key
    ensures z.left.Node? ==> r.left.left == z.left.left && r.left.right == z.left.right
    ensures z.right.Node? ==> r.right.left == z.right.left && r.right.right == z.right.right
    ensures z.left.Leaf? ==> r.left.Leaf?
    ensures z.right.Leaf? ==> r.right.Leaf?
  {
    Node(Negate(z.color), Toggle(z.left), z.key, Toggle(z.right))
  }

  /** The three guarded steps applied at every node on the way back up:
      lean a lone red right link left, split two reds in a row on the left,
      and flip colours when both children are red. */
  function InsertFixup(z: Tree): (r: Tree)
    ensures InOrder(r) == InOrder(z)
    ensures r.Leaf? <==> z.Leaf?
  {
    if z.Leaf? then z
    else
      var z1 := if IsRed(z.right) && !IsRed(z.left) then LeftRotate(z) else z;
      var z2 := if IsRed(z1.left) && IsRed(z1.left.left) then RightRotate(z1) else z1;
      if IsRed(z2.left) && IsRed(z2.right) then ColorFlip(z2) else z2
  }

  /** Flipping twice gives back the subtree it started from. */
  lemma ColorFlipInvolution(z: Tree)
    requires z.Node?
    ensures ColorFlip(ColorFlip(z)) == z
  {
  }

  /** A right rotation about a red left link is undone by a left rotation. */
  lemma RotationsInverse(z: Tree)
    requires z.Node? && IsRed(z.left)
    ensures LeftRotate(RightRotate(z)) == z
  {
  }

  /** Rotating about a red link keeps every root-to-leaf black count. */
  lemma LeftRotateBalanced(z: Tree)
    requires z.Node? && Balanced(z) && IsRed(z.right)
    ensures Balanced(LeftRotate(z)) && Bh(LeftRotate(z)) == Bh(z)
  {
  }

  lemma RightRotateBalanced(z: Tree)
    requires z.Node? && Balanced(z) && IsRed(z.left)
    ensures Balanced(RightRotate(z)) && Bh(RightRotate(z)) == Bh(z)
  {
  }

  /** Flipping a node whose two children have the same colour keeps the
      tree balanced; the black height changes only when a red root turns black
      (by two) or a black root over black children turns red (by minus two). */
  lemma ColorFlipBalanced(z: Tree)
    requires z.Node? && z.left.Node? && z.right.Node?
    requires Balanced(z) && z.left.color == z.right.color
    ensures Balanced(ColorFlip(z))
    ensures IsRed(z.left) ==> Bh(ColorFlip(z)) == Bh(z) + (if IsRed(z) then 2 else 0)
    ensures !IsRed(z.left) && !IsRed(z) ==> Bh(ColorFlip(z)) + 2 == Bh(z)
    ensures !IsRed(z.left) && IsRed(z) ==> Bh(ColorFlip(z)) == Bh(z)
  {
  }

  /** The fixup keeps a balanced tree balanced; the black height changes only
      when a red root with two red children is flipped to black. */
  lemma InsertFixupBalanced(z: Tree)
    requires Balanced(z)
    ensures Balanced(InsertFixup(z))
    ensures Bh(InsertFixup(z)) == Bh(z)
         || (IsRed(z) && !IsRed(InsertFixup(z)) && Bh(InsertFixup(z)) == Bh(z) + 2)
  {
    if z.Node? {
      var z1 := if IsRed(z.right) && !IsRed(z.left) then LeftRotate(z) else z;
      if IsRed(z.right) && !IsRed(z.left) { LeftRotateBalanced(z); }
      var z2 := if IsRed(z1.left) && IsRed(z1.left.left) then RightRotate(z1) else z1;
      if IsRed(z1.left) && IsRed(z1.left.left) { RightRotateBalanced(z1); }
      if IsRed(z2.left) && IsRed(z2.right) { ColorFlipBalanced(z2); }
    }
  }

  /** On a subtree with no red right child and no two reds in a row on the
      left, none of the three steps fires. */
  lemma InsertFixupIdentity(z: Tree)
    requires z.Node? && !IsRed(z.right) && !(IsRed(z.left) && IsRed(z.left.left))
    ensures InsertFixup(z) == z
  {
  }

}
