/**
 Colour and balance along the delete path.

 Every recursive call of deleteMinNode and deleteAnyNode lands on a subtree
 that is "ready": it is red, or one of its children is red. On a ready
 subtree both deletions give back an LLRB subtree with the same black height
 that is red only if the input was. At the root of the whole tree no such
 guarantee exists: the result is balanced and LLRB below its root, but the
 root itself may be red, even with a red left child.
 */
module DeleteBalance {
  import opened LlrbNode
  import opened Primitives
  import opened Traversal
  import opened Deletion

  /** Some link at the top of t is red. */
  ghost predicate Ready(t: Tree)
  {
    t.Node? && (IsRed(t) || IsRed(t.left) || IsRed(t.right))
  }

  /** Balance facts for moveRedLeft, in the situation deleteMinNode and
      deleteAnyNode use it. Without the double rotation the node is flipped,
      leaving two red children; with it, the black height is unchanged. */
  lemma MoveRedLeftBalance(h: Tree)
    requires h.Node? && Llrb(h) && Balanced(h)
    requires h.left.Node? && !IsRed(h.left) && !IsRed(h.left.left)
    ensures h.right.Node? && !IsRed(h.right)
    ensures var m := MoveRedLeft(h);
      && Balanced(m) && Llrb(m.right)
      && (IsRed(h.right.left) ==> m.color == h.color && !IsRed(m.left) && !IsRed(m.right) && Bh(m) == Bh(h))
      && (!IsRed(h.right.left) ==> m == ColorFlip(h) && IsRed(m.left) && IsRed(m.right))
  {
    SiblingOfBlackNode(h);
    MoveRedLeftShape(h);
    var Node(c, l, k, rt) := h;
    var rl := rt.left;
    if IsRed(rl) {
      assert Llrb(rt) && Llrb(rl) && !IsRed(rl.right);
      assert Balanced(rt) && Balanced(rl) && Balanced(rl.right);
      assert Bh(rl.right) == Bh(rl) && Bh(rt) == Bh(rl) + 1 && Bh(l) == Bh(rt);
      var mr := Node(Black, rl.right, rt.key, rt.right);
      assert MoveRedLeft(h).right == mr;
      assert Llrb(mr) && Balanced(mr);
    } else {
      var m := MoveRedLeft(h);
      assert m.right == Node(Red, rt.left, rt.key, rt.right);
      ColorFlipBalanced(h);
    }
  }

  /** Balance facts for moveRedRight on an LLRB node whose two children are
      black and whose right child has a black left child. Without the
      rotation the node is flipped; with it, the black height is unchanged
      and the right child takes the red-right-only shape, keyed by the old root. */
  lemma MoveRedRightBalance(h: Tree)
    requires h.Node? && Llrb(h) && Balanced(h)
    requires !IsRed(h.left) && h.right.Node? && !IsRed(h.right) && !IsRed(h.right.left)
    ensures h.left.Node?
    ensures var m := MoveRedRight(h);
      && Balanced(m)
      && (IsRed(h.left.left) ==>
            && m.color == h.color && !IsRed(m.left) && Llrb(m.left)
            && RedRightOnly(m.right) && m.right.key == h.key && Bh(m) == Bh(h))
      && (!IsRed(h.left.left) ==>
            && m == ColorFlip(h) && IsRed(m.left) && Llrb(m.left)
            && IsRed(m.right) && Llrb(m.right))
  {
    SiblingOfBlackNode(h);
    var Node(c, l, k, rt) := h;
    var m := MoveRedRight(h);
    if IsRed(l.left) {
      var ll := l.left;
      assert Llrb(l) && Llrb(ll) && !IsRed(ll.left) && !IsRed(ll.right);
      assert Balanced(l) && Balanced(ll) && Balanced(l.right);
      assert Bh(l) == Bh(ll) + 1 && Bh(ll) == Bh(l.right);
      var tr := Toggle(rt);
      assert tr == Node(Red, rt.left, rt.key, rt.right);
      assert Llrb(tr) && Balanced(tr) && Bh(tr) + 1 == Bh(rt);
      var mr := Node(Black, l.right, k, tr);
      assert m.right == mr;
      assert Balanced(mr);
      assert Toggle(ll) == Node(Black, ll.left, ll.key, ll.right);
      assert Balanced(Toggle(ll)) && Bh(Toggle(ll)) == Bh(mr);
      assert m.left == Toggle(ll);
    } else {
      assert m.left == Node(Red, l.left, l.key, l.right);
      assert m.right == Node(Red, rt.left, rt.key, rt.right);
      ColorFlipBalanced(h);
    }
  }

  /** The fixup after the left child of a flipped node (two red children) was
      replaced by d. A red d makes it flip back; a black d makes the red right
      child lean left. */
  lemma FixupAfterFlipLeft(c: Color, d: Tree, k: int, zr: Tree)
    requires IsRed(zr) && Llrb(zr) && Balanced(zr)
    requires Llrb(d) && Balanced(d) && Bh(d) == Bh(zr)
    ensures var f := InsertFixup(Node(c, d, k, zr));
      && Balanced(f) && NearLlrb(f)
      && (IsRed(d) ==> Llrb(f) && f.color == Negate(c) && Bh(f) == Bh(d) + (if c == Red then 2 else 1))
      && (!IsRed(d) ==> f.color == c && Bh(f) == Bh(d) + (if c == Black then 1 else 0) && (c == Black ==> Llrb(f)))
  {
    var n := Node(c, d, k, zr);
    if IsRed(d) {
      assert InsertFixup(n) == ColorFlip(n);
      ColorFlipBalanced(n);
    } else {
      var m := Node(c, Node(Red, d, k, zr.left), zr.key, zr.right);
      assert LeftRotate(n) == m;
      assert InsertFixup(n) == m;
    }
  }

  /** Mirror image: the right child of a flipped node was replaced by d. A red
      d makes it flip back; otherwise nothing fires. */
  lemma FixupAfterFlipRight(c: Color, zl: Tree, k: int, d: Tree)
    requires IsRed(zl) && Llrb(zl) && Balanced(zl)
    requires Llrb(d) && Balanced(d) && Bh(d) == Bh(zl)
    ensures var f := InsertFixup(Node(c, zl, k, d));
      && Balanced(f) && NearLlrb(f)
      && (IsRed(d) ==> Llrb(f) && f.color == Negate(c) && Bh(f) == Bh(d) + (if c == Red then 2 else 1))
      && (!IsRed(d) ==> f.color == c && Bh(f) == Bh(d) + (if c == Black then 1 else 0) && (c == Black ==> Llrb(f)))
  {
    var n := Node(c, zl, k, d);
    if IsRed(d) {
      assert InsertFixup(n) == ColorFlip(n);
      ColorFlipBalanced(n);
    } else {
      InsertFixupIdentity(n);
    }
  }

  /** The fixup after the right child of a node with a black left child was
      replaced by d: a red d is rotated to the left, nothing else fires. */
  lemma FixupAfterRight(c: Color, l: Tree, k: int, d: Tree)
    requires !IsRed(l) && Llrb(l) && Balanced(l)
    requires Llrb(d) && Balanced(d) && Bh(d) == Bh(l)
    ensures var f := InsertFixup(Node(c, l, k, d));
      && Balanced(f) && NearLlrb(f) && f.color == c
      && Bh(f) == Bh(l) + (if c == Black then 1 else 0)
      && (c == Black || !IsRed(d) ==> Llrb(f))
  {
    var n := Node(c, l, k, d);
    if IsRed(d) {
      var m := Node(c, Node(Red, l, k, d.left), d.key, d.right);
      assert LeftRotate(n) == m;
      assert InsertFixup(n) == m;
    } else {
      InsertFixupIdentity(n);
    }
  }

  /** deleteMinNode on a subtree whose root or left child is red keeps it LLRB
      with the same black height, and the result is red only if the input was. */
  lemma {:induction false} DeleteMinReady(h: Tree)
    requires h.Node? && Llrb(h) && Balanced(h) && (IsRed(h) || IsRed(h.left))
    ensures var r := DeleteMin(h);
      Llrb(r) && Balanced(r) && Bh(r) == Bh(h) && (IsRed(r) ==> IsRed(h))
    decreases Size(h)
  {
    if h.left.Leaf? {
      assert DeleteMin(h) == Leaf;
    } else {
      MinStepPre(h);
      var z := LeftStep(h);
      DeleteMinReady(z.left);
      var d := DeleteMin(z.left);
      var n := Node(z.color, d, z.key, z.right);
      assert DeleteMin(h) == InsertFixup(n);
      if !IsRed(h.left) && !IsRed(h.left.left) {
        MoveRedLeftBalance(h);
        if IsRed(h.right.left) {
          InsertFixupIdentity(n);
        } else {
          FixupAfterFlipLeft(z.color, d, z.key, z.right);
        }
      } else {
        InsertFixupIdentity(n);
      }
    }
  }

  /** What deleteAnyNode guarantees about colour and balance. On any tree it
      is called on, the result is balanced and LLRB below its root. On a ready
      LLRB or red-right-only subtree (every recursive call) the result is LLRB,
      keeps the black height, and is red only if the input was. */
  ghost predicate DeleteOutcome(t: Tree, r: Tree)
  {
    && Balanced(r) && NearLlrb(r)
    && (Ready(t) && (Llrb(t) || RedRightOnly(t)) ==>
          Llrb(r) && Bh(r) == Bh(t) && (IsRed(r) ==> IsRed(t)))
  }

  lemma {:induction false} DeleteBalanced(t: Tree, k: int)
    requires DeletePre(t, k)
    ensures DeleteOutcome(t, DeleteAny(t, k))
    decreases Size(t), 2
  {
    if k < t.key {
      DeleteBalancedLeft(t, k);
    } else {
      DeleteBalancedRight(t, k);
    }
  }

  /** The descent to the left. */
  lemma {:induction false} DeleteBalancedLeft(t: Tree, k: int)
    requires DeletePre(t, k) && k < t.key
    ensures DeleteOutcome(t, DeleteAny(t, k))
    decreases Size(t), 0
  {
    LeftStepPre(t, k);
    var m := LeftStep(t);
    if !IsRed(t.left) && !IsRed(t.left.left) {
      MoveRedLeftShape(t);
      MoveRedLeftBalance(t);
    }
    DeleteBalanced(m.left, k);
    var d := DeleteAny(m.left, k);
    var n := Node(m.color, d, m.key, m.right);
    assert DeleteAny(t, k) == InsertFixup(n);
    LlrbIsNearLlrb(d);
    if IsRed(t.left) || IsRed(t.left.left) {
      InsertFixupIdentity(n);
    } else if IsRed(t.right.left) {
      InsertFixupIdentity(n);
    } else {
      assert Bh(m.left) + 1 == Bh(t.left) && Bh(m.right) == Bh(m.left);
      FixupAfterFlipLeft(m.color, d, m.key, m.right);
    }
  }

  /** The descent to the right, or the match. */
  lemma {:induction false} DeleteBalancedRight(t: Tree, k: int)
    requires DeletePre(t, k) && t.key <= k
    ensures DeleteOutcome(t, DeleteAny(t, k))
    decreases Size(t), 1
  {
    RightLeanFacts(t, k);
    var t1 := RightLean(t);
    if k == t1.key && t1.right.Leaf? {
      assert DeleteAny(t, k) == Leaf;
      SiblingOfBlackNode(t);
    } else if IsRed(t.left) {
      DeleteBalancedRotated(t, k);
    } else if IsRed(t.right) || IsRed(t.right.left) {
      DeleteBalancedDirect(t, k);
    } else {
      DeleteBalancedMoved(t, k);
    }
  }

  /** The right child is red or has a red left child: no preparation. */
  lemma {:induction false} DeleteBalancedDirect(t: Tree, k: int)
    requires DeletePre(t, k) && t.key <= k && !IsRed(t.left)
    requires t.right.Node? && (IsRed(t.right) || IsRed(t.right.left))
    ensures DeleteOutcome(t, DeleteAny(t, k))
    decreases Size(t), 0
  {
    RightLeanFacts(t, k);
    RightStepPre(t, k);
    assert RightStep(RightLean(t)) == t;
    if k == t.key {
      DeleteMinReady(t.right);
      var d := DeleteMin(t.right);
      var n := Node(t.color, t.left, TreeMin(t.right).value, d);
      assert DeleteAny(t, k) == InsertFixup(n);
      FixupAfterRight(t.color, t.left, TreeMin(t.right).value, d);
    } else {
      DeleteBalanced(t.right, k);
      var d := DeleteAny(t.right, k);
      var n := Node(t.color, t.left, t.key, d);
      assert DeleteAny(t, k) == InsertFixup(n);
      FixupAfterRight(t.color, t.left, t.key, d);
    }
  }

  /** A red left link at the node is first rotated to the right; the key is
      then strictly to the right of the new root. */
  lemma {:induction false} DeleteBalancedRotated(t: Tree, k: int)
    requires DeletePre(t, k) && t.key <= k && IsRed(t.left)
    ensures DeleteOutcome(t, DeleteAny(t, k))
    decreases Size(t), 0
  {
    RightLeanFacts(t, k);
    RightStepPre(t, k);
    var l := t.left;
    var t1 := RightLean(t);
    assert t1 == Node(t.color, l.left, l.key, Node(Red, l.right, t.key, t.right));
    assert RightStep(t1) == t1;
    assert l.key in Keys(t.left);
    assert Llrb(l) && Balanced(l);
    DeleteBalanced(t1.right, k);
    var d := DeleteAny(t1.right, k);
    var n := Node(t.color, l.left, l.key, d);
    assert DeleteAny(t, k) == InsertFixup(n);
    FixupAfterRight(t.color, l.left, l.key, d);
  }

  /** Neither the right child nor its left child is red: moveRedRight first. */
  lemma {:induction false} DeleteBalancedMoved(t: Tree, k: int)
    requires DeletePre(t, k) && t.key <= k
    requires !IsRed(t.left) && t.right.Node? && !IsRed(t.right) && !IsRed(t.right.left)
    ensures DeleteOutcome(t, DeleteAny(t, k))
    decreases Size(t), 0
  {
    RightLeanFacts(t, k);
    RightStepPre(t, k);
    assert Llrb(t);
    MoveRedRightBalance(t);
    var t2 := MoveRedRight(t);
    assert RightStep(RightLean(t)) == t2;
    if IsRed(t.left.left) {
      assert t.left.key in Keys(t.left);
      assert k != t2.key;
      DeleteBalanced(t2.right, k);
      var d := DeleteAny(t2.right, k);
      var n := Node(t2.color, t2.left, t2.key, d);
      assert DeleteAny(t, k) == InsertFixup(n);
      FixupAfterRight(t2.color, t2.left, t2.key, d);
    } else if k == t2.key {
      DeleteMinReady(t2.right);
      var d := DeleteMin(t2.right);
      var n := Node(t2.color, t2.left, TreeMin(t2.right).value, d);
      assert DeleteAny(t, k) == InsertFixup(n);
      FixupAfterFlipRight(t2.color, t2.left, TreeMin(t2.right).value, d);
    } else {
      DeleteBalanced(t2.right, k);
      var d := DeleteAny(t2.right, k);
      var n := Node(t2.color, t2.left, t2.key, d);
      assert DeleteAny(t, k) == InsertFixup(n);
      FixupAfterFlipRight(t2.color, t2.left, t2.key, d);
    }
  }

}
