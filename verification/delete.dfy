/**
 The delete path: moveRedLeft / moveRedRight push a red link down ahead of
 the descent, deleteMinNode removes the leftmost node, and deleteAnyNode
 removes a given key, replacing a matched inner node's key by its successor.
 Every level applies insertFixup on the way back up.
 */
module Deletion {
  import opened LlrbNode
  import opened Primitives
  import opened Traversal

  /** Flips z; if that leaves two reds in a row at the left of the right
      child, rotates them over to the left and flips again. The C++ code
      dereferences z's right child, so it must exist. */
  function MoveRedLeft(z: Tree): (r: Tree)
    requires z.Node? && z.right.Node?
    ensures InOrder(r) == InOrder(z)
    ensures !IsRed(z.right.left) ==> r == ColorFlip(z)
    ensures IsRed(z.right.left) ==>
      r == Node(z.color, Node(Black, Toggle(z.left), z.key, z.right.left.left), z.right.left.key,
                Node(Black, z.right.left.right, z.right.key, z.right.right))
  {
    var f := ColorFlip(z);
    if IsRed(f.right.left) then ColorFlip(LeftRotate(f.(right := RightRotate(f.right))))
    else f
  }

  /** Flips z; if its left child then starts two reds in a row, rotates right
      and flips again. The C++ code dereferences z's left child. */
  function MoveRedRight(z: Tree): (r: Tree)
    requires z.Node? && z.left.Node?
    ensures InOrder(r) == InOrder(z)
    ensures !IsRed(z.left.left) ==> r == ColorFlip(z)
    ensures IsRed(z.left.left) ==>
      r == Node(z.color, Toggle(z.left.left), z.left.key,
                Node(Black, z.left.right, z.key, Toggle(z.right)))
  {
    var f := ColorFlip(z);
    if IsRed(f.left.left) then ColorFlip(RightRotate(f)) else f
  }

  /** A black node under a balanced parent has a sibling. */
  lemma SiblingOfBlackNode(t: Tree)
    requires t.Node? && Balanced(t)
    ensures t.left.Node? && !IsRed(t.left) ==> t.right.Node?
    ensures t.right.Node? && !IsRed(t.right) ==> t.left.Node?
  {
  }

  /** What moveRedLeft leaves behind on an LLRB node whose left child is a
      black node with a black left child: a left child that is LLRB and red
      or has a red left child, so the descent never lands on a lone black node. */
  lemma MoveRedLeftShape(h: Tree)
    requires h.Node? && Llrb(h) && Balanced(h)
    requires h.left.Node? && !IsRed(h.left) && !IsRed(h.left.left)
    ensures h.right.Node? && !IsRed(h.right)
    ensures var m := MoveRedLeft(h);
      && m.Node? && m.left.Node? && Llrb(m.left) && Balanced(m.left)
      && (IsRed(m.left) || IsRed(m.left.left))
      && Keys(h.left) <= Keys(m.left)
  {
    SiblingOfBlackNode(h);
    var Node(c, l, k, rt) := h;
    var rl := rt.left;
    var tl := Toggle(l);
    assert tl == Node(Red, l.left, l.key, l.right);
    assert Llrb(tl) && Balanced(tl) && Bh(tl) + 1 == Bh(l);
    if IsRed(rl) {
      assert Llrb(rt) && Llrb(rl) && !IsRed(rl.left);
      assert Bh(rl.left) == Bh(rl) && Bh(rt) == Bh(rl) + 1 && Bh(l) == Bh(rt);
      assert Balanced(rt) && Balanced(rl) && Balanced(rl.left);
      assert Bh(tl) == Bh(rl.left);
      var ml := Node(Black, tl, k, rl.left);
      assert MoveRedLeft(h).left == ml;
      assert Llrb(ml);
      assert Balanced(ml);
      assert Keys(ml) == Keys(l) + {k} + Keys(rl.left);
    } else {
      assert MoveRedLeft(h).left == tl;
    }
  }

  /** deleteMinNode: the leftmost node is removed, so the in-order sequence
      loses exactly its first key. */
  function DeleteMin(h: Tree): (r: Tree)
    requires h.Node? && Llrb(h) && Balanced(h)
    ensures InOrder(r) == InOrder(h)[1..]
    decreases Size(h)
  {
    if h.left.Leaf? then
      assert Bh(h.right) == 0;
      Leaf
    else
      MinStepPre(h);
      var z := LeftStep(h);
      var d := DeleteMin(z.left);
      var n := Node(z.color, d, z.key, z.right);
      assert InOrder(n) == InOrder(h)[1..] by {
        assert InOrder(z) == InOrder(z.left) + [z.key] + InOrder(z.right);
        DropHead(InOrder(z.left), [z.key] + InOrder(z.right));
        assert InOrder(n) == InOrder(d) + [z.key] + InOrder(z.right);
      }
      InsertFixup(n)
  }

  lemma DropHead(a: seq<int>, b: seq<int>)
    requires a != []
    ensures (a + b)[1..] == a[1..] + b
  {
  }

  /** Before descending left, the node is prepared so its left child is an LLRB
      subtree that is red or has a red left child. */
  lemma MinStepPre(h: Tree)
    requires h.Node? && Llrb(h) && Balanced(h) && h.left.Node?
    ensures !IsRed(h.left) && !IsRed(h.left.left) ==> h.right.Node?
    ensures var z := LeftStep(h);
      && z.Node? && z.left.Node? && Llrb(z.left) && Balanced(z.left)
      && (IsRed(z.left) || IsRed(z.left.left))
      && InOrder(z) == InOrder(h) && Size(z.left) < Size(h)
  {
    if !IsRed(h.left) && !IsRed(h.left.left) {
      MoveRedLeftShape(h);
    }
    SameInOrder(h, LeftStep(h));
  }

  /** Dropping the head of a strictly increasing sequence drops its least
      element and nothing else. */
  lemma SortedTail(s: seq<int>)
    requires StrictlySorted(s) && |s| > 0
    ensures StrictlySorted(s[1..])
    ensures forall y :: y in s[1..] <==> y in s && y != s[0]
    ensures forall y :: y in s[1..] ==> s[0] < y
  {
    forall y | y in s && y != s[0] ensures y in s[1..] {
      var i :| 0 <= i < |s| && s[i] == y;
      assert s[1..][i - 1] == y;
    }
    forall y | y in s[1..] ensures s[0] < y && y != s[0] {
      var i :| 0 <= i < |s[1..]| && s[1..][i] == y;
      assert s[i + 1] == y;
    }
  }

  /** A tree whose in-order sequence is an ordered tree's without its head
      is ordered, and holds the same keys except the least. */
  lemma TailKeys(a: Tree, b: Tree)
    requires Ordered(a) && InOrder(a) != [] && InOrder(b) == InOrder(a)[1..]
    ensures Ordered(b)
    ensures Keys(b) == Keys(a) - {InOrder(a)[0]}
    ensures forall y :: y in Keys(b) ==> InOrder(a)[0] < y
  {
    var s := InOrder(a);
    assert StrictlySorted(s) by {
      OrderedIffSorted(a);
    }
    SortedTail(s);
    assert Ordered(b) by {
      OrderedIffSorted(b);
    }
    TailKeySet(a, b);
  }

  lemma TailKeySet(a: Tree, b: Tree)
    requires InOrder(a) != [] && InOrder(b) == InOrder(a)[1..]
    requires forall y :: y in InOrder(a)[1..] <==> y in InOrder(a) && y != InOrder(a)[0]
    ensures Keys(b) == Keys(a) - {InOrder(a)[0]}
    ensures forall y :: y in Keys(b) ==> y in InOrder(a)[1..]
  {
    var s := InOrder(a);
    KeysAreInOrderElements(a);
    KeysAreInOrderElements(b);
    forall y ensures y in Keys(b) <==> y in Keys(a) && y != s[0] {
      assert y in Keys(b) <==> y in s[1..];
      assert y in Keys(a) <==> y in s;
    }
  }

  /** Removing the first key of an ordered tree removes its least key and
      leaves an ordered tree. */
  lemma DeleteMinKeys(h: Tree)
    requires h.Node? && Llrb(h) && Balanced(h) && Ordered(h)
    ensures TreeMin(h).Some?
    ensures Ordered(DeleteMin(h))
    ensures Keys(DeleteMin(h)) == Keys(h) - {TreeMin(h).value}
    ensures forall y :: y in Keys(DeleteMin(h)) ==> TreeMin(h).value < y
  {
    TailKeys(h, DeleteMin(h));
  }

  /** The node is black, its left child is a black LLRB subtree and its right
      child a red LLRB subtree. deleteAnyNode meets this shape below a node
      where moveRedRight rotated, and only for keys at or above the node's. */
  ghost predicate RedRightOnly(t: Tree)
  {
    && t.Node? && t.color == Black
    && !IsRed(t.left) && Llrb(t.left)
    && IsRed(t.right) && Llrb(t.right)
  }

  /** The shapes deleteAnyNode is called on, from the root or recursively. */
  ghost predicate DeleteShape(t: Tree, k: int)
  {
    NearLlrb(t) || (RedRightOnly(t) && t.key <= k)
  }

  ghost predicate DeletePre(t: Tree, k: int)
  {
    Ordered(t) && k in Keys(t) && Balanced(t) && DeleteShape(t, k)
  }

  /** The subtree deleteAnyNode descends into on a key smaller than the root's,
      after moveRedLeft when the left child is a lone black node. */
  function LeftStep(t: Tree): (r: Tree)
    requires t.Node? && t.left.Node?
    requires !IsRed(t.left) && !IsRed(t.left.left) ==> t.right.Node?
  {
    if !IsRed(t.left) && !IsRed(t.left.left) then MoveRedLeft(t) else t
  }

  /** On a key not smaller than the root's: rotate a red left link to the right. */
  function RightLean(t: Tree): (r: Tree)
    requires t.Node?
    ensures r.Node? && InOrder(r) == InOrder(t)
  {
    if IsRed(t.left) then RightRotate(t) else t
  }

  /** Then, unless the right child is red or starts with a red, moveRedRight. */
  function RightStep(t: Tree): (r: Tree)
    requires t.Node? && t.right.Node?
    requires !IsRed(t.right) && !IsRed(t.right.left) ==> t.left.Node?
  {
    if !IsRed(t.right) && !IsRed(t.right.left) then MoveRedRight(t) else t
  }

  lemma LeftStepPre(t: Tree, k: int)
    requires DeletePre(t, k) && k < t.key
    ensures t.left.Node?
    ensures !IsRed(t.left) && !IsRed(t.left.left) ==> t.right.Node?
    ensures var m := LeftStep(t);
      && m.Node? && InOrder(m) == InOrder(t) && Ordered(m) && Keys(m) == Keys(t)
      && k < m.key && DeletePre(m.left, k) && Size(m.left) < Size(t)
  {
    assert Keys(t) == Keys(t.left) + {t.key} + Keys(t.right);
    assert k in Keys(t.left);
    if !IsRed(t.left) && !IsRed(t.left.left) {
      assert Llrb(t);
      MoveRedLeftShape(t);
      if IsRed(t.right.left) {
        assert t.right.left.key in Keys(t.right);
      }
    }
    var m := LeftStep(t);
    SameInOrder(t, m);
    LlrbIsNearLlrb(m.left);
    assert Keys(m) == Keys(m.left) + {m.key} + Keys(m.right);
  }

  lemma RightLeanFacts(t: Tree, k: int)
    requires DeletePre(t, k) && t.key <= k
    ensures var t1 := RightLean(t);
      && t1.Node? && InOrder(t1) == InOrder(t) && Ordered(t1) && Keys(t1) == Keys(t)
      && Balanced(t1) && t1.key <= k
      && (k == t1.key && t1.right.Leaf? ==> Keys(t) == {k})
      && (!(k == t1.key && t1.right.Leaf?) ==>
            && t1.right.Node?
            && (!IsRed(t1.right) && !IsRed(t1.right.left) ==> t1.left.Node?))
  {
    var t1 := RightLean(t);
    SameInOrder(t, t1);
    if IsRed(t.left) {
      RightRotateBalanced(t);
    } else {
      SiblingOfBlackNode(t);
      if k == t.key && t.right.Leaf? {
        assert t.left.Leaf?;
      }
    }
    if k != t1.key {
      assert k in Keys(t1.right);
    }
  }

  lemma RightStepPre(t: Tree, k: int)
    requires DeletePre(t, k) && t.key <= k
    requires var t1 := RightLean(t); !(k == t1.key && t1.right.Leaf?)
    ensures var t1 := RightLean(t); t1.right.Node?
    ensures var t1 := RightLean(t); !IsRed(t1.right) && !IsRed(t1.right.left) ==> t1.left.Node?
    ensures var t2 := RightStep(RightLean(t));
      && t2.Node? && InOrder(t2) == InOrder(t) && Ordered(t2) && Keys(t2) == Keys(t) && t2.key <= k
      && (k == t2.key ==> t2.right.Node? && Llrb(t2.right) && Balanced(t2.right))
      && (k != t2.key ==> DeletePre(t2.right, k) && Size(t2.right) < Size(t))
  {
    RightLeanFacts(t, k);
    var t1 := RightLean(t);
    var t2 := RightStep(t1);
    SameInOrder(t1, t2);
    if IsRed(t.left) {
      assert Llrb(t2.right);
      LlrbIsNearLlrb(t2.right);
    } else if !IsRed(t1.right) && !IsRed(t1.right.left) {
      assert Llrb(t);
    }
    if k != t2.key {
      assert k in Keys(t2.right);
    }
  }

  /** Replacing the left subtree of an ordered node by an ordered subtree
      that lost key k (smaller than the node's key) loses k from the whole. */
  lemma ReplaceLeft(m: Tree, d: Tree, k: int)
    requires m.Node? && Ordered(m) && k < m.key
    requires Ordered(d) && Keys(d) == Keys(m.left) - {k}
    ensures var n := Node(m.color, d, m.key, m.right);
      Ordered(n) && Keys(n) == Keys(m) - {k}
  {
  }

  /** Mirror image of ReplaceLeft, for a key larger than the node's. */
  lemma ReplaceRight(m: Tree, d: Tree, k: int)
    requires m.Node? && Ordered(m) && m.key < k
    requires Ordered(d) && Keys(d) == Keys(m.right) - {k}
    ensures var n := Node(m.color, m.left, m.key, d);
      Ordered(n) && Keys(n) == Keys(m) - {k}
  {
  }

  /** Overwriting a node's key with its successor and deleting the successor
      from the right subtree loses exactly the node's own key. */
  lemma ReplaceBySuccessor(m: Tree)
    requires m.Node? && Ordered(m) && m.right.Node? && Llrb(m.right) && Balanced(m.right)
    ensures TreeMin(m.right).Some?
    ensures var n := Node(m.color, m.left, TreeMin(m.right).value, DeleteMin(m.right));
      Ordered(n) && Keys(n) == Keys(m) - {m.key}
  {
    var Node(c, l, k, rt) := m;
    DeleteMinKeys(rt);
    TreeMinMaxAreExtremes(rt);
    var mn := TreeMin(rt).value;
    var d := DeleteMin(rt);
    assert k < mn;
    assert Keys(d) == Keys(rt) - {mn};
    var n := Node(c, l, mn, d);
    assert Ordered(n);
    assert Keys(n) == Keys(l) + {mn} + Keys(d);
    assert k !in Keys(l) && k !in Keys(rt);
  }

  /** deleteAnyNode, for a key present in the tree: the key set loses exactly
      that key and the tree stays ordered. When the key sits in an inner node,
      that node takes its successor's key and the successor is removed from
      the right subtree by DeleteMin. */
  function DeleteAny(t: Tree, k: int): (r: Tree)
    requires DeletePre(t, k)
    ensures Ordered(r) && Keys(r) == Keys(t) - {k}
    decreases Size(t)
  {
    if k < t.key then
      LeftStepPre(t, k);
      var m := LeftStep(t);
      var d := DeleteAny(m.left, k);
      ReplaceLeft(m, d, k);
      var n := Node(m.color, d, m.key, m.right);
      SameInOrder(n, InsertFixup(n));
      InsertFixup(n)
    else
      RightLeanFacts(t, k);
      var t1 := RightLean(t);
      if k == t1.key && t1.right.Leaf? then
        Leaf
      else
        RightStepPre(t, k);
        var t2 := RightStep(t1);
        if k == t2.key then
          ReplaceBySuccessor(t2);
          var n := Node(t2.color, t2.left, TreeMin(t2.right).value, DeleteMin(t2.right));
          SameInOrder(n, InsertFixup(n));
          InsertFixup(n)
        else
          var d := DeleteAny(t2.right, k);
          ReplaceRight(t2, d, k);
          var n := Node(t2.color, t2.left, t2.key, d);
          SameInOrder(n, InsertFixup(n));
          InsertFixup(n)
  }

}
