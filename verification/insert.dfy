/**
 The insert path: nodeInsert descends to an empty link, puts a red node there,
 and applies insertFixup at every node on the way back up.
 */
module Insertion {
  import opened LlrbNode
  import opened Primitives

  /** A key equal to a node's key stops the descent and adds nothing; otherwise
      the key goes left when smaller and right when larger. */
  function NodeInsert(t: Tree, k: int): (r: Tree)
    ensures r.Node?
    ensures Keys(r) == Keys(t) + {k}
    ensures Ordered(t) ==> Ordered(r)
    decreases t
  {
    match t
    case Leaf => Node(Red, Leaf, k, Leaf)
    case Node(c, l, key, rt) =>
      if key == k then
        SameInOrder(t, InsertFixup(t));
        InsertFixup(t)
      else if k < key then
        var n := Node(c, NodeInsert(l, k), key, rt);
        SameInOrder(n, InsertFixup(n));
        InsertFixup(n)
      else
        var n := Node(c, l, key, NodeInsert(rt, k));
        SameInOrder(n, InsertFixup(n));
        InsertFixup(n)
  }

  /** Inserting a key that is already present changes nothing at all in a
      tree that is LLRB below its root. */
  lemma {:induction false} InsertPresentIsIdentity(t: Tree, k: int)
    requires Ordered(t) && NearLlrb(t) && k in Keys(t)
    ensures NodeInsert(t, k) == t
  {
    match t
    case Node(c, l, key, rt) =>
      if key == k {
        InsertFixupIdentity(t);
      } else if k < key {
        LlrbIsNearLlrb(l);
        InsertPresentIsIdentity(l, k);
        InsertFixupIdentity(t);
      } else {
        LlrbIsNearLlrb(rt);
        InsertPresentIsIdentity(rt, k);
        InsertFixupIdentity(t);
      }
  }

  /** Inserting into an LLRB subtree keeps it balanced with the same black
      height. Under a black (or empty) root the result is again LLRB; under a
      red root the result is red, and may have a red left child for the parent
      to repair. */
  lemma {:induction false} InsertKeepsLlrb(t: Tree, k: int)
    requires Llrb(t) && Balanced(t)
    ensures Balanced(NodeInsert(t, k)) && Bh(NodeInsert(t, k)) == Bh(t)
    ensures NearLlrb(NodeInsert(t, k))
    ensures IsRed(t) ==> IsRed(NodeInsert(t, k))
    ensures !IsRed(t) ==> Llrb(NodeInsert(t, k))
  {
    match t
    case Leaf =>
    case Node(c, l, key, rt) =>
      if key == k {
        InsertFixupIdentity(t);
      } else if k < key {
        InsertKeepsLlrb(l, k);
        var l' := NodeInsert(l, k);
        var n := Node(c, l', key, rt);
        InsertFixupBalanced(n);
        if IsRed(l') && IsRed(l'.left) {
          assert c == Black;
          var m := RightRotate(n);
          assert m == Node(Black, l'.left, l'.key, Node(Red, l'.right, key, rt));
          assert InsertFixup(n) == ColorFlip(m);
        } else {
          InsertFixupIdentity(n);
        }
      } else {
        InsertKeepsLlrb(rt, k);
        var r' := NodeInsert(rt, k);
        var n := Node(c, l, key, r');
        InsertFixupBalanced(n);
        if IsRed(r') && !IsRed(l) {
          var m := LeftRotate(n);
          assert m == Node(c, Node(Red, l, key, r'.left), r'.key, r'.right);
          assert InsertFixup(n) == m;
        } else if IsRed(r') {
          assert InsertFixup(n) == ColorFlip(n);
        } else {
          InsertFixupIdentity(n);
        }
      }
  }

  /** Inserting into a tree that is LLRB below its root keeps it so, and
      keeps it balanced. */
  lemma InsertKeepsNearLlrb(t: Tree, k: int)
    requires NearLlrb(t) && Balanced(t)
    ensures NearLlrb(NodeInsert(t, k)) && Balanced(NodeInsert(t, k))
  {
    if Llrb(t) {
      InsertKeepsLlrb(t, k);
    } else {
      var Node(c, l, key, rt) := t;
      assert c == Red && IsRed(l);
      if key == k {
        InsertFixupIdentity(t);
      } else if k < key {
        InsertKeepsLlrb(l, k);
        var l' := NodeInsert(l, k);
        var n := Node(c, l', key, rt);
        InsertFixupBalanced(n);
        if IsRed(l'.left) {
          var m := RightRotate(n);
          assert m == Node(Red, l'.left, l'.key, Node(Red, l'.right, key, rt));
          assert InsertFixup(n) == ColorFlip(m);
        } else {
          InsertFixupIdentity(n);
        }
      } else {
        InsertKeepsLlrb(rt, k);
        var r' := NodeInsert(rt, k);
        var n := Node(c, l, key, r');
        InsertFixupBalanced(n);
        if IsRed(r') {
          assert InsertFixup(n) == ColorFlip(n);
        } else {
          InsertFixupIdentity(n);
        }
      }
    }
  }

}
