/**
 Nodes of a left-leaning red-black tree, and the properties the tree keeps.

 A node of llrb_tree.h holds a key, a colour and parent/left/right links.
 Here a subtree is an immutable value; parent links are left out, and a
 function that relinks nodes returns the new subtree instead.
 Keys are `int` and the ordering is `<`.
 */
module LlrbNode {

  datatype Color = Red | Black

  datatype Tree = Leaf | Node(color: Color, left: Tree, key: int, right: Tree)

  /** An empty link counts as black. */
  function IsRed(t: Tree): (r: bool)
    ensures r ==> t.Node?
    ensures t.Node? ==> (r <==> t.color == Red)
  {
    t.Node? && t.color == Red
  }

  function Negate(c: Color): (r: Color)
    ensures r != c
  {
    if c == Red then Black else Red
  }

  /** Number of nodes. */
  function Size(t: Tree): nat
  {
    match t
    case Leaf => 0
    case Node(_, l, _, r) => Size(l) + 1 + Size(r)
  }

  /** The keys in the order an in-order walk visits them. */
  ghost function InOrder(t: Tree): seq<int>
  {
    match t
    case Leaf => []
    case Node(_, l, k, r) => InOrder(l) + [k] + InOrder(r)
  }

  ghost function Keys(t: Tree): set<int>
  {
    match t
    case Leaf => {}
    case Node(_, l, k, r) => Keys(l) + {k} + Keys(r)
  }

  /** Binary-search-tree order: every key on the left is smaller, every key on the right larger. */
  ghost predicate Ordered(t: Tree)
  {
    match t
    case Leaf => true
    case Node(_, l, k, r) =>
      && Ordered(l) && Ordered(r)
      && (forall x :: x in Keys(l) ==> x < k)
      && (forall x :: x in Keys(r) ==> k < x)
  }

  ghost predicate StrictlySorted(s: seq<int>)
  {
    forall i, j :: 0 <= i < j < |s| ==> s[i] < s[j]
  }

  /** Red links lean left and never come two in a row: no red right child,
      and a red node has no red left child. The root's own colour is free. */
  ghost predicate Llrb(t: Tree)
  {
    match t
    case Leaf => true
    case Node(c, l, _, r) =>
      && !IsRed(r)
      && (c == Red ==> !IsRed(l))
      && Llrb(l) && Llrb(r)
  }

  /** The number of black nodes on the leftmost path. */
  ghost function Bh(t: Tree): nat
  {
    match t
    case Leaf => 0
    case Node(c, l, _, _) => Bh(l) + (if c == Black then 1 else 0)
  }

  /** Every path from the root to an empty link passes the same number of black nodes. */
  ghost predicate Balanced(t: Tree)
  {
    match t
    case Leaf => true
    case Node(_, l, _, r) => Balanced(l) && Balanced(r) && Bh(l) == Bh(r)
  }

  /** LLRB everywhere below the root. The root may be red, even with a red
      left child, but its right child is not red. */
  ghost predicate NearLlrb(t: Tree)
  {
    t.Leaf? || (Llrb(t.left) && Llrb(t.right) && !IsRed(t.right))
  }

  /** A strict LLRB subtree is in particular near-LLRB, and a red one has no red child. */
  lemma LlrbIsNearLlrb(t: Tree)
    requires Llrb(t)
    ensures NearLlrb(t)
    ensures t.Node? && IsRed(t) ==> !IsRed(t.left) && !IsRed(t.right)
  {
  }

  /** The key set is the set of elements of the in-order sequence. */
  lemma {:induction false} KeysAreInOrderElements(t: Tree)
    ensures forall x :: x in Keys(t) <==> x in InOrder(t)
    ensures |InOrder(t)| == Size(t)
  {
    match t
    case Leaf =>
    case Node(_, l, _, r) =>
      KeysAreInOrderElements(l);
      KeysAreInOrderElements(r);
  }

  /** A concatenation around a pivot is strictly increasing when both sides
      are and the pivot separates them. */
  lemma ConcatSorted(sl: seq<int>, k: int, sr: seq<int>)
    requires StrictlySorted(sl) && StrictlySorted(sr)
    requires forall x :: x in sl ==> x < k
    requires forall x :: x in sr ==> k < x
    ensures StrictlySorted(sl + [k] + sr)
  {
    var s := sl + [k] + sr;
    forall i, j | 0 <= i < j < |s| ensures s[i] < s[j] {
      if j < |sl| {
        assert s[i] == sl[i] && s[j] == sl[j];
      } else if i < |sl| {
        assert s[i] == sl[i] && sl[i] in sl;
        if j > |sl| {
          assert s[j] == sr[j - |sl| - 1] && sr[j - |sl| - 1] in sr;
        }
      } else if i == |sl| {
        assert s[j] == sr[j - |sl| - 1] && sr[j - |sl| - 1] in sr;
      } else {
        assert s[i] == sr[i - |sl| - 1] && s[j] == sr[j - |sl| - 1];
      }
    }
  }

  /** Conversely, a strictly increasing concatenation splits into strictly
      increasing sides separated by the pivot. */
  lemma SplitSorted(sl: seq<int>, k: int, sr: seq<int>)
    requires StrictlySorted(sl + [k] + sr)
    ensures StrictlySorted(sl) && StrictlySorted(sr)
    ensures forall x :: x in sl ==> x < k
    ensures forall x :: x in sr ==> k < x
  {
    var s := sl + [k] + sr;
    forall i, j | 0 <= i < j < |sl| ensures sl[i] < sl[j] {
      assert s[i] == sl[i] && s[j] == sl[j];
    }
    forall i, j | 0 <= i < j < |sr| ensures sr[i] < sr[j] {
      assert s[|sl| + 1 + i] == sr[i] && s[|sl| + 1 + j] == sr[j];
    }
    forall x | x in sl ensures x < k {
      var i :| 0 <= i < |sl| && sl[i] == x;
      assert s[i] == x && s[|sl|] == k;
    }
    forall x | x in sr ensures k < x {
      var i :| 0 <= i < |sr| && sr[i] == x;
      assert s[|sl| + 1 + i] == x && s[|sl|] == k;
    }
  }

  /** A tree is ordered exactly when its in-order sequence is strictly increasing. */
  lemma {:induction false} OrderedIffSorted(t: Tree)
    ensures Ordered(t) <==> StrictlySorted(InOrder(t))
  {
    match t
    case Leaf =>
    case Node(_, l, k, r) =>
      OrderedIffSorted(l);
      OrderedIffSorted(r);
      KeysAreInOrderElements(l);
      KeysAreInOrderElements(r);
      if Ordered(t) {
        ConcatSorted(InOrder(l), k, InOrder(r));
      }
      if StrictlySorted(InOrder(t)) {
        SplitSorted(InOrder(l), k, InOrder(r));
      }
  }

  /** Two trees with the same in-order sequence hold the same keys, and one is
      ordered exactly when the other is: rotations and recolouring change nothing else. */
  lemma SameInOrder(a: Tree, b: Tree)
    requires InOrder(a) == InOrder(b)
    ensures Keys(a) == Keys(b)
    ensures Ordered(a) <==> Ordered(b)
    ensures Size(a) == Size(b)
  {
    KeysAreInOrderElements(a);
    KeysAreInOrderElements(b);
    OrderedIffSorted(a);
    OrderedIffSorted(b);
    forall x ensures x in Keys(a) <==> x in Keys(b) {
      assert x in Keys(a) <==> x in InOrder(a);
      assert x in Keys(b) <==> x in InOrder(b);
    }
  }

}
