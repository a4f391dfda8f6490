/**
 Read-only queries: treeMin / treeMax, the successor and predecessor steps
 behind the iterator (nextNode / prevNode), and the lookup RbTree::find.

 The C++ code climbs parent links to find a successor. Here the same answer
 comes from a descent from the root: the successor of a node without a right
 subtree is the nearest ancestor that has the node in its left subtree.
 */
module Traversal {
  import opened Options
  import opened LlrbNode

  /** The key of the node reached by following left links to the end;
      nothing exactly when the tree is empty. */
  function TreeMin(t: Tree): (r: Option<int>)
    ensures r == if InOrder(t) == [] then None else Some(InOrder(t)[0])
  {
    match t
    case Leaf => None
    case Node(_, l, k, _) => if l.Leaf? then Some(k) else TreeMin(l)
  }

  /** Mirror image of TreeMin: the last key of the in-order sequence. */
  function TreeMax(t: Tree): (r: Option<int>)
    ensures r == if InOrder(t) == [] then None else Some(InOrder(t)[|InOrder(t)| - 1])
  {
    match t
    case Leaf => None
    case Node(_, _, k, rt) => if rt.Leaf? then Some(k) else TreeMax(rt)
  }

  /** In an ordered tree the first in-order key is the least key and the last
      in-order key the greatest. */
  lemma TreeMinMaxAreExtremes(t: Tree)
    requires Ordered(t) && t.Node?
    ensures TreeMin(t).Some? && TreeMin(t).value in Keys(t)
    ensures forall x :: x in Keys(t) ==> TreeMin(t).value <= x
    ensures TreeMax(t).Some? && TreeMax(t).value in Keys(t)
    ensures forall x :: x in Keys(t) ==> x <= TreeMax(t).value
  {
    KeysAreInOrderElements(t);
    OrderedIffSorted(t);
    var s := InOrder(t);
    forall x | x in Keys(t) ensures s[0] <= x <= s[|s| - 1] {
      var i :| 0 <= i < |s| && s[i] == x;
    }
  }

  /** TreeMinMaxAreExtremes for the minimum, stated for every tree: in an
      ordered tree treeMin is nothing exactly when the tree is empty, and
      otherwise the least key. */
  lemma TreeMinIsLeast(t: Tree)
    ensures Ordered(t) ==> (TreeMin(t).None? <==> Keys(t) == {})
    ensures Ordered(t) && TreeMin(t).Some? ==>
      TreeMin(t).value in Keys(t) && forall y :: y in Keys(t) ==> TreeMin(t).value <= y
  {
    if Ordered(t) && t.Node? {
      TreeMinMaxAreExtremes(t);
    }
  }

  /** Where position i of an ordered tree's in-order sequence falls: in the
      left subtree, at the root, or in the right subtree. */
  lemma IndexSplit(t: Tree, i: int)
    requires t.Node? && Ordered(t) && 0 <= i < |InOrder(t)|
    ensures var s, sl, sr := InOrder(t), InOrder(t.left), InOrder(t.right);
      && (i < |sl| ==> s[i] == sl[i] && s[i] < t.key)
      && (i == |sl| ==> s[i] == t.key)
      && (i > |sl| ==> i - |sl| - 1 < |sr| && s[i] == sr[i - |sl| - 1] && t.key < s[i])
  {
    var s, sl, sr := InOrder(t), InOrder(t.left), InOrder(t.right);
    assert s == sl + [t.key] + sr;
    KeysAreInOrderElements(t.left);
    KeysAreInOrderElements(t.right);
    if i < |sl| {
      assert sl[i] in InOrder(t.left);
    } else if i > |sl| {
      assert sr[i - |sl| - 1] in InOrder(t.right);
    }
  }

  /** The key of nextNode applied to the node holding x: the next key of the
      in-order sequence, or nothing when x is the last one. */
  function NextKey(t: Tree, x: int): (r: Option<int>)
    requires Ordered(t) && x in Keys(t)
    ensures forall i {:trigger InOrder(t)[i]} :: 0 <= i < |InOrder(t)| && InOrder(t)[i] == x ==>
      r == if i + 1 < |InOrder(t)| then Some(InOrder(t)[i + 1]) else None
  {
    var l, k, rt := t.left, t.key, t.right;
    assert InOrder(t) == InOrder(l) + [k] + InOrder(rt);
    assert Keys(t) == Keys(l) + {k} + Keys(rt);
    if x < k then
      assert x !in Keys(rt);
      var below := NextKey(l, x);
      forall i | 0 <= i < |InOrder(t)| && InOrder(t)[i] == x
        ensures i < |InOrder(l)| && InOrder(l)[i] == x
      {
        IndexSplit(t, i);
      }
      if below.None? then Some(k) else below
    else if x == k then
      forall i | 0 <= i < |InOrder(t)| && InOrder(t)[i] == x
        ensures i == |InOrder(l)|
      {
        IndexSplit(t, i);
      }
      TreeMin(rt)
    else
      assert x !in Keys(l);
      var next := NextKey(rt, x);
      forall i {:trigger InOrder(t)[i]} | 0 <= i < |InOrder(t)| && InOrder(t)[i] == x
        ensures next == if i + 1 < |InOrder(t)| then Some(InOrder(t)[i + 1]) else None
      {
        IndexSplit(t, i);
        if i + 1 < |InOrder(t)| {
          IndexSplit(t, i + 1);
        }
        assert InOrder(rt)[i - |InOrder(l)| - 1] == x;
      }
      next
  }

  /** The key of prevNode applied to the node holding x: the previous key of
      the in-order sequence, or nothing when x is the first one. */
  function PrevKey(t: Tree, x: int): (r: Option<int>)
    requires Ordered(t) && x in Keys(t)
    ensures forall i {:trigger InOrder(t)[i]} :: 0 <= i < |InOrder(t)| && InOrder(t)[i] == x ==>
      r == if i > 0 then Some(InOrder(t)[i - 1]) else None
  {
    var l, k, rt := t.left, t.key, t.right;
    assert InOrder(t) == InOrder(l) + [k] + InOrder(rt);
    assert Keys(t) == Keys(l) + {k} + Keys(rt);
    if k < x then
      assert x !in Keys(l);
      var below := PrevKey(rt, x);
      var prev := if below.None? then Some(k) else below;
      forall i {:trigger InOrder(t)[i]} | 0 <= i < |InOrder(t)| && InOrder(t)[i] == x
        ensures prev == if i > 0 then Some(InOrder(t)[i - 1]) else None
      {
        IndexSplit(t, i);
        IndexSplit(t, i - 1);
        assert InOrder(rt)[i - |InOrder(l)| - 1] == x;
      }
      prev
    else if x == k then
      forall i | 0 <= i < |InOrder(t)| && InOrder(t)[i] == x
        ensures i == |InOrder(l)|
      {
        IndexSplit(t, i);
      }
      TreeMax(l)
    else
      assert x !in Keys(rt);
      forall i | 0 <= i < |InOrder(t)| && InOrder(t)[i] == x
        ensures i < |InOrder(l)| && InOrder(l)[i] == x
      {
        IndexSplit(t, i);
      }
      PrevKey(l, x)
  }

  /** Position-free reading of NextKey: it is the least key above x, and
      nothing exactly when no key lies above x. */
  lemma NextKeyIsSuccessor(t: Tree, x: int)
    requires Ordered(t) && x in Keys(t)
    ensures var r := NextKey(t, x);
      && (r.Some? ==> r.value in Keys(t) && x < r.value
                      && forall y :: y in Keys(t) && x < y ==> r.value <= y)
      && (r.None? <==> forall y :: y in Keys(t) ==> y <= x)
  {
    var s := InOrder(t);
    KeysAreInOrderElements(t);
    OrderedIffSorted(t);
    var i :| 0 <= i < |s| && s[i] == x;
    assert NextKey(t, x) == if i + 1 < |s| then Some(s[i + 1]) else None;
    forall y | y in Keys(t) && x < y ensures i + 1 < |s| && s[i + 1] <= y {
      var j :| 0 <= j < |s| && s[j] == y;
      assert i < j;
    }
    if i + 1 < |s| {
      assert s[i + 1] in Keys(t);
    }
  }

  /** Mirror image: PrevKey is the greatest key below x. */
  lemma PrevKeyIsPredecessor(t: Tree, x: int)
    requires Ordered(t) && x in Keys(t)
    ensures var r := PrevKey(t, x);
      && (r.Some? ==> r.value in Keys(t) && r.value < x
                      && forall y :: y in Keys(t) && y < x ==> y <= r.value)
      && (r.None? <==> forall y :: y in Keys(t) ==> x <= y)
  {
    var s := InOrder(t);
    KeysAreInOrderElements(t);
    OrderedIffSorted(t);
    var i :| 0 <= i < |s| && s[i] == x;
    assert PrevKey(t, x) == if i > 0 then Some(s[i - 1]) else None;
    forall y | y in Keys(t) && y < x ensures i > 0 && y <= s[i - 1] {
      var j :| 0 <= j < |s| && s[j] == y;
      assert j < i;
    }
    if i > 0 {
      assert s[i - 1] in Keys(t);
    }
  }

  /** nextNode on an iterator: the end iterator (nothing) stays at the end;
      from a key, the least key above it, or the end when there is none. */
  function NextNode(t: Tree, it: Option<int>): (r: Option<int>)
    requires Ordered(t) && (it.Some? ==> it.value in Keys(t))
    ensures it.None? ==> r.None?
    ensures it.Some? && r.Some? ==>
      && r.value in Keys(t) && it.value < r.value
      && forall y :: y in Keys(t) && it.value < y ==> r.value <= y
    ensures it.Some? ==> (r.None? <==> forall y :: y in Keys(t) ==> y <= it.value)
  {
    if it.None? then None
    else
      NextKeyIsSuccessor(t, it.value);
      NextKey(t, it.value)
  }

  /** prevNode on an iterator: the end iterator stays at the end, so stepping
      back from it never reaches the greatest key; from a key, the greatest
      key below it, or nothing when there is none. */
  function PrevNode(t: Tree, it: Option<int>): (r: Option<int>)
    requires Ordered(t) && (it.Some? ==> it.value in Keys(t))
    ensures it.None? ==> r.None?
    ensures it.Some? && r.Some? ==>
      && r.value in Keys(t) && r.value < it.value
      && forall y :: y in Keys(t) && y < it.value ==> y <= r.value
    ensures it.Some? ==> (r.None? <==> forall y :: y in Keys(t) ==> it.value <= y)
  {
    if it.None? then None
    else
      PrevKeyIsPredecessor(t, it.value);
      PrevKey(t, it.value)
  }

  /** u is t itself or a subtree hanging somewhere below it. */
  ghost predicate Subtree(u: Tree, t: Tree)
  {
    u == t || (t.Node? && (Subtree(u, t.left) || Subtree(u, t.right)))
  }

  /** RbTree::find: descend left on smaller keys, right on larger ones, and
      stop at an equal key. The result is the subtree rooted at the node found. */
  function Find(t: Tree, k: int): (r: Option<Tree>)
    ensures r.Some? ==> r.value.Node? && r.value.key == k && k in Keys(t) && Subtree(r.value, t)
    ensures Ordered(t) ==> (r.Some? <==> k in Keys(t))
    ensures Ordered(t) && r.Some? ==> Ordered(r.value) && Keys(r.value) <= Keys(t)
  {
    match t
    case Leaf => None
    case Node(_, l, key, rt) =>
      if k < key then Find(l, k)
      else if k == key then Some(t)
      else Find(rt, k)
  }

}
