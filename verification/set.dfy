/**
 The deduplicating set around RbTree. Insert only reaches the tree for a
 key that is absent and erase only for a key that is present, so here the
 node count is exactly the number of keys.
 */
module OrderedSet {
  import opened Options
  import opened LlrbNode
  import opened Traversal
  import Container

  datatype Set = Set(tree: Container.RbTree)

  /** The keys held by the set. */
  ghost function Elements(s: Set): set<int>
  {
    Keys(s.tree.root)
  }

  /** The tree invariant, and a count equal to the number of keys. */
  ghost predicate Valid(s: Set)
  {
    Container.Valid(s.tree) && s.tree.nodeCnt == |Elements(s)|
  }

  /** The default constructor. */
  function Empty(): (r: Set)
    ensures Valid(r) && Elements(r) == {}
  {
    Set(Container.Empty())
  }

  /** set::size: the stored count, which on a valid set is the number of
      distinct elements. */
  function Size(s: Set): (r: nat)
    ensures Valid(s) ==> r == |Elements(s)|
  {
    s.tree.nodeCnt
  }

  /** set::empty: the stored count is zero, which on a valid set means there
      are no elements. */
  function IsEmpty(s: Set): (r: bool)
    ensures Valid(s) ==> (r <==> Elements(s) == {})
  {
    s.tree.nodeCnt == 0
  }

  /** set::find, reduced to the key under the iterator it returns: the key
      itself when present, nothing (the end iterator) otherwise. */
  function Find(s: Set, k: int): (r: Option<int>)
    ensures r.Some? ==> r.value == k
    ensures Ordered(s.tree.root) ==> (r.Some? <==> k in Elements(s))
  {
    var node := Traversal.Find(s.tree.root, k);
    if node.Some? then Some(node.value.key) else None
  }

  /** set::insert: the tree is asked only when the key is not found. The
      invariant is kept and the size grows by one exactly when the key was
      absent. */
  function Insert(s: Set, k: int): (r: Set)
    ensures Elements(r) == Elements(s) + {k}
    ensures Ordered(s.tree.root) ==> Ordered(r.tree.root)
    ensures Valid(s) ==> Valid(r) && Size(r) == Size(s) + (if k in Elements(s) then 0 else 1)
  {
    if Traversal.Find(s.tree.root, k).Some? then s
    else
      Container.InsertKeepsValid(s.tree, k);
      Set(Container.Insert(s.tree, k))
  }

  /** set::erase: the tree is asked only when the key is found. The invariant
      is kept and the size shrinks by one exactly when the key was present. */
  function Erase(s: Set, k: int): (r: Set)
    requires Valid(s)
    ensures Elements(r) == Elements(s) - {k}
    ensures Valid(r) && Size(r) == Size(s) - (if k in Elements(s) then 1 else 0)
  {
    if Traversal.Find(s.tree.root, k).Some? then
      Container.EraseKeepsValid(s.tree, k);
      Set(Container.Erase(s.tree, k))
    else s
  }

  /** begin(): the cached leftmost key. On a valid set it is the least
      element, and the end iterator exactly when the set is empty. */
  function Begin(s: Set): (r: Option<int>)
    ensures Valid(s) ==> (r.None? <==> Elements(s) == {})
    ensures Valid(s) && r.Some? ==>
      r.value in Elements(s) && forall y :: y in Elements(s) ==> r.value <= y
  {
    TreeMinIsLeast(s.tree.root);
    s.tree.leftmost
  }

  /** Inserting a present key, or erasing an absent one, changes nothing. */
  lemma NoOpCases(s: Set, k: int)
    requires Valid(s)
    ensures k in Elements(s) ==> Insert(s, k) == s
    ensures k !in Elements(s) ==> Erase(s, k) == s
  {
  }

  /** Inserting twice is inserting once. */
  lemma InsertIdempotent(s: Set, k: int)
    requires Valid(s)
    ensures Insert(Insert(s, k), k) == Insert(s, k)
  {
  }

  /** Erasing twice is erasing once. */
  lemma EraseIdempotent(s: Set, k: int)
    requires Valid(s)
    ensures Erase(Erase(s, k), k) == Erase(s, k)
  {
  }

  /** Erasing a key just inserted gives back the keys and the size of before. */
  lemma EraseUndoesInsert(s: Set, k: int)
    requires Valid(s) && k !in Elements(s)
    ensures Elements(Erase(Insert(s, k), k)) == Elements(s)
    ensures Size(Erase(Insert(s, k), k)) == Size(s)
  {
  }

  /** After insert the key is found; after erase it is not. */
  lemma FindAfterUpdate(s: Set, k: int)
    requires Valid(s)
    ensures Find(Insert(s, k), k) == Some(k)
    ensures Find(Erase(s, k), k) == None
  {
  }

}
