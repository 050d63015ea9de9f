/** The balanced search tree underneath the interval index (datastructures/avltree.py).
    Only its constructor and node record exist in the source; its search and insert are
    given here by the map contract the interval index relies on: search finds the value
    stored at a key or reports it absent, insert adds (or replaces) one key and leaves
    every other key's value alone. The body of the insert is a plain search-tree insert
    that meets that contract; AVL rebalancing is not part of this model. */
module Avl {

  datatype Option<+T> = None | Some(value: T)

  /** A tree node shaped like AVLTree.Node (key, value, height, left, right). maxEnd is the
      `max_end` attribute that the interval index attaches to a node: None until the index
      first writes it. */
  datatype Tree<+V> =
    | Nil
    | Node(key: int, value: V, height: int, maxEnd: Option<int>, left: Tree<V>, right: Tree<V>)

  function Keys<V>(t: Tree<V>): set<int> {
    match t
    case Nil => {}
    case Node(k, _, _, _, l, r) => Keys(l) + {k} + Keys(r)
  }

  ghost function Values<V>(t: Tree<V>): set<V> {
    match t
    case Nil => {}
    case Node(_, v, _, _, l, r) => Values(l) + {v} + Values(r)
  }

  /** Search-tree order on keys: smaller keys to the left, larger to the right, no duplicates. */
  ghost predicate Ordered<V>(t: Tree<V>) {
    match t
    case Nil => true
    case Node(k, _, _, _, l, r) =>
      (forall x :: x in Keys(l) ==> x < k) &&
      (forall x :: x in Keys(r) ==> k < x) &&
      Ordered(l) && Ordered(r)
  }

  function Height<V>(t: Tree<V>): int {
    if t.Nil? then 0 else t.height
  }

  /** Lookup by descent on key comparison; None for an absent key. */
  function Find<V>(t: Tree<V>, key: int): (res: Option<V>)
    ensures res.Some? ==> key in Keys(t) && res.value in Values(t)
  {
    match t
    case Nil => None
    case Node(k, v, _, _, l, r) =>
      if key < k then Find(l, key)
      else if k < key then Find(r, key)
      else Some(v)
  }

  /** Insert-or-replace at `key`. A new node starts with height 1 and no max_end attribute. */
  function Add<V>(t: Tree<V>, key: int, value: V): (res: Tree<V>)
    ensures Keys(res) == Keys(t) + {key}
    ensures value in Values(res) && Values(res) <= Values(t) + {value}
    ensures key !in Keys(t) ==> Values(res) == Values(t) + {value}
  {
    match t
    case Nil => Node(key, value, 1, None, Nil, Nil)
    case Node(k, v, h, m, l, r) =>
      if key < k then
        var l' := Add(l, key, value);
        Node(k, v, 1 + if Height(l') < Height(r) then Height(r) else Height(l'), m, l', r)
      else if k < key then
        var r' := Add(r, key, value);
        Node(k, v, 1 + if Height(l) < Height(r') then Height(r') else Height(l), m, l, r')
      else
        Node(k, value, h, m, l, r)
  }

  /** In an ordered tree the lookup succeeds exactly for the stored keys. */
  lemma {:induction false} FindKeys<V>(t: Tree<V>, key: int)
    requires Ordered(t)
    ensures Find(t, key).Some? <==> key in Keys(t)
  {
    match t
    case Nil =>
    case Node(k, _, _, _, l, r) =>
      if key < k {
        FindKeys(l, key);
        assert key !in Keys(r);
      } else if k < key {
        FindKeys(r, key);
        assert key !in Keys(l);
      }
  }

  /** Insert keeps the search-tree order. */
  lemma {:induction false} AddOrdered<V>(t: Tree<V>, key: int, value: V)
    requires Ordered(t)
    ensures Ordered(Add(t, key, value))
  {
    match t
    case Nil =>
    case Node(k, _, _, _, l, r) =>
      if key < k {
        AddOrdered(l, key, value);
      } else if k < key {
        AddOrdered(r, key, value);
      }
  }

  /** The map contract of insert: the inserted key now maps to the new value, and every
      other key maps to what it mapped to before. */
  lemma {:induction false} AddFind<V>(t: Tree<V>, key: int, value: V, k: int)
    ensures Find(Add(t, key, value), k) == if k == key then Some(value) else Find(t, k)
  {
    match t
    case Nil =>
    case Node(k0, _, _, _, l, r) =>
      if key < k0 && k < k0 {
        AddFind(l, key, value, k);
      } else if k0 < key && k0 < k {
        AddFind(r, key, value, k);
      }
  }

  /** The tree object: AVLTree with its `root` (datastructures/avltree.py:1-3). */
  class AvlTree<V> {
    var root: Tree<V>

    constructor()
      ensures root == Nil
    {
      root := Nil;
    }

    ghost predicate Valid()
      reads this
    {
      Ordered(root)
    }

    /** `search(key)`: the stored value, or None when the key is absent; reads only. */
    function Search(key: int): (res: Option<V>)
      reads this
      requires Valid()
      ensures res.Some? <==> key in Keys(root)
      ensures res.Some? ==> res.value in Values(root)
    {
      FindKeys(root, key);
      Find(root, key)
    }

    /** `insert(key, value)`: adds `key` (replacing its value if present); nothing else changes. */
    method Insert(key: int, value: V)
      requires Valid()
      modifies this
      ensures Valid()
      ensures Keys(root) == old(Keys(root)) + {key}
      ensures value in Values(root) && Values(root) <= old(Values(root)) + {value}
      ensures key !in old(Keys(root)) ==> Values(root) == old(Values(root)) + {value}
      ensures Search(key) == Some(value)
      ensures forall k :: k != key ==> Search(k) == old(Search(k))
    {
      AddOrdered(root, key, value);
      forall k
        ensures Find(Add(root, key, value), k) == if k == key then Some(value) else Find(root, k)
      {
        AddFind(root, key, value, k);
      }
      root := Add(root, key, value);
    }
  }
}
