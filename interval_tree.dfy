/** The interval index of datastructures/intervaltree.py: a wrapper over the search tree of
    module Avl, keyed by an interval's low endpoint, whose values are IntervalNode objects
    each holding a bucket for that low endpoint. The model follows the code as written:
    a first insert records its (high, value) pair twice, a later insert at the same low
    appends the node itself, the max_end pass never reads a high endpoint and so writes 0
    everywhere, and search is a lookup by exact low endpoint. */
module Intervals {
  import opened Avl

  /** One element of a bucket: a (high, value) pair, or a reference to an IntervalNode
      (what a repeated insert at the same low endpoint appends). */
  datatype Entry<V> = Interval(high: int, value: V) | NodeEntry(node: IntervalNode<V>)

  function Max(a: int, b: int): int {
    if a < b then b else a
  }

  /** IntervalNode. Only its bucket is ever changed after construction. */
  class IntervalNode<V> {
    const key: (int, int)
    const value: V
    const left: IntervalNode?<V>
    const right: IntervalNode?<V>
    const height: int
    const maxEnd: V
    var intervalsAtLow: seq<Entry<V>>

    /** A fresh node: height 1, no children, its own max end set to the value, and a bucket
        holding the one pair (high, value). */
    constructor(key: (int, int), value: V)
      ensures this.key == key && this.value == value
      ensures left == null && right == null && height == 1
      ensures maxEnd == value
      ensures intervalsAtLow == [Interval(key.1, value)]
    {
      this.key := key;
      this.value := value;
      left := null;
      right := null;
      height := 1;
      maxEnd := value;
      intervalsAtLow := [Interval(key.1, value)];
    }

    /** The shape every bucket stored in an IntervalTree has: the creating (high, value)
        pair twice, then one reference to this node per later insert at the same low. */
    ghost predicate BucketShape()
      reads this
    {
      |intervalsAtLow| >= 2 &&
      intervalsAtLow[0] == Interval(key.1, value) &&
      intervalsAtLow[1] == Interval(key.1, value) &&
      forall i :: 2 <= i < |intervalsAtLow| ==> intervalsAtLow[i] == NodeEntry(this)
    }
  }

  /** The value `_update_max_end` returns for a subtree: 0 for an empty one, otherwise the
      larger of the two children's results. No high endpoint enters it. */
  function MaxEndFold<V>(t: Tree<V>): int {
    match t
    case Nil => 0
    case Node(_, _, _, _, l, r) => Max(MaxEndFold(l), MaxEndFold(r))
  }

  /** The subtree after `_update_max_end` ran on it: each node's max_end holds the fold of
      the subtree below it. */
  function WithMaxEnd<V>(t: Tree<V>): Tree<V> {
    match t
    case Nil => Nil
    case Node(k, v, h, _, l, r) => Node(k, v, h, Some(MaxEndFold(t)), WithMaxEnd(l), WithMaxEnd(r))
  }

  /** The tree with every max_end attribute removed: what the pass must leave alone. */
  function Erased<V>(t: Tree<V>): Tree<V> {
    match t
    case Nil => Nil
    case Node(k, v, h, _, l, r) => Node(k, v, h, None, Erased(l), Erased(r))
  }

  ghost predicate MaxEndsAre<V>(t: Tree<V>, m: int) {
    match t
    case Nil => true
    case Node(_, _, _, e, l, r) => e == Some(m) && MaxEndsAre(l, m) && MaxEndsAre(r, m)
  }

  /** The fold returns 0 on every tree. */
  lemma {:induction false} MaxEndFoldIsZero<V>(t: Tree<V>)
    ensures MaxEndFold(t) == 0
  {
    match t
    case Nil =>
    case Node(_, _, _, _, l, r) =>
      MaxEndFoldIsZero(l);
      MaxEndFoldIsZero(r);
  }

  /** After the pass every node's max_end is 0. */
  lemma {:induction false} WithMaxEndWritesZero<V>(t: Tree<V>)
    ensures MaxEndsAre(WithMaxEnd(t), 0)
  {
    match t
    case Nil =>
    case Node(_, _, _, _, l, r) =>
      MaxEndFoldIsZero(t);
      WithMaxEndWritesZero(l);
      WithMaxEndWritesZero(r);
  }

  /** The pass writes only max_end: shape, keys, values and heights are as before. */
  lemma {:induction false} WithMaxEndOnlyWritesMaxEnd<V>(t: Tree<V>)
    ensures Erased(WithMaxEnd(t)) == Erased(t)
  {
    match t
    case Nil =>
    case Node(_, _, _, _, l, r) =>
      WithMaxEndOnlyWritesMaxEnd(l);
      WithMaxEndOnlyWritesMaxEnd(r);
  }

  /** Consequently the pass keeps the key set, the stored values, the order and every lookup. */
  lemma {:induction false} WithMaxEndKeepsLookups<V>(t: Tree<V>)
    ensures Keys(WithMaxEnd(t)) == Keys(t) && Values(WithMaxEnd(t)) == Values(t)
    ensures Ordered(t) ==> Ordered(WithMaxEnd(t))
    ensures forall k :: Find(WithMaxEnd(t), k) == Find(t, k)
  {
    match t
    case Nil =>
    case Node(_, _, _, _, l, r) =>
      WithMaxEndKeepsLookups(l);
      WithMaxEndKeepsLookups(r);
  }

  /** IntervalTree, holding the search tree `_tree`. */
  class IntervalTree<V> {
    const tree: AvlTree<IntervalNode<V>>

    /** The IntervalNode objects stored in the tree. */
    ghost var nodes: set<IntervalNode<V>>

    /** Each stored node sits at its own low endpoint and has the bucket shape above; so
        distinct keys hold distinct nodes. */
    ghost predicate Valid()
      reads this, tree, nodes
    {
      tree.Valid() &&
      nodes == Values(tree.root) &&
      (forall k :: Find(tree.root, k).Some? ==> Find(tree.root, k).value.key.0 == k) &&
      (forall n :: n in nodes ==> n.BucketShape())
    }

    /** A fresh index is empty: every search returns the empty bucket. */
    constructor()
      ensures Valid() && fresh(tree)
      ensures Keys(tree.root) == {}
      ensures forall low :: Search(low) == []
    {
      tree := new AvlTree();
      nodes := {};
    }

    /** `search(low)`: the bucket stored at exactly this low endpoint, or [] when none is.
        It only reads the index, so repeated calls in the same state agree. */
    function Search(low: int): (bucket: seq<Entry<V>>)
      reads this, tree, nodes
      requires Valid()
      ensures bucket == [] <==> low !in Keys(tree.root)
      ensures Find(tree.root, low).Some? ==>
                var n := Find(tree.root, low).value;
                n.key.0 == low && |bucket| >= 2 &&
                bucket[0] == Interval(n.key.1, n.value) && bucket[1] == Interval(n.key.1, n.value) &&
                forall i :: 2 <= i < |bucket| ==> bucket[i] == NodeEntry(n)
    {
      match tree.Search(low)
      case Some(node) => node.intervalsAtLow
      case None => []
    }

    /** `_update_max_end(node)`: the post-order pass over the search tree. The tree nodes are
        values here, so the pass returns the subtree with its max_end attributes written,
        alongside the value the source returns. */
    static method UpdateMaxEnd(node: Tree<IntervalNode<V>>) returns (updated: Tree<IntervalNode<V>>, maxEnd: int)
      ensures updated == WithMaxEnd(node) && maxEnd == MaxEndFold(node)
      ensures maxEnd == 0 && MaxEndsAre(updated, 0)
    {
      if node.Nil? {
        return Nil, 0;
      }
      var left, leftMax := UpdateMaxEnd(node.left);
      var right, rightMax := UpdateMaxEnd(node.right);
      maxEnd := Max(leftMax, rightMax);
      updated := node.(maxEnd := Some(maxEnd), left := left, right := right);
    }

    /** `insert(low, high, value)`. Any pair of integers is accepted; low <= high is not
        checked. A new low gets a node whose bucket holds (high, value) twice; a known low
        gets the node itself appended to its bucket, and high and value are dropped. Every
        other bucket is unchanged, and the max_end pass then leaves 0 on every tree node. */
    method Insert(low: int, high: int, value: V)
      requires Valid()
      modifies this, tree, nodes
      ensures Valid() && old(nodes) <= nodes && fresh(nodes - old(nodes))
      ensures Keys(tree.root) == old(Keys(tree.root)) + {low}
      ensures low !in old(Keys(tree.root)) ==>
                Search(low) == [Interval(high, value), Interval(high, value)]
      ensures low in old(Keys(tree.root)) ==>
                tree.Search(low) == old(tree.Search(low)) &&
                Search(low) == old(Search(low)) + [NodeEntry(tree.Search(low).value)]
      ensures forall k :: k != low ==> tree.Search(k) == old(tree.Search(k))
      ensures forall k :: k != low ==> Search(k) == old(Search(k))
      ensures MaxEndsAre(tree.root, 0)
    {
      var node := tree.Search(low);
      if node.Some? {
        AppendToBucket(low);
      } else {
        AddBucket(low, high, value);
      }
      RefreshMaxEnd();
    }

    /** The repeat-insert branch: the node stored at `low` is appended to its own bucket. */
    method AppendToBucket(low: int)
      requires Valid() && low in Keys(tree.root)
      modifies nodes
      ensures Valid() && tree.root == old(tree.root)
      ensures Search(low) == old(Search(low)) + [NodeEntry(tree.Search(low).value)]
      ensures forall k :: k != low ==> tree.Search(k) == old(tree.Search(k))
      ensures forall k :: k != low ==> Search(k) == old(Search(k))
    {
      var node := tree.Search(low).value;
      node.intervalsAtLow := node.intervalsAtLow + [NodeEntry(node)];
      forall k | k != low
        ensures Search(k) == old(Search(k))
      {
        if Find(tree.root, k).Some? {
          assert Find(tree.root, k).value != node;
        }
      }
    }

    /** The first-insert branch: a new IntervalNode, whose bucket receives (high, value) a
        second time, is added to the tree at `low`. */
    method AddBucket(low: int, high: int, value: V)
      requires Valid() && low !in Keys(tree.root)
      modifies this, tree
      ensures Valid() && old(nodes) <= nodes && fresh(nodes - old(nodes))
      ensures Keys(tree.root) == old(Keys(tree.root)) + {low}
      ensures Search(low) == [Interval(high, value), Interval(high, value)]
      ensures forall k :: k != low ==> tree.Search(k) == old(tree.Search(k))
      ensures forall k :: k != low ==> Search(k) == old(Search(k))
    {
      var newNode := new IntervalNode((low, high), value);
      newNode.intervalsAtLow := newNode.intervalsAtLow + [Interval(high, value)];
      StoreNode(newNode);
    }

    /** Adds a node that is not yet stored at its own low endpoint. */
    method StoreNode(node: IntervalNode<V>)
      requires Valid() && node.key.0 !in Keys(tree.root) && node !in nodes && node.BucketShape()
      modifies this, tree
      ensures Valid() && nodes == old(nodes) + {node}
      ensures Keys(tree.root) == old(Keys(tree.root)) + {node.key.0}
      ensures Search(node.key.0) == node.intervalsAtLow
      ensures forall k :: k != node.key.0 ==> tree.Search(k) == old(tree.Search(k))
      ensures forall k :: k != node.key.0 ==> Search(k) == old(Search(k))
    {
      tree.Insert(node.key.0, node);
      nodes := nodes + {node};
      forall k | Find(tree.root, k).Some?
        ensures Find(tree.root, k).value.key.0 == k
      {
        assert tree.Search(k) == Find(tree.root, k);
        if k != node.key.0 {
          assert old(tree.Search(k)) == old(Find(tree.root, k));
        }
      }
      forall k | k != node.key.0
        ensures Search(k) == old(Search(k))
      {
        assert tree.Search(k) == old(tree.Search(k));
      }
    }

    /** The last step of insert: the max_end pass is run from the root, every tree node's
        max_end is rewritten, and nothing else in the tree (shape, keys, values, heights) or
        any search changes. */
    method RefreshMaxEnd()
      requires Valid()
      modifies tree
      ensures Valid()
      ensures Keys(tree.root) == old(Keys(tree.root))
      ensures forall k :: tree.Search(k) == old(tree.Search(k))
      ensures forall k :: Search(k) == old(Search(k))
      ensures MaxEndsAre(tree.root, 0)
      ensures tree.root == WithMaxEnd(old(tree.root))
      ensures Erased(tree.root) == Erased(old(tree.root))
    {
      var annotated, _ := UpdateMaxEnd(tree.root);
      WithMaxEndKeepsLookups(tree.root);
      WithMaxEndOnlyWritesMaxEnd(tree.root);
      tree.root := annotated;
    }
  }

  /** A caller's view of a repeated low endpoint: the second insert at 10 appends the node
      rather than (25, "C"), and a point inside [10, 20] that is not a stored low endpoint
      finds nothing. */
  method RepeatedLowExample() returns (atTen: seq<Entry<string>>, atFifteen: seq<Entry<string>>)
    ensures |atTen| == 3 && atTen[0] == atTen[1] == Interval(20, "A") && atTen[2].NodeEntry?
    ensures atFifteen == []
  {
    var index := new IntervalTree<string>();
    index.Insert(10, 20, "A");
    index.Insert(10, 25, "C");
    atTen := index.Search(10);
    atFifteen := index.Search(15);
  }

  /** A reversed pair (30, 5) is stored like any other. */
  method ReversedPairExample() returns (atThirty: seq<Entry<string>>)
    ensures atThirty == [Interval(5, "B"), Interval(5, "B")]
  {
    var index := new IntervalTree<string>();
    index.Insert(30, 5, "B");
    atThirty := index.Search(30);
  }
}
