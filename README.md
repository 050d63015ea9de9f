# Interval index over a search tree

This project models the interval index of `datastructures/intervaltree.py` in Dafny and proves
what that code does, given a working search tree underneath it (see "## Left out"). The index wraps a search tree (`AVLTree`) keyed by the low endpoint of an
interval. The value at each key is an `IntervalNode`. Each node carries a bucket
(`_intervals_at_low`) for its low endpoint. The index has three operations:

- `insert(low, high, value)` looks the low endpoint up in the tree. If it is absent, a new
  `IntervalNode` is built: its constructor already puts `(high, value)` in the bucket, insert
  appends `(high, value)` a second time, and the node goes into the tree at `low`. If the low
  endpoint is present, insert appends the node itself to its own bucket and records neither
  `high` nor `value`. Either way it then runs `_update_max_end` from the root.
- `_update_max_end(node)` is a post-order pass over the tree nodes. It returns 0 for an empty
  subtree and otherwise the larger of its children's results, and writes that number into the
  node's `max_end` attribute. No high endpoint is ever read, so every result is 0.
- `search(low)` is a lookup by exact low endpoint: the stored bucket, or `[]`.

Two modules:

- `Avl` (`avl_tree.dfy`): the tree node record of `datastructures/avltree.py:5-11` as the
  datatype `Tree` (key, value, height, `max_end`, left, right), and the `AvlTree` class with its
  `root`. The source of the tree's `search` and `insert` is not part of this model. They are
  specified by the map contract the index relies on. Search returns the stored value or `None`.
  Insert adds one key and keeps every other key's value. An unbalanced search-tree insert is the
  body that meets this contract.
- `Intervals` (`interval_tree.dfy`): the bucket entry `Entry` (a `(high, value)` pair or a
  reference to a node), the classes `IntervalNode` and `IntervalTree`, the functions
  `MaxEndFold` and `WithMaxEnd`, which say what `_update_max_end` returns and what it leaves in
  the tree, and the lemmas about them.

`IntervalTree.Valid()` is the invariant every insert keeps. Each stored node sits at its own low
endpoint, so distinct keys hold distinct nodes. Each bucket is the creating `(high, value)` pair
twice, followed by one reference to the node for every later insert at that low endpoint.

Where the code differs from what an interval tree is normally expected to do, the model
follows the code. A search is not a point-containment query. `max_end` is not the largest high
endpoint. A first insert stores its pair twice rather than once. `low > high` is accepted, not
rejected.

## Model

| member | source | states |
|---|---|---|
| `Avl.Find` | datastructures/intervaltree.py:29 | a successful lookup returns a value stored in the tree under a key the tree holds |
| `Avl.FindKeys` | datastructures/intervaltree.py:29-31 | in an ordered tree the lookup succeeds exactly when the key is stored, so the presence test on line 31 decides whether the low endpoint was inserted before |
| `Avl.Add` | datastructures/intervaltree.py:37 | tree insert adds exactly the new key to the key set; the inserted value is stored, no value other than it appears, and when the key was absent every old value is kept |
| `Avl.AddOrdered` | datastructures/intervaltree.py:37 | tree insert keeps the search-tree order |
| `Avl.AddFind` | datastructures/intervaltree.py:37 | map contract of tree insert: the inserted key maps to the new value and every other key's lookup is unchanged |
| `Avl.AvlTree.constructor` | datastructures/avltree.py:2-3 | a new tree has an empty root |
| `Avl.AvlTree.Search` | datastructures/intervaltree.py:29 | tree search yields a value exactly when the key is stored, and the value is one the tree holds; it reads only |
| `Avl.AvlTree.Insert` | datastructures/intervaltree.py:37 | after tree insert the key set grows by the key, the key maps to the value, every other key's search is unchanged, and the order invariant holds |
| `Intervals.IntervalNode.constructor` | datastructures/intervaltree.py:8-17 | a new node has the given key and value, no children, height 1, its own max end equal to the value, and a bucket of the single entry `(high, value)` |
| `Intervals.IntervalTree.constructor` | datastructures/intervaltree.py:22-23 | a new index holds no key, and every search on it returns `[]` |
| `Intervals.IntervalTree.Search` | datastructures/intervaltree.py:52-57 | the result is `[]` exactly when the low endpoint is not stored; otherwise it is the stored node's bucket: that node's `(high, value)` twice, then only references to that node. It reads only, so two calls in the same state agree |
| `Intervals.IntervalTree.Insert` | datastructures/intervaltree.py:28-39 | accepts any integers `low` and `high`, with no `low <= high` check; adds `low` to the key set. A new low endpoint's search returns exactly `[(high, value), (high, value)]`. A known low endpoint keeps its node and its bucket grows by exactly that node, with `high` and `value` not recorded. Every other low endpoint keeps its stored node, and its search is unchanged; previously stored nodes stay stored. Afterwards every tree node's `max_end` is 0 |
| `Intervals.IntervalTree.AppendToBucket` | datastructures/intervaltree.py:31-32 | the repeat-insert branch leaves the tree unchanged, appends the stored node to its own bucket and leaves every other bucket unchanged |
| `Intervals.IntervalTree.AddBucket` | datastructures/intervaltree.py:34-37 | the first-insert branch adds the key, whose bucket is then `(high, value)` twice; every other low endpoint keeps its stored node and its bucket |
| `Intervals.IntervalTree.StoreNode` | datastructures/intervaltree.py:37 | storing a node not yet in the tree at its own low endpoint adds that key, makes its search return the node's bucket, and every other low endpoint keeps its stored node and its bucket |
| `Intervals.IntervalTree.RefreshMaxEnd` | datastructures/intervaltree.py:39 | running the pass from the root leaves the tree `WithMaxEnd` of the old one: shape, keys, values and heights are unchanged (equal with `max_end` erased), as are every tree search and every bucket, and `max_end` is 0 on every node |
| `Intervals.IntervalTree.UpdateMaxEnd` | datastructures/intervaltree.py:41-50 | the pass returns the fold `MaxEndFold` of the subtree and yields the subtree `WithMaxEnd` with every node's `max_end` written. The returned value is 0, and every node's `max_end` is 0 |
| `Intervals.MaxEndFoldIsZero` | datastructures/intervaltree.py:41-50 | the value `_update_max_end` returns is 0 for every tree, empty or not |
| `Intervals.WithMaxEndWritesZero` | datastructures/intervaltree.py:41-50 | after the pass every node's `max_end` is 0 |
| `Intervals.WithMaxEndOnlyWritesMaxEnd` | datastructures/intervaltree.py:41-50 | the pass changes only `max_end`: with that attribute erased, the tree after it is the tree before it (shape, keys, values, heights) |
| `Intervals.WithMaxEndKeepsLookups` | datastructures/intervaltree.py:41-50 | the pass keeps the key set, the stored values, the search-tree order and every lookup |
| `Intervals.RepeatedLowExample` | datastructures/intervaltree.py:28-57 | after inserts (10, 20, "A") and (10, 25, "C"), search(10) is `(20, "A")` twice followed by a node reference, and search(15) is `[]` although 15 lies in [10, 20] |
| `Intervals.ReversedPairExample` | datastructures/intervaltree.py:28-39 | insert (30, 5, "B") is accepted although 30 > 5, and search(30) is `(5, "B")` twice |

## Left out

- The program does not load as written. `datastructures/avltree.py:1` is a syntax error
  (a comma is missing before `Generic`); `IAVLTREE`, `Generic`, `K` and `V` are not defined or
  imported either, and
  `datastructures/intervaltree.py:5` imports `AVLNode`, which `avltree.py` does not define (it has
  only the nested `AVLTree.Node`). The model assumes instead a working `AVLTree` whose `search`
  returns the stored `IntervalNode` or nothing, and whose `insert` stores a node at a key.
- The tree's own insert and search code, its AVL rotations, balance factors and height upkeep
  are not part of this model; `datastructures/avltree.py` holds only the constructor and node
  record. `Avl.Add` is an unbalanced search-tree insert meeting the map contract. It gives a new
  leaf height 1 and recomputes heights on its path. It never rebalances.
- `Avl.Add` replaces the value at a key that is already present. The interval index never calls
  tree insert for a present key, so the source's behaviour in that case does not matter here.
- Tree delete, traversals and size are not modelled: the interval index does not use them.
- `Intervals.IntervalTree.Search` returns the bucket as a value. The source returns the node's
  own list, which a caller could then change. That aliasing is not modelled.
- Tree nodes are datatype values. `_update_max_end` writes `max_end` into each node in place; the
  model rebuilds the tree with those attributes written and stores it as the new root. Code
  holding a tree node other than through `root` would see the difference; the source keeps no
  such reference.
- `IntervalNode._max_end` is annotated `int` but holds the value passed in. The model types it as
  the value type. The pass writes the tree node's `max_end` attribute, never `IntervalNode._max_end`.
- `IntervalNode._left`, `_right` and `_height` are never changed and never used as links. The
  model keeps them as constants: null, null and 1.
- `if node:` is modelled as a presence test. An `IntervalNode` defines neither `__bool__` nor
  `__len__`, so any stored node is true.
- Point-containment search, pruning by `max_end` and rejection of `low > high` are not in the
  code, so they are not modelled.
- The `__str__` methods and `Stocks/program.py`, a data-loading shim, are not modelled. The
  shim is cut off in the source and has no logic of its own.
