# Size-augmented binary search tree

This project models `BSTree<Key, Value>`, an ordered map kept as an
unbalanced binary search tree. Every node records `N`, the number of nodes in
its subtree, and the order-statistics queries `select` and `rank` use it. It is
written in Dafny and follows the Java class layer by layer. Keys are `int`
with their natural order, standing in for `Comparable`. The value type is a
type parameter.

- `Wrappers`: `Option`, stating that a Java reference may be `null`, and `Result`
  with the two exceptions the class throws (`NoSuchElement`, `IllegalArgument`).
- `Trees`: the ghost value `Tree` of a subtree (key, value, children, recorded
  count). Its views are the node count, the key set, the key/value map `Content`
  and the in-order key sequence. It also defines the two invariants that make
  a subtree a valid tree: symmetric order (`Ordered`) and correct counts
  (`SizeConsistent`).
- `TreeEdits`: what `put`, `deleteMin`, `deleteMax` and Hibbard `delete` do to
  a tree value, step for step. Lemmas state their effect on keys, contents,
  counts and the two invariants.
- `Sequences`: counting the keys below a bound (`rank`) and keeping the keys of
  a closed range (`keys(lo, hi)`), on sequences.
- `Levels`: the queue process of `levelOrder()` on tree values (`Drain`) and an
  independent breadth-first definition (`BreadthFirst`), proved equal.
- `Nodes`: the heap. `Node` is a class with the Java fields: `key` (never
  reassigned, so a `const`), `val`, `left`, `right` and `N`. It also carries
  two ghosts: `T`, the tree value of its subtree, and `Repr`, its footprint.
  - The private recursive helpers are functions over nodes.
  - The mutators are methods that rewrite the fields in place and return the
    new subtree root, proved against `TreeEdits`.
  - `keys(node, queue, lo, hi)` appends to a list object.
- `BinarySearchTree`: the public class `BSTree`, holding the `root` field.
  - Its invariant `Valid()` says that the nodes form a tree in symmetric
    order with consistent counts.
  - Its abstract state is `Shape()` (a tree value) and `Contents()` (a map).
  - Every public operation is stated against those.
- `Scenarios`: one client session.

## Model

| member | source | states |
|---|---|---|
| Nodes.Node.constructor | src/binarysearchtree/BSTree.java:32-36 | a new node is a valid one-node subtree holding the key, the value and the given count `N` |
| Nodes.Node.Relink | src/binarysearchtree/BSTree.java:96 | after re-linking both children, `N` is one plus the children's recorded counts and the node again represents a valid subtree made of itself and the two child footprints |
| Nodes.Size | src/binarysearchtree/BSTree.java:53-56 | the count recorded at a node, 0 for null, which is the true node count when counts are consistent |
| Nodes.Get | src/binarysearchtree/BSTree.java:68-78 | in an ordered subtree, the value stored under the key, or null exactly when the key is absent |
| Nodes.MinNode | src/binarysearchtree/BSTree.java:164-167 | the leftmost node, which has no left child and holds a stored key no larger than any other |
| Nodes.MaxNode | src/binarysearchtree/BSTree.java:174-177 | the rightmost node, which has no right child and holds a stored key no smaller than any other |
| Nodes.Floor | src/binarysearchtree/BSTree.java:189-197 | a stored key at most the query and, in an ordered subtree, the largest such key; null only when every key is larger |
| Nodes.Ceiling | src/binarysearchtree/BSTree.java:207-217 | a stored key at least the query and, in an ordered subtree, the smallest such key; null only when every key is smaller |
| Nodes.Select | src/binarysearchtree/BSTree.java:227-233 | with consistent counts, a node is found exactly when `0 <= k < count`, and it holds position `k` of the in-order key sequence |
| Nodes.Rank | src/binarysearchtree/BSTree.java:241-247 | in a valid subtree, the number of in-order keys strictly below the query |
| Nodes.GetHeight | src/binarysearchtree/BSTree.java:281-284 | -1 exactly for null; the depths at which nodes occur are exactly `0 .. result` |
| Nodes.TreeExists | src/binarysearchtree/BSTree.java:315-324 | true exactly when the subtree is in symmetric order and every key lies strictly between the optional bounds |
| Nodes.IsSizeConsistent | src/binarysearchtree/BSTree.java:332-339 | true exactly when every recorded count equals its subtree's node count |
| Nodes.Put | src/binarysearchtree/BSTree.java:90-98 | the returned subtree is valid, is `node` itself unless it was null, has only new nodes added, and represents the insertion of the entry into the old one |
| Nodes.DeleteMin | src/binarysearchtree/BSTree.java:108-113 | the returned subtree is valid, loses exactly the leftmost node (left untouched), and represents the old tree without its minimum |
| Nodes.DeleteMax | src/binarysearchtree/BSTree.java:122-127 | the returned subtree is valid, loses exactly the rightmost node, and represents the old tree without its maximum |
| Nodes.Delete | src/binarysearchtree/BSTree.java:135-155 | the returned subtree is valid, uses only old nodes, and represents Hibbard deletion of the key from the old tree |
| Nodes.KeyList.Add | src/binarysearchtree/BSTree.java:266 | appending a key puts it at the end of the list |
| Nodes.CollectKeys | src/binarysearchtree/BSTree.java:261-268 | in an ordered subtree, the list gains exactly the in-order keys in `[lo, hi]`, appended in order |
| TreeEdits.Insert | src/binarysearchtree/BSTree.java:90-98 | the result of `put(node, …)` is never null, and an existing subtree keeps its root key |
| TreeEdits.Leftmost | src/binarysearchtree/BSTree.java:164-167 | `min(node)` of a non-empty subtree is a node without a left child |
| TreeEdits.Rightmost | src/binarysearchtree/BSTree.java:174-177 | `max(node)` of a non-empty subtree is a node without a right child |
| TreeEdits.RemoveMin | src/binarysearchtree/BSTree.java:108-113 | `deleteMin(node)` keeps the root node unless the root is the minimum, that is, has no left child |
| TreeEdits.RemoveMax | src/binarysearchtree/BSTree.java:122-127 | `deleteMax(node)` keeps the root node unless the root is the maximum, that is, has no right child |
| TreeEdits.Remove | src/binarysearchtree/BSTree.java:135-155 | `delete(node, key)` of null is null, and keeps the root node unless the root holds the key |
| TreeEdits.InsertPresentInOrder | src/binarysearchtree/BSTree.java:90-98 | re-inserting a key that is already present leaves the in-order sequence of keys unchanged: only the value is replaced |
| TreeEdits.InsertKeySet | src/binarysearchtree/BSTree.java:90-98 | insertion adds exactly the key to the key set |
| TreeEdits.InsertOrdered | src/binarysearchtree/BSTree.java:90-98 | insertion keeps symmetric order |
| TreeEdits.InsertSizeConsistent | src/binarysearchtree/BSTree.java:96 | insertion keeps every recorded count correct |
| TreeEdits.InsertCount | src/binarysearchtree/BSTree.java:90-98 | insertion grows the node count by one for an absent key and keeps it for a present key |
| TreeEdits.InsertContent | src/binarysearchtree/BSTree.java:90-98 | insertion maps the key to the new value and leaves every other entry as it was |
| TreeEdits.LeftmostIsMin | src/binarysearchtree/BSTree.java:164-167 | the leftmost node has no left child and, in an ordered tree, holds the least key with its stored value |
| TreeEdits.RemoveMinInOrder | src/binarysearchtree/BSTree.java:108-113 | removing the minimum drops exactly the first in-order key, which is the leftmost node's |
| TreeEdits.RemoveMinKeySet | src/binarysearchtree/BSTree.java:108-113 | in an ordered tree, removing the minimum drops exactly the least key |
| TreeEdits.RemoveMinOrdered | src/binarysearchtree/BSTree.java:108-113 | removing the minimum keeps symmetric order |
| TreeEdits.RemoveMinCount | src/binarysearchtree/BSTree.java:108-113 | removing the minimum lowers the node count by one |
| TreeEdits.RemoveMinSizeConsistent | src/binarysearchtree/BSTree.java:111 | removing the minimum keeps every recorded count correct |
| TreeEdits.RemoveMinContent | src/binarysearchtree/BSTree.java:108-113 | in an ordered tree, removing the minimum removes exactly the least entry |
| TreeEdits.RightmostIsMax | src/binarysearchtree/BSTree.java:174-177 | the rightmost node has no right child and, in an ordered tree, holds the greatest key with its stored value |
| TreeEdits.RemoveMaxInOrder | src/binarysearchtree/BSTree.java:122-127 | removing the maximum drops exactly the last in-order key |
| TreeEdits.RemoveMaxKeySet | src/binarysearchtree/BSTree.java:122-127 | in an ordered tree, removing the maximum drops exactly the greatest key |
| TreeEdits.RemoveMaxOrdered | src/binarysearchtree/BSTree.java:122-127 | removing the maximum keeps symmetric order |
| TreeEdits.RemoveMaxCount | src/binarysearchtree/BSTree.java:122-127 | removing the maximum lowers the node count by one |
| TreeEdits.RemoveMaxSizeConsistent | src/binarysearchtree/BSTree.java:125 | removing the maximum keeps every recorded count correct |
| TreeEdits.RemoveMaxContent | src/binarysearchtree/BSTree.java:122-127 | in an ordered tree, removing the maximum removes exactly the greatest entry |
| TreeEdits.RemoveAbsent | src/binarysearchtree/BSTree.java:135-155 | deleting an absent key from a valid tree returns the very same tree value |
| TreeEdits.RemoveKeySet | src/binarysearchtree/BSTree.java:135-155 | in an ordered tree, deletion removes exactly the key from the key set |
| TreeEdits.RemoveOrdered | src/binarysearchtree/BSTree.java:135-155 | deletion, including the two-child replacement, keeps symmetric order |
| TreeEdits.RemoveSizeConsistent | src/binarysearchtree/BSTree.java:153 | deletion keeps every recorded count correct |
| TreeEdits.RemoveCount | src/binarysearchtree/BSTree.java:135-155 | deletion lowers the node count by one exactly when the key was present |
| TreeEdits.RemoveContent | src/binarysearchtree/BSTree.java:135-155 | deletion removes exactly the key's entry and keeps every other entry |
| TreeEdits.HibbardReplacement | src/binarysearchtree/BSTree.java:148-151 | a node with two children is replaced by the least entry of its right subtree, keeping the old left subtree |
| Trees.InOrderKeySet | src/binarysearchtree/BSTree.java:26-37 | the in-order sequence lists the key set and has the node count as its length |
| Trees.ContentKeySet | src/binarysearchtree/BSTree.java:26-37 | the keys of the content map are the key set |
| Trees.OrderedIncreasing | src/binarysearchtree/BSTree.java:315-324 | a tree in symmetric order lists its keys strictly ascending in order |
| Trees.OrderedCount | src/binarysearchtree/BSTree.java:26-37 | an ordered tree has as many distinct keys as nodes |
| Trees.ContentSearch | src/binarysearchtree/BSTree.java:68-78 | in an ordered tree a key is found in the left or right subtree according to its comparison with the root key |
| Trees.RankStep | src/binarysearchtree/BSTree.java:241-247 | the in-order count below a key splits at the root as the three branches of `rank` compute it |
| Trees.RangeStep | src/binarysearchtree/BSTree.java:261-268 | the in-order keys in a range split at the root into the three pruned parts `keys(node, …)` appends |
| Sequences.CountBelowAt | src/binarysearchtree/BSTree.java:342-348 | in a strictly increasing sequence exactly `i` elements lie below the element at position `i` |
| Sequences.BetweenMembers | src/binarysearchtree/BSTree.java:255-268 | the range filter keeps exactly the elements inside `[lo, hi]` |
| Sequences.BetweenIncreasing | src/binarysearchtree/BSTree.java:255-268 | the range filter keeps a strictly increasing sequence strictly increasing |
| Sequences.BetweenNone | src/binarysearchtree/BSTree.java:272 | a range containing no element is empty, in particular one with `lo > hi` |
| Sequences.BetweenSize | src/binarysearchtree/BSTree.java:271-275 | the length of a range is `rank(hi) - rank(lo)`, plus one when `hi` is present |
| Sequences.CountBelowIsCard | src/binarysearchtree/BSTree.java:241-247 | in a strictly increasing sequence, the count below a key is the number of distinct values below it |
| Sequences.BetweenAll | src/binarysearchtree/BSTree.java:250-252 | a range spanning every element keeps the whole sequence |
| Levels.LevelOrderIsBreadthFirst | src/binarysearchtree/BSTree.java:287-299 | the queue process started on the root emits the keys level by level, each level left to right |
| Levels.LevelOrderKeys | src/binarysearchtree/BSTree.java:287-299 | the queue process started on the root emits every key once and nothing else |
| Levels.Drain | src/binarysearchtree/BSTree.java:287-299 | the keys the queue loop emits from a given queue of subtrees (a definition; its properties are the rows that follow) |
| Levels.DrainFront | src/binarysearchtree/BSTree.java:292-296 | one loop step drops an empty front or emits its key and enqueues its children, and the queue gets lighter |
| Levels.DrainSplit | src/binarysearchtree/BSTree.java:291-297 | draining one queue before another emits the roots of the first and then drains the second followed by the children the first enqueued |
| Levels.DrainContents | src/binarysearchtree/BSTree.java:291-297 | the queue process emits as many keys as the queue holds nodes, exactly the keys it holds |
| Levels.LevelOccupied | src/binarysearchtree/BSTree.java:281-284 | a level is non-empty exactly when some node lies at that depth |
| BinarySearchTree.ContentSize | src/binarysearchtree/BSTree.java:43-56 | an ordered tree stores one entry per node and is empty exactly when it has no node |
| BinarySearchTree.SortedKeys | src/binarysearchtree/BSTree.java:255-268 | the in-order keys of an ordered tree are its stored keys, strictly ascending, one per node |
| BinarySearchTree.RankCountsKeys | src/binarysearchtree/BSTree.java:236-247 | the in-order count below a key is the number of stored keys below it |
| BinarySearchTree.RangeCount | src/binarysearchtree/BSTree.java:255-275 | the range listing has one entry per stored key inside the range |
| BinarySearchTree.RankOfSelect | src/binarysearchtree/BSTree.java:342-344 | `rank(select(k)) == k` for every `k` in range |
| BinarySearchTree.SelectOfRank | src/binarysearchtree/BSTree.java:345-347 | `select(rank(key)) == key` for every stored key |
| BinarySearchTree.LevelOrderLists | src/binarysearchtree/BSTree.java:287-299 | the level-order listing of an ordered tree is breadth-first and contains each stored key exactly once |
| BinarySearchTree.HeightLevels | src/binarysearchtree/BSTree.java:278-299 | when nodes occupy exactly the depths `0 .. h`, the levels the level-order listing passes are non-empty exactly for `d <= h` |
| BinarySearchTree.SpineDepths | src/binarysearchtree/BSTree.java:278-284 | a tree without left children occupies exactly the depths `0 .. count-1` |
| BinarySearchTree.InsertAboveSpine | src/binarysearchtree/BSTree.java:90-98 | inserting a key above all others into such a path extends it by one node |
| BinarySearchTree.BuildIncreasing | src/binarysearchtree/BSTree.java:90-98 | inserting strictly increasing keys into an empty tree builds a path to the right holding exactly those keys |
| BinarySearchTree.IncreasingInsertsHeight | src/binarysearchtree/BSTree.java:278-284 | after inserting `n` strictly increasing keys into an empty map nodes occupy exactly depths `0 .. n-1`, so the height is `n - 1` |
| BinarySearchTree.BSTree.constructor | src/binarysearchtree/BSTree.java:40-41 | a new map is valid and empty |
| BinarySearchTree.BSTree.SetRoot | src/binarysearchtree/BSTree.java:86 | assigning a valid ordered subtree to `root` gives a valid map over exactly that subtree |
| BinarySearchTree.BSTree.Size | src/binarysearchtree/BSTree.java:48-50 | the number of entries |
| BinarySearchTree.BSTree.IsEmpty | src/binarysearchtree/BSTree.java:43-45 | true exactly when the map has no entry |
| BinarySearchTree.BSTree.Get | src/binarysearchtree/BSTree.java:64-66 | the value stored under the key, or null exactly when it is absent |
| BinarySearchTree.BSTree.Contains | src/binarysearchtree/BSTree.java:59-61 | true exactly when the key is stored |
| BinarySearchTree.BSTree.Min | src/binarysearchtree/BSTree.java:159-162 | fails with `NoSuchElement` exactly on an empty map, otherwise the least stored key |
| BinarySearchTree.BSTree.Max | src/binarysearchtree/BSTree.java:171-174 | fails with `NoSuchElement` exactly on an empty map, otherwise the greatest stored key |
| BinarySearchTree.BSTree.Floor | src/binarysearchtree/BSTree.java:182-187 | fails exactly on an empty map; otherwise the largest stored key at most the query, or null when all keys are larger |
| BinarySearchTree.BSTree.Ceiling | src/binarysearchtree/BSTree.java:200-205 | fails exactly on an empty map; otherwise the smallest stored key at least the query, or null when all keys are smaller |
| BinarySearchTree.BSTree.Select | src/binarysearchtree/BSTree.java:220-224 | fails with `IllegalArgument` exactly unless `0 <= k < size()`; otherwise the stored key with exactly `k` smaller stored keys |
| BinarySearchTree.BSTree.Rank | src/binarysearchtree/BSTree.java:236-238 | the number of stored keys strictly below the key, present or not |
| BinarySearchTree.BSTree.SizeBetween | src/binarysearchtree/BSTree.java:271-275 | the number of stored keys in `[lo, hi]`, which is the length of `keys(lo, hi)`, and 0 when `lo > hi` |
| BinarySearchTree.BSTree.GetHeight | src/binarysearchtree/BSTree.java:278-280 | -1 exactly for an empty map; nodes occur at exactly the depths `0 .. result`, which are the non-empty levels of the level-order listing |
| BinarySearchTree.BSTree.Put | src/binarysearchtree/BSTree.java:81-88 | with a value: the key maps to it, all other entries stay, the size grows by one exactly for a new key; with null: a deletion |
| BinarySearchTree.BSTree.DeleteMin | src/binarysearchtree/BSTree.java:102-106 | fails exactly on an empty map and then changes nothing; otherwise removes exactly the least entry and lowers the size by one |
| BinarySearchTree.BSTree.DeleteMax | src/binarysearchtree/BSTree.java:116-120 | fails exactly on an empty map and then changes nothing; otherwise removes exactly the greatest entry and lowers the size by one |
| BinarySearchTree.BSTree.Delete | src/binarysearchtree/BSTree.java:130-133 | removes exactly the key's entry; an absent key leaves the tree as it was; the size drops by one exactly for a present key |
| BinarySearchTree.BSTree.KeysBetween | src/binarysearchtree/BSTree.java:255-259 | exactly the stored keys in `[lo, hi]`, strictly ascending (empty when `lo > hi`) |
| BinarySearchTree.BSTree.Keys | src/binarysearchtree/BSTree.java:250-252 | as written: fails with `NoSuchElement` exactly on an empty map, otherwise all keys ascending |
| BinarySearchTree.BSTree.AllKeys | src/binarysearchtree/BSTree.java:250-252 | corrected: all stored keys strictly ascending, one per entry, empty for an empty map |
| BinarySearchTree.BSTree.LevelOrder | src/binarysearchtree/BSTree.java:287-299 | the keys breadth-first, level by level, each stored key exactly once |
| BinarySearchTree.BSTree.IsRankConsistent | src/binarysearchtree/BSTree.java:342-348 | on every valid map both loops find `rank(select(k)) == k` and `select(rank(key)) == key`, so the check returns true |
| BinarySearchTree.BSTree.TreeExists | src/binarysearchtree/BSTree.java:310-312 | on every valid map the symmetric-order check returns true |
| BinarySearchTree.BSTree.IsSizeConsistent | src/binarysearchtree/BSTree.java:327-330 | on every valid map the count check returns true |
| BinarySearchTree.BSTree.CheckTree | src/binarysearchtree/BSTree.java:302-307 | on every valid map all three checks hold, so the `assert checkTree()` after each mutator cannot fail (with the corrected key listing) |
| Scenarios.LastKeyRemoved | src/binarysearchtree/BSTree.java:102-106 | after `put(k, v)` and `deleteMin()` on a new map, `keys()` as written fails with `NoSuchElement` while the corrected listing is empty |

## Left out

- The demo driver `main`, `characterHandler`, `handleFile` and `handleCharacters` (src/binarysearchtree/BSTree.java:352-408): file reading, charset decoding and console output, with no map logic.
- The `System.out.println` diagnostics of `checkTree` (src/binarysearchtree/BSTree.java:303-305): console output.
- The Java `assert checkTree()` after each mutator (lines 87, 105, 119, 132) is not executed. Instead, every mutator's postcondition includes the class invariant, and `CheckTree` is proved to return true on every valid map.
- Generic `Comparable` keys: keys are mathematical integers with their usual order, a total order that `compareTo` is assumed to be.
- Nodes.Node: the count `N` is an unbounded integer, so Java's 32-bit `int` overflow after 2^31 - 1 entries is not modelled.
- BinarySearchTree.BSTree.IsRankConsistent: both `for` loops combine their verdicts with `&&` instead of returning at the first mismatch. The result is the same boolean. The key loop runs over the corrected listing (see Findings).
- BinarySearchTree.BSTree.LevelOrder: the queue is a `seq` of node references with `queue[1..]` for `remove(0)`. It is not an `ArrayList` object.
- Performance, recursion depth and the missing rebalancing: not functional properties.
- Exceptions become `Err` results with the exception's kind:
  - `floor` and `ceiling` throw `NoSuchElementException` on an empty map (lines 183 and 201). The model returns `Err(NoSuchElement)`.
  - `keys()` throws on an empty map because it calls `min()` (lines 251 and 160-161). See Findings.

## Findings

| source | as written | input that shows it | evidently intended | confidence | as-written member | corrected member |
|---|---|---|---|---|---|---|
| src/binarysearchtree/BSTree.java:250-252, 342-348 | `keys()` is `keys(min(), max())`, and `min()` throws on an empty map. So `isRankConsistent()` throws too, and with it `checkTree()`, which each mutator asserts. | `put(k, v)` then `deleteMin()` (or `delete(k)`) with assertions enabled: the map becomes empty and the `assert checkTree()` hook throws `NoSuchElementException` | an empty map lists no keys, and `checkTree()` holds on it | not executed; medium (needs `-ea`) | BinarySearchTree.BSTree.Keys, Scenarios.LastKeyRemoved | BinarySearchTree.BSTree.AllKeys |
