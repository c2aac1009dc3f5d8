/** The public ordered map `BSTree<Key, Value>`: a root reference and the
    operations that clients call. Its invariant is that the tree is a finite
    tree of distinct nodes, in symmetric order, with correct subtree counts;
    every operation keeps it, which is what `checkTree()` tests. The abstract
    state is the tree value `Shape()` and the map `Contents()` it represents. */
module BinarySearchTree {
  import opened Wrappers
  import opened Sequences
  import opened Trees
  import opened TreeEdits
  import opened Levels
  import Nodes

  // ---------------------------------------------------------------- facts about ordered trees

  /** An ordered tree stores one entry per node. */
  lemma ContentSize<V>(t: Tree<V>)
    requires Ordered(t)
    ensures Content(t).Keys == KeySet(t) && |Content(t)| == Count(t)
    ensures Count(t) == 0 <==> t.Nil?
  {
    ContentKeySet(t);
    OrderedCount(t);
  }

  /** The in-order key sequence of an ordered tree is its key set, ascending. */
  lemma SortedKeys<V>(t: Tree<V>)
    requires Ordered(t)
    ensures StrictlyIncreasing(InOrder(t)) && |InOrder(t)| == Count(t)
    ensures forall x :: x in InOrder(t) <==> x in Content(t)
  {
    OrderedIncreasing(t);
    InOrderKeySet(t);
    ContentKeySet(t);
  }

  /** `rank` counts stored keys: the keys below `key` in the in-order sequence
      are the stored keys below it. */
  lemma RankCountsKeys<V>(t: Tree<V>, key: int)
    requires Ordered(t)
    ensures CountBelow(InOrder(t), key) == |set x | x in Content(t) && x < key|
  {
    SortedKeys(t);
    CountBelowIsCard(InOrder(t), key);
    assert (set x | x in InOrder(t) && x < key) == (set x | x in Content(t) && x < key);
  }

  /** The range listing of an ordered tree has one entry per stored key in
      the range. */
  lemma RangeCount<V>(t: Tree<V>, lo: int, hi: int)
    requires Ordered(t)
    ensures |Between(InOrder(t), lo, hi)| == |set x | x in Content(t) && lo <= x <= hi|
  {
    SortedKeys(t);
    var b := Between(InOrder(t), lo, hi);
    BetweenIncreasing(InOrder(t), lo, hi);
    BetweenMembers(InOrder(t), lo, hi);
    IncreasingCard(b);
    assert (set x | x in b) == (set x | x in Content(t) && lo <= x <= hi);
  }

  /** `rank(select(k)) == k` for every `k` in range. */
  lemma RankOfSelect<V>(t: Tree<V>, k: int)
    requires Ordered(t) && 0 <= k < Count(t)
    ensures |InOrder(t)| == Count(t) && CountBelow(InOrder(t), InOrder(t)[k]) == k
  {
    SortedKeys(t);
    CountBelowAt(InOrder(t), k);
  }

  /** `select(rank(key)) == key` for every stored key. */
  lemma SelectOfRank<V>(t: Tree<V>, key: int)
    requires Ordered(t) && key in Content(t)
    ensures 0 <= CountBelow(InOrder(t), key) < |InOrder(t)|
    ensures InOrder(t)[CountBelow(InOrder(t), key)] == key
  {
    SortedKeys(t);
    var s := InOrder(t);
    var i :| 0 <= i < |s| && s[i] == key;
    CountBelowAt(s, i);
  }

  /** The queue loop of `levelOrder()` lists the stored keys breadth-first,
      each exactly once. */
  lemma LevelOrderLists<V>(t: Tree<V>)
    requires Ordered(t)
    ensures Drain([t]) == BreadthFirst(t)
    ensures |Drain([t])| == |Content(t)| && forall x :: x in Drain([t]) <==> x in Content(t)
  {
    LevelOrderIsBreadthFirst(t);
    LevelOrderKeys(t);
    ContentSize(t);
  }

  /** The levels `levelOrder()` passes through are non-empty exactly down to
      the height: the depths nodes occupy are the depths of the listing. */
  lemma HeightLevels<V>(t: Tree<V>, h: int)
    requires forall d :: HasDepth(t, d) <==> 0 <= d <= h
    ensures forall d: nat :: Level(t, d) != [] <==> d <= h
  {
    forall d: nat ensures Level(t, d) != [] <==> d <= h {
      LevelOccupied(t, d);
    }
  }

  // ---------------------------------------------------------------- height of a degenerate tree

  /** The tree that inserting the keys of `s` one after another into an empty
      tree builds, every key with value `v`. */
  ghost function Build<V>(s: seq<int>, v: V): Tree<V> {
    if s == [] then Nil else Insert(Build(s[..|s| - 1], v), s[|s| - 1], v)
  }

  /** A tree in which no node has a left child: a path down to the right. */
  ghost predicate RightSpine<V>(t: Tree<V>) {
    match t
    case Nil => true
    case Node(l, _, _, r, _) => l.Nil? && RightSpine(r)
  }

  lemma {:induction false} SpineDepths<V>(t: Tree<V>, d: int)
    requires RightSpine(t)
    ensures HasDepth(t, d) <==> 0 <= d < Count(t)
  {
    match t
    case Nil =>
    case Node(_, _, _, r, _) =>
      SpineDepths(r, d - 1);
  }

  lemma {:induction false} InsertAboveSpine<V>(t: Tree<V>, key: int, v: V)
    requires RightSpine(t) && forall x :: x in KeySet(t) ==> x < key
    ensures RightSpine(Insert(t, key, v)) && KeySet(Insert(t, key, v)) == KeySet(t) + {key}
    ensures Count(Insert(t, key, v)) == Count(t) + 1
  {
    match t
    case Nil =>
    case Node(l, k, _, r, _) =>
      assert k in KeySet(t);
      InsertAboveSpine(r, key, v);
  }

  lemma {:induction false} BuildIncreasing<V>(s: seq<int>, v: V)
    requires StrictlyIncreasing(s)
    ensures RightSpine(Build(s, v)) && Count(Build(s, v)) == |s|
    ensures KeySet(Build(s, v)) == set x | x in s
  {
    if s != [] {
      var p := s[..|s| - 1];
      assert StrictlyIncreasing(p);
      BuildIncreasing(p, v);
      forall x | x in KeySet(Build(p, v)) ensures x < s[|s| - 1] {
        var j :| 0 <= j < |p| && p[j] == x;
      }
      InsertAboveSpine(Build(p, v), s[|s| - 1], v);
      assert s == p + [s[|s| - 1]];
      assert (set x | x in s) == (set x | x in p) + {s[|s| - 1]};
    }
  }

  /** Inserting `n` strictly increasing keys into an empty tree gives a tree
      of height `n - 1`: exactly the depths `0 .. n-1` are occupied. */
  lemma IncreasingInsertsHeight<V>(s: seq<int>, v: V)
    requires StrictlyIncreasing(s)
    ensures forall d :: HasDepth(Build(s, v), d) <==> 0 <= d < |s|
  {
    BuildIncreasing(s, v);
    forall d ensures HasDepth(Build(s, v), d) <==> 0 <= d < |s| {
      SpineDepths(Build(s, v), d);
    }
  }

  // ---------------------------------------------------------------- the map

  class BSTree<V> {
    var root: Nodes.Node?<V>
    /** The nodes of the tree. */
    ghost var Repr: set<Nodes.Node<V>>

    /** The class invariant: the nodes form a tree, in symmetric order and
        with consistent counts. */
    ghost predicate Valid()
      reads this, Repr
    {
      (root != null ==> root in Repr) && Repr == Nodes.Rep(root) && Nodes.Inv(root) &&
      Ordered(Nodes.Model(root)) && SizeConsistent(Nodes.Model(root))
    }

    /** The tree the nodes represent. */
    ghost function Shape(): Tree<V>
      reads this, Repr
      requires Valid()
    {
      Nodes.Model(root)
    }

    /** The key-value map the tree represents. */
    ghost function Contents(): map<int, V>
      reads this, Repr
      requires Valid()
    {
      Content(Shape())
    }

    constructor ()
      ensures Valid() && Repr == {} && Shape() == Nil
    {
      root := null;
      Repr := {};
    }

    /** Installs `r` as the root of a valid tree. */
    method SetRoot(r: Nodes.Node?<V>)
      requires Nodes.Inv(r) && Ordered(Nodes.Model(r)) && SizeConsistent(Nodes.Model(r))
      modifies this
      ensures Valid() && root == r
      ensures Repr == old(Nodes.Rep(r)) && Shape() == old(Nodes.Model(r))
    {
      ghost var R, M := Nodes.Rep(r), Nodes.Model(r);
      root := r;
      Repr := R;
      assert Nodes.Inv(r) && Nodes.Rep(r) == R && Nodes.Model(r) == M;
    }

    /** `size()`: the number of entries. */
    function Size(): (r: int)
      reads this, Repr
      requires Valid()
      ensures r == |Contents()|
    {
      ContentSize(Shape());
      Nodes.Size(root)
    }

    /** `isEmpty()`. */
    function IsEmpty(): (r: bool)
      reads this, Repr
      requires Valid()
      ensures r <==> Contents() == map[]
    {
      Size() == 0
    }

    /** `get(key)`: the value stored under `key`, if any. */
    function Get(key: int): (r: Option<V>)
      reads this, Repr
      requires Valid()
      ensures r == if key in Contents() then Some(Contents()[key]) else None
    {
      Nodes.Get(root, key)
    }

    /** `contains(key)`: whether `get(key)` finds a value. */
    function Contains(key: int): (r: bool)
      reads this, Repr
      requires Valid()
      ensures r <==> key in Contents()
    {
      Get(key).Some?
    }

    /** `min()`: the least key; fails on an empty map. */
    function Min(): (r: Result<int>)
      reads this, Repr
      requires Valid()
      ensures r.Err? <==> Contents() == map[]
      ensures r.Err? ==> r.error == NoSuchElement
      ensures r.Ok? ==> r.value in Contents() && forall x :: x in Contents() ==> r.value <= x
    {
      ContentSize(Shape());
      if IsEmpty() then Err(NoSuchElement) else Ok(Nodes.MinNode(root).key)
    }

    /** `max()`: the greatest key; fails on an empty map. */
    function Max(): (r: Result<int>)
      reads this, Repr
      requires Valid()
      ensures r.Err? <==> Contents() == map[]
      ensures r.Err? ==> r.error == NoSuchElement
      ensures r.Ok? ==> r.value in Contents() && forall x :: x in Contents() ==> x <= r.value
    {
      ContentSize(Shape());
      if IsEmpty() then Err(NoSuchElement) else Ok(Nodes.MaxNode(root).key)
    }

    /** `floor(key)`: the greatest key at most `key`, or none; fails on an
        empty map. */
    function Floor(key: int): (r: Result<Option<int>>)
      reads this, Repr
      requires Valid()
      ensures r.Err? <==> Contents() == map[]
      ensures r.Err? ==> r.error == NoSuchElement
      ensures r.Ok? && r.value.Some? ==>
        var f := r.value.value;
        f in Contents() && f <= key && forall x :: x in Contents() && x <= key ==> x <= f
      ensures r.Ok? && r.value.None? ==> forall x :: x in Contents() ==> key < x
    {
      ContentSize(Shape());
      if IsEmpty() then Err(NoSuchElement) else Ok(Nodes.Floor(root, key))
    }

    /** `ceiling(key)`: the least key at least `key`, or none; fails on an
        empty map. */
    function Ceiling(key: int): (r: Result<Option<int>>)
      reads this, Repr
      requires Valid()
      ensures r.Err? <==> Contents() == map[]
      ensures r.Err? ==> r.error == NoSuchElement
      ensures r.Ok? && r.value.Some? ==>
        var c := r.value.value;
        c in Contents() && key <= c && forall x :: x in Contents() && key <= x ==> c <= x
      ensures r.Ok? && r.value.None? ==> forall x :: x in Contents() ==> x < key
    {
      ContentSize(Shape());
      if IsEmpty() then Err(NoSuchElement) else Ok(Nodes.Ceiling(root, key))
    }

    /** `select(k)`: the key with exactly `k` smaller keys; fails unless
        `0 <= k < size()`. */
    function Select(k: int): (r: Result<int>)
      reads this, Repr
      requires Valid()
      ensures r.Err? <==> !(0 <= k < |Contents()|)
      ensures r.Err? ==> r.error == IllegalArgument
      ensures r.Ok? ==> r.value in Contents() && |set x | x in Contents() && x < r.value| == k
      ensures r.Ok? ==> 0 <= k < |InOrder(Shape())| && r.value == InOrder(Shape())[k]
    {
      ContentSize(Shape());
      if k < 0 || k >= Size() then Err(IllegalArgument)
      else
        var key := Nodes.Select(root, k).value;
        RankOfSelect(Shape(), k);
        RankCountsKeys(Shape(), key);
        SortedKeys(Shape());
        Ok(key)
    }

    /** `rank(key)`: the number of stored keys smaller than `key`, which need
        not be present. */
    function Rank(key: int): (r: int)
      reads this, Repr
      requires Valid()
      ensures r == |set x | x in Contents() && x < key|
      ensures r == CountBelow(InOrder(Shape()), key)
    {
      RankCountsKeys(Shape(), key);
      Nodes.Rank(key, root)
    }

    /** `size(lo, hi)`: the number of stored keys in `[lo, hi]`, computed from
        two ranks and a membership test. */
    function SizeBetween(lo: int, hi: int): (r: int)
      reads this, Repr
      requires Valid()
      ensures r == |Between(InOrder(Shape()), lo, hi)|
      ensures r == |set x | x in Contents() && lo <= x <= hi|
      ensures lo > hi ==> r == 0
    {
      RangeCount(Shape(), lo, hi);
      SortedKeys(Shape());
      BetweenMembers(InOrder(Shape()), lo, hi);
      if lo > hi then
        BetweenNone(InOrder(Shape()), lo, hi);
        0
      else
        BetweenSize(InOrder(Shape()), lo, hi);
        if Contains(hi) then Rank(hi) - Rank(lo) + 1 else Rank(hi) - Rank(lo)
    }

    /** `getHeight()`: the depth of the deepest node, -1 for an empty map. */
    function GetHeight(): (r: int)
      reads this, Repr
      requires Valid()
      ensures r >= -1 && (r == -1 <==> Contents() == map[])
      ensures forall d :: HasDepth(Shape(), d) <==> 0 <= d <= r
      ensures forall d: nat :: Level(Shape(), d) != [] <==> d <= r
    {
      ContentSize(Shape());
      var h := Nodes.GetHeight(root);
      HeightLevels(Shape(), h);
      h
    }

    // -------------------------------------------------------------- mutators

    /** `put(key, val)`: insert or replace; a missing (null) value deletes. */
    method Put(key: int, val: Option<V>)
      requires Valid()
      modifies this, Repr
      ensures Valid() && fresh(Repr - old(Repr))
      ensures val.Some? ==> Shape() == Insert(old(Shape()), key, val.value)
      ensures val.None? ==> Shape() == Remove(old(Shape()), key)
      ensures Contents() ==
        if val.Some? then old(Contents())[key := val.value] else old(Contents()) - {key}
      ensures val.Some? ==> Size() == old(Size()) + (if key in old(Contents()) then 0 else 1)
    {
      if val.None? {
        Delete(key);
        return;
      }
      ghost var t0 := Shape();
      ContentSize(t0);
      InsertOrdered(t0, key, val.value);
      InsertSizeConsistent(t0, key, val.value);
      InsertContent(t0, key, val.value);
      InsertCount(t0, key, val.value);
      var r := Nodes.Put(root, key, val.value);
      SetRoot(r);
      ContentSize(Shape());
    }

    /** `deleteMin()`: remove the entry of the least key; fails on an empty map. */
    method DeleteMin() returns (r: Result<()>)
      requires Valid()
      modifies this, Repr
      ensures Valid() && Repr <= old(Repr)
      ensures r.Err? <==> old(Contents()) == map[]
      ensures r.Err? ==> r.error == NoSuchElement && Shape() == old(Shape())
      ensures r.Ok? ==> Shape() == RemoveMin(old(Shape()))
      ensures r.Ok? ==> old(Min()).Ok? && Contents() == old(Contents()) - {old(Min()).value}
      ensures r.Ok? ==> Size() == old(Size()) - 1
    {
      ghost var t0 := Shape();
      ContentSize(t0);
      if IsEmpty() {
        return Err(NoSuchElement);
      }
      LeftmostIsMin(t0);
      RemoveMinOrdered(t0);
      RemoveMinSizeConsistent(t0);
      RemoveMinContent(t0);
      RemoveMinCount(t0);
      var rt := Nodes.DeleteMin(root);
      SetRoot(rt);
      ContentSize(Shape());
      r := Ok(());
    }

    /** `deleteMax()`: remove the entry of the greatest key; fails on an empty map. */
    method DeleteMax() returns (r: Result<()>)
      requires Valid()
      modifies this, Repr
      ensures Valid() && Repr <= old(Repr)
      ensures r.Err? <==> old(Contents()) == map[]
      ensures r.Err? ==> r.error == NoSuchElement && Shape() == old(Shape())
      ensures r.Ok? ==> Shape() == RemoveMax(old(Shape()))
      ensures r.Ok? ==> old(Max()).Ok? && Contents() == old(Contents()) - {old(Max()).value}
      ensures r.Ok? ==> Size() == old(Size()) - 1
    {
      ghost var t0 := Shape();
      ContentSize(t0);
      if IsEmpty() {
        return Err(NoSuchElement);
      }
      RightmostIsMax(t0);
      RemoveMaxOrdered(t0);
      RemoveMaxSizeConsistent(t0);
      RemoveMaxContent(t0);
      RemoveMaxCount(t0);
      var rt := Nodes.DeleteMax(root);
      SetRoot(rt);
      ContentSize(Shape());
      r := Ok(());
    }

    /** `delete(key)`: remove the entry of `key`; an absent key is no error and
        leaves the tree as it was. */
    method Delete(key: int)
      requires Valid()
      modifies this, Repr
      ensures Valid() && Repr <= old(Repr)
      ensures Shape() == Remove(old(Shape()), key)
      ensures Contents() == old(Contents()) - {key}
      ensures key !in old(Contents()) ==> Shape() == old(Shape())
      ensures Size() == old(Size()) - (if key in old(Contents()) then 1 else 0)
    {
      ghost var t0 := Shape();
      ContentSize(t0);
      RemoveOrdered(t0, key);
      RemoveSizeConsistent(t0, key);
      RemoveContent(t0, key);
      RemoveCount(t0, key);
      if key !in Content(t0) {
        RemoveAbsent(t0, key);
      }
      var rt := Nodes.Delete(root, key);
      SetRoot(rt);
      ContentSize(Shape());
    }

    // -------------------------------------------------------------- traversals

    /** `keys(lo, hi)`: the stored keys in `[lo, hi]`, ascending. */
    method KeysBetween(lo: int, hi: int) returns (r: seq<int>)
      requires Valid()
      ensures r == Between(InOrder(Shape()), lo, hi)
      ensures StrictlyIncreasing(r)
      ensures forall x :: x in r <==> x in Contents() && lo <= x <= hi
    {
      var queue := new Nodes.KeyList();
      Nodes.CollectKeys(root, queue, lo, hi);
      r := queue.items;
      SortedKeys(Shape());
      BetweenMembers(InOrder(Shape()), lo, hi);
      BetweenIncreasing(InOrder(Shape()), lo, hi);
    }

    /** `keys()`, as written: `keys(min(), max())`, which fails on an empty
        map because `min()` does. */
    method Keys() returns (r: Result<seq<int>>)
      requires Valid()
      ensures r.Err? <==> Contents() == map[]
      ensures r.Err? ==> r.error == NoSuchElement
      ensures r.Ok? ==> r.value == InOrder(Shape())
    {
      var lo := Min();
      if lo.Err? {
        return Err(lo.error);
      }
      var hi := Max();
      var ks := KeysBetween(lo.value, hi.value);
      SortedKeys(Shape());
      BetweenAll(InOrder(Shape()), lo.value, hi.value);
      r := Ok(ks);
    }

    /** All keys ascending, the empty sequence for an empty map. */
    method AllKeys() returns (r: seq<int>)
      requires Valid()
      ensures r == InOrder(Shape())
      ensures StrictlyIncreasing(r) && |r| == |Contents()|
      ensures forall x :: x in r <==> x in Contents()
    {
      ghost var t := Shape();
      SortedKeys(t);
      ContentSize(t);
      if IsEmpty() {
        return [];
      }
      var lo, hi := Min(), Max();
      assert lo.Ok? && hi.Ok?;
      r := KeysBetween(lo.value, hi.value);
      BetweenAll(InOrder(t), lo.value, hi.value);
    }

    /** `levelOrder()`: breadth-first over a queue of subtrees that starts with
        the root; an empty subtree is dropped, a node emits its key and
        enqueues its left and then its right child. */
    method LevelOrder() returns (keys: seq<int>)
      requires Valid()
      ensures keys == BreadthFirst(Shape())
      ensures |keys| == |Contents()| && forall x :: x in keys <==> x in Contents()
    {
      ghost var t0 := Shape();
      keys := [];
      var queue: seq<Nodes.Node?<V>> := [root];
      ghost var trees: seq<Tree<V>> := [t0];
      while queue != []
        invariant |trees| == |queue|
        invariant forall i :: 0 <= i < |queue| ==> Nodes.Inv(queue[i]) && Nodes.Model(queue[i]) == trees[i]
        invariant keys + Drain(trees) == Drain([t0])
        decreases Weight(trees)
      {
        var node := queue[0];
        ghost var t := trees[0];
        assert Nodes.Inv(node) && Nodes.Model(node) == t;
        DrainFront(trees);
        queue, trees := queue[1..], trees[1..];
        if node == null {
          continue;
        }
        assert Nodes.Inv(node.left) && Nodes.Model(node.left) == t.left;
        assert Nodes.Inv(node.right) && Nodes.Model(node.right) == t.right;
        keys := keys + [node.key];
        ghost var q1, t1 := queue, trees;
        queue := queue + [node.left, node.right];
        trees := trees + [t.left, t.right];
        forall i | 0 <= i < |queue|
          ensures Nodes.Inv(queue[i]) && Nodes.Model(queue[i]) == trees[i]
        {
          if i < |q1| {
            assert queue[i] == q1[i] && trees[i] == t1[i];
          }
        }
      }
      assert keys == Drain([t0]) by { assert trees == []; }
      LevelOrderLists(t0);
    }

    // -------------------------------------------------------------- validators

    /** `isRankConsistent()`, with the key loop over all keys: every rank
        selects its key and every key's rank selects it back. Both loops
        accumulate the verdict instead of returning at the first mismatch. */
    method IsRankConsistent() returns (ok: bool)
      requires Valid()
      ensures ok
    {
      ok := true;
      for k := 0 to Size()
        invariant ok
      {
        var s := Select(k);
        RankOfSelect(Shape(), k);
        ok := ok && s.Ok? && k == Rank(s.value);
      }
      var ks := AllKeys();
      for i := 0 to |ks|
        invariant ok
      {
        SelectOfRank(Shape(), ks[i]);
        ok := ok && Select(Rank(ks[i])) == Ok(ks[i]);
      }
    }

    /** `treeExists()`: the root subtree is in symmetric order. */
    function TreeExists(): (r: bool)
      reads this, Repr
      requires Valid()
      ensures r
    {
      Nodes.TreeExists(root, None, None)
    }

    /** `isSizeConsistent()`: every recorded count is the size of its subtree. */
    function IsSizeConsistent(): (r: bool)
      reads this, Repr
      requires Valid()
      ensures r
    {
      Nodes.IsSizeConsistent(root)
    }

    /** `checkTree()`: all three validators hold, which the invariant
        guarantees after every operation. */
    method CheckTree() returns (ok: bool)
      requires Valid()
      ensures ok
    {
      var rc := IsRankConsistent();
      ok := TreeExists() && IsSizeConsistent() && rc;
    }
  }
}
