/** The nodes of the tree as heap objects, with the private recursive
    operations of `BSTree` on them. The queries are functions that read the
    nodes; the mutators are methods that rewrite `left`, `right`, `val` and
    `N` in place and return the (possibly new) root of the subtree, which the
    caller links back in. Every node carries as ghost state the abstract
    value `T` of its subtree and the set `Repr` of nodes in it. */
module Nodes {
  import opened Wrappers
  import opened Sequences
  import opened Trees
  import opened TreeEdits

  class Node<V> {
    const key: int          // never reassigned once the node exists
    var val: V
    var left: Node?<V>
    var right: Node?<V>
    var N: int              // the number of nodes in the subtree, as recorded
    ghost var T: Tree<V>
    ghost var Repr: set<Node<V>>

    /** The subtree is a finite tree of distinct nodes (children own disjoint
        parts) and `T` is its value. Neither the order of the keys nor the
        correctness of `N` is part of it: those are what the validators check. */
    ghost predicate Valid()
      reads this, Repr
      decreases Repr
    {
      this in Repr &&
      (left != null ==>
        left in Repr && left.Repr <= Repr && this !in left.Repr && left.Valid()) &&
      (right != null ==>
        right in Repr && right.Repr <= Repr && this !in right.Repr && right.Valid()) &&
      (left != null && right != null ==> left.Repr !! right.Repr) &&
      Repr == {this} + Rep(left) + Rep(right) &&
      T == Tree.Node(Model(left), key, val, Model(right), N)
    }

    constructor (key: int, val: V, N: int)
      ensures Valid() && Repr == {this}
      ensures T == Tree.Node(Nil, key, val, Nil, N)
    {
      this.key := key;
      this.val := val;
      this.N := N;
      left, right := null, null;
      Repr := {this};
      T := Tree.Node(Nil, key, val, Nil, N);
    }

    /** Links in both children and recomputes `N` as
        `size(left) + size(right) + 1`: the step every mutator takes at each
        node on the way back up. */
    method Relink(l: Node?<V>, r: Node?<V>)
      requires Inv(l) && Inv(r) && this !in Rep(l) + Rep(r) && Rep(l) !! Rep(r)
      modifies this
      ensures Valid() && left == l && right == r && val == old(val)
      ensures Repr == {this} + old(Rep(l)) + old(Rep(r))
      ensures T == Rebuilt(old(Model(l)), key, val, old(Model(r)))
    {
      ghost var Rl, Rr, Ml, Mr := Rep(l), Rep(r), Model(l), Model(r);
      left, right := l, r;
      N := Size(l) + Size(r) + 1;
      Repr := {this} + Rl + Rr;
      T := Tree.Node(Ml, key, val, Mr, N);
      assert Inv(l) && Inv(r) && Rep(l) == Rl && Rep(r) == Rr && Model(l) == Ml && Model(r) == Mr;
    }
  }

  ghost function Rep<V>(node: Node?<V>): set<Node<V>>
    reads node
  {
    if node == null then {} else node.Repr
  }

  /** The abstract value of a possibly absent subtree. */
  ghost function Model<V>(node: Node?<V>): Tree<V>
    reads node
  {
    if node == null then Nil else node.T
  }

  ghost predicate Inv<V>(node: Node?<V>)
    reads node, Rep(node)
  {
    node == null || node.Valid()
  }

  /** The footprint of a node whose subtree lost `m`. */
  lemma SpliceRepr<X>(x: X, a: set<X>, c: set<X>, m: X, b: set<X>)
    requires a == b - {m} && m in b && m != x && m !in c
    ensures {x} + a + c == ({x} + b + c) - {m}
    ensures {x} + c + a == ({x} + c + b) - {m}
  {
  }

  function Max(a: int, b: int): int {
    if a < b then b else a
  }

  // ---------------------------------------------------------------- queries

  /** `size(node)`: the count recorded at the node, 0 for an absent child;
      it is the true node count when the counts are consistent. */
  function Size<V>(node: Node?<V>): (r: int)
    reads node, Rep(node)
    requires Inv(node)
    ensures r == Stored(Model(node))
    ensures SizeConsistent(Model(node)) ==> r == Count(Model(node))
  {
    if node == null then 0 else node.N
  }

  /** `get(node, key)`: binary search for the value of `key`. */
  function Get<V>(node: Node?<V>, key: int): (r: Option<V>)
    reads node, Rep(node)
    requires Inv(node)
    ensures r.Some? ==> key in KeySet(Model(node))
    ensures Ordered(Model(node)) ==>
      r == if key in Content(Model(node)) then Some(Content(Model(node))[key]) else None
    decreases Rep(node)
  {
    ContentSearch(Model(node), key);
    if node == null then None
    else if key < node.key then Get(node.left, key)
    else if key > node.key then Get(node.right, key)
    else Some(node.val)
  }

  /** `min(node)`: the leftmost node, which holds the least key. */
  function MinNode<V>(node: Node<V>): (m: Node<V>)
    reads node, node.Repr
    requires node.Valid()
    ensures m in node.Repr && m.Valid() && m.left == null && m.T == Leftmost(node.T)
    ensures m.key in KeySet(node.T)
    ensures Ordered(node.T) ==> forall x :: x in KeySet(node.T) ==> m.key <= x
    decreases node.Repr
  {
    LeftmostIsMin(node.T);
    if node.left == null then node else MinNode(node.left)
  }

  /** `max(node)`: the rightmost node, which holds the greatest key. */
  function MaxNode<V>(node: Node<V>): (m: Node<V>)
    reads node, node.Repr
    requires node.Valid()
    ensures m in node.Repr && m.Valid() && m.right == null && m.T == Rightmost(node.T)
    ensures m.key in KeySet(node.T)
    ensures Ordered(node.T) ==> forall x :: x in KeySet(node.T) ==> x <= m.key
    decreases node.Repr
  {
    RightmostIsMax(node.T);
    if node.right == null then node else MaxNode(node.right)
  }

  /** `floor(node, key)`: the largest key `<= key`, if any. */
  function Floor<V>(node: Node?<V>, key: int): (r: Option<int>)
    reads node, Rep(node)
    requires Inv(node)
    ensures r.Some? ==> r.value in KeySet(Model(node)) && r.value <= key
    ensures Ordered(Model(node)) && r.Some? ==>
      forall x :: x in KeySet(Model(node)) && x <= key ==> x <= r.value
    ensures Ordered(Model(node)) && r.None? ==> forall x :: x in KeySet(Model(node)) ==> key < x
    decreases Rep(node)
  {
    if node == null then None
    else if key == node.key then Some(node.key)
    else if key < node.key then Floor(node.left, key)
    else
      var t := Floor(node.right, key);
      if t.Some? then t else Some(node.key)
  }

  /** `ceiling(node, key)`: the smallest key `>= key`, if any. */
  function Ceiling<V>(node: Node?<V>, key: int): (r: Option<int>)
    reads node, Rep(node)
    requires Inv(node)
    ensures r.Some? ==> r.value in KeySet(Model(node)) && key <= r.value
    ensures Ordered(Model(node)) && r.Some? ==>
      forall x :: x in KeySet(Model(node)) && key <= x ==> r.value <= x
    ensures Ordered(Model(node)) && r.None? ==> forall x :: x in KeySet(Model(node)) ==> x < key
    decreases Rep(node)
  {
    if node == null then None
    else if key == node.key then Some(node.key)
    else if key < node.key then
      var t := Ceiling(node.left, key);
      if t.Some? then t else Some(node.key)
    else Ceiling(node.right, key)
  }

  /** `select(node, k)`: the key with exactly `k` smaller keys, i.e. position
      `k` of the in-order listing; absent when `k` is out of range. */
  function Select<V>(node: Node?<V>, k: int): (r: Option<int>)
    reads node, Rep(node)
    requires Inv(node)
    ensures r.Some? ==> r.value in KeySet(Model(node))
    ensures SizeConsistent(Model(node)) ==> (r.Some? <==> 0 <= k < Count(Model(node)))
    ensures SizeConsistent(Model(node)) && r.Some? ==>
      0 <= k < |InOrder(Model(node))| && r.value == InOrder(Model(node))[k]
    decreases Rep(node)
  {
    InOrderKeySet(Model(node));
    if node == null then None
    else
      InOrderKeySet(Model(node.left));
      var t := Size(node.left);
      if t > k then Select(node.left, k)
      else if t < k then Select(node.right, k - t - 1)
      else Some(node.key)
  }

  /** `rank(key, node)`: the number of keys strictly smaller than `key`. */
  function Rank<V>(key: int, node: Node?<V>): (r: int)
    reads node, Rep(node)
    requires Inv(node)
    ensures Ordered(Model(node)) && SizeConsistent(Model(node)) ==>
      r == CountBelow(InOrder(Model(node)), key)
    decreases Rep(node)
  {
    RankStep(Model(node), key);
    if node == null then 0
    else if key < node.key then Rank(key, node.left)
    else if key > node.key then 1 + Size(node.left) + Rank(key, node.right)
    else Size(node.left)
  }

  /** `getHeight(node)`: the depth of the deepest node, -1 for an absent
      subtree; the depths at which nodes occur are exactly `0..r`. */
  function GetHeight<V>(node: Node?<V>): (r: int)
    reads node, Rep(node)
    requires Inv(node)
    ensures r >= -1 && (r == -1 <==> node == null)
    ensures forall d :: HasDepth(Model(node), d) <==> 0 <= d <= r
    decreases Rep(node)
  {
    if node == null then -1 else 1 + Max(GetHeight(node.left), GetHeight(node.right))
  }

  // ---------------------------------------------------------------- validators

  /** `treeExists(node, min, max)`: symmetric order, with every key strictly
      inside the bounds (an absent bound does not constrain). */
  function TreeExists<V>(node: Node?<V>, min: Option<int>, max: Option<int>): (r: bool)
    reads node, Rep(node)
    requires Inv(node)
    ensures r <==> Ordered(Model(node)) && forall x :: x in KeySet(Model(node)) ==> Within(x, min, max)
    decreases Rep(node)
  {
    if node == null then true
    else if min.Some? && node.key <= min.value then
      assert node.key in KeySet(Model(node)) && !Within(node.key, min, max);
      false
    else if max.Some? && node.key >= max.value then
      assert node.key in KeySet(Model(node)) && !Within(node.key, min, max);
      false
    else
      WithinStep(node.T, min, max);
      TreeExists(node.left, min, Some(node.key)) && TreeExists(node.right, Some(node.key), max)
  }

  /** `isSizeConsistent(node)`: every recorded count is the true node count. */
  function IsSizeConsistent<V>(node: Node?<V>): (r: bool)
    reads node, Rep(node)
    requires Inv(node)
    ensures r == SizeConsistent(Model(node))
    decreases Rep(node)
  {
    if node == null then true
    else if node.N != Size(node.left) + Size(node.right) + 1 then false
    else IsSizeConsistent(node.left) && IsSizeConsistent(node.right)
  }

  // ---------------------------------------------------------------- mutators

  /** `put(node, key, val)`: on the way down, replace the value of `key` or hang
      a new node where the search ends; on the way back up, recompute `N` at
      every node passed. Returns the root of the updated subtree, which is
      `node` itself unless the subtree was empty. */
  method Put<V>(node: Node?<V>, key: int, val: V) returns (r: Node<V>)
    requires Inv(node)
    modifies Rep(node)
    ensures r.Valid() && fresh(r.Repr - old(Rep(node)))
    ensures node != null ==> r == node
    ensures r.T == Insert(old(Model(node)), key, val)
    decreases Rep(node)
  {
    if node == null {
      r := new Node(key, val, 1);
      return;
    }
    ghost var t0, L, R, Repr0 := node.T, node.left, node.right, node.Repr;
    ghost var RL, RR := Rep(L), Rep(R);
    assert Inv(L) && Inv(R) && RL !! RR && node !in RL + RR && Repr0 == {node} + RL + RR;
    assert Model(L) == t0.left && Model(R) == t0.right;
    if key < node.key {
      var l := Put(node.left, key, val);
      ghost var Rl := l.Repr;
      assert fresh(Rl - RL);
      assert node.right == R && Inv(R) && Rep(R) == RR && Rl !! RR && node !in Rl;
      assert Model(R) == t0.right && l.T == Insert(t0.left, key, val);
      assert node.val == t0.val;
      node.Relink(l, node.right);
      assert node.Repr - Repr0 <= Rl - RL;
      assert node.T == Rebuilt(Insert(t0.left, key, val), t0.key, t0.val, t0.right);
    } else if key > node.key {
      var rt := Put(node.right, key, val);
      ghost var Rr := rt.Repr;
      assert fresh(Rr - RR);
      assert node.left == L && Inv(L) && Rep(L) == RL && Rr !! RL && node !in Rr;
      assert Model(L) == t0.left && rt.T == Insert(t0.right, key, val);
      assert node.val == t0.val;
      node.Relink(node.left, rt);
      assert node.Repr - Repr0 <= Rr - RR;
      assert node.T == Rebuilt(t0.left, t0.key, t0.val, Insert(t0.right, key, val));
    } else {
      node.val := val;
      node.Relink(node.left, node.right);
      assert node.Repr == Repr0;
      assert node.T == Rebuilt(t0.left, t0.key, val, t0.right);
    }
    r := node;
  }

  /** `deleteMin(node)`: splice out the leftmost node by handing its right
      child to its parent, recomputing `N` on the way back up. The spliced-out
      node itself is left untouched. */
  method DeleteMin<V>(node: Node<V>) returns (r: Node?<V>)
    requires node.Valid()
    modifies node.Repr
    ensures Inv(r) && Rep(r) == old(node.Repr) - {old(MinNode(node))}
    ensures unchanged(old(MinNode(node)))
    ensures Model(r) == RemoveMin(old(node.T))
    decreases node.Repr
  {
    if node.left == null {
      return node.right;
    }
    ghost var m, t0, R, Repr0 := MinNode(node.left), node.T, node.right, node.Repr;
    ghost var RL, RR := node.left.Repr, Rep(R);
    assert MinNode(node) == m && m in RL && m != node && Repr0 == {node} + RL + RR;
    assert Inv(R) && RL !! RR;
    var l := DeleteMin(node.left);
    ghost var ml, Rl := Model(l), Rep(l);
    assert unchanged(m) && ml == RemoveMin(t0.left) && Rl == RL - {m};
    assert node.right == R && Inv(R) && Rep(R) == RR && Rl !! RR && node !in Rl;
    assert Model(R) == t0.right;
    node.Relink(l, node.right);
    SpliceRepr(node, Rl, RR, m, RL);
    r := node;
  }

  /** `deleteMax(node)`: splice out the rightmost node by handing its left
      child to its parent, recomputing `N` on the way back up. */
  method DeleteMax<V>(node: Node<V>) returns (r: Node?<V>)
    requires node.Valid()
    modifies node.Repr
    ensures Inv(r) && Rep(r) == old(node.Repr) - {old(MaxNode(node))}
    ensures Model(r) == RemoveMax(old(node.T))
    decreases node.Repr
  {
    if node.right == null {
      return node.left;
    }
    ghost var m, t0, L, Repr0 := MaxNode(node.right), node.T, node.left, node.Repr;
    ghost var RL, RR := Rep(L), node.right.Repr;
    assert MaxNode(node) == m && m in RR && m != node && Repr0 == {node} + RL + RR;
    assert Inv(L) && RL !! RR;
    var rt := DeleteMax(node.right);
    ghost var mr, Rrt := Model(rt), Rep(rt);
    assert mr == RemoveMax(t0.right) && Rrt == RR - {m};
    assert node.left == L && Inv(L) && Rep(L) == RL && Rrt !! RL && node !in Rrt;
    assert Model(L) == t0.left;
    node.Relink(node.left, rt);
    SpliceRepr(node, Rrt, RL, m, RR);
    r := node;
  }

  /** `delete(node, key)`: remove the node of `key`, if present. A node with
      at most one child is replaced by that child; a node with two children is
      replaced by the leftmost node of its right subtree (Hibbard deletion),
      which is first spliced out of that subtree and then given both children. */
  method Delete<V>(node: Node?<V>, key: int) returns (r: Node?<V>)
    requires Inv(node)
    modifies Rep(node)
    ensures Inv(r) && Rep(r) <= old(Rep(node))
    ensures Model(r) == Remove(old(Model(node)), key)
    decreases Rep(node)
  {
    if node == null {
      return null;
    }
    ghost var t0, L, R := node.T, node.left, node.right;
    assert Inv(L) && Inv(R) && Rep(L) !! Rep(R) && node !in Rep(L) + Rep(R);
    assert Model(L) == t0.left && Model(R) == t0.right;
    if key < node.key {
      var l := Delete(node.left, key);
      assert node.right == R && Inv(R) && Rep(l) !! Rep(R) && node !in Rep(l);
      assert Model(R) == t0.right && Model(l) == Remove(t0.left, key);
      node.Relink(l, node.right);
      r := node;
    } else if key > node.key {
      var rt := Delete(node.right, key);
      assert node.left == L && Inv(L) && Rep(rt) !! Rep(L) && node !in Rep(rt);
      assert Model(L) == t0.left && Model(rt) == Remove(t0.right, key);
      node.Relink(node.left, rt);
      r := node;
    } else if node.right == null {
      r := node.left;
    } else if node.left == null {
      r := node.right;
    } else {
      var t := node;
      var x := MinNode(t.right);
      assert x.T == Leftmost(t0.right) && x in Rep(R) && x != node;
      var rt := DeleteMin(t.right);
      assert t.left == L && Inv(L) && Rep(rt) !! Rep(L) && x !in Rep(rt) + Rep(L);
      assert Model(L) == t0.left && Model(rt) == RemoveMin(t0.right);
      assert x.T == Leftmost(t0.right);
      x.Relink(t.left, rt);
      r := x;
    }
  }

  // ---------------------------------------------------------------- range traversal

  /** The list that `keys(lo, hi)` fills (a `java.util.ArrayList` of keys). */
  class KeyList {
    var items: seq<int>

    constructor ()
      ensures items == []
    {
      items := [];
    }

    method Add(k: int)
      modifies this
      ensures items == old(items) + [k]
    {
      items := items + [k];
    }
  }

  /** `keys(node, queue, lo, hi)`: in-order traversal pruned by the range,
      appending every key in `[lo, hi]` to `queue`. */
  method CollectKeys<V>(node: Node?<V>, queue: KeyList, lo: int, hi: int)
    requires Inv(node)
    modifies queue
    ensures Ordered(Model(node)) ==>
      queue.items == old(queue.items) + Between(InOrder(Model(node)), lo, hi)
    decreases Rep(node)
  {
    if node == null {
      return;
    }
    ghost var t, q0 := node.T, queue.items;
    ghost var a := if lo < node.key then Between(InOrder(t.left), lo, hi) else [];
    ghost var b := if lo <= node.key <= hi then [node.key] else [];
    ghost var c := if node.key < hi then Between(InOrder(t.right), lo, hi) else [];
    assert Model(node.left) == t.left && Model(node.right) == t.right;
    if lo < node.key {
      CollectKeys(node.left, queue, lo, hi);
    }
    assert Ordered(t) ==> queue.items == q0 + a;
    if lo <= node.key && hi >= node.key {
      queue.Add(node.key);
    }
    assert Ordered(t) ==> queue.items == q0 + a + b;
    if hi > node.key {
      CollectKeys(node.right, queue, lo, hi);
    }
    assert Ordered(t) ==> queue.items == q0 + a + b + c;
    RangeStep(t, lo, hi);
    assert Ordered(t) ==> Between(InOrder(t), lo, hi) == a + b + c;
    AppendAssoc(q0, a, b, c);
    assert Model(node) == t;
  }

  lemma AppendAssoc(q: seq<int>, a: seq<int>, b: seq<int>, c: seq<int>)
    ensures q + a + b + c == q + (a + b + c)
  {
  }
}
