/** The abstract value of a subtree of the size-augmented binary search tree,
    and the views of it that the operations are specified against. */
module Trees {
  import opened Wrappers
  import opened Sequences

  /** A subtree: `Nil` stands for an absent child; a `Node` carries its key,
      its value, its two children and the node count `n` it records. */
  datatype Tree<V> = Nil | Node(left: Tree<V>, key: int, val: V, right: Tree<V>, n: int)

  /** The count a subtree records about itself, 0 for an absent child
      (the private `size(Node)` of the map). */
  ghost function Stored<V>(t: Tree<V>): int {
    if t.Nil? then 0 else t.n
  }

  /** The number of nodes actually present. */
  ghost function Count<V>(t: Tree<V>): nat {
    match t
    case Nil => 0
    case Node(l, _, _, r, _) => Count(l) + 1 + Count(r)
  }

  /** The keys stored anywhere in the subtree. */
  ghost function KeySet<V>(t: Tree<V>): set<int> {
    match t
    case Nil => {}
    case Node(l, k, _, r, _) => KeySet(l) + {k} + KeySet(r)
  }

  /** The key/value pairs stored in the subtree, as a map. */
  ghost function Content<V>(t: Tree<V>): map<int, V> {
    match t
    case Nil => map[]
    case Node(l, k, v, r, _) => (Content(l) + Content(r))[k := v]
  }

  /** The keys in in-order (left subtree, node, right subtree). */
  ghost function InOrder<V>(t: Tree<V>): seq<int> {
    match t
    case Nil => []
    case Node(l, k, _, r, _) => InOrder(l) + [k] + InOrder(r)
  }

  /** Symmetric order: at every node, the keys on the left are strictly
      smaller and the keys on the right strictly larger than the node's key. */
  ghost predicate Ordered<V>(t: Tree<V>) {
    match t
    case Nil => true
    case Node(l, k, _, r, _) =>
      Ordered(l) && Ordered(r) &&
      (forall x :: x in KeySet(l) ==> x < k) &&
      (forall x :: x in KeySet(r) ==> k < x)
  }

  /** Every node records the number of nodes of its own subtree. */
  ghost predicate SizeConsistent<V>(t: Tree<V>) {
    match t
    case Nil => true
    case Node(l, _, _, r, n) => n == Count(t) && SizeConsistent(l) && SizeConsistent(r)
  }

  /** A subtree rebuilt around a node, its count recomputed from the counts
      its children record (`node.N = 1 + size(node.left) + size(node.right)`). */
  ghost function Rebuilt<V>(l: Tree<V>, k: int, v: V, r: Tree<V>): Tree<V> {
    Node(l, k, v, r, 1 + Stored(l) + Stored(r))
  }

  lemma {:induction false} InOrderKeySet<V>(t: Tree<V>)
    ensures |InOrder(t)| == Count(t)
    ensures forall x :: x in InOrder(t) <==> x in KeySet(t)
  {
    match t
    case Nil =>
    case Node(l, k, _, r, _) =>
      InOrderKeySet(l);
      InOrderKeySet(r);
  }

  lemma {:induction false} ContentKeySet<V>(t: Tree<V>)
    ensures Content(t).Keys == KeySet(t)
  {
    match t
    case Nil =>
    case Node(l, k, _, r, _) =>
      ContentKeySet(l);
      ContentKeySet(r);
  }

  /** In-order traversal of an ordered tree lists its keys strictly ascending. */
  lemma {:induction false} OrderedIncreasing<V>(t: Tree<V>)
    requires Ordered(t)
    ensures StrictlyIncreasing(InOrder(t))
  {
    match t
    case Nil =>
    case Node(l, k, _, r, _) =>
      OrderedIncreasing(l);
      OrderedIncreasing(r);
      InOrderKeySet(l);
      InOrderKeySet(r);
      var a, b := InOrder(l), InOrder(r);
      assert forall i :: 0 <= i < |a| ==> a[i] < k by {
        forall i | 0 <= i < |a| ensures a[i] < k { assert a[i] in a; }
      }
      assert forall i :: 0 <= i < |b| ==> k < b[i] by {
        forall i | 0 <= i < |b| ensures k < b[i] { assert b[i] in b; }
      }
      ConcatIncreasing(a, k, b);
  }

  lemma ConcatIncreasing(a: seq<int>, k: int, b: seq<int>)
    requires StrictlyIncreasing(a) && StrictlyIncreasing(b)
    requires forall i :: 0 <= i < |a| ==> a[i] < k
    requires forall i :: 0 <= i < |b| ==> k < b[i]
    ensures StrictlyIncreasing(a + [k] + b)
  {
    var s := a + [k] + b;
    forall i, j | 0 <= i < j < |s| ensures s[i] < s[j] {
      if j < |a| {
      } else if j == |a| {
      } else if i <= |a| {
        assert s[j] == b[j - |a| - 1];
      } else {
        assert s[i] == b[i - |a| - 1] && s[j] == b[j - |a| - 1];
      }
    }
  }

  /** Keys are unique in an ordered tree, so it holds as many keys as nodes. */
  lemma {:induction false} OrderedCount<V>(t: Tree<V>)
    requires Ordered(t)
    ensures |KeySet(t)| == Count(t)
  {
    match t
    case Nil =>
    case Node(l, k, _, r, _) =>
      OrderedCount(l);
      OrderedCount(r);
      assert k !in KeySet(l) && k !in KeySet(r);
      assert KeySet(l) !! KeySet(r) by {
        forall x | x in KeySet(l) ensures x !in KeySet(r) { }
      }
      assert |KeySet(l) + KeySet(r)| == |KeySet(l)| + |KeySet(r)|;
      assert KeySet(t) == (KeySet(l) + KeySet(r)) + {k};
  }

  /** A key lies strictly between two optional bounds (a `null` bound of
      `treeExists` is `None` here and does not constrain). */
  ghost predicate Within(x: int, min: Option<int>, max: Option<int>) {
    (min.None? || min.value < x) && (max.None? || x < max.value)
  }

  /** The subtree has a node at depth `d` (the root is at depth 0). */
  ghost predicate HasDepth<V>(t: Tree<V>, d: int) {
    match t
    case Nil => false
    case Node(l, _, _, r, _) => d == 0 || (d > 0 && (HasDepth(l, d - 1) || HasDepth(r, d - 1)))
  }

  /** One step of binary search in an ordered tree: which subtree holds the entry of `key`. */
  lemma ContentSearch<V>(t: Tree<V>, key: int)
    ensures t.Node? && Ordered(t) ==>
      t.key in Content(t) && Content(t)[t.key] == t.val &&
      (key < t.key ==> (key in Content(t) <==> key in Content(t.left)) &&
                       (key in Content(t.left) ==> Content(t)[key] == Content(t.left)[key])) &&
      (t.key < key ==> (key in Content(t) <==> key in Content(t.right)) &&
                       (key in Content(t.right) ==> Content(t)[key] == Content(t.right)[key]))
  {
    if t.Node? && Ordered(t) {
      ContentKeySet(t.left);
      ContentKeySet(t.right);
    }
  }

  /** In an ordered tree, all keys of the left subtree appear in in-order before
      the node and are smaller; all keys of the right subtree are larger. */
  lemma OrderedSides<V>(t: Tree<V>)
    requires t.Node? && Ordered(t)
    ensures forall x :: x in InOrder(t.left) ==> x < t.key
    ensures forall x :: x in InOrder(t.right) ==> t.key < x
    ensures |InOrder(t.left)| == Count(t.left)
  {
    InOrderKeySet(t.left);
    InOrderKeySet(t.right);
  }

  /** One step of `rank`: the keys of an ordered tree below `key`, counted by subtree. */
  lemma RankStep<V>(t: Tree<V>, key: int)
    ensures t.Node? && Ordered(t) ==>
      CountBelow(InOrder(t), key) ==
        if key < t.key then CountBelow(InOrder(t.left), key)
        else if t.key < key then 1 + Count(t.left) + CountBelow(InOrder(t.right), key)
        else Count(t.left)
  {
    if t.Node? && Ordered(t) {
      var a, b := InOrder(t.left), InOrder(t.right);
      OrderedSides(t);
      CountBelowConcat(a + [t.key], b, key);
      CountBelowConcat(a, [t.key], key);
      assert CountBelow([t.key], key) == (if t.key < key then 1 else 0) by {
        assert [t.key][1..] == [];
      }
      if key < t.key {
        CountBelowNone(b, key);
      } else if t.key < key {
        CountBelowAll(a, key);
      } else {
        CountBelowAll(a, key);
        CountBelowNone(b, key);
      }
    }
  }

  /** One step of `keys(node, queue, lo, hi)`: the keys of an ordered tree in
      `[lo, hi]`, collected from the left subtree only when `lo < key` and
      from the right subtree only when `key < hi`. */
  lemma RangeStep<V>(t: Tree<V>, lo: int, hi: int)
    ensures t.Node? && Ordered(t) ==>
      Between(InOrder(t), lo, hi) ==
        (if lo < t.key then Between(InOrder(t.left), lo, hi) else []) +
        (if lo <= t.key <= hi then [t.key] else []) +
        (if t.key < hi then Between(InOrder(t.right), lo, hi) else [])
  {
    if t.Node? && Ordered(t) {
      var a, b := InOrder(t.left), InOrder(t.right);
      OrderedSides(t);
      BetweenConcat(a + [t.key], b, lo, hi);
      BetweenConcat(a, [t.key], lo, hi);
      assert Between([t.key], lo, hi) == (if lo <= t.key <= hi then [t.key] else []) by {
        assert [t.key][1..] == [];
      }
      if t.key <= lo { BetweenNone(a, lo, hi); }
      if hi <= t.key { BetweenNone(b, lo, hi); }
    }
  }

  /** One step of the bounded order check: a node inside the bounds roots an
      ordered tree inside the bounds exactly when its left subtree is ordered
      and below it and its right subtree is ordered and above it. */
  lemma WithinStep<V>(t: Tree<V>, min: Option<int>, max: Option<int>)
    requires t.Node? && Within(t.key, min, max)
    ensures (Ordered(t) && forall x :: x in KeySet(t) ==> Within(x, min, max)) <==>
      (Ordered(t.left) && (forall x :: x in KeySet(t.left) ==> Within(x, min, Some(t.key)))) &&
      (Ordered(t.right) && (forall x :: x in KeySet(t.right) ==> Within(x, Some(t.key), max)))
  {
    var l, k, r := t.left, t.key, t.right;
    if Ordered(t) && forall x :: x in KeySet(t) ==> Within(x, min, max) {
      forall x | x in KeySet(l) ensures Within(x, min, Some(k)) { assert x in KeySet(t); }
      forall x | x in KeySet(r) ensures Within(x, Some(k), max) { assert x in KeySet(t); }
    }
    if (Ordered(l) && forall x :: x in KeySet(l) ==> Within(x, min, Some(k))) &&
       (Ordered(r) && forall x :: x in KeySet(r) ==> Within(x, Some(k), max)) {
      forall x | x in KeySet(t) ensures Within(x, min, max) {
        if x in KeySet(l) { assert Within(x, min, Some(k)); }
        else if x in KeySet(r) { assert Within(x, Some(k), max); }
      }
      assert forall x :: x in KeySet(l) ==> x < k by {
        forall x | x in KeySet(l) ensures x < k { assert Within(x, min, Some(k)); }
      }
      assert forall x :: x in KeySet(r) ==> k < x by {
        forall x | x in KeySet(r) ensures k < x { assert Within(x, Some(k), max); }
      }
    }
  }
}
