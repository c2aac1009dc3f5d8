/** The mutators of the map as functions on abstract trees. Each follows the
    recursion of its Java counterpart step by step (same comparisons, same
    splices, same recomputation of the stored count on the way back up), so
    the in-place methods of module Nodes can be proved against them; the
    lemmas state what each edit does to the keys, the contents, the count and
    the two invariants. */
module TreeEdits {
  import opened Trees

  /** `put(node, key, val)`: replace the value of `key` or hang a new leaf. */
  ghost function Insert<V>(t: Tree<V>, key: int, val: V): (r: Tree<V>)
    ensures r.Node?
    ensures t.Node? ==> r.key == t.key
  {
    match t
    case Nil => Node(Nil, key, val, Nil, 1)
    case Node(l, k, v, r, _) =>
      if key < k then Rebuilt(Insert(l, key, val), k, v, r)
      else if key > k then Rebuilt(l, k, v, Insert(r, key, val))
      else Rebuilt(l, k, val, r)
  }

  /** `min(node)`: the subtree rooted at the leftmost node. */
  ghost function Leftmost<V>(t: Tree<V>): (m: Tree<V>)
    requires t.Node?
    ensures m.Node? && m.left.Nil?
  {
    if t.left.Nil? then t else Leftmost(t.left)
  }

  /** `max(node)`: the subtree rooted at the rightmost node. */
  ghost function Rightmost<V>(t: Tree<V>): (m: Tree<V>)
    requires t.Node?
    ensures m.Node? && m.right.Nil?
  {
    if t.right.Nil? then t else Rightmost(t.right)
  }

  /** `deleteMin(node)`: splice out the leftmost node. */
  ghost function RemoveMin<V>(t: Tree<V>): (r: Tree<V>)
    requires t.Node?
    ensures t.left.Node? ==> r.Node? && r.key == t.key
  {
    if t.left.Nil? then t.right else Rebuilt(RemoveMin(t.left), t.key, t.val, t.right)
  }

  /** `deleteMax(node)`: splice out the rightmost node. */
  ghost function RemoveMax<V>(t: Tree<V>): (r: Tree<V>)
    requires t.Node?
    ensures t.right.Node? ==> r.Node? && r.key == t.key
  {
    if t.right.Nil? then t.left else Rebuilt(t.left, t.key, t.val, RemoveMax(t.right))
  }

  /** `delete(node, key)`, with Hibbard deletion of a node that has two children:
      the leftmost node of the right subtree takes its place. */
  ghost function Remove<V>(t: Tree<V>, key: int): (r: Tree<V>)
    ensures t.Nil? ==> r.Nil?
    ensures t.Node? && key != t.key ==> r.Node? && r.key == t.key
  {
    match t
    case Nil => Nil
    case Node(l, k, v, r, _) =>
      if key < k then Rebuilt(Remove(l, key), k, v, r)
      else if key > k then Rebuilt(l, k, v, Remove(r, key))
      else if r.Nil? then l
      else if l.Nil? then r
      else
        var m := Leftmost(r);
        Rebuilt(l, m.key, m.val, RemoveMin(r))
  }

  // ---------------------------------------------------------------- put

  lemma {:induction false} InsertKeySet<V>(t: Tree<V>, key: int, val: V)
    ensures KeySet(Insert(t, key, val)) == KeySet(t) + {key}
  {
    match t
    case Nil =>
    case Node(l, k, v, r, _) =>
      if key < k { InsertKeySet(l, key, val); }
      else if key > k { InsertKeySet(r, key, val); }
  }

  lemma {:induction false} InsertOrdered<V>(t: Tree<V>, key: int, val: V)
    requires Ordered(t)
    ensures Ordered(Insert(t, key, val))
  {
    match t
    case Nil =>
    case Node(l, k, v, r, _) =>
      if key < k { InsertOrdered(l, key, val); InsertKeySet(l, key, val); }
      else if key > k { InsertOrdered(r, key, val); InsertKeySet(r, key, val); }
  }

  lemma {:induction false} InsertSizeConsistent<V>(t: Tree<V>, key: int, val: V)
    requires SizeConsistent(t)
    ensures SizeConsistent(Insert(t, key, val))
  {
    match t
    case Nil =>
    case Node(l, k, v, r, _) =>
      if key < k { InsertSizeConsistent(l, key, val); }
      else if key > k { InsertSizeConsistent(r, key, val); }
  }

  /** The tree grows by one node exactly when the key was absent. */
  lemma {:induction false} InsertCount<V>(t: Tree<V>, key: int, val: V)
    requires Ordered(t)
    ensures Count(Insert(t, key, val)) == Count(t) + (if key in KeySet(t) then 0 else 1)
  {
    match t
    case Nil =>
    case Node(l, k, v, r, _) =>
      if key < k { InsertCount(l, key, val); assert key !in KeySet(r); }
      else if key > k { InsertCount(r, key, val); assert key !in KeySet(l); }
  }

  /** After `put(key, val)` the key maps to `val`; every other entry is unchanged. */
  lemma {:induction false} InsertContent<V>(t: Tree<V>, key: int, val: V)
    requires Ordered(t)
    ensures Content(Insert(t, key, val)) == Content(t)[key := val]
  {
    match t
    case Nil =>
    case Node(l, k, v, r, _) =>
      ContentKeySet(l);
      ContentKeySet(r);
      if key < k {
        InsertContent(l, key, val);
        assert key !in Content(r);
        UpdateLeftOfUnion(Content(l), Content(r), k, v, key, val);
      } else if key > k {
        InsertContent(r, key, val);
        UpdateRightOfUnion(Content(l), Content(r), k, v, key, val);
      }
  }

  /** Re-inserting a key that is already present replaces its value in place:
      the keys stay where they were. */
  lemma {:induction false} InsertPresentInOrder<V>(t: Tree<V>, key: int, val: V)
    requires Ordered(t) && key in KeySet(t)
    ensures InOrder(Insert(t, key, val)) == InOrder(t)
  {
    match t
    case Nil =>
    case Node(l, k, v, r, _) =>
      if key < k {
        assert key !in KeySet(r);
        InsertPresentInOrder(l, key, val);
      } else if key > k {
        assert key !in KeySet(l);
        InsertPresentInOrder(r, key, val);
      }
  }

  // ---------------------------------------------------------------- min and deleteMin

  /** The leftmost node holds the first key in in-order; splicing it out drops exactly that key. */
  lemma {:induction false} RemoveMinInOrder<V>(t: Tree<V>)
    requires t.Node?
    ensures InOrder(t) != [] && Leftmost(t).key == InOrder(t)[0]
    ensures InOrder(RemoveMin(t)) == InOrder(t)[1..]
  {
    if t.left.Node? {
      RemoveMinInOrder(t.left);
      assert InOrder(t) == InOrder(t.left) + ([t.key] + InOrder(t.right));
    }
  }

  /** The leftmost node holds the least key of an ordered tree, with its value. */
  lemma {:induction false} LeftmostIsMin<V>(t: Tree<V>)
    requires t.Node?
    ensures Leftmost(t).Node? && Leftmost(t).left.Nil?
    ensures Leftmost(t).key in KeySet(t)
    ensures Ordered(t) ==> forall x :: x in KeySet(t) ==> Leftmost(t).key <= x
    ensures Ordered(t) ==> Leftmost(t).key in Content(t) && Content(t)[Leftmost(t).key] == Leftmost(t).val
  {
    ContentKeySet(t);
    if t.left.Node? {
      LeftmostIsMin(t.left);
      ContentKeySet(t.left);
      ContentKeySet(t.right);
      if Ordered(t) {
        assert Leftmost(t).key !in Content(t.right);
      }
    }
  }

  lemma {:induction false} RemoveMinKeySet<V>(t: Tree<V>)
    requires t.Node?
    ensures Ordered(t) ==> KeySet(RemoveMin(t)) == KeySet(t) - {Leftmost(t).key}
    ensures KeySet(RemoveMin(t)) <= KeySet(t)
  {
    if t.left.Node? {
      RemoveMinKeySet(t.left);
      LeftmostIsMin(t.left);
    } else if Ordered(t) {
      assert t.key !in KeySet(t.right);
    }
  }

  lemma {:induction false} RemoveMinOrdered<V>(t: Tree<V>)
    requires t.Node? && Ordered(t)
    ensures Ordered(RemoveMin(t))
  {
    if t.left.Node? {
      RemoveMinOrdered(t.left);
      RemoveMinKeySet(t.left);
    }
  }

  lemma {:induction false} RemoveMinCount<V>(t: Tree<V>)
    requires t.Node?
    ensures Count(RemoveMin(t)) == Count(t) - 1
  {
    if t.left.Node? {
      RemoveMinCount(t.left);
    }
  }

  lemma {:induction false} RemoveMinSizeConsistent<V>(t: Tree<V>)
    requires t.Node? && SizeConsistent(t)
    ensures SizeConsistent(RemoveMin(t))
  {
    if t.left.Node? {
      RemoveMinSizeConsistent(t.left);
      RemoveMinCount(t.left);
    }
  }

  /** `deleteMin` removes exactly the least entry. */
  lemma {:induction false} RemoveMinContent<V>(t: Tree<V>)
    requires t.Node? && Ordered(t)
    ensures Content(RemoveMin(t)) == Content(t) - {Leftmost(t).key}
  {
    ContentKeySet(t.left);
    ContentKeySet(t.right);
    if t.left.Node? {
      RemoveMinContent(t.left);
      LeftmostIsMin(t.left);
      var m := Leftmost(t.left).key;
      assert m !in Content(t.right) && m != t.key;
      RemoveFromLeftOfUnion(Content(t.left), Content(t.right), t.key, t.val, m);
    } else {
      assert t.key !in Content(t.right);
    }
  }

  // ---------------------------------------------------------------- max and deleteMax

  lemma {:induction false} RemoveMaxInOrder<V>(t: Tree<V>)
    requires t.Node?
    ensures InOrder(t) != [] && Rightmost(t).key == InOrder(t)[|InOrder(t)| - 1]
    ensures InOrder(RemoveMax(t)) == InOrder(t)[..|InOrder(t)| - 1]
  {
    if t.right.Node? {
      RemoveMaxInOrder(t.right);
      assert InOrder(t) == (InOrder(t.left) + [t.key]) + InOrder(t.right);
    }
  }

  /** The rightmost node holds the greatest key of an ordered tree, with its value. */
  lemma {:induction false} RightmostIsMax<V>(t: Tree<V>)
    requires t.Node?
    ensures Rightmost(t).Node? && Rightmost(t).right.Nil?
    ensures Rightmost(t).key in KeySet(t)
    ensures Ordered(t) ==> forall x :: x in KeySet(t) ==> x <= Rightmost(t).key
    ensures Ordered(t) ==> Rightmost(t).key in Content(t) && Content(t)[Rightmost(t).key] == Rightmost(t).val
  {
    ContentKeySet(t);
    if t.right.Node? {
      RightmostIsMax(t.right);
      ContentKeySet(t.left);
      ContentKeySet(t.right);
    }
  }

  lemma {:induction false} RemoveMaxKeySet<V>(t: Tree<V>)
    requires t.Node?
    ensures Ordered(t) ==> KeySet(RemoveMax(t)) == KeySet(t) - {Rightmost(t).key}
    ensures KeySet(RemoveMax(t)) <= KeySet(t)
  {
    if t.right.Node? {
      RemoveMaxKeySet(t.right);
      RightmostIsMax(t.right);
    } else if Ordered(t) {
      assert t.key !in KeySet(t.left);
    }
  }

  lemma {:induction false} RemoveMaxOrdered<V>(t: Tree<V>)
    requires t.Node? && Ordered(t)
    ensures Ordered(RemoveMax(t))
  {
    if t.right.Node? {
      RemoveMaxOrdered(t.right);
      RemoveMaxKeySet(t.right);
    }
  }

  lemma {:induction false} RemoveMaxCount<V>(t: Tree<V>)
    requires t.Node?
    ensures Count(RemoveMax(t)) == Count(t) - 1
  {
    if t.right.Node? {
      RemoveMaxCount(t.right);
    }
  }

  lemma {:induction false} RemoveMaxSizeConsistent<V>(t: Tree<V>)
    requires t.Node? && SizeConsistent(t)
    ensures SizeConsistent(RemoveMax(t))
  {
    if t.right.Node? {
      RemoveMaxSizeConsistent(t.right);
      RemoveMaxCount(t.right);
    }
  }

  /** `deleteMax` removes exactly the greatest entry. */
  lemma {:induction false} RemoveMaxContent<V>(t: Tree<V>)
    requires t.Node? && Ordered(t)
    ensures Content(RemoveMax(t)) == Content(t) - {Rightmost(t).key}
  {
    ContentKeySet(t.left);
    ContentKeySet(t.right);
    if t.right.Node? {
      RemoveMaxContent(t.right);
      RightmostIsMax(t.right);
      var m := Rightmost(t.right).key;
      assert m !in Content(t.left) && m != t.key;
      RemoveFromRightOfUnion(Content(t.left), Content(t.right), t.key, t.val, m);
    } else {
      assert t.key !in Content(t.left);
    }
  }

  // ---------------------------------------------------------------- delete

  /** Deleting an absent key gives back the very same tree. */
  lemma {:induction false} RemoveAbsent<V>(t: Tree<V>, key: int)
    requires Ordered(t) && SizeConsistent(t) && key !in KeySet(t)
    ensures Remove(t, key) == t
  {
    match t
    case Nil =>
    case Node(l, k, v, r, _) =>
      assert Stored(l) == Count(l) && Stored(r) == Count(r);
      if key < k { RemoveAbsent(l, key); }
      else { RemoveAbsent(r, key); }
  }

  lemma {:induction false} RemoveKeySet<V>(t: Tree<V>, key: int)
    requires Ordered(t)
    ensures KeySet(Remove(t, key)) == KeySet(t) - {key}
  {
    match t
    case Nil =>
    case Node(l, k, v, r, _) =>
      if key < k {
        RemoveKeySet(l, key);
      } else if key > k {
        RemoveKeySet(r, key);
      } else if r.Node? && l.Node? {
        RemoveMinKeySet(r);
        LeftmostIsMin(r);
        assert k !in KeySet(l) && k !in KeySet(r);
      } else {
        assert k !in KeySet(l) && k !in KeySet(r);
      }
  }

  lemma {:induction false} RemoveOrdered<V>(t: Tree<V>, key: int)
    requires Ordered(t)
    ensures Ordered(Remove(t, key))
  {
    match t
    case Nil =>
    case Node(l, k, v, r, _) =>
      if key < k {
        RemoveOrdered(l, key);
        RemoveKeySet(l, key);
      } else if key > k {
        RemoveOrdered(r, key);
        RemoveKeySet(r, key);
      } else if r.Node? && l.Node? {
        RemoveMinOrdered(r);
        RemoveMinKeySet(r);
        LeftmostIsMin(r);
      }
  }

  lemma {:induction false} RemoveSizeConsistent<V>(t: Tree<V>, key: int)
    requires SizeConsistent(t)
    ensures SizeConsistent(Remove(t, key))
  {
    match t
    case Nil =>
    case Node(l, k, v, r, _) =>
      if key < k {
        RemoveSizeConsistent(l, key);
      } else if key > k {
        RemoveSizeConsistent(r, key);
      } else if r.Node? && l.Node? {
        RemoveMinSizeConsistent(r);
        RemoveMinCount(r);
      }
  }

  /** The tree loses one node exactly when the key was present. */
  lemma {:induction false} RemoveCount<V>(t: Tree<V>, key: int)
    requires Ordered(t)
    ensures Count(Remove(t, key)) == Count(t) - (if key in KeySet(t) then 1 else 0)
  {
    match t
    case Nil =>
    case Node(l, k, v, r, _) =>
      if key < k {
        RemoveCount(l, key);
        assert key !in KeySet(r);
      } else if key > k {
        RemoveCount(r, key);
        assert key !in KeySet(l);
      } else if r.Node? && l.Node? {
        RemoveMinCount(r);
      }
  }


  /** `delete(key)` removes exactly the entry of `key`. */
  lemma {:induction false} RemoveContent<V>(t: Tree<V>, key: int)
    requires Ordered(t)
    ensures Content(Remove(t, key)) == Content(t) - {key}
  {
    match t
    case Nil =>
    case Node(l, k, v, r, _) =>
      ContentKeySet(l);
      ContentKeySet(r);
      if key < k {
        RemoveContent(l, key);
        assert key !in Content(r);
        RemoveFromLeftOfUnion(Content(l), Content(r), k, v, key);
      } else if key > k {
        RemoveContent(r, key);
        assert key !in Content(l);
        RemoveFromRightOfUnion(Content(l), Content(r), k, v, key);
      } else if r.Node? && l.Node? {
        RemoveMinContent(r);
        LeftmostIsMin(r);
        var m := Leftmost(r);
        assert k !in Content(l) && k !in Content(r) && m.key !in Content(l);
        ReplaceRoot(Content(l), Content(r), k, v, m.key, m.val);
      } else {
        assert k !in Content(l) && k !in Content(r);
      }
  }

  /** Hibbard deletion: a node with two children is replaced by the least
      entry of its right subtree, and its left subtree stays in place. */
  lemma HibbardReplacement<V>(t: Tree<V>)
    requires t.Node? && t.left.Node? && t.right.Node? && Ordered(t)
    ensures Remove(t, t.key).Node? && Remove(t, t.key).left == t.left
    ensures Remove(t, t.key).key in KeySet(t.right)
    ensures forall x :: x in KeySet(t.right) ==> Remove(t, t.key).key <= x
    ensures Remove(t, t.key).key in Content(t.right)
    ensures Remove(t, t.key).val == Content(t.right)[Remove(t, t.key).key]
  {
    LeftmostIsMin(t.right);
  }

  // ---------------------------------------------------------------- map algebra

  lemma UpdateLeftOfUnion<K, V>(a: map<K, V>, b: map<K, V>, k: K, v: V, x: K, w: V)
    requires x !in b && x != k
    ensures (a[x := w] + b)[k := v] == (a + b)[k := v][x := w]
  {
    var p, q := (a[x := w] + b)[k := v], (a + b)[k := v][x := w];
    assert p.Keys == q.Keys;
    forall y | y in p ensures p[y] == q[y] { }
  }

  lemma UpdateRightOfUnion<K, V>(a: map<K, V>, b: map<K, V>, k: K, v: V, x: K, w: V)
    requires x != k
    ensures (a + b[x := w])[k := v] == (a + b)[k := v][x := w]
  {
    var p, q := (a + b[x := w])[k := v], (a + b)[k := v][x := w];
    assert p.Keys == q.Keys;
    forall y | y in p ensures p[y] == q[y] { }
  }

  lemma RemoveFromLeftOfUnion<K, V>(a: map<K, V>, b: map<K, V>, k: K, v: V, x: K)
    requires x !in b && x != k
    ensures ((a - {x}) + b)[k := v] == (a + b)[k := v] - {x}
  {
    var p, q := ((a - {x}) + b)[k := v], (a + b)[k := v] - {x};
    assert p.Keys == q.Keys;
    forall y | y in p ensures p[y] == q[y] { }
  }

  lemma RemoveFromRightOfUnion<K, V>(a: map<K, V>, b: map<K, V>, k: K, v: V, x: K)
    requires x !in a && x != k
    ensures (a + (b - {x}))[k := v] == (a + b)[k := v] - {x}
  {
    var p, q := (a + (b - {x}))[k := v], (a + b)[k := v] - {x};
    assert p.Keys == q.Keys;
    forall y | y in p ensures p[y] == q[y] { }
  }

  lemma ReplaceRoot<K, V>(a: map<K, V>, b: map<K, V>, k: K, v: V, m: K, w: V)
    requires k !in a && k !in b && m !in a && m in b && b[m] == w
    ensures (a + (b - {m}))[m := w] == (a + b)[k := v] - {k}
  {
    var p, q := (a + (b - {m}))[m := w], (a + b)[k := v] - {k};
    assert p.Keys == q.Keys;
    forall y | y in p ensures p[y] == q[y] { }
  }
}
