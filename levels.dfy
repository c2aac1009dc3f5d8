/** Level order. `levelOrder()` drains a FIFO queue of subtrees that starts
    with the root: it takes the front, skips it when empty, and otherwise
    emits its key and enqueues its two children. `Drain` is that process on
    tree values; `BreadthFirst` is an independent definition, the keys of
    depth 0, then of depth 1, and so on, each level left to right. The two are
    proved equal for every tree. */
module Levels {
  import opened Trees

  /** What the queue loses at every step: a pending empty subtree weighs 1, a
      pending subtree of n nodes weighs 2n + 1. */
  ghost function Weight<V>(q: seq<Tree<V>>): nat {
    if q == [] then 0 else 2 * Count(q[0]) + 1 + Weight(q[1..])
  }

  lemma {:induction false} WeightConcat<V>(a: seq<Tree<V>>, b: seq<Tree<V>>)
    ensures Weight(a + b) == Weight(a) + Weight(b)
  {
    if a == [] {
      assert a + b == b;
    } else {
      WeightConcat(a[1..], b);
      assert (a + b)[0] == a[0] && (a + b)[1..] == a[1..] + b;
    }
  }

  /** The two children a node puts on the queue, as the queue measures see them. */
  lemma Pair<V>(l: Tree<V>, r: Tree<V>)
    ensures Weight([l, r]) == 2 * Count(l) + 1 + 2 * Count(r) + 1
    ensures Total([l, r]) == Count(l) + Count(r)
    ensures QueueKeys([l, r]) == KeySet(l) + KeySet(r)
  {
    var q, p := [l, r], [r];
    assert q[0] == l && q[1..] == p && p[0] == r && p[1..] == [];
    assert Weight(p) == 2 * Count(r) + 1 && Total(p) == Count(r) && QueueKeys(p) == KeySet(r);
  }

  /** The keys the queue loop emits, in order, starting from the queue `q`. */
  ghost function Drain<V>(q: seq<Tree<V>>): seq<int>
    decreases Weight(q)
  {
    if q == [] then []
    else
      match q[0]
      case Nil => Drain(q[1..])
      case Node(l, k, _, r, _) =>
        WeightConcat(q[1..], [l, r]);
        Pair(l, r);
        [k] + Drain(q[1..] + [l, r])
  }

  /** One step of the queue loop: the front is dropped when empty, and
      otherwise emits its key and enqueues its children; either way the queue
      gets lighter. */
  lemma DrainFront<V>(q: seq<Tree<V>>)
    requires q != []
    ensures q[0].Nil? ==> Drain(q) == Drain(q[1..]) && Weight(q[1..]) < Weight(q)
    ensures q[0].Node? ==>
      var p := q[1..] + [q[0].left, q[0].right];
      Drain(q) == [q[0].key] + Drain(p) && Weight(p) < Weight(q)
  {
    if q[0].Node? {
      WeightConcat(q[1..], [q[0].left, q[0].right]);
      Pair(q[0].left, q[0].right);
    }
  }

  /** The keys at the roots of the non-empty subtrees of `q`, in order. */
  ghost function Roots<V>(q: seq<Tree<V>>): seq<int> {
    if q == [] then []
    else (if q[0].Node? then [q[0].key] else []) + Roots(q[1..])
  }

  /** The children of the non-empty subtrees of `q`, in order: the next
      generation of the queue. */
  ghost function Kids<V>(q: seq<Tree<V>>): seq<Tree<V>> {
    if q == [] then []
    else (if q[0].Node? then [q[0].left, q[0].right] else []) + Kids(q[1..])
  }

  /** The subtrees `d` generations below those of `q`. */
  ghost function Frontier<V>(q: seq<Tree<V>>, d: nat): seq<Tree<V>>
    decreases d
  {
    if d == 0 then q else Frontier(Kids(q), d - 1)
  }

  /** The number of nodes in all subtrees of `q`. */
  ghost function Total<V>(q: seq<Tree<V>>): nat {
    if q == [] then 0 else Count(q[0]) + Total(q[1..])
  }

  /** The keys in all subtrees of `q`. */
  ghost function QueueKeys<V>(q: seq<Tree<V>>): set<int> {
    if q == [] then {} else KeySet(q[0]) + QueueKeys(q[1..])
  }

  /** The keys at depth `d` of `t`, left to right. */
  ghost function Level<V>(t: Tree<V>, d: nat): seq<int> {
    match t
    case Nil => []
    case Node(l, k, _, r, _) => if d == 0 then [k] else Level(l, d - 1) + Level(r, d - 1)
  }

  /** Levels `0 .. d-1` of `t`, one after the other. */
  ghost function LevelsBelow<V>(t: Tree<V>, d: nat): seq<int> {
    if d == 0 then [] else LevelsBelow(t, d - 1) + Level(t, d - 1)
  }

  /** All levels of `t`: no node lies deeper than its node count. */
  ghost function BreadthFirst<V>(t: Tree<V>): seq<int> {
    LevelsBelow(t, Count(t) + 1)
  }

  // ---------------------------------------------------------------- generations

  lemma {:induction false} RootsConcat<V>(a: seq<Tree<V>>, b: seq<Tree<V>>)
    ensures Roots(a + b) == Roots(a) + Roots(b)
  {
    if a == [] {
      assert a + b == b;
    } else {
      var c := a + b;
      assert c[0] == a[0] && c[1..] == a[1..] + b;
      RootsConcat(a[1..], b);
      var h := (if a[0].Node? then [a[0].key] else []);
      var x, y := Roots(a[1..]), Roots(b);
      assert Roots(c) == h + (x + y);
      assert Roots(a) == h + x;
      assert h + (x + y) == (h + x) + y;
    }
  }

  lemma {:induction false} KidsConcat<V>(a: seq<Tree<V>>, b: seq<Tree<V>>)
    ensures Kids(a + b) == Kids(a) + Kids(b)
  {
    if a == [] {
      assert a + b == b;
    } else {
      var c := a + b;
      assert c[0] == a[0] && c[1..] == a[1..] + b;
      KidsConcat(a[1..], b);
      var h := (if a[0].Node? then [a[0].left, a[0].right] else []);
      var x, y := Kids(a[1..]), Kids(b);
      assert Kids(c) == h + (x + y);
      assert Kids(a) == h + x;
      assert h + (x + y) == (h + x) + y;
    }
  }

  lemma {:induction false} FrontierConcat<V>(a: seq<Tree<V>>, b: seq<Tree<V>>, d: nat)
    ensures Frontier(a + b, d) == Frontier(a, d) + Frontier(b, d)
    decreases d
  {
    if d > 0 {
      KidsConcat(a, b);
      FrontierConcat(Kids(a), Kids(b), d - 1);
    }
  }

  lemma {:induction false} FrontierOfNothing<V>(q: seq<Tree<V>>, d: nat)
    requires q == []
    ensures Frontier(q, d) == []
    decreases d
  {
    if d > 0 {
      FrontierOfNothing(Kids(q), d - 1);
    }
  }

  lemma {:induction false} FrontierStep<V>(q: seq<Tree<V>>, d: nat)
    ensures Frontier(q, d + 1) == Kids(Frontier(q, d))
    decreases d
  {
    if d > 0 {
      FrontierStep(Kids(q), d - 1);
    }
  }

  /** The roots of generation `d` below `t` are the keys at depth `d`. */
  lemma {:induction false} FrontierLevel<V>(t: Tree<V>, d: nat)
    ensures Roots(Frontier([t], d)) == Level(t, d)
  {
    if d > 0 {
      match t
      case Nil =>
        assert Kids([t]) == [];
        FrontierOfNothing(Kids([t]), d - 1);
      case Node(l, _, _, r, _) =>
        assert Kids([t]) == [l] + [r];
        FrontierConcat([l], [r], d - 1);
        RootsConcat(Frontier([l], d - 1), Frontier([r], d - 1));
        FrontierLevel(l, d - 1);
        FrontierLevel(r, d - 1);
    }
  }

  lemma {:induction false} KidsTotal<V>(q: seq<Tree<V>>)
    ensures Total(Kids(q)) + |Roots(q)| == Total(q)
  {
    if q != [] {
      KidsTotal(q[1..]);
      var h := if q[0].Node? then [q[0].left, q[0].right] else [];
      TotalConcat(h, Kids(q[1..]));
      if q[0].Node? {
        assert h[1..] == [q[0].right] && h[1..][1..] == [];
      }
    }
  }

  lemma {:induction false} TotalConcat<V>(a: seq<Tree<V>>, b: seq<Tree<V>>)
    ensures Total(a + b) == Total(a) + Total(b)
  {
    if a == [] {
      assert a + b == b;
    } else {
      TotalConcat(a[1..], b);
      assert (a + b)[0] == a[0] && (a + b)[1..] == a[1..] + b;
    }
  }

  /** Every generation deeper than the number of nodes is empty. */
  lemma {:induction false} FrontierVanishes<V>(q: seq<Tree<V>>, d: nat)
    requires Total(q) < d
    ensures Frontier(q, d) == []
    decreases d
  {
    KidsTotal(q);
    if Roots(q) == [] {
      NoRootsNoKids(q);
      FrontierOfNothing(Kids(q), d - 1);
    } else {
      FrontierVanishes(Kids(q), d - 1);
    }
  }

  lemma {:induction false} NoRootsNoKids<V>(q: seq<Tree<V>>)
    requires Roots(q) == []
    ensures Kids(q) == []
  {
    if q != [] {
      NoRootsNoKids(q[1..]);
    }
  }

  // ---------------------------------------------------------------- the queue

  /** Draining `a` before `b` emits the roots of `a`, then drains `b` followed
      by the children that `a` enqueued. */
  lemma {:induction false} DrainSplit<V>(a: seq<Tree<V>>, b: seq<Tree<V>>)
    ensures Drain(a + b) == Roots(a) + Drain(b + Kids(a))
    decreases |a|
  {
    if a == [] {
      assert a + b == b && b + Kids(a) == b;
    } else {
      var c := a + b;
      assert c[0] == a[0] && c[1..] == a[1..] + b;
      DrainFront(c);
      match a[0]
      case Nil =>
        DrainSplit(a[1..], b);
        assert Roots(a) == Roots(a[1..]) && Kids(a) == Kids(a[1..]);
      case Node(l, k, _, r, _) =>
        var p := b + [l, r];
        DrainSplit(a[1..], p);
        assert c[1..] + [l, r] == a[1..] + p;
        var x, y := Roots(a[1..]), Drain(p + Kids(a[1..]));
        assert Roots(a) == [k] + x;
        assert p + Kids(a[1..]) == b + Kids(a);
        assert [k] + (x + y) == ([k] + x) + y;
    }
  }

  /** After `d` generations the queue loop has emitted levels `0 .. d-1`. */
  lemma {:induction false} DrainByLevels<V>(t: Tree<V>, d: nat)
    ensures Drain([t]) == LevelsBelow(t, d) + Drain(Frontier([t], d))
  {
    if d > 0 {
      DrainByLevels(t, d - 1);
      var f := Frontier([t], d - 1);
      DrainSplit(f, []);
      assert f + [] == f && [] + Kids(f) == Kids(f);
      FrontierStep([t], d - 1);
      FrontierLevel(t, d - 1);
    }
  }

  /** The queue loop started on the root lists the keys level by level. */
  lemma LevelOrderIsBreadthFirst<V>(t: Tree<V>)
    ensures Drain([t]) == BreadthFirst(t)
  {
    DrainByLevels(t, Count(t) + 1);
    assert Total([t]) == Count(t) by {
      assert [t][1..] == [];
    }
    FrontierVanishes([t], Count(t) + 1);
  }

  /** The queue loop emits each node of the queue exactly once. */
  lemma {:induction false} DrainContents<V>(q: seq<Tree<V>>)
    ensures |Drain(q)| == Total(q)
    ensures forall x :: x in Drain(q) <==> x in QueueKeys(q)
    decreases Weight(q)
  {
    if q != [] {
      match q[0]
      case Nil =>
        DrainContents(q[1..]);
      case Node(l, k, _, r, _) =>
        var p := q[1..] + [l, r];
        WeightConcat(q[1..], [l, r]);
        Pair(l, r);
        DrainContents(p);
        TotalConcat(q[1..], [l, r]);
        QueueKeysConcat(q[1..], [l, r]);
    }
  }

  /** Started on the root, the queue loop emits every key of the tree once. */
  lemma LevelOrderKeys<V>(t: Tree<V>)
    ensures |Drain([t])| == Count(t)
    ensures forall x :: x in Drain([t]) <==> x in KeySet(t)
  {
    DrainContents([t]);
    assert [t][1..] == [];
    assert Total([t]) == Count(t) && QueueKeys([t]) == KeySet(t);
  }

  lemma {:induction false} QueueKeysConcat<V>(a: seq<Tree<V>>, b: seq<Tree<V>>)
    ensures QueueKeys(a + b) == QueueKeys(a) + QueueKeys(b)
  {
    if a == [] {
      assert a + b == b;
    } else {
      QueueKeysConcat(a[1..], b);
      assert (a + b)[0] == a[0] && (a + b)[1..] == a[1..] + b;
    }
  }

  /** A level is non-empty exactly when some node lies at that depth. */
  lemma {:induction false} LevelOccupied<V>(t: Tree<V>, d: nat)
    ensures Level(t, d) != [] <==> HasDepth(t, d)
  {
    match t
    case Nil =>
    case Node(l, _, _, r, _) =>
      if d > 0 {
        LevelOccupied(l, d - 1);
        LevelOccupied(r, d - 1);
      }
  }
}
