/** Facts about sequences of keys: order, counting the keys below a bound
    (what `rank` computes) and keeping the keys inside a closed range (what
    `keys(lo, hi)` yields). */
module Sequences {

  ghost predicate StrictlyIncreasing(s: seq<int>) {
    forall i, j :: 0 <= i < j < |s| ==> s[i] < s[j]
  }

  /** How many elements of `s` are strictly smaller than `key`. */
  ghost function CountBelow(s: seq<int>, key: int): nat {
    if s == [] then 0 else (if s[0] < key then 1 else 0) + CountBelow(s[1..], key)
  }

  /** The elements of `s` that lie in `[lo, hi]`, in their order in `s`. */
  ghost function Between(s: seq<int>, lo: int, hi: int): seq<int> {
    if s == [] then [] else (if lo <= s[0] <= hi then [s[0]] else []) + Between(s[1..], lo, hi)
  }

  lemma {:induction false} CountBelowConcat(a: seq<int>, b: seq<int>, key: int)
    ensures CountBelow(a + b, key) == CountBelow(a, key) + CountBelow(b, key)
  {
    if a == [] {
      assert a + b == b;
    } else {
      CountBelowConcat(a[1..], b, key);
      assert (a + b)[0] == a[0] && (a + b)[1..] == a[1..] + b;
    }
  }

  lemma {:induction false} CountBelowAll(s: seq<int>, key: int)
    requires forall x :: x in s ==> x < key
    ensures CountBelow(s, key) == |s|
  {
    if s != [] {
      assert s[0] in s;
      assert forall x :: x in s[1..] ==> x in s;
      CountBelowAll(s[1..], key);
    }
  }

  lemma {:induction false} CountBelowNone(s: seq<int>, key: int)
    requires forall x :: x in s ==> key <= x
    ensures CountBelow(s, key) == 0
  {
    if s != [] {
      assert s[0] in s;
      assert forall x :: x in s[1..] ==> x in s;
      CountBelowNone(s[1..], key);
    }
  }

  /** In a strictly increasing sequence exactly `i` elements lie below `s[i]`. */
  lemma {:induction false} CountBelowAt(s: seq<int>, i: int)
    requires StrictlyIncreasing(s) && 0 <= i < |s|
    ensures CountBelow(s, s[i]) == i
  {
    assert s == s[..i] + s[i..];
    CountBelowConcat(s[..i], s[i..], s[i]);
    forall x | x in s[..i] ensures x < s[i] { var j :| 0 <= j < i && s[j] == x; }
    forall x | x in s[i..] ensures s[i] <= x { var j :| i <= j < |s| && s[j] == x; }
    CountBelowAll(s[..i], s[i]);
    CountBelowNone(s[i..], s[i]);
  }

  lemma {:induction false} BetweenConcat(a: seq<int>, b: seq<int>, lo: int, hi: int)
    ensures Between(a + b, lo, hi) == Between(a, lo, hi) + Between(b, lo, hi)
  {
    if a == [] {
      assert a + b == b;
    } else {
      var c := a + b;
      assert c[0] == a[0] && c[1..] == a[1..] + b;
      BetweenConcat(a[1..], b, lo, hi);
      var h := if lo <= a[0] <= hi then [a[0]] else [];
      var x, y := Between(a[1..], lo, hi), Between(b, lo, hi);
      assert Between(c, lo, hi) == h + (x + y);
      assert Between(a, lo, hi) == h + x;
      assert h + (x + y) == (h + x) + y;
    }
  }

  lemma {:induction false} BetweenNone(s: seq<int>, lo: int, hi: int)
    requires forall x :: x in s ==> x < lo || hi < x
    ensures Between(s, lo, hi) == []
  {
    if s != [] {
      assert s[0] in s;
      assert forall x :: x in s[1..] ==> x in s;
      BetweenNone(s[1..], lo, hi);
    }
  }

  /** `Between` keeps exactly the elements of `s` inside the range. */
  lemma {:induction false} BetweenMembers(s: seq<int>, lo: int, hi: int)
    ensures forall x :: x in Between(s, lo, hi) <==> x in s && lo <= x <= hi
  {
    if s != [] {
      BetweenMembers(s[1..], lo, hi);
      assert forall x :: x in s <==> x == s[0] || x in s[1..];
    }
  }

  /** `Between` keeps an increasing sequence increasing. */
  lemma {:induction false} BetweenIncreasing(s: seq<int>, lo: int, hi: int)
    requires StrictlyIncreasing(s)
    ensures StrictlyIncreasing(Between(s, lo, hi))
  {
    if s != [] && lo <= s[0] <= hi {
      var b, rest := Between(s, lo, hi), Between(s[1..], lo, hi);
      assert StrictlyIncreasing(s[1..]);
      BetweenIncreasing(s[1..], lo, hi);
      BetweenMembers(s[1..], lo, hi);
      forall x | x in rest ensures s[0] < x {
        var j :| 0 <= j < |s[1..]| && s[1..][j] == x;
      }
      assert b == [s[0]] + rest;
      forall i, j | 0 <= i < j < |b| ensures b[i] < b[j] {
        assert b[j] == rest[j - 1];
        if i == 0 { assert rest[j - 1] in rest; }
        else { assert b[i] == rest[i - 1]; }
      }
    } else if s != [] {
      assert StrictlyIncreasing(s[1..]);
      BetweenIncreasing(s[1..], lo, hi);
    }
  }

  /** The size of a range is the difference of two counts, plus one when the
      upper bound itself is present (the formula of `size(lo, hi)`). */
  lemma {:induction false} BetweenSize(s: seq<int>, lo: int, hi: int)
    requires StrictlyIncreasing(s) && lo <= hi
    ensures |Between(s, lo, hi)| == CountBelow(s, hi) - CountBelow(s, lo) + (if hi in s then 1 else 0)
  {
    if s != [] {
      assert StrictlyIncreasing(s[1..]);
      BetweenSize(s[1..], lo, hi);
      assert forall x :: x in s <==> x == s[0] || x in s[1..];
      if s[0] == hi {
        forall x | x in s[1..] ensures hi < x { var j :| 0 <= j < |s[1..]| && s[1..][j] == x; }
      }
    }
  }

  /** The elements of `s` below `key`, as a set. */
  ghost function Below(s: seq<int>, key: int): set<int> {
    if s == [] then {} else (if s[0] < key then {s[0]} else {}) + Below(s[1..], key)
  }

  lemma {:induction false} BelowMembers(s: seq<int>, key: int)
    ensures forall x :: x in Below(s, key) <==> x in s && x < key
  {
    if s != [] {
      BelowMembers(s[1..], key);
      assert forall x :: x in s <==> x == s[0] || x in s[1..];
    }
  }

  lemma {:induction false} BelowSize(s: seq<int>, key: int)
    requires StrictlyIncreasing(s)
    ensures |Below(s, key)| == CountBelow(s, key)
  {
    if s != [] {
      assert StrictlyIncreasing(s[1..]);
      BelowSize(s[1..], key);
      BelowMembers(s[1..], key);
      forall x | x in s[1..] ensures s[0] < x { var j :| 0 <= j < |s[1..]| && s[1..][j] == x; }
      assert s[0] !in Below(s[1..], key);
    }
  }

  /** In a strictly increasing sequence, counting the elements below `key`
      counts the distinct values below it. */
  lemma CountBelowIsCard(s: seq<int>, key: int)
    requires StrictlyIncreasing(s)
    ensures CountBelow(s, key) == |set x | x in s && x < key|
  {
    BelowSize(s, key);
    BelowMembers(s, key);
    var a := set x | x in s && x < key;
    forall x ensures x in a <==> x in Below(s, key) {
    }
    assert a == Below(s, key);
  }

  /** A strictly increasing sequence has no repeated element. */
  lemma IncreasingCard(s: seq<int>)
    requires StrictlyIncreasing(s)
    ensures |set x | x in s| == |s|
  {
    if s != [] {
      var top := s[|s| - 1] + 1;
      forall x | x in s ensures x < top { var j :| 0 <= j < |s| && s[j] == x; }
      CountBelowAll(s, top);
      CountBelowIsCard(s, top);
      assert (set x | x in s && x < top) == set x | x in s;
    }
  }

  /** A range that covers every element keeps the whole sequence. */
  lemma {:induction false} BetweenAll(s: seq<int>, lo: int, hi: int)
    requires forall x :: x in s ==> lo <= x <= hi
    ensures Between(s, lo, hi) == s
  {
    if s != [] {
      assert s[0] in s;
      assert forall x :: x in s[1..] ==> x in s;
      BetweenAll(s[1..], lo, hi);
      assert [s[0]] + s[1..] == s;
    }
  }
}
