/**
  A stable sort into descending key order, as Python's
  `sorted(xs, key=key, reverse=True)` performs it: elements with equal keys
  keep their relative order.
 */
module Sorting {

  /** Keys never increase from left to right. */
  ghost predicate NonIncreasing<T>(s: seq<T>, key: T -> real) {
    forall i, j :: 0 <= i < j < |s| ==> key(s[i]) >= key(s[j])
  }

  /** The elements of `s` whose key is `v`, in their order in `s`. */
  function WithKey<T>(s: seq<T>, key: T -> real, v: real): seq<T> {
    if |s| == 0 then []
    else (if key(s[0]) == v then [s[0]] else []) + WithKey(s[1..], key, v)
  }

  /**
    A stable descending sort of `s`: keys non-increasing, and for every key
    value the elements carrying it appear in the same order as in `s`.
    (The second part implies that `r` is a permutation of `s`.)
   */
  ghost predicate StablySortedFrom<T>(r: seq<T>, s: seq<T>, key: T -> real) {
    && NonIncreasing(r, key)
    && forall v :: WithKey(r, key, v) == WithKey(s, key, v)
  }

  lemma {:induction false} WithKeyAppend<T>(a: seq<T>, b: seq<T>, key: T -> real, v: real)
    ensures WithKey(a + b, key, v) == WithKey(a, key, v) + WithKey(b, key, v)
    decreases |a|
  {
    if |a| == 0 {
      assert a + b == b;
    } else {
      var h := if key(a[0]) == v then [a[0]] else [];
      assert (a + b)[0] == a[0];
      assert (a + b)[1..] == a[1..] + b;
      WithKeyAppend(a[1..], b, key, v);
      calc {
        WithKey(a + b, key, v);
        h + WithKey(a[1..] + b, key, v);
        h + (WithKey(a[1..], key, v) + WithKey(b, key, v));
        (h + WithKey(a[1..], key, v)) + WithKey(b, key, v);
      }
    }
  }

  lemma {:induction false} WithKeyAbsent<T>(s: seq<T>, key: T -> real, v: real)
    requires forall i :: 0 <= i < |s| ==> key(s[i]) < v
    ensures WithKey(s, key, v) == []
    decreases |s|
  {
    if |s| > 0 {
      WithKeyAbsent(s[1..], key, v);
    }
  }

  /**
    Inserts `x` into the descending sequence `s` after every element whose
    key is at least `key(x)`: the position a stable sort gives an element
    that comes after all of `s` in the input.
   */
  function Insert<T>(x: T, s: seq<T>, key: T -> real): (r: seq<T>)
    requires NonIncreasing(s, key)
    ensures |r| == |s| + 1
    ensures NonIncreasing(r, key)
    ensures multiset(r) == multiset(s) + multiset{x}
    decreases |s|
  {
    if |s| == 0 then [x]
    else if key(s[0]) >= key(x) then
      var rest := Insert(x, s[1..], key);
      BehindHead(x, s, rest, key);
      [s[0]] + rest
    else
      InFront(x, s, key);
      [x] + s
  }

  /** Putting the head of `s` before the insertion into its tail keeps the order and the elements. */
  lemma BehindHead<T>(x: T, s: seq<T>, rest: seq<T>, key: T -> real)
    requires NonIncreasing(s, key) && |s| > 0 && key(s[0]) >= key(x)
    requires NonIncreasing(rest, key) && multiset(rest) == multiset(s[1..]) + multiset{x}
    ensures NonIncreasing([s[0]] + rest, key)
    ensures multiset([s[0]] + rest) == multiset(s) + multiset{x}
  {
    assert s == [s[0]] + s[1..];
    KeysBoundedBy(rest, s[1..], x, key, key(s[0]));
    assert multiset([s[0]] + rest) == multiset{s[0]} + multiset(rest);
  }

  lemma InFront<T>(x: T, s: seq<T>, key: T -> real)
    requires NonIncreasing(s, key) && |s| > 0 && key(s[0]) < key(x)
    ensures NonIncreasing([x] + s, key)
    ensures multiset([x] + s) == multiset(s) + multiset{x}
  {
    assert multiset([x] + s) == multiset{x} + multiset(s);
  }

  /** A rearrangement of the elements of `s` and `x` keeps any upper bound they share. */
  lemma KeysBoundedBy<T>(r: seq<T>, s: seq<T>, x: T, key: T -> real, b: real)
    requires multiset(r) == multiset(s) + multiset{x}
    requires key(x) <= b && forall j :: 0 <= j < |s| ==> key(s[j]) <= b
    ensures forall j :: 0 <= j < |r| ==> key(r[j]) <= b
  {
    forall j | 0 <= j < |r| ensures key(r[j]) <= b {
      assert r[j] in multiset(r);
      if r[j] != x {
        assert r[j] in multiset(s);
        var m :| 0 <= m < |s| && s[m] == r[j];
      }
    }
  }

  /** `x` joins the elements of its key value as the last of them; other key values are untouched. */
  lemma {:induction false} InsertStable<T>(x: T, s: seq<T>, key: T -> real, v: real)
    requires NonIncreasing(s, key)
    ensures WithKey(Insert(x, s, key), key, v) == WithKey(s, key, v) + (if key(x) == v then [x] else [])
    decreases |s|
  {
    if |s| == 0 {
      assert WithKey([x], key, v) == (if key(x) == v then [x] else []) + WithKey([], key, v);
    } else if key(s[0]) >= key(x) {
      InsertStable(x, s[1..], key, v);
      InsertStableBehind(x, s, key, v);
    } else {
      InsertStableInFront(x, s, key, v);
    }
  }

  lemma InsertStableBehind<T>(x: T, s: seq<T>, key: T -> real, v: real)
    requires NonIncreasing(s, key) && |s| > 0 && key(s[0]) >= key(x)
    requires WithKey(Insert(x, s[1..], key), key, v) == WithKey(s[1..], key, v) + (if key(x) == v then [x] else [])
    ensures WithKey(Insert(x, s, key), key, v) == WithKey(s, key, v) + (if key(x) == v then [x] else [])
  {
    var rest := Insert(x, s[1..], key);
    assert Insert(x, s, key) == [s[0]] + rest;
    ConsStep(s, rest, key, v, if key(x) == v then [x] else []);
  }

  /** Putting the head of `s` back in front of a tail that filters like `s[1..]` plus `extra`. */
  lemma ConsStep<T>(s: seq<T>, rest: seq<T>, key: T -> real, v: real, extra: seq<T>)
    requires |s| > 0
    requires WithKey(rest, key, v) == WithKey(s[1..], key, v) + extra
    ensures WithKey([s[0]] + rest, key, v) == WithKey(s, key, v) + extra
  {
    var r := [s[0]] + rest;
    assert r[0] == s[0] && r[1..] == rest;
  }

  lemma InsertStableInFront<T>(x: T, s: seq<T>, key: T -> real, v: real)
    requires NonIncreasing(s, key) && |s| > 0 && key(s[0]) < key(x)
    ensures WithKey(Insert(x, s, key), key, v) == WithKey(s, key, v) + (if key(x) == v then [x] else [])
  {
    var tail := if key(x) == v then [x] else [];
    assert Insert(x, s, key) == [x] + s;
    WithKeyAppend([x], s, key, v);
    assert WithKey([x], key, v) == tail + WithKey([], key, v);
    if key(x) == v {
      WithKeyAbsent(s, key, v);
    }
  }

  /** Insertion sort: each element in input order is inserted into the sorted prefix. */
  function SortDesc<T>(s: seq<T>, key: T -> real): (r: seq<T>)
    ensures |r| == |s|
    ensures multiset(r) == multiset(s)
    ensures NonIncreasing(r, key)
    decreases |s|
  {
    if |s| == 0 then []
    else
      assert s == s[..|s| - 1] + [s[|s| - 1]];
      Insert(s[|s| - 1], SortDesc(s[..|s| - 1], key), key)
  }

  /** `SortDesc` is stable: it is a stable descending sort in the sense of `StablySortedFrom`. */
  lemma {:induction false} SortDescStable<T>(s: seq<T>, key: T -> real)
    ensures StablySortedFrom(SortDesc(s, key), s, key)
    decreases |s|
  {
    if |s| > 0 {
      var init, last := s[..|s| - 1], s[|s| - 1];
      assert s == init + [last];
      SortDescStable(init, key);
      forall v
        ensures WithKey(SortDesc(s, key), key, v) == WithKey(s, key, v)
      {
        SortDescStableStep(init, last, key, v);
      }
    }
  }

  lemma SortDescStableStep<T>(init: seq<T>, last: T, key: T -> real, v: real)
    requires WithKey(SortDesc(init, key), key, v) == WithKey(init, key, v)
    ensures WithKey(SortDesc(init + [last], key), key, v) == WithKey(init + [last], key, v)
  {
    var s := init + [last];
    var tail := if key(last) == v then [last] else [];
    assert s[..|s| - 1] == init && s[|s| - 1] == last;
    assert SortDesc(s, key) == Insert(last, SortDesc(init, key), key);
    InsertStable(last, SortDesc(init, key), key, v);
    assert WithKey(SortDesc(s, key), key, v) == WithKey(init, key, v) + tail;
    WithKeyAppend(init, [last], key, v);
    assert WithKey([last], key, v) == tail + WithKey([], key, v);
  }

  /**
    After a descending sort, cutting at `n` leaves nothing behind that
    outranks what was kept: an element whose key beats that of a kept
    element is itself kept.
   */
  lemma {:induction false} OutrankerIsKept<T>(sorted: seq<T>, key: T -> real, n: nat, x: T, i: nat)
    requires NonIncreasing(sorted, key)
    requires i < n <= |sorted|
    requires x in sorted && key(x) > key(sorted[i])
    ensures x in sorted[..n]
  {
    var p :| 0 <= p < |sorted| && sorted[p] == x;
    assert p < i;
    assert sorted[..n][p] == x;
  }

  /** A prefix of a descending sequence is descending. */
  lemma PrefixNonIncreasing<T>(sorted: seq<T>, key: T -> real, n: nat)
    requires NonIncreasing(sorted, key)
    requires n <= |sorted|
    ensures NonIncreasing(sorted[..n], key)
  {
  }
}
