/**
 * A stable sort into non-increasing key order: the behaviour of Python's
 * `sorted(xs, key=key, reverse=True)`, which keeps elements with equal keys
 * in their original relative order.
 */
module StableSort {

  /** Keys never increase from left to right. */
  predicate NonIncreasing<T>(s: seq<T>, key: T -> int) {
    forall i, j :: 0 <= i < j < |s| ==> key(s[i]) >= key(s[j])
  }

  /** The elements of `s` whose key is `k`, in their order in `s`. */
  function WithKey<T>(s: seq<T>, key: T -> int, k: int): seq<T>
  {
    if s == [] then []
    else (if key(s[0]) == k then [s[0]] else []) + WithKey(s[1..], key, k)
  }

  /** Puts `x` into `s` after every element whose key is at least `key(x)`. */
  function Insert<T>(x: T, s: seq<T>, key: T -> int): (r: seq<T>)
    ensures |r| == |s| + 1
    ensures multiset(r) == multiset(s) + multiset{x}
  {
    if s == [] then [x]
    else if key(x) > key(s[0]) then [x] + s
    else
      assert s == [s[0]] + s[1..];
      [s[0]] + Insert(x, s[1..], key)
  }

  /** Inserting into a non-increasing sequence keeps it non-increasing. */
  lemma {:induction false} InsertSorted<T>(x: T, s: seq<T>, key: T -> int)
    requires NonIncreasing(s, key)
    ensures NonIncreasing(Insert(x, s, key), key)
  {
    if s != [] && key(x) <= key(s[0]) {
      var rest := Insert(x, s[1..], key);
      TailNonIncreasing(s, key);
      InsertSorted(x, s[1..], key);
      assert multiset(rest) == multiset(s[1..] + [x]);
      HeadBound(x, s, key);
      KeyBoundedBy(s[0], s[1..] + [x], rest, key);
      ConsNonIncreasing(s[0], rest, key);
    }
  }

  /** The first key of a sorted `s` bounds the rest of `s` and `x`. */
  lemma HeadBound<T>(x: T, s: seq<T>, key: T -> int)
    requires s != [] && NonIncreasing(s, key) && key(x) <= key(s[0])
    ensures forall j :: 0 <= j < |s[1..] + [x]| ==> key(s[0]) >= key((s[1..] + [x])[j])
  {
    forall j | 0 <= j < |s[1..] + [x]| ensures key(s[0]) >= key((s[1..] + [x])[j]) {
      if j < |s| - 1 {
        assert (s[1..] + [x])[j] == s[j + 1];
      }
    }
  }

  /** A bound on the keys of `s` is a bound on the keys of any reordering. */
  lemma KeyBoundedBy<T>(y: T, s: seq<T>, r: seq<T>, key: T -> int)
    requires forall j :: 0 <= j < |s| ==> key(y) >= key(s[j])
    requires multiset(r) == multiset(s)
    ensures forall j :: 0 <= j < |r| ==> key(y) >= key(r[j])
  {
    forall j | 0 <= j < |r| ensures key(y) >= key(r[j]) {
      assert r[j] in multiset(s);
    }
  }

  /** Putting an element with the largest key in front keeps the order. */
  lemma ConsNonIncreasing<T>(y: T, s: seq<T>, key: T -> int)
    requires NonIncreasing(s, key)
    requires forall j :: 0 <= j < |s| ==> key(y) >= key(s[j])
    ensures NonIncreasing([y] + s, key)
  {
    var r := [y] + s;
    forall i, j | 0 <= i < j < |r| ensures key(r[i]) >= key(r[j]) {
      assert r[j] == s[j - 1];
      if i > 0 {
        assert r[i] == s[i - 1];
      }
    }
  }

  /** Stable insertion sort into non-increasing key order; later elements are
      inserted after earlier ones with an equal key. */
  function SortDesc<T>(s: seq<T>, key: T -> int): (r: seq<T>)
    ensures |r| == |s|
    ensures multiset(r) == multiset(s)
    ensures NonIncreasing(r, key)
  {
    if s == [] then []
    else
      assert s == s[..|s| - 1] + [s[|s| - 1]];
      var sorted := SortDesc(s[..|s| - 1], key);
      InsertSorted(s[|s| - 1], sorted, key);
      Insert(s[|s| - 1], sorted, key)
  }

  lemma {:induction false} WithKeyAppend<T>(a: seq<T>, b: seq<T>, key: T -> int, k: int)
    ensures WithKey(a + b, key, k) == WithKey(a, key, k) + WithKey(b, key, k)
  {
    if a == [] {
      assert a + b == b;
    } else {
      var ab := a + b;
      assert ab[0] == a[0] && ab[1..] == a[1..] + b;
      WithKeyAppend(a[1..], b, key, k);
      var h := if key(a[0]) == k then [a[0]] else [];
      var ta, tb := WithKey(a[1..], key, k), WithKey(b, key, k);
      assert WithKey(a, key, k) == h + ta;
      assert WithKey(ab, key, k) == h + (ta + tb);
      Associative(h, ta, tb);
    }
  }

  /** No element of a non-increasing sequence whose first key is below `k`
      has key `k`. */
  lemma {:induction false} WithKeyBelow<T>(s: seq<T>, key: T -> int, k: int)
    requires NonIncreasing(s, key)
    requires s != [] ==> key(s[0]) < k
    ensures WithKey(s, key, k) == []
  {
    if s != [] {
      WithKeyBelow(s[1..], key, k);
    }
  }

  /** Inserting into a sorted sequence places `x` after every element that
      has its key. */
  lemma {:induction false} WithKeyInsert<T>(x: T, s: seq<T>, key: T -> int, k: int)
    requires NonIncreasing(s, key)
    ensures WithKey(Insert(x, s, key), key, k)
         == WithKey(s, key, k) + (if key(x) == k then [x] else [])
  {
    if s == [] {
      assert [x][1..] == [];
    } else if key(x) > key(s[0]) {
      WithKeyInsertFront(x, s, key, k);
    } else {
      TailNonIncreasing(s, key);
      WithKeyInsert(x, s[1..], key, k);
      WithKeyInsertAfter(x, s, key, k);
    }
  }

  lemma TailNonIncreasing<T>(s: seq<T>, key: T -> int)
    requires s != [] && NonIncreasing(s, key)
    ensures NonIncreasing(s[1..], key)
  {
    forall i, j | 0 <= i < j < |s[1..]| ensures key(s[1..][i]) >= key(s[1..][j]) {
      assert s[1..][i] == s[i + 1] && s[1..][j] == s[j + 1];
    }
  }

  /** `x` goes in front of a sorted `s` whose first key is smaller. */
  lemma WithKeyInsertFront<T>(x: T, s: seq<T>, key: T -> int, k: int)
    requires s != [] && key(x) > key(s[0]) && NonIncreasing(s, key)
    ensures WithKey(Insert(x, s, key), key, k)
         == WithKey(s, key, k) + (if key(x) == k then [x] else [])
  {
    assert ([x] + s)[0] == x && ([x] + s)[1..] == s;
    if key(x) == k {
      WithKeyBelow(s, key, k);
    }
  }

  /** `x` goes after the first element of `s`. */
  lemma WithKeyInsertAfter<T>(x: T, s: seq<T>, key: T -> int, k: int)
    requires s != [] && key(x) <= key(s[0])
    requires WithKey(Insert(x, s[1..], key), key, k)
          == WithKey(s[1..], key, k) + (if key(x) == k then [x] else [])
    ensures WithKey(Insert(x, s, key), key, k)
         == WithKey(s, key, k) + (if key(x) == k then [x] else [])
  {
    var rest := Insert(x, s[1..], key);
    var r := [s[0]] + rest;
    assert Insert(x, s, key) == r;
    assert r[0] == s[0] && r[1..] == rest;
    var hx := if key(x) == k then [x] else [];
    var h0 := if key(s[0]) == k then [s[0]] else [];
    var t := WithKey(s[1..], key, k);
    assert WithKey(s, key, k) == h0 + t;
    assert WithKey(r, key, k) == h0 + WithKey(rest, key, k);
    Associative(h0, t, hx);
  }

  lemma Associative<T>(a: seq<T>, b: seq<T>, c: seq<T>)
    ensures a + (b + c) == (a + b) + c
  {
  }

  /** Stability: for every key, the elements with that key appear in the
      sorted result in exactly their input order. */
  lemma {:induction false} SortDescStable<T>(s: seq<T>, key: T -> int, k: int)
    ensures WithKey(SortDesc(s, key), key, k) == WithKey(s, key, k)
  {
    if s != [] {
      var init, x := s[..|s| - 1], s[|s| - 1];
      assert s == init + [x];
      var sorted := SortDesc(init, key);
      var hx := if key(x) == k then [x] else [];
      calc {
        WithKey(SortDesc(s, key), key, k);
        WithKey(Insert(x, sorted, key), key, k);
        { WithKeyInsert(x, sorted, key, k); }
        WithKey(sorted, key, k) + hx;
        { SortDescStable(init, key, k); }
        WithKey(init, key, k) + hx;
        { WithKeySnoc(init, x, key, k); }
        WithKey(s, key, k);
      }
    }
  }

  lemma WithKeySnoc<T>(s: seq<T>, x: T, key: T -> int, k: int)
    ensures WithKey(s + [x], key, k) == WithKey(s, key, k) + (if key(x) == k then [x] else [])
  {
    WithKeyAppend(s, [x], key, k);
    assert WithKey([x], key, k) == (if key(x) == k then [x] else []);
  }

  /** Filtering a prefix gives a prefix of the filtered sequence. */
  lemma {:induction false} WithKeyPrefix<T>(s: seq<T>, n: nat, key: T -> int, k: int)
    requires n <= |s|
    ensures WithKey(s[..n], key, k) <= WithKey(s, key, k)
  {
    assert s == s[..n] + s[n..];
    WithKeyAppend(s[..n], s[n..], key, k);
  }
}
