/**
 * A stable sort into non-increasing order of an integer key, the behaviour of
 * `Array.prototype.sort` with a comparator `(a, b) => key(b) - key(a)`
 * (the ECMAScript sort has been required to be stable since ES2019).
 *
 * `SortDesc` is the specification: an insertion sort that takes the elements
 * of its input from left to right and places each after every element whose
 * key is at least its own. Its lemmas show that it orders by key, permutes its
 * input and keeps the input order among equal keys; `StableSortIsUnique` shows
 * that these three facts determine the result, so every stable sort agrees
 * with it. `SortInPlace` is the in-place array algorithm, proved equal to it.
 */
module Sorting {

  /** The keys along `s` never increase. */
  predicate SortedDesc<T>(s: seq<T>, key: T -> int)
  {
    forall i, j :: 0 <= i < j < |s| ==> key(s[i]) >= key(s[j])
  }

  /** The elements of `s` whose key is `k`, in the order they appear in `s`. */
  function WithKey<T>(s: seq<T>, key: T -> int, k: int): seq<T>
  {
    if |s| == 0 then []
    else WithKey(s[..|s| - 1], key, k) + (if key(s[|s| - 1]) == k then [s[|s| - 1]] else [])
  }

  /** Every run of equal keys in `r` lists the same elements, in the same order, as in `s`. */
  ghost predicate SameRuns<T>(r: seq<T>, s: seq<T>, key: T -> int)
  {
    forall k :: WithKey(r, key, k) == WithKey(s, key, k)
  }

  /**
   * Places `x` into `r` just after the last element, counted from the end,
   * whose key is at least `key(x)`.
   */
  function Insert<T>(x: T, r: seq<T>, key: T -> int): (res: seq<T>)
    ensures |res| == |r| + 1
  {
    if |r| == 0 || key(r[|r| - 1]) >= key(x) then r + [x]
    else Insert(x, r[..|r| - 1], key) + [r[|r| - 1]]
  }

  /** The stable sort of `s` into non-increasing key order. */
  function SortDesc<T>(s: seq<T>, key: T -> int): (r: seq<T>)
    ensures |r| == |s|
  {
    if |s| == 0 then []
    else Insert(s[|s| - 1], SortDesc(s[..|s| - 1], key), key)
  }

  lemma {:induction false} InsertPermutes<T>(x: T, r: seq<T>, key: T -> int)
    ensures multiset(Insert(x, r, key)) == multiset(r) + multiset{x}
  {
    if |r| > 0 && key(r[|r| - 1]) < key(x) {
      var init, last := r[..|r| - 1], r[|r| - 1];
      assert r == init + [last];
      InsertPermutes(x, init, key);
    }
  }

  /** `SortDesc` permutes its input. */
  lemma {:induction false} SortDescPermutes<T>(s: seq<T>, key: T -> int)
    ensures multiset(SortDesc(s, key)) == multiset(s)
  {
    if |s| > 0 {
      var init, last := s[..|s| - 1], s[|s| - 1];
      assert s == init + [last];
      SortDescPermutes(init, key);
      InsertPermutes(last, SortDesc(init, key), key);
    }
  }

  lemma {:induction false} InsertSorted<T>(x: T, r: seq<T>, key: T -> int)
    requires SortedDesc(r, key)
    ensures SortedDesc(Insert(x, r, key), key)
  {
    if |r| == 0 || key(r[|r| - 1]) >= key(x) {
    } else {
      var init, last := r[..|r| - 1], r[|r| - 1];
      InsertSorted(x, init, key);
      var ins := Insert(x, init, key);
      InsertPermutes(x, init, key);
      assert multiset(ins) == multiset(init) + multiset{x};
      forall i | 0 <= i < |ins|
        ensures key(ins[i]) >= key(last)
      {
        assert ins[i] in multiset(ins);
        if ins[i] != x {
          assert ins[i] in multiset(init);
          var j :| 0 <= j < |init| && init[j] == ins[i];
          assert r[j] == init[j];
        }
      }
    }
  }

  /** `SortDesc` orders by key. */
  lemma {:induction false} SortDescSorted<T>(s: seq<T>, key: T -> int)
    ensures SortedDesc(SortDesc(s, key), key)
  {
    if |s| > 0 {
      SortDescSorted(s[..|s| - 1], key);
      InsertSorted(s[|s| - 1], SortDesc(s[..|s| - 1], key), key);
    }
  }

  lemma WithKeySnoc<T>(s: seq<T>, x: T, key: T -> int, k: int)
    ensures WithKey(s + [x], key, k) == WithKey(s, key, k) + (if key(x) == k then [x] else [])
  {
    assert (s + [x])[..|s|] == s;
  }

  lemma {:induction false} InsertWithKey<T>(x: T, r: seq<T>, key: T -> int, k: int)
    ensures WithKey(Insert(x, r, key), key, k) == WithKey(r, key, k) + (if key(x) == k then [x] else [])
  {
    if |r| == 0 || key(r[|r| - 1]) >= key(x) {
      WithKeySnoc(r, x, key, k);
    } else {
      var init, last := r[..|r| - 1], r[|r| - 1];
      assert r == init + [last];
      InsertWithKey(x, init, key, k);
      WithKeySnoc(Insert(x, init, key), last, key, k);
      WithKeySnoc(init, last, key, k);
    }
  }

  /** `SortDesc` is stable: among equal keys the input order is kept. */
  lemma {:induction false} SortDescStable<T>(s: seq<T>, key: T -> int, k: int)
    ensures WithKey(SortDesc(s, key), key, k) == WithKey(s, key, k)
  {
    if |s| > 0 {
      var init, last := s[..|s| - 1], s[|s| - 1];
      SortDescStable(init, key, k);
      InsertWithKey(last, SortDesc(init, key), key, k);
    }
  }

  /** Position-free summary of the three facts about `SortDesc`. */
  lemma SortDescSpec<T>(s: seq<T>, key: T -> int)
    ensures SortedDesc(SortDesc(s, key), key)
    ensures multiset(SortDesc(s, key)) == multiset(s)
    ensures SameRuns(SortDesc(s, key), s, key)
  {
    SortDescSorted(s, key);
    SortDescPermutes(s, key);
    forall k ensures WithKey(SortDesc(s, key), key, k) == WithKey(s, key, k) {
      SortDescStable(s, key, k);
    }
  }

  lemma {:induction false} WithKeyEmpty<T>(s: seq<T>, key: T -> int, k: int)
    requires forall i :: 0 <= i < |s| ==> key(s[i]) != k
    ensures WithKey(s, key, k) == []
  {
    if |s| > 0 {
      WithKeyEmpty(s[..|s| - 1], key, k);
    }
  }

  lemma {:induction false} WithKeyNonEmpty<T>(s: seq<T>, key: T -> int, i: int)
    requires 0 <= i < |s|
    ensures WithKey(s, key, key(s[i])) != []
  {
    if i < |s| - 1 {
      WithKeyNonEmpty(s[..|s| - 1], key, i);
    }
  }

  /**
   * Any two sequences that are both ordered by key and have the same runs of
   * equal keys are equal: a stable sort into non-increasing key order has one
   * possible result.
   */
  lemma {:induction false} StableSortIsUnique<T>(r1: seq<T>, r2: seq<T>, key: T -> int)
    requires SortedDesc(r1, key) && SortedDesc(r2, key)
    requires SameRuns(r1, r2, key)
    ensures r1 == r2
    decreases |r1| + |r2|
  {
    if |r1| == 0 || |r2| == 0 {
      if |r1| > 0 {
        WithKeyNonEmpty(r1, key, 0);
        assert false;
      } else if |r2| > 0 {
        WithKeyNonEmpty(r2, key, 0);
        assert false;
      }
    } else {
      var a, b := r1[|r1| - 1], r2[|r2| - 1];
      var i1, i2 := r1[..|r1| - 1], r2[..|r2| - 1];
      assert r1 == i1 + [a] && r2 == i2 + [b];
      // Both last elements carry the smallest key, so they close the same run.
      if key(a) < key(b) {
        WithKeyNonEmpty(r1, key, |r1| - 1);
        WithKeyEmpty(r2, key, key(a));
        assert false;
      } else if key(b) < key(a) {
        WithKeyNonEmpty(r2, key, |r2| - 1);
        WithKeyEmpty(r1, key, key(b));
        assert false;
      }
      assert a == b by {
        WithKeySnoc(i1, a, key, key(a));
        WithKeySnoc(i2, b, key, key(a));
        var w1, w2 := WithKey(i1, key, key(a)), WithKey(i2, key, key(a));
        assert (w1 + [a])[|w1|] == (w2 + [b])[|w2|];
      }
      forall k ensures WithKey(i1, key, k) == WithKey(i2, key, k) {
        WithKeySnoc(i1, a, key, k);
        WithKeySnoc(i2, b, key, k);
        var w1, w2 := WithKey(i1, key, k), WithKey(i2, key, k);
        var t := if key(a) == k then [a] else [];
        assert w1 + t == w2 + t;
        assert w1 == (w1 + t)[..|w1|];
      }
      StableSortIsUnique(i1, i2, key);
    }
  }

  /** A prefix of a sorted sequence is sorted, and no element after it has a larger key than one in it. */
  lemma SortedPrefix<T>(s: seq<T>, key: T -> int, n: int)
    requires SortedDesc(s, key) && 0 <= n <= |s|
    ensures SortedDesc(s[..n], key)
    ensures forall i, j :: 0 <= i < n <= j < |s| ==> key(s[i]) >= key(s[j])
  {
  }

  /**
   * Splitting lemma for the inner loop of `InsertLast`: if every element of
   * `r` from `j` on has a smaller key than `x`, and the one before `j` (if any)
   * does not, `Insert` places `x` at index `j`.
   */
  lemma {:induction false} InsertAt<T>(x: T, r: seq<T>, key: T -> int, j: int)
    requires 0 <= j <= |r|
    requires forall k :: j <= k < |r| ==> key(r[k]) < key(x)
    requires j == 0 || key(r[j - 1]) >= key(x)
    ensures Insert(x, r, key) == r[..j] + [x] + r[j..]
    decreases |r| - j
  {
    if j == |r| {
      assert r[..j] == r;
    } else {
      var init, last := r[..|r| - 1], r[|r| - 1];
      InsertAt(x, init, key, j);
      calc {
        Insert(x, r, key);
        Insert(x, init, key) + [last];
        init[..j] + [x] + init[j..] + [last];
        { assert init[..j] == r[..j] && init[j..] + [last] == r[j..]; }
        r[..j] + [x] + r[j..];
      }
    }
  }

  /**
   * One step of insertion sort: with `a[..i]` already sorted, moves `a[i]`
   * left past every element of smaller key.
   */
  method InsertLast<T>(a: array<T>, i: int, key: T -> int)
    requires 0 <= i < a.Length
    modifies a
    ensures a[..i + 1] == Insert(old(a[i]), old(a[..i]), key)
    ensures a[i + 1..] == old(a[i + 1..])
  {
    ghost var r := a[..i];
    var x := a[i];
    var j := i;
    while j > 0 && key(a[j - 1]) < key(x)
      invariant 0 <= j <= i
      invariant a[..j] == r[..j]
      invariant a[j + 1..i + 1] == r[j..]
      invariant forall k :: j <= k < i ==> key(r[k]) < key(x)
      invariant a[i + 1..] == old(a[i + 1..])
    {
      a[j] := a[j - 1];
      j := j - 1;
    }
    a[j] := x;
    InsertAt(x, r, key, j);
    assert a[..i + 1] == a[..j] + [x] + a[j + 1..i + 1];
  }

  /** Sorts `a` in place, stably, into non-increasing key order. */
  method SortInPlace<T>(a: array<T>, key: T -> int)
    modifies a
    ensures a[..] == SortDesc(old(a[..]), key)
  {
    ghost var input := a[..];
    var i := 0;
    while i < a.Length
      invariant 0 <= i <= a.Length
      invariant a[..i] == SortDesc(input[..i], key)
      invariant a[i..] == input[i..]
    {
      InsertLast(a, i, key);
      assert input[..i + 1][..i] == input[..i];
      i := i + 1;
    }
    assert input[..a.Length] == input;
  }
}
