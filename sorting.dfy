/**
 * The stable sort the source gets from `Array.prototype.sort` with a
 * comparator of the form `(a, b) => key(b) - key(a)`: descending by key, and
 * elements with equal keys keep their input order. Insertion sort that puts
 * each later element after every earlier element with an equal key is such a
 * sort, and a stable sort's output is unique, so this is exactly what the
 * source computes.
 */
module Sorting {

  /** Keys never increase from left to right. */
  ghost predicate NonIncreasing<T>(xs: seq<T>, key: T -> int) {
    forall i, j :: 0 <= i < j < |xs| ==> key(xs[i]) >= key(xs[j])
  }

  /** Where `x` goes in `ys`: after every leading element whose key is at least `x`'s. */
  function InsertionPoint<T>(x: T, ys: seq<T>, key: T -> int): (k: nat)
    ensures k <= |ys|
    ensures forall j :: 0 <= j < k ==> key(ys[j]) >= key(x)
    ensures k < |ys| ==> key(ys[k]) < key(x)
  {
    if ys == [] || key(ys[0]) < key(x) then 0 else 1 + InsertionPoint(x, ys[1..], key)
  }

  function Insert<T>(x: T, ys: seq<T>, key: T -> int): (r: seq<T>)
    ensures |r| == |ys| + 1
    ensures multiset(r) == multiset(ys) + multiset{x}
    ensures NonIncreasing(ys, key) ==> NonIncreasing(r, key)
  {
    var k := InsertionPoint(x, ys, key);
    assert ys == ys[..k] + ys[k..];
    InsertKeepsOrder(x, ys, key, k);
    ys[..k] + [x] + ys[k..]
  }

  lemma InsertKeepsOrder<T>(x: T, ys: seq<T>, key: T -> int, k: nat)
    requires k == InsertionPoint(x, ys, key)
    ensures NonIncreasing(ys, key) ==> NonIncreasing(ys[..k] + [x] + ys[k..], key)
  {
    var r := ys[..k] + [x] + ys[k..];
    assert forall i :: 0 <= i < k ==> r[i] == ys[i];
    assert r[k] == x;
    assert forall i :: k < i < |r| ==> r[i] == ys[i - 1];
    if NonIncreasing(ys, key) {
      forall i, j | 0 <= i < j < |r| ensures key(r[i]) >= key(r[j]) {
        if j < k {
        } else if j == k {
        } else if i < k {
          assert key(ys[i]) >= key(ys[j - 1]);
        } else if i == k {
          assert key(ys[k]) < key(x);
          assert key(ys[k]) >= key(ys[j - 1]);
        } else {
          assert key(ys[i - 1]) >= key(ys[j - 1]);
        }
      }
    }
  }

  /** Stable sort, newest (largest key) first. */
  function SortDesc<T>(xs: seq<T>, key: T -> int): (r: seq<T>)
    ensures |r| == |xs|
    ensures NonIncreasing(r, key)
    ensures multiset(r) == multiset(xs)
  {
    if xs == [] then []
    else
      assert xs == xs[..|xs| - 1] + [xs[|xs| - 1]];
      Insert(xs[|xs| - 1], SortDesc(xs[..|xs| - 1], key), key)
  }

  /** Sorting appends one element at a time: a pushed element is inserted into the sorted rest. */
  lemma SortDescPush<T>(xs: seq<T>, x: T, key: T -> int)
    ensures SortDesc(xs + [x], key) == Insert(x, SortDesc(xs, key), key)
  {
    assert (xs + [x])[..|xs|] == xs;
  }

  /** The elements of `xs` whose key is `v`, in order. */
  function WithKey<T>(xs: seq<T>, key: T -> int, v: int): seq<T> {
    if xs == [] then []
    else (if key(xs[0]) == v then [xs[0]] else []) + WithKey(xs[1..], key, v)
  }

  lemma {:induction false} WithKeyConcat<T>(a: seq<T>, b: seq<T>, key: T -> int, v: int)
    ensures WithKey(a + b, key, v) == WithKey(a, key, v) + WithKey(b, key, v)
  {
    if a == [] {
      assert a + b == b;
    } else {
      var head := if key(a[0]) == v then [a[0]] else [];
      assert (a + b)[0] == a[0];
      assert (a + b)[1..] == a[1..] + b;
      WithKeyConcat(a[1..], b, key, v);
      assert WithKey(a + b, key, v) == head + (WithKey(a[1..], key, v) + WithKey(b, key, v));
      assert WithKey(a, key, v) == head + WithKey(a[1..], key, v);
    }
  }

  lemma {:induction false} WithKeyAllBelow<T>(ys: seq<T>, key: T -> int, v: int)
    requires forall j :: 0 <= j < |ys| ==> key(ys[j]) < v
    ensures WithKey(ys, key, v) == []
  {
    if ys != [] {
      WithKeyAllBelow(ys[1..], key, v);
    }
  }

  /** In a sorted sequence everything from `x`'s insertion point on has a smaller key than `x`. */
  lemma AfterInsertionPoint<T>(x: T, ys: seq<T>, key: T -> int)
    requires NonIncreasing(ys, key)
    ensures var k := InsertionPoint(x, ys, key);
      forall j :: 0 <= j < |ys[k..]| ==> key(ys[k..][j]) < key(x)
  {
    var k := InsertionPoint(x, ys, key);
    forall j | 0 <= j < |ys[k..]| ensures key(ys[k..][j]) < key(x) {
      assert ys[k..][j] == ys[k + j];
    }
  }

  /** Splicing `x` in front of elements with smaller keys keeps it after every element with its key. */
  lemma {:induction false} SpliceStable<T>(pre: seq<T>, x: T, post: seq<T>, key: T -> int, v: int)
    requires forall j :: 0 <= j < |post| ==> key(post[j]) < key(x)
    ensures WithKey((pre + [x]) + post, key, v) == WithKey(pre + post, key, v) + WithKey([x], key, v)
  {
    WithKeyConcat(pre + [x], post, key, v);
    WithKeyConcat(pre, [x], key, v);
    WithKeyConcat(pre, post, key, v);
    var a, m, b := WithKey(pre, key, v), WithKey([x], key, v), WithKey(post, key, v);
    if key(x) == v {
      WithKeyAllBelow(post, key, v);
      assert (a + m) + [] == (a + []) + m;
    } else {
      assert m == [] by {
        assert [x][1..] == [];
      }
      assert (a + []) + b == (a + b) + [];
    }
  }

  /** Inserting into a sorted sequence puts `x` after every element with its key. */
  lemma {:induction false} InsertStable<T>(x: T, ys: seq<T>, key: T -> int, v: int)
    requires NonIncreasing(ys, key)
    ensures WithKey(Insert(x, ys, key), key, v) == WithKey(ys, key, v) + WithKey([x], key, v)
  {
    var k := InsertionPoint(x, ys, key);
    var pre, post := ys[..k], ys[k..];
    assert forall j :: 0 <= j < |post| ==> key(post[j]) < key(x) by {
      AfterInsertionPoint(x, ys, key);
    }
    assert Insert(x, ys, key) == (pre + [x]) + post;
    assert ys == pre + post;
    SpliceStable(pre, x, post, key, v);
  }

  /**
   * Stability for every input: for each key, the elements carrying it come
   * out of the sort in the order they went in.
   */
  lemma {:induction false} SortDescStable<T>(xs: seq<T>, key: T -> int, v: int)
    ensures WithKey(SortDesc(xs, key), key, v) == WithKey(xs, key, v)
  {
    if xs != [] {
      var init, x := xs[..|xs| - 1], xs[|xs| - 1];
      assert xs == init + [x];
      SortDescStable(init, key, v);
      SortDescPush(init, x, key);
      InsertStable(x, SortDesc(init, key), key, v);
      WithKeyConcat(init, [x], key, v);
    }
  }

  /** Sorting an already sorted sequence changes nothing (stability on equal keys). */
  lemma {:induction false} SortDescSortedIsIdentity<T>(xs: seq<T>, key: T -> int)
    requires NonIncreasing(xs, key)
    ensures SortDesc(xs, key) == xs
  {
    if xs != [] {
      var init := xs[..|xs| - 1];
      PrefixNonIncreasing(xs, key);
      SortDescSortedIsIdentity(init, key);
      LastGoesLast(xs, key);
      var x := xs[|xs| - 1];
      assert xs == init + [x];
      SortDescPush(init, x, key);
      InsertAtEnd(x, init, key);
    }
  }

  /** Inserting at the end's insertion point appends. */
  lemma InsertAtEnd<T>(x: T, ys: seq<T>, key: T -> int)
    requires InsertionPoint(x, ys, key) == |ys|
    ensures Insert(x, ys, key) == ys + [x]
  {
    assert ys[..|ys|] == ys && ys[|ys|..] == [];
  }

  lemma PrefixNonIncreasing<T>(xs: seq<T>, key: T -> int)
    requires NonIncreasing(xs, key) && xs != []
    ensures NonIncreasing(xs[..|xs| - 1], key)
  {
    var init := xs[..|xs| - 1];
    forall i, j | 0 <= i < j < |init| ensures key(init[i]) >= key(init[j]) {
      assert init[i] == xs[i] && init[j] == xs[j];
    }
  }

  /** In a sorted sequence the last element's insertion point is the end. */
  lemma LastGoesLast<T>(xs: seq<T>, key: T -> int)
    requires NonIncreasing(xs, key) && xs != []
    ensures InsertionPoint(xs[|xs| - 1], xs[..|xs| - 1], key) == |xs| - 1
  {
  }

  /** Sorting neither adds nor drops elements. */
  lemma SortDescMembers<T>(xs: seq<T>, key: T -> int)
    ensures forall x :: x in SortDesc(xs, key) <==> x in xs
  {
    var r := SortDesc(xs, key);
    forall x ensures x in r <==> x in xs {
      assert x in r <==> x in multiset(r);
      assert x in xs <==> x in multiset(xs);
    }
  }
}
