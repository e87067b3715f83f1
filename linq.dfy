/**
 * The LINQ-to-objects operators the product queries are built from, on finite
 * sequences: `Where` (filter), `OrderBy` (stable sort by an integer key),
 * `Select` (projection) and `Sum` (aggregate). `ToList` and `AsEnumerable`
 * change only when the pipeline runs, never what it yields, so on values they
 * are the identity and have no function of their own here.
 */
module Linq {

  /** Keeps the elements that satisfy `p`, in their original order. */
  function Where<T(==,!new)>(s: seq<T>, p: T -> bool): (r: seq<T>)
    ensures |r| <= |s|
    ensures forall i :: 0 <= i < |r| ==> p(r[i])
    decreases |s|
  {
    if s == [] then [] else (if p(s[0]) then [s[0]] else []) + Where(s[1..], p)
  }

  /** Each element is kept exactly as often as it occurs in `s` if it satisfies `p`, and never otherwise. */
  lemma {:induction false} WhereCount<T(!new)>(s: seq<T>, p: T -> bool, x: T)
    ensures multiset(Where(s, p))[x] == if p(x) then multiset(s)[x] else 0
    decreases |s|
  {
    if s != [] {
      assert s == [s[0]] + s[1..];
      WhereCount(s[1..], p, x);
    }
  }

  /** The kept elements are exactly the elements of `s` that satisfy `p`. */
  lemma WhereMember<T(!new)>(s: seq<T>, p: T -> bool, x: T)
    ensures x in Where(s, p) <==> x in s && p(x)
  {
    WhereCount(s, p, x);
    assert x in Where(s, p) <==> x in multiset(Where(s, p));
    assert x in s <==> x in multiset(s);
  }

  /** Filtering distributes over concatenation: the order of the input is kept. */
  lemma {:induction false} WhereConcat<T(!new)>(a: seq<T>, b: seq<T>, p: T -> bool)
    ensures Where(a + b, p) == Where(a, p) + Where(b, p)
    decreases |a|
  {
    if a != [] {
      assert (a + b)[0] == a[0];
      assert (a + b)[1..] == a[1..] + b;
      WhereConcat(a[1..], b, p);
      var h := if p(a[0]) then [a[0]] else [];
      assert Where(a + b, p) == h + (Where(a[1..], p) + Where(b, p));
      assert h + (Where(a[1..], p) + Where(b, p)) == (h + Where(a[1..], p)) + Where(b, p);
    } else {
      assert a + b == b;
    }
  }

  /** The elements of `s` whose key is `k`, in their order in `s`. */
  function WithKey<T(==,!new)>(s: seq<T>, key: T -> int, k: int): seq<T>
  {
    Where(s, y => key(y) == k)
  }

  /** Peeling the first element off the key-`k` subsequence. */
  lemma WithKeyCons<T(!new)>(x: T, s: seq<T>, key: T -> int, k: int)
    ensures WithKey([x] + s, key, k) == (if key(x) == k then [x] else []) + WithKey(s, key, k)
  {
    assert ([x] + s)[1..] == s;
  }

  /** The key-`k` subsequence of a filtered sequence is the filter by "`p` and key `k`". */
  lemma {:induction false} WithKeyWhere<T(!new)>(s: seq<T>, p: T -> bool, key: T -> int, k: int, pk: T -> bool)
    requires forall x :: pk(x) == (p(x) && key(x) == k)
    ensures WithKey(Where(s, p), key, k) == Where(s, pk)
    decreases |s|
  {
    if s != [] {
      WithKeyWhere(s[1..], p, key, k, pk);
      if p(s[0]) {
        WithKeyCons(s[0], Where(s[1..], p), key, k);
      } else {
        assert Where(s, p) == Where(s[1..], p);
      }
    }
  }

  /** Non-decreasing by `key`. */
  predicate Sorted<T>(s: seq<T>, key: T -> int)
  {
    forall i, j :: 0 <= i < j < |s| ==> key(s[i]) <= key(s[j])
  }

  /**
   * Inserts `x` into a sorted sequence in front of the first element whose key
   * is not smaller than its own, so `x` precedes every element of equal key.
   */
  function Insert<T(==,!new)>(x: T, s: seq<T>, key: T -> int): (r: seq<T>)
    requires Sorted(s, key)
    ensures Sorted(r, key)
    ensures |r| == |s| + 1
    ensures r[0] == x || (s != [] && r[0] == s[0])
    ensures multiset(r) == multiset(s) + multiset{x}
    decreases |s|
  {
    if s == [] || key(x) <= key(s[0]) then [x] + s
    else
      assert s == [s[0]] + s[1..];
      [s[0]] + Insert(x, s[1..], key)
  }

  /** Inserting `x` puts it in front of every element of the same key. */
  lemma {:induction false} InsertWithKey<T(!new)>(x: T, s: seq<T>, key: T -> int, k: int)
    requires Sorted(s, key)
    ensures WithKey(Insert(x, s, key), key, k) == (if key(x) == k then [x] else []) + WithKey(s, key, k)
    decreases |s|
  {
    if s == [] || key(x) <= key(s[0]) {
      WithKeyCons(x, s, key, k);
    } else {
      assert s == [s[0]] + s[1..];
      InsertWithKey(x, s[1..], key, k);
      WithKeyCons(s[0], Insert(x, s[1..], key), key, k);
      WithKeyCons(s[0], s[1..], key, k);
    }
  }

  /**
   * Sort by `key` (insertion sort): the result is sorted and a permutation of
   * the input. `OrderByWithKey` shows that it is stable.
   */
  function OrderBy<T(==,!new)>(s: seq<T>, key: T -> int): (r: seq<T>)
    ensures Sorted(r, key)
    ensures |r| == |s|
    ensures multiset(r) == multiset(s)
    decreases |s|
  {
    if s == [] then []
    else
      assert s == [s[0]] + s[1..];
      Insert(s[0], OrderBy(s[1..], key), key)
  }

  /** Stability: the elements of each key keep their relative order of the input. */
  lemma {:induction false} OrderByWithKey<T(!new)>(s: seq<T>, key: T -> int, k: int)
    ensures WithKey(OrderBy(s, key), key, k) == WithKey(s, key, k)
    decreases |s|
  {
    if s != [] {
      assert s == [s[0]] + s[1..];
      OrderByWithKey(s[1..], key, k);
      InsertWithKey(s[0], OrderBy(s[1..], key), key, k);
      WithKeyCons(s[0], s[1..], key, k);
    }
  }

  /** Two sequences that agree on the subsequence of every key. */
  ghost predicate SameKeyClasses<T(!new)>(a: seq<T>, b: seq<T>, key: T -> int)
  {
    forall k :: WithKey(a, key, k) == WithKey(b, key, k)
  }

  /**
   * Being sorted and keeping every key's subsequence determines a sequence:
   * two sorted sequences with the same key-`k` subsequence for every `k` are equal.
   */
  lemma {:induction false} StableSortUnique<T(!new)>(a: seq<T>, b: seq<T>, key: T -> int)
    requires Sorted(a, key) && Sorted(b, key)
    requires SameKeyClasses(a, b, key)
    ensures a == b
    decreases |a|
  {
    if a != [] && b == [] {
      assert a == [a[0]] + a[1..];
      WithKeyCons(a[0], a[1..], key, key(a[0]));
    } else if a == [] && b != [] {
      assert b == [b[0]] + b[1..];
      WithKeyCons(b[0], b[1..], key, key(b[0]));
    } else if a != [] && b != [] {
      assert a == [a[0]] + a[1..];
      assert b == [b[0]] + b[1..];
      var ma, mb := key(a[0]), key(b[0]);
      // a[0] has key ma, so b holds an element of key ma, hence mb <= ma; and symmetrically.
      WithKeyCons(a[0], a[1..], key, ma);
      assert WithKey(b, key, ma) == WithKey(a, key, ma);
      WhereMember(b, y => key(y) == ma, a[0]);
      WithKeyCons(b[0], b[1..], key, mb);
      assert WithKey(a, key, mb) == WithKey(b, key, mb);
      WhereMember(a, y => key(y) == mb, b[0]);
      assert ma == mb;
      WithKeyCons(b[0], b[1..], key, ma);
      assert WithKey(a, key, ma) == [a[0]] + WithKey(a[1..], key, ma);
      assert WithKey(b, key, ma) == [b[0]] + WithKey(b[1..], key, ma);
      assert a[0] == WithKey(a, key, ma)[0] == b[0];
      forall k ensures WithKey(a[1..], key, k) == WithKey(b[1..], key, k) {
        WithKeyCons(a[0], a[1..], key, k);
        WithKeyCons(b[0], b[1..], key, k);
        var h := if key(a[0]) == k then [a[0]] else [];
        assert WithKey(a, key, k) == h + WithKey(a[1..], key, k);
        assert WithKey(b, key, k) == h + WithKey(b[1..], key, k);
        assert WithKey(a, key, k) == WithKey(b, key, k);
        assert WithKey(a[1..], key, k) == WithKey(a, key, k)[|h|..];
        assert WithKey(b[1..], key, k) == WithKey(b, key, k)[|h|..];
      }
      StableSortUnique(a[1..], b[1..], key);
    }
  }

  /** `OrderBy` is the stable sort: any sorted sequence that keeps every key's subsequence of `s` is `OrderBy(s, key)`. */
  lemma OrderByIsTheStableSort<T(!new)>(s: seq<T>, r: seq<T>, key: T -> int)
    requires Sorted(r, key)
    requires SameKeyClasses(r, s, key)
    ensures r == OrderBy(s, key)
  {
    forall k ensures WithKey(r, key, k) == WithKey(OrderBy(s, key), key, k) {
      OrderByWithKey(s, key, k);
    }
    StableSortUnique(r, OrderBy(s, key), key);
  }

  /** Projects every element through `f`, in order. */
  function Select<T, U>(s: seq<T>, f: T -> U): (r: seq<U>)
    ensures |r| == |s|
    ensures forall i :: 0 <= i < |s| ==> r[i] == f(s[i])
    decreases |s|
  {
    if s == [] then [] else [f(s[0])] + Select(s[1..], f)
  }

  /** Projection distributes over concatenation. */
  lemma SelectConcat<T(!new), U>(a: seq<T>, b: seq<T>, f: T -> U)
    ensures Select(a + b, f) == Select(a, f) + Select(b, f)
  {
  }

  /** Inserting an element adds its image to the projection's multiset. */
  lemma {:induction false} SelectInsert<T(!new), U>(x: T, s: seq<T>, key: T -> int, f: T -> U)
    requires Sorted(s, key)
    ensures multiset(Select(Insert(x, s, key), f)) == multiset(Select(s, f)) + multiset{f(x)}
    decreases |s|
  {
    if s != [] && key(x) > key(s[0]) {
      var t := Insert(x, s[1..], key);
      SelectInsert(x, s[1..], key, f);
      assert Select([s[0]] + t, f) == [f(s[0])] + Select(t, f);
      assert s == [s[0]] + s[1..];
      assert Select(s, f) == [f(s[0])] + Select(s[1..], f);
    } else {
      assert Select([x] + s, f) == [f(x)] + Select(s, f);
    }
  }

  /** Sorting does not change which values a projection yields, only their order. */
  lemma {:induction false} SelectOrderBy<T(!new), U>(s: seq<T>, key: T -> int, f: T -> U)
    ensures multiset(Select(OrderBy(s, key), f)) == multiset(Select(s, f))
    decreases |s|
  {
    if s != [] {
      SelectOrderBy(s[1..], key, f);
      SelectInsert(s[0], OrderBy(s[1..], key), key, f);
    }
  }

  /** The sum of `f` over the elements of `s`. */
  function Sum<T>(s: seq<T>, f: T -> int): (r: int)
    ensures (forall i :: 0 <= i < |s| ==> f(s[i]) >= 0) ==> r >= 0
    decreases |s|
  {
    if s == [] then 0 else f(s[0]) + Sum(s[1..], f)
  }

  lemma {:induction false} SumConcat<T(!new)>(a: seq<T>, b: seq<T>, f: T -> int)
    ensures Sum(a + b, f) == Sum(a, f) + Sum(b, f)
    decreases |a|
  {
    if a != [] {
      assert (a + b)[0] == a[0];
      assert (a + b)[1..] == a[1..] + b;
      SumConcat(a[1..], b, f);
      assert Sum(a + b, f) == f(a[0]) + Sum(a[1..] + b, f);
    } else {
      assert a + b == b;
    }
  }

  /**
   * Summing over the filtered sequence equals summing, over the whole
   * sequence, a function `g` that is `f` on kept elements and 0 elsewhere.
   */
  lemma {:induction false} SumWhere<T(!new)>(s: seq<T>, p: T -> bool, f: T -> int, g: T -> int)
    requires forall x :: g(x) == if p(x) then f(x) else 0
    ensures Sum(Where(s, p), f) == Sum(s, g)
    decreases |s|
  {
    if s != [] {
      SumWhere(s[1..], p, f, g);
      SumConcat(if p(s[0]) then [s[0]] else [], Where(s[1..], p), f);
    }
  }

  /** The length of the filtered sequence counts the elements that satisfy `p`. */
  lemma {:induction false} CountWhere<T(!new)>(s: seq<T>, p: T -> bool, one: T -> int)
    requires forall x :: one(x) == if p(x) then 1 else 0
    ensures |Where(s, p)| == Sum(s, one)
    decreases |s|
  {
    if s != [] {
      CountWhere(s[1..], p, one);
    }
  }

  lemma {:induction false} SumInsert<T(!new)>(x: T, s: seq<T>, key: T -> int, f: T -> int)
    requires Sorted(s, key)
    ensures Sum(Insert(x, s, key), f) == f(x) + Sum(s, f)
    decreases |s|
  {
    if s != [] && key(x) > key(s[0]) {
      SumInsert(x, s[1..], key, f);
      assert ([s[0]] + Insert(x, s[1..], key))[1..] == Insert(x, s[1..], key);
    } else {
      assert ([x] + s)[1..] == s;
    }
  }

  /** Sorting does not change a sum. */
  lemma {:induction false} SumOrderBy<T(!new)>(s: seq<T>, key: T -> int, f: T -> int)
    ensures Sum(OrderBy(s, key), f) == Sum(s, f)
    decreases |s|
  {
    if s != [] {
      SumOrderBy(s[1..], key, f);
      SumInsert(s[0], OrderBy(s[1..], key), key, f);
    }
  }
}
