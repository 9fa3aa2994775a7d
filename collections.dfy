/** The two sequence shapes the server builds its views from: JavaScript's
    `Array.prototype.filter`, and the first-occurrence deduplication it gets by
    inserting into a `Map` or `Set` only when the key is new and then reading
    the values back in insertion order. */
module Collections {

  /** `xs.filter(p)`: the elements of `xs` that satisfy `p`, in their order. */
  function Filter<T>(xs: seq<T>, p: T -> bool): (r: seq<T>)
    ensures |r| <= |xs|
  {
    if xs == [] then []
    else (if p(xs[0]) then [xs[0]] else []) + Filter(xs[1..], p)
  }

  /** The elements a filter keeps are elements of `xs` that satisfy `p`, and
      every element of `xs` that satisfies `p` is kept. */
  lemma {:induction false} FilterMembers<T>(xs: seq<T>, p: T -> bool)
    ensures forall x :: x in Filter(xs, p) ==> x in xs && p(x)
    ensures forall i :: 0 <= i < |xs| && p(xs[i]) ==> xs[i] in Filter(xs, p)
  {
    if xs != [] {
      FilterMembers(xs[1..], p);
      assert Filter(xs, p) == (if p(xs[0]) then [xs[0]] else []) + Filter(xs[1..], p);
      forall i | 0 <= i < |xs| && p(xs[i]) ensures xs[i] in Filter(xs, p) {
        if i > 0 {
          assert xs[i] == xs[1..][i - 1];
        }
      }
    }
  }

  /** Filtering a concatenation filters each part and keeps them in order:
      `Filter` never reorders. */
  lemma {:induction false} FilterAppend<T>(a: seq<T>, b: seq<T>, p: T -> bool)
    ensures Filter(a + b, p) == Filter(a, p) + Filter(b, p)
  {
    if a == [] {
      assert a + b == b;
    } else {
      var head := if p(a[0]) then [a[0]] else [];
      assert (a + b)[0] == a[0];
      assert (a + b)[1..] == a[1..] + b;
      FilterAppend(a[1..], b, p);
      calc {
        Filter(a + b, p);
        head + Filter(a[1..] + b, p);
        head + (Filter(a[1..], p) + Filter(b, p));
        (head + Filter(a[1..], p)) + Filter(b, p);
      }
    }
  }

  /** `Filter` keeps every copy of a matching element and no copy of any other. */
  lemma {:induction false} FilterCount<T>(xs: seq<T>, p: T -> bool, x: T)
    ensures multiset(Filter(xs, p))[x] == if p(x) then multiset(xs)[x] else 0
  {
    if xs != [] {
      FilterCount(xs[1..], p, x);
      assert xs == [xs[0]] + xs[1..];
    }
  }

  /** Two predicates that agree everywhere filter alike. */
  lemma {:induction false} FilterAgree<T>(xs: seq<T>, p: T -> bool, q: T -> bool)
    requires forall x :: p(x) == q(x)
    ensures Filter(xs, p) == Filter(xs, q)
  {
    if xs != [] {
      FilterAgree(xs[1..], p, q);
    }
  }

  /** A filter with a weaker predicate keeps at least the same elements. */
  lemma {:induction false} FilterWeaker<T>(xs: seq<T>, p: T -> bool, q: T -> bool)
    requires forall x :: p(x) ==> q(x)
    ensures Filter(xs, p) == Filter(Filter(xs, q), p)
  {
    if xs != [] {
      FilterWeaker(xs[1..], p, q);
      FilterAppend(if q(xs[0]) then [xs[0]] else [], Filter(xs[1..], q), p);
    }
  }

  /** The keys of `xs` never decrease from left to right. */
  predicate NonDecreasing<T>(xs: seq<T>, key: T -> int) {
    forall i, j :: 0 <= i < j < |xs| ==> key(xs[i]) <= key(xs[j])
  }

  /** A filter of a sorted sequence is sorted. */
  lemma {:induction false} FilterKeepsOrder<T>(xs: seq<T>, p: T -> bool, key: T -> int)
    requires NonDecreasing(xs, key)
    ensures NonDecreasing(Filter(xs, p), key)
  {
    if xs != [] {
      var rest, r := Filter(xs[1..], p), Filter(xs, p);
      FilterKeepsOrder(xs[1..], p, key);
      FilterMembers(xs[1..], p);
      forall k | 0 <= k < |rest| ensures key(xs[0]) <= key(rest[k]) {
        assert rest[k] in rest;
        assert rest[k] in xs[1..];
        var i :| 0 <= i < |xs[1..]| && xs[1..][i] == rest[k];
        assert xs[1 + i] == rest[k];
      }
      if p(xs[0]) {
        assert r == [xs[0]] + rest;
        forall a, b | 0 <= a < b < |r| ensures key(r[a]) <= key(r[b]) {
          assert r[b] == rest[b - 1];
          if 0 < a {
            assert r[a] == rest[a - 1];
          }
        }
      } else {
        assert r == rest;
      }
    }
  }

  /** The set of keys the elements of `xs` have. */
  function Keys<T(==), K(==)>(xs: seq<T>, key: T -> K): set<K> {
    set x | x in xs :: key(x)
  }

  /** Appending one element adds exactly its key. */
  lemma KeysSnoc<T, K>(xs: seq<T>, x: T, key: T -> K)
    ensures Keys(xs + [x], key) == Keys(xs, key) + {key(x)}
  {
    assert forall y :: y in xs + [x] <==> y in xs || y == x;
  }

  /** The elements of `xs` whose key was not seen earlier, in their order: what
      `new Map()` filled by `if (!m.has(k)) m.set(k, ...)` and read back with
      `Array.from(m.values())` holds, and what `[...new Set(xs)]` holds when the
      key is the element itself. */
  function KeepFirst<T(==), K(==)>(xs: seq<T>, key: T -> K): (r: seq<T>)
    ensures |r| <= |xs|
  {
    if xs == [] then []
    else
      var init, last := xs[..|xs| - 1], xs[|xs| - 1];
      if key(last) in Keys(init, key) then KeepFirst(init, key)
      else KeepFirst(init, key) + [last]
  }

  /** One step of `KeepFirst`: the next element is kept exactly when its key is new. */
  lemma KeepFirstSnoc<T, K>(xs: seq<T>, x: T, key: T -> K)
    ensures KeepFirst(xs + [x], key) ==
      if key(x) in Keys(xs, key) then KeepFirst(xs, key) else KeepFirst(xs, key) + [x]
  {
    assert (xs + [x])[..|xs|] == xs;
  }

  /** The first element of a non-empty sequence is always kept, in front. */
  lemma {:induction false} KeepFirstHead<T, K>(xs: seq<T>, key: T -> K)
    requires xs != []
    ensures |KeepFirst(xs, key)| > 0 && KeepFirst(xs, key)[0] == xs[0]
    decreases |xs|
  {
    var init := xs[..|xs| - 1];
    if init == [] {
      assert Keys(init, key) == {};
    } else {
      KeepFirstHead(init, key);
      assert init[0] == xs[0];
    }
  }

  /** The position of the first element of `xs` whose key is `c`. */
  function FirstIndexOf<T(==), K(==)>(xs: seq<T>, key: T -> K, c: K): (i: nat)
    requires c in Keys(xs, key)
    ensures i < |xs| && key(xs[i]) == c
    ensures forall j :: 0 <= j < i ==> key(xs[j]) != c
  {
    if key(xs[0]) == c then 0
    else
      assert c in Keys(xs[1..], key) by {
        var x :| x in xs && key(x) == c;
        assert x in xs[1..];
      }
      FirstIndexOf(xs[1..], key, c) + 1
  }

  /** The first occurrence of a key in `xs` stays the first once more elements follow. */
  lemma FirstIndexOfSnoc<T, K>(xs: seq<T>, x: T, key: T -> K, c: K)
    requires c in Keys(xs, key)
    ensures c in Keys(xs + [x], key)
    ensures FirstIndexOf(xs + [x], key, c) == FirstIndexOf(xs, key, c)
  {
    KeysSnoc(xs, x, key);
    var i, j := FirstIndexOf(xs, key, c), FirstIndexOf(xs + [x], key, c);
    assert (xs + [x])[i] == xs[i];
    assert j <= i;
    assert (xs + [x])[j] == xs[j];
  }

  /** `KeepFirst` keeps a representative of every key and introduces none. */
  lemma {:induction false} KeepFirstKeys<T, K>(xs: seq<T>, key: T -> K)
    ensures Keys(KeepFirst(xs, key), key) == Keys(xs, key)
    decreases |xs|
  {
    if xs != [] {
      var init, last := xs[..|xs| - 1], xs[|xs| - 1];
      assert xs == init + [last];
      KeepFirstKeys(init, key);
      KeysSnoc(init, last, key);
      if key(last) !in Keys(init, key) {
        KeysSnoc(KeepFirst(init, key), last, key);
      }
    }
  }

  /** No two elements `KeepFirst` keeps share a key. */
  lemma {:induction false} KeepFirstDistinct<T, K>(xs: seq<T>, key: T -> K)
    ensures forall a, b :: 0 <= a < b < |KeepFirst(xs, key)| ==>
      key(KeepFirst(xs, key)[a]) != key(KeepFirst(xs, key)[b])
    decreases |xs|
  {
    if xs != [] {
      var init, last := xs[..|xs| - 1], xs[|xs| - 1];
      var r0, r := KeepFirst(init, key), KeepFirst(xs, key);
      KeepFirstDistinct(init, key);
      if key(last) !in Keys(init, key) {
        KeepFirstKeys(init, key);
        assert r == r0 + [last];
        forall a, b | 0 <= a < b < |r| ensures key(r[a]) != key(r[b]) {
          if b == |r0| {
            assert r[a] == r0[a] && key(r0[a]) in Keys(r0, key);
          }
        }
      }
    }
  }

  /** Every kept element is the first element of `xs` with its key. */
  lemma {:induction false} KeepFirstIsFirst<T, K>(xs: seq<T>, key: T -> K)
    ensures forall k :: 0 <= k < |KeepFirst(xs, key)| ==>
      key(KeepFirst(xs, key)[k]) in Keys(xs, key) &&
      KeepFirst(xs, key)[k] == xs[FirstIndexOf(xs, key, key(KeepFirst(xs, key)[k]))]
    decreases |xs|
  {
    if xs != [] {
      var init, last := xs[..|xs| - 1], xs[|xs| - 1];
      assert xs == init + [last];
      var r0, r := KeepFirst(init, key), KeepFirst(xs, key);
      KeepFirstIsFirst(init, key);
      forall k | 0 <= k < |r0|
        ensures key(r0[k]) in Keys(xs, key) && r0[k] == xs[FirstIndexOf(xs, key, key(r0[k]))]
      {
        FirstIndexOfSnoc(init, last, key, key(r0[k]));
      }
      if key(last) !in Keys(init, key) {
        KeysSnoc(init, last, key);
        assert r == r0 + [last];
        assert FirstIndexOf(xs, key, key(last)) == |init|;
      }
    }
  }

  /** The kept elements come in the order their keys first occur in `xs`. */
  lemma {:induction false} KeepFirstOrdered<T, K>(xs: seq<T>, key: T -> K)
    ensures forall a, b :: 0 <= a < b < |KeepFirst(xs, key)| ==>
      key(KeepFirst(xs, key)[a]) in Keys(xs, key) && key(KeepFirst(xs, key)[b]) in Keys(xs, key) &&
      FirstIndexOf(xs, key, key(KeepFirst(xs, key)[a])) < FirstIndexOf(xs, key, key(KeepFirst(xs, key)[b]))
    decreases |xs|
  {
    if xs != [] {
      var init, last := xs[..|xs| - 1], xs[|xs| - 1];
      assert xs == init + [last];
      var r0, r := KeepFirst(init, key), KeepFirst(xs, key);
      KeepFirstOrdered(init, key);
      KeepFirstIsFirst(init, key);
      forall k | 0 <= k < |r0|
        ensures key(r0[k]) in Keys(xs, key) && FirstIndexOf(xs, key, key(r0[k])) == FirstIndexOf(init, key, key(r0[k])) < |init|
      {
        FirstIndexOfSnoc(init, last, key, key(r0[k]));
      }
      if key(last) !in Keys(init, key) {
        KeysSnoc(init, last, key);
        assert r == r0 + [last];
        assert FirstIndexOf(xs, key, key(last)) == |init|;
        forall a, b | 0 <= a < b < |r|
          ensures key(r[a]) in Keys(xs, key) && key(r[b]) in Keys(xs, key) &&
            FirstIndexOf(xs, key, key(r[a])) < FirstIndexOf(xs, key, key(r[b]))
        {
          assert r[a] == r0[a];
          if b < |r0| {
            assert r[b] == r0[b];
          }
        }
      } else {
        assert r == r0;
        forall a, b | 0 <= a < b < |r|
          ensures key(r[a]) in Keys(xs, key) && key(r[b]) in Keys(xs, key) &&
            FirstIndexOf(xs, key, key(r[a])) < FirstIndexOf(xs, key, key(r[b]))
        {
          assert FirstIndexOf(init, key, key(r0[a])) < FirstIndexOf(init, key, key(r0[b]));
        }
      }
    } else {
      assert KeepFirst(xs, key) == [];
    }
  }

  /** `KeepFirst` is exactly the first-occurrence view of `xs`: one element per
      distinct key, every key of `xs` represented, each kept element the first
      one with its key, and the kept elements in the order their keys first
      occur. */
  lemma KeepFirstSpec<T, K>(xs: seq<T>, key: T -> K)
    ensures Keys(KeepFirst(xs, key), key) == Keys(xs, key)
    ensures forall a, b :: 0 <= a < b < |KeepFirst(xs, key)| ==>
      key(KeepFirst(xs, key)[a]) != key(KeepFirst(xs, key)[b])
    ensures forall k :: 0 <= k < |KeepFirst(xs, key)| ==>
      key(KeepFirst(xs, key)[k]) in Keys(xs, key) &&
      KeepFirst(xs, key)[k] == xs[FirstIndexOf(xs, key, key(KeepFirst(xs, key)[k]))]
    ensures forall a, b :: 0 <= a < b < |KeepFirst(xs, key)| ==>
      key(KeepFirst(xs, key)[a]) in Keys(xs, key) && key(KeepFirst(xs, key)[b]) in Keys(xs, key) &&
      FirstIndexOf(xs, key, key(KeepFirst(xs, key)[a])) < FirstIndexOf(xs, key, key(KeepFirst(xs, key)[b]))
  {
    KeepFirstKeys(xs, key);
    KeepFirstDistinct(xs, key);
    KeepFirstIsFirst(xs, key);
    KeepFirstOrdered(xs, key);
  }

  /** `order` lists keys of `m` in the order they were inserted, and reading the
      values of `m` back in that order gives `values`: the state of a JavaScript
      `Map` as far as `Array.from(m.values())` can see it. */
  ghost predicate ReadsBackAs<K, V>(m: map<K, V>, order: seq<K>, values: seq<V>) {
    |order| == |values| &&
    forall k :: 0 <= k < |order| ==> order[k] in m && m[order[k]] == values[k]
  }

  /** Setting a key the map does not hold appends its value to what reads back. */
  lemma ReadsBackInsert<K, V>(m: map<K, V>, order: seq<K>, values: seq<V>, key: K, v: V)
    requires ReadsBackAs(m, order, values) && key !in m
    ensures ReadsBackAs(m[key := v], order + [key], values + [v])
  {
  }

}
