/** A model of lodash's `_.sampleSize(collection, n)`: pick `min(n, |collection|)`
    elements of the collection at distinct positions, in random order.

    The randomness is not modelled; instead every call receives the stream of
    random numbers it consumes (`Draws`), and every property below holds for
    every stream.  Each step takes one draw and removes the element at that
    position (modulo the number of elements left) from the pool. */
module Sampling {

  /** The k-th random number one sampling call consumes. */
  type Draws = nat -> nat

  function Min(a: nat, b: nat): nat
  {
    if a <= b then a else b
  }

  /** No value occurs twice. */
  predicate Distinct<T(==)>(s: seq<T>)
  {
    forall i, j :: 0 <= i < j < |s| ==> s[i] != s[j]
  }

  /** Applies `f` to every element, keeping the order (lodash's `_.map` and `Array.map`). */
  function Map<T, U>(f: T -> U, s: seq<T>): (r: seq<U>)
    ensures |r| == |s|
    ensures forall i :: 0 <= i < |s| ==> r[i] == f(s[i])
  {
    seq(|s|, i requires 0 <= i < |s| => f(s[i]))
  }

  /** The sequence without its element at position `j`. */
  function RemoveAt<T>(s: seq<T>, j: nat): (r: seq<T>)
    requires j < |s|
    ensures |r| == |s| - 1
    ensures multiset(r) + multiset{s[j]} == multiset(s)
  {
    assert s == s[..j] + [s[j]] + s[j + 1..];
    s[..j] + s[j + 1..]
  }

  /** Element `i` of what is left is the pool's element `i`, or `i + 1` past the gap. */
  lemma RemoveAtIndex<T>(s: seq<T>, j: nat, i: nat)
    requires j < |s| && i < |s| - 1
    ensures RemoveAt(s, j)[i] == s[if i < j then i else i + 1]
  {
  }

  lemma RemoveAtKeepsDistinct<T>(s: seq<T>, j: nat)
    requires j < |s| && Distinct(s)
    ensures Distinct(RemoveAt(s, j))
    ensures s[j] !in RemoveAt(s, j)
  {
    var r := RemoveAt(s, j);
    forall a, b | 0 <= a < b < |r|
      ensures r[a] != r[b]
    {
      RemoveAtIndex(s, j, a);
      RemoveAtIndex(s, j, b);
    }
    forall i | 0 <= i < |r|
      ensures r[i] != s[j]
    {
      RemoveAtIndex(s, j, i);
    }
  }

  /** The position a draw selects among `size` remaining elements. */
  function Pick(draw: nat, size: nat): (j: nat)
    requires 0 < size
    ensures j < size
  {
    draw % size
  }

  /** The sampling loop from draw number `k` on: at most `n` more picks,
      drawn without replacement, so they form a sub-multiset of the pool and
      are distinct when the pool is. */
  function SampleFrom<T>(pool: seq<T>, n: nat, draws: Draws, k: nat): (r: seq<T>)
    ensures |r| == Min(n, |pool|)
    ensures multiset(r) <= multiset(pool)
    ensures Distinct(pool) ==> Distinct(r)
    decreases n
  {
    if n == 0 || |pool| == 0 then []
    else
      var j := Pick(draws(k), |pool|);
      var rest := SampleFrom(RemoveAt(pool, j), n - 1, draws, k + 1);
      PickStep(pool, j, rest);
      PickStepDistinct(pool, j, rest);
      [pool[j]] + rest
  }

  /** One pick: the element taken together with a selection from what is
      left is a selection from the pool. */
  lemma PickStep<T>(pool: seq<T>, j: nat, rest: seq<T>)
    requires j < |pool|
    requires multiset(rest) <= multiset(RemoveAt(pool, j))
    ensures multiset([pool[j]] + rest) <= multiset(pool)
  {
    assert multiset([pool[j]] + rest) == multiset(rest) + multiset{pool[j]};
  }

  /** One pick from a duplicate-free pool: the element taken does not recur
      in a duplicate-free selection from what is left. */
  lemma PickStepDistinct<T>(pool: seq<T>, j: nat, rest: seq<T>)
    requires j < |pool|
    requires multiset(rest) <= multiset(RemoveAt(pool, j))
    requires Distinct(RemoveAt(pool, j)) ==> Distinct(rest)
    ensures Distinct(pool) ==> Distinct([pool[j]] + rest)
  {
    if Distinct(pool) {
      RemoveAtKeepsDistinct(pool, j);
      assert pool[j] !in multiset(rest);
      var r := [pool[j]] + rest;
      forall a, b | 0 <= a < b < |r|
        ensures r[a] != r[b]
      {
        if a == 0 {
          assert r[b] == rest[b - 1];
          assert rest[b - 1] in multiset(rest);
        } else {
          assert r[a] == rest[a - 1] && r[b] == rest[b - 1];
        }
      }
    }
  }

  /** `_.sampleSize(pool, n)`: `min(n, |pool|)` elements drawn without
      replacement, so every value occurs in the sample at most as often as
      in the pool. */
  function SampleSize<T>(pool: seq<T>, n: nat, draws: Draws): (r: seq<T>)
    ensures |r| == Min(n, |pool|)
    ensures multiset(r) <= multiset(pool)
    ensures forall x :: x in r ==> x in pool
    ensures Distinct(pool) ==> Distinct(r)
  {
    var r := SampleFrom(pool, n, draws, 0);
    assert forall x :: x in r ==> x in pool by {
      forall x | x in r ensures x in pool {
        assert x in multiset(r);
      }
    }
    r
  }
}
