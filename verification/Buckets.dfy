/** Intervals of equal length on the time axis, numbered from zero. */
module Buckets {

  /** floor(time / target): which bucket a time belongs to. */
  function Index(target: nat, time: nat): nat
    requires target > 0
  {
    time / target
  }

  function StartOf(target: nat, k: nat): nat { k * target }

  lemma StartsGrow(target: nat, i: nat, j: nat)
    requires i < j
    ensures StartOf(target, i) + target <= StartOf(target, j)
    ensures StartOf(target, i) + target == StartOf(target, i + 1)
  {
    var d := j - i - 1;
    assert d * target >= 0;
    assert (i + 1 + d) * target == i * target + target + d * target;
  }

  lemma StartsAdd(target: nat, i: nat, d: nat)
    ensures StartOf(target, i + d) == StartOf(target, i) + StartOf(target, d)
  {
    assert (i + d) * target == i * target + d * target;
  }

  /** A time lies in bucket `k` when it is at or after its start and before the next one. */
  lemma BucketBounds(target: nat, time: nat, k: nat)
    requires target > 0
    ensures Index(target, time) == k <==> StartOf(target, k) <= time < StartOf(target, k + 1)
  {
    var q, r := time / target, time % target;
    assert time == q * target + r;
    StartsGrow(target, q, q + 1);
    StartsGrow(target, k, k + 1);
    if q < k { StartsGrow(target, q, k); }
    if q > k { StartsGrow(target, k, q); }
  }

  lemma IndexOfStart(target: nat, k: nat)
    requires target > 0
    ensures Index(target, StartOf(target, k)) == k
  {
    StartsGrow(target, k, k + 1);
    BucketBounds(target, StartOf(target, k), k);
  }

  lemma IndexGrows(target: nat, a: nat, b: nat)
    requires target > 0 && a <= b
    ensures Index(target, a) <= Index(target, b)
  {
    hide Index, StartOf;
    var i, j := Index(target, a), Index(target, b);
    BucketBounds(target, a, i);
    BucketBounds(target, b, j);
    if j < i {
      StartsGrow(target, j, j + 1);
      StartsGrow(target, j, i);
    }
  }

  /** Multiples are the starts of buckets. */
  lemma MultipleIsStart(target: nat, time: nat)
    requires target > 0
    ensures time % target == 0 <==> StartOf(target, Index(target, time)) == time
  {
    var q, r := time / target, time % target;
    assert time == q * target + r;
  }

  /** `n` is a multiple of `m`: the coarse bucket of a time is the one its fine bucket lies in. */
  ghost predicate Nested(m: nat, q: nat, n: nat) { m > 0 && q > 0 && n > 0 && n == m * q }

  lemma NestedStart(m: nat, q: nat, n: nat, j: nat)
    requires Nested(m, q, n)
    ensures StartOf(n, j) == StartOf(m, StartOf(q, j))
  {
    assert j * (m * q) == (j * q) * m;
  }

  lemma NestedIndex(m: nat, q: nat, n: nat, time: nat)
    requires Nested(m, q, n)
    ensures Index(n, time) == Index(q, Index(m, time))
  {
    hide Index, StartOf, Nested;
    assert m > 0 && q > 0 && n > 0 by { IsNested(m, q, n); }
    var k := Index(m, time);
    var j := Index(q, k);
    BucketBounds(m, time, k);
    BucketBounds(q, k, j);
    NestedStart(m, q, n, j);
    NestedStart(m, q, n, j + 1);
    if StartOf(q, j) < k { StartsGrow(m, StartOf(q, j), k); }
    if k + 1 < StartOf(q, j + 1) { StartsGrow(m, k + 1, StartOf(q, j + 1)); }
    BucketBounds(n, time, j);
  }

  lemma IsNested(m: nat, q: nat, n: nat)
    requires Nested(m, q, n)
    ensures m > 0 && q > 0 && n > 0
  {
  }

  lemma NextIndex(m: nat, q: nat, n: nat, j: nat)
    requires m > 0 && q > 0 && n > 0 && Nested(m, q, n)
    ensures
      var i := Index(q, j);
      Index(q, j + 1) == i || (Index(q, j + 1) == i + 1 && StartOf(m, j + 1) == StartOf(n, i + 1))
  {
    hide Index, StartOf, Nested;
    var i := Index(q, j);
    BucketBounds(q, j, i);
    BucketBounds(q, j + 1, i);
    BucketBounds(q, j + 1, i + 1);
    StartsGrow(q, i, i + 1);
    StartsGrow(q, i + 1, i + 2);
    NestedStart(m, q, n, i + 1);
  }
}
