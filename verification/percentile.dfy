/** The q-quantile of a column with linear interpolation, the pandas default: sort the values,
    take the virtual position q*(n-1), and interpolate between the two neighbouring
    order statistics. */
module Percentile {

  predicate Sorted(v: seq<real>) {
    forall i, j :: 0 <= i <= j < |v| ==> v[i] <= v[j]
  }

  function InsertSorted(x: real, v: seq<real>): (r: seq<real>)
    requires Sorted(v)
    ensures Sorted(r)
    ensures multiset(r) == multiset(v) + multiset{x}
  {
    if v == [] then [x]
    else if x <= v[0] then [x] + v
    else
      var rest := InsertSorted(x, v[1..]);
      assert v == [v[0]] + v[1..];
      assert forall y :: y in rest ==> v[0] <= y by {
        forall y | y in rest
          ensures v[0] <= y
        {
          assert y in multiset(rest);
          if y != x {
            assert y in multiset(v[1..]);
            var j :| 0 <= j < |v[1..]| && v[1..][j] == y;
            assert v[j + 1] == y;
          }
        }
      }
      assert Sorted([v[0]] + rest) by {
        var r := [v[0]] + rest;
        forall i, j | 0 <= i <= j < |r|
          ensures r[i] <= r[j]
        {
          if i == 0 {
            if j > 0 {
              assert r[j] == rest[j - 1];
              assert rest[j - 1] in rest;
            }
          } else {
            assert r[i] == rest[i - 1] && r[j] == rest[j - 1];
          }
        }
      }
      [v[0]] + rest
  }

  /** Ascending rearrangement of `xs`. */
  function Sort(xs: seq<real>): (v: seq<real>)
    ensures Sorted(v)
    ensures multiset(v) == multiset(xs)
  {
    if xs == [] then []
    else
      assert xs == [xs[0]] + xs[1..];
      InsertSorted(xs[0], Sort(xs[1..]))
  }

  lemma MulNonneg(x: real, y: real)
    requires 0.0 <= x && 0.0 <= y
    ensures 0.0 <= x * y
  {
  }

  /** Lower order-statistic index of the virtual position q*(n-1). */
  function LowerIndex(q: real, n: nat): (lo: int)
    requires 0.0 <= q <= 1.0
    requires n > 0
    ensures 0 <= lo < n
  {
    var pos := q * (n - 1) as real;
    assert 0.0 <= pos <= (n - 1) as real by {
      MulNonneg(q, (n - 1) as real);
      MulNonneg(1.0 - q, (n - 1) as real);
    }
    pos.Floor
  }

  /** Linear interpolation `a + f*(b-a)`, the value numpy reports between two
      neighbouring order statistics. */
  function Lerp(a: real, b: real, f: real): (t: real)
    requires a <= b
    requires 0.0 <= f <= 1.0
    ensures a <= t <= b
  {
    MulNonneg(f, b - a);
    MulNonneg(1.0 - f, b - a);
    a + f * (b - a)
  }

  /** Linear interpolation at position q*(n-1) in an ascending sequence. */
  function InterpolateSorted(v: seq<real>, q: real): (t: real)
    requires Sorted(v) && v != []
    requires 0.0 <= q <= 1.0
    ensures v[LowerIndex(q, |v|)] <= t
    ensures exists hi :: 0 <= hi < |v| && t <= v[hi]
  {
    var lo := LowerIndex(q, |v|);
    var hi := if lo + 1 < |v| then lo + 1 else lo;
    Lerp(v[lo], v[hi], q * (|v| - 1) as real - lo as real)
  }

  /** The `q`-quantile of `xs` by linear interpolation (numpy's method 7). */
  function Quantile(xs: seq<real>, q: real): (t: real)
    requires xs != []
    requires 0.0 <= q <= 1.0
    ensures exists i :: 0 <= i < |xs| && xs[i] <= t
    ensures exists j :: 0 <= j < |xs| && t <= xs[j]
  {
    var v := Sort(xs);
    var t := InterpolateSorted(v, q);
    var lo := LowerIndex(q, |v|);
    var hi :| 0 <= hi < |v| && t <= v[hi];
    assert v[lo] in multiset(xs) && v[hi] in multiset(xs) by {
      assert v[lo] in v && v[hi] in v;
    }
    assert v[lo] in xs && v[hi] in xs;
    t
  }

  /** How many values are at or below `t`. */
  function CountAtMost(xs: seq<real>, t: real): nat
  {
    if xs == [] then 0 else (if xs[0] <= t then 1 else 0) + CountAtMost(xs[1..], t)
  }

  lemma {:induction false} CountAtMostConcat(a: seq<real>, b: seq<real>, t: real)
    ensures CountAtMost(a + b, t) == CountAtMost(a, t) + CountAtMost(b, t)
    decreases |a|
  {
    if a == [] {
      assert a + b == b;
    } else {
      assert (a + b)[0] == a[0];
      assert (a + b)[1..] == a[1..] + b;
      CountAtMostConcat(a[1..], b, t);
    }
  }

  lemma RemoveAt(b: seq<real>, k: int)
    requires 0 <= k < |b|
    ensures multiset(b[..k] + b[k + 1..]) == multiset(b) - multiset{b[k]}
  {
    assert b == b[..k] + [b[k]] + b[k + 1..];
  }

  lemma CountAtMostRemove(b: seq<real>, k: int, t: real)
    requires 0 <= k < |b|
    ensures CountAtMost(b, t) == CountAtMost(b[..k] + b[k + 1..], t) + (if b[k] <= t then 1 else 0)
  {
    var front, back := b[..k], b[k + 1..];
    assert b == front + ([b[k]] + back);
    CountAtMostConcat(front, [b[k]] + back, t);
    CountAtMostConcat([b[k]], back, t);
    CountAtMostConcat(front, back, t);
  }

  /** The count does not depend on the order of the values. */
  lemma {:induction false} CountAtMostPermutation(a: seq<real>, b: seq<real>, t: real)
    requires multiset(a) == multiset(b)
    ensures CountAtMost(a, t) == CountAtMost(b, t)
    decreases |a|
  {
    if a == [] {
      assert |multiset(b)| == 0;
    } else {
      var x := a[0];
      assert a == [x] + a[1..];
      assert x in multiset(b);
      var k :| 0 <= k < |b| && b[k] == x;
      RemoveAt(b, k);
      CountAtMostRemove(b, k, t);
      CountAtMostPermutation(a[1..], b[..k] + b[k + 1..], t);
    }
  }

  lemma {:induction false} CountAtMostAll(xs: seq<real>, t: real)
    requires forall i :: 0 <= i < |xs| ==> xs[i] <= t
    ensures CountAtMost(xs, t) == |xs|
    decreases |xs|
  {
    if xs != [] {
      CountAtMostAll(xs[1..], t);
    }
  }

  /** The q-quantile has rank at least LowerIndex(q, n) + 1 = floor(q*(n-1)) + 1: that many of the n values
      are at or below it. In particular it is at least the minimum. */
  lemma QuantileRank(xs: seq<real>, q: real)
    requires xs != []
    requires 0.0 <= q <= 1.0
    ensures CountAtMost(xs, Quantile(xs, q)) >= LowerIndex(q, |xs|) + 1
  {
    var v := Sort(xs);
    var t := Quantile(xs, q);
    assert v[LowerIndex(q, |v|)] <= t;
    CountAtMostPermutation(xs, v, t);
    SortedRank(v, LowerIndex(q, |v|), t);
  }

  /** In an ascending sequence, a bound at or above position `lo` has at least
      `lo + 1` values at or below it. */
  lemma SortedRank(v: seq<real>, lo: int, t: real)
    requires Sorted(v)
    requires 0 <= lo < |v|
    requires v[lo] <= t
    ensures CountAtMost(v, t) >= lo + 1
  {
    var prefix := v[..lo + 1];
    assert v == prefix + v[lo + 1..];
    CountAtMostConcat(prefix, v[lo + 1..], t);
    forall i | 0 <= i < |prefix|
      ensures prefix[i] <= t
    {
      assert prefix[i] == v[i] <= v[lo];
    }
    CountAtMostAll(prefix, t);
  }
}
