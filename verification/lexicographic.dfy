/** Code-point (lexicographic) order on strings, the order Python uses to compare
    `str` values and therefore the order in which a pandas `groupby` emits its keys. */
module Lexicographic {

  /** Strict order: `a` sorts before `b`. A proper prefix sorts first. */
  predicate Below(a: string, b: string)
    decreases |a|
  {
    if |a| == 0 then |b| > 0
    else if |b| == 0 then false
    else a[0] < b[0] || (a[0] == b[0] && Below(a[1..], b[1..]))
  }

  lemma {:induction false} BelowIrreflexive(a: string)
    ensures !Below(a, a)
    decreases |a|
  {
    if |a| > 0 {
      BelowIrreflexive(a[1..]);
    }
  }

  lemma {:induction false} BelowTransitive(a: string, b: string, c: string)
    requires Below(a, b) && Below(b, c)
    ensures Below(a, c)
    decreases |a|
  {
    if |a| > 0 && a[0] == b[0] && b[0] == c[0] {
      BelowTransitive(a[1..], b[1..], c[1..]);
    }
  }

  lemma {:induction false} BelowTotal(a: string, b: string)
    ensures a == b || Below(a, b) || Below(b, a)
    decreases |a|
  {
    if |a| > 0 && |b| > 0 && a[0] == b[0] {
      BelowTotal(a[1..], b[1..]);
      if a[1..] == b[1..] {
        assert a == [a[0]] + a[1..];
        assert b == [b[0]] + b[1..];
      }
    }
  }

  /** Strictly ascending: sorted, and therefore free of duplicates. */
  predicate Ascending(s: seq<string>) {
    forall i, j :: 0 <= i < j < |s| ==> Below(s[i], s[j])
  }

  lemma AscendingDistinct(s: seq<string>, i: int, j: int)
    requires Ascending(s)
    requires 0 <= i < j < |s|
    ensures s[i] != s[j]
  {
    BelowIrreflexive(s[i]);
  }

  lemma ConsAscending(h: string, t: seq<string>)
    requires Ascending(t)
    requires forall y :: y in t ==> Below(h, y)
    ensures Ascending([h] + t)
  {
    var s := [h] + t;
    forall i, j | 0 <= i < j < |s|
      ensures Below(s[i], s[j])
    {
      if i == 0 {
        assert s[j] == t[j - 1];
      } else {
        assert s[i] == t[i - 1] && s[j] == t[j - 1];
      }
    }
  }

  /** Adds `x` to a strictly ascending sequence, keeping it strictly ascending. */
  function Insert(x: string, s: seq<string>): (r: seq<string>)
    requires Ascending(s)
    ensures Ascending(r)
    ensures forall y :: y in r <==> y == x || y in s
  {
    if s == [] then [x]
    else if x == s[0] then s
    else if Below(x, s[0]) then
      assert forall y :: y in s ==> Below(x, y) by {
        forall y | y in s
          ensures Below(x, y)
        {
          var j :| 0 <= j < |s| && s[j] == y;
          if j > 0 {
            BelowTransitive(x, s[0], y);
          }
        }
      }
      ConsAscending(x, s);
      [x] + s
    else
      BelowTotal(x, s[0]);
      var rest := Insert(x, s[1..]);
      assert forall y :: y in rest ==> Below(s[0], y) by {
        forall y | y in rest
          ensures Below(s[0], y)
        {
          if y != x {
            var j :| 1 <= j < |s| && s[j] == y;
          }
        }
      }
      ConsAscending(s[0], rest);
      [s[0]] + rest
  }

  /** The keys a `groupby` produces: each distinct value once, in ascending order. */
  function SortedUnique(xs: seq<string>): (keys: seq<string>)
    ensures Ascending(keys)
    ensures forall y :: y in keys <==> y in xs
  {
    if xs == [] then []
    else
      assert forall y :: y in xs <==> y == xs[0] || y in xs[1..] by {
        assert xs == [xs[0]] + xs[1..];
      }
      Insert(xs[0], SortedUnique(xs[1..]))
  }

  /** A strictly ascending sequence lists each of its values exactly once. */
  lemma {:induction false} AscendingCardinality(s: seq<string>)
    requires Ascending(s)
    ensures |set x | x in s| == |s|
    decreases |s|
  {
    if s != [] {
      var t := s[1..];
      assert Ascending(t);
      AscendingCardinality(t);
      var tail := set x | x in t;
      assert (set x | x in s) == {s[0]} + tail by {
        assert s == [s[0]] + t;
      }
      assert s[0] !in tail by {
        if s[0] in t {
          var j :| 0 <= j < |t| && t[j] == s[0];
          AscendingDistinct(s, 0, j + 1);
        }
      }
    }
  }
}
