/** The dataframe operations the preprocessing pipeline uses, over sequences of rows:
    boolean-mask selection, column projection, inner merge on a string key,
    group-by-sum and distinct counting. */
module Frame {
  import opened Lexicographic

  // ---------------------------------------------------------------------------
  // Boolean-mask selection
  // ---------------------------------------------------------------------------

  /** The rows of `s` for which `keep` holds, in their original order. */
  function Where<T(==,!new)>(s: seq<T>, keep: T -> bool): (r: seq<T>)
    ensures |r| <= |s|
    ensures forall x :: x in r <==> x in s && keep(x)
  {
    if s == [] then []
    else
      assert forall x :: x in s <==> x == s[0] || x in s[1..] by {
        assert s == [s[0]] + s[1..];
      }
      (if keep(s[0]) then [s[0]] else []) + Where(s[1..], keep)
  }

  /** `idx` lists, in strictly increasing order, positions of `s` whose rows make up `r`. */
  ghost predicate Embeds<T>(r: seq<T>, s: seq<T>, idx: seq<int>) {
    && |idx| == |r|
    && (forall k :: 0 <= k < |idx| ==> 0 <= idx[k] < |s| && r[k] == s[idx[k]])
    && (forall k, m :: 0 <= k < m < |idx| ==> idx[k] < idx[m])
  }

  /** Mask selection keeps exactly the rows that pass, without reordering them:
      the result is the subsequence of `s` at the passing positions. */
  lemma {:induction false} WhereIsMask<T(!new)>(s: seq<T>, keep: T -> bool) returns (idx: seq<int>)
    ensures Embeds(Where(s, keep), s, idx)
    ensures forall i :: 0 <= i < |s| && keep(s[i]) ==> i in idx
  {
    if s == [] {
      idx := [];
    } else {
      var rest := WhereIsMask(s[1..], keep);
      var shifted := ShiftEmbeds(Where(s[1..], keep), s, rest);
      var r' := Where(s[1..], keep);
      if keep(s[0]) {
        idx := [0] + shifted;
        assert Where(s, keep) == [s[0]] + r';
        PrependEmbeds(r', s, shifted);
      } else {
        idx := shifted;
        assert Where(s, keep) == r';
      }
      assert forall j :: j in shifted ==> j in idx;
      forall i | 0 < i < |s| && keep(s[i])
        ensures i in idx
      {
        assert s[1..][i - 1] == s[i];
        assert i - 1 in rest;
      }
    }
  }

  /** An embedding into the tail of `s` is, shifted by one, an embedding into `s`. */
  lemma ShiftEmbeds<T>(r: seq<T>, s: seq<T>, rest: seq<int>) returns (shifted: seq<int>)
    requires s != []
    requires Embeds(r, s[1..], rest)
    ensures Embeds(r, s, shifted)
    ensures |shifted| == |rest|
    ensures forall k :: 0 <= k < |rest| ==> shifted[k] == rest[k] + 1
    ensures forall j :: j in rest ==> j + 1 in shifted
  {
    shifted := seq(|rest|, k requires 0 <= k < |rest| => rest[k] + 1);
    forall k | 0 <= k < |shifted|
      ensures 0 <= shifted[k] < |s| && r[k] == s[shifted[k]]
    {
      assert s[1..][rest[k]] == s[rest[k] + 1];
    }
    forall j | j in rest
      ensures j + 1 in shifted
    {
      var k :| 0 <= k < |rest| && rest[k] == j;
      assert shifted[k] == j + 1;
    }
  }

  /** Position 0 can go in front of an embedding into `s` that avoids it. */
  lemma PrependEmbeds<T>(r: seq<T>, s: seq<T>, idx: seq<int>)
    requires s != []
    requires Embeds(r, s, idx)
    requires forall k :: 0 <= k < |idx| ==> idx[k] >= 1
    ensures Embeds([s[0]] + r, s, [0] + idx)
  {
    var r2, idx2 := [s[0]] + r, [0] + idx;
    forall k | 0 <= k < |idx2|
      ensures 0 <= idx2[k] < |s| && r2[k] == s[idx2[k]]
    {
      if k > 0 {
        assert idx2[k] == idx[k - 1] && r2[k] == r[k - 1];
      }
    }
    forall k, m | 0 <= k < m < |idx2|
      ensures idx2[k] < idx2[m]
    {
      if k > 0 {
        assert idx2[k] == idx[k - 1] && idx2[m] == idx[m - 1];
      } else {
        assert idx2[m] == idx[m - 1];
      }
    }
  }

  // ---------------------------------------------------------------------------
  // Column projection
  // ---------------------------------------------------------------------------

  function Column<T, U>(s: seq<T>, f: T -> U): (c: seq<U>)
    ensures |c| == |s|
    ensures forall i :: 0 <= i < |s| ==> c[i] == f(s[i])
  {
    seq(|s|, i requires 0 <= i < |s| => f(s[i]))
  }

  // ---------------------------------------------------------------------------
  // Inner merge on a string key
  // ---------------------------------------------------------------------------

  /** How many rows of `right` carry the key `k`. */
  function CountKey<R>(right: seq<R>, rk: R -> string, k: string): nat
  {
    if right == [] then 0 else (if rk(right[0]) == k then 1 else 0) + CountKey(right[1..], rk, k)
  }

  /** The size of an inner join: for each left row, the number of right rows with its key. */
  function JoinSize<L, R>(left: seq<L>, right: seq<R>, lk: L -> string, rk: R -> string): nat
  {
    if left == [] then 0 else CountKey(right, rk, lk(left[0])) + JoinSize(left[1..], right, lk, rk)
  }

  /** The rows `pair(l, r)` for each `r` of `right` whose key equals the key of `l`. */
  function MatchesOf<L, R(==,!new), O(==,!new)>(l: L, right: seq<R>, lk: L -> string, rk: R -> string,
                                      pair: (L, R) -> O): (out: seq<O>)
    ensures forall o :: o in out <==> exists r :: r in right && lk(l) == rk(r) && o == pair(l, r)
    ensures |out| == CountKey(right, rk, lk(l))
  {
    if right == [] then []
    else
      assert forall r :: r in right <==> r == right[0] || r in right[1..] by {
        assert right == [right[0]] + right[1..];
      }
      (if lk(l) == rk(right[0]) then [pair(l, right[0])] else []) + MatchesOf(l, right[1..], lk, rk, pair)
  }

  /** Inner join: one output row per matching (left, right) pair, left-major. */
  function InnerJoin<L(==,!new), R(==,!new), O(==,!new)>(left: seq<L>, right: seq<R>, lk: L -> string, rk: R -> string,
                                          pair: (L, R) -> O): (out: seq<O>)
    ensures forall o :: o in out ==>
      exists l, r :: l in left && r in right && lk(l) == rk(r) && o == pair(l, r)
    ensures forall l, r :: l in left && r in right && lk(l) == rk(r) ==> pair(l, r) in out
    ensures |out| == JoinSize(left, right, lk, rk)
  {
    if left == [] then []
    else
      assert forall l :: l in left <==> l == left[0] || l in left[1..] by {
        assert left == [left[0]] + left[1..];
      }
      MatchesOf(left[0], right, lk, rk, pair) + InnerJoin(left[1..], right, lk, rk, pair)
  }

  lemma {:induction false} WhereConcat<T(!new)>(a: seq<T>, b: seq<T>, keep: T -> bool)
    ensures Where(a + b, keep) == Where(a, keep) + Where(b, keep)
    decreases |a|
  {
    if a == [] {
      assert a + b == b;
    } else {
      var head := if keep(a[0]) then [a[0]] else [];
      var ab := a + b;
      assert ab[0] == a[0] && ab[1..] == a[1..] + b;
      WhereConcat(a[1..], b, keep);
      calc {
        Where(ab, keep);
        head + Where(a[1..] + b, keep);
        head + (Where(a[1..], keep) + Where(b, keep));
        (head + Where(a[1..], keep)) + Where(b, keep);
      }
    }
  }

  lemma {:induction false} WhereIdempotent<T(!new)>(s: seq<T>, keep: T -> bool)
    ensures Where(Where(s, keep), keep) == Where(s, keep)
    decreases |s|
  {
    if s != [] {
      WhereIdempotent(s[1..], keep);
      var head := if keep(s[0]) then [s[0]] else [];
      WhereConcat(head, Where(s[1..], keep), keep);
    }
  }

  /** Two mask selections can be applied in either order. */
  lemma {:induction false} WhereCommute<T(!new)>(s: seq<T>, p: T -> bool, q: T -> bool)
    ensures Where(Where(s, p), q) == Where(Where(s, q), p)
    decreases |s|
  {
    if s != [] {
      var x := s[0];
      WhereCommute(s[1..], p, q);
      var hp := if p(x) then [x] else [];
      var hq := if q(x) then [x] else [];
      WhereConcat(hp, Where(s[1..], p), q);
      WhereConcat(hq, Where(s[1..], q), p);
      assert Where(hp, q) == Where(hq, p) by {
        assert [x][1..] == [];
      }
    }
  }

  /** Selecting with a mask every row passes changes nothing. */
  lemma {:induction false} WhereAll<T(!new)>(s: seq<T>, keep: T -> bool)
    requires forall x :: x in s ==> keep(x)
    ensures Where(s, keep) == s
    decreases |s|
  {
    if s != [] {
      assert s[0] in s;
      assert forall x :: x in s[1..] ==> x in s;
      WhereAll(s[1..], keep);
      assert s == [s[0]] + s[1..];
    }
  }

  /** The mask "key equals `k`". */
  function KeyEquals<R>(rk: R -> string, k: string): R -> bool
  {
    (r: R) => rk(r) == k
  }

  lemma {:induction false} CountKeyIsWhereLength<R(!new)>(s: seq<R>, rk: R -> string, k: string)
    ensures CountKey(s, rk, k) == |Where(s, KeyEquals(rk, k))|
    decreases |s|
  {
    if s != [] {
      CountKeyIsWhereLength(s[1..], rk, k);
    }
  }

  /** A key that occurs once selects exactly the row that carries it. */
  lemma WhereUniqueKey<R(!new)>(s: seq<R>, rk: R -> string, k: string, x: R)
    requires CountKey(s, rk, k) == 1
    requires x in s && rk(x) == k
    ensures Where(s, KeyEquals(rk, k)) == [x]
  {
    CountKeyIsWhereLength(s, rk, k);
    var w := Where(s, KeyEquals(rk, k));
    assert x in w;
  }

  /** When every left row matches exactly one right row, the join has one row per
      left row. */
  lemma {:induction false} JoinEachOnce<L, R>(left: seq<L>, right: seq<R>, lk: L -> string, rk: R -> string)
    requires forall l :: l in left ==> CountKey(right, rk, lk(l)) == 1
    ensures JoinSize(left, right, lk, rk) == |left|
    decreases |left|
  {
    if left != [] {
      assert left[0] in left;
      assert forall l :: l in left[1..] ==> l in left;
      JoinEachOnce(left[1..], right, lk, rk);
    }
  }

  lemma {:induction false} WhereMatches<L, R(!new), O(!new)>(l: L, right: seq<R>, lk: L -> string, rk: R -> string,
                                                        pair: (L, R) -> O, keep: O -> bool, passes: bool)
    requires forall r :: keep(pair(l, r)) == passes
    ensures Where(MatchesOf(l, right, lk, rk, pair), keep) == if passes then MatchesOf(l, right, lk, rk, pair) else []
    decreases |right|
  {
    if right != [] {
      var head := if lk(l) == rk(right[0]) then [pair(l, right[0])] else [];
      WhereConcat(head, MatchesOf(l, right[1..], lk, rk, pair), keep);
      WhereMatches(l, right[1..], lk, rk, pair, keep, passes);
    }
  }

  /** Filtering the joined rows on a property decided by the left row alone is the
      same as filtering the left table first and then joining. */
  lemma {:induction false} WhereInnerJoin<L(!new), R(!new), O(!new)>(left: seq<L>, right: seq<R>, lk: L -> string,
                                                              rk: R -> string, pair: (L, R) -> O,
                                                              keepLeft: L -> bool, keep: O -> bool)
    requires forall l, r :: keep(pair(l, r)) == keepLeft(l)
    ensures Where(InnerJoin(left, right, lk, rk, pair), keep)
         == InnerJoin(Where(left, keepLeft), right, lk, rk, pair)
    decreases |left|
  {
    if left != [] {
      var m := MatchesOf(left[0], right, lk, rk, pair);
      var tail := InnerJoin(left[1..], right, lk, rk, pair);
      assert InnerJoin(left, right, lk, rk, pair) == m + tail;
      WhereConcat(m, tail, keep);
      WhereMatches(left[0], right, lk, rk, pair, keep, keepLeft(left[0]));
      WhereInnerJoin(left[1..], right, lk, rk, pair, keepLeft, keep);
      var kept := Where(left[1..], keepLeft);
      if keepLeft(left[0]) {
        assert Where(left, keepLeft) == [left[0]] + kept;
        assert ([left[0]] + kept)[1..] == kept;
        assert InnerJoin([left[0]] + kept, right, lk, rk, pair) == m + InnerJoin(kept, right, lk, rk, pair);
      } else {
        assert Where(left, keepLeft) == kept;
      }
    }
  }

  lemma ColumnConcat<T, U>(a: seq<T>, b: seq<T>, f: T -> U)
    ensures Column(a + b, f) == Column(a, f) + Column(b, f)
  {
  }

  /** The matches of one left row are the right rows carrying its key, in their
      order, each paired with it: one output row per matching right row. */
  lemma {:induction false} MatchesOfIsSelection<L, R(!new), O(!new)>(l: L, right: seq<R>, lk: L -> string,
                                                              rk: R -> string, pair: (L, R) -> O)
    ensures MatchesOf(l, right, lk, rk, pair)
         == Column(Where(right, KeyEquals(rk, lk(l))), (r: R) => pair(l, r))
    decreases |right|
  {
    var sameKey := KeyEquals(rk, lk(l));
    var withL := (r: R) => pair(l, r);
    if right != [] {
      MatchesOfIsSelection(l, right[1..], lk, rk, pair);
      var rest := Where(right[1..], sameKey);
      if lk(l) == rk(right[0]) {
        assert sameKey(right[0]);
        assert Where(right, sameKey) == [right[0]] + rest;
        ColumnConcat([right[0]], rest, withL);
      } else {
        assert !sameKey(right[0]);
        assert Where(right, sameKey) == rest;
      }
    }
  }

  /** Joining a concatenated left table joins each part and concatenates: the
      result holds, for each left row in turn, exactly that row's matches. */
  lemma {:induction false} InnerJoinConcat<L(!new), R(!new), O(!new)>(a: seq<L>, b: seq<L>, right: seq<R>, lk: L -> string,
                                                   rk: R -> string, pair: (L, R) -> O)
    ensures InnerJoin(a + b, right, lk, rk, pair)
         == InnerJoin(a, right, lk, rk, pair) + InnerJoin(b, right, lk, rk, pair)
    decreases |a|
  {
    if a == [] {
      assert a + b == b;
    } else {
      var ab := a + b;
      assert ab[0] == a[0] && ab[1..] == a[1..] + b;
      InnerJoinConcat(a[1..], b, right, lk, rk, pair);
    }
  }

  /** Joining a single left row yields exactly its matching right rows, in their
      order, each paired with it. */
  lemma InnerJoinOfOne<L(!new), R(!new), O(!new)>(l: L, right: seq<R>, lk: L -> string, rk: R -> string,
                                           pair: (L, R) -> O)
    ensures InnerJoin([l], right, lk, rk, pair)
         == Column(Where(right, KeyEquals(rk, lk(l))), (r: R) => pair(l, r))
  {
    assert [l][1..] == [];
    MatchesOfIsSelection(l, right, lk, rk, pair);
  }

  // ---------------------------------------------------------------------------
  // Group-by-sum
  // ---------------------------------------------------------------------------

  /** A (key, value) pair: a row of a two-column frame. */
  datatype Entry = Entry(key: string, value: real)

  /** Sum of the values of the rows whose key is `k`. */
  function SumFor(es: seq<Entry>, k: string): real
  {
    if es == [] then 0.0
    else (if es[0].key == k then es[0].value else 0.0) + SumFor(es[1..], k)
  }

  /** Sum of the whole value column. */
  function Total(es: seq<Entry>): real
  {
    if es == [] then 0.0 else es[0].value + Total(es[1..])
  }

  /** One row per key of `ks`, holding that key's summed value. */
  function GroupRows(ks: seq<string>, es: seq<Entry>): (g: seq<Entry>)
    ensures |g| == |ks|
    ensures forall i :: 0 <= i < |g| ==> g[i].key == ks[i] && g[i].value == SumFor(es, ks[i])
  {
    if ks == [] then [] else [Entry(ks[0], SumFor(es, ks[0]))] + GroupRows(ks[1..], es)
  }

  function KeyOf(e: Entry): string { e.key }

  /** The set of keys occurring in a two-column frame. */
  function Keys(es: seq<Entry>): set<string>
  {
    set e | e in es :: e.key
  }

  lemma {:induction false} CountKeyAbsent<R>(s: seq<R>, rk: R -> string, k: string)
    requires forall i :: 0 <= i < |s| ==> rk(s[i]) != k
    ensures CountKey(s, rk, k) == 0
    decreases |s|
  {
    if s != [] {
      CountKeyAbsent(s[1..], rk, k);
    }
  }

  /** In a frame with strictly ascending keys, a key that occurs occurs exactly once. */
  lemma {:induction false} AscendingKeyOnce(es: seq<Entry>, k: string)
    requires forall i, j :: 0 <= i < j < |es| ==> Below(es[i].key, es[j].key)
    requires k in Keys(es)
    ensures CountKey(es, KeyOf, k) == 1
    decreases |es|
  {
    var t := es[1..];
    if es[0].key == k {
      forall i | 0 <= i < |t|
        ensures KeyOf(t[i]) != k
      {
        assert t[i] == es[i + 1];
        BelowIrreflexive(k);
      }
      CountKeyAbsent(t, KeyOf, k);
    } else {
      var e :| e in es && e.key == k;
      var j :| 0 <= j < |es| && es[j] == e;
      assert t[j - 1] == e;
      AscendingKeyOnce(t, k);
    }
  }

  lemma KeysOfColumn(es: seq<Entry>, ks: seq<string>)
    requires forall k :: k in ks <==> k in Column(es, KeyOf)
    ensures forall k :: k in ks <==> k in Keys(es)
  {
    var c := Column(es, KeyOf);
    forall k | k in ks
      ensures k in Keys(es)
    {
      var j :| 0 <= j < |c| && c[j] == k;
      assert es[j] in es;
    }
    forall e | e in es
      ensures e.key in ks
    {
      var j :| 0 <= j < |es| && es[j] == e;
      assert c[j] == e.key;
    }
  }

  lemma GroupRowsKeys(ks: seq<string>, es: seq<Entry>)
    ensures Keys(GroupRows(ks, es)) == set k | k in ks
  {
    var g := GroupRows(ks, es);
    forall k | k in ks
      ensures k in Keys(g)
    {
      var i :| 0 <= i < |ks| && ks[i] == k;
      assert g[i] in g;
    }
  }

  /** Grouping by key and summing: one row per distinct key, keys ascending,
      each carrying the sum of that key's values. */
  function GroupSum(es: seq<Entry>): (g: seq<Entry>)
    ensures forall i, j :: 0 <= i < j < |g| ==> Below(g[i].key, g[j].key)
    ensures Keys(g) == Keys(es)
    ensures forall i :: 0 <= i < |g| ==> g[i].value == SumFor(es, g[i].key)
  {
    var ks := SortedUnique(Column(es, KeyOf));
    KeysOfColumn(es, ks);
    GroupRowsKeys(ks, es);
    GroupRows(ks, es)
  }

  /** Sum over the keys `ks` of the indicator contribution of one row. */
  function SumOverKeys(ks: seq<string>, es: seq<Entry>): real
  {
    if ks == [] then 0.0 else SumFor(es, ks[0]) + SumOverKeys(ks[1..], es)
  }

  lemma {:induction false} TotalGroupRows(ks: seq<string>, es: seq<Entry>)
    ensures Total(GroupRows(ks, es)) == SumOverKeys(ks, es)
    decreases |ks|
  {
    if ks != [] {
      assert GroupRows(ks, es)[1..] == GroupRows(ks[1..], es);
      TotalGroupRows(ks[1..], es);
    }
  }

  function Indicator(ks: seq<string>, k: string, v: real): real
  {
    if ks == [] then 0.0 else (if ks[0] == k then v else 0.0) + Indicator(ks[1..], k, v)
  }

  lemma {:induction false} IndicatorOnce(ks: seq<string>, k: string, v: real)
    requires Ascending(ks)
    ensures Indicator(ks, k, v) == if k in ks then v else 0.0
    decreases |ks|
  {
    if ks != [] {
      assert Ascending(ks[1..]);
      IndicatorOnce(ks[1..], k, v);
      if ks[0] == k {
        forall j | 0 <= j < |ks[1..]|
          ensures ks[1..][j] != k
        {
          AscendingDistinct(ks, 0, j + 1);
        }
      } else {
        assert k in ks <==> k in ks[1..] by {
          assert ks == [ks[0]] + ks[1..];
        }
      }
    }
  }

  lemma {:induction false} SumOverKeysStep(ks: seq<string>, es: seq<Entry>)
    requires es != []
    ensures SumOverKeys(ks, es) == Indicator(ks, es[0].key, es[0].value) + SumOverKeys(ks, es[1..])
    decreases |ks|
  {
    if ks != [] {
      SumOverKeysStep(ks[1..], es);
    }
  }

  lemma {:induction false} SumOverKeysEmpty(ks: seq<string>)
    ensures SumOverKeys(ks, []) == 0.0
    decreases |ks|
  {
    if ks != [] {
      SumOverKeysEmpty(ks[1..]);
    }
  }

  /** Summing per-key group totals over distinct keys that cover every row's key
      gives back the total of the whole value column: grouping loses nothing and
      counts nothing twice. */
  lemma {:induction false} GroupTotalsConserve(ks: seq<string>, es: seq<Entry>)
    requires Ascending(ks)
    requires forall e :: e in es ==> e.key in ks
    ensures Total(GroupRows(ks, es)) == Total(es)
    decreases |es|
  {
    TotalGroupRows(ks, es);
    if es == [] {
      SumOverKeysEmpty(ks);
    } else {
      SumOverKeysStep(ks, es);
      IndicatorOnce(ks, es[0].key, es[0].value);
      assert es[0] in es;
      forall e | e in es[1..]
        ensures e.key in ks
      {
        assert e in es;
      }
      GroupTotalsConserve(ks, es[1..]);
      TotalGroupRows(ks, es[1..]);
    }
  }

  /** Group-by-sum preserves the column total. */
  lemma GroupSumConservesTotal(es: seq<Entry>)
    ensures Total(GroupSum(es)) == Total(es)
  {
    var ks := SortedUnique(Column(es, KeyOf));
    KeysOfColumn(es, ks);
    assert forall e :: e in es ==> e.key in Keys(es);
    GroupTotalsConserve(ks, es);
  }

  // ---------------------------------------------------------------------------
  // Distinct count
  // ---------------------------------------------------------------------------

  function NUnique(xs: seq<string>): (n: nat)
    ensures n == |set x | x in xs|
    ensures n <= |xs|
    ensures xs != [] ==> 1 <= n
  {
    if xs == [] then 0
    else
      var rest := NUnique(xs[1..]);
      var tail := set x | x in xs[1..];
      assert (set x | x in xs) == {xs[0]} + tail by {
        assert xs == [xs[0]] + xs[1..];
      }
      if xs[0] in xs[1..] then
        assert {xs[0]} + tail == tail;
        rest
      else
        assert xs[0] !in tail;
        1 + rest
  }
}
