/**
 Sorting by a real-valued key, and the order statistics of a sorted sequence.

 The source calls library sorts (`sort_by`, `sort_unstable`); only their contract matters:
 the output is ordered by key and is a permutation of the input.
 */
module Sorting {

  ghost predicate SortedByKey<T>(s: seq<T>, key: T -> real) {
    forall i, j :: 0 <= i < j < |s| ==> key(s[i]) <= key(s[j])
  }

  /** Stable insertion: `x` goes after every element whose key is not larger. */
  function InsertByKey<T>(s: seq<T>, x: T, key: T -> real): (t: seq<T>)
    ensures multiset(t) == multiset(s) + multiset{x}
    ensures |t| == |s| + 1
  {
    if s == [] then [x]
    else
      var n := |s| - 1;
      assert s == s[..n] + [s[n]];
      if key(s[n]) <= key(x) then s + [x] else InsertByKey(s[..n], x, key) + [s[n]]
  }

  lemma {:induction false} InsertByKeySorts<T>(s: seq<T>, x: T, key: T -> real)
    requires SortedByKey(s, key)
    ensures SortedByKey(InsertByKey(s, x, key), key)
  {
    if s != [] {
      var n := |s| - 1;
      if key(s[n]) > key(x) {
        var front := InsertByKey(s[..n], x, key);
        InsertByKeySorts(s[..n], x, key);
        forall i | 0 <= i < |front| ensures key(front[i]) <= key(s[n]) {
          assert front[i] in multiset(s[..n]) + multiset{x};
          assert front[i] in multiset(s[..n]) ==> front[i] in s[..n];
        }
      }
    }
  }

  function SortByKey<T>(s: seq<T>, key: T -> real): (t: seq<T>)
    ensures SortedByKey(t, key)
    ensures multiset(t) == multiset(s)
  {
    if s == [] then []
    else
      assert s == s[..|s| - 1] + [s[|s| - 1]];
      var front := SortByKey(s[..|s| - 1], key);
      InsertByKeySorts(front, s[|s| - 1], key);
      InsertByKey(front, s[|s| - 1], key)
  }

  ghost predicate IsSortOf(t: seq<real>, s: seq<real>) {
    && (forall i, j :: 0 <= i < j < |t| ==> t[i] <= t[j])
    && multiset(t) == multiset(s)
    && |t| == |s|
  }

  /** Sorting draws in increasing order, as `sort_by(f64::total_cmp)` does on NaN-free data. */
  function SortReals(s: seq<real>): (t: seq<real>)
    ensures IsSortOf(t, s)
  {
    var t := SortByKey(s, (x: real) => x);
    assert |multiset(t)| == |multiset(s)|;
    t
  }

  // ---------- order statistics ----------

  /** How many elements are at least `x`. */
  function CountAtLeast(s: seq<real>, x: real): nat {
    if s == [] then 0 else (if s[0] >= x then 1 else 0) + CountAtLeast(s[1..], x)
  }

  lemma {:induction false} CountAtLeastConcat(s: seq<real>, t: seq<real>, x: real)
    ensures CountAtLeast(s + t, x) == CountAtLeast(s, x) + CountAtLeast(t, x)
  {
    if s == [] {
      assert s + t == t;
    } else {
      assert (s + t)[1..] == s[1..] + t;
      CountAtLeastConcat(s[1..], t, x);
    }
  }

  /** Dropping one matching element from each side keeps two sequences permutations of each other. */
  lemma RemoveKeepsPermutation<T>(s: seq<T>, t: seq<T>, k: nat)
    requires multiset(s) == multiset(t)
    requires s != [] && k < |t| && t[k] == s[0]
    ensures multiset(s[1..]) == multiset(t[..k] + t[k + 1..])
  {
    assert s == [s[0]] + s[1..];
    assert t == t[..k] + [t[k]] + t[k + 1..];
    assert multiset(s) == multiset{s[0]} + multiset(s[1..]);
    assert multiset(t) == multiset(t[..k]) + multiset{t[k]} + multiset(t[k + 1..]);
    calc {
      multiset(s[1..]);
      multiset(s) - multiset{s[0]};
      multiset(t[..k]) + multiset(t[k + 1..]);
      multiset(t[..k] + t[k + 1..]);
    }
  }

  lemma {:induction false} CountAtLeastPermutation(s: seq<real>, t: seq<real>, x: real)
    requires multiset(s) == multiset(t)
    ensures CountAtLeast(s, x) == CountAtLeast(t, x)
  {
    if s == [] {
      assert |multiset(t)| == 0;
    } else {
      assert s == [s[0]] + s[1..];
      assert s[0] in multiset(t);
      var k :| 0 <= k < |t| && t[k] == s[0];
      RemoveKeepsPermutation(s, t, k);
      CountAtLeastPermutation(s[1..], t[..k] + t[k + 1..], x);
      CountAtLeastConcat(t[..k], t[k + 1..], x);
      CountAtLeastConcat(t[..k], [t[k]] + t[k + 1..], x);
      assert t == t[..k] + ([t[k]] + t[k + 1..]);
      assert ([t[k]] + t[k + 1..])[1..] == t[k + 1..];
    }
  }

  lemma {:induction false} CountAtLeastAll(s: seq<real>, x: real)
    requires forall i :: 0 <= i < |s| ==> s[i] >= x
    ensures CountAtLeast(s, x) == |s|
  {
    if s != [] { CountAtLeastAll(s[1..], x); }
  }

  lemma {:induction false} CountAtLeastNone(s: seq<real>, x: real)
    requires forall i :: 0 <= i < |s| ==> s[i] < x
    ensures CountAtLeast(s, x) == 0
  {
    if s != [] { CountAtLeastNone(s[1..], x); }
  }

  lemma {:induction false} CountAtLeastBound(s: seq<real>, x: real)
    ensures CountAtLeast(s, x) <= |s|
  {
    if s != [] { CountAtLeastBound(s[1..], x); }
  }

  lemma {:induction false} CountAtLeastPointwise(u: seq<real>, v: seq<real>, x: real)
    requires |u| == |v|
    requires forall r :: 0 <= r < |u| ==> u[r] >= v[r]
    ensures CountAtLeast(u, x) >= CountAtLeast(v, x)
  {
    if u != [] { CountAtLeastPointwise(u[1..], v[1..], x); }
  }

  /** In increasing order, position `k` reaches `x` exactly when few enough elements miss it. */
  lemma OrderStatisticByCount(t: seq<real>, k: nat, x: real)
    requires k < |t|
    requires forall i, j :: 0 <= i < j < |t| ==> t[i] <= t[j]
    ensures t[k] >= x <==> CountAtLeast(t, x) >= |t| - k
  {
    if t[k] >= x {
      var high := t[k..];
      assert t == t[..k] + high;
      CountAtLeastConcat(t[..k], high, x);
      forall i | 0 <= i < |high| ensures high[i] >= x {
        assert high[i] == t[k + i];
      }
      CountAtLeastAll(high, x);
    } else {
      var low := t[..k + 1];
      assert t == low + t[k + 1..];
      CountAtLeastConcat(low, t[k + 1..], x);
      forall i | 0 <= i < |low| ensures low[i] < x {
        assert low[i] == t[i] <= t[k];
      }
      CountAtLeastNone(low, x);
      CountAtLeastBound(t[k + 1..], x);
    }
  }

  /** How many elements are at most `x`. */
  function CountAtMost(s: seq<real>, x: real): nat {
    if s == [] then 0 else (if s[0] <= x then 1 else 0) + CountAtMost(s[1..], x)
  }

  lemma {:induction false} CountAtMostConcat(s: seq<real>, t: seq<real>, x: real)
    ensures CountAtMost(s + t, x) == CountAtMost(s, x) + CountAtMost(t, x)
  {
    if s == [] {
      assert s + t == t;
    } else {
      assert (s + t)[1..] == s[1..] + t;
      CountAtMostConcat(s[1..], t, x);
    }
  }

  lemma {:induction false} CountAtMostPermutation(s: seq<real>, t: seq<real>, x: real)
    requires multiset(s) == multiset(t)
    ensures CountAtMost(s, x) == CountAtMost(t, x)
  {
    if s == [] {
      assert |multiset(t)| == 0;
    } else {
      assert s == [s[0]] + s[1..];
      assert s[0] in multiset(t);
      var k :| 0 <= k < |t| && t[k] == s[0];
      RemoveKeepsPermutation(s, t, k);
      CountAtMostPermutation(s[1..], t[..k] + t[k + 1..], x);
      CountAtMostConcat(t[..k], t[k + 1..], x);
      CountAtMostConcat(t[..k], [t[k]] + t[k + 1..], x);
      assert t == t[..k] + ([t[k]] + t[k + 1..]);
      assert ([t[k]] + t[k + 1..])[1..] == t[k + 1..];
    }
  }

  lemma {:induction false} CountAtMostAll(s: seq<real>, x: real)
    requires forall i :: 0 <= i < |s| ==> s[i] <= x
    ensures CountAtMost(s, x) == |s|
  {
    if s != [] { CountAtMostAll(s[1..], x); }
  }

  /** Element `k` of the sorted sample has `k + 1` elements at or below it, itself included, and
      `n - k` at or above. */
  lemma OrderStatisticSplits(s: seq<real>, t: seq<real>, k: nat)
    requires IsSortOf(t, s) && k < |s|
    ensures CountAtMost(s, t[k]) >= k + 1 && CountAtLeast(s, t[k]) >= |s| - k
  {
    var low, high := t[..k + 1], t[k + 1..];
    assert t == low + high;
    CountAtMostPermutation(s, t, t[k]);
    CountAtMostConcat(low, high, t[k]);
    CountAtMostAll(low, t[k]);
    CountAtLeastPermutation(s, t, t[k]);
    OrderStatisticByCount(t, k, t[k]);
  }

  /** The sorted sample starts at its least element and ends at its greatest. */
  lemma SortedExtremes(s: seq<real>, t: seq<real>, i: nat)
    requires IsSortOf(t, s) && i < |s|
    ensures t[0] <= s[i] <= t[|s| - 1]
  {
    assert s[i] in multiset(t);
    var j :| 0 <= j < |t| && t[j] == s[i];
  }

  /** Pointwise domination carries over to every order statistic. */
  lemma OrderStatisticsDominate(u: seq<real>, v: seq<real>, su: seq<real>, sv: seq<real>, k: nat)
    requires |u| == |v| && (forall r :: 0 <= r < |u| ==> u[r] >= v[r])
    requires IsSortOf(su, u) && IsSortOf(sv, v) && k < |u|
    ensures su[k] >= sv[k]
  {
    var x := sv[k];
    OrderStatisticByCount(sv, k, x);
    CountAtLeastPermutation(v, sv, x);
    CountAtLeastPointwise(u, v, x);
    CountAtLeastPermutation(u, su, x);
    OrderStatisticByCount(su, k, x);
  }

  function Shift(v: seq<real>, c: real): (w: seq<real>)
    ensures |w| == |v|
    ensures forall r :: 0 <= r < |v| ==> w[r] == v[r] + c
  {
    seq(|v|, r requires 0 <= r < |v| => v[r] + c)
  }

  lemma {:induction false} CountAtLeastShift(v: seq<real>, c: real, x: real)
    ensures CountAtLeast(Shift(v, c), x + c) == CountAtLeast(v, x)
  {
    if v != [] {
      CountAtLeastShift(v[1..], c, x);
      assert Shift(v, c)[1..] == Shift(v[1..], c);
    }
  }

  /** Shifting every draw by a constant shifts every order statistic by that constant. */
  lemma OrderStatisticShift(v: seq<real>, c: real, sv: seq<real>, sw: seq<real>, k: nat)
    requires IsSortOf(sv, v) && IsSortOf(sw, Shift(v, c)) && k < |v|
    ensures sw[k] == sv[k] + c
  {
    ShiftReaches(v, sv, sw, c, k, sw[k] - c);
    ShiftReaches(v, sv, sw, c, k, sv[k]);
  }

  lemma ShiftReaches(v: seq<real>, sv: seq<real>, sw: seq<real>, c: real, k: nat, x: real)
    requires k < |v|
    requires IsSortOf(sv, v) && IsSortOf(sw, Shift(v, c))
    ensures sv[k] >= x <==> sw[k] >= x + c
  {
    CountAtLeastShift(v, c, x);
    CountAtLeastPermutation(v, sv, x);
    CountAtLeastPermutation(Shift(v, c), sw, x + c);
    OrderStatisticByCount(sv, k, x);
    OrderStatisticByCount(sw, k, x + c);
  }
}
