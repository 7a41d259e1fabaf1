/**
 The single-feature Mann-Whitney AUC (crates/adversary/src/flow_classifier.rs).

 The program ranks the pooled sample once and sums mid-ranks; the statistic it stands for is
 defined pairwise. Feature values are exact reals (no NaN, no rounding), and ranks are counted
 in halves so that a tie's half credit is a whole number.
 */
module MannWhitney {
  import opened Sorting

  /** Half-credits `x` earns against `y`: two for a win, one for a tie. */
  function Credit(x: real, y: real): nat {
    if x > y then 2 else if x == y then 1 else 0
  }

  function CreditOver(x: real, ys: seq<real>): nat {
    if ys == [] then 0 else Credit(x, ys[0]) + CreditOver(x, ys[1..])
  }

  /** Half-credits of class `a` over class `b`, summed over all pairs. */
  function PairwiseCredit(a: seq<real>, b: seq<real>): nat {
    if a == [] then 0 else CreditOver(a[0], b) + PairwiseCredit(a[1..], b)
  }

  /** The O(n*m) definition: P(a > b) + P(a == b) / 2, and one half when a class is empty. */
  function Auc(a: seq<real>, b: seq<real>): real {
    if a == [] || b == [] then 0.5
    else PairwiseCredit(a, b) as real / (2 * |a| * |b|) as real
  }

  /** The accuracy of the better of the two threshold directions. */
  function Folded(auc: real): (acc: real)
    ensures acc >= auc && acc >= 1.0 - auc && (acc == auc || acc == 1.0 - auc)
  {
    if auc >= 1.0 - auc then auc else 1.0 - auc
  }

  // ---------- the pairwise statistic ----------

  lemma {:induction false} CreditOverSplit(x: real, ys: seq<real>, zs: seq<real>)
    ensures CreditOver(x, ys + zs) == CreditOver(x, ys) + CreditOver(x, zs)
  {
    if ys == [] {
      assert ys + zs == zs;
    } else {
      assert (ys + zs)[1..] == ys[1..] + zs;
      CreditOverSplit(x, ys[1..], zs);
    }
  }

  /** Adding `y` to the second class adds what every member of the first earns against it. */
  lemma {:induction false} PairwiseCreditCons(a: seq<real>, y: real, b: seq<real>)
    ensures PairwiseCredit(a, [y] + b) + CreditOver(y, a) == PairwiseCredit(a, b) + 2 * |a|
  {
    if a != [] {
      assert ([y] + b)[1..] == b;
      PairwiseCreditCons(a[1..], y, b);
    }
  }

  /** Every pair hands out exactly two half-credits, one side or the other. */
  lemma {:induction false} PairwiseCreditComplement(a: seq<real>, b: seq<real>)
    ensures PairwiseCredit(a, b) + PairwiseCredit(b, a) == 2 * |a| * |b|
  {
    if b == [] {
      PairwiseCreditEmpty(a);
    } else {
      assert b == [b[0]] + b[1..];
      PairwiseCreditCons(a, b[0], b[1..]);
      PairwiseCreditComplement(a, b[1..]);
      assert 2 * |a| * |b| == 2 * |a| * |b[1..]| + 2 * |a|;
    }
  }

  lemma {:induction false} PairwiseCreditEmpty(a: seq<real>)
    ensures PairwiseCredit(a, []) == 0
  {
    if a != [] { PairwiseCreditEmpty(a[1..]); }
  }

  /** Swapping the classes mirrors the statistic around one half. */
  lemma AucComplement(a: seq<real>, b: seq<real>)
    ensures Auc(a, b) + Auc(b, a) == 1.0
  {
    if a != [] && b != [] {
      PairwiseCreditComplement(a, b);
      PairsEitherWay(|a|, |b|);
      SharesOfWhole(PairwiseCredit(a, b), PairwiseCredit(b, a), 2 * |a| * |b|);
    }
  }

  lemma PairsEitherWay(m: nat, n: nat)
    requires m > 0 && n > 0
    ensures 2 * m * n == 2 * n * m > 0
  {
  }

  lemma SharesOfWhole(p: nat, q: nat, d: nat)
    requires p + q == d > 0
    ensures p as real / d as real + q as real / d as real == 1.0
  {
    var x := d as real;
    assert p as real + q as real == x;
    SumOfShares(p as real, q as real, x);
  }

  lemma SumOfShares(p: real, q: real, x: real)
    requires x > 0.0 && p + q == x
    ensures p / x + q / x == 1.0
  {
    assert p / x + q / x == (p + q) / x;
  }

  lemma AucInUnitInterval(a: seq<real>, b: seq<real>)
    ensures 0.0 <= Auc(a, b) <= 1.0
  {
    if a != [] && b != [] {
      QuotientNonNegative(PairwiseCredit(a, b), 2 * |a| * |b|);
      QuotientNonNegative(PairwiseCredit(b, a), 2 * |b| * |a|);
      AucComplement(a, b);
    }
  }

  lemma QuotientNonNegative(p: nat, d: int)
    requires d > 0
    ensures p as real / d as real >= 0.0
  {
  }

  lemma FoldedIsSymmetric(a: seq<real>, b: seq<real>)
    ensures Folded(Auc(a, b)) == Folded(Auc(b, a))
    ensures 0.5 <= Folded(Auc(a, b)) <= 1.0
  {
    AucComplement(a, b);
    AucInUnitInterval(a, b);
  }

  // ---------- ranks of the pooled sample ----------

  /** A pooled value and whether it came from class A. */
  datatype Tagged = Tagged(value: real, isA: bool)

  function Tag(s: seq<real>, isA: bool): (t: seq<Tagged>)
    ensures |t| == |s|
    ensures forall i :: 0 <= i < |s| ==> t[i] == Tagged(s[i], isA)
  {
    seq(|s|, i requires 0 <= i < |s| => Tagged(s[i], isA))
  }

  function CreditAmong(x: real, pool: seq<Tagged>): nat {
    if pool == [] then 0 else Credit(x, pool[0].value) + CreditAmong(x, pool[1..])
  }

  /** Twice the 1-based mid-rank of `x` in `pool`. */
  function DoubledRank(x: real, pool: seq<Tagged>): nat {
    CreditAmong(x, pool) + 1
  }

  /** Twice the rank sum of the class-A members of `part`, ranked within `pool`. */
  function DoubledRankSum(part: seq<Tagged>, pool: seq<Tagged>): nat {
    if part == [] then 0
    else (if part[0].isA then DoubledRank(part[0].value, pool) else 0) + DoubledRankSum(part[1..], pool)
  }

  lemma {:induction false} CreditAmongSplit(x: real, s: seq<Tagged>, t: seq<Tagged>)
    ensures CreditAmong(x, s + t) == CreditAmong(x, s) + CreditAmong(x, t)
  {
    if s == [] {
      assert s + t == t;
    } else {
      assert (s + t)[1..] == s[1..] + t;
      CreditAmongSplit(x, s[1..], t);
    }
  }

  lemma {:induction false} CreditAmongPermutation(x: real, s: seq<Tagged>, t: seq<Tagged>)
    requires multiset(s) == multiset(t)
    ensures CreditAmong(x, s) == CreditAmong(x, t)
  {
    if s == [] {
      assert |multiset(t)| == 0;
    } else {
      assert s[0] in multiset(t);
      var k :| 0 <= k < |t| && t[k] == s[0];
      RemoveKeepsPermutation(s, t, k);
      CreditAmongPermutation(x, s[1..], t[..k] + t[k + 1..]);
      CreditAmongSplit(x, t[..k], t[k + 1..]);
      CreditAmongSplit(x, t[..k], t[k..]);
      assert t == t[..k] + t[k..];
    }
  }

  lemma {:induction false} DoubledRankSumSplit(s: seq<Tagged>, t: seq<Tagged>, pool: seq<Tagged>)
    ensures DoubledRankSum(s + t, pool) == DoubledRankSum(s, pool) + DoubledRankSum(t, pool)
  {
    if s == [] {
      assert s + t == t;
    } else {
      assert (s + t)[1..] == s[1..] + t;
      DoubledRankSumSplit(s[1..], t, pool);
    }
  }

  lemma {:induction false} DoubledRankSumPermutation(s: seq<Tagged>, t: seq<Tagged>, pool: seq<Tagged>)
    requires multiset(s) == multiset(t)
    ensures DoubledRankSum(s, pool) == DoubledRankSum(t, pool)
  {
    if s == [] {
      assert |multiset(t)| == 0;
    } else {
      assert s[0] in multiset(t);
      var k :| 0 <= k < |t| && t[k] == s[0];
      RemoveKeepsPermutation(s, t, k);
      DoubledRankSumPermutation(s[1..], t[..k] + t[k + 1..], pool);
      DoubledRankSumSplit(t[..k], t[k + 1..], pool);
      DoubledRankSumSplit(t[..k], t[k..], pool);
      assert t == t[..k] + t[k..];
    }
  }

  lemma {:induction false} DoubledRankSumSamePool(part: seq<Tagged>, s: seq<Tagged>, t: seq<Tagged>)
    requires multiset(s) == multiset(t)
    ensures DoubledRankSum(part, s) == DoubledRankSum(part, t)
  {
    if part != [] {
      CreditAmongPermutation(part[0].value, s, t);
      DoubledRankSumSamePool(part[1..], s, t);
    }
  }

  lemma {:induction false} CreditAmongTagged(x: real, ys: seq<real>, isA: bool)
    ensures CreditAmong(x, Tag(ys, isA)) == CreditOver(x, ys)
  {
    if ys != [] {
      assert Tag(ys, isA)[1..] == Tag(ys[1..], isA);
      CreditAmongTagged(x, ys[1..], isA);
    }
  }

  lemma {:induction false} DoubledRankSumOfB(b: seq<real>, pool: seq<Tagged>)
    ensures DoubledRankSum(Tag(b, false), pool) == 0
  {
    if b != [] {
      assert Tag(b, false)[1..] == Tag(b[1..], false);
      DoubledRankSumOfB(b[1..], pool);
    }
  }

  lemma {:induction false} DoubledRankSumOfA(part: seq<real>, a: seq<real>, b: seq<real>)
    ensures DoubledRankSum(Tag(part, true), Tag(a, true) + Tag(b, false))
         == PairwiseCredit(part, a) + PairwiseCredit(part, b) + |part|
  {
    if part != [] {
      assert Tag(part, true)[1..] == Tag(part[1..], true);
      DoubledRankSumOfA(part[1..], a, b);
      CreditAmongSplit(part[0], Tag(a, true), Tag(b, false));
      CreditAmongTagged(part[0], a, true);
      CreditAmongTagged(part[0], b, false);
    }
  }

  lemma PooledRankSum(a: seq<real>, b: seq<real>, pool: seq<Tagged>)
    requires multiset(pool) == multiset(Tag(a, true) + Tag(b, false))
    ensures DoubledRankSum(pool, pool) == PairwiseCredit(a, a) + PairwiseCredit(a, b) + |a|
  {
    var ofA, ofB := Tag(a, true), Tag(b, false);
    DoubledRankSumSamePool(pool, pool, ofA + ofB);
    DoubledRankSumPermutation(pool, ofA + ofB, ofA + ofB);
    DoubledRankSumSplit(ofA, ofB, ofA + ofB);
    DoubledRankSumOfB(b, ofA + ofB);
    DoubledRankSumOfA(a, a, b);
  }

  /** Half of all pairs of a sample with itself. */
  lemma SelfCredit(a: seq<real>)
    ensures PairwiseCredit(a, a) == |a| * |a|
  {
    PairwiseCreditComplement(a, a);
    HalfOf(PairwiseCredit(a, a), |a|);
  }

  lemma HalfOf(x: nat, n: nat)
    requires x + x == 2 * n * n
    ensures x == n * n
  {
    assert 2 * n * n == n * n + n * n;
  }

  lemma SquareAndOnce(n: nat)
    ensures n * n + n == n * (n + 1)
  {
  }

  /** The rank-sum identity: 2 * R_a == n_a * (n_a + 1) + the pairwise half-credits. */
  lemma RankSumIdentity(a: seq<real>, b: seq<real>, pool: seq<Tagged>)
    requires multiset(pool) == multiset(Tag(a, true) + Tag(b, false))
    ensures DoubledRankSum(pool, pool) == |a| * (|a| + 1) + PairwiseCredit(a, b)
  {
    PooledRankSum(a, b, pool);
    SelfCredit(a);
    SquareAndOnce(|a|);
  }

  // ---------- spans of equal values ----------

  ghost predicate Increasing(pool: seq<Tagged>) {
    forall i, j :: 0 <= i < j < |pool| ==> pool[i].value <= pool[j].value
  }

  /** Positions i..=j hold one value, smaller values lie before and larger ones after. */
  ghost predicate Span(pool: seq<Tagged>, i: nat, j: nat) {
    && i <= j < |pool|
    && (forall k :: i <= k <= j ==> pool[k].value == pool[i].value)
    && (forall k :: 0 <= k < i ==> pool[k].value < pool[i].value)
    && (forall k :: j < k < |pool| ==> pool[k].value > pool[i].value)
  }

  lemma {:induction false} CreditAmongUniform(x: real, s: seq<Tagged>, c: nat)
    requires forall k :: 0 <= k < |s| ==> Credit(x, s[k].value) == c
    ensures CreditAmong(x, s) == c * |s|
  {
    if s != [] {
      CreditAmongUniform(x, s[1..], c);
      assert c * |s| == c + c * |s[1..]|;
    }
  }

  /** The average of the ranks a span covers is the rank of its value. */
  lemma MidRankIsRank(pool: seq<Tagged>, i: nat, j: nat)
    requires Span(pool, i, j)
    ensures DoubledRank(pool[i].value, pool) == i + j + 2
  {
    var x := pool[i].value;
    assert pool == pool[..i] + (pool[i..j + 1] + pool[j + 1..]);
    CreditAmongSplit(x, pool[..i], pool[i..j + 1] + pool[j + 1..]);
    CreditAmongSplit(x, pool[i..j + 1], pool[j + 1..]);
    CreditAmongUniform(x, pool[..i], 2);
    CreditAmongUniform(x, pool[i..j + 1], 1);
    CreditAmongUniform(x, pool[j + 1..], 0);
  }

  /** One tie span of the rank loop: the first position after the values equal to `pool[i]`. */
  method EndOfSpan(pool: seq<Tagged>, i: nat) returns (j: nat)
    requires Increasing(pool) && i < |pool|
    requires forall k :: 0 <= k < i ==> pool[k].value < pool[i].value
    ensures Span(pool, i, j)
  {
    j := i;
    while j + 1 < |pool| && pool[j + 1].value == pool[i].value
      invariant i <= j < |pool|
      invariant forall k :: i <= k <= j ==> pool[k].value == pool[i].value
    {
      j := j + 1;
    }
  }

  /** The rank loop: one pass over the ordered pool, span by span. */
  method RankSumOfA(pool: seq<Tagged>) returns (rankSumA: real)
    requires Increasing(pool)
    ensures 2.0 * rankSumA == DoubledRankSum(pool, pool) as real
  {
    rankSumA := 0.0;
    var i := 0;
    while i < |pool|
      invariant 0 <= i <= |pool|
      invariant 0 < i < |pool| ==> pool[i - 1].value < pool[i].value
      invariant 2.0 * rankSumA == DoubledRankSum(pool[..i], pool) as real
    {
      var j := EndOfSpan(pool, i);
      MidRankIsRank(pool, i, j);
      var mid := (i + j) as real / 2.0 + 1.0;
      var k := i;
      while k <= j
        invariant i <= k <= j + 1
        invariant 2.0 * rankSumA == DoubledRankSum(pool[..k], pool) as real
      {
        DoubledRankSumSplit(pool[..k], [pool[k]], pool);
        assert pool[..k + 1] == pool[..k] + [pool[k]];
        if pool[k].isA {
          rankSumA := rankSumA + mid;
        }
        k := k + 1;
      }
      i := j + 1;
    }
    assert pool[..i] == pool;
  }

  /** AUC = (R_a - n_a * (n_a + 1) / 2) / (n_a * n_b), before the clamp. */
  function FromRankSum(rankSumA: real, na: nat, nb: nat): real
    requires na * nb != 0
  {
    (rankSumA - na as real * (na as real + 1.0) / 2.0) / (na * nb) as real
  }

  lemma FromRankSumExact(rankSumA: real, na: nat, nb: nat, credit: nat)
    requires na * nb != 0
    requires 2.0 * rankSumA == (na * (na + 1) + credit) as real
    ensures FromRankSum(rankSumA, na, nb) == credit as real / (2 * na * nb) as real
  {
    assert (na * (na + 1)) as real == na as real * (na as real + 1.0);
    var d := (na * nb) as real;
    assert (2 * na * nb) as real == 2.0 * d;
    assert (credit as real / 2.0) / d == credit as real / (2.0 * d);
  }

  /** Over any ordering of the pooled sample the rank formula is the pairwise statistic. */
  lemma RankFormIsPairwise(a: seq<real>, b: seq<real>, pool: seq<Tagged>, rankSumA: real)
    requires |a| * |b| != 0
    requires multiset(pool) == multiset(Tag(a, true) + Tag(b, false))
    requires 2.0 * rankSumA == DoubledRankSum(pool, pool) as real
    ensures FromRankSum(rankSumA, |a|, |b|) == Auc(a, b)
  {
    RankSumIdentity(a, b, pool);
    FromRankSumExact(rankSumA, |a|, |b|, PairwiseCredit(a, b));
    assert a != [] && b != [];
  }

  function Clamp(x: real): (y: real)
    ensures 0.0 <= y <= 1.0 && (0.0 <= x <= 1.0 ==> y == x) && (x < 0.0 ==> y == 0.0) && (x > 1.0 ==> y == 1.0)
  {
    if x < 0.0 then 0.0 else if x > 1.0 then 1.0 else x
  }

  method PooledInOrder(a: seq<real>, b: seq<real>) returns (pool: seq<Tagged>)
    ensures Increasing(pool)
    ensures multiset(pool) == multiset(Tag(a, true) + Tag(b, false))
  {
    pool := SortByKey(Tag(a, true) + Tag(b, false), (e: Tagged) => e.value);
  }

  /** Sorting the pooled sample and summing mid-ranks computes the pairwise AUC exactly; the
      final clamp never changes the value. */
  method SingleFeatureAuc(a: seq<real>, b: seq<real>) returns (auc: real)
    ensures auc == Auc(a, b)
  {
    if |a| * |b| == 0 {
      assert a == [] || b == [];
      return 0.5;
    }
    var pool := PooledInOrder(a, b);
    var rankSumA := RankSumOfA(pool);
    RankFormIsPairwise(a, b, pool, rankSumA);
    AucInUnitInterval(a, b);
    auc := Clamp(FromRankSum(rankSumA, |a|, |b|));
  }
}
