/**
 The lag-1 autocorrelation feature of a record-size sequence
 (crates/adversary/src/flow_classifier.rs, `features`), over exact reals.
 */
module FlowFeatures {

  function Sum(s: seq<real>): real {
    if s == [] then 0.0 else s[0] + Sum(s[1..])
  }

  function Mean(sizes: seq<real>): real
    requires sizes != []
  {
    Sum(sizes) / |sizes| as real
  }

  function Deviations(sizes: seq<real>, mean: real): (d: seq<real>)
    ensures |d| == |sizes|
  {
    seq(|sizes|, i requires 0 <= i < |sizes| => sizes[i] - mean)
  }

  function Product(x: real, y: real): real {
    x * y
  }

  function Square(x: real): real {
    Product(x, x)
  }

  lemma SquareDefinite(x: real)
    ensures Square(x) >= 0.0
    ensures x != 0.0 ==> Square(x) > 0.0
  {
    SameSignProduct(x, x);
  }

  lemma SameSignProduct(x: real, y: real)
    ensures (x > 0.0 && y > 0.0) || (x < 0.0 && y < 0.0) ==> Product(x, y) > 0.0
  {
  }

  function SumSquares(d: seq<real>): real {
    if d == [] then 0.0 else Square(d[0]) + SumSquares(d[1..])
  }

  /** Products of neighbours, over all windows of two. */
  function SumNeighbours(d: seq<real>): real {
    if |d| < 2 then 0.0 else Product(d[0], d[1]) + SumNeighbours(d[1..])
  }

  function Variance(sizes: seq<real>): real
    requires sizes != []
  {
    SumSquares(Deviations(sizes, Mean(sizes))) / |sizes| as real
  }

  /** Zero for short or constant flows; otherwise the neighbour covariance over the variance sum. */
  function Lag1Autocorrelation(sizes: seq<real>): real {
    if |sizes| < 2 || Variance(sizes) <= 0.0 then 0.0
    else
      Normalised(SumNeighbours(Deviations(sizes, Mean(sizes))), Variance(sizes), |sizes| as real)
  }

  function Normalised(covariance: real, variance: real, count: real): real
    requires variance > 0.0 && count > 0.0
  {
    covariance / (variance * count)
  }

  // ---------- centred on the mean ----------

  lemma TimesOneMore(n: real, c: real)
    ensures Product(n + 1.0, c) == c + Product(n, c)
  {
  }

  lemma {:induction false} SumOfDeviations(sizes: seq<real>, mean: real)
    ensures Sum(Deviations(sizes, mean)) == Sum(sizes) - Product(|sizes| as real, mean)
  {
    if sizes != [] {
      SumOfDeviations(sizes[1..], mean);
      assert Deviations(sizes, mean)[1..] == Deviations(sizes[1..], mean);
      assert |sizes| as real == |sizes[1..]| as real + 1.0;
      TimesOneMore(|sizes[1..]| as real, mean);
    }
  }

  /** The deviations the feature works on balance out: it is centred on the mean. */
  lemma DeviationsBalance(sizes: seq<real>)
    requires sizes != []
    ensures Sum(Deviations(sizes, Mean(sizes))) == 0.0
  {
    SumOfDeviations(sizes, Mean(sizes));
    assert Product(|sizes| as real, Sum(sizes) / |sizes| as real) == Sum(sizes);
  }

  lemma {:induction false} SumWithin(sizes: seq<real>, lo: real, hi: real)
    requires forall i :: 0 <= i < |sizes| ==> lo <= sizes[i] <= hi
    ensures Product(|sizes| as real, lo) <= Sum(sizes) <= Product(|sizes| as real, hi)
  {
    if sizes != [] {
      SumWithin(sizes[1..], lo, hi);
      assert |sizes| as real == |sizes[1..]| as real + 1.0;
      TimesOneMore(|sizes[1..]| as real, lo);
      TimesOneMore(|sizes[1..]| as real, hi);
    }
  }

  /** The mean lies among the sizes. */
  lemma MeanWithin(sizes: seq<real>, lo: real, hi: real)
    requires sizes != [] && forall i :: 0 <= i < |sizes| ==> lo <= sizes[i] <= hi
    ensures lo <= Mean(sizes) <= hi
  {
    SumWithin(sizes, lo, hi);
    QuotientWithin(Sum(sizes), |sizes| as real, lo, hi);
  }

  lemma QuotientWithin(x: real, n: real, lo: real, hi: real)
    requires n > 0.0 && Product(n, lo) <= x <= Product(n, hi)
    ensures lo <= x / n <= hi
  {
    var q := x / n;
    assert q * n == x;
    if q < lo {
      StrictlyScaled(q, lo, n);
      assert false;
    }
    if q > hi {
      StrictlyScaled(hi, q, n);
      assert false;
    }
  }

  lemma StrictlyScaled(x: real, y: real, n: real)
    requires x < y && n > 0.0
    ensures x * n < y * n
  {
    assert (y - x) * n > 0.0;
  }

  /** Every size larger by `c`. */
  function Raised(sizes: seq<real>, c: real): (t: seq<real>)
    ensures |t| == |sizes| && forall i :: 0 <= i < |sizes| ==> t[i] == sizes[i] + c
  {
    seq(|sizes|, i requires 0 <= i < |sizes| => sizes[i] + c)
  }

  lemma {:induction false} SumRaised(sizes: seq<real>, c: real)
    ensures Sum(Raised(sizes, c)) == Sum(sizes) + Product(|sizes| as real, c)
  {
    if sizes != [] {
      SumRaised(sizes[1..], c);
      assert Raised(sizes, c)[1..] == Raised(sizes[1..], c);
      assert |sizes| as real == |sizes[1..]| as real + 1.0;
      TimesOneMore(|sizes[1..]| as real, c);
    }
  }

  lemma MeanRaised(sizes: seq<real>, c: real)
    requires sizes != []
    ensures Mean(Raised(sizes, c)) == Mean(sizes) + c
  {
    SumRaised(sizes, c);
    QuotientOfSum(Sum(sizes), c, |sizes| as real);
  }

  lemma QuotientOfSum(x: real, c: real, n: real)
    requires n > 0.0
    ensures (x + Product(n, c)) / n == x / n + c
  {
    assert (x / n + c) * n == x + n * c;
  }

  /** So a constant added to every size does not change it. */
  lemma Lag1IgnoresLevel(sizes: seq<real>, c: real)
    ensures Lag1Autocorrelation(Raised(sizes, c)) == Lag1Autocorrelation(sizes)
  {
    if sizes != [] {
      MeanRaised(sizes, c);
      assert Deviations(Raised(sizes, c), Mean(Raised(sizes, c))) == Deviations(sizes, Mean(sizes));
      assert Variance(Raised(sizes, c)) == Variance(sizes);
    }
  }

  /** The variance cancels its count: the feature is the neighbour products over the squares. */
  lemma Lag1IsRatio(sizes: seq<real>)
    requires |sizes| >= 2
    ensures var d := Deviations(sizes, Mean(sizes));
      Lag1Autocorrelation(sizes) == if SumSquares(d) == 0.0 then 0.0 else SumNeighbours(d) / SumSquares(d)
  {
    var d, n := Deviations(sizes, Mean(sizes)), |sizes| as real;
    SumSquaresNonNegative(d);
    assert (SumSquares(d) / n) * n == SumSquares(d);
    if SumSquares(d) > 0.0 {
      PositiveShare(SumSquares(d), n);
    }
  }

  lemma PositiveShare(x: real, n: real)
    requires x > 0.0 && n > 0.0
    ensures x / n > 0.0
  {
  }

  lemma {:induction false} SumSquaresNonNegative(d: seq<real>)
    ensures SumSquares(d) >= 0.0
  {
    if d != [] {
      SquareDefinite(d[0]);
      SumSquaresNonNegative(d[1..]);
    }
  }

  // ---------- the bound ----------

  /** The step from one deviation to the next, or to its negation. */
  function Step(x: real, y: real, flip: bool): real {
    if flip then x + y else x - y
  }

  /** Squares of all steps plus the square of the last deviation: what is left over when twice
      the neighbour products are taken from (or, flipped, added to) twice the squares. */
  function Slack(d: seq<real>, flip: bool): real
    requires d != []
  {
    if |d| == 1 then Square(d[0]) else Square(Step(d[0], d[1], flip)) + Slack(d[1..], flip)
  }

  lemma SquareOfStep(x: real, y: real)
    ensures Square(Step(x, y, false)) == Square(x) - 2.0 * Product(x, y) + Square(y)
    ensures Square(Step(x, y, true)) == Square(x) + 2.0 * Product(x, y) + Square(y)
  {
  }

  lemma {:induction false} SlackIdentity(d: seq<real>)
    requires d != []
    ensures 2.0 * SumSquares(d) - 2.0 * SumNeighbours(d) == Square(d[0]) + Slack(d, false)
    ensures 2.0 * SumSquares(d) + 2.0 * SumNeighbours(d) == Square(d[0]) + Slack(d, true)
  {
    if |d| > 1 {
      SlackIdentity(d[1..]);
      SquareOfStep(d[0], d[1]);
    }
  }

  /** The slack is never negative, and vanishes only when every deviation does. */
  lemma {:induction false} SlackDefinite(d: seq<real>, flip: bool)
    requires d != []
    ensures Slack(d, flip) >= 0.0
    ensures Slack(d, flip) == 0.0 ==> forall i :: 0 <= i < |d| ==> d[i] == 0.0
  {
    if |d| == 1 {
      SquareDefinite(d[0]);
    } else {
      SquareDefinite(Step(d[0], d[1], flip));
      SlackDefinite(d[1..], flip);
      if Slack(d, flip) == 0.0 {
        assert d[1..][0] == 0.0;
        forall i | 0 <= i < |d| ensures d[i] == 0.0 {
          if i > 0 {
            assert d[i] == d[1..][i - 1];
          }
        }
      }
    }
  }

  lemma {:induction false} ZerosSumToZero(d: seq<real>)
    requires forall i :: 0 <= i < |d| ==> d[i] == 0.0
    ensures SumSquares(d) == 0.0
  {
    if d != [] { ZerosSumToZero(d[1..]); }
  }

  /** |sum d[i] * d[i+1]| < sum d[i]^2 unless every deviation is zero. */
  lemma NeighboursBelowSquares(d: seq<real>)
    requires SumSquares(d) > 0.0
    ensures -SumSquares(d) < SumNeighbours(d) < SumSquares(d)
  {
    SlackIdentity(d);
    SlackDefinite(d, false);
    SlackDefinite(d, true);
    SquareDefinite(d[0]);
    if Slack(d, false) == 0.0 || Slack(d, true) == 0.0 {
      ZerosSumToZero(d);
      assert false;
    }
  }

  /** The documented normalisation |r| <= 1 holds for every size sequence, and strictly. */
  lemma Lag1WithinUnit(sizes: seq<real>)
    ensures -1.0 < Lag1Autocorrelation(sizes) < 1.0
  {
    if |sizes| >= 2 && Variance(sizes) > 0.0 {
      var n := |sizes| as real;
      var d := Deviations(sizes, Mean(sizes));
      var sum := SumSquares(d);
      assert Variance(sizes) * n == sum && sum > 0.0 by { CancelCount(sum, n); }
      NeighboursBelowSquares(d);
      RatioBelowOne(SumNeighbours(d), sum);
    }
  }

  lemma CancelCount(sum: real, n: real)
    requires n > 0.0 && sum / n > 0.0
    ensures (sum / n) * n == sum && sum > 0.0
  {
    assert (sum / n) * n == sum;
  }

  lemma RatioBelowOne(x: real, s: real)
    requires s > 0.0 && -s < x < s
    ensures -1.0 < x / s < 1.0
  {
    var r := x / s;
    assert r * s == x;
    if r >= 1.0 {
      ScaleUp(r, s);
      assert false;
    }
    if r <= -1.0 {
      ScaleUp(-r, s);
      assert false;
    }
  }

  lemma ScaleUp(r: real, s: real)
    requires r >= 1.0 && s > 0.0
    ensures r * s >= s
  {
    assert (r - 1.0) * s >= 0.0;
  }
}
