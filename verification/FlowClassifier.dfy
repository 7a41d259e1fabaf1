/**
 The learned flow distinguisher built on the AUC: best-feature measurement, the permutation
 null model with its family-wise bar, and the verdict (crates/adversary/src/flow_classifier.rs).

 A flow is given by its feature vector. The pooled noise floor used when there is too little
 data to permute is a calibration table, so it enters as a parameter.
 */
module FlowClassifier {
  import opened Wrappers
  import opened Collections
  import opened Sorting
  import opened MannWhitney
  import opened Shuffle

  const N_FEATURES: nat := 14

  type FeatureVector = v: seq<real> | |v| == N_FEATURES witness seq(N_FEATURES, _ => 0.0)

  function Column(flows: seq<FeatureVector>, f: nat): (c: seq<real>)
    requires f < N_FEATURES
    ensures |c| == |flows|
    ensures forall i :: 0 <= i < |flows| ==> c[i] == flows[i][f]
  {
    seq(|flows|, i requires 0 <= i < |flows| => flows[i][f])
  }

  function FeatureAuc(a: seq<FeatureVector>, b: seq<FeatureVector>, f: nat): real
    requires f < N_FEATURES
  {
    Auc(Column(a, f), Column(b, f))
  }

  function Accuracy(a: seq<FeatureVector>, b: seq<FeatureVector>, f: nat): real
    requires f < N_FEATURES
  {
    Folded(FeatureAuc(a, b, f))
  }

  // ---------- measure ----------

  datatype Distinguishability = Distinguishability(bestAccuracy: real, topFeature: nat, topAuc: real)

  /** `d` names the first feature of greatest folded accuracy, with its accuracy and raw AUC. */
  ghost predicate BestSeparator(a: seq<FeatureVector>, b: seq<FeatureVector>, d: Distinguishability) {
    && d.topFeature < N_FEATURES
    && d.topAuc == FeatureAuc(a, b, d.topFeature)
    && d.bestAccuracy == Accuracy(a, b, d.topFeature)
    && (forall f :: 0 <= f < N_FEATURES ==> Accuracy(a, b, f) <= d.bestAccuracy)
    && (forall f :: 0 <= f < d.topFeature ==> Accuracy(a, b, f) < d.bestAccuracy)
  }

  method FeatureAccuracy(a: seq<FeatureVector>, b: seq<FeatureVector>, f: nat) returns (auc: real, acc: real)
    requires f < N_FEATURES
    ensures auc == FeatureAuc(a, b, f) && acc == Accuracy(a, b, f)
    ensures 0.5 <= acc <= 1.0
  {
    auc := SingleFeatureAuc(Column(a, f), Column(b, f));
    acc := Folded(auc);
    FoldedIsSymmetric(Column(a, f), Column(b, f));
  }

  /** The running best starts at one half on feature 0 and is replaced only by a strict gain. */
  method Measure(a: seq<FeatureVector>, b: seq<FeatureVector>) returns (best: Distinguishability)
    ensures BestSeparator(a, b, best)
  {
    best := Distinguishability(0.5, 0, 0.5);
    var i := 0;
    while i < N_FEATURES
      invariant 0 <= i <= N_FEATURES
      invariant forall f :: 0 <= f < i ==> Accuracy(a, b, f) <= best.bestAccuracy
      invariant i == 0 ==> best == Distinguishability(0.5, 0, 0.5)
      invariant i > 0 ==>
        && best.topFeature < i
        && best.topAuc == FeatureAuc(a, b, best.topFeature)
        && best.bestAccuracy == Accuracy(a, b, best.topFeature)
        && 0.5 <= best.bestAccuracy
      invariant forall f :: 0 <= f < best.topFeature ==> Accuracy(a, b, f) < best.bestAccuracy
    {
      var auc, acc := FeatureAccuracy(a, b, i);
      if acc > best.bestAccuracy {
        best := Distinguishability(acc, i, auc);
      }
      i := i + 1;
    }
  }

  /** The answer does not depend on which class is called A: same accuracy, same feature, and
      the raw AUC mirrored around one half. */
  lemma MeasureIgnoresClassOrder(a: seq<FeatureVector>, b: seq<FeatureVector>, d: Distinguishability,
                                 e: Distinguishability)
    requires BestSeparator(a, b, d) && BestSeparator(b, a, e)
    ensures d.bestAccuracy == e.bestAccuracy
    ensures d.topFeature == e.topFeature
    ensures d.topAuc + e.topAuc == 1.0
  {
    forall f | 0 <= f < N_FEATURES ensures Accuracy(a, b, f) == Accuracy(b, a, f) {
      FoldedIsSymmetric(Column(a, f), Column(b, f));
    }
    AucComplement(Column(a, d.topFeature), Column(b, d.topFeature));
  }

  // ---------- quantiles ----------

  /** The index nearest to `x`, capped at the last one; halves round up. */
  function NearestIndex(x: real, n: nat): (k: nat)
    requires n > 0 && 0.0 <= x <= (n - 1) as real
    ensures k < n && x - 0.5 < k as real <= x + 0.5
  {
    Min((x + 0.5).Floor, n - 1)
  }

  function Part(x: real, q: real): real { x * q }

  lemma PartOfWhole(x: real, q: real)
    requires x >= 0.0 && 0.0 <= q <= 1.0
    ensures 0.0 <= Part(x, q) <= x
  {
    assert x * (1.0 - q) >= 0.0;
  }

  lemma PartsInOrder(x: real, q: real, q': real)
    requires x >= 0.0 && q <= q'
    ensures Part(x, q) <= Part(x, q')
    ensures Part(x, 0.0) == 0.0 && Part(x, 1.0) == x
  {
    assert x * (q' - q) >= 0.0;
  }

  /** The index `round((n - 1) * q)`. */
  function QuantileIndex(n: nat, q: real): (k: nat)
    requires n > 0 && 0.0 <= q <= 1.0
    ensures k < n && (n - 1) as real * q - 0.5 < k as real <= (n - 1) as real * q + 0.5
  {
    PartOfWhole((n - 1) as real, q);
    NearestIndex(Part((n - 1) as real, q), n)
  }

  function Quantile(draws: seq<real>, q: real): real
    requires draws != [] && 0.0 <= q <= 1.0
  {
    SortReals(draws)[QuantileIndex(|draws|, q)]
  }

  /** `v` is a q-quantile, by counting: one of the draws, with at least (n - 1)q + 1/2 draws at most it
      and at least n - (n - 1)q - 1/2 at least it. */
  ghost predicate IsQuantile(draws: seq<real>, v: real, q: real) {
    && v in draws
    && CountAtMost(draws, v) as real >= (|draws| - 1) as real * q + 0.5
    && CountAtLeast(draws, v) as real >= |draws| as real - (|draws| - 1) as real * q - 0.5
  }

  lemma QuantileByCount(draws: seq<real>, q: real)
    requires draws != [] && 0.0 <= q <= 1.0
    ensures IsQuantile(draws, Quantile(draws, q), q)
  {
    var t, k := SortReals(draws), QuantileIndex(|draws|, q);
    OrderStatisticSplits(draws, t, k);
    assert t[k] in multiset(t);
  }

  /** Half of the draws lie on either side of a median. */
  lemma MedianHalves(draws: seq<real>, v: real)
    requires IsQuantile(draws, v, 0.5)
    ensures 2 * CountAtMost(draws, v) >= |draws| && 2 * CountAtLeast(draws, v) >= |draws|
  {
  }

  lemma NearestIndexRises(x: real, y: real, n: nat)
    requires n > 0 && 0.0 <= x <= y <= (n - 1) as real
    ensures NearestIndex(x, n) <= NearestIndex(y, n)
    ensures NearestIndex(0.0, n) == 0 && NearestIndex((n - 1) as real, n) == n - 1
  {
  }

  lemma QuantileIndexRises(n: nat, q: real, q': real)
    requires n > 0 && 0.0 <= q <= q' <= 1.0
    ensures QuantileIndex(n, q) <= QuantileIndex(n, q')
    ensures QuantileIndex(n, 0.0) == 0 && QuantileIndex(n, 1.0) == n - 1
  {
    var x := (n - 1) as real;
    PartsInOrder(x, q, q');
    PartOfWhole(x, q);
    PartOfWhole(x, q');
    NearestIndexRises(Part(x, q), Part(x, q'), n);
  }

  /** It rises with q, from the least draw to the greatest. */
  lemma QuantileRises(draws: seq<real>, q: real, q': real)
    requires draws != [] && 0.0 <= q <= q' <= 1.0
    ensures Quantile(draws, q) <= Quantile(draws, q')
    ensures forall i :: 0 <= i < |draws| ==> Quantile(draws, 0.0) <= draws[i] <= Quantile(draws, 1.0)
  {
    var t := SortReals(draws);
    QuantileIndexRises(|draws|, q, q');
    forall i | 0 <= i < |draws| ensures t[0] <= draws[i] <= t[|draws| - 1] {
      SortedExtremes(draws, t, i);
    }
  }

  /** A quantile of pointwise larger draws is at least the shifted quantile of the smaller ones. */
  lemma QuantileDominates(larger: seq<real>, draws: seq<real>, centre: real, q: real)
    requires |larger| == |draws| > 0 && 0.0 <= q <= 1.0
    requires forall r :: 0 <= r < |draws| ==> larger[r] >= draws[r] - centre
    ensures Quantile(larger, q) >= Quantile(draws, q) - centre
  {
    ShiftedDominates(larger, draws, centre, SortReals(larger), SortReals(draws), QuantileIndex(|draws|, q));
  }

  lemma ShiftedDominates(larger: seq<real>, draws: seq<real>, centre: real, sl: seq<real>, sd: seq<real>, k: nat)
    requires k < |larger| == |draws| && IsSortOf(sl, larger) && IsSortOf(sd, draws)
    requires forall r :: 0 <= r < |draws| ==> larger[r] >= draws[r] - centre
    ensures sl[k] >= sd[k] - centre
  {
    var shifted := Shift(draws, -centre);
    var ss := SortReals(shifted);
    OrderStatisticsDominate(larger, shifted, sl, ss, k);
    OrderStatisticShift(draws, -centre, sd, ss, k);
  }

  // ---------- the null model ----------

  datatype NullModel = NullModel(perFeature: seq<real>, median: seq<real>, familywise: real)

  /** One floor and one centre per feature, and a bar no per-feature floor rises above. */
  ghost predicate Calibrated(m: NullModel) {
    && |m.perFeature| == N_FEATURES && |m.median| == N_FEATURES
    && forall f :: 0 <= f < N_FEATURES ==> m.familywise >= m.perFeature[f] - m.median[f]
  }

  /** An order of the pooled flows, as left by a shuffle of 0, 1, ..., n - 1. */
  ghost predicate Relabelling(order: seq<nat>, n: nat) {
    multiset(order) == multiset(Identity(n))
  }

  /** A relabelling uses every pooled flow exactly once. */
  lemma RelabellingUsesEachOnce(order: seq<nat>, n: nat)
    requires Relabelling(order, n)
    ensures |order| == n
    ensures forall i :: 0 <= i < n ==> order[i] < n
    ensures Distinct(order)
    ensures forall x :: 0 <= x < n ==> x in order
  {
    PermutationStaysDistinct(Identity(n), order);
    forall i | 0 <= i < n ensures order[i] < n {
      assert order[i] in Identity(n);
    }
    forall x | 0 <= x < n ensures x in order {
      assert Identity(n)[x] in order;
    }
  }

  /** Values of feature `f` at positions lo .. hi of an order. */
  function Labelled(pooled: seq<FeatureVector>, order: seq<nat>, lo: nat, hi: nat, f: nat): (c: seq<real>)
    requires lo <= hi <= |order| && f < N_FEATURES
    requires forall i :: 0 <= i < |order| ==> order[i] < |pooled|
    ensures |c| == hi - lo
  {
    seq(hi - lo, i requires 0 <= i < hi - lo => pooled[order[lo + i]][f])
  }

  /** The accuracy a relabelling gives feature `f`: the first `na` flows against the others. */
  function Draw(pooled: seq<FeatureVector>, order: seq<nat>, na: nat, f: nat): real
    requires na <= |order| && f < N_FEATURES
    requires forall i :: 0 <= i < |order| ==> order[i] < |pooled|
  {
    Folded(Auc(Labelled(pooled, order, 0, na, f), Labelled(pooled, order, na, |order|, f)))
  }

  ghost predicate Rounds(rounds: seq<seq<nat>>, n: nat) {
    forall r :: 0 <= r < |rounds| ==>
      && |rounds[r]| == n
      && Relabelling(rounds[r], n)
      && forall i :: 0 <= i < n ==> rounds[r][i] < n
  }

  ghost function Draws(pooled: seq<FeatureVector>, rounds: seq<seq<nat>>, na: nat, f: nat): (d: seq<real>)
    requires Rounds(rounds, |pooled|) && na <= |pooled| && f < N_FEATURES
    ensures |d| == |rounds|
  {
    seq(|rounds|, r requires 0 <= r < |rounds| => Draw(pooled, rounds[r], na, f))
  }

  /** The largest centred accuracy of one draw across the first `n` features. */
  function MaxCentred(draws: seq<seq<real>>, median: seq<real>, r: nat, n: nat): (m: real)
    requires 0 < n <= |draws| == |median|
    requires forall f :: 0 <= f < n ==> r < |draws[f]|
    ensures forall f :: 0 <= f < n ==> m >= draws[f][r] - median[f]
    ensures exists f :: 0 <= f < n && m == draws[f][r] - median[f]
  {
    var last := draws[n - 1][r] - median[n - 1];
    if n == 1 then last
    else
      var rest := MaxCentred(draws, median, r, n - 1);
      if rest >= last then rest else last
  }

  ghost predicate DrawTable(draws: seq<seq<real>>, reps: nat) {
    |draws| == N_FEATURES && forall f :: 0 <= f < N_FEATURES ==> |draws[f]| == reps
  }

  /** What the model keeps of the draws: per-feature quantile and median, and the quantile of
      the maxima of the centred draws. */
  ghost predicate Summarises(m: NullModel, draws: seq<seq<real>>, reps: nat, q: real) {
    && reps > 0 && 0.0 <= q <= 1.0 && DrawTable(draws, reps)
    && |m.perFeature| == N_FEATURES && |m.median| == N_FEATURES
    && (forall f :: 0 <= f < N_FEATURES ==>
      m.perFeature[f] == Quantile(draws[f], q) && m.median[f] == Quantile(draws[f], 0.5))
    && m.familywise == Quantile(Maxima(draws, m.median, reps), q)
  }

  ghost predicate Attained(draws: seq<seq<real>>, median: seq<real>, r: nat, m: real)
    requires |draws| == |median| && forall f :: 0 <= f < |draws| ==> r < |draws[f]|
  {
    exists f :: 0 <= f < |draws| && m == draws[f][r] - median[f]
  }

  /** Each round's greatest centred draw over the features. */
  function Maxima(draws: seq<seq<real>>, median: seq<real>, reps: nat): (maxima: seq<real>)
    requires |draws| == |median| == N_FEATURES
    requires forall f :: 0 <= f < N_FEATURES ==> |draws[f]| == reps
    ensures |maxima| == reps
    ensures forall r, f :: 0 <= r < reps && 0 <= f < N_FEATURES ==> maxima[r] >= draws[f][r] - median[f]
    ensures forall r :: 0 <= r < reps ==> Attained(draws, median, r, maxima[r])
  {
    seq(reps, r requires 0 <= r < reps => MaxCentred(draws, median, r, N_FEATURES))
  }

  /** Max-T dominates: the family-wise bar is never below any feature's centred floor. */
  lemma FamilywiseDominates(m: NullModel, draws: seq<seq<real>>, reps: nat, q: real)
    requires Summarises(m, draws, reps, q)
    ensures Calibrated(m)
  {
    var maxima := Maxima(draws, m.median, reps);
    forall f | 0 <= f < N_FEATURES ensures m.familywise >= m.perFeature[f] - m.median[f] {
      QuantileDominates(maxima, draws[f], m.median[f], q);
    }
  }

  /** What the bars mean in draws: each feature's centre is a median and its floor a q-quantile of its
      draws, and the family-wise bar a q-quantile of the rounds' greatest centred draws. */
  lemma BarsByCount(m: NullModel, draws: seq<seq<real>>, reps: nat, q: real)
    requires Summarises(m, draws, reps, q)
    ensures forall f :: 0 <= f < N_FEATURES ==> IsQuantile(draws[f], m.median[f], 0.5)
    ensures forall f :: 0 <= f < N_FEATURES ==> IsQuantile(draws[f], m.perFeature[f], q)
    ensures IsQuantile(Maxima(draws, m.median, reps), m.familywise, q)
  {
    forall f | 0 <= f < N_FEATURES
      ensures IsQuantile(draws[f], m.median[f], 0.5) && IsQuantile(draws[f], m.perFeature[f], q)
    {
      QuantileByCount(draws[f], 0.5);
      QuantileByCount(draws[f], q);
    }
    QuantileByCount(Maxima(draws, m.median, reps), q);
  }

  /** One relabelled draw of one feature, collected position by position. */
  method RelabelledAccuracy(pooled: seq<FeatureVector>, order: seq<nat>, na: nat, f: nat) returns (acc: real)
    requires na <= |order| && f < N_FEATURES
    requires forall i :: 0 <= i < |order| ==> order[i] < |pooled|
    ensures acc == Draw(pooled, order, na, f)
  {
    var ai, bi := [], [];
    var pos := 0;
    while pos < |order|
      invariant 0 <= pos <= |order|
      invariant pos <= na ==> ai == Labelled(pooled, order, 0, pos, f) && bi == []
      invariant pos >= na ==>
        ai == Labelled(pooled, order, 0, na, f) && bi == Labelled(pooled, order, na, pos, f)
    {
      if pos < na {
        ai := ai + [pooled[order[pos]][f]];
      } else {
        bi := bi + [pooled[order[pos]][f]];
      }
      pos := pos + 1;
    }
    var auc := SingleFeatureAuc(ai, bi);
    acc := Folded(auc);
  }

  method Summarise(draws: seq<seq<real>>, reps: nat, q: real) returns (m: NullModel)
    requires reps > 0 && 0.0 <= q <= 1.0 && DrawTable(draws, reps)
    ensures Summarises(m, draws, reps, q)
  {
    var median, perFeature := [], [];
    var f := 0;
    while f < N_FEATURES
      invariant 0 <= f <= N_FEATURES && |median| == f && |perFeature| == f
      invariant forall g :: 0 <= g < f ==>
        perFeature[g] == Quantile(draws[g], q) && median[g] == Quantile(draws[g], 0.5)
    {
      median := median + [Quantile(draws[f], 0.5)];
      perFeature := perFeature + [Quantile(draws[f], q)];
      f := f + 1;
    }
    m := NullModel(perFeature, median, Quantile(Maxima(draws, median, reps), q));
  }

  /** Adds one relabelling's accuracies to every feature's column of draws. */
  method PushDraws(pooled: seq<FeatureVector>, order: seq<nat>, na: nat, draws: seq<seq<real>>,
                   ghost rounds: seq<seq<nat>>) returns (more: seq<seq<real>>)
    requires na <= |pooled| && Rounds(rounds + [order], |pooled|) && Rounds(rounds, |pooled|)
    requires |draws| == N_FEATURES
    requires forall f :: 0 <= f < N_FEATURES ==> draws[f] == Draws(pooled, rounds, na, f)
    ensures |more| == N_FEATURES
    ensures forall f :: 0 <= f < N_FEATURES ==> more[f] == Draws(pooled, rounds + [order], na, f)
  {
    assert (rounds + [order])[|rounds|] == order;
    more := draws;
    var f := 0;
    while f < N_FEATURES
      invariant 0 <= f <= N_FEATURES && |more| == N_FEATURES
      invariant forall g :: 0 <= g < f ==> more[g] == Draws(pooled, rounds + [order], na, g)
      invariant forall g :: f <= g < N_FEATURES ==> more[g] == Draws(pooled, rounds, na, g)
    {
      var acc := RelabelledAccuracy(pooled, order, na, f);
      assert Draws(pooled, rounds + [order], na, f) == Draws(pooled, rounds, na, f) + [acc];
      more := more[f := more[f] + [acc]];
      f := f + 1;
    }
  }

  /** Builds the model from `reps` genuine relabellings of the pooled flows, or falls back to one
      pooled floor when there is too little to permute. Either way the result is calibrated. */
  method BuildNullModel(pooled: seq<FeatureVector>, classALen: nat, reps: nat, quantile: real, seed: bv64,
                        pooledFloor: real)
    returns (m: NullModel, ghost rounds: seq<seq<nat>>, draws: seq<seq<real>>)
    ensures Calibrated(m)
    ensures |pooled| >= 4 && 0 < classALen < |pooled| && reps > 0 ==>
      && |rounds| == reps && Rounds(rounds, |pooled|) && |draws| == N_FEATURES
      && (forall f :: 0 <= f < N_FEATURES ==> draws[f] == Draws(pooled, rounds, classALen, f))
      && Summarises(m, draws, reps, Clamp(quantile))
    ensures !(|pooled| >= 4 && 0 < classALen < |pooled| && reps > 0) ==>
      m == NullModel(seq(N_FEATURES, _ => pooledFloor), seq(N_FEATURES, _ => 0.5), pooledFloor - 0.5)
  {
    var n := |pooled|;
    var na := Min(classALen, n);
    rounds, draws := [], [];
    if n < 4 || na == 0 || na == n || reps == 0 {
      m := NullModel(seq(N_FEATURES, _ => pooledFloor), seq(N_FEATURES, _ => 0.5), pooledFloor - 0.5);
      return;
    }
    rounds, draws := PermutedDraws(pooled, na, reps, seed);
    m := Summarise(draws, reps, Clamp(quantile));
    FamilywiseDominates(m, draws, reps, Clamp(quantile));
  }

  /** `reps` rounds: shuffle the labels in place, then draw every feature's accuracy. */
  method PermutedDraws(pooled: seq<FeatureVector>, na: nat, reps: nat, seed: bv64)
    returns (ghost rounds: seq<seq<nat>>, draws: seq<seq<real>>)
    requires na <= |pooled|
    ensures |rounds| == reps && Rounds(rounds, |pooled|) && |draws| == N_FEATURES
    ensures forall f :: 0 <= f < N_FEATURES ==> draws[f] == Draws(pooled, rounds, na, f)
  {
    var n := |pooled|;
    var idx := new nat[n](i => i);
    assert idx[..] == Identity(n);
    var state := seed | 1;
    rounds, draws := [], seq(N_FEATURES, _ => []);
    var r := 0;
    while r < reps
      invariant 0 <= r <= reps && |rounds| == r
      invariant Relabelling(idx[..], n)
      invariant Rounds(rounds, n)
      invariant |draws| == N_FEATURES
      invariant forall f :: 0 <= f < N_FEATURES ==> draws[f] == Draws(pooled, rounds, na, f)
    {
      ghost var js;
      state, js := ShuffleInPlace(idx, state);
      RelabellingUsesEachOnce(idx[..], n);
      draws := PushDraws(pooled, idx[..], na, draws, rounds);
      rounds := rounds + [idx[..]];
      r := r + 1;
    }
  }

  // ---------- verdict ----------

  /** Excess of feature `f` over its null median. */
  function Centred(m: NullModel, a: seq<FeatureVector>, b: seq<FeatureVector>, f: nat): real
    requires f < N_FEATURES == |m.median|
  {
    Accuracy(a, b, f) - m.median[f]
  }

  /** Reports the feature of greatest centred accuracy and its margin over the family-wise bar. A
      positive margin means some feature beats the bar; the reported feature then also beats its
      own per-feature floor. */
  method Verdict(m: NullModel, a: seq<FeatureVector>, b: seq<FeatureVector>)
    returns (feature: nat, accuracy: real, margin: real)
    requires |m.median| == N_FEATURES && |m.perFeature| == N_FEATURES
    ensures feature < N_FEATURES && accuracy == Accuracy(a, b, feature)
    ensures margin == accuracy - m.median[feature] - m.familywise
    ensures forall f :: 0 <= f < N_FEATURES ==> Centred(m, a, b, f) <= Centred(m, a, b, feature)
    ensures forall f :: 0 <= f < feature ==> Centred(m, a, b, f) < Centred(m, a, b, feature)
    ensures margin > 0.0 <==> exists f :: 0 <= f < N_FEATURES && Centred(m, a, b, f) > m.familywise
    ensures Calibrated(m) && margin > 0.0 ==> accuracy > m.perFeature[feature]
  {
    feature, accuracy := 0, 0.5;
    var best: Option<real> := None;
    var i := 0;
    while i < N_FEATURES
      invariant 0 <= i <= N_FEATURES && feature < N_FEATURES
      invariant best.None? <==> i == 0
      invariant i == 0 ==> feature == 0
      invariant i > 0 ==> feature < i && accuracy == Accuracy(a, b, feature) && best == Some(Centred(m, a, b, feature))
      invariant forall f :: 0 <= f < i ==> Centred(m, a, b, f) <= Centred(m, a, b, feature)
      invariant forall f :: 0 <= f < feature ==> Centred(m, a, b, f) < Centred(m, a, b, feature)
    {
      var _, acc := FeatureAccuracy(a, b, i);
      var centred := acc - m.median[i];
      if best.None? || centred > best.value {
        feature, accuracy, best := i, acc, Some(centred);
      }
      i := i + 1;
    }
    margin := best.value - m.familywise;
  }
}
