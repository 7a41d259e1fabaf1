/**
 The in-place Fisher-Yates shuffle that relabels the pooled flows
 (crates/adversary/src/flow_classifier.rs, `null_model`).
 */
module Shuffle {
  import opened Collections

  /** One swap choice per position: position `k` may trade places with any position up to `k`. */
  ghost predicate Choices(js: seq<nat>) {
    forall k :: 0 <= k < |js| ==> js[k] <= k
  }

  function Swap<T>(s: seq<T>, i: nat, j: nat): (t: seq<T>)
    requires i < |s| && j < |s|
    ensures |t| == |s|
  {
    s[i := s[j]][j := s[i]]
  }

  /** The swaps at positions k, k - 1, ..., 1. */
  ghost function FisherYates<T>(s: seq<T>, js: seq<nat>, k: nat): (t: seq<T>)
    requires Choices(js) && |js| == |s|
    requires k < |s|
    ensures |t| == |s|
    decreases k
  {
    if k == 0 then s else FisherYates(Swap(s, k, js[k]), js, k - 1)
  }

  ghost function ShuffledBy<T>(s: seq<T>, js: seq<nat>): (t: seq<T>)
    requires Choices(js) && |js| == |s|
    ensures |t| == |s|
  {
    if s == [] then [] else FisherYates(s, js, |s| - 1)
  }

  lemma SwapPermutes<T>(s: seq<T>, i: nat, j: nat)
    requires i < |s| && j < |s|
    ensures multiset(Swap(s, i, j)) == multiset(s)
  {
    var t := s[i := s[j]];
    assert multiset(t) == multiset(s) - multiset{s[i]} + multiset{s[j]};
    assert multiset(t[j := s[i]]) == multiset(t) - multiset{t[j]} + multiset{s[i]};
  }

  lemma {:induction false} FisherYatesPermutes<T>(s: seq<T>, js: seq<nat>, k: nat)
    requires Choices(js) && |js| == |s|
    requires k < |s|
    ensures multiset(FisherYates(s, js, k)) == multiset(s)
    decreases k
  {
    if k > 0 {
      SwapPermutes(s, k, js[k]);
      FisherYatesPermutes(Swap(s, k, js[k]), js, k - 1);
    }
  }

  /** Positions above `k` are settled; position `k` is settled by its own choice. */
  lemma {:induction false} FisherYatesSettles<T>(s: seq<T>, js: seq<nat>, k: nat)
    requires Choices(js) && |js| == |s|
    requires k < |s|
    ensures forall i :: k < i < |s| ==> FisherYates(s, js, k)[i] == s[i]
    ensures k > 0 ==> FisherYates(s, js, k)[k] == s[js[k]]
    decreases k
  {
    if k > 0 {
      FisherYatesSettles(Swap(s, k, js[k]), js, k - 1);
    }
  }

  /** Different choices give different orders. */
  lemma {:induction false} FisherYatesInjective<T>(s: seq<T>, js: seq<nat>, ls: seq<nat>, k: nat)
    requires Choices(js) && Choices(ls) && |js| == |ls| == |s|
    requires k < |s| && Distinct(s)
    requires FisherYates(s, js, k) == FisherYates(s, ls, k)
    ensures js[..k + 1] == ls[..k + 1]
    decreases k
  {
    if k > 0 {
      FisherYatesSettles(s, js, k);
      FisherYatesSettles(s, ls, k);
      assert s[js[k]] == s[ls[k]];
      FisherYatesInjective(Swap(s, k, js[k]), js, ls, k - 1);
      assert js[..k + 1] == js[..k] + [js[k]];
      assert ls[..k + 1] == ls[..k] + [ls[k]];
    }
  }

  /** Every order of the first k + 1 elements is reached by some choices. */
  lemma {:induction false} FisherYatesReaches<T>(s: seq<T>, t: seq<T>, k: nat) returns (js: seq<nat>)
    requires k < |s| && |t| == |s|
    requires multiset(s[..k + 1]) == multiset(t[..k + 1]) && s[k + 1..] == t[k + 1..]
    ensures Choices(js) && |js| == |s|
    ensures FisherYates(s, js, k) == t
    decreases k
  {
    if k == 0 {
      js := seq(|s|, _ => 0);
      SameHead(s, t);
    } else {
      var j := FindIn(s, t, k);
      var u := Swap(s, k, j);
      SwapIntoPlace(s, t, k, j);
      var rest := FisherYatesReaches(u, t, k - 1);
      js := rest[k := j];
      SameLowerChoices(u, rest, js, k - 1);
    }
  }

  lemma FindIn<T>(s: seq<T>, t: seq<T>, k: nat) returns (j: nat)
    requires k < |s| && k < |t| && multiset(s[..k + 1]) == multiset(t[..k + 1])
    ensures j <= k && s[j] == t[k]
  {
    assert t[..k + 1] == t[..k] + [t[k]];
    assert t[k] in multiset(s[..k + 1]);
    var i :| 0 <= i < k + 1 && s[..k + 1][i] == t[k];
    j := i;
  }

  lemma SameHead<T>(s: seq<T>, t: seq<T>)
    requires 0 < |s| == |t| && multiset(s[..1]) == multiset(t[..1]) && s[1..] == t[1..]
    ensures s == t
  {
    var j := FindIn(s, t, 0);
    assert s == s[..1] + s[1..] && t == t[..1] + t[1..];
  }

  lemma SwapIntoPlace<T>(s: seq<T>, t: seq<T>, k: nat, j: nat)
    requires j <= k < |s| && |t| == |s| && s[j] == t[k]
    requires multiset(s[..k + 1]) == multiset(t[..k + 1]) && s[k + 1..] == t[k + 1..]
    ensures multiset(Swap(s, k, j)[..k]) == multiset(t[..k])
    ensures Swap(s, k, j)[k..] == t[k..]
  {
    SwapPrefix(s, k, j);
    WithoutLast(Swap(s, k, j), k);
    WithoutLast(t, k);
    SwapSuffix(s, k, j);
  }

  lemma SwapSuffix<T>(s: seq<T>, k: nat, j: nat)
    requires j <= k < |s|
    ensures Swap(s, k, j)[k] == s[j]
    ensures Swap(s, k, j)[k..] == [s[j]] + s[k + 1..]
  {
  }

  lemma WithoutLast<T>(s: seq<T>, k: nat)
    requires k < |s|
    ensures multiset(s[..k]) == multiset(s[..k + 1]) - multiset{s[k]}
  {
    assert s[..k + 1] == s[..k] + [s[k]];
  }

  lemma SwapPrefix<T>(s: seq<T>, k: nat, j: nat)
    requires j <= k < |s|
    ensures multiset(Swap(s, k, j)[..k + 1]) == multiset(s[..k + 1])
  {
    SwapPermutes(s[..k + 1], k, j);
    assert Swap(s, k, j)[..k + 1] == Swap(s[..k + 1], k, j);
  }

  lemma {:induction false} SameLowerChoices<T>(s: seq<T>, js: seq<nat>, ls: seq<nat>, k: nat)
    requires Choices(js) && Choices(ls) && |js| == |ls| == |s|
    requires k < |s|
    requires forall i :: 0 <= i <= k ==> js[i] == ls[i]
    ensures FisherYates(s, js, k) == FisherYates(s, ls, k)
    decreases k
  {
    if k > 0 { SameLowerChoices(Swap(s, k, js[k]), js, ls, k - 1); }
  }

  /** The shuffle is a bijection between choice vectors and orders: every order of a sequence of
      distinct elements comes from exactly one vector of in-range choices. */
  lemma EveryOrderOnce<T>(s: seq<T>, t: seq<T>) returns (js: seq<nat>)
    requires Distinct(s) && multiset(s) == multiset(t)
    ensures Choices(js) && |js| == |s|
    ensures ShuffledBy(s, js) == t
    ensures forall ls :: Choices(ls) && |ls| == |s| && ShuffledBy(s, ls) == t ==> ls == js
  {
    assert |multiset(s)| == |s| && |multiset(t)| == |t|;
    if s == [] {
      js := [];
    } else {
      var k := |s| - 1;
      assert s[..k + 1] == s && t[..k + 1] == t;
      js := FisherYatesReaches(s, t, k);
      forall ls | Choices(ls) && |ls| == |s| && ShuffledBy(s, ls) == t ensures ls == js {
        FisherYatesInjective(s, js, ls, k);
        assert js[..k + 1] == js && ls[..k + 1] == ls;
      }
    }
  }

  /** One output of the SplitMix-style generator; nothing is assumed about its values. */
  method NextDraw(state: bv64) returns (state': bv64, z: bv64)
  {
    state' := state + 0x9E37_79B9_7F4A_7C15;
    z := state';
    z := (z ^ (z >> 30)) * 0xBF58_476D_1CE4_E5B9;
    z := (z ^ (z >> 27)) * 0x94D0_49BB_1331_11EB;
    z := z ^ (z >> 31);
  }

  /** A draw reduced modulo `bound`. */
  method DrawBelow(state: bv64, bound: nat) returns (state': bv64, j: nat)
    requires bound > 0
    ensures j < bound
  {
    var z;
    state', z := NextDraw(state);
    j := z as int % bound;
  }

  /** The order once positions n - 1, ..., k have had their swaps: the loop's view of a round. */
  ghost function AfterSwaps<T>(s: seq<T>, js: seq<nat>, k: nat): (t: seq<T>)
    requires Choices(js) && |js| == |s|
    requires k <= |s|
    ensures |t| == |s|
    decreases |s| - k
  {
    if k == |s| then s else Swap(AfterSwaps(s, js, k + 1), k, js[k])
  }

  lemma {:induction false} SameUpperChoices<T>(s: seq<T>, js: seq<nat>, ls: seq<nat>, k: nat)
    requires Choices(js) && Choices(ls) && |js| == |ls| == |s|
    requires k <= |s|
    requires forall i :: k <= i < |s| ==> js[i] == ls[i]
    ensures AfterSwaps(s, js, k) == AfterSwaps(s, ls, k)
    decreases |s| - k
  {
    if k < |s| { SameUpperChoices(s, js, ls, k + 1); }
  }

  lemma {:induction false} LoopViewAgrees<T>(s: seq<T>, js: seq<nat>, k: nat)
    requires Choices(js) && |js| == |s|
    requires k < |s|
    ensures FisherYates(AfterSwaps(s, js, k + 1), js, k) == ShuffledBy(s, js)
    decreases |s| - k
  {
    if k + 1 < |s| { LoopViewAgrees(s, js, k + 1); }
  }

  /** Shuffles `idx` in place; `js` records the choices the generator made. */
  method ShuffleInPlace(idx: array<nat>, state: bv64) returns (state': bv64, ghost js: seq<nat>)
    modifies idx
    ensures Choices(js) && |js| == idx.Length
    ensures idx[..] == ShuffledBy(old(idx[..]), js)
    ensures multiset(idx[..]) == multiset(old(idx[..]))
  {
    state' := state;
    ghost var start := idx[..];
    js := seq(idx.Length, _ => 0);
    var k := idx.Length;
    while k > 1
      invariant 0 <= k <= idx.Length && (idx.Length > 0 ==> k > 0)
      invariant |js| == idx.Length && Choices(js)
      invariant idx[..] == AfterSwaps(start, js, k)
    {
      k := k - 1;
      var j;
      state', j := DrawBelow(state', k + 1);
      ghost var before := idx[..];
      ghost var chosen := js[k := j];
      SameUpperChoices(start, js, chosen, k + 1);
      js := chosen;
      idx[k], idx[j] := idx[j], idx[k];
      assert idx[..] == Swap(before, k, j);
    }
    if k == 1 {
      ShuffledInLoop(start, js);
    }
    ShuffledByPermutes(start, js);
  }

  lemma ShuffledInLoop<T>(s: seq<T>, js: seq<nat>)
    requires Choices(js) && |js| == |s| && s != []
    ensures AfterSwaps(s, js, 1) == ShuffledBy(s, js)
  {
    LoopViewAgrees(s, js, 0);
  }

  /** Every round leaves a permutation of what it was given. */
  lemma ShuffledByPermutes<T>(s: seq<T>, js: seq<nat>)
    requires Choices(js) && |js| == |s|
    ensures multiset(ShuffledBy(s, js)) == multiset(s)
  {
    if s != [] {
      FisherYatesPermutes(s, js, |s| - 1);
    }
  }
}
