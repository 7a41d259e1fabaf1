/**
 The reactive censor of the adaptive-routing game (crates/adversary/src/adaptive_routing.rs): it
 watches the arms a client selects and blocks those selected most within a recent window.
 */
module ReactiveCensor {
  import opened Collections
  import opened Sorting

  type Arm = nat

  function CountOf(recent: seq<Arm>, a: Arm): nat {
    if recent == [] then 0
    else CountOf(recent[..|recent| - 1], a) + if recent[|recent| - 1] == a then 1 else 0
  }

  /** How many of the recent selections hit an arm of `arms`. */
  ghost function Hits(recent: seq<Arm>, arms: set<Arm>): nat {
    if recent == [] then 0
    else Hits(recent[..|recent| - 1], arms) + if recent[|recent| - 1] in arms then 1 else 0
  }

  /** The last `window` selections of a history. */
  function LastOf(history: seq<Arm>, window: nat): seq<Arm> {
    if |history| > window then history[|history| - window..] else history
  }

  ghost function BlockedArms(blocked: seq<bool>): set<Arm> {
    set a | 0 <= a < |blocked| && blocked[a]
  }

  /** At most `capacity` arms, each selected recently, hitting as many recent selections as any
      set of at most `capacity` of the `k` arms could. */
  ghost predicate BestResponse(blocked: seq<bool>, recent: seq<Arm>, k: nat, capacity: nat) {
    && |blocked| == k && |BlockedArms(blocked)| <= capacity
    && (forall a :: a in BlockedArms(blocked) ==> CountOf(recent, a) > 0)
    && (forall arms: set<Arm> :: Candidates(arms, k, capacity) ==>
          Hits(recent, arms) <= Hits(recent, BlockedArms(blocked)))
  }

  ghost predicate Candidates(arms: set<Arm>, k: nat, capacity: nat) {
    |arms| <= capacity && forall a :: a in arms ==> a < k
  }

  // ---------- greedy choice is optimal ----------

  lemma {:induction false} HitsWithOneMore(recent: seq<Arm>, arms: set<Arm>, a: Arm)
    requires a !in arms
    ensures Hits(recent, arms + {a}) == Hits(recent, arms) + CountOf(recent, a)
  {
    if recent != [] { HitsWithOneMore(recent[..|recent| - 1], arms, a); }
  }

  lemma {:induction false} HitsOfNone(recent: seq<Arm>)
    ensures Hits(recent, {}) == 0
  {
    if recent != [] { HitsOfNone(recent[..|recent| - 1]); }
  }

  lemma {:induction false} HitsMonotone(recent: seq<Arm>, arms: set<Arm>, more: set<Arm>)
    requires arms <= more
    ensures Hits(recent, arms) <= Hits(recent, more)
  {
    if recent != [] { HitsMonotone(recent[..|recent| - 1], arms, more); }
  }

  lemma {:induction false} HitsIgnoreUnselected(recent: seq<Arm>, arms: set<Arm>, more: set<Arm>)
    requires arms <= more && forall a :: a in more && a !in arms ==> CountOf(recent, a) == 0
    ensures Hits(recent, arms) == Hits(recent, more)
    decreases |more - arms|
  {
    if more - arms == {} {
      assert arms == more;
    } else {
      var a :| a in more - arms;
      HitsWithOneMore(recent, arms, a);
      assert more - (arms + {a}) == more - arms - {a};
      HitsIgnoreUnselected(recent, arms + {a}, more);
    }
  }

  /** No arm outside `top` was selected more often than any arm inside. */
  ghost predicate Dominates(recent: seq<Arm>, top: set<Arm>, k: nat) {
    forall u: Arm, t: Arm :: u in top && t < k && t !in top ==> CountOf(recent, t) <= CountOf(recent, u)
  }

  lemma SpareInTop(arms: set<Arm>, top: set<Arm>, t: Arm) returns (u: Arm)
    requires |arms| <= |top| && t in arms && t !in top
    ensures u in top && u !in arms
  {
    if top <= arms {
      SubsetSize(top + {t}, arms);
      assert false;
    }
    u :| u in top && u !in arms;
  }

  /** Exchange argument: trading arms one by one for arms of `top` never loses a hit. */
  lemma {:induction false} TopIsOptimal(recent: seq<Arm>, top: set<Arm>, k: nat, arms: set<Arm>)
    requires Dominates(recent, top, k) && |arms| <= |top|
    requires forall a :: a in arms || a in top ==> a < k
    ensures Hits(recent, arms) <= Hits(recent, top)
    decreases |arms - top|
  {
    if arms - top == {} {
      assert arms <= top;
      HitsMonotone(recent, arms, top);
    } else {
      var t :| t in arms - top;
      var u := SpareInTop(arms, top, t);
      var traded := arms - {t} + {u};
      Exchange(recent, arms, t, u);
      assert traded - top == arms - top - {t};
      TopIsOptimal(recent, top, k, traded);
    }
  }

  lemma Exchange(recent: seq<Arm>, arms: set<Arm>, t: Arm, u: Arm)
    requires t in arms && u !in arms
    ensures |arms - {t} + {u}| == |arms|
    ensures Hits(recent, arms - {t} + {u}) == Hits(recent, arms) - CountOf(recent, t) + CountOf(recent, u)
  {
    HitsWithOneMore(recent, arms - {t}, t);
    assert arms - {t} + {t} == arms;
    HitsWithOneMore(recent, arms - {t}, u);
  }

  // ---------- ranking ----------

  /** Arms ordered by count, highest first. */
  ghost predicate Ranking(order: seq<Arm>, counts: seq<nat>) {
    && |order| == |counts|
    && (forall i :: 0 <= i < |order| ==> order[i] < |counts|)
    && Distinct(order)
    && (forall i, j :: 0 <= i < j < |order| ==> counts[order[i]] >= counts[order[j]])
    && (forall a :: 0 <= a < |counts| ==> a in order)
  }

  function RankKey(counts: seq<nat>): Arm -> real {
    (a: Arm) => if a < |counts| then -(counts[a] as real) else 0.0
  }

  method Rank(counts: seq<nat>) returns (order: seq<Arm>)
    ensures Ranking(order, counts)
  {
    var key := RankKey(counts);
    order := SortByKey(Identity(|counts|), key);
    SortedIdentity(order, |counts|);
    forall i, j | 0 <= i < j < |order| ensures counts[order[i]] >= counts[order[j]] {
      assert key(order[i]) <= key(order[j]);
    }
  }

  lemma SortedIdentity(order: seq<Arm>, k: nat)
    requires multiset(order) == multiset(Identity(k))
    ensures |order| == k && (forall i :: 0 <= i < k ==> order[i] < k)
    ensures Distinct(order)
    ensures forall a :: 0 <= a < k ==> a in order
  {
    PermutationStaysDistinct(Identity(k), order);
    forall i | 0 <= i < k ensures order[i] < k {
      assert order[i] in Identity(k);
    }
    forall a | 0 <= a < k ensures a in order {
      assert Identity(k)[a] in order;
    }
  }

  ghost function TopOf(order: seq<Arm>, n: nat): set<Arm>
    requires n <= |order|
  {
    set i | 0 <= i < n :: order[i]
  }

  lemma {:induction false} TopSize(order: seq<Arm>, n: nat)
    requires n <= |order| && Distinct(order)
    ensures |TopOf(order, n)| == n
  {
    if n > 0 {
      TopSize(order, n - 1);
      assert TopOf(order, n) == TopOf(order, n - 1) + {order[n - 1]};
      assert order[n - 1] !in TopOf(order, n - 1);
    }
  }

  lemma TopDominates(recent: seq<Arm>, counts: seq<nat>, order: seq<Arm>, n: nat)
    requires Ranking(order, counts) && n <= |order|
    requires forall a :: 0 <= a < |counts| ==> counts[a] == CountOf(recent, a)
    ensures Dominates(recent, TopOf(order, n), |counts|)
  {
    var top := TopOf(order, n);
    forall u: Arm, t: Arm | u in top && t < |counts| && t !in top ensures CountOf(recent, t) <= CountOf(recent, u) {
      var i :| 0 <= i < n && order[i] == u;
      assert t in order;
      var j :| 0 <= j < |order| && order[j] == t;
      assert j >= n;
    }
  }

  /** Blocking the selected ones among the `capacity` highest-ranked arms is a best response. */
  lemma TopSelectedIsBest(recent: seq<Arm>, counts: seq<nat>, order: seq<Arm>, capacity: nat, blocked: seq<bool>)
    requires Ranking(order, counts) && capacity <= |counts| && |blocked| == |counts|
    requires forall a :: 0 <= a < |counts| ==> counts[a] == CountOf(recent, a)
    requires forall a :: 0 <= a < |counts| ==> (blocked[a] <==> a in TopOf(order, capacity) && counts[a] > 0)
    ensures BestResponse(blocked, recent, |counts|, capacity)
  {
    var top, chosen := TopOf(order, capacity), BlockedArms(blocked);
    TopSize(order, capacity);
    SubsetSize(chosen, top);
    HitsIgnoreUnselected(recent, chosen, top);
    TopDominates(recent, counts, order, capacity);
    forall arms: set<Arm> | Candidates(arms, |counts|, capacity) ensures Hits(recent, arms) <= Hits(recent, chosen) {
      TopIsOptimal(recent, top, |counts|, arms);
    }
  }

  // ---------- the censor ----------

  class Censor {
    const k: nat
    const capacity: nat
    const window: nat
    var recent: seq<Arm>
    var blocked: seq<bool>
    ghost var history: seq<Arm>

    /** The block set is a best response to exactly the last `window` selections. */
    ghost predicate Valid()
      reads this
    {
      && capacity <= k && window >= 1
      && recent == LastOf(history, window)
      && BestResponse(blocked, recent, k, capacity)
    }

    constructor (k: nat, capacity: nat, window: nat)
      ensures Valid() && history == []
      ensures this.k == k && this.capacity == (if capacity < k then capacity else k)
      ensures this.window == (if window > 1 then window else 1)
    {
      this.k := k;
      this.capacity := if capacity < k then capacity else k;
      this.window := if window > 1 then window else 1;
      recent, history := [], [];
      blocked := seq(k, _ => false);
      new;
      assert BlockedArms(blocked) == {};
    }

    method IsBlocked(a: Arm) returns (b: bool)
      ensures b <==> a in BlockedArms(blocked)
    {
      b := a < |blocked| && blocked[a];
    }

    method CountRecent() returns (counts: seq<nat>)
      ensures |counts| == k && forall a :: 0 <= a < k ==> counts[a] == CountOf(recent, a)
    {
      counts := seq(k, _ => 0);
      var i := 0;
      while i < |recent|
        invariant 0 <= i <= |recent| && |counts| == k
        invariant forall a :: 0 <= a < k ==> counts[a] == CountOf(recent[..i], a)
      {
        assert recent[..i + 1][..i] == recent[..i];
        if recent[i] < k {
          counts := counts[recent[i] := counts[recent[i]] + 1];
        }
        i := i + 1;
      }
      assert recent[..i] == recent;
    }

    /** Marks the selected ones among the `capacity` highest-ranked arms. */
    method BlockTop(counts: seq<nat>, order: seq<Arm>) returns (marks: seq<bool>)
      requires Ranking(order, counts) && |counts| == k && capacity <= k
      ensures |marks| == k
      ensures forall a :: 0 <= a < k ==> (marks[a] <==> a in TopOf(order, capacity) && counts[a] > 0)
    {
      marks := seq(k, _ => false);
      var i := 0;
      while i < capacity
        invariant 0 <= i <= capacity && |marks| == k
        invariant forall a :: 0 <= a < k ==> (marks[a] <==> a in TopOf(order, i) && counts[a] > 0)
      {
        assert TopOf(order, i + 1) == TopOf(order, i) + {order[i]};
        if counts[order[i]] > 0 {
          marks := marks[order[i] := true];
        }
        i := i + 1;
      }
    }

    /** Pushes a selection and drops the oldest ones beyond the window. */
    method Remember(arm: Arm)
      requires window >= 1 && recent == LastOf(history, window)
      modifies this`recent, this`history
      ensures history == old(history) + [arm] && recent == LastOf(history, window)
    {
      history := history + [arm];
      recent := recent + [arm];
      while |recent| > window
        invariant |recent| >= window || recent == history
        invariant |recent| <= |history| && recent == history[|history| - |recent|..]
        invariant history == old(history) + [arm]
        modifies this`recent
      {
        recent := recent[1..];
      }
    }

    /** Records a selection and recomputes the block set. */
    method Observe(arm: Arm)
      requires Valid()
      modifies this
      ensures Valid() && history == old(history) + [arm]
    {
      Remember(arm);
      var counts := CountRecent();
      var order := Rank(counts);
      blocked := BlockTop(counts, order);
      TopSelectedIsBest(recent, counts, order, capacity, blocked);
    }
  }
}
