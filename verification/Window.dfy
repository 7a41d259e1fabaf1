/** Pruning a list of times to a sliding window. */
module Window {

  /** Monotonic instants and durations count nanoseconds. */
  const SECOND: nat := 1_000_000_000

  /** The times no more than a window before `now`, in order. */
  function Recent(times: seq<nat>, now: nat, window: nat): seq<nat> {
    if times == [] then []
    else
      var rest := Recent(times[1..], now, window);
      if now - times[0] <= window then [times[0]] + rest else rest
  }

  lemma {:induction false} RecentSplit(x: seq<nat>, y: seq<nat>, now: nat, window: nat)
    ensures Recent(x + y, now, window) == Recent(x, now, window) + Recent(y, now, window)
  {
    if x == [] {
      assert x + y == y;
    } else {
      assert (x + y)[1..] == x[1..] + y;
      RecentSplit(x[1..], y, now, window);
    }
  }

  lemma {:induction false} RecentTwice(x: seq<nat>, now: nat, now': nat, window: nat)
    requires now <= now'
    ensures Recent(Recent(x, now, window), now', window) == Recent(x, now', window)
  {
    if x != [] {
      RecentTwice(x[1..], now, now', window);
      var rest := Recent(x[1..], now, window);
      assert ([x[0]] + rest)[1..] == rest;
    }
  }

  lemma {:induction false} AllRecent(x: seq<nat>, now: nat, window: nat)
    requires forall i :: 0 <= i < |x| ==> now - x[i] <= window
    ensures Recent(x, now, window) == x
  {
    if x != [] { AllRecent(x[1..], now, window); }
  }

  lemma {:induction false} RecentKeepsOnlyRecent(x: seq<nat>, now: nat, window: nat)
    ensures forall i :: 0 <= i < |Recent(x, now, window)| ==> now - Recent(x, now, window)[i] <= window
    ensures forall i :: 0 <= i < |Recent(x, now, window)| ==> Recent(x, now, window)[i] in x
    ensures |Recent(x, now, window)| <= |x|
  {
    if x != [] { RecentKeepsOnlyRecent(x[1..], now, window); }
  }

  /** The times never go back and none is past the clock. */
  ghost predicate Ordered(times: seq<nat>, clock: nat) {
    && (forall i, j :: 0 <= i < j < |times| ==> times[i] <= times[j])
    && (forall i :: 0 <= i < |times| ==> times[i] <= clock)
  }

  lemma {:induction false} RecentStaysOrdered(x: seq<nat>, clock: nat, now: nat, window: nat)
    requires Ordered(x, clock)
    ensures Ordered(Recent(x, now, window), clock)
  {
    if x != [] {
      RecentStaysOrdered(x[1..], clock, now, window);
      RecentKeepsOnlyRecent(x[1..], now, window);
    }
  }

  ghost predicate Greatest(times: seq<nat>, t: nat) {
    t in times && forall u :: u in times ==> u <= t
  }

  lemma LastIsGreatest(times: seq<nat>, clock: nat, t: nat)
    requires Ordered(times, clock) && Greatest(times, t)
    ensures times != [] && times[|times| - 1] == t
  {
    var i :| 0 <= i < |times| && times[i] == t;
    assert times[|times| - 1] in times;
  }
}
