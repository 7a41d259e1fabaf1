/**
 Sliding-window auth-failure detector (crates/bridge/src/probe_defense.rs, `ProbeDetector`).

 The detector keeps, per source IP, only the failures still inside the window and at most
 `maxPerIp` of them. The theorems relate that trimmed list to the full history of failures.
 */
module ProbeDetector {
  import opened Collections
  import opened Sampling
  import opened Window

  type Ip = nat

  datatype Config = Config(window: nat, threshold: nat, flagDuration: nat, maxTracked: nat, maxPerIp: nat)

  datatype State = State(failures: map<Ip, seq<nat>>, flagged: map<Ip, nat>, clock: nat)

  const Init: State := State(map[], map[], 0)

  // ---------- one IP's list of failures ----------

  /** The last `max` times. */
  function Trimmed(times: seq<nat>, max: nat): seq<nat> {
    if |times| > max then times[|times| - max..] else times
  }

  function Stored(s: State, ip: Ip): seq<nat> {
    if ip in s.failures then s.failures[ip] else []
  }

  function Extended(c: Config, times: seq<nat>, now: nat): seq<nat> {
    Trimmed(Recent(times, now, c.window) + [now], c.maxPerIp)
  }

  // ---------- eviction ----------

  /** When an entry was last touched; an empty one counts as touched now. */
  function LastTouched(times: seq<nat>, now: nat): nat {
    if times == [] then now else times[|times| - 1]
  }

  ghost predicate OldestTouched(failures: map<Ip, seq<nat>>, sample: set<Ip>, now: nat, k: Ip) {
    && sample <= failures.Keys && k in sample
    && forall other :: other in sample ==> LastTouched(failures[k], now) <= LastTouched(failures[other], now)
  }

  ghost predicate OldestFlag(flagged: map<Ip, nat>, sample: set<Ip>, k: Ip) {
    && sample <= flagged.Keys && k in sample
    && forall other :: other in sample ==> flagged[k] <= flagged[other]
  }

  predicate Full<T>(c: Config, m: map<Ip, T>, ip: Ip) {
    ip !in m && |m| >= c.maxTracked
  }

  /** At the cap one sampled entry goes before a new IP comes in, if there is any entry at all. */
  ghost predicate FailureRoom(c: Config, failures: map<Ip, seq<nat>>, ip: Ip, now: nat, room: map<Ip, seq<nat>>) {
    if Full(c, failures, ip) && failures != map[] then FailureEvicted(failures, now, room) else room == failures
  }

  ghost predicate FailureEvicted(failures: map<Ip, seq<nat>>, now: nat, room: map<Ip, seq<nat>>) {
    exists sample, k ::
      IsSample(sample, failures.Keys) && OldestTouched(failures, sample, now, k) && room == failures - {k}
  }

  ghost predicate FlagEvicted(flagged: map<Ip, nat>, room: map<Ip, nat>) {
    exists sample, k :: IsSample(sample, flagged.Keys) && OldestFlag(flagged, sample, k) && room == flagged - {k}
  }

  ghost predicate FlagRoom(c: Config, flagged: map<Ip, nat>, ip: Ip, room: map<Ip, nat>) {
    if Full(c, flagged, ip) && flagged != map[] then FlagEvicted(flagged, room) else room == flagged
  }

  // ---------- steps ----------

  predicate IsFlagged(c: Config, flagged: map<Ip, nat>, ip: Ip, now: nat) {
    ip in flagged && now - flagged[ip] <= c.flagDuration
  }

  predicate IsProbe(c: Config, s: State, ip: Ip, now: nat) {
    IsFlagged(c, s.flagged, ip, now)
  }

  ghost predicate Pushed(c: Config, failures: map<Ip, seq<nat>>, ip: Ip, now: nat, failures': map<Ip, seq<nat>>) {
    && ip in failures'
    && exists room :: FailureRoom(c, failures, ip, now, room) && failures' == PushInto(c, room, ip, now)
  }

  function PushInto(c: Config, room: map<Ip, seq<nat>>, ip: Ip, now: nat): map<Ip, seq<nat>> {
    room[ip := Extended(c, if ip in room then room[ip] else [], now)]
  }

  /** `edge` reports that this failure flagged an IP that was not already flagged. */
  ghost predicate FailureStep(c: Config, s: State, ip: Ip, now: nat, s': State, edge: bool) {
    && Pushed(c, s.failures, ip, now, s'.failures)
    && FlagStep(c, s.flagged, ip, now, s'.flagged, edge, |s'.failures[ip]|)
  }

  ghost predicate FlagStep(c: Config, flagged: map<Ip, nat>, ip: Ip, now: nat, flagged': map<Ip, nat>, edge: bool,
                           count: nat) {
    if count < c.threshold then flagged' == flagged && !edge
    else
      && edge == !IsFlagged(c, flagged, ip, now)
      && exists room :: FlagRoom(c, flagged, ip, room) && flagged' == room[ip := now]
  }

  function ReapedFailures(c: Config, failures: map<Ip, seq<nat>>, now: nat): map<Ip, seq<nat>> {
    map ip | ip in failures && Recent(failures[ip], now, c.window) != [] :: Recent(failures[ip], now, c.window)
  }

  function ReapedFlags(c: Config, flagged: map<Ip, nat>, now: nat): map<Ip, nat> {
    map ip | ip in flagged && now - flagged[ip] <= c.flagDuration :: flagged[ip]
  }

  /** `Tick` is time passing without anything happening to the detector. */
  datatype Event = Failure(ip: Ip, now: nat, edge: bool) | Reap(now: nat) | Tick(now: nat)

  ghost predicate Step(c: Config, s: State, e: Event, s': State) {
    && e.now >= s.clock && s'.clock == e.now
    && match e
       case Failure(ip, now, edge) => FailureStep(c, s, ip, now, s', edge)
       case Reap(now) =>
         s'.failures == ReapedFailures(c, s.failures, now) && s'.flagged == ReapedFlags(c, s.flagged, now)
       case Tick(_) => s'.failures == s.failures && s'.flagged == s.flagged
  }

  ghost predicate Run(c: Config, states: seq<State>, events: seq<Event>) {
    && |states| == |events| + 1 && states[0] == Init
    && forall i :: 0 <= i < |events| ==> Step(c, states[i], events[i], states[i + 1])
  }

  // ---------- the full history ----------

  /** All failure times of `ip` among the first `n` events, nothing pruned. */
  ghost function History(events: seq<Event>, n: nat, ip: Ip): seq<nat>
    requires n <= |events|
  {
    if n == 0 then []
    else
      var e := events[n - 1];
      History(events, n - 1, ip) + OwnFailure(e, ip)
  }

  function OwnFailure(e: Event, ip: Ip): seq<nat> {
    if e.Failure? && e.ip == ip then [e.now] else []
  }

  /** Once anything of `x` is recent, everything that follows it is. */
  lemma RecentThenAllRecent(x: seq<nat>, y: seq<nat>, clock: nat, now: nat, window: nat)
    requires Ordered(x + y, clock) && Recent(x, now, window) != []
    ensures Recent(y, now, window) == y
  {
    RecentKeepsOnlyRecent(x, now, window);
    var first := Recent(x, now, window)[0];
    var i :| 0 <= i < |x| && x[i] == first;
    forall j | 0 <= j < |y| ensures now - y[j] <= window {
      assert (x + y)[i] <= (x + y)[|x| + j];
    }
    AllRecent(y, now, window);
  }

  lemma TrimKeepsEnd(x: seq<nat>, y: seq<nat>, max: nat)
    requires |y| == max
    ensures Trimmed(x + y, max) == y
  {
  }

  lemma TrimThenPush(x: seq<nat>, y: seq<nat>, max: nat)
    ensures Trimmed(Trimmed(x, max) + y, max) == Trimmed(x + y, max)
  {
  }

  /** Trimming before pruning loses nothing the later prune and trim would have kept. */
  lemma TrimPruneTrim(x: seq<nat>, clock: nat, now: nat, window: nat, max: nat)
    requires Ordered(x, clock)
    ensures Trimmed(Recent(Trimmed(x, max), now, window), max) == Trimmed(Recent(x, now, window), max)
  {
    if |x| > max {
      var k := |x| - max;
      assert x == x[..k] + x[k..];
      RecentSplit(x[..k], x[k..], now, window);
      if Recent(x[..k], now, window) != [] {
        RecentThenAllRecent(x[..k], x[k..], clock, now, window);
        TrimKeepsEnd(Recent(x[..k], now, window), x[k..], max);
      }
    }
  }

  /** From `clock` on, `stored` answers every prune-and-trim as the full history does. */
  ghost predicate Stands(c: Config, stored: seq<nat>, history: seq<nat>, clock: nat) {
    && Ordered(stored, clock)
    && forall t: nat :: t >= clock ==>
         Trimmed(Recent(stored, t, c.window), c.maxPerIp) == Trimmed(Recent(history, t, c.window), c.maxPerIp)
  }

  lemma OrderedPush(x: seq<nat>, clock: nat, now: nat)
    requires Ordered(x, clock) && clock <= now
    ensures Ordered(x + [now], now)
  {
  }

  lemma PruneStands(c: Config, stored: seq<nat>, history: seq<nat>, clock: nat, now: nat)
    requires Stands(c, stored, history, clock) && clock <= now
    ensures Stands(c, Recent(stored, now, c.window), history, now)
  {
    RecentStaysOrdered(stored, clock, now, c.window);
    var kept := Recent(stored, now, c.window);
    assert Ordered(kept, now);
    forall t: nat | t >= now
      ensures Trimmed(Recent(kept, t, c.window), c.maxPerIp) == Trimmed(Recent(history, t, c.window), c.maxPerIp)
    {
      RecentTwice(stored, now, t, c.window);
    }
  }

  lemma PushStands(c: Config, kept: seq<nat>, history: seq<nat>, now: nat)
    requires Stands(c, kept, history, now)
    ensures Stands(c, kept + [now], history + [now], now)
  {
    OrderedPush(kept, now, now);
    forall t: nat | t >= now
      ensures Trimmed(Recent(kept + [now], t, c.window), c.maxPerIp)
           == Trimmed(Recent(history + [now], t, c.window), c.maxPerIp)
    {
      RecentSplit(kept, [now], t, c.window);
      RecentSplit(history, [now], t, c.window);
      TrimThenPush(Recent(kept, t, c.window), Recent([now], t, c.window), c.maxPerIp);
      TrimThenPush(Recent(history, t, c.window), Recent([now], t, c.window), c.maxPerIp);
    }
  }

  lemma TrimStands(c: Config, stored: seq<nat>, history: seq<nat>, now: nat)
    requires Stands(c, stored, history, now)
    ensures Stands(c, Trimmed(stored, c.maxPerIp), history, now)
  {
    forall t: nat | t >= now
      ensures Trimmed(Recent(Trimmed(stored, c.maxPerIp), t, c.window), c.maxPerIp)
           == Trimmed(Recent(history, t, c.window), c.maxPerIp)
    {
      TrimPruneTrim(stored, now, t, c.window, c.maxPerIp);
    }
  }

  /** One more failure: prune, push, trim. */
  lemma ExtendStands(c: Config, stored: seq<nat>, history: seq<nat>, clock: nat, now: nat)
    requires Stands(c, stored, history, clock) && clock <= now
    ensures Stands(c, Extended(c, stored, now), history + [now], now)
  {
    PruneStands(c, stored, history, clock, now);
    PushStands(c, Recent(stored, now, c.window), history, now);
    TrimStands(c, Recent(stored, now, c.window) + [now], history + [now], now);
  }

  lemma ExtendedIsRecent(c: Config, stored: seq<nat>, now: nat)
    ensures Recent(Extended(c, stored, now), now, c.window) == Extended(c, stored, now)
  {
    RecentKeepsOnlyRecent(stored, now, c.window);
    AllRecent(Extended(c, stored, now), now, c.window);
  }

  /** The stored list is the history's recent failures, cut to the cap. */
  lemma ExtendedIsTrimmedHistory(c: Config, stored: seq<nat>, history: seq<nat>, clock: nat, now: nat)
    requires Stands(c, stored, history, clock) && clock <= now
    ensures Extended(c, stored, now) == Trimmed(Recent(history + [now], now, c.window), c.maxPerIp)
  {
    ExtendStands(c, stored, history, clock, now);
    ExtendedIsRecent(c, stored, now);
    TrimThenPush(Recent(stored, now, c.window) + [now], [], c.maxPerIp);
    assert Extended(c, stored, now) + [] == Extended(c, stored, now);
    assert Recent(stored, now, c.window) + [now] + [] == Recent(stored, now, c.window) + [now];
  }

  // ---------- the run ----------

  /** An entry left the failure table only because it had nothing recent left. */
  ghost predicate FailuresKept(states: seq<State>, events: seq<Event>, ip: Ip, n: nat)
    requires |states| == |events| + 1 && n < |states|
  {
    forall i :: 0 <= i < n && !events[i].Reap? ==> (ip in states[i].failures ==> ip in states[i + 1].failures)
  }

  /** What one step does to the stored list of an IP it does not evict. */
  lemma StepOnStored(c: Config, s: State, e: Event, s': State, ip: Ip)
    requires Step(c, s, e, s')
    requires !e.Reap? && ip in s.failures ==> ip in s'.failures
    ensures match e
      case Failure(k, now, _) => Stored(s', ip) == if k == ip then Extended(c, Stored(s, ip), now) else Stored(s, ip)
      case Reap(now) => Stored(s', ip) == Recent(Stored(s, ip), now, c.window)
      case Tick(_) => Stored(s', ip) == Stored(s, ip)
  {
    if e.Failure? {
      var room :| FailureRoom(c, s.failures, e.ip, e.now, room)
        && s'.failures == PushInto(c, room, e.ip, e.now);
      FailureRoomKeeps(c, s.failures, e.ip, e.now, room);
    }
  }

  lemma FailureRoomKeeps(c: Config, failures: map<Ip, seq<nat>>, ip: Ip, now: nat, room: map<Ip, seq<nat>>)
    requires FailureRoom(c, failures, ip, now, room)
    ensures forall k :: k in room ==> k in failures && room[k] == failures[k]
    ensures ip in failures ==> room == failures
  {
  }

  lemma StepStands(c: Config, s: State, e: Event, s': State, ip: Ip, history: seq<nat>)
    requires Step(c, s, e, s') && Stands(c, Stored(s, ip), history, s.clock)
    requires !e.Reap? && ip in s.failures ==> ip in s'.failures
    ensures Stands(c, Stored(s', ip), history + OwnFailure(e, ip), e.now)
  {
    StepOnStored(c, s, e, s', ip);
    assert history + [] == history;
    if e.Failure? && e.ip == ip {
      ExtendStands(c, Stored(s, ip), history, s.clock, e.now);
    } else if e.Reap? {
      PruneStands(c, Stored(s, ip), history, s.clock, e.now);
    }
  }

  /** For an IP that was not evicted the stored list stands for the whole history. */
  lemma {:induction false} StoredStands(c: Config, states: seq<State>, events: seq<Event>, ip: Ip, n: nat)
    requires Run(c, states, events) && n < |states| && FailuresKept(states, events, ip, n)
    ensures Stands(c, Stored(states[n], ip), History(events, n, ip), states[n].clock)
  {
    if n > 0 {
      StoredStands(c, states, events, ip, n - 1);
      var s, e, s' := states[n - 1], events[n - 1], states[n];
      assert Step(c, s, e, s');
      assert !e.Reap? && ip in s.failures ==> ip in states[(n - 1) + 1].failures;
      StepStands(c, s, e, s', ip, History(events, n - 1, ip));
    }
  }

  /** The failures of `ip` that the whole history puts in the window ending at event `i`. */
  ghost function InWindow(c: Config, events: seq<Event>, i: nat): nat
    requires i < |events| && events[i].Failure?
  {
    |Recent(History(events, i + 1, events[i].ip), events[i].now, c.window)|
  }

  /** The trimmed list decides exactly as the full history would: a failure sets or refreshes the
      flag when at least `threshold` failures of its IP lie in the window, and otherwise leaves
      every flag alone. */
  lemma TrimmedDecidesAsFull(c: Config, states: seq<State>, events: seq<Event>, n: nat)
    requires Run(c, states, events) && 1 <= c.threshold <= c.maxPerIp
    requires n < |events| && events[n].Failure? && FailuresKept(states, events, events[n].ip, n + 1)
    ensures InWindow(c, events, n) >= c.threshold ==>
      events[n].ip in states[n + 1].flagged && states[n + 1].flagged[events[n].ip] == events[n].now
    ensures InWindow(c, events, n) < c.threshold ==>
      states[n + 1].flagged == states[n].flagged && !events[n].edge
  {
    StoredLengthDecides(c, states, events, n);
    assert Step(c, states[n], events[n], states[n + 1]);
  }

  lemma StoredLengthDecides(c: Config, states: seq<State>, events: seq<Event>, n: nat)
    requires Run(c, states, events) && 1 <= c.threshold <= c.maxPerIp
    requires n < |events| && events[n].Failure? && FailuresKept(states, events, events[n].ip, n + 1)
    ensures events[n].ip in states[n + 1].failures
    ensures |states[n + 1].failures[events[n].ip]| >= c.threshold <==> InWindow(c, events, n) >= c.threshold
  {
    var s, e, s' := states[n], events[n], states[n + 1];
    assert FailuresKept(states, events, e.ip, n);
    StoredStands(c, states, events, e.ip, n);
    assert Step(c, s, e, s');
    StepOnStored(c, s, e, s', e.ip);
    ExtendedIsTrimmedHistory(c, Stored(s, e.ip), History(events, n, e.ip), s.clock, e.now);
  }

  /** The cap must not be below the threshold: otherwise no failure flags anything, however many
      failures the history has. */
  lemma CapBelowThresholdNeverFlags(c: Config, s: State, e: Event, s': State)
    requires Step(c, s, e, s') && e.Failure? && c.maxPerIp < c.threshold
    ensures s'.flagged == s.flagged && !e.edge
  {
    FailureStartsFrom(c, s, e, s', e.ip);
  }

  // ---------- soundness without any assumption on eviction ----------

  /** From `clock` on, `stored` never shows more recent failures than the history has. */
  ghost predicate Understates(c: Config, stored: seq<nat>, history: seq<nat>, clock: nat) {
    forall t: nat :: t >= clock ==> |Recent(stored, t, c.window)| <= |Recent(history, t, c.window)|
  }

  lemma TrimShrinks(x: seq<nat>, now: nat, window: nat, max: nat)
    ensures |Recent(Trimmed(x, max), now, window)| <= |Recent(x, now, window)|
  {
    if |x| > max {
      var k := |x| - max;
      assert x == x[..k] + x[k..];
      RecentSplit(x[..k], x[k..], now, window);
    }
  }

  lemma ExtendUnderstates(c: Config, stored: seq<nat>, history: seq<nat>, clock: nat, now: nat)
    requires Understates(c, stored, history, clock) && clock <= now
    ensures Understates(c, Extended(c, stored, now), history + [now], now)
  {
    forall t: nat | t >= now
      ensures |Recent(Extended(c, stored, now), t, c.window)| <= |Recent(history + [now], t, c.window)|
    {
      TrimShrinks(Recent(stored, now, c.window) + [now], t, c.window, c.maxPerIp);
      RecentSplit(Recent(stored, now, c.window), [now], t, c.window);
      RecentSplit(history, [now], t, c.window);
      RecentTwice(stored, now, t, c.window);
    }
  }

  lemma PruneUnderstates(c: Config, stored: seq<nat>, history: seq<nat>, clock: nat, now: nat)
    requires Understates(c, stored, history, clock) && clock <= now
    ensures Understates(c, Recent(stored, now, c.window), history, now)
  {
    forall t: nat | t >= now
      ensures |Recent(Recent(stored, now, c.window), t, c.window)| <= |Recent(history, t, c.window)|
    {
      RecentTwice(stored, now, t, c.window);
    }
  }

  /** A step starts from the stored list or, after an eviction, from nothing. */
  lemma FailureStartsFrom(c: Config, s: State, e: Event, s': State, ip: Ip)
    requires Step(c, s, e, s') && e.Failure?
    ensures e.ip == ip ==> Stored(s', ip) == Extended(c, Stored(s, ip), e.now)
    ensures e.ip != ip ==> Stored(s', ip) == Stored(s, ip) || Stored(s', ip) == []
  {
    var room :| FailureRoom(c, s.failures, e.ip, e.now, room) && s'.failures == PushInto(c, room, e.ip, e.now);
    FailureRoomKeeps(c, s.failures, e.ip, e.now, room);
  }

  lemma StepUnderstates(c: Config, s: State, e: Event, s': State, ip: Ip, history: seq<nat>)
    requires Step(c, s, e, s') && Understates(c, Stored(s, ip), history, s.clock)
    ensures Understates(c, Stored(s', ip), history + OwnFailure(e, ip), e.now)
  {
    assert history + [] == history;
    if e.Failure? {
      FailureStartsFrom(c, s, e, s', ip);
      ExtendUnderstates(c, Stored(s, ip), history, s.clock, e.now);
    } else if e.Reap? {
      PruneUnderstates(c, Stored(s, ip), history, s.clock, e.now);
    }
  }

  lemma {:induction false} StoredUnderstates(c: Config, states: seq<State>, events: seq<Event>, ip: Ip, n: nat)
    requires Run(c, states, events) && n < |states|
    ensures Understates(c, Stored(states[n], ip), History(events, n, ip), states[n].clock)
  {
    if n > 0 {
      StoredUnderstates(c, states, events, ip, n - 1);
      assert Step(c, states[n - 1], events[n - 1], states[n]);
      StepUnderstates(c, states[n - 1], events[n - 1], states[n], ip, History(events, n - 1, ip));
    }
  }

  /** A failure that touches its flag is never invented: whatever was evicted, the history itself
      has `threshold` failures in the window. */
  lemma FlaggingHasFailures(c: Config, states: seq<State>, events: seq<Event>, n: nat)
    requires Run(c, states, events) && n < |events| && events[n].Failure?
    requires events[n].edge || states[n + 1].flagged != states[n].flagged
    ensures InWindow(c, events, n) >= c.threshold
  {
    var s, e, s' := states[n], events[n], states[n + 1];
    assert Step(c, s, e, s');
    StoredUnderstates(c, states, events, e.ip, n + 1);
    FailureStartsFrom(c, s, e, s', e.ip);
    ExtendedIsRecent(c, Stored(s, e.ip), e.now);
  }

  lemma EdgeHasFailures(c: Config, states: seq<State>, events: seq<Event>, n: nat)
    requires Run(c, states, events) && n < |events| && events[n].Failure? && events[n].edge
    ensures InWindow(c, events, n) >= c.threshold
  {
    FlaggingHasFailures(c, states, events, n);
  }

  // ---------- flags ----------

  /** A flag of `ip` left the table only by expiring. */
  ghost predicate FlagsKept(states: seq<State>, events: seq<Event>, ip: Ip, lo: nat, hi: nat)
    requires |states| == |events| + 1 && hi < |states|
  {
    forall i :: lo <= i < hi && !events[i].Reap? ==> (ip in states[i].flagged ==> ip in states[i + 1].flagged)
  }

  /** The flag raised at time `t` is still there, refreshed since, or expired. */
  ghost predicate FlagSince(c: Config, s: State, ip: Ip, t: nat) {
    || (ip in s.flagged && t <= s.flagged[ip])
    || s.clock - t > c.flagDuration
  }

  /** A flag is either the one from before or set by a failure of its own IP just now. */
  lemma FlagComesFrom(c: Config, s: State, e: Event, s': State, ip: Ip)
    requires Step(c, s, e, s') && ip in s'.flagged
    ensures || (ip in s.flagged && s'.flagged[ip] == s.flagged[ip])
            || (e.Failure? && e.ip == ip && s'.flagged[ip] == e.now)
  {
    if e.Failure? && |s'.failures[e.ip]| >= c.threshold {
      var room :| FlagRoom(c, s.flagged, e.ip, room) && s'.flagged == room[e.ip := e.now];
    }
  }

  lemma StepOnFlag(c: Config, s: State, e: Event, s': State, ip: Ip)
    requires Step(c, s, e, s')
    requires !e.Reap? && ip in s.flagged ==> ip in s'.flagged
    ensures ip in s'.flagged ==>
      (ip in s.flagged && s'.flagged[ip] == s.flagged[ip]) || (e.Failure? && e.ip == ip && s'.flagged[ip] == e.now)
    ensures ip in s.flagged ==>
      ip in s'.flagged || (e.Reap? && e.now - s.flagged[ip] > c.flagDuration)
  {
    if ip in s'.flagged {
      FlagComesFrom(c, s, e, s', ip);
    }
  }

  ghost predicate FlagsInPast(s: State) {
    forall ip :: ip in s.flagged ==> s.flagged[ip] <= s.clock
  }

  lemma {:induction false} RunFlagsInPast(c: Config, states: seq<State>, events: seq<Event>, n: nat)
    requires Run(c, states, events) && n < |states|
    ensures FlagsInPast(states[n])
  {
    if n > 0 {
      RunFlagsInPast(c, states, events, n - 1);
      assert Step(c, states[n - 1], events[n - 1], states[n]);
      StepFlagsInPast(c, states[n - 1], events[n - 1], states[n]);
    }
  }

  lemma StepFlagsInPast(c: Config, s: State, e: Event, s': State)
    requires Step(c, s, e, s') && FlagsInPast(s)
    ensures FlagsInPast(s')
  {
    if e.Failure? && |s'.failures[e.ip]| >= c.threshold {
      var room :| FlagRoom(c, s.flagged, e.ip, room) && s'.flagged == room[e.ip := e.now];
    }
  }

  lemma {:induction false} FlagPersists(c: Config, states: seq<State>, events: seq<Event>, ip: Ip, lo: nat, n: nat,
                                        t: nat)
    requires Run(c, states, events) && lo <= n < |states|
    requires FlagsKept(states, events, ip, lo, n) && FlagSince(c, states[lo], ip, t)
    ensures FlagSince(c, states[n], ip, t)
  {
    if n > lo {
      FlagPersists(c, states, events, ip, lo, n - 1, t);
      RunFlagsInPast(c, states, events, n - 1);
      var s, e, s' := states[n - 1], events[n - 1], states[n];
      assert Step(c, s, e, s');
      assert !e.Reap? && ip in s.flagged ==> ip in states[(n - 1) + 1].flagged;
      StepOnFlag(c, s, e, s', ip);
    }
  }

  /** What an edge means for the flag table: raised now, and not flagged just before. */
  lemma EdgeRaisesFlag(c: Config, s: State, e: Event, s': State)
    requires Step(c, s, e, s') && e.Failure? && e.edge
    ensures e.ip in s'.flagged && s'.flagged[e.ip] == e.now
    ensures !IsFlagged(c, s.flagged, e.ip, e.now)
  {
  }

  /** Two edge reports for one IP are more than the flag duration apart. */
  lemma EdgesAreApart(c: Config, states: seq<State>, events: seq<Event>, i: nat, j: nat)
    requires Run(c, states, events) && i < j < |events|
    requires events[i].Failure? && events[j].Failure? && events[i].ip == events[j].ip
    requires events[i].edge && events[j].edge && FlagsKept(states, events, events[i].ip, i + 1, j)
    ensures events[j].now - events[i].now > c.flagDuration
  {
    assert Step(c, states[i], events[i], states[i + 1]);
    EdgeRaisesFlag(c, states[i], events[i], states[i + 1]);
    FlagPersists(c, states, events, events[i].ip, i + 1, j, events[i].now);
    assert Step(c, states[j], events[j], states[j + 1]);
    EdgeRaisesFlag(c, states[j], events[j], states[j + 1]);
  }

  /** The flag a failure set is at some earlier event that had `threshold` failures in its window. */
  ghost predicate FlagEarned(c: Config, events: seq<Event>, n: nat, ip: Ip, t: nat)
    requires n <= |events|
  {
    exists i :: 0 <= i < n && events[i].Failure? && events[i].ip == ip && events[i].now == t
      && InWindow(c, events, i) >= c.threshold
  }

  /** On every run, with whatever evictions and caps. */
  lemma {:induction false} FlagsAreEarned(c: Config, states: seq<State>, events: seq<Event>, ip: Ip, n: nat)
    requires Run(c, states, events) && n < |states|
    ensures ip in states[n].flagged ==> FlagEarned(c, events, n, ip, states[n].flagged[ip])
  {
    if n > 0 && ip in states[n].flagged {
      var s, e, s' := states[n - 1], events[n - 1], states[n];
      FlagsAreEarned(c, states, events, ip, n - 1);
      assert Step(c, s, e, states[(n - 1) + 1]);
      FlagComesFrom(c, s, e, s', ip);
      if !(ip in s.flagged && s'.flagged[ip] == s.flagged[ip]) {
        FlaggingHasFailures(c, states, events, n - 1);
      }
    }
  }

  /** With nothing evicted, an IP is reported as a probe exactly while some failure of it that had
      `threshold` failures in its window is no older than the flag duration. */
  lemma IsProbeIff(c: Config, states: seq<State>, events: seq<Event>, ip: Ip, n: nat, now: nat)
    requires Run(c, states, events) && 1 <= c.threshold <= c.maxPerIp && n < |states| && now >= states[n].clock
    requires FailuresKept(states, events, ip, n) && FlagsKept(states, events, ip, 0, n)
    ensures IsProbe(c, states[n], ip, now) <==>
      exists i :: 0 <= i < n && events[i].Failure? && events[i].ip == ip
        && InWindow(c, events, i) >= c.threshold && now - events[i].now <= c.flagDuration
  {
    if IsProbe(c, states[n], ip, now) {
      FlagsAreEarned(c, states, events, ip, n);
    }
    forall i | 0 <= i < n && events[i].Failure? && events[i].ip == ip
        && InWindow(c, events, i) >= c.threshold && now - events[i].now <= c.flagDuration
      ensures IsProbe(c, states[n], ip, now)
    {
      TrimmedDecidesAsFull(c, states, events, i);
      FlagPersists(c, states, events, ip, i + 1, n, events[i].now);
    }
  }

  /** A failure of `ip` with `threshold` failures in its window. */
  ghost predicate Crosses(c: Config, events: seq<Event>, k: nat, ip: Ip)
    requires k < |events|
  {
    events[k].Failure? && events[k].ip == ip && InWindow(c, events, k) >= c.threshold
  }

  /** The failure has `threshold` failures in its window, and none before it that had as many is
      within the flag duration. */
  ghost predicate FirstCrossing(c: Config, events: seq<Event>, i: nat)
    requires i < |events| && events[i].Failure?
  {
    && InWindow(c, events, i) >= c.threshold
    && forall k :: 0 <= k < i && Crosses(c, events, k, events[i].ip) ==> events[i].now - events[k].now > c.flagDuration
  }

  /** With nothing evicted, the edges are exactly those crossings of the full history. */
  lemma EdgeIff(c: Config, states: seq<State>, events: seq<Event>, n: nat)
    requires Run(c, states, events) && 1 <= c.threshold <= c.maxPerIp && n < |events| && events[n].Failure?
    requires FailuresKept(states, events, events[n].ip, n + 1) && FlagsKept(states, events, events[n].ip, 0, n)
    ensures events[n].edge <==> FirstCrossing(c, events, n)
  {
    assert Step(c, states[n], events[n], states[n + 1]);
    StoredLengthDecides(c, states, events, n);
    IsProbeIff(c, states, events, events[n].ip, n, events[n].now);
  }

  // ---------- who is evicted ----------

  ghost predicate AllOrdered(s: State) {
    forall ip :: ip in s.failures ==> Ordered(s.failures[ip], s.clock)
  }

  lemma ExtendedOrdered(c: Config, times: seq<nat>, clock: nat, now: nat)
    requires Ordered(times, clock) && clock <= now
    ensures Ordered(Extended(c, times, now), now)
  {
    RecentStaysOrdered(times, clock, now, c.window);
  }

  lemma StepKeepsOrder(c: Config, s: State, e: Event, s': State)
    requires Step(c, s, e, s') && AllOrdered(s)
    ensures AllOrdered(s')
  {
    forall ip | ip in s'.failures ensures Ordered(s'.failures[ip], s'.clock) {
      if e.Failure? {
        FailureStartsFrom(c, s, e, s', ip);
        ExtendedOrdered(c, Stored(s, ip), s.clock, e.now);
      } else if e.Reap? {
        RecentStaysOrdered(s.failures[ip], s.clock, e.now, c.window);
      }
    }
  }

  lemma {:induction false} RunKeepsOrder(c: Config, states: seq<State>, events: seq<Event>, n: nat)
    requires Run(c, states, events) && n < |states|
    ensures AllOrdered(states[n])
  {
    if n > 0 {
      RunKeepsOrder(c, states, events, n - 1);
      assert Step(c, states[n - 1], events[n - 1], states[(n - 1) + 1]);
      StepKeepsOrder(c, states[n - 1], events[n - 1], states[n]);
    }
  }

  /** No sampled IP's latest failure is earlier than that of `k`. */
  ghost predicate StalestOfSample(failures: map<Ip, seq<nat>>, k: Ip, sample: set<Ip>) {
    && sample <= failures.Keys && |sample| == (if |failures| < 32 then |failures| else 32) && k in sample
    && forall other, t, u :: other in sample && Greatest(failures[k], t) && Greatest(failures[other], u) ==> t <= u
  }

  /** Along every run, an IP that makes room for a failing one is, of some sample of the table, one
      whose latest failure is earliest. */
  lemma EvictedIsStalest(c: Config, states: seq<State>, events: seq<Event>, n: nat, k: Ip)
    requires Run(c, states, events) && n < |events| && events[n].Failure?
    requires k in states[n].failures && k !in states[n + 1].failures
    ensures exists sample :: StalestOfSample(states[n].failures, k, sample)
  {
    var s, e, s' := states[n], events[n], states[n + 1];
    RunKeepsOrder(c, states, events, n);
    assert Step(c, s, e, s');
    var sample := EvictedFrom(c, s, e, s', k);
    forall other, t, u | other in sample && Greatest(s.failures[k], t) && Greatest(s.failures[other], u)
      ensures t <= u
    {
      LastIsGreatest(s.failures[k], s.clock, t);
      LastIsGreatest(s.failures[other], s.clock, u);
    }
    assert StalestOfSample(s.failures, k, sample);
  }

  lemma EvictedFrom(c: Config, s: State, e: Event, s': State, k: Ip) returns (sample: set<Ip>)
    requires Step(c, s, e, s') && e.Failure? && k in s.failures && k !in s'.failures
    ensures IsSample(sample, s.failures.Keys) && OldestTouched(s.failures, sample, e.now, k)
  {
    var room :| FailureRoom(c, s.failures, e.ip, e.now, room) && s'.failures == PushInto(c, room, e.ip, e.now);
    var some, victim :| IsSample(some, s.failures.Keys) && OldestTouched(s.failures, some, e.now, victim)
      && room == s.failures - {victim};
    sample := some;
  }

  // ---------- memory bound ----------

  /** Neither table outgrows the tracking cap (a cap of zero still holds one entry). */
  ghost predicate Bounded(c: Config, s: State) {
    |s.failures| <= Cap(c) && |s.flagged| <= Cap(c)
  }

  function Cap(c: Config): nat { if c.maxTracked == 0 then 1 else c.maxTracked }

  lemma FailureBounded(c: Config, s: State, ip: Ip, now: nat, s': State, edge: bool)
    requires FailureStep(c, s, ip, now, s', edge) && Bounded(c, s)
    ensures Bounded(c, s')
  {
    PushBounded(c, s.failures, ip, now, s'.failures);
    if |s'.failures[ip]| >= c.threshold {
      FlagBounded(c, s.flagged, ip, now, s'.flagged);
    }
  }

  lemma PushBounded(c: Config, failures: map<Ip, seq<nat>>, ip: Ip, now: nat, failures': map<Ip, seq<nat>>)
    requires Pushed(c, failures, ip, now, failures') && |failures| <= Cap(c)
    ensures |failures'| <= Cap(c)
  {
    var room :| FailureRoom(c, failures, ip, now, room) && failures' == PushInto(c, room, ip, now);
    RoomBounded(c, failures.Keys, room.Keys, failures'.Keys, ip);
  }

  lemma FlagBounded(c: Config, flagged: map<Ip, nat>, ip: Ip, now: nat, flagged': map<Ip, nat>)
    requires exists room :: FlagRoom(c, flagged, ip, room) && flagged' == room[ip := now]
    requires |flagged| <= Cap(c)
    ensures |flagged'| <= Cap(c)
  {
    var room :| FlagRoom(c, flagged, ip, room) && flagged' == room[ip := now];
    RoomBounded(c, flagged.Keys, room.Keys, flagged'.Keys, ip);
  }

  lemma StepBounded(c: Config, s: State, e: Event, s': State)
    requires Step(c, s, e, s') && Bounded(c, s)
    ensures Bounded(c, s')
  {
    match e
    case Failure(ip, now, edge) => FailureBounded(c, s, ip, now, s', edge);
    case Reap(now) =>
      SubsetSize(s'.failures.Keys, s.failures.Keys);
      SubsetSize(s'.flagged.Keys, s.flagged.Keys);
    case Tick(_) =>
  }

  lemma RoomBounded(c: Config, keys: set<Ip>, room: set<Ip>, keys': set<Ip>, ip: Ip)
    requires keys' == room + {ip} && |keys| <= Cap(c)
    requires ip in keys || |keys| < c.maxTracked || keys == {} ==> room == keys
    requires ip !in keys && |keys| >= c.maxTracked && keys != {} ==> exists k :: k in keys && room == keys - {k}
    ensures |keys'| <= Cap(c)
  {
  }

  // ---------- the detector ----------

  class Detector {
    const config: Config
    var failures: map<Ip, seq<nat>>
    var flagged: map<Ip, nat>
    ghost var clock: nat

    ghost function Abs(): State
      reads this
    {
      State(failures, flagged, clock)
    }

    constructor (config: Config)
      ensures this.config == config && Abs() == Init
    {
      this.config := config;
      failures, flagged, clock := map[], map[], 0;
    }

    method EvictFailures(now: nat)
      requires failures != map[]
      modifies this`failures
      ensures FailureEvicted(old(failures), now, failures)
    {
      var sample := FirstEntries(failures.Keys);
      var any :| any in failures;
      assert sample != {} by { assert |failures.Keys - {any}| + 1 == |failures.Keys|; }
      var k :| k in sample;
      var left := sample - {k};
      while left != {}
        invariant left <= sample && k in sample - left
        invariant forall other :: other in sample - left ==>
          LastTouched(failures[k], now) <= LastTouched(failures[other], now)
      {
        var other :| other in left;
        if LastTouched(failures[other], now) < LastTouched(failures[k], now) {
          k := other;
        }
        left := left - {other};
      }
      assert OldestTouched(failures, sample, now, k);
      failures := failures - {k};
    }

    method EvictFlag()
      requires flagged != map[]
      modifies this`flagged
      ensures FlagEvicted(old(flagged), flagged)
    {
      var sample := FirstEntries(flagged.Keys);
      var any :| any in flagged;
      assert sample != {} by { assert |flagged.Keys - {any}| + 1 == |flagged.Keys|; }
      var k :| k in sample;
      var left := sample - {k};
      while left != {}
        invariant left <= sample && k in sample - left
        invariant forall other :: other in sample - left ==> flagged[k] <= flagged[other]
      {
        var other :| other in left;
        if flagged[other] < flagged[k] {
          k := other;
        }
        left := left - {other};
      }
      assert OldestFlag(flagged, sample, k);
      flagged := flagged - {k};
    }

    /** Prune, push and trim the list of `ip`, making room for it first. */
    method PushFailure(ip: Ip, now: nat) returns (count: nat)
      modifies this`failures
      ensures ip in failures && count == |failures[ip]|
      ensures Pushed(config, old(failures), ip, now, failures)
    {
      if ip !in failures && |failures| >= config.maxTracked && failures != map[] {
        EvictFailures(now);
      }
      ghost var room := failures;
      assert FailureRoom(config, old(failures), ip, now, room);
      var entry := if ip in failures then failures[ip] else [];
      entry := Recent(entry, now, config.window);
      entry := entry + [now];
      if |entry| > config.maxPerIp {
        entry := entry[|entry| - config.maxPerIp..];
      }
      failures := failures[ip := entry];
      assert failures == PushInto(config, room, ip, now);
      count := |entry|;
    }

    method Flag(ip: Ip, now: nat)
      modifies this`flagged
      ensures exists room :: FlagRoom(config, old(flagged), ip, room) && flagged == room[ip := now]
    {
      if ip !in flagged && |flagged| >= config.maxTracked && flagged != map[] {
        EvictFlag();
      }
      ghost var room := flagged;
      assert FlagRoom(config, old(flagged), ip, room);
      flagged := flagged[ip := now];
    }

    method RecordAuthFailure(ip: Ip, now: nat) returns (edge: bool)
      requires now >= clock
      modifies this
      ensures Step(config, old(Abs()), Failure(ip, now, edge), Abs())
    {
      clock := now;
      var count := PushFailure(ip, now);
      if count < config.threshold {
        return false;
      }
      edge := !(ip in flagged && now - flagged[ip] <= config.flagDuration);
      Flag(ip, now);
    }

    method Reap(now: nat)
      requires now >= clock
      modifies this
      ensures Step(config, old(Abs()), Event.Reap(now), Abs())
    {
      failures := ReapedFailures(config, failures, now);
      flagged := ReapedFlags(config, flagged, now);
      clock := now;
    }
  }
}
