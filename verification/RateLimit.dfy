/**
 Per-source-IP token bucket and concurrent-session cap (crates/bridge/src/rate_limit.rs).

 Time is an explicit clock in seconds that never runs backwards; each locked critical section
 is one step. `HashMap` iteration order is arbitrary, so the eviction sample is any set of the
 first 32 entries.
 */
module RateLimit {
  import opened Wrappers
  import opened Sampling

  type Ip = nat

  datatype Bucket = Bucket(tokens: real, lastRefill: real, lastSeen: real, concurrent: nat)

  /** `perMinute == 0` turns the rate limit off, `maxConcurrent == 0` the session cap. */
  datatype Config = Config(perMinute: nat, maxConcurrent: nat, maxEntries: nat) {
    function Capacity(): (c: real)
      ensures c >= 1.0 && (perMinute > 0 ==> c == perMinute as real)
    {
      if perMinute as real > 1.0 then perMinute as real else 1.0
    }

    function RefillPerSec(): (r: real)
      ensures 60.0 * r == perMinute as real
    {
      perMinute as real / 60.0
    }

    /** Tokens added over `elapsed` seconds. */
    function Accrued(elapsed: real): real {
      elapsed * RefillPerSec()
    }

    lemma AccruedNonNegative(elapsed: real)
      requires elapsed >= 0.0
      ensures Accrued(elapsed) >= 0.0
      ensures elapsed == 0.0 ==> Accrued(elapsed) == 0.0
    {
    }

    lemma AccruedPerMinute(elapsed: real)
      ensures 60.0 * Accrued(elapsed) == perMinute as real * elapsed
    {
      assert elapsed * (60.0 * RefillPerSec()) == 60.0 * (elapsed * RefillPerSec());
    }

    lemma AccruedSum(x: real, y: real)
      ensures Accrued(x + y) == Accrued(x) + Accrued(y)
    {
    }
  }

  /** The table, the guards still held by sessions (one per open session), and the clock. */
  datatype State = State(buckets: map<Ip, Bucket>, guards: multiset<Ip>, clock: real)

  ghost const Init: State := State(map[], multiset{}, 0.0)

  // ---------- eviction ----------

  function IdleAmong(buckets: map<Ip, Bucket>, among: set<Ip>): set<Ip> {
    set k | k in among && k in buckets && buckets[k].concurrent == 0
  }

  /** `v` is an oldest-seen idle entry of `among`, or none exists. */
  ghost predicate OldestIdle(buckets: map<Ip, Bucket>, among: set<Ip>, v: Option<Ip>) {
    match v
    case None => IdleAmong(buckets, among) == {}
    case Some(k) =>
      && k in IdleAmong(buckets, among)
      && forall other :: other in IdleAmong(buckets, among) ==> buckets[k].lastSeen <= buckets[other].lastSeen
  }

  /** The sample's oldest idle entry, or the table's when the sample has none. */
  ghost predicate SampledVictim(buckets: map<Ip, Bucket>, sample: set<Ip>, v: Option<Ip>) {
    if IdleAmong(buckets, sample) != {} then OldestIdle(buckets, sample, v)
    else OldestIdle(buckets, buckets.Keys, v)
  }

  ghost predicate Victim(buckets: map<Ip, Bucket>, v: Option<Ip>) {
    exists sample :: IsSample(sample, buckets.Keys) && SampledVictim(buckets, sample, v)
  }

  // ---------- steps ----------

  function Min(a: real, b: real): real { if a <= b then a else b }

  /** Tokens available at time `t`: what is stored plus the refill since, up to the capacity. */
  function Level(c: Config, b: Bucket, t: real): real {
    Min(b.tokens + c.Accrued(t - b.lastRefill), c.Capacity())
  }

  function Refilled(c: Config, b: Bucket, now: real): Bucket {
    b.(tokens := Level(c, b, now), lastRefill := now, lastSeen := now)
  }

  predicate AtSessionCap(c: Config, b: Bucket) {
    c.maxConcurrent > 0 && b.concurrent >= c.maxConcurrent
  }

  /** The bucket after an attempt at `now`, and whether a guard is handed out. */
  function Attempt(c: Config, b: Bucket, now: real): (Bucket, bool) {
    var r := Refilled(c, b, now);
    if AtSessionCap(c, r) then (r, false)
    else if c.RefillPerSec() > 0.0 then
      if r.tokens < 1.0 then (r, false)
      else (r.(tokens := r.tokens - 1.0, concurrent := r.concurrent + 1), true)
    else (r.(concurrent := r.concurrent + 1), true)
  }

  function Fresh(c: Config, now: real): Bucket {
    Bucket(c.Capacity(), now, now, 0)
  }

  /** An attempt by `ip` once room for its entry is certain. */
  ghost predicate Admit(c: Config, s: State, ip: Ip, now: real, s': State, granted: bool) {
    var b := if ip in s.buckets then s.buckets[ip] else Fresh(c, now);
    && granted == Attempt(c, b, now).1
    && s' == State(s.buckets[ip := Attempt(c, b, now).0],
                   if granted then s.guards + multiset{ip} else s.guards, now)
  }

  predicate NeedsRoom(c: Config, s: State, ip: Ip) {
    |s.buckets| >= c.maxEntries && ip !in s.buckets
  }

  ghost predicate AcquireStep(c: Config, s: State, ip: Ip, now: real, s': State, granted: bool) {
    && now >= s.clock
    && if NeedsRoom(c, s, ip) then
         exists v :: Victim(s.buckets, v) && AfterEviction(c, s, v, ip, now, s', granted)
       else Admit(c, s, ip, now, s', granted)
  }

  ghost predicate AfterEviction(c: Config, s: State, v: Option<Ip>, ip: Ip, now: real, s': State, granted: bool) {
    match v
    case None => s' == s.(clock := now) && !granted
    case Some(k) => Admit(c, s.(buckets := s.buckets - {k}), ip, now, s', granted)
  }

  function SaturatingPred(n: nat): nat { if n == 0 then 0 else n - 1 }

  /** Dropping a guard releases one session slot of its IP, if the IP is still tracked. */
  ghost predicate DropStep(s: State, ip: Ip, s': State) {
    && ip in s.guards
    && s' == s.(guards := s.guards - multiset{ip},
                buckets := if ip in s.buckets
                           then s.buckets[ip := s.buckets[ip].(concurrent := SaturatingPred(s.buckets[ip].concurrent))]
                           else s.buckets)
  }

  datatype Event = Acquire(ip: Ip, now: real, granted: bool) | Drop(ip: Ip)

  ghost predicate Step(c: Config, s: State, e: Event, s': State) {
    match e
    case Acquire(ip, now, granted) => AcquireStep(c, s, ip, now, s', granted)
    case Drop(ip) => DropStep(s, ip, s')
  }

  ghost predicate Run(c: Config, states: seq<State>, events: seq<Event>) {
    && |states| == |events| + 1
    && forall i :: 0 <= i < |events| ==> Step(c, states[i], events[i], states[i + 1])
  }

  // ---------- the invariant ----------

  ghost predicate GuardsCounted(s: State) {
    forall ip: Ip :: s.guards[ip] == if ip in s.buckets then s.buckets[ip].concurrent else 0
  }

  ghost predicate BucketsSane(c: Config, s: State) {
    forall ip :: ip in s.buckets ==>
      0.0 <= s.buckets[ip].tokens <= c.Capacity() && s.buckets[ip].lastRefill <= s.clock
  }

  /** Each `concurrent` is the number of live guards, tokens stay in range, the table is bounded. */
  ghost predicate Inv(c: Config, s: State) {
    GuardsCounted(s) && BucketsSane(c, s) && |s.buckets| <= c.maxEntries
  }

  lemma LevelInRange(c: Config, b: Bucket, t: real)
    requires 0.0 <= b.tokens <= c.Capacity() && b.lastRefill <= t
    ensures 0.0 <= Level(c, b, t) <= c.Capacity()
  {
    c.AccruedNonNegative(t - b.lastRefill);
  }

  lemma AdmitCounts(c: Config, s: State, ip: Ip, now: real, s': State, granted: bool)
    requires GuardsCounted(s) && Admit(c, s, ip, now, s', granted)
    ensures GuardsCounted(s')
  {
  }

  lemma AdmitStaysSane(c: Config, s: State, ip: Ip, now: real, s': State, granted: bool)
    requires BucketsSane(c, s) && now >= s.clock && Admit(c, s, ip, now, s', granted)
    ensures BucketsSane(c, s')
  {
    var b := if ip in s.buckets then s.buckets[ip] else Fresh(c, now);
    LevelInRange(c, b, now);
  }

  lemma AdmitPreserves(c: Config, s: State, ip: Ip, now: real, s': State, granted: bool)
    requires Inv(c, s) && now >= s.clock && Admit(c, s, ip, now, s', granted)
    requires ip in s.buckets || |s.buckets| < c.maxEntries
    ensures Inv(c, s')
  {
    AdmitCounts(c, s, ip, now, s', granted);
    AdmitStaysSane(c, s, ip, now, s', granted);
    assert s'.buckets.Keys == s.buckets.Keys + {ip};
  }

  lemma EvictPreserves(c: Config, s: State, k: Ip)
    requires Inv(c, s) && k in IdleAmong(s.buckets, s.buckets.Keys)
    ensures Inv(c, s.(buckets := s.buckets - {k}))
    ensures |s.buckets - {k}| < c.maxEntries
  {
    assert (s.buckets - {k}).Keys == s.buckets.Keys - {k};
  }

  lemma VictimIsIdle(buckets: map<Ip, Bucket>, v: Option<Ip>)
    requires Victim(buckets, v)
    ensures OldestAnywhereOrIdle(buckets, v)
  {
    var sample :| IsSample(sample, buckets.Keys) && SampledVictim(buckets, sample, v);
    assert IdleAmong(buckets, sample) <= IdleAmong(buckets, buckets.Keys);
  }

  /** A victim is idle, and there is none only when no entry is idle. */
  ghost predicate OldestAnywhereOrIdle(buckets: map<Ip, Bucket>, v: Option<Ip>) {
    match v
    case None => IdleAmong(buckets, buckets.Keys) == {}
    case Some(k) => k in IdleAmong(buckets, buckets.Keys)
  }

  ghost predicate NoneSeenEarlier(buckets: map<Ip, Bucket>, k: Ip, among: set<Ip>) {
    && k in among && k in buckets
    && forall other :: other in among && other in buckets && buckets[other].concurrent == 0 ==>
         buckets[k].lastSeen <= buckets[other].lastSeen
  }

  ghost predicate AllLive(buckets: map<Ip, Bucket>, among: set<Ip>) {
    forall k :: k in among && k in buckets ==> buckets[k].concurrent > 0
  }

  /** `k` was seen longest ago among the idle entries of 32, or of all if those 32 are live. */
  ghost predicate OldestOfSample(buckets: map<Ip, Bucket>, k: Ip, sample: set<Ip>) {
    && sample <= buckets.Keys && |sample| == (if |buckets| < 32 then |buckets| else 32)
    && (NoneSeenEarlier(buckets, k, sample)
        || (AllLive(buckets, sample) && NoneSeenEarlier(buckets, k, buckets.Keys)))
  }

  /** Only an acquire evicts, only for a newcomer to a full table, and only such an entry. */
  lemma EvictedIsOldestIdle(c: Config, s: State, e: Event, s': State, k: Ip)
    requires Step(c, s, e, s') && k in s.buckets && k !in s'.buckets
    ensures e.Acquire? && e.ip !in s.buckets && |s.buckets| >= c.maxEntries && s.buckets[k].concurrent == 0
    ensures exists sample :: OldestOfSample(s.buckets, k, sample)
  {
    var v :| Victim(s.buckets, v) && AfterEviction(c, s, v, e.ip, e.now, s', e.granted);
    var sample :| IsSample(sample, s.buckets.Keys) && SampledVictim(s.buckets, sample, v);
    assert v == Some(k);
    if IdleAmong(s.buckets, sample) != {} {
      OldestAmong(s.buckets, sample, k);
    } else {
      OldestAmong(s.buckets, s.buckets.Keys, k);
      forall j | j in sample && j in s.buckets ensures s.buckets[j].concurrent > 0 {
        assert j !in IdleAmong(s.buckets, sample);
      }
    }
    assert OldestOfSample(s.buckets, k, sample);
  }

  lemma OldestAmong(buckets: map<Ip, Bucket>, among: set<Ip>, k: Ip)
    requires OldestIdle(buckets, among, Some(k))
    ensures NoneSeenEarlier(buckets, k, among) && buckets[k].concurrent == 0
  {
    forall other | other in among && other in buckets && buckets[other].concurrent == 0
      ensures buckets[k].lastSeen <= buckets[other].lastSeen
    {
      assert other in IdleAmong(buckets, among);
    }
  }

  lemma StepPreserves(c: Config, s: State, e: Event, s': State)
    requires Inv(c, s) && Step(c, s, e, s')
    ensures Inv(c, s') && s'.clock >= s.clock
  {
    match e
    case Acquire(ip, now, granted) =>
      if NeedsRoom(c, s, ip) {
        var v :| Victim(s.buckets, v) && AfterEviction(c, s, v, ip, now, s', granted);
        VictimIsIdle(s.buckets, v);
        if v.Some? {
          EvictPreserves(c, s, v.value);
          AdmitPreserves(c, s.(buckets := s.buckets - {v.value}), ip, now, s', granted);
        }
      } else {
        AdmitPreserves(c, s, ip, now, s', granted);
      }
    case Drop(ip) =>
      DropReleasesOne(c, s, ip, s');
      assert ip in s.buckets ==> s'.buckets.Keys == s.buckets.Keys;
  }

  /** Whatever the interleaving of acquires and drops, every reachable state keeps the books. */
  lemma {:induction false} RunKeepsInvariant(c: Config, states: seq<State>, events: seq<Event>, n: nat)
    requires Run(c, states, events) && Inv(c, states[0]) && n < |states|
    ensures Inv(c, states[n])
  {
    if n > 0 {
      RunKeepsInvariant(c, states, events, n - 1);
      StepPreserves(c, states[n - 1], events[n - 1], states[n]);
    }
  }

  lemma InitInvariant(c: Config)
    ensures Inv(c, Init)
  {
  }

  // ---------- guards and eviction ----------

  /** The saturating subtraction never saturates: a dropped guard's IP is tracked and counted. */
  lemma DropReleasesOne(c: Config, s: State, ip: Ip, s': State)
    requires Inv(c, s) && DropStep(s, ip, s')
    ensures ip in s.buckets && s.buckets[ip].concurrent >= 1
    ensures s'.buckets[ip].concurrent == s.buckets[ip].concurrent - 1
  {
    assert s.guards[ip] > 0;
  }

  /** No step removes an entry that still has a session open. */
  lemma LiveEntriesSurvive(c: Config, s: State, e: Event, s': State, ip: Ip)
    requires Inv(c, s) && Step(c, s, e, s') && ip in s.guards
    ensures ip in s'.buckets
  {
    assert s.guards[ip] > 0;
    if e.Acquire? && NeedsRoom(c, s, e.ip) {
      var v :| Victim(s.buckets, v) && AfterEviction(c, s, v, e.ip, e.now, s', e.granted);
      VictimIsIdle(s.buckets, v);
    }
  }

  /** An untracked IP is refused exactly when the table is full and every entry is live. */
  lemma UntrackedRefusedIffFullAndLive(c: Config, s: State, ip: Ip, now: real, s': State, granted: bool)
    requires Inv(c, s) && AcquireStep(c, s, ip, now, s', granted) && ip !in s.buckets
    ensures !granted <==> |s.buckets| == c.maxEntries && forall k :: k in s.buckets ==> k in s.guards
    ensures granted ==> ip in s'.guards && s'.buckets[ip].concurrent == 1
  {
    FreshIsGranted(c, now);
    assert forall k: Ip :: s.guards[k] == if k in s.buckets then s.buckets[k].concurrent else 0;
    if NeedsRoom(c, s, ip) {
      var v :| Victim(s.buckets, v) && AfterEviction(c, s, v, ip, now, s', granted);
      VictimIsIdle(s.buckets, v);
      if v.None? {
        forall k | k in s.buckets ensures k in s.guards {
          assert k !in IdleAmong(s.buckets, s.buckets.Keys);
        }
      } else {
        assert s.guards[v.value] == 0;
      }
    }
  }

  lemma FreshIsGranted(c: Config, now: real)
    ensures Attempt(c, Fresh(c, now), now).1
    ensures Attempt(c, Fresh(c, now), now).0.concurrent == 1
  {
    assert Level(c, Fresh(c, now), now) == c.Capacity();
  }

  // ---------- the rate bound ----------

  /** A grant costs exactly one token, a refusal none; with the limit off nothing is spent. */
  lemma AttemptAccounting(c: Config, b: Bucket, now: real)
    requires 0.0 <= b.tokens <= c.Capacity() && b.lastRefill <= now
    ensures var (b', granted) := Attempt(c, b, now);
      && Level(c, b', now) == Level(c, b, now) - (if granted && c.perMinute > 0 then 1.0 else 0.0)
      && b'.concurrent == b.concurrent + (if granted then 1 else 0)
      && 0.0 <= b'.tokens
      && (granted <==> BelowSessionCap(c, b) && (c.perMinute == 0 || HasToken(c, b, now)))
  {
    LevelInRange(c, b, now);
    LevelAtRefill(c, Attempt(c, b, now).0, now);
    c.AccruedPerMinute(now - b.lastRefill);
  }

  predicate BelowSessionCap(c: Config, b: Bucket) {
    c.maxConcurrent == 0 || b.concurrent < c.maxConcurrent
  }

  /** Sixty times the tokens stored and refilled since make up one token. */
  predicate HasToken(c: Config, b: Bucket, now: real) {
    60.0 * b.tokens + c.perMinute as real * (now - b.lastRefill) >= 60.0
  }

  lemma LevelAtRefill(c: Config, b: Bucket, now: real)
    requires b.lastRefill == now && b.tokens <= c.Capacity()
    ensures Level(c, b, now) == b.tokens
  {
    c.AccruedNonNegative(now - b.lastRefill);
  }

  /** The level rises no faster than the refill rate. */
  lemma LevelGrowth(c: Config, b: Bucket, t: real, t': real)
    requires t <= t'
    ensures Level(c, b, t') <= Level(c, b, t) + c.Accrued(t' - t)
    ensures Level(c, b, t) <= Level(c, b, t')
  {
    c.AccruedSum(t - b.lastRefill, t' - t);
    c.AccruedNonNegative(t' - t);
  }

  /** Grants to `ip` among the first `n` events. */
  ghost function GrantedTo(events: seq<Event>, ip: Ip, n: nat): nat
    requires n <= |events|
  {
    if n == 0 then 0 else GrantedTo(events, ip, n - 1) + Grant(events[n - 1], ip)
  }

  function Grant(e: Event, ip: Ip): nat {
    if e.Acquire? && e.ip == ip && e.granted then 1 else 0
  }

  /** The entry of `ip` is never evicted along the run. */
  ghost predicate NeverEvicted(states: seq<State>, ip: Ip) {
    forall i :: 0 <= i < |states| - 1 ==> (ip in states[i].buckets ==> ip in states[i + 1].buckets)
  }

  /** All attempts fall between `t0` and `t1`. */
  ghost predicate Within(events: seq<Event>, t0: real, t1: real) {
    forall i :: 0 <= i < |events| ==> events[i].Acquire? ==> t0 <= events[i].now <= t1
  }

  /** Grants so far plus tokens left never exceed the capacity plus the refill since `t0`. */
  ghost predicate Potential(c: Config, s: State, ip: Ip, t0: real, granted: nat) {
    && (ip !in s.buckets ==> granted == 0)
    && (ip in s.buckets ==> forall t :: t >= t0 && t >= s.clock ==>
          granted as real + Level(c, s.buckets[ip], t) <= c.Capacity() + c.Accrued(t - t0))
  }

  /** One attempt by `ip` itself, starting from bucket `b`. */
  lemma AttemptKeepsPotential(c: Config, b: Bucket, now: real, t0: real, granted: nat, t: real)
    requires c.perMinute > 0 && 0.0 <= b.tokens <= c.Capacity() && b.lastRefill <= now
    requires granted as real + Level(c, b, now) <= c.Capacity() + c.Accrued(now - t0)
    requires t0 <= now <= t
    ensures var (b', g) := Attempt(c, b, now);
      (granted + if g then 1 else 0) as real + Level(c, b', t) <= c.Capacity() + c.Accrued(t - t0)
  {
    var (b', g) := Attempt(c, b, now);
    AttemptAccounting(c, b, now);
    LevelGrowth(c, b', now, t);
    c.AccruedSum(now - t0, t - now);
  }

  lemma FreshPotential(c: Config, now: real, t0: real)
    requires t0 <= now
    ensures Level(c, Fresh(c, now), now) <= c.Capacity() + c.Accrued(now - t0)
  {
    c.AccruedNonNegative(now - t0);
  }

  /** A step that leaves the entry of `ip` alone, or attempts on its behalf, keeps the potential. */
  lemma StepKeepsPotential(c: Config, s: State, e: Event, s': State, ip: Ip, t0: real, granted: nat)
    requires c.perMinute > 0 && Inv(c, s) && Step(c, s, e, s')
    requires ip in s.buckets ==> ip in s'.buckets
    requires e.Acquire? ==> t0 <= e.now
    requires Potential(c, s, ip, t0, granted)
    ensures Potential(c, s', ip, t0, granted + Grant(e, ip))
  {
    StepPreserves(c, s, e, s');
    if e.Acquire? && e.ip == ip {
      OwnAttemptKeepsPotential(c, s, e, s', t0, granted);
    } else {
      OthersLeaveLevel(c, s, e, s', ip);
    }
  }

  lemma OthersLeaveLevel(c: Config, s: State, e: Event, s': State, ip: Ip)
    requires Step(c, s, e, s') && !(e.Acquire? && e.ip == ip)
    requires ip in s.buckets ==> ip in s'.buckets
    ensures ip in s'.buckets <==> ip in s.buckets
    ensures ip in s.buckets ==> forall t :: Level(c, s'.buckets[ip], t) == Level(c, s.buckets[ip], t)
  {
    if e.Acquire? && NeedsRoom(c, s, e.ip) {
      var v :| Victim(s.buckets, v) && AfterEviction(c, s, v, e.ip, e.now, s', e.granted);
    }
  }

  lemma OwnAttemptKeepsPotential(c: Config, s: State, e: Event, s': State, t0: real, granted: nat)
    requires c.perMinute > 0 && Inv(c, s) && Step(c, s, e, s')
    requires e.Acquire? && t0 <= e.now
    requires Potential(c, s, e.ip, t0, granted)
    ensures Potential(c, s', e.ip, t0, granted + if e.granted then 1 else 0)
  {
    var ip, now := e.ip, e.now;
    var b := if ip in s.buckets then s.buckets[ip] else Fresh(c, now);
    var refused := NeedsRoom(c, s, ip) && s'.buckets == s.buckets && !e.granted;
    if !refused {
      OwnAttemptBucket(c, s, e, s');
      assert s'.clock == now;
      FreshPotential(c, now, t0);
      forall t | t >= t0 && t >= now
        ensures (granted + if e.granted then 1 else 0) as real + Level(c, s'.buckets[ip], t)
             <= c.Capacity() + c.Accrued(t - t0)
      {
        AttemptKeepsPotential(c, b, now, t0, granted, t);
      }
    }
  }

  /** Unless the table is full of live sessions, an attempt stores exactly the attempted bucket. */
  lemma OwnAttemptBucket(c: Config, s: State, e: Event, s': State)
    requires Step(c, s, e, s') && e.Acquire?
    ensures var b := if e.ip in s.buckets then s.buckets[e.ip] else Fresh(c, e.now);
      || (NeedsRoom(c, s, e.ip) && s'.buckets == s.buckets && !e.granted)
      || (e.ip in s'.buckets && (s'.buckets[e.ip], e.granted) == Attempt(c, b, e.now))
    ensures s'.clock == e.now
  {
    if NeedsRoom(c, s, e.ip) {
      var v :| Victim(s.buckets, v) && AfterEviction(c, s, v, e.ip, e.now, s', e.granted);
    }
  }

  lemma InitialPotential(c: Config, s: State, ip: Ip, t0: real)
    requires Inv(c, s) && s.clock <= t0
    ensures Potential(c, s, ip, t0, 0)
  {
    if ip in s.buckets {
      forall t | t >= t0 && t >= s.clock
        ensures Level(c, s.buckets[ip], t) <= c.Capacity() + c.Accrued(t - t0)
      {
        c.AccruedNonNegative(t - t0);
      }
    }
  }

  lemma {:induction false} RunKeepsPotential(c: Config, states: seq<State>, events: seq<Event>, ip: Ip, t0: real,
                                             t1: real, n: nat)
    requires c.perMinute > 0 && Run(c, states, events) && Inv(c, states[0]) && n <= |events|
    requires states[0].clock <= t0 <= t1 && Within(events, t0, t1) && NeverEvicted(states, ip)
    ensures Potential(c, states[n], ip, t0, GrantedTo(events, ip, n))
    ensures Inv(c, states[n]) && states[n].clock <= t1
  {
    if n == 0 {
      InitialPotential(c, states[0], ip, t0);
    } else {
      RunKeepsPotential(c, states, events, ip, t0, t1, n - 1);
      var s, e, s' := states[n - 1], events[n - 1], states[n];
      assert Step(c, s, e, s');
      assert ip in s.buckets ==> ip in states[(n - 1) + 1].buckets;
      StepPreserves(c, s, e, s');
      StepKeepsPotential(c, s, e, s', ip, t0, GrantedTo(events, ip, n - 1));
      StepClock(c, s, e, s');
    }
  }

  lemma StepClock(c: Config, s: State, e: Event, s': State)
    requires Step(c, s, e, s')
    ensures s'.clock == if e.Acquire? then e.now else s.clock
  {
    if e.Acquire? {
      OwnAttemptBucket(c, s, e, s');
    }
  }

  lemma GrantsWithinRefill(c: Config, states: seq<State>, events: seq<Event>, ip: Ip, t0: real, t1: real)
    requires c.perMinute > 0 && Run(c, states, events) && Inv(c, states[0])
    requires states[0].clock <= t0 <= t1 && Within(events, t0, t1) && NeverEvicted(states, ip)
    ensures GrantedTo(events, ip, |events|) as real <= c.Capacity() + c.Accrued(t1 - t0)
  {
    RunKeepsPotential(c, states, events, ip, t0, t1, |events|);
    PotentialBounds(c, states[|events|], ip, t0, t1, GrantedTo(events, ip, |events|));
  }

  /** With the limit on, in any stretch of any run during which the entry of `ip` is not evicted,
      the grants to `ip` are at most `perMinute` for each minute elapsed and one minute more. */
  lemma RateBound(c: Config, states: seq<State>, events: seq<Event>, ip: Ip, t0: real, t1: real)
    requires c.perMinute > 0 && Run(c, states, events) && Inv(c, states[0])
    requires states[0].clock <= t0 <= t1 && Within(events, t0, t1) && NeverEvicted(states, ip)
    ensures 60.0 * GrantedTo(events, ip, |events|) as real <= c.perMinute as real * (60.0 + (t1 - t0))
  {
    GrantsWithinRefill(c, states, events, ip, t0, t1);
    InCallersNumbers(c, GrantedTo(events, ip, |events|), t1 - t0);
  }

  lemma InCallersNumbers(c: Config, granted: nat, elapsed: real)
    requires c.perMinute > 0 && granted as real <= c.Capacity() + c.Accrued(elapsed)
    ensures 60.0 * granted as real <= c.perMinute as real * (60.0 + elapsed)
  {
    c.AccruedPerMinute(elapsed);
    MinuteAndMore(c.perMinute as real, elapsed);
  }

  lemma MinuteAndMore(p: real, elapsed: real)
    ensures p * (60.0 + elapsed) == 60.0 * p + p * elapsed
  {
  }

  lemma PotentialBounds(c: Config, s: State, ip: Ip, t0: real, t1: real, granted: nat)
    requires Inv(c, s) && s.clock <= t1 && t0 <= t1 && Potential(c, s, ip, t0, granted)
    ensures granted as real <= c.Capacity() + c.Accrued(t1 - t0)
  {
    if ip in s.buckets {
      LevelInRange(c, s.buckets[ip], t1);
    } else {
      c.AccruedNonNegative(t1 - t0);
    }
  }

  /** Below its session cap, an IP left alone for one refill period is granted again. */
  lemma RefillRestoresService(c: Config, b: Bucket, now: real)
    requires c.perMinute > 0 && 0.0 <= b.tokens <= c.Capacity() && BelowSessionCap(c, b)
    requires now - b.lastRefill >= 60.0 / c.perMinute as real
    ensures Attempt(c, b, now).1
  {
    OnePeriod(c.perMinute as real, now - b.lastRefill);
    AttemptAccounting(c, b, now);
  }

  /** And an emptied bucket is refused until then. */
  lemma EmptiedIsRefused(c: Config, b: Bucket, now: real)
    requires c.perMinute > 0 && b.tokens == 0.0 && b.lastRefill <= now
    requires now - b.lastRefill < 60.0 / c.perMinute as real
    ensures !Attempt(c, b, now).1
  {
    OnePeriod(c.perMinute as real, now - b.lastRefill);
    AttemptAccounting(c, b, now);
  }

  lemma OnePeriod(p: real, elapsed: real)
    requires p >= 1.0 && elapsed >= 0.0
    ensures elapsed >= 60.0 / p <==> p * elapsed >= 60.0
  {
    var period := 60.0 / p;
    assert p * period == 60.0;
    assert p * (elapsed - period) == p * elapsed - 60.0;
    if elapsed >= period {
      assert p * (elapsed - period) >= 0.0;
    } else {
      assert p * (period - elapsed) > 0.0;
    }
  }

  /** The bucket after `n` attempts at one moment. */
  function After(c: Config, b: Bucket, now: real, n: nat): Bucket {
    if n == 0 then b else Attempt(c, After(c, b, now, n - 1), now).0
  }

  /** A newcomer, or an IP whose entry was evicted, gets a burst of exactly `perMinute` grants. */
  lemma {:induction false} BurstIsServed(c: Config, now: real, n: nat)
    requires 0 < c.perMinute && n <= c.perMinute && (c.maxConcurrent == 0 || n < c.maxConcurrent)
    ensures var b := After(c, Fresh(c, now), now, n);
      && b.tokens == c.perMinute as real - n as real && b.lastRefill == now && b.concurrent == n
      && (Attempt(c, b, now).1 <==> n < c.perMinute)
  {
    var b := After(c, Fresh(c, now), now, n);
    if n > 0 {
      BurstIsServed(c, now, n - 1);
      LevelAtRefill(c, After(c, Fresh(c, now), now, n - 1), now);
    }
    LevelAtRefill(c, b, now);
  }

  // ---------- the session cap over whole runs ----------

  ghost predicate Capped(c: Config, s: State) {
    forall ip :: ip in s.buckets ==> s.buckets[ip].concurrent <= c.maxConcurrent
  }

  lemma AttemptCapped(c: Config, b: Bucket, now: real)
    requires c.maxConcurrent > 0 && b.concurrent <= c.maxConcurrent
    ensures Attempt(c, b, now).0.concurrent <= c.maxConcurrent
  {
  }

  lemma StepCapped(c: Config, s: State, e: Event, s': State)
    requires c.maxConcurrent > 0 && Capped(c, s) && Step(c, s, e, s')
    ensures Capped(c, s')
  {
    forall ip | ip in s'.buckets ensures s'.buckets[ip].concurrent <= c.maxConcurrent {
      if e.Acquire? && e.ip == ip {
        OwnAttemptBucket(c, s, e, s');
        AttemptCapped(c, if ip in s.buckets then s.buckets[ip] else Fresh(c, e.now), e.now);
      } else if ip in s.buckets {
        OthersKeepSessions(c, s, e, s', ip);
      }
    }
  }

  lemma OthersKeepSessions(c: Config, s: State, e: Event, s': State, ip: Ip)
    requires Step(c, s, e, s') && ip in s.buckets && ip in s'.buckets && !(e.Acquire? && e.ip == ip)
    ensures s'.buckets[ip].concurrent <= s.buckets[ip].concurrent
  {
  }

  lemma {:induction false} RunCapped(c: Config, states: seq<State>, events: seq<Event>, n: nat)
    requires c.maxConcurrent > 0 && Run(c, states, events) && Capped(c, states[0]) && n < |states|
    ensures Capped(c, states[n])
  {
    if n > 0 {
      RunCapped(c, states, events, n - 1);
      assert Step(c, states[n - 1], events[n - 1], states[(n - 1) + 1]);
      StepCapped(c, states[n - 1], events[n - 1], states[n]);
    }
  }

  /** No IP ever has more sessions open than the cap allows. */
  lemma SessionCapHolds(c: Config, states: seq<State>, events: seq<Event>, n: nat, ip: Ip)
    requires c.maxConcurrent > 0 && Run(c, states, events) && states[0] == Init && n < |states|
    ensures states[n].guards[ip] <= c.maxConcurrent
  {
    RunCapped(c, states, events, n);
    InitInvariant(c);
    RunKeepsInvariant(c, states, events, n);
  }

  // ---------- the limiter ----------

  class PerPeerLimiter {
    const config: Config
    var buckets: map<Ip, Bucket>
    ghost var guards: multiset<Ip>
    ghost var clock: real

    ghost function Abs(): State
      reads this
    {
      State(buckets, guards, clock)
    }

    ghost predicate Valid()
      reads this
    {
      Inv(config, Abs())
    }

    constructor (perMinute: nat, maxConcurrent: nat, maxEntries: nat)
      ensures config == Config(perMinute, maxConcurrent, maxEntries)
      ensures Abs() == Init && Valid()
    {
      config := Config(perMinute, maxConcurrent, maxEntries);
      buckets := map[];
      guards := multiset{};
      clock := 0.0;
    }

    /** Scans `among` for the idle entry seen longest ago. */
    method FindOldestIdle(among: set<Ip>) returns (v: Option<Ip>)
      requires among <= buckets.Keys
      ensures OldestIdle(buckets, among, v)
    {
      v := None;
      var left := among;
      while left != {}
        invariant left <= among
        invariant OldestIdle(buckets, among - left, v)
      {
        var k :| k in left;
        ghost var seen := IdleAmong(buckets, among - left);
        if buckets[k].concurrent == 0 && (v.None? || buckets[k].lastSeen < buckets[v.value].lastSeen) {
          v := Some(k);
        }
        left := left - {k};
        assert IdleAmong(buckets, among - left) == if buckets[k].concurrent == 0 then seen + {k} else seen;
      }
      assert among - left == among;
    }

    method ChooseVictim() returns (v: Option<Ip>)
      ensures Victim(buckets, v)
    {
      var sample := FirstEntries(buckets.Keys);
      v := FindOldestIdle(sample);
      if v.None? {
        v := FindOldestIdle(buckets.Keys);
      }
      assert IsSample(sample, buckets.Keys) && SampledVictim(buckets, sample, v);
    }

    /** Refill, session cap, token check, in that order. */
    method AttemptOn(b: Bucket, now: real) returns (b': Bucket, granted: bool)
      ensures (b', granted) == Attempt(config, b, now)
    {
      b' := Refilled(config, b, now);
      if config.maxConcurrent > 0 && b'.concurrent >= config.maxConcurrent {
        return b', false;
      }
      if config.RefillPerSec() > 0.0 {
        if b'.tokens < 1.0 {
          return b', false;
        }
        b' := b'.(tokens := b'.tokens - 1.0);
      }
      b' := b'.(concurrent := b'.concurrent + 1);
      granted := true;
    }

    /** One connection attempt; `granted` means the caller now holds a guard for `ip`. */
    method TryAcquire(ip: Ip, now: real) returns (granted: bool)
      requires Valid() && now >= clock
      modifies this
      ensures Valid() && AcquireStep(config, old(Abs()), ip, now, Abs(), granted)
    {
      var table := buckets;
      ghost var victim: Option<Ip> := None;
      if |buckets| >= config.maxEntries && ip !in buckets {
        var v := ChooseVictim();
        victim := v;
        if v.None? {
          granted := false;
          clock := now;
          assert AfterEviction(config, old(Abs()), v, ip, now, Abs(), granted);
          StepPreserves(config, old(Abs()), Acquire(ip, now, granted), Abs());
          return;
        }
        table := buckets - {v.value};
      }
      var b := if ip in table then table[ip] else Fresh(config, now);
      b, granted := AttemptOn(b, now);
      buckets, clock := table[ip := b], now;
      guards := if granted then guards + multiset{ip} else guards;
      assert Admit(config, State(table, old(guards), old(clock)), ip, now, Abs(), granted);
      assert NeedsRoom(config, old(Abs()), ip) ==> AfterEviction(config, old(Abs()), victim, ip, now, Abs(), granted);
      StepPreserves(config, old(Abs()), Acquire(ip, now, granted), Abs());
    }

    /** What dropping a guard of `ip` does; a guard is dropped once. */
    method ReleaseGuard(ip: Ip)
      requires Valid() && ip in guards
      modifies this
      ensures Valid() && DropStep(old(Abs()), ip, Abs())
    {
      ghost var before := Abs();
      if ip in buckets {
        buckets := buckets[ip := buckets[ip].(concurrent := SaturatingPred(buckets[ip].concurrent))];
      }
      guards := guards - multiset{ip};
      StepPreserves(config, before, Drop(ip), Abs());
    }
  }
}
