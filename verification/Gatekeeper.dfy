/**
 Cohort-wide soft-blocking (crates/bridge/src/probe_defense.rs): the expiring block list, the
 distinct-publisher quorum on gossiped reports, and the gatekeeper that composes them with the
 failure detector. Each section that holds one lock is a step of its own, so a block follows the
 detection that caused it after whatever else happened in between. Times are in nanoseconds on a
 clock that never runs backwards; a gossiped event carries its authenticated publisher.
 */
module Gatekeeper {
  import opened Collections
  import opened Window
  import PD = ProbeDetector

  type Ip = nat
  type Publisher = nat

  const MAX_SOFTBLOCK_SECS: nat := 24 * 3600
  const MAX_SOFTBLOCK: nat := MAX_SOFTBLOCK_SECS * SECOND
  const QUORUM: nat := 2
  const REPORT_WINDOW: nat := 600 * SECOND
  const QUORUM_CAPACITY: nat := 4096
  const SOFTBLOCK_CAPACITY: nat := 16384

  type BlockList = map<Ip, nat>
  type Reports = map<Ip, map<Publisher, nat>>

  // ---------- the block list ----------

  ghost predicate SoonestExpiry(m: BlockList, k: Ip) {
    k in m && forall other :: other in m ==> m[k] <= m[other]
  }

  ghost predicate BlockRoom(m: BlockList, ip: Ip, room: BlockList) {
    if ip !in m && |m| >= SOFTBLOCK_CAPACITY then exists k :: SoonestExpiry(m, k) && room == m - {k}
    else room == m
  }

  function ExpiryOf(now: nat, expireIn: nat): nat {
    now + Min(expireIn, MAX_SOFTBLOCK)
  }

  /** A later expiry already present wins. */
  function Blocked(room: BlockList, ip: Ip, expiry: nat): BlockList {
    if ip in room && room[ip] >= expiry then room else room[ip := expiry]
  }

  ghost predicate AddStep(m: BlockList, ip: Ip, expireIn: nat, now: nat, m': BlockList) {
    exists room :: BlockRoom(m, ip, room) && m' == Blocked(room, ip, ExpiryOf(now, expireIn))
  }

  predicate ShouldBlock(m: BlockList, ip: Ip, now: nat) {
    ip in m && m[ip] > now
  }

  function ReapedBlocks(m: BlockList, now: nat): BlockList {
    map ip | ip in m && m[ip] > now :: m[ip]
  }

  /** Sweeping is invisible to every later check: it drops only entries that no longer block. */
  lemma SweepIsInvisible(m: BlockList, now: nat, ip: Ip, t: nat)
    requires t >= now
    ensures ShouldBlock(ReapedBlocks(m, now), ip, t) <==> ShouldBlock(m, ip, t)
    ensures |ReapedBlocks(m, now)| <= |m|
    ensures ip in ReapedBlocks(m, now) ==> ShouldBlock(m, ip, now)
  {
    SubsetSize(ReapedBlocks(m, now).Keys, m.Keys);
  }

  // ---------- the quorum ----------

  /** The most recent report of an IP, below every time when it has none. */
  ghost predicate IsLatest(pubs: map<Publisher, nat>, t: int) {
    || (pubs == map[] && t == -1)
    || ((exists p :: p in pubs && pubs[p] == t) && forall p :: p in pubs ==> pubs[p] <= t)
  }

  ghost predicate StalestReports(m: Reports, k: Ip) {
    && k in m
    && forall other, t, t' :: other in m && IsLatest(m[k], t) && IsLatest(m[other], t') ==> t <= t'
  }

  ghost predicate ReportRoom(m: Reports, ip: Ip, room: Reports) {
    if ip !in m && |m| >= QUORUM_CAPACITY then exists k :: StalestReports(m, k) && room == m - {k}
    else room == m
  }

  function LiveReports(pubs: map<Publisher, nat>, now: nat): map<Publisher, nat> {
    map p | p in pubs && now - pubs[p] <= REPORT_WINDOW :: pubs[p]
  }

  function WithReport(room: Reports, ip: Ip, p: Publisher, now: nat): Reports {
    room[ip := LiveReports(if ip in room then room[ip] else map[], now)[p := now]]
  }

  ghost predicate QuorumStep(m: Reports, ip: Ip, p: Publisher, now: nat, m': Reports, reached: bool) {
    && (exists room :: ReportRoom(m, ip, room) && m' == WithReport(room, ip, p, now))
    && ip in m' && reached == (|m'[ip]| >= QUORUM)
  }

  // ---------- the gatekeeper ----------

  datatype Config = Config(detector: PD.Config, blockDuration: nat, shadowActive: bool)

  datatype State = State(detector: PD.State, blocks: BlockList, reports: Reports, clock: nat)

  ghost const Init: State := State(PD.Init, map[], map[], 0)

  /** Detection, gossip quorum, block list and the two halves of the reaper, each under its own lock. */
  datatype Event =
    | AuthFailure(ip: Ip, now: nat, edge: bool)
    | Report(ip: Ip, publisher: Publisher, expireSecs: nat, now: nat, reached: bool)
    | Add(ip: Ip, expireIn: nat, now: nat)
    | Reap(now: nat)
    | Sweep(now: nat)

  /** The event as the detector sees it. */
  function DetectorEvent(e: Event): PD.Event {
    match e
    case AuthFailure(ip, now, edge) => PD.Failure(ip, now, edge)
    case Reap(now) => PD.Reap(now)
    case _ => PD.Tick(e.now)
  }

  /** The event has its IP put on the block list: a local edge, or a report completing a quorum. */
  predicate Blocks(c: Config, e: Event, ip: Ip) {
    match e
    case AuthFailure(k, _, edge) => k == ip && edge && !c.shadowActive
    case Report(k, _, _, _, reached) => k == ip && reached
    case _ => false
  }

  function BlockFor(c: Config, e: Event): nat {
    match e
    case AuthFailure(_, _, _) => c.blockDuration
    case Report(_, _, secs, _, _) => Min(secs, MAX_SOFTBLOCK_SECS) * SECOND
    case _ => 0
  }

  /** `add` carries out what `e` demands. */
  predicate CarriesOut(c: Config, e: Event, add: Event) {
    add.Add? && Blocks(c, e, add.ip) && add.expireIn == BlockFor(c, e)
  }

  ghost predicate BlocksStep(m: BlockList, e: Event, m': BlockList) {
    match e
    case Add(ip, expireIn, now) => AddStep(m, ip, expireIn, now, m')
    case Sweep(now) => m' == ReapedBlocks(m, now)
    case _ => m' == m
  }

  ghost predicate ReportsStep(m: Reports, e: Event, m': Reports) {
    if e.Report? then QuorumStep(m, e.ip, e.publisher, e.now, m', e.reached) else m' == m
  }

  ghost predicate Step(c: Config, s: State, e: Event, s': State) {
    && e.now >= s.clock && s'.clock == e.now
    && PD.Step(c.detector, s.detector, DetectorEvent(e), s'.detector)
    && ReportsStep(s.reports, e, s'.reports)
    && BlocksStep(s.blocks, e, s'.blocks)
  }

  /** Every addition carries out an earlier event. */
  ghost predicate AddsAreDemanded(c: Config, events: seq<Event>) {
    forall i :: 0 <= i < |events| && events[i].Add? ==> exists k :: 0 <= k < i && CarriesOut(c, events[k], events[i])
  }

  /** And does so at most `lag` after it. */
  ghost predicate AddsWithin(c: Config, events: seq<Event>, lag: nat) {
    forall i :: 0 <= i < |events| && events[i].Add? ==>
      exists k :: 0 <= k < i && CarriesOut(c, events[k], events[i]) && events[i].now - events[k].now <= lag
  }

  /** Tasks interleave freely; each adds to the block list some time after its detection. */
  ghost predicate Run(c: Config, states: seq<State>, events: seq<Event>) {
    && |states| == |events| + 1 && states[0] == Init
    && (forall i :: 0 <= i < |events| ==> Step(c, states[i], events[i], states[i + 1]))
    && AddsAreDemanded(c, events)
  }

  predicate ShouldAccept(c: Config, s: State, ip: Ip, now: nat) {
    c.shadowActive || !ShouldBlock(s.blocks, ip, now)
  }

  // ---------- the detector inside a run ----------

  ghost function DetectorStates(states: seq<State>): (d: seq<PD.State>)
    ensures |d| == |states| && forall i :: 0 <= i < |d| ==> d[i] == states[i].detector
  {
    seq(|states|, i requires 0 <= i < |states| => states[i].detector)
  }

  ghost function DetectorEvents(events: seq<Event>): (d: seq<PD.Event>)
    ensures |d| == |events| && forall i :: 0 <= i < |d| ==> d[i] == DetectorEvent(events[i])
  {
    seq(|events|, i requires 0 <= i < |events| => DetectorEvent(events[i]))
  }

  /** A run of the gatekeeper contains a run of its detector. */
  lemma DetectorRuns(c: Config, states: seq<State>, events: seq<Event>)
    requires Run(c, states, events)
    ensures PD.Run(c.detector, DetectorStates(states), DetectorEvents(events))
  {
    forall i | 0 <= i < |events|
      ensures PD.Step(c.detector, DetectorStates(states)[i], DetectorEvents(events)[i], DetectorStates(states)[i + 1])
    {
      assert Step(c, states[i], events[i], states[i + 1]);
    }
  }

  /** `threshold` auth failures of `ip` within the detector's window, ending with event `i`. */
  ghost predicate LocalCause(c: Config, events: seq<Event>, i: nat, ip: Ip)
    requires i < |events|
  {
    && events[i].AuthFailure? && events[i].ip == ip
    && PD.InWindow(c.detector, DetectorEvents(events), i) >= c.detector.threshold
  }

  /** Two distinct publishers reported `ip` within one report window, the second with event `i`. */
  ghost predicate QuorumCause(events: seq<Event>, i: nat, ip: Ip)
    requires i < |events|
  {
    && events[i].Report? && events[i].ip == ip
    && exists j :: 0 <= j < i && events[j].Report? && events[j].ip == ip
         && events[j].publisher != events[i].publisher && events[i].now - events[j].now <= 600_000_000_000
  }

  ghost predicate HasCause(c: Config, events: seq<Event>, i: nat, ip: Ip)
    requires i < |events|
  {
    LocalCause(c, events, i, ip) || QuorumCause(events, i, ip)
  }

  // ---------- the quorum against the full history ----------

  ghost predicate Reported(e: Event, ip: Ip, p: Publisher) {
    e.Report? && e.ip == ip && e.publisher == p
  }

  /** A stored report is one from before, or this one. */
  lemma ReportComesFrom(m: Reports, e: Event, m': Reports, ip: Ip, p: Publisher)
    requires ReportsStep(m, e, m') && ip in m' && p in m'[ip]
    ensures (ip in m && p in m[ip] && m[ip][p] == m'[ip][p]) || (Reported(e, ip, p) && e.now == m'[ip][p])
  {
    if e.Report? {
      var room :| ReportRoom(m, e.ip, room) && m' == WithReport(room, e.ip, e.publisher, e.now);
    }
  }

  /** The quorum table's own steps in a run. */
  ghost predicate ReportsRun(states: seq<State>, events: seq<Event>) {
    && |states| == |events| + 1 && states[0].reports == map[]
    && forall i :: 0 <= i < |events| ==> ReportsStepAt(states, events, i)
  }

  ghost predicate ReportsStepAt(states: seq<State>, events: seq<Event>, i: nat)
    requires i < |events| < |states|
  {
    ReportsStep(states[i].reports, events[i], states[i + 1].reports)
  }

  lemma RunOfReports(c: Config, states: seq<State>, events: seq<Event>)
    requires Run(c, states, events)
    ensures ReportsRun(states, events)
  {
    forall i | 0 <= i < |events| ensures ReportsStepAt(states, events, i) {
      assert Step(c, states[i], events[i], states[i + 1]);
    }
  }

  /** Stored reports were made. */
  lemma {:induction false} ReportWasMade(states: seq<State>, events: seq<Event>, n: nat, ip: Ip, p: Publisher)
    returns (j: nat)
    requires ReportsRun(states, events) && n < |states| && ip in states[n].reports && p in states[n].reports[ip]
    ensures j < n && Reported(events[j], ip, p) && events[j].now == states[n].reports[ip][p]
  {
    var m, e, m' := states[n - 1].reports, events[n - 1], states[n].reports;
    assert ReportsStepAt(states, events, n - 1);
    ReportComesFrom(m, e, m', ip, p);
    if Reported(e, ip, p) && e.now == m'[ip][p] {
      j := n - 1;
    } else {
      j := ReportWasMade(states, events, n - 1, ip, p);
    }
  }

  lemma OtherMember(m: map<Publisher, nat>, p: Publisher) returns (q: Publisher)
    requires |m| >= 2
    ensures q in m && q != p
  {
    var a :| a in m.Keys;
    assert |m.Keys - {a}| >= 1;
    var b :| b in m.Keys - {a};
    q := if a != p then a else b;
  }

  /** One publisher replaying a report never reaches the quorum; a reached quorum has a second. */
  lemma ReachedHasCause(c: Config, states: seq<State>, events: seq<Event>, n: nat)
    requires Run(c, states, events) && n < |events| && events[n].Report? && events[n].reached
    ensures QuorumCause(events, n, events[n].ip)
  {
    var e := events[n];
    assert Step(c, states[n], e, states[n + 1]);
    var room :| ReportRoom(states[n].reports, e.ip, room)
      && states[n + 1].reports == WithReport(room, e.ip, e.publisher, e.now);
    var q := OtherMember(states[n + 1].reports[e.ip], e.publisher);
    assert q in states[n].reports[e.ip];
    RunOfReports(c, states, events);
    var j := ReportWasMade(states, events, n, e.ip, q);
  }

  /** Reports of `ip` were not evicted from the quorum table. */
  ghost predicate ReportsKept(states: seq<State>, ip: Ip, lo: nat, hi: nat)
    requires hi < |states|
  {
    forall i :: lo <= i < hi ==> (ip in states[i].reports ==> ip in states[i + 1].reports)
  }

  /** The report made at time `t` is still counted, or has left the window. */
  ghost predicate ReportStands(s: State, ip: Ip, p: Publisher, t: nat) {
    || (ip in s.reports && p in s.reports[ip] && s.reports[ip][p] >= t)
    || s.clock - t > REPORT_WINDOW
  }

  lemma ReportStepStands(c: Config, s: State, e: Event, s': State, ip: Ip, p: Publisher, t: nat)
    requires Step(c, s, e, s') && t <= s.clock && ReportStands(s, ip, p, t)
    requires ip in s.reports ==> ip in s'.reports
    ensures ReportStands(s', ip, p, t)
  {
    if e.Report? {
      var room :| ReportRoom(s.reports, e.ip, room) && s'.reports == WithReport(room, e.ip, e.publisher, e.now);
    }
  }

  lemma {:induction false} ReportPersists(c: Config, states: seq<State>, events: seq<Event>, ip: Ip, p: Publisher,
                                          j: nat, n: nat)
    requires Run(c, states, events) && j < n < |states| && Reported(events[j], ip, p)
    requires ReportsKept(states, ip, j + 1, n)
    ensures ReportStands(states[n], ip, p, events[j].now) && events[j].now <= states[n].clock
  {
    assert Step(c, states[n - 1], events[n - 1], states[n]);
    if n == j + 1 {
      var e := events[j];
      var room :| ReportRoom(states[j].reports, e.ip, room)
        && states[n].reports == WithReport(room, e.ip, e.publisher, e.now);
    } else {
      ReportPersists(c, states, events, ip, p, j, n - 1);
      assert ip in states[n - 1].reports ==> ip in states[(n - 1) + 1].reports;
      ReportStepStands(c, states[n - 1], events[n - 1], states[n], ip, p, events[j].now);
    }
  }

  /** For an IP that stays in the quorum table, a report reaches the quorum exactly when a second
      publisher reported the IP within the window. */
  lemma ReachedIff(c: Config, states: seq<State>, events: seq<Event>, n: nat)
    requires Run(c, states, events) && n < |events| && events[n].Report?
    requires ReportsKept(states, events[n].ip, 0, n)
    ensures events[n].reached <==> QuorumCause(events, n, events[n].ip)
  {
    var e := events[n];
    if e.reached {
      ReachedHasCause(c, states, events, n);
    }
    if QuorumCause(events, n, e.ip) {
      var j :| 0 <= j < n && events[j].Report? && events[j].ip == e.ip
        && events[j].publisher != e.publisher && e.now - events[j].now <= REPORT_WINDOW;
      ReportPersists(c, states, events, e.ip, events[j].publisher, j, n);
      assert Step(c, states[n], e, states[n + 1]);
      SecondReportReaches(states[n].reports, e, states[n + 1].reports, events[j].publisher);
    }
  }

  lemma SecondReportReaches(m: Reports, e: Event, m': Reports, q: Publisher)
    requires e.Report? && QuorumStep(m, e.ip, e.publisher, e.now, m', e.reached)
    requires e.ip in m && q in m[e.ip] && e.now - m[e.ip][q] <= REPORT_WINDOW && q != e.publisher
    ensures e.reached
  {
    var room :| ReportRoom(m, e.ip, room) && m' == WithReport(room, e.ip, e.publisher, e.now);
    assert {q, e.publisher} <= m'[e.ip].Keys;
    assert m'[e.ip].Keys == {q, e.publisher} + (m'[e.ip].Keys - {q, e.publisher});
  }

  // ---------- who is refused ----------

  /** An addition among the first `n` events put `ip` on the list until `expiry`. */
  ghost predicate BlockAdded(events: seq<Event>, n: nat, ip: Ip, expiry: nat)
    requires n <= |events|
  {
    exists i :: 0 <= i < n && AddsUntil(events[i], ip, expiry)
  }

  predicate AddsUntil(e: Event, ip: Ip, expiry: nat) {
    e.Add? && e.ip == ip && expiry == ExpiryOf(e.now, e.expireIn)
  }

  lemma BlocksStepAdded(events: seq<Event>, n: nat, m: BlockList, m': BlockList, ip: Ip)
    requires n < |events| && BlocksStep(m, events[n], m') && ip in m'
    requires ip in m ==> BlockAdded(events, n, ip, m[ip])
    ensures BlockAdded(events, n + 1, ip, m'[ip])
  {
    var e := events[n];
    if e.Add? {
      var room :| BlockRoom(m, e.ip, room) && m' == Blocked(room, e.ip, ExpiryOf(e.now, e.expireIn));
      if ip == e.ip && m'[ip] == ExpiryOf(e.now, e.expireIn) {
        assert AddsUntil(events[n], ip, m'[ip]);
      } else {
        assert ip in m && m'[ip] == m[ip];
      }
    }
  }

  lemma {:induction false} RunBlocksAdded(c: Config, states: seq<State>, events: seq<Event>, ip: Ip, n: nat)
    requires Run(c, states, events) && n < |states|
    ensures ip in states[n].blocks ==> BlockAdded(events, n, ip, states[n].blocks[ip])
  {
    if n > 0 {
      RunBlocksAdded(c, states, events, ip, n - 1);
      assert Step(c, states[n - 1], events[n - 1], states[(n - 1) + 1]);
      if ip in states[n].blocks {
        BlocksStepAdded(events, n - 1, states[n - 1].blocks, states[n].blocks, ip);
      }
    }
  }

  /** A local edge is backed by `threshold` failures, a reached quorum by two publishers. */
  lemma BlockHasCause(c: Config, states: seq<State>, events: seq<Event>, i: nat, ip: Ip)
    requires Run(c, states, events) && i < |events| && Blocks(c, events[i], ip)
    ensures HasCause(c, events, i, ip)
  {
    if events[i].AuthFailure? {
      DetectorRuns(c, states, events);
      PD.EdgeHasFailures(c.detector, DetectorStates(states), DetectorEvents(events), i);
    } else {
      ReachedHasCause(c, states, events, i);
    }
  }

  /** Safety over whole runs, whatever is evicted and however the tasks interleave: an IP is refused
      only if within the last 24 hours, and the time its block took to be added, it failed
      authentication `threshold` times in one window here, or two distinct publishers reported it
      within one report window. */
  lemma RefusedOnlyForCause(c: Config, states: seq<State>, events: seq<Event>, n: nat, ip: Ip, now: nat, lag: nat)
    requires Run(c, states, events) && AddsWithin(c, events, lag)
    requires n < |states| && !ShouldAccept(c, states[n], ip, now)
    ensures exists k :: 0 <= k < n && now - events[k].now < 86_400_000_000_000 + lag && HasCause(c, events, k, ip)
  {
    var k := RefusedWasDemanded(c, states, events, n, ip, now, lag);
    BlockHasCause(c, states, events, k, ip);
  }

  lemma RefusedWasDemanded(c: Config, states: seq<State>, events: seq<Event>, n: nat, ip: Ip, now: nat, lag: nat)
    returns (k: nat)
    requires Run(c, states, events) && AddsWithin(c, events, lag)
    requires n < |states| && !ShouldAccept(c, states[n], ip, now)
    ensures k < n && now - events[k].now < 86_400_000_000_000 + lag && Blocks(c, events[k], ip)
  {
    RunBlocksAdded(c, states, events, ip, n);
    var i :| 0 <= i < n && AddsUntil(events[i], ip, states[n].blocks[ip]);
    k :| 0 <= k < i && CarriesOut(c, events[k], events[i]) && events[i].now - events[k].now <= lag;
  }

  /** One publisher alone, however often it reports, never causes a refusal: when all reports of an
      IP come from one publisher, a refusal has a local cause. */
  lemma LonePublisherIsHarmless(c: Config, states: seq<State>, events: seq<Event>, n: nat, ip: Ip, p: Publisher,
                                now: nat, lag: nat)
    requires Run(c, states, events) && AddsWithin(c, events, lag)
    requires n < |states| && !ShouldAccept(c, states[n], ip, now)
    requires forall i :: 0 <= i < n && events[i].Report? && events[i].ip == ip ==> events[i].publisher == p
    ensures exists k :: 0 <= k < n && now - events[k].now < 86_400_000_000_000 + lag && LocalCause(c, events, k, ip)
  {
    RefusedOnlyForCause(c, states, events, n, ip, now, lag);
    var k :| 0 <= k < n && now - events[k].now < 86_400_000_000_000 + lag && HasCause(c, events, k, ip);
    assert !QuorumCause(events, k, ip);
  }

  // ---------- and exactly who ----------

  /** Entries of `ip` left the block list only by expiring. */
  ghost predicate BlocksKept(states: seq<State>, events: seq<Event>, ip: Ip, n: nat)
    requires |states| == |events| + 1 && n < |states|
  {
    forall i :: 0 <= i < n && !events[i].Sweep? ==> (ip in states[i].blocks ==> ip in states[i + 1].blocks)
  }

  ghost predicate BlockStands(s: State, ip: Ip, expiry: nat) {
    (ip in s.blocks && s.blocks[ip] >= expiry) || s.clock >= expiry
  }

  lemma BlockStepStands(c: Config, s: State, e: Event, s': State, ip: Ip, expiry: nat)
    requires Step(c, s, e, s') && BlockStands(s, ip, expiry)
    requires !e.Sweep? && ip in s.blocks ==> ip in s'.blocks
    ensures BlockStands(s', ip, expiry)
  {
    if e.Add? {
      var room :| BlockRoom(s.blocks, e.ip, room) && s'.blocks == Blocked(room, e.ip, ExpiryOf(e.now, e.expireIn));
    }
  }

  lemma BlockTakesHold(c: Config, s: State, e: Event, s': State, ip: Ip, expiry: nat)
    requires Step(c, s, e, s') && AddsUntil(e, ip, expiry)
    ensures BlockStands(s', ip, expiry)
  {
    var room :| BlockRoom(s.blocks, e.ip, room) && s'.blocks == Blocked(room, e.ip, expiry);
  }

  lemma {:induction false} BlockPersists(c: Config, states: seq<State>, events: seq<Event>, ip: Ip, i: nat, n: nat,
                                         expiry: nat)
    requires Run(c, states, events) && i < n < |states| && AddsUntil(events[i], ip, expiry)
    requires BlocksKept(states, events, ip, n)
    ensures BlockStands(states[n], ip, expiry)
  {
    assert Step(c, states[n - 1], events[n - 1], states[(n - 1) + 1]);
    if n == i + 1 {
      BlockTakesHold(c, states[i], events[i], states[n], ip, expiry);
    } else {
      BlockPersists(c, states, events, ip, i, n - 1, expiry);
      assert !events[n - 1].Sweep? && ip in states[n - 1].blocks ==> ip in states[(n - 1) + 1].blocks;
      BlockStepStands(c, states[n - 1], events[n - 1], states[n], ip, expiry);
    }
  }

  /** A block lasts for its duration, 24 hours at most. */
  lemma ExpiryBounds(e: Event, ip: Ip, expiry: nat, now: nat)
    requires AddsUntil(e, ip, expiry)
    ensures now < expiry <==> now < e.now + e.expireIn && now < e.now + 86_400_000_000_000
  {
  }

  /** With nothing evicted from the block list, an IP is refused exactly while some addition has time
      left, the longest one counting: its duration, 24 hours at most. */
  lemma RefusedIff(c: Config, states: seq<State>, events: seq<Event>, n: nat, ip: Ip, now: nat)
    requires Run(c, states, events) && n < |states| && now >= states[n].clock
    requires BlocksKept(states, events, ip, n) && !c.shadowActive
    ensures !ShouldAccept(c, states[n], ip, now) <==>
      exists i :: 0 <= i < n && events[i].Add? && events[i].ip == ip
        && now < events[i].now + events[i].expireIn && now < events[i].now + 86_400_000_000_000
  {
    if !ShouldAccept(c, states[n], ip, now) {
      var i := RefusedHasAddition(c, states, events, n, ip, now);
    }
    forall i | 0 <= i < n && events[i].Add? && events[i].ip == ip
        && now < events[i].now + events[i].expireIn && now < events[i].now + 86_400_000_000_000
      ensures !ShouldAccept(c, states[n], ip, now)
    {
      AdditionRefuses(c, states, events, i, n, ip, now);
    }
  }

  /** Whatever is evicted, a refused IP has an addition with time left: once all are over, it is
      accepted again. */
  lemma RefusedHasAddition(c: Config, states: seq<State>, events: seq<Event>, n: nat, ip: Ip, now: nat) returns (i: nat)
    requires Run(c, states, events) && n < |states| && !ShouldAccept(c, states[n], ip, now)
    ensures i < n && events[i].Add? && events[i].ip == ip
    ensures now < events[i].now + events[i].expireIn && now < events[i].now + 86_400_000_000_000
  {
    RunBlocksAdded(c, states, events, ip, n);
    var k :| 0 <= k < n && AddsUntil(events[k], ip, states[n].blocks[ip]);
    ExpiryBounds(events[k], ip, states[n].blocks[ip], now);
    i := k;
  }

  /** From its addition on, and until it is over, an unevicted block refuses its IP. */
  lemma AdditionRefuses(c: Config, states: seq<State>, events: seq<Event>, i: nat, n: nat, ip: Ip, now: nat)
    requires Run(c, states, events) && i < n < |states| && now >= states[n].clock
    requires BlocksKept(states, events, ip, n) && !c.shadowActive && events[i].Add? && events[i].ip == ip
    requires now < events[i].now + events[i].expireIn && now < events[i].now + 86_400_000_000_000
    ensures !ShouldAccept(c, states[n], ip, now)
  {
    var expiry := ExpiryOf(events[i].now, events[i].expireIn);
    ExpiryBounds(events[i], ip, expiry, now);
    BlockPersists(c, states, events, ip, i, n, expiry);
  }

  /** End to end: a local edge refuses its IP for the configured duration from its addition on. */
  lemma EdgeRefuses(c: Config, states: seq<State>, events: seq<Event>, k: nat, i: nat, n: nat, now: nat)
    requires Run(c, states, events) && k < i < n < |states| && now >= states[n].clock && !c.shadowActive
    requires events[k].AuthFailure? && events[k].edge && CarriesOut(c, events[k], events[i])
    requires BlocksKept(states, events, events[k].ip, n)
    requires now < events[i].now + c.blockDuration && now < events[i].now + 86_400_000_000_000
    ensures !ShouldAccept(c, states[n], events[k].ip, now)
  {
    AdditionRefuses(c, states, events, i, n, events[k].ip, now);
  }

  /** And a report that reached the quorum, for the seconds it names, a day at most. */
  lemma ReportRefuses(c: Config, states: seq<State>, events: seq<Event>, k: nat, i: nat, n: nat, now: nat)
    requires Run(c, states, events) && k < i < n < |states| && now >= states[n].clock && !c.shadowActive
    requires events[k].Report? && events[k].reached && CarriesOut(c, events[k], events[i])
    requires BlocksKept(states, events, events[k].ip, n)
    requires now < events[i].now + events[k].expireSecs * 1_000_000_000 && now < events[i].now + 86_400_000_000_000
    ensures !ShouldAccept(c, states[n], events[k].ip, now)
  {
    AdditionRefuses(c, states, events, i, n, events[k].ip, now);
  }

  /** Neither asks for longer than that. */
  lemma DemandedDuration(c: Config, e: Event, add: Event)
    requires CarriesOut(c, e, add)
    ensures e.AuthFailure? ==> add.expireIn == c.blockDuration
    ensures e.Report? && e.expireSecs <= 86_400 ==> add.expireIn == e.expireSecs * 1_000_000_000
    ensures e.Report? && e.expireSecs > 86_400 ==> add.expireIn == 86_400_000_000_000
  {
  }

  /** Nothing of `ip` was evicted from any table: what left, left by ageing out. */
  ghost predicate NothingEvicted(states: seq<State>, events: seq<Event>, ip: Ip, n: nat)
    requires |states| == |events| + 1 && n < |states|
  {
    && BlocksKept(states, events, ip, n) && ReportsKept(states, ip, 0, n)
    && PD.FailuresKept(DetectorStates(states), DetectorEvents(events), ip, n)
    && PD.FlagsKept(DetectorStates(states), DetectorEvents(events), ip, 0, n)
  }

  /** The raw events demand a block: a first crossing of the failure threshold, or a report by a
      second publisher within the window. */
  ghost predicate Demands(c: Config, events: seq<Event>, k: nat, ip: Ip)
    requires k < |events|
  {
    || (events[k].AuthFailure? && events[k].ip == ip && PD.FirstCrossing(c.detector, DetectorEvents(events), k))
    || QuorumCause(events, k, ip)
  }

  lemma BlocksIffDemanded(c: Config, states: seq<State>, events: seq<Event>, n: nat, k: nat, ip: Ip)
    requires Run(c, states, events) && k < n < |states| && NothingEvicted(states, events, ip, n)
    requires !c.shadowActive && 1 <= c.detector.threshold <= c.detector.maxPerIp
    ensures Blocks(c, events[k], ip) <==> Demands(c, events, k, ip)
  {
    var e := events[k];
    if e.AuthFailure? && e.ip == ip {
      DetectorRuns(c, states, events);
      var ds, de := DetectorStates(states), DetectorEvents(events);
      assert PD.FailuresKept(ds, de, ip, k + 1) && PD.FlagsKept(ds, de, ip, 0, k);
      PD.EdgeIff(c.detector, ds, de, k);
    } else if e.Report? && e.ip == ip {
      assert ReportsKept(states, ip, 0, k);
      ReachedIff(c, states, events, k);
    }
  }

  /** Addition `i` is what the raw event `k` demands, and has time left. */
  ghost predicate DemandStands(c: Config, events: seq<Event>, k: nat, i: nat, ip: Ip, now: nat)
    requires k < |events| && i < |events|
  {
    && Demands(c, events, k, ip)
    && events[i].Add? && events[i].ip == ip
    && (events[k].AuthFailure? ==> now < events[i].now + c.blockDuration)
    && (events[k].Report? ==> now < events[i].now + events[k].expireSecs * 1_000_000_000)
    && events[i].expireIn == BlockFor(c, events[k]) && now < events[i].now + 86_400_000_000_000
  }

  lemma AdditionIsDemanded(c: Config, states: seq<State>, events: seq<Event>, n: nat, i: nat, ip: Ip) returns (k: nat)
    requires Run(c, states, events) && i < n < |states| && NothingEvicted(states, events, ip, n)
    requires !c.shadowActive && 1 <= c.detector.threshold <= c.detector.maxPerIp
    requires events[i].Add? && events[i].ip == ip
    ensures k < i && Demands(c, events, k, ip) && events[i].expireIn == BlockFor(c, events[k])
  {
    k :| 0 <= k < i && CarriesOut(c, events[k], events[i]);
    BlocksIffDemanded(c, states, events, n, k, ip);
  }

  /** With nothing evicted, and the cap not below the threshold, an IP is refused exactly while a
      block demanded by the full histories of failures and reports has been added and has time left. */
  lemma RefusedIffDemanded(c: Config, states: seq<State>, events: seq<Event>, n: nat, ip: Ip, now: nat)
    requires Run(c, states, events) && n < |states| && now >= states[n].clock && NothingEvicted(states, events, ip, n)
    requires !c.shadowActive && 1 <= c.detector.threshold <= c.detector.maxPerIp
    ensures !ShouldAccept(c, states[n], ip, now) <==>
      exists k, i :: 0 <= k < i < n && DemandStands(c, events, k, i, ip, now)
  {
    if !ShouldAccept(c, states[n], ip, now) {
      var i := RefusedHasAddition(c, states, events, n, ip, now);
      var k := AdditionIsDemanded(c, states, events, n, i, ip);
      assert DemandStands(c, events, k, i, ip, now);
    }
    forall k, i | 0 <= k < i < n && DemandStands(c, events, k, i, ip, now)
      ensures !ShouldAccept(c, states[n], ip, now)
    {
      AdditionRefuses(c, states, events, i, n, ip, now);
    }
  }

  // ---------- memory bound ----------

  lemma BlockRoomIsThere(m: BlockList, ip: Ip, room: BlockList)
    requires BlockRoom(m, ip, room) && |m| <= SOFTBLOCK_CAPACITY
    ensures |room.Keys + {ip}| <= SOFTBLOCK_CAPACITY
  {
    RoomForOne(m.Keys, room.Keys, ip, SOFTBLOCK_CAPACITY);
  }

  lemma AddStaysBounded(m: BlockList, ip: Ip, expireIn: nat, now: nat, m': BlockList)
    requires AddStep(m, ip, expireIn, now, m') && |m| <= SOFTBLOCK_CAPACITY
    ensures |m'.Keys| <= SOFTBLOCK_CAPACITY
  {
    var room :| BlockRoom(m, ip, room) && m' == Blocked(room, ip, ExpiryOf(now, expireIn));
    BlockRoomIsThere(m, ip, room);
    BlockedKeys(room, ip, ExpiryOf(now, expireIn));
  }

  lemma BlockedKeys(room: BlockList, ip: Ip, expiry: nat)
    ensures Blocked(room, ip, expiry).Keys == room.Keys + {ip}
  {
  }

  lemma ReportRoomIsThere(m: Reports, ip: Ip, room: Reports)
    requires ReportRoom(m, ip, room) && |m| <= QUORUM_CAPACITY
    ensures |room.Keys + {ip}| <= QUORUM_CAPACITY
  {
    RoomForOne(m.Keys, room.Keys, ip, QUORUM_CAPACITY);
  }

  lemma WithReportKeys(room: Reports, ip: Ip, p: Publisher, now: nat)
    ensures WithReport(room, ip, p, now).Keys == room.Keys + {ip}
  {
  }

  lemma QuorumStaysBounded(m: Reports, ip: Ip, p: Publisher, now: nat, m': Reports, reached: bool)
    requires QuorumStep(m, ip, p, now, m', reached) && |m| <= QUORUM_CAPACITY
    ensures |m'.Keys| <= QUORUM_CAPACITY
  {
    var room :| ReportRoom(m, ip, room) && m' == WithReport(room, ip, p, now);
    ReportRoomIsThere(m, ip, room);
    WithReportKeys(room, ip, p, now);
  }

  ghost predicate Bounded(s: State) {
    |s.blocks| <= 16_384 && |s.reports| <= 4_096
  }

  lemma StepBounded(c: Config, s: State, e: Event, s': State)
    requires Step(c, s, e, s') && Bounded(s)
    ensures Bounded(s')
  {
    match e
    case Add(ip, expireIn, now) => AddStaysBounded(s.blocks, ip, expireIn, now, s'.blocks);
    case Report(ip, p, _, now, reached) => QuorumStaysBounded(s.reports, ip, p, now, s'.reports, reached);
    case Sweep(now) => SubsetSize(s'.blocks.Keys, s.blocks.Keys);
    case _ =>
  }

  /** However many addresses are reported or fail, neither table outgrows its cap. */
  lemma {:induction false} TablesStayBounded(c: Config, states: seq<State>, events: seq<Event>, n: nat)
    requires Run(c, states, events) && n < |states|
    ensures |states[n].blocks| <= 16_384 && |states[n].reports| <= 4_096
  {
    if n > 0 {
      TablesStayBounded(c, states, events, n - 1);
      assert Step(c, states[n - 1], events[n - 1], states[(n - 1) + 1]);
      StepBounded(c, states[n - 1], events[n - 1], states[n]);
    }
  }

  // ---------- the components ----------

  class SoftBlockList {
    var entries: BlockList

    constructor ()
      ensures entries == map[]
    {
      entries := map[];
    }

    method FindSoonest() returns (k: Ip)
      requires entries != map[]
      ensures SoonestExpiry(entries, k)
    {
      k :| k in entries;
      var left := entries.Keys - {k};
      while left != {}
        invariant left <= entries.Keys && k in entries
        invariant forall other :: other in entries.Keys - left ==> entries[k] <= entries[other]
      {
        var other :| other in left;
        if entries[other] < entries[k] {
          k := other;
        }
        left := left - {other};
      }
    }

    /** From now on `ip` is blocked as long as before, or for this duration, 24 hours at most. */
    method Add(ip: Ip, expireIn: nat, now: nat)
      modifies this
      ensures AddStep(old(entries), ip, expireIn, now, entries)
      ensures forall t: nat :: ShouldBlock(entries, ip, t) <==>
        ShouldBlock(old(entries), ip, t) || (t < now + expireIn && t < now + 86_400_000_000_000)
    {
      var expiry := now + Min(expireIn, MAX_SOFTBLOCK);
      if ip !in entries && |entries| >= SOFTBLOCK_CAPACITY {
        var victim := FindSoonest();
        entries := entries - {victim};
      }
      ghost var room := entries;
      assert BlockRoom(old(entries), ip, room);
      if ip in entries && entries[ip] >= expiry {
      } else {
        entries := entries[ip := expiry];
      }
      assert entries == Blocked(room, ip, ExpiryOf(now, expireIn));
    }

    /** Drops what no longer blocks; no check from `now` on can tell. */
    method Reap(now: nat) returns (dropped: nat)
      modifies this
      ensures entries == ReapedBlocks(old(entries), now)
      ensures dropped == |old(entries)| - |entries|
      ensures forall ip, t :: t >= now ==> (ShouldBlock(entries, ip, t) <==> ShouldBlock(old(entries), ip, t))
    {
      var before := entries;
      entries := ReapedBlocks(before, now);
      forall ip, t: nat | t >= now
        ensures |entries| <= |before| && (ShouldBlock(entries, ip, t) <==> ShouldBlock(before, ip, t))
      {
        SweepIsInvisible(before, now, ip, t);
      }
      SweepIsInvisible(before, now, 0, now);
      dropped := |before| - |entries|;
    }
  }

  class ProbeReportQuorum {
    var reports: Reports

    constructor ()
      ensures reports == map[]
    {
      reports := map[];
    }

    method Latest(pubs: map<Publisher, nat>) returns (t: int)
      ensures IsLatest(pubs, t)
    {
      t := -1;
      var left := pubs.Keys;
      while left != {}
        invariant left <= pubs.Keys
        invariant t == -1 ==> left == pubs.Keys
        invariant t != -1 ==> exists p :: p in pubs && pubs[p] == t
        invariant forall p :: p in pubs.Keys - left ==> pubs[p] <= t
        decreases |left|
      {
        var p :| p in left;
        if pubs[p] > t {
          t := pubs[p];
        }
        left := left - {p};
      }
    }

    method FindStalest() returns (k: Ip)
      requires reports != map[]
      ensures StalestReports(reports, k)
    {
      k :| k in reports;
      var least := Latest(reports[k]);
      var left := reports.Keys - {k};
      while left != {}
        invariant left <= reports.Keys && k in reports && IsLatest(reports[k], least)
        invariant forall other, t :: other in reports.Keys - left && IsLatest(reports[other], t) ==> least <= t
      {
        var other :| other in left;
        var t := Latest(reports[other]);
        LatestIsUnique(reports[other]);
        if t < least {
          k, least := other, t;
        }
        left := left - {other};
      }
      LatestIsUnique(reports[k]);
    }

    method Record(ip: Ip, p: Publisher, now: nat) returns (reached: bool)
      modifies this
      ensures QuorumStep(old(reports), ip, p, now, reports, reached)
    {
      if ip !in reports && |reports| >= QUORUM_CAPACITY {
        var victim := FindStalest();
        reports := reports - {victim};
      }
      ghost var room := reports;
      assert ReportRoom(old(reports), ip, room);
      var pubs := if ip in reports then reports[ip] else map[];
      pubs := LiveReports(pubs, now);
      pubs := pubs[p := now];
      reports := reports[ip := pubs];
      assert reports == WithReport(room, ip, p, now);
      reached := |pubs| >= QUORUM;
    }
  }

  lemma LatestIsUnique(pubs: map<Publisher, nat>)
    ensures forall t, t' :: IsLatest(pubs, t) && IsLatest(pubs, t') ==> t == t'
  {
  }

  class ConnectionGatekeeper {
    const config: Config
    const detector: PD.Detector
    const softblock: SoftBlockList
    const quorum: ProbeReportQuorum
    ghost var clock: nat

    ghost predicate Valid()
      reads this, detector
    {
      detector.config == config.detector && detector.clock == clock
    }

    ghost function Abs(): State
      reads this, detector, softblock, quorum
    {
      State(detector.Abs(), softblock.entries, quorum.reports, clock)
    }

    constructor (config: Config)
      ensures this.config == config && Valid() && Abs() == Init
      ensures fresh(detector) && fresh(softblock) && fresh(quorum)
    {
      this.config := config;
      detector := new PD.Detector(config.detector);
      softblock := new SoftBlockList();
      quorum := new ProbeReportQuorum();
      clock := 0;
    }

    method ShouldAcceptPeer(ip: Ip, now: nat) returns (accept: bool)
      ensures accept == ShouldAccept(config, Abs(), ip, now)
    {
      if config.shadowActive {
        return true;
      }
      accept := !(ip in softblock.entries && softblock.entries[ip] > now);
    }

    /** Local detection, then the block it demands; the same edge is published to the cohort. */
    method ObserveAuthFailure(ip: Ip, now: nat, later: nat)
      returns (published: bool, ghost edge: bool, ghost mid: State)
      requires Valid() && clock <= now <= later
      modifies this, detector, softblock
      ensures Valid() && Step(config, old(Abs()), AuthFailure(ip, now, edge), mid)
      ensures published == Blocks(config, AuthFailure(ip, now, edge), ip)
      ensures published ==> Step(config, mid, Add(ip, config.blockDuration, later), Abs())
      ensures !published ==> Abs() == mid
    {
      var crossed := detector.RecordAuthFailure(ip, now);
      clock := now;
      edge, mid := crossed, Abs();
      published := crossed && !config.shadowActive;
      if published {
        softblock.Add(ip, config.blockDuration, later);
        detector.clock := later;
        clock := later;
      }
    }

    /** One gossiped report, as the subscriber task handles it. */
    method OnReport(ip: Ip, p: Publisher, expireSecs: nat, now: nat, later: nat)
      returns (blocked: bool, ghost mid: State)
      requires Valid() && clock <= now <= later
      modifies this, detector`clock, softblock, quorum
      ensures Valid() && Step(config, old(Abs()), Report(ip, p, expireSecs, now, blocked), mid)
      ensures blocked ==>
        Step(config, mid, Add(ip, BlockFor(config, Report(ip, p, expireSecs, now, blocked)), later), Abs())
      ensures !blocked ==> Abs() == mid
    {
      blocked := quorum.Record(ip, p, now);
      detector.clock := now;
      clock := now;
      mid := Abs();
      if blocked {
        var clamped := Min(expireSecs, MAX_SOFTBLOCK_SECS);
        softblock.Add(ip, clamped * SECOND, later);
        detector.clock := later;
        clock := later;
      }
    }

    /** One tick of the background reaper. */
    method ReapStale(now: nat, later: nat) returns (ghost mid: State)
      requires Valid() && clock <= now <= later
      modifies this, detector, softblock
      ensures Valid() && Step(config, old(Abs()), Reap(now), mid) && Step(config, mid, Sweep(later), Abs())
    {
      detector.Reap(now);
      clock := now;
      mid := Abs();
      var _ := softblock.Reap(later);
      detector.clock := later;
      clock := later;
    }
  }
}
