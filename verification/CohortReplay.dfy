/**
 Cohort-wide token burning (crates/bridge/src/cohort_replay.rs): bridges burn tokens locally,
 gossip the burns, and absorb each other's under a per-publisher rate limit.

 Every bridge has its own Unix clock and its own monotonic clock (ticks, in seconds), neither
 running backwards. A published event may reach any bridge any number of times, late or never.
 */
module CohortReplay {
  import opened Wrappers
  import opened Collections
  import opened Window
  import RS = ReplaySet

  type Token = nat
  type BridgeId = nat

  const MAX_GOSSIP_REPLAY_TTL_SECS: nat := 24 * 3600
  const BURN_RATE_WINDOW: nat := 60 * SECOND
  const BURN_RATE_LIMIT: nat := 100
  const MAX_PUBLISHERS: nat := 256
  const U64_MAX: nat := 0xFFFF_FFFF_FFFF_FFFF

  /** Unix seconds, as 64 bits hold them. */
  type Unix = n: nat | n <= U64_MAX

  function SaturatingAdd(a: Unix, b: nat): Unix { Min(a + b, U64_MAX) }

  // ---------- the per-publisher rate limit ----------

  type RateTable = map<BridgeId, seq<nat>>

  function LastAdmitted(ticks: seq<nat>, tick: nat): nat {
    if ticks == [] then tick else ticks[|ticks| - 1]
  }

  ghost predicate Stalest(rates: RateTable, tick: nat, k: BridgeId) {
    k in rates && forall other :: other in rates ==> LastAdmitted(rates[k], tick) <= LastAdmitted(rates[other], tick)
  }

  ghost predicate RateRoom(rates: RateTable, p: BridgeId, tick: nat, room: RateTable) {
    if p !in rates && |rates| >= MAX_PUBLISHERS then exists k :: Stalest(rates, tick, k) && room == rates - {k}
    else room == rates
  }

  function KeptTicks(room: RateTable, p: BridgeId, tick: nat): seq<nat> {
    Recent(if p in room then room[p] else [], tick, BURN_RATE_WINDOW)
  }

  function Admits(room: RateTable, p: BridgeId, tick: nat): bool {
    |KeptTicks(room, p, tick)| < BURN_RATE_LIMIT
  }

  function RatesAfter(room: RateTable, p: BridgeId, tick: nat): RateTable {
    room[p := if Admits(room, p, tick) then KeptTicks(room, p, tick) + [tick] else KeptTicks(room, p, tick)]
  }

  ghost predicate RateStep(rates: RateTable, p: BridgeId, tick: nat, rates': RateTable, admitted: bool) {
    exists room ::
      RateRoom(rates, p, tick, room) && rates' == RatesAfter(room, p, tick) && admitted == Admits(room, p, tick)
  }

  // ---------- bridges and the wire ----------

  datatype Origin = LocalBurn | NotifyOnly

  /** A signed burn event; the publisher is authenticated. */
  datatype Message = Message(token: Token, burnedAt: Unix, publisher: BridgeId, origin: Origin)

  datatype Bridge = Bridge(replay: RS.Entries, rates: RateTable, clock: nat, tick: nat)

  datatype Config = Config(maxEntries: nat, ingestTtl: nat)

  function Ttl(c: Config): nat { Min(c.ingestTtl, MAX_GOSSIP_REPLAY_TTL_SECS) }

  function BurnExpiry(expiresAt: Unix, now: Unix): Unix {
    Min(expiresAt, SaturatingAdd(now, MAX_GOSSIP_REPLAY_TTL_SECS))
  }

  function IngestExpiry(c: Config, m: Message): Unix {
    SaturatingAdd(m.burnedAt, Ttl(c))
  }

  datatype System = System(bridges: map<BridgeId, Bridge>, wire: set<Message>)

  datatype Event =
    | Burn(at: BridgeId, token: Token, expiresAt: Unix, now: Unix, logged: bool, accepted: bool)
    | Notify(at: BridgeId, token: Token, now: Unix)
    | Deliver(at: BridgeId, message: Message, now: Unix, tick: nat, logged: bool, admitted: bool)

  function TokenOf(e: Event): Token {
    if e.Deliver? then e.message.token else e.token
  }

  ghost predicate BridgeStep(c: Config, b: Bridge, e: Event, b': Bridge) {
    && e.now >= b.clock && b'.clock == e.now
    && match e
       case Burn(_, token, expiresAt, now, logged, accepted) =>
         && accepted == RS.Accepts(b.replay, c.maxEntries, token, now, logged)
         && b'.replay == RS.AfterInsert(b.replay, c.maxEntries, token, BurnExpiry(expiresAt, now), now, logged)
         && b'.rates == b.rates && b'.tick == b.tick
       case Notify(_, _, _) => b'.replay == b.replay && b'.rates == b.rates && b'.tick == b.tick
       case Deliver(_, m, now, tick, logged, admitted) =>
         && tick >= b.tick && b'.tick == tick
         && RateStep(b.rates, m.publisher, tick, b'.rates, admitted)
         && b'.replay ==
              if admitted then RS.AfterInsert(b.replay, c.maxEntries, m.token, IngestExpiry(c, m), now, logged)
              else b.replay
  }

  /** What an event publishes: a burn only once the local insertion succeeded. */
  function Published(e: Event): set<Message> {
    match e
    case Burn(at, token, _, now, _, accepted) => if accepted then {Message(token, now, at, LocalBurn)} else {}
    case Notify(at, token, now) => {Message(token, now, at, NotifyOnly)}
    case Deliver(_, _, _, _, _, _) => {}
  }

  ghost predicate Step(c: Config, s: System, e: Event, s': System) {
    && e.at in s.bridges && s'.bridges.Keys == s.bridges.Keys
    && (e.Deliver? ==> e.message in s.wire)
    && BridgeStep(c, s.bridges[e.at], e, s'.bridges[e.at])
    && (forall b :: b in s.bridges && b != e.at ==> s'.bridges[b] == s.bridges[b])
    && s'.wire == s.wire + Published(e)
  }

  ghost predicate Fresh(s: System) {
    && s.wire == {}
    && forall b :: b in s.bridges ==> s.bridges[b].replay == map[] && s.bridges[b].rates == map[]
  }

  ghost predicate Run(c: Config, states: seq<System>, events: seq<Event>) {
    && |states| == |events| + 1 && Fresh(states[0])
    && forall i :: 0 <= i < |events| ==> Step(c, states[i], events[i], states[i + 1])
  }

  // ---------- gossip never precedes the burn ----------

  ghost predicate WireGrows(states: seq<System>, events: seq<Event>) {
    && |states| == |events| + 1 && states[0].wire == {}
    && forall i :: 0 <= i < |events| ==> states[i + 1].wire == states[i].wire + Published(events[i])
  }

  lemma {:induction false} OnWireWasPublished(states: seq<System>, events: seq<Event>, n: nat, m: Message)
    returns (i: nat)
    requires WireGrows(states, events) && n < |states| && m in states[n].wire
    ensures i < n && m in Published(events[i])
  {
    assert n > 0;
    assert states[(n - 1) + 1].wire == states[n - 1].wire + Published(events[n - 1]);
    if m in states[n - 1].wire {
      i := OnWireWasPublished(states, events, n - 1, m);
    } else {
      i := n - 1;
    }
  }

  /** An event of the burn path is on the wire only after its publisher accepted the token. */
  lemma PublishedAfterAccept(c: Config, states: seq<System>, events: seq<Event>, n: nat, m: Message)
    requires Run(c, states, events) && n < |states| && m in states[n].wire && m.origin == LocalBurn
    ensures exists i :: 0 <= i < n && IsAcceptOf(events[i], m)
  {
    assert WireGrows(states, events) by {
      forall i | 0 <= i < |events| ensures states[i + 1].wire == states[i].wire + Published(events[i]) {
        assert Step(c, states[i], events[i], states[i + 1]);
      }
    }
    var i := OnWireWasPublished(states, events, n, m);
    assert IsAcceptOf(events[i], m);
  }

  /** The event is the successful local burn that `m` announces. */
  ghost predicate IsAcceptOf(e: Event, m: Message) {
    e.Burn? && e.accepted && e.at == m.publisher && e.token == m.token && e.now == m.burnedAt
  }

  // ---------- a held token is refused until it expires ----------

  /** The event put `token` into the replay set of bridge `b`. */
  ghost predicate Takes(c: Config, s: System, e: Event, b: BridgeId, token: Token)
    requires e.at in s.bridges
  {
    && e.at == b && TokenOf(e) == token
    && match e
       case Burn(_, _, _, _, _, accepted) => accepted
       case Notify(_, _, _) => false
       case Deliver(_, _, now, _, logged, admitted) =>
         admitted && RS.Accepts(s.bridges[b].replay, c.maxEntries, token, now, logged)
  }

  function EntryExpiry(c: Config, e: Event): Unix {
    match e
    case Burn(_, _, expiresAt, now, _, _) => BurnExpiry(expiresAt, now)
    case Notify(_, _, _) => 0
    case Deliver(_, m, _, _, _, _) => IngestExpiry(c, m)
  }

  ghost predicate Inserts(c: Config, s: System, e: Event, b: BridgeId, token: Token, expiry: nat)
    requires e.at in s.bridges
  {
    Takes(c, s, e, b, token) && expiry == EntryExpiry(c, e)
  }

  /** How long an entry counts: to the token's expiry and a day at most for a local burn, to the
      ingestion time-to-live and a day at most for a gossiped one. */
  predicate Counts(c: Config, e: Event, t: nat) {
    match e
    case Burn(_, _, expiresAt, now, _, _) => t <= expiresAt && t <= now + 86_400
    case Notify(_, _, _) => false
    case Deliver(_, m, _, _, _, _) => t <= m.burnedAt + c.ingestTtl && t <= m.burnedAt + 86_400
  }

  lemma CountsUntilExpiry(c: Config, e: Event, t: Unix)
    requires !e.Notify?
    ensures Counts(c, e, t) <==> t <= EntryExpiry(c, e)
  {
  }

  /** Bridge `b` holds `token` until `expiry`, or its clock is past that. */
  ghost predicate HeldUntil(s: System, b: BridgeId, token: Token, expiry: nat) {
    && b in s.bridges
    && (s.bridges[b].clock <= expiry ==> token in s.bridges[b].replay && s.bridges[b].replay[token] == expiry)
  }

  lemma StepKeepsHeld(c: Config, s: System, e: Event, s': System, b: BridgeId, token: Token, expiry: nat)
    requires Step(c, s, e, s') && HeldUntil(s, b, token, expiry)
    ensures HeldUntil(s', b, token, expiry)
  {
    if e.at == b && s'.bridges[b].clock <= expiry {
      var held := s.bridges[b].replay;
      match e
      case Burn(_, t, expiresAt, now, logged, _) =>
        RS.InsertKeepsUnexpired(held, c.maxEntries, t, BurnExpiry(expiresAt, now), now, logged, token);
      case Notify(_, _, _) =>
      case Deliver(_, m, now, _, logged, _) =>
        RS.InsertKeepsUnexpired(held, c.maxEntries, m.token, IngestExpiry(c, m), now, logged, token);
    }
  }

  lemma {:induction false} StaysHeld(c: Config, states: seq<System>, events: seq<Event>, b: BridgeId, token: Token,
                                     expiry: nat, lo: nat, n: nat)
    requires Run(c, states, events) && lo <= n < |states| && HeldUntil(states[lo], b, token, expiry)
    ensures HeldUntil(states[n], b, token, expiry)
  {
    if n > lo {
      StaysHeld(c, states, events, b, token, expiry, lo, n - 1);
      assert Step(c, states[n - 1], events[n - 1], states[(n - 1) + 1]);
      StepKeepsHeld(c, states[n - 1], events[n - 1], states[n], b, token, expiry);
    }
  }

  lemma InsertedIsHeld(c: Config, s: System, e: Event, s': System, b: BridgeId, token: Token, expiry: nat)
    requires Step(c, s, e, s') && Inserts(c, s, e, b, token, expiry)
    ensures HeldUntil(s', b, token, expiry)
  {
  }

  lemma AcceptMeansNotHeld(c: Config, s: System, e: Event, s': System)
    requires Step(c, s, e, s') && e.Burn? && e.accepted
    ensures e.token !in s.bridges[e.at].replay && e.now >= s.bridges[e.at].clock
  {
  }

  /** Once a token is in a bridge's set, by its own burn or by gossip, that bridge accepts the token
      again only when the entry no longer counts. */
  lemma NoAcceptBeforeExpiry(c: Config, states: seq<System>, events: seq<Event>, i: nat, j: nat, token: Token)
    requires Run(c, states, events) && i < j < |events| && TakenAt(c, states, events, i, events[j].at, token)
    requires events[j].Burn? && events[j].token == token && events[j].accepted
    ensures !Counts(c, events[i], events[j].now)
  {
    var expiry := EntryExpiry(c, events[i]);
    CountsUntilExpiry(c, events[i], events[j].now);
    assert Step(c, states[i], events[i], states[i + 1]);
    InsertedIsHeld(c, states[i], events[i], states[i + 1], events[j].at, token, expiry);
    StaysHeld(c, states, events, events[j].at, token, expiry, i + 1, j);
    assert Step(c, states[j], events[j], states[j + 1]);
    AcceptMeansNotHeld(c, states[j], events[j], states[j + 1]);
    HeldOrLate(c, states[j], events[j], states[j + 1], expiry);
  }

  lemma HeldOrLate(c: Config, s: System, e: Event, s': System, expiry: nat)
    requires Step(c, s, e, s') && e.Burn? && e.accepted && HeldUntil(s, e.at, e.token, expiry)
    ensures e.now > expiry
  {
  }

  /** One bridge accepts one token twice only after the token's expiry or a day after the first. */
  lemma SingleUseAtOneBridge(c: Config, states: seq<System>, events: seq<Event>, i: nat, j: nat)
    requires Run(c, states, events) && i < j < |events|
    requires events[i].Burn? && events[j].Burn? && events[i].accepted && events[j].accepted
    requires events[i].token == events[j].token && events[i].at == events[j].at
    ensures events[j].now > events[i].expiresAt || events[j].now > events[i].now + 86_400
  {
    assert Step(c, states[i], events[i], states[i + 1]);
    NoAcceptBeforeExpiry(c, states, events, i, j, events[i].token);
  }

  /** Event `i` of the run put `token` into the set of bridge `b`. */
  ghost predicate TakenAt(c: Config, states: seq<System>, events: seq<Event>, i: nat, b: BridgeId, token: Token)
    requires |states| == |events| + 1 && i < |events|
  {
    events[i].at in states[i].bridges && Takes(c, states[i], events[i], b, token)
  }

  /** An entry is one from before, or inserted by this event. */
  lemma EntryComesFrom(c: Config, s: System, e: Event, s': System, b: BridgeId, token: Token)
    requires Step(c, s, e, s') && b in s.bridges && token in s'.bridges[b].replay
    ensures var held, held' := s.bridges[b].replay, s'.bridges[b].replay;
      (token in held && held[token] == held'[token]) || Inserts(c, s, e, b, token, held'[token])
  {
    var held := s.bridges[b].replay;
    if e.at == b {
      match e
      case Burn(_, t, expiresAt, now, logged, _) =>
        EntryAfterInsert(held, c.maxEntries, t, BurnExpiry(expiresAt, now), now, logged, token);
      case Notify(_, _, _) =>
      case Deliver(_, m, now, _, logged, _) =>
        EntryAfterInsert(held, c.maxEntries, m.token, IngestExpiry(c, m), now, logged, token);
    }
  }

  lemma EntryAfterInsert(held: RS.Entries, maxEntries: nat, token: Token, expiry: nat, now: nat, logged: bool, k: Token)
    ensures var after := RS.AfterInsert(held, maxEntries, token, expiry, now, logged);
      k in after ==>
        || (k in held && held[k] == after[k])
        || (k == token && after[k] == expiry && RS.Accepts(held, maxEntries, token, now, logged))
  {
  }

  lemma {:induction false} EntryWasInserted(c: Config, states: seq<System>, events: seq<Event>, n: nat, b: BridgeId,
                                            token: Token) returns (i: nat)
    requires Run(c, states, events) && n < |states| && b in states[n].bridges && token in states[n].bridges[b].replay
    ensures i < n && TakenAt(c, states, events, i, b, token)
    ensures states[n].bridges[b].replay[token] == EntryExpiry(c, events[i])
  {
    if n > 0 {
      var s, e, s' := states[n - 1], events[n - 1], states[n];
      assert Step(c, s, e, states[(n - 1) + 1]);
      EntryComesFrom(c, s, e, s', b, token);
      if token in s.bridges[b].replay && s.bridges[b].replay[token] == s'.bridges[b].replay[token] {
        i := EntryWasInserted(c, states, events, n - 1, b, token);
      } else {
        i := n - 1;
      }
    }
  }

  /** An entry put into a bridge's set stays there as long as it counts. */
  lemma TakenIsHeld(c: Config, states: seq<System>, events: seq<Event>, i: nat, n: nat, b: BridgeId, token: Token,
                    t: Unix)
    requires Run(c, states, events) && i < n < |states| && TakenAt(c, states, events, i, b, token)
    requires b in states[n].bridges && states[n].bridges[b].clock <= t && Counts(c, events[i], t)
    ensures RS.Contains(states[n].bridges[b].replay, token, t)
  {
    var expiry := EntryExpiry(c, events[i]);
    CountsUntilExpiry(c, events[i], t);
    assert Step(c, states[i], events[i], states[i + 1]);
    InsertedIsHeld(c, states[i], events[i], states[i + 1], b, token, expiry);
    StaysHeld(c, states, events, b, token, expiry, i + 1, n);
  }

  /** An accepted burn is held to the token's expiry, a day at most. */
  lemma BurnIsHeld(c: Config, states: seq<System>, events: seq<Event>, i: nat, n: nat, t: Unix)
    requires Run(c, states, events) && i < n < |states| && events[i].Burn? && events[i].accepted
    requires events[i].at in states[n].bridges && states[n].bridges[events[i].at].clock <= t
    requires t <= events[i].expiresAt && t <= events[i].now + 86_400
    ensures RS.Contains(states[n].bridges[events[i].at].replay, events[i].token, t)
  {
    assert Step(c, states[i], events[i], states[i + 1]);
    TakenIsHeld(c, states, events, i, n, events[i].at, events[i].token, t);
  }

  /** A bridge reports a token as burned exactly while some burn or gossiped event that it inserted
      counts. */
  lemma BurnedIff(c: Config, states: seq<System>, events: seq<Event>, n: nat, b: BridgeId, token: Token, now: Unix)
    requires Run(c, states, events) && n < |states| && b in states[n].bridges && now >= states[n].bridges[b].clock
    ensures RS.Contains(states[n].bridges[b].replay, token, now) <==>
      exists i :: 0 <= i < n && TakenAt(c, states, events, i, b, token) && Counts(c, events[i], now)
  {
    if RS.Contains(states[n].bridges[b].replay, token, now) {
      var i := EntryWasInserted(c, states, events, n, b, token);
      CountsUntilExpiry(c, events[i], now);
    }
    forall i | 0 <= i < n && TakenAt(c, states, events, i, b, token) && Counts(c, events[i], now)
      ensures RS.Contains(states[n].bridges[b].replay, token, now)
    {
      TakenIsHeld(c, states, events, i, n, b, token, now);
    }
  }

  /** Why a delivered burn did not stop a later acceptance at the same bridge. */
  ghost predicate NotStopped(c: Config, s: System, e: Event, later: nat)
    requires e.Deliver? && e.at in s.bridges
  {
    var held := s.bridges[e.at].replay;
    || !e.admitted
    || (e.message.token in held && held[e.message.token] < later)
    || (e.message.token !in held && |RS.WithRoom(held, c.maxEntries, e.now)| >= c.maxEntries)
    || (e.message.token !in held && !e.logged)
    || (e.message.token !in held && !Counts(c, e, later))
  }

  /** A bridge accepts a token after a burn of it was delivered there only because that delivery
      was rate-limited, found the set full or unwritable, or its entry has since expired. */
  lemma DoubleAcceptNeedsGap(c: Config, states: seq<System>, events: seq<Event>, d: nat, j: nat)
    requires Run(c, states, events) && d < j < |events| && events[d].Deliver?
    requires events[j].Burn? && events[j].accepted && events[j].at == events[d].at
    requires events[j].token == events[d].message.token
    ensures events[d].at in states[d].bridges && NotStopped(c, states[d], events[d], events[j].now)
  {
    var s, e, token := states[d], events[d], events[j].token;
    assert Step(c, s, e, states[d + 1]);
    var held := s.bridges[e.at].replay;
    if e.admitted {
      if token in held {
        KeepsHeld(c, states, events, d, j, token, held[token]);
      } else if RS.Accepts(held, c.maxEntries, token, e.now, e.logged) {
        NoAcceptBeforeExpiry(c, states, events, d, j, token);
      }
    }
  }

  /** So when two bridges both accept one token, the later one did not hold it, and every delivery
      to it of the earlier one's burn left such a gap. */
  lemma TwoBridgesNeedGap(c: Config, states: seq<System>, events: seq<Event>, i: nat, j: nat)
    requires Run(c, states, events) && i < j < |events|
    requires events[i].Burn? && events[j].Burn? && events[i].accepted && events[j].accepted
    requires events[i].token == events[j].token && events[i].at != events[j].at
    ensures var m := Message(events[i].token, events[i].now, events[i].at, LocalBurn);
      && m in states[i + 1].wire
      && events[j].at in states[j].bridges && events[j].token !in states[j].bridges[events[j].at].replay
      && forall d :: 0 <= d < j && events[d].Deliver? && events[d].message == m && events[d].at == events[j].at ==>
           events[d].at in states[d].bridges && NotStopped(c, states[d], events[d], events[j].now)
  {
    assert Step(c, states[i], events[i], states[i + 1]);
    assert Step(c, states[j], events[j], states[j + 1]);
    AcceptMeansNotHeld(c, states[j], events[j], states[j + 1]);
    var m := Message(events[i].token, events[i].now, events[i].at, LocalBurn);
    forall d | 0 <= d < j && events[d].Deliver? && events[d].message == m && events[d].at == events[j].at
      ensures events[d].at in states[d].bridges && NotStopped(c, states[d], events[d], events[j].now)
    {
      DoubleAcceptNeedsGap(c, states, events, d, j);
    }
  }

  lemma KeepsHeld(c: Config, states: seq<System>, events: seq<Event>, d: nat, j: nat, token: Token, expiry: nat)
    requires Run(c, states, events) && d < j < |events|
    requires events[j].Burn? && events[j].accepted && events[j].token == token && events[j].at in states[d].bridges
    requires token in states[d].bridges[events[j].at].replay && states[d].bridges[events[j].at].replay[token] == expiry
    ensures expiry < events[j].now
  {
    StaysHeld(c, states, events, events[j].at, token, expiry, d, j);
    assert Step(c, states[j], events[j], states[j + 1]);
    HeldOrLate(c, states[j], events[j], states[j + 1], expiry);
  }

  // ---------- the rate limit over whole runs ----------

  ghost function Publishers(events: seq<Event>, n: nat, b: BridgeId): set<BridgeId>
    requires n <= |events|
  {
    set i | 0 <= i < n && events[i].Deliver? && events[i].at == b :: events[i].message.publisher
  }

  function AdmittedTick(e: Event, b: BridgeId, p: BridgeId): seq<nat> {
    if e.Deliver? && e.at == b && e.message.publisher == p && e.admitted then [e.tick] else []
  }

  /** Ticks of all admitted deliveries from `p` at `b`, nothing pruned. */
  ghost function Admitted(events: seq<Event>, n: nat, b: BridgeId, p: BridgeId): seq<nat>
    requires n <= |events|
  {
    if n == 0 then [] else Admitted(events, n - 1, b, p) + AdmittedTick(events[n - 1], b, p)
  }

  function StoredTicks(rates: RateTable, p: BridgeId): seq<nat> {
    if p in rates then rates[p] else []
  }

  /** From tick `from` on, the stored ticks show the same window as all admitted ones. */
  ghost predicate SameWindow(stored: seq<nat>, all: seq<nat>, from: nat) {
    && (forall i :: 0 <= i < |all| ==> all[i] <= from)
    && forall t: nat :: t >= from ==> Recent(stored, t, BURN_RATE_WINDOW) == Recent(all, t, BURN_RATE_WINDOW)
  }

  /** How many times lie in the closed interval. */
  function CountBetween(times: seq<nat>, lo: nat, hi: nat): nat {
    if times == [] then 0
    else CountBetween(times[..|times| - 1], lo, hi) + if lo <= times[|times| - 1] <= hi then 1 else 0
  }

  lemma {:induction false} CountBetweenAtMostRecent(times: seq<nat>, lo: nat, hi: nat, now: nat)
    requires forall i :: 0 <= i < |times| ==> times[i] <= now
    requires now <= lo + BURN_RATE_WINDOW
    ensures CountBetween(times, lo, hi) <= |Recent(times, now, BURN_RATE_WINDOW)|
  {
    if times != [] {
      var n := |times| - 1;
      CountBetweenAtMostRecent(times[..n], lo, hi, now);
      assert times == times[..n] + [times[n]];
      RecentSplit(times[..n], [times[n]], now, BURN_RATE_WINDOW);
    }
  }

  /** The publisher's entry at the bridge is never evicted in the first `n` steps. */
  ghost predicate NeverEvicted(states: seq<System>, b: BridgeId, p: BridgeId, n: nat)
    requires n < |states|
  {
    forall i :: 0 <= i < n && b in states[i].bridges && b in states[i + 1].bridges ==>
      KeepsEntry(states[i].bridges[b].rates, states[i + 1].bridges[b].rates, p)
  }

  ghost predicate KeepsEntry(rates: RateTable, rates': RateTable, p: BridgeId) {
    p in rates ==> p in rates'
  }

  /** Making room leaves every entry that survives as it was. */
  lemma RoomForOther(rates: RateTable, q: BridgeId, tick: nat, rates': RateTable, admitted: bool, p: BridgeId)
    requires RateStep(rates, q, tick, rates', admitted) && p != q && KeepsEntry(rates, rates', p)
    ensures StoredTicks(rates', p) == StoredTicks(rates, p)
  {
  }

  lemma RoomForSelf(rates: RateTable, p: BridgeId, tick: nat, rates': RateTable, admitted: bool)
    requires RateStep(rates, p, tick, rates', admitted)
    ensures admitted == Admits(rates, p, tick)
    ensures StoredTicks(rates', p) == KeptTicks(rates, p, tick) + if admitted then [tick] else []
  {
    assert KeptTicks(rates, p, tick) + [] == KeptTicks(rates, p, tick);
  }

  lemma PushKeepsWindow(stored: seq<nat>, all: seq<nat>, from: nat, tick: nat, pushed: seq<nat>)
    requires SameWindow(stored, all, from) && from <= tick && (pushed == [] || pushed == [tick])
    ensures SameWindow(Recent(stored, tick, BURN_RATE_WINDOW) + pushed, all + pushed, tick)
  {
    var kept := Recent(stored, tick, BURN_RATE_WINDOW);
    forall t: nat | t >= tick
      ensures Recent(kept + pushed, t, BURN_RATE_WINDOW) == Recent(all + pushed, t, BURN_RATE_WINDOW)
    {
      RecentTwice(stored, tick, t, BURN_RATE_WINDOW);
      RecentSplit(kept, pushed, t, BURN_RATE_WINDOW);
      RecentSplit(all, pushed, t, BURN_RATE_WINDOW);
    }
  }

  lemma StepKeepsWindow(c: Config, s: System, e: Event, s': System, b: BridgeId, p: BridgeId, all: seq<nat>)
    requires Step(c, s, e, s') && b in s.bridges
    requires SameWindow(StoredTicks(s.bridges[b].rates, p), all, s.bridges[b].tick)
    requires KeepsEntry(s.bridges[b].rates, s'.bridges[b].rates, p)
    ensures SameWindow(StoredTicks(s'.bridges[b].rates, p), all + AdmittedTick(e, b, p), s'.bridges[b].tick)
  {
    var rates, rates' := s.bridges[b].rates, s'.bridges[b].rates;
    assert all + [] == all;
    if e.Deliver? && e.at == b {
      if e.message.publisher == p {
        RoomForSelf(rates, p, e.tick, rates', e.admitted);
        PushKeepsWindow(StoredTicks(rates, p), all, s.bridges[b].tick, e.tick, AdmittedTick(e, b, p));
      } else {
        RoomForOther(rates, e.message.publisher, e.tick, rates', e.admitted, p);
      }
    }
  }

  lemma {:induction false} RunKeepsWindow(c: Config, states: seq<System>, events: seq<Event>, b: BridgeId,
                                          p: BridgeId, n: nat)
    requires Run(c, states, events) && n < |states| && b in states[0].bridges && NeverEvicted(states, b, p, n)
    ensures b in states[n].bridges
    ensures SameWindow(StoredTicks(states[n].bridges[b].rates, p), Admitted(events, n, b, p), states[n].bridges[b].tick)
  {
    if n > 0 {
      RunKeepsWindow(c, states, events, b, p, n - 1);
      assert Step(c, states[n - 1], events[n - 1], states[(n - 1) + 1]);
      assert KeepsEntry(states[n - 1].bridges[b].rates, states[(n - 1) + 1].bridges[b].rates, p);
      StepKeepsWindow(c, states[n - 1], events[n - 1], states[n], b, p, Admitted(events, n - 1, b, p));
    }
  }

  /** However many publishers there are, one whose entry is not evicted gets no more than 100 burns
      admitted at a bridge in any closed interval of 60 seconds. */
  lemma {:induction false} BurnRateBound(c: Config, states: seq<System>, events: seq<Event>, b: BridgeId, p: BridgeId,
                                         lo: nat, n: nat)
    requires Run(c, states, events) && n < |states| && b in states[0].bridges && NeverEvicted(states, b, p, n)
    ensures CountBetween(Admitted(events, n, b, p), lo, lo + 60_000_000_000) <= 100
  {
    if n > 0 {
      BurnRateBound(c, states, events, b, p, lo, n - 1);
      var e := events[n - 1];
      var all := Admitted(events, n - 1, b, p);
      if AdmittedTick(e, b, p) == [] {
        assert all + [] == all;
      } else {
        RunKeepsWindow(c, states, events, b, p, n - 1);
        assert Step(c, states[n - 1], e, states[(n - 1) + 1]);
        StepWithinLimit(c, states[n - 1], e, states[n], p, all, lo);
      }
    }
  }

  /** A publisher's entry is evicted only to make room for a 257th publisher. */
  lemma RoomKeepsAll(rates: RateTable, p: BridgeId, tick: nat, rates': RateTable, admitted: bool,
                     publishers: set<BridgeId>)
    requires RateStep(rates, p, tick, rates', admitted)
    requires rates.Keys <= publishers && p in publishers && |publishers| <= MAX_PUBLISHERS
    ensures rates'.Keys == rates.Keys + {p}
  {
    if p !in rates {
      SubsetSize(rates.Keys + {p}, publishers);
      assert |rates.Keys + {p}| == |rates| + 1;
    }
  }

  /** The rate table at `b` knows only these publishers. */
  ghost predicate KnowsOnly(s: System, b: BridgeId, publishers: set<BridgeId>) {
    b in s.bridges && s.bridges[b].rates.Keys <= publishers
  }

  ghost predicate ComesFrom(e: Event, b: BridgeId, publishers: set<BridgeId>) {
    e.Deliver? && e.at == b ==> e.message.publisher in publishers
  }

  lemma StepKnowsOnly(c: Config, s: System, e: Event, s': System, b: BridgeId, publishers: set<BridgeId>)
    requires Step(c, s, e, s') && KnowsOnly(s, b, publishers) && ComesFrom(e, b, publishers)
    requires |publishers| <= MAX_PUBLISHERS
    ensures KnowsOnly(s', b, publishers) && s.bridges[b].rates.Keys <= s'.bridges[b].rates.Keys
  {
    if e.Deliver? && e.at == b {
      RoomKeepsAll(s.bridges[b].rates, e.message.publisher, e.tick, s'.bridges[b].rates, e.admitted, publishers);
    }
  }

  lemma {:induction false} KnowsOnlyThroughout(states: seq<System>, b: BridgeId, publishers: set<BridgeId>, n: nat)
    requires n < |states| && KnowsOnly(states[0], b, publishers)
    requires forall i :: 0 <= i < |states| - 1 && KnowsOnly(states[i], b, publishers) ==>
      KnowsOnly(states[i + 1], b, publishers)
    ensures KnowsOnly(states[n], b, publishers)
  {
    if n > 0 {
      KnowsOnlyThroughout(states, b, publishers, n - 1);
      assert KnowsOnly(states[(n - 1) + 1], b, publishers);
    }
  }

  lemma FewAreNeverEvicted(c: Config, states: seq<System>, events: seq<Event>, b: BridgeId, p: BridgeId)
    requires Run(c, states, events) && b in states[0].bridges
    requires |Publishers(events, |events|, b)| <= MAX_PUBLISHERS
    ensures NeverEvicted(states, b, p, |events|)
  {
    var publishers := Publishers(events, |events|, b);
    assert forall i :: 0 <= i < |events| ==> ComesFrom(events[i], b, publishers);
    forall i | 0 <= i < |states| - 1 && KnowsOnly(states[i], b, publishers)
      ensures KnowsOnly(states[i + 1], b, publishers)
    {
      StepKnowsOnly(c, states[i], events[i], states[i + 1], b, publishers);
    }
    forall i | 0 <= i < |events| && b in states[i].bridges && b in states[i + 1].bridges
      ensures KeepsEntry(states[i].bridges[b].rates, states[i + 1].bridges[b].rates, p)
    {
      KnowsOnlyThroughout(states, b, publishers, i);
      StepKnowsOnly(c, states[i], events[i], states[i + 1], b, publishers);
    }
  }

  /** So with at most 256 publishers at a bridge the bound holds for every one of them. */
  lemma SmallCohortRateBound(c: Config, states: seq<System>, events: seq<Event>, b: BridgeId, p: BridgeId, lo: nat)
    requires Run(c, states, events) && b in states[0].bridges
    requires |Publishers(events, |events|, b)| <= 256
    ensures CountBetween(Admitted(events, |events|, b, p), lo, lo + 60_000_000_000) <= 100
  {
    FewAreNeverEvicted(c, states, events, b, p);
    BurnRateBound(c, states, events, b, p, lo, |events|);
  }

  lemma StepWithinLimit(c: Config, s: System, e: Event, s': System, p: BridgeId, all: seq<nat>, lo: nat)
    requires Step(c, s, e, s') && e.Deliver? && e.message.publisher == p && e.admitted
    requires SameWindow(StoredTicks(s.bridges[e.at].rates, p), all, s.bridges[e.at].tick)
    requires CountBetween(all, lo, lo + BURN_RATE_WINDOW) <= BURN_RATE_LIMIT
    ensures CountBetween(all + [e.tick], lo, lo + BURN_RATE_WINDOW) <= BURN_RATE_LIMIT
  {
    RoomForSelf(s.bridges[e.at].rates, p, e.tick, s'.bridges[e.at].rates, e.admitted);
    AdmissionLeavesRoom(s.bridges[e.at], e, all, lo);
  }

  lemma {:induction false} RecentIsCounted(times: seq<nat>, lo: nat, now: nat)
    requires forall i :: 0 <= i < |times| ==> times[i] <= now
    requires lo + BURN_RATE_WINDOW == now || (lo == 0 && now <= BURN_RATE_WINDOW)
    ensures CountBetween(times, lo, now) == |Recent(times, now, BURN_RATE_WINDOW)|
  {
    if times != [] {
      var n := |times| - 1;
      RecentIsCounted(times[..n], lo, now);
      assert times == times[..n] + [times[n]];
      RecentSplit(times[..n], [times[n]], now, BURN_RATE_WINDOW);
    }
  }

  /** And it is admitted whenever fewer than 100 of its burns were in the 60 seconds before. */
  lemma AdmittedIff(c: Config, states: seq<System>, events: seq<Event>, n: nat, lo: nat)
    requires Run(c, states, events) && n < |events| && events[n].Deliver?
    requires NeverEvicted(states, events[n].at, events[n].message.publisher, n) && events[n].at in states[0].bridges
    requires lo + 60_000_000_000 == events[n].tick || (lo == 0 && events[n].tick <= 60_000_000_000)
    ensures var before := Admitted(events, n, events[n].at, events[n].message.publisher);
      events[n].admitted <==> CountBetween(before, lo, events[n].tick) < 100
  {
    var e := events[n];
    var p, all := e.message.publisher, Admitted(events, n, e.at, e.message.publisher);
    RunKeepsWindow(c, states, events, e.at, p, n);
    assert Step(c, states[n], e, states[n + 1]);
    RoomForSelf(states[n].bridges[e.at].rates, p, e.tick, states[n + 1].bridges[e.at].rates, e.admitted);
    RecentIsCounted(all, lo, e.tick);
  }

  lemma AdmissionLeavesRoom(b: Bridge, e: Event, all: seq<nat>, lo: nat)
    requires e.Deliver? && e.tick >= b.tick && Admits(b.rates, e.message.publisher, e.tick)
    requires SameWindow(StoredTicks(b.rates, e.message.publisher), all, b.tick)
    requires CountBetween(all, lo, lo + BURN_RATE_WINDOW) <= BURN_RATE_LIMIT
    ensures CountBetween(all + [e.tick], lo, lo + BURN_RATE_WINDOW) <= BURN_RATE_LIMIT
  {
    assert (all + [e.tick])[..|all|] == all;
    if lo <= e.tick <= lo + BURN_RATE_WINDOW {
      CountBetweenAtMostRecent(all, lo, lo + BURN_RATE_WINDOW, e.tick);
    }
  }

  // ---------- who is evicted ----------

  ghost predicate TableOrdered(rates: RateTable, tick: nat) {
    forall p :: p in rates ==> Ordered(rates[p], tick)
  }

  lemma StepKeepsOrder(rates: RateTable, p: BridgeId, from: nat, tick: nat, rates': RateTable, admitted: bool)
    requires TableOrdered(rates, from) && from <= tick && RateStep(rates, p, tick, rates', admitted)
    ensures TableOrdered(rates', tick)
  {
    RoomForSelf(rates, p, tick, rates', admitted);
    RecentStaysOrdered(StoredTicks(rates, p), from, tick, BURN_RATE_WINDOW);
    forall q | q in rates' ensures Ordered(rates'[q], tick) {
      if q != p {
        assert q in rates && rates'[q] == rates[q];
      }
    }
  }

  ghost predicate BridgeOrdered(s: System, b: BridgeId) {
    b in s.bridges && TableOrdered(s.bridges[b].rates, s.bridges[b].tick)
  }

  lemma NextOrdered(c: Config, s: System, e: Event, s': System, b: BridgeId)
    requires Step(c, s, e, s') && BridgeOrdered(s, b)
    ensures BridgeOrdered(s', b)
  {
    if e.Deliver? && e.at == b {
      var rates, rates' := s.bridges[b].rates, s'.bridges[b].rates;
      StepKeepsOrder(rates, e.message.publisher, s.bridges[b].tick, e.tick, rates', e.admitted);
    }
  }

  lemma {:induction false} RunKeepsOrder(c: Config, states: seq<System>, events: seq<Event>, b: BridgeId, n: nat)
    requires Run(c, states, events) && n < |states| && b in states[0].bridges
    ensures BridgeOrdered(states[n], b)
  {
    if n > 0 {
      RunKeepsOrder(c, states, events, b, n - 1);
      assert Step(c, states[n - 1], events[n - 1], states[(n - 1) + 1]);
      NextOrdered(c, states[n - 1], events[n - 1], states[n], b);
    }
  }

  /** No publisher in the table has an earlier latest burn than `p`. */
  ghost predicate LatestIsEarliest(rates: RateTable, p: BridgeId) {
    p in rates
    && forall q, t, u :: q in rates && Greatest(rates[p], t) && Greatest(rates[q], u) ==> t <= u
  }

  lemma StalestInOrder(rates: RateTable, from: nat, tick: nat, p: BridgeId)
    requires TableOrdered(rates, from) && Stalest(rates, tick, p)
    ensures LatestIsEarliest(rates, p)
  {
    forall q, t, u | q in rates && Greatest(rates[p], t) && Greatest(rates[q], u) ensures t <= u {
      LastIsGreatest(rates[p], from, t);
      LastIsGreatest(rates[q], from, u);
    }
  }

  /** Along every run, the publisher that makes room is one whose latest admitted burn is earliest. */
  lemma EvictedIsStalest(c: Config, states: seq<System>, events: seq<Event>, n: nat, b: BridgeId, p: BridgeId)
    requires Run(c, states, events) && n < |events| && b in states[0].bridges
    requires b in states[n].bridges && b in states[n + 1].bridges
    requires !KeepsEntry(states[n].bridges[b].rates, states[n + 1].bridges[b].rates, p)
    ensures LatestIsEarliest(states[n].bridges[b].rates, p)
  {
    RunKeepsOrder(c, states, events, b, n);
    assert Step(c, states[n], events[n], states[n + 1]);
    var tick := EvictedOnDelivery(c, states[n], events[n], states[n + 1], b, p);
    StalestInOrder(states[n].bridges[b].rates, states[n].bridges[b].tick, tick, p);
  }

  lemma EvictedOnDelivery(c: Config, s: System, e: Event, s': System, b: BridgeId, p: BridgeId) returns (tick: nat)
    requires Step(c, s, e, s') && b in s.bridges && !KeepsEntry(s.bridges[b].rates, s'.bridges[b].rates, p)
    ensures Stalest(s.bridges[b].rates, tick, p)
  {
    tick := e.tick;
    EvictedBy(s.bridges[b].rates, e.message.publisher, e.tick, s'.bridges[b].rates, e.admitted, p);
  }

  lemma EvictedBy(rates: RateTable, q: BridgeId, tick: nat, rates': RateTable, admitted: bool, p: BridgeId)
    requires RateStep(rates, q, tick, rates', admitted) && p in rates && p !in rates'
    ensures Stalest(rates, tick, p)
  {
  }

  lemma StepStaysBounded(rates: RateTable, p: BridgeId, tick: nat, rates': RateTable, admitted: bool)
    requires RateStep(rates, p, tick, rates', admitted) && |rates| <= MAX_PUBLISHERS
    ensures |rates'| <= MAX_PUBLISHERS
  {
    var room :| RateRoom(rates, p, tick, room)
      && rates' == RatesAfter(room, p, tick) && admitted == Admits(room, p, tick);
    RoomForOne(rates.Keys, room.Keys, p, MAX_PUBLISHERS);
    assert rates'.Keys == room.Keys + {p};
  }

  ghost predicate BridgeBounded(s: System, b: BridgeId) {
    b in s.bridges && |s.bridges[b].rates| <= 256
  }

  lemma NextBounded(c: Config, s: System, e: Event, s': System, b: BridgeId)
    requires Step(c, s, e, s') && BridgeBounded(s, b)
    ensures BridgeBounded(s', b)
  {
    if e.Deliver? && e.at == b {
      StepStaysBounded(s.bridges[b].rates, e.message.publisher, e.tick, s'.bridges[b].rates, e.admitted);
    }
  }

  lemma {:induction false} BoundedThroughout(states: seq<System>, b: BridgeId, n: nat)
    requires n < |states| && BridgeBounded(states[0], b)
    requires forall i :: 0 <= i < |states| - 1 && BridgeBounded(states[i], b) ==> BridgeBounded(states[i + 1], b)
    ensures BridgeBounded(states[n], b)
  {
    if n > 0 {
      BoundedThroughout(states, b, n - 1);
      assert BridgeBounded(states[(n - 1) + 1], b);
    }
  }

  /** However many publishers there are, a bridge tracks at most 256. */
  lemma TableStaysBounded(c: Config, states: seq<System>, events: seq<Event>, b: BridgeId, n: nat)
    requires Run(c, states, events) && n < |states| && b in states[0].bridges
    ensures b in states[n].bridges && |states[n].bridges[b].rates| <= 256
  {
    forall i | 0 <= i < |states| - 1 && BridgeBounded(states[i], b) ensures BridgeBounded(states[i + 1], b) {
      NextBounded(c, states[i], events[i], states[i + 1], b);
    }
    BoundedThroughout(states, b, n);
  }

  // ---------- where the rate limit forgets ----------

  lemma {:induction false} StalestExists(rates: RateTable, tick: nat) returns (k: BridgeId)
    requires rates != map[]
    ensures Stalest(rates, tick, k)
    decreases |rates|
  {
    k :| k in rates;
    var rest := rates - {k};
    assert forall other :: other in rates ==> other == k || other in rest;
    if rest != map[] {
      assert rest.Keys == rates.Keys - {k};
      var other := StalestExists(rest, tick);
      if LastAdmitted(rates[other], tick) < LastAdmitted(rates[k], tick) {
        k := other;
      }
    }
  }

  /** Any table takes a delivery from any publisher. */
  lemma StepExists(rates: RateTable, p: BridgeId, tick: nat) returns (rates': RateTable, admitted: bool)
    ensures RateStep(rates, p, tick, rates', admitted)
  {
    var room := rates;
    if p !in rates && |rates| >= MAX_PUBLISHERS {
      var k := StalestExists(rates, tick);
      room := rates - {k};
    }
    assert RateRoom(rates, p, tick, room);
    rates', admitted := RatesAfter(room, p, tick), Admits(room, p, tick);
  }

  ghost predicate AdmittedAfter(rates: RateTable, q: BridgeId, p: BridgeId, tick: nat) {
    exists r1, r2 :: RateStep(rates, q, tick, r1, true) && RateStep(r1, p, tick, r2, true)
  }

  /** A publisher at its limit can be admitted again right after a delivery from a publisher the
      table does not know, exactly when the table is full and its own entry is a stalest one. */
  lemma LimitForgottenIff(rates: RateTable, p: BridgeId, q: BridgeId, tick: nat)
    requires p in rates && !Admits(rates, p, tick) && q !in rates
    ensures AdmittedAfter(rates, q, p, tick) <==> |rates| >= 256 && Stalest(rates, tick, p)
  {
    if |rates| >= MAX_PUBLISHERS && Stalest(rates, tick, p) {
      var r1, r2 := ForgottenIsAdmitted(rates, p, q, tick);
    }
    forall r1, r2 | RateStep(rates, q, tick, r1, true) && RateStep(r1, p, tick, r2, true)
      ensures |rates| >= MAX_PUBLISHERS && Stalest(rates, tick, p)
    {
      AdmittedWasForgotten(rates, p, q, tick, r1, r2);
    }
  }

  lemma ForgottenIsAdmitted(rates: RateTable, p: BridgeId, q: BridgeId, tick: nat)
    returns (r1: RateTable, r2: RateTable)
    requires q !in rates && |rates| >= MAX_PUBLISHERS && Stalest(rates, tick, p)
    ensures RateStep(rates, q, tick, r1, true) && RateStep(r1, p, tick, r2, true)
  {
    var room := rates - {p};
    assert RateRoom(rates, q, tick, room) && Admits(room, q, tick);
    r1 := RatesAfter(room, q, tick);
    var admitted;
    r2, admitted := StepExists(r1, p, tick);
    RoomForSelf(r1, p, tick, r2, admitted);
  }

  lemma AdmittedWasForgotten(rates: RateTable, p: BridgeId, q: BridgeId, tick: nat, r1: RateTable, r2: RateTable)
    requires p in rates && !Admits(rates, p, tick) && q !in rates
    requires RateStep(rates, q, tick, r1, true) && RateStep(r1, p, tick, r2, true)
    ensures |rates| >= MAX_PUBLISHERS && Stalest(rates, tick, p)
  {
    RoomForSelf(r1, p, tick, r2, true);
    if p in r1 {
      RoomForOther(rates, q, tick, r1, true, p);
      assert false;
    }
  }

  /** Deliveries to one rate table, each with the table it leaves. */
  datatype Path = Start | Then(before: Path, from: BridgeId, tick: nat, rates: RateTable)

  function TableOf(path: Path): RateTable {
    if path.Start? then map[] else path.rates
  }

  /** Every delivery came within the first second and was admitted. */
  ghost predicate AllAdmitted(path: Path) {
    match path
    case Start => true
    case Then(before, from, tick, rates) =>
      AllAdmitted(before) && tick <= SECOND && RateStep(TableOf(before), from, tick, rates, true)
  }

  function BurnsBy(path: Path, p: BridgeId): nat {
    match path
    case Start => 0
    case Then(before, from, _, _) => BurnsBy(before, p) + if from == p then 1 else 0
  }

  function Burst(n: nat): seq<nat> { Repeat(0, n) }

  lemma BurstGrows(n: nat)
    requires n < BURN_RATE_LIMIT
    ensures RateStep(BurstTable(n), 0, 0, BurstTable(n + 1), true)
  {
    var rates := BurstTable(n);
    AllRecent(Burst(n), 0, BURN_RATE_WINDOW);
    assert KeptTicks(rates, 0, 0) == Burst(n);
    assert Burst(n) + [0] == Burst(n + 1);
    assert RateRoom(rates, 0, 0, rates) && RatesAfter(rates, 0, 0) == map[0 := Burst(n + 1)];
  }

  function BurstTable(n: nat): RateTable {
    if n == 0 then map[] else map[0 := Burst(n)]
  }

  lemma BurstOneMore(path: Path, n: nat)
    requires 0 < n <= BURN_RATE_LIMIT && AllAdmitted(path) && TableOf(path) == BurstTable(n - 1)
    ensures var more := Then(path, 0, 0, BurstTable(n));
      AllAdmitted(more) && BurnsBy(more, 0) == BurnsBy(path, 0) + 1
  {
    BurstGrows(n - 1);
  }

  /** `n` burns by publisher 0 at tick 0. */
  lemma {:induction false} BurstAdmitted(n: nat) returns (path: Path)
    requires n <= BURN_RATE_LIMIT
    ensures AllAdmitted(path) && BurnsBy(path, 0) == n && TableOf(path) == BurstTable(n)
  {
    path := Start;
    if n > 0 {
      var before := BurstAdmitted(n - 1);
      BurstOneMore(before, n);
      path := Then(before, 0, 0, BurstTable(n));
    }
  }

  /** The table once publishers 1, ..., m have each burned one token a second later. */
  ghost function Crowd(m: nat): (rates: RateTable)
    ensures |rates| == m + 1 && (forall k :: k in rates <==> 0 <= k <= m)
    ensures rates[0] == Burst(BURN_RATE_LIMIT) && forall k :: 0 < k <= m ==> rates[k] == [SECOND]
  {
    if m == 0 then map[0 := Burst(BURN_RATE_LIMIT)] else Crowd(m - 1)[m := [SECOND]]
  }

  lemma CrowdGrows(m: nat)
    requires 0 < m < MAX_PUBLISHERS
    ensures RateStep(Crowd(m - 1), m, SECOND, Crowd(m), true)
  {
    assert RateRoom(Crowd(m - 1), m, SECOND, Crowd(m - 1));
    assert KeptTicks(Crowd(m - 1), m, SECOND) + [SECOND] == [SECOND];
  }

  lemma OneMore(path: Path, from: BridgeId, rates: RateTable)
    requires AllAdmitted(path) && RateStep(TableOf(path), from, SECOND, rates, true)
    ensures var more := Then(path, from, SECOND, rates);
      AllAdmitted(more) && TableOf(more) == rates && BurnsBy(more, 0) == BurnsBy(path, 0) + if from == 0 then 1 else 0
  {
  }

  lemma CrowdOneMore(path: Path, m: nat)
    requires 0 < m < MAX_PUBLISHERS && AllAdmitted(path) && TableOf(path) == Crowd(m - 1)
    ensures AllAdmitted(Then(path, m, SECOND, Crowd(m)))
    ensures BurnsBy(Then(path, m, SECOND, Crowd(m)), 0) == BurnsBy(path, 0)
  {
    CrowdGrows(m);
    OneMore(path, m, Crowd(m));
  }

  lemma CrowdStarts() returns (path: Path)
    ensures AllAdmitted(path) && BurnsBy(path, 0) == BURN_RATE_LIMIT && TableOf(path) == Crowd(0)
  {
    path := BurstAdmitted(BURN_RATE_LIMIT);
  }

  lemma {:induction false} CrowdAdmitted(start: Path, m: nat) returns (path: Path)
    requires AllAdmitted(start) && TableOf(start) == Crowd(0) && m < MAX_PUBLISHERS
    ensures AllAdmitted(path) && BurnsBy(path, 0) == BurnsBy(start, 0) && TableOf(path) == Crowd(m)
  {
    if m == 0 {
      path := start;
    } else {
      var before := CrowdAdmitted(start, m - 1);
      CrowdOneMore(before, m);
      path := Then(before, m, SECOND, Crowd(m));
    }
  }

  /** With the table full, publisher 0 is the stalest: one more publisher makes it forgotten. */
  lemma CrowdForgets(rates: RateTable) returns (r1: RateTable, r2: RateTable)
    requires rates == Crowd(MAX_PUBLISHERS - 1)
    ensures RateStep(rates, MAX_PUBLISHERS, SECOND, r1, true) && RateStep(r1, 0, SECOND, r2, true)
  {
    AllRecent(rates[0], SECOND, BURN_RATE_WINDOW);
    LimitForgottenIff(rates, 0, MAX_PUBLISHERS, SECOND);
    assert AdmittedAfter(rates, MAX_PUBLISHERS, 0, SECOND);
    r1, r2 :| RateStep(rates, MAX_PUBLISHERS, SECOND, r1, true) && RateStep(r1, 0, SECOND, r2, true);
  }

  /** The limit does fail when an entry is evicted: from the empty table, 257 publishers suffice for
      one of them to get 101 burns admitted within one second. */
  lemma LimitExceeded() returns (path: Path)
    ensures AllAdmitted(path) && BurnsBy(path, 0) == 101
  {
    var start := CrowdStarts();
    path := CrowdAdmitted(start, MAX_PUBLISHERS - 1);
    var r1, r2 := CrowdForgets(TableOf(path));
    OneMore(path, MAX_PUBLISHERS, r1);
    path := Then(path, MAX_PUBLISHERS, SECOND, r1);
    OneMore(path, 0, r2);
    path := Then(path, 0, SECOND, r2);
  }

  // ---------- the components ----------

  /** The gossip subscriber's rate table in front of a shared replay set. */
  class Subscriber {
    const replaySet: RS.Set
    const ttl: nat
    var rates: RateTable

    constructor (replaySet: RS.Set, ingestTtl: nat)
      ensures this.replaySet == replaySet && rates == map[]
      ensures ttl == Ttl(Config(replaySet.maxEntries, ingestTtl))
      ensures ttl <= ingestTtl && ttl <= 86_400 && (ttl == ingestTtl || ttl == 86_400)
    {
      this.replaySet := replaySet;
      ttl := Min(ingestTtl, MAX_GOSSIP_REPLAY_TTL_SECS);
      rates := map[];
    }

    method FindStalest(tick: nat) returns (k: BridgeId)
      requires rates != map[]
      ensures Stalest(rates, tick, k)
    {
      k :| k in rates;
      var left := rates.Keys - {k};
      while left != {}
        invariant left <= rates.Keys && k in rates
        invariant forall other :: other in rates.Keys - left ==>
          LastAdmitted(rates[k], tick) <= LastAdmitted(rates[other], tick)
      {
        var other :| other in left;
        if LastAdmitted(rates[other], tick) < LastAdmitted(rates[k], tick) {
          k := other;
        }
        left := left - {other};
      }
    }

    method Admit(p: BridgeId, tick: nat) returns (admitted: bool)
      modifies this
      ensures RateStep(old(rates), p, tick, rates, admitted)
    {
      if p !in rates && |rates| >= MAX_PUBLISHERS {
        var victim := FindStalest(tick);
        rates := rates - {victim};
      }
      ghost var room := rates;
      assert RateRoom(old(rates), p, tick, room);
      var entry := if p in rates then rates[p] else [];
      entry := Recent(entry, tick, BURN_RATE_WINDOW);
      if |entry| >= BURN_RATE_LIMIT {
        admitted := false;
      } else {
        entry := entry + [tick];
        admitted := true;
      }
      rates := rates[p := entry];
      assert rates == RatesAfter(room, p, tick);
    }

    /** An admitted burn the set accepts is held to `ttl` seconds after the burn. */
    method OnTokenBurned(m: Message, now: Unix, tick: nat, logged: bool) returns (admitted: bool)
      modifies this, replaySet
      ensures RateStep(old(rates), m.publisher, tick, rates, admitted)
      ensures replaySet.entries ==
        if admitted then
          var expiry := SaturatingAdd(m.burnedAt, ttl);
          RS.AfterInsert(old(replaySet.entries), replaySet.maxEntries, m.token, expiry, now, logged)
        else old(replaySet.entries)
      ensures admitted && RS.Accepts(old(replaySet.entries), replaySet.maxEntries, m.token, now, logged) ==>
        forall t: Unix :: RS.Contains(replaySet.entries, m.token, t) <==> t <= m.burnedAt + ttl
    {
      admitted := Admit(m.publisher, tick);
      if admitted {
        var expiresAt := SaturatingAdd(m.burnedAt, ttl);
        var _ := replaySet.CheckAndInsert(m.token, expiresAt, now, logged);
      }
    }
  }

  class Coordinator {
    const replaySet: RS.Set
    const id: BridgeId

    constructor (replaySet: RS.Set, id: BridgeId)
      ensures this.replaySet == replaySet && this.id == id
    {
      this.replaySet := replaySet;
      this.id := id;
    }

    /** Burns a token locally and, only if that succeeded, returns the event to publish; the token is
        then held to its expiry, a day at most. */
    method RecordLocalBurn(token: Token, expiresAt: Unix, now: Unix, logged: bool) returns (message: Option<Message>)
      modifies replaySet
      ensures message.Some? <==> RS.Accepts(old(replaySet.entries), replaySet.maxEntries, token, now, logged)
      ensures message.Some? ==> message.value == Message(token, now, id, LocalBurn)
      ensures replaySet.entries ==
        RS.AfterInsert(old(replaySet.entries), replaySet.maxEntries, token, BurnExpiry(expiresAt, now), now, logged)
      ensures message.Some? ==>
        forall t: Unix :: RS.Contains(replaySet.entries, token, t) <==> t <= expiresAt && t <= now + 86_400
    {
      var clamped := Min(expiresAt, SaturatingAdd(now, MAX_GOSSIP_REPLAY_TTL_SECS));
      var inserted := replaySet.CheckAndInsert(token, clamped, now, logged);
      if !inserted {
        return None;
      }
      message := Some(Message(token, now, id, LocalBurn));
    }

    /** A pure read: true exactly while the token is held unexpired, and then a local burn of it at
        this moment would be refused, whatever the log does. */
    method AlreadyBurned(token: Token, now: Unix) returns (burned: bool)
      ensures burned <==> RS.Contains(replaySet.entries, token, now)
      ensures burned ==> forall logged :: !RS.Accepts(replaySet.entries, replaySet.maxEntries, token, now, logged)
    {
      burned := token in replaySet.entries && replaySet.entries[token] >= now;
    }
  }
}
