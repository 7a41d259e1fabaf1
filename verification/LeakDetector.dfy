/**
 Cross-bridge leaked-invite attribution (crates/bridge/src/leak_detector.rs): windowed
 distinct-publisher counting with a three-tier, flood-resistant eviction policy.

 Receive time is an explicit clock that never runs backwards. Ties between equally old entries
 are broken by `HashMap` order, so any oldest entry may be evicted.
 */
module LeakDetector {
  import opened Wrappers
  import opened Collections
  import opened Sorting

  type Tag = nat
  type Publisher = nat

  const LEAK_PUBLISHER_THRESHOLD: nat := 2

  datatype Config = Config(window: nat, capacity: nat)

  datatype TagState = TagState(publishers: map<Publisher, nat>, created: nat, alertedAt: nat, lastObserved: nat)

  datatype LeakAlert = LeakAlert(tag: Tag, publishers: seq<Publisher>, observedSecs: nat)

  type Table = map<Tag, TagState>

  // ---------- eviction ----------

  function Singletons(t: Table): set<Tag> {
    set k | k in t && |t[k].publishers| == 1
  }

  /** Entries `p` is the sole observer of. */
  function OwnSingletons(t: Table, p: Publisher): set<Tag> {
    set k | k in t && |t[k].publishers| == 1 && p in t[k].publishers
  }

  ghost predicate OldestOf(t: Table, among: set<Tag>, k: Tag) {
    && among <= t.Keys && k in among
    && forall other :: other in among ==> t[k].created <= t[other].created
  }

  /** The tier to evict from on behalf of `p`: its own singletons, else any singleton, else all. */
  function EvictionTier(t: Table, p: Publisher): set<Tag> {
    if OwnSingletons(t, p) != {} then OwnSingletons(t, p)
    else if Singletons(t) != {} then Singletons(t)
    else t.Keys
  }

  // ---------- steps ----------

  function Live(publishers: map<Publisher, nat>, now: nat, window: nat): map<Publisher, nat> {
    map p | p in publishers && now - publishers[p] <= window :: publishers[p]
  }

  function Created(now: nat, secs: nat): TagState {
    TagState(map[], now, 0, secs)
  }

  /** Prune, insert, clamp the alert level, test: the new entry state and whether it alerts. */
  function Observe(c: Config, st: TagState, p: Publisher, secs: nat, now: nat): (TagState, bool) {
    var publishers := Live(st.publishers, now, c.window)[p := now];
    var distinct := |publishers|;
    var level := Min(st.alertedAt, distinct);
    var alerts := distinct >= LEAK_PUBLISHER_THRESHOLD && distinct > level;
    (TagState(publishers, st.created, if alerts then distinct else level, secs), alerts)
  }

  ghost predicate Increasing(s: seq<Publisher>) {
    forall i, j :: 0 <= i < j < |s| ==> s[i] < s[j]
  }

  function Names(s: seq<Publisher>): set<Publisher> {
    set p | p in s
  }

  /** The alert names exactly the entry's publishers, in increasing order. */
  ghost predicate AlertNames(a: LeakAlert, tag: Tag, st: TagState) {
    && a.tag == tag && a.observedSecs == st.lastObserved
    && Increasing(a.publishers) && Names(a.publishers) == st.publishers.Keys
  }

  ghost predicate NeedsRoom(c: Config, t: Table, tag: Tag) {
    tag !in t && |t| >= c.capacity
  }

  /** The table a record works on: with room made for a new tag when the table is full. */
  ghost predicate MadeRoom(c: Config, t: Table, tag: Tag, p: Publisher, room: Table) {
    if NeedsRoom(c, t, tag) then exists k :: OldestOf(t, EvictionTier(t, p), k) && room == t - {k}
    else room == t
  }

  function EntryOf(t: Table, tag: Tag, now: nat, secs: nat): TagState {
    if tag in t then t[tag] else Created(now, secs)
  }

  ghost predicate RecordOn(c: Config, room: Table, tag: Tag, p: Publisher, secs: nat, now: nat, t': Table,
                           alert: Option<LeakAlert>) {
    var (st', alerts) := Observe(c, EntryOf(room, tag, now, secs), p, secs, now);
    && t' == room[tag := st']
    && (alerts <==> alert.Some?)
    && (alert.Some? ==> AlertNames(alert.value, tag, st'))
  }

  ghost predicate RecordStep(c: Config, t: Table, tag: Tag, p: Publisher, secs: nat, now: nat, t': Table,
                             alert: Option<LeakAlert>) {
    exists room :: MadeRoom(c, t, tag, p, room) && RecordOn(c, room, tag, p, secs, now, t', alert)
  }

  function Reaped(c: Config, st: TagState, now: nat): TagState {
    var publishers := Live(st.publishers, now, c.window);
    st.(publishers := publishers, alertedAt := Min(st.alertedAt, |publishers|))
  }

  function ReapTable(c: Config, t: Table, now: nat): Table {
    map k | k in t && |Live(t[k].publishers, now, c.window)| > 0 :: Reaped(c, t[k], now)
  }

  datatype State = State(table: Table, clock: nat)

  datatype Event =
    | Record(tag: Tag, publisher: Publisher, secs: nat, now: nat, alert: Option<LeakAlert>)
    | Reap(now: nat)

  ghost predicate Step(c: Config, s: State, e: Event, s': State) {
    && e.now >= s.clock && s'.clock == e.now
    && match e
       case Record(tag, p, secs, now, alert) => RecordStep(c, s.table, tag, p, secs, now, s'.table, alert)
       case Reap(now) => s'.table == ReapTable(c, s.table, now)
  }

  ghost predicate Run(c: Config, states: seq<State>, events: seq<Event>) {
    && |states| == |events| + 1
    && forall i :: 0 <= i < |events| ==> Step(c, states[i], events[i], states[i + 1])
  }

  // ---------- invariant ----------

  /** Every entry has an observer, none alerted above its publisher count, the table is bounded. */
  ghost predicate Inv(c: Config, t: Table) {
    && c.capacity >= 1 && |t| <= c.capacity
    && forall k :: k in t ==> 1 <= |t[k].publishers| && t[k].alertedAt <= |t[k].publishers|
  }

  lemma MakeRoomPreserves(c: Config, t: Table, tag: Tag, p: Publisher, room: Table)
    requires Inv(c, t) && MadeRoom(c, t, tag, p, room)
    ensures Inv(c, room) && (tag !in room ==> |room| < c.capacity)
  {
    if NeedsRoom(c, t, tag) {
      var k :| OldestOf(t, EvictionTier(t, p), k) && room == t - {k};
      assert room.Keys == t.Keys - {k};
    }
  }

  lemma ObserveCounts(c: Config, st: TagState, p: Publisher, secs: nat, now: nat)
    ensures var st' := Observe(c, st, p, secs, now).0;
      p in st'.publishers && 1 <= |st'.publishers| && st'.alertedAt <= |st'.publishers|
  {
    assert p in Observe(c, st, p, secs, now).0.publishers.Keys;
  }

  lemma RecordPreserves(c: Config, t: Table, tag: Tag, p: Publisher, secs: nat, now: nat, t': Table,
                        alert: Option<LeakAlert>)
    requires Inv(c, t) && RecordStep(c, t, tag, p, secs, now, t', alert)
    ensures Inv(c, t')
  {
    var room :| MadeRoom(c, t, tag, p, room) && RecordOn(c, room, tag, p, secs, now, t', alert);
    MakeRoomPreserves(c, t, tag, p, room);
    ObserveCounts(c, EntryOf(room, tag, now, secs), p, secs, now);
    UpdatePreserves(c, room, tag, Observe(c, EntryOf(room, tag, now, secs), p, secs, now).0);
  }

  lemma UpdatePreserves(c: Config, room: Table, tag: Tag, st: TagState)
    requires Inv(c, room) && (tag !in room ==> |room| < c.capacity)
    requires 1 <= |st.publishers| && st.alertedAt <= |st.publishers|
    ensures Inv(c, room[tag := st])
  {
    assert room[tag := st].Keys == room.Keys + {tag};
  }

  lemma ReapPreserves(c: Config, t: Table, now: nat)
    requires Inv(c, t)
    ensures Inv(c, ReapTable(c, t, now))
  {
    SubsetSize(ReapTable(c, t, now).Keys, t.Keys);
  }

  lemma StepPreserves(c: Config, s: State, e: Event, s': State)
    requires Inv(c, s.table) && Step(c, s, e, s')
    ensures Inv(c, s'.table)
  {
    match e
    case Record(tag, p, secs, now, alert) => RecordPreserves(c, s.table, tag, p, secs, now, s'.table, alert);
    case Reap(now) => ReapPreserves(c, s.table, now);
  }

  lemma {:induction false} RunKeepsInvariant(c: Config, states: seq<State>, events: seq<Event>, n: nat)
    requires Run(c, states, events) && Inv(c, states[0].table) && n < |states|
    ensures Inv(c, states[n].table)
  {
    if n > 0 {
      RunKeepsInvariant(c, states, events, n - 1);
      StepPreserves(c, states[n - 1], events[n - 1], states[n]);
    }
  }

  // ---------- flood resistance ----------

  ghost predicate SoleObserver(st: TagState, p: Publisher) {
    |st.publishers| == 1 && p in st.publishers
  }

  /** The entries the step threw out that `p` was not the sole observer of. */
  ghost function Displaced(s: State, s': State, p: Publisher): set<Tag> {
    set k | k in s.table && k !in s'.table && !SoleObserver(s.table[k], p)
  }

  /** How many such entries the first `n` steps threw out. */
  ghost function DisplacedBy(states: seq<State>, p: Publisher, n: nat): nat
    requires n < |states|
  {
    if n == 0 then 0 else DisplacedBy(states, p, n - 1) + |Displaced(states[n - 1], states[n], p)|
  }

  lemma SoleObserverMap(publishers: map<Publisher, nat>, p: Publisher)
    requires |publishers| == 1 && p in publishers
    ensures publishers.Keys == {p}
  {
    assert {p} <= publishers.Keys;
    SubsetSize({p}, publishers.Keys);
    assert publishers.Keys - {p} == {} by {
      assert |publishers.Keys - {p}| == 0;
    }
  }

  /** Observing keeps a sole observer sole, and a new entry has one. */
  lemma ObserveStaysSole(c: Config, st: TagState, p: Publisher, secs: nat, now: nat)
    requires st.publishers == map[] || SoleObserver(st, p)
    ensures SoleObserver(Observe(c, st, p, secs, now).0, p)
  {
    if st.publishers != map[] {
      SoleObserverMap(st.publishers, p);
    }
    assert Observe(c, st, p, secs, now).0.publishers.Keys == {p};
  }

  /** What a record by `p` does to the entries `p` alone observes: once it has one it keeps one and
      evicts nobody else's; a record that does evict somebody else's evicts one and leaves `p` with
      one of its own. */
  ghost predicate KeepsToItself(s: State, s': State, p: Publisher) {
    && |Displaced(s, s', p)| <= 1
    && (OwnSingletons(s.table, p) != {} ==> OwnSingletons(s'.table, p) != {} && Displaced(s, s', p) == {})
    && (Displaced(s, s', p) != {} ==> OwnSingletons(s'.table, p) != {})
  }

  lemma EvictingRecord(c: Config, s: State, e: Event, s': State, room: Table, k: Tag)
    requires e.Record? && e.tag !in s.table
    requires OldestOf(s.table, EvictionTier(s.table, e.publisher), k) && room == s.table - {k}
    requires RecordOn(c, room, e.tag, e.publisher, e.secs, e.now, s'.table, e.alert)
    ensures KeepsToItself(s, s', e.publisher)
  {
    ObserveStaysSole(c, Created(e.now, e.secs), e.publisher, e.secs, e.now);
    assert e.tag in OwnSingletons(s'.table, e.publisher);
    assert Displaced(s, s', e.publisher) <= {k};
    SubsetSize(Displaced(s, s', e.publisher), {k});
    if OwnSingletons(s.table, e.publisher) != {} {
      assert SoleObserver(s.table[k], e.publisher);
    }
  }

  lemma RoomyRecord(c: Config, s: State, e: Event, s': State)
    requires e.Record?
    requires RecordOn(c, s.table, e.tag, e.publisher, e.secs, e.now, s'.table, e.alert)
    ensures KeepsToItself(s, s', e.publisher)
  {
    var p := e.publisher;
    assert Displaced(s, s', p) == {};
    if OwnSingletons(s.table, p) != {} {
      var own :| own in OwnSingletons(s.table, p);
      if own == e.tag {
        ObserveStaysSole(c, s.table[own], p, e.secs, e.now);
      }
      assert own in OwnSingletons(s'.table, p);
    }
  }

  lemma RecordKeepsToItself(c: Config, s: State, e: Event, s': State)
    requires Step(c, s, e, s') && e.Record?
    ensures KeepsToItself(s, s', e.publisher)
  {
    var room :| MadeRoom(c, s.table, e.tag, e.publisher, room)
      && RecordOn(c, room, e.tag, e.publisher, e.secs, e.now, s'.table, e.alert);
    if NeedsRoom(c, s.table, e.tag) {
      var k :| OldestOf(s.table, EvictionTier(s.table, e.publisher), k) && room == s.table - {k};
      EvictingRecord(c, s, e, s', room, k);
    } else {
      RoomyRecord(c, s, e, s');
    }
  }

  lemma {:induction false} AtMostOneDisplaced(states: seq<State>, p: Publisher, n: nat)
    requires n < |states|
    requires forall i :: 0 <= i < |states| - 1 ==> KeepsToItself(states[i], states[i + 1], p)
    ensures DisplacedBy(states, p, n) <= 1
    ensures DisplacedBy(states, p, n) == 1 ==> OwnSingletons(states[n].table, p) != {}
  {
    if n > 0 {
      AtMostOneDisplaced(states, p, n - 1);
      assert KeepsToItself(states[n - 1], states[(n - 1) + 1], p);
    }
  }

  /** However one publisher floods, it displaces at most one entry that is not its own. */
  lemma FloodDisplacesAtMostOne(c: Config, states: seq<State>, events: seq<Event>, p: Publisher)
    requires Run(c, states, events)
    requires forall i :: 0 <= i < |events| ==> events[i].Record? && events[i].publisher == p
    ensures DisplacedBy(states, p, |events|) <= 1
  {
    forall i | 0 <= i < |states| - 1 ensures KeepsToItself(states[i], states[i + 1], p) {
      RecordKeepsToItself(c, states[i], events[i], states[i + 1]);
    }
    AtMostOneDisplaced(states, p, |events|);
  }

  /** An entry with several observers is never evicted while any singleton exists. */
  lemma CorrelatedEntriesOutlastSingletons(c: Config, s: State, e: Event, s': State, k: Tag)
    requires Inv(c, s.table) && Step(c, s, e, s') && e.Record?
    requires k in s.table && k !in s'.table && |s.table[k].publishers| >= 2
    ensures Singletons(s.table) == {}
  {
    var room :| MadeRoom(c, s.table, e.tag, e.publisher, room)
      && RecordOn(c, room, e.tag, e.publisher, e.secs, e.now, s'.table, e.alert);
    var victim :| OldestOf(s.table, EvictionTier(s.table, e.publisher), victim) && room == s.table - {victim};
    assert victim == k;
    assert k !in Singletons(s.table) && k !in OwnSingletons(s.table, e.publisher);
    assert OwnSingletons(s.table, e.publisher) <= Singletons(s.table);
  }

  // ---------- alerts against the full history ----------

  ghost predicate Observed(e: Event, tag: Tag, p: Publisher) {
    e.Record? && e.tag == tag && e.publisher == p
  }

  /** Publishers that recorded `tag` among the first `n` events, no more than a window before `now`. */
  ghost function RecentObservers(c: Config, events: seq<Event>, n: nat, tag: Tag, now: nat): set<Publisher>
    requires n <= |events|
  {
    set i | 0 <= i < n && events[i].Record? && events[i].tag == tag && now - events[i].now <= c.window
      :: events[i].publisher
  }

  /** `tag` left the table only by having no observer left in the window. */
  ghost predicate NeverEvicted(states: seq<State>, events: seq<Event>, tag: Tag, n: nat)
    requires |states| == |events| + 1 && n < |states|
  {
    forall i :: 0 <= i < n ==> (tag in states[i].table && tag !in states[i + 1].table ==> events[i].Reap?)
  }

  /** Every sighting still in the window is stored, at its own time or a later one. */
  ghost predicate Covers(c: Config, events: seq<Event>, n: nat, s: State, tag: Tag)
    requires n <= |events|
  {
    && (forall i :: 0 <= i < n ==> events[i].now <= s.clock)
    && forall i :: 0 <= i < n && events[i].Record? && events[i].tag == tag && s.clock - events[i].now <= c.window ==>
      && tag in s.table && events[i].publisher in s.table[tag].publishers
      && s.table[tag].publishers[events[i].publisher] >= events[i].now
  }

  /** The alert level stays at zero until an alert was raised for the tag. */
  ghost predicate LevelEarned(events: seq<Event>, n: nat, t: Table)
    requires n <= |events|
  {
    forall k :: k in t && t[k].alertedAt > 0 ==> AlertedBefore(events, n, k)
  }

  ghost predicate AlertedBefore(events: seq<Event>, n: nat, tag: Tag)
    requires n <= |events|
  {
    exists i :: 0 <= i < n && events[i].Record? && events[i].tag == tag && events[i].alert.Some?
  }

  lemma SightingInRoom(c: Config, t: Table, tag: Tag, p: Publisher, room: Table, k: Tag)
    requires MadeRoom(c, t, tag, p, room) && k in room
    ensures k in t && room[k] == t[k]
  {
  }

  lemma SightingAfterRecord(c: Config, room: Table, e: Event, t': Table, k: Tag, p: Publisher)
    requires e.Record? && RecordOn(c, room, e.tag, e.publisher, e.secs, e.now, t', e.alert)
    requires k in t' && p in t'[k].publishers && !(Observed(e, k, p) && e.now == t'[k].publishers[p])
    ensures k in room && p in room[k].publishers && room[k].publishers[p] == t'[k].publishers[p]
  {
  }

  /** A stored sighting is one from before, or this record. */
  lemma SightingComesFrom(c: Config, s: State, e: Event, s': State, k: Tag, p: Publisher)
    requires Step(c, s, e, s') && k in s'.table && p in s'.table[k].publishers
    ensures || (k in s.table && p in s.table[k].publishers && s.table[k].publishers[p] == s'.table[k].publishers[p])
            || (Observed(e, k, p) && e.now == s'.table[k].publishers[p])
  {
    if e.Record? {
      if !(Observed(e, k, p) && e.now == s'.table[k].publishers[p]) {
        var room :| MadeRoom(c, s.table, e.tag, e.publisher, room)
          && RecordOn(c, room, e.tag, e.publisher, e.secs, e.now, s'.table, e.alert);
        SightingAfterRecord(c, room, e, s'.table, k, p);
        SightingInRoom(c, s.table, e.tag, e.publisher, room, k);
      }
    }
  }

  /** A live observation is still in the entry after a record: pruning spares it. */
  lemma RecordStillCovers(c: Config, s: State, e: Event, s': State, tag: Tag, p: Publisher, t: nat)
    requires Step(c, s, e, s') && e.Record? && t <= e.now && e.now - t <= c.window
    requires (e.tag == tag && e.publisher == p && e.now == t)
          || (tag in s.table && tag in s'.table && p in s.table[tag].publishers && s.table[tag].publishers[p] >= t)
    ensures tag in s'.table && p in s'.table[tag].publishers && s'.table[tag].publishers[p] >= t
  {
    var room :| MadeRoom(c, s.table, e.tag, e.publisher, room)
      && RecordOn(c, room, e.tag, e.publisher, e.secs, e.now, s'.table, e.alert);
  }

  lemma ReapStillCovers(c: Config, s: State, e: Event, s': State, tag: Tag, p: Publisher, t: nat)
    requires Step(c, s, e, s') && e.Reap? && e.now - t <= c.window
    requires tag in s.table && p in s.table[tag].publishers && s.table[tag].publishers[p] >= t
    ensures tag in s'.table && p in s'.table[tag].publishers && s'.table[tag].publishers[p] >= t
  {
    assert p in Live(s.table[tag].publishers, e.now, c.window).Keys;
    assert |Live(s.table[tag].publishers, e.now, c.window)| > 0;
  }

  lemma StepStillCovers(c: Config, events: seq<Event>, n: nat, s: State, s': State, tag: Tag)
    requires n < |events| && Step(c, s, events[n], s') && Covers(c, events, n, s, tag)
    requires tag in s.table && tag !in s'.table ==> events[n].Reap?
    ensures Covers(c, events, n + 1, s', tag)
  {
    var e := events[n];
    forall i | 0 <= i < n + 1 && events[i].Record? && events[i].tag == tag && s'.clock - events[i].now <= c.window
      ensures tag in s'.table && events[i].publisher in s'.table[tag].publishers
      ensures s'.table[tag].publishers[events[i].publisher] >= events[i].now
    {
      if e.Record? {
        RecordStillCovers(c, s, e, s', tag, events[i].publisher, events[i].now);
      } else {
        ReapStillCovers(c, s, e, s', tag, events[i].publisher, events[i].now);
      }
    }
  }

  lemma StepEarnsLevel(c: Config, events: seq<Event>, n: nat, s: State, s': State)
    requires n < |events| && Step(c, s, events[n], s') && LevelEarned(events, n, s.table)
    ensures LevelEarned(events, n + 1, s'.table)
  {
    var e := events[n];
    forall k | k in s'.table && s'.table[k].alertedAt > 0 ensures AlertedBefore(events, n + 1, k) {
      if e.Record? {
        var room :| MadeRoom(c, s.table, e.tag, e.publisher, room)
          && RecordOn(c, room, e.tag, e.publisher, e.secs, e.now, s'.table, e.alert);
        if k == e.tag && e.alert.Some? {
          assert events[n].alert.Some?;
        } else {
          assert k in s.table && s.table[k].alertedAt > 0;
        }
      }
    }
  }

  /** Stored sightings are real ones. */
  lemma {:induction false} SightingWasObserved(c: Config, states: seq<State>, events: seq<Event>, n: nat, k: Tag,
                                               p: Publisher) returns (i: nat)
    requires Run(c, states, events) && states[0].table == map[] && n < |states|
    requires k in states[n].table && p in states[n].table[k].publishers
    ensures i < n && Observed(events[i], k, p) && events[i].now == states[n].table[k].publishers[p]
  {
    var s, e, s' := states[n - 1], events[n - 1], states[n];
    assert Step(c, s, e, states[(n - 1) + 1]);
    SightingComesFrom(c, s, e, s', k, p);
    if Observed(e, k, p) && e.now == s'.table[k].publishers[p] {
      i := n - 1;
    } else {
      i := SightingWasObserved(c, states, events, n - 1, k, p);
    }
  }

  /** An entry keeps the time it was created; a new one is created at its record's receive time. */
  lemma EntryKeepsAge(c: Config, s: State, e: Event, s': State, k: Tag)
    requires Step(c, s, e, s') && k in s'.table
    ensures k in s.table ==> s'.table[k].created == s.table[k].created
    ensures k !in s.table ==> e.Record? && e.tag == k && s'.table[k].created == e.now
  {
    if e.Record? {
      var room :| MadeRoom(c, s.table, e.tag, e.publisher, room)
        && RecordOn(c, room, e.tag, e.publisher, e.secs, e.now, s'.table, e.alert);
    }
  }

  /** Event `i` is a record of a tag the table does not have. */
  ghost predicate BringsIn(states: seq<State>, events: seq<Event>, i: nat, k: Tag)
    requires i < |events| < |states|
  {
    events[i].Record? && events[i].tag == k && k !in states[i].table
  }

  /** The tag is in the table after each of the events `lo` to `hi - 1`. */
  ghost predicate InTable(states: seq<State>, k: Tag, lo: nat, hi: nat)
    requires hi < |states|
  {
    forall j :: lo < j <= hi ==> k in states[j].table
  }

  /** Along every run, an entry's age for eviction runs from the receive time of the record that
      brought its tag in, whatever time the publisher claims. */
  lemma {:induction false} CreatedOnReceipt(c: Config, states: seq<State>, events: seq<Event>, n: nat, k: Tag)
    returns (i: nat)
    requires Run(c, states, events) && states[0].table == map[] && n < |states| && k in states[n].table
    ensures i < n && BringsIn(states, events, i, k) && states[n].table[k].created == events[i].now
    ensures InTable(states, k, i, n)
  {
    var s, e, s' := states[n - 1], events[n - 1], states[n];
    assert Step(c, s, e, states[(n - 1) + 1]);
    EntryKeepsAge(c, s, e, s', k);
    if k in s.table {
      i := CreatedOnReceipt(c, states, events, n - 1, k);
    } else {
      i := n - 1;
    }
  }

  lemma RunEarnsLevels(c: Config, states: seq<State>, events: seq<Event>, n: nat)
    requires Run(c, states, events) && states[0].table == map[] && n < |states|
    ensures LevelEarned(events, n, states[n].table)
  {
    var earned := (i: nat) => i <= |events| && LevelEarned(events, i, states[i].table);
    forall i: nat | i < n && earned(i) ensures earned(i + 1) {
      StepEarnsLevel(c, events, i, states[i], states[i + 1]);
    }
    Throughout(earned, n);
  }

  lemma RunCoversHistory(c: Config, states: seq<State>, events: seq<Event>, tag: Tag, n: nat)
    requires Run(c, states, events) && states[0].table == map[] && n < |states|
    requires NeverEvicted(states, events, tag, n)
    ensures Covers(c, events, n, states[n], tag)
  {
    var covers := (i: nat) => i <= |events| && Covers(c, events, i, states[i], tag);
    forall i: nat | i < n && covers(i) ensures covers(i + 1) {
      StepStillCovers(c, events, i, states[i], states[i + 1], tag);
    }
    Throughout(covers, n);
  }

  /** After a record the entry holds only observers within the window. */
  lemma RecordedAreRecent(c: Config, s: State, e: Event, s': State)
    requires Step(c, s, e, s') && e.Record?
    ensures e.tag in s'.table
    ensures forall p :: p in s'.table[e.tag].publishers ==> e.now - s'.table[e.tag].publishers[p] <= c.window
    ensures e.alert.Some? ==> AlertNames(e.alert.value, e.tag, s'.table[e.tag]) && |s'.table[e.tag].publishers| >= 2
  {
    var room :| MadeRoom(c, s.table, e.tag, e.publisher, room)
      && RecordOn(c, room, e.tag, e.publisher, e.secs, e.now, s'.table, e.alert);
  }

  lemma RecordedWereObserved(c: Config, states: seq<State>, events: seq<Event>, n: nat)
    requires Run(c, states, events) && states[0].table == map[] && n < |events| && events[n].Record?
    ensures events[n].tag in states[n + 1].table
    ensures states[n + 1].table[events[n].tag].publishers.Keys
         <= RecentObservers(c, events, n + 1, events[n].tag, events[n].now)
  {
    var e, t := events[n], states[n + 1].table;
    RecordedAreRecent(c, states[n], e, states[n + 1]);
    forall p | p in t[e.tag].publishers ensures p in RecentObservers(c, events, n + 1, e.tag, e.now) {
      var i := SightingWasObserved(c, states, events, n + 1, e.tag, p);
      assert events[i].publisher == p;
    }
  }

  /** Soundness: an alert names at least two distinct publishers, in increasing order, each of
      which recorded the tag no more than a window before the alert. */
  lemma AlertsAreSound(c: Config, states: seq<State>, events: seq<Event>, n: nat)
    requires Run(c, states, events) && states[0].table == map[]
    requires n < |events| && events[n].Record? && events[n].alert.Some?
    ensures var a := events[n].alert.value;
      && a.tag == events[n].tag && a.observedSecs == events[n].secs
      && |a.publishers| >= 2 && Increasing(a.publishers)
      && forall j :: 0 <= j < |a.publishers| ==>
           a.publishers[j] in RecentObservers(c, events, n + 1, a.tag, events[n].now)
  {
    var e := events[n];
    var a := e.alert.value;
    RecordedWereObserved(c, states, events, n);
    assert Step(c, states[n], e, states[n + 1]);
    RecordedAreRecent(c, states[n], e, states[n + 1]);
    AlertSecs(c, states[n], e, states[n + 1]);
    NamesNoMoreThanListed(a.publishers);
    forall j | 0 <= j < |a.publishers| ensures a.publishers[j] in RecentObservers(c, events, n + 1, a.tag, e.now) {
      assert a.publishers[j] in Names(a.publishers);
    }
  }

  lemma AlertSecs(c: Config, s: State, e: Event, s': State)
    requires Step(c, s, e, s') && e.Record? && e.alert.Some?
    ensures e.alert.value.tag == e.tag && e.alert.value.observedSecs == e.secs
  {
    var room :| MadeRoom(c, s.table, e.tag, e.publisher, room)
      && RecordOn(c, room, e.tag, e.publisher, e.secs, e.now, s'.table, e.alert);
  }

  lemma {:induction false} NamesNoMoreThanListed(s: seq<Publisher>)
    ensures |Names(s)| <= |s|
  {
    if s != [] {
      NamesNoMoreThanListed(s[1..]);
      assert Names(s) == {s[0]} + Names(s[1..]);
    }
  }

  /** For a tag that was never evicted, the stored observers after a record are exactly those the
      whole history puts inside the window. */
  lemma StoredObserversAreExact(c: Config, states: seq<State>, events: seq<Event>, n: nat)
    requires Run(c, states, events) && states[0].table == map[]
    requires n < |events| && events[n].Record? && NeverEvicted(states, events, events[n].tag, n + 1)
    ensures events[n].tag in states[n + 1].table
    ensures states[n + 1].table[events[n].tag].publishers.Keys
         == RecentObservers(c, events, n + 1, events[n].tag, events[n].now)
  {
    RecordedWereObserved(c, states, events, n);
    RunCoversHistory(c, states, events, events[n].tag, n + 1);
    assert Step(c, states[n], events[n], states[n + 1]);
  }

  /** A record alerts exactly when the live count reaches two and exceeds the level already alerted at. */
  lemma RecordAlertsIff(c: Config, s: State, e: Event, s': State)
    requires Step(c, s, e, s') && e.Record? && e.tag in s'.table
    ensures e.alert.Some? <==>
      && |s'.table[e.tag].publishers| >= LEAK_PUBLISHER_THRESHOLD
      && |s'.table[e.tag].publishers| > if e.tag in s.table then s.table[e.tag].alertedAt else 0
  {
    var room :| MadeRoom(c, s.table, e.tag, e.publisher, room)
      && RecordOn(c, room, e.tag, e.publisher, e.secs, e.now, s'.table, e.alert);
  }

  /** Completeness: the first record after which an unevicted tag has two live distinct observers
      raises an alert, and the alert names exactly those observers. */
  lemma FirstCorrelationAlerts(c: Config, states: seq<State>, events: seq<Event>, n: nat)
    requires Run(c, states, events) && states[0].table == map[]
    requires n < |events| && events[n].Record? && NeverEvicted(states, events, events[n].tag, n + 1)
    requires |RecentObservers(c, events, n + 1, events[n].tag, events[n].now)| >= 2
    requires forall i :: 0 <= i < n && events[i].Record? && events[i].tag == events[n].tag ==>
      |RecentObservers(c, events, i + 1, events[n].tag, events[i].now)| < 2
    ensures events[n].alert.Some?
    ensures Names(events[n].alert.value.publishers) == RecentObservers(c, events, n + 1, events[n].tag, events[n].now)
  {
    var e := events[n];
    if AlertedBefore(events, n, e.tag) {
      var i :| 0 <= i < n && events[i].Record? && events[i].tag == e.tag && events[i].alert.Some?;
      RecordedWereObserved(c, states, events, i);
      assert Step(c, states[i], events[i], states[i + 1]);
      RecordedAreRecent(c, states[i], events[i], states[i + 1]);
      SubsetSize(states[i + 1].table[e.tag].publishers.Keys, RecentObservers(c, events, i + 1, e.tag, events[i].now));
      assert false;
    }
    RunEarnsLevels(c, states, events, n);
    StoredObserversAreExact(c, states, events, n);
    assert Step(c, states[n], e, states[n + 1]);
    RecordAlertsIff(c, states[n], e, states[n + 1]);
    RecordedAreRecent(c, states[n], e, states[n + 1]);
  }

  // ---------- re-alerting ----------

  /** For a joining observer, a record alerts on the count it reaches against the old level; had a
      reap run first it would alert whenever anyone else was still live. */
  lemma JoiningObserverAlertsIff(c: Config, st: TagState, p: Publisher, secs: nat, now: nat)
    requires p !in Live(st.publishers, now, c.window)
    ensures Observe(c, st, p, secs, now).1 <==>
      |Live(st.publishers, now, c.window)| >= 1 && |Live(st.publishers, now, c.window)| + 1 > st.alertedAt
    ensures Observe(c, Reaped(c, st, now), p, secs, now).1 <==> |Live(st.publishers, now, c.window)| >= 1
  {
    var live := Live(st.publishers, now, c.window);
    assert live[p := now].Keys == live.Keys + {p};
    assert Live(live, now, c.window) == live;
  }

  // Publishers 1 and 2 record tag 0 and alert; by the time publisher 3 records it, 1 has aged out.
  const SMALL: Config := Config(10, 4)
  const EMPTY: State := State(map[], 0)
  const AFTER_ONE: State := State(map[0 := TagState(map[1 := 0], 0, 0, 0)], 0)
  const AFTER_TWO: State := State(map[0 := TagState(map[1 := 0, 2 := 8], 0, 2, 8)], 8)
  const AFTER_REAP: State := State(map[0 := TagState(map[2 := 8], 0, 1, 8)], 12)
  const AFTER_THREE: State := State(map[0 := TagState(map[2 := 8, 3 := 12], 0, 2, 12)], 12)
  const BY_ONE: Event := Record(0, 1, 0, 0, None)
  const BY_TWO: Event := Record(0, 2, 8, 8, Some(LeakAlert(0, [1, 2], 8)))

  lemma OneRecords()
    ensures Step(SMALL, EMPTY, BY_ONE, AFTER_ONE)
  {
    assert Live(map[], 0, 10)[1 := 0] == map[1 := 0];
    RecordsInto(SMALL, EMPTY.table, 0, 1, 0, 0, AFTER_ONE.table, None);
  }

  lemma TwoRecords()
    ensures Step(SMALL, AFTER_ONE, BY_TWO, AFTER_TWO)
  {
    assert Live(map[1 := 0], 8, 10)[2 := 8] == map[1 := 0, 2 := 8];
    RecordsInto(SMALL, AFTER_ONE.table, 0, 2, 8, 8, AFTER_TWO.table, BY_TWO.alert);
  }

  lemma ThreeRecords()
    ensures Step(SMALL, AFTER_TWO, Record(0, 3, 12, 12, None), AFTER_THREE)
  {
    assert Live(map[1 := 0, 2 := 8], 12, 10)[3 := 12] == map[2 := 8, 3 := 12];
    RecordsInto(SMALL, AFTER_TWO.table, 0, 3, 12, 12, AFTER_THREE.table, None);
  }

  lemma ThreeRecordsAfterReap()
    ensures Step(SMALL, AFTER_REAP, Record(0, 3, 12, 12, Some(LeakAlert(0, [2, 3], 12))), AFTER_THREE)
  {
    assert Live(map[2 := 8], 12, 10)[3 := 12] == map[2 := 8, 3 := 12];
    RecordsInto(SMALL, AFTER_REAP.table, 0, 3, 12, 12, AFTER_THREE.table, Some(LeakAlert(0, [2, 3], 12)));
  }

  lemma ReapDropsOne()
    ensures Step(SMALL, AFTER_TWO, Reap(12), AFTER_REAP)
  {
    assert Live(map[1 := 0, 2 := 8], 12, 10) == map[2 := 8];
    assert Reaped(SMALL, AFTER_TWO.table[0], 12) == AFTER_REAP.table[0];
  }

  /** So one observer ageing out while another joins in the same record stays silent: in this run
      from the empty table no alert names publisher 3, although it shares the tag with publisher 2.
      With a reap just before, the same record alerts. */
  lemma ReplacementIsSilent()
    ensures Step(SMALL, EMPTY, BY_ONE, AFTER_ONE) && Step(SMALL, AFTER_ONE, BY_TWO, AFTER_TWO)
    ensures Step(SMALL, AFTER_TWO, Record(0, 3, 12, 12, None), AFTER_THREE)
    ensures Step(SMALL, AFTER_TWO, Reap(12), AFTER_REAP)
    ensures Step(SMALL, AFTER_REAP, Record(0, 3, 12, 12, Some(LeakAlert(0, [2, 3], 12))), AFTER_THREE)
  {
    OneRecords();
    TwoRecords();
    ThreeRecords();
    ReapDropsOne();
    ThreeRecordsAfterReap();
  }

  lemma RecordsInto(c: Config, t: Table, tag: Tag, p: Publisher, secs: nat, now: nat, t': Table,
                    alert: Option<LeakAlert>)
    requires |t| < c.capacity && RecordOn(c, t, tag, p, secs, now, t', alert)
    ensures RecordStep(c, t, tag, p, secs, now, t', alert)
  {
    assert MadeRoom(c, t, tag, p, t);
  }

  // ---------- the detector ----------

  class Detector {
    const config: Config
    var inner: Table
    ghost var clock: nat

    ghost function Abs(): State
      reads this
    {
      State(inner, clock)
    }

    ghost predicate Valid()
      reads this
    {
      Inv(config, inner)
    }

    /** A zero capacity is raised to one. */
    constructor (window: nat, capacity: nat)
      ensures config == Config(window, if capacity == 0 then 1 else capacity)
      ensures Valid() && Abs() == State(map[], 0)
    {
      config := Config(window, if capacity == 0 then 1 else capacity);
      inner := map[];
      clock := 0;
    }

    method FindOldest(among: set<Tag>) returns (k: Tag)
      requires among != {} && among <= inner.Keys
      ensures OldestOf(inner, among, k)
    {
      k :| k in among;
      var left := among - {k};
      while left != {}
        invariant left <= among && k in among - left
        invariant forall other :: other in among - left ==> inner[k].created <= inner[other].created
      {
        var other :| other in left;
        if inner[other].created < inner[k].created {
          k := other;
        }
        left := left - {other};
      }
    }

    /** Removes one entry to make room for a new tag from `p`. */
    method EvictOne(p: Publisher)
      requires inner != map[]
      modifies this`inner
      ensures exists k :: OldestOf(old(inner), EvictionTier(old(inner), p), k) && inner == old(inner) - {k}
    {
      var own := OwnSingletons(inner, p);
      var victim: Tag;
      if own != {} {
        victim := FindOldest(own);
      } else {
        var singles := Singletons(inner);
        if singles != {} {
          victim := FindOldest(singles);
        } else {
          victim := FindOldest(inner.Keys);
        }
      }
      assert OldestOf(inner, EvictionTier(inner, p), victim);
      inner := inner - {victim};
    }

    method SortedKeys(publishers: map<Publisher, nat>) returns (s: seq<Publisher>)
      ensures Increasing(s) && Names(s) == publishers.Keys
    {
      var left, listed := publishers.Keys, [];
      while left != {}
        invariant left <= publishers.Keys
        invariant Names(listed) == publishers.Keys - left
        invariant Distinct(listed)
      {
        var p :| p in left;
        assert p !in Names(listed);
        assert Names(listed + [p]) == Names(listed) + {p};
        listed := listed + [p];
        left := left - {p};
      }
      s := SortByKey(listed, (p: Publisher) => p as real);
      SortedDistinct(listed, s);
    }

    /** Prune, insert, clamp, test, on one entry. */
    method ObserveEntry(tag: Tag, st: TagState, p: Publisher, secs: nat, now: nat)
      returns (st': TagState, alert: Option<LeakAlert>)
      ensures st' == Observe(config, st, p, secs, now).0
      ensures alert.Some? <==> Observe(config, st, p, secs, now).1
      ensures alert.Some? ==> AlertNames(alert.value, tag, st')
    {
      var publishers := Live(st.publishers, now, config.window)[p := now];
      st' := st.(lastObserved := secs, publishers := publishers);
      var distinct := |publishers|;
      if st'.alertedAt > distinct {
        st' := st'.(alertedAt := distinct);
      }
      alert := None;
      if distinct >= LEAK_PUBLISHER_THRESHOLD && distinct > st'.alertedAt {
        st' := st'.(alertedAt := distinct);
        var names := SortedKeys(publishers);
        alert := Some(LeakAlert(tag, names, st'.lastObserved));
      }
    }

    /** The capacity guard of a record. */
    method MakeRoom(tag: Tag, p: Publisher)
      requires config.capacity > 0
      modifies this`inner
      ensures MadeRoom(config, old(inner), tag, p, inner)
    {
      if tag !in inner && |inner| >= config.capacity {
        EvictOne(p);
      }
    }

    method Record(tag: Tag, p: Publisher, secs: nat, now: nat) returns (alert: Option<LeakAlert>)
      requires Valid() && now >= clock
      modifies this
      ensures Valid() && Step(config, old(Abs()), Event.Record(tag, p, secs, now, alert), Abs())
    {
      MakeRoom(tag, p);
      ghost var room := inner;
      var st := if tag in inner then inner[tag] else Created(now, secs);
      st, alert := ObserveEntry(tag, st, p, secs, now);
      inner := inner[tag := st];
      clock := now;
      RecordIsStep(config, old(Abs()), room, tag, p, secs, now, Abs(), alert);
    }

    /** Returns how many tags were dropped. */
    method Reap(now: nat) returns (dropped: nat)
      requires Valid() && now >= clock
      modifies this
      ensures Valid() && Step(config, old(Abs()), Event.Reap(now), Abs())
      ensures dropped == |old(inner)| - |inner|
    {
      var before := |inner|;
      ghost var was := inner;
      inner := ReapTable(config, inner, now);
      clock := now;
      StepPreserves(config, old(Abs()), Event.Reap(now), Abs());
      SubsetSize(inner.Keys, was.Keys);
      dropped := before - |inner|;
    }
  }

  lemma RecordIsStep(c: Config, s: State, room: Table, tag: Tag, p: Publisher, secs: nat, now: nat, s': State,
                     alert: Option<LeakAlert>)
    requires Inv(c, s.table) && s.clock <= now == s'.clock && MadeRoom(c, s.table, tag, p, room)
    requires RecordOn(c, room, tag, p, secs, now, s'.table, alert)
    ensures Inv(c, s'.table) && Step(c, s, Event.Record(tag, p, secs, now, alert), s')
  {
    RecordPreserves(c, s.table, tag, p, secs, now, s'.table, alert);
  }

  lemma SortedDistinct(listed: seq<Publisher>, s: seq<Publisher>)
    requires SortedByKey(s, (p: Publisher) => p as real)
    requires multiset(s) == multiset(listed) && Distinct(listed)
    ensures Increasing(s) && Names(s) == Names(listed)
  {
    PermutationStaysDistinct(listed, s);
  }
}
